/** The white space a statement's end loses is Unicode's, as its bytes spell it (pipeline/root_package.go). */
module GradleSpaces {
  import opened GoStrings
  import opened GradleStatements

  function Byte(n: int): char
    requires 0 <= n < 256
  {
    n as char
  }

  /** The bytes of a code point in UTF-8. */
  function Utf8(c: char): (b: string)
    ensures 1 <= |b| <= 4
  {
    var n := c as int;
    if n < 0x80 then [c]
    else if n < 0x800 then [Byte(0xC0 + n / 64), Byte(0x80 + n % 64)]
    else if n < 0x1_0000 then [Byte(0xE0 + n / 4096), Byte(0x80 + n / 64 % 64), Byte(0x80 + n % 64)]
    else [Byte(0xF0 + n / 262144), Byte(0x80 + n / 4096 % 64), Byte(0x80 + n / 64 % 64), Byte(0x80 + n % 64)]
  }

  function Encode(s: string): string {
    if s == "" then "" else Encode(s[..|s| - 1]) + Utf8(s[|s| - 1])
  }

  lemma OneByte(front: string, c: char)
    requires c < '\U{80}'
    ensures BlankTail(front + Utf8(c)) == if IsSpace(c) then 1 else 0
  {
    var s := front + Utf8(c);
    assert s[|s| - 1] == c;
  }

  lemma TwoBytes(front: string, c: char)
    requires '\U{80}' <= c < '\U{800}'
    ensures BlankTail(front + Utf8(c)) == if IsSpace(c) then 2 else 0
  {
    var n, s, b := c as int, front + Utf8(c), Utf8(c);
    assert s[|s| - 2] == b[0] && s[|s| - 1] == b[1];
    assert b[0] as int == 0xC0 + n / 64 && b[1] as int == 0x80 + n % 64;
    assert b[0] >= '\U{C2}';
  }

  lemma ThreeBytes(front: string, c: char)
    requires '\U{800}' <= c && c as int < 0x1_0000
    ensures BlankTail(front + Utf8(c)) == if IsSpace(c) then 3 else 0
  {
    hide IsBlankByte;
    var n, s, b := c as int, front + Utf8(c), Utf8(c);
    assert s[|s| - 3] == b[0] && s[|s| - 2] == b[1] && s[|s| - 1] == b[2];
    assert !IsBlankByte(b[2]) by { HighIsNotBlank(b[2]); }
    WideSpaces(c);
  }

  lemma HighIsNotBlank(c: char)
    requires c >= '\U{80}'
    ensures !IsBlankByte(c)
  {
  }

  lemma WideSpaces(c: char)
    requires '\U{800}' <= c && c as int < 0x1_0000
    ensures var b := Utf8(c); IsWideSpace(b[0], b[1], b[2]) <==> IsSpace(c)
    ensures Utf8(c)[1] < '\U{C0}' && Utf8(c)[2] >= '\U{80}'
  {
    var n := c as int;
    Digits(n);
    WideByDigits(c, n / 4096, n / 64 % 64, n % 64);
    hide IsWideSpace, IsSpace;
  }

  lemma Digits(n: nat)
    ensures n == 4096 * (n / 4096) + 64 * (n / 64 % 64) + n % 64
  {
    assert n / 64 == 64 * (n / 4096) + n / 64 % 64;
  }

  lemma WideByDigits(c: char, x: nat, y: nat, z: nat)
    requires c >= '\U{800}' && c as int == 4096 * x + 64 * y + z && x < 16 && y < 64 && z < 64
    ensures IsWideSpace(Byte(0xE0 + x), Byte(0x80 + y), Byte(0x80 + z)) <==> IsSpace(c)
  {
    hide IsLineSpace;
    LineSpaces(z);
  }

  lemma LineSpaces(z: nat)
    requires z < 64
    ensures IsLineSpace(Byte(0x80 + z)) <==> z == 0x28 || z == 0x29 || z == 0x2F
  {
  }

  lemma FourBytes(front: string, c: char)
    requires c as int >= 0x1_0000
    ensures BlankTail(front + Utf8(c)) == 0 && !IsSpace(c)
  {
    var s, b := front + Utf8(c), Utf8(c);
    assert s[|s| - 3] == b[1] && s[|s| - 2] == b[2] && s[|s| - 1] == b[3];
    assert '\U{80}' <= b[1] < '\U{C0}' && '\U{80}' <= b[2] < '\U{C0}' && b[3] >= '\U{80}';
  }

  /** A text ends in white space exactly when its last code point is white space, and by as many bytes. */
  lemma TailIsLastRune(front: string, c: char)
    ensures BlankTail(front + Utf8(c)) == if IsSpace(c) then |Utf8(c)| else 0
  {
    hide BlankTail, IsSpace;
    if c < '\U{80}' {
      OneByte(front, c);
    } else if c < '\U{800}' {
      TwoBytes(front, c);
    } else if c as int < 0x1_0000 {
      ThreeBytes(front, c);
    } else {
      FourBytes(front, c);
    }
  }

  /** Trimming the bytes of a text trims the text. */
  lemma {:induction false} TrimsTheText(text: string)
    ensures TrimTail(Encode(text)) == Encode(TrimRight(text, IsSpace))
  {
    hide BlankTail, Utf8, IsSpace;
    if text != "" {
      var front, c := text[..|text| - 1], text[|text| - 1];
      TailIsLastRune(Encode(front), c);
      var s := Encode(text);
      if IsSpace(c) {
        assert s[..|s| - |Utf8(c)|] == Encode(front);
        TrimsTheText(front);
      }
    } else {
      assert BlankTail("") == 0 by { NoTail(); }
    }
  }

  lemma NoTail()
    ensures BlankTail("") == 0
  {
  }
}
