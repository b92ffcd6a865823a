/**
 The operations of Go's strings and strconv packages that the modelled code calls. A Go string is
 modelled as the sequence of its code points.
 */
module GoStrings {

  datatype Option<+T> = None | Some(value: T)

  const MAX_INT64: nat := 0x7FFF_FFFF_FFFF_FFFF

  predicate IsDigit(c: char) {
    '0' <= c <= '9'
  }

  predicate IsLower(c: char) {
    'a' <= c <= 'z'
  }

  predicate IsUpper(c: char) {
    'A' <= c <= 'Z'
  }

  /** The Unicode White_Space code points, as unicode.IsSpace reports them. */
  predicate IsSpace(c: char) {
    '\t' <= c <= '\r' || c == ' ' || c == '\U{85}' || c == '\U{A0}' || c == '\U{1680}'
    || '\U{2000}' <= c <= '\U{200A}' || c == '\U{2028}' || c == '\U{2029}' || c == '\U{202F}'
    || c == '\U{205F}' || c == '\U{3000}'
  }

  /** unicode.ToLower, up to where it sends a non-ASCII letter that stays outside ASCII. */
  function LowerChar(c: char): char {
    if IsUpper(c) then (c as int + 32) as char
    else if c == '\U{212A}' then 'k'
    else if c == '\U{130}' then 'i'
    else c
  }

  function ToLower(s: string): (r: string)
    ensures |r| == |s|
    ensures forall i :: 0 <= i < |s| ==> r[i] == LowerChar(s[i])
  {
    if s == [] then [] else [LowerChar(s[0])] + ToLower(s[1..])
  }

  /** How many bytes UTF-8 takes for a code point, and for a text: what len counts. */
  function RuneLength(c: char): nat {
    if c < '\U{80}' then 1 else if c < '\U{800}' then 2 else if c < '\U{10000}' then 3 else 4
  }

  function ByteLength(s: string): (n: nat)
    ensures n >= |s|
  {
    if s == "" then 0 else RuneLength(s[0]) + ByteLength(s[1..])
  }

  lemma {:induction false} ASCIIBytes(s: string)
    requires forall i :: 0 <= i < |s| ==> s[i] < '\U{80}'
    ensures ByteLength(s) == |s|
  {
    if s != "" {
      ASCIIBytes(s[1..]);
    }
  }

  predicate AllDigits(s: string) {
    forall i :: 0 <= i < |s| ==> IsDigit(s[i])
  }

  // ----- comparison -----

  function CmpInt(a: int, b: int): (c: int) {
    if a < b then -1 else if a > b then 1 else 0
  }

  /** strings.Compare: the lexicographic order. */
  function CompareText(a: string, b: string): (c: int)
    ensures -1 <= c <= 1
  {
    if a == [] then (if b == [] then 0 else -1)
    else if b == [] then 1
    else if a[0] < b[0] then -1
    else if a[0] > b[0] then 1
    else CompareText(a[1..], b[1..])
  }

  lemma {:induction false} TextAntisymmetric(a: string, b: string)
    ensures CompareText(a, b) == -CompareText(b, a)
    ensures CompareText(a, b) == 0 <==> a == b
  {
    if a != [] && b != [] && a[0] == b[0] {
      TextAntisymmetric(a[1..], b[1..]);
      assert a == [a[0]] + a[1..] && b == [b[0]] + b[1..];
    }
  }

  lemma {:induction false} TextTransitive(a: string, b: string, c: string)
    requires CompareText(a, b) <= 0 && CompareText(b, c) <= 0
    ensures CompareText(a, c) <= 0
    ensures CompareText(a, b) < 0 || CompareText(b, c) < 0 ==> CompareText(a, c) < 0
  {
    if a != [] && b != [] && c != [] && a[0] == b[0] == c[0] {
      TextTransitive(a[1..], b[1..], c[1..]);
    }
  }

  /** a comes before b: it is a shorter prefix, or smaller at the first character that differs. */
  ghost predicate TextBefore(a: string, b: string) {
    exists k :: TextBeforeAt(a, b, k)
  }

  ghost predicate TextBeforeAt(a: string, b: string, k: nat) {
    k <= |a| && k < |b| && a[..k] == b[..k] && (k == |a| || a[k] < b[k])
  }

  lemma {:induction false} TextOrder(a: string, b: string)
    ensures CompareText(a, b) < 0 <==> TextBefore(a, b)
  {
    if a != [] && b != [] && a[0] == b[0] {
      TextOrder(a[1..], b[1..]);
      if k: nat :| TextBeforeAt(a[1..], b[1..], k) {
        assert a[..k + 1] == [a[0]] + a[1..][..k] && b[..k + 1] == [b[0]] + b[1..][..k];
        assert TextBeforeAt(a, b, k + 1);
      }
      if k: nat :| TextBeforeAt(a, b, k) {
        assert a[..k][0] == b[..k][0] || k == 0;
        assert a[1..][..k - 1] == a[..k][1..] && b[1..][..k - 1] == b[..k][1..];
        assert TextBeforeAt(a[1..], b[1..], k - 1);
      }
    } else if b != [] && (a == [] || a[0] < b[0]) {
      assert TextBeforeAt(a, b, 0);
    } else if a != [] && b != [] {
      forall k: nat ensures !TextBeforeAt(a, b, k) {
        assert k > 0 ==> k <= |a| && k < |b| ==> a[..k][0] == a[0] && b[..k][0] == b[0];
      }
    }
  }

  // ----- searching and cutting -----

  /** strings.IndexByte: the first position of c in s, or -1. */
  function IndexOf(s: string, c: char): (i: int)
    ensures -1 <= i < |s|
    ensures i >= 0 ==> s[i] == c && forall k :: 0 <= k < i ==> s[k] != c
    ensures i < 0 ==> c !in s
  {
    if s == [] then -1
    else if s[0] == c then 0
    else
      var r := IndexOf(s[1..], c);
      if r < 0 then -1 else r + 1
  }

  function TrimPrefix(s: string, prefix: string): string {
    if prefix <= s then s[|prefix|..] else s
  }

  function TrimLeft(s: string, blank: char -> bool): (r: string)
    ensures |r| <= |s| && r == s[|s| - |r|..]
    ensures r != [] ==> !blank(r[0])
    ensures forall i :: 0 <= i < |s| - |r| ==> blank(s[i])
  {
    if s == [] || !blank(s[0]) then s else TrimLeft(s[1..], blank)
  }

  function TrimRight(s: string, blank: char -> bool): (r: string)
    ensures |r| <= |s| && r == s[..|r|]
    ensures r != [] ==> !blank(r[|r| - 1])
    ensures forall i :: |r| <= i < |s| ==> blank(s[i])
  {
    if s == [] || !blank(s[|s| - 1]) then s else TrimRight(s[..|s| - 1], blank)
  }

  /** strings.TrimFunc. */
  function TrimFunc(s: string, blank: char -> bool): string {
    TrimRight(TrimLeft(s, blank), blank)
  }

  function TrimSpace(s: string): string {
    TrimFunc(s, IsSpace)
  }

  lemma TrimNothing(s: string, blank: char -> bool)
    requires s != [] ==> !blank(s[0]) && !blank(s[|s| - 1])
    ensures TrimFunc(s, blank) == s
  {
  }

  /** strings.Split on a one-byte separator. */
  function Split(s: string, sep: char): (parts: seq<string>)
    ensures |parts| >= 1
  {
    if s == [] then [[]]
    else
      var rest := Split(s[1..], sep);
      if s[0] == sep then [[]] + rest
      else [[s[0]] + rest[0]] + rest[1..]
  }

  function Join(parts: seq<string>, sep: char): string
    requires |parts| >= 1
  {
    if |parts| == 1 then parts[0] else parts[0] + [sep] + Join(parts[1..], sep)
  }

  /** What Split says of s: joining the parts gives s back, and no part holds the separator. */
  lemma {:induction false} JoinSplit(s: string, sep: char)
    ensures Join(Split(s, sep), sep) == s
    ensures forall i :: 0 <= i < |Split(s, sep)| ==> sep !in Split(s, sep)[i]
  {
    if s != [] {
      JoinSplit(s[1..], sep);
      var rest := Split(s[1..], sep);
      var parts := Split(s, sep);
      if s[0] == sep {
        assert parts[1..] == rest;
      } else {
        assert parts[1..] == rest[1..];
        assert forall i :: 0 < i < |parts| ==> parts[i] == rest[i];
      }
      assert s == [s[0]] + s[1..];
    }
  }

  /** Conversely a list of separator-free parts is what its join splits into. */
  lemma {:induction false} SplitJoin(parts: seq<string>, sep: char)
    requires |parts| >= 1
    requires forall i :: 0 <= i < |parts| ==> sep !in parts[i]
    ensures Split(Join(parts, sep), sep) == parts
  {
    var head := parts[0];
    if |parts| == 1 {
      SplitHead(head, [], sep);
      assert head + [] == head;
    } else {
      SplitJoin(parts[1..], sep);
      SplitHead(head, [sep] + Join(parts[1..], sep), sep);
      assert head + ([sep] + Join(parts[1..], sep)) == Join(parts, sep);
    }
  }

  lemma {:induction false} SplitHead(head: string, tail: string, sep: char)
    requires sep !in head
    requires tail == [] || tail[0] == sep
    ensures Split(head + tail, sep) == [head] + (if tail == [] then [] else Split(tail[1..], sep))
  {
    if head == [] {
      assert head + tail == tail;
    } else {
      SplitHead(head[1..], tail, sep);
      assert (head + tail)[1..] == head[1..] + tail;
      assert [head[0]] + head[1..] == head;
    }
  }

  /** When every character of every part is allowed, so is every character of s but the separators. */
  lemma {:induction false} SplitChars(s: string, sep: char, allowed: char -> bool)
    requires forall i, k :: 0 <= i < |Split(s, sep)| && 0 <= k < |Split(s, sep)[i]| ==> allowed(Split(s, sep)[i][k])
    ensures forall k :: 0 <= k < |s| ==> s[k] == sep || allowed(s[k])
  {
    if s != [] {
      var rest, parts := Split(s[1..], sep), Split(s, sep);
      forall i, k | 0 <= i < |rest| && 0 <= k < |rest[i]| ensures allowed(rest[i][k]) {
        if s[0] == sep {
          assert parts[i + 1][k] == rest[i][k];
        } else if i == 0 {
          assert parts[0][k + 1] == rest[0][k];
        } else {
          assert parts[i][k] == rest[i][k];
        }
      }
      assert s[0] != sep ==> parts[0][0] == s[0];
      SplitChars(s[1..], sep, allowed);
      forall k | 0 <= k < |s| ensures s[k] == sep || allowed(s[k]) {
        assert k > 0 ==> s[k] == s[1..][k - 1];
      }
    }
  }

  /** And the other way: a join holds nothing but its parts' characters and separators. */
  lemma {:induction false} JoinChars(parts: seq<string>, sep: char, allowed: char -> bool)
    requires parts != [] && forall i, k :: 0 <= i < |parts| && 0 <= k < |parts[i]| ==> allowed(parts[i][k])
    ensures forall k :: 0 <= k < |Join(parts, sep)| ==> allowed(Join(parts, sep)[k]) || Join(parts, sep)[k] == sep
  {
    if |parts| > 1 {
      JoinChars(parts[1..], sep, allowed);
      var rest, all := Join(parts[1..], sep), Join(parts, sep);
      forall k | 0 <= k < |all| ensures allowed(all[k]) || all[k] == sep {
        if k > |parts[0]| { assert all[k] == rest[k - |parts[0]| - 1]; }
      }
    }
  }

  lemma FirstIndex(front: string, c: char, behind: string)
    requires c !in front
    ensures IndexOf(front + [c] + behind, c) == |front|
  {
    var s := front + [c] + behind;
    assert s[|front|] == c;
    assert forall k :: 0 <= k < |front| ==> s[k] == front[k];
  }

  // ----- numbers -----

  /** The number a string of digits denotes. */
  function Decimal(s: string): (n: nat)
    requires AllDigits(s)
  {
    if s == [] then 0 else 10 * Decimal(s[..|s| - 1]) + (s[|s| - 1] as int - '0' as int)
  }

  function Itoa(n: nat): (s: string)
    ensures s != [] && AllDigits(s) && Decimal(s) == n
    ensures |s| > 1 ==> s[0] != '0'
  {
    var last := ('0' as int + n % 10) as char;
    if n < 10 then [last] else Itoa(n / 10) + [last]
  }

  /**
   A non-negative decimal int without a leading '+': "-0" and "-00" are read as 0, since
   strconv.Atoi accepts the sign and the result is not negative.
   */
  function AtoiNonNeg(s: string): (r: Option<nat>)
    ensures r.Some? ==> r.value <= MAX_INT64
  {
    var body := if s != [] && s[0] == '-' then s[1..] else s;
    if body == [] || !AllDigits(body) || Decimal(body) > MAX_INT64 then None
    else if body != s && Decimal(body) != 0 then None
    else Some(Decimal(body))
  }

  lemma AtoiItoa(n: nat)
    ensures AtoiNonNeg(Itoa(n)) == if n <= MAX_INT64 then Some(n) else None
  {
    assert IsDigit(Itoa(n)[0]);
  }

  /** Zeros in front of a number change nothing. */
  lemma {:induction false} ZerosInFront(zeros: string, s: string)
    requires AllDigits(s) && forall i :: 0 <= i < |zeros| ==> zeros[i] == '0'
    ensures AllDigits(zeros + s) && Decimal(zeros + s) == Decimal(s)
    decreases |zeros| + |s|
  {
    var all := zeros + s;
    assert forall i :: |zeros| <= i < |all| ==> all[i] == s[i - |zeros|];
    if s != "" {
      ZerosInFront(zeros, s[..|s| - 1]);
      assert all[..|all| - 1] == zeros + s[..|s| - 1];
    } else if zeros != "" {
      ZerosInFront(zeros[..|zeros| - 1], "");
      assert all[..|all| - 1] == zeros[..|zeros| - 1] + "";
    }
  }

  /** A text reads as a number exactly when it is that number in plain decimal with zeros in front, or zero behind a
      minus sign, and the number fits an int. */
  lemma AtoiExactly(s: string, n: nat)
    ensures AtoiNonNeg(s) == Some(n) <==>
            n <= MAX_INT64 && (IsPadded(s, n) || (n == 0 && s != "" && s[0] == '-' && IsPadded(s[1..], 0)))
  {
    hide Itoa;
    Padded(s, n);
    if s != "" { Padded(s[1..], 0); }
    if s != "" && s[0] == '-' {
      assert !IsDigit(s[0]);
    }
  }

  ghost predicate IsPadded(s: string, n: nat) {
    exists zeros: string :: (forall i :: 0 <= i < |zeros| ==> zeros[i] == '0') && s == zeros + Itoa(n)
  }

  lemma Padded(s: string, n: nat)
    ensures IsPadded(s, n) <==> s != "" && AllDigits(s) && Decimal(s) == n
  {
    hide Itoa;
    if zeros: string :| (forall i :: 0 <= i < |zeros| ==> zeros[i] == '0') && s == zeros + Itoa(n) {
      ZerosInFront(zeros, Itoa(n));
    }
    if s != "" && AllDigits(s) && Decimal(s) == n {
      var zeros := Unpad(s);
    }
  }

  lemma {:induction false} Unpad(s: string) returns (zeros: string)
    requires s != "" && AllDigits(s)
    ensures (forall i :: 0 <= i < |zeros| ==> zeros[i] == '0') && s == zeros + Itoa(Decimal(s))
  {
    hide Itoa, Decimal;
    var front, last := s[..|s| - 1], s[|s| - 1];
    ItoaOfLast(s);
    assert s == front + [last];
    if front == "" {
      zeros := "";
      assert Decimal(front) == 0 by { NoDigits(); }
    } else {
      var z := Unpad(front);
      if Decimal(front) == 0 {
        zeros := front;
        ZeroFront(front, z);
      } else {
        zeros := z;
      }
    }
  }

  lemma NoDigits()
    ensures Decimal("") == 0
  {
  }

  lemma ItoaOfLast(s: string)
    requires s != "" && AllDigits(s)
    ensures var front, last := s[..|s| - 1], s[|s| - 1];
            AllDigits(front) && Itoa(Decimal(s)) == (if Decimal(front) == 0 then "" else Itoa(Decimal(front))) + [last]
  {
    var front, last := s[..|s| - 1], s[|s| - 1];
    var d := last as int - '0' as int;
    assert IsDigit(last) && AllDigits(front);
    assert Decimal(s) == 10 * Decimal(front) + d;
    assert ('0' as int + d) as char == last;
    hide Decimal;
    ItoaOfNext(Decimal(front), d);
  }

  lemma ItoaOfNext(n: nat, d: nat)
    requires d < 10
    ensures Itoa(10 * n + d) == (if n == 0 then "" else Itoa(n)) + [('0' as int + d) as char]
  {
    hide Decimal;
    assert (10 * n + d) / 10 == n && (10 * n + d) % 10 == d;
  }

  lemma ZeroFront(front: string, z: string)
    requires (forall i :: 0 <= i < |z| ==> z[i] == '0') && front == z + Itoa(0)
    ensures forall i :: 0 <= i < |front| ==> front[i] == '0'
  {
    assert Itoa(0) == "0";
  }

  lemma AtoiChars(s: string, k: nat)
    requires AtoiNonNeg(s).Some? && k < |s|
    ensures IsDigit(s[k]) || (k == 0 && s[k] == '-')
  {
    if s[0] == '-' && k > 0 {
      assert IsDigit(s[1..][k - 1]);
    }
  }
}
