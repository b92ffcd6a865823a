/** What maskGradle keeps of a script, and that masking a masked script changes nothing. */
module MaskProperties {
  import opened GoStrings
  import opened GradleScript

  // ----- where the comments and the strings are -----

  /** Byte k of s is in a comment or among the contents of a string. */
  ghost predicate Body(s: string, k: nat)
    decreases |s|
  {
    k < |s| && Cut(s).Some? &&
    var t := Cut(s).value;
    if k < t.length then InBody(t, k) else Body(s[t.length..], k - t.length)
  }

  /** Byte k of s is in a comment, behind its first byte. */
  ghost predicate CommentTail(s: string, k: nat)
    decreases |s|
  {
    k < |s| && Cut(s).Some? &&
    var t := Cut(s).value;
    if k < t.length then k > 0 && (t.kind.LineComment? || t.kind.BlockComment?)
      else CommentTail(s[t.length..], k - t.length)
  }

  lemma MaskIsHeadAndRest(s: string, d: int)
    requires s != "" && Mask(s, d).Some?
    ensures Cut(s).Some? && After(Cut(s).value, d) >= 0 && Cut(s).value.length <= |s|
    ensures var t := Cut(s).value;
            var rest := Mask(s[t.length..], After(t, d));
            && rest.Some?
            && Mask(s, d).value.code == TokenCode(s, t) + rest.value.code
            && Mask(s, d).value.depth == TokenDepth(t, d) + rest.value.depth
  {
    hide Cut, TokenCode, TokenDepth;
  }

  /** Every offset and every newline is kept; a byte changes only in a comment or a string, to a blank. */
  lemma {:induction false} MaskBlanksBodies(s: string, d: int)
    requires Mask(s, d).Some?
    ensures |Mask(s, d).value.code| == |s|
    ensures forall k :: 0 <= k < |s| ==> Mask(s, d).value.code[k] == if Body(s, k) then Blank(s[k]) else s[k]
    decreases |s|
  {
    hide Mask, Cut, InBody, Blank;
    if s != "" {
      MaskIsHeadAndRest(s, d);
      var t := Cut(s).value;
      MaskBlanksBodies(s[t.length..], After(t, d));
      var code, rest := Mask(s, d).value.code, Mask(s[t.length..], After(t, d)).value.code;
      forall k | 0 <= k < |s| ensures code[k] == if Body(s, k) then Blank(s[k]) else s[k] {
        if k >= t.length { assert code[k] == rest[k - t.length]; }
      }
    } else {
      MaskIsNothing(d);
    }
  }

  lemma MaskIsNothing(d: int)
    requires Mask("", d).Some?
    ensures d == 0 && Mask("", d).value == Masked("", [])
  {
  }

  // ----- the depths are brace counts -----

  function Weight(c: char): int {
    if c == '{' then 1 else if c == '}' then -1 else 0
  }

  /** The opening less the closing braces of a text. */
  function Braces(s: string): int {
    if s == "" then 0 else Weight(s[0]) + Braces(s[1..])
  }

  lemma {:induction false} BracesAppend(a: string, b: string)
    ensures Braces(a + b) == Braces(a) + Braces(b)
  {
    if a == "" {
      assert a + b == b;
    } else {
      BracesAppend(a[1..], b);
      assert (a + b)[1..] == a[1..] + b;
    }
  }

  lemma {:induction false} NoBraces(s: string)
    requires forall k :: 0 <= k < |s| ==> Weight(s[k]) == 0
    ensures Braces(s) == 0
  {
    if s != "" {
      NoBraces(s[1..]);
    }
  }

  /** The braces of a masked token's first bytes. */
  lemma TokenBraces(s: string, t: Token, d: int, k: nat)
    requires s != "" && Cut(s) == Some(t) && k <= t.length
    ensures Braces(TokenCode(s, t)[..k]) == if k == 0 then 0 else After(t, d) - d
  {
    hide Find, Closing, LineLength;
    var c := TokenCode(s, t)[..k];
    if t.kind.OpenBrace? || t.kind.CloseBrace? {
      if k == 1 { assert c == [s[0]] && c[1..] == ""; }
    } else {
      assert t.kind.Quoted? ==> Has(s, Quotes(s[0], t.kind.width), t.length - t.kind.width) by {
        if t.kind.Quoted? { QuotedEnds(s, t); }
      }
      forall j | 0 <= j < |c| ensures Weight(c[j]) == 0 {
        if t.kind.Quoted? && !InBody(t, j) {
          QuoteBytes(s, t, j);
        }
      }
      NoBraces(c);
    }
  }

  lemma QuotedEnds(s: string, t: Token)
    requires s != "" && Cut(s) == Some(t) && t.kind.Quoted?
    ensures IsQuote(s[0]) && t.kind.width == Width(s) && 2 * t.kind.width <= t.length <= |s|
    ensures Has(s, Quotes(s[0], t.kind.width), 0) && Has(s, Quotes(s[0], t.kind.width), t.length - t.kind.width)
    ensures Closing(s, Quotes(s[0], t.kind.width), t.kind.width) == Some(t.length - t.kind.width)
  {
    hide Closing, Find, LineLength, Has, Width;
    HasWidth(s);
  }

  lemma HasWidth(s: string)
    requires s != ""
    ensures Has(s, Quotes(s[0], Width(s)), 0)
  {
  }

  /** Outside its contents a string token is quotes. */
  lemma QuoteBytes(s: string, t: Token, k: nat)
    requires s != "" && Cut(s) == Some(t) && t.kind.Quoted? && k < t.length && !InBody(t, k)
    ensures s[k] == s[0] && IsQuote(s[0])
  {
    QuotedEnds(s, t);
    hide Cut, Closing;
    var w, q := t.kind.width, Quotes(s[0], t.kind.width);
    if k < w {
      assert s[0..w][k] == q[k];
    } else {
      assert s[t.length - w..t.length][k - (t.length - w)] == q[k - (t.length - w)];
    }
  }

  /**
   The depth of every byte but the later ones of a comment is the brace count of the masked text before
   it; no prefix closes more than it opens, and the whole closes what it opens.
   */
  lemma {:induction false} DepthIsBraceCount(s: string, d: nat)
    requires Mask(s, d).Some?
    ensures |Mask(s, d).value.code| == |Mask(s, d).value.depth| == |s|
    ensures forall k :: 0 <= k < |s| ==>
              Mask(s, d).value.depth[k] == (if CommentTail(s, k) then 0 else d + Braces(Mask(s, d).value.code[..k]))
    ensures forall k :: 0 <= k <= |s| ==> d + Braces(Mask(s, d).value.code[..k]) >= 0
    ensures d + Braces(Mask(s, d).value.code) == 0
    decreases |s|
  {
    hide Mask, Cut, TokenCode, Braces;
    if s == "" {
      MaskIsNothing(d);
      assert Braces("") == 0 by { NoBraces(""); }
    } else {
      MaskIsHeadAndRest(s, d);
      var t := Cut(s).value;
      var d' := After(t, d);
      DepthIsBraceCount(s[t.length..], d');
      var m, rest := Mask(s, d).value, Mask(s[t.length..], d').value;
      forall k | 0 <= k <= |s|
        ensures d + Braces(m.code[..k]) >= 0
        ensures k < |s| ==> m.depth[k] == if CommentTail(s, k) then 0 else d + Braces(m.code[..k])
      {
        DepthAtByte(s, d, t, rest, k);
      }
      assert m.code[..|s|] == m.code;
      BracesAppend(TokenCode(s, t), rest.code);
      TokenBraces(s, t, d, t.length);
      assert TokenCode(s, t)[..t.length] == TokenCode(s, t);
    }
  }

  lemma DepthAtByte(s: string, d: nat, t: Token, rest: Masked, k: nat)
    requires s != "" && Cut(s) == Some(t) && After(t, d) >= 0 && k <= |s|
    requires |rest.code| == |rest.depth| == |s| - t.length
    requires forall j :: 0 <= j < |s| - t.length ==>
               rest.depth[j] == (if CommentTail(s[t.length..], j) then 0 else After(t, d) + Braces(rest.code[..j]))
    requires forall j :: 0 <= j <= |s| - t.length ==> After(t, d) + Braces(rest.code[..j]) >= 0
    ensures d + Braces((TokenCode(s, t) + rest.code)[..k]) >= 0
    ensures k < |s| ==>
              (TokenDepth(t, d) + rest.depth)[k] ==
              (if CommentTail(s, k) then 0 else d + Braces((TokenCode(s, t) + rest.code)[..k]))
  {
    hide Cut, TokenCode, Braces;
    var head := TokenCode(s, t);
    if k < t.length {
      assert (head + rest.code)[..k] == head[..k];
      TokenBraces(s, t, d, k);
      CutKinds(s, t);
    } else {
      assert (head + rest.code)[..k] == head + rest.code[..k - t.length];
      BracesAppend(head, rest.code[..k - t.length]);
      TokenBraces(s, t, d, t.length);
      assert head[..t.length] == head;
    }
  }

  lemma CutKinds(s: string, t: Token)
    requires s != "" && Cut(s) == Some(t)
    ensures t.kind.OpenBrace? || t.kind.CloseBrace? || t.kind.Other? ==> t.length == 1
    ensures t.length > 0
  {
  }

  // ----- masking again -----

  ghost predicate Blanks(b: string) {
    forall k :: 0 <= k < |b| ==> b[k] == ' ' || b[k] == '\n'
  }

  /** Blanks are their own tokens, each unmasked. */
  lemma {:induction false} BlanksStay(b: string, x: string, d: nat)
    requires Blanks(b) && Mask(x, d).Some?
    ensures Mask(b + x, d).Some? && Mask(b + x, d).value.code == b + Mask(x, d).value.code
  {
    hide Cut, Mask, IsPlain;
    if b == "" {
      assert b + x == x && b + Mask(x, d).value.code == Mask(x, d).value.code;
    } else {
      BlanksStay(b[1..], x, d);
      assert (b + x)[1..] == b[1..] + x && (b + x)[0] == b[0];
      BlankIsPlain(b + x);
      PlainStays(b + x, d);
      assert [b[0]] + (b[1..] + Mask(x, d).value.code) == b + Mask(x, d).value.code;
    }
  }

  /** A byte that begins no comment and no string is a token of its own. */
  predicate IsPlain(s: string) {
    s != "" && !("//" <= s) && !("/*" <= s) && !IsQuote(s[0])
  }

  lemma PlainStays(s: string, d: nat)
    requires IsPlain(s) && d + Weight(s[0]) >= 0 && Mask(s[1..], d + Weight(s[0])).Some?
    ensures Mask(s, d).Some? && Mask(s, d).value.code == [s[0]] + Mask(s[1..], d + Weight(s[0])).value.code
  {
    var t := Cut(s).value;
    assert t.length == 1 && After(t, d) == d + Weight(s[0]);
    assert TokenCode(s, t) == [s[0]];
  }

  lemma HasStarts(c: string, q: string, j: nat)
    requires q != "" && j < |c|
    ensures Has(c, q, j) ==> c[j] == q[0]
  {
    assert Has(c, q, j) ==> c[j] == c[j..j + |q|][0];
  }

  lemma HasTriple(s: string, c: char)
    ensures Has(s, Quotes(c, 3), 0) <==> |s| >= 3 && s[0] == c && s[1] == c && s[2] == c
  {
    if |s| >= 3 {
      var front, q := s[0..3], Quotes(c, 3);
      assert front[0] == s[0] && front[1] == s[1] && front[2] == s[2];
      assert front == q <==> front[0] == q[0] && front[1] == q[1] && front[2] == q[2];
    }
  }

  lemma TwoBytes(s: string, p: string)
    requires |p| == 2
    ensures p <= s <==> |s| >= 2 && s[0] == p[0] && s[1] == p[1]
  {
    if |s| >= 2 { assert s[..2] == [s[0], s[1]] && p == [p[0], p[1]]; }
  }

  lemma BlankIsPlain(s: string)
    requires s != "" && (s[0] == ' ' || s[0] == '\n')
    ensures IsPlain(s) && Weight(s[0]) == 0
  {
    TwoBytes(s, "//");
    TwoBytes(s, "/*");
  }

  /** A string keeps its quotes, and its blanked contents neither close it early nor escape anything. */
  lemma {:induction false} ClosingStays(c: string, q: string, from: nat, j: nat)
    requires q != "" && IsQuote(q[0]) && from <= j < |c| && Has(c, q, j)
    requires forall k :: from <= k < j ==> c[k] == ' ' || c[k] == '\n'
    ensures Closing(c, q, from) == Some(j)
    decreases j - from
  {
    if from < j {
      ClosingStays(c, q, from + 1, j);
      HasStarts(c, q, from);
    }
  }

  /** code is s masked, up to whether a byte of s is blanked. */
  ghost predicate Shaped(s: string, code: string) {
    |code| == |s| && forall k :: 0 <= k < |s| ==> code[k] == s[k] || code[k] == Blank(s[k])
  }

  lemma TokenIsShaped(s: string, t: Token, rest: string)
    requires t.length <= |s| && Shaped(s[t.length..], rest)
    ensures Shaped(s, TokenCode(s, t) + rest)
  {
    var code := TokenCode(s, t) + rest;
    forall k | 0 <= k < |s| ensures code[k] == s[k] || code[k] == Blank(s[k]) {
      if k >= t.length { assert code[k] == rest[k - t.length] && s[k] == s[t.length..][k - t.length]; }
    }
  }

  /** A masked string is again a string of the same width and length. */
  lemma QuotedAgain(s: string, t: Token, code: string)
    requires s != "" && Cut(s) == Some(t) && t.kind.Quoted? && Shaped(s, code) && t.length <= |s|
    requires forall k :: 0 <= k < t.length ==> code[k] == TokenCode(s, t)[k]
    ensures Cut(code) == Some(t)
  {
    QuotedEnds(s, t);
    hide Find, LineLength, Closing;
    var w := t.kind.width;
    var q := Quotes(s[0], w);
    forall k | 0 <= k < t.length && !InBody(t, k) ensures code[k] == s[0] {
      QuoteBytes(s, t, k);
    }
    assert code[t.length - w..t.length] == q && code[0] == s[0];
    ClosingStays(code, q, w, t.length - w);
    WidthAgain(s, t, code);
  }

  lemma WidthAgain(s: string, t: Token, code: string)
    requires s != "" && Cut(s) == Some(t) && t.kind.Quoted? && Shaped(s, code) && t.length <= |s|
    requires forall k :: 0 <= k < t.length ==> code[k] == if InBody(t, k) then Blank(s[k]) else s[0]
    requires IsQuote(s[0])
    ensures Width(code) == t.kind.width
  {
    hide Cut, Closing, Has;
    QuotedEnds(s, t);
    HasTriple(code, s[0]);
    HasTriple(s, s[0]);
    HasStarts(s, Quotes(s[0], t.kind.width), t.length - t.kind.width);
  }

  /** A byte that began no comment begins none once the bytes behind it are masked. */
  lemma PlainAgain(s: string, code: string)
    requires IsPlain(s) && Shaped(s, code) && code[0] == s[0]
    ensures IsPlain(code)
  {
    TwoBytes(s, "//");
    TwoBytes(s, "/*");
    TwoBytes(code, "//");
    TwoBytes(code, "/*");
  }

  lemma TokenKinds(s: string, t: Token)
    requires s != "" && Cut(s) == Some(t)
    ensures t.kind.LineComment? || t.kind.BlockComment? ==> Blanks(TokenCode(s, t)) && "/" <= s && t.length > 0
    ensures t.kind.OpenBrace? || t.kind.CloseBrace? || t.kind.Other? ==>
              IsPlain(s) && t.length == 1 && TokenCode(s, t) == [s[0]] && forall d: int ::
                After(t, d) == d + Weight(s[0])
  {
    hide Find, Closing, LineLength;
  }

  /** Masking a masked script gives it back. */
  lemma {:induction false} MaskAgain(s: string, d: nat)
    requires Mask(s, d).Some?
    ensures Mask(Mask(s, d).value.code, d).Some? && Mask(Mask(s, d).value.code, d).value.code == Mask(s, d).value.code
    ensures Shaped(s, Mask(s, d).value.code)
    decreases |s|
  {
    hide Mask, Cut, TokenCode, InBody, Blank;
    if s == "" {
      MaskIsNothing(d);
    } else {
      MaskIsHeadAndRest(s, d);
      var t := Cut(s).value;
      var d' := After(t, d);
      MaskAgain(s[t.length..], d');
      var head, code, rest := TokenCode(s, t), Mask(s, d).value.code, Mask(s[t.length..], d').value.code;
      assert code[..t.length] == head && code[t.length..] == rest;
      TokenIsShaped(s, t, rest);
      TokenKinds(s, t);
      if t.kind.LineComment? || t.kind.BlockComment? {
        BlanksStay(head, rest, d);
      } else if t.kind.Quoted? {
        QuotedAgain(s, t, code);
        QuotedStays(s, t, code, d);
      } else {
        PlainAgain(s, code);
        assert code[1..] == rest && code[0] == s[0];
        PlainStays(code, d);
      }
    }
  }

  lemma QuotedStays(s: string, t: Token, code: string, d: nat)
    requires t.kind.Quoted? && 0 < t.length <= |s| == |code| && Cut(code) == Some(t)
             && code[..t.length] == TokenCode(s, t)
    requires Mask(code[t.length..], d).Some? && Mask(code[t.length..], d).value.code == code[t.length..]
    ensures Mask(code, d).Some? && Mask(code, d).value.code == code
  {
    hide Cut, InBody, TokenCode, TokenDepth;
    TokenCodeAgain(s, t, code);
    assert code[..t.length] + code[t.length..] == code;
  }

  lemma TokenCodeAgain(s: string, t: Token, code: string)
    requires t.length <= |s| == |code| && code[..t.length] == TokenCode(s, t)
    ensures TokenCode(code, t) == code[..t.length]
  {
    hide InBody;
    assert forall k :: 0 <= k < t.length ==> code[k] == code[..t.length][k];
  }

  lemma {:induction false} NoCommentsLeft(c: string, d: nat)
    requires Mask(c, d).Some? && Mask(c, d).value.code == c
    ensures forall k :: 0 <= k < |c| ==> !CommentTail(c, k)
    decreases |c|
  {
    hide Mask, Cut, InBody, Blank, TokenCode;
    if c != "" {
      MaskIsHeadAndRest(c, d);
      var t := Cut(c).value;
      var rest := Mask(c[t.length..], After(t, d)).value;
      assert TokenCode(c, t) == c[..t.length] && rest.code == c[t.length..];
      NoCommentsLeft(c[t.length..], After(t, d));
      TokenKinds(c, t);
      assert !t.kind.LineComment? && !t.kind.BlockComment? by {
        assert c[..t.length][0] == c[0];
      }
    }
  }

  /**
   A masked script masks to itself, and then every byte has the brace count of the text before it as its
   depth: the depths the first masking gave, but for those it left at zero inside comments.
   */
  lemma MaskTwice(src: string)
    requires Mask(src, 0).Some?
    ensures var m := Mask(src, 0).value;
            && Mask(m.code, 0).Some? && Mask(m.code, 0).value.code == m.code
            && forall k :: 0 <= k < |src| ==>
                 && Mask(m.code, 0).value.depth[k] == Braces(m.code[..k])
                 && (!CommentTail(src, k) ==> Mask(m.code, 0).value.depth[k] == m.depth[k])
  {
    hide Mask, CommentTail, Braces;
    var m := Mask(src, 0).value;
    MaskAgain(src, 0);
    NoCommentsLeft(m.code, 0);
    DepthIsBraceCount(src, 0);
    DepthIsBraceCount(m.code, 0);
  }
}
