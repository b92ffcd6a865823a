/** The Gradle script lexer: maskGradle (pipeline/root_package.go). A script is the sequence of its bytes. */
module GradleScript {
  import opened GoStrings

  // ----- one token -----

  datatype Kind = LineComment | BlockComment | Quoted(width: nat) | OpenBrace | CloseBrace | Other

  /** The token a text begins with, and how long it is. */
  datatype Token = Token(kind: Kind, length: nat)

  predicate Has(s: string, pattern: string, j: nat) {
    j + |pattern| <= |s| && s[j..j + |pattern|] == pattern
  }

  /** strings.Index: the first place of the pattern from j on. */
  function Find(s: string, pattern: string, j: nat): (r: Option<nat>)
    ensures r.Some? ==> r.value >= j && Has(s, pattern, r.value) && forall k :: j <= k < r.value ==> !Has(s, pattern, k)
    ensures r.None? ==> forall k: nat :: j <= k ==> !Has(s, pattern, k)
    decreases |s| - j
  {
    if Has(s, pattern, j) then Some(j)
    else if j >= |s| then None
    else Find(s, pattern, j + 1)
  }

  function LineLength(s: string): (n: nat)
    ensures n <= |s| && (forall k :: 0 <= k < n ==> s[k] != '\n') && (n < |s| ==> s[n] == '\n')
  {
    if IndexOf(s, '\n') < 0 then |s| else IndexOf(s, '\n')
  }

  /** The closing quote from j on; a backslash takes the byte behind it along. */
  function Closing(s: string, q: string, j: nat): (r: Option<nat>)
    ensures r.Some? ==> j <= r.value < |s| && Has(s, q, r.value)
    decreases |s| - j
  {
    if j >= |s| then None
    else if Has(s, q, j) then Some(j)
    else Closing(s, q, if s[j] == '\\' then j + 2 else j + 1)
  }

  function Quotes(c: char, width: nat): (q: string)
    ensures |q| == width && forall k :: 0 <= k < width ==> q[k] == c
  {
    seq(width, _ => c)
  }

  function Width(s: string): (w: nat)
    requires s != ""
    ensures w == 1 || w == 3
  {
    if Has(s, Quotes(s[0], 3), 0) then 3 else 1
  }

  predicate IsQuote(c: char) {
    c == '\'' || c == '"'
  }

  /** The token at the front; None when a comment or a string does not close. */
  function Cut(s: string): (t: Option<Token>)
    requires s != ""
    ensures t.Some? ==> 0 < t.value.length <= |s|
    ensures t.Some? && t.value.kind.Quoted? ==> 0 < t.value.kind.width && 2 * t.value.kind.width <= t.value.length
    ensures t.Some? && (t.value.kind.OpenBrace? || t.value.kind.CloseBrace? || t.value.kind.Other?) ==>
            t.value.length == 1
  {
    if "//" <= s then Some(Token(LineComment, LineLength(s)))
    else if "/*" <= s then
      match Find(s, "*/", 2)
      case Some(j) => Some(Token(BlockComment, j + 2))
      case None => None
    else if IsQuote(s[0]) then
      var w := Width(s);
      match Closing(s, Quotes(s[0], w), w)
      case Some(j) => Some(Token(Quoted(w), j + w))
      case None => None
    else Some(Token(if s[0] == '{' then OpenBrace else if s[0] == '}' then CloseBrace else Other, 1))
  }

  // ----- the mask -----

  datatype Masked = Masked(code: string, depth: seq<int>)

  /** Position k of a token is in a comment or among a string's contents. */
  predicate InBody(t: Token, k: nat) {
    match t.kind
    case LineComment => true
    case BlockComment => true
    case Quoted(w) => w <= k && k + w < t.length
    case _ => false
  }

  function Blank(c: char): char {
    if c == '\n' then c else ' '
  }

  function TokenCode(s: string, t: Token): (c: string)
    requires t.length <= |s|
    ensures |c| == t.length
    ensures forall k :: 0 <= k < t.length ==> c[k] == if InBody(t, k) then Blank(s[k]) else s[k]
  {
    seq(t.length, k requires 0 <= k < t.length => if InBody(t, k) then Blank(s[k]) else s[k])
  }

  /** The depth array at position k of a token: a comment sets its first byte only. */
  function DepthAt(t: Token, k: int, d: int): int {
    if k > 0 && (t.kind.LineComment? || t.kind.BlockComment?) then 0 else d
  }

  function TokenDepth(t: Token, d: int): (r: seq<int>)
    ensures |r| == t.length
    ensures forall k :: 0 <= k < t.length ==> r[k] == DepthAt(t, k, d)
  {
    seq(t.length, k => DepthAt(t, k, d))
  }

  function After(t: Token, d: int): int {
    if t.kind.OpenBrace? then d + 1 else if t.kind.CloseBrace? then d - 1 else d
  }

  function Prepend(code: string, depth: seq<int>, rest: Option<Masked>): Option<Masked> {
    match rest
    case Some(m) => Some(Masked(code + m.code, depth + m.depth))
    case None => None
  }

  /** maskGradle on the rest of a script whose brace depth is d. */
  function Mask(s: string, d: int): (r: Option<Masked>)
    ensures r.Some? ==> |r.value.code| == |s| && |r.value.depth| == |s|
    decreases |s|
  {
    if s == "" then (if d == 0 then Some(Masked("", [])) else None)
    else match Cut(s)
      case None => None
      case Some(t) =>
        if After(t, d) < 0 then None
        else Prepend(TokenCode(s, t), TokenDepth(t, d), Mask(s[t.length..], After(t, d)))
  }

  // ----- maskGradle -----

  method BlankOut(code: array<char>, from: nat, to: nat)
    requires from <= to <= code.Length
    modifies code
    ensures forall k :: 0 <= k < code.Length ==> code[k] == if from <= k < to then Blank(old(code[k])) else old(code[k])
  {
    for k := from to to
      invariant forall l :: 0 <= l < code.Length ==>
                code[l] == if from <= l < k then Blank(old(code[l])) else old(code[l])
    {
      if code[k] != '\n' {
        code[k] := ' ';
      }
    }
  }

  method ScanClosing(s: string, q: string, from: nat) returns (j: nat)
    ensures if Closing(s, q, from).Some? then j == Closing(s, q, from).value else j >= |s|
  {
    j := from;
    while j < |s| && !Has(s, q, j)
      invariant Closing(s, q, from) == Closing(s, q, j)
      decreases |s| - j
    {
      if s[j] == '\\' {
        j := j + 1;
      }
      j := j + 1;
    }
  }

  /** One turn of maskGradle's loop: the token at i masked in place. */
  method MaskToken(src: string, code: array<char>, depth: array<int>, i: nat, d: int) returns (t: Option<Token>)
    requires i < |src| == code.Length == depth.Length && code[i..] == src[i..]
    requires forall k :: i <= k < |src| ==> depth[k] == 0
    modifies code, depth
    ensures t == Cut(src[i..])
    ensures t.Some? ==> i + t.value.length <= |src|
    ensures t.Some? ==> forall k :: 0 <= k < |src| ==>
              code[k] == if i <= k < i + t.value.length && InBody(t.value, k - i) then Blank(src[k]) else old(code[k])
    ensures t.Some? ==> forall k :: 0 <= k < |src| ==>
              depth[k] == if i <= k < i + t.value.length then DepthAt(t.value, k - i, d) else old(depth[k])
  {
    hide Find, Closing, LineLength, Has, Blank;
    assert forall k :: i <= k < |src| ==> code[k] == code[i..][k - i] == src[i..][k - i] == src[k];
    var s := src[i..];
    depth[i] := d;
    if "//" <= s {
      var n := LineLength(s);
      BlankOut(code, i, i + n);
      return Some(Token(LineComment, n));
    }
    if "/*" <= s {
      var j := Find(s, "*/", 2);
      if j.None? {
        return None;
      }
      t := Some(Token(BlockComment, j.value + 2));
      assert t == Cut(s);
      BlankOut(code, i, i + j.value + 2);
      return;
    }
    if IsQuote(s[0]) {
      var w := Width(s);
      var j := ScanClosing(s, Quotes(s[0], w), w);
      if j >= |s| {
        return None;
      }
      t := Some(Token(Quoted(w), j + w));
      assert t == Cut(s);
      BlankOut(code, i + w, i + j);
      for k := i to i + j + w
        invariant forall l :: 0 <= l < |src| ==> depth[l] == if i <= l < k || l == i then d else old(depth[l])
        modifies depth
      {
        depth[k] := d;
      }
      return;
    }
    return Some(Token(if s[0] == '{' then OpenBrace else if s[0] == '}' then CloseBrace else Other, 1));
  }

  lemma {:induction false} MaskStep(src: string, code: string, depth: seq<int>, i: nat, d: int, t: Token, code': string,
                                    depth': seq<int>)
    requires i < |src| && |code| == |depth| == i && Cut(src[i..]) == Some(t)
    requires Mask(src, 0) == Prepend(code, depth, Mask(src[i..], d))
    requires code' == code + TokenCode(src[i..], t) && depth' == depth + TokenDepth(t, d)
    ensures After(t, d) < 0 ==> Mask(src, 0).None?
    ensures After(t, d) >= 0 ==> Mask(src, 0) == Prepend(code', depth', Mask(src[i + t.length..], After(t, d)))
  {
    hide Cut, TokenCode, TokenDepth, Mask, After, Prepend;
    assert src[i..][t.length..] == src[i + t.length..];
    MaskUnrolls(src[i..], d, t);
    PrependTwice(code, depth, TokenCode(src[i..], t), TokenDepth(t, d), Mask(src[i + t.length..], After(t, d)));
  }

  lemma MaskUnrolls(s: string, d: int, t: Token)
    requires s != "" && Cut(s) == Some(t)
    ensures Mask(s, d) ==
            if After(t, d) < 0 then None
            else Prepend(TokenCode(s, t), TokenDepth(t, d), Mask(s[t.length..], After(t, d)))
  {
    hide Cut, After, Prepend, TokenCode, TokenDepth;
  }

  lemma PrependTwice(code: string, depth: seq<int>, code': string, depth': seq<int>, rest: Option<Masked>)
    ensures Prepend(code, depth, Prepend(code', depth', rest)) == Prepend(code + code', depth + depth', rest)
    ensures Prepend(code, depth, None) == None
  {
    if rest.Some? {
      assert code + (code' + rest.value.code) == (code + code') + rest.value.code;
      assert depth + (depth' + rest.value.depth) == (depth + depth') + rest.value.depth;
    }
  }

  lemma MaskedSoFar(src: string, t: Token, i: nat, d: int, code: string, depth: seq<int>, code': string,
                    depth': seq<int>)
    requires i + t.length <= |src| && |code| == |depth| == i && |code'| == |depth'| == i + t.length
    requires code'[..i] == code && depth'[..i] == depth
    requires forall k :: i <= k < i + t.length ==> code'[k] == if InBody(t, k - i) then Blank(src[k]) else src[k]
    requires forall k :: i <= k < i + t.length ==> depth'[k] == DepthAt(t, k - i, d)
    ensures code' == code + TokenCode(src[i..], t) && depth' == depth + TokenDepth(t, d)
  {
    hide InBody, Blank, DepthAt;
  }

  lemma PrependNothing(r: Option<Masked>)
    ensures Prepend("", [], r) == r
  {
    if r.Some? { assert "" + r.value.code == r.value.code && [] + r.value.depth == r.value.depth; }
  }

  lemma PrependToNothing(code: string, depth: seq<int>)
    ensures Prepend(code, depth, Some(Masked("", []))) == Some(Masked(code, depth))
  {
    assert code + "" == code && depth + [] == depth;
  }

  method MaskGradle(src: string) returns (r: Option<Masked>)
    ensures r == Mask(src, 0)
  {
    hide Cut, Mask, Prepend, After, InBody, DepthAt;
    var code := new char[|src|](k requires 0 <= k < |src| => src[k]);
    var depth := new int[|src|](_ => 0);
    var d := 0;
    var i := 0;
    assert code[..] == src && src[0..] == src;
    PrependNothing(Mask(src, 0));
    while i < |src|
      invariant 0 <= i <= |src| && d >= 0
      invariant code[i..] == src[i..] && forall k :: i <= k < |src| ==> depth[k] == 0
      invariant Mask(src, 0) == Prepend(code[..i], depth[..i], Mask(src[i..], d))
      decreases |src| - i
    {
      var t := MaskNext(src, code, depth, i, d);
      if t.None? {
        return None;
      }
      d := After(t.value, d);
      if d < 0 {
        return None;
      }
      i := i + t.value.length;
    }
    assert src[i..] == "" && code[..] == code[..i] && depth[..] == depth[..i];
    EmptyMask(d);
    PrependToNothing(code[..], depth[..]);
    PrependNoMask(code[..], depth[..]);
    if d != 0 {
      return None;
    }
    return Some(Masked(code[..], depth[..]));
  }

  /** One turn of the loop: the token at i is masked, and what is masked so far grows by it. */
  method MaskNext(src: string, code: array<char>, depth: array<int>, i: nat, d: int) returns (t: Option<Token>)
    requires i < |src| == code.Length == depth.Length && code[i..] == src[i..]
    requires forall k :: i <= k < |src| ==> depth[k] == 0
    requires Mask(src, 0) == Prepend(code[..i], depth[..i], Mask(src[i..], d))
    modifies code, depth
    ensures t.None? ==> Mask(src, 0).None?
    ensures t.Some? ==> 0 < t.value.length <= |src| - i
    ensures t.Some? ==>
              var n := i + t.value.length;
              && code[n..] == src[n..] && (forall k :: n <= k < |src| ==> depth[k] == 0)
              && (After(t.value, d) < 0 ==> Mask(src, 0).None?)
              && (After(t.value, d) >= 0 ==>
                    Mask(src, 0) == Prepend(code[..n], depth[..n], Mask(src[n..], After(t.value, d))))
  {
    hide Cut, TokenCode, TokenDepth, Mask, Prepend, InBody, DepthAt;
    ghost var before, depths := code[..i], depth[..i];
    t := MaskToken(src, code, depth, i, d);
    UncutMask(src[i..], d, before, depths);
    if t.Some? {
      var n := i + t.value.length;
      MaskedSoFar(src, t.value, i, d, before, depths, code[..n], depth[..n]);
      MaskStep(src, before, depths, i, d, t.value, code[..n], depth[..n]);
    }
  }

  lemma EmptyMask(d: int)
    ensures Mask("", d) == if d == 0 then Some(Masked("", [])) else None
  {
  }

  lemma UncutMask(s: string, d: int, code: string, depth: seq<int>)
    requires s != ""
    ensures Cut(s).None? ==> Mask(s, d).None? && Prepend(code, depth, None).None?
  {
    hide Cut;
  }

  lemma PrependNoMask(code: string, depth: seq<int>)
    ensures Prepend(code, depth, None) == None
  {
  }
}
