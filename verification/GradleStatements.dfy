/** gradleStatements: the statements of a masked script at one brace depth (pipeline/root_package.go). */
module GradleStatements {
  import opened GoStrings

  type Span = (int, int)

  /** What strings.TrimSpace takes from a single byte. */
  predicate IsBlankByte(c: char) {
    '\t' <= c <= '\r' || c == ' '
  }

  /** How many bytes the white space rune at the end of a text takes, or 0: unicode.IsSpace on UTF-8. */
  function BlankTail(s: string): (n: nat)
    ensures n <= |s| && n <= 3
    ensures forall k :: |s| - n <= k < |s| ==> IsBlankByte(s[k]) || s[k] >= '\U{80}'
  {
    if s == "" then 0
    else if IsBlankByte(s[|s| - 1]) then 1
    else if |s| >= 2 && s[|s| - 2] == '\U{C2}' && (s[|s| - 1] == '\U{85}' || s[|s| - 1] == '\U{A0}') then 2
    else if |s| >= 3 && IsWideSpace(s[|s| - 3], s[|s| - 2], s[|s| - 1]) then 3
    else 0
  }

  predicate IsLineSpace(c: char) {
    c == '\U{A8}' || c == '\U{A9}' || c == '\U{AF}'
  }

  /** U+1680, U+2000 to U+200A, U+2028, U+2029, U+202F, U+205F and U+3000. */
  predicate IsWideSpace(a: char, b: char, c: char) {
    || (a == '\U{E1}' && b == '\U{9A}' && c == '\U{80}')
    || (a == '\U{E2}' && b == '\U{80}' && ('\U{80}' <= c <= '\U{8A}' || IsLineSpace(c)))
    || (a == '\U{E2}' && b == '\U{81}' && c == '\U{9F}')
    || (a == '\U{E3}' && b == '\U{80}' && c == '\U{80}')
  }

  /** strings.TrimRightFunc(s, unicode.IsSpace). */
  function TrimTail(s: string): (r: string)
    ensures |r| <= |s| && r == s[..|r|] && BlankTail(r) == 0
    ensures forall k :: |r| <= k < |s| ==> IsBlankByte(s[k]) || s[k] >= '\U{80}'
    decreases |s|
  {
    if BlankTail(s) == 0 then s else TrimTail(s[..|s| - BlankTail(s)])
  }

  /** What is trimmed away is white space altogether. */
  lemma {:induction false} TailIsBlank(s: string)
    ensures TrimTail(s[|TrimTail(s)|..]) == ""
    decreases |s|
  {
    if BlankTail(s) > 0 {
      var shorter := s[..|s| - BlankTail(s)];
      TailIsBlank(shorter);
      var tail, cut := s[|TrimTail(s)|..], |TrimTail(shorter)|;
      assert tail[..|tail| - BlankTail(s)] == shorter[cut..];
      SameBlankTail(s, cut);
      hide BlankTail;
      assert TrimTail(tail) == TrimTail(shorter[cut..]);
    }
  }

  /** The white space rune at the end is seen in any tail that holds it. */
  lemma SameBlankTail(s: string, cut: nat)
    requires cut + BlankTail(s) <= |s| && BlankTail(s) > 0
    ensures BlankTail(s[cut..]) == BlankTail(s)
  {
    hide IsWideSpace, IsBlankByte;
  }

  /** A newline or a semicolon at the level. */
  predicate Ends(code: string, depth: seq<int>, level: int, i: nat)
    requires i < |code| == |depth|
  {
    (code[i] == '\n' || code[i] == ';') && depth[i] == level
  }

  /** One span: from a byte that is not blank to the next end at the level, or to the end of the range. */
  ghost predicate IsPiece(code: string, depth: seq<int>, level: int, from: nat, to: nat, p: Span)
    requires from <= to <= |code| == |depth|
  {
    && from <= p.0 < p.1 <= to && !IsBlankByte(code[p.0])
    && (forall i :: p.0 <= i < p.1 ==> !Ends(code, depth, level, i))
    && (p.1 < to ==> Ends(code, depth, level, p.1))
  }

  ghost predicate Held(raw: seq<Span>, i: int) {
    exists k :: 0 <= k < |raw| && raw[k].0 <= i < raw[k].1
  }

  /** The spans in order, one behind the other, with every byte of code[from:to] that is neither blank nor an end. */
  ghost predicate IsSplit(code: string, depth: seq<int>, level: int, from: nat, to: nat, raw: seq<Span>)
    requires from <= to <= |code| == |depth|
  {
    && (forall k :: 0 <= k < |raw| ==> IsPiece(code, depth, level, from, to, raw[k]))
    && (forall k, l :: 0 <= k < l < |raw| ==> raw[k].1 < raw[l].0)
    && (forall i :: from <= i < to && !IsBlankByte(code[i]) && !Ends(code, depth, level, i) ==> Held(raw, i))
  }

  function Trimmed(code: string, p: Span): Span
    requires 0 <= p.0 <= p.1 <= |code|
  {
    (p.0, p.0 + |TrimTail(code[p.0..p.1])|)
  }

  /** The pieces found in code[from:i], and the start of the one still open. */
  ghost predicate Scanned(code: string, depth: seq<int>, level: int, from: nat, i: nat, to: nat, raw: seq<Span>,
                          start: int)
    requires from <= i <= to <= |code| == |depth|
  {
    && (forall k :: 0 <= k < |raw| ==> IsPiece(code, depth, level, from, to, raw[k]) && raw[k].1 < i)
    && (forall k, l :: 0 <= k < l < |raw| ==> raw[k].1 < raw[l].0)
    && (forall k :: from <= k < i && !IsBlankByte(code[k]) && !Ends(code, depth, level, k) ==>
          (start < 0 || k < start ==> Held(raw, k)))
    && (start >= 0 ==>
          && from <= start < i && !IsBlankByte(code[start])
          && (forall k :: start <= k < i ==> !Ends(code, depth, level, k))
          && (forall k :: 0 <= k < |raw| ==> raw[k].1 < start))
  }

  method SplitRaw(code: string, depth: seq<int>, from: nat, to: nat, level: int) returns (raw: seq<Span>)
    requires from <= to <= |code| == |depth|
    ensures IsSplit(code, depth, level, from, to, raw)
  {
    hide Scanned, IsSplit;
    raw := [];
    var start: int := -1;
    NothingScanned(code, depth, level, from, to);
    for i := from to to
      invariant start >= -1 && Scanned(code, depth, level, from, i, to, raw, start)
    {
      var end := (code[i] == '\n' || code[i] == ';') && depth[i] == level;
      if !end || start < 0 {
        NextByte(code, depth, level, from, i, to, raw, start);
      }
      if end && start >= 0 {
        PieceEnds(code, depth, level, from, i, to, raw, start);
        raw := raw + [(start, i)];
        start := -1;
      } else if !end && start < 0 && !IsBlankByte(code[i]) {
        start := i;
      }
    }
    if start >= 0 {
      LastPiece(code, depth, level, from, to, raw, start);
      raw := raw + [(start, to as int)];
    } else {
      NoOpenPiece(code, depth, level, from, to, raw, start);
    }
  }

  lemma NothingScanned(code: string, depth: seq<int>, level: int, from: nat, to: nat)
    requires from <= to <= |code| == |depth|
    ensures Scanned(code, depth, level, from, from, to, [], -1)
  {
  }

  /** A byte that ends nothing: it opens a piece when none is open and it is not blank. */
  lemma NextByte(code: string, depth: seq<int>, level: int, from: nat, i: nat, to: nat, raw: seq<Span>, start: int)
    requires from <= i < to <= |code| == |depth| && Scanned(code, depth, level, from, i, to, raw, start)
    requires start >= -1 && !(Ends(code, depth, level, i) && start >= 0)
    ensures Scanned(code, depth, level, from, i + 1, to, raw,
                    if !Ends(code, depth, level, i) && start < 0 && !IsBlankByte(code[i]) then i else start)
  {
    hide Held, IsPiece, IsBlankByte;
  }

  lemma NoOpenPiece(code: string, depth: seq<int>, level: int, from: nat, to: nat, raw: seq<Span>, start: int)
    requires from <= to <= |code| == |depth| && Scanned(code, depth, level, from, to, to, raw, start) && start < 0
    ensures IsSplit(code, depth, level, from, to, raw)
  {
    hide Held, IsPiece;
  }

  lemma HeldMore(raw: seq<Span>, p: Span, i: int)
    requires Held(raw, i) || p.0 <= i < p.1
    ensures Held(raw + [p], i)
  {
    var all := raw + [p];
    if Held(raw, i) {
      var k :| 0 <= k < |raw| && raw[k].0 <= i < raw[k].1;
      assert all[k] == raw[k];
    } else {
      assert all[|raw|] == p;
    }
  }

  lemma PieceEnds(code: string, depth: seq<int>, level: int, from: nat, i: nat, to: nat, raw: seq<Span>, start: int)
    requires from <= i < to <= |code| == |depth| && start >= 0
    requires Scanned(code, depth, level, from, i, to, raw, start) && Ends(code, depth, level, i)
    ensures Scanned(code, depth, level, from, i + 1, to, raw + [(start, i as int)], -1)
  {
    hide Held;
    forall k | from <= k < i + 1 && !IsBlankByte(code[k]) && !Ends(code, depth, level, k)
      ensures Held(raw + [(start, i as int)], k) {
      HeldMore(raw, (start, i as int), k);
    }
  }

  lemma LastPiece(code: string, depth: seq<int>, level: int, from: nat, to: nat, raw: seq<Span>, start: int)
    requires from <= to <= |code| == |depth| && start >= 0
    requires Scanned(code, depth, level, from, to, to, raw, start)
    ensures IsSplit(code, depth, level, from, to, raw + [(start, to as int)])
  {
    hide Held;
    forall k | from <= k < to && !IsBlankByte(code[k]) && !Ends(code, depth, level, k)
      ensures Held(raw + [(start, to as int)], k) {
      HeldMore(raw, (start, to as int), k);
    }
  }

  /** out are the pieces of raw with their ends trimmed. */
  ghost predicate TrimsOf(code: string, depth: seq<int>, level: int, from: nat, to: nat, raw: seq<Span>, out: seq<Span>)
    requires from <= to <= |code| == |depth|
  {
    && IsSplit(code, depth, level, from, to, raw)
    && |out| == |raw| && forall k :: 0 <= k < |raw| ==>
         IsPiece(code, depth, level, from, to, raw[k]) && out[k] == Trimmed(code, raw[k])
  }

  ghost predicate AreStatements(code: string, depth: seq<int>, level: int, from: nat, to: nat, out: seq<Span>)
    requires from <= to <= |code| == |depth|
  {
    exists raw: seq<Span> :: TrimsOf(code, depth, level, from, to, raw, out)
  }

  lemma PieceBounds(code: string, depth: seq<int>, level: int, from: nat, to: nat, raw: seq<Span>)
    requires from <= to <= |code| == |depth| && IsSplit(code, depth, level, from, to, raw)
    ensures forall k :: 0 <= k < |raw| ==>
              IsPiece(code, depth, level, from, to, raw[k]) && 0 <= raw[k].0 < raw[k].1 <= |code|
  {
    hide Held, Ends;
  }

  /** gradleStatements: the pieces, then each end trimmed in place. */
  method Statements(code: string, depth: seq<int>, from: nat, to: nat, level: int) returns (out: seq<Span>)
    requires from <= to <= |code| == |depth|
    ensures AreStatements(code, depth, level, from, to, out)
  {
    hide IsSplit, IsPiece, TrimTail;
    out := SplitRaw(code, depth, from, to, level);
    ghost var raw := out;
    PieceBounds(code, depth, level, from, to, raw);
    for k := 0 to |out|
      invariant |out| == |raw|
      invariant forall l :: 0 <= l < |raw| ==> out[l] == if l < k then Trimmed(code, raw[l]) else raw[l]
    {
      var st := out[k];
      out := out[k := (st.0, st.0 + |TrimTail(code[st.0..st.1])|)];
    }
    assert TrimsOf(code, depth, level, from, to, raw, out);
  }

  // ----- what the statements are -----

  /** The statements are in order and apart; each begins with a byte that is not blank, ends behind one and holds no
      end of the level. It is empty exactly when all the text from there to the next end is white space. */
  lemma StatementsAreTrimmed(code: string, depth: seq<int>, from: nat, to: nat, level: int, out: seq<Span>, k: nat)
    returns (end: nat)
    requires from <= to <= |code| == |depth| && AreStatements(code, depth, level, from, to, out) && k < |out|
    ensures var st := out[k];
            && from <= st.0 <= st.1 <= end <= to && !IsBlankByte(code[st.0])
            && (forall i :: st.0 <= i < end ==> !Ends(code, depth, level, i))
            && (end == to || Ends(code, depth, level, end))
            && BlankTail(code[st.0..st.1]) == 0 && TrimTail(code[st.1..end]) == ""
            && (st.0 == st.1 <==> TrimTail(code[st.0..end]) == "")
    ensures k + 1 < |out| ==> end < out[k + 1].0
  {
    hide BlankTail, TrimTail, IsSplit, Ends, IsBlankByte;
    var raw: seq<Span> :| TrimsOf(code, depth, level, from, to, raw, out);
    Pieces(code, depth, level, from, to, raw);
    var p := raw[k];
    end := p.1;
    var body := code[p.0..end];
    TailIsBlank(body);
    CutInTwo(code, p.0, p.0 + |TrimTail(body)|, end);
    assert body[0] == code[p.0];
  }

  lemma CutInTwo(code: string, from: nat, i: nat, end: nat)
    requires from <= i <= end <= |code|
    ensures code[from..end][..i - from] == code[from..i] && code[from..end][i - from..] == code[i..end]
  {
  }

  /** White space behind a statement, up to the piece's end. */
  ghost predicate TrimmedOff(code: string, st: Span, end: int, i: int) {
    0 <= st.1 <= i < end <= |code| && TrimTail(code[st.1..end]) == "" && code[i] >= '\U{80}'
  }

  /** Every byte of the range that is neither blank nor an end of the level is in a statement, or in the white
      space trimmed off the end of one, and there only as part of a rune outside ASCII. */
  lemma EveryByteIsSomewhere(code: string, depth: seq<int>, from: nat, to: nat, level: int, out: seq<Span>, i: nat)
    returns (k: nat, end: nat)
    requires from <= i < to <= |code| == |depth| && AreStatements(code, depth, level, from, to, out)
    requires !IsBlankByte(code[i]) && !Ends(code, depth, level, i)
    ensures k < |out| && (out[k].0 <= i < out[k].1 || TrimmedOff(code, out[k], end, i))
    ensures k + 1 < |out| ==> end < out[k + 1].0
  {
    hide BlankTail, TrimTail, IsSplit, Held;
    var raw: seq<Span> :| TrimsOf(code, depth, level, from, to, raw, out);
    Pieces(code, depth, level, from, to, raw);
    k := PieceHolding(code, depth, level, from, to, raw, i);
    end := raw[k].1;
    var body := code[raw[k].0..end];
    TailIsBlank(body);
    assert code[out[k].1..end] == body[|TrimTail(body)|..];
    assert body[i - raw[k].0] == code[i];
  }

  /** A line of a lone no-break space is a statement, and an empty one. */
  lemma BlankStatement()
    ensures IsSplit("\U{C2}\U{A0}", [0, 0], 0, 0, 2, [(0, 2)]) && Trimmed("\U{C2}\U{A0}", (0, 2)) == (0, 0)
  {
    var code := "\U{C2}\U{A0}";
    assert code[0..2] == code && BlankTail(code) == 2 && code[..0] == "";
    assert TrimTail(code) == TrimTail(code[..0]);
    assert [(0, 2)][0] == (0, 2);
    assert forall i :: 0 <= i < 2 ==> Held([(0, 2)], i) by {
      assert [(0, 2)][0].0 == 0 && [(0, 2)][0].1 == 2;
    }
  }

  // ----- there is one split -----

  lemma PieceIsFound(code: string, depth: seq<int>, level: int, from: nat, to: nat, a: seq<Span>, b: seq<Span>, k: nat)
    returns (l: nat)
    requires from <= to <= |code| == |depth| && k < |a|
    requires IsSplit(code, depth, level, from, to, a) && IsSplit(code, depth, level, from, to, b)
    ensures l < |b| && b[l] == a[k]
  {
    hide IsSplit, Held, IsBlankByte, Ends;
    Pieces(code, depth, level, from, to, a);
    Pieces(code, depth, level, from, to, b);
    var p := a[k];
    l := PieceHolding(code, depth, level, from, to, b, p.0);
    var q := b[l];
    var j := PieceHolding(code, depth, level, from, to, a, q.0);
    assert j >= k;
    assert q.0 == p.0;
    SameEnd(code, depth, level, from, to, p, q);
  }

  lemma Pieces(code: string, depth: seq<int>, level: int, from: nat, to: nat, raw: seq<Span>)
    requires from <= to <= |code| == |depth| && IsSplit(code, depth, level, from, to, raw)
    ensures forall k :: 0 <= k < |raw| ==> IsPiece(code, depth, level, from, to, raw[k])
    ensures forall k, l :: 0 <= k < l < |raw| ==> raw[k].1 < raw[l].0
  {
  }

  lemma PieceHolding(code: string, depth: seq<int>, level: int, from: nat, to: nat, raw: seq<Span>, i: nat)
    returns (l: nat)
    requires from <= i < to <= |code| == |depth| && IsSplit(code, depth, level, from, to, raw)
    requires !IsBlankByte(code[i]) && !Ends(code, depth, level, i)
    ensures l < |raw| && raw[l].0 <= i < raw[l].1 && IsPiece(code, depth, level, from, to, raw[l])
  {
    assert Held(raw, i);
    l :| 0 <= l < |raw| && raw[l].0 <= i < raw[l].1;
  }

  lemma SameEnd(code: string, depth: seq<int>, level: int, from: nat, to: nat, p: Span, q: Span)
    requires from <= to <= |code| == |depth| && p.0 == q.0
    requires IsPiece(code, depth, level, from, to, p) && IsPiece(code, depth, level, from, to, q)
    ensures p == q
  {
    hide Ends, IsBlankByte;
  }

  ghost predicate Rising(s: seq<Span>) {
    forall k, l :: 0 <= k < l < |s| ==> s[k].0 < s[l].0
  }

  lemma {:induction false} RisingIsUnique(a: seq<Span>, b: seq<Span>)
    requires Rising(a) && Rising(b)
    requires forall p :: p in a <==> p in b
    ensures a == b
    decreases |a|
  {
    assert a != [] ==> a[0] in a;
    assert b != [] ==> b[0] in b;
    if a != [] && b != [] {
      assert a[0] in b && b[0] in a;
      assert a[0] == b[0];
      forall p ensures p in a[1..] <==> p in b[1..] {
        TailOf(a, p);
        TailOf(b, p);
      }
      RisingIsUnique(a[1..], b[1..]);
      assert a == [a[0]] + a[1..] && b == [b[0]] + b[1..];
    }
  }

  lemma TailOf(s: seq<Span>, p: Span)
    requires Rising(s) && s != []
    ensures p in s[1..] <==> p in s && p != s[0]
  {
    if p in s && p != s[0] {
      var k :| 0 <= k < |s| && s[k] == p;
      assert s[1..][k - 1] == p;
    }
  }

  /** The statements of a range at a level are determined by the text and the depths. */
  lemma StatementsAreUnique(code: string, depth: seq<int>, level: int, from: nat, to: nat, a: seq<Span>, b: seq<Span>)
    requires from <= to <= |code| == |depth|
    requires AreStatements(code, depth, level, from, to, a) && AreStatements(code, depth, level, from, to, b)
    ensures a == b
  {
    hide IsSplit, IsPiece, TrimTail;
    var x: seq<Span> :| TrimsOf(code, depth, level, from, to, x, a);
    var y: seq<Span> :| TrimsOf(code, depth, level, from, to, y, b);
    SplitIsUnique(code, depth, level, from, to, x, y);
  }

  lemma SplitIsUnique(code: string, depth: seq<int>, level: int, from: nat, to: nat, a: seq<Span>, b: seq<Span>)
    requires from <= to <= |code| == |depth|
    requires IsSplit(code, depth, level, from, to, a) && IsSplit(code, depth, level, from, to, b)
    ensures a == b
  {
    forall p ensures p in a <==> p in b {
      if p in a {
        var k :| 0 <= k < |a| && a[k] == p;
        var l := PieceIsFound(code, depth, level, from, to, a, b, k);
      }
      if p in b {
        var k :| 0 <= k < |b| && b[k] == p;
        var l := PieceIsFound(code, depth, level, from, to, b, a, k);
      }
    }
    assert forall k :: 0 <= k < |a| ==> IsPiece(code, depth, level, from, to, a[k]);
    assert forall k :: 0 <= k < |b| ==> IsPiece(code, depth, level, from, to, b[k]);
    RisingIsUnique(a, b);
  }
}
