/** Maven version parsing and comparison (pipeline/maven_version.go). */
module MavenVersion {
  import opened GoStrings

  datatype Item = IntItem(n: nat) | StrItem(s: string) | ListItem(items: seq<Item>)

  // ----- qualifiers -----

  const RELEASE: nat := 5
  const UNKNOWN: nat := 7

  function NormalizeQualifier(q: string): string {
    if q == "ga" || q == "final" || q == "release" then ""
    else if q == "cr" then "rc"
    else q
  }

  function ExpandShortAlias(q: string): string {
    if q == "a" then "alpha" else if q == "b" then "beta" else if q == "m" then "milestone" else q
  }

  /** The position of q among the known qualifiers, or the number of them when it is unknown. */
  function QualifierOrder(q: string): (i: nat)
    ensures i <= UNKNOWN
  {
    var k := ExpandShortAlias(q);
    if k == "alpha" then 0
    else if k == "beta" then 1
    else if k == "milestone" then 2
    else if k == "rc" then 3
    else if k == "snapshot" then 4
    else if k == "" then RELEASE
    else if k == "sp" then 6
    else UNKNOWN
  }

  function CompareQualifier(a: string, b: string): (c: int)
    ensures -1 <= c <= 1
  {
    if QualifierOrder(a) != QualifierOrder(b) then CmpInt(QualifierOrder(a), QualifierOrder(b))
    else if QualifierOrder(a) == UNKNOWN then CompareText(a, b)
    else 0
  }

  lemma QualifierAntisymmetric(a: string, b: string)
    ensures CompareQualifier(a, b) == -CompareQualifier(b, a)
  {
    TextAntisymmetric(a, b);
  }

  lemma QualifierTransitive(a: string, b: string, c: string)
    requires CompareQualifier(a, b) <= 0 && CompareQualifier(b, c) <= 0
    ensures CompareQualifier(a, c) <= 0
    ensures CompareQualifier(a, c) < 0 <==> CompareQualifier(a, b) < 0 || CompareQualifier(b, c) < 0
  {
    hide QualifierOrder;
    TextAntisymmetric(a, b);
    TextAntisymmetric(b, c);
    TextAntisymmetric(a, c);
    if QualifierOrder(a) == QualifierOrder(b) == QualifierOrder(c) == UNKNOWN {
      TextTransitive(a, b, c);
    }
  }

  predicate IsNull(it: Item) {
    match it
    case IntItem(n) => n == 0
    case StrItem(s) => QualifierOrder(s) == RELEASE
    case ListItem(items) => items == []
  }

  // ----- parsing -----

  /** The lists on the parser's stack, the open one last, and the token being read. */
  datatype ScanState = ScanState(levels: seq<seq<Item>>, isDigit: bool, buf: string)

  predicate Scanning(st: ScanState) {
    |st.levels| >= 1 && (st.isDigit ==> AllDigits(st.buf))
  }

  function ParseItem(isDigit: bool, buf: string): Item
    requires isDigit ==> AllDigits(buf)
  {
    if isDigit then IntItem(Decimal(buf)) else StrItem(NormalizeQualifier(buf))
  }

  /** Between two separators with nothing between them the source appends a zero. */
  function Token(st: ScanState): Item
    requires Scanning(st)
  {
    if st.buf == "" then IntItem(0) else ParseItem(st.isDigit, st.buf)
  }

  function Append(levels: seq<seq<Item>>, it: Item): (r: seq<seq<Item>>)
    requires |levels| >= 1
    ensures |r| == |levels|
  {
    levels[|levels| - 1 := levels[|levels| - 1] + [it]]
  }

  predicate IsSeparator(c: char) {
    c == '-' || c == '_' || c == '+'
  }

  /** One character of the tokenizer: a separator after a digit, and each switch between digits and
      other text, opens a sub-list. */
  function Step(c: char, st: ScanState): (r: ScanState)
    requires Scanning(st)
    ensures Scanning(r)
  {
    if c == '.' then st.(levels := Append(st.levels, Token(st)), buf := "")
    else if IsSeparator(c) then
      var closed := Append(st.levels, Token(st));
      st.(levels := if st.isDigit then closed + [[]] else closed, buf := "")
    else if IsDigit(c) then
      if !st.isDigit && st.buf != "" then ScanState(Append(st.levels, ParseItem(false, st.buf)) + [[]], true, [c])
      else ScanState(st.levels, true, st.buf + [c])
    else
      if st.isDigit && st.buf != "" then ScanState(Append(st.levels, ParseItem(true, st.buf)) + [[]], false, [c])
      else ScanState(st.levels, false, st.buf + [c])
  }

  function Scan(s: string, st: ScanState): (r: ScanState)
    requires Scanning(st)
    ensures Scanning(r)
  {
    if s == "" then st else Scan(s[1..], Step(s[0], st))
  }

  function Finish(st: ScanState): (levels: seq<seq<Item>>)
    requires Scanning(st)
    ensures |levels| >= 1
  {
    if st.buf == "" then st.levels else Append(st.levels, ParseItem(st.isDigit, st.buf))
  }

  /** normalizeList: trailing null items go. */
  function Normalize(items: seq<Item>): (r: seq<Item>)
    ensures r <= items
    ensures r != [] ==> !IsNull(r[|r| - 1])
  {
    if items != [] && IsNull(items[|items| - 1]) then Normalize(items[..|items| - 1]) else items
  }

  /** The stacked lists, normalized from the deepest up, each the last item of the one above it. */
  function Assemble(levels: seq<seq<Item>>): seq<Item>
    requires |levels| >= 1
  {
    if |levels| == 1 then Normalize(levels[0])
    else Normalize(levels[0] + [ListItem(Assemble(levels[1..]))])
  }

  const START := ScanState([[]], false, "")

  function Parse(version: string): Item {
    ListItem(Assemble(Finish(Scan(ToLower(version), START))))
  }

  method NormalizeList(items: seq<Item>) returns (r: seq<Item>)
    ensures r == Normalize(items)
  {
    r := items;
    while r != [] && IsNull(r[|r| - 1])
      invariant Normalize(r) == Normalize(items)
      decreases |r|
    {
      r := r[..|r| - 1];
    }
  }

  /** parseMaven: the source's scan by index over a stack of lists, then its normalization of them. */
  method ParseMaven(version: string) returns (root: Item)
    ensures root == Parse(version)
  {
    hide ToLower, NormalizeQualifier, Assemble, Decimal;
    var v := ToLower(version);
    var levels: seq<seq<Item>> := [[]];
    var isDigit, startIndex := false, 0;
    assert v[0..] == v && v[0..0] == "";
    for i := 0 to |v|
      invariant 0 <= startIndex <= i && Scanning(ScanState(levels, isDigit, v[startIndex..i]))
      invariant Scan(v, START) == Scan(v[i..], ScanState(levels, isDigit, v[startIndex..i]))
    {
      var c := v[i];
      var buf := v[startIndex..i];
      assert v[i..][0] == c && v[i..][1..] == v[i + 1..];
      assert v[startIndex..i + 1] == buf + [c] && v[i..i + 1] == [c] && v[i + 1..i + 1] == "";
      if c == '.' || IsSeparator(c) {
        levels := Append(levels, if i == startIndex then IntItem(0) else ParseItem(isDigit, buf));
        startIndex := i + 1;
        if c != '.' && isDigit {
          levels := levels + [[]];
        }
      } else if IsDigit(c) {
        if !isDigit && i > startIndex {
          levels := Append(levels, ParseItem(false, buf)) + [[]];
          startIndex := i;
        }
        isDigit := true;
      } else {
        if isDigit && i > startIndex {
          levels := Append(levels, ParseItem(true, buf)) + [[]];
          startIndex := i;
        }
        isDigit := false;
      }
    }
    assert v[|v|..] == "";
    if |v| > startIndex {
      levels := Append(levels, ParseItem(isDigit, v[startIndex..|v|]));
    }
    var items := NormalizeLevels(levels);
    return ListItem(items);
  }

  /** The lists normalized from the deepest up. */
  method NormalizeLevels(levels: seq<seq<Item>>) returns (sub: seq<Item>)
    requires |levels| >= 1
    ensures sub == Assemble(levels)
  {
    hide Normalize;
    var n := |levels| - 1;
    assert levels[n..] == [levels[n]];
    sub := NormalizeList(levels[n]);
    while n > 0
      invariant 0 <= n < |levels|
      invariant sub == Assemble(levels[n..])
    {
      n := n - 1;
      assert levels[n..][1..] == levels[n + 1..];
      sub := NormalizeList(levels[n] + [ListItem(sub)]);
    }
    assert levels[0..] == levels;
  }

  // ----- comparison -----

  /** compareItem(a, nil). */
  function CompareNull(a: Item): (c: int)
    ensures -1 <= c <= 1
  {
    match a
    case IntItem(n) => if n == 0 then 0 else 1
    case StrItem(s) => CompareQualifier(s, "")
    case ListItem(items) => if items == [] then 0 else CompareNull(items[0])
  }

  function CompareItem(a: Item, b: Item): (c: int)
    ensures -1 <= c <= 1
    decreases a, 0, b
  {
    match (a, b)
    case (IntItem(m), IntItem(n)) => CmpInt(m, n)
    case (IntItem(_), _) => 1
    case (StrItem(_), IntItem(_)) => -1
    case (StrItem(s), StrItem(t)) => CompareQualifier(s, t)
    case (StrItem(_), ListItem(_)) => -1
    case (ListItem(_), IntItem(_)) => -1
    case (ListItem(_), StrItem(_)) => 1
    case (ListItem(x), ListItem(y)) => CompareLists(x, y)
  }

  /** Position by position, an exhausted list standing for null items. */
  function CompareLists(x: seq<Item>, y: seq<Item>): (c: int)
    ensures -1 <= c <= 1
    decreases x, 1, y
  {
    if x == [] && y == [] then 0
    else
      var c := if x == [] then -CompareNull(y[0]) else if y == [] then CompareNull(x[0]) else CompareItem(x[0], y[0]);
      if c != 0 then c else CompareLists(Tail(x), Tail(y))
  }

  function Tail<T>(s: seq<T>): seq<T> {
    if s == [] then [] else s[1..]
  }

  /** compareItem as the source runs it, with compareListItem's scan loop. */
  method CompareItems(a: Item, b: Item) returns (c: int)
    ensures c == CompareItem(a, b)
    decreases a
  {
    if !a.ListItem? || !b.ListItem? {
      return CompareItem(a, b);
    }
    var x, y := a.items, b.items;
    var n := if |y| > |x| then |y| else |x|;
    var i := 0;
    assert From(x, 0) == x && From(y, 0) == y;
    while i < n
      invariant 0 <= i <= n
      invariant CompareLists(From(x, i), From(y, i)) == CompareLists(x, y)
    {
      assert Tail(From(x, i)) == From(x, i + 1) && Tail(From(y, i)) == From(y, i + 1);
      if i >= |x| {
        c := -CompareNull(y[i]);
      } else if i >= |y| {
        c := CompareNull(x[i]);
      } else {
        assert From(x, i)[0] == x[i] && From(y, i)[0] == y[i];
        c := CompareItems(x[i], y[i]);
      }
      if c != 0 {
        return;
      }
      i := i + 1;
    }
    c := 0;
  }

  function From<T>(s: seq<T>, i: nat): seq<T> {
    if i <= |s| then s[i..] else []
  }

  predicate GrammarOK(v: string) {
    v != "" && forall i :: 0 <= i < |v| ==>
                 IsDigit(v[i]) || IsLower(v[i]) || IsUpper(v[i]) || v[i] == '.' || IsSeparator(v[i])
  }

  /** compareMaven: None is the source's ok=false. */
  function CompareVersions(a: string, b: string): Option<int> {
    if GrammarOK(a) && GrammarOK(b) then Some(CompareItem(Parse(a), Parse(b))) else None
  }

  // ----- reflexive and antisymmetric on every version -----

  lemma {:induction false} ItemAntisymmetric(a: Item, b: Item)
    ensures CompareItem(a, b) == -CompareItem(b, a)
    decreases a, 0, b
  {
    match (a, b)
    case (StrItem(s), StrItem(t)) => QualifierAntisymmetric(s, t);
    case (ListItem(x), ListItem(y)) => ListsAntisymmetric(x, y);
    case _ =>
  }

  lemma {:induction false} ListsAntisymmetric(x: seq<Item>, y: seq<Item>)
    ensures CompareLists(x, y) == -CompareLists(y, x)
    decreases x, 1, y
  {
    if x != [] && y != [] {
      ItemAntisymmetric(x[0], y[0]);
    }
    if x != [] || y != [] {
      ListsAntisymmetric(Tail(x), Tail(y));
    }
  }

  lemma ReflexiveAndAntisymmetric(a: string, b: string)
    requires GrammarOK(a) && GrammarOK(b)
    ensures CompareVersions(a, a) == Some(0)
    ensures CompareVersions(a, b).value == -CompareVersions(b, a).value
  {
    hide Parse, CompareItem;
    ItemAntisymmetric(Parse(a), Parse(a));
    ItemAntisymmetric(Parse(a), Parse(b));
  }

  // ----- the shape of a parse -----

  /** At most one sub-list, it comes last, and no list ends in a null item. */
  ghost predicate RightSpine(items: seq<Item>) {
    && (forall i :: 0 <= i < |items| - 1 ==> !items[i].ListItem?)
    && (items != [] ==> !IsNull(items[|items| - 1]))
    && (items != [] && items[|items| - 1].ListItem? ==> RightSpine(items[|items| - 1].items))
  }

  predicate Flat(levels: seq<seq<Item>>) {
    forall i, k :: 0 <= i < |levels| && 0 <= k < |levels[i]| ==> !levels[i][k].ListItem?
  }

  lemma {:induction false} ScanKeepsFlat(s: string, st: ScanState)
    requires Scanning(st) && Flat(st.levels)
    ensures Flat(Scan(s, st).levels)
  {
    if s != "" {
      StepKeepsFlat(s[0], st);
      ScanKeepsFlat(s[1..], Step(s[0], st));
    }
  }

  lemma StepKeepsFlat(c: char, st: ScanState)
    requires Scanning(st) && Flat(st.levels)
    ensures Flat(Step(c, st).levels)
  {
    hide NormalizeQualifier, Decimal;
    assert Flat(Append(st.levels, Token(st)));
  }

  lemma {:induction false} AssembleIsSpine(levels: seq<seq<Item>>)
    requires |levels| >= 1 && Flat(levels)
    ensures RightSpine(Assemble(levels))
  {
    if |levels| > 1 {
      assert forall i, k :: 0 <= i < |levels[1..]| && 0 <= k < |levels[1..][i]| ==>
        levels[1..][i][k] == levels[i + 1][k];
      AssembleIsSpine(levels[1..]);
      var items := levels[0] + [ListItem(Assemble(levels[1..]))];
      var r := Normalize(items);
      assert forall i :: 0 <= i < |r| ==> r[i] == items[i];
    }
  }

  lemma ParseIsRightSpine(version: string)
    ensures Parse(version).ListItem? && RightSpine(Parse(version).items)
  {
    var st := Scan(ToLower(version), START);
    ScanKeepsFlat(ToLower(version), START);
    assert Flat(Finish(st));
    AssembleIsSpine(Finish(st));
  }
}
