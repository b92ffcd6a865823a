/**
 How the Maven comparator orders dotted numbers with an optional qualifier (pipeline/maven_version.go):
 by what they parse to, and so, on numbers of any length and on one arity, lexicographically.
 */
module MavenOrder {
  import opened GoStrings
  import opened MavenVersion

  // ----- the texts -----

  /** n1.….nk, then nothing or "-", letters and digits. */
  datatype Plain = Plain(nums: seq<string>, qual: string, digits: string)

  predicate IsLetters(s: string) {
    forall i :: 0 <= i < |s| ==> IsLower(s[i]) || IsUpper(s[i])
  }

  predicate IsNumbers(nums: seq<string>) {
    |nums| >= 1 && forall i :: 0 <= i < |nums| ==> nums[i] != "" && AllDigits(nums[i])
  }

  /** The qualifier's own reading: lower-cased, aliases applied. */
  function Qualifier(p: Plain): string {
    NormalizeQualifier(ToLower(p.qual))
  }

  predicate WellFormed(p: Plain) {
    && IsNumbers(p.nums) && IsLetters(p.qual) && AllDigits(p.digits)
    && (p.qual == "" ==> p.digits == "")
    && (p.qual != "" ==> QualifierOrder(Qualifier(p)) != RELEASE)
  }

  function Suffix(p: Plain): string {
    if p.qual == "" then "" else "-" + p.qual + p.digits
  }

  function Text(p: Plain): string
    requires WellFormed(p)
  {
    Join(p.nums, '.') + Suffix(p)
  }

  // ----- what the texts parse to -----

  function Ints(nums: seq<string>): (items: seq<Item>)
    requires forall i :: 0 <= i < |nums| ==> AllDigits(nums[i])
    ensures |items| == |nums|
    ensures forall i :: 0 <= i < |nums| ==> items[i] == IntItem(Decimal(nums[i]))
  {
    if nums == [] then [] else [IntItem(Decimal(nums[0]))] + Ints(nums[1..])
  }

  function QualifierLevel(p: Plain): seq<Item>
    requires WellFormed(p) && p.qual != ""
  {
    [StrItem(Qualifier(p))] + if Decimal(p.digits) == 0 then [] else [ListItem([IntItem(Decimal(p.digits))])]
  }

  function Expected(p: Plain): seq<Item>
    requires WellFormed(p)
  {
    if p.qual == "" then Normalize(Ints(p.nums)) else Ints(p.nums) + [ListItem(QualifierLevel(p))]
  }

  lemma {:induction false} ScanAppend(s: string, t: string, st: ScanState)
    requires Scanning(st)
    ensures Scan(s + t, st) == Scan(t, Scan(s, st))
  {
    if s == "" {
      assert s + t == t;
    } else {
      ScanAppend(s[1..], t, Step(s[0], st));
      assert (s + t)[1..] == s[1..] + t;
    }
  }

  lemma {:induction false} ScanDigits(s: string, st: ScanState)
    requires Scanning(st) && AllDigits(s) && s != "" && (st.isDigit || st.buf == "")
    ensures Scan(s, st) == ScanState(st.levels, true, st.buf + s)
  {
    var next := Step(s[0], st);
    assert next == ScanState(st.levels, true, st.buf + [s[0]]);
    if |s| == 1 {
      assert s == [s[0]] && s[1..] == "";
    } else {
      ScanDigits(s[1..], next);
      assert st.buf + [s[0]] + s[1..] == st.buf + s;
    }
  }

  lemma {:induction false} ScanLetters(s: string, st: ScanState)
    requires Scanning(st) && IsLetters(s) && s != "" && (!st.isDigit || st.buf == "")
    ensures Scan(s, st) == ScanState(st.levels, false, st.buf + s)
  {
    var next := Step(s[0], st);
    assert next == ScanState(st.levels, false, st.buf + [s[0]]);
    if |s| == 1 {
      assert s == [s[0]] && s[1..] == "";
    } else {
      ScanLetters(s[1..], next);
      assert st.buf + [s[0]] + s[1..] == st.buf + s;
    }
  }

  /** Dotted numbers stay on one level; the last is still being read. */
  lemma {:induction false} ScanNumbers(nums: seq<string>, done: seq<Item>, isDigit: bool)
    requires IsNumbers(nums)
    ensures Scan(Join(nums, '.'), ScanState([done], isDigit, "")) ==
            ScanState([done + Ints(nums[..|nums| - 1])], true, nums[|nums| - 1])
  {
    var st := ScanState([done], isDigit, "");
    ScanDigits(nums[0], st);
    assert "" + nums[0] == nums[0];
    if |nums| == 1 {
      assert done + Ints(nums[..0]) == done;
    } else {
      var head := ScanState([done], true, nums[0]);
      var rest := Join(nums[1..], '.');
      assert Join(nums, '.') == nums[0] + ("." + rest);
      ScanAppend(nums[0], "." + rest, st);
      assert ("." + rest)[1..] == rest;
      var more := done + [IntItem(Decimal(nums[0]))];
      assert Step('.', head) == ScanState([more], true, "");
      ScanNumbers(nums[1..], more, true);
      IntsCons(nums, done);
    }
  }

  lemma IntsCons(nums: seq<string>, done: seq<Item>)
    requires IsNumbers(nums) && |nums| > 1
    ensures done + [IntItem(Decimal(nums[0]))] + Ints(nums[1..][..|nums| - 2]) == done + Ints(nums[..|nums| - 1])
  {
    var front := nums[..|nums| - 1];
    assert front[1..] == nums[1..][..|nums| - 2];
    assert Ints(front) == [IntItem(Decimal(nums[0]))] + Ints(front[1..]);
  }

  lemma IntsSnoc(nums: seq<string>)
    requires IsNumbers(nums)
    ensures Ints(nums) == Ints(nums[..|nums| - 1]) + [IntItem(Decimal(nums[|nums| - 1]))]
  {
    hide Decimal, Ints, AllDigits;
    var n := |nums| - 1;
    var whole, parts := Ints(nums), Ints(nums[..n]) + [IntItem(Decimal(nums[n]))];
    forall i | 0 <= i < |nums| ensures whole[i] == parts[i] {
      if i < n { assert nums[..n][i] == nums[i]; }
    }
  }

  lemma {:induction false} JoinDigits(nums: seq<string>)
    requires IsNumbers(nums)
    ensures Join(nums, '.') != "" && forall i :: 0 <= i < |Join(nums, '.')| ==>
            IsDigit(Join(nums, '.')[i]) || Join(nums, '.')[i] == '.'
  {
    if |nums| > 1 {
      JoinDigits(nums[1..]);
    }
  }

  lemma TextGrammar(p: Plain)
    requires WellFormed(p)
    ensures GrammarOK(Text(p))
    ensures ToLower(Text(p)) == Join(p.nums, '.') + (if p.qual == "" then "" else "-" + ToLower(p.qual) + p.digits)
  {
    hide Qualifier, QualifierOrder, Join, ToLower;
    JoinDigits(p.nums);
    DigitsLower(Join(p.nums, '.'));
    DigitsLower(p.digits);
    LettersLower(p.qual);
    LowerAppend(p.qual, p.digits);
    LowerAppend("-", p.qual + p.digits);
    LowerAppend(Join(p.nums, '.'), Suffix(p));
    assert ToLower("-") == "-" && ToLower("") == "";
    assert "-" + (p.qual + p.digits) == "-" + p.qual + p.digits;
  }

  /** What dotted numbers and their suffix are made of. */
  predicate GrammarChars(s: string) {
    forall i :: 0 <= i < |s| ==> IsDigit(s[i]) || IsLower(s[i]) || IsUpper(s[i]) || s[i] == '.' || IsSeparator(s[i])
  }

  lemma DigitsLower(s: string)
    requires forall i :: 0 <= i < |s| ==> IsDigit(s[i]) || s[i] == '.'
    ensures ToLower(s) == s && GrammarChars(s)
  {
  }

  lemma LettersLower(s: string)
    requires IsLetters(s)
    ensures GrammarChars(s)
  {
  }

  lemma LowerAppend(a: string, b: string)
    ensures ToLower(a + b) == ToLower(a) + ToLower(b)
    ensures GrammarChars(a) && GrammarChars(b) ==> GrammarChars(a + b)
  {
    hide LowerChar;
    var s, r := a + b, ToLower(a) + ToLower(b);
    assert forall i :: 0 <= i < |s| ==> r[i] == LowerChar(s[i]) by {
      assert forall i :: |a| <= i < |s| ==> s[i] == b[i - |a|];
    }
    assert ToLower(s) == r;
  }

  lemma ScanQualifier(lower: string, closed: seq<Item>)
    requires lower != "" && IsLetters(lower)
    ensures Scan(lower, ScanState([closed, []], true, "")) == ScanState([closed, []], false, lower)
  {
    hide Scan;
    ScanLetters(lower, ScanState([closed, []], true, ""));
    assert "" + lower == lower;
  }

  lemma ScanTrailingDigits(digits: string, lower: string, closed: seq<Item>)
    requires digits != "" && AllDigits(digits) && lower != ""
    ensures Scan(digits, ScanState([closed, []], false, lower)) ==
            ScanState([closed, [StrItem(NormalizeQualifier(lower))], []], true, digits)
  {
    hide NormalizeQualifier;
    var deep := [closed, [StrItem(NormalizeQualifier(lower))], []];
    var name := [StrItem(NormalizeQualifier(lower))];
    assert [] + name == name;
    assert Append([closed, []], name[0]) == [closed, name];
    assert [closed, name] + [[]] == deep;
    var first := ScanState(deep, true, [digits[0]]);
    assert IsDigit(digits[0]) && ParseItem(false, lower) == name[0];
    var st := ScanState([closed, []], false, lower);
    assert Append(st.levels, ParseItem(false, st.buf)) + [[]] == deep;
    var c := digits[0];
    assert c != '.' && !IsSeparator(c) && st.buf != "";
    assert Step(c, st).isDigit;
    assert Step(c, st).buf == [c];
    assert Step(c, st).levels == deep;
    assert Step(digits[0], st) == first;
    assert [digits[0]] + digits[1..] == digits;
    if digits[1..] != "" {
      ScanDigits(digits[1..], first);
    }
  }

  lemma ScanSuffix(qual: string, digits: string, done: seq<Item>, last: string)
    requires IsLetters(qual) && AllDigits(digits) && qual != "" && last != "" && AllDigits(last)
    ensures var lower := ToLower(qual);
            Scan("-" + lower + digits, ScanState([done], true, last)) ==
            if digits == "" then ScanState([done + [IntItem(Decimal(last))], []], false, lower)
            else ScanState([done + [IntItem(Decimal(last))], [StrItem(NormalizeQualifier(lower))], []], true, digits)
  {
    hide QualifierOrder, NormalizeQualifier, Decimal;
    var lower := ToLower(qual);
    assert IsLetters(lower);
    var closed := done + [IntItem(Decimal(last))];
    assert Append([done], IntItem(Decimal(last))) + [[]] == [closed, []];
    var open := ScanState([closed, []], true, "");
    assert Step('-', ScanState([done], true, last)) == open;
    var s := "-" + lower + digits;
    assert s[0] == '-' && s[1..] == lower + digits;
    assert Scan(s, ScanState([done], true, last)) == Scan(lower + digits, open);
    ScanAppend(lower, digits, open);
    ScanQualifier(lower, closed);
    if digits != "" {
      ScanTrailingDigits(digits, lower, closed);
    }
  }

  lemma AssembleTwo(a: seq<Item>, b: seq<Item>)
    ensures Assemble([a, b]) == Normalize(a + [ListItem(Normalize(b))])
  {
    assert [a, b][1..] == [b];
  }

  lemma AssembleThree(a: seq<Item>, b: seq<Item>, c: seq<Item>)
    ensures Assemble([a, b, c]) == Normalize(a + [ListItem(Normalize(b + [ListItem(Normalize(c))]))])
  {
    assert [a, b, c][1..] == [b, c];
    AssembleTwo(b, c);
  }

  /** The parse of every such text. */
  lemma ParsePlain(p: Plain)
    requires WellFormed(p)
    ensures Parse(Text(p)) == ListItem(Expected(p))
  {
    hide QualifierOrder, NormalizeQualifier, Decimal, Scan;
    var last := p.nums[|p.nums| - 1];
    var done := Ints(p.nums[..|p.nums| - 1]);
    TextGrammar(p);
    var head := Join(p.nums, '.');
    ScanNumbers(p.nums, [], false);
    assert [] + done == done;
    IntsSnoc(p.nums);
    if p.qual == "" {
      assert head + "" == head;
      assert Finish(ScanState([done], true, last)) == [Ints(p.nums)];
    } else {
      var lower := ToLower(p.qual);
      ScanAppend(head, "-" + lower + p.digits, START);
      assert head + ("-" + lower + p.digits) == ToLower(Text(p));
      ScanSuffix(p.qual, p.digits, done, last);
      QualifierParse(p, lower);
    }
  }

  lemma QualifierParse(p: Plain, lower: string)
    requires WellFormed(p) && p.qual != "" && lower == ToLower(p.qual)
    ensures p.digits == "" ==> Assemble(Finish(ScanState([Ints(p.nums), []], false, lower))) == Expected(p)
    ensures p.digits != "" ==>
              var levels := [Ints(p.nums), [StrItem(NormalizeQualifier(lower))], []];
              Assemble(Finish(ScanState(levels, true, p.digits))) == Expected(p)
  {
    hide NormalizeQualifier, QualifierOrder, Assemble, Ints, Decimal;
    var q, ints := StrItem(NormalizeQualifier(lower)), Ints(p.nums);
    if p.digits == "" {
      assert [] + [q] == [q];
      assert Finish(ScanState([ints, []], false, lower)) == [ints, [] + [q]];
      NoDigitsParse(ints, q);
      assert Decimal(p.digits) == 0 by { NoDigits(); }
      assert [q] + [] == [q];
    } else {
      var d := IntItem(Decimal(p.digits));
      assert [] + [d] == [d];
      assert Finish(ScanState([ints, [q], []], true, p.digits)) == [ints, [q], [] + [d]];
      DigitsParse(ints, q, d.n);
      assert [q] + [] == [q] && [q] + [ListItem([d])] == [q, ListItem([d])];
    }
  }

  lemma NoDigitsParse(ints: seq<Item>, q: Item)
    requires !IsNull(q)
    ensures Assemble([ints, [q]]) == ints + [ListItem([q])]
  {
    hide Assemble, Normalize, IsNull;
    AssembleTwo(ints, [q]);
    LastStays([q]);
    assert !IsNull(ListItem([q])) by { ListIsNull([q]); }
    LastStays(ints + [ListItem([q])]);
  }

  lemma DigitsParse(ints: seq<Item>, q: Item, d: nat)
    requires !IsNull(q)
    ensures Assemble([ints, [q], [IntItem(d)]]) ==
            ints + [ListItem(if d == 0 then [q] else [q, ListItem([IntItem(d)])])]
  {
    hide Assemble, Normalize, IsNull;
    AssembleThree(ints, [q], [IntItem(d)]);
    ListIsNull([IntItem(d)]);
    var level := if d == 0 then [q] else [q, ListItem([IntItem(d)])];
    LastStays([q]);
    if d == 0 {
      NullGoes([], IntItem(0));
      EmptyStays();
      NullGoes([q], ListItem([]));
      assert [] + [IntItem(0)] == [IntItem(0)];
    } else {
      LastStays([IntItem(d)]);
      LastStays([q, ListItem([IntItem(d)])]);
      assert [q] + [ListItem([IntItem(d)])] == level;
    }
    ListIsNull(level);
    LastStays(ints + [ListItem(level)]);
  }

  lemma ListIsNull(items: seq<Item>)
    ensures IsNull(ListItem(items)) <==> items == []
    ensures |items| == 1 && items[0].IntItem? ==> (IsNull(items[0]) <==> items[0].n == 0)
  {
  }

  lemma EmptyStays()
    ensures Normalize([]) == [] && IsNull(ListItem([])) && IsNull(IntItem(0))
  {
  }

  lemma NullGoes(items: seq<Item>, last: Item)
    requires IsNull(last)
    ensures Normalize(items + [last]) == Normalize(items)
  {
    assert (items + [last])[..|items|] == items;
  }

  lemma LastStays(items: seq<Item>)
    requires items != [] && !IsNull(items[|items| - 1])
    ensures Normalize(items) == items
  {
  }

  /** So comparing two such texts compares those lists. */
  lemma ComparePlains(p: Plain, q: Plain)
    requires WellFormed(p) && WellFormed(q)
    ensures CompareVersions(Text(p), Text(q)) == Some(CompareLists(Expected(p), Expected(q)))
  {
    hide Parse, Text, Expected, CompareLists, WellFormed;
    TextGrammar(p);
    TextGrammar(q);
    ParsePlain(p);
    ParsePlain(q);
  }

  // ----- the order of the texts -----

  function At(nums: seq<string>, i: nat): nat
    requires forall k :: 0 <= k < |nums| ==> AllDigits(nums[k])
  {
    if i < |nums| then Decimal(nums[i]) else 0
  }

  /** Zero-padded lexicographic comparison of the numbers from position i on. */
  function Lexicographic(a: seq<string>, b: seq<string>, i: nat): (c: int)
    requires forall k :: 0 <= k < |a| ==> AllDigits(a[k])
    requires forall k :: 0 <= k < |b| ==> AllDigits(b[k])
    ensures -1 <= c <= 1
    decreases |a| + |b| - i
  {
    if i >= |a| && i >= |b| then 0
    else if At(a, i) != At(b, i) then CmpInt(At(a, i), At(b, i))
    else Lexicographic(a, b, i + 1)
  }

  /** A release counts as the empty qualifier with no number behind it. */
  function CompareSuffix(p: Plain, q: Plain): (c: int)
    requires WellFormed(p) && WellFormed(q)
    ensures -1 <= c <= 1
  {
    var c := CompareQualifier(Qualifier(p), Qualifier(q));
    if c != 0 then c else CmpInt(Decimal(p.digits), Decimal(q.digits))
  }

  function ComparePlain(p: Plain, q: Plain): (c: int)
    requires WellFormed(p) && WellFormed(q)
    ensures -1 <= c <= 1
  {
    var c := Lexicographic(p.nums, q.nums, 0);
    if c != 0 then c else CompareSuffix(p, q)
  }

  /** The comparison of two lists' heads, an exhausted list's being null. */
  function CompareHeads(x: seq<Item>, y: seq<Item>): (c: int) {
    if x == [] && y == [] then 0
    else if x == [] then -CompareNull(y[0])
    else if y == [] then CompareNull(x[0])
    else CompareItem(x[0], y[0])
  }

  lemma HeadsFirst(x: seq<Item>, y: seq<Item>)
    ensures CompareLists(x, y) == if CompareHeads(x, y) != 0 then CompareHeads(x, y) else CompareLists(Tail(x), Tail(y))
  {
  }

  /** Numbers below length n, then whatever follows at position n. */
  ghost predicate Reads(items: seq<Item>, nums: seq<string>, n: nat) {
    && (forall k :: 0 <= k < |nums| ==> AllDigits(nums[k]))
    && n >= |nums|
    && (forall k :: 0 <= k < n && k < |items| ==> items[k] == IntItem(At(nums, k)))
    && (forall k :: |items| <= k < n ==> At(nums, k) == 0)
  }

  lemma {:induction false} CompareNumbers(x: seq<Item>, a: seq<string>, y: seq<Item>, b: seq<string>, n: nat, i: nat)
    requires Reads(x, a, n) && Reads(y, b, n) && i <= n
    ensures CompareLists(From(x, i), From(y, i)) ==
            if Lexicographic(a, b, i) != 0 then Lexicographic(a, b, i) else CompareLists(From(x, n), From(y, n))
    decreases n - i
  {
    hide CompareLists, CompareHeads, Lexicographic, Decimal;
    LexicographicStep(a, b, i);
    if i < n {
      CompareNumbers(x, a, y, b, n, i + 1);
      HeadsFirst(From(x, i), From(y, i));
      HeadNumbers(x, a, y, b, n, i);
      assert Tail(From(x, i)) == From(x, i + 1) && Tail(From(y, i)) == From(y, i + 1);
    }
  }

  lemma HeadNumbers(x: seq<Item>, a: seq<string>, y: seq<Item>, b: seq<string>, n: nat, i: nat)
    requires Reads(x, a, n) && Reads(y, b, n) && i < n
    ensures CompareHeads(From(x, i), From(y, i)) == CmpInt(At(a, i), At(b, i))
  {
    hide Decimal, At;
    assert i < |x| ==> From(x, i)[0] == IntItem(At(a, i));
    assert i < |y| ==> From(y, i)[0] == IntItem(At(b, i));
  }

  lemma LexicographicStep(a: seq<string>, b: seq<string>, i: nat)
    requires forall k :: 0 <= k < |a| ==> AllDigits(a[k])
    requires forall k :: 0 <= k < |b| ==> AllDigits(b[k])
    ensures Lexicographic(a, b, i) ==
            if At(a, i) != At(b, i) then CmpInt(At(a, i), At(b, i)) else Lexicographic(a, b, i + 1)
    ensures i >= |a| && i >= |b| ==> Lexicographic(a, b, i) == 0
  {
    hide Decimal;
  }

  lemma {:induction false} NormalizedReads(nums: seq<string>, n: nat)
    requires IsNumbers(nums) && n >= |nums|
    ensures Reads(Normalize(Ints(nums)), nums, n) && |Normalize(Ints(nums))| <= |nums|
  {
    var items := Ints(nums);
    NormalizeZeros(items);
    var r := Normalize(items);
    assert forall k :: |r| <= k < |nums| ==> items[k] == IntItem(At(nums, k));
  }

  lemma {:induction false} NormalizeZeros(items: seq<Item>)
    ensures |Normalize(items)| <= |items|
    ensures forall k :: |Normalize(items)| <= k < |items| ==> IsNull(items[k])
  {
    if items != [] && IsNull(items[|items| - 1]) {
      NormalizeZeros(items[..|items| - 1]);
      assert forall k :: 0 <= k < |items| - 1 ==> items[..|items| - 1][k] == items[k];
    }
  }

  /** Dotted numbers of any lengths compare as zero-padded sequences of numbers. */
  lemma DottedNumbersAreLexicographic(a: seq<string>, b: seq<string>)
    requires IsNumbers(a) && IsNumbers(b)
    ensures CompareVersions(Join(a, '.'), Join(b, '.')) == Some(Lexicographic(a, b, 0))
  {
    hide Parse, QualifierOrder, CompareLists, Normalize;
    var p, q := Plain(a, "", ""), Plain(b, "", "");
    assert Text(p) == Join(a, '.') && Text(q) == Join(b, '.');
    ComparePlains(p, q);
    var n := |a| + |b|;
    NormalizedReads(a, n);
    NormalizedReads(b, n);
    var x, y := Expected(p), Expected(q);
    CompareNumbers(x, a, y, b, n, 0);
    assert From(x, 0) == x && From(y, 0) == y && From(x, n) == [] && From(y, n) == [];
    EmptyLists();
  }

  lemma EmptyLists()
    ensures CompareLists([], []) == 0
  {
  }

  lemma ExpectedReads(p: Plain)
    requires WellFormed(p)
    ensures Reads(Expected(p), p.nums, |p.nums|)
    ensures From(Expected(p), |p.nums|) == if p.qual == "" then [] else [ListItem(QualifierLevel(p))]
  {
    hide Normalize, QualifierOrder;
    if p.qual == "" {
      NormalizedReads(p.nums, |p.nums|);
    } else {
      assert Expected(p)[..|p.nums|] == Ints(p.nums);
    }
  }

  lemma ReleaseQualifier(p: Plain)
    requires WellFormed(p) && p.qual == ""
    ensures Qualifier(p) == "" && QualifierOrder("") == RELEASE && Decimal(p.digits) == 0
  {
    assert ToLower("") == "";
  }

  /** The qualifier levels compare by qualifier and then by number, against a release too. */
  lemma SuffixOrder(p: Plain, q: Plain)
    requires WellFormed(p) && WellFormed(q)
    ensures CompareLists(if p.qual == "" then [] else [ListItem(QualifierLevel(p))],
                         if q.qual == "" then [] else [ListItem(QualifierLevel(q))]) == CompareSuffix(p, q)
  {
    hide QualifierOrder, Qualifier, Decimal;
    if p.qual == "" { ReleaseQualifier(p); }
    if q.qual == "" { ReleaseQualifier(q); }
    QualifierAntisymmetric("", Qualifier(q));
    if p.qual == "" && q.qual == "" {
      EmptyLists();
    } else if p.qual == "" {
      SingleAgainstNone(ListItem(QualifierLevel(q)));
      assert QualifierLevel(q)[0] == StrItem(Qualifier(q));
    } else if q.qual == "" {
      SingleAgainstNone(ListItem(QualifierLevel(p)));
      assert QualifierLevel(p)[0] == StrItem(Qualifier(p));
    } else {
      SingleAgainstSingle(ListItem(QualifierLevel(p)), ListItem(QualifierLevel(q)));
      LevelOrder(Qualifier(p), Decimal(p.digits), Qualifier(q), Decimal(q.digits));
    }
  }

  lemma SingleAgainstNone(it: Item)
    ensures CompareLists([it], []) == CompareNull(it)
    ensures CompareLists([], [it]) == -CompareNull(it)
  {
    assert Tail([it]) == [];
    EmptyLists();
  }

  lemma SingleAgainstSingle(a: Item, b: Item)
    ensures CompareLists([a], [b]) == CompareItem(a, b)
  {
    assert Tail([a]) == [] && Tail([b]) == [];
    EmptyLists();
  }

  function Level(q: string, d: nat): seq<Item> {
    [StrItem(q)] + if d == 0 then [] else [ListItem([IntItem(d)])]
  }

  lemma LevelOrder(q: string, d: nat, q': string, d': nat)
    ensures CompareLists(Level(q, d), Level(q', d')) ==
            if CompareQualifier(q, q') != 0 then CompareQualifier(q, q') else CmpInt(d, d')
  {
    hide QualifierOrder, CompareQualifier;
    var x, y := Level(q, d), Level(q', d');
    assert x[0] == StrItem(q) && y[0] == StrItem(q');
    assert Tail(x) == (if d == 0 then [] else [ListItem([IntItem(d)])]);
    assert Tail(y) == (if d' == 0 then [] else [ListItem([IntItem(d')])]);
    SingleAgainstNone(ListItem([IntItem(d)]));
    SingleAgainstNone(ListItem([IntItem(d')]));
    SingleAgainstSingle(ListItem([IntItem(d)]), ListItem([IntItem(d')]));
    SingleAgainstSingle(IntItem(d), IntItem(d'));
    EmptyLists();
  }

  /** On texts of one arity the comparator is the order by numbers, then qualifier, then its number. */
  lemma FixedArityOrder(p: Plain, q: Plain)
    requires WellFormed(p) && WellFormed(q) && |p.nums| == |q.nums|
    ensures CompareVersions(Text(p), Text(q)) == Some(ComparePlain(p, q))
  {
    hide Parse, QualifierOrder, CompareLists, Normalize, CompareSuffix;
    ComparePlains(p, q);
    ExpectedReads(p);
    ExpectedReads(q);
    var x, y, n := Expected(p), Expected(q), |p.nums|;
    CompareNumbers(x, p.nums, y, q.nums, n, 0);
    assert From(x, 0) == x && From(y, 0) == y;
    SuffixOrder(p, q);
  }

  lemma {:induction false} LexicographicTransitive(a: seq<string>, b: seq<string>, c: seq<string>, i: nat)
    requires IsNumbers(a) && IsNumbers(b) && IsNumbers(c)
    requires Lexicographic(a, b, i) <= 0 && Lexicographic(b, c, i) <= 0
    ensures Lexicographic(a, c, i) <= 0
    ensures Lexicographic(a, c, i) < 0 <==> Lexicographic(a, b, i) < 0 || Lexicographic(b, c, i) < 0
    decreases |a| + |b| + |c| - i
  {
    hide Decimal;
    if i < |a| || i < |b| || i < |c| {
      if i >= |a| && i >= |b| { PastEnd(a, b, i + 1); }
      if i >= |b| && i >= |c| { PastEnd(b, c, i + 1); }
      if i >= |a| && i >= |c| { PastEnd(a, c, i + 1); }
      if At(a, i) == At(b, i) == At(c, i) {
        LexicographicTransitive(a, b, c, i + 1);
      }
    }
  }

  lemma PastEnd(a: seq<string>, b: seq<string>, i: nat)
    requires IsNumbers(a) && IsNumbers(b) && i >= |a| && i >= |b|
    ensures Lexicographic(a, b, i) == 0
  {
  }

  predicate AtMost(a: string, b: string) {
    CompareVersions(a, b).Some? && CompareVersions(a, b).value <= 0
  }

  predicate Below(a: string, b: string) {
    CompareVersions(a, b).Some? && CompareVersions(a, b).value < 0
  }

  /** Dotted numbers are totally preordered, whatever their lengths. */
  lemma DottedNumbersTransitive(a: seq<string>, b: seq<string>, c: seq<string>)
    requires IsNumbers(a) && IsNumbers(b) && IsNumbers(c)
    requires AtMost(Join(a, '.'), Join(b, '.')) && AtMost(Join(b, '.'), Join(c, '.'))
    ensures AtMost(Join(a, '.'), Join(c, '.'))
    ensures Below(Join(a, '.'), Join(c, '.')) <==>
            Below(Join(a, '.'), Join(b, '.')) || Below(Join(b, '.'), Join(c, '.'))
  {
    hide CompareVersions, Lexicographic, Join;
    DottedNumbersAreLexicographic(a, b);
    DottedNumbersAreLexicographic(b, c);
    DottedNumbersAreLexicographic(a, c);
    LexicographicTransitive(a, b, c, 0);
  }

  /** So are texts of one arity with an optional non-release qualifier. */
  lemma FixedArityTransitive(p: Plain, q: Plain, r: Plain)
    requires WellFormed(p) && WellFormed(q) && WellFormed(r) && |p.nums| == |q.nums| == |r.nums|
    requires AtMost(Text(p), Text(q)) && AtMost(Text(q), Text(r))
    ensures AtMost(Text(p), Text(r))
    ensures Below(Text(p), Text(r)) <==> Below(Text(p), Text(q)) || Below(Text(q), Text(r))
  {
    hide CompareVersions, Lexicographic, Text, Decimal, CompareQualifier, QualifierOrder;
    FixedArityOrder(p, q);
    FixedArityOrder(q, r);
    FixedArityOrder(p, r);
    LexicographicTransitive(p.nums, q.nums, r.nums, 0);
    if Lexicographic(p.nums, q.nums, 0) == 0 && Lexicographic(q.nums, r.nums, 0) == 0 {
      QualifierTransitive(Qualifier(p), Qualifier(q), Qualifier(r));
    }
  }

  /** Where the release and its neighbours stand. */
  lemma Orders()
    ensures QualifierOrder("sp") == 6 && QualifierOrder("rc") == 3 && QualifierOrder("") == RELEASE
  {
  }
}
