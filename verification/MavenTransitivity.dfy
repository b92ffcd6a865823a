/**
 Exactly when the Maven comparator is an order (pipeline/maven_version.go): when no two of the
 qualifiers it meets stand on different sides of the release.
 */
module MavenTransitivity {
  import opened GoStrings
  import opened MavenVersion
  import opened MavenOrder

  // ----- parsed versions on one side of the release -----

  /** An item that is no number is below null, or above it. */
  predicate Stands(before: bool, it: Item) {
    it.IntItem? || if before then CompareNull(it) < 0 else CompareNull(it) > 0
  }

  /** Which side each depth of nesting keeps to: true is below the release. */
  type Sides = nat -> bool

  /** A list whose items keep to the side of its depth. Above the release no zero may come last, as in every parse. */
  predicate OneSided(sides: Sides, depth: nat, items: seq<Item>)
    decreases items, 1
  {
    && (forall i :: 0 <= i < |items| ==> Stands(sides(depth), items[i]) && Ordered(sides, depth, items[i]))
    && (!sides(depth) && items != [] ==> items[|items| - 1] != IntItem(0))
  }

  /** The first item of a nested list meets no null there, so only the ones behind it keep to a side. */
  predicate Ordered(sides: Sides, depth: nat, it: Item)
    decreases it, 0
  {
    it.ListItem? ==>
      && it.items != [] && Ordered(sides, depth + 1, it.items[0])
      && OneSided(sides, depth + 1, it.items[1..])
  }

  lemma TailSided(sides: Sides, depth: nat, x: seq<Item>)
    requires OneSided(sides, depth, x)
    ensures OneSided(sides, depth, Tail(x))
    ensures x != [] ==> Stands(sides(depth), x[0]) && Ordered(sides, depth, x[0])
  {
    hide Stands, Ordered;
    if |x| > 1 { assert Tail(x)[|x| - 2] == x[|x| - 1]; }
  }

  /** Above the release, nothing is below the exhausted list. */
  lemma {:induction false} EmptyIsLeast(sides: Sides, depth: nat, x: seq<Item>)
    requires OneSided(sides, depth, x) && !sides(depth) && x != []
    ensures CompareLists([], x) < 0 && CompareLists(x, []) > 0
    decreases |x|
  {
    hide Ordered;
    HeadsFirst([], x);
    HeadsFirst(x, []);
    TailSided(sides, depth, x);
    if x[0] == IntItem(0) {
      EmptyIsLeast(sides, depth, Tail(x));
    }
  }

  /** Three comparisons of a total preorder, strictness included. */
  predicate Chains(ab: int, bc: int, ac: int) {
    ab <= 0 && bc <= 0 ==> ac <= 0 && (ac < 0 <==> ab < 0 || bc < 0)
  }

  lemma {:induction false} ItemsChain(sides: Sides, depth: nat, a: Item, b: Item, c: Item)
    requires Ordered(sides, depth, a) && Ordered(sides, depth, b) && Ordered(sides, depth, c)
    ensures Chains(CompareItem(a, b), CompareItem(b, c), CompareItem(a, c))
    decreases a, 0, b, c
  {
    hide CompareQualifier, OneSided;
    if a.StrItem? && b.StrItem? && c.StrItem? && CompareQualifier(a.s, b.s) <= 0 && CompareQualifier(b.s, c.s) <= 0 {
      QualifierTransitive(a.s, b.s, c.s);
    } else if a.ListItem? && b.ListItem? && c.ListItem? {
      var x, y, z := a.items, b.items, c.items;
      ItemsChain(sides, depth + 1, x[0], y[0], z[0]);
      ListsChain(sides, depth + 1, x[1..], y[1..], z[1..]);
    }
  }

  /** One position: below the release an exhausted list counts as the number 0. */
  lemma HeadsChain(sides: Sides, depth: nat, x: seq<Item>, y: seq<Item>, z: seq<Item>)
    requires OneSided(sides, depth, x) && OneSided(sides, depth, y) && OneSided(sides, depth, z)
    requires sides(depth) || (x != [] && y != [] && z != [])
    requires x != [] && y != [] && z != [] ==>
             Chains(CompareItem(x[0], y[0]), CompareItem(y[0], z[0]), CompareItem(x[0], z[0]))
    ensures Chains(CompareHeads(x, y), CompareHeads(y, z), CompareHeads(x, z))
  {
    hide Ordered, CompareLists;
    TailSided(sides, depth, x);
    TailSided(sides, depth, y);
    TailSided(sides, depth, z);
    ZeroIsNull(x);
    ZeroIsNull(y);
    ZeroIsNull(z);
  }

  /** Null compares to a number as zero does. */
  lemma ZeroIsNull(x: seq<Item>)
    ensures x != [] && x[0].IntItem? ==> CompareNull(x[0]) == CompareItem(x[0], IntItem(0))
  {
  }

  lemma {:induction false} ListsChain(sides: Sides, depth: nat, x: seq<Item>, y: seq<Item>, z: seq<Item>)
    requires OneSided(sides, depth, x) && OneSided(sides, depth, y) && OneSided(sides, depth, z)
    ensures Chains(CompareLists(x, y), CompareLists(y, z), CompareLists(x, z))
    decreases x, 1, y, z
  {
    hide OneSided;
    if !sides(depth) && (x == [] || y == [] || z == []) {
      if x != [] { EmptyIsLeast(sides, depth, x); }
      if y != [] { EmptyIsLeast(sides, depth, y); }
      if z != [] { EmptyIsLeast(sides, depth, z); }
      assert CompareLists([], []) == 0;
    } else if x != [] || y != [] || z != [] {
      HeadsFirst(x, y);
      HeadsFirst(y, z);
      HeadsFirst(x, z);
      TailSided(sides, depth, x);
      TailSided(sides, depth, y);
      TailSided(sides, depth, z);
      if x != [] && y != [] && z != [] { ItemsChain(sides, depth, x[0], y[0], z[0]); }
      HeadsChain(sides, depth, x, y, z);
      ListsChain(sides, depth, Tail(x), Tail(y), Tail(z));
    } else {
      assert CompareLists([], []) == 0;
    }
  }

  // ----- texts -----

  /** a, b and c are ordered transitively, strictness included. */
  ghost predicate Transitive(a: string, b: string, c: string) {
    AtMost(a, b) && AtMost(b, c) ==> AtMost(a, c) && (Below(a, c) <==> Below(a, b) || Below(b, c))
  }

  function Items(v: string): seq<Item> {
    Parse(v).items
  }

  lemma ComparesItems(a: string, b: string)
    ensures CompareVersions(a, b) ==
            if GrammarOK(a) && GrammarOK(b) then Some(CompareLists(Items(a), Items(b))) else None
  {
    hide Assemble, Finish, Scan, ToLower;
  }

  /** Versions of any shape whose parses keep, depth by depth, to one side of the release are totally preordered. */
  lemma OneSidedTransitive(sides: Sides, a: string, b: string, c: string)
    requires OneSided(sides, 0, Items(a)) && OneSided(sides, 0, Items(b)) && OneSided(sides, 0, Items(c))
    ensures Transitive(a, b, c)
  {
    hide Items, CompareVersions, CompareLists, OneSided, GrammarOK;
    ComparesItems(a, b);
    ComparesItems(b, c);
    ComparesItems(a, c);
    ListsChain(sides, 0, Items(a), Items(b), Items(c));
  }

  predicate QualifierStands(before: bool, qual: string) {
    var order := QualifierOrder(NormalizeQualifier(ToLower(qual)));
    if before then order < RELEASE else order > RELEASE
  }

  /** Qualifiers on one side, the numbers behind them above the release. */
  function SidesOf(before: bool): Sides {
    (depth: nat) => depth == 0 && before
  }

  lemma LevelStands(before: bool, p: Plain)
    requires WellFormed(p) && p.qual != "" && QualifierStands(before, p.qual)
    ensures Stands(before, ListItem(QualifierLevel(p)))
  {
    hide QualifierOrder, NormalizeQualifier, Decimal;
    Orders();
    var level := QualifierLevel(p);
    assert level[0] == StrItem(Qualifier(p));
    assert CompareNull(ListItem(level)) == CompareNull(level[0]) == CompareQualifier(Qualifier(p), "");
  }

  lemma LevelIsOrdered(before: bool, p: Plain)
    requires WellFormed(p) && p.qual != ""
    ensures Ordered(SidesOf(before), 0, ListItem(QualifierLevel(p)))
  {
    hide QualifierOrder, NormalizeQualifier, Decimal;
    var sides, d := SidesOf(before), Decimal(p.digits);
    var level := QualifierLevel(p);
    assert Ordered(sides, 1, level[0]);
    if d == 0 {
      assert level[1..] == [];
    } else {
      NumberStands(sides, d);
      assert level[1..] == [ListItem([IntItem(d)])];
    }
  }

  lemma NumberStands(sides: Sides, d: nat)
    requires d > 0
    ensures Ordered(sides, 1, ListItem([IntItem(d)])) && Stands(false, ListItem([IntItem(d)]))
  {
    var number := [IntItem(d)];
    assert number[1..] == [] && Ordered(sides, 2, number[0]);
  }

  lemma PlainIsOneSided(before: bool, p: Plain)
    requires WellFormed(p) && (p.qual != "" ==> QualifierStands(before, p.qual))
    ensures OneSided(SidesOf(before), 0, Items(Text(p)))
  {
    hide Parse, QualifierStands, QualifierLevel, Decimal, Text, WellFormed;
    ParsePlain(p);
    if p.qual != "" {
      LevelStands(before, p);
      LevelIsOrdered(before, p);
    }
  }

  // ----- a cycle for every two sides -----

  lemma {:induction false} CommonPrefix(p: seq<Item>, x: seq<Item>, y: seq<Item>)
    requires forall i :: 0 <= i < |p| ==> p[i].IntItem?
    ensures CompareLists(p + x, p + y) == CompareLists(x, y)
  {
    if p == [] {
      assert p + x == x && p + y == y;
    } else {
      CommonPrefix(p[1..], x, y);
      HeadsFirst(p + x, p + y);
      assert Tail(p + x) == p[1..] + x && Tail(p + y) == p[1..] + y;
    }
  }

  /** What stands behind the numbers: a below null, null below b, b below a zero with a behind it. */
  lemma TailsCycle(a: Item, b: Item)
    requires a.ListItem? && b.ListItem? && Stands(true, a) && Stands(false, b)
    ensures CompareLists([IntItem(0), a], []) < 0 && CompareLists([], [b]) < 0
    ensures CompareLists([b], [IntItem(0), a]) < 0
  {
    HeadsFirst([IntItem(0), a], []);
    assert Tail([IntItem(0), a]) == [a];
    HeadsFirst([a], []);
    HeadsFirst([], [b]);
    HeadsFirst([b], [IntItem(0), a]);
  }

  /** n.0-a is below n, n is below n-b, and n-b is below n.0-a: whatever the numbers n, when the last is positive,
      a stands before the release and b behind it. */
  lemma EveryCycle(nums: seq<string>, a: Plain, b: Plain)
    requires IsNumbers(nums) && Decimal(nums[|nums| - 1]) > 0 && WellFormed(a) && WellFormed(b)
    requires a.nums == nums + ["0"] && a.qual != "" && QualifierStands(true, a.qual)
    requires b.nums == nums && b.qual != "" && QualifierStands(false, b.qual)
    ensures var n := Join(nums, '.'); Below(Text(a), n) && Below(n, Text(b)) && Below(Text(b), Text(a))
  {
    hide CompareVersions, CompareLists, QualifierStands, Text, Expected, WellFormed, Join, Decimal, Stands, IsNumbers;
    var n := Plain(nums, "", "");
    PlainText(n);
    ComparePlains(a, n);
    ComparePlains(n, b);
    ComparePlains(b, a);
    CycleLists(n, a, b);
  }

  lemma CycleLists(n: Plain, a: Plain, b: Plain)
    requires WellFormed(n) && WellFormed(a) && WellFormed(b) && n.qual == "" && a.qual != "" && b.qual != ""
    requires a.nums == n.nums + ["0"] && b.nums == n.nums && Decimal(n.nums[|n.nums| - 1]) > 0
    requires QualifierStands(true, a.qual) && QualifierStands(false, b.qual)
    ensures CompareLists(Expected(a), Expected(n)) < 0 && CompareLists(Expected(n), Expected(b)) < 0
    ensures CompareLists(Expected(b), Expected(a)) < 0
  {
    hide CompareLists, QualifierStands, Expected, Decimal, Stands, QualifierLevel, QualifierOrder, Qualifier;
    CycleExpected(n, a, b);
    LevelStands(true, a);
    LevelStands(false, b);
    var x, y := ListItem(QualifierLevel(a)), ListItem(QualifierLevel(b));
    var p := Ints(n.nums);
    CommonPrefix(p, [IntItem(0), x], []);
    CommonPrefix(p, [], [y]);
    CommonPrefix(p, [y], [IntItem(0), x]);
    assert p + [] == p;
    TailsCycle(x, y);
  }

  lemma PlainText(n: Plain)
    requires IsNumbers(n.nums) && n.qual == "" && n.digits == ""
    ensures WellFormed(n) && Text(n) == Join(n.nums, '.')
  {
  }

  lemma CycleExpected(n: Plain, a: Plain, b: Plain)
    requires WellFormed(n) && WellFormed(a) && WellFormed(b) && n.qual == "" && a.qual != "" && b.qual != ""
    requires a.nums == n.nums + ["0"] && b.nums == n.nums && Decimal(n.nums[|n.nums| - 1]) > 0
    ensures Expected(n) == Ints(n.nums)
    ensures Expected(a) == Ints(n.nums) + [IntItem(0), ListItem(QualifierLevel(a))]
    ensures Expected(b) == Ints(n.nums) + [ListItem(QualifierLevel(b))]
  {
    hide QualifierLevel, Qualifier, QualifierOrder, Decimal, Ints;
    Zero();
    IntsSnoc(a.nums);
    assert a.nums[..|a.nums| - 1] == n.nums;
    LastStays(Ints(n.nums));
    var p, x := Ints(n.nums), ListItem(QualifierLevel(a));
    assert p + [IntItem(0)] + [x] == p + [IntItem(0), x];
  }

  lemma Zero()
    ensures AllDigits("0") && Decimal("0") == 0
  {
    assert "0"[..0] == "";
  }

  /** One of them: 1.0-rc is below 1, 1 below 1-sp, and 1-sp below 1.0-rc. */
  lemma Cycle()
    ensures Below("1.0-rc", "1") && Below("1", "1-sp") && Below("1-sp", "1.0-rc")
  {
    hide Parse, CompareVersions, Text, WellFormed, QualifierStands, Join;
    CycleQualifiers();
    CycleTexts();
    EveryCycle(["1"], Plain(["1", "0"], "rc", ""), Plain(["1"], "sp", ""));
  }

  lemma CycleQualifiers()
    ensures QualifierStands(true, "rc") && QualifierStands(false, "sp") && IsQualifier("rc") && IsQualifier("sp")
  {
    assert ToLower("rc") == "rc" && ToLower("sp") == "sp";
  }

  lemma CycleTexts()
    ensures var a, b := Plain(["1", "0"], "rc", ""), Plain(["1"], "sp", "");
            WellFormed(a) && WellFormed(b) && Text(a) == "1.0-rc" && Text(b) == "1-sp"
    ensures Join(["1"], '.') == "1" && IsNumbers(["1"]) && Decimal("1") > 0 && ["1"] + ["0"] == ["1", "0"]
  {
    hide QualifierOrder, NormalizeQualifier, ToLower;
    CycleQualifiers();
    assert ["1", "0"][1..] == ["0"];
    assert "1"[..0] == "";
  }

  // ----- exactly when -----

  /** A version with no qualifier, or one of these. */
  ghost predicate With(quals: set<string>, p: Plain) {
    WellFormed(p) && (p.qual == "" || p.qual in quals)
  }

  /** Letters that are not another word for the release. */
  predicate IsQualifier(qual: string) {
    qual != "" && IsLetters(qual) && QualifierOrder(NormalizeQualifier(ToLower(qual))) != RELEASE
  }

  /**
   Versions of any arity with these qualifiers, or none, are ordered transitively exactly when no two of the
   qualifiers stand on different sides of the release.
   */
  lemma TransitiveExactly(quals: set<string>)
    requires forall q :: q in quals ==> IsQualifier(q)
    ensures (forall p, q, r :: With(quals, p) && With(quals, q) && With(quals, r) ==>
               Transitive(Text(p), Text(q), Text(r)))
            <==>
            (forall a, b :: a in quals && b in quals && QualifierStands(true, a) ==> QualifierStands(true, b))
  {
    hide Transitive, QualifierStands, Text;
    if a, b :| a in quals && b in quals && QualifierStands(true, a) && !QualifierStands(true, b) {
      var p, q, r := MixedFails(a, b);
      assert With(quals, p) && With(quals, q) && With(quals, r);
    } else {
      forall p, q, r | With(quals, p) && With(quals, q) && With(quals, r)
        ensures Transitive(Text(p), Text(q), Text(r)) {
        var before := exists a :: a in quals && QualifierStands(true, a);
        forall s | With(quals, s) ensures OnSide(before, s) {
          if s.qual != "" && !before { OtherSide(s.qual); }
        }
        PlainsTransitive(before, p, q, r);
      }
    }
  }

  lemma OtherSide(qual: string)
    requires IsQualifier(qual)
    ensures QualifierStands(false, qual) <==> !QualifierStands(true, qual)
  {
  }

  lemma MixedFails(a: string, b: string) returns (p: Plain, q: Plain, r: Plain)
    requires IsQualifier(a) && IsQualifier(b) && QualifierStands(true, a) && !QualifierStands(true, b)
    ensures WellFormed(p) && WellFormed(q) && WellFormed(r) && p.qual == b && q.qual == a && r.qual == ""
    ensures !Transitive(Text(p), Text(q), Text(r))
  {
    hide QualifierStands, QualifierOrder, CompareVersions, Parse, Text;
    var one, zero := "1", "0";
    assert one[..0] == "" && zero[..0] == "" && AllDigits(one) && AllDigits(zero);
    assert Decimal(one) == 1;
    p, q, r := Plain([one], b, ""), Plain([one] + [zero], a, ""), Plain([one], "", "");
    OtherSide(b);
    EveryCycle([one], q, p);
    PlainText(r);
    Irreflexive(Text(r), Text(p));
  }

  lemma Irreflexive(a: string, b: string)
    requires Below(a, b)
    ensures !AtMost(b, a)
  {
    hide Parse, CompareItem;
    ReflexiveAndAntisymmetric(a, b);
  }

  predicate OnSide(before: bool, p: Plain) {
    p.qual != "" ==> QualifierStands(before, p.qual)
  }

  /** So is any one triple of one arity, or with qualifiers on one side. */
  lemma PlainsTransitive(before: bool, p: Plain, q: Plain, r: Plain)
    requires WellFormed(p) && WellFormed(q) && WellFormed(r)
    requires |p.nums| == |q.nums| == |r.nums| || (OnSide(before, p) && OnSide(before, q) && OnSide(before, r))
    ensures Transitive(Text(p), Text(q), Text(r))
  {
    hide Parse, CompareVersions, QualifierStands, Text, WellFormed, OneSided;
    if OnSide(before, p) && OnSide(before, q) && OnSide(before, r) {
      PlainIsOneSided(before, p);
      PlainIsOneSided(before, q);
      PlainIsOneSided(before, r);
      OneSidedTransitive(SidesOf(before), Text(p), Text(q), Text(r));
    } else if AtMost(Text(p), Text(q)) && AtMost(Text(q), Text(r)) {
      FixedArityTransitive(p, q, r);
    }
  }
}
