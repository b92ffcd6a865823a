/** gradleModule: the classpaths of one project, in precedence order, folded (buildgraph/gradle.go). */
module GradleModule {
  import opened GoStrings
  import opened Schema
  import opened EdgePaths
  import opened GradleFold
  import opened GradleProperties
  import opened GradleConservation
  import opened Gradle

  function RootNode(p: Project): Node {
    PlainNode(p.group, p.name, p.version, "jar")
  }

  function Others(names: seq<string>): (r: seq<string>)
    ensures forall n :: n in r <==> n in names && n != RUNTIME && n != TEST
  {
    if names == [] then []
    else
      var last := names[|names| - 1];
      assert names == names[..|names| - 1] + [last];
      Others(names[..|names| - 1]) + if last != RUNTIME && last != TEST then [last] else []
  }

  /** The classpath names in precedence order. */
  function Names(p: Project): seq<string> {
    [RUNTIME, COMPILE, TEST] + Others(p.otherRuntime)
  }

  predicate Fails(p: Project, name: string) {
    name in p.classpaths && Translate(p, name, p.classpaths[name], RootNode(p), false).Failed?
  }

  /** What makes gradleModule refuse a project. */
  ghost predicate Refused(p: Project) {
    || p.rel.None?
    || (RUNTIME !in p.classpaths && Others(p.otherRuntime) != [])
    || (exists n :: n in Others(p.otherRuntime) && n !in p.classpaths)
    || (exists n :: n in Names(p) && Fails(p, n))
  }

  function CleanExtra(p: Project, e: (string, Classpath)): Result<Translated> {
    Translate(p, e.0, e.1, RootNode(p), true)
  }

  /** cp is the translation of a classpath the project states, or of an extra configuration. */
  ghost predicate Stated(p: Project, cp: Translated) {
    if cp.extra then exists e :: e in p.extra && CleanExtra(p, e) == Ok(cp)
    else cp.name in p.classpaths && Translate(p, cp.name, p.classpaths[cp.name], RootNode(p), false) == Ok(cp)
  }

  ghost predicate AllStated(p: Project, cps: seq<Translated>) {
    forall c :: 0 <= c < |cps| ==> Stated(p, cps[c])
  }

  ghost predicate HasClasspath(cps: seq<Translated>, name: string, extra: bool) {
    exists c :: 0 <= c < |cps| && cps[c].name == name && cps[c].extra == extra
  }

  // ----- aliases -----

  /** A name that stands for another artifact: group and artifact both given, and not the project's own pair. */
  predicate IsAlias(p: Project, a: string) {
    var colon := IndexOf(a, ':');
    colon > 0 && a[..colon] != "null" && a[colon + 1..] != "" && a != p.group + ":" + p.name
  }

  method ReadAliases(p: Project) returns (out: seq<string>)
    ensures forall a :: a in out <==> a in p.aliases && IsAlias(p, a)
    ensures forall i, j :: 0 <= i < j < |out| ==> out[i] != out[j]
  {
    out := [];
    for i := 0 to |p.aliases|
      invariant forall a :: a in out <==> a in p.aliases[..i] && IsAlias(p, a)
      invariant forall i, j :: 0 <= i < j < |out| ==> out[i] != out[j]
    {
      var a := p.aliases[i];
      if IsAlias(p, a) && a !in out {
        out := out + [a];
      }
    }
  }

  // ----- the classpaths in precedence order -----

  /** What the loop over the names has translated after the first n of them. */
  ghost predicate TranslatedNames(p: Project, n: nat, cps: seq<Translated>, onCompile: set<string>) {
    && n <= |Names(p)|
    && AllStated(p, cps) && IsOnCompile(onCompile, cps)
    && (forall c :: 0 <= c < |cps| ==> !cps[c].extra)
    && (forall k :: 0 <= k < n && Names(p)[k] in p.classpaths ==> HasClasspath(cps, Names(p)[k], false))
    && (forall k :: 0 <= k < n ==> !Fails(p, Names(p)[k]))
    && NameOrder(p, n, cps)
  }

  /** The runtime classpath comes first and, named once, the compile classpath behind nothing else. */
  ghost predicate NameOrder(p: Project, n: nat, cps: seq<Translated>) {
    && (n == 0 ==> cps == [])
    && (n <= 1 ==> forall c :: 0 <= c < |cps| ==> cps[c].name == RUNTIME)
    && (forall c :: 0 <= c < |cps| && cps[c].name == RUNTIME ==> c == 0)
    && (COMPILE !in p.otherRuntime ==> forall c, d :: 0 <= c < d < |cps| && cps[d].name == COMPILE ==>
         cps[c].name == RUNTIME)
  }

  method KeysOf(nodes: seq<Node>, before: set<string>) returns (keys: set<string>)
    ensures forall k :: k in keys <==> k in before || HasKey(nodes, k)
  {
    hide Key;
    keys := before;
    for i := 0 to |nodes|
      invariant forall k :: k in keys <==> k in before || exists j :: 0 <= j < i && Key(nodes[j]) == k
    {
      keys := keys + {Key(nodes[i])};
    }
  }

  lemma OtherNames(p: Project, n: nat)
    requires n < |Names(p)|
    ensures n == 0 <==> Names(p)[n] == RUNTIME
    ensures n == 1 ==> Names(p)[n] == COMPILE
    ensures n > 1 && COMPILE !in p.otherRuntime ==> Names(p)[n] != COMPILE
  {
    var o := Others(p.otherRuntime);
    if n >= 3 { assert Names(p)[n] == o[n - 3] && o[n - 3] in o; }
  }

  lemma OnCompileGrows(onCompile: set<string>, cps: seq<Translated>, t: Translated, grown: set<string>)
    requires IsOnCompile(onCompile, cps) && !t.extra
    requires forall k :: k in grown <==> k in onCompile || (t.name == COMPILE && HasKey(t.nodes, k))
    ensures IsOnCompile(grown, cps + [t])
  {
    hide HasKey;
    var all := cps + [t];
    assert all[|cps|] == t && forall c :: 0 <= c < |cps| ==> all[c] == cps[c];
    forall key ensures key in grown <==> HeldBy(all, COMPILE, key) {
      if HeldBy(cps, COMPILE, key) {
        var c :| 0 <= c < |cps| && !cps[c].extra && cps[c].name == COMPILE && HasKey(cps[c].nodes, key);
        assert HasKey(all[c].nodes, key);
      }
      if t.name == COMPILE && HasKey(t.nodes, key) { assert HasKey(all[|cps|].nodes, key); }
    }
  }

  lemma NameSkipped(p: Project, n: nat, cps: seq<Translated>, onCompile: set<string>)
    requires TranslatedNames(p, n, cps, onCompile) && n < |Names(p)| && Names(p)[n] !in p.classpaths
    ensures TranslatedNames(p, n + 1, cps, onCompile)
  {
    hide Stated, AllStated, IsOnCompile, Fails, HasClasspath, Names;
    assert !Fails(p, Names(p)[n]) by { AbsentNeverFails(p, Names(p)[n]); }
    assert NameOrder(p, n + 1, cps);
    forall k | 0 <= k < n + 1 ensures !Fails(p, Names(p)[k]) {
      assert k < n || k == n;
    }
    forall k | 0 <= k < n + 1 && Names(p)[k] in p.classpaths ensures HasClasspath(cps, Names(p)[k], false) {
      assert k < n;
    }
  }

  lemma AbsentNeverFails(p: Project, name: string)
    requires name !in p.classpaths
    ensures !Fails(p, name)
  {
  }

  lemma NameTranslated(p: Project, n: nat, cps: seq<Translated>, onCompile: set<string>, t: Translated,
                       grown: set<string>)
    requires TranslatedNames(p, n, cps, onCompile) && n < |Names(p)| && Names(p)[n] in p.classpaths
    requires Translate(p, Names(p)[n], p.classpaths[Names(p)[n]], RootNode(p), false) == Ok(t)
    requires forall k :: k in grown <==> k in onCompile || (t.name == COMPILE && HasKey(t.nodes, k))
    ensures TranslatedNames(p, n + 1, cps + [t], grown)
  {
    TranslationName(p, Names(p)[n], p.classpaths[Names(p)[n]], false);
    TranslatedIsStated(p, Names(p)[n], t);
    hide Names, IsOnCompile, Translate, HasKey, Stated, AllStated, Fails, NameOrder, HasClasspath, RootNode;
    OnCompileGrows(onCompile, cps, t, grown);
    OrderGrows(p, n, cps, t);
    StatedGrows(p, cps, t);
    NamesGrow(p, n, cps, t);
  }

  lemma NamesGrow(p: Project, n: nat, cps: seq<Translated>, t: Translated)
    requires n < |Names(p)| && t.name == Names(p)[n] && !t.extra && !Fails(p, t.name)
    requires forall k :: 0 <= k < n ==> !Fails(p, Names(p)[k])
    requires forall k :: 0 <= k < n && Names(p)[k] in p.classpaths ==> HasClasspath(cps, Names(p)[k], false)
    ensures forall k :: 0 <= k < n + 1 ==> !Fails(p, Names(p)[k])
    ensures forall k :: 0 <= k < n + 1 && Names(p)[k] in p.classpaths ==> HasClasspath(cps + [t], Names(p)[k], false)
  {
    hide Names, Fails, HasClasspath;
    forall k | 0 <= k < n + 1 && Names(p)[k] in p.classpaths ensures HasClasspath(cps + [t], Names(p)[k], false) {
      ClasspathsGrow(cps, t, Names(p)[k]);
    }
  }

  lemma StatedGrows(p: Project, cps: seq<Translated>, t: Translated)
    requires AllStated(p, cps) && Stated(p, t)
    ensures AllStated(p, cps + [t])
  {
    hide Stated;
  }

  lemma ClasspathsGrow(cps: seq<Translated>, t: Translated, name: string)
    requires HasClasspath(cps, name, false) || (t.name == name && !t.extra)
    ensures HasClasspath(cps + [t], name, false)
  {
    var all := cps + [t];
    if t.name == name && !t.extra {
      assert all[|cps|] == t;
    } else {
      var c :| 0 <= c < |cps| && cps[c].name == name && !cps[c].extra;
      assert all[c] == cps[c];
    }
  }

  lemma TranslatedIsStated(p: Project, name: string, t: Translated)
    requires name in p.classpaths && Translate(p, name, p.classpaths[name], RootNode(p), false) == Ok(t)
    requires t.name == name && !t.extra
    ensures Stated(p, t) && !Fails(p, name)
  {
    hide Translate;
  }

  lemma OrderGrows(p: Project, n: nat, cps: seq<Translated>, t: Translated)
    requires NameOrder(p, n, cps) && n < |Names(p)| && t.name == Names(p)[n]
    ensures NameOrder(p, n + 1, cps + [t])
  {
    OtherNames(p, n);
    hide Names;
  }

  lemma TranslationName(p: Project, name: string, cp: Classpath, extra: bool)
    requires Translate(p, name, cp, RootNode(p), extra).Ok?
    ensures Translate(p, name, cp, RootNode(p), extra).value.name == name
    ensures Translate(p, name, cp, RootNode(p), extra).value.extra == extra
  {
    hide ClasspathNodes, NodeEdges;
  }

  /** The loop over the classpath names. */
  method TranslateNames(p: Project) returns (r: Result<seq<Translated>>, onCompile: set<string>)
    ensures r.Ok? ==> TranslatedNames(p, |Names(p)|, r.value, onCompile)
    ensures r.Failed? <==> exists n :: n in Names(p) && Fails(p, n)
  {
    hide Names, Translate, HasKey, TranslatedNames;
    var names := Names(p);
    var cps: seq<Translated> := [];
    onCompile := {};
    NothingTranslated(p);
    for n := 0 to |names|
      invariant TranslatedNames(p, n, cps, onCompile)
      invariant forall k :: 0 <= k < n ==> !Fails(p, names[k])
    {
      var name := names[n];
      if name !in p.classpaths {
        NameSkipped(p, n, cps, onCompile);
        continue;
      }
      var t := TranslateClasspath(p, name, p.classpaths[name], RootNode(p), false);
      if t.Failed? {
        assert name in names;
        return Failed(t.step), onCompile;
      }
      TranslationName(p, name, p.classpaths[name], false);
      ghost var before := onCompile;
      if name == COMPILE {
        onCompile := KeysOf(t.value.nodes, onCompile);
      }
      NameTranslated(p, n, cps, before, t.value, onCompile);
      cps := cps + [t.value];
    }
    return Ok(cps), onCompile;
  }

  lemma NothingTranslated(p: Project)
    ensures TranslatedNames(p, 0, [], {})
  {
  }

  /** cp is the translation of one of the first n extra configurations. */
  ghost predicate FromExtra(p: Project, n: nat, cp: Translated) {
    cp.extra && exists k :: 0 <= k < n && k < |p.extra| && CleanExtra(p, p.extra[k]) == Ok(cp)
  }

  /** A configuration that translates is among the classpaths, one that does not is named as unlisted. */
  ghost predicate ExtraDone(p: Project, e: (string, Classpath), cps: seq<Translated>, unlisted: seq<string>) {
    match CleanExtra(p, e)
    case Ok(t) => t in cps
    case Failed(_) => "gradle configuration " + e.0 in unlisted
  }

  /** What the loop over the extra configurations adds after the first n of them. */
  ghost predicate TranslatedExtras(p: Project, n: nat, before: seq<Translated>, cps: seq<Translated>,
                                   unlisted: seq<string>) {
    && n <= |p.extra|
    && before <= cps && AllStated(p, cps)
    && (forall c :: |before| <= c < |cps| ==> FromExtra(p, n, cps[c]))
    && (forall k :: 0 <= k < n ==> ExtraDone(p, p.extra[k], cps, unlisted))
  }

  lemma ExtraAdded(p: Project, n: nat, before: seq<Translated>, cps: seq<Translated>, unlisted: seq<string>,
                   t: Translated)
    requires TranslatedExtras(p, n, before, cps, unlisted) && n < |p.extra| && CleanExtra(p, p.extra[n]) == Ok(t)
    ensures TranslatedExtras(p, n + 1, before, cps + [t], unlisted)
  {
    hide CleanExtra, Stated, FromExtra, ExtraDone, AllStated;
    ExtraIsStated(p, n, t);
    StatedGrows(p, cps, t);
    var all := cps + [t];
    assert all[|cps|] == t && forall c :: 0 <= c < |cps| ==> all[c] == cps[c];
    forall c | |before| <= c < |all| ensures FromExtra(p, n + 1, all[c]) {
      if c < |cps| { FromMoreExtras(p, n, cps[c]); }
    }
    forall k | 0 <= k < n + 1 ensures ExtraDone(p, p.extra[k], all, unlisted) {
      ExtraStaysDone(p, p.extra[k], cps, unlisted, t);
    }
  }

  lemma ExtraStaysDone(p: Project, e: (string, Classpath), cps: seq<Translated>, unlisted: seq<string>, t: Translated)
    requires ExtraDone(p, e, cps, unlisted) || CleanExtra(p, e) == Ok(t)
    ensures ExtraDone(p, e, cps + [t], unlisted)
  {
    hide CleanExtra;
  }

  lemma ExtraIsStated(p: Project, n: nat, t: Translated)
    requires n < |p.extra| && CleanExtra(p, p.extra[n]) == Ok(t)
    ensures Stated(p, t) && FromExtra(p, n + 1, t)
  {
    hide Translate;
    TranslationName(p, p.extra[n].0, p.extra[n].1, true);
    assert p.extra[n] in p.extra;
  }

  lemma FromMoreExtras(p: Project, n: nat, cp: Translated)
    requires FromExtra(p, n, cp)
    ensures FromExtra(p, n + 1, cp)
  {
    hide CleanExtra;
  }

  /** The loop over the other configurations: one that does not translate is recorded as unlisted. */
  method TranslateExtras(p: Project, before: seq<Translated>) returns (cps: seq<Translated>, unlisted: seq<string>)
    requires AllStated(p, before)
    ensures TranslatedExtras(p, |p.extra|, before, cps, unlisted)
  {
    hide CleanExtra, Stated;
    cps, unlisted := before, [];
    for n := 0 to |p.extra|
      invariant TranslatedExtras(p, n, before, cps, unlisted)
    {
      var name, cp := p.extra[n].0, p.extra[n].1;
      var t := TranslateClasspath(p, name, cp, RootNode(p), true);
      assert t == CleanExtra(p, p.extra[n]) by { ExtraIs(p, p.extra[n]); }
      if cp.failure != "" || t.Failed? {
        assert t.Failed? by { FailureFails(p, name, cp); }
        unlisted := unlisted + ["gradle configuration " + name];
      } else {
        ExtraAdded(p, n, before, cps, unlisted, t.value);
        cps := cps + [t.value];
      }
    }
  }

  lemma ExtraIs(p: Project, e: (string, Classpath))
    ensures CleanExtra(p, e) == Translate(p, e.0, e.1, RootNode(p), true)
  {
  }

  lemma FailureFails(p: Project, name: string, cp: Classpath)
    ensures cp.failure != "" ==> Translate(p, name, cp, RootNode(p), true).Failed?
  {
  }

  // ----- the module -----

  /** What gradleModule promises of the modules it returns for the classpaths it translated. */
  ghost predicate Folded(p: Project, ms: seq<Module>, cps: seq<Translated>, onCompile: set<string>) {
    && p.rel.Some? && ms != []
    && IsFold(ms[0], RootNode(p), cps, onCompile)
    && ms == [ms[0]] + CopyModules(ms[0], RootNode(p), cps, onCompile)
    && ms[0].id == p.path && ms[0].copyOf == "" && ms[0].path == (if p.rel.value == "" then "." else p.rel.value)
    && (forall a :: a in ms[0].aliases <==> a in p.aliases && IsAlias(p, a))
  }

  /** The classpaths are exactly the stated ones: each in place, extras last, none left out. */
  ghost predicate Complete(p: Project, cps: seq<Translated>, onCompile: set<string>, unlisted: seq<string>) {
    && AllStated(p, cps) && IsOnCompile(onCompile, cps)
    && (COMPILE !in p.otherRuntime ==> InPrecedence(cps))
    && (forall n :: n in Names(p) && n in p.classpaths ==> HasClasspath(cps, n, false))
    && (forall k :: 0 <= k < |p.extra| ==> ExtraDone(p, p.extra[k], cps, unlisted))
  }

  lemma ExtrasAreComplete(p: Project, before: seq<Translated>, cps: seq<Translated>, onCompile: set<string>,
                          unlisted: seq<string>)
    requires TranslatedNames(p, |Names(p)|, before, onCompile) && TranslatedExtras(p, |p.extra|, before, cps, unlisted)
    ensures Complete(p, cps, onCompile, unlisted)
  {
    hide CleanExtra, Stated, HasKey, Names, Translate;
    assert forall c :: 0 <= c < |before| ==> cps[c] == before[c];
    forall key ensures key in onCompile <==> HeldBy(cps, COMPILE, key) {
      if HeldBy(before, COMPILE, key) {
        var c :| 0 <= c < |before| && !before[c].extra && before[c].name == COMPILE && HasKey(before[c].nodes, key);
        assert HasKey(cps[c].nodes, key);
      }
    }
    forall n | n in Names(p) && n in p.classpaths ensures HasClasspath(cps, n, false) {
      var k :| 0 <= k < |Names(p)| && Names(p)[k] == n;
      assert HasClasspath(before, n, false);
      var c :| 0 <= c < |before| && before[c].name == n && before[c].extra == false;
      assert cps[c].name == n;
    }
  }

  /** gradleModule. cps and onCompile are the classpaths it translated. */
  method FoldProject(p: Project)
    returns (r: Result<seq<Module>>, ghost cps: seq<Translated>, ghost onCompile: set<string>)
    ensures r.Failed? <==> Refused(p)
    ensures r.Ok? ==> Folded(p, r.value, cps, onCompile) && Complete(p, cps, onCompile, r.value[0].unlisted)
  {
    hide Names, Translate, CopyModules, IsFold, Complete, TranslatedNames, TranslatedExtras, PlainNode, AllStated;
    cps, onCompile := [], {};
    if p.rel.None? {
      return Failed("graph"), cps, onCompile;
    }
    var root := RootNode(p);
    var aliases := ReadAliases(p);
    var others := Others(p.otherRuntime);
    if RUNTIME !in p.classpaths && |others| > 0 {
      return Failed("graph"), cps, onCompile;
    }
    for i := 0 to |others|
      invariant forall k :: 0 <= k < i ==> others[k] in p.classpaths
    {
      if others[i] !in p.classpaths {
        assert others[i] in Others(p.otherRuntime);
        return Failed("graph"), cps, onCompile;
      }
    }
    var first, keys := TranslateNames(p);
    if first.Failed? {
      return Failed(first.step), cps, onCompile;
    }
    NamesStated(p, first.value, keys);
    var all, unlisted := TranslateExtras(p, first.value);
    ExtrasAreComplete(p, first.value, all, keys, unlisted);
    var path := if p.rel.value == "" then "." else p.rel.value;
    var m0 := Module(p.path, "", path, root.id, [root], [], unlisted, aliases);
    var m := Fold(m0, root, all, keys);
    FoldRoot(m, root, all, keys);
    var copies := ClasspathCopies(m, root, all, keys);
    assert ([m] + copies)[0] == m;
    return Ok([m] + copies), all, keys;
  }

  lemma NamesStated(p: Project, cps: seq<Translated>, onCompile: set<string>)
    requires TranslatedNames(p, |Names(p)|, cps, onCompile)
    ensures AllStated(p, cps)
  {
  }

  lemma FoldRoot(m: Module, root: Node, cps: seq<Translated>, onCompile: set<string>)
    requires IsFold(m, root, cps, onCompile)
    ensures m.nodes != [] && m.nodes[0] == root
  {
    FoldNodes(m, root, cps, onCompile);
  }

  // ----- the promises, for a whole project -----

  /** Colon-free inputs throughout. */
  ghost predicate CleanProject(p: Project) {
    && ':' !in p.group && ':' !in p.name && ':' !in p.version
    && (forall n :: n in p.classpaths ==> Clean(p, p.classpaths[n]))
    && (forall e :: e in p.extra ==> Clean(p, e.1))
  }

  lemma ProjectIsGood(p: Project, cps: seq<Translated>)
    requires CleanProject(p) && AllStated(p, cps)
    ensures GoodProject(RootNode(p), cps)
  {
    hide Clean, Translate, GoodClasspath, Named, ColonFree;
    PlainIsNamed(p.group, p.name, p.version, "jar");
    forall c | 0 <= c < |cps| ensures GoodClasspath(RootNode(p), cps[c]) {
      assert Stated(p, cps[c]);
      if cps[c].extra {
        var e :| e in p.extra && CleanExtra(p, e) == Ok(cps[c]);
        TranslationIsGood(p, e.0, e.1, RootNode(p), true);
      } else {
        TranslationIsGood(p, cps[c].name, p.classpaths[cps[c].name], RootNode(p), false);
      }
    }
  }

  /** Extra configurations have names of their own. */
  ghost predicate DistinctExtras(p: Project) {
    && (forall e :: e in p.extra ==> e.0 !in p.classpaths)
    && (forall d, e :: d in p.extra && e in p.extra && d.0 == e.0 ==> d == e)
  }

  lemma ProjectNamesAgree(p: Project, cps: seq<Translated>)
    requires DistinctExtras(p) && AllStated(p, cps)
    ensures NamesAgree(cps)
  {
    hide Translate;
    forall c, d | 0 <= c < d < |cps| && cps[c].name == cps[d].name ensures cps[c].nodes == cps[d].nodes {
      assert Stated(p, cps[c]) && Stated(p, cps[d]);
      StatedName(p, cps[c]);
      StatedName(p, cps[d]);
    }
  }

  lemma StatedName(p: Project, cp: Translated)
    requires Stated(p, cp)
    ensures cp.extra ==> exists e :: e in p.extra && CleanExtra(p, e) == Ok(cp) && e.0 == cp.name
  {
    hide Translate;
    if cp.extra {
      var e :| e in p.extra && CleanExtra(p, e) == Ok(cp);
      TranslationName(p, e.0, e.1, true);
    }
  }

  /**
   Of a project with colon-free coordinates, distinct configuration names and one version per
   coordinate within each classpath, everything gradleModule returns passes Validate's and ingest's
   checks on modules, and every id a classpath resolved for another coordinate than the project's
   lands in it exactly once.
   */
  lemma ProjectFoldsSoundly(p: Project, ms: seq<Module>, cps: seq<Translated>, onCompile: set<string>)
    requires Folded(p, ms, cps, onCompile) && Complete(p, cps, onCompile, ms[0].unlisted)
    requires CleanProject(p) && DistinctExtras(p) && OneVersionPerKey(cps) && p.path != ""
    ensures ValidModules(ms) && forall i :: 0 <= i < |ms| ==> OneNodePerKey(ms[i].nodes)
    ensures forall id :: id != RootNode(p).id ==> Occurrences(ms, id) == if Wanted(cps, RootNode(p), id) then 1 else 0
  {
    hide ValidModules, IsFold, CopyModules, AllStated, OneNodePerKey, CleanProject, DistinctExtras, GoodProject,
      NamesAgree, Wanted, Occurrences;
    ProjectIsGood(p, cps);
    ProjectNamesAgree(p, cps);
    FoldValidates(ms[0], RootNode(p), cps, onCompile);
    forall id | id != RootNode(p).id ensures Occurrences(ms, id) == if Wanted(cps, RootNode(p), id) then 1 else 0 {
      NothingLostOrRepeated(ms[0], RootNode(p), cps, onCompile, id);
    }
  }

  /** Every classpath is connected; of the extra configurations, those that translate. */
  ghost predicate ConnectedProject(p: Project) {
    && (forall n :: n in p.classpaths ==> Connected(p, p.classpaths[n]))
    && (forall e :: e in p.extra && CleanExtra(p, e).Ok? ==> Connected(p, e.1))
  }

  lemma StatedReaches(p: Project, cp: Translated, n: Node)
    requires ConnectedProject(p) && Stated(p, cp) && n in cp.nodes
    ensures Reaches(cp.edges, RootNode(p).id, n.id)
  {
    hide Translate, Connected, Reaches;
    if cp.extra {
      var e :| e in p.extra && CleanExtra(p, e) == Ok(cp);
      ConnectedReaches(p, e.0, e.1, RootNode(p), true, n);
    } else {
      ConnectedReaches(p, cp.name, p.classpaths[cp.name], RootNode(p), false, n);
    }
  }

  /** When the project's own component depends on every other, every node of the project's module is
      reached from its root; and its scope is the one its holders give. */
  lemma ProjectReaches(p: Project, ms: seq<Module>, cps: seq<Translated>, onCompile: set<string>, k: nat)
    requires Folded(p, ms, cps, onCompile) && Complete(p, cps, onCompile, ms[0].unlisted) && k < |ms[0].nodes|
    ensures CleanProject(p) && ConnectedProject(p) ==> Reaches(ms[0].edges, ms[0].root, ms[0].nodes[k].id)
    ensures k > 0 && COMPILE !in p.otherRuntime ==> ms[0].nodes[k].scope == ScopeByHolders(cps, Key(ms[0].nodes[k]))
  {
    hide IsFold, CopyModules, CleanProject, GoodProject, ConnectedProject, Reaches, Stated, InPrecedence, IsOnCompile,
      Names, ExtraDone, Key, ScopeByHolders, HasClasspath;
    if k > 0 && COMPILE !in p.otherRuntime {
      ScopeIsByHolders(ms[0], RootNode(p), cps, onCompile, k);
    }
    if CleanProject(p) && ConnectedProject(p) {
      ProjectIsGood(p, cps);
      forall c, i | 0 <= c < |cps| && 0 <= i < |cps[c].nodes|
        ensures Reaches(cps[c].edges, RootNode(p).id, cps[c].nodes[i].id) {
        StatedReaches(p, cps[c], cps[c].nodes[i]);
      }
      FoldPreservesReachability(ms[0], RootNode(p), cps, onCompile, k);
    }
  }

  // ----- names -----

  /** The classpaths read are the runtime, the compile and the test one, in this order, and then the project's other
      runtime configurations in theirs. */
  lemma NamesExactly(p: Project)
    ensures |Names(p)| >= 3 && Names(p)[0] == "runtimeClasspath" && Names(p)[1] == "compileClasspath"
    ensures Names(p)[2] == "testRuntimeClasspath"
    ensures forall n :: n in Names(p)[3..] <==>
              n in p.otherRuntime && n != "runtimeClasspath" && n != "testRuntimeClasspath"
    ensures forall i, j :: 3 <= i < j < |Names(p)| ==>
              InTurn(p.otherRuntime, Names(p)[i], Names(p)[j])
  {
    assert Names(p)[3..] == Others(p.otherRuntime);
    forall i, j | 3 <= i < j < |Names(p)| ensures InTurn(p.otherRuntime, Names(p)[i], Names(p)[j]) {
      var a, b := InOrder(p.otherRuntime, i - 3, j - 3);
      assert Names(p)[3..][i - 3] == Names(p)[i] && Names(p)[3..][j - 3] == Names(p)[j];
    }
  }

  ghost predicate InTurn(names: seq<string>, x: string, y: string) {
    exists a, b :: 0 <= a < b < |names| && names[a] == x && names[b] == y
  }

  lemma {:induction false} InOrder(names: seq<string>, i: nat, j: nat) returns (a: nat, b: nat)
    requires i < j < |Others(names)|
    ensures a < b < |names| && names[a] == Others(names)[i] && names[b] == Others(names)[j]
  {
    var less, last := names[..|names| - 1], names[|names| - 1];
    var added := if last != RUNTIME && last != TEST then [last] else [];
    assert Others(names) == Others(less) + added;
    if j < |Others(less)| {
      a, b := InOrder(less, i, j);
      assert names[a] == less[a] && names[b] == less[b];
    } else {
      assert Others(names)[i] == Others(less)[i] && Others(less)[i] in Others(less);
      a :| 0 <= a < |less| && less[a] == Others(less)[i];
      b := |names| - 1;
    }
  }

  /** An alias is a group and an artifact with a colon between them, neither empty nor a null group, and not the
      project's own pair. */
  lemma AliasExactly(p: Project, alias: string)
    ensures IsAlias(p, alias) <==>
            alias != p.group + ":" + p.name
            && exists group, artifact :: IsPair(alias, group, artifact)
  {
    var colon := IndexOf(alias, ':');
    if IsAlias(p, alias) {
      assert alias == alias[..colon] + ":" + alias[colon + 1..];
      assert IsPair(alias, alias[..colon], alias[colon + 1..]);
    }
    if group, artifact :| IsPair(alias, group, artifact) {
      FirstIndex(group, ':', artifact);
      assert alias == group + [':'] + artifact;
      assert alias[..|group|] == group && alias[|group| + 1..] == artifact;
    }
  }

  ghost predicate IsPair(alias: string, group: string, artifact: string) {
    alias == group + ":" + artifact && ':' !in group && group != "" && group != "null" && artifact != ""
  }
}
