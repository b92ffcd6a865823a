/** One Gradle project's classpaths, translated onto node ids and folded (buildgraph/gradle.go). */
module Gradle {
  import opened GoStrings
  import opened Schema
  import opened GradleFold
  import opened EdgePaths
  import opened GradleProperties
  import opened GradleConservation

  datatype Result<+T> = Ok(value: T) | Failed(step: string)

  datatype ComponentID = ComponentID(group: string, name: string, version: string, project: string, build: string)

  datatype Component = Component(key: string, id: ComponentID)

  /** A resolved artifact; sha256 is None when its file cannot be hashed. */
  datatype Artifact = Artifact(component: string, file: string, name: string, sha256: Option<string>)

  datatype Coord = Coord(group: string, name: string, version: string)

  datatype Classpath = Classpath(components: seq<Component>, edges: seq<Edge>, unresolved: seq<string>,
                                 files: seq<Artifact>, failure: string)

  /** rel is the project directory relative to the build root, None when outside it; extra lists the
      other configurations in name order. */
  datatype Project = Project(path: string, rel: Option<string>, group: string, name: string, version: string,
                             otherRuntime: seq<string>, projects: map<string, Coord>,
                             classpaths: map<string, Classpath>, extra: seq<(string, Classpath)>, aliases: seq<string>)

  // ----- artifact names -----

  /** path.Ext: from the last dot of the last path element. */
  function Ext(file: string): (r: string)
    ensures |r| <= |file| && file[|file| - |r|..] == r
  {
    if file == "" || file[|file| - 1] == '/' then ""
    else if file[|file| - 1] == '.' then "."
    else
      var before := file[..|file| - 1];
      var e := Ext(before);
      if e == "" then "" else e + [file[|file| - 1]]
  }

  /** What follows the last slash. */
  function LastElement(file: string): string {
    if file == "" || file[|file| - 1] == '/' then "" else LastElement(file[..|file| - 1]) + [file[|file| - 1]]
  }

  /** filepath.Base. */
  function Base(file: string): string {
    var trimmed := TrimRight(file, c => c == '/');
    if file == "" then "." else if trimmed == "" then "/" else LastElement(trimmed)
  }

  /** gradleArtifact: the type and classifier of a file named <name>-<version>[-<classifier>].<ext>. */
  function TypeOf(file: string): (typ: string)
    ensures typ != ""
  {
    var typ := TrimPrefix(Ext(file), ".");
    if typ == "" then "jar" else typ
  }

  function ClassifierOf(name: string, version: string, file: string): string {
    var stem := file[..|file| - |Ext(file)|];
    var prefix := name + "-" + version;
    if prefix <= stem then TrimPrefix(stem[|prefix|..], "-") else ""
  }

  function FileName(f: Artifact): string {
    if f.name == "" then Base(f.file) else f.name
  }

  // ----- the nodes of one classpath -----

  function PlainNode(group: string, artifact: string, version: string, typ: string): Node {
    Node(NodeID(group, artifact, typ, "", version), group, artifact, version, typ, "", "", None)
  }

  function FileNode(id: ComponentID, f: Artifact, sum: string): Node {
    var typ, classifier := TypeOf(FileName(f)), ClassifierOf(id.name, id.version, FileName(f));
    Node(NodeID(id.group, id.name, typ, classifier, id.version), id.group, id.name, id.version, typ, classifier, "",
         Some(File(f.file, sum)))
  }

  /** The maps and lists the source fills as it goes: the files not yet claimed, each component's ids,
      the file each id was first seen with, and the nodes. */
  datatype State = State(files: map<string, seq<Artifact>>, ids: map<string, seq<string>>,
                         seen: map<string, Option<File>>, nodes: seq<Node>)

  function Get<T>(m: map<string, seq<T>>, k: string): seq<T> {
    if k in m then m[k] else []
  }

  function Add(st: State, key: string, n: Node): Result<State> {
    var ids := st.ids[key := Get(st.ids, key) + [n.id]];
    if n.id in st.seen then
      if st.seen[n.id].Some? && n.file.Some? && st.seen[n.id].value.path != n.file.value.path then Failed("graph")
      else Ok(st.(ids := ids))
    else Ok(st.(ids := ids, seen := st.seen[n.id := n.file], nodes := st.nodes + [n]))
  }

  function AddFiles(st: State, c: Component, fs: seq<Artifact>): Result<State>
    decreases |fs|
  {
    if fs == [] then Ok(st)
    else if fs[0].sha256.None? then Failed("graph")
    else match Add(st, c.key, FileNode(c.id, fs[0], fs[0].sha256.value))
      case Ok(next) => AddFiles(next, c, fs[1..])
      case Failed(step) => Failed(step)
  }

  function Insert(f: Artifact, fs: seq<Artifact>): (r: seq<Artifact>)
    ensures multiset(r) == multiset(fs) + multiset{f}
  {
    if fs == [] then [f]
    else if CompareText(f.file, fs[0].file) < 0 then [f] + fs
    else
      assert fs == [fs[0]] + fs[1..];
      [fs[0]] + Insert(f, fs[1..])
  }

  /** sort.Slice by file. */
  function SortByFile(fs: seq<Artifact>): (r: seq<Artifact>)
    ensures multiset(r) == multiset(fs)
  {
    if fs == [] then []
    else
      assert fs == fs[..|fs| - 1] + [fs[|fs| - 1]];
      Insert(fs[|fs| - 1], SortByFile(fs[..|fs| - 1]))
  }

  /** One component: the project itself is the root, a sibling one jar node, a module one node per file
      or one pom node. */
  function Step(p: Project, root: Node, st: State, c: Component): Result<State> {
    var rest := st.(files := map k | k in st.files && k != c.key :: st.files[k]);
    if c.id.project != "" then
      if c.id.project == p.path && c.id.build == ":" then Ok(rest.(ids := rest.ids[c.key := [root.id]]))
      else if c.id.project !in p.projects || c.id.build != ":" then Failed("graph")
      else
        var sib := p.projects[c.id.project];
        Add(rest, c.key, PlainNode(sib.group, sib.name, sib.version, "jar"))
    else if c.id.name != "" then
      var fs := SortByFile(Get(st.files, c.key));
      if fs == [] then Add(rest, c.key, PlainNode(c.id.group, c.id.name, c.id.version, "pom"))
      else AddFiles(rest, c, fs)
    else Failed("graph")
  }

  function Steps(p: Project, root: Node, st: State, comps: seq<Component>): Result<State> {
    if comps == [] then Ok(st)
    else match Steps(p, root, st, comps[..|comps| - 1])
      case Ok(mid) => Step(p, root, mid, comps[|comps| - 1])
      case Failed(step) => Failed(step)
  }

  function Grouped(files: seq<Artifact>): map<string, seq<Artifact>> {
    if files == [] then map[]
    else
      var before := Grouped(files[..|files| - 1]);
      var f := files[|files| - 1];
      before[f.component := Get(before, f.component) + [f]]
  }

  function Start(cp: Classpath, root: Node): State {
    State(Grouped(cp.files), map[], map[root.id := None], [])
  }

  /** gradleClasspathNodes: fails on anything unresolved, unsupported or without a coordinate. */
  function ClasspathNodes(p: Project, cp: Classpath, root: Node): Result<State> {
    if cp.unresolved != [] then Failed("resolve")
    else match Steps(p, root, Start(cp, root), cp.components)
      case Ok(st) => if st.files != map[] then Failed("graph") else Ok(st)
      case Failed(step) => Failed(step)
  }

  /** gradleClasspathNodes' loops. */
  method ReadClasspathNodes(p: Project, cp: Classpath, root: Node) returns (r: Result<State>)
    ensures r == ClasspathNodes(p, cp, root)
  {
    hide Step;
    if |cp.unresolved| > 0 {
      return Failed("resolve");
    }
    var files: map<string, seq<Artifact>> := map[];
    for i := 0 to |cp.files|
      invariant files == Grouped(cp.files[..i])
    {
      assert cp.files[..i + 1][..i] == cp.files[..i];
      var f := cp.files[i];
      files := files[f.component := Get(files, f.component) + [f]];
    }
    assert cp.files[..|cp.files|] == cp.files;
    var st := State(files, map[], map[root.id := None], []);
    for i := 0 to |cp.components|
      invariant Steps(p, root, Start(cp, root), cp.components[..i]) == Ok(st)
    {
      assert cp.components[..i + 1][..i] == cp.components[..i];
      var next := Step(p, root, st, cp.components[i]);
      if next.Failed? {
        StepsFail(p, root, Start(cp, root), cp.components, i + 1);
        return Failed(next.step);
      }
      st := next.value;
    }
    assert cp.components[..|cp.components|] == cp.components;
    if st.files != map[] {
      return Failed("graph");
    }
    return Ok(st);
  }

  lemma {:induction false} StepsFail(p: Project, root: Node, st: State, comps: seq<Component>, n: nat)
    requires n <= |comps| && Steps(p, root, st, comps[..n]).Failed?
    ensures Steps(p, root, st, comps).Failed? && Steps(p, root, st, comps) == Steps(p, root, st, comps[..n])
    decreases |comps| - n
  {
    hide Step;
    if n == |comps| {
      assert comps[..n] == comps;
    } else {
      assert comps[..n + 1][..n] == comps[..n];
      StepsFail(p, root, st, comps, n + 1);
    }
  }

  // ----- its edges -----

  function FanOut(f: string, to: seq<string>): (r: seq<Edge>)
    ensures forall e :: e in r <==> e.from == f && e.to in to && e.from != e.to
  {
    if to == [] then [] else FanOut(f, to[..|to| - 1]) + if f != to[|to| - 1] then [Edge(f, to[|to| - 1])] else []
  }

  function Product(from: seq<string>, to: seq<string>): (r: seq<Edge>)
    ensures forall e :: e in r <==> e.from in from && e.to in to && e.from != e.to
  {
    if from == [] then [] else Product(from[..|from| - 1], to) + FanOut(from[|from| - 1], to)
  }

  /** The component edges on node ids, every id of one end with every id of the other; None when an end
      is not listed. */
  function NodeEdges(ids: map<string, seq<string>>, edges: seq<Edge>): Option<seq<Edge>> {
    if edges == [] then Some([])
    else
      var e := edges[|edges| - 1];
      match NodeEdges(ids, edges[..|edges| - 1])
      case None => None
      case Some(before) =>
        if Get(ids, e.from) == [] || Get(ids, e.to) == [] then None
        else Some(before + Product(Get(ids, e.from), Get(ids, e.to)))
  }

  method ReadEdges(ids: map<string, seq<string>>, edges: seq<Edge>) returns (r: Option<seq<Edge>>)
    ensures r == NodeEdges(ids, edges)
  {
    hide Product;
    var out: seq<Edge> := [];
    for i := 0 to |edges|
      invariant NodeEdges(ids, edges[..i]) == Some(out)
    {
      assert edges[..i + 1][..i] == edges[..i];
      var from, to := Get(ids, edges[i].from), Get(ids, edges[i].to);
      if |from| == 0 || |to| == 0 {
        EdgesFail(ids, edges, i + 1);
        return None;
      }
      out := AddProduct(out, from, to);
    }
    assert edges[..|edges|] == edges;
    return Some(out);
  }

  method AddProduct(before: seq<Edge>, from: seq<string>, to: seq<string>) returns (out: seq<Edge>)
    ensures out == before + Product(from, to)
  {
    hide FanOut, Product;
    out := before;
    NoProduct(to);
    for a := 0 to |from|
      invariant out == before + Product(from[..a], to)
    {
      ghost var mid := out;
      NoFanOut(from[a]);
      for b := 0 to |to|
        invariant out == mid + FanOut(from[a], to[..b])
      {
        FanOutStep(from[a], to, b);
        if from[a] != to[b] {
          out := out + [Edge(from[a], to[b])];
        }
      }
      assert to[..|to|] == to;
      ProductStep(from, to, a);
    }
    assert from[..|from|] == from;
  }

  lemma NoProduct(to: seq<string>)
    ensures Product([], to) == []
  {
  }

  lemma NoFanOut(from: string)
    ensures FanOut(from, []) == []
  {
  }

  lemma FanOutStep(from: string, to: seq<string>, b: nat)
    requires b < |to|
    ensures FanOut(from, to[..b + 1]) == FanOut(from, to[..b]) + if from != to[b] then [Edge(from, to[b])] else []
  {
    assert to[..b + 1][..b] == to[..b];
  }

  lemma ProductStep(from: seq<string>, to: seq<string>, a: nat)
    requires a < |from|
    ensures Product(from[..a + 1], to) == Product(from[..a], to) + FanOut(from[a], to)
  {
    hide FanOut;
    assert from[..a + 1][..a] == from[..a];
  }

  lemma {:induction false} EdgesFail(ids: map<string, seq<string>>, edges: seq<Edge>, n: nat)
    requires n <= |edges| && NodeEdges(ids, edges[..n]).None?
    ensures NodeEdges(ids, edges).None?
    decreases |edges| - n
  {
    if n == |edges| {
      assert edges[..n] == edges;
    } else {
      assert edges[..n + 1][..n] == edges[..n];
      EdgesFail(ids, edges, n + 1);
    }
  }

  /** gradleTranslate. */
  function Translate(p: Project, name: string, cp: Classpath, root: Node, extra: bool): Result<Translated> {
    if cp.failure != "" then Failed("resolve")
    else match ClasspathNodes(p, cp, root)
      case Failed(step) => Failed(step)
      case Ok(st) => match NodeEdges(st.ids, cp.edges)
        case None => Failed("graph")
        case Some(edges) => Ok(Translated(name, extra, st.nodes, edges))
  }

  method TranslateClasspath(p: Project, name: string, cp: Classpath, root: Node, extra: bool)
    returns (r: Result<Translated>)
    ensures r == Translate(p, name, cp, root, extra)
  {
    hide ClasspathNodes, NodeEdges;
    if cp.failure != "" {
      return Failed("resolve");
    }
    var st := ReadClasspathNodes(p, cp, root);
    if st.Failed? {
      return Failed(st.step);
    }
    var edges := ReadEdges(st.value.ids, cp.edges);
    if edges.None? {
      return Failed("graph");
    }
    return Ok(Translated(name, extra, st.value.nodes, edges.value));
  }

  // ----- what a translation keeps -----

  /** Colon-free coordinates and file names. */
  predicate CleanID(c: Component) {
    ':' !in c.id.group && ':' !in c.id.name && ':' !in c.id.version
  }

  ghost predicate Clean(p: Project, cp: Classpath) {
    && (forall i :: 0 <= i < |cp.components| ==> CleanID(cp.components[i]))
    && (forall i :: 0 <= i < |cp.files| ==> ':' !in FileName(cp.files[i]))
    && (forall k :: k in p.projects ==>
          ':' !in p.projects[k].group && ':' !in p.projects[k].name && ':' !in p.projects[k].version)
  }

  /** Every id a component has is a node's or the root's; nodes are named and unique, and colon-free
      when the inputs are. */
  ghost predicate GoodState(root: Node, clean: bool, st: State) {
    && root.id in st.seen
    && (forall i :: 0 <= i < |st.nodes| ==> GoodNode(root, clean, st.nodes[i]) && st.nodes[i].id in st.seen)
    && UniqueIDs(st.nodes)
    && (forall id :: id in st.seen ==> id == root.id || Holds(st.nodes, id))
    && (forall k, id :: k in st.ids && id in st.ids[k] ==> id in st.seen)
    && (clean ==> forall k, f :: k in st.files && f in st.files[k] ==> ':' !in FileName(f))
  }

  predicate GoodNode(root: Node, clean: bool, n: Node) {
    Named(n) && n.id != root.id && (clean ==> ColonFree(n))
  }

  lemma IsGoodNode(root: Node, clean: bool, n: Node)
    requires Named(n) && (clean ==> ColonFree(n)) && n.id != root.id
    ensures GoodNode(root, clean, n)
  {
  }

  lemma HoldsMore(nodes: seq<Node>, n: Node, id: string)
    ensures Holds(nodes + [n], id) <==> Holds(nodes, id) || id == n.id
  {
    var all := nodes + [n];
    assert all[|nodes|] == n && forall i :: 0 <= i < |nodes| ==> all[i] == nodes[i];
    if Holds(nodes, id) {
      var i :| 0 <= i < |nodes| && nodes[i].id == id;
      assert all[i].id == id;
    }
  }

  lemma AddIsGood(root: Node, clean: bool, st: State, key: string, n: Node)
    requires GoodState(root, clean, st) && Named(n) && (clean ==> ColonFree(n)) && Add(st, key, n).Ok?
    ensures GoodState(root, clean, Add(st, key, n).value)
  {
    hide GoodNode, FileName, Holds;
    var next := Add(st, key, n).value;
    if n.id !in st.seen {
      assert next.nodes == st.nodes + [n];
      assert GoodNode(root, clean, n) by { IsGoodNode(root, clean, n); }
      forall id | id in next.seen ensures id == root.id || Holds(next.nodes, id) {
        HoldsMore(st.nodes, n, id);
      }
    }
    forall k, id | k in next.ids && id in next.ids[k] ensures id in next.seen {
      assert k != key ==> k in st.ids && next.ids[k] == st.ids[k];
    }
  }

  lemma {:induction false} ExtChars(file: string)
    requires ':' !in file
    ensures ':' !in TypeOf(file)
  {
    var e := Ext(file);
    assert forall i :: 0 <= i < |e| ==> e[i] == file[|file| - |e|..][i];
  }

  lemma FileNodeIsClean(c: Component, f: Artifact, sum: string)
    ensures Named(FileNode(c.id, f, sum))
    ensures CleanID(c) && ':' !in FileName(f) ==> ColonFree(FileNode(c.id, f, sum))
  {
    hide NodeID, Ext, FileName;
    if ':' !in FileName(f) {
      ExtChars(FileName(f));
    }
  }

  lemma {:induction false} AddFilesIsGood(root: Node, clean: bool, st: State, c: Component, fs: seq<Artifact>)
    requires GoodState(root, clean, st) && AddFiles(st, c, fs).Ok?
    requires clean ==> CleanID(c) && forall f :: f in fs ==> ':' !in FileName(f)
    ensures GoodState(root, clean, AddFiles(st, c, fs).value)
    decreases |fs|
  {
    hide GoodState, Add, FileNode, FileName, CleanID, ColonFree, Named;
    if fs != [] {
      var n := FileNode(c.id, fs[0], fs[0].sha256.value);
      FileNodeIsClean(c, fs[0], fs[0].sha256.value);
      AddIsGood(root, clean, st, c.key, n);
      AddFilesIsGood(root, clean, Add(st, c.key, n).value, c, fs[1..]);
    }
  }

  lemma PlainIsNamed(group: string, artifact: string, version: string, typ: string)
    requires typ != ""
    ensures Named(PlainNode(group, artifact, version, typ))
    ensures ':' !in group && ':' !in artifact && ':' !in version && ':' !in typ ==>
            ColonFree(PlainNode(group, artifact, version, typ))
  {
  }

  lemma StepIsGood(p: Project, root: Node, clean: bool, st: State, c: Component)
    requires GoodState(root, clean, st) && Step(p, root, st, c).Ok?
    requires clean ==> CleanID(c) && forall k :: k in p.projects ==>
             ':' !in p.projects[k].group && ':' !in p.projects[k].name && ':' !in p.projects[k].version
    ensures GoodState(root, clean, Step(p, root, st, c).value)
  {
    hide Add, AddFiles, SortByFile, PlainNode, Named, ColonFree, FileName;
    var rest := st.(files := map k | k in st.files && k != c.key :: st.files[k]);
    assert GoodState(root, clean, rest);
    if c.id.project != "" {
      if !(c.id.project == p.path && c.id.build == ":") {
        var sib := p.projects[c.id.project];
        PlainIsNamed(sib.group, sib.name, sib.version, "jar");
        AddIsGood(root, clean, rest, c.key, PlainNode(sib.group, sib.name, sib.version, "jar"));
      }
    } else {
      var fs := SortByFile(Get(st.files, c.key));
      SortedMembers(Get(st.files, c.key));
      if fs == [] {
        PlainIsNamed(c.id.group, c.id.name, c.id.version, "pom");
        AddIsGood(root, clean, rest, c.key, PlainNode(c.id.group, c.id.name, c.id.version, "pom"));
      } else {
        AddFilesIsGood(root, clean, rest, c, fs);
      }
    }
  }

  lemma SortedMembers(fs: seq<Artifact>)
    ensures forall f :: f in SortByFile(fs) <==> f in fs
    ensures SortByFile(fs) == [] <==> fs == []
  {
    hide SortByFile;
    var r := SortByFile(fs);
    assert forall f :: f in r <==> f in multiset(r);
    assert forall f :: f in fs <==> f in multiset(fs);
    assert |r| == |multiset(r)| == |multiset(fs)| == |fs|;
  }

  lemma {:induction false} StepsAreGood(p: Project, root: Node, clean: bool, st: State, comps: seq<Component>)
    requires GoodState(root, clean, st) && Steps(p, root, st, comps).Ok?
    requires clean ==> (forall k :: k in p.projects ==>
             ':' !in p.projects[k].group && ':' !in p.projects[k].name && ':' !in p.projects[k].version)
    requires clean ==> forall i :: 0 <= i < |comps| ==> CleanID(comps[i])
    ensures GoodState(root, clean, Steps(p, root, st, comps).value)
  {
    hide Step, GoodState, CleanID;
    if comps != [] {
      StepsAreGood(p, root, clean, st, comps[..|comps| - 1]);
      StepIsGood(p, root, clean, Steps(p, root, st, comps[..|comps| - 1]).value, comps[|comps| - 1]);
    }
  }

  lemma {:induction false} GroupedMembers(files: seq<Artifact>)
    ensures forall k, f :: f in Get(Grouped(files), k) <==> f in files && f.component == k
    ensures forall k :: k in Grouped(files) ==> Grouped(files)[k] != []
  {
    if files != [] {
      var before, f := Grouped(files[..|files| - 1]), files[|files| - 1];
      GroupedMembers(files[..|files| - 1]);
      assert forall g :: g in files <==> g in files[..|files| - 1] || g == f;
      var grown := Get(before, f.component) + [f];
      forall k, g ensures g in Get(Grouped(files), k) <==> g in files && g.component == k {
        assert Get(Grouped(files), k) == if k == f.component then grown else Get(before, k);
        assert g in grown <==> g in Get(before, f.component) || g == f;
        assert g in Get(before, k) <==> g in files[..|files| - 1] && g.component == k;
      }
    }
  }

  /** e joins an id of one end of a component edge with an id of the other. */
  ghost predicate Joins(ids: map<string, seq<string>>, c: Edge, e: Edge) {
    e.from in Get(ids, c.from) && e.to in Get(ids, c.to) && e.from != e.to
  }

  lemma {:induction false} NodeEdgesMembers(ids: map<string, seq<string>>, edges: seq<Edge>)
    requires NodeEdges(ids, edges).Some?
    ensures forall e :: e in NodeEdges(ids, edges).value <==> exists c :: c in edges && Joins(ids, c, e)
    ensures forall c :: c in edges ==> Get(ids, c.from) != [] && Get(ids, c.to) != []
  {
    hide Get, Product;
    if edges != [] {
      var less, last := edges[..|edges| - 1], edges[|edges| - 1];
      NodeEdgesMembers(ids, less);
      assert forall c :: c in edges <==> c in less || c == last;
      var before := NodeEdges(ids, less).value;
      var more := Product(Get(ids, last.from), Get(ids, last.to));
      forall e ensures e in before + more <==> exists c :: c in edges && Joins(ids, c, e) {
        if c :| c in less && Joins(ids, c, e) {
          assert c in edges;
        }
        assert e in more <==> Joins(ids, last, e);
      }
    }
  }

  /** A translated classpath is well formed, up to the colons its inputs have. */
  lemma TranslationIsGood(p: Project, name: string, cp: Classpath, root: Node, extra: bool)
    requires Translate(p, name, cp, root, extra).Ok?
    ensures var t := Translate(p, name, cp, root, extra).value;
            && (forall i :: 0 <= i < |t.nodes| ==> GoodNode(root, false, t.nodes[i]))
            && UniqueIDs(t.nodes)
            && (forall e :: e in t.edges ==> Listed(root, t, e.from) && Listed(root, t, e.to))
            && (Clean(p, cp) ==> GoodClasspath(root, t))
  {
    hide ClasspathNodes, NodeEdges, Named, ColonFree, Clean, Holds, UniqueIDs;
    StateIsGood(p, cp, root, false);
    var st := ClasspathNodes(p, cp, root).value;
    if Clean(p, cp) {
      StateIsGood(p, cp, root, true);
    }
    var t := Translate(p, name, cp, root, extra).value;
    EdgesAreListed(cp, root, st, t);
  }

  lemma EdgesAreListed(cp: Classpath, root: Node, st: State, t: Translated)
    requires GoodState(root, false, st) && NodeEdges(st.ids, cp.edges) == Some(t.edges) && t.nodes == st.nodes
    ensures forall e :: e in t.edges ==> Listed(root, t, e.from) && Listed(root, t, e.to)
  {
    hide NodeEdges, GoodNode, Holds;
    NodeEdgesMembers(st.ids, cp.edges);
    forall e | e in t.edges ensures Listed(root, t, e.from) && Listed(root, t, e.to) {
      var c :| c in cp.edges && Joins(st.ids, c, e);
      assert e.from in st.seen && e.to in st.seen;
    }
  }

  lemma StateIsGood(p: Project, cp: Classpath, root: Node, clean: bool)
    requires ClasspathNodes(p, cp, root).Ok? && (clean ==> Clean(p, cp))
    ensures GoodState(root, clean, ClasspathNodes(p, cp, root).value)
  {
    hide Steps, Grouped, FileName, CleanID;
    GroupedMembers(cp.files);
    forall k, f | clean && k in Grouped(cp.files) && f in Grouped(cp.files)[k] ensures ':' !in FileName(f) {
      assert f in Get(Grouped(cp.files), k);
      var i :| 0 <= i < |cp.files| && cp.files[i] == f;
    }
    assert GoodState(root, clean, Start(cp, root));
    StepsAreGood(p, root, clean, Start(cp, root), cp.components);
  }

  // ----- every component lands -----

  /** The ids a component stands for: the root for the project itself, a sibling's jar, one per file of
      a module, or its pom when it has none. */
  ghost predicate Becomes(p: Project, root: Node, cp: Classpath, c: Component, id: string) {
    if c.id.project != "" then
      if c.id.project == p.path && c.id.build == ":" then id == root.id
      else c.id.project in p.projects &&
           var sib := p.projects[c.id.project]; id == NodeID(sib.group, sib.name, "jar", "", sib.version)
    else if exists f :: f in cp.files && f.component == c.key then
      exists f :: f in cp.files && f.component == c.key && id == FileNode(c.id, f, "").id
    else id == NodeID(c.id.group, c.id.name, "pom", "", c.id.version)
  }

  ghost predicate UniqueKeys(comps: seq<Component>) {
    forall i, j :: 0 <= i < j < |comps| ==> comps[i].key != comps[j].key
  }

  lemma {:induction false} AddFilesIDs(st: State, c: Component, fs: seq<Artifact>)
    requires AddFiles(st, c, fs).Ok?
    ensures var next := AddFiles(st, c, fs).value;
            && (forall id :: id in Get(next.ids, c.key) <==>
                             id in Get(st.ids, c.key) || exists f :: f in fs && id == FileNode(c.id, f, "").id)
            && (forall k :: k != c.key ==> Get(next.ids, k) == Get(st.ids, k))
            && next.files == st.files
    decreases |fs|
  {
    hide FileNode;
    if fs != [] {
      var n := FileNode(c.id, fs[0], fs[0].sha256.value);
      SumIsNoName(c, fs[0], fs[0].sha256.value);
      AddFilesIDs(Add(st, c.key, n).value, c, fs[1..]);
      assert forall f :: f in fs <==> f == fs[0] || f in fs[1..];
    }
  }

  lemma SumIsNoName(c: Component, f: Artifact, sum: string)
    ensures FileNode(c.id, f, sum).id == FileNode(c.id, f, "").id
  {
  }

  /** The files of components not yet read are all still unclaimed. */
  ghost predicate Reading(p: Project, root: Node, cp: Classpath, done: seq<Component>, st: State) {
    && (forall k :: Get(st.files, k) == if exists i :: 0 <= i < |done| && done[i].key == k then []
         else Get(Grouped(cp.files), k))
    && (forall k :: (forall i :: 0 <= i < |done| ==> done[i].key != k) ==> Get(st.ids, k) == [])
    && (forall i, id :: 0 <= i < |done| ==> (id in Get(st.ids, done[i].key) <==> Becomes(p, root, cp, done[i], id)))
  }

  lemma StepReads(p: Project, root: Node, cp: Classpath, st: State, c: Component)
    requires Get(st.files, c.key) == Get(Grouped(cp.files), c.key) && Get(st.ids, c.key) == []
    requires Step(p, root, st, c).Ok?
    ensures var next := Step(p, root, st, c).value;
            && Get(next.files, c.key) == []
            && (forall k :: k != c.key ==> Get(next.files, k) == Get(st.files, k) && Get(next.ids, k) == Get(st.ids, k))
            && (forall id :: id in Get(next.ids, c.key) <==> Becomes(p, root, cp, c, id))
  {
    hide FileNode, SortByFile, Grouped, NodeID;
    if c.id.project == "" {
      ExternalReads(p, root, cp, st, c);
    }
  }

  lemma ExternalReads(p: Project, root: Node, cp: Classpath, st: State, c: Component)
    requires Get(st.files, c.key) == Get(Grouped(cp.files), c.key) && Get(st.ids, c.key) == []
    requires Step(p, root, st, c).Ok? && c.id.project == ""
    ensures var next := Step(p, root, st, c).value;
            && Get(next.files, c.key) == []
            && (forall k :: k != c.key ==> Get(next.files, k) == Get(st.files, k) && Get(next.ids, k) == Get(st.ids, k))
            && (forall id :: id in Get(next.ids, c.key) <==> Becomes(p, root, cp, c, id))
  {
    hide FileNode, SortByFile, Grouped, NodeID;
    var rest := st.(files := map k | k in st.files && k != c.key :: st.files[k]);
    GroupedMembers(cp.files);
    SortedMembers(Get(st.files, c.key));
    var fs := SortByFile(Get(st.files, c.key));
    if fs != [] {
      AddFilesIDs(rest, c, fs);
      assert fs[0] in Get(Grouped(cp.files), c.key);
    } else {
      assert forall f :: f in cp.files && f.component == c.key ==> f in Get(Grouped(cp.files), c.key);
    }
  }

  lemma ReadingStep(p: Project, root: Node, cp: Classpath, done: seq<Component>, c: Component, st: State, next: State)
    requires Reading(p, root, cp, done, st) && forall i :: 0 <= i < |done| ==> done[i].key != c.key
    requires Get(next.files, c.key) == []
    requires forall k :: k != c.key ==> Get(next.files, k) == Get(st.files, k) && Get(next.ids, k) == Get(st.ids, k)
    requires forall id :: id in Get(next.ids, c.key) <==> Becomes(p, root, cp, c, id)
    ensures Reading(p, root, cp, done + [c], next)
  {
    hide Get, Becomes, Grouped;
    var all := done + [c];
    assert all[|done|] == c && forall i :: 0 <= i < |done| ==> all[i] == done[i];
  }

  lemma {:induction false} StepsRead(p: Project, root: Node, cp: Classpath, comps: seq<Component>)
    requires UniqueKeys(comps) && Steps(p, root, Start(cp, root), comps).Ok?
    ensures Reading(p, root, cp, comps, Steps(p, root, Start(cp, root), comps).value)
  {
    hide Step, Becomes, Grouped;
    if comps != [] {
      var less, c := comps[..|comps| - 1], comps[|comps| - 1];
      StepsRead(p, root, cp, less);
      var st := Steps(p, root, Start(cp, root), less).value;
      assert forall i :: 0 <= i < |less| ==> less[i] == comps[i];
      StepReads(p, root, cp, st, c);
      assert less + [c] == comps;
      ReadingStep(p, root, cp, less, c, st, Step(p, root, st, c).value);
    }
  }

  /** On success each component's ids are exactly the ones it stands for, each a node of the translation
      or the root. */
  lemma ComponentBecomes(p: Project, cp: Classpath, root: Node, i: nat, id: string)
    requires ClasspathNodes(p, cp, root).Ok? && UniqueKeys(cp.components) && i < |cp.components|
    ensures var st := ClasspathNodes(p, cp, root).value;
            && (id in Get(st.ids, cp.components[i].key) <==> Becomes(p, root, cp, cp.components[i], id))
            && (Becomes(p, root, cp, cp.components[i], id) ==> id == root.id || Holds(st.nodes, id))
  {
    hide Steps, Becomes, Grouped, GoodNode;
    StepsRead(p, root, cp, cp.components);
    StateIsGood(p, cp, root, false);
  }

  // ----- reachability through a translation -----

  ghost predicate KeyWalk(edges: seq<Edge>, keys: seq<string>) {
    keys != [] && forall i :: 0 <= i < |keys| - 1 ==> Edge(keys[i], keys[i + 1]) in edges
  }

  /** A component reachable from the project's own component makes every node it became reachable. */
  lemma {:induction false} TranslationReaches(ids: map<string, seq<string>>, edges: seq<Edge>, root: string,
                                              keys: seq<string>, id: string)
    requires NodeEdges(ids, edges).Some? && KeyWalk(edges, keys)
    requires forall r :: r in Get(ids, keys[0]) ==> r == root
    requires id in Get(ids, keys[|keys| - 1])
    ensures Reaches(NodeEdges(ids, edges).value, root, id)
  {
    hide NodeEdges, Reaches, Get;
    var out := NodeEdges(ids, edges).value;
    if |keys| == 1 {
      assert id == root;
      ReachesItself(out, root);
    } else {
      var less := keys[..|keys| - 1];
      NodeEdgesMembers(ids, edges);
      var c := Edge(keys[|keys| - 2], keys[|keys| - 1]);
      assert c in edges;
      var f := Get(ids, c.from)[0];
      TranslationReaches(ids, edges, root, less, f);
      assert f != id ==> Joins(ids, c, Edge(f, id));
      ReachesNext(out, root, f, id);
    }
  }

  /** Every node is an id of some component read. */
  ghost predicate Owned(done: seq<Component>, st: State) {
    forall n :: n in st.nodes ==> HasOwner(done, st, n.id)
  }

  ghost predicate HasOwner(done: seq<Component>, st: State, id: string) {
    exists i :: 0 <= i < |done| && id in Get(st.ids, done[i].key)
  }

  lemma {:induction false} AddFilesOwns(st: State, c: Component, fs: seq<Artifact>)
    requires AddFiles(st, c, fs).Ok?
    ensures var next := AddFiles(st, c, fs).value;
            forall n :: n in next.nodes ==> n in st.nodes || n.id in Get(next.ids, c.key)
    decreases |fs|
  {
    hide FileNode;
    if fs != [] {
      var mid := Add(st, c.key, FileNode(c.id, fs[0], fs[0].sha256.value)).value;
      AddFilesIDs(mid, c, fs[1..]);
      AddFilesOwns(mid, c, fs[1..]);
    }
  }

  lemma StepOwns(p: Project, root: Node, st: State, c: Component)
    requires Step(p, root, st, c).Ok?
    ensures var next := Step(p, root, st, c).value;
            forall n :: n in next.nodes ==> n in st.nodes || n.id in Get(next.ids, c.key)
  {
    hide FileNode, SortByFile, NodeID;
    if c.id.project == "" {
      AddFilesOwns(st.(files := map k | k in st.files && k != c.key :: st.files[k]), c,
                   SortByFile(Get(st.files, c.key)));
    }
  }

  lemma {:induction false} StepsOwn(p: Project, root: Node, cp: Classpath, comps: seq<Component>)
    requires UniqueKeys(comps) && Steps(p, root, Start(cp, root), comps).Ok?
    ensures Owned(comps, Steps(p, root, Start(cp, root), comps).value)
  {
    hide Step, Becomes, Grouped, Get;
    if comps != [] {
      var less, c := comps[..|comps| - 1], comps[|comps| - 1];
      assert forall i :: 0 <= i < |less| ==> less[i] == comps[i];
      StepsOwn(p, root, cp, less);
      StepsRead(p, root, cp, less);
      var st := Steps(p, root, Start(cp, root), less).value;
      StepReads(p, root, cp, st, c);
      StepOwns(p, root, st, c);
      var next := Step(p, root, st, c).value;
      forall n | n in next.nodes ensures HasOwner(comps, next, n.id) {
        if n in st.nodes {
          var i :| 0 <= i < |less| && n.id in Get(st.ids, less[i].key);
          assert n.id in Get(next.ids, comps[i].key);
        }
      }
    }
  }

  predicate IsOwn(p: Project, c: Component) {
    c.id.project != "" && c.id.project == p.path && c.id.build == ":"
  }

  /** keys lead from the project's own component to the one with the key. */
  ghost predicate Leads(p: Project, cp: Classpath, keys: seq<string>, key: string) {
    && KeyWalk(cp.edges, keys) && keys[|keys| - 1] == key
    && exists c :: c in cp.components && IsOwn(p, c) && c.key == keys[0]
  }

  /** Components have keys of their own, and the project's depends on each, however indirectly. */
  ghost predicate Connected(p: Project, cp: Classpath) {
    UniqueKeys(cp.components) && forall c :: c in cp.components ==> exists keys :: Leads(p, cp, keys, c.key)
  }

  lemma LedTo(p: Project, cp: Classpath, root: Node, n: Node) returns (keys: seq<string>)
    requires ClasspathNodes(p, cp, root).Ok? && Connected(p, cp) && n in ClasspathNodes(p, cp, root).value.nodes
    ensures KeyWalk(cp.edges, keys)
    ensures var ids := ClasspathNodes(p, cp, root).value.ids;
            n.id in Get(ids, keys[|keys| - 1]) && forall id :: id in Get(ids, keys[0]) ==> id == root.id
  {
    hide Steps, Grouped, Get, Reading, UniqueKeys, IsOwn;
    var st := ClasspathNodes(p, cp, root).value;
    StepsOwn(p, root, cp, cp.components);
    StepsRead(p, root, cp, cp.components);
    assert HasOwner(cp.components, st, n.id);
    var i :| 0 <= i < |cp.components| && n.id in Get(st.ids, cp.components[i].key);
    keys :| Leads(p, cp, keys, cp.components[i].key);
    var own :| own in cp.components && IsOwn(p, own) && own.key == keys[0];
    OwnIsRoot(p, root, cp, st, own);
  }

  /** In a connected classpath every translated node is reached from the root. */
  lemma ConnectedReaches(p: Project, name: string, cp: Classpath, root: Node, extra: bool, n: Node)
    requires Translate(p, name, cp, root, extra).Ok? && Connected(p, cp)
    requires n in Translate(p, name, cp, root, extra).value.nodes
    ensures Reaches(Translate(p, name, cp, root, extra).value.edges, root.id, n.id)
  {
    hide ClasspathNodes, NodeEdges, Reaches, Get, Connected;
    var keys := LedTo(p, cp, root, n);
    TranslationReaches(ClasspathNodes(p, cp, root).value.ids, cp.edges, root.id, keys, n.id);
  }

  lemma OwnIsRoot(p: Project, root: Node, cp: Classpath, st: State, own: Component)
    requires Reading(p, root, cp, cp.components, st) && own in cp.components && IsOwn(p, own)
    ensures forall id :: id in Get(st.ids, own.key) ==> id == root.id
  {
    hide Get, Grouped;
    var i :| 0 <= i < |cp.components| && cp.components[i] == own;
  }
}
