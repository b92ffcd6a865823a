/** The dependency-graph document: node identity and what Validate checks (buildgraph/schema.go). */
module Schema {
  import opened GoStrings

  datatype File = File(path: string, sha256: string)

  datatype Node = Node(id: string, group: string, artifact: string, version: string, typ: string, classifier: string,
                       scope: string, file: Option<File>)

  datatype Edge = Edge(from: string, to: string)

  datatype Module = Module(id: string, copyOf: string, path: string, root: string, nodes: seq<Node>, edges: seq<Edge>,
                           unlisted: seq<string>, aliases: seq<string>)

  // ----- identity -----

  function IDParts(group: string, artifact: string, typ: string, classifier: string,
                   version: string): (parts: seq<string>)
    ensures |parts| >= 1
  {
    var t := if typ == "" then "jar" else typ;
    if classifier == "" then [group, artifact, t, version] else [group, artifact, t, classifier, version]
  }

  /** NodeID: group:artifact:type[:classifier]:version. */
  function NodeID(group: string, artifact: string, typ: string, classifier: string, version: string): string {
    var t := if typ == "" then "jar" else typ;
    if classifier == "" then group + ":" + artifact + ":" + t + ":" + version
    else group + ":" + artifact + ":" + t + ":" + classifier + ":" + version
  }

  function Key(n: Node): string {
    n.group + ":" + n.artifact + ":" + n.typ + ":" + n.classifier
  }

  predicate ColonFree(n: Node) {
    ':' !in n.group && ':' !in n.artifact && ':' !in n.version && ':' !in n.typ && ':' !in n.classifier
  }

  /** A node as the producers build it: typed, and named by its own coordinates. */
  predicate Named(n: Node) {
    n.typ != "" && n.id == NodeID(n.group, n.artifact, n.typ, n.classifier, n.version)
  }

  lemma NodeIDIsJoin(group: string, artifact: string, typ: string, classifier: string, version: string)
    ensures NodeID(group, artifact, typ, classifier, version) ==
            Join(IDParts(group, artifact, typ, classifier, version), ':')
  {
    var t := if typ == "" then "jar" else typ;
    if classifier == "" {
      JoinFour(group, artifact, t, version);
    } else {
      JoinFour(artifact, t, classifier, version);
      assert [group, artifact, t, classifier, version][1..] == [artifact, t, classifier, version];
    }
  }

  lemma JoinFour(a: string, b: string, c: string, d: string)
    ensures Join([a, b, c, d], ':') == a + ":" + b + ":" + c + ":" + d
  {
    assert [a, b, c, d][1..] == [b, c, d];
    assert [b, c, d][1..] == [c, d];
    assert [c, d][1..] == [d];
    assert Join([c, d], ':') == c + ":" + d;
    assert Join([b, c, d], ':') == b + ":" + (c + ":" + d);
  }

  /** Colon-free coordinates are recovered from the identity: equal ids mean equal coordinates. */
  lemma NodeIDIsInjective(a: Node, b: Node)
    requires ColonFree(a) && ColonFree(b) && Named(a) && Named(b) && a.id == b.id
    ensures a.group == b.group && a.artifact == b.artifact && a.typ == b.typ && a.classifier == b.classifier
            && a.version == b.version
    ensures Key(a) == Key(b)
  {
    hide NodeID, Split, Join, Key;
    var p := IDParts(a.group, a.artifact, a.typ, a.classifier, a.version);
    var q := IDParts(b.group, b.artifact, b.typ, b.classifier, b.version);
    NodeIDIsJoin(a.group, a.artifact, a.typ, a.classifier, a.version);
    NodeIDIsJoin(b.group, b.artifact, b.typ, b.classifier, b.version);
    SplitJoin(p, ':');
    SplitJoin(q, ':');
    assert p == q;
    assert p[0] == q[0] && p[1] == q[1] && p[2] == q[2] && p[3] == q[3];
    assert |p| == 5 ==> p[4] == q[4];
    SameKey(a, b);
  }

  /** Taken apart at the colons, an id and a key give the coordinates back in order; a type left out is jar. */
  lemma IDSplits(group: string, artifact: string, typ: string, classifier: string, version: string)
    requires forall s :: s in {group, artifact, typ, classifier, version} ==> ':' !in s
    ensures Split(NodeID(group, artifact, typ, classifier, version), ':') ==
            [group, artifact, if typ == "" then "jar" else typ] +
              (if classifier == "" then [] else [classifier]) + [version]
    ensures forall n: Node ::
              n.group == group && n.artifact == artifact && n.typ == typ && n.classifier == classifier ==>
              Split(Key(n), ':') == [group, artifact, typ, classifier]
  {
    hide Split, Join, NodeID;
    NodeIDIsJoin(group, artifact, typ, classifier, version);
    SplitJoin(IDParts(group, artifact, typ, classifier, version), ':');
    JoinFour(group, artifact, typ, classifier);
    SplitJoin([group, artifact, typ, classifier], ':');
  }

  lemma SameKey(a: Node, b: Node)
    requires a.group == b.group && a.artifact == b.artifact && a.typ == b.typ && a.classifier == b.classifier
    ensures Key(a) == Key(b)
  {
  }

  /** A key and a version determine the node: equal keys mean the same coordinates but the version. */
  lemma KeyIsInjective(a: Node, b: Node)
    requires ColonFree(a) && ColonFree(b) && Key(a) == Key(b)
    ensures a.group == b.group && a.artifact == b.artifact && a.typ == b.typ && a.classifier == b.classifier
  {
    hide Split, Join;
    var p, q := [a.group, a.artifact, a.typ, a.classifier], [b.group, b.artifact, b.typ, b.classifier];
    JoinFour(a.group, a.artifact, a.typ, a.classifier);
    JoinFour(b.group, b.artifact, b.typ, b.classifier);
    SplitJoin(p, ':');
    SplitJoin(q, ':');
    assert p == q;
    assert p[0] == q[0] && p[1] == q[1] && p[2] == q[2] && p[3] == q[3];
  }

  /** With colons the identity is ambiguous: a classifier and a version can be split two ways. */
  lemma ColonsAreAmbiguous()
    ensures NodeID("g", "a", "jar", "", "c:1") == NodeID("g", "a", "jar", "c", "1")
  {
    assert "g" + ":" + "a" + ":" + "jar" + ":" + "c:1" == "g:a:jar:c:1";
    assert "g" + ":" + "a" + ":" + "jar" + ":" + "c" + ":" + "1" == "g:a:jar:c:1";
  }

  // ----- validation -----

  const SCHEMA := "assay.buildgraph/v2"

  /** The document header; digest is InputsDigest of the inputs the document lists. */
  datatype Header = Header(schema: string, toolName: string, toolVersion: string, jvmVersion: string,
                           inputsDigest: string, digest: string)

  predicate ValidHeader(h: Header) {
    && h.schema == SCHEMA && TrimSpace(h.toolName) != "" && TrimSpace(h.toolVersion) != ""
    && TrimSpace(h.jvmVersion) != "" && h.inputsDigest == h.digest
  }

  ghost predicate UniqueIDs(nodes: seq<Node>) {
    forall i, j :: 0 <= i < j < |nodes| ==> nodes[i].id != nodes[j].id
  }

  ghost predicate Holds(nodes: seq<Node>, id: string) {
    exists i :: 0 <= i < |nodes| && nodes[i].id == id
  }

  ghost predicate NamedByCoordinates(n: Node) {
    n.id != "" && n.id == NodeID(n.group, n.artifact, n.typ, n.classifier, n.version)
  }

  ghost predicate ValidModule(m: Module) {
    && m.id != ""
    && (forall i :: 0 <= i < |m.nodes| ==> NamedByCoordinates(m.nodes[i]))
    && UniqueIDs(m.nodes)
    && Holds(m.nodes, m.root)
    && (forall i :: 0 <= i < |m.edges| ==> Holds(m.nodes, m.edges[i].from) && Holds(m.nodes, m.edges[i].to))
  }

  ghost predicate ValidCopy(modules: seq<Module>, m: Module) {
    m.copyOf != "" ==>
      exists k :: 0 <= k < |modules| && modules[k].id == m.copyOf && modules[k].copyOf == ""
        && modules[k].path == m.path
                  && modules[k].root == m.root && m.copyOf + "#" <= m.id
  }

  ghost predicate ValidModules(modules: seq<Module>) {
    && (forall i :: 0 <= i < |modules| ==> ValidModule(modules[i]))
    && (forall i, j :: 0 <= i < j < |modules| ==> modules[i].id != modules[j].id)
    && (forall i :: 0 <= i < |modules| ==> ValidCopy(modules, modules[i]))
  }

  /** The first n nodes are named by their coordinates, once each. */
  ghost predicate NodesPass(nodes: seq<Node>, n: nat)
    requires n <= |nodes|
  {
    && (forall k :: 0 <= k < n ==> NamedByCoordinates(nodes[k]))
    && forall j, k :: 0 <= j < k < n ==> nodes[j].id != nodes[k].id
  }

  ghost predicate MisnamedFirst(nodes: seq<Node>) {
    exists i :: 0 <= i < |nodes| && NodesPass(nodes, i) && !NamedByCoordinates(nodes[i])
  }

  ghost predicate RepeatedFirst(nodes: seq<Node>) {
    exists i :: 0 <= i < |nodes| && NodesPass(nodes, i) && NamedByCoordinates(nodes[i])
      && Holds(nodes[..i], nodes[i].id)
  }

  /** r is what is said of a module with a fault: the first of a misnamed and a repeated node, else a missing one. */
  ghost predicate Fault(m: Module, r: string) {
    || (r == "node_id" && MisnamedFirst(m.nodes))
    || (r == "duplicate_node" && RepeatedFirst(m.nodes))
    || (r == "missing_node" && NodesPass(m.nodes, |m.nodes|) && !ValidModule(m))
  }

  method CheckModule(m: Module) returns (r: string)
    requires m.id != ""
    ensures r == "" <==> ValidModule(m)
    ensures r != "" ==> Fault(m, r)
  {
    hide NodeID;
    var nodes: set<string> := {};
    for i := 0 to |m.nodes|
      invariant forall k :: 0 <= k < i ==> NamedByCoordinates(m.nodes[k])
      invariant forall j, k :: 0 <= j < k < i ==> m.nodes[j].id != m.nodes[k].id
      invariant forall id :: id in nodes <==> exists k :: 0 <= k < i && m.nodes[k].id == id
    {
      var n := m.nodes[i];
      if n.id == "" || n.id != NodeID(n.group, n.artifact, n.typ, n.classifier, n.version) {
        assert NodesPass(m.nodes, i) && !NamedByCoordinates(m.nodes[i]);
        return "node_id";
      }
      if n.id in nodes {
        ghost var k :| 0 <= k < i && m.nodes[k].id == n.id;
        assert m.nodes[..i][k].id == n.id;
        assert NodesPass(m.nodes, i) && NamedByCoordinates(m.nodes[i]);
        return "duplicate_node";
      }
      nodes := nodes + {n.id};
    }
    assert forall id :: id in nodes <==> Holds(m.nodes, id);
    if m.root !in nodes {
      return "missing_node";
    }
    for i := 0 to |m.edges|
      invariant forall k :: 0 <= k < i ==> Holds(m.nodes, m.edges[k].from) && Holds(m.nodes, m.edges[k].to)
    {
      if m.edges[i].from !in nodes || m.edges[i].to !in nodes {
        return "missing_node";
      }
    }
    return "";
  }

  /** The first n modules pass, with an id each. */
  ghost predicate ModulesPass(modules: seq<Module>, n: nat)
    requires n <= |modules|
  {
    && (forall k :: 0 <= k < n ==> ValidModule(modules[k]))
    && forall j, k :: 0 <= j < k < n ==> modules[j].id != modules[k].id
  }

  ghost predicate FreshID(modules: seq<Module>, i: nat)
    requires i < |modules|
  {
    modules[i].id != "" && forall k :: 0 <= k < i ==> modules[k].id != modules[i].id
  }

  /** r is what is said of the first module that fails. */
  ghost predicate FirstFault(modules: seq<Module>, r: string) {
    exists i :: 0 <= i < |modules| && ModulesPass(modules, i)
      && if FreshID(modules, i) then Fault(modules[i], r) else r == "module_id"
  }

  /** Graph.Validate: "" exactly on a document whose every check passes, else the name of the first that fails. */
  method Validate(h: Header, modules: seq<Module>) returns (r: string)
    ensures r == "" <==> ValidHeader(h) && modules != [] && ValidModules(modules)
    ensures r == "schema" <==> h.schema != SCHEMA
    ensures h.schema == SCHEMA ==>
            (r == "tool_version" <==> TrimSpace(h.toolName) == "" || TrimSpace(h.toolVersion) == "")
    ensures r == "jvm" ==>
            TrimSpace(h.jvmVersion) == "" && TrimSpace(h.toolName) != "" && TrimSpace(h.toolVersion) != ""
    ensures r == "inputs_digest" ==> h.inputsDigest != h.digest && ValidHeader(h.(inputsDigest := h.digest))
    ensures r == "modules" ==> ValidHeader(h) && modules == []
    ensures r == "classpath_copy" ==> ValidHeader(h) && ModulesPass(modules, |modules|) && !ValidModules(modules)
    ensures r in {"", "schema", "tool_version", "jvm", "inputs_digest", "modules", "classpath_copy"} ||
            (ValidHeader(h) && FirstFault(modules, r))
  {
    hide ValidModules, ValidModule, ValidCopy, TrimFunc, Fault;
    if h.schema != SCHEMA { return "schema"; }
    if TrimSpace(h.toolName) == "" || TrimSpace(h.toolVersion) == "" { return "tool_version"; }
    if TrimSpace(h.jvmVersion) == "" { return "jvm"; }
    if h.inputsDigest != h.digest { return "inputs_digest"; }
    if |modules| == 0 { return "modules"; }
    var byID: map<string, Module> := map[];
    for i := 0 to |modules|
      invariant forall k :: 0 <= k < i ==> ValidModule(modules[k])
      invariant forall j, k :: 0 <= j < k < i ==> modules[j].id != modules[k].id
      invariant forall k :: 0 <= k < i ==> modules[k].id in byID && byID[modules[k].id] == modules[k]
      invariant forall id :: id in byID ==> exists k :: 0 <= k < i && modules[k].id == id
    {
      if modules[i].id == "" || modules[i].id in byID {
        if modules[i].id == "" { EmptyID(modules, i); } else { RepeatedID(modules, i, byID); }
        assert ModulesPass(modules, i) && !FreshID(modules, i);
        return "module_id";
      }
      r := CheckModule(modules[i]);
      if r != "" {
        InvalidModule(modules, i);
        assert ModulesPass(modules, i) && FreshID(modules, i);
        FaultNames(modules[i], r);
        return;
      }
      byID := byID[modules[i].id := modules[i]];
    }
    r := CheckCopies(modules, byID);
    CopiesDecide(modules);
  }

  lemma FaultNames(m: Module, r: string)
    requires Fault(m, r)
    ensures r in {"node_id", "duplicate_node", "missing_node"}
  {
  }

  lemma CopiesDecide(modules: seq<Module>)
    requires forall k :: 0 <= k < |modules| ==> ValidModule(modules[k])
    requires forall j, k :: 0 <= j < k < |modules| ==> modules[j].id != modules[k].id
    ensures ValidModules(modules) <==> forall i :: 0 <= i < |modules| ==> ValidCopy(modules, modules[i])
  {
    hide ValidModule, ValidCopy;
  }

  lemma InvalidModule(modules: seq<Module>, i: nat)
    requires i < |modules| && !ValidModule(modules[i])
    ensures !ValidModules(modules)
  {
    hide ValidModule, ValidCopy;
  }

  /** The second loop: each classpath copy against the module it names. */
  method CheckCopies(modules: seq<Module>, byID: map<string, Module>) returns (r: string)
    requires forall k :: 0 <= k < |modules| ==> modules[k].id in byID && byID[modules[k].id] == modules[k]
    requires forall id :: id in byID ==> exists k :: 0 <= k < |modules| && modules[k].id == id
    ensures r == "" || r == "classpath_copy"
    ensures r == "" <==> forall i :: 0 <= i < |modules| ==> ValidCopy(modules, modules[i])
  {
    for i := 0 to |modules|
      invariant forall k :: 0 <= k < i ==> ValidCopy(modules, modules[k])
    {
      var m := modules[i];
      if m.copyOf != "" {
        if m.copyOf !in byID {
          assert !ValidCopy(modules, modules[i]);
          return "classpath_copy";
        }
        var p := byID[m.copyOf];
        if p.copyOf != "" || p.path != m.path || p.root != m.root || !(m.copyOf + "#" <= m.id) {
          assert !ValidCopy(modules, modules[i]);
          return "classpath_copy";
        }
        ghost var k :| 0 <= k < |modules| && modules[k].id == m.copyOf;
        assert modules[k] == p;
      }
    }
    return "";
  }

  lemma RepeatedID(modules: seq<Module>, i: nat, byID: map<string, Module>)
    requires i < |modules| && modules[i].id in byID
    requires forall id :: id in byID ==> exists k :: 0 <= k < i && modules[k].id == id
    ensures !ValidModules(modules)
  {
    hide ValidModule, ValidCopy;
  }

  lemma EmptyID(modules: seq<Module>, i: nat)
    requires i < |modules| && modules[i].id == ""
    ensures !ValidModules(modules)
  {
    assert !ValidModule(modules[i]);
  }

  predicate HasKey(nodes: seq<Node>, key: string) {
    exists i :: 0 <= i < |nodes| && Key(nodes[i]) == key
  }

  /** One node per coordinate, as ingest checks each module. */
  ghost predicate OneNodePerKey(nodes: seq<Node>) {
    forall i, j :: 0 <= i < j < |nodes| ==> Key(nodes[i]) != Key(nodes[j])
  }
}
