/** What a Gradle component's files are named, and so what its nodes are (buildgraph/gradle.go). */
module GradleNames {
  import opened GoStrings
  import opened Schema
  import opened GradleFold
  import opened Gradle

  // ----- names and paths -----

  /** A path's last element: what follows its last slash. */
  lemma {:induction false} LastElementIs(dir: string, name: string)
    requires '/' !in name
    ensures LastElement(name) == name && LastElement(dir + "/" + name) == name
  {
    if name == "" {
      assert dir + "/" + name == dir + "/";
    } else {
      var front := name[..|name| - 1];
      LastElementIs(dir, front);
      assert (dir + "/" + name)[..|dir + "/" + name| - 1] == dir + "/" + front;
    }
  }

  /** A file's name is the last element of its path, slashes behind it apart. */
  lemma BaseIs(dir: string, name: string, behind: string)
    requires '/' !in name && name != "" && forall i :: 0 <= i < |behind| ==> behind[i] == '/'
    ensures Base(name + behind) == name && Base(dir + "/" + name + behind) == name
  {
    hide LastElement, TrimRight;
    LastElementIs(dir, name);
    SlashesGo(name, behind);
    SlashesGo(dir + "/" + name, behind);
  }

  lemma SlashesGo(s: string, behind: string)
    requires s != "" && s[|s| - 1] != '/' && forall i :: 0 <= i < |behind| ==> behind[i] == '/'
    ensures TrimRight(s + behind, c => c == '/') == s
  {
    hide TrimRight;
    var all, slash := s + behind, (c: char) => c == '/';
    var r := TrimRight(all, slash);
    assert all[|s| - 1] == s[|s| - 1];
    assert forall i :: |s| <= i < |all| ==> all[i] == behind[i - |s|];
  }

  // ----- extensions -----

  /** The file is its stem, a dot and the extension; or it has no dot behind its last slash, and no extension. */
  ghost predicate IsNamed(file: string, stem: string, ext: string) {
    || (file == stem + "." + ext && '.' !in ext && '/' !in ext)
    || (file == stem && ext == "" && Dotless(file))
  }

  ghost predicate Dotless(file: string) {
    forall i :: 0 <= i < |file| && file[i] == '.' ==> '/' in file[i..]
  }

  lemma {:induction false} ExtReads(stem: string, ext: string)
    requires '.' !in ext && '/' !in ext
    ensures Ext(stem + "." + ext) == "." + ext
  {
    var file := stem + "." + ext;
    if ext == "" {
      assert file == stem + ".";
    } else {
      var front := ext[..|ext| - 1];
      ExtReads(stem, front);
      assert file[..|file| - 1] == stem + "." + front;
      assert "." + front + [ext[|ext| - 1]] == "." + ext;
    }
  }

  lemma {:induction false} NoExt(file: string)
    requires Dotless(file)
    ensures Ext(file) == ""
  {
    if file != "" && file[|file| - 1] != '/' {
      var n := |file| - 1;
      assert file[n..] == [file[n]];
      forall i | 0 <= i < n && file[i] == '.' ensures '/' in file[..n][i..] {
        var j :| 0 <= j < |file[i..]| && file[i..][j] == '/';
        assert file[..n][i..][j] == '/';
      }
      NoExt(file[..n]);
    }
  }

  /** Every file has one stem and extension. */
  lemma {:induction false} HasName(file: string) returns (stem: string, ext: string)
    ensures IsNamed(file, stem, ext) && stem == file[..|file| - |Ext(file)|]
  {
    if file == "" || file[|file| - 1] == '/' {
      stem, ext := file, "";
      assert Dotless(file) by { EndsInSlash(file); }
    } else if file[|file| - 1] == '.' {
      stem, ext := file[..|file| - 1], "";
      assert file == stem + "." + ext;
    } else {
      var s, e := HasName(file[..|file| - 1]);
      stem, ext := OneMore(file, s, e);
    }
  }

  lemma OneMore(file: string, s: string, e: string) returns (stem: string, ext: string)
    requires file != "" && file[|file| - 1] != '/' && file[|file| - 1] != '.'
    requires var before := file[..|file| - 1]; IsNamed(before, s, e) && s == before[..|before| - |Ext(before)|]
    ensures IsNamed(file, stem, ext) && stem == file[..|file| - |Ext(file)|]
  {
    hide IsNamed, Dotless, Ext;
    var n := |file| - 1;
    ExtOfMore(file);
    if Ext(file[..n]) == "" {
      stem, ext := file, "";
      NoExtIsDotless(file[..n], s, e);
      StillDotless(file);
      assert IsNamed(file, file, "") by { DotlessIsNamed(file); }
    } else {
      stem, ext := s, e + [file[n]];
      ReadsExt(file[..n], s, e);
      assert |Ext(file)| == |Ext(file[..n])| + 1;
      OneByteMore(file, s, e);
      assert '.' !in ext && '/' !in ext;
      Stemmed(stem, ext);
    }
  }

  lemma OneByteMore(file: string, stem: string, ext: string)
    requires file != "" && file[..|file| - 1] == stem + "." + ext
    ensures file == stem + "." + (ext + [file[|file| - 1]])
    ensures forall k :: 0 <= k < |file| ==> file[..|file| - 1][..k] == file[..k]
  {
    assert file == file[..|file| - 1] + [file[|file| - 1]];
    assert forall k :: 0 <= k < |file| ==> file[..|file| - 1][..k] == file[..k];
  }

  lemma DotlessIsNamed(file: string)
    requires Dotless(file)
    ensures IsNamed(file, file, "")
  {
  }

  lemma ExtOfMore(file: string)
    requires file != "" && file[|file| - 1] != '/' && file[|file| - 1] != '.'
    ensures var e := Ext(file[..|file| - 1]); Ext(file) == if e == "" then "" else e + [file[|file| - 1]]
  {
  }

  lemma EndsInSlash(file: string)
    requires file == "" || file[|file| - 1] == '/'
    ensures Dotless(file)
  {
    forall i | 0 <= i < |file| && file[i] == '.' ensures '/' in file[i..] {
      assert file[i..][|file| - 1 - i] == '/';
    }
  }

  lemma NoExtIsDotless(file: string, stem: string, ext: string)
    requires IsNamed(file, stem, ext) && Ext(file) == ""
    ensures Dotless(file)
  {
    if file == stem + "." + ext && '.' !in ext && '/' !in ext {
      ExtReads(stem, ext);
      assert false;
    }
  }

  lemma ReadsExt(file: string, stem: string, ext: string)
    requires IsNamed(file, stem, ext) && Ext(file) != ""
    ensures file == stem + "." + ext && '.' !in ext && '/' !in ext
  {
    if Dotless(file) {
      NoExt(file);
      assert false;
    }
  }

  lemma StillDotless(file: string)
    requires file != "" && Dotless(file[..|file| - 1]) && file[|file| - 1] != '.'
    ensures Dotless(file)
  {
    var n := |file| - 1;
    forall i | 0 <= i < |file| && file[i] == '.' ensures '/' in file[i..] {
      var j :| 0 <= j < |file[..n][i..]| && file[..n][i..][j] == '/';
      assert file[i..][j] == '/';
    }
  }

  // ----- types and classifiers -----

  /** The file is named name-version[-classifier].typ: its type is its extension, or jar; its classifier is what
      its stem has behind name-version, a hyphen in front of it apart, and nothing when it has another stem. */
  ghost predicate IsTyped(file: string, name: string, version: string, typ: string, classifier: string) {
    exists stem, ext :: IsNamed(file, stem, ext)
                        && typ == (if ext == "" then "jar" else ext)
                             && Classifies(stem, name + "-" + version, classifier)
  }

  ghost predicate Classifies(stem: string, prefix: string, classifier: string) {
    if prefix <= stem then stem == prefix + "-" + classifier || (stem == prefix + classifier && !("-" <= classifier))
    else classifier == ""
  }

  lemma StemClassifies(stem: string, name: string, version: string, file: string, c: string)
    requires stem == file[..|file| - |Ext(file)|]
    ensures Classifies(stem, name + "-" + version, c) <==> c == ClassifierOf(name, version, file)
  {
    hide Ext;
    var prefix := name + "-" + version;
    if prefix <= stem {
      var rest := stem[|prefix|..];
      assert stem == prefix + rest;
      if "-" <= rest {
        assert rest == "-" + rest[1..];
        assert stem == prefix + "-" + rest[1..];
      }
      if stem == prefix + "-" + c {
        assert stem[|prefix|..] == "-" + c;
        assert ("-" + c)[1..] == c;
      } else if stem == prefix + c {
        assert stem[|prefix|..] == c;
      }
    }
  }

  /** A file's type and classifier are the ones its name says, and no others. */
  lemma FileReads(file: string, name: string, version: string, typ: string, classifier: string)
    ensures IsTyped(file, name, version, typ, classifier) <==>
            typ == TypeOf(file) && classifier == ClassifierOf(name, version, file)
  {
    hide Ext, ClassifierOf, Classifies;
    var stem, ext := HasName(file);
    StemClassifies(stem, name, version, file, ClassifierOf(name, version, file));
    NameGivesExt(file, stem, ext);
    if IsTyped(file, name, version, typ, classifier) {
      var s, e :| IsNamed(file, s, e)
                  && typ == (if e == "" then "jar" else e) && Classifies(s, name + "-" + version, classifier);
      NameGivesExt(file, s, e);
      StemClassifies(s, name, version, file, classifier);
    }
  }

  lemma NameGivesExt(file: string, stem: string, ext: string)
    requires IsNamed(file, stem, ext)
    ensures TypeOf(file) == (if ext == "" then "jar" else ext) && stem == file[..|file| - |Ext(file)|]
  {
    hide Ext;
    if file == stem + "." + ext && '.' !in ext && '/' !in ext {
      ExtReads(stem, ext);
      assert ("." + ext)[1..] == ext;
    } else {
      NoExt(file);
    }
  }

  /** name-version-classifier.ext is read back, whatever the classifier, and so is name-version.ext. */
  lemma NameReadsBack(name: string, version: string, classifier: string, ext: string)
    requires '.' !in ext && '/' !in ext
    ensures var file := name + "-" + version + "-" + classifier + "." + ext;
            ClassifierOf(name, version, file) == classifier && TypeOf(file) == if ext == "" then "jar" else ext
    ensures var file := name + "-" + version + "." + ext;
            ClassifierOf(name, version, file) == "" && TypeOf(file) == if ext == "" then "jar" else ext
  {
    hide IsNamed, ClassifierOf, TypeOf;
    var prefix := name + "-" + version;
    Stemmed(prefix + "-" + classifier, ext);
    NameGivesExt(prefix + "-" + classifier + "." + ext, prefix + "-" + classifier, ext);
    StemClassifies(prefix + "-" + classifier, name, version, prefix + "-" + classifier + "." + ext, classifier);
    Stemmed(prefix, ext);
    NameGivesExt(prefix + "." + ext, prefix, ext);
    StemClassifies(prefix, name, version, prefix + "." + ext, "");
    assert prefix + "" == prefix;
  }

  lemma Stemmed(stem: string, ext: string)
    requires '.' !in ext && '/' !in ext
    ensures IsNamed(stem + "." + ext, stem, ext)
  {
  }

  // ----- what a component becomes -----

  /** The ids a component stands for: the root for the project itself, a sibling's jar, one for each file of a
      module, by the file's own type and classifier, or its pom when it has none. */
  ghost predicate Describes(p: Project, root: Node, cp: Classpath, c: Component, id: string) {
    if c.id.project != "" then
      if c.id.project == p.path && c.id.build == ":" then id == root.id
      else c.id.project in p.projects &&
           var sib := p.projects[c.id.project]; id == NodeID(sib.group, sib.name, "jar", "", sib.version)
    else if HasFile(cp, c) then exists f, typ, classifier :: FileGives(cp, c, f, typ, classifier)
                                  && id == NodeID(c.id.group, c.id.name, typ, classifier, c.id.version)
    else id == NodeID(c.id.group, c.id.name, "pom", "", c.id.version)
  }

  ghost predicate HasFile(cp: Classpath, c: Component) {
    exists f :: f in cp.files && f.component == c.key
  }

  /** f is one of the component's files, of this type and classifier. */
  ghost predicate FileGives(cp: Classpath, c: Component, f: Artifact, typ: string, classifier: string) {
    f in cp.files && f.component == c.key && IsTyped(FileName(f), c.id.name, c.id.version, typ, classifier)
  }

  lemma FileNodeGives(cp: Classpath, c: Component, f: Artifact, sum: string)
    requires f in cp.files && f.component == c.key
    ensures var n := FileNode(c.id, f, sum);
            && FileGives(cp, c, f, n.typ, n.classifier)
            && n.id == NodeID(c.id.group, c.id.name, n.typ, n.classifier, c.id.version)
            && n == Node(n.id, c.id.group, c.id.name, c.id.version, n.typ, n.classifier, "", Some(File(f.file, sum)))
    ensures forall typ, classifier :: FileGives(cp, c, f, typ, classifier) ==>
              typ == FileNode(c.id, f, sum).typ && classifier == FileNode(c.id, f, sum).classifier
  {
    hide TypeOf, ClassifierOf, NodeID, FileName, IsTyped;
    FileReads(FileName(f), c.id.name, c.id.version, TypeOf(FileName(f)),
              ClassifierOf(c.id.name, c.id.version, FileName(f)));
    forall typ, classifier | FileGives(cp, c, f, typ, classifier)
      ensures typ == TypeOf(FileName(f)) && classifier == ClassifierOf(c.id.name, c.id.version, FileName(f)) {
      FileReads(FileName(f), c.id.name, c.id.version, typ, classifier);
    }
  }

  lemma BecomesDescribed(p: Project, root: Node, cp: Classpath, c: Component, id: string)
    ensures Becomes(p, root, cp, c, id) <==> Describes(p, root, cp, c, id)
  {
    hide FileNode, NodeID, FileGives;
    if c.id.project == "" && HasFile(cp, c) {
      if Becomes(p, root, cp, c, id) {
        var f :| f in cp.files && f.component == c.key && id == FileNode(c.id, f, "").id;
        FileNodeGives(cp, c, f, "");
      }
      if Describes(p, root, cp, c, id) {
        var f, typ, classifier :| FileGives(cp, c, f, typ, classifier)
                                  && id == NodeID(c.id.group, c.id.name, typ, classifier, c.id.version);
        assert f in cp.files && f.component == c.key by { GivenFile(cp, c, f, typ, classifier); }
        FileNodeGives(cp, c, f, "");
      }
    }
  }

  lemma GivenFile(cp: Classpath, c: Component, f: Artifact, typ: string, classifier: string)
    requires FileGives(cp, c, f, typ, classifier)
    ensures f in cp.files && f.component == c.key
  {
  }

  /** On success each component's ids are exactly the ones it stands for, each a node of the translation
      or the root. */
  lemma EveryComponentLands(p: Project, cp: Classpath, root: Node, i: nat, id: string)
    requires ClasspathNodes(p, cp, root).Ok? && UniqueKeys(cp.components) && i < |cp.components|
    ensures var st := ClasspathNodes(p, cp, root).value;
            && (id in Get(st.ids, cp.components[i].key) <==> Describes(p, root, cp, cp.components[i], id))
            && (Describes(p, root, cp, cp.components[i], id) ==> id == root.id || Holds(st.nodes, id))
  {
    hide ClasspathNodes, Becomes, Describes, Get;
    ComponentBecomes(p, cp, root, i, id);
    BecomesDescribed(p, root, cp, cp.components[i], id);
  }

  // ----- what a node is -----

  /** n is what c stands for: a sibling's jar, a module's pom, or one of its files, with its path and hash. */
  ghost predicate StandsFor(p: Project, cp: Classpath, c: Component, n: Node) {
    if c.id.project != "" then
      c.id.project in p.projects && c.id.build == ":" &&
      var sib := p.projects[c.id.project];
      n == Node(NodeID(sib.group, sib.name, "jar", "", sib.version), sib.group, sib.name, sib.version, "jar", "", "",
                None)
    else if HasFile(cp, c) then exists f, typ, classifier :: FileGives(cp, c, f, typ, classifier)
                                  && f.sha256.Some? && n == FileGiven(c, f, typ, classifier)
    else n == Node(NodeID(c.id.group, c.id.name, "pom", "", c.id.version), c.id.group, c.id.name, c.id.version,
                   "pom", "", "", None)
  }

  ghost function FileGiven(c: Component, f: Artifact, typ: string, classifier: string): Node
    requires f.sha256.Some?
  {
    Node(NodeID(c.id.group, c.id.name, typ, classifier, c.id.version), c.id.group, c.id.name, c.id.version,
         typ, classifier, "", Some(File(f.file, f.sha256.value)))
  }

  /** n was a node before, or stands for the component. */
  ghost predicate OldOrNew(p: Project, cp: Classpath, st: State, c: Component, n: Node) {
    n in st.nodes || StandsFor(p, cp, c, n)
  }

  lemma {:induction false} AddFilesStand(p: Project, cp: Classpath, st: State, c: Component, fs: seq<Artifact>)
    requires AddFiles(st, c, fs).Ok? && c.id.project == ""
    requires forall f :: f in fs ==> f in cp.files && f.component == c.key
    ensures forall n :: n in AddFiles(st, c, fs).value.nodes ==> OldOrNew(p, cp, st, c, n)
    decreases |fs|
  {
    hide FileNode, NodeID, FileGives, FileGiven;
    if fs != [] {
      var f := fs[0];
      var n := FileNode(c.id, f, f.sha256.value);
      FileNodeGives(cp, c, f, f.sha256.value);
      assert n == FileGiven(c, f, n.typ, n.classifier) by { FileGivenIs(c, f, n.typ, n.classifier); }
      AddFilesStand(p, cp, Add(st, c.key, n).value, c, fs[1..]);
    }
  }

  lemma FileGivenIs(c: Component, f: Artifact, typ: string, classifier: string)
    requires f.sha256.Some?
    ensures FileGiven(c, f, typ, classifier) ==
            Node(NodeID(c.id.group, c.id.name, typ, classifier, c.id.version), c.id.group, c.id.name, c.id.version,
                 typ, classifier, "", Some(File(f.file, f.sha256.value)))
  {
  }

  lemma StepStands(p: Project, root: Node, cp: Classpath, st: State, c: Component)
    requires Step(p, root, st, c).Ok? && Get(st.files, c.key) == Get(Grouped(cp.files), c.key)
    ensures forall n :: n in Step(p, root, st, c).value.nodes ==> OldOrNew(p, cp, st, c, n)
  {
    hide FileNode, NodeID, FileGives, SortByFile, Grouped;
    if c.id.project == "" {
      var fs := SortByFile(Get(st.files, c.key));
      GroupedMembers(cp.files);
      SortedMembers(Get(st.files, c.key));
      if fs == [] {
        assert forall f :: f in cp.files && f.component == c.key ==> f in Get(Grouped(cp.files), c.key);
      } else {
        assert fs[0] in Get(Grouped(cp.files), c.key);
        AddFilesStand(p, cp, st.(files := map k | k in st.files && k != c.key :: st.files[k]), c, fs);
      }
    }
  }

  lemma {:induction false} StepsStand(p: Project, root: Node, cp: Classpath, comps: seq<Component>)
    requires UniqueKeys(comps) && Steps(p, root, Start(cp, root), comps).Ok?
    ensures forall n :: n in Steps(p, root, Start(cp, root), comps).value.nodes ==>
              exists c :: c in comps && StandsFor(p, cp, c, n)
  {
    hide Step, Becomes, StandsFor, Grouped;
    if comps != [] {
      var less, c := comps[..|comps| - 1], comps[|comps| - 1];
      assert forall i :: 0 <= i < |less| ==> less[i] == comps[i];
      StepsStand(p, root, cp, less);
      StepsRead(p, root, cp, less);
      StepStands(p, root, cp, Steps(p, root, Start(cp, root), less).value, c);
      assert forall d :: d in less ==> d in comps;
    }
  }

  /** Every node of a translation is what one of the components stands for. */
  lemma EveryNodeStands(p: Project, cp: Classpath, root: Node, n: Node)
    requires ClasspathNodes(p, cp, root).Ok? && UniqueKeys(cp.components)
    requires n in ClasspathNodes(p, cp, root).value.nodes
    ensures exists c :: c in cp.components && StandsFor(p, cp, c, n)
  {
    hide Steps, StandsFor;
    StepsStand(p, root, cp, cp.components);
  }

  // ----- when a classpath resolves -----

  /** The project itself, a sibling in this build, or a module. */
  predicate Supported(p: Project, c: Component) {
    if c.id.project != "" then c.id.build == ":" && (c.id.project == p.path || c.id.project in p.projects)
    else c.id.name != ""
  }

  ghost predicate IsModuleFile(cp: Classpath, comps: seq<Component>, c: Component, f: Artifact) {
    c in comps && c.id.project == "" && f in cp.files && f.component == c.key
  }

  /** Every file belongs to a component, and those of modules can be hashed. */
  ghost predicate FilesBelong(cp: Classpath) {
    && (forall f :: f in cp.files ==> exists c :: c in cp.components && c.key == f.component)
    && (forall c, f :: IsModuleFile(cp, cp.components, c, f) ==> f.sha256.Some?)
  }

  /** No two files of one id. */
  ghost predicate NoClash(cp: Classpath) {
    forall c, f, d, g :: IsModuleFile(cp, cp.components, c, f) && IsModuleFile(cp, cp.components, d, g) ==>
      (FileNode(c.id, f, "").id == FileNode(d.id, g, "").id ==> f.file == g.file)
  }

  /** What is seen of a file is some module's file. */
  ghost predicate SeenFrom(cp: Classpath, comps: seq<Component>, st: State) {
    forall id :: id in st.seen && st.seen[id].Some? ==>
      exists c, f :: IsModuleFile(cp, comps, c, f) && FileNode(c.id, f, "").id == id && f.file == st.seen[id].value.path
  }

  /** And a file whose id was first a file's has that one's path. */
  ghost predicate Agreeing(cp: Classpath, comps: seq<Component>, st: State) {
    forall c, f :: IsModuleFile(cp, comps, c, f) ==>
      var id := FileNode(c.id, f, "").id;
      id in st.seen && (st.seen[id].Some? ==> st.seen[id].value.path == f.file)
  }

  lemma {:induction false} FilesAdded(st: State, c: Component, fs: seq<Artifact>)
    requires AddFiles(st, c, fs).Ok?
    ensures var next := AddFiles(st, c, fs).value;
            && (forall id :: id in st.seen ==> id in next.seen && next.seen[id] == st.seen[id])
            && forall f :: f in fs ==>
                 var id := FileNode(c.id, f, "").id;
                 f.sha256.Some? && id in next.seen && (next.seen[id].Some? ==> next.seen[id].value.path == f.file)
    decreases |fs|
  {
    hide FileNode, Get;
    if fs != [] {
      var n := FileNode(c.id, fs[0], fs[0].sha256.value);
      SumIsNoName(c, fs[0], fs[0].sha256.value);
      NodeHasFile(c, fs[0], fs[0].sha256.value);
      FilesAdded(Add(st, c.key, n).value, c, fs[1..]);
      assert forall f :: f in fs <==> f == fs[0] || f in fs[1..];
    }
  }

  lemma NodeHasFile(c: Component, f: Artifact, sum: string)
    ensures FileNode(c.id, f, sum).file == Some(File(f.file, sum))
  {
  }

  lemma StepAgrees(p: Project, root: Node, cp: Classpath, done: seq<Component>, c: Component, st: State)
    requires Step(p, root, st, c).Ok? && Get(st.files, c.key) == Get(Grouped(cp.files), c.key)
    requires Agreeing(cp, done, st)
    ensures Supported(p, c) && Agreeing(cp, done + [c], Step(p, root, st, c).value)
    ensures c.id.project == "" ==> forall f :: f in cp.files && f.component == c.key ==> f.sha256.Some?
  {
    hide FileNode, NodeID, SortByFile, Grouped;
    var next := Step(p, root, st, c).value;
    GroupedMembers(cp.files);
    SortedMembers(Get(st.files, c.key));
    if c.id.project == "" {
      var fs := SortByFile(Get(st.files, c.key));
      if fs != [] {
        FilesAdded(st.(files := map k | k in st.files && k != c.key :: st.files[k]), c, fs);
      }
      forall f | f in cp.files && f.component == c.key ensures f in fs {
        assert f in Get(Grouped(cp.files), c.key);
      }
    }
    assert forall id :: id in st.seen ==> id in next.seen && next.seen[id] == st.seen[id];
  }

  lemma {:induction false} StepsAgree(p: Project, root: Node, cp: Classpath, comps: seq<Component>)
    requires UniqueKeys(comps) && Steps(p, root, Start(cp, root), comps).Ok?
    ensures Agreeing(cp, comps, Steps(p, root, Start(cp, root), comps).value)
    ensures forall c :: c in comps ==> Supported(p, c)
    ensures forall c, f :: IsModuleFile(cp, comps, c, f) ==> f.sha256.Some?
  {
    hide Step, Becomes, Grouped, Supported, FileNode;
    if comps != [] {
      var less, c := comps[..|comps| - 1], comps[|comps| - 1];
      assert less + [c] == comps;
      assert forall i :: 0 <= i < |less| ==> less[i] == comps[i];
      StepsAgree(p, root, cp, less);
      StepsRead(p, root, cp, less);
      StepAgrees(p, root, cp, less, c, Steps(p, root, Start(cp, root), less).value);
      assert forall d :: d in comps <==> d in less || d == c;
      forall d, f | IsModuleFile(cp, comps, d, f) ensures f.sha256.Some? {
        assert d != c ==> IsModuleFile(cp, less, d, f);
      }
    }
  }

  /** What a classpath that resolves is: nothing unresolved, every component supported, every file a component's
      and hashed if a module's, and no file at another path than the one its node records. */
  lemma ResolvedMeans(p: Project, cp: Classpath, root: Node)
    requires ClasspathNodes(p, cp, root).Ok? && UniqueKeys(cp.components)
    ensures cp.unresolved == [] && (forall c :: c in cp.components ==> Supported(p, c)) && FilesBelong(cp)
    ensures Agreeing(cp, cp.components, ClasspathNodes(p, cp, root).value)
  {
    hide Steps, Supported, Agreeing, Becomes, Grouped;
    StepsAgree(p, root, cp, cp.components);
    StepsRead(p, root, cp, cp.components);
    GroupedMembers(cp.files);
    forall f | f in cp.files ensures exists c :: c in cp.components && c.key == f.component {
      assert f in Get(Grouped(cp.files), f.component);
      var none: map<string, seq<Artifact>> := map[];
      assert Get(none, f.component) == [];
      var i :| 0 <= i < |cp.components| && cp.components[i].key == f.component;
      assert cp.components[i] in cp.components;
    }
  }

  // ----- and conversely -----

  /** The files left are those of the components not yet read. */
  lemma {:induction false} FilesLeft(p: Project, root: Node, cp: Classpath, comps: seq<Component>)
    requires Steps(p, root, Start(cp, root), comps).Ok?
    ensures forall k :: k in Steps(p, root, Start(cp, root), comps).value.files ==>
              k in Grouped(cp.files) && forall c :: c in comps ==> c.key != k
  {
    hide Step, Grouped;
    if comps != [] {
      var less, c := comps[..|comps| - 1], comps[|comps| - 1];
      FilesLeft(p, root, cp, less);
      StepTakes(p, root, Steps(p, root, Start(cp, root), less).value, c);
      assert forall d :: d in comps <==> d in less || d == c;
    }
  }

  lemma {:induction false} AddFilesTakesNone(st: State, c: Component, fs: seq<Artifact>)
    requires AddFiles(st, c, fs).Ok?
    ensures AddFiles(st, c, fs).value.files == st.files
    decreases |fs|
  {
    hide FileNode;
    if fs != [] {
      AddFilesTakesNone(Add(st, c.key, FileNode(c.id, fs[0], fs[0].sha256.value)).value, c, fs[1..]);
    }
  }

  lemma StepTakes(p: Project, root: Node, st: State, c: Component)
    requires Step(p, root, st, c).Ok?
    ensures forall k :: k in Step(p, root, st, c).value.files ==> k in st.files && k != c.key
  {
    hide FileNode, NodeID, SortByFile;
    if c.id.project == "" && SortByFile(Get(st.files, c.key)) != [] {
      AddFilesTakesNone(st.(files := map k | k in st.files && k != c.key :: st.files[k]), c,
                        SortByFile(Get(st.files, c.key)));
    }
  }

  lemma {:induction false} FilesAdd(cp: Classpath, comps: seq<Component>, st: State, c: Component, fs: seq<Artifact>)
    requires NoClash(cp) && SeenFrom(cp, comps, st) && (forall d :: d in comps ==> d in cp.components) && c in comps
    requires forall f :: f in fs ==> IsModuleFile(cp, comps, c, f) && f.sha256.Some?
    ensures AddFiles(st, c, fs).Ok? && SeenFrom(cp, comps, AddFiles(st, c, fs).value)
    decreases |fs|
  {
    hide FileNode, Get;
    if fs != [] {
      var f := fs[0];
      var n := FileNode(c.id, f, f.sha256.value);
      SumIsNoName(c, f, f.sha256.value);
      NodeHasFile(c, f, f.sha256.value);
      assert IsModuleFile(cp, cp.components, c, f);
      if n.id in st.seen && st.seen[n.id].Some? {
        var d, g :| IsModuleFile(cp, comps, d, g) && FileNode(d.id, g, "").id == n.id
          && g.file == st.seen[n.id].value.path;
        assert IsModuleFile(cp, cp.components, d, g);
      }
      var next := Add(st, c.key, n);
      assert next.Ok? && SeenFrom(cp, comps, next.value);
      FilesAdd(cp, comps, next.value, c, fs[1..]);
    }
  }

  lemma SeenStays(cp: Classpath, less: seq<Component>, comps: seq<Component>, st: State)
    requires SeenFrom(cp, less, st) && forall c :: c in less ==> c in comps
    ensures SeenFrom(cp, comps, st)
  {
    hide FileNode;
  }

  lemma StepResolves(p: Project, root: Node, cp: Classpath, comps: seq<Component>, st: State, c: Component)
    requires Supported(p, c) && Get(st.files, c.key) == Get(Grouped(cp.files), c.key) && SeenFrom(cp, comps, st)
    requires FilesBelong(cp) && NoClash(cp) && (forall d :: d in comps ==> d in cp.components) && c in comps
    ensures Step(p, root, st, c).Ok? && SeenFrom(cp, comps, Step(p, root, st, c).value)
  {
    hide FileNode, NodeID, SortByFile, Grouped, NoClash, SeenFrom;
    var rest := st.(files := map k | k in st.files && k != c.key :: st.files[k]);
    assert SeenFrom(cp, comps, rest) by { SeenIgnoresFiles(cp, comps, st, rest); }
    GroupedMembers(cp.files);
    SortedMembers(Get(st.files, c.key));
    if c.id.project != "" {
      if c.id.project == p.path {
        SeenIgnoresFiles(cp, comps, st, rest.(ids := rest.ids[c.key := [root.id]]));
      } else {
        var sib := p.projects[c.id.project];
        PlainAdds(cp, comps, rest, c.key, PlainNode(sib.group, sib.name, sib.version, "jar"));
      }
    } else {
      var fs := SortByFile(Get(st.files, c.key));
      if fs == [] {
        PlainAdds(cp, comps, rest, c.key, PlainNode(c.id.group, c.id.name, c.id.version, "pom"));
      } else {
        forall f | f in fs ensures IsModuleFile(cp, comps, c, f) && f.sha256.Some? {
          assert f in Get(Grouped(cp.files), c.key);
          assert IsModuleFile(cp, cp.components, c, f);
        }
        FilesAdd(cp, comps, rest, c, fs);
      }
    }
  }

  lemma SeenIgnoresFiles(cp: Classpath, comps: seq<Component>, st: State, other: State)
    requires SeenFrom(cp, comps, st) && other.seen == st.seen
    ensures SeenFrom(cp, comps, other)
  {
    hide FileNode;
  }

  lemma PlainAdds(cp: Classpath, comps: seq<Component>, st: State, key: string, n: Node)
    requires SeenFrom(cp, comps, st) && n.file == None
    ensures Add(st, key, n).Ok? && SeenFrom(cp, comps, Add(st, key, n).value)
  {
    hide FileNode, Get;
  }

  lemma {:induction false} StepsResolve(p: Project, root: Node, cp: Classpath, comps: seq<Component>)
    requires UniqueKeys(comps) && FilesBelong(cp) && NoClash(cp)
    requires forall c :: c in comps ==> c in cp.components && Supported(p, c)
    ensures Steps(p, root, Start(cp, root), comps).Ok?
    ensures SeenFrom(cp, comps, Steps(p, root, Start(cp, root), comps).value)
  {
    hide Step, Becomes, Grouped, Supported, FileNode, FilesBelong, NoClash;
    if comps != [] {
      var less, c := comps[..|comps| - 1], comps[|comps| - 1];
      assert forall i :: 0 <= i < |less| ==> less[i] == comps[i];
      assert forall d :: d in less ==> d in comps;
      StepsResolve(p, root, cp, less);
      StepsRead(p, root, cp, less);
      var st := Steps(p, root, Start(cp, root), less).value;
      SeenStays(cp, less, comps, st);
      StepResolves(p, root, cp, comps, st, c);
    }
  }

  lemma GroupOwner(cp: Classpath, k: string)
    requires FilesBelong(cp) && k in Grouped(cp.files)
    ensures exists c :: c in cp.components && c.key == k
  {
    hide Grouped;
    GroupedMembers(cp.files);
    var f := Grouped(cp.files)[k][0];
    assert f in Get(Grouped(cp.files), k);
    assert f in cp.files && f.component == k;
    var c :| c in cp.components && c.key == f.component;
  }

  /** A classpath with nothing unresolved, supported components, files that belong and no two paths for one id
      resolves. */
  lemma ResolvesWhen(p: Project, cp: Classpath, root: Node)
    requires UniqueKeys(cp.components) && cp.unresolved == [] && FilesBelong(cp) && NoClash(cp)
    requires forall c :: c in cp.components ==> Supported(p, c)
    ensures ClasspathNodes(p, cp, root).Ok?
  {
    hide Steps, Supported, NoClash, Grouped;
    StepsResolve(p, root, cp, cp.components);
    FilesLeft(p, root, cp, cp.components);
    var left := Steps(p, root, Start(cp, root), cp.components).value.files;
    forall k | k in Grouped(cp.files) ensures exists c :: c in cp.components && c.key == k {
      GroupOwner(cp, k);
    }
    assert left.Keys == {};
  }

  /** The edges translate exactly when both ends of each are listed. */
  lemma {:induction false} EdgesTranslateExactly(ids: map<string, seq<string>>, edges: seq<Edge>)
    ensures NodeEdges(ids, edges).Some? <==> forall e :: e in edges ==> Get(ids, e.from) != [] && Get(ids, e.to) != []
  {
    hide Get, Product;
    if edges != [] {
      EdgesTranslateExactly(ids, edges[..|edges| - 1]);
      assert forall e :: e in edges <==> e in edges[..|edges| - 1] || e == edges[|edges| - 1];
    }
  }

  /** Files are taken in the order of their paths. */
  lemma {:induction false} FilesAreSorted(fs: seq<Artifact>)
    ensures InPathOrder(SortByFile(fs))
  {
    hide Insert;
    if fs != [] {
      FilesAreSorted(fs[..|fs| - 1]);
      InsertsInOrder(fs[|fs| - 1], SortByFile(fs[..|fs| - 1]));
    }
  }

  ghost predicate InPathOrder(fs: seq<Artifact>) {
    forall i, j :: 0 <= i < j < |fs| ==> CompareText(fs[i].file, fs[j].file) <= 0
  }

  lemma {:induction false} InsertsInOrder(f: Artifact, fs: seq<Artifact>)
    requires InPathOrder(fs)
    ensures InPathOrder(Insert(f, fs))
  {
    hide CompareText;
    if fs != [] {
      TextAntisymmetric(f.file, fs[0].file);
      if CompareText(f.file, fs[0].file) < 0 {
        forall j | 0 <= j < |fs| ensures CompareText(f.file, fs[j].file) <= 0 {
          if j > 0 { TextTransitive(f.file, fs[0].file, fs[j].file); }
        }
      } else {
        assert InPathOrder(fs[1..]);
        InsertsInOrder(f, fs[1..]);
        var r := Insert(f, fs[1..]);
        forall j | 0 <= j < |r| ensures CompareText(fs[0].file, r[j].file) <= 0 {
          assert r[j] in multiset(r);
          assert r[j] in multiset(fs[1..]) + multiset{f};
          if r[j] != f {
            assert r[j] in fs[1..];
            var k :| 0 <= k < |fs[1..]| && fs[1..][k] == r[j];
            assert fs[k + 1] == r[j] && CompareText(fs[0].file, fs[k + 1].file) <= 0;
          } else {
            assert CompareText(fs[0].file, f.file) <= 0;
          }
        }
      }
    }
  }
}
