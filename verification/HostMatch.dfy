/** The host allowlist: name patterns compiled into a reverse-label trie (hostmatch/matcher.go). */
module HostMatch {
  import opened GoStrings

  const MAX_LABEL: nat := 63

  datatype IPNet = IPNet(ip: seq<bv8>, mask: seq<bv8>)

  /** What the matcher takes from Go's net package. */
  datatype Net = Net(
    parseIP: string -> Option<seq<bv8>>,
    parseCIDR: string -> Option<IPNet>,
    single: seq<bv8> -> IPNet,
    contains: (IPNet, seq<bv8>) -> bool)

  datatype Fault =
    | EmptyLabel | LongLabel | NotLDH | EdgeHyphen
    | EmptyPattern | BadCIDR | SecondWildcard | WildcardTooHigh | PartialWildcard
    | EmptyHost | Slash | Zone | Bracket | StarLabel

  // ----- the rules, on lists of labels -----

  predicate IsLDH(c: char) {
    IsLower(c) || IsDigit(c) || c == '-'
  }

  predicate AllLDH(part: string) {
    forall i :: 0 <= i < |part| ==> IsLDH(part[i])
  }

  /** What is wrong with a label, in the order the source looks. Its length is that of its UTF-8 bytes. */
  function LabelFault(part: string): Option<Fault> {
    if part == "" then Some(EmptyLabel)
    else if ByteLength(part) > MAX_LABEL then Some(LongLabel)
    else if !AllLDH(part) then Some(NotLDH)
    else if part[0] == '-' || part[|part| - 1] == '-' then Some(EdgeHyphen)
    else None
  }

  /** A label passes exactly when it is 1 to 63 letters, digits and inner hyphens. */
  lemma LabelPasses(part: string)
    ensures LabelFault(part).None? <==>
            1 <= |part| <= MAX_LABEL && AllLDH(part) && part[0] != '-' && part[|part| - 1] != '-'
  {
    if AllLDH(part) {
      ASCIIBytes(part);
    }
  }

  /** validLabel. A character outside ASCII is bytes outside the alphabet, so the scan may go by characters. */
  method ValidLabel(part: string) returns (f: Option<Fault>)
    ensures f == LabelFault(part)
  {
    if |part| == 0 {
      return Some(EmptyLabel);
    }
    if ByteLength(part) > MAX_LABEL {
      return Some(LongLabel);
    }
    for i := 0 to |part|
      invariant forall k :: 0 <= k < i ==> IsLDH(part[k])
    {
      if !IsLDH(part[i]) {
        return Some(NotLDH);
      }
    }
    if part[0] == '-' || part[|part| - 1] == '-' {
      return Some(EdgeHyphen);
    }
    return None;
  }

  /** The first fault of a name pattern's labels from the i-th on, after wilds wildcards. */
  function PatternFault(labels: seq<string>, i: nat, wilds: nat): Option<Fault>
    requires i <= |labels|
    decreases |labels| - i
  {
    if i == |labels| then None
    else if labels[i] == "*" then
      if wilds > 0 then Some(SecondWildcard)
      else if |labels| - 1 - i < 2 then Some(WildcardTooHigh)
      else PatternFault(labels, i + 1, wilds + 1)
    else if '*' in labels[i] then Some(PartialWildcard)
    else if LabelFault(labels[i]).Some? then LabelFault(labels[i])
    else PatternFault(labels, i + 1, wilds)
  }

  method CheckPattern(labels: seq<string>) returns (f: Option<Fault>)
    ensures f == PatternFault(labels, 0, 0)
  {
    hide LabelFault;
    var wilds := 0;
    for i := 0 to |labels|
      invariant PatternFault(labels, 0, 0) == PatternFault(labels, i, wilds)
    {
      if labels[i] == "*" {
        wilds := wilds + 1;
        if wilds > 1 {
          return Some(SecondWildcard);
        }
        if |labels| - 1 - i < 2 {
          return Some(WildcardTooHigh);
        }
        continue;
      }
      if '*' in labels[i] {
        return Some(PartialWildcard);
      }
      var bad := ValidLabel(labels[i]);
      if bad.Some? {
        return bad;
      }
    }
    return None;
  }

  /** The documented rules for a name pattern. */
  ghost predicate GoodFrom(labels: seq<string>, i: nat) {
    && (forall k :: i <= k < |labels| ==> labels[k] == "*" || LabelFault(labels[k]).None?)
    && (forall k :: i <= k < |labels| && labels[k] == "*" ==> k + 3 <= |labels|)
    && (forall j, k :: i <= j < k < |labels| ==> labels[j] != "*" || labels[k] != "*")
  }

  /** A pattern is accepted exactly when every label is valid or a whole wildcard, there is at most one
      wildcard, and at least two labels stand to its right. */
  lemma {:induction false} AcceptedIsGood(labels: seq<string>, i: nat, wilds: nat)
    requires i <= |labels|
    ensures PatternFault(labels, i, wilds).None? <==>
            GoodFrom(labels, i) && (wilds > 0 ==> forall k :: i <= k < |labels| ==> labels[k] != "*")
    decreases |labels| - i
  {
    hide LabelFault;
    if i < |labels| {
      var next := if labels[i] == "*" then wilds + 1 else wilds;
      AcceptedIsGood(labels, i + 1, next);
      StarIsNoLabel(labels[i]);
    }
  }

  lemma StarIsNoLabel(part: string)
    ensures '*' in part ==> LabelFault(part).Some?
  {
    if '*' in part {
      var i :| 0 <= i < |part| && part[i] == '*';
      assert !IsLDH(part[i]);
    }
  }

  function Labels(name: string): seq<string> {
    Split(ToLower(name), '.')
  }

  /** The same length, and label by label equal or a wildcard of the pattern. */
  ghost predicate Agrees(pattern: seq<string>, labels: seq<string>) {
    |pattern| == |labels| && forall i :: 0 <= i < |pattern| ==> pattern[i] == "*" || pattern[i] == labels[i]
  }

  function Reverse(s: seq<string>): (r: seq<string>)
    ensures |r| == |s| && forall i :: 0 <= i < |s| ==> r[i] == s[|s| - 1 - i]
  {
    seq(|s|, i requires 0 <= i < |s| => s[|s| - 1 - i])
  }

  /** The labels from the i-th on, apex first. */
  function Walked(labels: seq<string>, i: nat): seq<string>
    requires i <= |labels|
  {
    Reverse(labels)[..|labels| - i]
  }

  lemma WalkedEnds(labels: seq<string>)
    ensures Walked(labels, |labels|) == [] && Walked(labels, 0) == Reverse(labels)
  {
  }

  lemma WalkedStep(labels: seq<string>, i: nat)
    requires i < |labels|
    ensures Walked(labels, i) == Under(Walked(labels, i + 1), labels[i])
  {
  }

  lemma ReversedAgrees(pattern: seq<string>, labels: seq<string>)
    ensures Agrees(Reverse(pattern), Reverse(labels)) <==> Agrees(pattern, labels)
  {
    if Agrees(Reverse(pattern), Reverse(labels)) {
      forall i | 0 <= i < |pattern| ensures pattern[i] == "*" || pattern[i] == labels[i] {
        var j := |pattern| - 1 - i;
        assert Reverse(pattern)[j] == pattern[i] && Reverse(labels)[j] == labels[i];
      }
    }
  }

  // ----- what a list of patterns admits -----

  datatype Pattern = Range(net: IPNet) | Name(labels: seq<string>) | Bad(fault: Fault)

  /** What one pattern compiles to. */
  function Compile(n: Net, raw: string): Pattern {
    var p := TrimSpace(raw);
    if p == "" then Bad(EmptyPattern)
    else if '/' in p then
      match n.parseCIDR(p)
      case Some(net) => Range(net)
      case None => Bad(BadCIDR)
    else match n.parseIP(p)
      case Some(ip) => Range(n.single(ip))
      case None =>
        match PatternFault(Labels(p), 0, 0)
        case Some(f) => Bad(f)
        case None => Name(Labels(p))
  }

  ghost predicate NameListed(n: Net, patterns: seq<string>, labels: seq<string>) {
    exists p :: p in patterns && Compile(n, p).Name? && Agrees(Compile(n, p).labels, labels)
  }

  ghost predicate AddressListed(n: Net, patterns: seq<string>, ip: seq<bv8>) {
    exists p :: p in patterns && Compile(n, p).Range? && n.contains(Compile(n, p).net, ip)
  }

  datatype Outcome = Verdict(admitted: bool) | Malformed(fault: Fault)

  function HostFault(host: string): Option<Fault> {
    if host == "" then Some(EmptyHost)
    else if '/' in host then Some(Slash)
    else if '%' in host then Some(Zone)
    else if '[' in host || ']' in host then Some(Bracket)
    else None
  }

  /** The first fault of a host's labels from the i-th on. */
  function LabelsFault(labels: seq<string>, i: nat): Option<Fault>
    requires i <= |labels|
    decreases |labels| - i
  {
    if i == |labels| then None
    else if labels[i] == "*" then Some(StarLabel)
    else if LabelFault(labels[i]).Some? then LabelFault(labels[i])
    else LabelsFault(labels, i + 1)
  }

  /** The reference: what Allows answers, read off the list of patterns alone. */
  ghost function Decide(n: Net, patterns: seq<string>, host: string): Outcome {
    match HostFault(host)
    case Some(f) => Malformed(f)
    case None =>
      match n.parseIP(host)
      case Some(ip) => Verdict(AddressListed(n, patterns, ip))
      case None =>
        match LabelsFault(Labels(host), 0)
        case Some(f) => Malformed(f)
        case None => Verdict(NameListed(n, patterns, Labels(host)))
  }

  // ----- the trie -----

  class TrieNode {
    var exact: map<string, TrieNode>
    var wild: TrieNode?
    var terminal: bool
    /** The labels on the edges from the root, a wildcard edge written "*". */
    ghost const path: seq<string>

    constructor (ghost path: seq<string>)
      ensures exact == map[] && wild == null && !terminal && this.path == path
    {
      exact, wild, terminal := map[], null, false;
      this.path := path;
    }
  }

  function Under(path: seq<string>, part: string): seq<string> {
    path + [part]
  }

  lemma UnderIsInjective(p: seq<string>, l: string, q: seq<string>, m: string)
    requires Under(p, l) == Under(q, m)
    ensures p == q && l == m
  {
    assert Under(p, l)[..|p|] == p && Under(q, m)[..|q|] == q;
    assert Under(p, l)[|p|] == l && Under(q, m)[|q|] == m;
  }

  /** The edges and the end mark of the node at path are those of the map of all nodes. */
  ghost predicate Links(nodes: map<seq<string>, TrieNode>, words: set<seq<string>>, path: seq<string>,
                        exact: map<string, TrieNode>, wild: TrieNode?, terminal: bool) {
    && (terminal <==> path in words)
    && "*" !in exact
    && (forall l :: l in exact ==> Under(path, l) in nodes && nodes[Under(path, l)] == exact[l])
    && (forall l :: l != "*" && Under(path, l) in nodes ==> l in exact)
    && (wild == null <==> Under(path, "*") !in nodes)
    && (wild != null ==> nodes[Under(path, "*")] == wild)
  }

  /** A new node at path/part leaves the links of every other node but its parent's alone. */
  lemma LinksStay(nodes: map<seq<string>, TrieNode>, words: set<seq<string>>, p: seq<string>,
                  exact: map<string, TrieNode>, wild: TrieNode?, terminal: bool, path: seq<string>, part: string,
                  c: TrieNode)
    requires Links(nodes, words, p, exact, wild, terminal) && Under(path, part) !in nodes && p != path
    ensures Links(nodes[Under(path, part) := c], words, p, exact, wild, terminal)
  {
    forall l ensures Under(p, l) != Under(path, part) {
      if Under(p, l) == Under(path, part) {
        UnderIsInjective(p, l, path, part);
      }
    }
    hide Under;
  }

  lemma ParentLinks(nodes: map<seq<string>, TrieNode>, words: set<seq<string>>, path: seq<string>,
                    exact: map<string, TrieNode>, wild: TrieNode?, terminal: bool, part: string, c: TrieNode)
    requires Links(nodes, words, path, exact, wild, terminal) && Under(path, part) !in nodes
    ensures part == "*" ==> Links(nodes[Under(path, part) := c], words, path, exact, c, terminal)
    ensures part != "*" ==> Links(nodes[Under(path, part) := c], words, path, exact[part := c], wild, terminal)
  {
    forall l | l != part ensures Under(path, l) != Under(path, part) {
      if Under(path, l) == Under(path, part) {
        UnderIsInjective(path, l, path, part);
      }
    }
    hide Under;
  }

  lemma LeafLinks(nodes: map<seq<string>, TrieNode>, words: set<seq<string>>, path: seq<string>, c: TrieNode)
    requires path !in nodes && path !in words
    requires forall p :: p in nodes && p != [] ==> p[..|p| - 1] in nodes
    ensures Links(nodes[path := c], words, path, map[], null, false)
  {
    forall l ensures Under(path, l) !in nodes && Under(path, l) != path {
      assert Under(path, l)[..|Under(path, l)| - 1] == path;
    }
  }

  /** w is path followed by labels that agree. */
  ghost predicate Continues(w: seq<string>, path: seq<string>, labels: seq<string>) {
    path <= w && Agrees(w[|path|..], labels)
  }

  ghost predicate Leads(words: set<seq<string>>, path: seq<string>, labels: seq<string>) {
    exists w :: w in words && Continues(w, path, labels)
  }

  lemma EndOfWord(words: set<seq<string>>, path: seq<string>)
    ensures Leads(words, path, []) <==> path in words
  {
    forall w ensures Continues(w, path, []) <==> w == path {
      if Continues(w, path, []) { assert w == w[..|path|] + w[|path|..]; }
    }
  }

  lemma LeadsBack(words: set<seq<string>>, path: seq<string>, l: string, labels: seq<string>)
    requires labels != [] && (l == labels[0] || l == "*")
    ensures Leads(words, Under(path, l), labels[1..]) ==> Leads(words, path, labels)
  {
    hide Continues, Under;
    if Leads(words, Under(path, l), labels[1..]) {
      var w :| w in words && Continues(w, Under(path, l), labels[1..]);
      LabelBefore(w, path, l, labels);
    }
  }

  lemma NextLabel(w: seq<string>, path: seq<string>, labels: seq<string>)
    requires labels != [] && Continues(w, path, labels)
    ensures w[|path|] == "*" || w[|path|] == labels[0]
    ensures Continues(w, Under(path, w[|path|]), labels[1..])
  {
    var tail := w[|path|..];
    assert tail[0] == w[|path|] && w[|path| + 1..] == tail[1..];
    assert forall i :: 0 <= i < |tail[1..]| ==> tail[1..][i] == tail[i + 1] && labels[1..][i] == labels[i + 1];
  }

  lemma LabelBefore(w: seq<string>, path: seq<string>, l: string, labels: seq<string>)
    requires labels != [] && (l == labels[0] || l == "*")
    requires Continues(w, Under(path, l), labels[1..])
    ensures Continues(w, path, labels)
  {
    var tail := w[|path|..];
    assert w[..|path|] == Under(path, l)[..|path|] == path;
    assert w[|path|] == Under(path, l)[|path|] == l;
    assert w[|path| + 1..] == tail[1..] && tail[0] == l;
    forall i | 0 <= i < |tail| ensures tail[i] == "*" || tail[i] == labels[i] {
      if i > 0 { assert tail[i] == tail[1..][i - 1] && labels[i] == labels[1..][i - 1]; }
    }
  }

  /** Every node has its own path and a parent, but for the root; every word ends at a node. */
  ghost predicate IsTree(root: TrieNode, nodes: map<seq<string>, TrieNode>, words: set<seq<string>>,
                         repr: set<TrieNode>) {
    && [] in nodes && nodes[[]] == root
    && (forall p :: p in nodes ==> nodes[p].path == p && nodes[p] in repr)
    && (forall p :: p in nodes && p != [] ==> p[..|p| - 1] in nodes)
    && (forall w :: w in words ==> w in nodes)
  }

  lemma TreeGrows(root: TrieNode, nodes: map<seq<string>, TrieNode>, words: set<seq<string>>, repr: set<TrieNode>,
                  path: seq<string>, part: string, c: TrieNode)
    requires IsTree(root, nodes, words, repr) && path in nodes && Under(path, part) !in nodes
             && c.path == Under(path, part)
    ensures IsTree(root, nodes[Under(path, part) := c], words, repr + {c}) && Under(path, part) !in words
    ensures forall p :: p in nodes && nodes[p] == nodes[path] ==> p == path
  {
    var k := Under(path, part);
    assert k[..|k| - 1] == path;
  }

  class Matcher {
    const root: TrieNode
    var ipNets: seq<IPNet>
    /** The nodes by their paths. */
    ghost var nodes: map<seq<string>, TrieNode>
    /** The reversed labels of the name patterns inserted. */
    ghost var words: set<seq<string>>
    /** The nodes of the trie. */
    ghost var repr: set<TrieNode>

    ghost predicate Valid()
      reads this, repr
    {
      && IsTree(root, nodes, words, repr)
      && (forall p :: p in nodes ==> Links(nodes, words, p, nodes[p].exact, nodes[p].wild, nodes[p].terminal))
    }

    constructor ()
      ensures Valid() && words == {} && ipNets == []
      ensures fresh(repr)
    {
      root := new TrieNode([]);
      ipNets := [];
      words := {};
      new;
      nodes, repr := map[[] := root], {root};
      LeafLinks(map[], {}, [], root);
    }

    /** The step of the insertion where n has no child under a label. */
    method AddChild(n: TrieNode, ghost path: seq<string>, part: string) returns (c: TrieNode)
      requires Valid() && path in nodes && nodes[path] == n && Under(path, part) !in nodes
      modifies this`nodes, this`repr, n
      ensures Valid() && fresh(c) && nodes == old(nodes)[Under(path, part) := c] && repr == old(repr) + {c}
    {
      hide Links, Under;
      ghost var k := Under(path, part);
      c := new TrieNode(k);
      ghost var was := nodes;
      TreeGrows(root, nodes, words, repr, path, part, c);
      ParentLinks(nodes, words, path, n.exact, n.wild, n.terminal, part, c);
      LeafLinks(nodes, words, k, c);
      hide IsTree;
      if part == "*" {
        n.wild := c;
      } else {
        n.exact := n.exact[part := c];
      }
      forall p | p in was && p != path
        ensures Links(was[k := c], words, p, was[p].exact, was[p].wild, was[p].terminal)
      {
        LinksStay(was, words, p, was[p].exact, was[p].wild, was[p].terminal, path, part, c);
      }
      nodes, repr := was[k := c], repr + {c};
      forall p | p in nodes
        ensures Links(nodes, words, p, nodes[p].exact, nodes[p].wild, nodes[p].terminal)
      {
        if p != k { assert p in was && nodes[p] == was[p]; }
      }
    }

    /** One step of the insertion: the child of n under a label, made when there is none. */
    method Child(n: TrieNode, ghost path: seq<string>, part: string) returns (c: TrieNode)
      requires Valid() && path in nodes && nodes[path] == n
      modifies this`nodes, this`repr, n
      ensures Valid()
      ensures Under(path, part) in nodes && nodes[Under(path, part)] == c && c in repr
      ensures fresh(repr - old(repr))
    {
      hide Links, Under;
      LinksHere(path, part);
      if part == "*" {
        if n.wild != null {
          return n.wild;
        }
      } else if part in n.exact {
        return n.exact[part];
      }
      c := AddChild(n, path, part);
    }

    lemma LinksHere(path: seq<string>, part: string)
      requires Valid() && path in nodes
      ensures part == "*" ==> if nodes[path].wild != null
              then Under(path, part) in nodes && nodes[Under(path, part)] == nodes[path].wild
                              else Under(path, part) !in nodes
      ensures part != "*" ==> if part in nodes[path].exact
              then Under(path, part) in nodes && nodes[Under(path, part)] == nodes[path].exact[part]
                              else Under(path, part) !in nodes
    {
      hide Under;
    }

    /** The end mark set: the word of a node joins the words. */
    method Mark(n: TrieNode, ghost path: seq<string>)
      requires Valid() && path in nodes && nodes[path] == n
      modifies this`words, n`terminal
      ensures Valid() && words == old(words) + {path}
    {
      n.terminal := true;
      words := words + {path};
      forall p | p in nodes
        ensures Links(nodes, words, p, nodes[p].exact, nodes[p].wild, nodes[p].terminal)
      {
        assert Links(nodes, old(words), p, nodes[p].exact, nodes[p].wild, old(nodes[p].terminal));
        assert nodes[p].path == p;
      }
    }

    /** insertName: the labels are checked before the first node is touched. */
    method InsertName(p: string) returns (f: Option<Fault>)
      requires Valid()
      modifies this`nodes, this`words, this`repr, repr
      ensures Valid() && f == PatternFault(Labels(p), 0, 0)
      ensures words == if f.None? then old(words) + {Reverse(Labels(p))} else old(words)
      ensures fresh(repr - old(repr)) && ipNets == old(ipNets)
    {
      var labels := Labels(p);
      f := CheckPattern(labels);
      if f.None? {
        Insert(labels);
      }
    }

    lemma AtRoot()
      requires Valid()
      ensures [] in nodes && nodes[[]] == root && root in repr
    {
    }

    /** The reversed labels, apex first, walked down from the root to the node of the whole pattern. */
    method Walk(labels: seq<string>) returns (n: TrieNode)
      requires Valid()
      modifies this`nodes, this`repr, repr
      ensures Valid() && Reverse(labels) in nodes && nodes[Reverse(labels)] == n
      ensures fresh(repr - old(repr)) && n in repr
    {
      hide Valid, Links, IsTree, Under, Reverse, Walked;
      n := root;
      var i := |labels|;
      AtRoot();
      WalkedEnds(labels);
      while i > 0
        invariant 0 <= i <= |labels|
        invariant Valid() && Walked(labels, i) in nodes && nodes[Walked(labels, i)] == n && n in repr
        invariant fresh(repr - old(repr))
      {
        i := i - 1;
        WalkedStep(labels, i);
        n := Child(n, Walked(labels, i + 1), labels[i]);
      }
    }

    method Insert(labels: seq<string>)
      requires Valid()
      modifies this`nodes, this`words, this`repr, repr
      ensures Valid() && words == old(words) + {Reverse(labels)}
      ensures fresh(repr - old(repr))
    {
      hide Valid, Links, IsTree, Reverse;
      var n := Walk(labels);
      Mark(n, Reverse(labels));
    }

    lemma {:induction false} Prefixes(w: seq<string>, n: nat)
      requires Valid() && w in nodes && n <= |w|
      ensures w[..n] in nodes
      decreases |w|
    {
      hide Links;
      if n < |w| {
        var shorter := w[..|w| - 1];
        Prefixes(shorter, n);
        assert shorter[..n] == w[..n];
      } else {
        assert w[..n] == w;
      }
    }

    /** The words ahead of a node are those ahead of its children under the next label and the wildcard. */
    lemma Branches(path: seq<string>, labels: seq<string>)
      requires Valid() && path in nodes && labels != []
      ensures Leads(words, path, labels) <==>
              || (labels[0] in nodes[path].exact && Leads(words, Under(path, labels[0]), labels[1..]))
              || (nodes[path].wild != null && Leads(words, Under(path, "*"), labels[1..]))
    {
      hide Valid, Links, IsTree, Under, Leads;
      LinksHere(path, labels[0]);
      LinksHere(path, "*");
      if Leads(words, path, labels) {
        var l := BranchOf(path, labels);
      }
      LeadsBack(words, path, labels[0], labels);
      LeadsBack(words, path, "*", labels);
    }

    lemma BranchOf(path: seq<string>, labels: seq<string>) returns (l: string)
      requires Valid() && path in nodes && labels != [] && Leads(words, path, labels)
      ensures l == "*" || l == labels[0]
      ensures Under(path, l) in nodes && Leads(words, Under(path, l), labels[1..])
    {
      hide Links;
      var w :| w in words && Continues(w, path, labels);
      l := w[|path|];
      Prefixes(w, |path| + 1);
      assert w[..|path| + 1] == Under(path, l);
      NextLabel(w, path, labels);
    }

    /** node.match: an inserted word that goes on from this node as the labels do. */
    method Match(n: TrieNode, ghost path: seq<string>, labels: seq<string>) returns (ok: bool)
      requires Valid() && path in nodes && nodes[path] == n
      ensures ok <==> Leads(words, path, labels)
      decreases |labels|
    {
      hide Under;
      if |labels| == 0 {
        EndOfWord(words, path);
        return n.terminal;
      }
      var head, rest := labels[0], labels[1..];
      Branches(path, labels);
      hide Links, Leads;
      if head in n.exact {
        var found := Match(n.exact[head], Under(path, head), rest);
        if found {
          return true;
        }
      }
      if n.wild != null {
        ok := Match(n.wild, Under(path, "*"), rest);
        return ok;
      }
      return false;
    }

    /** What New promises of the matcher for a list of patterns. */
    ghost predicate Compiled(net: Net, patterns: seq<string>)
      reads this, repr
    {
      Valid() && words == Words(net, patterns) && ipNets == Ranges(net, patterns)
    }

    method AddRange(x: IPNet)
      requires Valid()
      modifies this`ipNets
      ensures Valid() && ipNets == old(ipNets) + [x]
    {
      ipNets := ipNets + [x];
    }

    /** One turn of New's loop. */
    method Add(net: Net, raw: string) returns (f: Option<Fault>)
      requires Valid()
      modifies this`nodes, this`words, this`repr, this`ipNets, repr
      ensures Valid() && fresh(repr - old(repr))
      ensures match Compile(net, raw)
        case Bad(fault) => f == Some(fault)
        case Range(x) => f.None? && words == old(words) && ipNets == old(ipNets) + [x]
        case Name(labels) => f.None? && words == old(words) + {Reverse(labels)} && ipNets == old(ipNets)
    {
      hide Valid, Labels, PatternFault, Reverse, TrimSpace;
      f := None;
      var p := TrimSpace(raw);
      if p == "" {
        return Some(EmptyPattern);
      }
      if '/' in p {
        var cidr := net.parseCIDR(p);
        if cidr.None? {
          return Some(BadCIDR);
        }
        AddRange(cidr.value);
        return;
      }
      var ip := net.parseIP(p);
      if ip.Some? {
        AddRange(net.single(ip.value));
        return;
      }
      f := InsertName(p);
    }

    method AnyContains(net: Net, ip: seq<bv8>) returns (found: bool)
      ensures found <==> exists r :: r in ipNets && net.contains(r, ip)
    {
      for i := 0 to |ipNets|
        invariant forall k :: 0 <= k < i ==> !net.contains(ipNets[k], ip)
      {
        if net.contains(ipNets[i], ip) {
          return true;
        }
      }
      return false;
    }

    /** Allows: the trie and the address ranges answer as the list of patterns does. */
    method Allows(net: Net, host: string, ghost patterns: seq<string>) returns (o: Outcome)
      requires Compiled(net, patterns)
      ensures o == Decide(net, patterns, host)
    {
      hide Valid, Links, IsTree, Words, Ranges, Labels, Leads, NameListed, AddressListed, LabelFault;
      var fault := HostFault(host);
      if fault.Some? {
        return Malformed(fault.value);
      }
      var ip := net.parseIP(host);
      if ip.Some? {
        var within := AnyContains(net, ip.value);
        RangesAreTheList(net, patterns, ip.value);
        return Verdict(within);
      }
      var labels := Labels(host);
      for i := 0 to |labels|
        invariant LabelsFault(labels, 0) == LabelsFault(labels, i)
      {
        if labels[i] == "*" {
          return Malformed(StarLabel);
        }
        var bad := ValidLabel(labels[i]);
        if bad.Some? {
          return Malformed(bad.value);
        }
      }
      AtRoot();
      var admitted := Match(root, [], Reverse(labels));
      TrieIsTheList(net, patterns, labels);
      return Verdict(admitted);
    }
  }

  /** The reversed labels of the name patterns among the patterns. */
  ghost function Words(net: Net, patterns: seq<string>): set<seq<string>> {
    set p | p in patterns && Compile(net, p).Name? :: Reverse(Compile(net, p).labels)
  }

  /** The ranges of the other patterns, in order. */
  function Ranges(net: Net, patterns: seq<string>): (r: seq<IPNet>)
    ensures forall x :: x in r <==> exists p :: p in patterns && Compile(net, p) == Range(x)
  {
    if patterns == [] then []
    else
      var last := patterns[|patterns| - 1];
      assert patterns == patterns[..|patterns| - 1] + [last];
      Ranges(net, patterns[..|patterns| - 1]) + match Compile(net, last) case Range(x) => [x] case _ => []
  }

  function FirstFault(net: Net, patterns: seq<string>): (f: Option<Fault>)
    ensures f.Some? <==> exists p :: p in patterns && Compile(net, p).Bad?
  {
    if patterns == [] then None
    else match Compile(net, patterns[0])
      case Bad(fault) => Some(fault)
      case _ =>
        assert patterns == [patterns[0]] + patterns[1..];
        FirstFault(net, patterns[1..])
  }

  lemma RangesAreTheList(net: Net, patterns: seq<string>, ip: seq<bv8>)
    ensures (exists r :: r in Ranges(net, patterns) && net.contains(r, ip)) <==> AddressListed(net, patterns, ip)
  {
    hide Compile;
    if AddressListed(net, patterns, ip) {
      var p :| p in patterns && Compile(net, p).Range? && net.contains(Compile(net, p).net, ip);
      assert Compile(net, p) == Range(Compile(net, p).net);
    }
  }

  /** The words of the trie ahead of its root, against the reversed host, are the patterns against the host. */
  lemma TrieIsTheList(net: Net, patterns: seq<string>, labels: seq<string>)
    ensures Leads(Words(net, patterns), [], Reverse(labels)) <==> NameListed(net, patterns, labels)
  {
    hide Compile, Agrees, Reverse;
    if Leads(Words(net, patterns), [], Reverse(labels)) {
      var w :| w in Words(net, patterns) && Continues(w, [], Reverse(labels));
      var p :| p in patterns && Compile(net, p).Name? && w == Reverse(Compile(net, p).labels);
      assert w[0..] == w;
      ReversedAgrees(Compile(net, p).labels, labels);
    }
    if NameListed(net, patterns, labels) {
      var p :| p in patterns && Compile(net, p).Name? && Agrees(Compile(net, p).labels, labels);
      var w := Reverse(Compile(net, p).labels);
      ReversedAgrees(Compile(net, p).labels, labels);
      assert w[0..] == w;
      assert w in Words(net, patterns) && Continues(w, [], Reverse(labels));
    }
  }

  /** New: fails as a whole on the first bad pattern. */
  method New(net: Net, patterns: seq<string>) returns (m: Matcher?, f: Option<Fault>)
    ensures f == FirstFault(net, patterns)
    ensures f.None? <==> m != null
    ensures m != null ==> fresh(m) && fresh(m.repr) && m.Compiled(net, patterns)
  {
    hide Compile, Reverse, Words, Ranges, FirstFault, Matcher.Valid;
    var built := new Matcher();
    NoPatterns(net);
    assert patterns[..0] == [] && patterns[0..] == patterns;
    for i := 0 to |patterns|
      invariant FirstFault(net, patterns) == FirstFault(net, patterns[i..])
      invariant built.Compiled(net, patterns[..i]) && fresh(built) && fresh(built.repr)
    {
      NextPattern(net, patterns, i);
      var bad := built.Add(net, patterns[i]);
      if bad.Some? {
        return null, bad;
      }
    }
    assert patterns[..|patterns|] == patterns;
    NoFault(net, patterns);
    return built, None;
  }

  lemma NoPatterns(net: Net)
    ensures Words(net, []) == {} && Ranges(net, []) == []
  {
  }

  lemma NoFault(net: Net, patterns: seq<string>)
    ensures FirstFault(net, patterns[|patterns|..]) == None
  {
  }

  lemma NextPattern(net: Net, patterns: seq<string>, i: nat)
    requires i < |patterns|
    ensures Words(net, patterns[..i + 1]) ==
            Words(net, patterns[..i]) + if Compile(net, patterns[i]).Name?
              then {Reverse(Compile(net, patterns[i]).labels)} else {}
    ensures Ranges(net, patterns[..i + 1]) ==
            Ranges(net, patterns[..i]) + match Compile(net, patterns[i]) case Range(x) => [x] case _ => []
    ensures FirstFault(net, patterns[i..]) ==
            match Compile(net, patterns[i]) case Bad(fault) => Some(fault) case _ => FirstFault(net, patterns[i + 1..])
  {
    hide Compile, Reverse;
    assert patterns[..i + 1][..i] == patterns[..i] && patterns[..i + 1] == patterns[..i] + [patterns[i]];
    assert patterns[i..][1..] == patterns[i + 1..];
  }

  // ----- what the list promises -----

  /** The answer depends on which patterns there are, not on their order or number. */
  lemma OrderDoesNotMatter(net: Net, patterns: seq<string>, others: seq<string>, host: string)
    requires forall p :: p in patterns <==> p in others
    ensures Decide(net, patterns, host) == Decide(net, others, host)
  {
    hide Compile, Labels, LabelsFault, HostFault;
  }

  /** More patterns admit more hosts, and never turn a malformed host into a verdict or back. */
  lemma MorePatternsAdmitMore(net: Net, patterns: seq<string>, more: seq<string>, host: string)
    requires forall p :: p in patterns ==> p in more
    ensures Decide(net, patterns, host) == Verdict(true) ==> Decide(net, more, host) == Verdict(true)
    ensures Decide(net, patterns, host).Malformed? || Decide(net, more, host).Malformed? ==>
            Decide(net, patterns, host) == Decide(net, more, host)
  {
    hide Compile, Labels, LabelsFault, HostFault;
  }

  /** An admitted name has a pattern of its length with its last two labels, and at most one of its labels
      is not the pattern's own. */
  lemma WildcardIsOneLabel(net: Net, patterns: seq<string>, host: string) returns (p: string)
    requires Decide(net, patterns, host) == Verdict(true) && net.parseIP(host).None?
    ensures p in patterns && Compile(net, p).Name? && |Compile(net, p).labels| == |Labels(host)|
    ensures forall i, j :: 0 <= i < j < |Labels(host)| ==>
              Compile(net, p).labels[i] == Labels(host)[i] || Compile(net, p).labels[j] == Labels(host)[j]
    ensures forall i :: 0 <= i < |Labels(host)| && i + 3 > |Labels(host)| ==>
            Compile(net, p).labels[i] == Labels(host)[i]
  {
    hide Labels, LabelFault, TrimSpace;
    p :| p in patterns && Compile(net, p).Name? && Agrees(Compile(net, p).labels, Labels(host));
    AcceptedIsGood(Compile(net, p).labels, 0, 0);
  }

  // ----- names as text -----

  lemma {:induction false} LowerOfJoin(labels: seq<string>)
    requires labels != [] && forall i :: 0 <= i < |labels| ==> ToLower(labels[i]) == labels[i]
    ensures ToLower(Join(labels, '.')) == Join(labels, '.')
  {
    hide LowerChar;
    if |labels| > 1 {
      LowerOfJoin(labels[1..]);
      var rest, all := Join(labels[1..], '.'), Join(labels, '.');
      assert forall k :: 0 <= k < |labels[0]| ==> LowerChar(labels[0][k]) == labels[0][k] by {
        assert ToLower(labels[0]) == labels[0];
      }
      assert LowerChar('.') == '.' by { DotStays(); }
      assert forall k :: 0 <= k < |rest| ==> LowerChar(rest[k]) == rest[k] by { assert ToLower(rest) == rest; }
      assert forall k :: 0 <= k < |all| ==> LowerChar(all[k]) == all[k];
      assert ToLower(all) == all;
    }
  }

  lemma DotStays()
    ensures LowerChar('.') == '.'
  {
  }

  /** A name's labels are what its dots part, in lower case. */
  lemma LabelsOfText(labels: seq<string>, name: string)
    requires labels != [] && ToLower(name) == Join(labels, '.')
    requires forall i :: 0 <= i < |labels| ==> '.' !in labels[i]
    ensures Labels(name) == labels
  {
    SplitJoin(labels, '.');
  }

  /** Upper case plays no part: neither in a host nor in a pattern, addresses apart. */
  lemma CaseDoesNotMatter(net: Net, patterns: seq<string>, host: string, other: string)
    requires ToLower(host) == ToLower(other) && net.parseIP(host).None? && net.parseIP(other).None?
    ensures Decide(net, patterns, host) == Decide(net, patterns, other)
  {
    hide Compile, LabelsFault, ToLower;
    SameFault(host, other);
  }

  lemma SameFault(host: string, other: string)
    requires ToLower(host) == ToLower(other)
    ensures HostFault(host) == HostFault(other)
  {
    CharStays(host, '/');
    CharStays(other, '/');
    CharStays(host, '%');
    CharStays(other, '%');
    CharStays(host, '[');
    CharStays(other, '[');
    CharStays(host, ']');
    CharStays(other, ']');
    assert |host| == |ToLower(host)| == |ToLower(other)| == |other|;
  }

  lemma CharStays(s: string, c: char)
    requires c < 'A' || 'Z' < c < 'a'
    ensures c in s <==> c in ToLower(s)
  {
    if c in s {
      var i :| 0 <= i < |s| && s[i] == c;
      assert ToLower(s)[i] == c;
    }
    if c in ToLower(s) {
      var i :| 0 <= i < |s| && ToLower(s)[i] == c;
      assert s[i] == c;
    }
  }

  /** A good pattern of labels, written out, admits exactly the hosts whose labels agree with it. */
  lemma PatternAdmits(net: Net, labels: seq<string>, pattern: string, host: string)
    requires labels != [] && GoodFrom(labels, 0) && ToLower(pattern) == Join(labels, '.')
    requires TrimSpace(pattern) == pattern && pattern != "" && '/' !in pattern && net.parseIP(pattern).None?
    requires HostFault(host).None? && net.parseIP(host).None? && LabelsFault(Labels(host), 0).None?
    ensures Decide(net, [pattern], host) == Verdict(Agrees(labels, Labels(host)))
  {
    hide TrimSpace, ToLower, HostFault, LabelsFault, GoodFrom, Labels, PatternFault;
    DotFree(labels);
    LabelsOfText(labels, pattern);
    AcceptedIsGood(labels, 0, 0);
    assert Compile(net, pattern) == Name(labels);
    assert [pattern][0] == pattern;
  }

  lemma DotFree(labels: seq<string>)
    requires GoodFrom(labels, 0)
    ensures forall i :: 0 <= i < |labels| ==> '.' !in labels[i]
  {
    forall i | 0 <= i < |labels| ensures '.' !in labels[i] {
      if labels[i] != "*" {
        LabelPasses(labels[i]);
      }
    }
  }

  // ----- what is refused -----

  /** 1 to 63 letters, digits and inner hyphens. */
  predicate IsLabel(part: string) {
    && 1 <= |part| <= 63 && part[0] != '-' && part[|part| - 1] != '-'
    && forall i :: 0 <= i < |part| ==> 'a' <= part[i] <= 'z' || '0' <= part[i] <= '9' || part[i] == '-'
  }

  lemma {:induction false} LabelsAreGood(labels: seq<string>, i: nat)
    requires i <= |labels|
    ensures LabelsFault(labels, i).None? <==> forall k :: i <= k < |labels| ==> IsLabel(labels[k])
    decreases |labels| - i
  {
    hide LabelFault, IsLabel;
    if i < |labels| {
      LabelsAreGood(labels, i + 1);
      LabelIs(labels[i]);
    }
  }

  lemma LabelIs(part: string)
    ensures LabelFault(part).None? <==> IsLabel(part)
    ensures part == "*" ==> !IsLabel(part)
  {
    LabelPasses(part);
  }

  /** A host is malformed exactly when it is empty, holds a slash, a percent sign or a bracket, or is neither an
      address nor labels parted by dots, in lower case. */
  lemma MalformedExactly(net: Net, patterns: seq<string>, host: string)
    ensures Decide(net, patterns, host).Malformed? <==>
            || host == "" || '/' in host || '%' in host || '[' in host || ']' in host
            || (net.parseIP(host).None? && exists k :: 0 <= k < |Labels(host)| && !IsLabel(Labels(host)[k]))
  {
    hide Labels, IsLabel, LabelsFault, AddressListed, NameListed;
    LabelsAreGood(Labels(host), 0);
  }

  /** A pattern is refused exactly when it is blank, a range that does not parse, or, being neither a range nor an
      address, has a label that is neither one nor a star, two stars, or a star too far to the right. */
  lemma RefusedExactly(net: Net, raw: string)
    ensures var p := TrimSpace(raw);
            Compile(net, raw).Bad? <==>
            || p == ""
            || ('/' in p && net.parseCIDR(p).None?)
            || ('/' !in p && net.parseIP(p).None?
                && !(&& (forall k :: 0 <= k < |Labels(p)| ==> Labels(p)[k] == "*" || IsLabel(Labels(p)[k]))
                     && (forall k :: 0 <= k < |Labels(p)| && Labels(p)[k] == "*" ==> k + 3 <= |Labels(p)|)
                     && (forall j, k :: 0 <= j < k < |Labels(p)| ==> Labels(p)[j] != "*" || Labels(p)[k] != "*")))
  {
    hide Labels, IsLabel, LabelFault, TrimSpace, PatternFault;
    var labels := Labels(TrimSpace(raw));
    AcceptedIsGood(labels, 0, 0);
    forall k | 0 <= k < |labels| ensures LabelFault(labels[k]).None? <==> IsLabel(labels[k]) {
      LabelIs(labels[k]);
    }
  }
}
