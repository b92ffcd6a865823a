/** The served advisory manifest: first load, refresh and lookup (pipeline/advisory_source.go). */
module CorpusSource {
  import opened GoStrings

  // ----- the manifest -----

  datatype Entry = Entry(identifier: string, path: string, outputDigest: string)

  datatype Manifest = Manifest(recordCount: int, records: seq<Entry>)

  datatype Error =
    | Unreadable | Unparsable | WrongCount | Duplicate(id: string)
    | NoLongerReadable | FailedReload(cause: Error)

  datatype Content = Missing | Garbled | Parsed(man: Manifest)

  /** What os.SameFile, Size and ModTime tell apart. */
  datatype Info = Info(file: nat, size: nat, modTime: int)

  /** The manifest file at one moment: what a stat and what a read of it give. */
  datatype File = File(info: Option<Info>, content: Content)

  datatype Outcome = Good(man: Manifest, index: map<string, Entry>) | Bad(err: Error)

  /** The index of the first n records, or the first identifier that repeats among them. */
  function IndexOfFirst(records: seq<Entry>, n: nat): Outcome
    requires n <= |records|
  {
    if n == 0 then Good(Manifest(0, []), map[])
    else match IndexOfFirst(records, n - 1)
      case Bad(e) => Bad(e)
      case Good(_, index) =>
        var r := records[n - 1];
        if r.identifier in index then Bad(Duplicate(r.identifier))
        else Good(Manifest(0, []), index[r.identifier := r])
  }

  /** readManifest. */
  function Read(c: Content): Outcome {
    match c
    case Missing => Bad(Unreadable)
    case Garbled => Bad(Unparsable)
    case Parsed(man) =>
      if man.recordCount != |man.records| then Bad(WrongCount)
      else match IndexOfFirst(man.records, |man.records|)
        case Bad(e) => Bad(e)
        case Good(_, index) => Good(man, index)
  }

  method ReadManifest(c: Content) returns (r: Outcome)
    ensures r == Read(c)
  {
    if c.Missing? {
      return Bad(Unreadable);
    }
    if c.Garbled? {
      return Bad(Unparsable);
    }
    var man := c.man;
    if man.recordCount != |man.records| {
      return Bad(WrongCount);
    }
    var index: map<string, Entry> := map[];
    for i := 0 to |man.records|
      invariant IndexOfFirst(man.records, i) == Good(Manifest(0, []), index)
    {
      var e := man.records[i];
      if e.identifier in index {
        RepeatFails(man.records, i + 1);
        return Bad(Duplicate(e.identifier));
      }
      index := index[e.identifier := e];
    }
    return Good(man, index);
  }

  lemma {:induction false} RepeatFails(records: seq<Entry>, n: nat)
    requires n <= |records| && IndexOfFirst(records, n).Bad?
    ensures IndexOfFirst(records, |records|) == IndexOfFirst(records, n)
    decreases |records| - n
  {
    if n < |records| {
      RepeatFails(records, n + 1);
    }
  }

  ghost predicate Distinct(records: seq<Entry>, n: nat)
    requires n <= |records|
  {
    forall i, j :: 0 <= i < j < n ==> records[i].identifier != records[j].identifier
  }

  ghost predicate Indexes(index: map<string, Entry>, records: seq<Entry>, n: nat)
    requires n <= |records|
  {
    && (forall i :: 0 <= i < n ==> records[i].identifier in index && index[records[i].identifier] == records[i])
    && (forall id :: id in index ==> exists i :: 0 <= i < n && records[i].identifier == id)
  }

  lemma {:induction false} IndexIsExact(records: seq<Entry>, n: nat)
    requires n <= |records|
    ensures IndexOfFirst(records, n).Good? <==> Distinct(records, n)
    ensures IndexOfFirst(records, n).Good? ==> Indexes(IndexOfFirst(records, n).index, records, n)
  {
    if n > 0 {
      IndexIsExact(records, n - 1);
      if IndexOfFirst(records, n - 1).Good? {
        IndexGrows(records, n, IndexOfFirst(records, n - 1).index);
      }
    }
  }

  lemma IndexGrows(records: seq<Entry>, n: nat, index: map<string, Entry>)
    requires 0 < n <= |records| && Distinct(records, n - 1) && Indexes(index, records, n - 1)
    ensures records[n - 1].identifier !in index <==> Distinct(records, n)
    ensures records[n - 1].identifier !in index ==>
            Indexes(index[records[n - 1].identifier := records[n - 1]], records, n)
  {
    var id := records[n - 1].identifier;
    if id in index {
      var i :| 0 <= i < n - 1 && records[i].identifier == id;
    }
  }

  /** A manifest is usable exactly when its count is that of its records and no identifier repeats, and its
      index then holds its records by identifier and nothing else. */
  lemma UsableManifests(man: Manifest)
    ensures Read(Parsed(man)).Good? <==> man.recordCount == |man.records| && Distinct(man.records, |man.records|)
    ensures Read(Parsed(man)).Good? ==>
              Read(Parsed(man)).man == man && Indexes(Read(Parsed(man)).index, man.records, |man.records|)
  {
    IndexIsExact(man.records, |man.records|);
  }

  // ----- the source -----

  datatype Loaded = Loaded(outcome: Outcome, info: Option<Info>)

  /** The fields of artifactSource: the served load, and what is kept of the last failed reload. */
  datatype Fields = Fields(state: Option<Loaded>, refreshErr: Option<Error>, failedInfo: Option<Info>)

  /** The file as a load's stat and then its read find it. */
  datatype Window = Window(stat: File, read: File)

  predicate SameIdentity(a: Option<Info>, b: Option<Info>) {
    a.Some? && b.Some? && a == b
  }

  function Load(w: Window): Loaded {
    Loaded(Read(w.read.content), w.stat.info)
  }

  function Err(o: Outcome): Option<Error> {
    match o case Good(_, _) => None case Bad(e) => Some(e)
  }

  datatype Check = Done(fields: Fields, err: Option<Error>) | Reload

  /** What Refresh does once it has looked at the file's identity. */
  function AfterStat(d: Fields, f: File): Check
    requires d.state.Some?
  {
    var cur := d.state.value;
    if f.info.None? then
      if cur.outcome.Bad? then Done(d, Err(cur.outcome))
      else Done(d.(refreshErr := Some(NoLongerReadable)), Some(NoLongerReadable))
    else if SameIdentity(f.info, cur.info) then Done(d.(refreshErr := None, failedInfo := None), Err(cur.outcome))
    else if SameIdentity(f.info, d.failedInfo) then Done(d, d.refreshErr)
    else Reload
  }

  /** What Refresh does with a reload. */
  function AfterLoad(d: Fields, next: Loaded): (Fields, Option<Error>)
    requires d.state.Some?
  {
    if next.outcome.Good? || d.state.value.outcome.Bad? then
      (Fields(Some(next), None, None), Err(next.outcome))
    else
      (d.(failedInfo := next.info, refreshErr := Some(FailedReload(next.outcome.err))),
       Some(FailedReload(next.outcome.err)))
  }

  function AfterCurrent(d: Fields, w: Window): Fields {
    if d.state.Some? then d else d.(state := Some(Load(w)))
  }

  function AfterRefresh(d: Fields, first: Window, check: File, reload: Window): (Fields, Option<Error>) {
    var d0 := AfterCurrent(d, first);
    match AfterStat(d0, check)
    case Done(fields, err) => (fields, err)
    case Reload => AfterLoad(d0, Load(reload))
  }

  // ----- looking an advisory up -----

  /** The advisory documents at one moment, with the digest and the decoding the source calls. */
  datatype Docs<F> = Docs(read: string -> Option<string>, sha256: string -> string,
                          facts: (string, string) -> Option<F>)

  predicate SafeRelPath(p: string) {
    && p != "" && '\\' !in p && p[0] != '/'
    && forall seg :: seg in Split(p, '/') ==> seg != "" && seg != "." && seg != ".."
  }

  predicate DigestMatches<F>(docs: Docs<F>, data: string, expected: string) {
    "sha256:" <= expected && docs.sha256(data) == TrimPrefix(expected, "sha256:")
  }

  function Resolve<F>(docs: Docs<F>, e: Entry, id: string): Option<F> {
    if e.path == "" || e.outputDigest == "" || !SafeRelPath(e.path) then None
    else match docs.read(e.path)
      case None => None
      case Some(data) => if DigestMatches(docs, data, e.outputDigest) then docs.facts(data, id) else None
  }

  function Find<F>(docs: Docs<F>, st: Loaded, id: string): Option<F> {
    if st.outcome.Bad? || id !in st.outcome.index then None else Resolve(docs, st.outcome.index[id], id)
  }

  /** A document answers only under the digest its manifest pins: one rewritten since then, with another
      digest, misses. */
  lemma DigestPinsDocuments<F>(docs: Docs<F>, st: Loaded, id: string)
    requires Find(docs, st, id).Some?
    ensures st.outcome.Good? && id in st.outcome.index && docs.read(st.outcome.index[id].path).Some?
    ensures st.outcome.index[id].outputDigest == "sha256:" + docs.sha256(docs.read(st.outcome.index[id].path).value)
  {
    var d := st.outcome.index[id].outputDigest;
    assert d == d[..7] + d[7..];
  }

  class ArtifactSource {
    var state: Option<Loaded>
    var refreshErr: Option<Error>
    var failedInfo: Option<Info>

    ghost function Now(): Fields
      reads this
    {
      Fields(state, refreshErr, failedInfo)
    }

    /** A reload that failed is kept with its error. */
    ghost predicate Valid()
      reads this
    {
      failedInfo.Some? ==> refreshErr.Some?
    }

    constructor ()
      ensures Valid() && Now() == Fields(None, None, None)
    {
      state, refreshErr, failedInfo := None, None, None;
    }

    method LoadState(w: Window) returns (l: Loaded)
      ensures l == Load(w)
    {
      var info := w.stat.info;
      var outcome := ReadManifest(w.read.content);
      return Loaded(outcome, info);
    }

    /** current: the first load happens once. */
    method Current(w: Window) returns (st: Loaded)
      modifies this`state
      ensures Now() == AfterCurrent(old(Now()), w) && state == Some(st)
    {
      if state.Some? {
        return state.value;
      }
      st := LoadState(w);
      state := Some(st);
    }

    method Refresh(first: Window, check: File, reload: Window) returns (err: Option<Error>)
      requires Valid()
      modifies this
      ensures Valid() && (Now(), err) == AfterRefresh(old(Now()), first, check, reload)
      ensures state.Some? && (err.None? ==> state.value.outcome.Good?)
      ensures old(state.Some? && state.value.outcome.Good?) ==> state.value.outcome.Good?
    {
      var cur := Current(first);
      if check.info.None? {
        if cur.outcome.Bad? {
          return Some(cur.outcome.err);
        }
        refreshErr := Some(NoLongerReadable);
        return refreshErr;
      }
      if SameIdentity(check.info, cur.info) {
        refreshErr, failedInfo := None, None;
        return Err(cur.outcome);
      }
      if SameIdentity(check.info, failedInfo) {
        return refreshErr;
      }
      var next := LoadState(reload);
      if next.outcome.Good? || cur.outcome.Bad? {
        state := Some(next);
        refreshErr, failedInfo := None, None;
        return Err(next.outcome);
      }
      failedInfo := next.info;
      refreshErr := Some(FailedReload(next.outcome.err));
      return refreshErr;
    }

    method Lookup<F>(docs: Docs<F>, w: Window, id: string) returns (r: Option<F>)
      modifies this`state
      ensures Now() == AfterCurrent(old(Now()), w) && r == Find(docs, state.value, id)
    {
      var st := Current(w);
      if st.outcome.Bad? || id !in st.outcome.index {
        return None;
      }
      return Resolve(docs, st.outcome.index[id], id);
    }

    /** lookupEach: every id against one load, the documents as each id's turn finds them. */
    method LookupEach<F>(docs: seq<Docs<F>>, w: Window, ids: seq<string>) returns (out: seq<Option<F>>)
      requires |docs| == |ids|
      modifies this`state
      ensures Now() == AfterCurrent(old(Now()), w)
      ensures |out| == |ids| && forall i :: 0 <= i < |ids| ==> out[i] == Find(docs[i], state.value, ids[i])
    {
      var st := Current(w);
      out := [];
      for i := 0 to |ids|
        invariant |out| == i && forall k :: 0 <= k < i ==> out[k] == Find(docs[k], st, ids[k])
      {
        if st.outcome.Bad? || ids[i] !in st.outcome.index {
          out := out + [None];
          continue;
        }
        out := out + [Resolve(docs[i], st.outcome.index[ids[i]], ids[i])];
      }
    }
  }

  // ----- what a Refresh answers -----

  /** The reload is taken: the file is there, is neither the served nor the failed one, and is good or replaces
      what is bad. */
  ghost predicate Replaced(d: Fields, check: File, reload: Window)
    requires d.state.Some?
  {
    && check.info.Some? && check.info != d.state.value.info && check.info != d.failedInfo
    && (Read(reload.read.content).Good? || d.state.value.outcome.Bad?)
  }

  /** There is no error exactly when a good manifest is served for the file as it is now. */
  lemma RefreshAnswers(d: Fields, first: Window, check: File, reload: Window)
    requires d.failedInfo.Some? ==> d.refreshErr.Some?
    ensures var d0 := AfterCurrent(d, first);
            var (after, err) := AfterRefresh(d, first, check, reload);
            && after.state == (if Replaced(d0, check, reload) then Some(Load(reload)) else d0.state)
            && (err.None? <==>
                  && check.info.Some? && after.state.value.outcome.Good?
                  && (check.info == d0.state.value.info || Replaced(d0, check, reload)))
  {
    hide Read;
  }

  /** A file that has gone is reported every time: with the load's own error when nothing good is served, and as no
      longer readable when something is, which stays served. Once it is back the report is gone. */
  lemma MissingFileIsReported(d: Fields, first: Window, check: File, reload: Window, back: File)
    requires check.info.None?
    ensures var d0 := AfterCurrent(d, first);
            var (after, err) := AfterRefresh(d, first, check, reload);
            && after.state == d0.state
            && err == (match d0.state.value.outcome case Bad(e) => Some(e) case Good(_, _) => Some(NoLongerReadable))
            && (d0.state.value.outcome.Good? ==> after.refreshErr == err)
            && (back.info.Some? && back.info == d0.state.value.info && d0.state.value.outcome.Good? ==>
                  AfterRefresh(after, first, back, reload) == (Fields(d0.state, None, None), None))
  {
    hide Read;
  }

  /** A changed file that is no good leaves a good manifest served, is reported as a failed reload, and is reported
      so again, unread, for as long as it stays. */
  lemma BadReloadIsReported(d: Fields, first: Window, check: File, reload: Window, again: Window)
    requires var d0 := AfterCurrent(d, first);
             && d0.state.value.outcome.Good? && Read(reload.read.content).Bad?
             && check.info.Some? && check.info != d0.state.value.info && check.info != d0.failedInfo
    ensures var d0 := AfterCurrent(d, first);
            var e := Some(FailedReload(Read(reload.read.content).err));
            var (after, err) := AfterRefresh(d, first, check, reload);
            && after == Fields(d0.state, e, reload.stat.info) && err == e
            && (check.info == reload.stat.info ==> AfterRefresh(after, first, check, again) == (after, e))
  {
    hide Read;
  }

  // ----- what a lookup answers -----

  /** A path of segments is followed exactly when each is a name: not empty, no dot alone, no two dots, no slash of
      either kind. */
  lemma SafePaths(segs: seq<string>)
    requires segs != [] && forall i :: 0 <= i < |segs| ==> '/' !in segs[i]
    ensures SafeRelPath(Join(segs, '/')) <==>
            forall i :: 0 <= i < |segs| ==> segs[i] != "" && segs[i] != "." && segs[i] != ".." && '\\' !in segs[i]
  {
    hide Split, Join;
    SplitJoin(segs, '/');
    var p := Join(segs, '/');
    Backslashes(segs);
    JoinStarts(segs);
    assert forall i :: 0 <= i < |segs| ==> segs[i] in segs;
  }

  lemma {:induction false} Backslashes(segs: seq<string>)
    requires segs != []
    ensures '\\' in Join(segs, '/') <==> exists i :: 0 <= i < |segs| && '\\' in segs[i]
  {
    if |segs| > 1 {
      Backslashes(segs[1..]);
      assert forall i :: 0 < i < |segs| ==> segs[i] == segs[1..][i - 1];
      if i :| 0 <= i < |segs[1..]| && '\\' in segs[1..][i] { assert '\\' in segs[i + 1]; }
    }
  }

  lemma JoinStarts(segs: seq<string>)
    requires segs != [] && '/' !in segs[0]
    ensures segs[0] != "" ==> Join(segs, '/') != "" && Join(segs, '/')[0] != '/'
  {
  }

  /** An identifier answers with its document's facts exactly when a good manifest lists it with a safe path and a
      digest, the document can be read, and it has that digest. */
  lemma FindExactly<F>(docs: Docs<F>, st: Loaded, id: string)
    ensures Find(docs, st, id) ==
            if st.outcome.Good? && id in st.outcome.index && SafeRelPath(st.outcome.index[id].path)
               && docs.read(st.outcome.index[id].path).Some?
               && st.outcome.index[id].outputDigest == "sha256:"
                    + docs.sha256(docs.read(st.outcome.index[id].path).value)
            then docs.facts(docs.read(st.outcome.index[id].path).value, id)
            else None
  {
    hide SafeRelPath;
    if st.outcome.Good? && id in st.outcome.index {
      var e := st.outcome.index[id];
      PathIsStated(e.path);
      var d := e.outputDigest;
      if "sha256:" <= d { assert d == d[..7] + d[7..]; }
      if docs.read(e.path).Some? {
        var h := docs.sha256(docs.read(e.path).value);
        if d == "sha256:" + h { assert d[..7] == "sha256:" && d[7..] == h; }
      }
    }
  }

  lemma PathIsStated(p: string)
    ensures SafeRelPath(p) ==> p != ""
  {
  }
}
