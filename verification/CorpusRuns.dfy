/** Runs of the manifest protocol: rewrites, stats, reads, lookups and refreshes in any order. */
module CorpusRuns {
  import opened GoStrings
  import opened CorpusSource

  /** Where the holder of artifactSource.mu stands; a load has stat'd the file before it reads it. */
  datatype Lock =
    | Free
    | FirstStat | FirstRead(info: Option<Info>)
    | Checking | Reloading | ReloadRead(info: Option<Info>)

  /** At which version of the file a load's stat and its read took place. */
  datatype Span = Span(statAt: nat, readAt: nat)

  /**
   files are the versions of the manifest so far, the last the current one. The spans of the served
   load and of the failed reload, the version of the pending stat and the last Refresh's answer are
   history, which no step of the source reads.
   */
  datatype Sys = Sys(files: seq<File>, d: Fields, lock: Lock,
                     served: Span, failed: Span, pendingAt: nat, answer: Option<Error>)

  datatype Event = Rewrite(f: File) | LockFirst | StatFirst | ReadFirst
                 | LockRefresh | Check | StatAgain | ReadAgain | LookUp

  /** Every rewrite gives the file an identity it never had. */
  ghost predicate Identities(files: seq<File>) {
    forall i, j :: 0 <= i < j < |files| && files[i].info.Some? ==> files[i].info != files[j].info
  }

  ghost predicate Init(s: Sys) {
    s.files != [] && Identities(s.files) && s.d == Fields(None, None, None) && s.lock == Free
  }

  function Current(s: Sys): File
    requires s.files != []
  {
    s.files[|s.files| - 1]
  }

  ghost predicate Step(s: Sys, e: Event, t: Sys)
    requires s.files != []
  {
    var now := |s.files| - 1;
    match e
    case Rewrite(f) => t == s.(files := s.files + [f]) && Identities(t.files)
    case LookUp => s.d.state.Some? && t == s
    case LockFirst => s.lock == Free && s.d.state.None? && t == s.(lock := FirstStat)
    case StatFirst => s.lock == FirstStat && t == s.(lock := FirstRead(Current(s).info), pendingAt := now)
    case ReadFirst =>
      && s.lock.FirstRead?
      && t == s.(lock := Free, served := Span(s.pendingAt, now),
                 d := s.d.(state := Some(Loaded(Read(Current(s).content), s.lock.info))))
    case LockRefresh => s.lock == Free && s.d.state.Some? && t == s.(lock := Checking)
    case Check =>
      && s.lock == Checking && s.d.state.Some?
      && (match AfterStat(s.d, Current(s))
          case Done(fields, err) => t == s.(lock := Free, d := fields, answer := err)
          case Reload => t == s.(lock := Reloading))
    case StatAgain => s.lock == Reloading && t == s.(lock := ReloadRead(Current(s).info), pendingAt := now)
    case ReadAgain =>
      && s.lock.ReloadRead? && s.d.state.Some?
      && var next := Loaded(Read(Current(s).content), s.lock.info);
         var (fields, err) := AfterLoad(s.d, next);
         var span := Span(s.pendingAt, now);
         t == s.(lock := Free, d := fields, answer := err,
                 served := if fields.state == Some(next) then span else s.served,
                 failed := if fields.state == Some(next) then s.failed else span)
  }

  ghost predicate Within(span: Span, files: seq<File>) {
    span.statAt <= span.readAt < |files|
  }

  /** The served load is what its span's versions gave, and a kept failure is one of a version that is bad. */
  ghost predicate Inv(s: Sys) {
    && s.files != [] && Identities(s.files)
    && (s.d.state.Some? ==>
          && Within(s.served, s.files)
          && s.d.state.value == Loaded(Read(s.files[s.served.readAt].content), s.files[s.served.statAt].info))
    && (s.d.failedInfo.Some? ==>
          && Within(s.failed, s.files) && s.d.failedInfo == s.files[s.failed.statAt].info
          && Read(s.files[s.failed.readAt].content).Bad?
          && s.d.state.Some? && s.d.state.value.outcome.Good? && s.d.refreshErr.Some?)
    && (s.lock.FirstStat? || s.lock.FirstRead? ==> s.d.state.None?)
    && (s.lock.Checking? || s.lock.Reloading? || s.lock.ReloadRead? ==> s.d.state.Some?)
    && (s.lock.FirstRead? || s.lock.ReloadRead? ==> s.pendingAt < |s.files| && s.lock.info == s.files[s.pendingAt].info)
  }

  lemma InvHoldsAtStart(s: Sys)
    requires Init(s)
    ensures Inv(s)
  {
  }

  lemma StepKeepsInv(s: Sys, e: Event, t: Sys)
    requires Inv(s) && Step(s, e, t)
    ensures Inv(t)
  {
    hide Read, Identities;
  }

  /** t serves no older content than s, and a good manifest if s does. */
  ghost predicate NoWorse(s: Sys, t: Sys) {
    && s.files <= t.files
    && (s.d.state.Some? ==> t.d.state.Some? && s.served.readAt <= t.served.readAt)
    && (s.d.state.Some? && s.d.state.value.outcome.Good? ==> t.d.state.value.outcome.Good?)
  }

  lemma StepIsNoWorse(s: Sys, e: Event, t: Sys)
    requires Inv(s) && Step(s, e, t)
    ensures NoWorse(s, t)
  {
    hide Read, Identities;
  }

  ghost predicate IsRun(run: seq<Sys>, events: seq<Event>) {
    && |run| == |events| + 1 && Init(run[0])
    && forall k :: 0 <= k < |events| ==> run[k].files != [] && Step(run[k], events[k], run[k + 1])
  }

  lemma {:induction false} RunKeepsInv(run: seq<Sys>, events: seq<Event>, i: nat)
    requires IsRun(run, events) && i < |run|
    ensures Inv(run[i])
  {
    hide Step, Inv;
    if i == 0 {
      InvHoldsAtStart(run[0]);
    } else {
      RunKeepsInv(run, events, i - 1);
      StepKeepsInv(run[i - 1], events[i - 1], run[i]);
    }
  }

  /** In every run, once a good manifest is served it stays one, and what is served is the reading of one
      version of the file, never of an older one than before. */
  lemma {:induction false} ServedNeverGoesBack(run: seq<Sys>, events: seq<Event>, i: nat, j: nat)
    requires IsRun(run, events) && i <= j < |run|
    ensures NoWorse(run[i], run[j])
    ensures run[j].d.state.Some? ==>
              && run[j].served.readAt < |run[j].files|
              && run[j].d.state.value.outcome == Read(run[j].files[run[j].served.readAt].content)
    decreases j
  {
    hide Step, Read, Identities;
    RunKeepsInv(run, events, j);
    if i < j {
      ServedNeverGoesBack(run, events, i, j - 1);
      RunKeepsInv(run, events, j - 1);
      StepIsNoWorse(run[j - 1], events[j - 1], run[j]);
    }
  }

  // ----- a refresh of a file that holds still -----

  /** What a Refresh that began in s and found the file f throughout leaves and answers. */
  ghost predicate Settled(s: Sys, f: File, t: Sys) {
    && s.d.state.Some? && t.d.state.Some?
    && (t.answer.None? <==> Read(f.content).Good?)
    && (Read(f.content).Good? ==>
          t.d.state.value.outcome == Read(f.content) && t.d.refreshErr.None? && t.d.failedInfo.None?)
    && (Read(f.content).Bad? ==>
          if s.d.state.value.outcome.Good? then t.d.state == s.d.state
          else t.d.state.value.outcome == Read(f.content))
  }

  /** Between a Refresh's lock and its unlock, with no rewrite. */
  ghost predicate Refreshing(s: Sys, t: Sys) {
    && s.files != [] && t.files == s.files
    && match t.lock
       case Checking => t.d == s.d && t.served == s.served && t.failed == s.failed
       case Reloading => t.d == s.d
       case ReloadRead(info) => t.d == s.d && info == Current(s).info
       case Free => Settled(s, Current(s), t)
       case _ => false
  }

  /** The version with a given identity is the current one when its identity is the file's. */
  lemma SameIdentitySameVersion(s: Sys, at: nat)
    requires s.files != [] && Identities(s.files) && at < |s.files|
    requires SameIdentity(Current(s).info, s.files[at].info)
    ensures at == |s.files| - 1
  {
  }

  lemma CheckSettles(s: Sys)
    requires Inv(s) && s.d.state.Some? && Current(s).info.Some? && AfterStat(s.d, Current(s)).Done?
    ensures forall t: Sys :: t.d == AfterStat(s.d, Current(s)).fields && t.answer == AfterStat(s.d, Current(s)).err ==>
              Settled(s, Current(s), t)
  {
    hide Read, Identities;
    if SameIdentity(Current(s).info, s.d.state.value.info) {
      SameIdentitySameVersion(s, s.served.statAt);
    } else {
      SameIdentitySameVersion(s, s.failed.statAt);
    }
  }

  lemma RefreshStep(s: Sys, t: Sys, e: Event, u: Sys)
    requires Inv(s) && s.d.state.Some? && Current(s).info.Some?
    requires Refreshing(s, t) && t.lock != Free && !e.Rewrite? && Step(t, e, u)
    ensures Refreshing(s, u)
  {
    hide Read, Identities, AfterStat;
    if e.Check? && AfterStat(s.d, Current(s)).Done? {
      CheckSettles(s);
    }
  }

  /** The steps from a Refresh's lock to its unlock, the file left alone meanwhile. */
  ghost predicate StableRefresh(run: seq<Sys>, events: seq<Event>, i: nat, j: nat) {
    && IsRun(run, events) && i < j < |run| && events[i] == LockRefresh
    && (forall k :: i <= k < j ==> !events[k].Rewrite?)
    && (forall k :: i < k < j ==> run[k].lock != Free)
  }

  lemma {:induction false} StableRefreshHolds(run: seq<Sys>, events: seq<Event>, i: nat, j: nat)
    requires StableRefresh(run, events, i, j) && Current(run[i]).info.Some?
    ensures Refreshing(run[i], run[j])
    decreases j
  {
    hide Inv, Read, Identities, AfterStat;
    RunKeepsInv(run, events, i);
    assert Step(run[i], events[i], run[i + 1]);
    if j > i + 1 {
      StableRefreshHolds(run, events, i, j - 1);
      assert Step(run[j - 1], events[j - 1], run[j]);
      RefreshStep(run[i], run[j - 1], events[j - 1], run[j]);
    }
  }

  /**
   In every run, a Refresh during which the file is present and left alone answers without an error
   exactly when the file is a usable manifest, and then leaves exactly that file's index served; of an
   unusable file it leaves the good manifest served before, or its own error when there was none.
   */
  lemma RefreshServesTheFile(run: seq<Sys>, events: seq<Event>, i: nat, j: nat)
    requires StableRefresh(run, events, i, j) && run[j].lock == Free && Current(run[i]).info.Some?
    ensures run[j].files == run[i].files && Settled(run[i], Current(run[i]), run[j])
  {
    hide Settled, Step;
    StableRefreshHolds(run, events, i, j);
  }

  // ----- the choices of the protocol -----

  /** A failed reload behind a good manifest is not tried again while the file keeps its identity, and keeps
      being reported. */
  lemma FailedReloadIsNotRetried(d: Fields, w: Window, f: File)
    requires d.state.Some? && d.state.value.outcome.Good? && Load(w).outcome.Bad?
    requires f.info.Some? && w.stat.info == f.info && f.info != d.state.value.info
    ensures AfterLoad(d, Load(w)).0.state == d.state && AfterLoad(d, Load(w)).1.Some?
    ensures AfterStat(AfterLoad(d, Load(w)).0, f) == Done(AfterLoad(d, Load(w)).0, AfterLoad(d, Load(w)).1)
  {
    hide Read;
  }

  /** Were the file read before the stat, a rewrite between the two would be missed for good: the older
      content under the newer identity passes every later check. */
  lemma ReadBeforeStatMissesRewrites(older: File, newer: File)
    requires newer.info.Some? && Read(older.content) != Read(newer.content)
    ensures var d := Fields(Some(Loaded(Read(older.content), newer.info)), None, None);
            AfterStat(d, newer).Done? && AfterStat(d, newer).fields == d
            && d.state.value.outcome != Read(newer.content)
  {
    hide Read;
  }
}
