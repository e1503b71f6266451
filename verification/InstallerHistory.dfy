/**
 Histories of runs: what a run that ends normally leaves behind, whatever crashes came before, and
 exactly when an earlier crash spoils it.
 */
module InstallerHistory {
  import opened Prelude
  import opened InstallerScript
  import opened InstallerRun
  import opened InstallerTheorems

  /** A tag names one release, and its assets do not look like markers. */
  ghost predicate Published(events: seq<Event>, release: string -> seq<Asset>) {
    forall i :: 0 <= i < |events| ==> events[i].assets == release(events[i].tag) && PlainNames(events[i].assets)
  }

  predicate PlainNames(assets: seq<Asset>) {
    forall k :: 0 <= k < |assets| ==> !MarkerName(assets[k].name)
  }

  /** At most one marker; every file that looks like one is empty. */
  ghost predicate OneMarker(fs: Fs)
    requires fs.Valid()
  {
    && (forall n :: n in fs.latest && MarkerName(n) ==> fs.inodes[fs.latest[n]] == "")
    && (forall m, n :: m in fs.latest && n in fs.latest && MarkerName(m) && MarkerName(n) ==> m == n)
  }

  /** A host to start from: no marker, or the marker of a release that is there in full. */
  ghost predicate Settled(fs: Fs, sha: Content -> string, release: string -> seq<Asset>) {
    && fs.Valid() && OneMarker(fs)
    && forall m :: m in Markers(fs.latest, fs.inodes) ==>
        PlainNames(release(m)) && Complete(fs.latest, fs.inodes, release(m), sha)
  }

  /** The histories the results below speak of. */
  ghost predicate Runs(states: seq<Fs>, events: seq<Event>, sha: Content -> string, release: string -> seq<Asset>) {
    History(states, events, sha) && Published(events, release) && Settled(states[0], sha, release)
  }

  // ---------------------------------------------------------------- markers

  /** The names of staged files are asset names, so none of them looks like a marker. */
  lemma StagedPlain(fs: Fs, assets: seq<Asset>, r: Report)
    requires Staged(r.st, fs.inodes, assets, r.got) && PlainNames(assets)
    ensures forall n :: n in r.st ==> !MarkerName(n)
  {
    forall n | n in r.st
      ensures !MarkerName(n)
    {
      var i := StagedNamed(fs, assets, r, n);
    }
  }

  /** Two directories agree in the files that look like markers. */
  ghost predicate SameEntries(d: Dir, e: Dir) {
    forall n :: MarkerName(n) ==> (n in d <==> n in e) && (n in d ==> d[n] == e[n])
  }

  lemma SameMarkers(fs0: Fs, fs: Fs)
    requires fs0.Valid() && fs.Valid() && Grows(fs0.inodes, fs.inodes) && SameEntries(fs0.latest, fs.latest)
    ensures Markers(fs.latest, fs.inodes) == Markers(fs0.latest, fs0.inodes)
    ensures OneMarker(fs0) ==> OneMarker(fs)
  {
  }

  /** The files that look like markers after the renames began, by how far the run got. */
  lemma MarkerEntries(fs0: Fs, fs: Fs, tag: string, assets: seq<Asset>, sha: Content -> string, r: Report)
    requires Ran(fs0, fs, tag, assets, sha, r) && !r.progress.Untouched? && forall n :: n in r.st ==> !MarkerName(n)
    requires forall n :: n in fs0.latest && MarkerName(n) <==> r.mark == Some(n)
    ensures r.progress.Moving? ==> SameEntries(fs0.latest, fs.latest)
    ensures r.progress.Unmarked? ==> forall n :: n in fs.latest ==> !MarkerName(n)
    ensures r.progress.Marked? ==> tag in fs.latest && fs.inodes[fs.latest[tag]] == ""
    ensures r.progress.Marked? ==> forall n :: n in fs.latest && MarkerName(n) ==> n == tag
  {
  }

  /** Markers after a run, by how far it got. */
  lemma MarkersAfter(fs0: Fs, fs: Fs, tag: string, assets: seq<Asset>, sha: Content -> string, r: Report)
    requires Ran(fs0, fs, tag, assets, sha, r) && OneMarker(fs0)
    requires r.progress.Untouched? || PlainNames(assets)
    ensures OneMarker(fs)
    ensures match r.progress
            case Unmarked => Markers(fs.latest, fs.inodes) == {}
            case Marked => Markers(fs.latest, fs.inodes) == {tag}
            case _ => Markers(fs.latest, fs.inodes) == Markers(fs0.latest, fs0.inodes)
  {
    if r.progress.Untouched? {
      SameMarkers(fs0, fs);
    } else {
      StagedPlain(fs, assets, r);
      MarkNamed(fs0, r.mark);
      MarkerEntries(fs0, fs, tag, assets, sha, r);
      if r.progress.Moving? {
        SameMarkers(fs0, fs);
      }
    }
  }

  lemma MarkNamed(fs: Fs, mark: Option<string>)
    requires fs.Valid() && OneMarker(fs) && FoundMarker(fs, mark)
    ensures forall n :: n in fs.latest && MarkerName(n) <==> mark == Some(n)
  {
    forall n | n in fs.latest && MarkerName(n)
      ensures mark == Some(n)
    {
      assert n in Markers(fs.latest, fs.inodes);
    }
  }

  lemma MarkedCompletes(fs0: Fs, fs: Fs, tag: string, assets: seq<Asset>, sha: Content -> string, r: Report)
    requires Ran(fs0, fs, tag, assets, sha, r) && OneMarker(fs0) && PlainNames(assets) && r.progress.Marked?
    ensures Complete(fs.latest, fs.inodes, assets, sha)
  {
    StagedPlain(fs, assets, r);
    MarkNamed(fs0, r.mark);
    HarmlessCompletes(fs0, fs, tag, assets, sha, r);
  }

  /** How the markers of one state of a history come from those of the state before. */
  ghost predicate MarkersPass(fs0: Fs, fs: Fs, e: Event)
    requires fs0.Valid() && fs.Valid()
  {
    match e.report.progress
    case Unmarked => Markers(fs.latest, fs.inodes) == {}
    case Marked => Markers(fs.latest, fs.inodes) == {e.tag}
    case _ => Markers(fs.latest, fs.inodes) == Markers(fs0.latest, fs0.inodes)
  }

  lemma MarkersNext(states: seq<Fs>, events: seq<Event>, sha: Content -> string, release: string -> seq<Asset>, k: nat)
    requires History(states, events, sha) && Published(events, release) && k < |events|
    requires states[k].Valid() && OneMarker(states[k])
    ensures states[k + 1].Valid() && OneMarker(states[k + 1]) && MarkersPass(states[k], states[k + 1], events[k])
    ensures events[k].report.progress.Marked? ==>
              Complete(states[k + 1].latest, states[k + 1].inodes, release(events[k].tag), sha)
    ensures events[k].report.progress.Moving? ==> events[k].tag !in Markers(states[k].latest, states[k].inodes)
  {
    var e := events[k];
    assert RanAt(states, events, sha, k);
    MarkersAfter(states[k], states[k + 1], e.tag, e.assets, sha, e.report);
    if e.report.progress.Marked? {
      MarkedCompletes(states[k], states[k + 1], e.tag, e.assets, sha, e.report);
    }
    MarkNamed(states[k], e.report.mark);
  }

  lemma {:induction false} AlwaysOneMarker(states: seq<Fs>, events: seq<Event>, sha: Content -> string,
                                           release: string -> seq<Asset>, k: nat)
    requires Runs(states, events, sha, release) && k < |states|
    ensures states[k].Valid() && OneMarker(states[k])
  {
    if k > 0 {
      AlwaysOneMarker(states, events, sha, release, k - 1);
      MarkersNext(states, events, sha, release, k - 1);
    }
  }

  /** The state in which the marker of state `k` was set; 0 when no run before set one. */
  function MarkedAt(events: seq<Event>, k: nat): (b: nat)
    requires k <= |events|
    ensures b <= k && (b > 0 ==> events[b - 1].report.progress.Marked?)
    ensures forall i :: b <= i < k ==> !events[i].report.progress.Marked?
  {
    if k == 0 then 0 else if events[k - 1].report.progress.Marked? then k else MarkedAt(events, k - 1)
  }

  /** The run did not touch `latest`, or it is one for another tag that stopped among its renames. */
  predicate Passed(e: Event, tag: string) {
    e.report.progress.Untouched? || (e.report.progress.Moving? && e.tag != tag)
  }

  /** The marker `m` has been there since state `b`. */
  ghost predicate Since(states: seq<Fs>, events: seq<Event>, m: string, b: nat, k: nat)
    requires b <= k < |states| == |events| + 1
  {
    && (forall i :: b <= i < k ==> Passed(events[i], m))
    && (b > 0 ==> events[b - 1].tag == m)
    && (b == 0 ==> m in states[0].latest && MarkerName(m))
  }

  /** A marker was set by the last run that set one, or was there at the start, with its whole release. */
  lemma {:induction false} MarkerSince(states: seq<Fs>, events: seq<Event>, sha: Content -> string,
                                       release: string -> seq<Asset>, k: nat, m: string)
    requires Runs(states, events, sha, release) && k < |states| && states[k].Valid()
    requires m in Markers(states[k].latest, states[k].inodes)
    ensures Since(states, events, m, MarkedAt(events, k), k) && PlainNames(release(m))
    ensures Whole(states[MarkedAt(events, k)], sha, release, m)
  {
    if k == 0 {
      assert Settled(states[0], sha, release);
    } else {
      MarkerStep(states, events, sha, release, k - 1, m);
      if !events[k - 1].report.progress.Marked? {
        MarkerSince(states, events, sha, release, k - 1, m);
        SinceNext(states, events, m, MarkedAt(events, k), k);
      }
    }
  }

  /** The release is there in full. */
  ghost predicate Whole(fs: Fs, sha: Content -> string, release: string -> seq<Asset>, m: string) {
    fs.Valid() && Complete(fs.latest, fs.inodes, release(m), sha)
  }

  /** A marker was set by the run just before, with its whole release, or was there before it. */
  lemma MarkerStep(states: seq<Fs>, events: seq<Event>, sha: Content -> string, release: string -> seq<Asset>, k: nat,
                   m: string)
    requires Runs(states, events, sha, release) && k < |events| && states[k + 1].Valid()
    requires m in Markers(states[k + 1].latest, states[k + 1].inodes)
    ensures states[k].Valid()
    ensures if events[k].report.progress.Marked? then
              events[k].tag == m && PlainNames(release(m)) && Whole(states[k + 1], sha, release, m)
            else Passed(events[k], m) && m in Markers(states[k].latest, states[k].inodes)
  {
    AlwaysOneMarker(states, events, sha, release, k);
    MarkersNext(states, events, sha, release, k);
    assert PlainNames(events[k].assets) && events[k].assets == release(events[k].tag);
  }

  lemma SinceNext(states: seq<Fs>, events: seq<Event>, m: string, b: nat, k: nat)
    requires b < k < |states| == |events| + 1 && Since(states, events, m, b, k - 1) && Passed(events[k - 1], m)
    ensures Since(states, events, m, b, k)
  {
  }

  // ---------------------------------------------------------------- files since the marker was set

  /** The run renamed a file of this name into `latest` and stopped before the old marker was gone. */
  predicate Moves(e: Event, n: string) {
    e.report.progress.Moving? && n in e.report.progress.done
  }

  /** The last run from `b` on that did so. */
  function LastMove(events: seq<Event>, b: nat, k: nat, n: string): (j: Option<nat>)
    requires b <= k <= |events|
    ensures j.None? <==> forall i :: b <= i < k ==> !Moves(events[i], n)
    ensures j.Some? ==> b <= j.value < k && Moves(events[j.value], n)
  {
    if k == b then None else if Moves(events[k - 1], n) then Some(k - 1) else LastMove(events, b, k - 1, n)
  }

  /** The inode a name has after the runs that passed since state `b`. */
  ghost predicate HeldSince(states: seq<Fs>, events: seq<Event>, b: nat, k: nat, n: string)
    requires b <= k < |states| == |events| + 1
  {
    match LastMove(events, b, k, n)
    case None => n in states[b].latest ==> n in states[k].latest && states[k].latest[n] == states[b].latest[n]
    case Some(j) => n in events[j].report.st && n in states[k].latest && states[k].latest[n] == events[j].report.st[n]
  }

  lemma {:induction false} ContentSince(states: seq<Fs>, events: seq<Event>, sha: Content -> string, m: string, b: nat,
                                        k: nat, n: string)
    requires History(states, events, sha) && b <= k < |states| && Since(states, events, m, b, k)
    ensures HeldSince(states, events, b, k, n)
  {
    if k > b {
      ContentSince(states, events, sha, m, b, k - 1, n);
      assert RanAt(states, events, sha, k - 1);
      assert Passed(events[k - 1], m);
      EntryPasses(states[k - 1], states[k], events[k - 1], sha, m, n);
    }
  }

  /** What a passing run does to one name. */
  lemma EntryPasses(fs0: Fs, fs: Fs, e: Event, sha: Content -> string, m: string, n: string)
    requires Ran(fs0, fs, e.tag, e.assets, sha, e.report) && Passed(e, m)
    ensures Moves(e, n) ==> n in e.report.st && n in fs.latest && fs.latest[n] == e.report.st[n]
    ensures !Moves(e, n) && n in fs0.latest ==> n in fs.latest && fs.latest[n] == fs0.latest[n]
  {
  }

  lemma {:induction false} InodesSince(states: seq<Fs>, events: seq<Event>, sha: Content -> string, b: nat, k: nat)
    requires History(states, events, sha) && b <= k < |states|
    ensures Grows(states[b].inodes, states[k].inodes)
  {
    if k > b {
      InodesSince(states, events, sha, b, k - 1);
      assert RanAt(states, events, sha, k - 1);
    }
  }

  /** What run `j` staged under the name, and later moved, matches the given assets. */
  ghost predicate SameFile(states: seq<Fs>, events: seq<Event>, sha: Content -> string, assets: seq<Asset>, j: nat,
                           n: string)
    requires j < |events| == |states| - 1
  {
    var st, inodes := events[j].report.st, states[j + 1].inodes;
    n in st && st[n] in inodes && Matches(n, inodes[st[n]], assets, sha)
  }

  /** No crashed run since state `b` left a file under the name that the assets do not allow. */
  ghost predicate Unspoiled(states: seq<Fs>, events: seq<Event>, sha: Content -> string, assets: seq<Asset>, b: nat,
                            k: nat, n: string)
    requires b <= k <= |events| == |states| - 1
  {
    var j := LastMove(events, b, k, n);
    j.Some? ==> SameFile(states, events, sha, assets, j.value, n)
  }

  lemma UnspoiledIff(states: seq<Fs>, events: seq<Event>, sha: Content -> string, assets: seq<Asset>, m: string, b: nat,
                     k: nat, n: string)
    requires History(states, events, sha) && b <= k < |states| && Since(states, events, m, b, k)
    requires states[b].Valid() && states[k].Valid()
    requires n in states[b].latest && Matches(n, states[b].inodes[states[b].latest[n]], assets, sha)
    ensures n in states[k].latest
    ensures Matches(n, states[k].inodes[states[k].latest[n]], assets, sha)
            <==> Unspoiled(states, events, sha, assets, b, k, n)
  {
    FileSince(states, events, sha, m, b, k, n);
    UnspoiledByFile(states, events, sha, assets, b, k, n);
  }

  ghost predicate FileIs(states: seq<Fs>, events: seq<Event>, b: nat, k: nat, n: string)
    requires b <= k < |states| == |events| + 1 && states[b].Valid() && states[k].Valid() && n in states[b].latest
  {
    && n in states[k].latest
    && var c := states[k].inodes[states[k].latest[n]];
       match LastMove(events, b, k, n)
       case None => c == states[b].inodes[states[b].latest[n]]
       case Some(j) =>
         var st, inodes := events[j].report.st, states[j + 1].inodes;
         n in st && st[n] in inodes && c == inodes[st[n]]
  }

  lemma UnspoiledByFile(states: seq<Fs>, events: seq<Event>, sha: Content -> string, assets: seq<Asset>, b: nat, k: nat,
                        n: string)
    requires b <= k < |states| == |events| + 1 && states[b].Valid() && states[k].Valid() && n in states[b].latest
    requires FileIs(states, events, b, k, n) && Matches(n, states[b].inodes[states[b].latest[n]], assets, sha)
    ensures Matches(n, states[k].inodes[states[k].latest[n]], assets, sha)
            <==> Unspoiled(states, events, sha, assets, b, k, n)
  {
  }

  /** The content of a file is that of state `b`, or what the last run that moved the name staged. */
  lemma FileSince(states: seq<Fs>, events: seq<Event>, sha: Content -> string, m: string, b: nat, k: nat, n: string)
    requires History(states, events, sha) && b <= k < |states| && Since(states, events, m, b, k)
    requires states[b].Valid() && states[k].Valid() && n in states[b].latest
    ensures FileIs(states, events, b, k, n)
  {
    ContentSince(states, events, sha, m, b, k, n);
    var j := LastMove(events, b, k, n);
    if j.None? {
      InodesSince(states, events, sha, b, k);
    } else {
      StagedSince(states, events, sha, j.value, k, n);
    }
  }

  /** A staged file keeps its content. */
  lemma StagedSince(states: seq<Fs>, events: seq<Event>, sha: Content -> string, j: nat, k: nat, n: string)
    requires History(states, events, sha) && j < k < |states| && Moves(events[j], n)
    ensures var ino := events[j].report.st;
            && n in ino && ino[n] in states[j + 1].inodes && ino[n] in states[k].inodes
            && states[k].inodes[ino[n]] == states[j + 1].inodes[ino[n]]
  {
    assert RanAt(states, events, sha, j);
    InodesSince(states, events, sha, j + 1, k);
  }

  /**
   For each asset, the last crashed run since the marker was set that moved a file of its name, if
   any, moved one allowed.
   */
  ghost predicate AllUnspoiled(states: seq<Fs>, events: seq<Event>, sha: Content -> string, assets: seq<Asset>, k: nat)
    requires k <= |events| == |states| - 1
  {
    forall i :: 0 <= i < |assets| ==> Unspoiled(states, events, sha, assets, MarkedAt(events, k), k, assets[i].name)
  }

  /** Exactly when the release that a marker names is there. */
  lemma MarkedIff(states: seq<Fs>, events: seq<Event>, sha: Content -> string, release: string -> seq<Asset>, k: nat,
                  m: string)
    requires Runs(states, events, sha, release) && k < |states| && states[k].Valid()
    requires m in Markers(states[k].latest, states[k].inodes)
    ensures Complete(states[k].latest, states[k].inodes, release(m), sha)
            <==> AllUnspoiled(states, events, sha, release(m), k)
  {
    var assets, b, s := release(m), MarkedAt(events, k), states[k];
    MarkerSince(states, events, sha, release, k, m);
    forall i | 0 <= i < |assets|
      ensures assets[i].name in s.latest
      ensures Matches(assets[i].name, s.inodes[s.latest[assets[i].name]], assets, sha)
              <==> Unspoiled(states, events, sha, assets, b, k, assets[i].name)
    {
      UnspoiledIff(states, events, sha, assets, m, b, k, assets[i].name);
    }
  }

  /** Exactly when a run that finds its tag installed is right. */
  lemma UpToDateIff(states: seq<Fs>, events: seq<Event>, sha: Content -> string, release: string -> seq<Asset>, k: nat)
    requires Runs(states, events, sha, release) && k < |events| && events[k].report.outcome.UpToDate?
    ensures states[k + 1].Valid() && Markers(states[k + 1].latest, states[k + 1].inodes) == {events[k].tag}
    ensures Complete(states[k + 1].latest, states[k + 1].inodes, events[k].assets, sha)
            <==> AllUnspoiled(states, events, sha, events[k].assets, k)
  {
    assert RanAt(states, events, sha, k);
    AlwaysOneMarker(states, events, sha, release, k);
    MarkNamed(states[k], events[k].report.mark);
    MarkedIff(states, events, sha, release, k, events[k].tag);
  }

  /**
   Exactly when the documented rollback gives the old release back, after a run that installed or
   crashed among its renames: no run that crashed before it, since the old marker was set, may have
   left another release's file, because each run replaces the backup of the one before.
   */
  lemma RollbackIff(states: seq<Fs>, events: seq<Event>, sha: Content -> string, release: string -> seq<Asset>, k: nat,
                    m: string)
    requires Runs(states, events, sha, release) && k < |events| && !events[k].report.progress.Untouched?
    requires events[k].report.mark == Some(m)
    ensures m in states[k + 1].previous
    ensures var back := Rollback(states[k + 1], m);
            && ValidDir(back.latest, back.inodes) && Markers(back.latest, back.inodes) == {m}
            && (Complete(back.latest, back.inodes, release(m), sha)
              <==> AllUnspoiled(states, events, sha, release(m), k))
  {
    assert RanAt(states, events, sha, k);
    AlwaysOneMarker(states, events, sha, release, k);
    MarkNamed(states[k], events[k].report.mark);
    MarkedIff(states, events, sha, release, k, m);
    ViewGrows(states[k].latest, states[k].inodes, states[k + 1].inodes);
    SameComplete(states[k].latest, states[k].inodes, states[k + 1].inodes, release(m), sha);
  }

  lemma SameComplete(d: Dir, inodes: map<Inode, Content>, more: map<Inode, Content>, assets: seq<Asset>,
                     sha: Content -> string)
    requires ValidDir(d, inodes) && Grows(inodes, more)
    ensures ValidDir(d, more) && (Complete(d, more, assets, sha) <==> Complete(d, inodes, assets, sha))
  {
  }

  /** Different tags never allow the same content under one name. */
  ghost predicate Distinguishable(release: string -> seq<Asset>, sha: Content -> string) {
    forall t, u, n, c :: t != u && Matches(n, c, release(t), sha) ==> !Matches(n, c, release(u), sha)
  }

  /** A crashed run that moved a file of the name spoils it. */
  lemma MovesSpoil(states: seq<Fs>, events: seq<Event>, sha: Content -> string, release: string -> seq<Asset>,
                   m: string, b: nat, k: nat, n: string)
    requires History(states, events, sha) && Published(events, release) && Distinguishable(release, sha)
    requires b <= k < |states| && Since(states, events, m, b, k)
    ensures Unspoiled(states, events, sha, release(m), b, k, n) <==> forall j :: b <= j < k ==> !Moves(events[j], n)
  {
    var j := LastMove(events, b, k, n);
    if j.Some? {
      var e, fs := events[j.value], states[j.value + 1];
      assert RanAt(states, events, sha, j.value);
      assert Passed(e, m);
      StagedMatches(fs, e.assets, sha, e.report, n);
    }
  }

  /** No run between state `b` and state `k` moved a file of one of these names and crashed. */
  ghost predicate Unmoved(events: seq<Event>, assets: seq<Asset>, b: nat, k: nat)
    requires b <= k <= |events|
  {
    forall i, j :: 0 <= i < |assets| && b <= j < k ==> !Moves(events[j], assets[i].name)
  }

  /**
   A run that ends normally leaves its marker as the only one. It leaves all its assets if and only
   if it installed them, or no run since the marker was set crashed after moving one of their names.
   */
  lemma NormalEndIff(states: seq<Fs>, events: seq<Event>, sha: Content -> string, release: string -> seq<Asset>, k: nat)
    requires Runs(states, events, sha, release) && Distinguishable(release, sha)
    requires k < |events| && (events[k].report.outcome.Installed? || events[k].report.outcome.UpToDate?)
    ensures states[k + 1].Valid() && Markers(states[k + 1].latest, states[k + 1].inodes) == {events[k].tag}
    ensures Complete(states[k + 1].latest, states[k + 1].inodes, events[k].assets, sha)
            <==> events[k].report.outcome.Installed? || Unmoved(events, events[k].assets, MarkedAt(events, k), k)
  {
    if events[k].report.outcome.Installed? {
      InstalledCompletes(states, events, sha, release, k);
    } else {
      UpToDateIff(states, events, sha, release, k);
      UpToDateUnmoved(states, events, sha, release, k);
    }
  }

  lemma UpToDateUnmoved(states: seq<Fs>, events: seq<Event>, sha: Content -> string, release: string -> seq<Asset>,
                        k: nat)
    requires Runs(states, events, sha, release) && Distinguishable(release, sha)
    requires k < |events| && events[k].report.outcome.UpToDate?
    ensures Unmoved(events, events[k].assets, MarkedAt(events, k), k)
            <==> AllUnspoiled(states, events, sha, events[k].assets, k)
  {
    var e, b := events[k], MarkedAt(events, k);
    assert RanAt(states, events, sha, k);
    MarkerSince(states, events, sha, release, k, e.tag);
    forall i | 0 <= i < |e.assets|
      ensures Unspoiled(states, events, sha, e.assets, b, k, e.assets[i].name)
              <==> forall j :: b <= j < k ==> !Moves(events[j], e.assets[i].name)
    {
      MovesSpoil(states, events, sha, release, e.tag, b, k, e.assets[i].name);
    }
  }

  /** A run that installed needs no condition on the tags. */
  lemma InstalledCompletes(states: seq<Fs>, events: seq<Event>, sha: Content -> string, release: string -> seq<Asset>,
                           k: nat)
    requires Runs(states, events, sha, release) && k < |events| && events[k].report.outcome.Installed?
    ensures states[k + 1].Valid() && Markers(states[k + 1].latest, states[k + 1].inodes) == {events[k].tag}
    ensures Complete(states[k + 1].latest, states[k + 1].inodes, events[k].assets, sha)
  {
    AlwaysOneMarker(states, events, sha, release, k);
    MarkersNext(states, events, sha, release, k);
    assert RanAt(states, events, sha, k);
  }

  // ---------------------------------------------------------------- histories whose tag never goes back

  /**
   Once another tag was the latest one, an earlier tag does not come back, nor does the one
   installed at the start.
   */
  ghost predicate NeverGoesBack(events: seq<Event>, start: Fs) {
    && (forall i, j, k :: 0 <= i < j < k < |events| && events[i].tag == events[k].tag ==>
        events[j].tag == events[i].tag)
    && (forall j, k :: 0 <= j < k < |events| && events[k].tag in start.latest ==> events[j].tag == events[k].tag)
  }

  /**
   If the latest tag never goes back, every run that ends normally leaves every asset of its tag
   and its marker as the only one, whatever crashes came before and whatever the releases share.
   */
  lemma NormalEndInstalls(states: seq<Fs>, events: seq<Event>, sha: Content -> string, release: string -> seq<Asset>,
                          k: nat)
    requires Runs(states, events, sha, release) && NeverGoesBack(events, states[0])
    requires k < |events| && (events[k].report.outcome.Installed? || events[k].report.outcome.UpToDate?)
    ensures states[k + 1].Valid() && Markers(states[k + 1].latest, states[k + 1].inodes) == {events[k].tag}
    ensures Complete(states[k + 1].latest, states[k + 1].inodes, events[k].assets, sha)
  {
    if events[k].report.outcome.Installed? {
      InstalledCompletes(states, events, sha, release, k);
    } else {
      var e, b := events[k], MarkedAt(events, k);
      assert RanAt(states, events, sha, k);
      MarkerSince(states, events, sha, release, k, e.tag);
      forall j | b <= j < k
        ensures events[j].report.progress.Untouched?
      {
        assert events[j].tag == e.tag;
        assert Passed(events[j], e.tag);
      }
      UpToDateIff(states, events, sha, release, k);
    }
  }

  // ---------------------------------------------------------------- a history that goes back

  function Identity(c: Content): string {
    c
  }

  /** One asset per release, whose content is the tag; digests are the contents themselves. */
  function OneAsset(app: string): string -> seq<Asset> {
    tag => [Asset(app, Some(tag))]
  }

  /** Two tags and an asset that does not look like a marker. */
  predicate Example(v1: string, v2: string, app: string) {
    TagOk(v1) && TagOk(v2) && v1 != v2 && !MarkerName(app)
  }

  function FirstState(): Fs {
    Fs(map[], map[], map[], map[])
  }

  function SecondState(v1: string, app: string): Fs {
    Fs(map[0 := v1, 1 := ""], map[app := 0, v1 := 1], map["unknown" := map[]], map[])
  }

  function ThirdState(v1: string, v2: string, app: string): Fs {
    Fs(map[0 := v1, 1 := "", 2 := v2], map[app := 2, v1 := 1], map[v1 := map[app := 0, v1 := 1]], map[v2 := map[]])
  }

  function FourthState(v1: string, v2: string, app: string): Fs {
    Fs(map[0 := v1, 1 := "", 2 := v2, 3 := v2, 4 := ""], map[app := 3, v2 := 4], map[v1 := map[app := 2, v1 := 1]],
      map[])
  }

  /** The one download of the example is verified and staged. */
  lemma ExampleStaged(app: string, tag: string, ino: Inode, inodes: map<Inode, Content>)
    requires ino in inodes && inodes[ino] == tag
    ensures Verified(OneAsset(app)(tag), [tag], Identity) && Staged(map[app := ino], inodes, OneAsset(app)(tag), [tag])
  {
    assert OneAsset(app)(tag)[0].name == app;
    assert Downloaded(app, tag, OneAsset(app)(tag), [tag]);
  }

  lemma ExampleStates(v1: string, v2: string, app: string)
    requires Example(v1, v2, app)
    ensures var s, t, u := SecondState(v1, app), ThirdState(v1, v2, app), FourthState(v1, v2, app);
            && s.Valid() && t.Valid() && u.Valid() && Grows(s.inodes, t.inodes) && Grows(t.inodes, u.inodes)
            && v1 in Markers(s.latest, s.inodes) && v1 in Markers(t.latest, t.inodes)
  {
    EntriesValid(app, 0, v1, 1, SecondState(v1, app).inodes);
    EntriesValid(app, 2, v1, 1, ThirdState(v1, v2, app).inodes);
    EntriesValid(app, 3, v2, 4, FourthState(v1, v2, app).inodes);
  }

  lemma EntriesValid(app: string, file: Inode, tag: string, empty: Inode, inodes: map<Inode, Content>)
    requires file in inodes && empty in inodes && inodes[empty] == "" && MarkerName(tag) && app != tag
    ensures ValidDir(map[app := file, tag := empty], inodes) && tag in Markers(map[app := file, tag := empty], inodes)
  {
  }

  lemma FirstInstall(v1: string, app: string) returns (r: Report)
    requires TagOk(v1) && !MarkerName(app)
    ensures Ran(FirstState(), SecondState(v1, app), v1, OneAsset(app)(v1), Identity, r) && r.outcome.Installed?
  {
    r := Report(Installed, Marked, None, map[app := 0], [v1]);
    ExampleStaged(app, v1, 0, SecondState(v1, app).inodes);
    assert Markers(FirstState().latest, FirstState().inodes) == {};
    assert Replaced(map[], r.st, None) == map[app := 0];
    assert Touched(map[app := 0], SecondState(v1, app).latest, SecondState(v1, app).inodes, v1);
  }

  lemma CrashedUpgrade(v1: string, v2: string, app: string) returns (r: Report)
    requires Example(v1, v2, app)
    ensures Ran(SecondState(v1, app), ThirdState(v1, v2, app), v2, OneAsset(app)(v2), Identity, r) && r.outcome.Crashed?
  {
    r := Report(Crashed, Moving({app}), Some(v1), map[app := 2], [v2]);
    ExampleStaged(app, v2, 2, ThirdState(v1, v2, app).inodes);
    ExampleStates(v1, v2, app);
    CrashedShape(v1, v2, app, r.st);
    WholeBacksUp(SecondState(v1, app), ThirdState(v1, v2, app), r);
  }

  lemma CrashedShape(v1: string, v2: string, app: string, st: Dir)
    requires Example(v1, v2, app) && st == map[app := 2]
    ensures Overlay(SecondState(v1, app).latest, st, {app}) == ThirdState(v1, v2, app).latest
  {
  }

  lemma UpToDateAgain(v1: string, v2: string, app: string) returns (r: Report)
    requires Example(v1, v2, app)
    ensures Ran(ThirdState(v1, v2, app), ThirdState(v1, v2, app), v1, OneAsset(app)(v1), Identity, r)
    ensures r.outcome.UpToDate?
  {
    r := Report(UpToDate, Untouched, Some(v1), map[], []);
    ExampleStates(v1, v2, app);
  }

  lemma RepeatedUpgrade(v1: string, v2: string, app: string) returns (r: Report)
    requires Example(v1, v2, app)
    ensures Ran(ThirdState(v1, v2, app), FourthState(v1, v2, app), v2, OneAsset(app)(v2), Identity, r)
    ensures r.outcome.Installed? && r.mark == Some(v1)
  {
    r := Report(Installed, Marked, Some(v1), map[app := 3], [v2]);
    ExampleStaged(app, v2, 3, FourthState(v1, v2, app).inodes);
    ExampleStates(v1, v2, app);
    RepeatedShape(v1, v2, app, r);
  }

  lemma RepeatedShape(v1: string, v2: string, app: string, r: Report)
    requires Example(v1, v2, app) && r.progress.Marked? && r.st == map[app := 3] && r.mark == Some(v1)
    ensures var t, u := ThirdState(v1, v2, app), FourthState(v1, v2, app); Shape(t.latest, u.latest, u.inodes, v2, r)
  {
    assert Replaced(ThirdState(v1, v2, app).latest, r.st, r.mark) == map[app := 3];
  }

  /**
   A normal end that is wrong: an upgrade crashes between the renames, the old tag becomes the
   latest one again, and the next run calls it up to date with a file of the other release.
   */
  lemma GoingBackFails(v1: string, v2: string, app: string) returns (states: seq<Fs>, events: seq<Event>)
    requires Example(v1, v2, app)
    ensures Runs(states, events, Identity, OneAsset(app)) && Distinguishable(OneAsset(app), Identity) && |events| == 3
    ensures events[2].report.outcome.UpToDate? && states[3].Valid()
    ensures !Complete(states[3].latest, states[3].inodes, events[2].assets, Identity)
  {
    var a := FirstInstall(v1, app);
    var b := CrashedUpgrade(v1, v2, app);
    var c := UpToDateAgain(v1, v2, app);
    var last, release := ThirdState(v1, v2, app), OneAsset(app);
    states := [FirstState(), SecondState(v1, app), last, last];
    events := [Event(v1, release(v1), a), Event(v2, release(v2), b), Event(v1, release(v1), c)];
    ThreeRuns(states, events, app);
    TagsTellApart(app);
    OtherContent(app, v1, v2);
  }

  /**
   A rollback that does not roll back: an upgrade crashes between the renames and the next run
   repeats it. The tag never goes back, yet the backup holds a file of the new release.
   */
  lemma RollbackFails(v1: string, v2: string, app: string) returns (states: seq<Fs>, events: seq<Event>)
    requires Example(v1, v2, app)
    ensures Runs(states, events, Identity, OneAsset(app)) && NeverGoesBack(events, states[0]) && |events| == 3
    ensures events[2].report.outcome.Installed? && events[2].report.mark == Some(v1) && v1 in states[3].previous
    ensures var back := Rollback(states[3], v1);
            ValidDir(back.latest, back.inodes) && !Complete(back.latest, back.inodes, OneAsset(app)(v1), Identity)
  {
    var a := FirstInstall(v1, app);
    var b := CrashedUpgrade(v1, v2, app);
    var c := RepeatedUpgrade(v1, v2, app);
    var release := OneAsset(app);
    states := [FirstState(), SecondState(v1, app), ThirdState(v1, v2, app), FourthState(v1, v2, app)];
    events := [Event(v1, release(v1), a), Event(v2, release(v2), b), Event(v2, release(v2), c)];
    ThreeRuns(states, events, app);
    NoReturn(events, states[0]);
    MixedBackup(v1, v2, app);
  }

  lemma NoReturn(events: seq<Event>, start: Fs)
    requires |events| == 3 && events[0].tag != events[1].tag == events[2].tag && start.latest == map[]
    ensures NeverGoesBack(events, start)
  {
  }

  lemma MixedBackup(v1: string, v2: string, app: string)
    requires Example(v1, v2, app)
    ensures var back := Rollback(FourthState(v1, v2, app), v1);
            ValidDir(back.latest, back.inodes) && !Complete(back.latest, back.inodes, OneAsset(app)(v1), Identity)
  {
    ExampleStates(v1, v2, app);
    OtherContent(app, v1, v2);
  }

  lemma ThreeRuns(states: seq<Fs>, events: seq<Event>, app: string)
    requires |states| == 4 && |events| == 3 && states[0] == FirstState() && !MarkerName(app)
    requires RanAt(states, events, Identity, 0) && RanAt(states, events, Identity, 1)
    requires RanAt(states, events, Identity, 2)
    requires forall i :: 0 <= i < 3 ==> events[i].assets == OneAsset(app)(events[i].tag)
    ensures Runs(states, events, Identity, OneAsset(app))
  {
    assert Markers(FirstState().latest, FirstState().inodes) == {};
  }

  lemma TagsTellApart(app: string)
    ensures Distinguishable(OneAsset(app), Identity)
  {
    forall t, n, c | Matches(n, c, OneAsset(app)(t), Identity)
      ensures c == t
    {
    }
  }

  lemma OtherContent(app: string, v1: string, v2: string)
    requires v1 != v2
    ensures OneAsset(app)(v1)[0].name == app && !Matches(app, v2, OneAsset(app)(v1), Identity)
  {
  }
}
