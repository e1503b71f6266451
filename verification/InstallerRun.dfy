/** One run of the installer, and what it promises for every point at which it may stop. */
module InstallerRun {
  import opened Prelude
  import opened InstallerScript

  datatype Outcome = Crashed | Died | UpToDate | Installed

  /** How far the run got with the `latest` directory. */
  datatype Progress = Untouched | Moving(done: set<string>) | Unmarked | Marked

  /** The marker the run found, the files it staged and what it downloaded. */
  datatype Report = Report(outcome: Outcome, progress: Progress, mark: Option<string>, st: Dir, got: seq<Content>)

  /** `latest` after the staged files named in `done` were renamed into it. */
  function Overlay(latest: Dir, st: Dir, done: set<string>): Dir {
    latest + map n | n in st && n in done :: st[n]
  }

  /** `latest` after all renames and without the old marker. */
  function Replaced(latest: Dir, st: Dir, mark: Option<string>): Dir {
    if mark.Some? then (latest + st) - {mark.value} else latest + st
  }

  function BackupName(mark: Option<string>): string {
    if mark.Some? then mark.value else "unknown"
  }

  /** The `latest` directory at each stage, in terms of the one the run started from. */
  ghost predicate Shape(latest0: Dir, latest: Dir, inodes: map<Inode, Content>, tag: string, r: Report) {
    match r.progress
    case Untouched => latest == latest0
    case Moving(done) => done <= r.st.Keys && latest == Overlay(latest0, r.st, done)
    case Unmarked => latest == Replaced(latest0, r.st, r.mark)
    case Marked => Touched(Replaced(latest0, r.st, r.mark), latest, inodes, tag)
  }

  /** touch: an existing file keeps its inode, otherwise an empty file appears. */
  ghost predicate Touched(before: Dir, after: Dir, inodes: map<Inode, Content>, tag: string) {
    if tag in before then after == before
    else tag in after && after == before[tag := after[tag]] && after[tag] in inodes && inodes[after[tag]] == ""
  }

  /** The marker picked by the run, if there is one. */
  ghost predicate FoundMarker(fs: Fs, mark: Option<string>)
    requires fs.Valid()
  {
    if mark.None? then Markers(fs.latest, fs.inodes) == {} else mark.value in Markers(fs.latest, fs.inodes)
  }

  /** What one run may do to the base directory, wherever it stops. */
  ghost predicate Ran(fs0: Fs, fs: Fs, tag: string, assets: seq<Asset>, sha: Content -> string, r: Report) {
    && fs0.Valid() && fs.Valid() && Grows(fs0.inodes, fs.inodes)
    && FoundMarker(fs0, r.mark)
    && Shape(fs0.latest, fs.latest, fs.inodes, tag, r)
    && (!r.progress.Untouched? ==>
          TagOk(tag) && r.mark != Some(tag) && Verified(assets, r.got, sha) && Staged(r.st, fs.inodes, assets, r.got))
    && BacksUp(fs0, fs, r)
    && fs.staging - {tag} == fs0.staging - {tag}
    && (r.outcome.UpToDate? ==> fs == fs0 && r.mark == Some(tag))
    && (r.outcome.Died? ==> r.progress.Untouched? && fs.previous == fs0.previous && (fs == fs0 || tag !in fs.staging))
    && (r.outcome.Installed? ==> r.progress.Marked? && tag !in fs.staging)
  }

  /**
   The backups wherever the run stops. Before `latest` is touched, the old directory is there as the
   only backup; until the new backup is whole, the others are.
   */
  ghost predicate BacksUp(fs0: Fs, fs: Fs, r: Report) {
    && (!r.progress.Untouched? ==> fs.previous == map[BackupName(r.mark) := fs0.latest])
    && (forall k :: k in fs.previous ==>
          (k == BackupName(r.mark) && Within(fs.previous[k], fs0.latest)) || WithinOld(fs0, fs, k))
    && (WholeBackup(fs0, fs, r) || forall k :: k in fs0.previous && k != BackupName(r.mark) ==>
          k in fs.previous && fs.previous[k] == fs0.previous[k])
  }

  ghost predicate WithinOld(fs0: Fs, fs: Fs, k: string)
    requires k in fs.previous
  {
    k in fs0.previous && Within(fs.previous[k], fs0.previous[k])
  }

  ghost predicate WholeBackup(fs0: Fs, fs: Fs, r: Report) {
    BackupName(r.mark) in fs.previous && fs.previous[BackupName(r.mark)] == fs0.latest
  }

  lemma GrowsKeepsDirs(dirs: map<string, Dir>, inodes: map<Inode, Content>, more: map<Inode, Content>)
    requires ValidDirs(dirs, inodes) && Grows(inodes, more)
    ensures ValidDirs(dirs, more)
  {
  }

  lemma OverlayNothing(latest: Dir, st: Dir)
    ensures Overlay(latest, st, {}) == latest
  {
  }

  lemma OverlayOne(latest: Dir, st: Dir, done: set<string>, n: string)
    requires n in st
    ensures Overlay(latest, st, done + {n}) == Overlay(latest, st, done)[n := st[n]]
  {
  }

  /** mv -f: one rename per file, in some order. */
  method MoveIn(latest0: Dir, st: Dir, budget: Budget)
    returns (latest: Dir, done: set<string>, left: Budget, alive: bool)
    ensures done <= st.Keys && latest == Overlay(latest0, st, done)
    ensures alive ==> done == st.Keys
    ensures Paid(budget, left, |done|, alive)
  {
    latest, done, left := latest0, {}, budget;
    OverlayNothing(latest0, st);
    var todo := st.Keys;
    while todo != {}
      invariant todo <= st.Keys && done == st.Keys - todo
      invariant latest == Overlay(latest0, st, done)
      invariant Paid(budget, left, |done|, true)
      decreases |todo|
    {
      if Out(left) {
        return latest, done, left, false;
      }
      left := Spend(left);
      var n :| n in todo;
      OverlayOne(latest0, st, done, n);
      OneRename(st.Keys, done, todo, n);
      latest, done, todo := latest[n := st[n]], done + {n}, todo - {n};
    }
    return latest, done, left, true;
  }

  lemma OneRename(all: set<string>, done: set<string>, todo: set<string>, n: string)
    requires n in todo && todo <= all && done == all - todo
    ensures done + {n} == all - (todo - {n}) && |done + {n}| == |done| + 1
  {
  }

  lemma NotMore(a: set<string>, b: set<string>)
    requires a <= b
    ensures |a| <= |b|
  {
    assert b == a + (b - a);
  }

  /** How far the swap gets with so many operations: renames, the old marker, the new one. */
  ghost predicate GetsTo(progress: Progress, files: nat, mark: Option<string>, operations: nat) {
    match progress
    case Untouched => false
    case Moving(done) => operations <= files && |done| == operations
    case Unmarked => mark.Some? && operations == files + 1
    case Marked => operations > if mark.Some? then files + 1 else files
  }

  /** Renames, removal of the old marker and creation of the new one, as far as the budget goes. */
  method Swap(latest0: Dir, inodes0: map<Inode, Content>, st: Dir, mark: Option<string>, tag: string, got: seq<Content>,
              budget: Budget)
    returns (latest: Dir, inodes: map<Inode, Content>, rest: Dir, progress: Progress, left: Budget)
    requires ValidDir(latest0, inodes0) && ValidDir(st, inodes0)
    ensures Grows(inodes0, inodes) && ValidDir(latest, inodes) && ValidDir(rest, inodes)
    ensures Shape(latest0, latest, inodes, tag, Report(Crashed, progress, mark, st, got)) && !progress.Untouched?
    ensures budget.None? ==> progress.Marked? && left.None?
    ensures budget.Some? ==> GetsTo(progress, |st|, mark, budget.value)
  {
    var done, alive;
    latest, done, left, alive := MoveIn(latest0, st, budget);
    inodes, rest, progress := inodes0, st - done, Moving(done);
    NotMore(done, st.Keys);
    RestValid(st, done, inodes0);
    if alive && !Out(left) {
      AllMoved(latest0, st);
      latest, inodes, progress, left := Remark(latest, inodes, mark, tag, left);
      ghost var r := Report(Crashed, progress, mark, st, got);
      assert Shape(latest0, latest, inodes, tag, r);
    } else {
      MovedValid(latest0, st, done, inodes0);
    }
    assert |st.Keys| == |st|;
  }

  lemma AllMoved(latest: Dir, st: Dir)
    ensures Overlay(latest, st, st.Keys) == latest + st
  {
  }

  lemma RestValid(st: Dir, done: set<string>, inodes: map<Inode, Content>)
    requires ValidDir(st, inodes)
    ensures ValidDir(st - done, inodes)
  {
  }

  lemma MovedValid(latest: Dir, st: Dir, done: set<string>, inodes: map<Inode, Content>)
    requires ValidDir(latest, inodes) && ValidDir(st, inodes)
    ensures ValidDir(Overlay(latest, st, done), inodes)
  {
  }

  /** Removal of the old marker, if there is one, and creation of the new one. */
  method Remark(latest0: Dir, inodes0: map<Inode, Content>, mark: Option<string>, tag: string, budget: Budget)
    returns (latest: Dir, inodes: map<Inode, Content>, progress: Progress, left: Budget)
    requires ValidDir(latest0, inodes0) && !Out(budget)
    ensures Grows(inodes0, inodes) && ValidDir(latest, inodes) && (progress.Unmarked? || progress.Marked?)
    ensures var cleared := if mark.Some? then latest0 - {mark.value} else latest0;
            if progress.Unmarked? then mark.Some? && latest == cleared else Touched(cleared, latest, inodes, tag)
    ensures budget.None? ==> progress.Marked? && left.None?
    ensures budget.Some? ==> (progress.Unmarked? <==> mark.Some? && budget.value == 1)
  {
    latest, inodes, left := latest0, inodes0, budget;
    if mark.Some? {
      left := Spend(left);
      latest := latest - {mark.value};
      if Out(left) {
        return latest, inodes, Unmarked, left;
      }
    }
    left := Spend(left);
    if tag !in latest {
      var ino := FreshInode(inodes);
      inodes := inodes[ino := ""];
      latest := latest[tag := ino];
    }
    progress := Marked;
  }

  /** Backup of `latest` and removal of all other backups. */
  method BackUp(latest: Dir, previous0: map<string, Dir>, key: string, budget: Budget)
    returns (previous: map<string, Dir>, left: Budget, alive: bool)
    ensures alive ==> previous == map[key := latest]
    ensures forall k :: k in previous ==>
              (k == key && Within(previous[k], latest)) || (k in previous0 && Within(previous[k], previous0[k]))
    ensures (key in previous && previous[key] == latest)
            || forall k :: k in previous0 && k != key ==> k in previous && previous[k] == previous0[k]
    ensures budget.None? ==> alive && left.None?
  {
    previous, left, alive := RemoveTree(previous0, key, budget);
    if alive {
      previous, left, alive := LinkTree(previous, key, latest, left);
      if alive {
        previous, left, alive := RemoveOthers(previous, key, left);
      }
    }
  }

  lemma BackupsValid(latest: Dir, previous0: map<string, Dir>, previous: map<string, Dir>, inodes: map<Inode, Content>)
    requires ValidDir(latest, inodes) && ValidDirs(previous0, inodes)
    requires forall k :: k in previous ==>
               Within(previous[k], latest) || (k in previous0 && Within(previous[k], previous0[k]))
    ensures ValidDirs(previous, inodes)
  {
    forall k | k in previous
      ensures ValidDir(previous[k], inodes)
    {
      if Within(previous[k], latest) {
      } else {
        assert ValidDir(previous0[k], inodes);
      }
    }
  }

  lemma ShrunkValid(dirs0: map<string, Dir>, dirs: map<string, Dir>, key: string, inodes: map<Inode, Content>)
    requires ValidDirs(dirs0, inodes) && (dirs == dirs0 - {key} || Shrunk(dirs0, dirs, key))
    ensures ValidDirs(dirs, inodes)
  {
    forall k | k in dirs
      ensures ValidDir(dirs[k], inodes)
    {
      assert ValidDir(dirs0[k], inodes);
    }
  }

  /** The EXIT trap: whatever is left of the staging directory goes. */
  method CleanUp(fs0: Fs, tag: string, budget: Budget) returns (fs: Fs, left: Budget, alive: bool)
    requires fs0.Valid()
    ensures fs.Valid() && fs == fs0.(staging := fs.staging) && fs.staging - {tag} == fs0.staging - {tag}
    ensures alive ==> tag !in fs.staging
    ensures budget.None? ==> alive && left.None?
  {
    var staging;
    staging, left, alive := RemoveTree(fs0.staging, tag, budget);
    ShrunkValid(fs0.staging, staging, tag, fs0.inodes);
    fs := fs0.(staging := staging);
  }

  /** Empties the staging directory and fills it with verified downloads. */
  method Stage(fs0: Fs, tag: string, assets: seq<Asset>, net: nat -> Fetch, sha: Content -> string, budget: Budget)
    returns (fs: Fs, st: Dir, got: seq<Content>, left: Budget, result: Staging)
    requires fs0.Valid()
    ensures fs.Valid() && Grows(fs0.inodes, fs.inodes) && fs.latest == fs0.latest && fs.previous == fs0.previous
    ensures fs.staging - {tag} == fs0.staging - {tag}
    ensures result.Ready? ==> Verified(assets, got, sha) && Staged(st, fs.inodes, assets, got)
    ensures result.Halted? <==> !result.Dead? && exists i :: 0 <= i < |assets| && Faulty(assets[i], net(i), sha)
    ensures budget.None? ==> !result.Dead? && left.None?
  {
    var alive;
    fs, left, alive := CleanUp(fs0, tag, budget);
    st, got := map[], [];
    if !alive || Out(left) {
      return fs, st, got, left, Dead;
    }
    left := Spend(left);
    var inodes;
    inodes, st, got, left, result := Download(fs.inodes, assets, net, sha, left);
    GrowsKeepsDirs(fs.previous, fs.inodes, inodes);
    GrowsKeepsDirs(fs.staging, fs.inodes, inodes);
    assert ValidDir(st, inodes);
    fs := Fs(inodes, fs.latest, fs.previous, fs.staging[tag := st]);
  }

  /**
   The whole script. A run without a crash ends as up to date, dies for a reason that lies in
   the release or the downloads, or installs. `newest` stands for `sort -V | tail -n 1`.
   */
  method Install(fs0: Fs, tag: string, assets: seq<Asset>, net: nat -> Fetch, sha: Content -> string,
                 newest: set<string> -> string, crash: Budget)
    returns (fs: Fs, r: Report)
    requires fs0.Valid() && forall names :: names != {} ==> newest(names) in names
    ensures Ran(fs0, fs, tag, assets, sha, r)
    ensures r.mark.Some? ==> r.mark.value == newest(Markers(fs0.latest, fs0.inodes))
    ensures crash.None? ==> !r.outcome.Crashed?
    ensures r.outcome.Died? ==>
              !WellTagged(tag) || assets == [] || exists i :: 0 <= i < |assets| && Faulty(assets[i], net(i), sha)
    ensures r.outcome.Installed? ==> forall i :: 0 <= i < |assets| ==> !Faulty(assets[i], net(i), sha)
    ensures r.outcome.UpToDate? <==> WellTagged(tag) && assets != [] && r.mark == Some(tag)
    ensures !WellTagged(tag) || assets == [] ==> r.outcome.Died? && fs == fs0
  {
    TagIff(tag);
    fs := fs0;
    var markers := Markers(fs.latest, fs.inodes);
    var mark := None;
    if markers != {} {
      mark := Some(newest(markers));
    }
    r := Report(Died, Untouched, mark, map[], []);
    if !TagOk(tag) || assets == [] {
      return;
    }
    if mark == Some(tag) {
      r := r.(outcome := UpToDate);
      return;
    }
    fs, r := Upgrade(fs0, tag, assets, net, sha, mark, crash);
  }

  /** Everything after the decision that the tag is new. */
  method Upgrade(fs0: Fs, tag: string, assets: seq<Asset>, net: nat -> Fetch, sha: Content -> string,
                 mark: Option<string>,
                 crash: Budget)
    returns (fs: Fs, r: Report)
    requires fs0.Valid() && FoundMarker(fs0, mark) && TagOk(tag) && mark != Some(tag)
    ensures Ran(fs0, fs, tag, assets, sha, r) && r.mark == mark && !r.outcome.UpToDate?
    ensures crash.None? ==> !r.outcome.Crashed?
    ensures r.outcome.Died? ==> exists i :: 0 <= i < |assets| && Faulty(assets[i], net(i), sha)
    ensures r.outcome.Installed? ==> forall i :: 0 <= i < |assets| ==> !Faulty(assets[i], net(i), sha)
  {
    var st, got, left, result;
    fs, st, got, left, result := Stage(fs0, tag, assets, net, sha, crash);
    r := Report(Crashed, Untouched, mark, map[], []);
    if result.Dead? {
      return;
    }
    if result.Halted? {
      var alive;
      fs, left, alive := CleanUp(fs, tag, left);
      if alive {
        r := r.(outcome := Died);
      }
      return;
    }
    fs, r := Replace(fs0, fs, st, got, mark, tag, assets, sha, left);
  }

  /** Everything after the downloads were checked. */
  method Replace(ghost fs0: Fs, fs1: Fs, st: Dir, got: seq<Content>, mark: Option<string>, tag: string,
                 ghost assets: seq<Asset>,
                 ghost sha: Content -> string, budget: Budget)
    returns (fs: Fs, r: Report)
    requires fs0.Valid() && fs1.Valid() && Grows(fs0.inodes, fs1.inodes) && fs1.latest == fs0.latest
    requires fs1.previous == fs0.previous && fs1.staging - {tag} == fs0.staging - {tag}
    requires FoundMarker(fs0, mark) && TagOk(tag) && mark != Some(tag)
    requires Verified(assets, got, sha) && Staged(st, fs1.inodes, assets, got)
    ensures Ran(fs0, fs, tag, assets, sha, r)
    ensures (r.outcome == Crashed || r.outcome == Installed) && r.mark == mark
    ensures budget.None? ==> r.outcome == Installed
  {
    var previous, left, alive := BackUp(fs1.latest, fs1.previous, BackupName(mark), budget);
    BackupsValid(fs1.latest, fs1.previous, previous, fs1.inodes);
    fs := fs1.(previous := previous);
    if alive {
      fs, r := Exchange(fs0, fs, st, got, mark, tag, assets, sha, left);
    } else {
      r := Report(Crashed, Untouched, mark, st, got);
    }
  }

  /** Everything after the backup is whole. */
  method Exchange(ghost fs0: Fs, fs1: Fs, st: Dir, got: seq<Content>, mark: Option<string>, tag: string,
                  ghost assets: seq<Asset>, ghost sha: Content -> string, budget: Budget)
    returns (fs: Fs, r: Report)
    requires fs0.Valid() && fs1.Valid() && Grows(fs0.inodes, fs1.inodes) && fs1.latest == fs0.latest
    requires fs1.previous == map[BackupName(mark) := fs0.latest] && fs1.staging - {tag} == fs0.staging - {tag}
    requires FoundMarker(fs0, mark) && TagOk(tag) && mark != Some(tag)
    requires Verified(assets, got, sha) && Staged(st, fs1.inodes, assets, got)
    ensures Ran(fs0, fs, tag, assets, sha, r)
    ensures (r.outcome == Crashed || r.outcome == Installed) && r.mark == mark
    ensures budget.None? ==> r.outcome == Installed
  {
    var latest, inodes, rest, progress, left;
    assert ValidDir(st, fs1.inodes);
    latest, inodes, rest, progress, left := Swap(fs1.latest, fs1.inodes, st, mark, tag, got, budget);
    Regrow(fs1, fs0, inodes, st, assets, got, rest, tag);
    fs := Fs(inodes, latest, fs1.previous, fs1.staging[tag := rest]);
    r := Report(Crashed, progress, mark, st, got);
    StagingKept(fs1.staging, tag, rest);
    WholeBacksUp(fs0, fs, r);
    assert Ran(fs0, fs, tag, assets, sha, r);
    if progress.Marked? {
      ghost var marked, before := fs, r;
      var alive;
      fs, left, alive := CleanUp(fs, tag, left);
      if alive {
        r := r.(outcome := Installed);
      }
      StillRan(fs0, marked, fs, tag, assets, sha, before, r);
    }
  }

  lemma StagingKept(staging: map<string, Dir>, tag: string, d: Dir)
    ensures staging[tag := d] - {tag} == staging - {tag}
  {
  }

  lemma WholeBacksUp(fs0: Fs, fs: Fs, r: Report)
    requires fs.previous == map[BackupName(r.mark) := fs0.latest]
    ensures BacksUp(fs0, fs, r)
  {
  }

  /** Cleaning up after the new marker is set. */
  lemma StillRan(fs0: Fs, fs1: Fs, fs: Fs, tag: string, assets: seq<Asset>, sha: Content -> string, r1: Report,
                 r: Report)
    requires Ran(fs0, fs1, tag, assets, sha, r1) && r1.outcome.Crashed? && r1.progress.Marked?
    requires fs.Valid() && fs == fs1.(staging := fs.staging) && fs.staging - {tag} == fs1.staging - {tag}
    requires r == r1 || (r == r1.(outcome := Installed) && tag !in fs.staging)
    ensures Ran(fs0, fs, tag, assets, sha, r)
  {
  }

  lemma Regrow(fs: Fs, fs0: Fs, inodes: map<Inode, Content>, st: Dir, assets: seq<Asset>, got: seq<Content>, rest: Dir,
               tag: string)
    requires fs.Valid() && Grows(fs0.inodes, fs.inodes) && Grows(fs.inodes, inodes)
    requires Staged(st, fs.inodes, assets, got)
    requires ValidDir(rest, inodes)
    ensures Grows(fs0.inodes, inodes) && Staged(st, inodes, assets, got)
    ensures ValidDirs(fs.previous, inodes) && ValidDirs(fs.staging[tag := rest], inodes)
  {
    GrowsKeepsDirs(fs.previous, fs.inodes, inodes);
    GrowsKeepsDirs(fs.staging, fs.inodes, inodes);
  }
}
