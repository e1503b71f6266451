/** Where the files of `latest` come from, when a completed run leaves a whole release, and the rollback. */
module InstallerTheorems {
  import opened Prelude
  import opened InstallerScript
  import opened InstallerRun

  /** One call of the script: the release it saw and how it went. */
  datatype Event = Event(tag: string, assets: seq<Asset>, report: Report)

  /** Runs one after the other; a lock keeps them from overlapping. */
  ghost predicate History(states: seq<Fs>, events: seq<Event>, sha: Content -> string) {
    && |states| == |events| + 1 && states[0].Valid()
    && forall i :: 0 <= i < |events| ==> RanAt(states, events, sha, i)
  }

  ghost predicate RanAt(states: seq<Fs>, events: seq<Event>, sha: Content -> string, i: nat)
    requires i < |events| < |states|
  {
    Ran(states[i], states[i + 1], events[i].tag, events[i].assets, sha, events[i].report)
  }

  /** The content a name has in a directory. */
  function View(d: Dir, inodes: map<Inode, Content>): map<string, Content>
    requires forall n :: n in d ==> d[n] in inodes
  {
    map n | n in d :: inodes[d[n]]
  }

  lemma ViewGrows(d: Dir, inodes: map<Inode, Content>, more: map<Inode, Content>)
    requires ValidDir(d, inodes) && Grows(inodes, more)
    ensures ValidDir(d, more) && View(d, more) == View(d, inodes) && Markers(d, more) == Markers(d, inodes)
  {
  }

  // ---------------------------------------------------------------- one run

  /** Where an entry of `latest` comes from. */
  lemma EntryOrigin(fs0: Fs, fs: Fs, tag: string, assets: seq<Asset>, sha: Content -> string, r: Report, n: string)
    requires Ran(fs0, fs, tag, assets, sha, r) && n in fs.latest
    ensures || (n in fs0.latest && fs.latest[n] == fs0.latest[n])
            || (!r.progress.Untouched? && n in r.st && fs.latest[n] == r.st[n])
            || (n == tag && TagOk(tag) && fs.inodes[fs.latest[n]] == "")
  {
  }

  /** No name disappears from `latest` at any point of any run, except the old marker. */
  lemma NamesStay(fs0: Fs, fs: Fs, tag: string, assets: seq<Asset>, sha: Content -> string, r: Report, n: string)
    requires Ran(fs0, fs, tag, assets, sha, r) && n in fs0.latest
    ensures n in fs.latest || r.mark == Some(n)
  {
  }

  /** The content is a download from a run whose downloads all matched their digests. */
  ghost predicate FromVerified(e: Event, sha: Content -> string, n: string, c: Content) {
    Verified(e.assets, e.report.got, sha) && Downloaded(n, c, e.assets, e.report.got)
  }

  /** The file was there at the start, is a marker, or came from a release that verified in full. */
  ghost predicate Trusted(states: seq<Fs>, events: seq<Event>, sha: Content -> string, k: nat, n: string)
    requires k < |states| && k <= |events| && n in states[k].latest && states[0].Valid() && states[k].Valid()
  {
    var c := states[k].inodes[states[k].latest[n]];
    || (n in states[0].latest && c == states[0].inodes[states[0].latest[n]])
    || (MarkerName(n) && c == "")
    || exists j :: 0 <= j < k && FromVerified(events[j], sha, n, c)
  }

  lemma HistoryValid(states: seq<Fs>, events: seq<Event>, sha: Content -> string, k: nat)
    requires History(states, events, sha) && k < |states|
    ensures states[k].Valid()
  {
    if k > 0 {
      assert RanAt(states, events, sha, k - 1);
    }
  }

  /**
   Over every history with crashes between any two file operations, no file is in `latest`
   unless every asset of its release matched its digest.
   */
  lemma {:induction false} OnlyVerifiedFiles(states: seq<Fs>, events: seq<Event>, sha: Content -> string, k: nat,
                                             n: string)
    requires History(states, events, sha) && k < |states| && states[k].Valid() && n in states[k].latest
    ensures Trusted(states, events, sha, k, n)
  {
    if k > 0 {
      var e := events[k - 1];
      assert RanAt(states, events, sha, k - 1);
      HistoryValid(states, events, sha, k - 1);
      EntryOrigin(states[k - 1], states[k], e.tag, e.assets, sha, e.report, n);
      if n in states[k - 1].latest && states[k].latest[n] == states[k - 1].latest[n] {
        OnlyVerifiedFiles(states, events, sha, k - 1, n);
      } else if !e.report.progress.Untouched? && n in e.report.st && states[k].latest[n] == e.report.st[n] {
        assert FromVerified(events[k - 1], sha, n, states[k].inodes[states[k].latest[n]]);
      }
    }
  }

  // ---------------------------------------------------------------- a completed run

  /** Every asset is in `latest`, with content that matches the digest of an asset of that name. */
  ghost predicate Complete(latest: Dir, inodes: map<Inode, Content>, assets: seq<Asset>, sha: Content -> string)
    requires ValidDir(latest, inodes)
  {
    forall i :: 0 <= i < |assets| ==>
        assets[i].name in latest && Matches(assets[i].name, inodes[latest[assets[i].name]], assets, sha)
  }

  ghost predicate Matches(name: string, c: Content, assets: seq<Asset>, sha: Content -> string) {
    exists j :: 0 <= j < |assets| && assets[j].name == name && assets[j].digest == Some(sha(c))
  }

  /** No staged file takes the place of a marker. */
  ghost predicate HarmlessFiles(st: Dir, inodes: map<Inode, Content>, mark: Option<string>, tag: string)
    requires ValidDir(st, inodes)
  {
    forall n :: n in st ==> mark != Some(n) && (MarkerName(n) ==> (inodes[st[n]] == "" <==> n == tag))
  }

  /** An old file named like the tag is empty or replaced, and so are the markers that the run did not pick. */
  ghost predicate HarmlessOld(fs0: Fs, names: set<string>, mark: Option<string>, tag: string)
    requires fs0.Valid()
  {
    && (tag in fs0.latest ==> tag in names || fs0.inodes[fs0.latest[tag]] == "")
    && (forall m :: m in Markers(fs0.latest, fs0.inodes) ==> mark == Some(m) || m == tag || m in names)
  }

  ghost predicate Harmless(fs0: Fs, st: Dir, inodes: map<Inode, Content>, mark: Option<string>, tag: string)
    requires fs0.Valid() && ValidDir(st, inodes)
  {
    HarmlessFiles(st, inodes, mark, tag) && HarmlessOld(fs0, st.Keys, mark, tag)
  }

  lemma StagedMatches(fs: Fs, assets: seq<Asset>, sha: Content -> string, r: Report, n: string)
    requires Verified(assets, r.got, sha) && Staged(r.st, fs.inodes, assets, r.got) && n in r.st
    ensures r.st[n] in fs.inodes && Matches(n, fs.inodes[r.st[n]], assets, sha)
  {
    assert Downloaded(n, fs.inodes[r.st[n]], assets, r.got);
    var i :| 0 <= i < |r.got| && assets[i].name == n && r.got[i] == fs.inodes[r.st[n]];
    assert assets[i].digest == Some(sha(r.got[i]));
  }

  lemma StagedNamed(fs: Fs, assets: seq<Asset>, r: Report, n: string) returns (i: nat)
    requires Staged(r.st, fs.inodes, assets, r.got) && n in r.st
    ensures i < |assets| && assets[i].name == n
  {
    assert Downloaded(n, fs.inodes[r.st[n]], assets, r.got);
    i :| 0 <= i < |r.got| && assets[i].name == n && r.got[i] == fs.inodes[r.st[n]];
  }

  lemma HarmlessCompletes(fs0: Fs, fs: Fs, tag: string, assets: seq<Asset>, sha: Content -> string, r: Report)
    requires Ran(fs0, fs, tag, assets, sha, r) && r.progress.Marked?
    requires HarmlessFiles(r.st, fs.inodes, r.mark, tag)
    ensures Complete(fs.latest, fs.inodes, assets, sha)
  {
    forall i | 0 <= i < |assets|
      ensures assets[i].name in fs.latest && Matches(assets[i].name, fs.inodes[fs.latest[assets[i].name]], assets, sha)
    {
      StagedMatches(fs, assets, sha, r, assets[i].name);
      assert fs.latest[assets[i].name] == r.st[assets[i].name];
    }
  }

  lemma HarmlessMarks(fs0: Fs, fs: Fs, tag: string, assets: seq<Asset>, sha: Content -> string, r: Report)
    requires Ran(fs0, fs, tag, assets, sha, r) && r.progress.Marked?
    requires Harmless(fs0, r.st, fs.inodes, r.mark, tag)
    ensures Markers(fs.latest, fs.inodes) == {tag}
  {
    forall n | n in Markers(fs.latest, fs.inodes)
      ensures n == tag
    {
      MarkOrigin(fs0, fs, tag, assets, sha, r, n);
    }
    assert tag in fs.latest && fs.inodes[fs.latest[tag]] == "";
  }

  /** A marker is the tag, staged, or an old one that the run did not pick. */
  lemma MarkOrigin(fs0: Fs, fs: Fs, tag: string, assets: seq<Asset>, sha: Content -> string, r: Report, n: string)
    requires Ran(fs0, fs, tag, assets, sha, r) && r.progress.Marked? && n in Markers(fs.latest, fs.inodes)
    ensures || n == tag
            || (n in r.st && fs.latest[n] == r.st[n])
            || (n in Markers(fs0.latest, fs0.inodes) && n !in r.st && r.mark != Some(n))
  {
    EntryOrigin(fs0, fs, tag, assets, sha, r, n);
  }

  /**
   A completed run leaves every asset and exactly the new marker if and only if no name of the
   release gets in the markers' way and no other old marker is left.
   */
  lemma InstalledIffHarmless(fs0: Fs, fs: Fs, tag: string, assets: seq<Asset>, sha: Content -> string, r: Report)
    requires Ran(fs0, fs, tag, assets, sha, r) && r.outcome.Installed?
    ensures (Complete(fs.latest, fs.inodes, assets, sha) && Markers(fs.latest, fs.inodes) == {tag})
            <==> Harmless(fs0, r.st, fs.inodes, r.mark, tag)
  {
    if Harmless(fs0, r.st, fs.inodes, r.mark, tag) {
      HarmlessCompletes(fs0, fs, tag, assets, sha, r);
      HarmlessMarks(fs0, fs, tag, assets, sha, r);
    }
    if Complete(fs.latest, fs.inodes, assets, sha) && Markers(fs.latest, fs.inodes) == {tag} {
      forall n | n in r.st
        ensures r.mark != Some(n) && (MarkerName(n) ==> (fs.inodes[r.st[n]] == "" <==> n == tag))
      {
        InstalledIsHarmless(fs0, fs, tag, assets, sha, r, n);
      }
      OldIsHarmless(fs0, fs, tag, assets, sha, r);
    }
  }

  lemma InstalledIsHarmless(fs0: Fs, fs: Fs, tag: string, assets: seq<Asset>, sha: Content -> string, r: Report,
                            n: string)
    requires Ran(fs0, fs, tag, assets, sha, r) && r.progress.Marked? && n in r.st
    requires Complete(fs.latest, fs.inodes, assets, sha) && Markers(fs.latest, fs.inodes) == {tag}
    ensures r.mark != Some(n) && (MarkerName(n) ==> (fs.inodes[r.st[n]] == "" <==> n == tag))
  {
    var i := StagedNamed(fs, assets, r, n);
    assert fs.latest[n] == r.st[n];
    assert MarkerName(n) && fs.inodes[fs.latest[n]] == "" ==> n in Markers(fs.latest, fs.inodes);
    assert tag in Markers(fs.latest, fs.inodes);
  }

  lemma OldIsHarmless(fs0: Fs, fs: Fs, tag: string, assets: seq<Asset>, sha: Content -> string, r: Report)
    requires Ran(fs0, fs, tag, assets, sha, r) && r.progress.Marked? && Markers(fs.latest, fs.inodes) == {tag}
    ensures HarmlessOld(fs0, r.st.Keys, r.mark, tag)
  {
    assert tag in Markers(fs.latest, fs.inodes);
    forall m | m in Markers(fs0.latest, fs0.inodes) && r.mark != Some(m) && m !in r.st
      ensures m == tag
    {
      assert m in fs.latest && fs.latest[m] == fs0.latest[m];
      assert m in Markers(fs.latest, fs.inodes);
    }
  }

  function AssetNames(assets: seq<Asset>): set<string> {
    set i | 0 <= i < |assets| :: assets[i].name
  }

  /** The same condition before the run, on the published assets and the old directory. */
  ghost predicate HarmlessRelease(fs0: Fs, mark: Option<string>, tag: string, assets: seq<Asset>,
                                  sha: Content -> string)
    requires fs0.Valid()
  {
    && (forall i :: 0 <= i < |assets| ==> HarmlessAsset(assets[i], mark, tag, sha))
    && HarmlessOld(fs0, AssetNames(assets), mark, tag)
  }

  predicate HarmlessAsset(a: Asset, mark: Option<string>, tag: string, sha: Content -> string) {
    mark != Some(a.name) && (MarkerName(a.name) ==> (a.digest == Some(sha("")) <==> a.name == tag))
  }

  /** With distinct asset names and a digest that tells the empty file from others, both conditions agree. */
  lemma HarmlessIff(fs0: Fs, fs: Fs, tag: string, assets: seq<Asset>, sha: Content -> string, r: Report)
    requires Ran(fs0, fs, tag, assets, sha, r) && r.progress.Marked?
    requires forall i, j :: 0 <= i < j < |assets| ==> assets[i].name != assets[j].name
    requires forall c :: sha(c) == sha("") ==> c == ""
    ensures Harmless(fs0, r.st, fs.inodes, r.mark, tag) <==> HarmlessRelease(fs0, r.mark, tag, assets, sha)
  {
    forall i | 0 <= i < |assets|
      ensures assets[i].name in r.st && (assets[i].digest == Some(sha("")) <==> fs.inodes[r.st[assets[i].name]] == "")
    {
      StagedEmptyIff(fs, assets, sha, r, i);
    }
    StagedNames(fs, assets, r);
    assert forall n :: n in AssetNames(assets) <==> n in r.st;
  }

  lemma StagedNames(fs: Fs, assets: seq<Asset>, r: Report)
    requires Staged(r.st, fs.inodes, assets, r.got) && |r.got| == |assets|
    ensures r.st.Keys == AssetNames(assets)
  {
    forall n | n in r.st
      ensures n in AssetNames(assets)
    {
      var i := StagedNamed(fs, assets, r, n);
    }
  }

  lemma StagedEmptyIff(fs: Fs, assets: seq<Asset>, sha: Content -> string, r: Report, i: nat)
    requires Verified(assets, r.got, sha) && Staged(r.st, fs.inodes, assets, r.got) && i < |assets|
    requires forall k :: 0 <= k < |assets| && k != i ==> assets[k].name != assets[i].name
    requires forall c :: sha(c) == sha("") ==> c == ""
    ensures assets[i].name in r.st && r.st[assets[i].name] in fs.inodes
    ensures assets[i].digest == Some(sha("")) <==> fs.inodes[r.st[assets[i].name]] == ""
  {
    StagedMatches(fs, assets, sha, r, assets[i].name);
  }

  /** An asset named like the old marker: the run installs, and removes the asset with the marker. */
  lemma MarkerAssetLost(taken: string, tag: string, sha: Content -> string)
    returns (fs0: Fs, fs: Fs, assets: seq<Asset>, r: Report)
    requires TagOk(tag) && MarkerName(taken) && taken != tag
    ensures Ran(fs0, fs, tag, assets, sha, r) && r.outcome.Installed?
    ensures forall m :: m in Markers(fs0.latest, fs0.inodes) ==> r.mark == Some(m)
    ensures !Complete(fs.latest, fs.inodes, assets, sha) && !HarmlessRelease(fs0, r.mark, tag, assets, sha)
  {
    assets := [Asset(taken, Some(sha("")))];
    fs0 := Fs(map[0 := ""], map[taken := 0], map[], map[]);
    fs := Fs(map[0 := "", 1 := "", 2 := ""], map[tag := 2], map[taken := map[taken := 0]], map[]);
    r := Report(Installed, Marked, Some(taken), map[taken := 1], [""]);
    assert assets[0].name == taken;
    assert Downloaded(taken, "", assets, r.got);
    assert taken in Markers(fs0.latest, fs0.inodes);
    assert Replaced(fs0.latest, r.st, r.mark) == map[];
    assert Touched(map[], fs.latest, fs.inodes, tag);
    assert !HarmlessAsset(assets[0], r.mark, tag, sha);
  }

  // ---------------------------------------------------------------- rollback

  /** mv latest latest.bad && mv previous-<tag> latest. */
  function Rollback(fs: Fs, key: string): Fs
    requires key in fs.previous
  {
    fs.(latest := fs.previous[key], previous := fs.previous - {key})
  }

  /**
   From the first rename on, whether the run completes or crashes, the backup gives every name the
   content it had before the run, so the documented rollback restores the old files and the old
   marker. The backup is named after that marker, or "unknown" if there was none.
   */
  lemma RollbackRestores(fs0: Fs, fs: Fs, tag: string, assets: seq<Asset>, sha: Content -> string, r: Report,
                         key: string)
    requires Ran(fs0, fs, tag, assets, sha, r) && !r.progress.Untouched?
    requires if r.mark.Some? then r.mark.value == key else key == "unknown"
    ensures key in fs.previous
    ensures var back := Rollback(fs, key);
            && ValidDir(back.latest, back.inodes)
            && View(back.latest, back.inodes) == View(fs0.latest, fs0.inodes)
            && Markers(back.latest, back.inodes) == Markers(fs0.latest, fs0.inodes)
  {
    ViewGrows(fs0.latest, fs0.inodes, fs.inodes);
  }

  /** Wherever a run stops, the old directory or every older backup that it did not have to replace is whole. */
  lemma SomeBackupWhole(fs0: Fs, fs: Fs, tag: string, assets: seq<Asset>, sha: Content -> string, r: Report, k: string)
    requires Ran(fs0, fs, tag, assets, sha, r) && k in fs0.previous && k != BackupName(r.mark)
    ensures || (k in fs.previous && View(fs.previous[k], fs.inodes) == View(fs0.previous[k], fs0.inodes))
            || (BackupName(r.mark) in fs.previous
                && View(fs.previous[BackupName(r.mark)], fs.inodes) == View(fs0.latest, fs0.inodes))
  {
    ViewGrows(fs0.previous[k], fs0.inodes, fs.inodes);
    ViewGrows(fs0.latest, fs0.inodes, fs.inodes);
  }
}
