/**
 The release installer as a sequence of file operations, with a crash possible before each of
 them. Directories map names to inodes and inodes hold content, so that hard links are visible.
 */
module InstallerScript {
  import opened Prelude

  type Inode = nat
  type Content = string
  type Dir = map<string, Inode>

  /** The base directory: `latest`, the `previous-*` backups and the `.staging-*` directories. */
  datatype Fs = Fs(inodes: map<Inode, Content>, latest: Dir, previous: map<string, Dir>, staging: map<string, Dir>)
  {
    ghost predicate Valid() {
      ValidDir(latest, inodes) && ValidDirs(previous, inodes) && ValidDirs(staging, inodes)
    }
  }

  ghost predicate ValidDir(d: Dir, inodes: map<Inode, Content>) {
    forall n :: n in d ==> d[n] in inodes
  }

  ghost predicate ValidDirs(dirs: map<string, Dir>, inodes: map<Inode, Content>) {
    forall k :: k in dirs ==> ValidDir(dirs[k], inodes)
  }

  /** One published asset; no digest means that GitHub gave none with the prefix `sha256:`. */
  datatype Asset = Asset(name: string, digest: Option<string>)

  /** A download: what is on disk half way through, and the whole file unless curl fails. */
  datatype Fetch = Fetch(partial: Content, whole: Option<Content>)

  // ---------------------------------------------------------------- names

  predicate Digit(c: char) {
    '0' <= c <= '9'
  }

  /** Names matching the pattern v[0-9]*. */
  predicate MarkerName(n: string) {
    |n| >= 2 && n[0] == 'v' && Digit(n[1])
  }

  predicate TagChar(c: char) {
    Digit(c) || 'A' <= c <= 'Z' || 'a' <= c <= 'z' || c == '.' || c == '+' || c == '-'
  }

  predicate TagOk(tag: string) {
    MarkerName(tag) && forall i :: 2 <= i < |tag| ==> TagChar(tag[i])
  }

  const DIGITS := "0123456789"
  const UPPER := "ABCDEFGHIJKLMNOPQRSTUVWXYZ"
  const LOWER := "abcdefghijklmnopqrstuvwxyz"
  const TAG_CHARS := DIGITS + UPPER + LOWER + ".+-"

  /** The tag matches ^v[0-9][0-9A-Za-z.+-]*$, spelled out. */
  ghost predicate WellTagged(tag: string) {
    |tag| >= 2 && tag[0] == 'v' && tag[1] in DIGITS && forall i :: 2 <= i < |tag| ==> tag[i] in TAG_CHARS
  }

  lemma TagIff(tag: string)
    ensures TagOk(tag) <==> WellTagged(tag)
  {
    if |tag| >= 2 {
      DigitIff(tag[1]);
    }
    forall i | 2 <= i < |tag|
      ensures TagChar(tag[i]) <==> tag[i] in TAG_CHARS
    {
      TagCharIff(tag[i]);
    }
  }

  lemma DigitIff(c: char)
    ensures Digit(c) <==> c in DIGITS
  {
    if Digit(c) {
      assert DIGITS[c as int - '0' as int] == c;
    }
  }

  lemma UpperIff(c: char)
    ensures 'A' <= c <= 'Z' <==> c in UPPER
  {
    if 'A' <= c <= 'Z' {
      assert UPPER[c as int - 'A' as int] == c;
    }
  }

  lemma LowerIff(c: char)
    ensures 'a' <= c <= 'z' <==> c in LOWER
  {
    if 'a' <= c <= 'z' {
      assert LOWER[c as int - 'a' as int] == c;
    }
  }

  lemma InFour(a: string, b: string, d: string, e: string, c: char)
    ensures c in a + b + d + e <==> c in a || c in b || c in d || c in e
  {
  }

  lemma TagCharIff(c: char)
    ensures TagChar(c) <==> c in TAG_CHARS
  {
    DigitIff(c);
    UpperIff(c);
    LowerIff(c);
    InFour(DIGITS, UPPER, LOWER, ".+-", c);
    assert c in ".+-" <==> c == '.' || c == '+' || c == '-';
  }

  predicate AssetNameOk(n: string) {
    n != "" && '/' !in n && n[0] != '.'
  }

  /** The empty files in `latest` that look like a tag. */
  function Markers(latest: Dir, inodes: map<Inode, Content>): set<string>
    requires forall n :: n in latest ==> latest[n] in inodes
  {
    set n | n in latest && MarkerName(n) && inodes[latest[n]] == ""
  }

  // ---------------------------------------------------------------- crashes

  /** Operations left before the machine dies; None means that it does not. */
  type Budget = Option<nat>

  predicate Out(b: Budget) {
    b == Some(0)
  }

  function Spend(b: Budget): Budget
    requires !Out(b)
  {
    if b.None? then None else Some(b.value - 1)
  }

  /** `n` operations were paid for; a crash means that the budget did not last. */
  ghost predicate Paid(budget: Budget, left: Budget, n: int, alive: bool) {
    if budget.None? then alive && left.None?
    else if alive then n <= budget.value && left == Some(budget.value - n)
    else n == budget.value && left == Some(0)
  }

  // ---------------------------------------------------------------- whole directories

  /** Every entry of `d` is an entry of `e`. */
  ghost predicate Within(d: Dir, e: Dir) {
    forall n :: n in d ==> n in e && d[n] == e[n]
  }

  /** The directory at `key` lost some entries; everything else is as before. */
  ghost predicate Shrunk(before: map<string, Dir>, after: map<string, Dir>, key: string) {
    && key in before && key in after && Within(after[key], before[key])
    && forall k :: k != key ==> (k in before <==> k in after) && (k in before ==> after[k] == before[k])
  }

  /** rm -rf of one directory, one entry at a time. */
  method RemoveTree(dirs0: map<string, Dir>, key: string, budget: Budget)
    returns (dirs: map<string, Dir>, left: Budget, alive: bool)
    ensures alive ==> dirs == dirs0 - {key}
    ensures !alive ==> Shrunk(dirs0, dirs, key)
    ensures key !in dirs0 ==> Paid(budget, left, 0, alive)
    ensures key in dirs0 ==> Paid(budget, left, if alive then |dirs0[key]| + 1 else |dirs0[key]| - |dirs[key]|, alive)
  {
    dirs, left := dirs0, budget;
    if key !in dirs {
      return dirs, left, true;
    }
    while dirs[key] != map[]
      invariant Shrunk(dirs0, dirs, key) && |dirs[key]| <= |dirs0[key]|
      invariant Paid(budget, left, |dirs0[key]| - |dirs[key]|, true)
      decreases |dirs[key]|
    {
      if Out(left) {
        return dirs, left, false;
      }
      left := Spend(left);
      var n :| n in dirs[key];
      Fewer(dirs[key], n);
      dirs := dirs[key := dirs[key] - {n}];
    }
    if Out(left) {
      return dirs, left, false;
    }
    left := Spend(left);
    dirs := dirs - {key};
    return dirs, left, true;
  }

  lemma Fewer(d: Dir, n: string)
    requires n in d
    ensures |d - {n}| == |d| - 1 && Within(d - {n}, d)
  {
    assert (d - {n}).Keys == d.Keys - {n};
    assert |(d - {n}).Keys| == |d - {n}| && |d.Keys| == |d|;
  }

  /** The directory at `key` holds links to some files of `source`; everything else is as before. */
  ghost predicate PartlyLinked(before: map<string, Dir>, after: map<string, Dir>, key: string, source: Dir) {
    && (key in after ==> Within(after[key], source))
    && forall k :: k != key ==> (k in before <==> k in after) && (k in before ==> after[k] == before[k])
  }

  /** cp -al of `source` to a new directory, one hard link at a time. */
  method LinkTree(dirs0: map<string, Dir>, key: string, source: Dir, budget: Budget)
    returns (dirs: map<string, Dir>, left: Budget, alive: bool)
    requires key !in dirs0
    ensures alive ==> dirs == dirs0[key := source]
    ensures !alive ==> PartlyLinked(dirs0, dirs, key, source)
    ensures Paid(budget, left, if alive then |source| + 1 else if key in dirs then |dirs[key]| + 1 else 0, alive)
  {
    if Out(budget) {
      return dirs0, budget, false;
    }
    var copy;
    copy, left, alive := LinkFiles(source, Spend(budget));
    dirs := dirs0[key := copy];
  }

  lemma OneMore(d: Dir, n: string, ino: Inode)
    requires n !in d
    ensures |d[n := ino]| == |d| + 1
  {
    assert d[n := ino].Keys == d.Keys + {n};
    assert |d[n := ino].Keys| == |d[n := ino]| && |d.Keys| == |d|;
  }

  method LinkFiles(source: Dir, budget: Budget) returns (copy: Dir, left: Budget, alive: bool)
    ensures Within(copy, source)
    ensures alive ==> copy == source
    ensures Paid(budget, left, |copy|, alive)
  {
    copy, left := map[], budget;
    var todo := source.Keys;
    while todo != {}
      invariant todo <= source.Keys && copy.Keys == source.Keys - todo && Within(copy, source)
      invariant Paid(budget, left, |copy|, true)
      decreases |todo|
    {
      if Out(left) {
        return copy, left, false;
      }
      left := Spend(left);
      var n :| n in todo;
      LinkOne(copy, source, todo, n);
      copy, todo := copy[n := source[n]], todo - {n};
    }
    return copy, left, true;
  }

  lemma LinkOne(copy: Dir, source: Dir, todo: set<string>, n: string)
    requires n in todo && todo <= source.Keys && copy.Keys == source.Keys - todo && Within(copy, source)
    ensures var more := copy[n := source[n]];
            more.Keys == source.Keys - (todo - {n}) && Within(more, source) && |more| == |copy| + 1
  {
    OneMore(copy, n, source[n]);
  }

  /** find ... -exec rm -rf: every backup but `key` goes. */
  method RemoveOthers(dirs0: map<string, Dir>, key: string, budget: Budget)
    returns (dirs: map<string, Dir>, left: Budget, alive: bool)
    requires key in dirs0
    ensures key in dirs && dirs[key] == dirs0[key]
    ensures alive ==> dirs == map[key := dirs0[key]]
    ensures forall k :: k in dirs ==> k in dirs0 && Within(dirs[k], dirs0[k])
    ensures budget.None? ==> alive && left.None?
  {
    dirs, left := dirs0, budget;
    while dirs.Keys != {key}
      invariant key in dirs && dirs[key] == dirs0[key]
      invariant forall k :: k in dirs ==> k in dirs0 && Within(dirs[k], dirs0[k])
      invariant budget.None? ==> left.None?
      decreases dirs.Keys
    {
      assert dirs.Keys - {key} == {} ==> dirs.Keys == {key};
      var other :| other in dirs.Keys - {key};
      dirs, left, alive := RemoveTree(dirs, other, left);
      if !alive {
        return;
      }
    }
    return dirs, left, true;
  }

  // ---------------------------------------------------------------- download and check

  /** Every download matched the digest of its asset. */
  ghost predicate Verified(assets: seq<Asset>, got: seq<Content>, sha: Content -> string) {
    |got| == |assets| && forall i :: 0 <= i < |assets| ==> assets[i].digest == Some(sha(got[i]))
  }

  /** The staged files are downloads of the assets of their name, and no asset is missing. */
  ghost predicate Staged(st: Dir, inodes: map<Inode, Content>, assets: seq<Asset>, got: seq<Content>) {
    && |got| <= |assets|
    && (forall i :: 0 <= i < |got| ==> assets[i].name in st)
    && (forall n {:trigger st[n]} :: n in st ==> st[n] in inodes && Downloaded(n, inodes[st[n]], assets, got))
  }

  ghost predicate Downloaded(name: string, c: Content, assets: seq<Asset>, got: seq<Content>)
    requires |got| <= |assets|
  {
    exists i :: 0 <= i < |got| && assets[i].name == name && got[i] == c
  }

  /** No file that existed before was written to. */
  ghost predicate Grows(before: map<Inode, Content>, after: map<Inode, Content>) {
    forall i :: i in before ==> i in after && after[i] == before[i]
  }

  /** This asset stops the run: bad name, no digest, failed download or wrong content. */
  ghost predicate Faulty(a: Asset, f: Fetch, sha: Content -> string) {
    || a.name == "" || '/' in a.name || a.name[0] == '.'
    || a.digest.None?
    || f.whole.None?
    || Some(sha(f.whole.value)) != a.digest
  }

  function FreshInode(inodes: map<Inode, Content>): (i: Inode)
    ensures i !in inodes
  {
    Bound(inodes.Keys)
  }

  function Bound(s: set<nat>): (b: nat)
    ensures forall x :: x in s ==> x < b
  {
    if s == {} then 0
    else
      var x := Largest(s);
      x + 1
  }

  function Largest(s: set<nat>): (m: nat)
    requires s != {}
    ensures m in s && forall x :: x in s ==> x <= m
  {
    LargestExists(s);
    var m :| m in s && forall x :: x in s ==> x <= m;
    m
  }

  lemma LargestExists(s: set<nat>)
    requires s != {}
    ensures exists m :: m in s && forall x :: x in s ==> x <= m
  {
    var y :| y in s;
    var t := s - {y};
    if t == {} {
      forall x | x in s
        ensures x <= y
      {
        assert x !in t;
      }
    } else {
      LargestExists(t);
      var m :| m in t && forall x :: x in t ==> x <= m;
      assert forall x :: x in s && x != y ==> x in t;
      LargerOf(s, y, m);
    }
  }

  lemma LargerOf(s: set<nat>, y: nat, m: nat)
    requires y in s && m in s && forall x :: x in s && x != y ==> x <= m
    ensures exists m :: m in s && forall x :: x in s ==> x <= m
  {
    var big := if m < y then y else m;
    assert big in s && forall x :: x in s ==> x <= big;
  }

  datatype Staging = Ready | Halted | Dead

  /**
   Downloads each asset into the fresh staging directory `st` and checks it. A file is opened,
   half written and completed in separate steps.
   */
  method Download(inodes0: map<Inode, Content>, assets: seq<Asset>, net: nat -> Fetch, sha: Content -> string,
                  budget: Budget)
    returns (inodes: map<Inode, Content>, st: Dir, got: seq<Content>, left: Budget, result: Staging)
    ensures Grows(inodes0, inodes)
    ensures FreshDir(st, inodes0, inodes)
    ensures result.Ready? ==> Verified(assets, got, sha) && Staged(st, inodes, assets, got)
    ensures result.Halted? ==> exists i :: 0 <= i < |assets| && Faulty(assets[i], net(i), sha)
    ensures result.Ready? ==> forall i :: 0 <= i < |assets| ==> !Faulty(assets[i], net(i), sha)
    ensures budget.None? ==> !result.Dead? && left.None?
  {
    inodes, st, got, left := inodes0, map[], [], budget;
    for i := 0 to |assets|
      invariant |got| == i && Downloading(inodes0, inodes, st, assets, got, net, sha)
      invariant budget.None? ==> left.None?
    {
      ghost var st1, inodes1 := st, inodes;
      var c;
      inodes, st, left, result, c := FetchAndCheck(inodes, st, assets[i], net(i), sha, left);
      FetchKeeps(inodes0, inodes1, st1, inodes, st, assets[i].name);
      if !result.Ready? {
        return;
      }
      DownloadOne(inodes0, inodes1, st1, inodes, st, assets, got, net, sha, c);
      got := got + [c];
    }
    return inodes, st, got, left, Ready;
  }

  /** One turn of the loop: check the name and the digest field, fetch, compare the digest. */
  method FetchAndCheck(inodes0: map<Inode, Content>, st0: Dir, a: Asset, f: Fetch, sha: Content -> string,
                       budget: Budget)
    returns (inodes: map<Inode, Content>, st: Dir, left: Budget, result: Staging, c: Content)
    requires forall n :: n in st0 ==> st0[n] in inodes0
    ensures Fetched(inodes0, st0, inodes, st, a.name)
    ensures result.Ready? ==> !Faulty(a, f, sha) && a.digest == Some(sha(c)) && a.name in st && inodes[st[a.name]] == c
    ensures result.Halted? ==> Faulty(a, f, sha)
    ensures budget.None? ==> !result.Dead? && left.None?
  {
    c := "";
    if !AssetNameOk(a.name) || a.digest.None? {
      return inodes0, st0, budget, Halted, c;
    }
    inodes, st, left, result := FetchInto(inodes0, st0, a.name, f, budget);
    if result.Ready? {
      c := f.whole.value;
      if Some(sha(c)) != a.digest {
        result := Halted;
      }
    }
  }

  /** State of the download loop after |got| assets. */
  ghost predicate Downloading(inodes0: map<Inode, Content>, inodes: map<Inode, Content>, st: Dir, assets: seq<Asset>,
                              got: seq<Content>,
                              net: nat -> Fetch, sha: Content -> string) {
    && Grows(inodes0, inodes) && Injective(st) && FreshDir(st, inodes0, inodes)
    && Staged(st, inodes, assets, got)
    && forall k :: 0 <= k < |got| ==> assets[k].digest == Some(sha(got[k])) && !Faulty(assets[k], net(k), sha)
  }

  /** The staged files share no inode with anything that existed before. */
  ghost predicate FreshDir(st: Dir, inodes0: map<Inode, Content>, inodes: map<Inode, Content>) {
    forall n :: n in st ==> st[n] in inodes && st[n] !in inodes0
  }

  /** What a download into `st` may have changed. */
  ghost predicate Fetched(inodes0: map<Inode, Content>, st0: Dir, inodes: map<Inode, Content>, st: Dir, name: string) {
    && (forall i :: i in inodes0 && (name !in st0 || i != st0[name]) ==> i in inodes && inodes[i] == inodes0[i])
    && st.Keys <= st0.Keys + {name} && Within(st0, st)
    && (name in st ==> st[name] in inodes && (name !in st0 ==> st[name] !in inodes0))
  }

  lemma DownloadOne(inodes0: map<Inode, Content>, inodes1: map<Inode, Content>, st1: Dir, inodes: map<Inode, Content>,
                    st: Dir,
                    assets: seq<Asset>, got: seq<Content>, net: nat -> Fetch, sha: Content -> string, c: Content)
    requires |got| < |assets| && Downloading(inodes0, inodes1, st1, assets, got, net, sha)
    requires Grows(inodes0, inodes) && Injective(st) && FreshDir(st, inodes0, inodes)
    requires Fetched(inodes1, st1, inodes, st, assets[|got|].name)
    requires assets[|got|].name in st && inodes[st[assets[|got|].name]] == c
    requires !Faulty(assets[|got|], net(|got|), sha) && assets[|got|].digest == Some(sha(c))
    ensures Downloading(inodes0, inodes, st, assets, got + [c], net, sha)
  {
    StageOne(st1, inodes1, st, inodes, assets, got, c);
    var g := got + [c];
    forall k | 0 <= k < |g|
      ensures assets[k].digest == Some(sha(g[k])) && !Faulty(assets[k], net(k), sha)
    {
      if k < |got| {
        assert g[k] == got[k];
      }
    }
  }

  lemma FetchKeeps(inodes0: map<Inode, Content>, inodes1: map<Inode, Content>, st1: Dir, inodes: map<Inode, Content>,
                   st: Dir, name: string)
    requires Grows(inodes0, inodes1) && Injective(st1) && FreshDir(st1, inodes0, inodes1)
    requires Fetched(inodes1, st1, inodes, st, name)
    ensures Grows(inodes0, inodes) && Injective(st) && FreshDir(st, inodes0, inodes)
  {
  }

  /** What a crash leaves of the download: nothing, an empty file, or half of it. */
  ghost predicate PartlyFetched(inodes0: map<Inode, Content>, st0: Dir, inodes: map<Inode, Content>, st: Dir,
                                name: string,
                                f: Fetch, budget: Budget) {
    match budget
    case None => false
    case Some(n) =>
      if n == 0 then inodes == inodes0 && st == st0
      else n <= 2 && name in st && st[name] in inodes && inodes[st[name]] == if n == 1 then "" else f.partial
  }

  /** curl -o: creates or truncates the file, then writes it. */
  method FetchInto(inodes0: map<Inode, Content>, st0: Dir, name: string, f: Fetch, budget: Budget)
    returns (inodes: map<Inode, Content>, st: Dir, left: Budget, result: Staging)
    requires forall n :: n in st0 ==> st0[n] in inodes0
    ensures Fetched(inodes0, st0, inodes, st, name)
    ensures result.Ready? ==> f.whole.Some? && name in st && inodes[st[name]] == f.whole.value
    ensures result.Halted? ==> f.whole.None? && name in st && inodes[st[name]] == f.partial
    ensures !result.Dead? ==> Paid(budget, left, if result.Ready? then 3 else 2, true)
    ensures result.Dead? ==> Paid(budget, left, if budget.Some? then budget.value else 0, false)
    ensures result.Dead? ==> PartlyFetched(inodes0, st0, inodes, st, name, f, budget)
  {
    inodes, st, left := inodes0, st0, budget;
    if Out(left) {
      return inodes, st, left, Dead;
    }
    left := Spend(left);
    var ino := if name in st then st[name] else FreshInode(inodes);
    inodes, st := inodes[ino := ""], st[name := ino];
    if Out(left) {
      return inodes, st, left, Dead;
    }
    left := Spend(left);
    inodes := inodes[ino := f.partial];
    if f.whole.None? {
      return inodes, st, left, Halted;
    }
    if Out(left) {
      return inodes, st, left, Dead;
    }
    left := Spend(left);
    inodes := inodes[ino := f.whole.value];
    return inodes, st, left, Ready;
  }

  lemma StageOne(st0: Dir, inodes0: map<Inode, Content>, st: Dir, inodes: map<Inode, Content>, assets: seq<Asset>,
                 got: seq<Content>, c: Content)
    requires |got| < |assets| && Staged(st0, inodes0, assets, got) && Injective(st0)
    requires Fetched(inodes0, st0, inodes, st, assets[|got|].name)
    requires assets[|got|].name in st && inodes[st[assets[|got|].name]] == c
    ensures Staged(st, inodes, assets, got + [c])
  {
    var g := got + [c];
    forall n | n in st
      ensures st[n] in inodes && Downloaded(n, inodes[st[n]], assets, g)
    {
      if n == assets[|got|].name {
        assert g[|got|] == c;
      } else {
        var i :| 0 <= i < |got| && assets[i].name == n && got[i] == inodes0[st0[n]];
        assert g[i] == got[i];
      }
    }
  }

  ghost predicate Injective(d: Dir) {
    forall m, n :: m in d && n in d && m != n ==> d[m] != d[n]
  }
}
