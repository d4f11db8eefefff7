/** Transactional publication of the macOS remote-desktop release
    (scripts/macos-remote-desktop-release-guard.ts). */
module Release {
  import opened Results

  type Bytes = seq<bv8>

  /** A directory: its files by name. */
  type Dir = map<string, Bytes>

  /** The places the packager touches, and everything else. */
  datatype Path =
    | Worker(name: string)        // <publicationRoot>/remote-desktop-worker/<name>
    | StagedWorker(name: string)  // <stagingRoot>/remote-desktop-worker/<name>
    | StagingEntry(name: string)  // <stagingRoot>/<name>
    | PublicationRoot             // <publicationRoot>
    | WorkerRoot                  // <publicationRoot>/remote-desktop-worker
    | StagingRoot                 // what `mkdtemp` makes in <publicationRoot>
    | StagedRoot                  // <stagingRoot>/remote-desktop-worker
    | Elsewhere(name: string)

  type Dirs = map<Path, Dir>

  datatype ErrorCode = ENOENT | ENOTEMPTY | EIO | REJECTED

  /** One qualified architecture: where its artifact lies and which files it ships. */
  datatype Variant = Variant(arch: string, source: string, components: seq<string>) {
    /** The manifest and the components, in copying order. */
    function Files(): (r: seq<string>) { [MANIFEST] + components }
  }

  const MANIFEST := "imcodes-remote-desktop.manifest.json"

  function Destination(arch: string): Path { Worker("darwin-" + arch) }

  function StagedAt(arch: string): Path { StagedWorker("darwin-" + arch) }

  function BackupAt(arch: string): Path { StagingEntry("previous-darwin-" + arch) }

  /** Without the staging root and all in it. */
  function Unstaged(d: Dirs): Dirs {
    map p | p in d && !InStaging(p) :: d[p]
  }

  predicate InStaging(p: Path) { p.StagedWorker? || p.StagingEntry? || p.StagingRoot? || p.StagedRoot? }

  /** The directories around the destinations; the run makes them when they are missing and leaves them. */
  predicate IsRoot(p: Path) { p.PublicationRoot? || p.WorkerRoot? }

  function WithDir(d: Dirs, p: Path): Dirs {
    if p in d then d else d[p := map[]]
  }

  /** A disk on which both roots exist. */
  function Rooted(d: Dirs): Dirs {
    WithDir(WithDir(d, PublicationRoot), WorkerRoot)
  }

  function Get(d: Dirs, p: Path): Option<Dir> {
    if p in d then Some(d[p]) else None
  }

  predicate HasFiles(d: Dirs, v: Variant) {
    Elsewhere(v.source) in d && forall f :: f in v.Files() ==> f in d[Elsewhere(v.source)]
  }

  /** What the staged directory of `v` must hold: exactly the shipped files of its source. */
  function Artifact(d: Dirs, v: Variant): Dir
    requires HasFiles(d, v)
  {
    map f | f in v.Files() :: d[Elsewhere(v.source)][f]
  }

  ghost predicate DistinctArchs(vs: seq<Variant>) {
    forall i, j :: 0 <= i < j < |vs| ==> vs[i].arch != vs[j].arch
  }

  ghost predicate IsDestination(vs: seq<Variant>, p: Path) {
    exists i :: 0 <= i < |vs| && p == Destination(vs[i].arch)
  }

  /** The three places of an architecture are of different kinds. */
  lemma Kinds()
    ensures forall arch :: Destination(arch).Worker? && StagedAt(arch).StagedWorker? && BackupAt(arch).StagingEntry?
  {
  }

  lemma PathsDiffer(a: string, b: string)
    requires a != b
    ensures Destination(a) != Destination(b) && StagedAt(a) != StagedAt(b) && BackupAt(a) != BackupAt(b)
  {
    assert ("darwin-" + a)[7..] == a && ("darwin-" + b)[7..] == b;
    assert ("previous-darwin-" + a)[16..] == a && ("previous-darwin-" + b)[16..] == b;
  }

  // ---------------------------------------------------------------- candidates

  datatype Candidate = Candidate(arch: string, releaseRoot: string)

  function ArchsOf(cs: seq<Candidate>): (r: seq<string>)
    ensures |r| == |cs| && forall i :: 0 <= i < |cs| ==> r[i] == cs[i].arch
  {
    seq(|cs|, i requires 0 <= i < |cs| => cs[i].arch)
  }

  ghost predicate Distinct(xs: seq<string>) {
    forall i, j :: 0 <= i < j < |xs| ==> xs[i] != xs[j]
  }

  lemma {:induction false} DistinctCounts(xs: seq<string>, x: string)
    ensures Distinct(xs) ==> multiset(xs)[x] == if x in xs then 1 else 0
    ensures !Distinct(xs) ==> exists y :: multiset(xs)[y] > 1
  {
    if xs != [] {
      var rest := xs[..|xs| - 1];
      assert xs == rest + [xs[|xs| - 1]];
      DistinctCounts(rest, x);
      if !Distinct(xs) {
        if Distinct(rest) {
          DistinctCounts(rest, xs[|xs| - 1]);
          assert multiset(xs)[xs[|xs| - 1]] > 1;
        } else {
          var y :| multiset(rest)[y] > 1;
          assert multiset(xs)[y] > 1;
        }
      }
    }
  }

  /** Accepts exactly the candidate lists that name every architecture once, in any order. */
  method ValidateCandidates(archs: seq<string>, candidates: seq<Candidate>) returns (r: Option<map<string, Candidate>>)
    requires Distinct(archs)
    ensures r.Some? <==> multiset(ArchsOf(candidates)) == multiset(archs)
    ensures r.Some? ==> r.value.Keys == set a | a in archs
    ensures r.Some? ==> forall a :: a in r.value ==> r.value[a] in candidates && r.value[a].arch == a
  {
    ghost var names := ArchsOf(candidates);
    if |candidates| != |archs| {
      assert |multiset(names)| != |multiset(archs)|;
      return None;
    }
    var byArch: map<string, Candidate> := map[];
    for i := 0 to |candidates|
      invariant byArch.Keys == set k | 0 <= k < i :: names[k]
      invariant forall k :: 0 <= k < i ==> names[k] in archs
      invariant forall j, k :: 0 <= j < k < i ==> names[j] != names[k]
      invariant forall a :: a in byArch ==> byArch[a] in candidates && byArch[a].arch == a
    {
      var c := candidates[i];
      assert names[i] == c.arch && names[i] in names;
      if c.arch !in archs || c.arch in byArch {
        RejectedNames(archs, names, i);
        return None;
      }
      byArch := byArch[c.arch := c];
    }
    for i := 0 to |archs|
      invariant forall k :: 0 <= k < i ==> archs[k] in byArch
    {
      if archs[i] !in byArch {
        assert archs[i] !in names;
        MissingName(archs, names, i);
        return None;
      }
    }
    SameDistinct(names, archs);
    r := Some(byArch);
  }

  lemma MissingName(archs: seq<string>, names: seq<string>, i: nat)
    requires i < |archs| && archs[i] !in names
    ensures multiset(names) != multiset(archs)
  {
    assert archs[i] in multiset(archs) && archs[i] !in multiset(names);
  }

  lemma SameDistinct(names: seq<string>, archs: seq<string>)
    requires Distinct(names) && Distinct(archs) && forall a :: a in names <==> a in archs
    ensures multiset(names) == multiset(archs)
  {
    forall a: string
      ensures multiset(names)[a] == multiset(archs)[a]
    {
      DistinctCounts(names, a);
      DistinctCounts(archs, a);
    }
  }

  lemma RejectedNames(archs: seq<string>, names: seq<string>, i: nat)
    requires Distinct(archs) && i < |names|
    requires names[i] !in archs || exists k :: 0 <= k < i && names[k] == names[i]
    ensures multiset(names) != multiset(archs)
  {
    if names[i] !in archs {
      assert names[i] in multiset(names) && names[i] !in multiset(archs);
    } else {
      var k :| 0 <= k < i && names[k] == names[i];
      assert !Distinct(names);
      DistinctCounts(names, names[i]);
      var y :| multiset(names)[y] > 1;
      DistinctCounts(archs, y);
    }
  }

  // ---------------------------------------------------------------- the file system

  /** A file system in which the n-th fallible operation fails when `faults(n)` says so.
      A failed operation changes nothing. `trail` remembers every state it has been in. */
  class Disk {
    var dirs: Dirs
    var clock: nat
    const faults: nat -> bool
    ghost var trail: seq<Dirs>

    constructor (dirs: Dirs, faults: nat -> bool)
      ensures this.dirs == dirs && this.faults == faults && trail == []
    {
      this.dirs, this.clock, this.faults, this.trail := dirs, 0, faults, [];
    }

    /** A fallible operation that changes no modelled directory. */
    method Attempt() returns (ok: bool)
      modifies this`clock
      ensures ok == !faults(old(clock)) && clock == old(clock) + 1
    {
      ok := !faults(clock);
      clock := clock + 1;
    }

    method Lstat(p: Path) returns (r: Result<(), ErrorCode>)
      modifies this`clock
      ensures clock == old(clock) + 1
      ensures r == if faults(old(clock)) then Err(EIO) else if p in dirs then Ok(()) else Err(ENOENT)
    {
      var ok := Attempt();
      r := if !ok then Err(EIO) else if p in dirs then Ok(()) else Err(ENOENT);
    }

    /** `rename` of a directory: an existing target must be empty. */
    method Rename(from: Path, to: Path) returns (r: Result<(), ErrorCode>)
      requires from != to
      modifies this`dirs, this`clock, this`trail
      ensures clock == old(clock) + 1
      ensures r.Err? ==> dirs == old(dirs) && trail == old(trail)
      ensures r.Err? && r.error == ENOENT ==> from !in dirs
      ensures r.Ok? <==> !faults(old(clock)) && from in old(dirs) && (to in old(dirs) ==> old(dirs)[to] == map[])
      ensures r.Ok? ==> dirs == (old(dirs) - {from})[to := old(dirs)[from]] && trail == old(trail) + [dirs]
    {
      var ok := Attempt();
      if !ok { return Err(EIO); }
      if from !in dirs { return Err(ENOENT); }
      if to in dirs && dirs[to] != map[] { return Err(ENOTEMPTY); }
      Move(from, to);
      r := Ok(());
    }

    /** A rename that the fault model lets succeed. */
    method Move(from: Path, to: Path)
      requires from != to && from in dirs
      modifies this`dirs, this`trail
      ensures dirs == (old(dirs) - {from})[to := old(dirs)[from]] && trail == old(trail) + [dirs]
    {
      dirs := (dirs - {from})[to := dirs[from]];
      trail := trail + [dirs];
    }

    /** `rm -rf` of one directory: its files go one after the other, in any order, and then the directory. */
    method Remove(p: Path)
      modifies this`dirs, this`trail
      ensures dirs == old(dirs) - {p} && Peeled(old(trail), trail, old(dirs), p)
    {
      ghost var d := dirs;
      if p in dirs {
        RemoveFiles(p);
      }
      AllPeeled(old(trail), trail, d, p, dirs);
      dirs := dirs - {p};
      trail := trail + [dirs];
    }

    method RemoveFiles(p: Path)
      requires p in dirs
      modifies this`dirs, this`trail
      ensures PeeledTo(old(trail), trail, old(dirs), p, dirs) && dirs[p] == map[]
    {
      ghost var d := dirs;
      NothingPeeled(trail, d, p);
      hide PeeledTo;
      while dirs[p] != map[]
        invariant p in dirs && PeeledTo(old(trail), trail, d, p, dirs)
        decreases |dirs[p].Keys|
      {
        var f :| f in dirs[p];
        OneFileLess(old(trail), trail, d, p, dirs, f);
        dirs := dirs[p := dirs[p] - {f}];
        trail := trail + [dirs];
      }
    }

    /** `rm -rf` of the whole staging root. */
    method RemoveStaging()
      modifies this`dirs, this`trail
      ensures dirs == Unstaged(old(dirs))
      ensures old(trail) <= trail
      ensures forall k :: |old(trail)| <= k < |trail| ==> SameOutside(trail[k], old(dirs))
    {
      ghost var d := dirs;
      while exists p :: p in dirs && InStaging(p)
        invariant SameOutside(dirs, d) && old(trail) <= trail
        invariant forall p :: p in dirs ==> p in d && dirs[p] == d[p]
        invariant forall k :: |old(trail)| <= k < |trail| ==> SameOutside(trail[k], d)
        decreases |dirs.Keys|
      {
        var p :| p in dirs && InStaging(p);
        ghost var was, t := dirs, trail;
        Remove(p);
        PeeledOutside(t, trail, was, p);
      }
      assert dirs == Unstaged(d);
    }

    /** `mkdir` of a directory that does not exist yet. */
    method MakeDir(p: Path) returns (ok: bool)
      requires p !in dirs
      modifies this`dirs, this`clock, this`trail
      ensures ok == !faults(old(clock)) && clock == old(clock) + 1
      ensures !ok ==> dirs == old(dirs) && trail == old(trail)
      ensures ok ==> dirs == old(dirs)[p := map[]] && trail == old(trail) + [dirs]
    {
      ok := Attempt();
      if ok {
        dirs := dirs[p := map[]];
        trail := trail + [dirs];
      }
    }

    /** `mkdir` with `recursive`: an existing directory stays as it is. */
    method EnsureDir(p: Path) returns (ok: bool)
      modifies this`dirs, this`clock, this`trail
      ensures ok == !faults(old(clock)) && clock == old(clock) + 1
      ensures !ok ==> dirs == old(dirs) && trail == old(trail)
      ensures ok ==> dirs == WithDir(old(dirs), p)
                     && trail == if p in old(dirs) then old(trail) else old(trail) + [dirs]
    {
      ok := Attempt();
      if ok && p !in dirs {
        dirs := dirs[p := map[]];
        trail := trail + [dirs];
      }
    }

    method CopyFile(from: Path, to: Path, name: string) returns (ok: bool)
      requires to in dirs && from != to
      modifies this`dirs, this`clock, this`trail
      ensures clock == old(clock) + 1
      ensures ok <==> !faults(old(clock)) && from in old(dirs) && name in old(dirs)[from]
      ensures !ok ==> dirs == old(dirs) && trail == old(trail)
      ensures ok ==> dirs == old(dirs)[to := old(dirs)[to][name := old(dirs)[from][name]]]
      ensures ok ==> trail == old(trail) + [dirs]
    {
      ok := Attempt();
      if ok && from in dirs && name in dirs[from] {
        dirs := dirs[to := dirs[to][name := dirs[from][name]]];
        trail := trail + [dirs];
      } else {
        ok := false;
      }
    }
  }

  // ---------------------------------------------------------------- which operations fail

  /** None of the operations numbered from `from` up to `to` fails. */
  ghost predicate Calm(faults: nat -> bool, from: nat, to: nat) {
    forall n :: from <= n < to ==> !faults(n)
  }

  /** Staging one variant: a directory, the copies, and reading them for verification. */
  function StageCost(v: Variant): nat { |v.Files()| + 2 }

  /** Staging the first `n` variants. */
  function StageCosts(vs: seq<Variant>, n: nat): nat
    requires n <= |vs|
  {
    if n == 0 then 0 else StageCosts(vs, n - 1) + StageCost(vs[n - 1])
  }

  /** A round of the publish loop: a look, the backup if there is something to back up, and the swap. */
  function RoundCost(d: Dirs, arch: string): nat { if Destination(arch) in d then 3 else 2 }

  /** The first `n` rounds. */
  function RoundCosts(d: Dirs, vs: seq<Variant>, n: nat): nat
    requires n <= |vs|
  {
    if n == 0 then 0 else RoundCosts(d, vs, n - 1) + RoundCost(d, vs[n - 1].arch)
  }

  lemma {:induction false} CostsGrow(d: Dirs, vs: seq<Variant>, n: nat, m: nat)
    requires n <= m <= |vs|
    ensures RoundCosts(d, vs, n) <= RoundCosts(d, vs, m) && (n < m ==> RoundCosts(d, vs, n) < RoundCosts(d, vs, m))
  {
    if n < m {
      CostsGrow(d, vs, n, m - 1);
    }
  }

  lemma {:induction false} SameCosts(d: Dirs, d': Dirs, vs: seq<Variant>, n: nat)
    requires n <= |vs| && forall p: Path :: p.Worker? ==> (p in d <==> p in d')
    ensures RoundCosts(d, vs, n) == RoundCosts(d', vs, n)
  {
    if n > 0 {
      SameCosts(d, d', vs, n - 1);
    }
  }

  /** From `clock` on, `n` rounds are completed and the next one meets a failure. */
  ghost predicate StopsAfter(faults: nat -> bool, clock: nat, d: Dirs, vs: seq<Variant>, n: nat) {
    && n < |vs| && Calm(faults, clock, clock + RoundCosts(d, vs, n))
    && !Calm(faults, clock + RoundCosts(d, vs, n), clock + RoundCosts(d, vs, n + 1))
  }

  /** `n` rounds were completed between two moments. */
  ghost predicate Completed(faults: nat -> bool, clock: nat, now: nat, d: Dirs, vs: seq<Variant>, n: nat) {
    n <= |vs| && now == clock + RoundCosts(d, vs, n) && Calm(faults, clock, now)
  }

  /** One more round is completed or the first that meets a failure. */
  lemma NextRound(faults: nat -> bool, clock: nat, now: nat, d: Dirs, vs: seq<Variant>, n: nat)
    requires n < |vs| && Completed(faults, clock, now, d, vs, n)
    ensures var cost := RoundCost(d, vs[n].arch);
            if Calm(faults, now, now + cost) then Completed(faults, clock, now + cost, d, vs, n + 1)
            else StopsAfter(faults, clock, d, vs, n)
  {
    hide RoundCost;
  }

  lemma StopsOnce(faults: nat -> bool, clock: nat, d: Dirs, vs: seq<Variant>, n: nat, m: nat)
    requires StopsAfter(faults, clock, d, vs, n)
    ensures StopsAfter(faults, clock, d, vs, m) <==> m == n
    ensures !Calm(faults, clock, clock + RoundCosts(d, vs, |vs|))
  {
    CostsGrow(d, vs, n + 1, |vs|);
    if n < m <= |vs| {
      CostsGrow(d, vs, n + 1, m);
    } else if m < n {
      CostsGrow(d, vs, m + 1, n);
    }
  }

  // ---------------------------------------------------------------- removing file by file

  /** Some of the files of `whole`. */
  ghost predicate SubDir(x: Dir, whole: Dir) {
    forall f :: f in x ==> f in whole && x[f] == whole[f]
  }

  /** `d` with only `size` files left in `p`. */
  ghost predicate Peeling(d': Dirs, d: Dirs, p: Path, size: int) {
    p in d && p in d' && d' == d[p := d'[p]] && SubDir(d'[p], d[p]) && |d'[p].Keys| == size
  }

  /** The states that removing `p` from `d` adds: one for each smaller number of files, and one without `p`. */
  ghost predicate Peeled(t: seq<Dirs>, t': seq<Dirs>, d: Dirs, p: Path) {
    var n := if p in d then |d[p].Keys| else 0;
    && t <= t' && |t'| == |t| + n + 1 && t'[|t| + n] == d - {p}
    && (forall k :: |t| <= k < |t| + n ==> Peeling(t'[k], d, p, |t| + n - 1 - k))
  }

  ghost predicate SameOutside(d': Dirs, d: Dirs) {
    forall p :: !InStaging(p) ==> Get(d', p) == Get(d, p)
  }

  /** Part of the files of `p` are gone. */
  ghost predicate PeeledTo(t: seq<Dirs>, t': seq<Dirs>, d: Dirs, p: Path, now: Dirs) {
    && t <= t' && p in d && p in now && Peeling(now, d, p, |now[p].Keys|)
    && |t'| == |t| + |d[p].Keys| - |now[p].Keys|
    && (forall k :: |t| <= k < |t'| ==> Peeling(t'[k], d, p, |t| + |d[p].Keys| - 1 - k))
  }

  lemma NothingPeeled(t: seq<Dirs>, d: Dirs, p: Path)
    requires p in d
    ensures PeeledTo(t, t, d, p, d)
  {
    assert d == d[p := d[p]];
  }

  lemma OneFileLess(t: seq<Dirs>, t': seq<Dirs>, d: Dirs, p: Path, now: Dirs, f: string)
    requires PeeledTo(t, t', d, p, now) && f in now[p]
    ensures var less := now[p := now[p] - {f}];
            PeeledTo(t, t' + [less], d, p, less) && |less[p].Keys| == |now[p].Keys| - 1
  {
    var less := now[p := now[p] - {f}];
    PeelOne(now, d, p, f);
    hide Peeling;
    assert forall k :: 0 <= k < |t'| ==> (t' + [less])[k] == t'[k];
  }

  lemma AllPeeled(t: seq<Dirs>, t': seq<Dirs>, d: Dirs, p: Path, now: Dirs)
    requires if p in d then PeeledTo(t, t', d, p, now) && now[p] == map[] else t' == t && now == d
    ensures now - {p} == d - {p} && Peeled(t, t' + [now - {p}], d, p)
  {
    if p in d {
      MapRest(now, d, p);
      assert |now[p].Keys| == 0;
    }
    hide Peeling;
    var all := t' + [now - {p}];
    assert forall k :: 0 <= k < |t'| ==> all[k] == t'[k];
  }

  lemma MapRest(now: Dirs, d: Dirs, p: Path)
    requires p in now && p in d && now == d[p := now[p]]
    ensures now - {p} == d - {p}
  {
  }

  lemma PeelOne(now: Dirs, d: Dirs, p: Path, f: string)
    requires p in now && Peeling(now, d, p, |now[p].Keys|) && f in now[p]
    ensures Peeling(now[p := now[p] - {f}], d, p, |now[p].Keys| - 1)
    ensures |(now[p] - {f}).Keys| == |now[p].Keys| - 1
  {
    assert (now[p] - {f}).Keys == now[p].Keys - {f};
  }

  lemma PeeledExtends(t: seq<Dirs>, t': seq<Dirs>, d: Dirs, p: Path)
    requires Peeled(t, t', d, p)
    ensures t <= t'
  {
    hide Peeling;
  }

  lemma PeeledOutside(t: seq<Dirs>, t': seq<Dirs>, d: Dirs, p: Path)
    requires Peeled(t, t', d, p) && InStaging(p)
    ensures forall k :: |t| <= k < |t'| ==> SameOutside(t'[k], d)
    ensures SameOutside(d - {p}, d)
  {
    forall k | |t| <= k < |t'|
      ensures SameOutside(t'[k], d)
    {
      assert k == |t'| - 1 || Peeling(t'[k], d, p, |t'| - 2 - k);
    }
  }

  // ---------------------------------------------------------------- what holds at every moment

  /** Seen from outside the staging root, `d` differs from `before` only at destinations and in the directories
      around them, and each destination is as before, absent, or the complete accepted artifact. */
  ghost predicate Observable(d: Dirs, before: Dirs, vs: seq<Variant>, accepts: (string, Dir) -> bool) {
    && (forall p :: !InStaging(p) && !IsRoot(p) && !IsDestination(vs, p) ==> Get(d, p) == Get(before, p))
    && (forall i :: 0 <= i < |vs| ==> WholeDestination(d, before, vs[i], accepts))
  }

  ghost predicate WholeDestination(d: Dirs, before: Dirs, v: Variant, accepts: (string, Dir) -> bool) {
    var now := Get(d, Destination(v.arch));
    || now == None
    || now == Get(before, Destination(v.arch))
    || (HasFiles(before, v) && now == Some(Artifact(before, v)) && accepts(v.arch, now.value))
  }

  ghost predicate AllObservable(trail: seq<Dirs>, before: Dirs, vs: seq<Variant>, accepts: (string, Dir) -> bool) {
    forall k :: 0 <= k < |trail| ==> Observable(trail[k], before, vs, accepts)
  }

  /** Outside the staging root nothing has changed. */
  ghost predicate OutsideAsBefore(d: Dirs, before: Dirs) {
    forall p :: !InStaging(p) ==> Get(d, p) == Get(before, p)
  }

  lemma OutsideIsObservable(d: Dirs, before: Dirs, vs: seq<Variant>, accepts: (string, Dir) -> bool)
    requires OutsideAsBefore(d, before)
    ensures Observable(d, before, vs, accepts)
  {
  }

  // ---------------------------------------------------------------- staging

  ghost predicate StagedUpTo(d: Dirs, before: Dirs, vs: seq<Variant>, n: nat, accepts: (string, Dir) -> bool)
    requires n <= |vs|
  {
    && OutsideAsBefore(d, before)
    && (forall i :: 0 <= i < n ==>
          && HasFiles(before, vs[i]) && Get(d, StagedAt(vs[i].arch)) == Some(Artifact(before, vs[i]))
          && accepts(vs[i].arch, Artifact(before, vs[i])))
    && (forall i :: n <= i < |vs| ==> Get(d, StagedAt(vs[i].arch)) == None)
    && (forall p: Path :: p.StagingEntry? ==> p !in d)
  }

  /** `d` is `base` with some content at `p`. */
  ghost predicate DiffersAt(d: Dirs, base: Dirs, p: Path) {
    p in d && d == base[p := d[p]]
  }

  lemma StillDiffers(d': Dirs, d: Dirs, base: Dirs, p: Path)
    requires p in d' && p in base && d' == d[p := d'[p]] && (d == base || DiffersAt(d, base, p))
    ensures DiffersAt(d', base, p)
  {
  }

  /** Copies the manifest and the components of one variant into its fresh staged directory. */
  method CopyVariant(disk: Disk, v: Variant, staged: Path) returns (ok: bool)
    requires staged in disk.dirs && disk.dirs[staged] == map[] && staged != Elsewhere(v.source)
    modifies disk`dirs, disk`clock, disk`trail
    ensures DiffersAt(disk.dirs, old(disk.dirs), staged)
    ensures old(disk.trail) <= disk.trail
    ensures forall k :: |old(disk.trail)| <= k < |disk.trail| ==> DiffersAt(disk.trail[k], old(disk.dirs), staged)
    ensures ok ==> HasFiles(old(disk.dirs), v) && disk.dirs[staged] == Artifact(old(disk.dirs), v)
    ensures ok <==> HasFiles(old(disk.dirs), v) && Calm(disk.faults, old(disk.clock), old(disk.clock) + |v.Files()|)
    ensures ok ==> disk.clock == old(disk.clock) + |v.Files()|
  {
    ghost var base := disk.dirs;
    var files := v.Files();
    var source := Elsewhere(v.source);
    hide DiffersAt, Artifact, Selected, AllIn;
    StillDiffers(base, base, base, staged);
    var i := 0;
    while i < |files|
      invariant 0 <= i <= |files|
      invariant DiffersAt(disk.dirs, base, staged)
      invariant old(disk.trail) <= disk.trail
      invariant forall k :: |old(disk.trail)| <= k < |disk.trail| ==> DiffersAt(disk.trail[k], base, staged)
      invariant i > 0 ==> source in base
      invariant source in base ==> AllIn(files[..i], base[source])
      invariant staged in disk.dirs && disk.dirs[staged] == if i == 0 then map[] else Selected(files[..i], base[source])
      invariant Get(disk.dirs, source) == Get(base, source)
      invariant disk.clock == old(disk.clock) + i && Calm(disk.faults, old(disk.clock), disk.clock)
    {
      ghost var d := disk.dirs;
      ok := disk.CopyFile(source, staged, files[i]);
      if !ok {
        assert files[i] in v.Files();
        return;
      }
      StillDiffers(disk.dirs, d, base, staged);
      SelectOneMore(files, i, base[source]);
      i := i + 1;
    }
    assert files[..|files|] == files;
    SelectedIsArtifact(base, v);
    ok := true;
  }

  ghost predicate AllIn(files: seq<string>, source: Dir) {
    forall f :: f in files ==> f in source
  }

  /** The listed files of a directory. */
  ghost function Selected(files: seq<string>, source: Dir): Dir
    requires AllIn(files, source)
  {
    map f | f in files :: source[f]
  }

  lemma SelectOneMore(files: seq<string>, i: nat, source: Dir)
    requires i < |files| && AllIn(files[..i], source) && files[i] in source
    ensures AllIn(files[..i + 1], source)
    ensures Selected(files[..i + 1], source)
            == (if i == 0 then map[] else Selected(files[..i], source))[files[i] := source[files[i]]]
  {
    assert files[..i + 1] == files[..i] + [files[i]];
  }

  lemma SelectedIsArtifact(d: Dirs, v: Variant)
    requires Elsewhere(v.source) in d && AllIn(v.Files(), d[Elsewhere(v.source)])
    ensures HasFiles(d, v) && Selected(v.Files(), d[Elsewhere(v.source)]) == Artifact(d, v)
  {
  }

  /** Extending the trail by states that differ from a staged state only inside the staging root. */
  lemma StagingStaysObservable(t: seq<Dirs>, t': seq<Dirs>, d: Dirs, p: Path, before: Dirs, vs: seq<Variant>,
                               accepts: (string, Dir) -> bool)
    requires AllObservable(t, before, vs, accepts) && t <= t' && InStaging(p) && OutsideAsBefore(d, before)
    requires forall k :: |t| <= k < |t'| ==> DiffersAt(t'[k], d, p)
    ensures AllObservable(t', before, vs, accepts)
  {
    forall k | 0 <= k < |t'|
      ensures Observable(t'[k], before, vs, accepts)
    {
      if k < |t| {
        assert t'[k] == t[k];
      } else {
        assert OutsideAsBefore(t'[k], before);
        OutsideIsObservable(t'[k], before, vs, accepts);
      }
    }
  }

  /** Stages one variant and verifies the copy. */
  method StageVariant(disk: Disk, v: Variant, accepts: (string, Dir) -> bool,
                      ghost before: Dirs, ghost vs: seq<Variant>, ghost n: nat) returns (ok: bool)
    requires DistinctArchs(vs) && n < |vs| && v == vs[n]
    requires StagedUpTo(disk.dirs, before, vs, n, accepts) && AllObservable(disk.trail, before, vs, accepts)
    modifies disk`dirs, disk`clock, disk`trail
    ensures OutsideAsBefore(disk.dirs, before) && AllObservable(disk.trail, before, vs, accepts)
    ensures ok ==> StagedUpTo(disk.dirs, before, vs, n + 1, accepts)
    ensures ok <==> HasFiles(before, v) && accepts(v.arch, Artifact(before, v))
                    && Calm(disk.faults, old(disk.clock), old(disk.clock) + StageCost(v))
    ensures ok ==> disk.clock == old(disk.clock) + StageCost(v)
  {
    var staged := StagedAt(v.arch);
    ghost var t0, d0 := disk.trail, disk.dirs;
    assert Get(d0, staged) == None && Get(d0, Elsewhere(v.source)) == Get(before, Elsewhere(v.source));
    ok := disk.MakeDir(staged);
    if !ok { return; }
    ok := CopyVariant(disk, v, staged);
    assert forall k :: |t0| <= k < |disk.trail| ==> DiffersAt(disk.trail[k], d0, staged);
    StagingStaysObservable(t0, disk.trail, d0, staged, before, vs, accepts);
    if !ok { return; }
    ok := disk.Attempt();
    ok := ok && accepts(v.arch, disk.dirs[staged]);
    if ok {
      StagingExtends(disk.dirs, d0, before, vs, n, accepts);
    }
  }

  lemma StagingExtends(d: Dirs, d0: Dirs, before: Dirs, vs: seq<Variant>, n: nat, accepts: (string, Dir) -> bool)
    requires DistinctArchs(vs) && n < |vs| && StagedUpTo(d0, before, vs, n, accepts) && HasFiles(before, vs[n])
    requires DiffersAt(d, d0, StagedAt(vs[n].arch)) && d[StagedAt(vs[n].arch)] == Artifact(before, vs[n])
    requires accepts(vs[n].arch, Artifact(before, vs[n]))
    ensures StagedUpTo(d, before, vs, n + 1, accepts)
  {
    OthersDiffer(vs, n);
  }

  // ---------------------------------------------------------------- publishing

  /** Every variant has its files and an accepted artifact. */
  ghost predicate Qualified(before: Dirs, vs: seq<Variant>, accepts: (string, Dir) -> bool) {
    forall i :: 0 <= i < |vs| ==> HasFiles(before, vs[i]) && accepts(vs[i].arch, Artifact(before, vs[i]))
  }

  /** The first `n` destinations hold their artifact with the old directory kept as a backup;
      everything else outside the staging root is as before. */
  ghost predicate PublishedUpTo(d: Dirs, before: Dirs, vs: seq<Variant>, n: nat, backups: map<string, Path>)
    requires n <= |vs|
  {
    && (forall p :: !InStaging(p) && !IsDestination(vs, p) ==> Get(d, p) == Get(before, p))
    && (forall i :: 0 <= i < n ==>
          HasFiles(before, vs[i]) && Get(d, Destination(vs[i].arch)) == Some(Artifact(before, vs[i])))
    && (forall i :: 0 <= i < n ==> Get(d, BackupAt(vs[i].arch)) == Get(before, Destination(vs[i].arch)))
    && (forall i :: 0 <= i < n ==> (vs[i].arch in backups <==> Destination(vs[i].arch) in before))
    && (forall i :: n <= i < |vs| ==> Get(d, Destination(vs[i].arch)) == Get(before, Destination(vs[i].arch)))
    && (forall a :: a in backups ==> backups[a] == BackupAt(a))
  }

  /** The variants from `n` on still wait in the staging root, with no backup taken. */
  ghost predicate WaitingFrom(d: Dirs, before: Dirs, vs: seq<Variant>, n: nat, backups: map<string, Path>) {
    forall i :: 0 <= n <= i < |vs| ==>
                  && HasFiles(before, vs[i])
                  && Get(d, StagedAt(vs[i].arch)) == Some(Artifact(before, vs[i]))
                  && Get(d, BackupAt(vs[i].arch)) == None
                  && vs[i].arch !in backups
  }

  lemma PublishedIsObservable(d: Dirs, before: Dirs, vs: seq<Variant>, n: nat, backups: map<string, Path>,
                              accepts: (string, Dir) -> bool)
    requires n <= |vs| && Qualified(before, vs, accepts) && PublishedUpTo(d, before, vs, n, backups)
    ensures Observable(d, before, vs, accepts)
  {
    forall i | 0 <= i < |vs|
      ensures WholeDestination(d, before, vs[i], accepts)
    {
    }
  }

  /** The moment between taking a backup and publishing: one destination is absent. */
  lemma GapIsObservable(d: Dirs, d': Dirs, before: Dirs, vs: seq<Variant>, k: nat, accepts: (string, Dir) -> bool)
    requires k < |vs| && Observable(d, before, vs, accepts)
    requires Destination(vs[k].arch) !in d'
    requires forall p :: !InStaging(p) && p != Destination(vs[k].arch) ==> Get(d', p) == Get(d, p)
    ensures Observable(d', before, vs, accepts)
  {
    assert IsDestination(vs, Destination(vs[k].arch));
    forall i | 0 <= i < |vs|
      ensures WholeDestination(d', before, vs[i], accepts)
    {
      assert WholeDestination(d, before, vs[i], accepts);
    }
  }

  /** The state after the old directory of `arch` was moved aside. */
  function MovedAside(d: Dirs, arch: string): Dirs {
    if Destination(arch) in d then (d - {Destination(arch)})[BackupAt(arch) := d[Destination(arch)]] else d
  }

  /** The state after the staged directory of `arch` took the place of the old one. */
  function SwappedIn(d: Dirs, arch: string): Dirs
    requires StagedAt(arch) in d
  {
    (MovedAside(d, arch) - {StagedAt(arch)})[Destination(arch) := d[StagedAt(arch)]]
  }

  /** One round of the publish loop: back up, publish, and undo the backup when publishing fails. */
  method PublishOne(disk: Disk, arch: string, backups: map<string, Path>)
    returns (r: Result<(), ErrorCode>, kept: map<string, Path>)
    requires StagedAt(arch) in disk.dirs && BackupAt(arch) !in disk.dirs && arch !in backups
    modifies disk`dirs, disk`clock, disk`trail
    ensures old(disk.trail) <= disk.trail
    ensures forall k :: |old(disk.trail)| <= k < |disk.trail| ==>
              disk.trail[k] in {old(disk.dirs), MovedAside(old(disk.dirs), arch), SwappedIn(old(disk.dirs), arch)}
    ensures r.Ok? ==> disk.dirs == SwappedIn(old(disk.dirs), arch)
    ensures r.Ok? ==>
              kept == if Destination(arch) in old(disk.dirs) then backups[arch := BackupAt(arch)] else backups
    ensures r.Err? ==> disk.dirs == old(disk.dirs) && kept == backups
    ensures r.Ok? <==>
            Calm(disk.faults, old(disk.clock), old(disk.clock) + RoundCost(old(disk.dirs), arch))
    ensures r.Ok? ==> disk.clock == old(disk.clock) + RoundCost(old(disk.dirs), arch)
  {
    kept := backups;
    Kinds();
    hide Destination, StagedAt, BackupAt;
    var destination, backup := Destination(arch), BackupAt(arch);
    r := disk.Lstat(destination);
    if r.Ok? {
      r := disk.Rename(destination, backup);
      if r.Ok? {
        kept := kept[arch := backup];
        assert disk.trail[|old(disk.trail)|] == MovedAside(old(disk.dirs), arch);
      }
    }
    if r.Err? && r.error != ENOENT { return; }
    assert disk.dirs == MovedAside(old(disk.dirs), arch);
    r := disk.Rename(StagedAt(arch), destination);
    if r.Err? && arch in kept {
      disk.Move(kept[arch], destination);
      kept := kept - {arch};
      assert disk.dirs == old(disk.dirs);
    }
    assert disk.dirs == if r.Ok? then SwappedIn(old(disk.dirs), arch) else old(disk.dirs);
  }

  /** A successful round extends the published prefix by one. */
  lemma SwapPublishes(d: Dirs, before: Dirs, vs: seq<Variant>, n: nat,
                      backups: map<string, Path>, kept: map<string, Path>)
    requires DistinctArchs(vs) && n < |vs|
    requires PublishedUpTo(d, before, vs, n, backups) && WaitingFrom(d, before, vs, n, backups)
    requires StagedAt(vs[n].arch) in d
    requires kept == if Destination(vs[n].arch) in d then backups[vs[n].arch := BackupAt(vs[n].arch)] else backups
    ensures PublishedUpTo(SwappedIn(d, vs[n].arch), before, vs, n + 1, kept)
    ensures WaitingFrom(SwappedIn(d, vs[n].arch), before, vs, n + 1, kept)
  {
    var arch, d' := vs[n].arch, SwappedIn(d, vs[n].arch);
    OthersDiffer(vs, n);
    SwapEffect(d, arch);
    Kinds();
    hide SwappedIn, MovedAside, HasFiles, Artifact, Destination, StagedAt, BackupAt, DistinctArchs, PublishedUpTo;
    SwapKeepsWaiting(d, d', before, vs, n, backups, kept);
    hide WaitingFrom;
    forall i | 0 <= i < |vs| && i != n
      ensures Get(d', Destination(vs[i].arch)) == Get(d, Destination(vs[i].arch))
      ensures Get(d', BackupAt(vs[i].arch)) == Get(d, BackupAt(vs[i].arch))
    {
    }
    OnlyPlaces(vs, n);
    assert forall p :: !InStaging(p) && !IsDestination(vs, p) ==> Get(d', p) == Get(d, p);
    BackupTaken(d, d', before, vs, n, backups);
    hide AfterSwap, Get, InStaging, IsDestination;
    SwapKeepsPublished(d, d', before, vs, n, backups, kept);
  }

  lemma OnlyPlaces(vs: seq<Variant>, n: nat)
    requires n < |vs|
    ensures IsDestination(vs, Destination(vs[n].arch)) && InStaging(StagedAt(vs[n].arch))
            && InStaging(BackupAt(vs[n].arch))
  {
  }

  lemma BackupTaken(d: Dirs, d': Dirs, before: Dirs, vs: seq<Variant>, n: nat, backups: map<string, Path>)
    requires n < |vs| && PublishedUpTo(d, before, vs, n, backups) && Get(d, BackupAt(vs[n].arch)) == None
    requires Get(d', BackupAt(vs[n].arch)) == AfterSwap(d, vs[n].arch, BackupAt(vs[n].arch))
    ensures Get(d', BackupAt(vs[n].arch)) == Get(before, Destination(vs[n].arch))
    ensures Destination(vs[n].arch) in d <==> Destination(vs[n].arch) in before
  {
    assert Get(d, Destination(vs[n].arch)) == Get(before, Destination(vs[n].arch));
  }

  lemma SwapKeepsPublished(d: Dirs, d': Dirs, before: Dirs, vs: seq<Variant>, n: nat,
                           backups: map<string, Path>, kept: map<string, Path>)
    requires n < |vs| && PublishedUpTo(d, before, vs, n, backups)
    requires kept == if Destination(vs[n].arch) in d then backups[vs[n].arch := BackupAt(vs[n].arch)] else backups
    requires vs[n].arch !in backups && (Destination(vs[n].arch) in d <==> Destination(vs[n].arch) in before)
    requires HasFiles(before, vs[n]) && Get(d', Destination(vs[n].arch)) == Some(Artifact(before, vs[n]))
    requires Get(d', BackupAt(vs[n].arch)) == Get(before, Destination(vs[n].arch))
    requires forall p :: !InStaging(p) && !IsDestination(vs, p) ==> Get(d', p) == Get(d, p)
    requires forall i :: 0 <= i < |vs| && i != n ==>
                           && vs[i].arch != vs[n].arch
                           && Get(d', Destination(vs[i].arch)) == Get(d, Destination(vs[i].arch))
                           && Get(d', BackupAt(vs[i].arch)) == Get(d, BackupAt(vs[i].arch))
    ensures PublishedUpTo(d', before, vs, n + 1, kept)
  {
    hide HasFiles, Artifact, Destination, BackupAt, InStaging, IsDestination, Get;
  }

  lemma SwapKeepsWaiting(d: Dirs, d': Dirs, before: Dirs, vs: seq<Variant>, n: nat,
                         backups: map<string, Path>, kept: map<string, Path>)
    requires n < |vs| && WaitingFrom(d, before, vs, n, backups)
    requires kept == if Destination(vs[n].arch) in d then backups[vs[n].arch := BackupAt(vs[n].arch)] else backups
    requires forall i :: n < i < |vs| ==>
                           && vs[i].arch != vs[n].arch
                           && Get(d', StagedAt(vs[i].arch)) == Get(d, StagedAt(vs[i].arch))
                           && Get(d', BackupAt(vs[i].arch)) == Get(d, BackupAt(vs[i].arch))
    ensures WaitingFrom(d', before, vs, n + 1, kept)
    ensures HasFiles(before, vs[n]) && Get(d, StagedAt(vs[n].arch)) == Some(Artifact(before, vs[n]))
    ensures Get(d, BackupAt(vs[n].arch)) == None && vs[n].arch !in backups
  {
    hide HasFiles, Artifact;
  }

  /** Where the content of a place comes from after a swap. */
  function AfterSwap(d: Dirs, arch: string, p: Path): Option<Dir> {
    if p == Destination(arch) then Get(d, StagedAt(arch))
    else if p == BackupAt(arch) && Destination(arch) in d then Get(d, Destination(arch))
    else if p == StagedAt(arch) then None
    else Get(d, p)
  }

  lemma SwapEffect(d: Dirs, arch: string)
    requires StagedAt(arch) in d
    ensures forall p :: Get(SwappedIn(d, arch), p) == AfterSwap(d, arch, p)
  {
  }

  lemma OthersDiffer(vs: seq<Variant>, n: nat)
    requires DistinctArchs(vs) && n < |vs|
    ensures forall i :: 0 <= i < |vs| && i != n ==>
              && vs[i].arch != vs[n].arch && Destination(vs[i].arch) != Destination(vs[n].arch)
              && StagedAt(vs[i].arch) != StagedAt(vs[n].arch) && BackupAt(vs[i].arch) != BackupAt(vs[n].arch)
  {
    forall i | 0 <= i < |vs| && i != n
      ensures vs[i].arch != vs[n].arch && Destination(vs[i].arch) != Destination(vs[n].arch)
      ensures StagedAt(vs[i].arch) != StagedAt(vs[n].arch) && BackupAt(vs[i].arch) != BackupAt(vs[n].arch)
    {
      assert if i < n then vs[i].arch != vs[n].arch else vs[n].arch != vs[i].arch;
      PathsDiffer(vs[i].arch, vs[n].arch);
    }
  }

  /** All states a round goes through are observable. */
  lemma RoundIsObservable(t: seq<Dirs>, t': seq<Dirs>, d: Dirs, before: Dirs, vs: seq<Variant>, n: nat,
                          backups: map<string, Path>, kept: map<string, Path>, accepts: (string, Dir) -> bool)
    requires DistinctArchs(vs) && n < |vs| && Qualified(before, vs, accepts) && StagedAt(vs[n].arch) in d
    requires PublishedUpTo(d, before, vs, n, backups) && WaitingFrom(d, before, vs, n, backups)
    requires kept == if Destination(vs[n].arch) in d then backups[vs[n].arch := BackupAt(vs[n].arch)] else backups
    requires AllObservable(t, before, vs, accepts) && t <= t'
    requires forall k :: |t| <= k < |t'| ==> t'[k] in {d, MovedAside(d, vs[n].arch), SwappedIn(d, vs[n].arch)}
    ensures AllObservable(t', before, vs, accepts)
  {
    PublishedIsObservable(d, before, vs, n, backups, accepts);
    if Destination(vs[n].arch) in d {
      GapIsObservable(d, MovedAside(d, vs[n].arch), before, vs, n, accepts);
    }
    SwapPublishes(d, before, vs, n, backups, kept);
    PublishedIsObservable(SwappedIn(d, vs[n].arch), before, vs, n + 1, kept, accepts);
    hide *;
    assert forall k :: 0 <= k < |t| ==> t'[k] == t[k];
  }

  // ---------------------------------------------------------------- rollback

  /** The state after one published destination was withdrawn. */
  function Withdrawn(d: Dirs, arch: string, backups: map<string, Path>): Dirs
    requires arch in backups ==> backups[arch] in d
  {
    var gone := d - {Destination(arch)};
    if arch in backups then (gone - {backups[arch]})[Destination(arch) := d[backups[arch]]] else gone
  }

  /** Undoing the last published round shrinks the published prefix by one. */
  lemma WithdrawalUndoes(d: Dirs, before: Dirs, vs: seq<Variant>, n: nat, backups: map<string, Path>)
    requires DistinctArchs(vs) && n < |vs|
    requires PublishedUpTo(d, before, vs, n + 1, backups)
    ensures vs[n].arch in backups ==> backups[vs[n].arch] == BackupAt(vs[n].arch) && BackupAt(vs[n].arch) in d
    ensures PublishedUpTo(Withdrawn(d, vs[n].arch, backups), before, vs, n, backups)
  {
    var arch := vs[n].arch;
    OthersDiffer(vs, n);
    assert Get(d, BackupAt(arch)) == Get(before, Destination(arch));
    WithdrawalEffect(d, arch, backups);
    var d' := Withdrawn(d, arch, backups);
    assert IsDestination(vs, Destination(arch));
    Kinds();
    hide Withdrawn, HasFiles, Artifact, Destination, StagedAt, BackupAt, DistinctArchs;
    forall i | 0 <= i < |vs| && i != n
      ensures Get(d', Destination(vs[i].arch)) == Get(d, Destination(vs[i].arch))
      ensures Get(d', BackupAt(vs[i].arch)) == Get(d, BackupAt(vs[i].arch))
    {
    }
  }

  /** And after a withdrawal. */
  function AfterWithdrawal(d: Dirs, arch: string, backups: map<string, Path>, p: Path): Option<Dir> {
    if p == Destination(arch) then (if arch in backups then Get(d, BackupAt(arch)) else None)
    else if p == BackupAt(arch) && arch in backups then None
    else Get(d, p)
  }

  lemma WithdrawalEffect(d: Dirs, arch: string, backups: map<string, Path>)
    requires arch in backups ==> backups[arch] == BackupAt(arch) && BackupAt(arch) in d
    ensures forall p :: Get(Withdrawn(d, arch, backups), p) == AfterWithdrawal(d, arch, backups, p)
  {
  }

  // ---------------------------------------------------------------- what a rollback shows

  /** Like `Observable`, but destination `i` holds only `size` of the files of its artifact. */
  ghost predicate Emptying(d: Dirs, before: Dirs, vs: seq<Variant>, i: nat, size: nat, accepts: (string, Dir) -> bool) {
    && i < |vs| && HasFiles(before, vs[i]) && size < |Artifact(before, vs[i]).Keys|
    && Destination(vs[i].arch) in d
    && SubDir(d[Destination(vs[i].arch)], Artifact(before, vs[i])) && |d[Destination(vs[i].arch)].Keys| == size
    && (forall p :: !InStaging(p) && !IsRoot(p) && !IsDestination(vs, p) ==> Get(d, p) == Get(before, p))
    && (forall j :: 0 <= j < |vs| && j != i ==> WholeDestination(d, before, vs[j], accepts))
  }

  ghost predicate BeingEmptied(d: Dirs, before: Dirs, vs: seq<Variant>, n: nat, accepts: (string, Dir) -> bool) {
    exists i: nat, size: nat :: i < n && Emptying(d, before, vs, i, size, accepts)
  }

  /** Up to `turn` every state is observable; from there on one of the first `n` destinations may be emptied. */
  ghost predicate Framed(trail: seq<Dirs>, turn: nat, before: Dirs, vs: seq<Variant>, n: nat,
                         accepts: (string, Dir) -> bool) {
    forall k :: 0 <= k < |trail| ==>
      Observable(trail[k], before, vs, accepts) || (turn <= k && BeingEmptied(trail[k], before, vs, n, accepts))
  }

  /** Destination `i` is seen with every smaller number of the files of its artifact. */
  ghost predicate Emptied(trail: seq<Dirs>, before: Dirs, vs: seq<Variant>, i: nat, accepts: (string, Dir) -> bool)
    requires i < |vs| && HasFiles(before, vs[i])
  {
    forall size: nat :: size < |Artifact(before, vs[i]).Keys| ==> SeenEmptying(trail, before, vs, i, size, accepts)
  }

  ghost predicate SeenEmptying(trail: seq<Dirs>, before: Dirs, vs: seq<Variant>, i: nat, size: nat,
                               accepts: (string, Dir) -> bool) {
    exists k :: 0 <= k < |trail| && Emptying(trail[k], before, vs, i, size, accepts)
  }

  /** Emptying the artifact passes through a state that is neither it nor the old directory. */
  ghost predicate RemovalShows(before: Dirs, v: Variant)
    requires HasFiles(before, v)
  {
    |Artifact(before, v).Keys| > 1 || Get(before, Destination(v.arch)) != Some(map[])
  }

  /** So it is when something is shipped beside the manifest. */
  lemma ComponentsShow(before: Dirs, v: Variant)
    requires HasFiles(before, v) && exists c :: c in v.components && c != MANIFEST
    ensures RemovalShows(before, v)
  {
    var c :| c in v.components && c != MANIFEST;
    var keys := Artifact(before, v).Keys;
    assert MANIFEST in v.Files() && c in v.Files();
    assert {MANIFEST, c} <= keys;
    SubsetIsSmaller({MANIFEST, c}, keys);
  }

  lemma {:induction false} SubsetIsSmaller<T>(a: set<T>, b: set<T>)
    requires a <= b
    ensures |a| <= |b| && (|a| == |b| ==> a == b)
  {
    if x :| x in a {
      SubsetIsSmaller(a - {x}, b - {x});
    }
  }

  /** A destination being emptied is as before, absent or complete only if its removal does not show. */
  lemma EmptyingIsSeen(d: Dirs, before: Dirs, vs: seq<Variant>, i: nat, size: nat, accepts: (string, Dir) -> bool)
    requires Emptying(d, before, vs, i, size, accepts)
    ensures Observable(d, before, vs, accepts) <==>
            Get(before, Destination(vs[i].arch)) == Some(d[Destination(vs[i].arch)])
    ensures !RemovalShows(before, vs[i]) ==> Observable(d, before, vs, accepts)
  {
    var x := d[Destination(vs[i].arch)];
    assert x.Keys != Artifact(before, vs[i]).Keys;
    assert size == 0 ==> x == map[];
    hide Artifact;
  }

  /** The three-way promise holds along a trail exactly when none of the withdrawn destinations shows its removal. */
  lemma ObservableIff(trail: seq<Dirs>, turn: nat, before: Dirs, vs: seq<Variant>, n: nat,
                      accepts: (string, Dir) -> bool)
    requires n <= |vs| && (forall i :: 0 <= i < n ==> HasFiles(before, vs[i]))
    requires Framed(trail, turn, before, vs, n, accepts)
    requires forall i :: 0 <= i < n ==> Emptied(trail, before, vs, i, accepts)
    ensures AllObservable(trail, before, vs, accepts) <==> forall i :: 0 <= i < n ==> !RemovalShows(before, vs[i])
  {
    hide Observable, Emptying, RemovalShows;
    forall i | 0 <= i < n && RemovalShows(before, vs[i])
      ensures !AllObservable(trail, before, vs, accepts)
    {
      SomeSizeShows(trail, before, vs, i, accepts);
    }
    if forall i :: 0 <= i < n ==> !RemovalShows(before, vs[i]) {
      forall k | 0 <= k < |trail|
        ensures Observable(trail[k], before, vs, accepts)
      {
        if BeingEmptied(trail[k], before, vs, n, accepts) {
          var i: nat, size: nat :| i < n && Emptying(trail[k], before, vs, i, size, accepts);
          EmptyingIsSeen(trail[k], before, vs, i, size, accepts);
        }
      }
    }
  }

  lemma SomeSizeShows(trail: seq<Dirs>, before: Dirs, vs: seq<Variant>, i: nat, accepts: (string, Dir) -> bool)
    requires i < |vs| && HasFiles(before, vs[i]) && RemovalShows(before, vs[i])
    requires Emptied(trail, before, vs, i, accepts)
    ensures !AllObservable(trail, before, vs, accepts)
  {
    var destination := Destination(vs[i].arch);
    assert MANIFEST in Artifact(before, vs[i]);
    assert SeenEmptying(trail, before, vs, i, 0, accepts);
    var k :| 0 <= k < |trail| && Emptying(trail[k], before, vs, i, 0, accepts);
    EmptyingIsSeen(trail[k], before, vs, i, 0, accepts);
    if Observable(trail[k], before, vs, accepts) {
      assert SeenEmptying(trail, before, vs, i, 1, accepts);
      var m :| 0 <= m < |trail| && Emptying(trail[m], before, vs, i, 1, accepts);
      EmptyingIsSeen(trail[m], before, vs, i, 1, accepts);
      assert trail[m][destination].Keys != trail[k][destination].Keys;
    }
  }

  /** The states in which a published destination is removed file by file. */
  lemma PeelingIsEmptying(x: Dirs, d: Dirs, before: Dirs, vs: seq<Variant>, i: nat, size: nat,
                          accepts: (string, Dir) -> bool)
    requires i < |vs| && DistinctArchs(vs) && HasFiles(before, vs[i]) && Observable(d, before, vs, accepts)
    requires Get(d, Destination(vs[i].arch)) == Some(Artifact(before, vs[i]))
    requires size < |Artifact(before, vs[i]).Keys| && Peeling(x, d, Destination(vs[i].arch), size)
    ensures Emptying(x, before, vs, i, size, accepts)
  {
    OthersDiffer(vs, i);
    assert IsDestination(vs, Destination(vs[i].arch));
    hide Artifact, HasFiles, Destination;
    forall j | 0 <= j < |vs| && j != i
      ensures WholeDestination(x, before, vs[j], accepts)
    {
      assert WholeDestination(d, before, vs[j], accepts);
      assert Get(x, Destination(vs[j].arch)) == Get(d, Destination(vs[j].arch));
    }
  }

  /** Removing a published destination file by file, seen from the trail. */
  lemma RemovalIsFramed(t: seq<Dirs>, mid: seq<Dirs>, turn: nat, d: Dirs, before: Dirs, vs: seq<Variant>, i: nat,
                        n: nat, accepts: (string, Dir) -> bool)
    requires i < n <= |vs| && DistinctArchs(vs) && turn <= |t| && Framed(t, turn, before, vs, n, accepts)
    requires HasFiles(before, vs[i]) && Get(d, Destination(vs[i].arch)) == Some(Artifact(before, vs[i]))
    requires Observable(d, before, vs, accepts) && Peeled(t, mid, d, Destination(vs[i].arch))
    ensures Framed(mid, turn, before, vs, n, accepts) && Emptied(mid, before, vs, i, accepts)
  {
    var destination, a := Destination(vs[i].arch), Artifact(before, vs[i]);
    GapIsObservable(d, d - {destination}, before, vs, i, accepts);
    var end := |t| + |a.Keys|;
    hide Observable, Emptying, Peeling, HasFiles, Artifact, DistinctArchs, Destination;
    forall k | |t| <= k < end
      ensures Emptying(mid[k], before, vs, i, end - 1 - k, accepts)
    {
      PeelingIsEmptying(mid[k], d, before, vs, i, end - 1 - k, accepts);
    }
    hide Peeled;
    forall size: nat | size < |a.Keys|
      ensures SeenEmptying(mid, before, vs, i, size, accepts)
    {
      assert Emptying(mid[end - 1 - size], before, vs, i, size, accepts);
    }
    forall k | 0 <= k < |mid|
      ensures Observable(mid[k], before, vs, accepts) || (turn <= k && BeingEmptied(mid[k], before, vs, n, accepts))
    {
      if k < |t| {
        assert mid[k] == t[k];
      } else if k < end {
        assert Emptying(mid[k], before, vs, i, end - 1 - k, accepts);
      }
    }
  }

  /** One withdrawal, seen from the trail. */
  lemma WithdrawalIsFramed(t: seq<Dirs>, mid: seq<Dirs>, t': seq<Dirs>, turn: nat, d: Dirs, d': Dirs, before: Dirs,
                           vs: seq<Variant>, i: nat, n: nat, accepts: (string, Dir) -> bool)
    requires i < n <= |vs| && DistinctArchs(vs) && turn <= |t| && Framed(t, turn, before, vs, n, accepts)
    requires HasFiles(before, vs[i]) && Get(d, Destination(vs[i].arch)) == Some(Artifact(before, vs[i]))
    requires Observable(d, before, vs, accepts) && Observable(d', before, vs, accepts)
    requires Peeled(t, mid, d, Destination(vs[i].arch)) && (t' == mid || t' == mid + [d'])
    ensures Framed(t', turn, before, vs, n, accepts) && Emptied(t', before, vs, i, accepts) && t <= t'
  {
    hide *;
    RemovalIsFramed(t, mid, turn, d, before, vs, i, n, accepts);
    PeeledExtends(t, mid, d, Destination(vs[i].arch));
    if t' != mid {
      assert t' == mid + [d'];
      FramedGrows(mid, d', turn, before, vs, n, accepts);
      EmptiedStays(mid, t', before, vs, i, i + 1, accepts);
    }
  }

  lemma FramedGrows(t: seq<Dirs>, d: Dirs, turn: nat, before: Dirs, vs: seq<Variant>, n: nat,
                    accepts: (string, Dir) -> bool)
    requires Framed(t, turn, before, vs, n, accepts) && Observable(d, before, vs, accepts)
    ensures Framed(t + [d], turn, before, vs, n, accepts)
  {
    hide Observable, BeingEmptied;
    var t' := t + [d];
    assert forall k :: 0 <= k < |t| ==> t'[k] == t[k];
  }

  /** What a trail has shown it shows when it grows. */
  lemma EmptiedStays(t: seq<Dirs>, t': seq<Dirs>, before: Dirs, vs: seq<Variant>, n: nat, m: nat,
                     accepts: (string, Dir) -> bool)
    requires t <= t' && n <= m <= |vs| && forall i :: n <= i < m ==> HasFiles(before, vs[i])
    requires forall i :: n <= i < m ==> Emptied(t, before, vs, i, accepts)
    ensures forall i :: n <= i < m ==> Emptied(t', before, vs, i, accepts)
  {
    hide HasFiles, Artifact, Emptying;
    forall i, size: nat | n <= i < m && size < |Artifact(before, vs[i]).Keys|
      ensures SeenEmptying(t', before, vs, i, size, accepts)
    {
      assert Emptied(t, before, vs, i, accepts) && SeenEmptying(t, before, vs, i, size, accepts);
      var k :| 0 <= k < |t| && Emptying(t[k], before, vs, i, size, accepts);
      assert t'[k] == t[k];
    }
  }

  /** Up to `turn` the trail is observable; after it the first `n` destinations are emptied file by file, and nothing
      else is out of the ordinary. */
  ghost predicate Withdrew(trail: seq<Dirs>, turn: nat, before: Dirs, vs: seq<Variant>, n: nat,
                           accepts: (string, Dir) -> bool) {
    && n <= |vs| && turn <= |trail| && Framed(trail, turn, before, vs, n, accepts)
    && (forall i :: 0 <= i < n ==> HasFiles(before, vs[i]) && Emptied(trail, before, vs, i, accepts))
  }

  lemma NothingWithdrawn(trail: seq<Dirs>, before: Dirs, vs: seq<Variant>, accepts: (string, Dir) -> bool)
    requires AllObservable(trail, before, vs, accepts)
    ensures Withdrew(trail, |trail|, before, vs, 0, accepts)
  {
  }

  /** More observable states behind a trail. */
  lemma WithdrewGrows(t: seq<Dirs>, t': seq<Dirs>, turn: nat, before: Dirs, vs: seq<Variant>, n: nat,
                      accepts: (string, Dir) -> bool)
    requires Withdrew(t, turn, before, vs, n, accepts) && t <= t'
    requires forall k :: |t| <= k < |t'| ==> Observable(t'[k], before, vs, accepts)
    ensures Withdrew(t', turn, before, vs, n, accepts)
  {
    EmptiedStays(t, t', before, vs, 0, n, accepts);
    hide Observable, BeingEmptied, Emptied, HasFiles;
    forall k | 0 <= k < |t'|
      ensures Observable(t'[k], before, vs, accepts) || (turn <= k && BeingEmptied(t'[k], before, vs, n, accepts))
    {
      if k < |t| {
        assert t'[k] == t[k];
      }
    }
  }

  /** The catch block: withdraws what was published, newest first. */
  method Rollback(disk: Disk, published: seq<string>, backups: map<string, Path>,
                  ghost before: Dirs, ghost vs: seq<Variant>, ghost accepts: (string, Dir) -> bool)
    requires DistinctArchs(vs) && Qualified(before, vs, accepts) && Listed(published, vs)
    requires PublishedUpTo(disk.dirs, before, vs, |published|, backups)
             && AllObservable(disk.trail, before, vs, accepts)
    modifies disk`dirs, disk`trail
    ensures OutsideAsBefore(disk.dirs, before)
    ensures Withdrew(disk.trail, |old(disk.trail)|, before, vs, |published|, accepts)
  {
    var i := |published|;
    ghost var turn := |disk.trail|;
    hide Observable;
    assert Framed(disk.trail, turn, before, vs, i, accepts);
    hide DistinctArchs, Qualified, Framed, Emptied;
    while i > 0
      invariant 0 <= i <= |published|
      invariant Withdrawing(disk.dirs, disk.trail, turn, before, vs, i, |published|, backups, accepts)
    {
      i := i - 1;
      WithdrawRound(disk, published[i], backups, turn, before, vs, i, |published|, accepts);
    }
    assert forall p :: IsDestination(vs, p) ==> Get(disk.dirs, p) == Get(before, p);
  }

  /** What the rollback keeps. */
  ghost predicate Withdrawing(d: Dirs, t: seq<Dirs>, turn: nat, before: Dirs, vs: seq<Variant>, i: nat, n: nat,
                              backups: map<string, Path>, accepts: (string, Dir) -> bool)
    requires i <= n <= |vs| && forall j :: 0 <= j < |vs| ==> HasFiles(before, vs[j])
  {
    && PublishedUpTo(d, before, vs, i, backups)
    && turn <= |t| && Framed(t, turn, before, vs, n, accepts)
    && (forall j :: i <= j < n ==> Emptied(t, before, vs, j, accepts))
  }

  /** One round of the rollback. */
  method WithdrawRound(disk: Disk, arch: string, backups: map<string, Path>, ghost turn: nat, ghost before: Dirs,
                       ghost vs: seq<Variant>, ghost i: nat, ghost n: nat, ghost accepts: (string, Dir) -> bool)
    requires DistinctArchs(vs) && Qualified(before, vs, accepts) && i < n <= |vs| && arch == vs[i].arch
    requires Withdrawing(disk.dirs, disk.trail, turn, before, vs, i + 1, n, backups, accepts)
    modifies disk`dirs, disk`trail
    ensures Withdrawing(disk.dirs, disk.trail, turn, before, vs, i, n, backups, accepts)
  {
    ghost var d, t := disk.dirs, disk.trail;
    WithdrawalUndoes(d, before, vs, i, backups);
    assert forall j :: 0 <= j < |vs| ==> HasFiles(before, vs[j]);
    hide *;
    ghost var mid := Withdraw(disk, arch, backups);
    WithdrawalKeeps(t, mid, disk.trail, turn, d, disk.dirs, before, vs, i, n, backups, accepts);
  }

  lemma WithdrawalKeeps(t: seq<Dirs>, mid: seq<Dirs>, t': seq<Dirs>, turn: nat, d: Dirs, d': Dirs, before: Dirs,
                        vs: seq<Variant>, i: nat, n: nat, backups: map<string, Path>, accepts: (string, Dir) -> bool)
    requires DistinctArchs(vs) && Qualified(before, vs, accepts) && i < n <= |vs|
    requires Withdrawing(d, t, turn, before, vs, i + 1, n, backups, accepts)
    requires PublishedUpTo(d', before, vs, i, backups)
    requires Peeled(t, mid, d, Destination(vs[i].arch)) && (t' == mid || t' == mid + [d'])
    ensures Withdrawing(d', t', turn, before, vs, i, n, backups, accepts)
  {
    hide Framed, Emptied, Observable, DistinctArchs, Peeled;
    PublishedIsObservable(d, before, vs, i + 1, backups, accepts);
    PublishedIsObservable(d', before, vs, i, backups, accepts);
    hide Qualified;
    WithdrawalIsFramed(t, mid, t', turn, d, d', before, vs, i, n, accepts);
    hide PublishedUpTo;
    EmptiedStays(t, t', before, vs, i + 1, n, accepts);
  }

  method Withdraw(disk: Disk, arch: string, backups: map<string, Path>) returns (ghost mid: seq<Dirs>)
    requires arch in backups ==> backups[arch] == BackupAt(arch) && BackupAt(arch) in disk.dirs
    modifies disk`dirs, disk`trail
    ensures disk.dirs == Withdrawn(old(disk.dirs), arch, backups)
    ensures Peeled(old(disk.trail), mid, old(disk.dirs), Destination(arch))
    ensures disk.trail == mid || disk.trail == mid + [disk.dirs]
  {
    disk.Remove(Destination(arch));
    mid := disk.trail;
    if arch in backups {
      disk.Move(backups[arch], Destination(arch));
    }
  }

  lemma TrailGrows(t: seq<Dirs>, t': seq<Dirs>, before: Dirs, vs: seq<Variant>, accepts: (string, Dir) -> bool,
                   states: set<Dirs>)
    requires AllObservable(t, before, vs, accepts) && t <= t'
    requires forall k :: |t| <= k < |t'| ==> t'[k] in states
    requires forall d :: d in states ==> Observable(d, before, vs, accepts)
    ensures AllObservable(t', before, vs, accepts)
  {
    hide Observable;
    assert forall k :: 0 <= k < |t| ==> t'[k] == t[k];
  }

  // ---------------------------------------------------------------- the whole packaging run

  /** Every destination holds its accepted artifact; nothing else outside the staging root has changed. */
  ghost predicate Installed(d: Dirs, before: Dirs, vs: seq<Variant>, accepts: (string, Dir) -> bool) {
    && (forall p :: !IsDestination(vs, p) ==> Get(d, p) == Get(before, p))
    && (forall i :: 0 <= i < |vs| ==> HasFiles(before, vs[i])
                                      && Get(d, Destination(vs[i].arch)) == Some(Artifact(before, vs[i]))
                                      && accepts(vs[i].arch, Artifact(before, vs[i])))
  }

  ghost predicate AllInstalled(d: Dirs, before: Dirs, vs: seq<Variant>) {
    forall i :: 0 <= i < |vs| ==>
      HasFiles(before, vs[i]) && Get(d, Destination(vs[i].arch)) == Some(Artifact(before, vs[i]))
  }

  /** Stages and verifies every variant; nothing outside the staging root changes. */
  method StageAll(disk: Disk, vs: seq<Variant>, accepts: (string, Dir) -> bool, ghost before: Dirs) returns (ok: bool)
    requires DistinctArchs(vs)
    requires StagedUpTo(disk.dirs, before, vs, 0, accepts) && AllObservable(disk.trail, before, vs, accepts)
    modifies disk`dirs, disk`clock, disk`trail
    ensures OutsideAsBefore(disk.dirs, before) && AllObservable(disk.trail, before, vs, accepts)
    ensures ok ==> StagedUpTo(disk.dirs, before, vs, |vs|, accepts)
    ensures ok <==> Qualified(before, vs, accepts)
                    && Calm(disk.faults, old(disk.clock), old(disk.clock) + StageCosts(vs, |vs|))
    ensures ok ==> disk.clock == old(disk.clock) + StageCosts(vs, |vs|)
  {
    ghost var c := disk.clock;
    assert CopiedUpTo(disk.faults, c, c, vs, 0);
    hide *;
    for i := 0 to |vs|
      invariant CopiedUpTo(disk.faults, c, disk.clock, vs, i)
      invariant StagedUpTo(disk.dirs, before, vs, i, accepts) && AllObservable(disk.trail, before, vs, accepts)
    {
      NextStaging(disk.faults, c, disk.clock, vs, i, before, accepts);
      ok := StageVariant(disk, vs[i], accepts, before, vs, i);
      if !ok { return; }
    }
    StagedIsQualified(disk.dirs, before, vs, accepts);
    AllCopied(disk.faults, c, disk.clock, vs);
    ok := true;
  }

  /** The first `n` variants were staged between two moments. */
  ghost predicate CopiedUpTo(faults: nat -> bool, clock: nat, now: nat, vs: seq<Variant>, n: nat) {
    n <= |vs| && now == clock + StageCosts(vs, n) && Calm(faults, clock, now)
  }

  lemma AllCopied(faults: nat -> bool, clock: nat, now: nat, vs: seq<Variant>)
    requires CopiedUpTo(faults, clock, now, vs, |vs|)
    ensures now == clock + StageCosts(vs, |vs|) && Calm(faults, clock, clock + StageCosts(vs, |vs|))
  {
  }

  /** Staging one more variant, or the first that cannot be staged. */
  lemma NextStaging(faults: nat -> bool, clock: nat, now: nat, vs: seq<Variant>, i: nat, before: Dirs,
                    accepts: (string, Dir) -> bool)
    requires i < |vs| && CopiedUpTo(faults, clock, now, vs, i)
    ensures var cost := StageCost(vs[i]);
            if Calm(faults, now, now + cost) then CopiedUpTo(faults, clock, now + cost, vs, i + 1)
            else !Calm(faults, clock, clock + StageCosts(vs, |vs|))
    ensures Qualified(before, vs, accepts) ==> HasFiles(before, vs[i]) && accepts(vs[i].arch, Artifact(before, vs[i]))
  {
    StagingCosts(vs, i + 1, |vs|);
    hide StageCost, HasFiles, Artifact;
  }

  lemma StagedIsQualified(d: Dirs, before: Dirs, vs: seq<Variant>, accepts: (string, Dir) -> bool)
    requires StagedUpTo(d, before, vs, |vs|, accepts)
    ensures Qualified(before, vs, accepts) && OutsideAsBefore(d, before)
  {
  }

  lemma {:induction false} StagingCosts(vs: seq<Variant>, n: nat, m: nat)
    requires n <= m <= |vs|
    ensures StageCosts(vs, n) <= StageCosts(vs, m)
  {
    if n < m {
      StagingCosts(vs, n, m - 1);
    }
  }

  /** What is observable does not depend on the staging root. */
  lemma OutsideObservable(d: Dirs, d': Dirs, before: Dirs, vs: seq<Variant>, accepts: (string, Dir) -> bool)
    requires forall p :: !InStaging(p) ==> Get(d', p) == Get(d, p)
    ensures Observable(d, before, vs, accepts) ==> Observable(d', before, vs, accepts)
  {
    if Observable(d, before, vs, accepts) {
      forall i | 0 <= i < |vs|
        ensures WholeDestination(d', before, vs[i], accepts)
      {
        assert WholeDestination(d, before, vs[i], accepts);
      }
    }
  }

  lemma SameOutsideIsObservable(t: seq<Dirs>, t': seq<Dirs>, d: Dirs, before: Dirs, vs: seq<Variant>,
                                accepts: (string, Dir) -> bool)
    requires t <= t' && Observable(d, before, vs, accepts)
    requires forall k :: |t| <= k < |t'| ==> SameOutside(t'[k], d)
    ensures forall k :: |t| <= k < |t'| ==> Observable(t'[k], before, vs, accepts)
    ensures AllObservable(t, before, vs, accepts) ==> AllObservable(t', before, vs, accepts)
  {
    forall k | |t| <= k < |t'|
      ensures Observable(t'[k], before, vs, accepts)
    {
      OutsideObservable(d, t'[k], before, vs, accepts);
    }
    hide Observable;
    assert forall k :: 0 <= k < |t| ==> t'[k] == t[k];
  }

  /** Removes the backups of a run that succeeded; they all lie under the staging root. */
  method CleanBackups(disk: Disk, published: seq<string>, backups: map<string, Path>,
                      ghost before: Dirs, ghost vs: seq<Variant>, ghost accepts: (string, Dir) -> bool)
    requires forall a :: a in backups ==> InStaging(backups[a])
    requires Observable(disk.dirs, before, vs, accepts) && AllObservable(disk.trail, before, vs, accepts)
    modifies disk`dirs, disk`trail
    ensures forall p :: !InStaging(p) ==> Get(disk.dirs, p) == Get(old(disk.dirs), p)
    ensures Observable(disk.dirs, before, vs, accepts) && AllObservable(disk.trail, before, vs, accepts)
  {
    for i := 0 to |published|
      invariant forall p :: !InStaging(p) ==> Get(disk.dirs, p) == Get(old(disk.dirs), p)
      invariant Observable(disk.dirs, before, vs, accepts) && AllObservable(disk.trail, before, vs, accepts)
    {
      if published[i] in backups {
        ghost var d, t := disk.dirs, disk.trail;
        disk.Remove(backups[published[i]]);
        PeeledOutside(t, disk.trail, d, backups[published[i]]);
        SameOutsideIsObservable(t, disk.trail, d, before, vs, accepts);
        OutsideObservable(d, disk.dirs, before, vs, accepts);
      }
    }
  }

  /** What the publish loop keeps. */
  ghost predicate PublishInvariant(disk: Disk, before: Dirs, vs: seq<Variant>, n: nat, backups: map<string, Path>,
                                   accepts: (string, Dir) -> bool)
    requires n <= |vs|
    reads disk`dirs, disk`trail
  {
    && PublishedUpTo(disk.dirs, before, vs, n, backups) && WaitingFrom(disk.dirs, before, vs, n, backups)
    && AllObservable(disk.trail, before, vs, accepts)
  }

  /** One round of the publish loop, within a run. */
  method PublishRound(disk: Disk, vs: seq<Variant>, n: nat, backups: map<string, Path>,
                      ghost accepts: (string, Dir) -> bool, ghost before: Dirs)
    returns (r: Result<(), ErrorCode>, kept: map<string, Path>)
    requires DistinctArchs(vs) && n < |vs| && Qualified(before, vs, accepts)
    requires PublishInvariant(disk, before, vs, n, backups, accepts)
    modifies disk`dirs, disk`clock, disk`trail
    ensures r.Ok? ==> PublishInvariant(disk, before, vs, n + 1, kept, accepts)
    ensures r.Err? ==> PublishInvariant(disk, before, vs, n, kept, accepts)
    ensures r.Ok? <==>
            Calm(disk.faults, old(disk.clock), old(disk.clock) + RoundCost(before, vs[n].arch))
    ensures r.Ok? ==> disk.clock == old(disk.clock) + RoundCost(before, vs[n].arch)
  {
    ghost var d, t, arch := disk.dirs, disk.trail, vs[n].arch;
    assert Get(d, StagedAt(arch)) == Some(Artifact(before, vs[n])) && Get(d, BackupAt(arch)) == None;
    assert Get(d, Destination(arch)) == Get(before, Destination(arch));
    ghost var swapped := if Destination(arch) in d then backups[arch := BackupAt(arch)] else backups;
    hide PublishedUpTo, Qualified, AllObservable, MovedAside, SwappedIn, Observable;
    r, kept := PublishOne(disk, vs[n].arch, backups);
    RoundIsObservable(t, disk.trail, d, before, vs, n, backups, swapped, accepts);
    if r.Ok? {
      SwapPublishes(d, before, vs, n, backups, kept);
    }
  }

  /** All variants are published, and the roots are as before. */
  ghost predicate InPlace(d: Dirs, before: Dirs, vs: seq<Variant>, accepts: (string, Dir) -> bool) {
    && Observable(d, before, vs, accepts) && AllInstalled(d, before, vs)
    && forall p :: IsRoot(p) ==> Get(d, p) == Get(before, p)
  }

  /** How the publish loop that starts at `clock` ends, and how many rounds are taken back. */
  ghost predicate LoopEnds(faults: nat -> bool, clock: nat, d: Dirs, vs: seq<Variant>, ok: bool, undone: nat) {
    if Calm(faults, clock, clock + RoundCosts(d, vs, |vs|)) then ok && undone == 0
    else !ok && StopsAfter(faults, clock, d, vs, undone)
  }

  lemma LoopHasEnded(faults: nat -> bool, clock: nat, now: nat, d: Dirs, vs: seq<Variant>, ok: bool, n: nat)
    requires if ok then Completed(faults, clock, now, d, vs, |vs|) else StopsAfter(faults, clock, d, vs, n)
    ensures LoopEnds(faults, clock, d, vs, ok, if ok then 0 else n)
  {
    if !ok {
      StopsOnce(faults, clock, d, vs, n, n);
    }
  }

  lemma SameEnd(faults: nat -> bool, clock: nat, d: Dirs, d': Dirs, vs: seq<Variant>, ok: bool, n: nat)
    requires forall p: Path :: p.Worker? ==> (p in d <==> p in d')
    ensures LoopEnds(faults, clock, d, vs, ok, n) <==> LoopEnds(faults, clock, d', vs, ok, n)
  {
    SameCosts(d, d', vs, |vs|);
    SameStops(faults, clock, d, d', vs, n);
  }

  /** The publish loop with its rollback, which takes back the first `undone` rounds. */
  method PublishAll(disk: Disk, vs: seq<Variant>, ghost accepts: (string, Dir) -> bool, ghost before: Dirs)
    returns (r: Result<(), ErrorCode>, ghost turn: nat, ghost undone: nat)
    requires DistinctArchs(vs) && StagedUpTo(disk.dirs, before, vs, |vs|, accepts)
    requires AllObservable(disk.trail, before, vs, accepts)
    modifies disk`dirs, disk`clock, disk`trail
    ensures Qualified(before, vs, accepts) && Withdrew(disk.trail, turn, before, vs, undone, accepts)
    ensures if r.Ok? then InPlace(disk.dirs, before, vs, accepts) else OutsideAsBefore(disk.dirs, before)
    ensures LoopEnds(disk.faults, old(disk.clock), before, vs, r.Ok?, undone)
  {
    StagedIsWaiting(disk.dirs, before, vs, accepts);
    hide PublishedUpTo, WaitingFrom, Qualified, Observable, StagedUpTo, OutsideAsBefore, AllInstalled, AllObservable;
    hide Withdrew, StopsAfter, Completed, LoopEnds;
    var published, backups;
    ghost var clock := disk.clock;
    r, published, backups := PublishLoop(disk, vs, accepts, before);
    LoopHasEnded(disk.faults, clock, disk.clock, before, vs, r.Ok?, |published|);
    if r.Err? {
      turn, undone := |disk.trail|, |published|;
      Rollback(disk, published, backups, before, vs, accepts);
      return;
    }
    ghost var d := disk.dirs;
    PublishedIsObservable(d, before, vs, |vs|, backups, accepts);
    AllPublished(d, before, vs, backups);
    CleanBackups(disk, published, backups, before, vs, accepts);
    StillInstalled(d, disk.dirs, before, vs);
    NothingWithdrawn(disk.trail, before, vs, accepts);
    turn, undone := |disk.trail|, 0;
  }

  /** The publish loop itself, up to the first failure. */
  method PublishLoop(disk: Disk, vs: seq<Variant>, ghost accepts: (string, Dir) -> bool, ghost before: Dirs)
    returns (r: Result<(), ErrorCode>, published: seq<string>, backups: map<string, Path>)
    requires DistinctArchs(vs) && Qualified(before, vs, accepts)
    requires PublishInvariant(disk, before, vs, 0, map[], accepts)
    modifies disk`dirs, disk`clock, disk`trail
    ensures Listed(published, vs) && PublishInvariant(disk, before, vs, |published|, backups, accepts)
    ensures r.Ok? ==> Completed(disk.faults, old(disk.clock), disk.clock, before, vs, |vs|) && |published| == |vs|
    ensures r.Err? ==> StopsAfter(disk.faults, old(disk.clock), before, vs, |published|)
  {
    backups, published := map[], [];
    ghost var c := disk.clock;
    assert Completed(disk.faults, c, c, before, vs, 0);
    hide *;
    for i := 0 to |vs|
      invariant |published| == i && PublishInvariant(disk, before, vs, i, backups, accepts)
      invariant Listed(published, vs) && Completed(disk.faults, c, disk.clock, before, vs, i)
    {
      NextRound(disk.faults, c, disk.clock, before, vs, i);
      r, backups := PublishRound(disk, vs, i, backups, accepts, before);
      if r.Err? {
        return;
      }
      OneMoreListed(published, vs);
      published := published + [vs[i].arch];
    }
    r := Ok(());
  }

  /** The first architectures, in order. */
  ghost predicate Listed(published: seq<string>, vs: seq<Variant>) {
    |published| <= |vs| && forall j :: 0 <= j < |published| ==> published[j] == vs[j].arch
  }

  lemma OneMoreListed(published: seq<string>, vs: seq<Variant>)
    requires Listed(published, vs) && |published| < |vs|
    ensures Listed(published + [vs[|published|].arch], vs)
  {
  }

  lemma StagedIsWaiting(d: Dirs, before: Dirs, vs: seq<Variant>, accepts: (string, Dir) -> bool)
    requires StagedUpTo(d, before, vs, |vs|, accepts)
    ensures Qualified(before, vs, accepts) && PublishedUpTo(d, before, vs, 0, map[])
            && WaitingFrom(d, before, vs, 0, map[])
  {
  }

  lemma AllPublished(d: Dirs, before: Dirs, vs: seq<Variant>, backups: map<string, Path>)
    requires PublishedUpTo(d, before, vs, |vs|, backups)
    ensures AllInstalled(d, before, vs) && forall p :: IsRoot(p) ==> Get(d, p) == Get(before, p)
    ensures forall a :: a in backups ==> InStaging(backups[a])
  {
  }

  lemma StillInstalled(d: Dirs, d': Dirs, before: Dirs, vs: seq<Variant>)
    requires AllInstalled(d, before, vs) && forall p :: !InStaging(p) ==> Get(d', p) == Get(d, p)
    ensures AllInstalled(d', before, vs)
  {
  }

  /** Making a root changes nothing that is published or shipped. */
  lemma RootsDoNotMatter(before: Dirs, p: Path, vs: seq<Variant>, accepts: (string, Dir) -> bool)
    requires IsRoot(p)
    ensures forall d: Dirs :: Observable(d, WithDir(before, p), vs, accepts) <==> Observable(d, before, vs, accepts)
    ensures Qualified(WithDir(before, p), vs, accepts) <==> Qualified(before, vs, accepts)
  {
    var b := WithDir(before, p);
    assert forall q :: q != p ==> Get(b, q) == Get(before, q);
    forall i | 0 <= i < |vs|
      ensures HasFiles(b, vs[i]) <==> HasFiles(before, vs[i])
      ensures HasFiles(before, vs[i]) ==> Artifact(b, vs[i]) == Artifact(before, vs[i])
    {
    }
    forall d: Dirs
      ensures Observable(d, b, vs, accepts) <==> Observable(d, before, vs, accepts)
    {
      forall i | 0 <= i < |vs|
        ensures WholeDestination(d, b, vs[i], accepts) <==> WholeDestination(d, before, vs[i], accepts)
      {
      }
    }
  }

  /** Nor what a rollback shows. */
  lemma RootsDoNotShow(before: Dirs, p: Path, trail: seq<Dirs>, turn: nat, vs: seq<Variant>, n: nat,
                       accepts: (string, Dir) -> bool)
    requires IsRoot(p) && Withdrew(trail, turn, WithDir(before, p), vs, n, accepts)
    ensures Withdrew(trail, turn, before, vs, n, accepts)
  {
    var b := WithDir(before, p);
    RootsDoNotMatter(before, p, vs, accepts);
    forall d: Dirs, i: nat, size: nat | Emptying(d, b, vs, i, size, accepts)
      ensures Emptying(d, before, vs, i, size, accepts)
    {
      RootsKeepEmptying(before, p, d, vs, i, size, accepts);
    }
    hide Observable, Emptying;
    forall k | 0 <= k < |trail| && BeingEmptied(trail[k], b, vs, n, accepts)
      ensures BeingEmptied(trail[k], before, vs, n, accepts)
    {
      var i: nat, size: nat :| i < n && Emptying(trail[k], b, vs, i, size, accepts);
    }
    forall i | 0 <= i < n
      ensures HasFiles(before, vs[i]) && Emptied(trail, before, vs, i, accepts)
    {
      assert Emptied(trail, b, vs, i, accepts);
      assert Artifact(before, vs[i]) == Artifact(b, vs[i]);
      forall size: nat | size < |Artifact(before, vs[i]).Keys|
        ensures SeenEmptying(trail, before, vs, i, size, accepts)
      {
        assert SeenEmptying(trail, b, vs, i, size, accepts);
      }
    }
  }

  lemma RootsKeepEmptying(before: Dirs, p: Path, d: Dirs, vs: seq<Variant>, i: nat, size: nat,
                          accepts: (string, Dir) -> bool)
    requires IsRoot(p) && Emptying(d, WithDir(before, p), vs, i, size, accepts)
    ensures Emptying(d, before, vs, i, size, accepts)
  {
    var b := WithDir(before, p);
    assert forall q :: q != p ==> Get(b, q) == Get(before, q);
    forall j | 0 <= j < |vs|
      ensures HasFiles(b, vs[j]) <==> HasFiles(before, vs[j])
      ensures HasFiles(before, vs[j]) ==> Artifact(b, vs[j]) == Artifact(before, vs[j])
    {
    }
    forall j | 0 <= j < |vs| && j != i
      ensures WholeDestination(d, before, vs[j], accepts)
    {
      assert WholeDestination(d, b, vs[j], accepts);
    }
  }

  lemma StagedWithRoot(d: Dirs, before: Dirs, vs: seq<Variant>, accepts: (string, Dir) -> bool, p: Path)
    requires IsRoot(p) && StagedUpTo(d, before, vs, |vs|, accepts)
    ensures StagedUpTo(WithDir(d, p), WithDir(before, p), vs, |vs|, accepts)
  {
    assert Get(d, p) == Get(before, p);
    forall i | 0 <= i < |vs|
      ensures HasFiles(WithDir(before, p), vs[i])
      ensures Artifact(WithDir(before, p), vs[i]) == Artifact(before, vs[i])
    {
    }
  }

  /** How many published destinations a run takes back, when the `try` starts at `clock`: staging succeeds, and of the
      publish loop's rounds `n` are completed before one meets a failure. */
  ghost predicate TakesBack(faults: nat -> bool, clock: nat, d: Dirs, vs: seq<Variant>,
                            accepts: (string, Dir) -> bool, n: nat) {
    var publishing := clock + StageCosts(vs, |vs|) + 1;
    if Qualified(d, vs, accepts) && Calm(faults, clock, publishing)
          && !Calm(faults, publishing, publishing + RoundCosts(d, vs, |vs|))
    then StopsAfter(faults, publishing, d, vs, n)
    else n == 0
  }

  /** The operations of a `try` that succeeds. */
  function TryCost(d: Dirs, vs: seq<Variant>): nat {
    StageCosts(vs, |vs|) + 1 + RoundCosts(d, vs, |vs|)
  }

  /** The body of the `try`: stages, makes the destination root, publishes. */
  method StageAndPublish(disk: Disk, vs: seq<Variant>, accepts: (string, Dir) -> bool, ghost before: Dirs)
    returns (r: Result<(), ErrorCode>, ghost turn: nat, ghost undone: nat)
    requires DistinctArchs(vs) && StagedUpTo(disk.dirs, before, vs, 0, accepts)
    requires AllObservable(disk.trail, before, vs, accepts)
    modifies disk`dirs, disk`clock, disk`trail
    ensures Withdrew(disk.trail, turn, before, vs, undone, accepts)
    ensures TakesBack(disk.faults, old(disk.clock), before, vs, accepts, undone)
    ensures r.Ok? ==> InPlace(disk.dirs, WithDir(before, WorkerRoot), vs, accepts)
    ensures r.Err? ==> OutsideAsBefore(disk.dirs, before) || OutsideAsBefore(disk.dirs, WithDir(before, WorkerRoot))
    ensures r.Ok? <==> Qualified(before, vs, accepts)
                       && Calm(disk.faults, old(disk.clock), old(disk.clock) + TryCost(before, vs))
  {
    var ok := StageAll(disk, vs, accepts, before);
    turn, undone := |disk.trail|, 0;
    NothingWithdrawn(disk.trail, before, vs, accepts);
    ghost var clock := disk.clock;
    hide Observable, StagedUpTo, OutsideAsBefore, AllObservable, Qualified, Withdrew, InPlace, LoopEnds;
    if !ok { return Err(REJECTED), turn, undone; }
    r, turn, undone := PublishStaged(disk, vs, accepts, before);
    TryEnds(disk.faults, clock, before, vs, accepts, r.Ok?, undone);
  }

  lemma TryEnds(faults: nat -> bool, clock: nat, d: Dirs, vs: seq<Variant>, accepts: (string, Dir) -> bool,
                ok: bool, undone: nat)
    requires StageCosts(vs, |vs|) <= clock && Qualified(d, vs, accepts)
    requires Calm(faults, clock - StageCosts(vs, |vs|), clock)
    requires if faults(clock) then !ok && undone == 0 else LoopEnds(faults, clock + 1, d, vs, ok, undone)
    ensures var start := clock - StageCosts(vs, |vs|);
      && TakesBack(faults, start, d, vs, accepts, undone)
      && (ok <==> Calm(faults, start, start + TryCost(d, vs)))
  {
    hide Qualified, StageCosts, RoundCosts;
  }

  /** Makes the destination root and publishes. */
  method PublishStaged(disk: Disk, vs: seq<Variant>, ghost accepts: (string, Dir) -> bool, ghost before: Dirs)
    returns (r: Result<(), ErrorCode>, ghost turn: nat, ghost undone: nat)
    requires DistinctArchs(vs) && StagedUpTo(disk.dirs, before, vs, |vs|, accepts)
    requires AllObservable(disk.trail, before, vs, accepts)
    modifies disk`dirs, disk`clock, disk`trail
    ensures Withdrew(disk.trail, turn, before, vs, undone, accepts)
    ensures r.Ok? ==> InPlace(disk.dirs, WithDir(before, WorkerRoot), vs, accepts)
    ensures r.Err? ==> OutsideAsBefore(disk.dirs, before) || OutsideAsBefore(disk.dirs, WithDir(before, WorkerRoot))
    ensures if disk.faults(old(disk.clock)) then r.Err? && undone == 0
            else LoopEnds(disk.faults, old(disk.clock) + 1, before, vs, r.Ok?, undone)
  {
    ghost var d, t, rooted := disk.dirs, disk.trail, WithDir(before, WorkerRoot);
    turn, undone := |t|, 0;
    NothingWithdrawn(t, before, vs, accepts);
    ReadyToPublish(d, t, before, vs, accepts);
    hide *;
    var ok := disk.EnsureDir(WorkerRoot);
    if !ok { return Err(EIO), turn, undone; }
    ghost var publishing := disk.clock;
    assert disk.trail in {t, t + [WithDir(d, WorkerRoot)]};
    r, turn, undone := PublishAll(disk, vs, accepts, rooted);
    RootsDoNotShow(before, WorkerRoot, disk.trail, turn, vs, undone, accepts);
    SameEnd(disk.faults, publishing, before, rooted, vs, r.Ok?, undone);
  }

  lemma ReadyToPublish(d: Dirs, t: seq<Dirs>, before: Dirs, vs: seq<Variant>, accepts: (string, Dir) -> bool)
    requires StagedUpTo(d, before, vs, |vs|, accepts) && AllObservable(t, before, vs, accepts)
    ensures var rooted, made := WithDir(before, WorkerRoot), WithDir(d, WorkerRoot);
      && StagedUpTo(made, rooted, vs, |vs|, accepts) && OutsideAsBefore(d, before)
      && AllObservable(t, rooted, vs, accepts) && AllObservable(t + [made], rooted, vs, accepts)
      && (forall p: Path :: p.Worker? ==> (p in before <==> p in rooted)) && IsRoot(WorkerRoot)
  {
    var rooted, made := WithDir(before, WorkerRoot), WithDir(d, WorkerRoot);
    RootsDoNotMatter(before, WorkerRoot, vs, accepts);
    StagedWithRoot(d, before, vs, accepts, WorkerRoot);
    OutsideIsObservable(made, rooted, vs, accepts);
    hide Observable, StagedUpTo;
    TrailGrows(t, t + [made], rooted, vs, accepts, {made});
  }

  lemma SameStops(faults: nat -> bool, clock: nat, d: Dirs, d': Dirs, vs: seq<Variant>, n: nat)
    requires forall p: Path :: p.Worker? ==> (p in d <==> p in d')
    ensures StopsAfter(faults, clock, d, vs, n) <==> StopsAfter(faults, clock, d', vs, n)
  {
    if n < |vs| {
      SameCosts(d, d', vs, n);
      SameCosts(d, d', vs, n + 1);
    }
  }

  /** `mkdir`, `mkdtemp`, `mkdir`: what stands before the `try`. When the last one fails the new staging root stays. */
  method OpenStaging(disk: Disk, ghost vs: seq<Variant>, ghost accepts: (string, Dir) -> bool) returns (ok: bool)
    requires disk.trail == [] && forall p :: InStaging(p) ==> p !in disk.dirs
    modifies disk`dirs, disk`clock, disk`trail
    ensures ok ==> disk.dirs == WithDir(old(disk.dirs), PublicationRoot)[StagingRoot := map[]][StagedRoot := map[]]
    ensures !ok ==> disk.dirs in {old(disk.dirs), WithDir(old(disk.dirs), PublicationRoot),
                                  WithDir(old(disk.dirs), PublicationRoot)[StagingRoot := map[]]}
    ensures Stranded(disk.faults, old(disk.clock)) <==> !ok && StagingRoot in disk.dirs
    ensures ok <==> Calm(disk.faults, old(disk.clock), old(disk.clock) + 3)
    ensures ok ==> disk.clock == old(disk.clock) + 3
    ensures AllObservable(disk.trail, old(disk.dirs), vs, accepts)
  {
    ghost var before, start := disk.dirs, WithDir(disk.dirs, PublicationRoot);
    OpeningIsObservable(before, vs, accepts);
    hide Observable;
    ok := disk.EnsureDir(PublicationRoot);
    if !ok { return; }
    ok := disk.MakeDir(StagingRoot);
    if !ok { return; }
    ok := disk.EnsureDir(StagedRoot);
  }

  lemma OpeningIsObservable(before: Dirs, vs: seq<Variant>, accepts: (string, Dir) -> bool)
    ensures var start := WithDir(before, PublicationRoot);
      && Observable(start, before, vs, accepts) && Observable(start[StagingRoot := map[]], before, vs, accepts)
      && Observable(start[StagingRoot := map[]][StagedRoot := map[]], before, vs, accepts)
  {
    var start := WithDir(before, PublicationRoot);
    RootsDoNotMatter(before, PublicationRoot, vs, accepts);
    OutsideIsObservable(start, start, vs, accepts);
    OutsideIsObservable(start[StagingRoot := map[]], start, vs, accepts);
    OutsideIsObservable(start[StagingRoot := map[]][StagedRoot := map[]], start, vs, accepts);
  }

  /** The operation that makes the directory inside the staging root fails, and the two before it do not. */
  ghost predicate Stranded(faults: nat -> bool, clock: nat) {
    !faults(clock) && !faults(clock + 1) && faults(clock + 2)
  }

  /** How many published destinations a whole run takes back. */
  ghost predicate RunTakesBack(faults: nat -> bool, clock: nat, d: Dirs, vs: seq<Variant>,
                               accepts: (string, Dir) -> bool, n: nat) {
    if Calm(faults, clock, clock + 3) then TakesBack(faults, clock + 3, d, vs, accepts, n) else n == 0
  }

  /** Packages every variant, for every pattern of failures. Either all destinations end up holding their verified
      artifacts, or the run reports an error and everything is as before: destinations, siblings and all else. It
      succeeds exactly when every variant is qualified and none of the run's operations fails. The directories around
      the destinations stay once they were made, and the staging root stays exactly when it was made and the directory
      inside it could not be.

      Before the rollback (up to `turn`) no destination is ever seen holding anything but its old content, nothing,
      or its complete verified artifact. The rollback removes the `undone` published destinations file by file, and
      each is then seen with every smaller number of its files. So the three-way promise holds for the whole run
      exactly when no round fails behind a published one whose removal shows. */
  method Package(disk: Disk, vs: seq<Variant>, accepts: (string, Dir) -> bool)
    returns (r: Result<(), ErrorCode>, ghost turn: nat, ghost undone: nat)
    requires DistinctArchs(vs)
    requires forall p :: InStaging(p) ==> p !in disk.dirs  // `mkdtemp` makes a new directory
    modifies disk`dirs, disk`clock, disk`trail
    ensures r.Ok? ==> Installed(disk.dirs, Rooted(old(disk.dirs)), vs, accepts)
    ensures r.Err? ==> Restored(disk.dirs, old(disk.dirs))
    ensures StagingRoot in disk.dirs <==> Stranded(disk.faults, old(disk.clock))
    ensures r.Ok? <==> Qualified(old(disk.dirs), vs, accepts)
                       && Calm(disk.faults, old(disk.clock), old(disk.clock) + 3 + TryCost(old(disk.dirs), vs))
    ensures RunTakesBack(disk.faults, old(disk.clock), old(disk.dirs), vs, accepts, undone)
    ensures Withdrew(disk.trail, turn, old(disk.dirs), vs, undone, accepts)
    ensures AllObservable(disk.trail, old(disk.dirs), vs, accepts) <==>
            forall i :: 0 <= i < undone ==> !RemovalShows(old(disk.dirs), vs[i])
  {
    ghost var before, start, clock := disk.dirs, WithDir(disk.dirs, PublicationRoot), disk.clock;
    hide *;
    disk.trail := [];
    var ok := OpenStaging(disk, vs, accepts);
    if !ok {
      turn, undone := |disk.trail|, 0;
      OpeningFailed(disk.faults, clock, disk.dirs, disk.trail, before, vs, accepts);
      return Err(EIO), turn, undone;
    }
    StagingIsOpen(disk.dirs, disk.trail, before, vs, accepts);
    ghost var inside := disk.clock;
    r, turn, undone := StageAndPublish(disk, vs, accepts, start);
    ghost var d, t := disk.dirs, disk.trail;
    disk.RemoveStaging();
    RunIsOver(disk.faults, clock, inside, r, undone, before, d, disk.dirs, vs, accepts);
    TrailIsOver(t, disk.trail, turn, d, disk.dirs, before, vs, undone, accepts);
  }

  lemma OpeningFailed(faults: nat -> bool, clock: nat, d: Dirs, trail: seq<Dirs>, before: Dirs, vs: seq<Variant>,
                      accepts: (string, Dir) -> bool)
    requires d in {before, WithDir(before, PublicationRoot), WithDir(before, PublicationRoot)[StagingRoot := map[]]}
    requires AllObservable(trail, before, vs, accepts) && !Calm(faults, clock, clock + 3)
    ensures Restored(d, before) && Withdrew(trail, |trail|, before, vs, 0, accepts)
    ensures RunTakesBack(faults, clock, before, vs, accepts, 0)
            && !Calm(faults, clock, clock + 3 + TryCost(before, vs))
  {
    NothingWithdrawn(trail, before, vs, accepts);
    hide TryCost;
  }

  /** After the clean-up. */
  lemma RunIsOver(faults: nat -> bool, clock: nat, inside: nat, r: Result<(), ErrorCode>, undone: nat, before: Dirs,
                  d: Dirs, d': Dirs, vs: seq<Variant>, accepts: (string, Dir) -> bool)
    requires inside == clock + 3 && Calm(faults, clock, clock + 3)
    requires d' == Unstaged(d) && forall p :: InStaging(p) ==> p !in before
    requires var start := WithDir(before, PublicationRoot);
      && TakesBack(faults, inside, start, vs, accepts, undone)
      && (r.Ok? <==> Qualified(start, vs, accepts) && Calm(faults, inside, inside + TryCost(start, vs)))
      && (r.Ok? ==> InPlace(d, WithDir(start, WorkerRoot), vs, accepts))
      && (r.Err? ==> OutsideAsBefore(d, start) || OutsideAsBefore(d, WithDir(start, WorkerRoot)))
    ensures r.Ok? ==> Installed(d', Rooted(before), vs, accepts)
    ensures r.Err? ==> Restored(d', before)
    ensures r.Ok? <==> Qualified(before, vs, accepts) && Calm(faults, clock, clock + 3 + TryCost(before, vs))
    ensures RunTakesBack(faults, clock, before, vs, accepts, undone) && !Stranded(faults, clock)
    ensures Observable(d', before, vs, accepts) && StagingRoot !in d'
  {
    StartDoesNotMatter(faults, clock, before, vs, accepts, undone);
    hide Observable, OutsideAsBefore, Installed, Restored, InPlace, TakesBack, TryCost, Qualified;
    FinishRun(r, d, d', before, vs, accepts);
  }

  lemma StagingIsOpen(d: Dirs, trail: seq<Dirs>, before: Dirs, vs: seq<Variant>, accepts: (string, Dir) -> bool)
    requires d == WithDir(before, PublicationRoot)[StagingRoot := map[]][StagedRoot := map[]]
    requires AllObservable(trail, before, vs, accepts) && forall p :: InStaging(p) ==> p !in before
    ensures var start := WithDir(before, PublicationRoot);
      && StagedUpTo(d, start, vs, 0, accepts) && AllObservable(trail, start, vs, accepts)
      && (Qualified(start, vs, accepts) <==> Qualified(before, vs, accepts)) && IsRoot(PublicationRoot)
  {
    RootsDoNotMatter(before, PublicationRoot, vs, accepts);
    hide Observable;
    NothingStaged(d, WithDir(before, PublicationRoot), vs, accepts);
  }

  lemma TrailIsOver(t: seq<Dirs>, t': seq<Dirs>, turn: nat, d: Dirs, d': Dirs, before: Dirs, vs: seq<Variant>, n: nat,
                    accepts: (string, Dir) -> bool)
    requires Withdrew(t, turn, WithDir(before, PublicationRoot), vs, n, accepts) && Observable(d', before, vs, accepts)
    requires d' == Unstaged(d) && t <= t' && forall k :: |t| <= k < |t'| ==> SameOutside(t'[k], d)
    ensures Withdrew(t', turn, before, vs, n, accepts)
    ensures AllObservable(t', before, vs, accepts) <==> forall i :: 0 <= i < n ==> !RemovalShows(before, vs[i])
  {
    assert SameOutside(d, d');
    RootsDoNotShow(before, PublicationRoot, t, turn, vs, n, accepts);
    hide Observable;
    forall k | |t| <= k < |t'|
      ensures SameOutside(t'[k], d')
    {
    }
    SameOutsideIsObservable(t, t', d', before, vs, accepts);
    WithdrewGrows(t, t', turn, before, vs, n, accepts);
    hide Framed, Emptied, RemovalShows;
    ObservableIff(t', turn, before, vs, n, accepts);
  }

  lemma StartDoesNotMatter(faults: nat -> bool, clock: nat, before: Dirs, vs: seq<Variant>,
                           accepts: (string, Dir) -> bool, n: nat)
    ensures var start := WithDir(before, PublicationRoot);
      && (Qualified(start, vs, accepts) <==> Qualified(before, vs, accepts))
      && TryCost(start, vs) == TryCost(before, vs)
      && (TakesBack(faults, clock + 3, start, vs, accepts, n) <==>
            TakesBack(faults, clock + 3, before, vs, accepts, n))
  {
    var start := WithDir(before, PublicationRoot);
    RootsDoNotMatter(before, PublicationRoot, vs, accepts);
    SameCosts(before, start, vs, |vs|);
    SameStops(faults, clock + 3 + StageCosts(vs, |vs|) + 1, before, start, vs, n);
  }

  /** Directories beside the destinations whose names do not start with `darwin-`, such as the Linux and Windows ones,
      are never touched: not in any state of a run, nor in the state it leaves. */
  lemma SiblingsStay(name: string, trail: seq<Dirs>, turn: nat, d: Dirs, before: Dirs, vs: seq<Variant>, undone: nat,
                     accepts: (string, Dir) -> bool)
    requires !("darwin-" <= name) && Withdrew(trail, turn, before, vs, undone, accepts)
    requires Installed(d, Rooted(before), vs, accepts) || Restored(d, before)
    ensures Get(d, Worker(name)) == Get(before, Worker(name))
    ensures forall k :: 0 <= k < |trail| ==> Get(trail[k], Worker(name)) == Get(before, Worker(name))
  {
    var p := Worker(name);
    forall i | 0 <= i < |vs|
      ensures p != Destination(vs[i].arch)
    {
      assert "darwin-" <= "darwin-" + vs[i].arch;
    }
    assert !IsDestination(vs, p) && !InStaging(p) && !IsRoot(p);
    hide HasFiles, Artifact, WholeDestination, IsDestination, SubDir;
    forall k | 0 <= k < |trail|
      ensures Get(trail[k], p) == Get(before, p)
    {
      if !Observable(trail[k], before, vs, accepts) {
        var i: nat, size: nat :| i < undone && Emptying(trail[k], before, vs, i, size, accepts);
      }
    }
  }

  /** Every qualified run of at least two variants can be made to fail in its second round, and then shows the first
      destination with any smaller number of its files. */
  lemma RollbackIsReachable(clock: nat, d: Dirs, vs: seq<Variant>, accepts: (string, Dir) -> bool)
    returns (faults: nat -> bool)
    requires Qualified(d, vs, accepts) && |vs| >= 2
    ensures RunTakesBack(faults, clock, d, vs, accepts, 1)
  {
    var publishing := clock + 3 + StageCosts(vs, |vs|) + 1;
    var last := publishing + RoundCosts(d, vs, 1);
    faults := n => n == last;
    CostsGrow(d, vs, 1, 2);
    CostsGrow(d, vs, 2, |vs|);
    assert faults(last);
  }

  /** The number is determined. */
  lemma TakesBackOnce(faults: nat -> bool, clock: nat, d: Dirs, vs: seq<Variant>, accepts: (string, Dir) -> bool,
                      n: nat, m: nat)
    requires RunTakesBack(faults, clock, d, vs, accepts, n) && RunTakesBack(faults, clock, d, vs, accepts, m)
    ensures n == m
  {
    var publishing := clock + 3 + StageCosts(vs, |vs|) + 1;
    hide RoundCosts, StageCosts;
    if n < |vs| && StopsAfter(faults, publishing, d, vs, n) {
      StopsOnce(faults, publishing, d, vs, n, m);
    }
  }

  /** Everything but the roots and the staging root is as before, and a root is as before or newly made. */
  ghost predicate Restored(d: Dirs, before: Dirs) {
    && (forall p :: !IsRoot(p) && !p.StagingRoot? ==> Get(d, p) == Get(before, p))
    && (forall p :: IsRoot(p) ==> Get(d, p) in {Get(before, p), Get(Rooted(before), p)})
  }

  lemma NothingStaged(d: Dirs, start: Dirs, vs: seq<Variant>, accepts: (string, Dir) -> bool)
    requires d == start[StagingRoot := map[]][StagedRoot := map[]] && forall p :: InStaging(p) ==> p !in start
    ensures StagedUpTo(d, start, vs, 0, accepts)
  {
  }

  lemma FinishRun(r: Result<(), ErrorCode>, d: Dirs, d': Dirs, before: Dirs, vs: seq<Variant>,
                  accepts: (string, Dir) -> bool)
    requires d' == Unstaged(d)
    requires var start := WithDir(before, PublicationRoot);
      && (r.Ok? ==> Qualified(start, vs, accepts) && InPlace(d, WithDir(start, WorkerRoot), vs, accepts))
      && (r.Err? ==> OutsideAsBefore(d, start) || OutsideAsBefore(d, WithDir(start, WorkerRoot)))
    requires forall p :: InStaging(p) ==> p !in before
    ensures r.Ok? ==> Installed(d', Rooted(before), vs, accepts)
    ensures r.Err? ==> Restored(d', before)
    ensures Observable(d', before, vs, accepts) && StagingRoot !in d'
  {
    RootsDoNotMatter(before, PublicationRoot, vs, accepts);
    RootsDoNotMatter(WithDir(before, PublicationRoot), WorkerRoot, vs, accepts);
    assert forall p :: Get(d', p) == if InStaging(p) then None else Get(d, p);
    if r.Ok? {
      OutsideObservable(d, d', Rooted(before), vs, accepts);
      hide Observable;
      FinishInstalled(d, d', before, vs, accepts);
    } else {
      hide Qualified, AllInstalled, Installed, Observable;
      FinishRestored(d, d', before, vs, accepts);
    }
  }

  lemma FinishInstalled(d: Dirs, d': Dirs, before: Dirs, vs: seq<Variant>, accepts: (string, Dir) -> bool)
    requires Qualified(before, vs, accepts) && InPlace(d, Rooted(before), vs, accepts)
    requires forall p :: InStaging(p) ==> p !in before
    requires forall p :: Get(d', p) == if InStaging(p) then None else Get(d, p)
    ensures Installed(d', Rooted(before), vs, accepts)
  {
    forall i | 0 <= i < |vs|
      ensures HasFiles(Rooted(before), vs[i]) && Artifact(Rooted(before), vs[i]) == Artifact(before, vs[i])
    {
    }
  }

  lemma FinishRestored(d: Dirs, d': Dirs, before: Dirs, vs: seq<Variant>, accepts: (string, Dir) -> bool)
    requires OutsideAsBefore(d, WithDir(before, PublicationRoot)) || OutsideAsBefore(d, Rooted(before))
    requires forall p :: InStaging(p) ==> p !in before
    requires forall p :: Get(d', p) == if InStaging(p) then None else Get(d, p)
    ensures Restored(d', before) && Observable(d', before, vs, accepts)
  {
    forall p | !IsRoot(p)
      ensures Get(d', p) == Get(before, p)
    {
      assert Get(Rooted(before), p) == Get(before, p) == Get(WithDir(before, PublicationRoot), p);
    }
  }
}
