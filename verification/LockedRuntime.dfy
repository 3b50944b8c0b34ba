/** Swapping a freshly installed runtime tree in: every state the disk passes through, any of which a crash can leave. */
module LockedRuntime {
  import opened Wrappers

  const MANIFEST := "package.json"
  const LOCKFILE := "package-lock.json"
  const PACKAGE_DIR := "node_modules/openclaw"

  /** The files of a directory tree by relative path. */
  type Tree = map<string, string>

  datatype Link = IntoRuntime(path: string) | Elsewhere(path: string)

  /** The three directories of the swap, and the command's link with the name it is first created under. */
  datatype Disk = Disk(
    staging: Option<Tree>,
    runtime: Option<Tree>,
    previous: Option<Tree>,
    link: Option<Link>,
    temporaryLink: Option<Link>
  )

  datatype Slot = Staging | Previous

  datatype Template = Template(manifest: string, lockfile: string, version: string)

  /** What the program reads out of a manifest, when two versions match, and which trees work. */
  datatype Package = Package(
    bin: string -> Option<string>,
    version: string -> Option<string>,
    matches: (string, string) -> bool,
    complete: Tree -> bool
  )

  /** A run of npm ci: the trees it leaves on the way, and the last one if it succeeds. */
  datatype Npm = Npm(partial: seq<Tree>, result: Option<Tree>)

  datatype Error = InstallFailed | NoCommand

  function Get(d: Disk, slot: Slot): Option<Tree> {
    match slot
    case Staging => d.staging
    case Previous => d.previous
  }

  function Set(d: Disk, slot: Slot, tree: Option<Tree>): (r: Disk)
    ensures Get(r, slot) == tree && r.runtime == d.runtime && r.link == d.link
  {
    match slot
    case Staging => d.(staging := tree)
    case Previous => d.(previous := tree)
  }

  /** The command's file inside the tree, when the package names one that is there. */
  function CommandPath(pkg: Package, tree: Tree): Option<string> {
    var manifest := PACKAGE_DIR + "/" + MANIFEST;
    if manifest !in tree || pkg.bin(tree[manifest]).None? then None
    else
      var path := PACKAGE_DIR + "/" + pkg.bin(tree[manifest]).value;
      if path in tree then Some(path) else None
  }

  /** What npm ci leaves when it honours the lock. */
  predicate HonoursLock(pkg: Package, template: Template, tree: Tree) {
    var manifest := PACKAGE_DIR + "/" + MANIFEST;
    MANIFEST in tree && tree[MANIFEST] == template.manifest
    && LOCKFILE in tree && tree[LOCKFILE] == template.lockfile
    && manifest in tree && pkg.version(tree[manifest]).Some?
    && pkg.matches(pkg.version(tree[manifest]).value, template.version)
  }

  /** The check that spares a reinstall. */
  predicate IsCurrent(pkg: Package, d: Disk, template: Template) {
    d.runtime.Some? && HonoursLock(pkg, template, d.runtime.value)
    && CommandPath(pkg, d.runtime.value).Some?
    && d.link == Some(IntoRuntime(CommandPath(pkg, d.runtime.value).value))
  }

  // ---------- runs ----------

  /** Before the swap: the runtime, the previous tree and the link are as they were. */
  predicate BeforeSwap(d: Disk, start: Disk) {
    d.runtime == start.runtime && d.previous == start.previous && d.link == start.link
  }

  predicate DuringSwap(d: Disk, start: Disk, tree: Tree) {
    d.link == start.link && d.staging == Some(tree)
    && (d.runtime == start.runtime || (d.runtime.None? && start.runtime.Some? && d.previous == start.runtime))
  }

  predicate AfterSwap(d: Disk, start: Disk, tree: Tree) {
    d.staging.None? && d.runtime == Some(tree) && (start.link.Some? ==> d.link.Some?)
  }

  predicate InPhase(d: Disk, start: Disk, npm: Npm) {
    BeforeSwap(d, start)
    || (npm.result.Some? && (DuringSwap(d, start, npm.result.value) || AfterSwap(d, start, npm.result.value)))
  }

  ghost predicate Passes(trace: seq<Disk>, staging: Option<Tree>, runtime: Option<Tree>, previous: Option<Tree>) {
    exists i :: 0 <= i < |trace|
      && trace[i].staging == staging && trace[i].runtime == runtime && trace[i].previous == previous
  }

  ghost predicate InPhases(trace: seq<Disk>, start: Disk, npm: Npm) {
    forall i :: 0 <= i < |trace| ==> InPhase(trace[i], start, npm)
  }

  /** The states of one run: all are in a phase of the swap, and these are among them. */
  ghost predicate IsRun(trace: seq<Disk>, start: Disk, npm: Npm) {
    trace != [] && trace[0] == start && InPhases(trace, start, npm)
    && Passes(trace, None, start.runtime, start.previous)
    && (npm.result.Some? ==> Passes(trace, npm.result, start.runtime, None))
    && (npm.result.Some? && start.runtime.Some? ==> Passes(trace, npm.result, None, start.runtime))
  }

  predicate Works(pkg: Package, tree: Option<Tree>) {
    tree.Some? && pkg.complete(tree.value)
  }

  /** A working tree is left somewhere. */
  predicate SomethingWorks(pkg: Package, d: Disk) {
    Works(pkg, d.staging) || Works(pkg, d.runtime) || Works(pkg, d.previous)
  }

  /** A working tree is left where the next run does not remove it first. */
  predicate RerunHasTree(pkg: Package, d: Disk) {
    Works(pkg, d.runtime) || Works(pkg, d.previous)
  }

  predicate Delivers(pkg: Package, npm: Npm) {
    npm.result.Some? ==> pkg.complete(npm.result.value)
  }

  // ---------- what a crash leaves ----------

  /** Wherever a run stops, a working tree is left, exactly when the runtime or the previous tree worked at its start.
      A working tree in the staging directory alone is lost. */
  lemma CrashLeavesTreeIff(pkg: Package, trace: seq<Disk>, start: Disk, npm: Npm)
    requires IsRun(trace, start, npm) && Delivers(pkg, npm)
    ensures (forall i :: 0 <= i < |trace| ==> SomethingWorks(pkg, trace[i])) <==> RerunHasTree(pkg, start)
  {
    if RerunHasTree(pkg, start) {
      forall i | 0 <= i < |trace| ensures SomethingWorks(pkg, trace[i]) {
        assert InPhase(trace[i], start, npm);
      }
    } else {
      var i :| 0 <= i < |trace|
        && trace[i].staging == None && trace[i].runtime == start.runtime && trace[i].previous == start.previous;
      assert !SomethingWorks(pkg, trace[i]);
    }
  }

  /** Wherever a run that installs stops, the next run still starts with a working tree, exactly when the runtime worked
      at its start. */
  lemma RerunHasTreeIff(pkg: Package, trace: seq<Disk>, start: Disk, npm: Npm)
    requires IsRun(trace, start, npm) && Delivers(pkg, npm) && npm.result.Some?
    ensures (forall i :: 0 <= i < |trace| ==> RerunHasTree(pkg, trace[i])) <==> Works(pkg, start.runtime)
  {
    if Works(pkg, start.runtime) {
      forall i | 0 <= i < |trace| ensures RerunHasTree(pkg, trace[i]) {
        assert InPhase(trace[i], start, npm);
      }
    } else {
      var i :| 0 <= i < |trace|
        && trace[i].staging == npm.result && trace[i].runtime == start.runtime && trace[i].previous == None;
      assert !RerunHasTree(pkg, trace[i]);
    }
  }

  /** A run that fails to install never makes things worse. */
  lemma FailedRunKeepsTrees(pkg: Package, trace: seq<Disk>, start: Disk, npm: Npm)
    requires IsRun(trace, start, npm) && npm.result.None?
    ensures forall i :: 0 <= i < |trace| ==>
      BeforeSwap(trace[i], start) && (RerunHasTree(pkg, trace[i]) <==> RerunHasTree(pkg, start))
  {
    forall i | 0 <= i < |trace| ensures BeforeSwap(trace[i], start) {
      assert InPhase(trace[i], start, npm);
    }
  }

  /** The link is never missing once it was there. */
  lemma LinkNeverMissing(trace: seq<Disk>, start: Disk, npm: Npm)
    requires IsRun(trace, start, npm) && start.link.Some?
    ensures forall i :: 0 <= i < |trace| ==> trace[i].link.Some?
  {
    forall i | 0 <= i < |trace| ensures trace[i].link.Some? {
      assert InPhase(trace[i], start, npm);
    }
  }

  /** Two crashes can lose every tree, although the first run started from a working runtime: the first stops between the
      two renames, the second right after the previous tree is removed, and the third run begins by removing the rest. */
  lemma TwoCrashesCanLoseAll(pkg: Package, start: Disk, first: seq<Disk>, npm1: Npm) returns (crash1: Disk)
    requires Works(pkg, start.runtime) && IsRun(first, start, npm1) && npm1.result.Some?
    ensures crash1 in first
    ensures forall second: seq<Disk>, npm2: Npm :: IsRun(second, crash1, npm2) && npm2.result.Some? ==> StrandsThird(pkg, second)
  {
    var i :| 0 <= i < |first|
      && first[i].staging == npm1.result && first[i].runtime == None && first[i].previous == start.runtime;
    crash1 := first[i];
    forall second: seq<Disk>, npm2: Npm | IsRun(second, crash1, npm2) && npm2.result.Some? ensures StrandsThird(pkg, second) {
      var j :| 0 <= j < |second|
        && second[j].staging == npm2.result && second[j].runtime == None && second[j].previous == None;
      forall third: seq<Disk>, npm3: Npm | IsRun(third, second[j], npm3) ensures LosesAll(pkg, third) {
        var k :| 0 <= k < |third| && third[k].staging == None && third[k].runtime == None && third[k].previous == None;
        assert !SomethingWorks(pkg, third[k]);
      }
    }
  }

  ghost predicate LosesAll(pkg: Package, trace: seq<Disk>) {
    exists k :: 0 <= k < |trace| && !SomethingWorks(pkg, trace[k])
  }

  ghost predicate StrandsThird(pkg: Package, second: seq<Disk>) {
    exists j :: 0 <= j < |second| && forall third: seq<Disk>, npm3: Npm :: IsRun(third, second[j], npm3) ==> LosesAll(pkg, third)
  }

  // ---------- the installer ----------

  class Installer {
    const pkg: Package
    var disk: Disk
    ghost var trace: seq<Disk>

    constructor (pkg: Package, disk: Disk)
      ensures this.pkg == pkg && this.disk == disk && trace == [disk]
    {
      this.pkg, this.disk, this.trace := pkg, disk, [disk];
    }

    /** One atomic change. */
    method Become(next: Disk)
      modifies this
      ensures disk == next && trace == old(trace) + [next]
    {
      disk := next;
      trace := trace + [next];
    }

    /** Removes a tree file by file, in no particular order, and then the directory itself. */
    method RemoveTree(slot: Slot)
      modifies this
      ensures disk == Set(old(disk), slot, None)
      ensures |trace| >= |old(trace)| && trace[..|old(trace)|] == old(trace)
      ensures forall i :: |old(trace)| <= i < |trace| ==> trace[i] == Set(old(disk), slot, Get(trace[i], slot))
      ensures trace == old(trace) || trace[|trace| - 1] == disk
      ensures trace == old(trace) <==> old(Get(disk, slot)).None?
    {
      if Get(disk, slot).None? {
        return;
      }
      while Get(disk, slot).value != map[]
        invariant Get(disk, slot).Some? && disk == Set(old(disk), slot, Get(disk, slot))
        invariant |trace| >= |old(trace)| && trace[..|old(trace)|] == old(trace)
        invariant forall i :: |old(trace)| <= i < |trace| ==> trace[i] == Set(old(disk), slot, Get(trace[i], slot))
        decreases |Get(disk, slot).value|
      {
        var tree := Get(disk, slot).value;
        var file :| file in tree;
        SmallerTree(tree, file);
        Become(Set(disk, slot, Some(tree - {file})));
      }
      Become(Set(disk, slot, None));
    }

    /** npm ci in the staging directory: one tree after another, whatever they are. */
    method RunNpm(npm: Npm)
      requires disk.staging.Some? && trace != [] && trace[|trace| - 1] == disk
      modifies this
      ensures disk == old(disk).(staging := disk.staging) && disk.staging.Some?
      ensures npm.result.Some? ==> disk.staging == npm.result
      ensures trace != [] && trace[|trace| - 1] == disk
      ensures |trace| >= |old(trace)| && trace[..|old(trace)|] == old(trace)
      ensures forall i :: |old(trace)| <= i < |trace| ==> trace[i] == old(disk).(staging := trace[i].staging)
    {
      for n := 0 to |npm.partial|
        invariant disk == old(disk).(staging := disk.staging) && disk.staging.Some?
        invariant trace != [] && trace[|trace| - 1] == disk
        invariant |trace| >= |old(trace)| && trace[..|old(trace)|] == old(trace)
        invariant forall i :: |old(trace)| <= i < |trace| ==> trace[i] == old(disk).(staging := trace[i].staging)
      {
        Become(disk.(staging := Some(npm.partial[n])));
      }
      if npm.result.Some? {
        Become(disk.(staging := npm.result));
      }
    }

    method LinkBin() returns (r: Result<string, Error>)
      requires disk.runtime.Some?
      modifies this
      ensures r.Ok? <==> CommandPath(pkg, old(disk).runtime.value).Some?
      ensures r.Ok? ==> CommandPath(pkg, old(disk).runtime.value) == Some(r.value)
      ensures r.Ok? ==> disk == old(disk).(link := Some(IntoRuntime(r.value)), temporaryLink := None)
      ensures r.Ok? ==> trace != [] && trace[|trace| - 1] == disk
      ensures r.Err? ==> disk == old(disk) && trace == old(trace)
      ensures |trace| >= |old(trace)| && trace[..|old(trace)|] == old(trace)
      ensures forall i :: |old(trace)| <= i < |trace| ==>
        (trace[i] == old(disk).(link := trace[i].link, temporaryLink := trace[i].temporaryLink)
         && (trace[i].link == old(disk).link || trace[i].link == disk.link))
    {
      var target := CommandPath(pkg, disk.runtime.value);
      if target.None? {
        return Err(NoCommand);
      }
      Become(disk.(temporaryLink := None));
      Become(disk.(temporaryLink := Some(IntoRuntime(target.value))));
      Become(disk.(link := disk.temporaryLink, temporaryLink := None));
      return Ok(target.value);
    }

    /** Everything before the swap: the staging directory ends up with the new tree, or is removed. */
    method Stage(template: Template, npm: Npm)
      requires trace == [disk]
      modifies this
      ensures disk == old(disk).(staging := npm.result)
      ensures trace != [] && trace[0] == old(disk) && trace[|trace| - 1] == disk
      ensures forall i :: 0 <= i < |trace| ==> BeforeSwap(trace[i], old(disk))
      ensures Passes(trace, None, old(disk).runtime, old(disk).previous)
    {
      ghost var start := disk;
      RemoveTree(Staging);
      ghost var cleared := |trace| - 1;
      assert trace[cleared] == start.(staging := None);
      Become(disk.(staging := Some(map[])));
      Become(disk.(staging := Some(map[MANIFEST := template.manifest])));
      Become(disk.(staging := Some(map[MANIFEST := template.manifest, LOCKFILE := template.lockfile])));
      RunNpm(npm);
      assert trace[cleared] == start.(staging := None);
      if npm.result.None? {
        RemoveTree(Staging);
      }
      assert trace[cleared] == start.(staging := None) && trace[0] == start;
    }

    /** The swap, up to the link. */
    method SwapIn(tree: Tree)
      requires disk.staging == Some(tree)
      modifies this
      ensures disk == old(disk).(staging := None, runtime := Some(tree), previous := None)
      ensures |trace| > |old(trace)| && trace[..|old(trace)|] == old(trace) && trace[|trace| - 1] == disk
      ensures forall i :: |old(trace)| <= i < |trace| ==>
        DuringSwap(trace[i], old(disk), tree) || AfterSwap(trace[i], old(disk), tree)
      ensures old(trace) != [] && old(trace)[|old(trace)| - 1] == old(disk) ==>
        Passes(trace, Some(tree), old(disk).runtime, None)
      ensures old(disk).runtime.Some? ==> Passes(trace, Some(tree), None, old(disk).runtime)
    {
      ghost var start := disk;
      RemoveTree(Previous);
      ghost var emptied := |trace| - 1;
      assert |trace| > 0 && trace[emptied] == disk ==>
        Passes(trace, Some(tree), start.runtime, None);
      assert old(trace) != [] && old(trace)[|old(trace)| - 1] == old(disk) ==> |trace| > 0 && trace[emptied] == disk;
      assert disk == start.(previous := None);
      if disk.runtime.Some? {
        Become(disk.(runtime := None, previous := disk.runtime));
      }
      ghost var moved := |trace| - 1;
      assert start.runtime.Some? ==> trace[moved] == start.(runtime := None, previous := start.runtime);
      assert disk == start.(runtime := None, previous := start.runtime);
      Become(disk.(staging := None, runtime := disk.staging));
      RemoveTree(Previous);
      assert old(trace) != [] && old(trace)[|old(trace)| - 1] == old(disk) ==>
        trace[emptied] == start.(previous := None);
      assert start.runtime.Some? ==> trace[moved] == start.(runtime := None, previous := start.runtime);
    }

    /** Installs into staging and swaps. A failed npm ci leaves the runtime, the previous tree and the link alone; a
        success leaves the new tree as the runtime and nothing else, and the link into it if the tree has the command. */
    method InstallLockedRuntime(template: Template, npm: Npm) returns (r: Result<string, Error>)
      requires trace == [disk]
      modifies this
      ensures IsRun(trace, old(disk), npm) && trace[|trace| - 1] == disk
      ensures npm.result.None? ==> r == Err(InstallFailed) && disk == old(disk).(staging := None)
      ensures npm.result.Some? ==> disk.runtime == npm.result && disk.staging.None? && disk.previous.None?
      ensures npm.result.Some? ==> (r.Ok? <==> CommandPath(pkg, npm.result.value).Some?)
      ensures r.Ok? ==> disk.link == Some(IntoRuntime(r.value)) && disk.temporaryLink.None?
      ensures r.Ok? ==> (IsCurrent(pkg, disk, template) <==> HonoursLock(pkg, template, npm.result.value))
      ensures r == Err(NoCommand) ==> disk.link == old(disk).link
    {
      hide Passes, CommandPath, HonoursLock;
      ghost var start := disk;
      Stage(template, npm);
      ghost var staged := trace;
      if npm.result.None? {
        assert InPhases(trace, start, npm);
        return Err(InstallFailed);
      }
      var tree := npm.result.value;
      SwapIn(tree);
      ghost var swapped := trace;
      MorePasses(staged, swapped, None, start.runtime, start.previous);
      r := LinkBin();
      MorePasses(swapped, trace, None, start.runtime, start.previous);
      MorePasses(swapped, trace, Some(tree), start.runtime, None);
      MorePasses(swapped, trace, Some(tree), None, start.runtime);
      forall i | 0 <= i < |trace| ensures InPhase(trace[i], start, npm) {
        if i < |staged| {
          assert trace[i] == swapped[i] == staged[i];
        } else if i < |swapped| {
          assert trace[i] == swapped[i];
        }
      }
      assert trace[0] == swapped[0] == staged[0];
    }
  }

  lemma MorePasses(trace: seq<Disk>, longer: seq<Disk>, staging: Option<Tree>, runtime: Option<Tree>, previous: Option<Tree>)
    requires |trace| <= |longer| && longer[..|trace|] == trace
    ensures Passes(trace, staging, runtime, previous) ==> Passes(longer, staging, runtime, previous)
  {
    if Passes(trace, staging, runtime, previous) {
      var i :| 0 <= i < |trace|
        && trace[i].staging == staging && trace[i].runtime == runtime && trace[i].previous == previous;
      assert longer[i] == trace[i];
    }
  }

  lemma SmallerTree(tree: Tree, file: string)
    requires file in tree
    ensures |tree - {file}| < |tree|
  {
    assert (tree - {file}).Keys == tree.Keys - {file};
    assert |(tree - {file}).Keys| < |tree.Keys|;
  }
}
