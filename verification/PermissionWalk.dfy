/** Two walks over an installed package tree that repair its permissions. */
module PermissionWalk {
  import opened Wrappers

  /** The bits of a file mode: read, write and execute for owner, group and others, and the special bits. */
  datatype Bit = Ur | Uw | Ux | Gr | Gw | Gx | Or | Ow | Ox | Setuid | Setgid | Sticky

  type Mode = set<Bit>

  const ACCESS: Mode := {Ur, Uw, Ux, Gr, Gw, Gx, Or, Ow, Ox}
  const READ: Mode := {Ur, Gr, Or}
  const EXECUTE: Mode := {Ux, Gx, Ox}
  const FOREIGN_WRITE: Mode := {Gw, Ow}

  /** A path from the root of the file system, which is the empty one. */
  type Path = seq<string>

  datatype Kind = Directory | File | SymbolicLink(absolute: bool, target: Path)

  datatype Entry = Entry(kind: Kind, mode: Mode)

  /** What is on the disk, by real path: one that leads through no link. */
  type Tree = map<Path, Entry>

  const ROOT: Path := []

  function ExtensionRoots(packageRoot: Path): seq<Path> {
    [packageRoot + ["extensions"], packageRoot + ["dist", "extensions"]]
  }

  // ---------- modes ----------

  function ReadableMode(kind: Kind, mode: Mode): Mode {
    var current := mode * ACCESS;
    var target := current + READ;
    if kind.Directory? || Ux in current then target + EXECUTE else target
  }

  function HardenedMode(kind: Kind, mode: Mode): Mode {
    mode * ACCESS - FOREIGN_WRITE
  }

  /** What a walk leaves of an entry: a mode is set only when its access bits change, and setting it drops the special
      bits. */
  function Fixed(fix: (Kind, Mode) -> Mode, e: Entry): (r: Entry)
    ensures r.kind == e.kind
  {
    var target := fix(e.kind, e.mode);
    if target != e.mode * ACCESS then e.(mode := target) else e
  }

  /** An entry that two roots lead to is fixed twice; the second time must change nothing. */
  ghost predicate Settles(fix: (Kind, Mode) -> Mode) {
    forall e :: Fixed(fix, Fixed(fix, e)) == Fixed(fix, e)
  }

  lemma BothSettle()
    ensures Settles(ReadableMode) && Settles(HardenedMode)
  {
    forall e ensures Fixed(ReadableMode, Fixed(ReadableMode, e)) == Fixed(ReadableMode, e) {
      var f := Fixed(ReadableMode, e);
      assert ReadableMode(f.kind, f.mode) == f.mode * ACCESS;
    }
    forall e ensures Fixed(HardenedMode, Fixed(HardenedMode, e)) == Fixed(HardenedMode, e) {
      var f := Fixed(HardenedMode, e);
      assert HardenedMode(f.kind, f.mode) == f.mode * ACCESS;
    }
  }

  // ---------- trees ----------

  /** The root is a directory, and everything else lies in a directory under a proper name. */
  ghost predicate TreeOk(tree: Tree) {
    ROOT in tree && tree[ROOT].kind.Directory?
    && forall p :: p in tree && p != ROOT ==>
      Dirname(p) in tree && tree[Dirname(p)].kind.Directory? && p[|p| - 1] != "." && p[|p| - 1] != ".."
  }

  function Dirname(p: Path): Path {
    if p == [] then p else p[..|p| - 1]
  }

  predicate Walked(tree: Tree, p: Path) {
    p in tree && !tree[p].kind.SymbolicLink?
  }

  ghost predicate SameShape(tree: Tree, other: Tree) {
    tree.Keys == other.Keys && forall p :: p in tree ==> tree[p].kind == other[p].kind
  }

  lemma {:induction false} PrefixInTree(tree: Tree, p: Path, n: nat)
    requires TreeOk(tree) && p in tree && n <= |p|
    ensures p[..n] in tree && (n < |p| ==> tree[p[..n]].kind.Directory?)
    decreases |p| - n
  {
    if n < |p| {
      PrefixInTree(tree, p, n + 1);
      assert Dirname(p[..n + 1]) == p[..n];
    } else {
      assert p[..n] == p;
    }
  }

  // ---------- from names to real paths ----------

  const MAX_LINKS: nat := 40

  /** Where a name leads from a directory, over no more than so many symbolic links. */
  function Resolve(tree: Tree, base: Path, rest: Path, links: nat): Option<Path>
    decreases links, |rest|
  {
    if base !in tree then None
    else if rest == [] then Some(base)
    else if !tree[base].kind.Directory? then None
    else if rest[0] == "." then Resolve(tree, base, rest[1..], links)
    else if rest[0] == ".." then Resolve(tree, Dirname(base), rest[1..], links)
    else if base + [rest[0]] !in tree then None
    else
      match tree[base + [rest[0]]].kind
      case SymbolicLink(absolute, target) =>
        if links == 0 then None
        else Resolve(tree, if absolute then ROOT else base, target + rest[1..], links - 1)
      case _ => Resolve(tree, base + [rest[0]], rest[1..], links)
  }

  /** The real path behind a name, as stat, chmod and readdir find it. */
  function Real(tree: Tree, name: Path): Option<Path> {
    Resolve(tree, ROOT, name, MAX_LINKS)
  }

  lemma {:induction false} ResolveIsWalked(tree: Tree, base: Path, rest: Path, links: nat)
    requires TreeOk(tree) && Walked(tree, base) && Resolve(tree, base, rest, links).Some?
    ensures Walked(tree, Resolve(tree, base, rest, links).value)
    decreases links, |rest|
  {
    if rest == [] {
    } else if rest[0] == "." {
      ResolveIsWalked(tree, base, rest[1..], links);
    } else if rest[0] == ".." {
      ResolveIsWalked(tree, Dirname(base), rest[1..], links);
    } else {
      match tree[base + [rest[0]]].kind
      case SymbolicLink(absolute, target) =>
        ResolveIsWalked(tree, if absolute then ROOT else base, target + rest[1..], links - 1);
      case _ => ResolveIsWalked(tree, base + [rest[0]], rest[1..], links);
    }
  }

  lemma ResolveOne(tree: Tree, base: Path, links: nat, name: string)
    requires TreeOk(tree) && base in tree && tree[base].kind.Directory? && Walked(tree, base + [name])
    ensures Resolve(tree, base, [name], links) == Some(base + [name])
  {
    assert [name][1..] == [] && Dirname(base + [name]) == base;
    assert Resolve(tree, base + [name], [], links) == Some(base + [name]);
  }

  /** A name one longer leads one further, unless there is a link: no more links are followed than before. */
  lemma {:induction false} ResolveExtends(tree: Tree, base: Path, rest: Path, links: nat, name: string)
    requires TreeOk(tree) && Resolve(tree, base, rest, links).Some?
    requires var r := Resolve(tree, base, rest, links).value; r in tree && tree[r].kind.Directory? && Walked(tree, r + [name])
    ensures Resolve(tree, base, rest + [name], links) == Some(Resolve(tree, base, rest, links).value + [name])
    decreases links, |rest|
  {
    hide TreeOk;
    if rest == [] {
      assert rest + [name] == [name];
      ResolveOne(tree, base, links, name);
    } else {
      assert (rest + [name])[1..] == rest[1..] + [name];
      if rest[0] == "." {
        ResolveExtends(tree, base, rest[1..], links, name);
      } else if rest[0] == ".." {
        ResolveExtends(tree, Dirname(base), rest[1..], links, name);
      } else {
        match tree[base + [rest[0]]].kind
        case SymbolicLink(absolute, target) =>
          assert target + rest[1..] + [name] == target + (rest[1..] + [name]);
          ResolveExtends(tree, if absolute then ROOT else base, target + rest[1..], links - 1, name);
        case _ => ResolveExtends(tree, base + [rest[0]], rest[1..], links, name);
      }
    }
  }

  /** Modes do not matter to where a name leads. */
  lemma {:induction false} ResolveSame(tree: Tree, other: Tree, base: Path, rest: Path, links: nat)
    requires SameShape(tree, other)
    ensures Resolve(tree, base, rest, links) == Resolve(other, base, rest, links)
    decreases links, |rest|
  {
    if base in tree && rest != [] && tree[base].kind.Directory? {
      if rest[0] == "." {
        ResolveSame(tree, other, base, rest[1..], links);
      } else if rest[0] == ".." {
        ResolveSame(tree, other, Dirname(base), rest[1..], links);
      } else if base + [rest[0]] in tree {
        match tree[base + [rest[0]]].kind
        case SymbolicLink(absolute, target) =>
          if links > 0 {
            ResolveSame(tree, other, if absolute then ROOT else base, target + rest[1..], links - 1);
          }
        case _ => ResolveSame(tree, other, base + [rest[0]], rest[1..], links);
      }
    }
  }

  // ---------- what is to be visited ----------

  predicate LeadsAbove(tree: Tree, name: Path, p: Path) {
    Real(tree, name).Some? && Real(tree, name).value <= p
  }

  /** What lies behind one of the names or below it, no link on the way. */
  ghost predicate Reached(tree: Tree, names: seq<Path>, p: Path) {
    Walked(tree, p) && exists i :: 0 <= i < |names| && LeadsAbove(tree, names[i], p)
  }

  /** What is still to be visited from a queue of names. */
  ghost function Pending(tree: Tree, queue: seq<Path>): set<Path> {
    set p | p in tree && Reached(tree, queue, p)
  }

  /** What a name leads to. */
  ghost function Target(tree: Tree, name: Path): set<Path> {
    if Real(tree, name).Some? then {Real(tree, name).value} else {}
  }

  /** The entries of a directory that are not links. */
  function Listing(tree: Tree, directory: Path): set<string> {
    set p | p in tree && Walked(tree, p) && p != [] && p[..|p| - 1] == directory :: p[|p| - 1]
  }

  /** The names to be visited after a name: those of the entries in it that are not links, each once. */
  ghost predicate Advanced(tree: Tree, name: Path, children: seq<Path>) {
    (forall i, j :: 0 <= i < j < |children| ==> children[i] != children[j])
    && forall c :: c in children <==> IsChild(tree, name, c)
  }

  ghost predicate IsChild(tree: Tree, name: Path, c: Path) {
    Real(tree, name).Some? && |c| == |name| + 1 && c[..|name|] == name
    && Walked(tree, Real(tree, name).value + [c[|name|]])
  }

  lemma RealIsWalked(tree: Tree, name: Path)
    requires TreeOk(tree) && Real(tree, name).Some?
    ensures Walked(tree, Real(tree, name).value)
  {
    ResolveIsWalked(tree, ROOT, name, MAX_LINKS);
  }

  lemma ChildLeads(tree: Tree, name: Path, c: Path)
    requires TreeOk(tree) && IsChild(tree, name, c)
    ensures Real(tree, c) == Some(Real(tree, name).value + [c[|name|]])
  {
    hide Resolve;
    var r := Real(tree, name).value;
    assert c == name + [c[|name|]];
    assert Dirname(r + [c[|name|]]) == r;
    ResolveExtends(tree, ROOT, name, MAX_LINKS, c[|name|]);
  }

  /** The child of a name on the way to what lies below it. */
  lemma StepTowards(tree: Tree, name: Path, p: Path) returns (c: Path)
    requires TreeOk(tree) && Walked(tree, p) && LeadsAbove(tree, name, p) && p != Real(tree, name).value
    ensures IsChild(tree, name, c) && LeadsAbove(tree, c, p)
  {
    hide Real, TreeOk;
    var r := Real(tree, name).value;
    c := name + [p[|r|]];
    PrefixInTree(tree, p, |r| + 1);
    assert p[..|r|] == r && p[..|r| + 1] == r + [p[|r|]];
    assert |p| == |r| + 1 ==> p[..|r| + 1] == p;
    ChildLeads(tree, name, c);
  }

  /** Visiting a name takes off what is pending only what it leads to, and that only if no other name leads there. */
  lemma PendingAfter(tree: Tree, name: Path, rest: seq<Path>, children: seq<Path>)
    requires TreeOk(tree) && Advanced(tree, name, children)
    ensures Pending(tree, rest + children) + Target(tree, name) == Pending(tree, [name] + rest)
  {
    hide TreeOk, Real;
    var before, after := [name] + rest, rest + children;
    assert before[0] == name;
    forall p | Walked(tree, p) ensures Reached(tree, before, p) <==> Reached(tree, after, p) || p in Target(tree, name) {
      if Reached(tree, after, p) {
        StillReached(tree, name, rest, children, p);
      }
      if Reached(tree, before, p) && p !in Target(tree, name) {
        ReachedNext(tree, name, rest, children, p);
      }
      if p in Target(tree, name) {
        assert LeadsAbove(tree, before[0], p);
      }
    }
    if Real(tree, name).Some? {
      RealIsWalked(tree, name);
    }
  }

  lemma StillReached(tree: Tree, name: Path, rest: seq<Path>, children: seq<Path>, p: Path)
    requires TreeOk(tree) && Advanced(tree, name, children) && Reached(tree, rest + children, p)
    ensures Reached(tree, [name] + rest, p)
  {
    hide TreeOk, Real, Walked;
    var before, after := [name] + rest, rest + children;
    var i :| 0 <= i < |after| && LeadsAbove(tree, after[i], p);
    if i < |rest| {
      assert before[i + 1] == after[i];
    } else {
      var c := children[i - |rest|];
      assert c in children;
      ChildLeads(tree, name, c);
      assert LeadsAbove(tree, before[0], p);
    }
  }

  lemma ReachedNext(tree: Tree, name: Path, rest: seq<Path>, children: seq<Path>, p: Path)
    requires TreeOk(tree) && Advanced(tree, name, children)
    requires Reached(tree, [name] + rest, p) && p !in Target(tree, name)
    ensures Reached(tree, rest + children, p)
  {
    hide TreeOk, Real, Walked;
    var before, after := [name] + rest, rest + children;
    var i :| 0 <= i < |before| && LeadsAbove(tree, before[i], p);
    if i > 0 {
      assert after[i - 1] == before[i];
    } else {
      var c := StepTowards(tree, name, p);
      assert c in children;
      var k :| 0 <= k < |children| && children[k] == c;
      assert after[|rest| + k] == c;
    }
  }

  // ---------- why the walks end ----------

  ghost function Below(tree: Tree, name: Path): set<Path> {
    set p | p in tree && Walked(tree, p) && LeadsAbove(tree, name, p)
  }

  /** The sizes of all that the names lead to, counted once for each name. */
  ghost function Weight(tree: Tree, names: seq<Path>): nat {
    if names == [] then 0
    else
      var k := |names| - 1;
      Weight(tree, names[..k]) + |Below(tree, names[k])|
  }

  lemma {:induction false} WeightAdds(tree: Tree, a: seq<Path>, b: seq<Path>)
    ensures Weight(tree, a + b) == Weight(tree, a) + Weight(tree, b)
    decreases |b|
  {
    hide Below;
    if b == [] {
      assert a + b == a;
    } else {
      var k := |b| - 1;
      WeightAdds(tree, a, b[..k]);
      assert (a + b)[..|a| + k] == a + b[..k];
    }
  }

  lemma NextChild(tree: Tree, name: Path, children: seq<Path>, i: nat)
    requires TreeOk(tree) && Advanced(tree, name, children) && i < |children|
    ensures Pending(tree, children[..i + 1]) == Pending(tree, children[..i]) + Below(tree, children[i])
    ensures Pending(tree, children[..i]) !! Below(tree, children[i])
  {
    hide TreeOk, Advanced, LeadsAbove, Walked;
    var some, more := children[..i], children[..i + 1];
    assert forall j :: 0 <= j < i ==> some[j] == more[j];
    assert more[i] == children[i];
    forall p | p in Pending(tree, some) ensures p !in Below(tree, children[i]) {
      var j :| 0 <= j < i && LeadsAbove(tree, some[j], p);
      SiblingsApart(tree, name, children, j, i, p);
    }
    forall p ensures Reached(tree, more, p) <==> Reached(tree, some, p) || (Walked(tree, p) && LeadsAbove(tree, children[i], p)) {
      if Reached(tree, more, p) {
        var j :| 0 <= j < |more| && LeadsAbove(tree, more[j], p);
      }
    }
  }

  /** What the children of one name lead to is disjoint. */
  lemma {:induction false} ChildrenWeigh(tree: Tree, name: Path, children: seq<Path>, i: nat)
    requires TreeOk(tree) && Advanced(tree, name, children) && i <= |children|
    ensures Weight(tree, children[..i]) == |Pending(tree, children[..i])|
  {
    hide TreeOk, Advanced, Below, Reached;
    if i == 0 {
      NothingPending(tree);
    } else {
      ChildrenWeigh(tree, name, children, i - 1);
      NextChild(tree, name, children, i - 1);
      assert children[..i][..i - 1] == children[..i - 1];
    }
  }

  lemma NothingPending(tree: Tree)
    ensures Pending(tree, []) == {} && Weight(tree, []) == 0
  {
  }

  lemma SiblingsApart(tree: Tree, name: Path, children: seq<Path>, i: nat, j: nat, p: Path)
    requires TreeOk(tree) && Advanced(tree, name, children) && i < j < |children|
    ensures !(LeadsAbove(tree, children[i], p) && LeadsAbove(tree, children[j], p))
  {
    hide TreeOk, Real, Walked;
    var c, d := children[i], children[j];
    assert c in children && d in children && c != d;
    ChildLeads(tree, name, c);
    ChildLeads(tree, name, d);
    assert c == c[..|name|] + [c[|name|]] && d == d[..|name|] + [d[|name|]];
    assert c[|name|] != d[|name|];
    var r := Real(tree, name).value;
    assert (r + [c[|name|]])[|r|] != (r + [d[|name|]])[|r|];
  }

  lemma VisitWeighsLess(tree: Tree, name: Path, rest: seq<Path>, children: seq<Path>)
    requires TreeOk(tree) && Advanced(tree, name, children)
    ensures if Real(tree, name).Some? then Weight(tree, rest + children) < Weight(tree, [name] + rest)
      else children == [] && Weight(tree, rest + children) == Weight(tree, [name] + rest)
  {
    hide TreeOk, Real;
    WeightAdds(tree, rest, children);
    WeightAdds(tree, [name], rest);
    assert [name][..0] == [];
    assert Weight(tree, [name]) == |Below(tree, name)|;
    if Real(tree, name).Some? {
      ChildrenWeigh(tree, name, children, |children|);
      assert children[..|children|] == children;
      RealIsWalked(tree, name);
      var r := Real(tree, name).value;
      forall p | p in Pending(tree, children) ensures p in Below(tree, name) && p != r {
        StillBelow(tree, name, children, p);
      }
      SmallerSet(Pending(tree, children), Below(tree, name), r);
    } else {
      assert Below(tree, name) == {};
      if children != [] {
        HasFirst(children);
      }
    }
  }

  lemma HasFirst(names: seq<Path>)
    requires names != []
    ensures exists c :: c in names
  {
    assert names[0] in names;
  }

  lemma StillBelow(tree: Tree, name: Path, children: seq<Path>, p: Path)
    requires TreeOk(tree) && Advanced(tree, name, children) && Reached(tree, children, p)
    ensures LeadsAbove(tree, name, p) && p != Real(tree, name).value
  {
    hide TreeOk, Real, Walked;
    var i :| 0 <= i < |children| && LeadsAbove(tree, children[i], p);
    assert children[i] in children;
    ChildLeads(tree, name, children[i]);
  }

  lemma SmallerSet(s: set<Path>, t: set<Path>, p: Path)
    requires s <= t && p in t && p !in s
    ensures |s| < |t|
  {
    assert s < t;
    SubsetSize(s, t - {p});
  }

  lemma {:induction false} SubsetSize(s: set<Path>, t: set<Path>)
    requires s <= t
    ensures |s| <= |t|
    decreases s
  {
    if s != {} {
      var p :| p in s;
      SubsetSize(s - {p}, t - {p});
    }
  }

  // ---------- the walks ----------

  /** Every entry reached from the names is fixed, and nothing else is touched. */
  ghost predicate FixedUnder(tree: Tree, before: Tree, names: seq<Path>, fix: (Kind, Mode) -> Mode) {
    SameShape(tree, before)
    && forall p :: p in before ==>
      tree[p] == if Reached(before, names, p) then Fixed(fix, before[p]) else before[p]
  }

  /** So far: what was visited is fixed, and that and what is pending is what is to be fixed. */
  ghost predicate FixedSoFar(tree: Tree, before: Tree, names: seq<Path>, queue: seq<Path>, visited: set<Path>,
    fix: (Kind, Mode) -> Mode)
  {
    SameShape(tree, before) && visited + Pending(before, queue) == Pending(before, names)
    && forall p :: p in before ==> tree[p] == if p in visited then Fixed(fix, before[p]) else before[p]
  }

  lemma SameShapeSame(tree: Tree, before: Tree)
    requires SameShape(tree, before)
    ensures TreeOk(tree) <==> TreeOk(before)
    ensures forall p :: Walked(tree, p) <==> Walked(before, p)
    ensures forall name :: Real(tree, name) == Real(before, name)
    ensures forall names, p :: Reached(tree, names, p) <==> Reached(before, names, p)
  {
    hide Resolve;
    forall name ensures Real(tree, name) == Real(before, name) {
      ResolveSame(tree, before, ROOT, name, MAX_LINKS);
    }
    forall names, p ensures Reached(tree, names, p) <==> Reached(before, names, p) {
      assert forall i :: 0 <= i < |names| ==> (LeadsAbove(tree, names[i], p) <==> LeadsAbove(before, names[i], p));
    }
  }

  lemma WalkStarts(tree: Tree, names: seq<Path>, fix: (Kind, Mode) -> Mode)
    ensures FixedSoFar(tree, tree, names, names, {}, fix)
  {
  }

  lemma WalkEnds(tree: Tree, before: Tree, names: seq<Path>, visited: set<Path>, fix: (Kind, Mode) -> Mode)
    requires FixedSoFar(tree, before, names, [], visited, fix)
    ensures FixedUnder(tree, before, names, fix)
  {
    hide Fixed;
    NothingPending(before);
  }

  /** What a visit makes of the tree. */
  function Visited(tree: Tree, name: Path, fix: (Kind, Mode) -> Mode): Tree {
    var r := Real(tree, name);
    if r.Some? && r.value in tree then tree[r.value := Fixed(fix, tree[r.value])] else tree
  }

  class FileTree {
    var tree: Tree

    constructor (tree: Tree)
      ensures this.tree == tree
    {
      this.tree := tree;
    }

    /** The names to be visited in a directory: of its entries that are not symbolic links, in no particular order. */
    method ListDirectory(currentPath: Path, realPath: Path) returns (children: seq<Path>)
      requires Real(tree, currentPath) == Some(realPath)
      ensures Advanced(tree, currentPath, children)
    {
      hide Real;
      children := [];
      var left := Listing(tree, realPath);
      ListingHolds(tree, realPath);
      while left != {}
        invariant forall x :: x in left || currentPath + [x] in children <==> Walked(tree, realPath + [x])
        invariant forall c :: c in children ==> IsChild(tree, currentPath, c) && c[|currentPath|] !in left
        invariant forall i, j :: 0 <= i < j < |children| ==> children[i] != children[j]
        decreases |left|
      {
        var x :| x in left;
        var c := currentPath + [x];
        assert c[..|currentPath|] == currentPath && c[|currentPath|] == x;
        children := children + [c];
        left := left - {x};
      }
      forall c | IsChild(tree, currentPath, c) ensures c in children {
        assert c == currentPath + [c[|currentPath|]];
      }
    }

    /** Repairs what a name leads to and lists it. A name that leads nowhere is passed over. */
    method Visit(currentPath: Path, fix: (Kind, Mode) -> Mode) returns (children: seq<Path>)
      requires TreeOk(tree)
      modifies this
      ensures tree == Visited(old(tree), currentPath, fix)
      ensures Advanced(tree, currentPath, children)
    {
      hide Resolve, TreeOk, Advanced;
      var realPath := Real(tree, currentPath);
      if realPath.None? {
        children := [];
        NothingListed(tree, currentPath);
        return;
      }
      RealIsWalked(tree, currentPath);
      var info := tree[realPath.value];
      var target := fix(info.kind, info.mode);
      if target != info.mode * ACCESS {
        tree := tree[realPath.value := info.(mode := target)];
      }
      FixNow(old(tree), realPath.value, fix);
      SameShapeSame(tree, old(tree));
      if info.kind.Directory? {
        children := ListDirectory(currentPath, realPath.value);
      } else {
        children := [];
        NothingListed(tree, currentPath);
      }
    }

    method Walk(roots: seq<Path>, fix: (Kind, Mode) -> Mode)
      requires TreeOk(tree) && Settles(fix)
      modifies this
      ensures FixedUnder(tree, old(tree), roots, fix)
    {
      hide Fixed, Settles, FixedSoFar, FixedUnder, TreeOk, Pending, Advanced, Weight, Target, Visited;
      ghost var before := tree;
      ghost var visited: set<Path> := {};
      var queue := roots;
      WalkStarts(tree, roots, fix);
      while |queue| > 0
        invariant TreeOk(tree)
        invariant FixedSoFar(tree, before, roots, queue, visited, fix)
        decreases Weight(before, queue), |queue|
      {
        var currentPath, rest := queue[0], queue[1..];
        assert queue == [currentPath] + rest;
        ghost var now := tree;
        var children := Visit(currentPath, fix);
        StepDone(now, before, roots, currentPath, rest, children, visited, fix);
        visited := visited + Target(before, currentPath);
        queue := rest + children;
      }
      WalkEnds(tree, before, roots, visited, fix);
    }

    /** Makes the whole package readable to everyone. */
    method EnsurePackageReadable(packageRoot: Path)
      requires TreeOk(tree)
      modifies this
      ensures FixedUnder(tree, old(tree), [packageRoot], ReadableMode)
    {
      BothSettle();
      Walk([packageRoot], ReadableMode);
    }

    /** Takes write access to the bundled extensions from everyone but the owner. */
    method HardenBundledExtensions(packageRoot: Path)
      requires TreeOk(tree)
      modifies this
      ensures FixedUnder(tree, old(tree), ExtensionRoots(packageRoot), HardenedMode)
    {
      BothSettle();
      Walk(ExtensionRoots(packageRoot), HardenedMode);
    }

    /** Both, in this order. A link among the roots is followed, so extensions may lie outside the package. */
    method RepairPermissions(packageRoot: Path)
      requires TreeOk(tree)
      modifies this
      ensures SameShape(tree, old(tree))
      ensures forall p :: Reached(old(tree), [packageRoot], p) ==> OpenToAll(old(tree)[p], tree[p])
      ensures forall p :: Reached(old(tree), ExtensionRoots(packageRoot), p) ==> ClosedToOthers(old(tree)[p], tree[p])
      ensures forall p :: p in tree && !Reached(old(tree), [packageRoot], p) ==>
        if Reached(old(tree), ExtensionRoots(packageRoot), p) then tree[p].mode <= old(tree)[p].mode
        else tree[p] == old(tree)[p]
    {
      hide Fixed, Reached, TreeOk, ExtensionRoots, OpenToAll, ClosedToOthers;
      ghost var before := tree;
      EnsurePackageReadable(packageRoot);
      SameShapeSame(tree, before);
      HardenBundledExtensions(packageRoot);
      forall p | p in before
        ensures Reached(before, [packageRoot], p) ==> OpenToAll(before[p], tree[p])
        ensures Reached(before, ExtensionRoots(packageRoot), p) ==> ClosedToOthers(before[p], tree[p])
        ensures !Reached(before, [packageRoot], p) && Reached(before, ExtensionRoots(packageRoot), p) ==>
          tree[p].mode <= before[p].mode
      {
        BothFixed(before[p]);
      }
      forall p | Reached(before, [packageRoot], p) || Reached(before, ExtensionRoots(packageRoot), p) ensures p in before {
        ReachedInTree(before, [packageRoot], p);
        ReachedInTree(before, ExtensionRoots(packageRoot), p);
      }
    }
  }

  lemma ReachedInTree(tree: Tree, names: seq<Path>, p: Path)
    ensures Reached(tree, names, p) ==> p in tree
  {
  }

  /** Readable by everyone, open to everyone who may enter a directory or run a file its owner may run, and with no access
      that was not there but reading and executing. */
  predicate OpenToAll(before: Entry, after: Entry) {
    READ <= after.mode && (before.kind.Directory? || Ux in before.mode ==> EXECUTE <= after.mode)
    && after.kind == before.kind && after.mode <= before.mode + READ + EXECUTE
    && (before.kind.File? && Ux !in before.mode ==> after.mode * EXECUTE == before.mode * EXECUTE)
    && (Uw in before.mode <==> Uw in after.mode)
  }

  /** Not writable by group or others, with all other access it had. */
  predicate ClosedToOthers(before: Entry, after: Entry) {
    after.kind == before.kind && after.mode !! FOREIGN_WRITE && before.mode * ACCESS - FOREIGN_WRITE <= after.mode
  }

  lemma BothFixed(e: Entry)
    ensures var f := Fixed(ReadableMode, e);
      OpenToAll(e, f) && OpenToAll(e, Fixed(HardenedMode, f)) && ClosedToOthers(e, Fixed(HardenedMode, f))
    ensures var f := Fixed(HardenedMode, e); ClosedToOthers(e, f) && f.mode <= e.mode
  {
  }

  lemma FixNow(tree: Tree, p: Path, fix: (Kind, Mode) -> Mode)
    requires p in tree
    ensures var info := tree[p]; var target := fix(info.kind, info.mode);
      tree[p := Fixed(fix, info)] == if target != info.mode * ACCESS then tree[p := info.(mode := target)] else tree
  {
  }

  lemma ListingHolds(tree: Tree, directory: Path)
    ensures forall x :: x in Listing(tree, directory) <==> Walked(tree, directory + [x])
  {
    forall x ensures x in Listing(tree, directory) <==> Walked(tree, directory + [x]) {
      var p := directory + [x];
      assert p[..|p| - 1] == directory && p[|p| - 1] == x;
      if q :| q in tree && Walked(tree, q) && q != [] && q[..|q| - 1] == directory && q[|q| - 1] == x {
        assert q == q[..|q| - 1] + [q[|q| - 1]];
      }
    }
  }

  /** A name that leads to no directory has no children. */
  lemma NothingListed(tree: Tree, name: Path)
    requires TreeOk(tree)
    requires Real(tree, name).Some? ==> Real(tree, name).value in tree && !tree[Real(tree, name).value].kind.Directory?
    ensures Advanced(tree, name, [])
  {
    hide Resolve;
    assert forall r: Path, x: string :: Dirname(r + [x]) == r;
    forall c ensures !IsChild(tree, name, c) {
    }
  }

  lemma StepDone(now: Tree, before: Tree, roots: seq<Path>, name: Path, rest: seq<Path>, children: seq<Path>,
      visited: set<Path>, fix: (Kind, Mode) -> Mode)
    requires TreeOk(now) && Settles(fix) && FixedSoFar(now, before, roots, [name] + rest, visited, fix)
    requires Advanced(Visited(now, name, fix), name, children)
    ensures var tree := Visited(now, name, fix);
      TreeOk(tree) && FixedSoFar(tree, before, roots, rest + children, visited + Target(before, name), fix)
    ensures Weight(before, rest + children) < Weight(before, [name] + rest)
      || (Weight(before, rest + children) == Weight(before, [name] + rest) && |rest + children| < |[name] + rest|)
  {
    hide Resolve, Fixed, TreeOk, Reached, Pending, Weight;
    var tree := Visited(now, name, fix);
    SameShapeSame(now, before);
    if Real(now, name).Some? {
      RealIsWalked(now, name);
    }
    SameShapeSame(tree, before);
    SameAdvanced(tree, before, name, children);
    PendingAfter(before, name, rest, children);
    VisitWeighsLess(before, name, rest, children);
  }

  lemma SameAdvanced(tree: Tree, before: Tree, name: Path, children: seq<Path>)
    requires SameShape(tree, before) && Advanced(tree, name, children)
    ensures Advanced(before, name, children)
  {
    hide Real;
    SameShapeSame(tree, before);
    forall c ensures IsChild(tree, name, c) <==> IsChild(before, name, c) {
    }
  }
}
