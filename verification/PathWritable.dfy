/** Whether the service user could change what runs at a path. */
module PathWritable {

  /** The root is the empty path. */
  type Path = seq<string>

  datatype Stat = Stat(uid: int, gid: int, groupWrite: bool, otherWrite: bool, link: bool)

  datatype Identity = Identity(uid: int, gids: set<int>)

  datatype Probe = Found(stat: Stat) | Missing | Failed

  predicate CanWrite(stat: Stat, who: Identity) {
    !stat.link && (stat.uid == who.uid || stat.otherWrite || (stat.groupWrite && stat.gid in who.gids))
  }

  /** What makes the walk stop: the user may write here, or nobody can tell. */
  predicate Suspect(probe: Probe, who: Identity) {
    probe.Failed? || (probe.Found? && CanWrite(probe.stat, who))
  }

  function Dirname(p: Path): Path {
    if p == [] then p else p[..|p| - 1]
  }

  /** Some place on the way from the root to the path is suspect. */
  ghost predicate ChainWritable(path: Path, who: Identity, statPath: Path -> Probe) {
    exists n :: 0 <= n <= |path| && Suspect(statPath(path[..n]), who)
  }

  method IsChainWritable(path: Path, who: Identity, statPath: Path -> Probe) returns (r: bool)
    ensures r <==> ChainWritable(path, who, statPath)
  {
    var current := path;
    assert path[..|path|] == path;
    while true
      invariant |current| <= |path| && current == path[..|current|]
      invariant forall n :: |current| < n <= |path| ==> !Suspect(statPath(path[..n]), who)
      decreases |current|
    {
      var probe := statPath(current);
      match probe {
        case Found(stat) =>
          if CanWrite(stat, who) {
            return true;
          }
        case Missing =>
        case Failed => return true;
      }
      var parent := Dirname(current);
      if parent == current {
        return false;
      }
      assert path[..|current|][..|current| - 1] == path[..|current| - 1];
      current := parent;
    }
  }

  // ---------- what the user could do ----------

  /** What is at a path: its owner and mode, and what it holds. */
  datatype Node = Node(stat: Stat, content: string)

  type Disk = map<Path, Node>

  /** The user writes into what is at a path, changes the mode of what is theirs, or puts a whole tree, possibly none, in
      the place of a path. */
  datatype Move = Write(p: Path, content: string) | SetMode(p: Path, groupWrite: bool, otherWrite: bool) | Put(p: Path, tree: Disk)

  predicate May(disk: Disk, who: Identity, move: Move) {
    match move
    case Write(p, _) => p in disk && CanWrite(disk[p].stat, who)
    case SetMode(p, _, _) => p in disk && !disk[p].stat.link && disk[p].stat.uid == who.uid
    case Put(p, _) => p != [] && Dirname(p) in disk && CanWrite(disk[Dirname(p)].stat, who)
  }

  function Apply(disk: Disk, move: Move): Disk {
    match move
    case Write(p, content) => if p in disk then disk[p := disk[p].(content := content)] else disk
    case SetMode(p, g, o) =>
      if p in disk then disk[p := disk[p].(stat := disk[p].stat.(groupWrite := g, otherWrite := o))] else disk
    case Put(p, tree) =>
      (map q | q in disk && !(p <= q) :: disk[q]) + (map q | q in tree && p <= q :: tree[q])
  }

  ghost predicate Allowed(disk: Disk, who: Identity, moves: seq<Move>)
    decreases |moves|
  {
    moves == [] || (May(disk, who, moves[0]) && Allowed(Apply(disk, moves[0]), who, moves[1..]))
  }

  function Run(disk: Disk, moves: seq<Move>): Disk
    decreases |moves|
  {
    if moves == [] then disk else Run(Apply(disk, moves[0]), moves[1..])
  }

  function StatOf(disk: Disk): Path -> Probe {
    p => if p in disk then Found(disk[p].stat) else Missing
  }

  /** Every place on the way to the path holds in one what it holds in the other. */
  ghost predicate SameChain(disk: Disk, other: Disk, path: Path) {
    forall n :: 0 <= n <= |path| ==> SameAt(disk, other, path[..n])
  }

  predicate SameAt(disk: Disk, other: Disk, p: Path) {
    (p in disk <==> p in other) && (p in disk && p in other ==> disk[p] == other[p])
  }

  lemma ParentIsSafe(disk: Disk, who: Identity, path: Path, n: nat, p: Path)
    requires !ChainWritable(path, who, StatOf(disk)) && n <= |path| && p != [] && p <= path[..n]
    ensures !Suspect(StatOf(disk)(Dirname(p)), who)
  {
    var k := |p| - 1;
    assert path[..n][..k] == path[..k] && p[..k] == path[..k];
    assert !Suspect(StatOf(disk)(path[..k]), who);
  }

  lemma MoveKeepsChain(disk: Disk, who: Identity, move: Move, path: Path)
    requires !ChainWritable(path, who, StatOf(disk)) && May(disk, who, move)
    ensures SameChain(disk, Apply(disk, move), path)
  {
    forall n | 0 <= n <= |path| ensures SameAt(disk, Apply(disk, move), path[..n]) {
      assert !Suspect(StatOf(disk)(path[..n]), who);
      match move
      case Write(p, _) =>
        assert p != path[..n];
      case SetMode(p, _, _) =>
        assert p != path[..n];
      case Put(p, tree) =>
        if p <= path[..n] {
          ParentIsSafe(disk, who, path, n, p);
          assert false;
        }
    }
  }

  lemma SameChainSameAnswer(disk: Disk, other: Disk, who: Identity, path: Path)
    requires SameChain(disk, other, path)
    ensures ChainWritable(path, who, StatOf(disk)) <==> ChainWritable(path, who, StatOf(other))
  {
    forall n | 0 <= n <= |path|
      ensures Suspect(StatOf(disk)(path[..n]), who) <==> Suspect(StatOf(other)(path[..n]), who)
    {
      assert SameAt(disk, other, path[..n]);
    }
  }

  lemma {:induction false} RunKeepsChain(disk: Disk, who: Identity, moves: seq<Move>, path: Path)
    requires !ChainWritable(path, who, StatOf(disk)) && Allowed(disk, who, moves)
    ensures SameChain(disk, Run(disk, moves), path)
    decreases |moves|
  {
    if moves != [] {
      var next := Apply(disk, moves[0]);
      MoveKeepsChain(disk, who, moves[0], path);
      SameChainSameAnswer(disk, next, who, path);
      RunKeepsChain(next, who, moves[1..], path);
      forall n | 0 <= n <= |path| ensures SameAt(disk, Run(disk, moves), path[..n]) {
        assert SameAt(disk, next, path[..n]) && SameAt(next, Run(disk, moves), path[..n]);
      }
    }
  }

  /** No run of moves the user may make changes what is at the path. */
  ghost predicate Untouchable(disk: Disk, who: Identity, path: Path) {
    forall moves :: Allowed(disk, who, moves) ==> SameAt(disk, Run(disk, moves), path)
  }

  /** Nor what is at any directory above it. */
  ghost predicate ChainUntouchable(disk: Disk, who: Identity, path: Path) {
    forall moves :: Allowed(disk, who, moves) ==> SameChain(disk, Run(disk, moves), path)
  }

  /** A move that changes what is at the path, when the place of length n on the way to it is writable. */
  function ChangingMove(disk: Disk, path: Path, n: nat): Move
    requires n <= |path| && path[..n] in disk
  {
    if n == |path| then Write(path, disk[path[..n]].content + "x")
    else Put(path[..n + 1], if path in disk then map[] else map[path := disk[path[..n]]])
  }

  lemma MoveChangesPath(disk: Disk, who: Identity, path: Path, n: nat)
    requires n <= |path| && Suspect(StatOf(disk)(path[..n]), who)
    ensures var move := ChangingMove(disk, path, n);
      May(disk, who, move) && !SameAt(disk, Apply(disk, move), path)
  {
    if n == |path| {
      assert path[..n] == path;
      assert |disk[path].content + "x"| == |disk[path].content| + 1;
    } else {
      assert path[..n + 1][..n] == path[..n] && path[..n + 1] <= path;
    }
  }

  /** The walk calls a path safe exactly when nothing the user may do, in any number of moves, changes what is at the
      path; nothing at a directory above it changes then either. */
  lemma SafeIffUntouchable(disk: Disk, who: Identity, path: Path)
    ensures !ChainWritable(path, who, StatOf(disk)) <==> Untouchable(disk, who, path)
    ensures !ChainWritable(path, who, StatOf(disk)) <==> ChainUntouchable(disk, who, path)
  {
    assert path[..|path|] == path;
    if !ChainWritable(path, who, StatOf(disk)) {
      forall moves | Allowed(disk, who, moves)
        ensures SameChain(disk, Run(disk, moves), path) && SameAt(disk, Run(disk, moves), path)
      {
        RunKeepsChain(disk, who, moves, path);
      }
    } else {
      var n :| 0 <= n <= |path| && Suspect(StatOf(disk)(path[..n]), who);
      var move := ChangingMove(disk, path, n);
      MoveChangesPath(disk, who, path, n);
      OneMove(disk, move);
      assert Allowed(Apply(disk, move), who, [move][1..]);
      assert Allowed(disk, who, [move]);
      assert !SameAt(disk, Run(disk, [move]), path[..|path|]);
    }
  }

  lemma OneMove(disk: Disk, move: Move)
    ensures Run(disk, [move]) == Apply(disk, move)
  {
  }
}
