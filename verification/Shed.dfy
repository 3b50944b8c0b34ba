/** Bringing a bundle of artifacts under a byte cap. */
module Shed {
  import opened Wrappers
  import opened Text
  import opened Utf8
  import opened Tail

  const MIN_SHORTENED_BYTES := 16 * 1024

  datatype Kind = TextFile | JsonFile

  datatype Status = Collected | Unavailable | Withheld | Dropped

  datatype View = View(
    priority: int,
    kind: Kind,
    status: Status,
    content: Option<string>,
    truncatedBytes: nat,
    reason: Option<string>
  )

  function ContentBytes(content: Option<string>): nat {
    if content.None? then 0 else |Encode(content.value)|
  }

  function Size(v: View): nat {
    ContentBytes(v.content)
  }

  function Total(views: seq<View>): nat {
    if views == [] then 0 else Total(views[..|views| - 1]) + Size(views[|views| - 1])
  }

  /** Only a collected artifact has content, and no content is larger than a buffer can be. */
  ghost predicate Sound(v: View) {
    (v.content.Some? ==> v.status.Collected?) && Size(v) < MAX_BUFFER_BYTES
  }

  ghost predicate AllSound(views: seq<View>) {
    forall i :: 0 <= i < |views| ==> Sound(views[i])
  }

  // ---------- the order of shedding ----------

  /** The sort key: least important first (importance falls as the number rises), then largest first. */
  predicate Before(a: View, b: View) {
    a.priority > b.priority || (a.priority == b.priority && Size(a) > Size(b))
  }

  function InsertIndex(views: seq<View>, i: nat, order: seq<nat>): (r: seq<nat>)
    requires i < |views| && forall k :: 0 <= k < |order| ==> order[k] < |views|
    ensures forall k :: 0 <= k < |r| ==> r[k] < |views|
  {
    if order == [] then [i]
    else if Before(views[i], views[order[0]]) then [i] + order
    else [order[0]] + InsertIndex(views, i, order[1..])
  }

  /** The collected artifacts among the first n, stably sorted. */
  function Order(views: seq<View>, n: nat): (r: seq<nat>)
    requires n <= |views|
    ensures forall k :: 0 <= k < |r| ==> r[k] < |views|
  {
    if n == 0 then []
    else if views[n - 1].status.Collected? then InsertIndex(views, n - 1, Order(views, n - 1))
    else Order(views, n - 1)
  }

  ghost predicate InOrder(views: seq<View>, order: seq<nat>) {
    (forall k :: 0 <= k < |order| ==> order[k] < |views|)
    && forall j, k :: 0 <= j < k < |order| ==> order[j] != order[k] && !Before(views[order[k]], views[order[j]])
  }

  lemma Prepend(views: seq<View>, i: nat, order: seq<nat>)
    requires i < |views| && InOrder(views, order)
    requires forall k :: 0 <= k < |order| ==> order[k] != i && !Before(views[order[k]], views[i])
    ensures InOrder(views, [i] + order)
  {
    hide Before;
    var r := [i] + order;
    forall j, k | 0 <= j < k < |r| ensures r[j] != r[k] && !Before(views[r[k]], views[r[j]]) {
      assert r[k] == order[k - 1];
      assert j > 0 ==> r[j] == order[j - 1];
    }
  }

  lemma TailInOrder(views: seq<View>, order: seq<nat>)
    requires order != [] && InOrder(views, order)
    ensures InOrder(views, order[1..])
    ensures forall k :: 0 <= k < |order[1..]| ==>
      order[1..][k] != order[0] && !Before(views[order[1..][k]], views[order[0]])
  {
    hide Before;
    var r := order[1..];
    forall j, k | 0 <= j < k < |r| ensures r[j] != r[k] && !Before(views[r[k]], views[r[j]]) {
      assert r[k] == order[k + 1] && r[j] == order[j + 1];
    }
  }

  lemma {:induction false} InsertInOrder(views: seq<View>, i: nat, order: seq<nat>)
    requires i < |views| && InOrder(views, order) && i !in order
    ensures InOrder(views, InsertIndex(views, i, order))
  {
    hide InOrder, Size;
    BoundsOf(views, order);
    if order == [] {
      Prepend(views, i, order);
      assert [i] + order == [i];
    } else {
      TailInOrder(views, order);
      if Before(views[i], views[order[0]]) {
        forall k | 0 <= k < |order| ensures order[k] != i && !Before(views[order[k]], views[i]) {
          assert k > 0 ==> order[k] == order[1..][k - 1];
        }
        Prepend(views, i, order);
      } else {
        var rest := InsertIndex(views, i, order[1..]);
        InsertInOrder(views, i, order[1..]);
        forall k | 0 <= k < |rest| ensures rest[k] != order[0] && !Before(views[rest[k]], views[order[0]]) {
          InsertHolds(views, i, order[1..], rest[k]);
          assert rest[k] == i || rest[k] in order[1..];
        }
        Prepend(views, order[0], rest);
      }
    }
  }

  lemma BoundsOf(views: seq<View>, order: seq<nat>)
    requires InOrder(views, order)
    ensures forall k :: 0 <= k < |order| ==> order[k] < |views|
  {
  }

  lemma {:induction false} InsertHolds(views: seq<View>, i: nat, order: seq<nat>, x: nat)
    requires i < |views| && forall k :: 0 <= k < |order| ==> order[k] < |views|
    ensures x in InsertIndex(views, i, order) <==> x in order || x == i
    decreases |order|
  {
    hide Before;
    if order != [] {
      InsertHolds(views, i, order[1..], x);
      assert x in order <==> x == order[0] || x in order[1..];
    }
  }

  lemma {:induction false} OrderSorted(views: seq<View>, n: nat)
    requires n <= |views|
    ensures InOrder(views, Order(views, n))
  {
    hide Before, InOrder, InsertIndex;
    if n == 0 {
      NothingInOrder(views);
    } else {
      OrderSorted(views, n - 1);
      if views[n - 1].status.Collected? {
        OrderHolds(views, n - 1, n - 1);
        InsertInOrder(views, n - 1, Order(views, n - 1));
      }
    }
  }

  lemma {:induction false} OrderHolds(views: seq<View>, n: nat, i: nat)
    requires n <= |views|
    ensures i in Order(views, n) <==> i < n && views[i].status.Collected?
  {
    hide Before, InsertIndex;
    if n > 0 {
      OrderHolds(views, n - 1, i);
      if views[n - 1].status.Collected? {
        InsertHolds(views, n - 1, Order(views, n - 1), i);
      }
    }
  }

  /** The order lists exactly the collected artifacts, each once, least important first. */
  lemma OrderListsCollected(views: seq<View>, n: nat)
    requires n <= |views|
    ensures InOrder(views, Order(views, n))
    ensures forall i: nat :: i in Order(views, n) <==> i < n && views[i].status.Collected?
  {
    hide InOrder, Order;
    OrderSorted(views, n);
    forall i: nat ensures i in Order(views, n) <==> i < n && views[i].status.Collected? {
      OrderHolds(views, n, i);
    }
  }

  lemma NothingInOrder(views: seq<View>)
    ensures InOrder(views, [])
  {
  }

  // ---------- one artifact ----------

  predicate CanShorten(v: View, excess: int): (r: bool)
    ensures r ==> v.content.Some?
  {
    v.kind.TextFile? && v.content.Some? && Size(v) - excess >= MIN_SHORTENED_BYTES
  }

  function Shortened(decode: seq<nat> -> string, v: View, excess: int): View
    requires v.content.Some?
  {
    var tail := TailText(decode, v.content.value, Size(v) - excess);
    v.(content := Some(tail.text), truncatedBytes := v.truncatedBytes + tail.droppedBytes,
      reason := Some("shortened to fit the bundle size cap"))
  }

  function Drop(v: View): View {
    v.(status := Dropped, content := None,
      reason := Some("dropped to fit the bundle size cap (lower priority than the kept files)"))
  }

  lemma ShortenedFits(decode: seq<nat> -> string, v: View, excess: int)
    requires Decodes(decode) && Sound(v) && CanShorten(v, excess) && excess > 0
    ensures Size(Shortened(decode, v, excess)) <= Size(v) - excess
  {
    hide Encode, TailText;
    TailFits(decode, v.content.value, Size(v) - excess);
    MarkerBytes(Size(v));
  }

  lemma {:induction false} TotalUpdate(views: seq<View>, i: nat, v: View)
    requires i < |views|
    ensures Total(views[i := v]) == Total(views) - Size(views[i]) + Size(v)
    decreases |views|
  {
    hide Size;
    var n := |views| - 1;
    if i < n {
      TotalUpdate(views[..n], i, v);
      assert views[i := v][..n] == views[..n][i := v];
    } else {
      assert views[i := v][..n] == views[..n];
    }
  }

  lemma {:induction false} TotalZero(views: seq<View>)
    requires forall i :: 0 <= i < |views| ==> views[i].content.None?
    ensures Total(views) == 0
  {
    if views != [] {
      TotalZero(views[..|views| - 1]);
    }
  }

  // ---------- the whole run ----------

  /** The state after the first k artifacts of the order have had their turn. */
  function ShedSteps(decode: seq<nat> -> string, views: seq<View>, order: seq<nat>, k: nat, cap: int): (r: seq<View>)
    requires k <= |order| && forall j :: 0 <= j < |order| ==> order[j] < |views|
    ensures |r| == |views| && (k == 0 ==> r == views)
  {
    if k == 0 then views
    else
      var now := ShedSteps(decode, views, order, k - 1, cap);
      var i := order[k - 1];
      var excess := Total(now) - cap;
      if excess <= 0 then now
      else if CanShorten(now[i], excess) then now[i := Shortened(decode, now[i], excess)]
      else now[i := Drop(now[i])]
  }

  function ShedToFit(decode: seq<nat> -> string, views: seq<View>, cap: int): (r: seq<View>)
    ensures |r| == |views|
  {
    var order := Order(views, |views|);
    ShedSteps(decode, views, order, |order|, cap)
  }

  /** The first m artifacts of the order dropped and all others as they were. */
  function DropFirst(views: seq<View>, order: seq<nat>, m: nat): (r: seq<View>)
    requires m <= |order| && forall j :: 0 <= j < |order| ==> order[j] < |views|
    ensures |r| == |views|
  {
    if m == 0 then views else DropFirst(views, order, m - 1)[order[m - 1] := Drop(views[order[m - 1]])]
  }

  lemma {:induction false} DropFirstAt(views: seq<View>, order: seq<nat>, m: nat, i: nat)
    requires InOrder(views, order) && m <= |order| && i < |views|
    ensures i in order[..m] ==> DropFirst(views, order, m)[i] == Drop(views[i])
    ensures i !in order[..m] ==> DropFirst(views, order, m)[i] == views[i]
  {
    hide Before, Drop;
    if m > 0 {
      DropFirstAt(views, order, m - 1, i);
      assert order[..m] == order[..m - 1] + [order[m - 1]];
    }
  }

  /** Dropping went on only while it had to, and at most one artifact was shortened, right after the last dropped one. */
  ghost predicate StoppedAt(decode: seq<nat> -> string, views: seq<View>, order: seq<nat>, k: nat, cap: int, m: nat,
      r: seq<View>)
    requires InOrder(views, order) && m <= k <= |order|
  {
    (forall i :: 0 <= i < m ==> MustDrop(views, order, i, cap))
    && var dropped := DropFirst(views, order, m);
      if m < k && Total(dropped) > cap then
        CanShorten(views[order[m]], Total(dropped) - cap)
        && r == dropped[order[m] := Shortened(decode, views[order[m]], Total(dropped) - cap)]
        && Total(r) <= cap
      else r == dropped && (m < k ==> Total(r) <= cap)
  }

  ghost predicate MustDrop(views: seq<View>, order: seq<nat>, i: nat, cap: int)
    requires InOrder(views, order) && i < |order|
  {
    var dropped := DropFirst(views, order, i);
    Total(dropped) > cap && !CanShorten(views[order[i]], Total(dropped) - cap)
  }

  lemma {:induction false} StepsStop(decode: seq<nat> -> string, views: seq<View>, order: seq<nat>, k: nat, cap: int)
    returns (m: nat)
    requires Decodes(decode) && AllSound(views) && InOrder(views, order) && k <= |order|
    ensures m <= k && StoppedAt(decode, views, order, k, cap, m, ShedSteps(decode, views, order, k, cap))
  {
    hide Shortened, CanShorten, Drop, Before, Total, Decodes, Size;
    if k == 0 {
      m := 0;
    } else {
      m := StepsStop(decode, views, order, k - 1, cap);
      var now, i := ShedSteps(decode, views, order, k - 1, cap), order[k - 1];
      if Total(now) > cap {
        assert m == k - 1 && now == DropFirst(views, order, m);
        DropFirstAt(views, order, m, i);
        assert now[i] == views[i] by {
          NotYet(views, order, m);
        }
        var excess := Total(now) - cap;
        if CanShorten(now[i], excess) {
          ShortenedFits(decode, views[i], excess);
          TotalUpdate(now, i, Shortened(decode, now[i], excess));
        } else {
          m := k;
        }
      }
    }
  }

  lemma NotYet(views: seq<View>, order: seq<nat>, m: nat)
    requires InOrder(views, order) && m < |order|
    ensures order[m] !in order[..m]
  {
  }

  /** The bundle fits at the end, whatever went in, exactly when the cap is not negative. */
  lemma ShedFits(decode: seq<nat> -> string, views: seq<View>, cap: int)
    requires Decodes(decode) && AllSound(views)
    ensures Total(ShedToFit(decode, views, cap)) <= cap <==> cap >= 0
  {
    hide Before, Total, Shortened, CanShorten, Decodes, Order;
    var order, r := Order(views, |views|), ShedToFit(decode, views, cap);
    OrderListsCollected(views, |views|);
    var m := StepsStop(decode, views, order, |order|, cap);
    if m == |order| {
      forall i | 0 <= i < |views| ensures r[i].content.None? {
        DropFirstAt(views, order, m, i);
        assert order[..m] == order;
      }
      TotalZero(r);
    }
  }

  /** Nothing is touched before everything less important is dropped, and only collected artifacts are touched. */
  lemma ShedLeastImportantFirst(decode: seq<nat> -> string, views: seq<View>, cap: int, i: nat, j: nat)
    requires Decodes(decode) && AllSound(views) && i < |views| && j < |views|
    requires views[i].status.Collected? && Before(views[i], views[j])
    requires ShedToFit(decode, views, cap)[j] != views[j]
    ensures views[j].status.Collected?
    ensures ShedToFit(decode, views, cap)[i] == Drop(views[i])
  {
    hide Total, Shortened, Drop, CanShorten, Size, Before, Order;
    var order := Order(views, |views|);
    OrderListsCollected(views, |views|);
    var m := StepsStop(decode, views, order, |order|, cap);
    DropFirstAt(views, order, m, i);
    DropFirstAt(views, order, m, j);
    assert j in order[..m] || (m < |order| && j == order[m]);
    var p :| 0 <= p < |order| && order[p] == i;
    var q :| 0 <= q < |order| && order[q] == j && q <= m;
    BeforeIsStrict(views, order, p, q);
    assert order[..m][p] == i;
    NotYet(views, order, m - 1);
    if m < |order| {
      NotYet(views, order, m);
    }
  }

  lemma BeforeIsStrict(views: seq<View>, order: seq<nat>, p: nat, q: nat)
    requires InOrder(views, order) && p < |order| && q < |order| && Before(views[order[p]], views[order[q]])
    ensures p < q
  {
  }

  /** At most one artifact is shortened, by what was too much when its turn came. */
  lemma OneShortened(decode: seq<nat> -> string, views: seq<View>, cap: int, i: nat) returns (excess: int)
    requires Decodes(decode) && AllSound(views) && i < |views| && views[i].status.Collected?
    requires var v := ShedToFit(decode, views, cap)[i]; v != views[i] && v.status.Collected?
    ensures excess > 0 && CanShorten(views[i], excess)
    ensures ShedToFit(decode, views, cap)[i] == Shortened(decode, views[i], excess)
    ensures forall k :: 0 <= k < |views| && k != i ==>
      var v := ShedToFit(decode, views, cap)[k]; v == views[k] || v == Drop(views[k])
  {
    hide Total, Order, Before, Decodes, Size, Shortened, CanShorten, InOrder, AllSound;
    var order := Order(views, |views|);
    OrderListsCollected(views, |views|);
    var m := StepsStop(decode, views, order, |order|, cap);
    forall k | 0 <= k < |views|
      ensures DropFirst(views, order, m)[k] == views[k] || DropFirst(views, order, m)[k] == Drop(views[k])
    {
      DropFirstAt(views, order, m, k);
    }
    excess := Total(DropFirst(views, order, m)) - cap;
  }

  /** What is shortened is a text: it loses its head up to a line start and says how many bytes that was, and its lines
      fit the room left. */
  lemma ShortenedKeepsTail(decode: seq<nat> -> string, views: seq<View>, cap: int, i: nat) returns (room: int, j: nat)
    requires Decodes(decode) && AllSound(views) && i < |views| && views[i].status.Collected?
    requires var v := ShedToFit(decode, views, cap)[i]; v != views[i] && v.status.Collected?
    ensures views[i].kind.TextFile? && views[i].content.Some? && MIN_SHORTENED_BYTES <= room < Size(views[i])
    ensures var v := ShedToFit(decode, views, cap)[i];
      v.content.Some? && v.truncatedBytes >= views[i].truncatedBytes
      && KeptFrom(views[i].content.value, room, TailResult(v.content.value, v.truncatedBytes - views[i].truncatedBytes), j)
  {
    hide KeptFrom, TailText, Encode, Decodes, ShedToFit, Drop;
    var excess := OneShortened(decode, views, cap, i);
    room := Size(views[i]) - excess;
    j := TailKeepsWholeLines(decode, views[i].content.value, room);
  }

  // ---------- the artifacts ----------

  class Artifact {
    const priority: int
    const kind: Kind
    var status: Status
    var content: Option<string>
    var truncatedBytes: nat
    var reason: Option<string>

    constructor (priority: int, kind: Kind, status: Status, content: Option<string>, reason: Option<string>)
      ensures AsView() == View(priority, kind, status, content, 0, reason)
    {
      this.priority, this.kind, this.status, this.content := priority, kind, status, content;
      this.truncatedBytes, this.reason := 0, reason;
    }

    function AsView(): View
      reads this
    {
      View(priority, kind, status, content, truncatedBytes, reason)
    }

    /** Its turn in the shedding, with this many bytes too much. */
    method Reduce(decode: seq<nat> -> string, excess: int)
      modifies this
      ensures var v := old(AsView());
        AsView() == if CanShorten(v, excess) then Shortened(decode, v, excess) else Drop(v)
    {
      hide TailText, Encode;
      var size := ContentBytes(content);
      if kind.TextFile? && content.Some? && size - excess >= MIN_SHORTENED_BYTES {
        var tail := TailText(decode, content.value, size - excess);
        content := Some(tail.text);
        truncatedBytes := truncatedBytes + tail.droppedBytes;
        reason := Some("shortened to fit the bundle size cap");
      } else {
        status := Dropped;
        content := None;
        reason := Some("dropped to fit the bundle size cap (lower priority than the kept files)");
      }
    }

    /** Withholds text in which the scan still finds something. */
    method ApplyGuard(scan: string -> seq<string>, found: string)
      modifies this
      ensures Sound(old(AsView())) ==> Sound(AsView())
      ensures status.Collected? && content.Some? ==> scan(content.value) == []
      ensures AsView() == old(AsView()) || (old(content.Some? && scan(content.value) != []) &&
        status == Withheld && content == None && reason == Some("withheld: " + found + " (" + Join(scan(old(content).value), ", ") + ")")
        && truncatedBytes == old(truncatedBytes))
    {
      if !status.Collected? || content.None? {
        return;
      }
      var hits := scan(content.value);
      if |hits| > 0 {
        status := Withheld;
        content := None;
        reason := Some("withheld: " + found + " (" + Join(hits, ", ") + ")");
      }
    }
  }

  function Views(artifacts: seq<Artifact>): (r: seq<View>)
    reads artifacts
    ensures |r| == |artifacts|
  {
    if artifacts == [] then []
    else
      var k := |artifacts| - 1;
      Views(artifacts[..k]) + [artifacts[k].AsView()]
  }

  ghost predicate AllDifferent(artifacts: seq<Artifact>) {
    forall i, j :: 0 <= i < j < |artifacts| ==> artifacts[i] != artifacts[j]
  }

  method ShedArtifacts(decode: seq<nat> -> string, artifacts: seq<Artifact>, maxTotalBytes: int)
    requires AllDifferent(artifacts)
    modifies artifacts
    ensures Views(artifacts) == ShedToFit(decode, old(Views(artifacts)), maxTotalBytes)
  {
    hide Encode, TailText, Order, ShedSteps, Total, Shortened, Drop, CanShorten, Views;
    NothingTotal();
    var total: int := 0;
    for i := 0 to |artifacts|
      invariant total == Total(Views(artifacts)[..i])
      modifies {}
    {
      TotalNext(Views(artifacts), i);
      ViewsAt(artifacts, i);
      total := total + ContentBytes(artifacts[i].content);
    }
    assert Views(artifacts)[..|artifacts|] == Views(artifacts);
    var views := Views(artifacts);
    var byLeastImportant := Order(views, |views|);
    assert views == old(Views(artifacts));
    assert ShedToFit(decode, views, maxTotalBytes)
      == ShedSteps(decode, views, byLeastImportant, |byLeastImportant|, maxTotalBytes);
    for k := 0 to |byLeastImportant|
      invariant Views(artifacts) == ShedSteps(decode, views, byLeastImportant, k, maxTotalBytes)
      invariant total == Total(Views(artifacts))
    {
      OneStep(decode, views, byLeastImportant, k, maxTotalBytes);
      if total <= maxTotalBytes {
        NoMoreSteps(decode, views, byLeastImportant, k, |byLeastImportant|, maxTotalBytes);
        return;
      }
      var i := byLeastImportant[k];
      ViewsAt(artifacts, i);
      ghost var before := Views(artifacts);
      var size := ContentBytes(artifacts[i].content);
      TakeTurn(decode, artifacts, i, total - maxTotalBytes);
      ViewsAt(artifacts, i);
      TotalUpdate(before, i, artifacts[i].AsView());
      total := total - (size - ContentBytes(artifacts[i].content));
    }
  }

  lemma NothingTotal()
    ensures Total([]) == 0
  {
  }

  lemma TotalNext(views: seq<View>, i: nat)
    requires i < |views|
    ensures Total(views[..i + 1]) == Total(views[..i]) + Size(views[i])
  {
    assert views[..i + 1][..i] == views[..i];
  }

  lemma {:induction false} ViewsAt(artifacts: seq<Artifact>, i: nat)
    requires i < |artifacts|
    ensures Views(artifacts)[i] == artifacts[i].AsView()
    decreases |artifacts|
  {
    if i < |artifacts| - 1 {
      ViewsAt(artifacts[..|artifacts| - 1], i);
    }
  }

  method TakeTurn(decode: seq<nat> -> string, artifacts: seq<Artifact>, i: nat, excess: int)
    requires AllDifferent(artifacts) && i < |artifacts|
    modifies artifacts[i]
    ensures var v := old(artifacts[i].AsView());
      Views(artifacts) == old(Views(artifacts))[i :=
        if CanShorten(v, excess) then Shortened(decode, v, excess) else Drop(v)]
  {
    hide Views, CanShorten, Shortened, Drop, TailText, Encode;
    ghost var before := Views(artifacts);
    forall j | 0 <= j < |artifacts| ensures before[j] == artifacts[j].AsView() {
      ViewsAt(artifacts, j);
    }
    artifacts[i].Reduce(decode, excess);
    forall j | 0 <= j < |artifacts| ensures Views(artifacts)[j] == artifacts[j].AsView() {
      ViewsAt(artifacts, j);
    }
    assert Views(artifacts) == before[i := artifacts[i].AsView()];
  }

  lemma OneStep(decode: seq<nat> -> string, views: seq<View>, order: seq<nat>, k: nat, cap: int)
    requires k < |order| && forall j :: 0 <= j < |order| ==> order[j] < |views|
    ensures var now := ShedSteps(decode, views, order, k, cap);
      var v, excess := now[order[k]], Total(now) - cap;
      ShedSteps(decode, views, order, k + 1, cap)
        == if excess <= 0 then now
           else now[order[k] := if CanShorten(v, excess) then Shortened(decode, v, excess) else Drop(v)]
  {
    hide Total, CanShorten, Shortened, Drop;
  }

  lemma {:induction false} NoMoreSteps(decode: seq<nat> -> string, views: seq<View>, order: seq<nat>, k: nat, n: nat, cap: int)
    requires k <= n <= |order| && forall j :: 0 <= j < |order| ==> order[j] < |views|
    requires Total(ShedSteps(decode, views, order, k, cap)) <= cap
    ensures ShedSteps(decode, views, order, n, cap) == ShedSteps(decode, views, order, k, cap)
    decreases n
  {
    hide Total, CanShorten, Shortened, Drop;
    if k < n {
      NoMoreSteps(decode, views, order, k, n - 1, cap);
    }
  }
}
