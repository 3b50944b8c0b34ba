/** Redacting JSON-like values held on a heap that may share and cycle. */
module Redact {
  import opened Text

  const MAX_DEPTH: nat := 12

  const REDACTED := "[REDACTED]"
  const REDACTED_PII := "[REDACTED:PII]"

  // ---------- values ----------

  /** Values without parts. A number is kept as it is, so only its identity matters. */
  datatype Prim =
    | Null
    | Undefined
    | Str(text: string)
    | Number(id: int)
    | Bool(value: bool)
    | BigInt(digits: int)
    | FunctionOrSymbol

  type Ref = nat

  datatype Item = Prim(prim: Prim) | At(ref: Ref)

  datatype Field<T> = Field(key: string, value: T)

  datatype Node = ArrayNode(entries: seq<Item>) | ObjectNode(fields: seq<Field<Item>>)

  type Heap = map<Ref, Node>

  datatype Output = Plain(prim: Prim) | Array(entries: seq<Output>) | Object(fields: seq<Field<Output>>)

  /** The pattern tests and the free text rules, which are regular expressions in the program. */
  datatype Rules = Rules(text: string -> string, identifying: string -> bool, secret: string -> bool, pii: string -> bool)

  predicate InHeap(heap: Heap, item: Item) {
    item.At? ==> item.ref in heap
  }

  ghost predicate DistinctKeys<T(!new)>(fields: seq<Field<T>>) {
    forall i, j :: 0 <= i < j < |fields| ==> fields[i].key != fields[j].key
  }

  ghost predicate NodeOk(heap: Heap, node: Node) {
    match node
    case ArrayNode(entries) => forall i :: 0 <= i < |entries| ==> InHeap(heap, entries[i])
    case ObjectNode(fields) => DistinctKeys(fields) && forall i :: 0 <= i < |fields| ==> InHeap(heap, fields[i].value)
  }

  ghost predicate HeapOk(heap: Heap) {
    forall r :: r in heap ==> NodeOk(heap, heap[r])
  }

  // ---------- what the redactor computes, over the heap and the set of ancestors ----------

  function Marker(kind: string): Output {
    Plain(Str("[REDACTED:" + kind + "]"))
  }

  function BigIntText(n: int): string {
    if n < 0 then "-" + Decimal(-n) else Decimal(n)
  }

  function RedactPrim(rules: Rules, p: Prim): Output {
    match p
    case Str(text) => Plain(Str(rules.text(text)))
    case BigInt(n) => Plain(Str(BigIntText(n)))
    case FunctionOrSymbol => Marker("UNSUPPORTED")
    case _ => Plain(p)
  }

  /** Assigning an object's key: in place when the key is there, at the end otherwise. */
  function Put(fields: seq<Field<Output>>, key: string, value: Output): seq<Field<Output>> {
    if fields == [] then [Field(key, value)]
    else if fields[0].key == key then [Field(key, value)] + fields[1..]
    else [fields[0]] + Put(fields[1..], key, value)
  }

  function WithCount(fields: seq<Field<Output>>, count: nat): seq<Field<Output>> {
    if count == 0 then fields
    else Put(fields, REDACTED_PII, Plain(Str(Decimal(count) + " identifying key(s) withheld")))
  }

  function Budget(depth: nat): nat {
    if depth > MAX_DEPTH then 0 else MAX_DEPTH + 1 - depth
  }

  function Redacted(rules: Rules, heap: Heap, input: Item, depth: nat, seen: set<Ref>): Output
    requires HeapOk(heap) && InHeap(heap, input)
    decreases Budget(depth), 1, 0
  {
    if depth > MAX_DEPTH then Marker("DEPTH")
    else match input
      case Prim(p) => RedactPrim(rules, p)
      case At(r) =>
        if r in seen then Marker("CYCLE") else RedactedNode(rules, heap, heap[r], depth, seen + {r})
  }

  function RedactedNode(rules: Rules, heap: Heap, node: Node, depth: nat, seen: set<Ref>): Output
    requires HeapOk(heap) && NodeOk(heap, node) && depth <= MAX_DEPTH
    decreases Budget(depth), 0, 0
  {
    match node
    case ArrayNode(entries) => Array(RedactedEntries(rules, heap, entries, depth + 1, seen))
    case ObjectNode(fields) =>
      Object(WithCount(RedactedFields(rules, heap, fields, depth + 1, seen), IdentifyingKeys(rules, fields)))
  }

  function RedactedEntries(rules: Rules, heap: Heap, entries: seq<Item>, depth: nat, seen: set<Ref>): (r: seq<Output>)
    requires HeapOk(heap) && NodeOk(heap, ArrayNode(entries))
    ensures |r| == |entries|
    ensures forall i :: 0 <= i < |r| ==> r[i] == Redacted(rules, heap, entries[i], depth, seen)
    decreases Budget(depth), 2, |entries|
  {
    if entries == [] then []
    else
      var k := |entries| - 1;
      RedactedEntries(rules, heap, entries[..k], depth, seen) + [Redacted(rules, heap, entries[k], depth, seen)]
  }

  function RedactedField(rules: Rules, heap: Heap, field: Field<Item>, depth: nat, seen: set<Ref>): Output
    requires HeapOk(heap) && InHeap(heap, field.value)
    decreases Budget(depth), 2, 0
  {
    if rules.secret(field.key) then Plain(Str(REDACTED))
    else if rules.pii(field.key) then Plain(Str(REDACTED_PII))
    else Redacted(rules, heap, field.value, depth, seen)
  }

  function RedactedFields(rules: Rules, heap: Heap, fields: seq<Field<Item>>, depth: nat, seen: set<Ref>)
    : (r: seq<Field<Output>>)
    requires HeapOk(heap) && NodeOk(heap, ObjectNode(fields))
    decreases Budget(depth), 2, |fields|
  {
    if fields == [] then []
    else
      var k := |fields| - 1;
      var before := RedactedFields(rules, heap, fields[..k], depth, seen);
      if rules.identifying(fields[k].key) then before
      else Put(before, fields[k].key, RedactedField(rules, heap, fields[k], depth, seen))
  }

  function IdentifyingKeys<T>(rules: Rules, fields: seq<Field<T>>): nat {
    if fields == [] then 0
    else
      var k := |fields| - 1;
      IdentifyingKeys(rules, fields[..k]) + if rules.identifying(fields[k].key) then 1 else 0
  }

  // ---------- the tree unfolding and its redaction ----------

  /** A value with no sharing. Back stands for a reference to an ancestor. */
  datatype Tree = Leaf(prim: Prim) | Back | ArrayTree(entries: seq<Tree>) | ObjectTree(fields: seq<Field<Tree>>)

  function Visible<T>(rules: Rules, fields: seq<Field<T>>): (r: seq<Field<T>>)
    ensures forall f :: f in r ==> f in fields
  {
    if fields == [] then []
    else
      var k := |fields| - 1;
      Visible(rules, fields[..k]) + if rules.identifying(fields[k].key) then [] else [fields[k]]
  }

  /** Redaction of a tree: cut below MAX_DEPTH, fields with identifying keys counted instead of shown. */
  function RedactTree(rules: Rules, tree: Tree, depth: nat): Output
    decreases Budget(depth), 0
  {
    if depth > MAX_DEPTH then Marker("DEPTH")
    else match tree
      case Leaf(p) => RedactPrim(rules, p)
      case Back => Marker("CYCLE")
      case ArrayTree(entries) =>
        Array(seq(|entries|, i requires 0 <= i < |entries| => RedactTree(rules, entries[i], depth + 1)))
      case ObjectTree(fields) =>
        var shown := Visible(rules, fields);
        Object(WithCount(RedactShown(rules, shown, depth + 1), IdentifyingKeys(rules, fields)))
  }

  function RedactShown(rules: Rules, shown: seq<Field<Tree>>, depth: nat): (r: seq<Field<Output>>)
    decreases Budget(depth), 1
  {
    seq(|shown|, i requires 0 <= i < |shown| => Field(shown[i].key,
      if rules.secret(shown[i].key) then Plain(Str(REDACTED))
      else if rules.pii(shown[i].key) then Plain(Str(REDACTED_PII))
      else RedactTree(rules, shown[i].value, depth)))
  }

  /** The heap seen from an item as a tree in which every reference to an ancestor is cut. */
  function Unfold(heap: Heap, item: Item, path: set<Ref>): Tree
    requires HeapOk(heap) && InHeap(heap, item)
    decreases heap.Keys - path
  {
    match item
    case Prim(p) => Leaf(p)
    case At(r) =>
      if r in path then Back
      else
        assert r in heap.Keys - path && r !in heap.Keys - (path + {r});
        match heap[r]
        case ArrayNode(entries) =>
          ArrayTree(seq(|entries|, i requires 0 <= i < |entries| => Unfold(heap, entries[i], path + {r})))
        case ObjectNode(fields) =>
          ObjectTree(seq(|fields|, i requires 0 <= i < |fields| =>
            Field(fields[i].key, Unfold(heap, fields[i].value, path + {r}))))
  }

  // ---------- the heap walk redacts the unfolding ----------

  ghost predicate HasKey<T>(fields: seq<Field<T>>, key: string) {
    exists i :: 0 <= i < |fields| && fields[i].key == key
  }

  lemma {:induction false} PutNew(fields: seq<Field<Output>>, key: string, value: Output)
    requires !HasKey(fields, key)
    ensures Put(fields, key, value) == fields + [Field(key, value)]
  {
    if fields != [] {
      assert forall i :: 0 <= i < |fields[1..]| ==> fields[1..][i] == fields[i + 1];
      assert fields[0].key != key;
      PutNew(fields[1..], key, value);
      assert fields == [fields[0]] + fields[1..];
    }
  }

  lemma {:induction false} VisibleKeys<T(!new)>(rules: Rules, fields: seq<Field<T>>, key: string)
    requires !HasKey(fields, key)
    ensures !HasKey(Visible(rules, fields), key)
  {
    forall i | 0 <= i < |Visible(rules, fields)| ensures Visible(rules, fields)[i].key != key {
      assert Visible(rules, fields)[i] in fields;
    }
  }

  /** The fields written are the visible ones in order: no assignment hits a key twice. */
  lemma {:induction false} FieldsWritten(rules: Rules, heap: Heap, fields: seq<Field<Item>>, depth: nat, seen: set<Ref>)
    requires HeapOk(heap) && NodeOk(heap, ObjectNode(fields))
    ensures var r, shown := RedactedFields(rules, heap, fields, depth, seen), Visible(rules, fields);
      && |r| == |shown|
      && (forall i :: 0 <= i < |r| ==> InHeap(heap, shown[i].value))
      && (forall i :: 0 <= i < |r| ==>
        r[i] == Field(shown[i].key, RedactedField(rules, heap, shown[i], depth, seen)))
  {
    hide Redacted, RedactedField;
    if fields != [] {
      var k := |fields| - 1;
      FieldsWritten(rules, heap, fields[..k], depth, seen);
      var before, shown := RedactedFields(rules, heap, fields[..k], depth, seen), Visible(rules, fields[..k]);
      assert !HasKey(fields[..k], fields[k].key);
      VisibleKeys(rules, fields[..k], fields[k].key);
      assert forall i :: 0 <= i < |before| ==> before[i].key == shown[i].key;
      PutNew(before, fields[k].key, RedactedField(rules, heap, fields[k], depth, seen));
    }
  }

  ghost predicate UnfoldedFields(heap: Heap, fields: seq<Field<Item>>, trees: seq<Field<Tree>>, path: set<Ref>)
    requires HeapOk(heap) && forall i :: 0 <= i < |fields| ==> InHeap(heap, fields[i].value)
  {
    |trees| == |fields|
    && forall i :: 0 <= i < |fields| ==> trees[i] == Field(fields[i].key, Unfold(heap, fields[i].value, path))
  }

  lemma {:induction false} VisibleUnfolded(rules: Rules, heap: Heap, fields: seq<Field<Item>>, trees: seq<Field<Tree>>,
      path: set<Ref>)
    requires HeapOk(heap) && forall i :: 0 <= i < |fields| ==> InHeap(heap, fields[i].value)
    requires UnfoldedFields(heap, fields, trees, path)
    ensures forall i :: 0 <= i < |Visible(rules, fields)| ==> InHeap(heap, Visible(rules, fields)[i].value)
    ensures UnfoldedFields(heap, Visible(rules, fields), Visible(rules, trees), path)
    ensures IdentifyingKeys(rules, fields) == IdentifyingKeys(rules, trees)
    decreases |fields|
  {
    hide Unfold;
    if fields != [] {
      var k := |fields| - 1;
      VisibleUnfolded(rules, heap, fields[..k], trees[..k], path);
    }
  }

  lemma NodeInHeap(heap: Heap, r: Ref)
    requires HeapOk(heap) && r in heap
    ensures NodeOk(heap, heap[r])
    ensures heap[r].ArrayNode? ==> forall i :: 0 <= i < |heap[r].entries| ==> InHeap(heap, heap[r].entries[i])
    ensures heap[r].ObjectNode? ==> forall i :: 0 <= i < |heap[r].fields| ==> InHeap(heap, heap[r].fields[i].value)
  {
  }

  /** On every heap, cyclic or not, the walk with its set of ancestors computes the redaction of the unfolding. */
  lemma {:induction false} WalkRedactsUnfolding(rules: Rules, heap: Heap, item: Item, depth: nat, seen: set<Ref>)
    requires HeapOk(heap) && InHeap(heap, item)
    ensures Redacted(rules, heap, item, depth, seen) == RedactTree(rules, Unfold(heap, item, seen), depth)
    decreases Budget(depth)
  {
    hide WithCount, RedactPrim, Marker, Child, NodeOk, RedactedEntries, RedactedFields;
    if depth <= MAX_DEPTH && item.At? && item.ref !in seen {
      var path := seen + {item.ref};
      NodeInHeap(heap, item.ref);
      match heap[item.ref]
      case ArrayNode(entries) =>
        forall i | 0 <= i < |entries|
          ensures Redacted(rules, heap, entries[i], depth + 1, path)
            == RedactTree(rules, Unfold(heap, entries[i], path), depth + 1)
        {
          WalkRedactsUnfolding(rules, heap, entries[i], depth + 1, path);
        }
      case ObjectNode(fields) =>
        FieldsWritten(rules, heap, fields, depth + 1, path);
        var trees := Unfold(heap, item, seen).fields;
        VisibleUnfolded(rules, heap, fields, trees, path);
        var shown := Visible(rules, fields);
        forall i | 0 <= i < |shown|
          ensures Redacted(rules, heap, shown[i].value, depth + 1, path)
            == RedactTree(rules, Unfold(heap, shown[i].value, path), depth + 1)
        {
          WalkRedactsUnfolding(rules, heap, shown[i].value, depth + 1, path);
        }
        assert RedactedFields(rules, heap, fields, depth + 1, path)
          == RedactShown(rules, Visible(rules, trees), depth + 1);
    }
  }

  // ---------- finite unfoldings and cycles ----------

  /** The tree is the item with every reference followed. */
  ghost predicate IsUnfolding(heap: Heap, item: Item, tree: Tree)
    decreases tree
  {
    match item
    case Prim(p) => tree == Leaf(p)
    case At(r) => r in heap && match heap[r]
      case ArrayNode(entries) =>
        tree.ArrayTree? && |tree.entries| == |entries|
        && forall i :: 0 <= i < |entries| ==> IsUnfolding(heap, entries[i], tree.entries[i])
      case ObjectNode(fields) =>
        tree.ObjectTree? && |tree.fields| == |fields|
        && forall i :: 0 <= i < |fields| ==>
          tree.fields[i].key == fields[i].key && IsUnfolding(heap, fields[i].value, tree.fields[i].value)
  }

  lemma {:induction false} UnfoldingUnique(heap: Heap, item: Item, s: Tree, t: Tree)
    requires IsUnfolding(heap, item, s) && IsUnfolding(heap, item, t)
    ensures s == t
    decreases s
  {
    if item.At? {
      match heap[item.ref]
      case ArrayNode(entries) =>
        forall i | 0 <= i < |entries| ensures s.entries[i] == t.entries[i] {
          UnfoldingUnique(heap, entries[i], s.entries[i], t.entries[i]);
        }
      case ObjectNode(fields) =>
        forall i | 0 <= i < |fields| ensures s.fields[i] == t.fields[i] {
          UnfoldingUnique(heap, fields[i].value, s.fields[i].value, t.fields[i].value);
        }
    }
  }

  ghost predicate Larger(heap: Heap, r: Ref, tree: Tree) {
    exists t :: IsUnfolding(heap, At(r), t) && tree < t
  }

  /** What has a finite unfolding meets no ancestor: the cut unfolding is the whole one. */
  lemma {:induction false} UnfoldIsUnfolding(heap: Heap, item: Item, path: set<Ref>, tree: Tree)
    requires HeapOk(heap) && InHeap(heap, item)
    requires IsUnfolding(heap, item, tree) && forall r :: r in path ==> Larger(heap, r, tree)
    ensures Unfold(heap, item, path) == tree
    decreases tree
  {
    if item.At? {
      if item.ref in path {
        var t :| IsUnfolding(heap, item, t) && tree < t;
        UnfoldingUnique(heap, item, tree, t);
        assert false;
      }
      var deeper := path + {item.ref};
      assert NodeOk(heap, heap[item.ref]);
      match heap[item.ref]
      case ArrayNode(entries) =>
        forall i | 0 <= i < |entries| ensures Unfold(heap, entries[i], deeper) == tree.entries[i] {
          StillLarger(heap, path, item.ref, tree, tree.entries[i]);
          UnfoldIsUnfolding(heap, entries[i], deeper, tree.entries[i]);
        }
      case ObjectNode(fields) =>
        forall i | 0 <= i < |fields| ensures Unfold(heap, fields[i].value, deeper) == tree.fields[i].value {
          StillLarger(heap, path, item.ref, tree, tree.fields[i].value);
          UnfoldIsUnfolding(heap, fields[i].value, deeper, tree.fields[i].value);
        }
    }
  }

  lemma StillLarger(heap: Heap, path: set<Ref>, r: Ref, tree: Tree, part: Tree)
    requires IsUnfolding(heap, At(r), tree) && part < tree && forall p :: p in path ==> Larger(heap, p, tree)
    ensures forall p :: p in path + {r} ==> Larger(heap, p, part)
  {
    hide IsUnfolding;
    forall p | p in path + {r} ensures Larger(heap, p, part) {
      if p in path {
        var t :| IsUnfolding(heap, At(p), t) && tree < t;
        assert part < t;
      }
    }
  }

  /** Shared but not cyclic values: redacting the heap is redacting the tree in which every reference is followed. */
  lemma SharedValuesAreRedactedAsTrees(rules: Rules, heap: Heap, item: Item, tree: Tree, depth: nat)
    requires HeapOk(heap) && InHeap(heap, item) && IsUnfolding(heap, item, tree)
    ensures Redacted(rules, heap, item, depth, {}) == RedactTree(rules, tree, depth)
  {
    WalkRedactsUnfolding(rules, heap, item, depth, {});
    UnfoldIsUnfolding(heap, item, {}, tree);
  }

  ghost predicate HasBack(tree: Tree) {
    match tree
    case Leaf(_) => false
    case Back => true
    case ArrayTree(entries) => exists i :: 0 <= i < |entries| && HasBack(entries[i])
    case ObjectTree(fields) => exists i :: 0 <= i < |fields| && HasBack(fields[i].value)
  }

  ghost predicate Child(heap: Heap, r: Ref, item: Item) {
    r in heap && match heap[r]
      case ArrayNode(entries) => exists i :: 0 <= i < |entries| && entries[i] == item
      case ObjectNode(fields) => exists i :: 0 <= i < |fields| && fields[i].value == item
  }

  /** A chain of references, each held by the object before it. */
  ghost predicate Chain(heap: Heap, refs: seq<Ref>) {
    refs != [] && forall i :: 0 <= i < |refs| - 1 ==> Child(heap, refs[i], At(refs[i + 1]))
  }

  ghost predicate Repeats(refs: seq<Ref>) {
    exists i, j :: 0 <= i < j < |refs| && refs[i] == refs[j]
  }

  ghost predicate Meets(refs: seq<Ref>, path: set<Ref>) {
    exists i :: 0 <= i < |refs| && refs[i] in path
  }

  ghost predicate ChainBack(heap: Heap, item: Item, path: set<Ref>, refs: seq<Ref>) {
    Chain(heap, refs) && At(refs[0]) == item && (Repeats(refs) || Meets(refs, path))
  }

  lemma ChildHasBack(heap: Heap, r: Ref, child: Item, path: set<Ref>)
    requires HeapOk(heap) && InHeap(heap, At(r)) && r !in path && Child(heap, r, child)
    requires InHeap(heap, child) && HasBack(Unfold(heap, child, path + {r}))
    ensures HasBack(Unfold(heap, At(r), path))
  {
    var tree := Unfold(heap, At(r), path);
    match heap[r]
    case ArrayNode(entries) =>
      var i :| 0 <= i < |entries| && entries[i] == child;
      assert HasBack(tree.entries[i]);
    case ObjectNode(fields) =>
      var i :| 0 <= i < |fields| && fields[i].value == child;
      assert HasBack(tree.fields[i].value);
  }

  lemma {:induction false} ChainGivesBack(heap: Heap, item: Item, path: set<Ref>, refs: seq<Ref>)
    requires HeapOk(heap) && InHeap(heap, item) && ChainBack(heap, item, path, refs)
    ensures HasBack(Unfold(heap, item, path))
    decreases |refs|
  {
    hide HasBack, Unfold;
    if item.ref in path {
      assert HasBack(Unfold(heap, item, path)) by {
        BackAtAncestor(heap, item, path);
      }
    } else {
      var rest := refs[1..];
      var deeper := path + {item.ref};
      if Repeats(refs) {
        var i, j :| 0 <= i < j < |refs| && refs[i] == refs[j];
        assert rest[j - 1] == refs[j];
        assert i == 0 ==> rest[j - 1] in deeper;
        assert i > 0 ==> rest[i - 1] == rest[j - 1];
      } else {
        var i :| 0 <= i < |refs| && refs[i] in path;
        assert rest[i - 1] in deeper;
      }
      assert Child(heap, refs[0], At(refs[1]));
      assert NodeOk(heap, heap[refs[0]]);
      assert forall i :: 0 <= i < |rest| ==> rest[i] == refs[i + 1];
      ChainGivesBack(heap, At(rest[0]), deeper, rest);
      ChildHasBack(heap, item.ref, At(rest[0]), path);
    }
  }

  lemma BackAtAncestor(heap: Heap, item: Item, path: set<Ref>)
    requires HeapOk(heap) && InHeap(heap, item) && item.At? && item.ref in path
    ensures HasBack(Unfold(heap, item, path))
  {
  }

  lemma HasBackChild(heap: Heap, r: Ref, path: set<Ref>) returns (child: Item)
    requires HeapOk(heap) && r in heap && r !in path && HasBack(Unfold(heap, At(r), path))
    ensures Child(heap, r, child) && InHeap(heap, child) && HasBack(Unfold(heap, child, path + {r}))
  {
    var tree := Unfold(heap, At(r), path);
    assert NodeOk(heap, heap[r]);
    match heap[r]
    case ArrayNode(entries) =>
      var i :| 0 <= i < |entries| && HasBack(tree.entries[i]);
      child := entries[i];
    case ObjectNode(fields) =>
      var i :| 0 <= i < |fields| && HasBack(tree.fields[i].value);
      child := fields[i].value;
  }

  lemma {:induction false} BackGivesChain(heap: Heap, item: Item, path: set<Ref>) returns (refs: seq<Ref>)
    requires HeapOk(heap) && InHeap(heap, item) && HasBack(Unfold(heap, item, path))
    ensures ChainBack(heap, item, path, refs)
    decreases heap.Keys - path
  {
    BackIsReference(heap, item, path);
    hide HasBack, Unfold, Child, IsUnfolding;
    var r := item.ref;
    if r in path {
      refs := [r];
      assert refs[0] in path;
    } else {
      var child := HasBackChild(heap, r, path);
      assert r in heap.Keys - path && r !in heap.Keys - (path + {r});
      var rest := BackGivesChain(heap, child, path + {r});
      refs := [r] + rest;
      PrependChain(heap, r, child, path, rest);
    }
  }

  lemma BackIsReference(heap: Heap, item: Item, path: set<Ref>)
    requires HeapOk(heap) && InHeap(heap, item) && HasBack(Unfold(heap, item, path))
    ensures item.At?
  {
  }

  lemma PrependChain(heap: Heap, r: Ref, child: Item, path: set<Ref>, rest: seq<Ref>)
    requires Child(heap, r, child) && ChainBack(heap, child, path + {r}, rest)
    ensures ChainBack(heap, At(r), path, [r] + rest)
  {
    hide Child, Chain;
    PrependIsChain(heap, r, child, rest);
    var refs := [r] + rest;
    assert forall i :: 0 <= i < |rest| ==> refs[i + 1] == rest[i];
    if Repeats(rest) {
      var i, j :| 0 <= i < j < |rest| && rest[i] == rest[j];
      assert refs[i + 1] == refs[j + 1];
    } else {
      var i :| 0 <= i < |rest| && rest[i] in path + {r};
      assert refs[i + 1] == refs[0] || refs[i + 1] in path;
    }
  }

  lemma PrependIsChain(heap: Heap, r: Ref, child: Item, rest: seq<Ref>)
    requires Child(heap, r, child) && Chain(heap, rest) && At(rest[0]) == child
    ensures Chain(heap, [r] + rest)
  {
    hide Child;
    var refs := [r] + rest;
    forall i | 0 <= i < |refs| - 1 ensures Child(heap, refs[i], At(refs[i + 1])) {
      if i > 0 {
        assert refs[i] == rest[i - 1];
      }
    }
  }

  /** A cycle marker is written for a value exactly when some chain of references from it comes back on itself. */
  lemma BackIffCycle(heap: Heap, item: Item)
    requires HeapOk(heap) && InHeap(heap, item)
    ensures HasBack(Unfold(heap, item, {}))
      <==> exists refs :: Chain(heap, refs) && At(refs[0]) == item && Repeats(refs)
  {
    if HasBack(Unfold(heap, item, {})) {
      var refs := BackGivesChain(heap, item, {});
      assert Chain(heap, refs) && At(refs[0]) == item && Repeats(refs);
    }
    if refs :| Chain(heap, refs) && At(refs[0]) == item && Repeats(refs) {
      assert ChainBack(heap, item, {}, refs);
      ChainGivesBack(heap, item, {}, refs);
    }
  }

  /** Without such a chain the value has a finite unfolding, so it is redacted as that tree. */
  lemma {:induction false} NoBackIsUnfolding(heap: Heap, item: Item, path: set<Ref>)
    requires HeapOk(heap) && InHeap(heap, item) && !HasBack(Unfold(heap, item, path))
    ensures IsUnfolding(heap, item, Unfold(heap, item, path))
    decreases heap.Keys - path
  {
    if item.At? {
      var r := item.ref;
      var tree := Unfold(heap, item, path);
      assert r !in path && NodeOk(heap, heap[r]);
      assert r in heap.Keys - path && r !in heap.Keys - (path + {r});
      match heap[r]
      case ArrayNode(entries) =>
        forall i | 0 <= i < |entries| ensures IsUnfolding(heap, entries[i], tree.entries[i]) {
          assert !HasBack(tree.entries[i]);
          NoBackIsUnfolding(heap, entries[i], path + {r});
        }
      case ObjectNode(fields) =>
        forall i | 0 <= i < |fields| ensures IsUnfolding(heap, fields[i].value, tree.fields[i].value) {
          assert !HasBack(tree.fields[i].value);
          NoBackIsUnfolding(heap, fields[i].value, path + {r});
        }
    }
  }

  // ---------- what the output cannot depend on ----------

  /** Two trees that differ only in values under secret and personal keys, in which identifying keys they have (but not
      in how many), and below the depth limit. */
  ghost predicate SameShown(rules: Rules, a: Tree, b: Tree, depth: nat)
    decreases Budget(depth)
  {
    depth > MAX_DEPTH || match (a, b)
      case (ArrayTree(s), ArrayTree(t)) =>
        |s| == |t| && forall i :: 0 <= i < |s| ==> SameShown(rules, s[i], t[i], depth + 1)
      case (ObjectTree(s), ObjectTree(t)) =>
        var u, v := Visible(rules, s), Visible(rules, t);
        IdentifyingKeys(rules, s) == IdentifyingKeys(rules, t) && |u| == |v|
        && (forall i :: 0 <= i < |u| ==> u[i].key == v[i].key)
        && (forall i :: 0 <= i < |u| && !rules.secret(u[i].key) && !rules.pii(u[i].key) ==>
          SameShown(rules, u[i].value, v[i].value, depth + 1))
      case _ => a == b
  }

  lemma {:induction false} HiddenPartsDoNotShow(rules: Rules, a: Tree, b: Tree, depth: nat)
    requires SameShown(rules, a, b, depth)
    ensures RedactTree(rules, a, depth) == RedactTree(rules, b, depth)
    decreases Budget(depth)
  {
    hide WithCount, Visible, IdentifyingKeys;
    if depth <= MAX_DEPTH {
      match (a, b)
      case (ArrayTree(s), ArrayTree(t)) =>
        forall i | 0 <= i < |s| ensures RedactTree(rules, s[i], depth + 1) == RedactTree(rules, t[i], depth + 1) {
          HiddenPartsDoNotShow(rules, s[i], t[i], depth + 1);
        }
      case (ObjectTree(s), ObjectTree(t)) =>
        var u, v := Visible(rules, s), Visible(rules, t);
        forall i | 0 <= i < |u| && !rules.secret(u[i].key) && !rules.pii(u[i].key)
          ensures RedactTree(rules, u[i].value, depth + 1) == RedactTree(rules, v[i].value, depth + 1)
        {
          HiddenPartsDoNotShow(rules, u[i].value, v[i].value, depth + 1);
        }
        assert RedactShown(rules, u, depth + 1) == RedactShown(rules, v, depth + 1);
      case _ =>
    }
  }

  /** The output says nothing about withheld values: heaps that agree on what is shown give the same output. */
  lemma WithheldValuesDoNotLeak(rules: Rules, heap: Heap, item: Item, otherHeap: Heap, other: Item, depth: nat)
    requires HeapOk(heap) && InHeap(heap, item) && HeapOk(otherHeap) && InHeap(otherHeap, other)
    requires SameShown(rules, Unfold(heap, item, {}), Unfold(otherHeap, other, {}), depth)
    ensures Redacted(rules, heap, item, depth, {}) == Redacted(rules, otherHeap, other, depth, {})
  {
    WalkRedactsUnfolding(rules, heap, item, depth, {});
    WalkRedactsUnfolding(rules, otherHeap, other, depth, {});
    HiddenPartsDoNotShow(rules, Unfold(heap, item, {}), Unfold(otherHeap, other, {}), depth);
  }

  // ---------- the redactor ----------

  /** The walk itself, with the set of ancestors it shares with all its calls. */
  class Redactor {
    const rules: Rules
    const heap: Heap
    var seen: set<Ref>

    constructor (rules: Rules, heap: Heap)
      ensures this.rules == rules && this.heap == heap && seen == {}
    {
      this.rules, this.heap, seen := rules, heap, {};
    }

    method RedactValue(input: Item, depth: nat) returns (r: Output)
      requires HeapOk(heap) && InHeap(heap, input)
      modifies this
      ensures seen == old(seen)
      ensures r == Redacted(rules, heap, input, depth, old(seen))
      decreases Budget(depth), 1
    {
      if depth > MAX_DEPTH {
        return Marker("DEPTH");
      }
      match input
      case Prim(p) =>
        r := RedactPrim(rules, p);
      case At(ref) =>
        if ref in seen {
          return Marker("CYCLE");
        }
        assert NodeOk(heap, heap[ref]);
        seen := seen + {ref};
        r := RedactObjectOrArray(heap[ref], depth);
        seen := seen - {ref};
        assert seen == old(seen);
    }

    method RedactObjectOrArray(node: Node, depth: nat) returns (r: Output)
      requires HeapOk(heap) && NodeOk(heap, node) && depth <= MAX_DEPTH
      modifies this
      ensures seen == old(seen)
      ensures r == RedactedNode(rules, heap, node, depth, old(seen))
      decreases Budget(depth), 0
    {
      hide Redacted, RedactedEntries, RedactedFields, IdentifyingKeys, WithCount, Put, HeapOk, DistinctKeys;
      NothingYet(rules, heap, depth + 1, seen);
      match node
      case ArrayNode(entries) =>
        var output: seq<Output> := [];
        for i := 0 to |entries|
          invariant seen == old(seen)
          invariant output == RedactedEntries(rules, heap, entries[..i], depth + 1, seen)
        {
          NextEntry(rules, heap, entries, i, depth + 1, seen);
          var entry := RedactValue(entries[i], depth + 1);
          output := output + [entry];
        }
        assert entries[..|entries|] == entries;
        r := Array(output);
      case ObjectNode(fields) =>
        var output: seq<Field<Output>> := [];
        var identifyingKeyCount: nat := 0;
        for i := 0 to |fields|
          invariant seen == old(seen) && NodeOk(heap, ObjectNode(fields[..i]))
          invariant output == RedactedFields(rules, heap, fields[..i], depth + 1, seen)
          invariant identifyingKeyCount == IdentifyingKeys(rules, fields[..i])
        {
          NextField(rules, heap, fields, i, depth + 1, seen);
          var key := fields[i].key;
          if rules.identifying(key) {
            identifyingKeyCount := identifyingKeyCount + 1;
            continue;
          }
          if rules.secret(key) {
            output := Put(output, key, Plain(Str(REDACTED)));
            continue;
          }
          if rules.pii(key) {
            output := Put(output, key, Plain(Str(REDACTED_PII)));
            continue;
          }
          var value := RedactValue(fields[i].value, depth + 1);
          output := Put(output, key, value);
        }
        assert fields[..|fields|] == fields;
        r := Object(WithCount(output, identifyingKeyCount));
    }
  }

  lemma NothingYet(rules: Rules, heap: Heap, depth: nat, seen: set<Ref>)
    requires HeapOk(heap)
    ensures NodeOk(heap, ObjectNode([]))
    ensures RedactedEntries(rules, heap, [], depth, seen) == []
    ensures RedactedFields(rules, heap, [], depth, seen) == [] && IdentifyingKeys<Item>(rules, []) == 0
  {
    hide Redacted;
  }

  lemma NextEntry(rules: Rules, heap: Heap, entries: seq<Item>, i: nat, depth: nat, seen: set<Ref>)
    requires HeapOk(heap) && NodeOk(heap, ArrayNode(entries)) && i < |entries|
    ensures RedactedEntries(rules, heap, entries[..i + 1], depth, seen)
      == RedactedEntries(rules, heap, entries[..i], depth, seen) + [Redacted(rules, heap, entries[i], depth, seen)]
  {
    hide Redacted;
    assert entries[..i + 1][..i] == entries[..i];
  }

  lemma NextField(rules: Rules, heap: Heap, fields: seq<Field<Item>>, i: nat, depth: nat, seen: set<Ref>)
    requires HeapOk(heap) && NodeOk(heap, ObjectNode(fields)) && i < |fields|
    ensures NodeOk(heap, ObjectNode(fields[..i])) && NodeOk(heap, ObjectNode(fields[..i + 1]))
    ensures RedactedFields(rules, heap, fields[..i + 1], depth, seen)
      == var before := RedactedFields(rules, heap, fields[..i], depth, seen);
         if rules.identifying(fields[i].key) then before
         else Put(before, fields[i].key, RedactedField(rules, heap, fields[i], depth, seen))
    ensures IdentifyingKeys(rules, fields[..i + 1])
      == IdentifyingKeys(rules, fields[..i]) + if rules.identifying(fields[i].key) then 1 else 0
  {
    hide Redacted, Put, RedactedField;
    assert fields[..i + 1][..i] == fields[..i];
  }
}
