/** Merging new data into a loaded YAML tree so that what stays equal keeps its
    node and its formatting (config_io/store.py). */
module YamlMerge {
  import opened Paths
  import opened Values
  import opened Dotted

  /** A node of the round-trip tree; `form` stands for its comments, quoting and
      layout.  Data assigned into the tree has no form of its own. */
  datatype Node =
    | LeafNode(scalar: Scalar, form: nat)
    | SeqNode(items: Nodes, form: nat)
    | MapNode(entries: Tree, form: nat)
    | Assigned(value: Value)

  datatype Nodes = NoNodes | MoreNodes(head: Node, tail: Nodes) {
    function Length(): nat {
      if NoNodes? then 0 else 1 + tail.Length()
    }

    function Then(more: Nodes): Nodes {
      if NoNodes? then more else MoreNodes(head, tail.Then(more))
    }
  }

  datatype Tree = Bare | Entry(key: string, node: Node, rest: Tree) {
    function Keys(): seq<string> {
      if Bare? then [] else [key] + rest.Keys()
    }

    predicate Has(k: string) {
      Entry? && (key == k || rest.Has(k))
    }

    function Lookup(k: string): Option<Node> {
      if Bare? then None else if key == k then Some(node) else rest.Lookup(k)
    }

    function Put(k: string, n: Node): Tree {
      if Bare? then Entry(k, n, Bare)
      else if key == k then Entry(k, n, rest)
      else Entry(key, node, rest.Put(k, n))
    }

    function Del(k: string): Tree {
      if Bare? then Bare else if key == k then rest.Del(k) else Entry(key, node, rest.Del(k))
    }

    predicate Distinct() {
      Entry? ==> !rest.Has(key) && rest.Distinct()
    }
  }

  function ValueOf(n: Node): Value {
    match n
    case LeafNode(s, _) => Leaf(s)
    case SeqNode(items, _) => List(ItemsOf(items))
    case MapNode(entries, _) => Map(DictOf(entries))
    case Assigned(v) => v
  }

  function ItemsOf(l: Nodes): Items {
    if l.NoNodes? then NoItems else More(ValueOf(l.head), ItemsOf(l.tail))
  }

  function DictOf(t: Tree): Dict {
    if t.Bare? then Nil else Cons(t.key, ValueOf(t.node), DictOf(t.rest))
  }

  function ItemCount(l: Items): nat {
    if l.NoItems? then 0 else 1 + ItemCount(l.tail)
  }

  /** Both numbers of one kind (a bool is an int), or both text, or both null. */
  predicate SameKind(s: Scalar, t: Scalar) {
    match s
    case Bool(_) => t.Bool? || t.Int?
    case Int(_) => t.Bool? || t.Int?
    case Float(_) => t.Float?
    case Str(_) => t.Str?
    case Null => t.Null?
  }

  /** The node that ends up holding `v` where `n` was. */
  function MergeNode(n: Node, v: Value): Node
    decreases v, 0
  {
    match (n, v)
    case (MapNode(entries, form), Map(d)) => MapNode(MergeTree(entries, d), form)
    case (SeqNode(items, form), List(l)) =>
      if items.Length() == ItemCount(l) then SeqNode(MergeItems(items, l), form) else Assigned(v)
    case (LeafNode(s, _), Leaf(t)) => if SameKind(s, t) && EqualScalars(s, t) then n else Assigned(v)
    case _ => Assigned(v)
  }

  function MergeItems(l: Nodes, items: Items): Nodes
    requires l.Length() == ItemCount(items)
    decreases items, 0
  {
    if l.NoNodes? then NoNodes else MoreNodes(MergeNode(l.head, items.head), MergeItems(l.tail, items.tail))
  }

  /** The kept entries in the tree's order, then the new ones in the data's. */
  function MergeTree(t: Tree, d: Dict): Tree
    decreases d, 1
  {
    Assign(Keep(t, d), d)
  }

  /** Without the keys that the data lacks. */
  function Keep(t: Tree, d: Dict): Tree {
    if t.Bare? then Bare
    else if d.Has(t.key) then Entry(t.key, t.node, Keep(t.rest, d))
    else Keep(t.rest, d)
  }

  function Assign(t: Tree, d: Dict): Tree
    decreases d, 0
  {
    if d.Nil? then t
    else
      var was := t.Lookup(d.key);
      Assign(t.Put(d.key, if was.Some? then MergeNode(was.value, d.value) else Assigned(d.value)), d.rest)
  }

  /** Without the entries under some keys. */
  function Without(t: Tree, keys: set<string>): Tree {
    if t.Bare? then Bare
    else if t.key in keys then Without(t.rest, keys)
    else Entry(t.key, t.node, Without(t.rest, keys))
  }

  lemma {:induction false} WithoutOne(t: Tree, keys: set<string>, k: string)
    ensures Without(t, keys).Del(k) == Without(t, keys + {k}) && Without(t, {}) == t
  {
    if t.Entry? {
      WithoutOne(t.rest, keys, k);
    }
  }

  lemma {:induction false} WithoutLacking(t: Tree, d: Dict, keys: set<string>)
    requires forall k | t.Has(k) :: k in keys <==> !d.Has(k)
    ensures Without(t, keys) == Keep(t, d)
  {
    if t.Entry? {
      assert t.Has(t.key) && forall k | t.rest.Has(k) :: t.Has(k);
      WithoutLacking(t.rest, d, keys);
    }
  }

  /** The keys of a tree that the data lacks. */
  method Lacking(tree: Tree, data: Dict) returns (keys: seq<string>)
    ensures forall k :: k in keys <==> tree.Has(k) && !data.Has(k)
  {
    keys := [];
    var scan := tree;
    while scan.Entry?
      invariant forall k :: tree.Has(k) && !data.Has(k) <==> k in keys || (scan.Has(k) && !data.Has(k))
      decreases scan
    {
      if !data.Has(scan.key) {
        keys := keys + [scan.key];
      }
      scan := scan.rest;
    }
  }

  /** The two loops of the merge: delete what the data lacks, then assign each item. */
  method MergeMapping(tree: Tree, data: Dict) returns (merged: Tree)
    ensures merged == MergeTree(tree, data)
    decreases data, 0
  {
    merged := tree;
    var lacking := Lacking(tree, data);
    WithoutOne(tree, {}, "");
    ghost var gone: set<string> := {};
    for i := 0 to |lacking|
      invariant merged == Without(tree, gone) && forall k :: k in gone <==> k in lacking[..i]
    {
      WithoutOne(tree, gone, lacking[i]);
      merged := merged.Del(lacking[i]);
      gone := gone + {lacking[i]};
    }
    WithoutLacking(tree, data, gone);
    var items := data;
    while items.Cons?
      invariant Assign(Keep(tree, data), data) == Assign(merged, items)
      invariant items == data || items < data
      decreases items
    {
      var node := Assigned(items.value);
      if merged.Lookup(items.key).Some? {
        node := MergeOne(merged.Lookup(items.key).value, items.value);
      }
      merged := merged.Put(items.key, node);
      items := items.rest;
    }
  }

  method MergeOne(node: Node, value: Value) returns (merged: Node)
    ensures merged == MergeNode(node, value)
    decreases value, 0
  {
    match (node, value)
    case (MapNode(entries, form), Map(d)) =>
      var inner := MergeMapping(entries, d);
      return MapNode(inner, form);
    case (SeqNode(items, form), List(l)) =>
      if items.Length() != ItemCount(l) {
        return Assigned(value);
      }
      var inner := MergeSequence(items, l);
      return SeqNode(inner, form);
    case (LeafNode(s, _), Leaf(t)) =>
      return if SameKind(s, t) && EqualScalars(s, t) then node else Assigned(value);
    case _ =>
      return Assigned(value);
  }

  /** The item loop: each place of the sequence is merged with its item. */
  method MergeSequence(nodes: Nodes, items: Items) returns (merged: Nodes)
    requires nodes.Length() == ItemCount(items)
    ensures merged == MergeItems(nodes, items)
    decreases items, 0
  {
    merged := NoNodes;
    var rest, left := nodes, items;
    while left.More?
      invariant rest.Length() == ItemCount(left) && MergeItems(nodes, items) == merged.Then(MergeItems(rest, left))
      invariant left == items || left < items
      decreases left
    {
      var node := MergeOne(rest.head, left.head);
      ThenOne(merged, node, MergeItems(rest.tail, left.tail));
      merged := merged.Then(MoreNodes(node, NoNodes));
      rest, left := rest.tail, left.tail;
    }
    ThenOne(merged, Assigned(NULL), NoNodes);
  }

  lemma {:induction false} ThenOne(l: Nodes, n: Node, more: Nodes)
    ensures l.Then(MoreNodes(n, NoNodes)).Then(more) == l.Then(MoreNodes(n, more)) && l.Then(NoNodes) == l
  {
    if l.MoreNodes? {
      ThenOne(l.tail, n, more);
    }
  }

  // ---- Values ----

  lemma {:induction false} PutNode(t: Tree, k: string, n: Node, q: string)
    ensures t.Put(k, n).Lookup(q) == if q == k then Some(n) else t.Lookup(q)
    ensures t.Put(k, n).Keys() == if t.Has(k) then t.Keys() else t.Keys() + [k]
    ensures t.Has(q) <==> t.Lookup(q).Some?
    ensures t.Has(q) <==> q in t.Keys()
  {
    if t.Entry? {
      PutNode(t.rest, k, n, q);
    }
  }

  lemma {:induction false} KeepLookup(t: Tree, d: Dict, q: string)
    ensures Keep(t, d).Lookup(q) == if d.Has(q) then t.Lookup(q) else None
    ensures (forall k | t.Has(k) :: d.Has(k)) ==> Keep(t, d) == t
  {
    if t.Entry? {
      KeepLookup(t.rest, d, q);
      assert forall k | t.rest.Has(k) :: t.Has(k);
      assert t.Has(t.key);
    }
  }

  /** Where a merged mapping holds what. */
  lemma {:induction false} AssignLookup(t: Tree, d: Dict, q: string)
    requires d.Distinct()
    ensures Assign(t, d).Lookup(q) ==
              if !d.Has(q) then t.Lookup(q)
              else if t.Has(q) then Some(MergeNode(t.Lookup(q).GetOr(Assigned(NULL)), d.Lookup(q).GetOr(NULL)))
              else Some(Assigned(d.Lookup(q).GetOr(NULL)))
    decreases d, 0
  {
    PutNode(t, q, Assigned(NULL), q);
    if d.Cons? {
      var node := if t.Lookup(d.key).Some? then MergeNode(t.Lookup(d.key).value, d.value) else Assigned(d.value);
      PutNode(t, d.key, node, q);
      PutNode(t.Put(d.key, node), d.key, node, q);
      AssignLookup(t.Put(d.key, node), d.rest, q);
    }
  }

  lemma {:induction false} DictOfLookup(t: Tree, q: string)
    ensures DictOf(t).Lookup(q) == match t.Lookup(q) case None => None case Some(n) => Some(ValueOf(n))
    ensures DictOf(t).Has(q) <==> t.Has(q)
    ensures t.Has(q) <==> t.Lookup(q).Some?
    ensures DictOf(t).Keys() == t.Keys()
  {
    if t.Entry? {
      DictOfLookup(t.rest, q);
    }
  }

  /** A tree as the loader gives it: no data assigned yet, and no key twice. */
  predicate Loaded(n: Node)
  {
    match n
    case LeafNode(_, _) => true
    case SeqNode(items, _) => LoadedItems(items)
    case MapNode(entries, _) => LoadedTree(entries)
    case Assigned(_) => false
  }

  predicate LoadedItems(l: Nodes) {
    l.MoreNodes? ==> Loaded(l.head) && LoadedItems(l.tail)
  }

  predicate LoadedTree(t: Tree) {
    t.Entry? ==> !t.rest.Has(t.key) && Loaded(t.node) && LoadedTree(t.rest)
  }

  lemma {:induction false} LoadedLookup(t: Tree, k: string)
    requires LoadedTree(t)
    ensures t.Distinct() && (t.Lookup(k).Some? ==> Loaded(t.Lookup(k).value))
  {
    if t.Entry? {
      LoadedLookup(t.rest, k);
    }
  }

  lemma {:induction false} DistinctAfterPut(t: Tree, k: string, n: Node)
    requires t.Distinct()
    ensures t.Put(k, n).Distinct()
  {
    if t.Entry? {
      DistinctAfterPut(t.rest, k, n);
      PutNode(t.rest, k, n, t.key);
      PutNode(t.rest.Put(k, n), k, n, t.key);
    }
  }

  lemma {:induction false} DistinctAfterMerge(t: Tree, d: Dict)
    requires t.Distinct()
    ensures Assign(t, d).Distinct()
    decreases d, 0
  {
    if d.Cons? {
      var node := if t.Lookup(d.key).Some? then MergeNode(t.Lookup(d.key).value, d.value) else Assigned(d.value);
      DistinctAfterPut(t, d.key, node);
      DistinctAfterMerge(t.Put(d.key, node), d.rest);
    }
  }

  lemma {:induction false} DistinctAfterKeep(t: Tree, d: Dict)
    requires t.Distinct()
    ensures Keep(t, d).Distinct() && forall k | Keep(t, d).Has(k) :: t.Has(k)
  {
    if t.Entry? {
      DistinctAfterKeep(t.rest, d);
    }
  }

  lemma {:induction false} DistinctDict(t: Tree)
    requires t.Distinct()
    ensures DictOf(t).Distinct()
  {
    if t.Entry? {
      DistinctDict(t.rest);
      DictOfLookup(t.rest, t.key);
    }
  }

  /** Merging data into a loaded tree makes the tree's value equal to the data. */
  lemma {:induction false} MergedIsEqual(n: Node, v: Value)
    requires Loaded(n) && Proper(v)
    ensures Equal(ValueOf(MergeNode(n, v)), v)
    decreases v, 0
  {
    EqualSelf(v);
    match (n, v) {
      case (MapNode(entries, form), Map(d)) => MergedTreeIsEqual(entries, d);
      case (SeqNode(items, form), List(l)) =>
        if items.Length() == ItemCount(l) {
          MergedItemsAreEqual(items, l);
        }
      case _ =>
    }
  }

  lemma {:induction false} MergedItemsAreEqual(l: Nodes, items: Items)
    requires LoadedItems(l) && ProperItems(items) && l.Length() == ItemCount(items)
    ensures EqualItems(ItemsOf(MergeItems(l, items)), items)
    decreases items, 0
  {
    if l.MoreNodes? {
      MergedIsEqual(l.head, items.head);
      MergedItemsAreEqual(l.tail, items.tail);
    }
  }

  lemma {:induction false} MergedTreeIsEqual(t: Tree, d: Dict)
    requires LoadedTree(t) && ProperDict(d)
    ensures EqualDicts(DictOf(MergeTree(t, d)), d)
    decreases d, 1
  {
    var merged := MergeTree(t, d);
    LoadedLookup(t, "");
    ProperLookup(d, "");
    DistinctAfterKeep(t, d);
    DistinctAfterMerge(Keep(t, d), d);
    DistinctDict(merged);
    EachEntryIsEqual(t, d);
    forall k ensures DictOf(merged).Has(k) <==> d.Has(k)
             ensures d.Has(k) ==> DictOf(merged).Lookup(k).Some? && d.Lookup(k).Some?
                                  && Equal(DictOf(merged).Lookup(k).value, d.Lookup(k).value) {
      LookupHas(d, k);
      AssignLookup(Keep(t, d), d, k);
      KeepLookup(t, d, k);
      DictOfLookup(merged, k);
      DictOfLookup(Keep(t, d), k);
      DictOfLookup(t, k);
    }
    CoversIf(DictOf(merged), d);
    forall k | k in d.Keys() ensures DictOf(merged).Has(k) {
      LookupHas(d, k);
    }
  }

  lemma {:induction false} EachEntryIsEqual(t: Tree, d: Dict)
    requires LoadedTree(t) && ProperDict(d)
    ensures forall k | d.Has(k) :: d.Lookup(k).Some? && Equal(d.Lookup(k).value, d.Lookup(k).value)
    ensures forall k | d.Has(k) && t.Has(k) ::
              t.Lookup(k).Some? && Equal(ValueOf(MergeNode(t.Lookup(k).value, d.Lookup(k).value)), d.Lookup(k).value)
    decreases d, 0
  {
    if d.Cons? {
      EachEntryIsEqual(t, d.rest);
      EqualSelf(d.value);
      LoadedLookup(t, d.key);
      DictOfLookup(t, d.key);
      if t.Has(d.key) {
        MergedIsEqual(t.Lookup(d.key).value, d.value);
      }
    }
  }

  /** A value that only Python's `==` takes for the one written keeps the node. */
  lemma TrueKeepsOne(form: nat)
    ensures var node := LeafNode(Int(1), form);
            MergeNode(node, Leaf(Bool(true))) == node && ValueOf(node) != Leaf(Bool(true))
  {
  }

  /** The keys that are among the others, or those that are not, in order. */
  function Among(keys: seq<string>, others: seq<string>, wanted: bool): seq<string> {
    if keys == [] then []
    else (if (keys[0] in others) == wanted then [keys[0]] else []) + Among(keys[1..], others, wanted)
  }

  lemma {:induction false} AmongSame(keys: seq<string>, others: seq<string>, more: seq<string>, wanted: bool)
    requires forall k | k in keys :: k in others <==> k in more
    ensures Among(keys, others, wanted) == Among(keys, more, wanted)
  {
    if keys != [] {
      AmongSame(keys[1..], others, more, wanted);
    }
  }

  lemma {:induction false} KeepOrder(t: Tree, d: Dict)
    ensures Keep(t, d).Keys() == Among(t.Keys(), d.Keys(), true)
  {
    if t.Entry? {
      KeepOrder(t.rest, d);
      LookupHas(d, t.key);
      assert t.Keys()[1..] == t.rest.Keys();
    }
  }

  lemma {:induction false} AssignOrder(t: Tree, d: Dict)
    requires d.Distinct()
    ensures Assign(t, d).Keys() == t.Keys() + Among(d.Keys(), t.Keys(), false)
    decreases d, 0
  {
    if d.Cons? {
      var node := if t.Lookup(d.key).Some? then MergeNode(t.Lookup(d.key).value, d.value) else Assigned(d.value);
      PutNode(t, d.key, node, d.key);
      AssignOrder(t.Put(d.key, node), d.rest);
      AddedKey(t.Keys(), t.Put(d.key, node).Keys(), d);
    }
  }

  lemma AddedKey(before: seq<string>, after: seq<string>, d: Dict)
    requires d.Cons? && !d.rest.Has(d.key)
    requires after == if d.key in before then before else before + [d.key]
    ensures after + Among(d.rest.Keys(), after, false) == before + Among(d.Keys(), before, false)
  {
    LookupHas(d.rest, d.key);
    AmongSame(d.rest.Keys(), before, after, false);
    AmongFirst(d.key, d.rest.Keys(), before);
    assert d.Keys() == [d.key] + d.rest.Keys();
    hide *;
    if d.key !in before {
      Joined(before, d.key, Among(d.rest.Keys(), before, false));
    }
  }

  lemma AmongFirst(k: string, keys: seq<string>, others: seq<string>)
    ensures Among([k] + keys, others, false) ==
              if k in others then Among(keys, others, false) else [k] + Among(keys, others, false)
  {
    assert ([k] + keys)[1..] == keys;
  }

  lemma Joined<T>(a: seq<T>, x: T, b: seq<T>)
    ensures a + [x] + b == a + ([x] + b)
  {
  }

  /** A merged mapping holds the data's keys: the kept ones first, in the tree's
      order, then the new ones, in the data's. */
  lemma MergedOrder(t: Tree, d: Dict)
    requires d.Distinct()
    ensures MergeTree(t, d).Keys() == Among(t.Keys(), d.Keys(), true) + Among(d.Keys(), t.Keys(), false)
  {
    KeepOrder(t, d);
    AssignOrder(Keep(t, d), d);
    forall k | k in d.Keys() ensures k in Keep(t, d).Keys() <==> k in t.Keys() {
      LookupHas(d, k);
      KeepLookup(t, d, k);
      PutNode(Keep(t, d), k, Assigned(NULL), k);
      PutNode(t, k, Assigned(NULL), k);
    }
    AmongSame(d.Keys(), Keep(t, d).Keys(), t.Keys(), false);
  }

  function NodeOf(l: Nodes, i: nat): Option<Node> {
    if l.NoNodes? then None else if i == 0 then Some(l.head) else NodeOf(l.tail, i - 1)
  }

  lemma {:induction false} MergedPlace(l: Nodes, items: Items, i: nat)
    requires l.Length() == ItemCount(items)
    ensures NodeOf(MergeItems(l, items), i).Some? <==> i < l.Length()
    ensures match (NodeOf(l, i), ItemAt(items, i))
            case (Some(n), Some(v)) => NodeOf(MergeItems(l, items), i) == Some(MergeNode(n, v))
            case _ => i >= l.Length()
    decreases items, 0
  {
    if l.MoreNodes? && i > 0 {
      MergedPlace(l.tail, items.tail, i - 1);
    }
  }

  /** What merging makes of one node, for every node and value.  A scalar keeps its
      node exactly if it is written again or `1` stands for `True`; a mapping and a
      sequence of unchanged length keep their form and merge what is in them; all
      else becomes the data itself. */
  lemma NodeMeaning(n: Node, v: Value)
    requires Proper(v)
    ensures match (n, v)
            case (LeafNode(s, _), Leaf(t)) =>
              MergeNode(n, v) == if s == t || (SameNumber(s, t) && !s.Float? && !t.Float?) then n else Assigned(v)
            case (SeqNode(l, form), List(items)) =>
              if l.Length() != ItemCount(items) then MergeNode(n, v) == Assigned(v)
              else && MergeNode(n, v).SeqNode? && MergeNode(n, v).form == form
                   && forall i: nat | i < l.Length() :: MergesAt(l, items, MergeNode(n, v).items, i)
            case (MapNode(t, form), Map(d)) =>
              && MergeNode(n, v).MapNode? && MergeNode(n, v).form == form
              && forall k :: MergesUnder(t, d, MergeNode(n, v).entries, k)
            case _ => MergeNode(n, v) == Assigned(v)
  {
    match (n, v)
    case (SeqNode(l, form), List(items)) =>
      if l.Length() == ItemCount(items) {
        forall i: nat | i < l.Length() ensures MergesAt(l, items, MergeNode(n, v).items, i) {
          MergedPlace(l, items, i);
        }
      }
    case (MapNode(t, form), Map(d)) =>
      ProperLookup(d, "");
      forall k ensures MergesUnder(t, d, MergeNode(n, v).entries, k) {
        KeepLookup(t, d, k);
        AssignLookup(Keep(t, d), d, k);
        LookupHas(d, k);
        PutNode(t, k, Assigned(NULL), k);
        PutNode(Keep(t, d), k, Assigned(NULL), k);
      }
    case _ =>
  }

  predicate MergesAt(l: Nodes, items: Items, merged: Nodes, i: nat) {
    match (NodeOf(l, i), ItemAt(items, i))
    case (Some(n), Some(v)) => NodeOf(merged, i) == Some(MergeNode(n, v))
    case _ => false
  }

  predicate MergesUnder(t: Tree, d: Dict, merged: Tree, k: string) {
    match (t.Lookup(k), d.Lookup(k))
    case (_, None) => merged.Lookup(k) == None
    case (None, Some(v)) => merged.Lookup(k) == Some(Assigned(v))
    case (Some(n), Some(v)) => merged.Lookup(k) == Some(MergeNode(n, v))
  }

  // ---- Formatting ----

  /** Merging a tree's own value leaves every node in place. */
  lemma {:induction false} MergeOwnValue(n: Node)
    requires Loaded(n)
    ensures MergeNode(n, ValueOf(n)) == n
  {
    match n
    case LeafNode(_, _) =>
    case SeqNode(items, _) => MergeOwnItems(items);
    case MapNode(entries, _) => MergeOwnTree(entries);
    case Assigned(_) =>
  }

  lemma {:induction false} MergeOwnItems(l: Nodes)
    requires LoadedItems(l)
    ensures l.Length() == ItemCount(ItemsOf(l)) && MergeItems(l, ItemsOf(l)) == l
  {
    if l.MoreNodes? {
      MergeOwnValue(l.head);
      MergeOwnItems(l.tail);
    }
  }

  lemma {:induction false} EachOwnValue(t: Tree)
    requires LoadedTree(t)
    ensures forall k | t.Has(k) ::
              t.Lookup(k).Some? && MergeNode(t.Lookup(k).value, ValueOf(t.Lookup(k).value)) == t.Lookup(k).value
    decreases t, 0
  {
    if t.Entry? {
      MergeOwnValue(t.node);
      EachOwnValue(t.rest);
    }
  }

  lemma {:induction false} MergeOwnTree(t: Tree)
    requires LoadedTree(t)
    ensures MergeTree(t, DictOf(t)) == t
    decreases t, 1
  {
    EachOwnValue(t);
    forall k ensures DictOf(t).Has(k) <==> t.Has(k)
             ensures t.Has(k) ==> t.Lookup(k).Some? && DictOf(t).Lookup(k) == Some(ValueOf(t.Lookup(k).value)) {
      DictOfLookup(t, k);
    }
    KeepLookup(t, DictOf(t), "");
    LoadedLookup(t, "");
    DistinctDict(t);
    AssignSettled(t, DictOf(t));
  }

  /** Assigning what is there already changes nothing. */
  lemma {:induction false} AssignSettled(t: Tree, d: Dict)
    requires d.Distinct()
    requires forall k | d.Has(k) :: t.Lookup(k).Some? && d.Lookup(k).Some?
                                    && MergeNode(t.Lookup(k).value, d.Lookup(k).value) == t.Lookup(k).value
    ensures Assign(t, d) == t
    decreases d
  {
    if d.Cons? {
      assert d.Has(d.key);
      PutSameNode(t, d.key, t.Lookup(d.key).value);
      forall k | d.rest.Has(k) ensures d.Has(k) && d.Lookup(k) == d.rest.Lookup(k) {}
      AssignSettled(t, d.rest);
    }
  }

  lemma {:induction false} PutSameNode(t: Tree, k: string, n: Node)
    requires t.Lookup(k) == Some(n)
    ensures t.Put(k, n) == t
  {
    if t.key != k {
      PutSameNode(t.rest, k, n);
    }
  }

  /** Assigning a mapping that agrees with the tree except under one key. */
  lemma {:induction false} AssignOne(t: Tree, d: Dict, k: string, v: Value)
    requires d.Distinct()
    requires forall q | d.Has(q) && q != k :: t.Lookup(q).Some? && d.Lookup(q).Some?
                                              && MergeNode(t.Lookup(q).value, d.Lookup(q).value) == t.Lookup(q).value
    ensures Assign(t, d.Put(k, v)) ==
              t.Put(k, if t.Lookup(k).Some? then MergeNode(t.Lookup(k).value, v) else Assigned(v))
    decreases d
  {
    if d.Cons? {
      forall q | d.rest.Has(q) ensures d.Has(q) && (q != d.key ==> d.Lookup(q) == d.rest.Lookup(q)) {}
      if d.key == k {
        var node := if t.Lookup(k).Some? then MergeNode(t.Lookup(k).value, v) else Assigned(v);
        forall q | d.rest.Has(q) ensures t.Put(k, node).Lookup(q) == t.Lookup(q) {
          PutNode(t, k, node, q);
        }
        AssignSettled(t.Put(k, node), d.rest);
      } else {
        assert d.Has(d.key);
        PutSameNode(t, d.key, t.Lookup(d.key).value);
        AssignOne(t, d.rest, k, v);
      }
    }
  }

  /** Writing one entry of a loaded mapping touches that entry and no other. */
  lemma MergePut(t: Tree, k: string, v: Value)
    requires LoadedTree(t)
    ensures MergeTree(t, DictOf(t).Put(k, v)) ==
              t.Put(k, if t.Lookup(k).Some? then MergeNode(t.Lookup(k).value, v) else Assigned(v))
  {
    var d := DictOf(t);
    EachOwnValue(t);
    LoadedLookup(t, "");
    DistinctDict(t);
    DistinctPut(d, k, v);
    forall q ensures d.Has(q) <==> t.Has(q)
             ensures t.Has(q) ==> t.Lookup(q).Some? && d.Lookup(q) == Some(ValueOf(t.Lookup(q).value)) {
      DictOfLookup(t, q);
    }
    KeepLookup(t, d.Put(k, v), "");
    AssignOne(t, d, k, v);
  }

  /** The node at a path, through mappings of the tree. */
  function NodeAt(t: Tree, path: seq<string>): Option<Node>
    requires path != []
    decreases path
  {
    var n := t.Lookup(path[0]);
    if |path| == 1 || n.None? then n
    else if n.value.MapNode? then NodeAt(n.value.entries, path[1..])
    else None
  }

  predicate GrownBy(before: seq<string>, after: seq<string>, k: string) {
    after == before || after == before + [k]
  }

  /** What writing a key leaves alone: a path off it keeps its node, form and all;
      a mapping above it keeps its form and its key order, the key's next segment
      perhaps added at the end. */
  predicate Preserves(before: Tree, after: Tree, key: seq<string>, q: seq<string>)
    requires key != [] && q != []
  {
    && GrownBy(before.Keys(), after.Keys(), key[0])
    && (!Comparable(q, key) ==> NodeAt(after, q) == NodeAt(before, q))
    && (q < key && IsMapNode(NodeAt(before, q)) ==>
          && IsMapNode(NodeAt(after, q)) && NodeAt(after, q).value.form == NodeAt(before, q).value.form
          && GrownBy(NodeAt(before, q).value.entries.Keys(), NodeAt(after, q).value.entries.Keys(), key[|q|]))
  }

  predicate IsMapNode(n: Option<Node>) {
    n.Some? && n.value.MapNode?
  }

  lemma PreservesBelow(t: Tree, after: Tree, key: seq<string>, q: seq<string>, e: Tree, e': Tree, form: nat)
    requires |key| > 1 && q != [] && q[0] == key[0] && GrownBy(t.Keys(), after.Keys(), key[0])
    requires t.Lookup(key[0]) == Some(MapNode(e, form)) && after.Lookup(key[0]) == Some(MapNode(e', form))
    requires Preserves(e, e', key[1..], if |q| > 1 then q[1..] else key[1..])
    ensures Preserves(t, after, key, q)
  {
    assert key == [key[0]] + key[1..] && q == [q[0]] + q[1..];
  }

  lemma PreservesOff(t: Tree, after: Tree, key: seq<string>, q: seq<string>)
    requires key != [] && q != [] && GrownBy(t.Keys(), after.Keys(), key[0])
    requires q[0] != key[0] ==> after.Lookup(q[0]) == t.Lookup(q[0])
    requires q[0] == key[0] && |key| > 1 ==> !IsMapNode(t.Lookup(q[0])) && !IsMapNode(after.Lookup(q[0]))
    ensures Preserves(t, after, key, q)
  {
    if q[0] == key[0] {
      assert |key| == 1 ==> key <= q;
      assert |q| == 1 ==> q <= key;
    }
  }

  /** Writing one key and merging leaves everything else of the tree alone. */
  lemma {:induction false} WriteKeeps(t: Tree, key: seq<string>, v: Value, q: seq<string>)
    requires LoadedTree(t) && key != [] && q != []
    ensures Preserves(t, MergeTree(t, SetIn(DictOf(t), key, v)), key, q)
    decreases key
  {
    var k := key[0];
    var child := ChildOf(DictOf(t), k);
    var x := if |key| == 1 then v else Map(SetIn(child, key[1..], v));
    var node := if t.Lookup(k).Some? then MergeNode(t.Lookup(k).value, x) else Assigned(x);
    var after := t.Put(k, node);
    MergePut(t, k, x);
    assert MergeTree(t, SetIn(DictOf(t), key, v)) == after;
    PutNode(t, k, node, q[0]);
    DictOfLookup(t, k);
    LoadedLookup(t, k);
    if q[0] == k && |key| > 1 && IsMapNode(t.Lookup(k)) {
      var e := t.Lookup(k).value.entries;
      WriteKeeps(e, key[1..], v, if |q| > 1 then q[1..] else key[1..]);
      PreservesBelow(t, after, key, q, e, MergeTree(e, SetIn(DictOf(e), key[1..], v)), t.Lookup(k).value.form);
    } else {
      if q[0] == k && |key| > 1 {
        NotAMapping(t.Lookup(k), x);
      }
      PreservesOff(t, after, key, q);
    }
  }

  lemma NotAMapping(n: Option<Node>, x: Value)
    requires x.Map? && (n.Some? ==> !n.value.MapNode?)
    ensures n.Some? ==> MergeNode(n.value, x) == Assigned(x)
  {
  }
}
