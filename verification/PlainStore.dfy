/** The shipped store over one YAML file (config_io/store.py): what it writes over
    a loaded file, in terms of a loader and a writer of round-trip trees. */
module PlainStore {
  import opened Paths
  import opened Values
  import opened YamlMerge
  import opened Registry

  /** The loader gives proper trees, and reading back what was written from a tree
      without a key twice gives the values of that tree. */
  ghost predicate Faithful<Bytes(!new)>(load: Bytes -> Option<Tree>, text: Tree -> Bytes) {
    && (forall bytes :: load(bytes).Some? ==> LoadedTree(load(bytes).value))
    && (forall t :: ProperDict(DictOf(t)) ==> load(text(t)).Some? && DictOf(load(text(t)).value) == DictOf(t))
  }

  function TreeOf<Bytes(!new)>(load: Bytes -> Option<Tree>, bytes: Option<Bytes>): Tree {
    if bytes.Some? then load(bytes.value).GetOr(Bare) else Bare
  }

  /** Data is merged into the tree of the file; a missing file, or one that does
      not load, is written afresh. */
  function PlainYaml<Bytes(!new)>(load: Bytes -> Option<Tree>, text: Tree -> Bytes): Codec<Bytes> {
    Codec(
      (bytes: Option<Bytes>) =>
        if bytes.Some? && load(bytes.value).None? then None else Some(DictOf(TreeOf(load, bytes))),
      (bytes: Option<Bytes>) => DictOf(TreeOf(load, bytes)),
      (bytes: Option<Bytes>, d: Dict) => text(MergeTree(TreeOf(load, bytes), d)))
  }

  lemma {:induction false} ProperDictOf(t: Tree)
    requires LoadedTree(t)
    ensures ProperDict(DictOf(t))
  {
    if t.Entry? {
      ProperDictOf(t.rest);
      ProperValueOf(t.node);
      DictOfLookup(t.rest, t.key);
    }
  }

  lemma {:induction false} ProperValueOf(n: Node)
    requires Loaded(n)
    ensures Proper(ValueOf(n))
  {
    match n
    case LeafNode(_, _) =>
    case SeqNode(items, _) => ProperItemsOf(items);
    case MapNode(entries, _) => ProperDictOf(entries);
    case Assigned(_) =>
  }

  lemma {:induction false} ProperItemsOf(l: Nodes)
    requires LoadedItems(l)
    ensures ProperItems(ItemsOf(l))
  {
    if l.MoreNodes? {
      ProperValueOf(l.head);
      ProperItemsOf(l.tail);
    }
  }

  // ---- Merging keeps keys distinct, all the way down ----

  lemma {:induction false} ProperIf(d: Dict)
    requires d.Distinct() && forall k | d.Has(k) :: d.Lookup(k).Some? && Proper(d.Lookup(k).value)
    ensures ProperDict(d)
  {
    if d.Cons? {
      assert d.Has(d.key);
      forall k | d.rest.Has(k) ensures d.Has(k) && d.Lookup(k) == d.rest.Lookup(k) {}
      ProperIf(d.rest);
    }
  }

  lemma {:induction false} MergedIsProper(n: Node, v: Value)
    requires Loaded(n) && Proper(v)
    ensures Proper(ValueOf(MergeNode(n, v)))
    decreases v, 0
  {
    match (n, v) {
      case (MapNode(entries, form), Map(d)) => MergedTreeIsProper(entries, d);
      case (SeqNode(items, form), List(l)) =>
        if items.Length() == ItemCount(l) {
          MergedItemsAreProper(items, l);
        }
      case _ =>
    }
  }

  lemma {:induction false} MergedItemsAreProper(l: Nodes, items: Items)
    requires LoadedItems(l) && ProperItems(items) && l.Length() == ItemCount(items)
    ensures ProperItems(ItemsOf(MergeItems(l, items)))
    decreases items, 0
  {
    if l.MoreNodes? {
      MergedIsProper(l.head, items.head);
      MergedItemsAreProper(l.tail, items.tail);
    }
  }

  lemma {:induction false} MergedTreeIsProper(t: Tree, d: Dict)
    requires LoadedTree(t) && ProperDict(d)
    ensures ProperDict(DictOf(MergeTree(t, d)))
    decreases d, 1
  {
    var merged := MergeTree(t, d);
    LoadedLookup(t, "");
    ProperLookup(d, "");
    DistinctAfterKeep(t, d);
    DistinctAfterMerge(Keep(t, d), d);
    DistinctDict(merged);
    EachEntryIsProper(t, d);
    forall k | DictOf(merged).Has(k) ensures DictOf(merged).Lookup(k).Some? && Proper(DictOf(merged).Lookup(k).value) {
      LookupHas(d, k);
      ProperLookup(d, k);
      AssignLookup(Keep(t, d), d, k);
      KeepLookup(t, d, k);
      DictOfLookup(merged, k);
      DictOfLookup(Keep(t, d), k);
      DictOfLookup(t, k);
    }
    ProperIf(DictOf(merged));
  }

  lemma {:induction false} EachEntryIsProper(t: Tree, d: Dict)
    requires LoadedTree(t) && ProperDict(d)
    ensures forall k | d.Has(k) && t.Has(k) ::
              t.Lookup(k).Some? && d.Lookup(k).Some? && Proper(ValueOf(MergeNode(t.Lookup(k).value, d.Lookup(k).value)))
    decreases d, 0
  {
    if d.Cons? {
      EachEntryIsProper(t, d.rest);
      LoadedLookup(t, d.key);
      DictOfLookup(t, d.key);
      if t.Has(d.key) {
        MergedIsProper(t.Lookup(d.key).value, d.value);
      }
    }
  }

  /** The store is lossless: merging into the file's own tree reads back as data
      equal to what was written, whatever the file held before. */
  lemma PlainYamlIsLossless<Bytes(!new)>(load: Bytes -> Option<Tree>, text: Tree -> Bytes)
    requires Faithful(load, text)
    ensures PlainYaml(load, text).Sound() && PlainYaml(load, text).Lossless()
  {
    var codec := PlainYaml(load, text);
    forall bytes | codec.read(bytes).Some? ensures ProperDict(codec.read(bytes).value) {
      ProperDictOf(TreeOf(load, bytes));
    }
    forall bytes, d | ProperDict(d) ensures codec.Keeps(bytes, d) {
      MergedTreeIsEqual(TreeOf(load, bytes), d);
      MergedTreeIsProper(TreeOf(load, bytes), d);
    }
  }

  // ---- Such loaders and writers exist ----

  function NodeFor(v: Value): Node {
    match v
    case Leaf(s) => LeafNode(s, 0)
    case List(items) => SeqNode(NodesFor(items), 0)
    case Map(d) => MapNode(TreeFor(d), 0)
  }

  function NodesFor(l: Items): Nodes {
    if l.NoItems? then NoNodes else MoreNodes(NodeFor(l.head), NodesFor(l.tail))
  }

  function TreeFor(d: Dict): Tree {
    if d.Nil? then Bare else Entry(d.key, NodeFor(d.value), TreeFor(d.rest))
  }

  lemma {:induction false} NodeForIsLoaded(v: Value)
    requires Proper(v)
    ensures Loaded(NodeFor(v)) && ValueOf(NodeFor(v)) == v
  {
    match v
    case Leaf(_) =>
    case List(items) => NodesForAreLoaded(items);
    case Map(d) => TreeForIsLoaded(d);
  }

  lemma {:induction false} NodesForAreLoaded(l: Items)
    requires ProperItems(l)
    ensures LoadedItems(NodesFor(l)) && ItemsOf(NodesFor(l)) == l
  {
    if l.More? {
      NodeForIsLoaded(l.head);
      NodesForAreLoaded(l.tail);
    }
  }

  lemma {:induction false} TreeForIsLoaded(d: Dict)
    requires ProperDict(d)
    ensures LoadedTree(TreeFor(d)) && DictOf(TreeFor(d)) == d
  {
    if d.Cons? {
      NodeForIsLoaded(d.value);
      TreeForIsLoaded(d.rest);
      DictOfLookup(TreeFor(d.rest), d.key);
    }
  }

  /** Files that hold their values and nothing else have a faithful loader and
      writer, so some store is sound and lossless in this sense. */
  lemma SomeStoreIsLossless()
    ensures exists load: Dict -> Option<Tree>, text: Tree -> Dict ::
              Faithful(load, text) && PlainYaml(load, text).Sound() && PlainYaml(load, text).Lossless()
  {
    var load := (d: Dict) => if ProperDict(d) then Some(TreeFor(d)) else None;
    var text := (t: Tree) => DictOf(t);
    forall d: Dict | load(d).Some? ensures LoadedTree(load(d).value) {
      TreeForIsLoaded(d);
    }
    forall t | ProperDict(DictOf(t)) ensures load(text(t)).Some? && DictOf(load(text(t)).value) == DictOf(t) {
      TreeForIsLoaded(DictOf(t));
    }
    assert Faithful(load, text);
    PlainYamlIsLossless(load, text);
  }
}
