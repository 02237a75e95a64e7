/** Configuration values: scalars, lists, and mappings that keep their key order,
    with Python's notion of equality between them. */
module Values {
  import opened Paths

  datatype Scalar = Null | Bool(b: bool) | Int(n: int) | Float(r: real) | Str(s: string)

  datatype Value = Leaf(scalar: Scalar) | List(items: Items) | Map(dict: Dict)

  datatype Items = NoItems | More(head: Value, tail: Items)

  /** A mapping as the list of its entries, in order. */
  datatype Dict = Nil | Cons(key: string, value: Value, rest: Dict) {

    function Keys(): seq<string> {
      if Nil? then [] else [key] + rest.Keys()
    }

    predicate Has(k: string) {
      Cons? && (key == k || rest.Has(k))
    }

    function Lookup(k: string): Option<Value> {
      if Nil? then None else if key == k then Some(value) else rest.Lookup(k)
    }

    /** Assigning to a key: in place if it is there, else at the end. */
    function Put(k: string, v: Value): Dict {
      if Nil? then Cons(k, v, Nil)
      else if key == k then Cons(k, v, rest)
      else Cons(key, value, rest.Put(k, v))
    }

    function Del(k: string): Dict {
      if Nil? then Nil else if key == k then rest else Cons(key, value, rest.Del(k))
    }

    /** No key twice. */
    predicate Distinct() {
      Cons? ==> !rest.Has(key) && rest.Distinct()
    }
  }

  predicate ProperItems(l: Items) {
    l.More? ==> Proper(l.head) && ProperItems(l.tail)
  }

  /** No mapping in the value has a key twice. */
  predicate Proper(v: Value) {
    match v
    case Leaf(_) => true
    case List(items) => ProperItems(items)
    case Map(d) => ProperDict(d)
  }

  predicate ProperDict(d: Dict) {
    d.Cons? ==> !d.rest.Has(d.key) && Proper(d.value) && ProperDict(d.rest)
  }

  function Number(s: Scalar): Option<real> {
    match s
    case Bool(b) => Some(if b then 1.0 else 0.0)
    case Int(n) => Some(n as real)
    case Float(r) => Some(r)
    case _ => None
  }

  /** Python's `==` on scalars: numbers by value, so `True == 1`. */
  predicate EqualScalars(s: Scalar, t: Scalar) {
    if Number(s).Some? then Number(s) == Number(t) else s == t
  }

  /** Python's `==`: lists in order, mappings regardless of key order. */
  predicate Equal(v: Value, w: Value)
    decreases v, 0
  {
    match v
    case Leaf(s) => w.Leaf? && EqualScalars(s, w.scalar)
    case List(items) => w.List? && EqualItems(items, w.items)
    case Map(d) => w.Map? && EqualDicts(d, w.dict)
  }

  predicate EqualItems(l: Items, m: Items)
    decreases l, 0
  {
    match l
    case NoItems => m.NoItems?
    case More(v, tail) => m.More? && Equal(v, m.head) && EqualItems(tail, m.tail)
  }

  predicate EqualDicts(d: Dict, e: Dict)
    decreases d, 1
  {
    Covers(d, e) && forall k :: k in e.Keys() ==> d.Has(k)
  }

  /** Every entry of `d` is one of `e`. */
  predicate Covers(d: Dict, e: Dict)
    decreases d, 0
  {
    d.Cons? ==> e.Lookup(d.key).Some? && Equal(d.value, e.Lookup(d.key).value) && Covers(d.rest, e)
  }

  lemma {:induction d} LookupHas(d: Dict, k: string)
    ensures d.Has(k) <==> d.Lookup(k).Some?
    ensures d.Has(k) <==> k in d.Keys()
  {
  }

  lemma {:induction false} LookupPut(d: Dict, k: string, v: Value, q: string)
    ensures d.Put(k, v).Lookup(q) == if q == k then Some(v) else d.Lookup(q)
  {
    if d.Cons? {
      LookupPut(d.rest, k, v, q);
    }
  }

  lemma {:induction false} LookupDel(d: Dict, k: string, q: string)
    requires d.Distinct()
    ensures d.Del(k).Lookup(q) == if q == k then None else d.Lookup(q)
  {
    if d.Cons? {
      LookupDel(d.rest, k, q);
      LookupHas(d.rest, k);
    }
  }

  lemma {:induction false} PutPut(d: Dict, k: string, v: Value, w: Value)
    ensures d.Put(k, v).Put(k, w) == d.Put(k, w)
  {
    if d.Cons? {
      PutPut(d.rest, k, v, w);
    }
  }

  lemma {:induction false} PutSame(d: Dict, k: string, v: Value)
    requires d.Lookup(k) == Some(v)
    ensures d.Put(k, v) == d
  {
    if d.key != k {
      PutSame(d.rest, k, v);
    }
  }

  lemma {:induction false} DelPut(d: Dict, k: string, v: Value)
    requires !d.Has(k)
    ensures d.Put(k, v).Del(k) == d
  {
    if d.Cons? {
      DelPut(d.rest, k, v);
    }
  }

  lemma {:induction false} ProperPut(d: Dict, k: string, v: Value)
    requires ProperDict(d) && Proper(v)
    ensures ProperDict(d.Put(k, v))
    ensures forall q :: d.Put(k, v).Has(q) <==> d.Has(q) || q == k
  {
    if d.Cons? {
      ProperPut(d.rest, k, v);
    }
  }

  lemma {:induction false} DistinctPut(d: Dict, k: string, v: Value)
    requires d.Distinct()
    ensures d.Put(k, v).Distinct()
    ensures forall q :: d.Put(k, v).Has(q) <==> d.Has(q) || q == k
  {
    if d.Cons? {
      DistinctPut(d.rest, k, v);
    }
  }

  lemma {:induction false} ProperLookup(d: Dict, k: string)
    requires ProperDict(d)
    ensures d.Distinct() && (d.Lookup(k).Some? ==> Proper(d.Lookup(k).value))
  {
    if d.Cons? {
      ProperLookup(d.rest, k);
    }
  }

  lemma {:induction false} CoversIf(d: Dict, e: Dict)
    requires d.Distinct()
    requires forall k | d.Has(k) ::
               d.Lookup(k).Some? && e.Lookup(k).Some? && Equal(d.Lookup(k).value, e.Lookup(k).value)
    ensures Covers(d, e)
  {
    if d.Cons? {
      assert d.Has(d.key);
      forall k | d.rest.Has(k) ensures d.Has(k) && d.Lookup(k) == d.rest.Lookup(k) {}
      CoversIf(d.rest, e);
    }
  }

  lemma {:induction false} CoversLookup(d: Dict, e: Dict, k: string)
    requires Covers(d, e) && d.Has(k)
    ensures d.Lookup(k).Some? && e.Lookup(k).Some? && Equal(d.Lookup(k).value, e.Lookup(k).value)
  {
    if d.key != k {
      CoversLookup(d.rest, e, k);
    }
  }

  /** Numbers of different types with one value. */
  predicate SameNumber(s: Scalar, t: Scalar) {
    match (s, t)
    case (Bool(b), Int(n)) => n == if b then 1 else 0
    case (Int(n), Bool(b)) => n == if b then 1 else 0
    case (Bool(b), Float(r)) => r == if b then 1.0 else 0.0
    case (Float(r), Bool(b)) => r == if b then 1.0 else 0.0
    case (Int(n), Float(r)) => r == n as real
    case (Float(r), Int(n)) => r == n as real
    case _ => false
  }

  function ItemAt(l: Items, i: nat): Option<Value> {
    if l.NoItems? then None else if i == 0 then Some(l.head) else ItemAt(l.tail, i - 1)
  }

  predicate EqualOptions(v: Option<Value>, w: Option<Value>) {
    match v
    case None => w.None?
    case Some(x) => w.Some? && Equal(x, w.value)
  }

  /** The lists agree at every place, and one has no more places than the other. */
  ghost predicate SamePlaces(l: Items, m: Items) {
    forall i: nat :: EqualOptions(ItemAt(l, i), ItemAt(m, i))
  }

  /** The mappings agree under every key, whatever the order of their keys. */
  ghost predicate SameUnder(d: Dict, e: Dict) {
    forall k: string :: EqualOptions(d.Lookup(k), e.Lookup(k))
  }

  /** What `Equal` accepts: the same scalar or numbers of one value, lists that
      agree at every place, and mappings that agree under every key. */
  lemma EqualMeaning(v: Value, w: Value)
    requires Proper(v)
    ensures Equal(v, w) <==>
            match (v, w)
            case (Leaf(s), Leaf(t)) => s == t || SameNumber(s, t)
            case (List(l), List(m)) => SamePlaces(l, m)
            case (Map(d), Map(e)) => SameUnder(d, e)
            case _ => false
  {
    match (v, w) {
      case (List(l), List(m)) => EqualItemsMeaning(l, m);
      case (Map(d), Map(e)) =>
        ProperLookup(d, "");
        EqualDictsMeaning(d, e);
      case _ =>
    }
  }

  lemma {:induction false} EqualItemsMeaning(l: Items, m: Items)
    ensures EqualItems(l, m) <==> SamePlaces(l, m)
  {
    if l.More? && m.More? {
      EqualItemsMeaning(l.tail, m.tail);
      if SamePlaces(l, m) {
        assert EqualOptions(ItemAt(l, 0), ItemAt(m, 0));
        forall i: nat ensures EqualOptions(ItemAt(l.tail, i), ItemAt(m.tail, i)) {
          assert EqualOptions(ItemAt(l, i + 1), ItemAt(m, i + 1));
        }
      }
      if EqualItems(l, m) {
        forall i: nat ensures EqualOptions(ItemAt(l, i), ItemAt(m, i)) {
          assert i > 0 ==> EqualOptions(ItemAt(l.tail, i - 1), ItemAt(m.tail, i - 1));
        }
      }
    } else if SamePlaces(l, m) {
      assert EqualOptions(ItemAt(l, 0), ItemAt(m, 0));
    }
  }

  lemma EqualDictsMeaning(d: Dict, e: Dict)
    requires d.Distinct()
    ensures EqualDicts(d, e) <==> SameUnder(d, e)
  {
    if EqualDicts(d, e) {
      forall k: string ensures EqualOptions(d.Lookup(k), e.Lookup(k)) {
        EqualLookup(d, e, k);
      }
    }
    if SameUnder(d, e) {
      forall k: string ensures d.Has(k) <==> e.Has(k)
                       ensures k in e.Keys() ==> d.Has(k)
                       ensures d.Has(k) ==> d.Lookup(k).Some? && e.Lookup(k).Some? &&
                                            Equal(d.Lookup(k).value, e.Lookup(k).value)
      {
        LookupHas(d, k);
        LookupHas(e, k);
        assert EqualOptions(d.Lookup(k), e.Lookup(k));
      }
      CoversIf(d, e);
      assert Covers(d, e);
    }
  }

  /** Equal mappings have equal entries under every key. */
  lemma EqualLookup(d: Dict, e: Dict, k: string)
    requires EqualDicts(d, e)
    ensures match d.Lookup(k)
            case None => e.Lookup(k).None?
            case Some(v) => e.Lookup(k).Some? && Equal(v, e.Lookup(k).value)
  {
    LookupHas(d, k);
    LookupHas(e, k);
    if d.Has(k) {
      CoversLookup(d, e, k);
    }
  }

  lemma {:induction false} EqualSelf(v: Value)
    requires Proper(v)
    ensures Equal(v, v)
  {
    match v
    case Leaf(_) =>
    case List(items) => EqualItemsSelf(items);
    case Map(d) =>
      CoversPart(d, d);
      forall k | k in d.Keys() ensures d.Has(k) {
        LookupHas(d, k);
      }
  }

  lemma {:induction false} EqualItemsSelf(l: Items)
    requires ProperItems(l)
    ensures EqualItems(l, l)
  {
    if l.More? {
      EqualSelf(l.head);
      EqualItemsSelf(l.tail);
    }
  }

  lemma {:induction false} CoversPart(d: Dict, e: Dict)
    requires ProperDict(d) && forall k | d.Has(k) :: e.Lookup(k) == d.Lookup(k)
    ensures Covers(d, e)
  {
    if d.Cons? {
      assert d.Has(d.key);
      EqualSelf(d.value);
      forall k | d.rest.Has(k) ensures e.Lookup(k) == d.rest.Lookup(k) {
        assert d.Has(k);
      }
      CoversPart(d.rest, e);
    }
  }
}
