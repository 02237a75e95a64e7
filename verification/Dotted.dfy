/** Dotted keys over nested mappings, and layering one mapping over another
    (config_io/dotted.py).  A key is given by its segments. */
module Dotted {
  import opened Paths
  import opened Values

  /** The value at a key, an explicit null being a value like any other. */
  function Find(d: Dict, key: seq<string>): Option<Value> {
    if key == [] then Some(Map(d)) else FindIn(d.Lookup(key[0]), key[1..])
  }

  function FindIn(v: Option<Value>, key: seq<string>): Option<Value>
    decreases key, 0
  {
    if v.None? || key == [] then v
    else if v.value.Map? then FindIn(v.value.dict.Lookup(key[0]), key[1..])
    else None
  }

  const NULL := Leaf(Null)

  /** A walk down the segments; an absent key and a stored null read alike. */
  method Get(data: Dict, key: seq<string>) returns (value: Value)
    ensures value == Find(data, key).GetOr(NULL)
  {
    var node := Map(data);
    for i := 0 to |key|
      invariant Find(data, key) == FindIn(Some(node), key[i..])
    {
      if !node.Map? || !node.dict.Has(key[i]) {
        LookupAbsent(node, key[i]);
        return NULL;
      }
      LookupHas(node.dict, key[i]);
      assert key[i..][1..] == key[i + 1..];
      node := node.dict.Lookup(key[i]).value;
    }
    return node;
  }

  lemma LookupAbsent(node: Value, k: string)
    requires !node.Map? || !node.dict.Has(k)
    ensures node.Map? ==> node.dict.Lookup(k).None?
  {
    if node.Map? {
      LookupHas(node.dict, k);
    }
  }

  /** Whether a key is present, whatever its value. */
  method Has(data: Dict, key: seq<string>) returns (present: bool)
    requires key != []
    ensures present <==> Find(data, key).Some?
  {
    var node := Map(data);
    for i := 0 to |key| - 1
      invariant Find(data, key) == FindIn(Some(node), key[i..])
    {
      if !node.Map? || !node.dict.Has(key[i]) {
        LookupAbsent(node, key[i]);
        return false;
      }
      LookupHas(node.dict, key[i]);
      assert key[i..][1..] == key[i + 1..];
      node := node.dict.Lookup(key[i]).value;
    }
    if node.Map? {
      LookupHas(node.dict, key[|key| - 1]);
    }
    return node.Map? && node.dict.Has(key[|key| - 1]);
  }

  function ChildOf(d: Dict, k: string): Dict {
    match d.Lookup(k)
    case Some(Map(child)) => child
    case _ => Nil
  }

  predicate IsMap(v: Option<Value>) {
    v.Some? && v.value.Map?
  }

  /** Writing at a key, creating or replacing what is on the way. */
  function SetIn(d: Dict, key: seq<string>, value: Value): Dict
    requires key != []
    decreases key
  {
    if |key| == 1 then d.Put(key[0], value)
    else d.Put(key[0], Map(SetIn(ChildOf(d, key[0]), key[1..], value)))
  }

  /** Removing a key, and the mappings above it that this leaves empty. */
  function UnsetIn(d: Dict, key: seq<string>): (r: (Dict, bool))
    requires key != []
    decreases key
  {
    if |key| == 1 then (if d.Has(key[0]) then d.Del(key[0]) else d, d.Has(key[0]))
    else if !IsMap(d.Lookup(key[0])) then (d, false)
    else
      var (child, removed) := UnsetIn(d.Lookup(key[0]).value.dict, key[1..]);
      if !removed then (d, false)
      else (if child.Nil? then d.Del(key[0]) else d.Put(key[0], Map(child)), true)
  }

  predicate Comparable(p: seq<string>, q: seq<string>) {
    p <= q || q <= p
  }

  lemma FindMap(d: Dict, key: seq<string>)
    ensures FindIn(Some(Map(d)), key) == Find(d, key)
  {
  }

  /** What is found after a write: the value at the key, mappings above it, and
      off its path what was there before. */
  lemma {:induction false} FindSet(d: Dict, key: seq<string>, value: Value, q: seq<string>)
    requires key != [] && q != []
    ensures q == key ==> Find(SetIn(d, key, value), q) == Some(value)
    ensures q < key ==> IsMap(Find(SetIn(d, key, value), q))
    ensures !Comparable(q, key) ==> Find(SetIn(d, key, value), q) == Find(d, q)
    decreases key
  {
    var after := SetIn(d, key, value);
    var child := ChildOf(d, key[0]);
    LookupPut(d, key[0], if |key| == 1 then value else Map(SetIn(child, key[1..], value)), q[0]);
    if q[0] == key[0] && |key| > 1 && |q| > 1 {
      FindSet(child, key[1..], value, q[1..]);
      FindMap(SetIn(child, key[1..], value), q[1..]);
      FindMap(child, q[1..]);
      assert q == [q[0]] + q[1..] && key == [key[0]] + key[1..];
      if !Comparable(q, key) {
        FindNil(q[1..]);
      }
    }
  }

  lemma FindNil(q: seq<string>)
    requires q != []
    ensures Find(Nil, q).None?
  {
  }

  /** A removal reports whether the key was there, and leaves it absent and
      everything off its path alone. */
  lemma {:induction false} FindUnset(d: Dict, key: seq<string>, q: seq<string>)
    requires key != [] && q != [] && ProperDict(d)
    ensures UnsetIn(d, key).1 <==> Find(d, key).Some?
    ensures !UnsetIn(d, key).1 ==> UnsetIn(d, key).0 == d
    ensures Find(UnsetIn(d, key).0, key).None?
    ensures !Comparable(q, key) ==> Find(UnsetIn(d, key).0, q) == Find(d, q)
    decreases key
  {
    LookupHas(d, key[0]);
    ProperLookup(d, key[0]);
    LookupDel(d, key[0], key[0]);
    LookupDel(d, key[0], q[0]);
    if |key| > 1 && IsMap(d.Lookup(key[0])) {
      var was := d.Lookup(key[0]).value.dict;
      var rest := if |q| > 1 then q[1..] else key[1..];
      FindUnset(was, key[1..], rest);
      var child := UnsetIn(was, key[1..]).0;
      LookupPut(d, key[0], Map(child), key[0]);
      LookupPut(d, key[0], Map(child), q[0]);
      FindMap(was, key[1..]);
      FindMap(child, key[1..]);
      if |q| > 1 {
        FindMap(was, q[1..]);
        FindMap(child, q[1..]);
        assert q == [q[0]] + q[1..] && key == [key[0]] + key[1..];
        FindNil(q[1..]);
      }
    }
  }

  /** Some proper prefix of the key holds something other than a nonempty mapping. */
  predicate Blocked(d: Dict, key: seq<string>)
    requires key != []
    decreases key
  {
    |key| > 1 && d.Has(key[0]) && (ChildOf(d, key[0]).Nil? || Blocked(ChildOf(d, key[0]), key[1..]))
  }

  lemma {:induction false} UnsetRemoves(d: Dict, key: seq<string>)
    requires key != []
    ensures UnsetIn(d, key).1 <==> Find(d, key).Some?
    decreases key
  {
    LookupHas(d, key[0]);
    if |key| > 1 && IsMap(d.Lookup(key[0])) {
      UnsetRemoves(d.Lookup(key[0]).value.dict, key[1..]);
    }
  }

  lemma NilNotBlocked(key: seq<string>)
    requires key != []
    ensures !Blocked(Nil, key) && Find(Nil, key).None?
  {
  }

  /** Removing a key just written gives back the mapping, order included, exactly
      when the key was absent and nothing blocked its path. */
  lemma {:induction false} UnsetUndoesSet(d: Dict, key: seq<string>, value: Value)
    requires key != [] && ProperDict(d)
    ensures UnsetIn(SetIn(d, key, value), key) == (d, true) <==> Find(d, key).None? && !Blocked(d, key)
    decreases key
  {
    var k := key[0];
    LookupHas(d, k);
    ProperLookup(d, k);
    if |key| == 1 {
      LookupPut(d, k, value, k);
      LookupHas(d.Put(k, value), k);
      DistinctPut(d, k, value);
      LookupDel(d.Put(k, value), k, k);
      if !d.Has(k) {
        DelPut(d, k, value);
      }
    } else {
      UnsetUndoesSet(ChildOf(d, k), key[1..], value);
      NilNotBlocked(key[1..]);
      UndoneBelow(d, key, value);
    }
  }

  lemma UndoneBelow(d: Dict, key: seq<string>, value: Value)
    requires |key| > 1 && d.Distinct()
    requires var child := ChildOf(d, key[0]);
             UnsetIn(SetIn(child, key[1..], value), key[1..]) == (child, true)
             <==> Find(child, key[1..]).None? && !Blocked(child, key[1..])
    ensures UnsetIn(SetIn(d, key, value), key) == (d, true) <==> Find(d, key).None? && !Blocked(d, key)
  {
    var k, child := key[0], ChildOf(d, key[0]);
    var inner := SetIn(child, key[1..], value);
    var out := UnsetIn(inner, key[1..]).0;
    var d1 := d.Put(k, Map(inner));
    UnsetRemoves(inner, key[1..]);
    FindSet(child, key[1..], value, key[1..]);
    LookupPut(d, k, Map(inner), k);
    NilNotBlocked(key[1..]);
    FindMap(child, key[1..]);
    PutPut(d, k, Map(inner), Map(out));
    LookupPut(d, k, Map(out), k);
    DistinctPut(d, k, Map(inner));
    LookupDel(d1, k, k);
    LookupHas(d, k);
    if !d.Has(k) {
      DelPut(d, k, Map(inner));
    } else if d.Lookup(k).value == Map(child) {
      PutSame(d, k, Map(child));
    }
  }

  // ---- Layering ----

  /** An overlay value over what the base holds: mappings are layered, and
      anything else replaces it. */
  function Over(below: Option<Value>, v: Value): Value
    decreases v, 0
  {
    if IsMap(below) && v.Map? then Map(MergeInto(below.value.dict, v.dict)) else v
  }

  /** The entries of the overlay laid over a mapping one after the other. */
  function MergeInto(d: Dict, overlay: Dict): Dict
    decreases overlay, 1
  {
    if overlay.Nil? then d
    else MergeInto(d.Put(overlay.key, Over(d.Lookup(overlay.key), overlay.value)), overlay.rest)
  }

  /** `base` with `overlay` over it. */
  method Merge(base: Dict, overlay: Dict) returns (merged: Dict)
    ensures merged == MergeInto(base, overlay)
    decreases overlay
  {
    merged := base;
    var items := overlay;
    while items.Cons?
      invariant MergeInto(base, overlay) == MergeInto(merged, items)
      invariant items == overlay || items < overlay
      decreases items
    {
      var existing := merged.Lookup(items.key);
      var value := items.value;
      if existing.Some? && existing.value.Map? && value.Map? {
        var layered := Merge(existing.value.dict, value.dict);
        value := Map(layered);
      }
      merged := merged.Put(items.key, value);
      items := items.rest;
    }
  }

  /** Every key of the layers reads as the overlay's value over the base's. */
  lemma {:induction false} LookupMerge(d: Dict, overlay: Dict, k: string)
    requires ProperDict(overlay)
    ensures MergeInto(d, overlay).Lookup(k) ==
              if overlay.Has(k) then Some(Over(d.Lookup(k), overlay.Lookup(k).GetOr(NULL))) else d.Lookup(k)
    decreases overlay
  {
    if overlay.Cons? {
      var after := d.Put(overlay.key, Over(d.Lookup(overlay.key), overlay.value));
      LookupPut(d, overlay.key, Over(d.Lookup(overlay.key), overlay.value), k);
      LookupMerge(after, overlay.rest, k);
    }
  }

  /** What a dotted key reads in two layers, from what it reads in each. */
  function ReadLayers(base: Option<Value>, overlay: Option<Value>, masked: bool): Option<Value> {
    if overlay.Some? then Some(Over(base, overlay.value)) else if masked then None else base
  }

  /** Some proper prefix of the key holds something other than a mapping. */
  predicate Masks(d: Dict, key: seq<string>)
    decreases key
  {
    |key| > 1 && d.Has(key[0]) && (!IsMap(d.Lookup(key[0])) || Masks(ChildOf(d, key[0]), key[1..]))
  }

  /** Reading a dotted key from the layers: the overlay's value over the base's if
      it has one, nothing below a non-mapping of the overlay, else the base's value. */
  lemma {:induction false} FindMerge(base: Dict, overlay: Dict, key: seq<string>)
    requires key != [] && ProperDict(overlay)
    ensures Find(MergeInto(base, overlay), key) == ReadLayers(Find(base, key), Find(overlay, key), Masks(overlay, key))
    decreases key
  {
    var k := key[0];
    LookupMerge(base, overlay, k);
    LookupHas(overlay, k);
    ProperLookup(overlay, k);
    if |key| > 1 && IsMap(overlay.Lookup(k)) {
      var above := overlay.Lookup(k).value.dict;
      var below := if IsMap(base.Lookup(k)) then base.Lookup(k).value.dict else Nil;
      FindMerge(below, above, key[1..]);
      FindMap(above, key[1..]);
      FindMap(below, key[1..]);
      FindMap(MergeInto(below, above), key[1..]);
    }
  }

  /** Layering entries that are already in effect changes nothing. */
  lemma {:induction false} MergeSettled(d: Dict, overlay: Dict)
    requires overlay.Distinct()
    requires forall k | overlay.Has(k) :: d.Lookup(k).Some? && overlay.Lookup(k).Some?
                                          && Over(d.Lookup(k), overlay.Lookup(k).value) == d.Lookup(k).value
    ensures MergeInto(d, overlay) == d
  {
    if overlay.Cons? {
      assert overlay.Has(overlay.key);
      PutSame(d, overlay.key, d.Lookup(overlay.key).value);
      forall k | overlay.rest.Has(k) ensures overlay.Lookup(k) == overlay.rest.Lookup(k) && overlay.Has(k) {}
      MergeSettled(d, overlay.rest);
    }
  }

  lemma {:induction false} OverSelf(v: Value)
    requires Proper(v)
    ensures Over(Some(v), v) == v
    decreases v, 0
  {
    if v.Map? {
      EachOverSelf(v.dict);
      ProperLookup(v.dict, "");
      MergeSettled(v.dict, v.dict);
    }
  }

  lemma {:induction false} EachOverSelf(d: Dict)
    requires ProperDict(d)
    ensures forall k | d.Has(k) :: d.Lookup(k).Some? && Over(d.Lookup(k), d.Lookup(k).value) == d.Lookup(k).value
    decreases d, 1
  {
    if d.Cons? {
      OverSelf(d.value);
      EachOverSelf(d.rest);
    }
  }

  lemma {:induction false} OverTwice(below: Option<Value>, v: Value)
    requires Proper(v)
    ensures Over(Some(Over(below, v)), v) == Over(below, v)
    decreases v, 0
  {
    OverSelf(v);
    if IsMap(below) && v.Map? {
      MergeTwice(below.value.dict, v.dict);
    }
  }

  lemma {:induction false} EachOverTwice(below: map<string, Option<Value>>, d: Dict)
    requires ProperDict(d) && forall k | d.Has(k) :: k in below
    ensures forall k | d.Has(k) :: d.Lookup(k).Some? &&
              Over(Some(Over(below[k], d.Lookup(k).value)), d.Lookup(k).value) == Over(below[k], d.Lookup(k).value)
    decreases d, 0
  {
    if d.Cons? {
      assert d.Has(d.key);
      OverTwice(below[d.key], d.value);
      EachOverTwice(below, d.rest);
    }
  }

  /** Layering the same overlay again changes nothing, not even the key order. */
  lemma {:induction false} MergeTwice(base: Dict, overlay: Dict)
    requires ProperDict(overlay)
    ensures MergeInto(MergeInto(base, overlay), overlay) == MergeInto(base, overlay)
    decreases overlay, 1
  {
    var merged := MergeInto(base, overlay);
    var below := map k | k in overlay.Keys() :: base.Lookup(k);
    forall k ensures overlay.Has(k) <==> k in overlay.Keys() {
      LookupHas(overlay, k);
    }
    EachOverTwice(below, overlay);
    forall k | overlay.Has(k) ensures merged.Lookup(k) == Some(Over(base.Lookup(k), overlay.Lookup(k).GetOr(NULL))) {
      LookupMerge(base, overlay, k);
    }
    ProperLookup(overlay, "");
    MergeSettled(merged, overlay);
  }
}
