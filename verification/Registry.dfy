/** Resolving configuration keys over layers, and the validated, rollback-safe
    write (config_io/registry.py). */
module Registry {
  import opened Paths
  import opened Values
  import opened Dotted

  datatype Policy = Writable | LinkFile | Provenance | ReadOnly

  /** A declared key; a `*` segment stands for any one segment. */
  datatype ConfigEntry = ConfigEntry(key: seq<string>, default: Value, envOnly: bool, secret: bool, policy: Policy)

  predicate Starred(key: seq<string>) {
    exists s | s in key :: '*' in s
  }

  predicate Matches(pattern: seq<string>, key: seq<string>) {
    |pattern| == |key| && forall i | 0 <= i < |key| :: pattern[i] == "*" || pattern[i] == key[i]
  }

  predicate Wild(entry: ConfigEntry, key: seq<string>) {
    Starred(entry.key) && Matches(entry.key, key)
  }

  /** An entry serves a key exactly if they agree segment by segment, a `*` standing
      for any one segment. */
  lemma WildMeaning(entry: ConfigEntry, key: seq<string>)
    ensures entry.key == key || Wild(entry, key) <==>
            |entry.key| == |key| && forall i | 0 <= i < |key| :: entry.key[i] in {"*", key[i]}
  {
    if Matches(entry.key, key) && entry.key != key {
      var i :| 0 <= i < |key| && entry.key[i] != key[i];
      assert entry.key[i] in entry.key && "*"[0] in entry.key[i];
    }
  }

  /** The entry for a key: an exact one wherever it stands, else the first
      wildcard one, and nothing only if there is neither. */
  method FindEntry(catalog: seq<ConfigEntry>, key: seq<string>) returns (entry: Option<ConfigEntry>)
    ensures entry.Some? ==> entry.value in catalog && (entry.value.key == key || Wild(entry.value, key))
    ensures entry.None? ==> forall e | e in catalog :: e.key != key && !Wild(e, key)
    ensures (exists e | e in catalog :: e.key == key) ==> entry.Some? && entry.value.key == key
    ensures entry.Some? ==> exists i | 0 <= i < |catalog| :: IsFirst(catalog, key, entry.value, i)
  {
    for i := 0 to |catalog|
      invariant forall j | 0 <= j < i :: catalog[j].key != key
    {
      if catalog[i].key == key {
        assert IsFirst(catalog, key, catalog[i], i);
        return Some(catalog[i]);
      }
    }
    for i := 0 to |catalog|
      invariant forall j | 0 <= j < i :: !Wild(catalog[j], key)
    {
      if Wild(catalog[i], key) {
        assert IsFirst(catalog, key, catalog[i], i);
        return Some(catalog[i]);
      }
    }
    return None;
  }

  /** The first entry of its sort for the key. */
  predicate IsFirst(catalog: seq<ConfigEntry>, key: seq<string>, e: ConfigEntry, i: nat)
    requires i < |catalog|
  {
    catalog[i] == e && if e.key == key then forall j | 0 <= j < i :: catalog[j].key != key
                       else forall j | 0 <= j < i :: !Wild(catalog[j], key)
  }

  // ---- Reading ----

  datatype Layers = Plain(explicit: Dict) | Layered(base: Dict, overlay: Dict) {
    function Explicit(): Dict {
      match this
      case Plain(d) => d
      case Layered(b, o) => MergeInto(b, o)
    }
  }

  datatype Origin = FromEnv | FromLocal | FromManifest | FromDefault

  datatype Resolved = Resolved(value: Value, origin: Origin, shadowed: Value)

  function Read(d: Dict, key: seq<string>): Value {
    Find(d, key).GetOr(NULL)
  }

  /** Environment over overlay over base over default.  `env` is the value the
      environment gives the key, coerced if it can be. */
  function ResolveKey(entry: ConfigEntry, key: seq<string>, layers: Layers, env: Option<Value>): Resolved {
    var explicit := Read(layers.Explicit(), key);
    if env.Some? then Resolved(env.value, FromEnv, if entry.envOnly then NULL else explicit)
    else if entry.envOnly || explicit == NULL then Resolved(entry.default, FromDefault, NULL)
    else if layers.Layered? && Read(layers.overlay, key) != NULL then
      Resolved(explicit, FromLocal, Read(layers.base, key))
    else Resolved(explicit, FromManifest, NULL)
  }

  /** The overlay hides the base's value of a key without giving one: by an
      explicit null, or by something other than a mapping above it. */
  predicate Masked(overlay: Dict, key: seq<string>) {
    Find(overlay, key) == Some(NULL) || (Find(overlay, key).None? && Masks(overlay, key))
  }

  /** For a key that each layer holds at most as a leaf, and no environment value:
      the overlay's value is reported as local with the base's as shadowed; the
      base's as the manifest's; and the default exactly if neither shows. */
  lemma ResolveReports(entry: ConfigEntry, key: seq<string>, base: Dict, overlay: Dict)
    requires key != [] && ProperDict(overlay) && !entry.envOnly
    requires !Read(base, key).Map? && !Read(overlay, key).Map?
    ensures var r := ResolveKey(entry, key, Layered(base, overlay), None);
            var b, o := Read(base, key), Read(overlay, key);
            && (r.origin == FromLocal <==> o != NULL)
            && (r.origin == FromManifest <==> o == NULL && b != NULL && !Masked(overlay, key))
            && (r.origin == FromLocal ==> r.value == o && r.shadowed == b)
            && (r.origin == FromManifest ==> r.value == b)
            && (r.origin == FromDefault ==> r.value == entry.default && (b == NULL || Masked(overlay, key)))
  {
    FindMerge(base, overlay, key);
  }

  /** A value from the environment wins over every layer, and shadows what would
      be reported without it unless that is the default; a key that is stored
      nowhere is its default. */
  lemma EnvironmentWins(entry: ConfigEntry, key: seq<string>, layers: Layers, value: Value)
    ensures var r, below := ResolveKey(entry, key, layers, Some(value)), ResolveKey(entry, key, layers, None);
            && r.value == value && r.origin == FromEnv
            && r.shadowed == (if below.origin == FromDefault then NULL else below.value)
            && (entry.envOnly ==> below == Resolved(entry.default, FromDefault, NULL))
  {
  }

  // ---- Writing ----

  /** What a store does with its contents: read them with defaults, or refuse them
      as invalid; read what is explicit in them; and write data over them. */
  datatype Codec<!Bytes(!new)> = Codec(read: Option<Bytes> -> Option<Dict>, explicit: Option<Bytes> -> Dict,
                                 dump: (Option<Bytes>, Dict) -> Bytes) {
    /** Python mappings have no key twice. */
    ghost predicate Sound() {
      forall bytes :: read(bytes).Some? ==> ProperDict(read(bytes).value)
    }

    /** Writing the data over the contents reads back as equal data, with nothing
        injected. */
    predicate Keeps(bytes: Option<Bytes>, d: Dict) {
      var after := Some(dump(bytes, d));
      read(after).Some? && EqualDicts(read(after).value, d) && explicit(after) == read(after).value
    }

    /** Every write is kept. */
    ghost predicate Lossless() {
      forall bytes, d | ProperDict(d) :: Keeps(bytes, d)
    }
  }

  datatype Refusal = UnknownKey | PolicyRefusal(policy: Policy) | SecretKey | EnvOnlyKey | InvalidValue
                   | StoreInvalid | StoreLeftInvalid | DidNotPersist

  datatype Written = Stored(value: Value) | Refused(why: Refusal)

  /** Why an entry cannot be written, in the order the checks are made. */
  function WriteRefusal(entry: Option<ConfigEntry>): Option<Refusal> {
    if entry.None? then Some(UnknownKey)
    else if entry.value.policy != Writable then Some(PolicyRefusal(entry.value.policy))
    else if entry.value.secret then Some(SecretKey)
    else if entry.value.envOnly then Some(EnvOnlyKey)
    else None
  }

  predicate MayBeWritten(entry: ConfigEntry) {
    entry.policy == Writable && !entry.secret && !entry.envOnly
  }

  /** The value written is there, or nothing is and the default says the same. */
  predicate IsKept(now: Dict, key: seq<string>, value: Value, default: Value) {
    match Find(now, key)
    case None => value == NULL || Equal(value, default)
    case Some(v) => Equal(v, value) || (v == NULL && Equal(value, default))
  }

  /** Equal mappings read equal values everywhere. */
  lemma {:induction false} EqualFind(d: Dict, e: Dict, q: seq<string>)
    requires EqualDicts(d, e) && q != []
    ensures EqualOptions(Find(d, q), Find(e, q))
    decreases q
  {
    EqualLookup(d, e, q[0]);
    if |q| > 1 && IsMap(d.Lookup(q[0])) && IsMap(e.Lookup(q[0])) {
      EqualFind(d.Lookup(q[0]).value.dict, e.Lookup(q[0]).value.dict, q[1..]);
      FindMap(d.Lookup(q[0]).value.dict, q[1..]);
      FindMap(e.Lookup(q[0]).value.dict, q[1..]);
    }
  }

  lemma {:induction false} SetProper(d: Dict, key: seq<string>, v: Value)
    requires ProperDict(d) && Proper(v) && key != []
    ensures ProperDict(SetIn(d, key, v))
    decreases key
  {
    if |key| == 1 {
      ProperPut(d, key[0], v);
    } else {
      ProperLookup(d, key[0]);
      SetProper(ChildOf(d, key[0]), key[1..], v);
      ProperPut(d, key[0], Map(SetIn(ChildOf(d, key[0]), key[1..], v)));
    }
  }

  lemma {:induction false} UnsetProper(d: Dict, key: seq<string>)
    requires ProperDict(d) && key != []
    ensures ProperDict(UnsetIn(d, key).0)
    decreases key
  {
    ProperDel(d, key[0]);
    if |key| > 1 && IsMap(d.Lookup(key[0])) {
      ProperLookup(d, key[0]);
      UnsetProper(d.Lookup(key[0]).value.dict, key[1..]);
      ProperPut(d, key[0], Map(UnsetIn(d.Lookup(key[0]).value.dict, key[1..]).0));
    }
  }

  lemma {:induction false} ProperDel(d: Dict, k: string)
    requires ProperDict(d)
    ensures ProperDict(d.Del(k)) && forall q | d.Del(k).Has(q) :: d.Has(q)
  {
    if d.Cons? {
      ProperDel(d.rest, k);
    }
  }

  /** A lossless store keeps every write that these methods make. */
  lemma LosslessKeeps<Bytes(!new)>(codec: Codec<Bytes>, bytes: Option<Bytes>, key: seq<string>, value: Value)
    requires codec.Sound() && codec.Lossless() && codec.read(bytes).Some? && key != [] && Proper(value)
    ensures codec.Keeps(bytes, SetIn(codec.read(bytes).value, key, value))
    ensures codec.Keeps(bytes, UnsetIn(codec.read(bytes).value, key).0)
  {
    SetProper(codec.read(bytes).value, key, value);
    UnsetProper(codec.read(bytes).value, key);
  }

  /** One value was put at the key, and every path off it reads as before. */
  ghost predicate OnlyChanged(before: Dict, after: Dict, key: seq<string>, value: Option<Value>) {
    && EqualOptions(Find(after, key), value)
    && forall q | q != [] && !Comparable(q, key) :: EqualOptions(Find(after, q), Find(before, q))
  }

  lemma WroteOne(before: Dict, after: Dict, key: seq<string>, value: Value)
    requires ProperDict(before) && Proper(value) && key != [] && EqualDicts(after, SetIn(before, key, value))
    ensures OnlyChanged(before, after, key, Some(value))
  {
    EqualFind(after, SetIn(before, key, value), key);
    FindSet(before, key, value, key);
    forall q | q != [] && !Comparable(q, key) ensures EqualOptions(Find(after, q), Find(before, q)) {
      EqualFind(after, SetIn(before, key, value), q);
      FindSet(before, key, value, q);
    }
  }

  lemma RemovedOne(before: Dict, after: Dict, key: seq<string>)
    requires ProperDict(before) && key != [] && EqualDicts(after, UnsetIn(before, key).0)
    ensures OnlyChanged(before, after, key, None)
  {
    EqualFind(after, UnsetIn(before, key).0, key);
    FindUnset(before, key, key);
    forall q | q != [] && !Comparable(q, key) ensures EqualOptions(Find(after, q), Find(before, q)) {
      EqualFind(after, UnsetIn(before, key).0, q);
      FindUnset(before, key, q);
    }
  }

  class ConfigStore<Bytes(!new)> {
    const codec: Codec<Bytes>
    var stored: Option<Bytes>

    constructor (codec: Codec<Bytes>, stored: Option<Bytes>)
      ensures this.codec == codec && this.stored == stored
    {
      this.codec, this.stored := codec, stored;
    }

    /** Whether what is stored for the key is the value, or nothing and the value
        is the default anyway. */
    predicate Persisted(key: seq<string>, value: Value, entry: ConfigEntry)
      reads this
    {
      var persisted := Read(codec.explicit(stored), key);
      Equal(persisted, value) || (persisted == NULL && Equal(value, entry.default))
    }

    /** Writes a key, or refuses and leaves what is stored as it was.  `coerced` is
        the raw value in the entry's type, if it has a reading there.  A write that
        the store keeps is accepted, and changes nothing else. */
    method SetKey(entry: Option<ConfigEntry>, key: seq<string>, coerced: Option<Value>) returns (result: Written)
      requires codec.Sound() && key != [] && (coerced.Some? ==> Proper(coerced.value))
      modifies this
      ensures result.Refused? ==> stored == old(stored)
      ensures WriteRefusal(entry).Some? ==> result == Refused(WriteRefusal(entry).value)
      ensures entry.None? ==> result == Refused(UnknownKey)
      ensures entry.Some? && entry.value.policy != Writable ==> result == Refused(PolicyRefusal(entry.value.policy))
      ensures entry.Some? && entry.value.policy == Writable && entry.value.secret ==> result == Refused(SecretKey)
      ensures entry.Some? && entry.value.policy == Writable && !entry.value.secret && entry.value.envOnly ==>
                result == Refused(EnvOnlyKey)
      ensures entry.Some? && MayBeWritten(entry.value) ==>
                && (result == Refused(InvalidValue) <==> coerced.None?)
                && (result == Refused(StoreInvalid) <==> coerced.Some? && codec.read(old(stored)).None?)
      ensures entry.Some? && MayBeWritten(entry.value) && coerced.Some? && codec.read(old(stored)).Some? ==>
                var after := Some(codec.dump(old(stored), SetIn(codec.read(old(stored)).value, key, coerced.value)));
                && (result == Refused(StoreLeftInvalid) <==> codec.read(after).None?)
                && (result == Stored(coerced.value) <==>
                      codec.read(after).Some? && IsKept(codec.explicit(after), key, coerced.value, entry.value.default))
                && (result.Stored? ==> stored == after)
                && (result.Stored? || result in {Refused(StoreLeftInvalid), Refused(DidNotPersist)})
      ensures result.Stored? ==> && WriteRefusal(entry).None? && entry.Some? && coerced == Some(result.value)
                                 && codec.read(old(stored)).Some? && codec.read(stored).Some?
                                 && Persisted(key, result.value, entry.value)
      ensures WriteRefusal(entry).None? && coerced.Some? && codec.read(old(stored)).Some? &&
              codec.Keeps(old(stored), SetIn(codec.read(old(stored)).value, key, coerced.value)) ==>
                result.Stored? && OnlyChanged(codec.read(old(stored)).value, codec.read(stored).value, key, coerced)
    {
      if WriteRefusal(entry).Some? {
        return Refused(WriteRefusal(entry).value);
      }
      if coerced.None? {
        return Refused(InvalidValue);
      }
      var value, data := coerced.value, codec.read(stored);
      if data.None? {
        return Refused(StoreInvalid);
      }
      var changed := SetIn(data.value, key, value);
      var snapshot := stored;
      stored := Some(codec.dump(stored, changed));
      if codec.read(stored).None? {
        stored := snapshot;
        return Refused(StoreLeftInvalid);
      }
      if codec.Keeps(snapshot, changed) {
        WroteOne(data.value, codec.read(stored).value, key, value);
      }
      if !Persisted(key, value, entry.value) {
        stored := snapshot;
        return Refused(DidNotPersist);
      }
      return Stored(value);
    }

    /** Removes a key if it is stored; otherwise nothing is written. */
    method UnsetKey(entry: Option<ConfigEntry>, key: seq<string>) returns (result: Written, removed: bool)
      requires codec.Sound() && key != []
      modifies this
      ensures removed ==> result.Stored?
      ensures result.Refused? || !removed ==> stored == old(stored)
      ensures result.Stored? <==> entry.Some? && MayBeWritten(entry.value) && codec.read(old(stored)).Some?
      ensures result.Refused? ==> result == Refused(if WriteRefusal(entry).Some? then WriteRefusal(entry).value
                                                    else StoreInvalid)
      ensures result.Stored? ==> (removed <==> Find(codec.read(old(stored)).value, key).Some?)
      ensures removed ==>
                codec.read(old(stored)).Some? &&
                    stored == Some(codec.dump(old(stored), UnsetIn(codec.read(old(stored)).value, key).0))
      ensures removed && codec.read(old(stored)).Some? &&
                codec.Keeps(old(stored), UnsetIn(codec.read(old(stored)).value, key).0) ==>
                codec.read(stored).Some? &&
                    OnlyChanged(codec.read(old(stored)).value, codec.read(stored).value, key, None)
    {
      if WriteRefusal(entry).Some? {
        return Refused(WriteRefusal(entry).value), false;
      }
      var data := codec.read(stored);
      if data.None? {
        return Refused(StoreInvalid), false;
      }
      var (changed, gone) := UnsetIn(data.value, key);
      FindUnset(data.value, key, key);
      removed := gone;
      if removed {
        var snapshot := stored;
        stored := Some(codec.dump(stored, changed));
        if codec.Keeps(snapshot, changed) {
          RemovedOne(data.value, codec.read(stored).value, key);
        }
      }
      return Stored(NULL), removed;
    }
  }
}
