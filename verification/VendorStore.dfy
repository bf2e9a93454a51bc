/** `VendorQuery`: a store of vendors whose ids come from its size, kept in a set
    under `Vendor.equals`, which looks at the id alone. */
module VendorStore {
  import opened Wrappers

  datatype Vendor = Vendor(id: Option<int>, name: Option<string>, address: Option<string>)

  datatype Failure = NullPointer | NotFound

  /** `Vendor.equals` */
  predicate SameVendor(a: Vendor, b: Vendor) {
    a.id == b.id
  }

  /** `LinkedHashSet.add`: nothing happens if an equal element is present. */
  function Add(store: seq<Vendor>, v: Vendor): seq<Vendor> {
    if exists k | 0 <= k < |store| :: SameVendor(store[k], v) then store else store + [v]
  }

  /** The set keeps its elements and their order; the new one joins at the end,
      unless some element has its id, whatever their names and addresses. */
  lemma AddExact(store: seq<Vendor>, v: Vendor, after: seq<Vendor>)
    ensures after == Add(store, v) <==>
            store <= after &&
            if exists k | 0 <= k < |store| :: store[k].id == v.id then |after| == |store|
            else |after| == |store| + 1 && after[|store|] == v
  {
    if k :| 0 <= k < |store| && store[k].id == v.id {
      assert SameVendor(store[k], v);
    }
  }

  function Created(store: seq<Vendor>, input: Vendor): Vendor {
    Vendor(Some(|store| + 1), input.name, input.address)
  }

  /** The store after a serial run of creations. */
  function Stored(inputs: seq<Vendor>): seq<Vendor> {
    if inputs == [] then []
    else
      var before := Stored(inputs[..|inputs| - 1]);
      Add(before, Created(before, inputs[|inputs| - 1]))
  }

  /** No creation is dropped: after any run the ids are exactly 1 to n in order of
      creation, each with the name and address it was created with. */
  lemma {:induction false} StoredExact(inputs: seq<Vendor>)
    ensures |Stored(inputs)| == |inputs|
    ensures forall k | 0 <= k < |inputs| ::
              Stored(inputs)[k] == Vendor(Some(k + 1), inputs[k].name, inputs[k].address)
  {
    if inputs != [] {
      StoredExact(inputs[..|inputs| - 1]);
    }
  }

  function CountNamed(inputs: seq<Vendor>, name: Option<string>): nat {
    if inputs == [] then 0
    else CountNamed(inputs[..|inputs| - 1], name) + if inputs[|inputs| - 1].name == name then 1 else 0
  }

  function Named(store: seq<Vendor>, name: Option<string>): set<Vendor> {
    set v | v in store && v.name == name
  }

  lemma NamedSnoc(store: seq<Vendor>, v: Vendor, name: Option<string>)
    requires v !in store
    ensures |Named(store + [v], name)| == |Named(store, name)| + if v.name == name then 1 else 0
  {
    if v.name == name {
      assert Named(store + [v], name) == Named(store, name) + {v};
    } else {
      assert Named(store + [v], name) == Named(store, name);
    }
  }

  // One more vendor looked at joins those of its name, and has an id of its own.
  lemma NamedNext(inputs: seq<Vendor>, k: nat, name: Option<string>)
    requires k < |inputs|
    ensures |Stored(inputs)| == |inputs|
    ensures var store := Stored(inputs);
            && Named(store[..k + 1], name) ==
                 Named(store[..k], name) + (if store[k].name == name then {store[k]} else {})
            && forall v | v in Named(store[..k], name) :: !SameVendor(v, store[k])
  {
    StoredExact(inputs);
    var store := Stored(inputs);
    assert store[..k + 1] == store[..k] + [store[k]];
  }

  /** Equality by id merges no two vendors of a name: there are as many of them as
      there were creations with that name. */
  lemma {:induction false} NamedCount(inputs: seq<Vendor>, name: Option<string>)
    ensures |Named(Stored(inputs), name)| == CountNamed(inputs, name)
  {
    StoredExact(inputs);
    if inputs != [] {
      var before := inputs[..|inputs| - 1];
      NamedCount(before, name);
      StoredExact(before);
      var latest := Stored(inputs)[|before|];
      assert Stored(inputs) == Stored(before) + [latest];
      NamedSnoc(Stored(before), latest, name);
    } else {
      assert Named(Stored(inputs), name) == {};
    }
  }

  /** The sizes of the results of asking for each of these names. */
  function SizesOfNamed(store: seq<Vendor>, names: seq<Option<string>>): nat {
    if names == [] then 0 else |Named(store, names[0])| + SizesOfNamed(store, names[1..])
  }

  function CountsOf(inputs: seq<Vendor>, names: seq<Option<string>>): nat {
    if names == [] then 0 else CountNamed(inputs, names[0]) + CountsOf(inputs, names[1..])
  }

  lemma {:induction false} SizesAreCounts(inputs: seq<Vendor>, names: seq<Option<string>>)
    ensures SizesOfNamed(Stored(inputs), names) == CountsOf(inputs, names)
  {
    if names != [] {
      NamedCount(inputs, names[0]);
      SizesAreCounts(inputs, names[1..]);
    }
  }

  ghost predicate Distinct(names: seq<Option<string>>) {
    forall i, j | 0 <= i < j < |names| :: names[i] != names[j]
  }

  // One more creation is counted under its own name, and once.
  lemma {:induction false} CountsSnoc(inputs: seq<Vendor>, names: seq<Option<string>>)
    requires inputs != [] && Distinct(names)
    ensures CountsOf(inputs, names) ==
            CountsOf(inputs[..|inputs| - 1], names) + if inputs[|inputs| - 1].name in names then 1 else 0
  {
    if names != [] {
      CountsSnoc(inputs, names[1..]);
      assert names[0] !in names[1..];
    }
  }

  lemma {:induction false} CountsOfNone(names: seq<Option<string>>)
    ensures CountsOf([], names) == 0
  {
    if names != [] {
      CountsOfNone(names[1..]);
    }
  }

  lemma {:induction false} CountsOfAll(inputs: seq<Vendor>, names: seq<Option<string>>)
    requires Distinct(names) && forall k | 0 <= k < |inputs| :: inputs[k].name in names
    ensures CountsOf(inputs, names) == |inputs|
  {
    if inputs == [] {
      CountsOfNone(names);
    } else {
      CountsSnoc(inputs, names);
      CountsOfAll(inputs[..|inputs| - 1], names);
    }
  }

  /** The results over all distinct names partition the store: each stored vendor
      is found under one of the names and no other, and the results together have
      as many members as there were creations. */
  lemma NamesPartition(inputs: seq<Vendor>, names: seq<Option<string>>)
    requires Distinct(names) && forall k | 0 <= k < |inputs| :: inputs[k].name in names
    ensures forall v | v in Stored(inputs) :: exists i | 0 <= i < |names| :: v in Named(Stored(inputs), names[i])
    ensures forall i, j | 0 <= i < j < |names| ::
              Named(Stored(inputs), names[i]) !! Named(Stored(inputs), names[j])
    ensures SizesOfNamed(Stored(inputs), names) == |inputs| == |Stored(inputs)|
  {
    StoredExact(inputs);
    SizesAreCounts(inputs, names);
    CountsOfAll(inputs, names);
    forall v | v in Stored(inputs)
      ensures exists i | 0 <= i < |names| :: v in Named(Stored(inputs), names[i])
    {
      assert v.name in names;
      var i :| 0 <= i < |names| && names[i] == v.name;
      assert v in Named(Stored(inputs), names[i]);
    }
  }

  class VendorQuery {
    var mockVendorStorage: seq<Vendor>
    ghost var inputs: seq<Vendor> // every vendor ever given to createVendor

    ghost predicate Consistent()
      reads this
    {
      mockVendorStorage == Stored(inputs)
    }

    constructor ()
      ensures Consistent() && inputs == []
    {
      mockVendorStorage, inputs := [], [];
    }

    /** A new vendor gets the next id and stays findable under it; a null argument
        changes nothing. */
    method CreateVendor(vendor: Option<Vendor>) returns (created: Result<Vendor, Failure>)
      requires Consistent()
      modifies this
      ensures Consistent()
      ensures vendor.None? ==> created == Err(NullPointer) && inputs == old(inputs) &&
                               mockVendorStorage == old(mockVendorStorage)
      ensures vendor.Some? ==>
                && inputs == old(inputs) + [vendor.value]
                && created == Ok(Vendor(Some(|inputs|), vendor.value.name, vendor.value.address))
                && mockVendorStorage == old(mockVendorStorage) + [created.value]
    {
      if vendor.None? {
        return Err(NullPointer);
      }
      StoredExact(inputs);
      ghost var longer := inputs + [vendor.value];
      assert longer[..|longer| - 1] == inputs;
      StoredExact(longer);
      var createdVendor := Vendor(Some(|mockVendorStorage| + 1), vendor.value.name, vendor.value.address);
      mockVendorStorage := Add(mockVendorStorage, createdVendor);
      inputs := longer;
      return Ok(createdVendor);
    }

    /** Every id ever handed out resolves to the vendor created with it, and every
        other id fails. */
    method GetVendor(id: Option<int>) returns (found: Result<Vendor, Failure>)
      requires Consistent()
      ensures found == if id.Some? && 1 <= id.value <= |inputs|
                       then Ok(Vendor(id, inputs[id.value - 1].name, inputs[id.value - 1].address))
                       else Err(NotFound)
    {
      StoredExact(inputs);
      assert id.Some? && 1 <= id.value <= |inputs| ==> mockVendorStorage[id.value - 1].id == id;
      for k := 0 to |mockVendorStorage|
        invariant forall j | 0 <= j < k :: mockVendorStorage[j].id != id
      {
        if mockVendorStorage[k].id == id {
          return Ok(mockVendorStorage[k]);
        }
      }
      return Err(NotFound);
    }

    /** The vendors of a name, as many as were created with it; but as soon as one
        vendor was ever created without a name, every such query fails. */
    method GetVendors(name: Option<string>) returns (found: Result<set<Vendor>, Failure>)
      requires Consistent()
      ensures found.Err? <==> exists k | 0 <= k < |inputs| :: inputs[k].name.None?
      ensures found.Err? ==> found.error == NullPointer
      ensures found.Ok? ==>
                && found.value == (set v | v in mockVendorStorage && v.name == name)
                && |found.value| == CountNamed(inputs, name)
    {
      StoredExact(inputs);
      NamedCount(inputs, name);
      var result: set<Vendor> := {};
      for k := 0 to |mockVendorStorage|
        invariant forall j | 0 <= j < k :: inputs[j].name.Some?
        invariant result == Named(mockVendorStorage[..k], name)
      {
        var vendor := mockVendorStorage[k];
        if vendor.name.None? {
          assert inputs[k].name.None?;
          return Err(NullPointer);
        }
        NamedNext(inputs, k, name);
        if vendor.name == name {
          if !(exists v | v in result :: SameVendor(v, vendor)) {
            result := result + {vendor};
          }
        }
      }
      assert mockVendorStorage[..|mockVendorStorage|] == mockVendorStorage;
      return Ok(result);
    }
  }

  /** Ids are for ever: whatever is created later, an id keeps its vendor. */
  lemma IdsAreStable(inputs: seq<Vendor>, more: seq<Vendor>)
    ensures Stored(inputs) <= Stored(inputs + more)
  {
    StoredExact(inputs);
    StoredExact(inputs + more);
  }
}
