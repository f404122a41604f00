/** The registry of type objects that find_all_type_objects fills while scan workers deliver types in any order. */
module Registry {
  import opened Bytes

  predicate IsAlpha(c: char) { 'a' <= c <= 'z' || 'A' <= c <= 'Z' }

  predicate IsAlnum(c: char) { IsAlpha(c) || '0' <= c <= '9' }

  predicate IsNameChar(c: char) { IsAlnum(c) || c == '_' || c == '.' }

  /** The alphabet of registry names. */
  predicate NameIsValid(name: string) {
    name != "" && (IsAlpha(name[0]) || name[0] == '_') && forall c <- name :: IsNameChar(c)
  }

  /** type_name_is_valid. */
  method TypeNameIsValid(name: string) returns (ok: bool)
    ensures ok <==> NameIsValid(name)
    ensures ok ==> name != "" && ('a' <= name[0] <= 'z' || 'A' <= name[0] <= 'Z' || name[0] == '_')
    ensures ok ==>
      forall c <- name :: 'a' <= c <= 'z' || 'A' <= c <= 'Z' || '0' <= c <= '9' || c == '_' || c == '.'
    ensures !ok && name != "" && ('a' <= name[0] <= 'z' || 'A' <= name[0] <= 'Z' || name[0] == '_') ==>
      exists c <- name :: !('a' <= c <= 'z' || 'A' <= c <= 'Z' || '0' <= c <= '9' || c == '_' || c == '.')
  {
    if name == "" { return false; }
    if !IsAlpha(name[0]) && name[0] != '_' { return false; }
    for i := 0 to |name|
      invariant forall j | 0 <= j < i :: IsNameChar(name[j])
    {
      if !IsAlnum(name[i]) && name[i] != '_' && name[i] != '.' {
        assert name[i] in name;
        return false;
      }
    }
    return true;
  }

  /** A type object the scan accepted: its address, with the name stored there. */
  datatype Found = Found(name: string, addr: nat) {
    predicate Valid() { NameIsValid(name) && addr < TWO_64 }
  }

  /** The key used when the plain name is taken by another address. */
  function FallbackKey(f: Found): string { f.name + "+" + Hex16(f.addr) }

  lemma FallbackKeyText(f: Found)
    ensures FallbackKey(f) == f.name + "+" + Hex16(f.addr)
  {
  }

  /** The fallback key determines the type object, and is never a plain name. */
  lemma FallbackKeysDistinct(f: Found, g: Found)
    requires f.Valid() && g.Valid()
    ensures FallbackKey(f) == FallbackKey(g) ==> f == g
    ensures FallbackKey(f) != g.name
  {
    assert FallbackKey(f)[|f.name|] == '+' && '+' in FallbackKey(f) && !IsNameChar('+');
    if FallbackKey(f) == FallbackKey(g) {
      assert |f.name| == |g.name|;
      assert f.name == FallbackKey(f)[..|f.name|] && g.name == FallbackKey(g)[..|g.name|];
      assert Hex16(f.addr) == FallbackKey(f)[|f.name| + 1..] && Hex16(g.addr) == FallbackKey(g)[|g.name| + 1..];
      Hex16RoundTrip(f.addr);
      Hex16RoundTrip(g.addr);
    }
  }

  /** Deliveries of one snapshot: valid, and an address always carries the same name. */
  ghost predicate Consistent(found: set<Found>) {
    && (forall f <- found :: f.Valid())
    && (forall f, g | f in found && g in found && f.addr == g.addr :: f == g)
  }

  predicate Owns(f: Found, key: string) { key == f.name || key == FallbackKey(f) }

  predicate Filed(types: map<string, nat>, f: Found) {
    (f.name in types && types[f.name] == f.addr) || (FallbackKey(f) in types && types[FallbackKey(f)] == f.addr)
  }

  /** A fallback key is present only while another address holds the plain name. */
  predicate FallbackJustified(types: map<string, nat>, f: Found) {
    FallbackKey(f) in types ==> f.name in types && types[f.name] != f.addr
  }

  /** Every key belongs to a delivered type, as its name or its fallback key, and every delivered type has one. */
  ghost predicate Registers(types: map<string, nat>, found: set<Found>) {
    && (forall k <- types :: exists f :: f in found && f.addr == types[k] && Owns(f, k))
    && (forall f <- found :: Filed(types, f) && FallbackJustified(types, f))
  }

  /** Distinct keys hold distinct addresses, and the addresses are those of the delivered types. */
  ghost predicate Bijective(types: map<string, nat>, found: set<Found>) {
    && (forall j, k | j in types && k in types && j != k :: types[j] != types[k])
    && (forall k <- types :: exists f :: f in found && f.addr == types[k])
    && (forall f <- found :: exists k :: k in types && types[k] == f.addr)
  }

  lemma RegistersIsBijective(types: map<string, nat>, found: set<Found>)
    requires Consistent(found) && Registers(types, found)
    ensures Bijective(types, found)
  {
    forall j, k | j in types && k in types && j != k ensures types[j] != types[k] {
      var f :| f in found && f.addr == types[j] && Owns(f, j);
      var g :| g in found && g.addr == types[k] && Owns(g, k);
    }
    forall f | f in found ensures exists k :: k in types && types[k] == f.addr {
      assert Filed(types, f);
    }
  }

  /** The registry after the locked part of the callback. */
  function Register(types: map<string, nat>, f: Found): map<string, nat> {
    if f.name !in types then types[f.name := f.addr]
    else if types[f.name] != f.addr && FallbackKey(f) !in types then types[FallbackKey(f) := f.addr]
    else types
  }

  lemma KeysDistinct(found: set<Found>, f: Found)
    requires Consistent(found + {f})
    ensures forall g <- found ::
      (FallbackKey(f) == FallbackKey(g) ==> f == g) && FallbackKey(f) != g.name && FallbackKey(g) != f.name
    ensures FallbackKey(f) != f.name
  {
    hide FallbackKey;
    FallbackKeysDistinct(f, f);
    forall g | g in found
      ensures (FallbackKey(f) == FallbackKey(g) ==> f == g) && FallbackKey(f) != g.name && FallbackKey(g) != f.name
    {
      assert f in found + {f} && g in found + {f};
      FallbackKeysDistinct(f, g);
      FallbackKeysDistinct(g, f);
    }
  }

  /** The `name+ADDRESS` fallback never collides: if it is taken, it already holds this very address. */
  lemma FallbackNeverCollides(types: map<string, nat>, found: set<Found>, f: Found)
    requires Registers(types, found) && Consistent(found + {f}) && FallbackKey(f) in types
    ensures types[FallbackKey(f)] == f.addr && f in found
  {
    hide FallbackKey;
    KeysDistinct(found, f);
    var g :| g in found && g.addr == types[FallbackKey(f)] && Owns(g, FallbackKey(f));
  }

  lemma RegisterFiles(types: map<string, nat>, found: set<Found>, f: Found)
    requires Registers(types, found) && Consistent(found + {f})
    ensures forall g <- found + {f} :: Filed(Register(types, f), g) && FallbackJustified(Register(types, f), g)
  {
    hide FallbackKey;
    KeysDistinct(found, f);
    if FallbackKey(f) in types { FallbackNeverCollides(types, found, f); }
    forall g | g in found + {f}
      ensures Filed(Register(types, f), g) && FallbackJustified(Register(types, f), g)
    {
      assert g in found ==> Filed(types, g) && FallbackJustified(types, g);
    }
  }

  lemma RegisterOwns(types: map<string, nat>, found: set<Found>, f: Found)
    requires Registers(types, found) && Consistent(found + {f})
    ensures forall k <- Register(types, f) ::
      exists g :: g in found + {f} && g.addr == Register(types, f)[k] && Owns(g, k)
  {
    hide FallbackKey, Filed, FallbackJustified;
    forall k | k in Register(types, f)
      ensures exists g :: g in found + {f} && g.addr == Register(types, f)[k] && Owns(g, k)
    {
      if k in types {
        var g :| g in found && g.addr == types[k] && Owns(g, k);
        assert g in found + {f};
      } else {
        assert f in found + {f} && Owns(f, k);
      }
    }
  }

  function AsSet(order: seq<Found>): set<Found> { set f | f in order }

  /** Deliveries of one snapshot in the order the workers made them. */
  ghost predicate ConsistentOrder(order: seq<Found>) {
    && (forall i | 0 <= i < |order| :: order[i].Valid())
    && (forall i, j | 0 <= i < |order| && 0 <= j < |order| && order[i].addr == order[j].addr :: order[i] == order[j])
  }

  class TypeRegistry {
    var typeObjects: map<string, nat>
    ghost var found: set<Found>

    ghost predicate Valid()
      reads this
    {
      Consistent(found) && Registers(typeObjects, found)
    }

    /** find_all_type_objects clears the registry before it scans. */
    constructor ()
      ensures Valid() && found == {} && typeObjects == map[]
    {
      typeObjects, found := map[], {};
    }

    /** The locked part of the scan callback, for an accepted type object. */
    method OnType(f: Found)
      requires Valid() && Consistent(found + {f})
      modifies this
      ensures Valid() && found == old(found) + {f}
      ensures typeObjects == Register(old(typeObjects), f)
      ensures f.name !in old(typeObjects) ==> typeObjects == old(typeObjects)[f.name := f.addr]
      ensures f.name in old(typeObjects) ==>
        var key := f.name + "+" + Hex16(f.addr);
        if old(typeObjects)[f.name] == f.addr || key in old(typeObjects) then typeObjects == old(typeObjects)
        else typeObjects == old(typeObjects)[key := f.addr]
    {
      FallbackKeyText(f);
      hide FallbackKey, Filed, FallbackJustified;
      RegisterFiles(typeObjects, found, f);
      RegisterOwns(typeObjects, found, f);
      if f.name !in typeObjects {
        typeObjects := typeObjects[f.name := f.addr];
      } else if typeObjects[f.name] != f.addr {
        if FallbackKey(f) !in typeObjects {
          typeObjects := typeObjects[FallbackKey(f) := f.addr];
        }
      }
      found := found + {f};
    }

    /** Delivery in any order, with repetitions, ends in a bijection between keys and accepted addresses. */
    method DeliverAll(order: seq<Found>)
      requires Valid() && found == {} && ConsistentOrder(order)
      modifies this
      ensures Bijective(typeObjects, found) && found == AsSet(order)
    {
      for i := 0 to |order|
        invariant Valid() && found == AsSet(order[..i])
      {
        assert order[..i + 1] == order[..i] + [order[i]];
        OnType(order[i]);
      }
      assert order[..|order|] == order;
      RegistersIsBijective(typeObjects, found);
    }
  }
}
