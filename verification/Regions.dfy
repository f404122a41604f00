/** The two region indexes of a memory reader, and address lookup, range reads and address translation over them. */
module Regions {
  import opened Wrappers
  import opened Bytes

  /** A region: its address in the captured process, its address in this process, and its length. */
  datatype View = View(addr: nat, data: nat, size: nat) {
    /** The key of the view in the host index or in the mapped index. */
    function Base(host: bool): nat { if host then data else addr }

    predicate Contains(host: bool, a: nat) { Base(host) <= a < Base(host) + size }
  }

  type Index = map<nat, View>

  /** `std::map::emplace`: an existing key keeps its value. */
  function Emplace(m: Index, host: bool, v: View): Index {
    if v.Base(host) in m then m else m[v.Base(host) := v]
  }

  /** The index after emplacing the views in order. */
  function IndexOf(vs: seq<View>, host: bool): Index {
    if vs == [] then map[] else Emplace(IndexOf(vs[..|vs| - 1], host), host, vs[|vs| - 1])
  }

  predicate FirstAt(vs: seq<View>, host: bool, k: nat, i: nat) {
    i < |vs| && vs[i].Base(host) == k && forall j | 0 <= j < i :: vs[j].Base(host) != k
  }

  /** The index has the keys of all views, and of several views under one key it keeps the first. */
  lemma {:induction false} IndexKeepsFirst(vs: seq<View>, host: bool, k: nat)
    ensures k in IndexOf(vs, host) <==> exists i: nat :: FirstAt(vs, host, k, i)
    ensures forall i: nat :: FirstAt(vs, host, k, i) ==> IndexOf(vs, host)[k] == vs[i]
  {
    if vs != [] {
      var n := |vs| - 1;
      IndexKeepsFirst(vs[..n], host, k);
      forall i: nat ensures FirstAt(vs, host, k, i) <==>
        if i < n then FirstAt(vs[..n], host, k, i) else i == n && vs[n].Base(host) == k && k !in IndexOf(vs[..n], host)
      {
        if i == n && FirstAt(vs, host, k, i) { assert forall j: nat :: !FirstAt(vs[..n], host, k, j); }
        if i == n && k !in IndexOf(vs[..n], host) && vs[n].Base(host) == k { FirstIsOnly(vs[..n], host, k); }
      }
      if k in IndexOf(vs[..n], host) {
        var i: nat :| FirstAt(vs[..n], host, k, i);
        assert FirstAt(vs, host, k, i);
      } else if vs[n].Base(host) == k {
        assert FirstAt(vs, host, k, n);
      }
    }
  }

  /** A key without a first view has no view. */
  lemma {:induction false} FirstIsOnly(vs: seq<View>, host: bool, k: nat)
    requires forall i: nat :: !FirstAt(vs, host, k, i)
    ensures forall j | 0 <= j < |vs| :: vs[j].Base(host) != k
  {
    if j: nat :| j < |vs| && vs[j].Base(host) == k {
      FirstBelow(vs, host, k, j);
    }
  }

  lemma {:induction false} FirstBelow(vs: seq<View>, host: bool, k: nat, j: nat)
    requires j < |vs| && vs[j].Base(host) == k
    ensures exists i: nat :: FirstAt(vs, host, k, i)
  {
    if i: nat :| i < j && vs[i].Base(host) == k {
      FirstBelow(vs, host, k, i);
    } else {
      assert FirstAt(vs, host, k, j);
    }
  }

  /** Non-empty, pairwise disjoint regions, each filed under its own base and ending below 2^64. */
  ghost predicate Indexed(m: Index, host: bool) {
    && (forall k <- m :: m[k].Base(host) == k && m[k].size > 0 && k + m[k].size < TWO_64)
    && (forall j, k | j in m && k in m && j < k :: j + m[j].size <= k)
  }

  predicate IsFloor(keys: set<nat>, a: nat, k: nat) {
    k in keys && k <= a && forall j <- keys :: j <= a ==> j <= k
  }

  lemma {:induction false} FloorExists(keys: set<nat>, a: nat, j: nat)
    requires j in keys && j <= a
    ensures exists k :: IsFloor(keys, a, k)
    decreases a - j
  {
    if i :| i in keys && j < i <= a {
      FloorExists(keys, a, i);
    } else {
      assert IsFloor(keys, a, j);
    }
  }

  /** The entry before `upper_bound(a)` in an ordered map, or nothing when `upper_bound(a)` is `begin()`. */
  function Floor(keys: set<nat>, a: nat): (r: Option<nat>)
    ensures r.Some? ==> IsFloor(keys, a, r.value)
    ensures r.None? ==> forall k <- keys :: k > a
  {
    if k :| k in keys && IsFloor(keys, a, k) then Some(k)
    else
      assert forall j <- keys :: j > a by {
        forall j <- keys ensures j > a { if j <= a { FloorExists(keys, a, j); } }
      }
      None
  }

  /** find_region_by_mapped_addr and find_region_by_host_addr; `None` stands for `std::out_of_range`. */
  function FindRegion(m: Index, host: bool, a: nat): Option<View> {
    match Floor(m.Keys, a)
    case None => None
    case Some(k) => if Wrap64(m[k].Base(host) + m[k].size) <= a then None else Some(m[k])
  }

  /** exists_range, with the 64-bit arithmetic of `offset_bytes` and `bytes_until`. */
  predicate ExistsRange(m: Index, a: nat, n: nat) {
    match FindRegion(m, false, a)
    case None => false
    case Some(v) => Wrap64(Wrap64(a + n) - v.addr) <= v.size
  }

  /** read: the host address of `n` readable bytes. */
  function Read(m: Index, a: nat, n: nat): Result<nat> {
    match FindRegion(m, false, a)
    case None => Failure(OutOfRange)
    case Some(v) =>
      var offset := Wrap64(a - v.addr);
      if Wrap64(offset + n) > v.size || Wrap64(offset + n) < offset then Failure(OutOfRange)
      else Success(Wrap64(v.data + offset))
  }

  /** host_to_mapped for a structure of `n` bytes. */
  function HostToMapped(m: Index, p: nat, n: nat): Result<nat> {
    match FindRegion(m, true, p)
    case None => Failure(OutOfRange)
    case Some(v) =>
      var offset := Wrap64(p - v.data);
      if offset >= v.size || Wrap64(offset + n) > v.size then Failure(OutOfRange)
      else Success(Wrap64(v.addr + offset))
  }

  /** Ordered lookup refines a linear search: it finds the one region that contains the address. */
  lemma FindRefinesLinearSearch(m: Index, host: bool, a: nat)
    requires Indexed(m, host)
    ensures var r := FindRegion(m, host, a); r.Some? ==> r.value in m.Values && r.value.Contains(host, a)
    ensures forall k <- m :: m[k].Contains(host, a) ==> FindRegion(m, host, a) == Some(m[k])
  {
    forall k | k in m && m[k].Contains(host, a)
      ensures FindRegion(m, host, a) == Some(m[k])
    {
      var f := Floor(m.Keys, a).value;
      assert IsFloor(m.Keys, a, f) && k <= f;
    }
  }

  /** A read succeeds exactly when the whole range lies in one region, and then starts at the matching host byte. */
  lemma ReadIffContained(m: Index, a: nat, n: nat)
    requires Indexed(m, false) && n < TWO_64
    ensures Read(m, a, n).Success? <==> exists k :: k in m && m[k].Contains(false, a) && a + n <= k + m[k].size
    ensures forall k <- m :: m[k].Contains(false, a) && a + n <= k + m[k].size ==>
      Read(m, a, n) == Success(Wrap64(m[k].data + (a - k)))
  {
    FindRefinesLinearSearch(m, false, a);
    if FindRegion(m, false, a).Some? {
      var v := FindRegion(m, false, a).value;
      assert v.addr in m && m[v.addr] == v;
    }
  }

  /**
   * `exists_range` and `read` accept the same ranges exactly when the offset of the range's end inside its region
   * does not wrap at 2^64; past that point `exists_range` answers true and `read` throws.
   */
  lemma ExistsRangeAgreesWithRead(m: Index, a: nat, n: nat)
    requires Indexed(m, false) && n < TWO_64
    ensures (ExistsRange(m, a, n) <==> Read(m, a, n).Success?)
      <==> (forall k <- m :: m[k].Contains(false, a) ==> (a - k) + n < TWO_64)
  {
    FindRefinesLinearSearch(m, false, a);
    if FindRegion(m, false, a).Some? {
      var v := FindRegion(m, false, a).value;
      assert v.addr in m && m[v.addr] == v;
      var offset := a - v.addr;
      assert a < TWO_64 && offset < v.size;
      assert Wrap64(Wrap64(a + n) - v.addr) == Wrap64(offset + n) by { WrapDifference(a, n, v.addr); }
      assert offset + n >= TWO_64 ==> Wrap64(offset + n) < offset;
    }
  }

  lemma WrapDifference(a: nat, n: nat, base: nat)
    requires base <= a < TWO_64 && n < TWO_64
    ensures Wrap64(Wrap64(a + n) - base) == Wrap64((a - base) + n)
  {
  }

  /** The two indexes of one reader file the same views. */
  ghost predicate Paired(mapped: Index, host: Index) {
    Indexed(mapped, false) && Indexed(host, true) && mapped.Values == host.Values
  }

  lemma FiledUnderBase(m: Index, host: bool, v: View)
    requires Indexed(m, host) && v in m.Values
    ensures v.Base(host) in m && m[v.Base(host)] == v
  {
    var k :| k in m && m[k] == v;
  }

  lemma PairedIsIndexed(mapped: Index, host: Index)
    requires Paired(mapped, host)
    ensures Indexed(mapped, false) && Indexed(host, true) && mapped.Values == host.Values
  {
  }

  lemma FiledOnBothSides(mapped: Index, host: Index, v: View)
    requires Paired(mapped, host) && v in mapped.Values
    ensures v.addr in mapped && mapped[v.addr] == v && v.data in host && host[v.data] == v && v in host.Values
    ensures 0 < v.size && v.addr + v.size < TWO_64 && v.data + v.size < TWO_64
  {
    FiledUnderBase(mapped, false, v);
    FiledUnderBase(host, true, v);
  }

  lemma RegionAt(m: Index, host: bool, v: View, a: nat)
    requires Indexed(m, host) && v.Base(host) in m && m[v.Base(host)] == v && v.Contains(host, a)
    ensures FindRegion(m, host, a) == Some(v) && v.Base(host) + v.size < TWO_64
  {
    FindRefinesLinearSearch(m, host, a);
  }

  lemma SingleRegionIndexed(v: View)
    requires 0 < v.size && v.addr + v.size < TWO_64
    ensures Indexed(map[v.addr := v], false)
  {
  }

  /** The failing inputs: from inside a region, the size that ends at offset 2^64 of it exists but cannot be read. */
  lemma WrappingSizeExists(v: View, k: nat)
    requires 0 < k < v.size && v.addr + v.size < TWO_64
    ensures var m: Index := map[v.addr := v];
      Indexed(m, false) && ExistsRange(m, v.addr + k, TWO_64 - k) && Read(m, v.addr + k, TWO_64 - k).Failure?
  {
    hide Indexed, FindRegion;
    SingleRegionIndexed(v);
    RegionAt(map[v.addr := v], false, v, v.addr + k);
    WrapDifference(v.addr + k, TWO_64 - k, v.addr);
  }

  lemma HostToMappedInside(host: Index, v: View, offset: nat, n: nat)
    requires Indexed(host, true) && v.data in host && host[v.data] == v
    requires 0 < n && offset + n <= v.size && v.addr + v.size < TWO_64
    ensures HostToMapped(host, v.data + offset, n) == Success(v.addr + offset)
  {
    hide Indexed, FindRegion;
    RegionAt(host, true, v, v.data + offset);
  }

  lemma ReadInside(mapped: Index, v: View, offset: nat, n: nat)
    requires Indexed(mapped, false) && v.addr in mapped && mapped[v.addr] == v
    requires offset < v.size && offset + n <= v.size && v.data + v.size < TWO_64
    ensures Read(mapped, v.addr + offset, n) == Success(v.data + offset)
  {
    hide Indexed, FindRegion;
    RegionAt(mapped, false, v, v.addr + offset);
  }

  lemma ReadFindsRegion(mapped: Index, a: nat, n: nat) returns (v: View)
    requires Indexed(mapped, false) && n < TWO_64 && Read(mapped, a, n).Success?
    ensures v in mapped.Values && v.addr <= a < v.addr + v.size && a + n <= v.addr + v.size
  {
    ReadIffContained(mapped, a, n);
    var k :| k in mapped && mapped[k].Contains(false, a) && a + n <= k + mapped[k].size;
    v := mapped[k];
  }

  lemma HostToMappedFindsRegion(host: Index, p: nat, n: nat) returns (v: View)
    requires Indexed(host, true) && HostToMapped(host, p, n).Success?
    requires forall k <- host :: (p - k) + n < TWO_64
    ensures v in host.Values && v.data <= p && p + n <= v.data + v.size && p < v.data + v.size
  {
    FindRefinesLinearSearch(host, true, p);
    v := FindRegion(host, true, p).value;
    assert v.data in host;
  }

  /** `host_to_mapped(&get(a)) == a` for every object that lies in a region. */
  lemma MappedToHostToMapped(mapped: Index, host: Index, a: nat, n: nat)
    requires Paired(mapped, host) && 0 < n < TWO_64
    requires Read(mapped, a, n).Success?
    ensures HostToMapped(host, Read(mapped, a, n).value, n) == Success(a)
  {
    hide *;
    PairedIsIndexed(mapped, host);
    var v := ReadFindsRegion(mapped, a, n);
    FiledOnBothSides(mapped, host, v);
    ReadInside(mapped, v, a - v.addr, n);
    HostToMappedInside(host, v, a - v.addr, n);
  }

  /** The inverse direction: the object found at a host address is read back from that host address. */
  lemma HostToMappedToHost(mapped: Index, host: Index, p: nat, n: nat)
    requires Paired(mapped, host) && 0 < n < TWO_64
    requires HostToMapped(host, p, n).Success? && (forall k <- host :: (p - k) + n < TWO_64)
    ensures Read(mapped, HostToMapped(host, p, n).value, n) == Success(p)
  {
    hide *;
    PairedIsIndexed(mapped, host);
    var v := HostToMappedFindsRegion(host, p, n);
    FiledOnBothSides(mapped, host, v);
    HostToMappedInside(host, v, p - v.data, n);
    ReadInside(mapped, v, p - v.data, n);
  }

  /** Distinct mapped addresses never share a host byte. */
  lemma DistinctMappedDistinctHost(mapped: Index, host: Index, a: nat, b: nat)
    requires Paired(mapped, host) && a != b
    requires Read(mapped, a, 1).Success? && Read(mapped, b, 1).Success?
    ensures Read(mapped, a, 1) != Read(mapped, b, 1)
  {
    MappedToHostToMapped(mapped, host, a, 1);
    MappedToHostToMapped(mapped, host, b, 1);
  }

  predicate Apart(v: View, w: View, host: bool) {
    v.Base(host) + v.size <= w.Base(host) || w.Base(host) + w.size <= v.Base(host)
  }

  function Elements(vs: seq<View>): set<View> { set v | v in vs }

  /** Views that may be filed together: non-empty, below 2^64 and pairwise disjoint on the chosen side. */
  ghost predicate Separate(vs: seq<View>, host: bool) {
    && (forall v <- vs :: v.size > 0 && v.Base(host) + v.size < TWO_64)
    && (forall i, j | 0 <= i < j < |vs| :: Apart(vs[i], vs[j], host))
  }

  lemma NewKeyAddsValue(m: Index, k: nat, v: View)
    requires k !in m
    ensures m[k := v].Values == m.Values + {v}
  {
    var m' := m[k := v];
    forall w | w in m.Values ensures w in m'.Values {
      var j :| j in m && m[j] == w;
      assert m'[j] == w;
    }
    assert m'[k] == v;
  }

  lemma EmplaceApart(m: Index, host: bool, v: View)
    requires Indexed(m, host) && v.size > 0 && v.Base(host) + v.size < TWO_64
    requires forall w <- m.Values :: Apart(w, v, host)
    ensures v.Base(host) !in m && Indexed(m[v.Base(host) := v], host)
  {
    forall k | k in m ensures k + m[k].size <= v.Base(host) || v.Base(host) + v.size <= k {
      assert Apart(m[k], v, host);
    }
  }

  lemma LastIsApart(vs: seq<View>, host: bool, filed: set<View>)
    requires Separate(vs, host) && vs != [] && filed == Elements(vs[..|vs| - 1])
    ensures vs[|vs| - 1].size > 0 && vs[|vs| - 1].Base(host) + vs[|vs| - 1].size < TWO_64
    ensures forall v <- filed :: Apart(v, vs[|vs| - 1], host)
  {
    forall v | v in filed
      ensures Apart(v, vs[|vs| - 1], host)
    {
      var i :| 0 <= i < |vs| - 1 && vs[..|vs| - 1][i] == v;
      assert vs[i] == v;
    }
  }

  lemma ElementsLast(vs: seq<View>)
    requires vs != []
    ensures Elements(vs) == Elements(vs[..|vs| - 1]) + {vs[|vs| - 1]}
  {
    assert vs == vs[..|vs| - 1] + [vs[|vs| - 1]];
  }

  lemma SeparatePrefix(vs: seq<View>, host: bool)
    requires Separate(vs, host) && vs != []
    ensures Separate(vs[..|vs| - 1], host)
  {
  }

  /** Filing separate views loses none of them and yields an index the lookups above are correct for. */
  lemma {:induction false} SeparateViewsIndexed(vs: seq<View>, host: bool)
    requires Separate(vs, host)
    ensures Indexed(IndexOf(vs, host), host)
    ensures IndexOf(vs, host).Values == Elements(vs)
  {
    hide Separate, Indexed, Elements, Apart;
    if vs == [] {
      EmptyIsIndexed(host);
    } else {
      var init, last := vs[..|vs| - 1], vs[|vs| - 1];
      SeparatePrefix(vs, host);
      SeparateViewsIndexed(init, host);
      var m := IndexOf(init, host);
      LastIsApart(vs, host, m.Values);
      ElementsLast(vs);
      EmplaceApart(m, host, last);
      NewKeyAddsValue(m, last.Base(host), last);
    }
  }

  lemma EmptyIsIndexed(host: bool)
    ensures Indexed(IndexOf([], host), host) && IndexOf([], host).Values == Elements([])
  {
  }
}
