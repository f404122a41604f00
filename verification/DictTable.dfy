/** Dict decoding: the index table of 1, 2, 4 or 8-byte slots, the items in slot order, and lookup by key text. */
module DictTable {
  import opened Wrappers
  import opened Bytes
  import opened Positions

  /** bytes_per_table_value. */
  function Width(dkSize: nat): (w: nat)
    ensures w in {1, 2, 4, 8}
  {
    if dkSize < 0x100 then 1 else if dkSize < 0x10000 then 2 else if dkSize < 0x1_0000_0000 then 4 else 8
  }

  /** The width is the least of the four whose unsigned values reach the size, or the largest of them. */
  lemma WidthIsLeast(dkSize: nat, w: nat)
    requires w in {1, 2, 4, 8}
    ensures Width(dkSize) == w <==> (dkSize < Pow(256, w) || w == 8) && (w > 1 ==> dkSize >= Pow(256, w / 2))
  {
    PowValues();
  }

  /** The range of a signed integer of `w` bytes. */
  predicate Fits(w: nat, v: int) { -(Pow(256, w) as int) <= 2 * v < Pow(256, w) }

  /** The unsigned value with the same `w` bytes. */
  function ToUnsigned(w: nat, v: int): (u: nat)
    requires Fits(w, v)
    ensures u < Pow(256, w) && Signed(w, u) == v
  {
    if v < 0 then v + Pow(256, w) else v
  }

  /** The slots of a table, as get_table reads them. */
  function Slots(bytes: seq<byte>, w: nat): (r: seq<int>)
    requires w > 0
    decreases |bytes|
  {
    if |bytes| < w then []
    else [Signed(w, FromLittleEndian(bytes[..w]))] + Slots(bytes[w..], w)
  }

  /** The table an interpreter with `w`-byte slots stores. */
  function WriteSlots(slots: seq<int>, w: nat): seq<byte>
    requires forall v <- slots :: Fits(w, v)
  {
    if slots == [] then [] else LittleEndian(w, ToUnsigned(w, slots[0])) + WriteSlots(slots[1..], w)
  }

  /** Reading a written table gives back every slot, for every width. */
  lemma {:induction false} SlotsRoundTrip(slots: seq<int>, w: nat)
    requires w > 0 && forall v <- slots :: Fits(w, v)
    ensures Slots(WriteSlots(slots, w), w) == slots
  {
    hide Fits, ToUnsigned, LittleEndian, FromLittleEndian, Signed;
    if slots != [] {
      var first, rest := LittleEndian(w, ToUnsigned(w, slots[0])), WriteSlots(slots[1..], w);
      LittleEndianRoundTrip(w, ToUnsigned(w, slots[0]));
      SlotsRoundTrip(slots[1..], w);
      assert (first + rest)[..w] == first && (first + rest)[w..] == rest;
      assert slots == [slots[0]] + slots[1..];
    }
  }

  /** Slot `i` is the signed little-endian value of its own bytes. */
  lemma {:induction false} SlotAt(bytes: seq<byte>, w: nat, i: nat)
    requires w in {1, 2, 4, 8} && w * i + w <= |bytes|
    ensures i < |Slots(bytes, w)| && Slots(bytes, w)[i] == Signed(w, FromLittleEndian(bytes[w * i..w * i + w]))
    decreases i
  {
    hide FromLittleEndian, Signed;
    if i == 0 {
      assert bytes[w * 0..w * 0 + w] == bytes[..w];
    } else {
      var at := w * (i - 1);
      assert w * i == at + w;
      SlotAt(bytes[w..], w, i - 1);
      SliceOfSuffix(bytes, w, at, at + w);
    }
  }

  lemma {:induction false} SlotCount(bytes: seq<byte>, w: nat, n: nat)
    requires w in {1, 2, 4, 8} && |bytes| == w * n
    ensures |Slots(bytes, w)| == n
    decreases n
  {
    hide FromLittleEndian, Signed;
    if n > 0 {
      assert w * n == w * (n - 1) + w;
      SlotCount(bytes[w..], w, n - 1);
    }
  }

  /** One signed little-endian value for each slot, in order. */
  predicate IsTable(table: seq<int>, bytes: seq<byte>, w: nat, n: nat) {
    && |table| == n
    && (forall i: nat | i < n :: w * i + w <= |bytes|)
    && (forall i: nat | i < n :: table[i] == Signed(w, FromLittleEndian(bytes[w * i..w * i + w])))
  }

  /** get_table: `bytes` is the table as it lies in memory, a whole number of slots. */
  method GetTable(bytes: seq<byte>, dkSize: nat) returns (table: seq<int>)
    requires |bytes| == Width(dkSize) * dkSize
    ensures table == Slots(bytes, Width(dkSize)) && IsTable(table, bytes, Width(dkSize), dkSize)
  {
    hide Slots, FromLittleEndian, Signed, IsTable;
    var w := Width(dkSize);
    table := [];
    var pos := 0;
    ghost var read := 0;
    SlotsFromStart(bytes, w);
    while pos < |bytes|
      invariant pos == w * read <= |bytes|
      invariant table + Slots(bytes[pos..], w) == Slots(bytes, w)
    {
      WholeSlotLeft(w, read, dkSize);
      SlotsStep(bytes, pos, w);
      ghost var before := table;
      if w == 1 {
        table := table + [Signed(1, FromLittleEndian(bytes[pos..pos + 1]))];
      } else if w == 2 {
        table := table + [Signed(2, FromLittleEndian(bytes[pos..pos + 2]))];
      } else if w == 4 {
        table := table + [Signed(4, FromLittleEndian(bytes[pos..pos + 4]))];
      } else {
        table := table + [Signed(8, FromLittleEndian(bytes[pos..pos + 8]))];
      }
      assert table + Slots(bytes[pos + w..], w) == before + Slots(bytes[pos..], w);
      pos, read := pos + w, read + 1;
    }
    SlotsAtEnd(bytes, w);
    AllSlots(bytes, w, dkSize);
  }

  lemma AllSlots(bytes: seq<byte>, w: nat, n: nat)
    requires w in {1, 2, 4, 8} && |bytes| == w * n
    ensures IsTable(Slots(bytes, w), bytes, w, n)
  {
    hide Slots, FromLittleEndian, Signed;
    SlotCount(bytes, w, n);
    forall i: nat | i < n
      ensures w * i + w <= |bytes| && Slots(bytes, w)[i] == Signed(w, FromLittleEndian(bytes[w * i..w * i + w]))
    {
      WholeSlotLeft(w, i, n);
      SlotAt(bytes, w, i);
    }
  }

  lemma WholeSlotLeft(w: nat, read: nat, n: nat)
    requires w in {1, 2, 4, 8} && w * read < w * n
    ensures w * read + w <= w * n
  {
  }

  lemma SlotsFromStart(bytes: seq<byte>, w: nat)
    requires w > 0
    ensures [] + Slots(bytes[0..], w) == Slots(bytes, w)
  {
    assert bytes[0..] == bytes;
  }

  lemma SlotsStep(bytes: seq<byte>, pos: nat, w: nat)
    requires w > 0 && pos + w <= |bytes|
    ensures Slots(bytes[pos..], w) == [Signed(w, FromLittleEndian(bytes[pos..pos + w]))] + Slots(bytes[pos + w..], w)
  {
    hide FromLittleEndian, Signed;
    assert bytes[pos..][..w] == bytes[pos..pos + w] && bytes[pos..][w..] == bytes[pos + w..];
  }

  lemma SlotsAtEnd(bytes: seq<byte>, w: nat)
    requires w > 0
    ensures Slots(bytes[|bytes|..], w) == []
  {
  }

  /** The interpreter's limit on entries: two thirds of the table. */
  function Usable(dkSize: nat): nat { 2 * dkSize / 3 }

  /** Every index a table of this size can hold, from the two markers -1 and -2 to the last entry. */
  predicate IndexInTable(dkSize: nat, v: int) { -2 <= v < Usable(dkSize) }

  predicate RoomyWidth(dkSize: nat) {
    || dkSize <= 193
    || 0x100 <= dkSize <= 49153
    || 0x10000 <= dkSize <= 3221225473
    || 0x1_0000_0000 <= dkSize <= 13835058055282163713
  }

  /** The exact sizes for which the width rule leaves room for every index. */
  lemma WidthSufficesIff(dkSize: nat)
    ensures (forall v: int :: IndexInTable(dkSize, v) ==> Fits(Width(dkSize), v)) <==> RoomyWidth(dkSize)
  {
    PowValues();
    var top := Usable(dkSize) - 1;
    if top >= -2 { assert IndexInTable(dkSize, top); }
  }

  predicate PowerOfTwo(n: nat) { n == 1 || (n > 1 && n % 2 == 0 && PowerOfTwo(n / 2)) }

  lemma {:induction false} PowerOfTwoGap(n: nat, limit: nat)
    requires PowerOfTwo(n) && PowerOfTwo(limit) && n < limit
    ensures 2 * n <= limit
  {
    if n > 1 { PowerOfTwoGap(n / 2, limit / 2); }
  }

  /** Power-of-two tables, the only ones an interpreter makes, are written and read back without loss. */
  lemma PowerOfTwoTableRoundTrip(dkSize: nat, slots: seq<int>)
    requires PowerOfTwo(dkSize) && dkSize < TWO_64 / 2
    requires |slots| == dkSize && forall v <- slots :: IndexInTable(dkSize, v)
    ensures forall v <- slots :: Fits(Width(dkSize), v)
    ensures Slots(WriteSlots(slots, Width(dkSize)), Width(dkSize)) == slots
  {
    PowerOfTwoFits(dkSize);
    SlotsRoundTrip(slots, Width(dkSize));
  }

  lemma PowerOfTwoFits(dkSize: nat)
    requires PowerOfTwo(dkSize) && dkSize < TWO_64 / 2
    ensures forall v: int :: IndexInTable(dkSize, v) ==> Fits(Width(dkSize), v)
  {
    PowersOfTwo();
    if dkSize < 0x100 { PowerOfTwoGap(dkSize, 0x100); }
    else if dkSize < 0x10000 { PowerOfTwoGap(dkSize, 0x10000); }
    else if dkSize < 0x1_0000_0000 { PowerOfTwoGap(dkSize, 0x1_0000_0000); }
    WidthSufficesIff(dkSize);
  }

  lemma PowersOfTwo()
    ensures PowerOfTwo(0x100) && PowerOfTwo(0x10000) && PowerOfTwo(0x1_0000_0000)
  {
    hide PowerOfTwo;
    assert PowerOfTwo(1) by { Doubled(0); }
    TimesSixteenPower(1);
    TimesSixteenPower(0x10);
    TimesSixteenPower(0x100);
    TimesSixteenPower(0x1000);
    TimesSixteenPower(0x10000);
    TimesSixteenPower(0x100000);
    TimesSixteenPower(0x1000000);
    TimesSixteenPower(0x10000000);
  }

  lemma Doubled(n: nat)
    ensures PowerOfTwo(1) && (PowerOfTwo(n) && n > 0 ==> PowerOfTwo(2 * n))
  {
  }

  lemma TimesSixteenPower(n: nat)
    requires PowerOfTwo(n) && n > 0
    ensures PowerOfTwo(16 * n)
  {
    hide PowerOfTwo;
    Doubled(n);
    Doubled(2 * n);
    Doubled(4 * n);
    Doubled(8 * n);
  }

  // ---- Items ----

  const ENTRY_SIZE: nat := 24
  const VALUE_SIZE: nat := 8

  datatype KeyEntry = KeyEntry(hash: nat, key: nat, value: nat)

  type Item = (nat, nat)

  /** An eight-byte field, or nothing when it lies beyond the end. */
  function Field(bytes: seq<byte>, at: nat): Option<nat> {
    if at + 8 <= |bytes| then Some(FromLittleEndian(bytes[at..at + 8])) else None
  }

  /** The item slot value `v` stands for; `values` is empty for a combined table. */
  function ItemAt(entries: seq<byte>, values: seq<byte>, v: nat): Option<Item> {
    if v * ENTRY_SIZE + ENTRY_SIZE > |entries| then None
    else
      var key := Field(entries, v * ENTRY_SIZE + 8);
      var value := if |values| > 0 then Field(values, v * VALUE_SIZE) else Field(entries, v * ENTRY_SIZE + 16);
      if key.Some? && value.Some? then Some((key.value, value.value)) else None
  }

  /** A slot has an item if its entry, and its split value if there are any, lie inside the bytes. */
  lemma ItemAtIff(entries: seq<byte>, values: seq<byte>, v: nat)
    ensures ItemAt(entries, values, v).Some?
      <==> 24 * v + 24 <= |entries| && (|values| > 0 ==> 8 * v + 8 <= |values|)
  {
  }

  /** Exactly the slots that hold an entry, in slot order. */
  ghost predicate ActiveAt(table: seq<int>, idx: seq<nat>) {
    Ascending(idx) && forall i: nat :: i in idx <==> i < |table| && table[i] >= 0
  }

  lemma NextSlot(table: seq<int>, i: nat, idx: seq<nat>) returns (next: seq<nat>)
    requires i < |table| && ActiveAt(table[..i], idx)
    ensures next == idx + (if table[i] >= 0 then [i] else []) && ActiveAt(table[..i + 1], next)
  {
    assert forall k: nat | k < i :: table[..i + 1][k] == table[..i][k];
    next := Extended(idx, i, table[i] >= 0);
  }

  lemma {:induction false} RestOfSlots(table: seq<int>, i: nat, idx: seq<nat>) returns (all: seq<nat>)
    requires i <= |table| && ActiveAt(table[..i], idx)
    ensures idx <= all && ActiveAt(table, all)
    decreases |table| - i
  {
    if i == |table| {
      assert table[..i] == table;
      all := idx;
    } else {
      var next := NextSlot(table, i, idx);
      all := RestOfSlots(table, i + 1, next);
    }
  }

  /** The active slots are determined by the table. */
  lemma {:induction false} ActiveIsUnique(table: seq<int>, idx: seq<nat>, other: seq<nat>)
    requires ActiveAt(table, idx) && ActiveAt(table, other)
    ensures idx == other
  {
    SameMembers(idx, other);
  }

  /** The pairs of the active slots, which are those at `idx`. */
  ghost predicate AreItems(items: seq<Item>, table: seq<int>, idx: seq<nat>, entries: seq<byte>, values: seq<byte>) {
    && ActiveAt(table, idx) && |items| == |idx|
    && forall k | 0 <= k < |idx| ::
         idx[k] < |table| && table[idx[k]] >= 0 && ItemAt(entries, values, table[idx[k]]) == Some(items[k])
  }

  /** The first items of the active slots, up to the limit, each one decoded or a placeholder. */
  ghost predicate AreShown(
    shown: seq<Option<Item>>, table: seq<int>, idx: seq<nat>, entries: seq<byte>, values: seq<byte>, maxEntries: int) {
    && ActiveAt(table, idx) && |shown| == (if 0 <= maxEntries < |idx| then maxEntries else |idx|)
    && forall k | 0 <= k < |shown| ::
         idx[k] < |table| && table[idx[k]] >= 0 && shown[k] == ItemAt(entries, values, table[idx[k]])
  }

  /** get_items, given the table and the two byte ranges read from memory. */
  method GetItems(table: seq<int>, entries: seq<byte>, values: seq<byte>) returns (r: Result<seq<Item>>)
    ensures r.Success? <==>
      forall i: nat | i < |table| && table[i] >= 0 :: ItemAt(entries, values, table[i]).Some?
    ensures r.Success? ==> exists idx :: AreItems(r.value, table, idx, entries, values)
    ensures r.Failure? ==> r.fault == OutOfRange
  {
    hide ItemAt;
    var ret: seq<Item> := [];
    ghost var idx: seq<nat> := [];
    for i := 0 to |table|
      invariant ActiveAt(table[..i], idx) && |ret| == |idx|
      invariant forall k: nat | k < i && table[k] >= 0 :: ItemAt(entries, values, table[k]).Some?
      invariant forall k | 0 <= k < |idx| ::
        idx[k] < i && table[idx[k]] >= 0 && ItemAt(entries, values, table[idx[k]]) == Some(ret[k])
    {
      ghost var next := NextSlot(table, i, idx);
      if table[i] >= 0 {
        var item := ItemAt(entries, values, table[i]);
        if item.None? { return Failure(OutOfRange); }
        ret := ret + [item.value];
      }
      idx := next;
    }
    assert table[..|table|] == table;
    assert AreItems(ret, table, idx, entries, values);
    return Success(ret);
  }

  /** The decode loop of repr: an unreadable entry becomes a placeholder and the loop stops at `maxEntries` entries. The
      caller's check of the dict has read all items by then, so from there no placeholder is ever printed. */
  method ReprItems(table: seq<int>, entries: seq<byte>, values: seq<byte>, maxEntries: int)
    returns (shown: seq<Option<Item>>, hasExtra: bool)
    ensures exists idx ::
      AreShown(shown, table, idx, entries, values, maxEntries) && (hasExtra <==> 0 <= maxEntries < |idx|)
  {
    hide ItemAt;
    shown, hasExtra := [], false;
    ghost var idx: seq<nat> := [];
    for i := 0 to |table|
      invariant ActiveAt(table[..i], idx) && |shown| == |idx| && !hasExtra
      invariant maxEntries >= 0 ==> |shown| <= maxEntries
      invariant forall k | 0 <= k < |idx| ::
        idx[k] < i && table[idx[k]] >= 0 && shown[k] == ItemAt(entries, values, table[idx[k]])
    {
      ghost var next := NextSlot(table, i, idx);
      if table[i] < 0 {
        idx := next;
        continue;
      }
      if maxEntries >= 0 && |shown| >= maxEntries {
        hasExtra := true;
        ghost var all := RestOfSlots(table, i + 1, next);
        assert idx <= all && |idx| < |all|;
        assert AreShown(shown, table, all, entries, values, maxEntries);
        return;
      }
      shown := shown + [ItemAt(entries, values, table[i])];
      idx := next;
    }
    assert table[..|table|] == table;
    assert AreShown(shown, table, idx, entries, values, maxEntries);
  }

  /** Without an entry limit, repr shows no placeholder exactly when get_items succeeds, and then the same pairs. */
  lemma ReprDecodesItems(
    table: seq<int>, entries: seq<byte>, values: seq<byte>, idx: seq<nat>, items: seq<Item>, shown: seq<Option<Item>>)
    requires AreShown(shown, table, idx, entries, values, -1)
    ensures (forall i: nat | i < |table| && table[i] >= 0 :: ItemAt(entries, values, table[i]).Some?)
      <==> (forall item <- shown :: item.Some?)
    ensures AreItems(items, table, idx, entries, values)
      <==> |items| == |shown| && forall k | 0 <= k < |shown| :: shown[k] == Some(items[k])
  {
    hide ItemAt;
    forall i: nat | i < |table| && table[i] >= 0
      ensures exists k :: 0 <= k < |shown| && shown[k] == ItemAt(entries, values, table[i])
    {
      assert i in idx;
      var k :| 0 <= k < |idx| && idx[k] == i;
      assert shown[k] == ItemAt(entries, values, table[i]);
    }
    forall k | 0 <= k < |shown| ensures shown[k] in shown { }
  }

  // ---- Entries as the interpreter writes them ----

  predicate Words(es: seq<KeyEntry>) {
    forall i | 0 <= i < |es| :: es[i].hash < TWO_64 && es[i].key < TWO_64 && es[i].value < TWO_64
  }

  function WriteEntry(e: KeyEntry): (s: seq<byte>)
    ensures |s| == ENTRY_SIZE
  {
    LittleEndian(8, e.hash) + LittleEndian(8, e.key) + LittleEndian(8, e.value)
  }

  function WriteEntries(es: seq<KeyEntry>): (s: seq<byte>)
    ensures |s| == ENTRY_SIZE * |es|
  {
    if es == [] then [] else WriteEntry(es[0]) + WriteEntries(es[1..])
  }

  function WriteValues(vs: seq<nat>): (s: seq<byte>)
    ensures |s| == VALUE_SIZE * |vs|
  {
    if vs == [] then [] else LittleEndian(8, vs[0]) + WriteValues(vs[1..])
  }

  lemma {:induction false} EntryBytes(es: seq<KeyEntry>, v: nat)
    requires v < |es|
    ensures WriteEntries(es)[ENTRY_SIZE * v..ENTRY_SIZE * v + ENTRY_SIZE] == WriteEntry(es[v])
  {
    hide WriteEntry;
    if v > 0 {
      EntryBytes(es[1..], v - 1);
      SliceOfSuffix(WriteEntries(es), ENTRY_SIZE, ENTRY_SIZE * (v - 1), ENTRY_SIZE * (v - 1) + ENTRY_SIZE);
      assert WriteEntries(es)[ENTRY_SIZE..] == WriteEntries(es[1..]);
    }
  }

  lemma {:induction false} ValueBytes(vs: seq<nat>, v: nat)
    requires v < |vs|
    ensures WriteValues(vs)[VALUE_SIZE * v..VALUE_SIZE * v + VALUE_SIZE] == LittleEndian(8, vs[v])
  {
    hide LittleEndian;
    if v > 0 {
      ValueBytes(vs[1..], v - 1);
      SliceOfSuffix(WriteValues(vs), VALUE_SIZE, VALUE_SIZE * (v - 1), VALUE_SIZE * (v - 1) + VALUE_SIZE);
      assert WriteValues(vs)[VALUE_SIZE..] == WriteValues(vs[1..]);
    }
  }

  lemma EntryFields(e: KeyEntry)
    requires e.hash < TWO_64 && e.key < TWO_64 && e.value < TWO_64
    ensures FromLittleEndian(WriteEntry(e)[..8]) == e.hash
    ensures FromLittleEndian(WriteEntry(e)[8..16]) == e.key && FromLittleEndian(WriteEntry(e)[16..24]) == e.value
  {
    hide LittleEndian, FromLittleEndian, Pow;
    PowValues();
    LittleEndianRoundTrip(8, e.hash);
    LittleEndianRoundTrip(8, e.key);
    LittleEndianRoundTrip(8, e.value);
    assert WriteEntry(e)[..8] == LittleEndian(8, e.hash);
    assert WriteEntry(e)[8..16] == LittleEndian(8, e.key);
    assert WriteEntry(e)[16..24] == LittleEndian(8, e.value);
  }

  predicate IsSplitOf(split: seq<nat>, es: seq<KeyEntry>) {
    split == [] || (|split| == |es| && forall i | 0 <= i < |split| :: split[i] < TWO_64)
  }

  /** The pair entry `v` stands for: the value is the split value if there are any and the entry's own otherwise. */
  function PairOf(es: seq<KeyEntry>, split: seq<nat>, v: nat): Item
    requires v < |es| && IsSplitOf(split, es)
  {
    (es[v].key, if split == [] then es[v].value else split[v])
  }

  /** A slot of a written dict: the key of its entry, with the value from the split table if there is one. */
  lemma WrittenItem(es: seq<KeyEntry>, split: seq<nat>, v: nat)
    requires Words(es) && v < |es| && IsSplitOf(split, es)
    ensures ItemAt(WriteEntries(es), WriteValues(split), v) == Some(PairOf(es, split, v))
  {
    hide WriteEntries, WriteValues, WriteEntry, FromLittleEndian, LittleEndian, Pow;
    var entries, at := WriteEntries(es), ENTRY_SIZE * v;
    EntryBytes(es, v);
    EntryFields(es[v]);
    SliceOfSlice(entries, at, at + ENTRY_SIZE, 8, 16);
    SliceOfSlice(entries, at, at + ENTRY_SIZE, 16, 24);
    if split != [] {
      PowValues();
      ValueBytes(split, v);
      LittleEndianRoundTrip(8, split[v]);
    }
  }

  /** Decoding a written dict, combined or split: one pair for every non-negative slot, in slot order. */
  lemma WrittenDictItems(es: seq<KeyEntry>, split: seq<nat>, table: seq<int>, idx: seq<nat>, items: seq<Item>)
    requires Words(es) && IsSplitOf(split, es) && ActiveAt(table, idx)
    requires forall i | 0 <= i < |table| :: table[i] < |es|
    ensures forall i: nat | i < |table| && table[i] >= 0 ::
      ItemAt(WriteEntries(es), WriteValues(split), table[i]) == Some(PairOf(es, split, table[i]))
    ensures AreItems(items, table, idx, WriteEntries(es), WriteValues(split)) <==>
      |items| == |idx| && forall k | 0 <= k < |idx| ::
        idx[k] < |table| && table[idx[k]] >= 0 && items[k] == PairOf(es, split, table[idx[k]])
  {
    hide ItemAt, WriteEntries, WriteValues, Words;
    forall i: nat | i < |table| && table[i] >= 0
      ensures ItemAt(WriteEntries(es), WriteValues(split), table[i]) == Some(PairOf(es, split, table[i]))
    {
      WrittenItem(es, split, table[i]);
    }
    forall k | 0 <= k < |idx| ensures idx[k] < |table| && table[idx[k]] >= 0 { assert idx[k] in idx; }
  }

  // ---- Lookup ----

  /** What decoding a key object as a string gives; `InvalidObject` is the one failure that lookup skips. */
  type KeyText = nat -> Result<string>

  /** The first key whose text matches; an undecodable key is passed over, any other failure ends the search. */
  function Search(items: seq<Item>, text: KeyText, key: string): Result<nat> {
    if items == [] then Failure(OutOfRange)
    else match text(items[0].0)
      case Success(t) => if t == key then Success(items[0].1) else Search(items[1..], text, key)
      case Failure(InvalidObject) => Search(items[1..], text, key)
      case Failure(f) => Failure(f)
  }

  /** value_for_key over the items get_items returned. */
  method ValueForKey(items: seq<Item>, text: KeyText, key: string) returns (r: Result<nat>)
    ensures r == Search(items, text, key)
  {
    for i := 0 to |items|
      invariant Search(items, text, key) == Search(items[i..], text, key)
    {
      assert items[i..][1..] == items[i + 1..];
      match text(items[i].0) {
        case Success(t) => if t == key { return Success(items[i].1); }
        case Failure(f) => if f != InvalidObject { return Failure(f); }
      }
    }
    return Failure(OutOfRange);
  }

  /** The mapping a dict represents by the texts of its decodable keys. */
  function AsMap(items: seq<Item>, text: KeyText): map<string, nat> {
    if items == [] then map[]
    else
      var rest := AsMap(items[..|items| - 1], text);
      match text(items[|items| - 1].0)
      case Success(t) => rest[t := items[|items| - 1].1]
      case Failure(_) => rest
  }

  /** A key that is passed over: undecodable, or of another text. */
  predicate Skipped(item: Item, text: KeyText, key: string) {
    match text(item.0)
    case Success(t) => t != key
    case Failure(f) => f == InvalidObject
  }

  /** Where the search ends: at the first key that is not passed over, or behind the last one. */
  predicate StopsAt(items: seq<Item>, text: KeyText, key: string, i: nat) {
    && i <= |items| && (forall j | 0 <= j < i :: Skipped(items[j], text, key))
    && (i < |items| ==> !Skipped(items[i], text, key))
  }

  /** The search yields the value of the first key with this text, unless an earlier one fails in another way. */
  lemma {:induction false} SearchStops(items: seq<Item>, text: KeyText, key: string) returns (i: nat)
    ensures StopsAt(items, text, key, i)
    ensures Search(items, text, key)
         == if i == |items| then Failure(OutOfRange)
            else if text(items[i].0) == Success(key) then Success(items[i].1)
            else Failure(text(items[i].0).fault)
  {
    i := 0;
    if items != [] && Skipped(items[0], text, key) {
      i := SearchStops(items[1..], text, key);
      i := i + 1;
    }
  }

  /** Keys are strings or cannot be decoded, and no two of them have the same text. */
  predicate DistinctTexts(items: seq<Item>, text: KeyText) {
    && (forall i | 0 <= i < |items| :: text(items[i].0).Success? || text(items[i].0) == Failure(InvalidObject))
    && (forall i, j | 0 <= i < j < |items| && text(items[i].0).Success? :: text(items[i].0) != text(items[j].0))
  }

  lemma {:induction false} AsMapFront(items: seq<Item>, text: KeyText)
    requires DistinctTexts(items, text) && items != []
    ensures AsMap(items, text)
         == match text(items[0].0)
            case Success(t) => AsMap(items[1..], text)[t := items[0].1]
            case Failure(_) => AsMap(items[1..], text)
  {
    var n := |items| - 1;
    if n == 0 {
      assert AsMap(items[..0], text) == map[] && AsMap(items[1..], text) == map[];
    } else {
      AsMapFront(items[..n], text);
      assert items[..n][1..] == items[1..][..n - 1] && items[1..][n - 1] == items[n];
      assert text(items[0].0).Success? ==> text(items[0].0) != text(items[n].0);
    }
  }

  /** With distinct texts, lookup is map lookup: the mapped value, or the missing-key exception. */
  lemma {:induction false} SearchIsMapLookup(items: seq<Item>, text: KeyText, key: string)
    requires DistinctTexts(items, text)
    ensures Search(items, text, key)
         == if key in AsMap(items, text) then Success(AsMap(items, text)[key]) else Failure(OutOfRange)
  {
    hide AsMap;
    if items == [] {
      NoItems(text);
    } else {
      AsMapFront(items, text);
      SearchIsMapLookup(items[1..], text, key);
    }
  }

  lemma NoItems(text: KeyText)
    ensures AsMap([], text) == map[]
  {
  }
}
