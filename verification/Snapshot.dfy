/** The single-file snapshot: the writer's stream of headed regions and the loader's parser of it. */
module Snapshot {
  import opened Wrappers
  import opened Bytes
  import opened Positions

  const HEADER_SIZE := 16

  /** A region as the dump script read it. */
  datatype Entry = Entry(start: nat, data: seq<byte>) {
    predicate Representable() { start < TWO_64 && |data| < TWO_64 }
  }

  /** One entry: start address, end address (as 64-bit values) and the bytes between them. */
  function EncodeEntry(e: Entry): (s: seq<byte>)
    ensures |s| == HEADER_SIZE + |e.data|
  {
    LittleEndian(8, e.start) + LittleEndian(8, Wrap64(e.start + |e.data|)) + e.data
  }

  /** The sixteen header bytes, the start before the end and each with its low byte first, and the data behind them. */
  lemma EntryLayout(e: Entry, k: nat)
    requires e.start + |e.data| < TWO_64
    ensures |EncodeEntry(e)| == 16 + |e.data| && EncodeEntry(e)[16..] == e.data
    ensures k < 8 ==> EncodeEntry(e)[k] as int == e.start / Pow(256, k) % 256
    ensures k < 8 ==> EncodeEntry(e)[8 + k] as int == (e.start + |e.data|) / Pow(256, k) % 256
  {
    hide LittleEndian, Pow;
    if k < 8 {
      LittleEndianDigit(8, e.start, k);
      LittleEndianDigit(8, e.start + |e.data|, k);
    }
  }

  function EncodeAll(es: seq<Entry>): seq<byte> {
    if es == [] then [] else EncodeEntry(es[0]) + EncodeAll(es[1..])
  }

  lemma {:induction false} EncodeAllAppends(es: seq<Entry>, fs: seq<Entry>)
    ensures EncodeAll(es + fs) == EncodeAll(es) + EncodeAll(fs)
  {
    if es == [] {
      assert es + fs == fs;
    } else {
      assert (es + fs)[1..] == es[1..] + fs;
      EncodeAllAppends(es[1..], fs);
    }
  }

  /** The entry list a byte string holds, if it is a whole number of entries. */
  function ParseEntries(b: seq<byte>): Option<seq<Entry>>
    decreases |b|
  {
    if b == [] then Some([])
    else if |b| < HEADER_SIZE then None
    else
      var start, end := FromLittleEndian(b[..8]), FromLittleEndian(b[8..16]);
      var size := Wrap64(end - start);
      if HEADER_SIZE + size > |b| then None
      else match ParseEntries(b[HEADER_SIZE + size..])
           case Some(rest) => Some([Entry(start, b[HEADER_SIZE..HEADER_SIZE + size])] + rest)
           case None => None
  }

  lemma HeaderOf(e: Entry, tail: seq<byte>)
    requires e.Representable()
    ensures var b := EncodeEntry(e) + tail;
      && FromLittleEndian(b[..8]) == e.start
      && FromLittleEndian(b[8..16]) == Wrap64(e.start + |e.data|)
      && Wrap64(Wrap64(e.start + |e.data|) - e.start) == |e.data|
      && b[HEADER_SIZE..HEADER_SIZE + |e.data|] == e.data
      && b[HEADER_SIZE + |e.data|..] == tail
  {
    PowValues();
    var b := EncodeEntry(e) + tail;
    LittleEndianRoundTrip(8, e.start);
    LittleEndianRoundTrip(8, Wrap64(e.start + |e.data|));
    assert b[..8] == LittleEndian(8, e.start);
    assert b[8..16] == LittleEndian(8, Wrap64(e.start + |e.data|));
  }

  /** The parser undoes the writer. */
  lemma {:induction false} ParseUndoesEncode(es: seq<Entry>)
    requires forall e <- es :: e.Representable()
    ensures ParseEntries(EncodeAll(es)) == Some(es)
  {
    if es != [] {
      HeaderOf(es[0], EncodeAll(es[1..]));
      ParseUndoesEncode(es[1..]);
      assert es == [es[0]] + es[1..];
    }
  }

  lemma EncodeUndoesHeader(b: seq<byte>, start: nat, end: nat, size: nat)
    requires HEADER_SIZE + size <= |b| && size == Wrap64((end as int) - start)
    requires start == FromLittleEndian(b[..8]) && end == FromLittleEndian(b[8..16])
    ensures start < TWO_64
    ensures EncodeEntry(Entry(start, b[HEADER_SIZE..HEADER_SIZE + size])) == b[..HEADER_SIZE + size]
  {
    hide LittleEndian, FromLittleEndian, Pow;
    PowValues();
    LittleEndianOnto(b[..8]);
    LittleEndianOnto(b[8..16]);
    assert Wrap64(start + size) == end;
    assert b[..HEADER_SIZE + size] == b[..8] + b[8..16] + b[HEADER_SIZE..HEADER_SIZE + size];
  }

  /** The writer undoes the parser: whatever the loader accepts is a concatenation of encoded entries. */
  lemma {:induction false} EncodeUndoesParse(b: seq<byte>)
    requires |b| < TWO_64 && ParseEntries(b).Some?
    ensures forall e <- ParseEntries(b).value :: e.Representable()
    ensures EncodeAll(ParseEntries(b).value) == b
    decreases |b|
  {
    hide EncodeEntry, FromLittleEndian, Wrap64;
    if b != [] {
      var start: int, end: int := FromLittleEndian(b[..8]), FromLittleEndian(b[8..16]);
      var size := Wrap64(end - start);
      var e := Entry(start, b[HEADER_SIZE..HEADER_SIZE + size]);
      EncodeUndoesHeader(b, start, end, size);
      EncodeUndoesParse(b[HEADER_SIZE + size..]);
      var rest := ParseEntries(b[HEADER_SIZE + size..]).value;
      assert ParseEntries(b).value == [e] + rest;
      assert ([e] + rest)[1..] == rest;
      assert b == b[..HEADER_SIZE + size] + b[HEADER_SIZE + size..];
    }
  }

  lemma CutEntryAlone(e: Entry, cut: nat)
    requires e.Representable() && 0 < cut < |EncodeEntry(e)|
    ensures ParseEntries(EncodeEntry(e)[..cut]).None?
  {
    if cut >= HEADER_SIZE {
      HeaderOf(e, []);
      var whole, tail := EncodeEntry(e), EncodeEntry(e)[..cut];
      assert whole + [] == whole;
      assert tail[..8] == whole[..8] && tail[8..16] == whole[8..16];
    }
  }

  lemma ParseSkipsEntry(e: Entry, tail: seq<byte>)
    requires e.Representable()
    ensures ParseEntries(EncodeEntry(e) + tail).None? <==> ParseEntries(tail).None?
  {
    HeaderOf(e, tail);
  }

  /** A stream cut strictly inside an entry is rejected, whatever precedes that entry. */
  lemma {:induction false} CutEntryRejected(es: seq<Entry>, e: Entry, cut: nat)
    requires (forall f <- es :: f.Representable()) && e.Representable()
    requires 0 < cut < |EncodeEntry(e)|
    ensures ParseEntries(EncodeAll(es) + EncodeEntry(e)[..cut]).None?
  {
    hide ParseEntries, EncodeEntry;
    var tail := EncodeEntry(e)[..cut];
    if es == [] {
      assert EncodeAll(es) + tail == tail;
      CutEntryAlone(e, cut);
    } else {
      CutEntryRejected(es[1..], e, cut);
      assert EncodeAll(es) + tail == EncodeEntry(es[0]) + (EncodeAll(es[1..]) + tail);
      ParseSkipsEntry(es[0], EncodeAll(es[1..]) + tail);
    }
  }

  // ---- The writer ----

  /** A range that reaches the output: it could be read, and its bounds fit the header. */
  predicate Readable(range: (nat, nat), read: (nat, nat) -> Option<seq<byte>>) {
    match read(range.0, range.1)
    case Some(data) => range.0 + |data| < TWO_64
    case None => false
  }

  /** The entries are the captured ranges, each at its start with the bytes read there; `idx` says which, in order. */
  ghost predicate Captures(
    ranges: seq<(nat, nat)>, read: (nat, nat) -> Option<seq<byte>>, es: seq<Entry>, idx: seq<nat>) {
    && Ascending(idx) && |es| == |idx|
    && (forall i: nat :: i in idx <==> i < |ranges| && Readable(ranges[i], read))
    && (forall k | 0 <= k < |idx| :: idx[k] < |ranges|
          && es[k].start == ranges[idx[k]].0 && read(ranges[idx[k]].0, ranges[idx[k]].1) == Some(es[k].data))
  }

  lemma NextRange(
    ranges: seq<(nat, nat)>, read: (nat, nat) -> Option<seq<byte>>, i: nat, es: seq<Entry>, idx: seq<nat>)
    returns (es': seq<Entry>, idx': seq<nat>)
    requires i < |ranges| && Captures(ranges[..i], read, es, idx)
    ensures Captures(ranges[..i + 1], read, es', idx')
    ensures var data := read(ranges[i].0, ranges[i].1);
      EncodeAll(es')
      == if Readable(ranges[i], read) then EncodeAll(es) + EncodeEntry(Entry(ranges[i].0, data.value)) else EncodeAll(es)
  {
    hide EncodeEntry;
    es', idx' := es, idx;
    assert forall k | 0 <= k < i :: ranges[..i + 1][k] == ranges[..i][k];
    if Readable(ranges[i], read) {
      var e := Entry(ranges[i].0, read(ranges[i].0, ranges[i].1).value);
      idx' := Extended(idx, i, true);
      es' := es + [e];
      EncodeAllAppends(es, [e]);
      assert EncodeAll([e]) == EncodeEntry(e) + EncodeAll([]);
    }
  }

  lemma EntryParts(out: seq<byte>, start: nat, data: seq<byte>)
    requires start + |data| < TWO_64
    ensures out + LittleEndian(8, start) + LittleEndian(8, start + |data|) + data
         == out + EncodeEntry(Entry(start, data))
  {
    hide LittleEndian;
    var a, b := LittleEndian(8, start), LittleEndian(8, start + |data|);
    assert out + a + b + data == out + (a + b + data);
  }

  lemma NoRanges(ranges: seq<(nat, nat)>, read: (nat, nat) -> Option<seq<byte>>)
    ensures Captures(ranges[..0], read, [], []) && EncodeAll([]) == []
  {
  }

  lemma CapturedRepresentable(
    ranges: seq<(nat, nat)>, read: (nat, nat) -> Option<seq<byte>>, es: seq<Entry>, idx: seq<nat>)
    requires Captures(ranges, read, es, idx)
    ensures forall e <- es :: e.start + |e.data| < TWO_64
  {
    forall k | 0 <= k < |es| ensures es[k].start + |es[k].data| < TWO_64 {
      assert idx[k] in idx && Readable(ranges[idx[k]], read);
    }
  }

  /**
   * dump_memory's stream branch; `read` stands for seeking and reading the process memory, `None` for an exception. The
   * stream parses to one entry for every readable range, and to nothing else.
   */
  method DumpStream(ranges: seq<(nat, nat)>, read: (nat, nat) -> Option<seq<byte>>) returns (out: seq<byte>)
    ensures ParseEntries(out).Some? && out == EncodeAll(ParseEntries(out).value)
    ensures exists idx :: Captures(ranges, read, ParseEntries(out).value, idx)
  {
    hide Captures, ParseEntries, EncodeAll, EncodeEntry, LittleEndian;
    out := [];
    ghost var es: seq<Entry>, idx: seq<nat> := [], [];
    NoRanges(ranges, read);
    for i := 0 to |ranges|
      invariant Captures(ranges[..i], read, es, idx) && out == EncodeAll(es)
    {
      es, idx := NextRange(ranges, read, i, es, idx);
      var (start, end) := ranges[i];
      var data := read(start, end);
      if data.Some? {
        if start + |data.value| < TWO_64 {
          EntryParts(out, start, data.value);
          out := out + LittleEndian(8, start) + LittleEndian(8, start + |data.value|);
          out := out + data.value;
        }
      }
    }
    assert ranges[..|ranges|] == ranges;
    CapturedRepresentable(ranges, read, es, idx);
    ParseUndoesEncode(es);
  }
}
