/** The memory reader's two constructors: from a single-file snapshot and from a directory of region files. */
module Loader {
  import opened Wrappers
  import opened Bytes
  import opened Positions
  import opened Snapshot
  import opened Regions

  /** The views of a snapshot file mapped at host address `base`, for the entries that begin at `offset`. */
  function ViewsOf(es: seq<Entry>, base: nat, offset: nat): (vs: seq<View>)
    ensures |vs| == |es|
  {
    if es == [] then []
    else
      var first := View(es[0].start, base + offset + HEADER_SIZE, |es[0].data|);
      [first] + ViewsOf(es[1..], base, offset + HEADER_SIZE + first.size)
  }

  lemma {:induction false} ViewsOfAppends(es: seq<Entry>, e: Entry, base: nat, offset: nat)
    ensures ViewsOf(es + [e], base, offset)
      == ViewsOf(es, base, offset) + [View(e.start, base + offset + |EncodeAll(es)| + HEADER_SIZE, |e.data|)]
  {
    hide EncodeEntry, ParseEntries;
    if es == [] {
      assert es + [e] == [e];
    } else {
      var rest := es[1..];
      assert (es + [e])[1..] == rest + [e] && (es + [e])[0] == es[0];
      assert |EncodeAll(es)| == |EncodeEntry(es[0])| + |EncodeAll(rest)|;
      ViewsOfAppends(rest, e, base, offset + HEADER_SIZE + |es[0].data|);
    }
  }

  lemma EncodeAllLast(es: seq<Entry>, e: Entry)
    ensures EncodeAll(es + [e]) == EncodeAll(es) + EncodeEntry(e)
  {
    EncodeAllAppends(es, [e]);
    assert EncodeAll([e]) == EncodeEntry(e) + EncodeAll([]);
  }

  /** The loader's cursor invariant: `done` are the entries before `where`, the rest of the file decides the outcome. */
  ghost predicate ParsedUpTo(file: seq<byte>, where: nat, done: seq<Entry>) {
    && where <= |file| && file[..where] == EncodeAll(done)
    && (ParseEntries(file).Some? <==> ParseEntries(file[where..]).Some?)
    && (ParseEntries(file).Some? ==> ParseEntries(file).value == done + ParseEntries(file[where..]).value)
  }

  /** The entry whose header is at `where`, when the header is complete. */
  function SizeAt(file: seq<byte>, where: nat): nat
    requires where + HEADER_SIZE <= |file|
  {
    var start: int, end: int := FromLittleEndian(file[where..where + 8]), FromLittleEndian(file[where + 8..where + 16]);
    Wrap64(end - start)
  }

  lemma ParseStarts(file: seq<byte>, base: nat)
    ensures ParsedUpTo(file, 0, []) && ViewsOf([], base, 0) == []
  {
    assert file[0..] == file;
  }

  lemma ParseFinishes(file: seq<byte>, done: seq<Entry>)
    requires ParsedUpTo(file, |file|, done)
    ensures ParseEntries(file) == Some(done)
  {
    assert done + [] == done;
  }

  lemma ParseStops(file: seq<byte>, where: nat)
    requires where < |file|
    requires where + HEADER_SIZE > |file| || where + HEADER_SIZE + SizeAt(file, where) > |file|
    ensures ParseEntries(file[where..]).None?
  {
    var b := file[where..];
    if where + HEADER_SIZE <= |file| {
      assert b[..8] == file[where..where + 8] && b[8..16] == file[where + 8..where + 16];
    }
  }

  lemma ParseOneEntry(file: seq<byte>, where: nat, e: Entry)
    requires where + HEADER_SIZE <= |file|
    requires e.start == FromLittleEndian(file[where..where + 8]) && |e.data| == SizeAt(file, where)
    requires where + HEADER_SIZE + |e.data| <= |file|
    requires e.data == file[where + HEADER_SIZE..where + HEADER_SIZE + |e.data|]
    ensures var rest := ParseEntries(file[where + HEADER_SIZE + |e.data|..]);
      ParseEntries(file[where..]) == if rest.Some? then Some([e] + rest.value) else None
  {
    hide FromLittleEndian, LittleEndian, EncodeAll, EncodeEntry;
    var b := file[where..];
    SliceOfSuffix(file, where, 0, 8);
    SliceOfSuffix(file, where, 8, HEADER_SIZE);
    SliceOfSuffix(file, where, HEADER_SIZE, HEADER_SIZE + |e.data|);
    SliceOfSuffix(file, where, HEADER_SIZE + |e.data|, |b|);
    assert b[..8] == b[0..8] && b[HEADER_SIZE + |e.data|..] == b[HEADER_SIZE + |e.data|..|b|];
    assert file[where + HEADER_SIZE + |e.data|..] == file[where + HEADER_SIZE + |e.data|..|file|];
  }

  lemma EntryAt(file: seq<byte>, where: nat, e: Entry)
    requires where + HEADER_SIZE <= |file|
    requires e.start == FromLittleEndian(file[where..where + 8]) && |e.data| == SizeAt(file, where)
    requires where + HEADER_SIZE + |e.data| <= |file|
    requires e.data == file[where + HEADER_SIZE..where + HEADER_SIZE + |e.data|]
    ensures EncodeEntry(e) == file[where..where + HEADER_SIZE + |e.data|]
  {
    hide FromLittleEndian, LittleEndian, EncodeAll, EncodeEntry, ParseEntries;
    var b := file[where..];
    SliceOfSuffix(file, where, 0, 8);
    SliceOfSuffix(file, where, 8, HEADER_SIZE);
    SliceOfSuffix(file, where, HEADER_SIZE, HEADER_SIZE + |e.data|);
    SliceOfSuffix(file, where, 0, HEADER_SIZE + |e.data|);
    assert b[..8] == b[0..8] && b[..HEADER_SIZE + |e.data|] == b[0..HEADER_SIZE + |e.data|];
    EncodeUndoesHeader(b, e.start, FromLittleEndian(b[8..16]), |e.data|);
  }

  lemma ParseAdvances(file: seq<byte>, where: nat, done: seq<Entry>, e: Entry, next: nat)
    requires ParsedUpTo(file, where, done) && where + HEADER_SIZE + |e.data| == next <= |file|
    requires EncodeEntry(e) == file[where..next]
    requires var rest := ParseEntries(file[next..]);
      ParseEntries(file[where..]) == if rest.Some? then Some([e] + rest.value) else None
    ensures ParsedUpTo(file, next, done + [e])
  {
    hide ParseEntries, EncodeAll, EncodeEntry;
    assert file[..next] == file[..where] + file[where..next];
    var rest := ParseEntries(file[next..]);
    if rest.Some? {
      assert done + ([e] + rest.value) == done + [e] + rest.value;
    }
    EncodeAllLast(done, e);
  }

  /** A region file in a dump directory, mapped at host address `base`. */
  datatype RegionFile = RegionFile(name: string, contents: seq<byte>, base: nat)

  /** `phosg::split`: the pieces between the separators, at least one. */
  function Split(text: string, sep: char): (r: seq<string>)
    ensures r != []
  {
    if text == "" then [""]
    else
      var rest := Split(text[1..], sep);
      if text[0] == sep then [""] + rest else [[text[0]] + rest[0]] + rest[1..]
  }

  predicate IsRegionName(tokens: seq<string>) {
    |tokens| == 4 && tokens[0] == "mem" && tokens[3] == "bin"
  }

  /** The view a region file contributes: none if the name has another form or the file is empty. */
  function FileViews(f: RegionFile): Result<seq<View>> {
    var tokens := Split(f.name, '.');
    if !IsRegionName(tokens) then Success([])
    else match ParseHex(tokens[1])
         case Failure(e) => Failure(e)
         case Success(start) => Success(if f.contents == [] then [] else [View(start, f.base, |f.contents|)])
  }

  lemma {:induction false} SplitToken(token: string, rest: string)
    requires '.' !in token
    ensures Split(token, '.') == [token]
    ensures Split(token + "." + rest, '.') == [token] + Split(rest, '.')
  {
    if token == "" {
      assert token + "." + rest == "." + rest;
      assert ("." + rest)[1..] == rest;
    } else {
      var t := token[1..];
      SplitToken(t, rest);
      var whole := token + "." + rest;
      assert whole[1..] == t + "." + rest && whole[0] == token[0] && whole[0] != '.';
      assert [token[0]] + t == token;
      assert Split(whole, '.') == [[token[0]] + t] + Split(rest, '.');
    }
  }

  function Join(tokens: seq<string>, sep: char): string
    requires tokens != []
  {
    if |tokens| == 1 then tokens[0] else tokens[0] + [sep] + Join(tokens[1..], sep)
  }

  /** Splitting cuts the text at its separators and nowhere else. */
  lemma {:induction false} SplitJoins(text: string, sep: char)
    ensures Join(Split(text, sep), sep) == text && forall token <- Split(text, sep) :: sep !in token
  {
    if text != "" {
      var rest := Split(text[1..], sep);
      SplitJoins(text[1..], sep);
      if text[0] == sep {
        assert ([""] + rest)[1..] == rest;
      } else if |rest| > 1 {
        assert ([[text[0]] + rest[0]] + rest[1..])[1..] == rest[1..];
      }
    }
  }

  predicate RegionName(name: string, start: string, end: string) {
    '.' !in start && '.' !in end && name == "mem." + start + "." + end + ".bin"
  }

  lemma RegionTokens(name: string, start: string, end: string)
    requires RegionName(name, start, end)
    ensures Split(name, '.') == ["mem", start, end, "bin"]
  {
    hide Split;
    var tail1 := end + "." + "bin";
    var tail0 := start + "." + tail1;
    SplitToken("mem", tail0);
    SplitToken(start, tail1);
    SplitToken(end, "bin");
    SplitToken("bin", "");
    assert name == "mem" + "." + tail0;
  }

  lemma RegionNameOf(name: string)
    requires IsRegionName(Split(name, '.'))
    ensures RegionName(name, Split(name, '.')[1], Split(name, '.')[2])
  {
    hide Split;
    var tokens := Split(name, '.');
    SplitJoins(name, '.');
    assert tokens[1..][1..] == tokens[2..] && tokens[2..][1..] == tokens[3..];
    assert Join(tokens[2..], '.') == tokens[2] + "." + "bin";
    assert name == "mem" + "." + (tokens[1] + "." + (tokens[2] + "." + "bin"));
    assert tokens[1] in tokens && tokens[2] in tokens;
  }

  /** A file whose name is no region name is skipped, whatever it holds. */
  lemma OtherFileSkipped(f: RegionFile)
    requires forall start, end :: !RegionName(f.name, start, end)
    ensures FileViews(f) == Success([])
  {
    hide Split, RegionName;
    if IsRegionName(Split(f.name, '.')) { RegionNameOf(f.name); }
  }

  /** A region file is one region at the address its name begins with, if it is not empty; a bad address is thrown. */
  lemma RegionFileLoaded(f: RegionFile, start: string, end: string)
    requires RegionName(f.name, start, end)
    ensures FileViews(f) == match ParseHex(start)
      case Failure(e) => Failure(e)
      case Success(addr) => Success(if f.contents == [] then [] else [View(addr, f.base, |f.contents|)])
  {
    hide Split, ParseHex;
    RegionTokens(f.name, start, end);
  }

  function DirectoryViews(fs: seq<RegionFile>): Result<seq<View>> {
    if fs == [] then Success([])
    else match DirectoryViews(fs[..|fs| - 1])
         case Failure(e) => Failure(e)
         case Success(vs) => match FileViews(fs[|fs| - 1])
                             case Failure(e) => Failure(e)
                             case Success(last) => Success(vs + last)
  }

  lemma {:induction false} DirectoryFailurePersists(fs: seq<RegionFile>, i: nat)
    requires i <= |fs| && DirectoryViews(fs[..i]).Failure?
    ensures DirectoryViews(fs) == DirectoryViews(fs[..i])
  {
    if i == |fs| {
      assert fs[..i] == fs;
    } else {
      assert fs[..|fs| - 1][..i] == fs[..i];
      DirectoryFailurePersists(fs[..|fs| - 1], i);
    }
  }

  predicate FirstFailure(fs: seq<RegionFile>, i: nat, fault: Fault) {
    i < |fs| && FileViews(fs[i]) == Failure(fault) && forall j | 0 <= j < i :: FileViews(fs[j]).Success?
  }

  /**
   * A directory loads if and only if each of its files does, and fails like the first that does not. Then its views are
   * those of the files that have one, at the positions `idx`, in listing order.
   */
  lemma {:induction false} DirectoryLoads(fs: seq<RegionFile>) returns (idx: seq<nat>)
    ensures DirectoryViews(fs).Success? <==> forall i | 0 <= i < |fs| :: FileViews(fs[i]).Success?
    ensures DirectoryViews(fs).Failure? ==> exists i: nat :: FirstFailure(fs, i, DirectoryViews(fs).fault)
    ensures DirectoryViews(fs).Success? ==>
      && Ascending(idx) && (forall i: nat :: i in idx <==> i < |fs| && FileViews(fs[i]) != Success([]))
      && |DirectoryViews(fs).value| == |idx|
      && forall k | 0 <= k < |idx| ::
           idx[k] < |fs| && FileViews(fs[idx[k]]) == Success([DirectoryViews(fs).value[k]])
  {
    hide FileViews;
    idx := [];
    if fs != [] {
      var n := |fs| - 1;
      idx := DirectoryLoads(fs[..n]);
      assert forall i | 0 <= i < n :: fs[..n][i] == fs[i];
      if DirectoryViews(fs[..n]).Failure? {
        var i: nat :| FirstFailure(fs[..n], i, DirectoryViews(fs[..n]).fault);
        assert FirstFailure(fs, i, DirectoryViews(fs).fault);
      } else if FileViews(fs[n]).Failure? {
        assert FirstFailure(fs, n, DirectoryViews(fs).fault);
      } else {
        OneViewAtMost(fs[n]);
        idx := Extended(idx, n, FileViews(fs[n]) != Success([]));
      }
    }
  }

  lemma OneViewAtMost(f: RegionFile)
    ensures FileViews(f).Success? ==> FileViews(f).value == [] || FileViews(f).value == [FileViews(f).value[0]]
  {
    hide Split, ParseHex;
  }

  function SumSizes(vs: seq<View>): nat {
    if vs == [] then 0 else SumSizes(vs[..|vs| - 1]) + vs[|vs| - 1].size
  }

  lemma IndexOfAppends(vs: seq<View>, v: View, host: bool)
    ensures IndexOf(vs + [v], host) == Emplace(IndexOf(vs, host), host, v)
    ensures SumSizes(vs + [v]) == SumSizes(vs) + v.size
  {
    assert (vs + [v])[..|vs|] == vs;
  }

  class MemoryReader {
    var regionsByMapped: Index
    var regionsByHost: Index
    var totalBytes: nat

    constructor ()
      ensures regionsByMapped == map[] && regionsByHost == map[] && totalBytes == 0
    {
      regionsByMapped, regionsByHost, totalBytes := map[], map[], 0;
    }

    /** The reader holds exactly the views `vs`, filed in that order. */
    ghost predicate Holds(vs: seq<View>)
      reads this
    {
      regionsByMapped == IndexOf(vs, false) && regionsByHost == IndexOf(vs, true) && totalBytes == SumSizes(vs)
    }

    method AddRegion(view: View, ghost vs: seq<View>)
      requires Holds(vs)
      modifies this
      ensures Holds(vs + [view])
    {
      regionsByMapped := Emplace(regionsByMapped, false, view);
      regionsByHost := Emplace(regionsByHost, true, view);
      totalBytes := totalBytes + view.size;
      IndexOfAppends(vs, view, false);
      IndexOfAppends(vs, view, true);
    }

    /**
     * Loads a single-file snapshot mapped at `base`; on failure the construction is abandoned. The failure is found at
     * `stop`, behind the whole entries `done`: the header is cut there, or the region that it announces is.
     */
    method LoadStream(file: seq<byte>, base: nat) returns (r: Result<()>, ghost stop: nat, ghost done: seq<Entry>)
      requires base + |file| < TWO_64 && Holds([])
      modifies this
      ensures r.Success? <==> ParseEntries(file).Some?
      ensures r.Success? ==> Holds(ViewsOf(ParseEntries(file).value, base, 0))
      ensures stop <= |file| && file[..stop] == EncodeAll(done) && (r.Success? ==> stop == |file|)
      ensures r.Failure? ==> 0 < |file| - stop && if |file| - stop < 16 then r.fault == OutOfRange else
        var start, end := FromLittleEndian(file[stop..stop + 8]), FromLittleEndian(file[stop + 8..stop + 16]);
        var next := stop + 16 + Wrap64(end - start);
        && |file| < next
        && r.fault == if next < TWO_64 || |file| < next - TWO_64 then RuntimeError else OutOfRange
    {
      ParseStarts(file, base);
      hide ParseEntries, EncodeAll, ViewsOf, IndexOf, SumSizes, FromLittleEndian;
      var where := 0;
      stop, done := 0, [];
      while where < |file|
        invariant ParsedUpTo(file, where, done) && stop == where
        invariant Holds(ViewsOf(done, base, 0))
      {
        if |file| - where < HEADER_SIZE {
          ParseStops(file, where);
          r := Failure(OutOfRange);
          return;
        }
        var start, regionSize := FromLittleEndian(file[where..where + 8]), SizeAt(file, where);
        var dataOffset := where + HEADER_SIZE;
        if dataOffset + regionSize > |file| { ParseStops(file, where); }
        if Wrap64(dataOffset + regionSize) > |file| {
          r := Failure(RuntimeError);
          return;
        }
        if dataOffset + regionSize > |file| {
          r := Failure(OutOfRange);
          return;
        }
        ghost var e := Entry(start, file[dataOffset..dataOffset + regionSize]);
        ParseOneEntry(file, where, e);
        EntryAt(file, where, e);
        ParseAdvances(file, where, done, e, dataOffset + regionSize);
        ViewsOfAppends(done, e, base, 0);
        AddRegion(View(start, base + dataOffset, regionSize), ViewsOf(done, base, 0));
        where, done := dataOffset + regionSize, done + [e];
        stop := where;
      }
      ParseFinishes(file, done);
      r := Success(());
    }

    /** Loads a dump directory; `fs` is the directory in whatever order the iterator lists it. */
    method LoadDirectory(fs: seq<RegionFile>) returns (r: Result<()>)
      requires Holds([])
      modifies this
      ensures r.Success? <==> DirectoryViews(fs).Success?
      ensures r.Success? ==> Holds(DirectoryViews(fs).value)
      ensures r.Failure? ==> r.fault == DirectoryViews(fs).fault
    {
      for i := 0 to |fs|
        invariant DirectoryViews(fs[..i]).Success? && Holds(DirectoryViews(fs[..i]).value)
      {
        ghost var vs := DirectoryViews(fs[..i]).value;
        assert fs[..i + 1][..i] == fs[..i];
        var tokens := Split(fs[i].name, '.');
        if !IsRegionName(tokens) {
          assert vs + [] == vs;
          continue;
        }
        var start := ParseHex(tokens[1]);
        if start.Failure? {
          DirectoryFailurePersists(fs, i + 1);
          return Failure(start.fault);
        }
        if |fs[i].contents| > 0 {
          AddRegion(View(start.value, fs[i].base, |fs[i].contents|), vs);
        } else {
          assert vs + [] == vs;
        }
      }
      assert fs[..|fs|] == fs;
      return Success(());
    }
  }

  /** Entries as the dump script writes them for a process: non-empty, below 2^64, disjoint. */
  ghost predicate Disjoint(es: seq<Entry>) {
    && (forall e <- es :: |e.data| > 0 && e.start + |e.data| < TWO_64)
    && (forall i, j | 0 <= i < j < |es| ::
          es[i].start + |es[i].data| <= es[j].start || es[j].start + |es[j].data| <= es[i].start)
  }

  /** Where the data of entry `i` begins in the file. */
  ghost function Position(es: seq<Entry>, i: nat): nat
    requires i < |es|
  {
    |EncodeAll(es[..i])| + HEADER_SIZE
  }

  lemma {:induction false} ViewsOfPrefix(es: seq<Entry>, base: nat, offset: nat, i: nat)
    requires i <= |es|
    ensures ViewsOf(es[..i], base, offset) == ViewsOf(es, base, offset)[..i]
  {
    if i > 0 {
      assert es[..i][1..] == es[1..][..i - 1];
      ViewsOfPrefix(es[1..], base, offset + HEADER_SIZE + |es[0].data|, i - 1);
    }
  }

  lemma ViewsOfAt(es: seq<Entry>, base: nat, i: nat)
    requires i < |es|
    ensures ViewsOf(es, base, 0)[i] == View(es[i].start, base + Position(es, i), |es[i].data|)
  {
    ViewsOfPrefix(es, base, 0, i + 1);
    assert es[..i + 1] == es[..i] + [es[i]];
    ViewsOfAppends(es[..i], es[i], base, 0);
  }

  lemma DataAtPosition(es: seq<Entry>, i: nat)
    requires i < |es|
    ensures Position(es, i) + |es[i].data| <= |EncodeAll(es)|
    ensures EncodeAll(es)[Position(es, i)..Position(es, i) + |es[i].data|] == es[i].data
  {
    assert es[..i + 1] == es[..i] + [es[i]];
    EncodeAllLast(es[..i], es[i]);
    assert es == es[..i + 1] + es[i + 1..];
    EncodeAllAppends(es[..i + 1], es[i + 1..]);
  }

  lemma PositionsIncrease(es: seq<Entry>, i: nat, j: nat)
    requires i < j < |es|
    ensures Position(es, i) + |es[i].data| <= Position(es, j)
  {
    assert es[..j][..i] == es[..i];
    DataAtPosition(es[..j], i);
  }

  lemma StreamViewsSeparate(es: seq<Entry>, base: nat)
    requires Disjoint(es) && base + |EncodeAll(es)| < TWO_64
    ensures Separate(ViewsOf(es, base, 0), false) && Separate(ViewsOf(es, base, 0), true)
  {
    hide ViewsOf, EncodeAll, Position;
    var vs := ViewsOf(es, base, 0);
    forall i | 0 <= i < |vs|
      ensures vs[i] == View(es[i].start, base + Position(es, i), |es[i].data|)
      ensures Position(es, i) + |es[i].data| <= |EncodeAll(es)|
    {
      ViewsOfAt(es, base, i);
      DataAtPosition(es, i);
    }
    forall i, j | 0 <= i < j < |vs| ensures Apart(vs[i], vs[j], true) && Apart(vs[i], vs[j], false) {
      PositionsIncrease(es, i, j);
    }
    forall i | 0 <= i < |vs|
      ensures vs[i].size > 0 && vs[i].addr + vs[i].size < TWO_64 && vs[i].data + vs[i].size < TWO_64
    {
      assert es[i] in es;
    }
  }

  /** A loaded stream of disjoint entries has both index sides in order, whatever the address order of the entries. */
  lemma LoadedStreamPaired(es: seq<Entry>, base: nat)
    requires Disjoint(es) && base + |EncodeAll(es)| < TWO_64
    ensures Paired(IndexOf(ViewsOf(es, base, 0), false), IndexOf(ViewsOf(es, base, 0), true))
    ensures IndexOf(ViewsOf(es, base, 0), false).Values == Elements(ViewsOf(es, base, 0))
  {
    StreamViewsSeparate(es, base);
    SeparateViewsIndexed(ViewsOf(es, base, 0), false);
    SeparateViewsIndexed(ViewsOf(es, base, 0), true);
  }

  lemma EntryIsReadBack(m: Index, es: seq<Entry>, base: nat, i: nat, offset: nat, n: nat)
    requires i < |es| && offset < |es[i].data| && offset + n <= |es[i].data|
    requires base + |EncodeAll(es)| < TWO_64
    requires Indexed(m, false) && m.Values == Elements(ViewsOf(es, base, 0))
    ensures Read(m, es[i].start + offset, n) == Success(base + Position(es, i) + offset)
  {
    hide Indexed, EncodeAll, Position, Read;
    ViewsOfAt(es, base, i);
    DataAtPosition(es, i);
    FiledUnderBase(m, false, ViewsOf(es, base, 0)[i]);
    ReadInside(m, ViewsOf(es, base, 0)[i], offset, n);
  }

  /**
   * Writing and loading gives back the captured memory: every byte range inside a written entry can be read at its
   * original address, and the host bytes found there are the entry's bytes.
   */
  lemma WrittenMemoryIsReadBack(m: Index, es: seq<Entry>, base: nat, i: nat, offset: nat, n: nat) returns (p: nat)
    requires Disjoint(es) && base + |EncodeAll(es)| < TWO_64
    requires m == IndexOf(ViewsOf(es, base, 0), false)
    requires i < |es| && offset < |es[i].data| && offset + n <= |es[i].data|
    ensures Read(m, es[i].start + offset, n) == Success(p)
    ensures base <= p && p - base + n <= |EncodeAll(es)|
    ensures EncodeAll(es)[p - base..p - base + n] == es[i].data[offset..offset + n]
  {
    hide *;
    LoadedStreamPaired(es, base);
    EntryIsReadBack(m, es, base, i, offset, n);
    DataAtPosition(es, i);
    p := base + Position(es, i) + offset;
    SliceOfSlice(EncodeAll(es), Position(es, i), Position(es, i) + |es[i].data|, offset, offset + n);
  }

  /** The bytes a stream loader counts are those of the file without the headers. */
  lemma {:induction false} StreamBytes(es: seq<Entry>, base: nat)
    ensures SumSizes(ViewsOf(es, base, 0)) + 16 * |es| == |EncodeAll(es)|
  {
    hide EncodeEntry;
    if es != [] {
      var n := |es| - 1;
      assert es == es[..n] + [es[n]];
      StreamBytes(es[..n], base);
      ViewsOfAppends(es[..n], es[n], base, 0);
      EncodeAllLast(es[..n], es[n]);
      var last := View(es[n].start, base + |EncodeAll(es[..n])| + HEADER_SIZE, |es[n].data|);
      IndexOfAppends(ViewsOf(es[..n], base, 0), last, false);
    }
  }

  /** Ranges of one process: disjoint, and a read of one returns something and no more than was asked for. */
  ghost predicate ProcessReads(ranges: seq<(nat, nat)>, read: (nat, nat) -> Option<seq<byte>>) {
    && (forall i, j | 0 <= i < j < |ranges| :: ranges[i].1 <= ranges[j].0 || ranges[j].1 <= ranges[i].0)
    && (forall i | 0 <= i < |ranges| :: match read(ranges[i].0, ranges[i].1)
        case Some(data) => data != [] && ranges[i].0 + |data| <= ranges[i].1
        case None => true)
  }

  lemma CapturedDisjoint(
    ranges: seq<(nat, nat)>, read: (nat, nat) -> Option<seq<byte>>, es: seq<Entry>, idx: seq<nat>)
    requires ProcessReads(ranges, read) && Captures(ranges, read, es, idx)
    ensures Disjoint(es)
  {
    CapturedRepresentable(ranges, read, es, idx);
    forall k | 0 <= k < |es| ensures |es[k].data| > 0 { assert ranges[idx[k]].0 + |es[k].data| <= ranges[idx[k]].1; }
    forall i, j | 0 <= i < j < |es|
      ensures es[i].start + |es[i].data| <= es[j].start || es[j].start + |es[j].data| <= es[i].start
    {
      assert idx[i] < idx[j];
      assert ranges[idx[i]].0 + |es[i].data| <= ranges[idx[i]].1 && ranges[idx[j]].0 + |es[j].data| <= ranges[idx[j]].1;
    }
  }

  /**
   * Dump, load, read: what the dump script read from a range of the process is read back at the address it has there,
   * for every range whose bounds fit the header, from the stream the script wrote.
   */
  lemma DumpedStreamIsReadBack(
    ranges: seq<(nat, nat)>, read: (nat, nat) -> Option<seq<byte>>, out: seq<byte>, es: seq<Entry>, idx: seq<nat>,
    base: nat, m: Index, i: nat, data: seq<byte>, offset: nat, n: nat)
    returns (p: nat)
    requires ProcessReads(ranges, read) && Captures(ranges, read, es, idx) && out == EncodeAll(es)
    requires base + |out| < TWO_64 && m == IndexOf(ViewsOf(es, base, 0), false)
    requires i < |ranges| && read(ranges[i].0, ranges[i].1) == Some(data) && ranges[i].0 + |data| < TWO_64
    requires offset < |data| && offset + n <= |data|
    ensures Read(m, ranges[i].0 + offset, n) == Success(p)
    ensures base <= p && p - base + n <= |out| && out[p - base..p - base + n] == data[offset..offset + n]
  {
    hide EncodeAll, IndexOf, ViewsOf, Read;
    CapturedDisjoint(ranges, read, es, idx);
    assert i in idx;
    var k :| 0 <= k < |idx| && idx[k] == i;
    p := WrittenMemoryIsReadBack(m, es, base, k, offset, n);
  }
}
