/** The native dump: one file per range, written in chunks until a read fails, and what the loader makes of it. */
module Dump {
  import opened Wrappers
  import opened Bytes
  import opened Regions
  import opened Loader
  import Scan
  import ScanCoverage
  import Snapshot

  const CHUNK: nat := 1024 * 1024
  const PAGE: nat := 0x1000

  /** The captured process: the bytes at its addresses, and which reads of it succeed; a read is all or nothing. */
  datatype Process = Process(bytes: nat -> byte, readable: (nat, nat) -> bool)

  function Memory(p: Process, addr: nat, n: nat): (s: seq<byte>)
    ensures |s| == n
  {
    seq<byte>(n, (i: nat) => p.bytes(addr + i))
  }

  /**
   * A file with the memory of a range: whole, or ending before the first chunk of 1 MiB that cannot be read; every chunk
   * in the file was read.
   */
  ghost predicate IsCapture(p: Process, addr: nat, size: nat, file: seq<byte>) {
    && |file| <= size
    && (forall k | 0 <= k < |file| :: file[k] == p.bytes(addr + k))
    && (forall j: nat | j * 0x10_0000 < |file| ::
          p.readable(addr + j * 0x10_0000, if size - j * 0x10_0000 < 0x10_0000 then size - j * 0x10_0000 else 0x10_0000))
    && (|file| == size
        || (|file| % 0x10_0000 == 0
            && !p.readable(addr + |file|, if size - |file| < 0x10_0000 then size - |file| else 0x10_0000)))
  }

  /** The chunk loop for one range. */
  method DumpRange(p: Process, addr: nat, size: nat) returns (file: seq<byte>)
    requires addr + size < TWO_64
    ensures IsCapture(p, addr, size, file)
  {
    file := [];
    ghost var chunks := 0;
    var end, readAddr := addr + size, addr;
    while readAddr < end
      invariant readAddr == addr + |file| <= end
      invariant if readAddr < end then |file| == chunks * CHUNK else |file| <= chunks * CHUNK
      invariant forall k | 0 <= k < |file| :: file[k] == p.bytes(addr + k)
      invariant forall j: nat | j < chunks :: j * CHUNK < size
      invariant forall j: nat | j < chunks ::
        p.readable(addr + j * CHUNK, if size - j * CHUNK < CHUNK then size - j * CHUNK else CHUNK)
      decreases end - readAddr
    {
      var bytesToRead := if end - readAddr < CHUNK then end - readAddr else CHUNK;
      if !p.readable(readAddr, bytesToRead) {
        return;
      }
      var data := Memory(p, readAddr, bytesToRead);
      file := file + data;
      readAddr := readAddr + |data|;
      chunks := chunks + 1;
    }
  }

  function FileName(addr: nat, end: nat): string { "mem." + Hex16(addr) + "." + Hex16(end) + ".bin" }

  lemma HexHasNoDot(v: nat)
    ensures '.' !in Hex16(v)
  {
    assert HexValue('.').None?;
  }

  lemma FileNameTokens(addr: nat, end: nat)
    ensures Split(FileName(addr, end), '.') == ["mem", Hex16(addr), Hex16(end), "bin"]
  {
    hide Split, Hex16;
    HexHasNoDot(addr);
    HexHasNoDot(end);
    RegionTokens(FileName(addr, end), Hex16(addr), Hex16(end));
  }

  datatype Range = Range(addr: nat, size: nat)

  /** A file the dump may have left for a range. */
  predicate IsDumpOf(f: RegionFile, r: Range, p: Process) {
    && f.name == FileName(r.addr, r.addr + r.size)
    && |f.contents| <= r.size && f.contents == Memory(p, r.addr, |f.contents|)
    && (|f.contents| == r.size || |f.contents| % CHUNK == 0)
  }

  /** The dump of one range: a file named after its two ends, with the chunks that could be read. */
  method DumpFile(p: Process, r: Range, base: nat) returns (f: RegionFile)
    requires r.addr + r.size < TWO_64
    ensures f.name == "mem." + Hex16(r.addr) + "." + Hex16(r.addr + r.size) + ".bin" && f.base == base
    ensures IsCapture(p, r.addr, r.size, f.contents) && IsDumpOf(f, r, p)
  {
    hide Hex16;
    var file := DumpRange(p, r.addr, r.size);
    f := RegionFile(FileName(r.addr, r.addr + r.size), file, base);
    assert file == Memory(p, r.addr, |file|);
  }

  /** The loader recovers the range's start from the file name; only a file with contents becomes a region. */
  lemma DumpFileLoads(f: RegionFile, r: Range, p: Process)
    requires IsDumpOf(f, r, p) && r.addr < TWO_64
    ensures FileViews(f) == Success(if f.contents == [] then [] else [View(r.addr, f.base, |f.contents|)])
  {
    hide Hex16, Split, ParseHex, Memory;
    FileNameTokens(r.addr, r.addr + r.size);
    Hex16RoundTrip(r.addr);
  }

  /** Ranges of a process: page-sized, below 2^64, disjoint. */
  ghost predicate ProcessRanges(rs: seq<Range>) {
    && (forall i | 0 <= i < |rs| :: rs[i].size % PAGE == 0 && rs[i].addr + rs[i].size < TWO_64)
    && (forall i, j | 0 <= i < j < |rs| :: DisjointRanges(rs[i], rs[j]))
  }

  predicate DisjointRanges(r: Range, s: Range) { r.addr + r.size <= s.addr || s.addr + s.size <= r.addr }

  /** Dumped files of the ranges. */
  ghost predicate IsDump(fs: seq<RegionFile>, rs: seq<Range>, p: Process) {
    |fs| == |rs| && forall i | 0 <= i < |fs| :: IsDumpOf(fs[i], rs[i], p)
  }

  predicate DisjointMappings(f: RegionFile, g: RegionFile) {
    f.base + |f.contents| <= g.base || g.base + |g.contents| <= f.base
  }

  /** Separate mappings of separate files do not overlap in this process. */
  ghost predicate MappedApart(fs: seq<RegionFile>) {
    && (forall i | 0 <= i < |fs| :: fs[i].base + |fs[i].contents| < TWO_64)
    && (forall i, j | 0 <= i < j < |fs| :: DisjointMappings(fs[i], fs[j]))
  }

  /** The files of a directory with a region name, in listing order; there may be others, like saved analysis data. */
  function RegionFiles(fs: seq<RegionFile>): seq<RegionFile> {
    if fs == [] then []
    else RegionFiles(fs[..|fs| - 1]) + (if IsRegionName(Split(fs[|fs| - 1].name, '.')) then [fs[|fs| - 1]] else [])
  }

  /** A directory whose region files are a dump of the ranges of a process. */
  ghost predicate IsDumpDirectory(fs: seq<RegionFile>, rs: seq<Range>, p: Process) {
    ProcessRanges(rs) && IsDump(RegionFiles(fs), rs, p) && MappedApart(RegionFiles(fs))
  }

  lemma {:induction false} OtherFilesIgnored(fs: seq<RegionFile>)
    ensures DirectoryViews(fs) == DirectoryViews(RegionFiles(fs))
  {
    hide Split, IsRegionName;
    if fs != [] {
      var init, last := fs[..|fs| - 1], fs[|fs| - 1];
      OtherFilesIgnored(init);
      if IsRegionName(Split(last.name, '.')) {
        assert RegionFiles(fs)[..|RegionFiles(fs)| - 1] == RegionFiles(init);
      } else {
        assert RegionFiles(fs) == RegionFiles(init) && FileViews(last) == Success([]);
        if DirectoryViews(init).Success? { assert DirectoryViews(init).value + [] == DirectoryViews(init).value; }
      }
    }
  }

  /** A loaded view is the beginning of its range: same start, page-sized, and whole or cut at a chunk boundary. */
  predicate IsPrefixView(v: View, f: RegionFile, r: Range, p: Process) {
    && v == View(r.addr, f.base, |f.contents|)
    && 0 < v.size <= r.size && v.size % PAGE == 0 && (v.size == r.size || v.size % CHUNK == 0)
    && f.contents == Memory(p, v.addr, v.size)
  }

  ghost predicate FromSomeFile(v: View, fs: seq<RegionFile>, rs: seq<Range>, p: Process)
    requires |fs| == |rs|
  {
    exists i :: 0 <= i < |fs| && IsPrefixView(v, fs[i], rs[i], p)
  }

  lemma ChunkIsPaged(n: nat)
    requires n % CHUNK == 0
    ensures n % PAGE == 0
  {
    assert n == CHUNK * (n / CHUNK);
  }

  /** Dump, then load: every view is a prefix of one range's memory, none is missing, and they are disjoint. */
  lemma DumpedDirectoryViews(fs: seq<RegionFile>, rs: seq<Range>, p: Process) returns (vs: seq<View>)
    requires IsDumpDirectory(fs, rs, p)
    ensures DirectoryViews(fs) == Success(vs)
    ensures forall v | v in vs :: FromSomeFile(v, RegionFiles(fs), rs, p)
    ensures HoldsFiles(vs, RegionFiles(fs), rs)
    ensures Separate(vs, false) && Separate(vs, true)
  {
    hide DirectoryViews, RegionFiles, IsDump, MappedApart, ProcessRanges, Separate;
    OtherFilesIgnored(fs);
    vs := DumpedFilesViews(RegionFiles(fs), rs, p);
  }

  function FileView(f: RegionFile, r: Range): View { View(r.addr, f.base, |f.contents|) }

  /** Every file with contents has its view. */
  ghost predicate HoldsFiles(vs: seq<View>, fs: seq<RegionFile>, rs: seq<Range>)
    requires |fs| == |rs|
  {
    forall i | 0 <= i < |fs| && fs[i].contents != [] :: FileView(fs[i], rs[i]) in vs
  }

  lemma {:induction false} DumpedFilesViews(fs: seq<RegionFile>, rs: seq<Range>, p: Process) returns (vs: seq<View>)
    requires ProcessRanges(rs) && IsDump(fs, rs, p) && MappedApart(fs)
    ensures DirectoryViews(fs) == Success(vs)
    ensures forall v | v in vs :: FromSomeFile(v, fs, rs, p)
    ensures HoldsFiles(vs, fs, rs)
    ensures Separate(vs, false) && Separate(vs, true)
  {
    hide IsDumpOf, FileViews, Memory;
    if fs == [] {
      vs := [];
    } else {
      var n := |fs| - 1;
      var init := DumpedFilesViews(fs[..n], rs[..n], p);
      DumpFileLoads(fs[n], rs[n], p);
      vs := init + (if fs[n].contents == [] then [] else [FileView(fs[n], rs[n])]);
      if fs[n].contents != [] {
        NewPrefixView(fs[n], rs[n], p);
        OlderViewsApart(init, fs, rs, p, false);
        OlderViewsApart(init, fs, rs, p, true);
        SeparateAppends(init, vs[|init|], false);
        SeparateAppends(init, vs[|init|], true);
      } else {
        assert vs == init;
      }
      LiftViews(init, vs, fs, rs, p);
      forall i | 0 <= i < |fs| && fs[i].contents != [] ensures FileView(fs[i], rs[i]) in vs {
        if i < n { assert FileView(fs[..n][i], rs[..n][i]) in init; }
      }
    }
  }

  lemma NewPrefixView(f: RegionFile, r: Range, p: Process)
    requires IsDumpOf(f, r, p) && f.contents != [] && r.size % PAGE == 0
    ensures IsPrefixView(View(r.addr, f.base, |f.contents|), f, r, p)
  {
    if |f.contents| != r.size { ChunkIsPaged(|f.contents|); }
  }

  lemma OlderViewsApart(init: seq<View>, fs: seq<RegionFile>, rs: seq<Range>, p: Process, host: bool)
    requires |fs| == |rs| > 0 && (if host then MappedApart(fs) else ProcessRanges(rs))
    requires forall v | v in init :: FromSomeFile(v, fs[..|fs| - 1], rs[..|fs| - 1], p)
    requires |fs[|fs| - 1].contents| <= rs[|fs| - 1].size
    ensures forall i | 0 <= i < |init| :: Apart(init[i], FileView(fs[|fs| - 1], rs[|fs| - 1]), host)
  {
    hide Memory;
    forall i | 0 <= i < |init|
      ensures Apart(init[i], FileView(fs[|fs| - 1], rs[|fs| - 1]), host)
    {
      assert init[i] in init;
      var k :| 0 <= k < |fs| - 1 && IsPrefixView(init[i], fs[..|fs| - 1][k], rs[..|fs| - 1][k], p);
      if host {
        assert DisjointMappings(fs[k], fs[|fs| - 1]);
      } else {
        assert DisjointRanges(rs[k], rs[|fs| - 1]);
      }
    }
  }

  lemma SeparateAppends(init: seq<View>, v: View, host: bool)
    requires Separate(init, host) && v.size > 0 && v.Base(host) + v.size < TWO_64
    requires forall i | 0 <= i < |init| :: Apart(init[i], v, host)
    ensures Separate(init + [v], host)
  {
  }

  lemma LiftViews(init: seq<View>, vs: seq<View>, fs: seq<RegionFile>, rs: seq<Range>, p: Process)
    requires |fs| == |rs| > 0
    requires forall v | v in init :: FromSomeFile(v, fs[..|fs| - 1], rs[..|fs| - 1], p)
    requires forall v | v in vs :: v in init || IsPrefixView(v, fs[|fs| - 1], rs[|fs| - 1], p)
    ensures forall v | v in vs :: FromSomeFile(v, fs, rs, p)
  {
    hide IsPrefixView;
    forall v | v in vs ensures FromSomeFile(v, fs, rs, p) {
      if v in init {
        var k :| 0 <= k < |fs| - 1 && IsPrefixView(v, fs[..|fs| - 1][k], rs[..|fs| - 1][k], p);
        assert IsPrefixView(v, fs[k], rs[k], p);
      }
    }
  }

  lemma LoadedViewsPaged(fs: seq<RegionFile>, rs: seq<Range>, p: Process, v: View)
    requires IsDumpDirectory(fs, rs, p) && DirectoryViews(fs).Success?
    requires v in IndexOf(DirectoryViews(fs).value, false).Values
    ensures v.size % PAGE == 0 && v.size >= PAGE
  {
    hide IsDumpOf, ProcessRanges, MappedApart, DirectoryViews, IndexOf, Indexed, Separate, IsPrefixView, RegionFiles;
    var vs := DumpedDirectoryViews(fs, rs, p);
    SeparateViewsIndexed(vs, false);
    assert v in vs;
    var i :| 0 <= i < |rs| && IsPrefixView(v, RegionFiles(fs)[i], rs[i], p);
    PrefixViewPaged(v, RegionFiles(fs)[i], rs[i], p);
  }

  lemma PrefixViewPaged(v: View, f: RegionFile, r: Range, p: Process)
    requires IsPrefixView(v, f, r, p)
    ensures v.size % PAGE == 0 && v.size >= PAGE
  {
  }

  lemma MemorySlice(p: Process, addr: nat, size: nat, offset: nat, n: nat)
    requires offset + n <= size
    ensures Memory(p, addr, size)[offset..offset + n] == Memory(p, addr + offset, n)
  {
  }

  /** Dump, load, read: every range inside the dumped part of a region reads back the memory of the process. */
  lemma DumpedMemoryIsReadBack(fs: seq<RegionFile>, rs: seq<Range>, p: Process, i: nat, offset: nat, n: nat)
    requires IsDumpDirectory(fs, rs, p) && i < |rs|
    requires offset < |RegionFiles(fs)[i].contents| && offset + n <= |RegionFiles(fs)[i].contents|
    ensures DirectoryViews(fs).Success?
    ensures var f := RegionFiles(fs)[i];
      && Read(IndexOf(DirectoryViews(fs).value, false), rs[i].addr + offset, n) == Success(f.base + offset)
      && f.contents[offset..offset + n] == Memory(p, rs[i].addr + offset, n)
  {
    hide DirectoryViews, RegionFiles, IndexOf, Indexed, Separate, FromSomeFile, FileName, Memory, Read;
    var f := RegionFiles(fs)[i];
    var vs := DumpedDirectoryViews(fs, rs, p);
    var v, m := FileView(f, rs[i]), IndexOf(vs, false);
    SeparateViewsIndexed(vs, false);
    assert v in Elements(vs);
    FiledUnderBase(m, false, v);
    ReadInside(m, v, offset, n);
    MemorySlice(p, rs[i].addr, |f.contents|, offset, n);
  }

  /**
   * A loaded dump can be scanned exactly: whatever order its regions are enumerated in, every scan for objects of at
   * most a page meets the condition under which the scan covers each position once.
   */
  lemma LoadedDumpIsCoverable(fs: seq<RegionFile>, rs: seq<Range>, p: Process, cfg: Scan.Config, views: seq<View>)
    requires IsDumpDirectory(fs, rs, p) && DirectoryViews(fs).Success?
    requires |views| == |cfg.regions|
    requires forall i | 0 <= i < |views| :: views[i] in IndexOf(DirectoryViews(fs).value, false).Values
    requires forall i | 0 <= i < |views| :: cfg.regions[i] == Scan.Region(views[i].addr, views[i].size)
    requires cfg.objectSize <= PAGE
    ensures ScanCoverage.Coverable(cfg)
  {
    hide IsDumpDirectory, DirectoryViews, IndexOf, ScanCoverage.Coverable;
    forall i | 0 <= i < |cfg.regions|
      ensures cfg.regions[i].size % Scan.BLOCK == 0 && cfg.regions[i].size >= PAGE
    {
      LoadedViewsPaged(fs, rs, p, views[i]);
    }
    ScanCoverage.PagedRegionsCoverable(cfg);
  }

  /** The same for a loaded stream whose entries are whole pages. */
  lemma LoadedStreamIsCoverable(es: seq<Snapshot.Entry>, base: nat, cfg: Scan.Config, views: seq<View>)
    requires Disjoint(es) && base + |Snapshot.EncodeAll(es)| < TWO_64 && forall e <- es :: |e.data| % PAGE == 0
    requires |views| == |cfg.regions|
    requires forall i | 0 <= i < |views| :: views[i] in IndexOf(ViewsOf(es, base, 0), false).Values
    requires forall i | 0 <= i < |views| :: cfg.regions[i] == Scan.Region(views[i].addr, views[i].size)
    requires cfg.objectSize <= PAGE
    ensures ScanCoverage.Coverable(cfg)
  {
    hide IndexOf, Snapshot.EncodeAll, ScanCoverage.Coverable, Paired;
    LoadedStreamPaired(es, base);
    forall i | 0 <= i < |cfg.regions|
      ensures cfg.regions[i].size % Scan.BLOCK == 0 && cfg.regions[i].size >= PAGE
    {
      var k :| 0 <= k < |es| && ViewsOf(es, base, 0)[k] == views[i];
      ViewsOfAt(es, base, k);
      assert es[k] in es;
    }
    ScanCoverage.PagedRegionsCoverable(cfg);
  }
}
