/** line_number_for_code_offset over the 3.10 line table, against the per-entry meaning of PEP 626. */
module LineTable {
  import opened Wrappers
  import opened Bytes

  const NO_LINE: int := -0x80

  function SDelta(table: seq<byte>, i: nat): nat
    requires 2 * i < |table|
  {
    table[2 * i]
  }

  function LDelta(table: seq<byte>, i: nat): int
    requires 2 * i + 1 < |table|
  {
    Signed(1, table[2 * i + 1])
  }

  // ---- The meaning of the table: entry i covers the next SDelta bytes and moves the line by LDelta ----

  function StartOf(table: seq<byte>, i: nat): nat
    requires 2 * i <= |table|
  {
    if i == 0 then 0 else StartOf(table, i - 1) + SDelta(table, i - 1)
  }

  /** The line after entries `0..i`. */
  function LineBefore(table: seq<byte>, first: int, i: nat): int
    requires 2 * i <= |table|
  {
    if i == 0 then first
    else
      var l := LDelta(table, i - 1);
      LineBefore(table, first, i - 1) + (if l == NO_LINE then 0 else l)
  }

  predicate Covers(table: seq<byte>, i: nat, offset: int)
    requires 2 * i + 1 < |table|
  {
    StartOf(table, i) <= offset < StartOf(table, i) + SDelta(table, i)
  }

  /** The line PEP 626 gives an offset that entry `i` covers: none for the marker -128. */
  function LineOf(table: seq<byte>, first: int, i: nat): Option<int>
    requires 2 * i + 1 < |table|
  {
    if LDelta(table, i) == NO_LINE then None else Some(LineBefore(table, first, i + 1))
  }

  /** An entry's two bytes: how many code bytes it covers, and how its signed second byte moves the line, or -128. */
  lemma EntryMeaning(table: seq<byte>, first: int, i: nat)
    requires 2 * i + 1 < |table|
    ensures StartOf(table, 0) == 0 && StartOf(table, i + 1) == StartOf(table, i) + table[2 * i]
    ensures LineBefore(table, first, 0) == first
    ensures var b: int := table[2 * i + 1];
      && LineBefore(table, first, i + 1)
         == LineBefore(table, first, i) + (if b == 0x80 then 0 else if b < 0x80 then b else b - 0x100)
      && LineOf(table, first, i) == if b == 0x80 then None else Some(LineBefore(table, first, i + 1))
  {
    PowValues();
  }

  lemma {:induction false} StartsIncrease(table: seq<byte>, i: nat, j: nat)
    requires i < j && 2 * j <= |table|
    ensures StartOf(table, i) + SDelta(table, i) <= StartOf(table, j)
  {
    if i < j - 1 { StartsIncrease(table, i, j - 1); }
  }

  /** At most one entry covers an offset. */
  lemma CoverIsUnique(table: seq<byte>, i: nat, j: nat, offset: int)
    requires 2 * i + 1 < |table| && 2 * j + 1 < |table| && Covers(table, i, offset) && Covers(table, j, offset)
    ensures i == j
  {
    if i < j { StartsIncrease(table, i, j); }
    if j < i { StartsIncrease(table, j, i); }
  }

  // ---- The loop ----

  /** An entry for which the loop emits a range. */
  predicate Emits(table: seq<byte>, i: nat)
    requires 2 * i + 1 < |table|
  {
    LDelta(table, i) != 0 && LDelta(table, i) != NO_LINE && SDelta(table, i) > 0
  }

  /** The first entry from `i` on whose emitted range contains the offset, or the number of entries. */
  function FirstHit(table: seq<byte>, offset: int, i: nat): (h: nat)
    requires i <= |table| / 2
    ensures i <= h <= |table| / 2
    ensures h < |table| / 2 ==> Emits(table, h) && Covers(table, h, offset)
    ensures forall j | i <= j < h :: !(Emits(table, j) && Covers(table, j, offset))
    decreases |table| / 2 - i
  {
    if i == |table| / 2 || (Emits(table, i) && Covers(table, i, offset)) then i else FirstHit(table, offset, i + 1)
  }

  /** What the lookup returns: the line of the emitted range, 0 without one, an exception at the end of an odd table. */
  function Lookup(table: seq<byte>, first: int, offset: int): Result<int> {
    var h := FirstHit(table, offset, 0);
    if h < |table| / 2 then Success(LineBefore(table, first, h + 1))
    else if |table| % 2 == 0 then Success(0)
    else Failure(OutOfRange)
  }

  lemma HitFound(table: seq<byte>, offset: int, i: nat)
    requires i <= |table| / 2
    requires forall j | 0 <= j < i :: !(Emits(table, j) && Covers(table, j, offset))
    requires i < |table| / 2 ==> Emits(table, i) && Covers(table, i, offset)
    ensures FirstHit(table, offset, 0) == i
  {
    var h := FirstHit(table, offset, 0);
    if h < i {
      assert false;
    }
  }

  /** The decoding loop; `offset` is the code offset as a signed value. */
  method LineNumberForOffset(table: seq<byte>, first: int, offset: int) returns (r: Result<int>)
    ensures r == Lookup(table, first, offset)
  {
    var line, end, pos := first, 0, 0;
    ghost var i := 0;
    while pos < |table|
      invariant pos == 2 * i <= |table|
      invariant end == StartOf(table, i) && line == LineBefore(table, first, i)
      invariant forall j | 0 <= j < i :: !(Emits(table, j) && Covers(table, j, offset))
    {
      if pos + 1 >= |table| {
        HitFound(table, offset, i);
        return Failure(OutOfRange);
      }
      var sdelta, ldelta := table[pos], Signed(1, table[pos + 1]);
      pos := pos + 2;
      i := i + 1;
      if ldelta == 0 {
        end := end + sdelta;
        continue;
      }
      var start := end;
      end := start + sdelta;
      if ldelta == NO_LINE { continue; }
      line := line + ldelta;
      if end == start { continue; }
      if start <= offset < end {
        HitFound(table, offset, i - 1);
        return Success(line);
      }
    }
    HitFound(table, offset, i);
    return Success(0);
  }

  /** On an offset that entry `i` covers, the answer is decided by that entry alone; a trailing byte is read last. */
  lemma LookupInEntry(table: seq<byte>, first: int, offset: int, i: nat)
    requires 2 * i + 1 < |table| && StartOf(table, i) <= offset < StartOf(table, i + 1)
    ensures Lookup(table, first, offset)
      == if table[2 * i + 1] !in {0, 0x80} then Success(LineBefore(table, first, i + 1))
         else if |table| % 2 == 0 then Success(0)
         else Failure(OutOfRange)
  {
    EntryMeaning(table, first, i);
    assert Covers(table, i, offset);
    var h := FirstHit(table, offset, 0);
    if h < |table| / 2 {
      CoverIsUnique(table, h, i, offset);
    }
  }

  /** Offsets that no entry covers have line 0. */
  lemma LookupOutside(table: seq<byte>, first: int, offset: int)
    requires offset < 0 || StartOf(table, |table| / 2) <= offset
    ensures Lookup(table, first, offset) == if |table| % 2 == 0 then Success(0) else Failure(OutOfRange)
  {
    var h := FirstHit(table, offset, 0);
    if h < |table| / 2 { StartsIncrease(table, h, |table| / 2); }
  }

  /** The answer, with 0 for "no line", is the one PEP 626 gives. */
  predicate Agrees(table: seq<byte>, first: int, offset: int, i: nat)
    requires 2 * i + 1 < |table|
  {
    Lookup(table, first, offset) == Success(match LineOf(table, first, i) case Some(line) => line case None => 0)
  }

  /**
   * The lookup agrees with PEP 626 on an offset exactly when the covering entry moves the line (or the line it would
   * report happens to be 0): an entry that keeps the line extends the previous range there, but is skipped by the loop.
   */
  lemma AgreesIffLineMoves(table: seq<byte>, first: int, offset: int, i: nat)
    requires |table| % 2 == 0 && i < |table| / 2 && Covers(table, i, offset)
    ensures Agrees(table, first, offset, i) <==> (LDelta(table, i) != 0 || LineBefore(table, first, i + 1) == 0)
  {
    LookupInEntry(table, first, offset, i);
  }

  /** A concrete table on which the lookup loses a line that PEP 626 reports. */
  lemma LineKeptIsLost()
    ensures var table: seq<byte> := [4, 1, 4, 0];
      Covers(table, 1, 5) && LineOf(table, 10, 1) == Some(11) && Lookup(table, 10, 5) == Success(0)
  {
    var table: seq<byte> := [4, 1, 4, 0];
    assert StartOf(table, 1) == 4;
    assert LineBefore(table, 10, 1) == 11;
    LookupInEntry(table, 10, 5, 1);
  }
}
