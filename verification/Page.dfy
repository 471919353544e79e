/** The slotted page: insert, update, delete, read and compaction on a 4096-byte array. */
module Page {
  import opened KeyOrder
  import opened Bytes
  import opened PageImage

  // ---------------------------------------------------------------- operations on what a page holds

  /** The first deleted slot, the number of slots if there is none. */
  function FirstTombstone(cells: seq<Cell>): (i: nat)
    ensures i <= |cells| && (i < |cells| ==> cells[i].Tombstone?) && forall j | 0 <= j < i :: cells[j].Live?
  {
    if cells == [] || cells[0].Tombstone? then 0 else 1 + FirstTombstone(cells[1..])
  }

  function FreeBytes(cells: seq<Cell>, free: nat): int {
    free - SlotBase(|cells|)
  }

  /** A row fits if its record does, and a new slot too when no deleted one can be reused. */
  predicate Fits(cells: seq<Cell>, free: nat, key: Bytes, vals: Bytes) {
    4 + |key| + |vals| + (if FirstTombstone(cells) == |cells| then SLOT_SIZE else 0) <= FreeBytes(cells, free)
  }

  /** A new record in the free space, in a deleted slot or a new one. */
  lemma InsertOk(img: Bytes, cells: seq<Cell>, free: nat, i: nat, c: Cell) returns (out: Bytes)
    requires PageOk(img, cells, free) && i <= |cells| && (i < |cells| ==> cells[i].Tombstone?)
    requires c.Live? && c.offset + Size(c) == free
    requires SlotBase(|cells|) <= c.offset && SlotBase(i) + SLOT_SIZE <= c.offset
    ensures out == Spliced(Spliced(img, c.offset, Record(c.key, c.vals)), SlotBase(i), SlotImage(c))
    ensures PageOk(out, WithCell(cells, i, c), c.offset)
  {
    out := Spliced(Spliced(img, c.offset, Record(c.key, c.vals)), SlotBase(i), SlotImage(c));
    var rec := Record(c.key, c.vals);
    var img1 := Spliced(img, c.offset, rec);
    RecordWritten(img, cells, free, c.offset, rec);
    LowerFree(img1, cells, free, c.offset);
    Inside(img, c.offset, rec);
    forall j | 0 <= j < |cells| && j != i
      ensures Disjoint(cells[j], c)
    {
      assert CellOk(img, cells[j], j, free);
    }
    SlotWritten(img1, cells, c.offset, i, c);
    if i < |cells| {
      TotalUpdate(cells, i, c);
    } else {
      TotalAppend(cells, c);
    }
  }

  lemma DeleteOk(img: Bytes, cells: seq<Cell>, free: nat, i: nat)
    requires PageOk(img, cells, free) && i < |cells|
    ensures PageOk(Spliced(img, SlotBase(i), SlotBytes(0, 0)), cells[i := Tombstone], free)
  {
    SlotWritten(img, cells, free, i, Tombstone);
    TotalUpdate(cells, i, Tombstone);
  }

  lemma OtherKept(img: Bytes, cells: seq<Cell>, free: nat, i: nat, c: Cell, j: nat)
    requires CellsOk(img, cells, free) && i < |cells| && j < |cells| && j != i && cells[i].Live? && c.Live?
    requires SlotBase(|cells|) <= free <= |img|
    requires c.offset == cells[i].offset && Size(c) <= Size(cells[i]) && c.offset + Size(c) <= |img|
    ensures CellOk(Spliced(Spliced(img, c.offset, Record(c.key, c.vals)), SlotBase(i), SlotImage(c)), cells[j], j, free)
    ensures Disjoint(cells[j], c)
  {
    assert CellOk(img, cells[j], j, free) && CellOk(img, cells[i], i, free);
    if j < i {
      assert Disjoint(cells[j], cells[i]);
    } else {
      assert Disjoint(cells[i], cells[j]);
    }
    CellKept(img, c.offset, Record(c.key, c.vals), cells[j], j, free);
    CellKept(Spliced(img, c.offset, Record(c.key, c.vals)), SlotBase(i), SlotImage(c), cells[j], j, free);
  }

  /** Overwriting a record with one that is no longer than it. */
  lemma UpdateOk(img: Bytes, cells: seq<Cell>, free: nat, i: nat, c: Cell) returns (out: Bytes)
    requires PageOk(img, cells, free) && i < |cells| && cells[i].Live? && c.Live?
    requires c.offset == cells[i].offset && Size(c) <= Size(cells[i])
    ensures c.offset + Size(c) <= |img|
    ensures out == Spliced(Spliced(img, c.offset, Record(c.key, c.vals)), SlotBase(i), SlotImage(c))
    ensures PageOk(out, cells[i := c], free)
  {
    assert CellOk(img, cells[i], i, free);
    var img1 := Spliced(img, c.offset, Record(c.key, c.vals));
    out := Spliced(img1, SlotBase(i), SlotImage(c));
    Inside(img, c.offset, Record(c.key, c.vals));
    SlotSet(img1, c, i, free);
    forall j: nat | j < |cells| && j != i
      ensures CellOk(out, cells[j], j, free) && Disjoint(cells[j], c)
    {
      OtherKept(img, cells, free, i, c, j);
    }
    CellsPlaced(out, cells, free, i, c);
    TotalUpdate(cells, i, c);
  }

  // ---------------------------------------------------------------- live rows

  function RowOf(c: Cell): Option<(Bytes, Bytes)> {
    if c.Live? then Some((c.key, c.vals)) else None
  }

  /** The record of a live cell reads back as its row. */
  lemma CellParses(img: Bytes, c: Cell, free: nat)
    requires |img| == PAGE_SIZE && c.Live? && InPlace(img, c, free)
    ensures ParseRecord(img[c.offset..c.offset + Size(c)]) == RowOf(c)
  {
    ParseBack(c.key, c.vals);
  }

  /** The live rows in slot order. */
  function LiveRows(cells: seq<Cell>): seq<(Bytes, Bytes)> {
    if cells == [] then []
    else
      var c := cells[|cells| - 1];
      LiveRows(cells[..|cells| - 1]) + if c.Live? then [(c.key, c.vals)] else []
  }

  /** The bytes that rows need, records and slots. */
  function Needed(rows: seq<(Bytes, Bytes)>): nat {
    if rows == [] then 0
    else Needed(rows[..|rows| - 1]) + 4 + |rows[|rows| - 1].0| + |rows[|rows| - 1].1| + SLOT_SIZE
  }

  lemma {:induction false} LiveRowsFit(cells: seq<Cell>)
    ensures Needed(LiveRows(cells)) <= Total(cells) + SLOT_SIZE * |cells|
  {
    if cells != [] {
      var n := |cells| - 1;
      LiveRowsFit(cells[..n]);
      if cells[n].Live? {
        var rows := LiveRows(cells[..n]);
        assert (rows + [(cells[n].key, cells[n].vals)])[..|rows|] == rows;
      } else {
        assert LiveRows(cells) == LiveRows(cells[..n]);
      }
    }
  }

  lemma {:induction false} NeededPrefix(rows: seq<(Bytes, Bytes)>, k: nat)
    requires k <= |rows|
    ensures Needed(rows[..k]) <= Needed(rows)
    ensures k < |rows| ==> Needed(rows[..k]) + 4 + |rows[k].0| + |rows[k].1| + SLOT_SIZE <= Needed(rows)
    decreases |rows| - k
  {
    if k < |rows| {
      assert rows[..k + 1][..k] == rows[..k];
      NeededPrefix(rows, k + 1);
    } else {
      assert rows[..k] == rows;
    }
  }

  /** Where each key's last row is. */
  function SlotIndex(rows: seq<(Bytes, Bytes)>): map<Bytes, nat> {
    if rows == [] then map[] else SlotIndex(rows[..|rows| - 1])[rows[|rows| - 1].0 := |rows| - 1]
  }

  /** A page just filled from empty with `rows`, in order. */
  ghost predicate Packed(cells: seq<Cell>, rows: seq<(Bytes, Bytes)>, free: nat) {
    && |cells| == |rows| && (forall i | 0 <= i < |rows| :: RowOf(cells[i]) == Some(rows[i]))
    && free + Needed(rows) == PAGE_SIZE + SLOT_SIZE * |rows|
  }

  lemma PackedRoom(cells: seq<Cell>, rows: seq<(Bytes, Bytes)>, k: nat, free: nat)
    requires k < |rows| && Packed(cells, rows[..k], free) && Needed(rows) <= PAGE_SIZE - PAGE_HEADER_SIZE
    ensures FirstTombstone(cells) == |cells| && Fits(cells, free, rows[k].0, rows[k].1)
  {
    NeededPrefix(rows, k);
    forall i | 0 <= i < |cells|
      ensures cells[i].Live?
    {
      assert RowOf(cells[i]) == Some(rows[..k][i]);
    }
  }

  lemma PackedMore(cells: seq<Cell>, rows: seq<(Bytes, Bytes)>, k: nat, free: nat, c: Cell)
    requires k < |rows| && Packed(cells, rows[..k], free) && RowOf(c) == Some(rows[k]) && Size(c) <= free
    ensures Packed(cells + [c], rows[..k + 1], free - Size(c))
  {
    assert rows[..k + 1][..k] == rows[..k];
    forall i | 0 <= i < k + 1
      ensures RowOf((cells + [c])[i]) == Some(rows[..k + 1][i])
    {
      if i < k {
        assert RowOf(cells[i]) == Some(rows[..k][i]);
      }
    }
  }

  lemma {:induction false} PackedRows(cells: seq<Cell>, rows: seq<(Bytes, Bytes)>)
    requires |cells| == |rows| && forall i | 0 <= i < |rows| :: RowOf(cells[i]) == Some(rows[i])
    ensures LiveRows(cells) == rows
  {
    if rows != [] {
      PackedRows(cells[..|cells| - 1], rows[..|rows| - 1]);
      assert RowOf(cells[|cells| - 1]) == Some(rows[|rows| - 1]);
    }
  }

  ghost predicate HoldsAt(cells: seq<Cell>, i: int, row: (Bytes, Bytes)) {
    0 <= i < |cells| && cells[i].Live? && cells[i].key == row.0 && cells[i].vals == row.1
  }

  /** Some slot holds the row. */
  ghost predicate Holds(cells: seq<Cell>, row: (Bytes, Bytes)) {
    exists i :: HoldsAt(cells, i, row)
  }

  lemma {:induction false} LiveRowsMeans(cells: seq<Cell>)
    ensures forall row :: row in LiveRows(cells) <==> Holds(cells, row)
  {
    if cells != [] {
      var n := |cells| - 1;
      LiveRowsMeans(cells[..n]);
      forall row
        ensures Holds(cells, row) <==> Holds(cells[..n], row) || HoldsAt(cells, n, row)
      {
        if i :| HoldsAt(cells, i, row) {
          assert i < n ==> HoldsAt(cells[..n], i, row);
        }
        if i :| HoldsAt(cells[..n], i, row) {
          assert HoldsAt(cells, i, row);
        }
      }
    }
  }

  /** The last slot with that key. */
  ghost predicate LastWithKey(cells: seq<Cell>, i: int, key: Bytes) {
    && 0 <= i < |cells| && cells[i].Live? && cells[i].key == key
    && forall j | i < j < |cells| && cells[j].Live? :: cells[j].key != key
  }

  /** The index names the last slot of every key there is, and no other key. */
  ghost predicate Indexed(cells: seq<Cell>, index: map<Bytes, nat>) {
    && (forall i | 0 <= i < |cells| && cells[i].Live? :: cells[i].key in index)
    && (forall key | key in index :: LastWithKey(cells, index[key], key))
  }

  lemma {:induction false} PackedIndexed(cells: seq<Cell>, rows: seq<(Bytes, Bytes)>)
    requires |cells| == |rows| && forall i | 0 <= i < |rows| :: RowOf(cells[i]) == Some(rows[i])
    ensures Tombstone !in cells && Indexed(cells, SlotIndex(rows))
  {
    if rows != [] {
      var n := |rows| - 1;
      PackedIndexed(cells[..n], rows[..n]);
      assert RowOf(cells[n]) == Some(rows[n]);
      var index := SlotIndex(rows);
      forall key | key in index
        ensures LastWithKey(cells, index[key], key)
      {
        if key != rows[n].0 {
          assert LastWithKey(cells[..n], SlotIndex(rows[..n])[key], key);
        }
      }
      assert cells == cells[..n] + [cells[n]];
    }
  }

  /** What inserting a row answers and leaves: nothing changes unless it fits. */
  ghost predicate Placed(cells: seq<Cell>, free: nat, key: Bytes, vals: Bytes, res: Outcome, after: seq<Cell>, left: nat) {
    if Fits(cells, free, key, vals) then
      var i := FirstTombstone(cells);
      && res == Slot(i) && left == free - (4 + |key| + |vals|)
      && after == WithCell(cells, i, Live(left, key, vals))
    else
      res == PageFull && after == cells && left == free
  }

  /** A row deleted for its update leaves a slot for the new version, at or before its own. */
  lemma SlotToReuse(cells: seq<Cell>, i: nat)
    requires i < |cells|
    ensures FirstTombstone(cells[i := Tombstone]) <= i
  {
    assert cells[i := Tombstone][i].Tombstone?;
  }

  predicate Grows(cells: seq<Cell>, i: int, key: Bytes, vals: Bytes) {
    0 <= i < |cells| && cells[i].Live? && 4 + |key| + |vals| > Size(cells[i])
  }

  /** What updating slot `i` answers and leaves: in place if the new row is no longer, else the row is
      deleted and inserted anew, in its own slot or an earlier one. */
  ghost predicate Updated(cells: seq<Cell>, free: nat, i: int, key: Bytes, vals: Bytes, res: Outcome, after: seq<Cell>, left: nat) {
    if !(0 <= i < |cells|) || cells[i].Tombstone? then
      res == SlotNotFound && after == cells && left == free
    else if Grows(cells, i, key, vals) then
      && Placed(cells[i := Tombstone], free, key, vals, res, after, left)
      && (res.Slot? ==> res.id <= i)
    else
      res == Slot(i) && after == cells[i := Live(cells[i].offset, key, vals)] && left == free
  }

  lemma {:induction false} LiveRowsSet(cells: seq<Cell>, i: nat, c: Cell)
    requires i < |cells|
    ensures |LiveRows(cells[i := c])| + (if cells[i].Live? then 1 else 0) == |LiveRows(cells)| + (if c.Live? then 1 else 0)
  {
    var n := |cells| - 1;
    if i < n {
      LiveRowsSet(cells[..n], i, c);
      assert cells[i := c][..n] == cells[..n][i := c];
    } else {
      assert cells[i := c][..n] == cells[..n];
    }
  }

  /** An update keeps the number of live rows, or loses the row it was to change: exactly when the
      row gets longer and does not fit the page, even in the deleted slot. */
  lemma UpdateLosesExactly(cells: seq<Cell>, free: nat, i: int, key: Bytes, vals: Bytes, res: Outcome, after: seq<Cell>, left: nat)
    requires Updated(cells, free, i, key, vals, res, after, left)
    ensures var lost := Grows(cells, i, key, vals) && !Fits(cells[i := Tombstone], free, key, vals);
            && |LiveRows(after)| == |LiveRows(cells)| - (if lost then 1 else 0)
            && (lost <==> res == PageFull)
            && (lost ==> after == cells[i := Tombstone])
  {
    if 0 <= i < |cells| && cells[i].Live? {
      if Grows(cells, i, key, vals) {
        var gone := cells[i := Tombstone];
        LiveRowsSet(cells, i, Tombstone);
        SlotToReuse(cells, i);
        LiveRowsSet(gone, FirstTombstone(gone), Live(left, key, vals));
      } else {
        LiveRowsSet(cells, i, Live(cells[i].offset, key, vals));
      }
    }
  }

  /** A page that one row fills; its update to a row one byte longer loses it. */
  lemma FullPage() returns (img: Bytes, cells: seq<Cell>, vals: Bytes)
    ensures |vals| > 0 && PageOk(img, cells, SlotBase(1)) && LiveRows(cells) == [([], vals[1..])]
    ensures Grows(cells, 0, [], vals) && !Fits(cells[0 := Tombstone], SlotBase(1), [], vals)
  {
    vals := seq(4057, _ => 0);
    var c := Live(SlotBase(1), [], vals[1..]);
    img := InsertOk(seq(PAGE_SIZE, _ => 0), [], PAGE_SIZE, 0, c);
    cells := WithCell([], 0, c);
    assert cells == [c] && cells[..0] == [];
    assert LiveRows(cells) == LiveRows([]) + [([], vals[1..])];
  }

  /** An insert, whether it succeeds or not, changes no live row; the new row is live exactly in the
      slot answered. */
  lemma OtherRowsStay(cells: seq<Cell>, free: nat, key: Bytes, vals: Bytes, res: Outcome, after: seq<Cell>, left: nat, j: nat)
    requires Placed(cells, free, key, vals, res, after, left) && j < |after|
    ensures res != Slot(j) ==> j < |cells| && after[j] == cells[j]
    ensures res == Slot(j) ==> RowOf(after[j]) == Some((key, vals)) && (j < |cells| ==> RowOf(cells[j]) == None)
    ensures |cells| <= |after|
  {
  }

  lemma LiveRowsRoom(img: Bytes, cells: seq<Cell>, free: nat)
    requires PageOk(img, cells, free)
    ensures Needed(LiveRows(cells)) <= PAGE_SIZE - PAGE_HEADER_SIZE
  {
    LiveRowsFit(cells);
  }

  // ---------------------------------------------------------------- the page

  datatype Outcome = Slot(id: nat) | PageFull | SlotNotFound

  class SlottedPage {
    const data: array<Byte>
    var slotCount: nat
    var freeSpaceOffset: nat
    ghost var cells: seq<Cell>

    ghost predicate Valid()
      reads this, data
    {
      slotCount == |cells| && PageOk(data[..], cells, freeSpaceOffset)
    }

    constructor ()
      ensures Valid() && cells == [] && freeSpaceOffset == PAGE_SIZE && fresh(data)
    {
      data := new Byte[PAGE_SIZE](_ => 0);
      slotCount := 0;
      freeSpaceOffset := PAGE_SIZE;
      cells := [];
    }

    /** Copy bytes into the page. */
    method Put(at: nat, b: Bytes)
      requires at + |b| <= data.Length
      modifies data
      ensures data[..] == Spliced(old(data[..]), at, b)
    {
      for k := 0 to |b|
        invariant forall i | 0 <= i < data.Length :: data[i] == if at <= i < at + k then b[i - at] else old(data[i])
      {
        data[at + k] := b[k];
      }
    }

    /** Write a record and then its slot. */
    method Store(at: nat, rec: Bytes, i: nat, slot: Bytes, ghost target: Bytes)
      requires at + |rec| <= data.Length && SlotBase(i) + |slot| <= data.Length
      requires target == Spliced(Spliced(data[..], at, rec), SlotBase(i), slot)
      modifies data
      ensures data[..] == target
    {
      ghost var written := Spliced(data[..], at, rec);
      Put(at, rec);
      assert data[..] == written;
      Put(PAGE_HEADER_SIZE + i * SLOT_SIZE, slot);
    }

    /** The offset and length a slot holds: both 0 if and only if the row is deleted. */
    method GetSlot(i: nat) returns (off: nat, ln: nat)
      requires Valid() && i < slotCount
      ensures cells[i].Tombstone? ==> off == 0 && ln == 0
      ensures cells[i].Live? ==> off == cells[i].offset && ln == Size(cells[i]) && ln >= 4 && off + ln <= PAGE_SIZE
    {
      var base := PAGE_HEADER_SIZE + i * SLOT_SIZE;
      assert CellOk(data[..], cells[i], i, freeSpaceOffset);
      assert data[..][base..base + SLOT_SIZE] == data[base..base + SLOT_SIZE];
      var slot := SlotOf(data[base..base + SLOT_SIZE]);
      SlotBack(if cells[i].Live? then cells[i].offset else 0, Size(cells[i]));
      return slot.0, slot.1;
    }

    /** The row in a slot, nothing for a deleted slot or one that does not exist. */
    method GetRow(i: int) returns (row: Option<(Bytes, Bytes)>)
      requires Valid()
      ensures row == if 0 <= i < |cells| then RowOf(cells[i]) else None
      ensures row.Some? <==> 0 <= i < |cells| && cells[i].Live?
      ensures row.Some? ==> row.value == (cells[i].key, cells[i].vals)
    {
      if i < 0 || i >= slotCount {
        return None;
      }
      var off, ln := GetSlot(i);
      if off == 0 && ln == 0 {
        return None;
      }
      row := ReadRecord(off, ln, i);
    }

    method ReadRecord(off: nat, ln: nat, ghost i: nat) returns (row: Option<(Bytes, Bytes)>)
      requires Valid() && i < |cells| && cells[i].Live? && off == cells[i].offset && ln == Size(cells[i])
      requires off + ln <= PAGE_SIZE
      ensures row == RowOf(cells[i])
    {
      assert CellOk(data[..], cells[i], i, freeSpaceOffset);
      CellParses(data[..], cells[i], freeSpaceOffset);
      assert data[off..off + ln] == data[..][off..off + ln];
      row := ParseRecord(data[off..off + ln]);
    }

    method FindTombstone() returns (i: nat)
      requires Valid()
      ensures i == FirstTombstone(cells)
    {
      i := 0;
      while i < slotCount
        invariant 0 <= i <= slotCount && forall j | 0 <= j < i :: cells[j].Live?
      {
        var off, ln := GetSlot(i);
        if off == 0 && ln == 0 {
          return;
        }
        i := i + 1;
      }
    }

    method Adopt(free: nat, slots: nat, ghost held: seq<Cell>)
      requires slots == |held| && PageOk(data[..], held, free)
      modifies this`slotCount, this`freeSpaceOffset, this`cells
      ensures Valid() && cells == held && freeSpaceOffset == free
    {
      slotCount, freeSpaceOffset, cells := slots, free, held;
    }

    /** Write a row at the low end of the records and point slot `i` at it. */
    method WriteRow(i: nat, key: Bytes, vals: Bytes)
      requires Valid() && i <= |cells| && (i < |cells| ==> cells[i].Tombstone?)
      requires SlotBase(|cells|) <= freeSpaceOffset - (4 + |key| + |vals|)
      requires SlotBase(i) + SLOT_SIZE <= freeSpaceOffset - (4 + |key| + |vals|)
      modifies this`slotCount, this`freeSpaceOffset, this`cells, data
      ensures Valid() && freeSpaceOffset == old(freeSpaceOffset) - (4 + |key| + |vals|)
      ensures cells == WithCell(old(cells), i, Live(freeSpaceOffset, key, vals))
    {
      var at := freeSpaceOffset - (4 + |key| + |vals|);
      var c := Live(at, key, vals);
      ghost var target := InsertOk(data[..], cells, freeSpaceOffset, i, c);
      Store(c.offset, Record(c.key, c.vals), i, SlotImage(c), target);
      Adopt(at, if i == slotCount then slotCount + 1 else slotCount, WithCell(cells, i, c));
    }

    /** Put a row into the first deleted slot, or a new one. */
    method InsertRow(key: Bytes, vals: Bytes) returns (res: Outcome)
      requires Valid()
      modifies this`slotCount, this`freeSpaceOffset, this`cells, data
      ensures Valid()
      ensures Placed(old(cells), old(freeSpaceOffset), key, vals, res, cells, freeSpaceOffset)
      ensures res == PageFull ==> data[..] == old(data[..])
      ensures res == PageFull <==>
                old(freeSpaceOffset) - (32 + 4 * |old(cells)|)
                < 4 + |key| + |vals| + if Tombstone in old(cells) then 0 else 4
      ensures res.Slot? ==>
                && res.id < |cells| && RowOf(cells[res.id]) == Some((key, vals))
                && (if Tombstone in old(cells) then |cells| == |old(cells)| && old(cells)[res.id] == Tombstone
                    else |cells| == |old(cells)| + 1 && res.id == |old(cells)|)
                && forall j | 0 <= j < |old(cells)| && j != res.id :: cells[j] == old(cells)[j]
    {
      var needed := 4 + |key| + |vals|;
      var i := FindTombstone();
      var extra := if i == slotCount then SLOT_SIZE else 0;
      if freeSpaceOffset - (PAGE_HEADER_SIZE + slotCount * SLOT_SIZE) < needed + extra {
        return PageFull;
      }
      WriteRow(i, key, vals);
      res := Slot(i);
    }

    method DeleteRow(i: int)
      requires Valid()
      modifies this`cells, data
      ensures Valid() && cells == if 0 <= i < |old(cells)| then old(cells)[i := Tombstone] else old(cells)
    {
      if i < 0 || i >= slotCount {
        return;
      }
      DeleteOk(data[..], cells, freeSpaceOffset, i);
      Put(PAGE_HEADER_SIZE + i * SLOT_SIZE, SlotBytes(0, 0));
      cells := cells[i := Tombstone];
    }

    /** Write a row over one that is no shorter. */
    method OverwriteRow(i: nat, c: Cell)
      requires Valid() && i < |cells| && cells[i].Live? && c.Live?
      requires c.offset == cells[i].offset && Size(c) <= Size(cells[i])
      modifies this`cells, data
      ensures Valid() && cells == old(cells)[i := c]
    {
      ghost var target := UpdateOk(data[..], cells, freeSpaceOffset, i, c);
      Store(c.offset, Record(c.key, c.vals), i, SlotImage(c), target);
      cells := cells[i := c];
    }

    /** Delete a row and insert its new version wherever it goes. */
    method MoveRow(i: nat, key: Bytes, vals: Bytes) returns (res: Outcome)
      requires Valid() && i < |cells|
      modifies this`slotCount, this`freeSpaceOffset, this`cells, data
      ensures Valid()
      ensures Placed(old(cells)[i := Tombstone], old(freeSpaceOffset), key, vals, res, cells, freeSpaceOffset)
    {
      DeleteRow(i);
      res := InsertRow(key, vals);
    }

    /** Overwrite a row in place if the new one is no longer, else delete it and insert anew. When the
        insert does not fit, the old row is gone. */
    method UpdateRow(i: int, key: Bytes, vals: Bytes) returns (res: Outcome)
      requires Valid()
      modifies this`slotCount, this`freeSpaceOffset, this`cells, data
      ensures Valid()
      ensures Updated(old(cells), old(freeSpaceOffset), i, key, vals, res, cells, freeSpaceOffset)
    {
      if i < 0 || i >= slotCount {
        return SlotNotFound;
      }
      var off, ln := GetSlot(i);
      if off == 0 && ln == 0 {
        return SlotNotFound;
      }
      var size := 4 + |key| + |vals|;
      if size <= ln {
        OverwriteRow(i, Live(off, key, vals));
        return Slot(i);
      }
      SlotToReuse(cells, i);
      res := MoveRow(i, key, vals);
    }

    /** The live rows, copied out. */
    method Collect() returns (rows: seq<(Bytes, Bytes)>)
      requires Valid()
      ensures rows == LiveRows(cells)
    {
      rows := [];
      var i := 0;
      while i < slotCount
        invariant 0 <= i <= slotCount && rows == LiveRows(cells[..i])
      {
        assert cells[..i + 1][..i] == cells[..i];
        var row := GetRow(i);
        if row.Some? {
          rows := rows + [row.value];
        }
        i := i + 1;
      }
      assert cells[..i] == cells;
    }

    method Clear()
      requires Valid()
      modifies this`slotCount, this`freeSpaceOffset, this`cells, data
      ensures Valid() && cells == [] && freeSpaceOffset == PAGE_SIZE
    {
      slotCount := 0;
      freeSpaceOffset := PAGE_SIZE;
      cells := [];
      for i := PAGE_HEADER_SIZE to PAGE_SIZE
        invariant slotCount == 0 && freeSpaceOffset == PAGE_SIZE && cells == []
      {
        data[i] := 0;
      }
    }

    /** Put the next row back: it always fits. */
    method Reinsert(rows: seq<(Bytes, Bytes)>, k: nat) returns (id: nat)
      requires Valid() && k < |rows| && Packed(cells, rows[..k], freeSpaceOffset)
      requires Needed(rows) <= PAGE_SIZE - PAGE_HEADER_SIZE
      modifies this`slotCount, this`freeSpaceOffset, this`cells, data
      ensures Valid() && Packed(cells, rows[..k + 1], freeSpaceOffset) && id == k
    {
      PackedRoom(cells, rows, k, freeSpaceOffset);
      ghost var before, free := cells, freeSpaceOffset;
      var res := InsertRow(rows[k].0, rows[k].1);
      assert res.Slot?;
      PackedMore(before, rows, k, free, Live(freeSpaceOffset, rows[k].0, rows[k].1));
      id := res.id;
    }

    /** Squeeze out deleted rows and gaps. The live rows stay, in the same order, and every one of
        them fits back in: the failure branch is never taken. */
    method Compact() returns (index: map<Bytes, nat>)
      requires Valid()
      modifies this`slotCount, this`freeSpaceOffset, this`cells, data
      ensures Valid() && LiveRows(cells) == old(LiveRows(cells)) && |cells| == |LiveRows(cells)|
      ensures index == SlotIndex(LiveRows(cells))
      ensures forall row :: Holds(cells, row) <==> Holds(old(cells), row)
      ensures Tombstone !in cells && Indexed(cells, index)
      ensures freeSpaceOffset + Needed(LiveRows(cells)) == PAGE_SIZE + SLOT_SIZE * |cells|
    {
      var rows := Collect();
      LiveRowsRoom(data[..], cells, freeSpaceOffset);
      Clear();
      index := Refill(rows);
      PackedRows(cells, rows);
      LiveRowsMeans(cells);
      LiveRowsMeans(old(cells));
      PackedIndexed(cells, rows);
    }

    /** Fill the empty page with rows that fit. */
    method Refill(rows: seq<(Bytes, Bytes)>) returns (index: map<Bytes, nat>)
      requires Valid() && cells == [] && freeSpaceOffset == PAGE_SIZE
      requires Needed(rows) <= PAGE_SIZE - PAGE_HEADER_SIZE
      modifies this`slotCount, this`freeSpaceOffset, this`cells, data
      ensures Valid() && Packed(cells, rows, freeSpaceOffset) && index == SlotIndex(rows)
    {
      index := map[];
      var k := 0;
      while k < |rows|
        invariant 0 <= k <= |rows| && Valid() && Packed(cells, rows[..k], freeSpaceOffset)
        invariant index == SlotIndex(rows[..k])
      {
        var id := Reinsert(rows, k);
        assert rows[..k + 1][..k] == rows[..k];
        index := index[rows[k].0 := id];
        k := k + 1;
      }
      assert rows[..k] == rows;
    }
  }
}
