/** The byte image of a slotted page and what it holds: a directory of slots growing up, records
    growing down from the end. */
module PageImage {
  import opened KeyOrder
  import opened Bytes

  const PAGE_SIZE := 4096
  const PAGE_HEADER_SIZE := 32
  const SLOT_SIZE := 4

  // ---------------------------------------------------------------- records and slots

  /** Key length, key, value length, value. */
  function Record(key: Bytes, vals: Bytes): (b: Bytes)
    ensures |b| == 4 + |key| + |vals|
  {
    LE(|key|, 2) + key + LE(|vals|, 2) + vals
  }

  function ParseRecord(rec: Bytes): Option<(Bytes, Bytes)> {
    if |rec| < 2 then None
    else
      var klen := FromLE(rec[..2]);
      if |rec| < 2 + klen + 2 then None
      else
        var vlen := FromLE(rec[2 + klen..4 + klen]);
        if |rec| < 4 + klen + vlen then None
        else Some((rec[2..2 + klen], rec[4 + klen..4 + klen + vlen]))
  }

  lemma Parts(k: Bytes, key: Bytes, v: Bytes, vals: Bytes, rec: Bytes)
    requires |k| == 2 && |v| == 2 && rec == k + key + v + vals
    ensures rec[..2] == k && rec[2..2 + |key|] == key
    ensures rec[2 + |key|..4 + |key|] == v && rec[4 + |key|..4 + |key| + |vals|] == vals
  {
  }

  /** A record reads back as the row it was made from. */
  lemma ParseBack(key: Bytes, vals: Bytes)
    requires |key| < UINT16_LIMIT && |vals| < UINT16_LIMIT
    ensures ParseRecord(Record(key, vals)) == Some((key, vals))
  {
    Pow256Values();
    Parts(LE(|key|, 2), key, LE(|vals|, 2), vals, Record(key, vals));
    FromLEInverse(|key|, 2);
    FromLEInverse(|vals|, 2);
  }

  /** Where the lengths and the contents are. */
  lemma RecordLayout(key: Bytes, vals: Bytes)
    requires |key| < UINT16_LIMIT && |vals| < UINT16_LIMIT
    ensures var r, k := Record(key, vals), |key|;
            && FromLE(r[..2]) == k && r[2..2 + k] == key
            && FromLE(r[2 + k..4 + k]) == |vals| && r[4 + k..] == vals
  {
    Pow256Values();
    Parts(LE(|key|, 2), key, LE(|vals|, 2), vals, Record(key, vals));
    FromLEInverse(|key|, 2);
    FromLEInverse(|vals|, 2);
  }

  function SlotBytes(offset: nat, length: nat): (b: Bytes)
    ensures |b| == SLOT_SIZE
  {
    LE(offset, 2) + LE(length, 2)
  }

  function SlotOf(b: Bytes): (nat, nat)
    requires |b| == SLOT_SIZE
  {
    (FromLE(b[..2]), FromLE(b[2..]))
  }

  lemma SlotBack(offset: nat, length: nat)
    requires offset < UINT16_LIMIT && length < UINT16_LIMIT
    ensures SlotOf(SlotBytes(offset, length)) == (offset, length)
  {
    Pow256Values();
    SplitBack(LE(offset, 2), LE(length, 2));
    FromLEInverse(offset, 2);
    FromLEInverse(length, 2);
  }

  function SlotBase(i: nat): nat {
    PAGE_HEADER_SIZE + i * SLOT_SIZE
  }

  // ---------------------------------------------------------------- writing into an image

  function Spliced(img: Bytes, at: nat, b: Bytes): (out: Bytes)
    requires at + |b| <= |img|
    ensures |out| == |img|
  {
    img[..at] + b + img[at + |b|..]
  }

  lemma Outside(img: Bytes, at: nat, b: Bytes, lo: nat, hi: nat)
    requires at + |b| <= |img| && lo <= hi <= |img| && (hi <= at || at + |b| <= lo)
    ensures Spliced(img, at, b)[lo..hi] == img[lo..hi]
  {
  }

  lemma Inside(img: Bytes, at: nat, b: Bytes)
    requires at + |b| <= |img|
    ensures Spliced(img, at, b)[at..at + |b|] == b
  {
  }

  // ---------------------------------------------------------------- what a page holds

  /** A slot: deleted, or a row with its record at `offset`. */
  datatype Cell = Tombstone | Live(offset: nat, key: Bytes, vals: Bytes)

  function Size(c: Cell): nat {
    if c.Live? then 4 + |c.key| + |c.vals| else 0
  }

  function SlotImage(c: Cell): Bytes {
    if c.Live? then SlotBytes(c.offset, Size(c)) else SlotBytes(0, 0)
  }

  /** The record of `c` is in place, at or above `free`. */
  ghost predicate InPlace(img: Bytes, c: Cell, free: nat) {
    c.Live? ==>
      && free <= c.offset && c.offset + Size(c) <= |img|
      && img[c.offset..c.offset + Size(c)] == Record(c.key, c.vals)
  }

  ghost predicate SlotHolds(img: Bytes, c: Cell, i: nat) {
    SlotBase(i) + SLOT_SIZE <= |img| && img[SlotBase(i)..SlotBase(i) + SLOT_SIZE] == SlotImage(c)
  }

  ghost predicate Disjoint(a: Cell, b: Cell) {
    a.Live? && b.Live? ==> a.offset + Size(a) <= b.offset || b.offset + Size(b) <= a.offset
  }

  /** The space the live records take. */
  function Total(cells: seq<Cell>): nat {
    if cells == [] then 0 else Total(cells[..|cells| - 1]) + Size(cells[|cells| - 1])
  }

  ghost predicate CellOk(img: Bytes, c: Cell, i: nat, free: nat) {
    SlotHolds(img, c, i) && InPlace(img, c, free)
  }

  ghost predicate CellsOk(img: Bytes, cells: seq<Cell>, free: nat) {
    && (forall i: nat | i < |cells| :: CellOk(img, cells[i], i, free))
    && (forall i, j | 0 <= i < j < |cells| :: Disjoint(cells[i], cells[j]))
  }

  ghost predicate PageOk(img: Bytes, cells: seq<Cell>, free: nat) {
    && |img| == PAGE_SIZE && SlotBase(|cells|) <= free <= PAGE_SIZE
    && CellsOk(img, cells, free)
    && Total(cells) <= PAGE_SIZE - free
  }

  lemma {:induction false} TotalUpdate(cells: seq<Cell>, i: nat, c: Cell)
    requires i < |cells|
    ensures Total(cells[i := c]) == Total(cells) - Size(cells[i]) + Size(c)
    ensures Total(cells) >= Size(cells[i])
  {
    var n := |cells| - 1;
    if i < n {
      TotalUpdate(cells[..n], i, c);
      assert cells[i := c][..n] == cells[..n][i := c];
    } else {
      assert cells[i := c][..n] == cells[..n];
    }
  }

  lemma TotalAppend(cells: seq<Cell>, c: Cell)
    ensures Total(cells + [c]) == Total(cells) + Size(c)
  {
    assert (cells + [c])[..|cells|] == cells;
  }

  // ---------------------------------------------------------------- writes that keep the page sound

  /** A write that hits neither the slot nor the record of a cell leaves the cell as it is. */
  lemma CellKept(img: Bytes, at: nat, b: Bytes, c: Cell, i: nat, free: nat)
    requires at + |b| <= |img| && CellOk(img, c, i, free)
    requires at + |b| <= SlotBase(i) || SlotBase(i) + SLOT_SIZE <= at
    requires c.Live? ==> at + |b| <= c.offset || c.offset + Size(c) <= at
    ensures CellOk(Spliced(img, at, b), c, i, free)
  {
    Outside(img, at, b, SlotBase(i), SlotBase(i) + SLOT_SIZE);
    if c.Live? {
      Outside(img, at, b, c.offset, c.offset + Size(c));
    }
  }

  /** Writing a record into the free space disturbs nothing. */
  lemma RecordWritten(img: Bytes, cells: seq<Cell>, free: nat, at: nat, rec: Bytes)
    requires CellsOk(img, cells, free) && SlotBase(|cells|) <= at && at + |rec| <= free <= |img|
    ensures CellsOk(Spliced(img, at, rec), cells, free)
  {
    var out := Spliced(img, at, rec);
    forall i: nat | i < |cells|
      ensures CellOk(out, cells[i], i, free)
    {
      assert CellOk(img, cells[i], i, free);
      CellKept(img, at, rec, cells[i], i, free);
    }
  }

  /** `cells` with slot `i` set, or added at the end. */
  function WithCell(cells: seq<Cell>, i: nat, c: Cell): seq<Cell>
    requires i <= |cells|
  {
    if i < |cells| then cells[i := c] else cells + [c]
  }

  /** Setting a slot to a cell whose record is in place. */
  lemma SlotSet(img: Bytes, c: Cell, i: nat, free: nat)
    requires SlotBase(i) + SLOT_SIZE <= free <= |img| && InPlace(img, c, free)
    ensures CellOk(Spliced(img, SlotBase(i), SlotImage(c)), c, i, free)
  {
    Inside(img, SlotBase(i), SlotImage(c));
    if c.Live? {
      Outside(img, SlotBase(i), SlotImage(c), c.offset, c.offset + Size(c));
    }
  }

  lemma CellsPlaced(out: Bytes, cells: seq<Cell>, free: nat, i: nat, c: Cell)
    requires i <= |cells| && CellOk(out, c, i, free)
    requires forall j: nat | j < |cells| && j != i :: CellOk(out, cells[j], j, free) && Disjoint(cells[j], c)
    requires forall j, k | 0 <= j < k < |cells| :: Disjoint(cells[j], cells[k])
    ensures CellsOk(out, WithCell(cells, i, c), free)
  {
    var cs := WithCell(cells, i, c);
    assert cs[i] == c && forall j: nat | j < |cs| && j != i :: cs[j] == cells[j];
  }

  lemma SlotMissed(img: Bytes, free: nat, i: nat, slot: Bytes, c: Cell, j: nat)
    requires CellOk(img, c, j, free) && i != j && |slot| == SLOT_SIZE && SlotBase(i) + SLOT_SIZE <= free <= |img|
    ensures CellOk(Spliced(img, SlotBase(i), slot), c, j, free)
  {
    CellKept(img, SlotBase(i), slot, c, j, free);
  }

  lemma SlotWritten(img: Bytes, cells: seq<Cell>, free: nat, i: nat, c: Cell)
    requires CellsOk(img, cells, free) && i <= |cells|
    requires SlotBase(i) + SLOT_SIZE <= free <= |img|
    requires InPlace(img, c, free) && forall j | 0 <= j < |cells| && j != i :: Disjoint(cells[j], c)
    ensures CellsOk(Spliced(img, SlotBase(i), SlotImage(c)), WithCell(cells, i, c), free)
  {
    var out := Spliced(img, SlotBase(i), SlotImage(c));
    SlotSet(img, c, i, free);
    forall j: nat | j < |cells| && j != i
      ensures CellOk(out, cells[j], j, free)
    {
      assert CellOk(img, cells[j], j, free);
      SlotMissed(img, free, i, SlotImage(c), cells[j], j);
    }
    CellsPlaced(out, cells, free, i, c);
  }

  lemma LowerFree(img: Bytes, cells: seq<Cell>, free: nat, lower: nat)
    requires CellsOk(img, cells, free) && lower <= free
    ensures CellsOk(img, cells, lower)
  {
    forall i: nat | i < |cells|
      ensures CellOk(img, cells[i], i, lower)
    {
      assert CellOk(img, cells[i], i, free);
    }
  }
}
