/** Leaf cells as bytes of a page: the layout of `btree/btree.go`. */
module CellBytes {
  import opened Bytes
  import opened TreeModel
  import opened Pages
  import opened PageKeys
  import opened Record
  import opened PageBytes

  const OFF_NEXT_LEAF: nat := 24
  const OFF_COUNT: nat := 32
  const OFF_CELLS: nat := 34
  const OVERFLOW_FLAG: nat := 0x8000

  /** A cell as the page keeps it; `over` marks the value as a pointer to an
      overflow chain. */
  datatype RawCell = RawCell(key: Bytes, val: Bytes, over: bool)

  /** The two lengths must fit their fields. */
  predicate Short(c: RawCell) {
    |c.key| < 0x1_0000 && |c.val| < OVERFLOW_FLAG
  }

  predicate AllShort(cells: seq<RawCell>) {
    forall i :: 0 <= i < |cells| ==> Short(cells[i])
  }

  function LengthField(c: RawCell): nat {
    |c.val| + if c.over then OVERFLOW_FLAG else 0
  }

  function Image(c: RawCell): (s: Bytes)
    ensures |s| == LEAF_CELL_OVERHEAD + |c.key| + |c.val|
  {
    LittleEndian(|c.key|, 2) + LittleEndian(LengthField(c), 2) + c.key + c.val
  }

  /** The cells one after the other. */
  function Area(cells: seq<RawCell>): Bytes {
    if cells == [] then [] else Image(cells[0]) + Area(cells[1..])
  }

  /** Where cell `i` starts. */
  function Offset(cells: seq<RawCell>, i: nat): nat
    requires i <= |cells|
  {
    OFF_CELLS + |Area(cells[..i])|
  }

  /** The page buffer `s` holds `cells`: their number, the cells and then only
      zeros. */
  predicate HoldsCells(s: Bytes, cells: seq<RawCell>) {
    && |s| == PAGE_SIZE && AllShort(cells) && |Area(cells)| <= MAX_CELL_AREA
    && s[OFF_COUNT..OFF_CELLS] == LittleEndian(|cells|, 2)
    && s[OFF_CELLS..] == Area(cells) + Zeros(MAX_CELL_AREA - |Area(cells)|)
  }

  /** The header and the next pointer are the same. */
  predicate SameHead(s: Bytes, t: Bytes) {
    |s| == |t| == PAGE_SIZE && s[..OFF_COUNT] == t[..OFF_COUNT]
  }

  // ---------- the layout ----------

  lemma {:induction false} AreaOfTwo(a: seq<RawCell>, b: seq<RawCell>)
    ensures Area(a + b) == Area(a) + Area(b)
  {
    hide *;
    if a == [] {
      assert a + b == b;
      EmptyArea();
    } else {
      assert (a + b)[1..] == a[1..] + b && (a + b)[0] == a[0];
      AreaOfTwo(a[1..], b);
      AreaStep(a);
      AreaStep(a + b);
    }
  }

  lemma AreaStep(cells: seq<RawCell>)
    requires cells != []
    ensures Area(cells) == Image(cells[0]) + Area(cells[1..])
  {
    hide Image;
  }

  lemma AreaAround(cells: seq<RawCell>, i: nat)
    requires i < |cells|
    ensures Area(cells) == Area(cells[..i]) + Image(cells[i]) + Area(cells[i + 1..])
    ensures Offset(cells, i + 1) == Offset(cells, i) + |Image(cells[i])|
  {
    AreaOfTwo(cells[..i], cells[i..]);
    assert cells == cells[..i] + cells[i..] && cells[i..][1..] == cells[i + 1..];
    AreaOfTwo(cells[..i], [cells[i]]);
    assert cells[..i + 1] == cells[..i] + [cells[i]];
    assert Area([cells[i]]) == Image(cells[i]) + Area([cells[i]][1..]);
    hide Image, Area;
  }

  lemma AreaSplit(cells: seq<RawCell>, i: nat)
    requires i <= |cells|
    ensures Area(cells) == Area(cells[..i]) + Area(cells[i..])
    ensures Offset(cells, i) <= Offset(cells, |cells|) == OFF_CELLS + |Area(cells)|
  {
    hide Area;
    AreaOfTwo(cells[..i], cells[i..]);
    assert cells == cells[..i] + cells[i..] && cells[..|cells|] == cells;
  }

  lemma {:induction false} CountIsSmall(cells: seq<RawCell>)
    ensures LEAF_CELL_OVERHEAD * |cells| <= |Area(cells)|
  {
    if cells != [] {
      CountIsSmall(cells[1..]);
    }
  }

  lemma CountReads(s: Bytes, cells: seq<RawCell>)
    requires HoldsCells(s, cells)
    ensures Uint(s, OFF_COUNT, 2) == |cells| <= 1015
  {
    CountIsSmall(cells);
    assert Pow256(2) == 65536 by {
      assert Pow256(1) == 256 * Pow256(0);
    }
    LittleInverts(|cells|, 2);
  }

  /** Cell `i` where the code looks for it. */
  lemma ImageAt(s: Bytes, cells: seq<RawCell>, i: nat)
    requires HoldsCells(s, cells) && i < |cells|
    ensures var off, n := Offset(cells, i), |Image(cells[i])|;
            off + n <= |s| == PAGE_SIZE && s[off..off + n] == Image(cells[i])
  {
    AreaAround(cells, i);
    var m, b, a := Image(cells[i]), Area(cells[..i]), Area(cells[i + 1..]);
    var z := Zeros(MAX_CELL_AREA - |Area(cells)|);
    hide Area, Image, LittleEndian, AllShort, Zeros;
    var t := s[OFF_CELLS..];
    assert t == b + m + a + z;
    Middle(b, m, a, z);
    SliceOfTail(s, OFF_CELLS, |b|, |m|);
  }

  lemma Middle(b: Bytes, m: Bytes, a: Bytes, z: Bytes)
    ensures (b + m + a + z)[|b|..|b| + |m|] == m
  {
  }

  lemma SliceOfTail(s: Bytes, at: nat, off: nat, n: nat)
    requires at + off + n <= |s|
    ensures s[at + off..at + off + n] == s[at..][off..off + n]
  {
  }

  /** The fields of cell `i` where the code reads them. */
  lemma CellReads(s: Bytes, cells: seq<RawCell>, i: nat)
    requires HoldsCells(s, cells) && i < |cells|
    ensures var c, off := cells[i], Offset(cells, i);
            && off + |Image(c)| <= |s| == PAGE_SIZE && Short(c)
            && Uint(s, off, 2) == |c.key| && Uint(s, off + 2, 2) == LengthField(c)
            && s[off + 4..off + 4 + |c.key|] == c.key
            && s[off + 4 + |c.key|..off + 4 + |c.key| + |c.val|] == c.val
  {
    ImageAt(s, cells, i);
    assert Short(cells[i]);
    ImageReads(cells[i]);
    assert |Image(cells[i])| == 4 + |cells[i].key| + |cells[i].val|;
    FieldSlices(s, Offset(cells, i), Image(cells[i]), |cells[i].key|);
    hide HoldsCells, LittleEndian, LittleValue, Area, Image;
  }

  lemma FieldSlices(s: Bytes, off: nat, m: Bytes, k: nat)
    requires off + |m| <= |s| && s[off..off + |m|] == m && 4 + k <= |m|
    ensures s[off..off + 2] == m[..2] && s[off + 2..off + 4] == m[2..4]
    ensures s[off + 4..off + 4 + k] == m[4..4 + k] && s[off + 4 + k..off + |m|] == m[4 + k..]
  {
    forall i | 0 <= i < |m| ensures s[off + i] == m[i] {
      assert s[off..off + |m|][i] == s[off + i];
    }
  }

  lemma ImageReads(c: RawCell)
    requires Short(c)
    ensures LittleValue(Image(c)[..2]) == |c.key| && LittleValue(Image(c)[2..4]) == LengthField(c)
    ensures Image(c)[4..4 + |c.key|] == c.key && Image(c)[4 + |c.key|..] == c.val
  {
    assert Pow256(2) == 65536 by {
      assert Pow256(1) == 256 * Pow256(0);
    }
    LittleInverts(|c.key|, 2);
    LittleInverts(LengthField(c), 2);
    hide LittleEndian, LittleValue;
    FourSlices(LittleEndian(|c.key|, 2), LittleEndian(LengthField(c), 2), c.key, c.val);
  }

  lemma FourSlices(a: Bytes, b: Bytes, c: Bytes, d: Bytes)
    requires |a| == |b| == 2
    ensures var s := a + b + c + d;
            s[..2] == a && s[2..4] == b && s[4..4 + |c|] == c && s[4 + |c|..] == d
  {
  }

  // ---------- reading ----------

  /** `leafCellOffset`. */
  method LeafCellOffset(buf: array<byte>, i: nat, ghost cells: seq<RawCell>) returns (off: nat)
    requires HoldsCells(buf[..], cells) && i <= |cells|
    ensures off == Offset(cells, i) <= PAGE_SIZE
  {
    hide Area, LittleEndian, LittleValue, Image;
    assert cells[..0] == [] && buf.Length == |buf[..]|;
    EmptyArea();
    off := OFF_CELLS;
    for j := 0 to i
      invariant off == Offset(cells, j) <= PAGE_SIZE
    {
      CellReads(buf[..], cells, j);
      AreaAround(cells, j);
      var kl := Uint(buf[..], off, 2);
      var vl := Uint(buf[..], off + 2, 2) % OVERFLOW_FLAG;
      off := off + LEAF_CELL_OVERHEAD + kl + vl;
    }
  }

  lemma EmptyArea()
    ensures Area([]) == []
  {
  }

  /** `leafCellKey`. */
  method LeafCellKey(buf: array<byte>, i: nat, ghost cells: seq<RawCell>) returns (key: Bytes)
    requires HoldsCells(buf[..], cells) && i < |cells|
    ensures key == cells[i].key
  {
    hide HoldsCells, LittleEndian, LittleValue, Offset, Area, Image;
    var off := LeafCellOffset(buf, i, cells);
    CellReads(buf[..], cells, i);
    assert buf.Length == |buf[..]|;
    var kl := Uint(buf[..], off, 2);
    key := buf[off + LEAF_CELL_OVERHEAD..off + LEAF_CELL_OVERHEAD + kl];
    assert key == buf[..][off + 4..off + 4 + kl];
  }

  /** `leafCellValue`: the value, whether it is a pointer to a chain, and the
      first page of the chain. */
  method LeafCellValue(buf: array<byte>, i: nat, ghost cells: seq<RawCell>) returns (val: Bytes, over: bool, first: nat)
    requires HoldsCells(buf[..], cells) && i < |cells|
    ensures val == cells[i].val && over == cells[i].over
    ensures first == if over && |val| >= 12 then LittleValue(val[..8]) else 0
  {
    hide HoldsCells, LittleEndian, LittleValue, Offset, Area, Image;
    var off := LeafCellOffset(buf, i, cells);
    CellReads(buf[..], cells, i);
    assert buf.Length == |buf[..]|;
    var kl := Uint(buf[..], off, 2);
    var vlRaw := Uint(buf[..], off + 2, 2);
    over := vlRaw >= OVERFLOW_FLAG;
    var vl := vlRaw % OVERFLOW_FLAG;
    var valStart := off + LEAF_CELL_OVERHEAD + kl;
    val := buf[valStart..valStart + vl];
    assert val == buf[..][valStart..valStart + vl];
    first := 0;
    if over && vl >= 12 {
      first := Uint(val, 0, 8);
    }
  }

  // ---------- inserting ----------

  /** `leafInsertCell`: the cells are those before with one more at `i`, and
      nothing but the count and the cells changes. */
  method LeafInsertCell(buf: array<byte>, i: nat, key: Bytes, val: Bytes, isOverflow: bool, ghost cells: seq<RawCell>)
    requires HoldsCells(buf[..], cells) && i <= |cells| && Short(RawCell(key, val, isOverflow))
    requires |Area(cells)| + LEAF_CELL_OVERHEAD + |key| + |val| <= MAX_CELL_AREA
    modifies buf
    ensures HoldsCells(buf[..], InsertAt(cells, i, RawCell(key, val, isOverflow)))
    ensures SameHead(buf[..], old(buf[..]))
  {
    hide *;
    var c := RawCell(key, val, isOverflow);
    ghost var s0 := buf[..];
    EndOfCells(s0, cells);
    ImageFits(cells, c);
    var count := Uint(buf[..], OFF_COUNT, 2);
    var cellSize := LEAF_CELL_OVERHEAD + |key| + |val|;
    var insertOff := LeafCellOffset(buf, i, cells);
    var endOff := LeafCellOffset(buf, count, cells);
    Inserted(s0, cells, i, c, endOff);
    Copy(buf, insertOff + cellSize, insertOff, endOff - insertOff);
    WriteCell(buf, insertOff, c);
    PutUint(buf, OFF_COUNT, 2, count + 1);
    SplicedIs(s0, insertOff, endOff, Image(c), LittleEndian(count + 1, 2));
  }

  lemma ImageFits(cells: seq<RawCell>, c: RawCell)
    requires |Area(cells)| + LEAF_CELL_OVERHEAD + |c.key| + |c.val| <= MAX_CELL_AREA
    ensures |Area(cells)| + |Image(c)| <= MAX_CELL_AREA && |Image(c)| == LEAF_CELL_OVERHEAD + |c.key| + |c.val|
  {
    hide Area, Image;
  }

  lemma SplicedIs(s: Bytes, off: nat, end: nat, m: Bytes, count: Bytes)
    requires off <= end && end + |m| <= |s| && OFF_COUNT + |count| <= |s|
    ensures Spliced(s, off, end, m, count) == Overlay(Overlay(Overlay(s, off + |m|, s[off..end]), off, m), OFF_COUNT, count)
  {
  }

  lemma ImageIs(c: RawCell)
    ensures Image(c) == LittleEndian(|c.key|, 2) + LittleEndian(LengthField(c), 2) + c.key + c.val
    ensures LengthField(c) == (if c.over then |c.val| + OVERFLOW_FLAG else |c.val|) && LEAF_CELL_OVERHEAD == 4
  {
  }

  /** The cell written at an offset. */
  method WriteCell(buf: array<byte>, off: nat, c: RawCell)
    requires off + |Image(c)| <= buf.Length && Short(c)
    modifies buf
    ensures buf[..] == Overlay(old(buf[..]), off, Image(c))
  {
    hide *;
    ImageIs(c);
    FourWrites(buf[..], off, LittleEndian(|c.key|, 2), LittleEndian(LengthField(c), 2), c.key, c.val);
    PutUint(buf, off, 2, |c.key|);
    var vlField := |c.val|;
    if c.over {
      vlField := vlField + OVERFLOW_FLAG;
    }
    PutUint(buf, off + 2, 2, vlField);
    Write(buf, off + LEAF_CELL_OVERHEAD, c.key);
    Write(buf, off + LEAF_CELL_OVERHEAD + |c.key|, c.val);
  }

  /** Where the count and the end of the cells are. */
  lemma EndOfCells(s: Bytes, cells: seq<RawCell>)
    requires HoldsCells(s, cells)
    ensures |s| == PAGE_SIZE && OFF_COUNT + 2 <= PAGE_SIZE && Uint(s, OFF_COUNT, 2) == |cells| && Offset(cells, |cells|) == OFF_CELLS + |Area(cells)|
  {
    CountReads(s, cells);
    assert cells[..|cells|] == cells;
    hide Area;
  }

  lemma FourWrites(s: Bytes, off: nat, a: Bytes, b: Bytes, c: Bytes, d: Bytes)
    requires off + |a| + |b| + |c| + |d| <= |s|
    ensures Overlay(Overlay(Overlay(Overlay(s, off, a), off + |a|, b), off + |a| + |b|, c), off + |a| + |b| + |c|, d)
            == Overlay(s, off, a + b + c + d)
  {
    hide Overlay;
    TwoWrites(s, off, a, b);
    TwoWrites(s, off, a + b, c);
    TwoWrites(s, off, a + b + c, d);
  }

  lemma TwoWrites(s: Bytes, off: nat, a: Bytes, b: Bytes)
    requires off + |a| + |b| <= |s|
    ensures Overlay(Overlay(s, off, a), off + |a|, b) == Overlay(s, off, a + b)
  {
    assert Overlay(s, off, a)[..off + |a|] == s[..off] + a;
  }

  /** A page that holds cells is its first 32 bytes, the count and the cells. */
  lemma Parts(s: Bytes, cells: seq<RawCell>)
    requires HoldsCells(s, cells)
    ensures |s| == PAGE_SIZE && |Area(cells)| <= MAX_CELL_AREA
    ensures s == s[..OFF_COUNT] + LittleEndian(|cells|, 2) + Area(cells) + Zeros(MAX_CELL_AREA - |Area(cells)|)
  {
    hide Area, LittleEndian, Zeros, AllShort;
    assert s == s[..OFF_COUNT] + s[OFF_COUNT..OFF_CELLS] + s[OFF_CELLS..];
  }

  lemma FromParts(s: Bytes, was: Bytes, cells: seq<RawCell>)
    requires |was| == PAGE_SIZE && AllShort(cells) && |Area(cells)| <= MAX_CELL_AREA
    requires s == was[..OFF_COUNT] + LittleEndian(|cells|, 2) + Area(cells) + Zeros(MAX_CELL_AREA - |Area(cells)|)
    ensures HoldsCells(s, cells) && SameHead(s, was)
  {
    hide Area, LittleEndian, AllShort;
  }

  lemma ShiftRight(p: Bytes, a: Bytes, z: Bytes, m: Bytes)
    requires |m| <= |z|
    ensures Overlay(Overlay(p + a + z, |p| + |m|, a), |p|, m) == p + m + a + z[|m|..]
  {
    assert Overlay(p + a + z, |p| + |m|, a)[|p| + |m|..] == a + z[|m|..];
  }

  lemma NewCount(head: Bytes, n: Bytes, rest: Bytes, n': Bytes)
    requires |n| == |n'|
    ensures Overlay(head + n + rest, |head|, n') == head + n' + rest
  {
  }

  /** `s` with room made at `off` for `m`, the bytes up to `end` moved right,
      and a new count. */
  function Spliced(s: Bytes, off: nat, end: nat, m: Bytes, count: Bytes): (r: Bytes)
    requires off <= end && end + |m| <= |s| && OFF_COUNT + |count| <= |s|
    ensures |r| == |s|
  {
    Overlay(Overlay(Overlay(s, off + |m|, s[off..end]), off, m), OFF_COUNT, count)
  }

  lemma Regroup(p: Bytes, a: Bytes, b: Bytes, c: Bytes, z: Bytes)
    ensures p + a + b + c + z == p + (a + b + c) + z == p + (a + b + c + z) == p + (a + b) + (c + z)
    ensures p + a + b + z == p + (a + b) + z == p + (a + b + z)
  {
  }

  lemma SplicedParts(s: Bytes, h: Bytes, n: Bytes, b: Bytes, a: Bytes, z: Bytes, m: Bytes, n': Bytes)
    requires |m| <= |z| && |n| == |n'| && |h| == OFF_COUNT && s == h + n + (b + a) + z
    ensures var off := |h| + |n| + |b|; Spliced(s, off, off + |a|, m, n') == h + n' + (b + m + a) + z[|m|..]
  {
    hide *;
    var off, z' := |h| + |n| + |b|, z[|m|..];
    Regroup(h + n, b, a, [], z);
    BytesAfter(h + n + b, [], a, z);
    ShiftRight(h + n + b, a, z, m);
    Regroup(h + n, b, m, a, z');
    NewCount(h, n, b + m + a + z', n');
    Regroup(h + n', b, m, a, z');
    SplicedIs(s, off, off + |a|, m, n');
  }

  lemma Inserted(s: Bytes, cells: seq<RawCell>, i: nat, c: RawCell, end: nat)
    requires HoldsCells(s, cells) && i <= |cells| && Short(c) && |Area(cells)| + |Image(c)| <= MAX_CELL_AREA
    requires end == OFF_CELLS + |Area(cells)|
    ensures Offset(cells, i) <= end && end + |Image(c)| <= PAGE_SIZE == |s|
    ensures var r := Spliced(s, Offset(cells, i), end, Image(c), LittleEndian(|cells| + 1, 2));
            HoldsCells(r, InsertAt(cells, i, c)) && SameHead(r, s)
  {
    hide *;
    var before, after, rest := Area(cells[..i]), Area(cells[i..]), MAX_CELL_AREA - |Area(cells)|;
    OffsetIs(cells, i);
    InsertedCells(cells, i, c);
    AreaSplit(cells, i);
    Parts(s, cells);
    HoldsShort(s, cells);
    FewerZeros(rest, |Image(c)|);
    SplicedParts(s, s[..OFF_COUNT], LittleEndian(|cells|, 2), before, after, Zeros(rest), Image(c), LittleEndian(|cells| + 1, 2));
    FromParts(Spliced(s, Offset(cells, i), end, Image(c), LittleEndian(|cells| + 1, 2)), s, InsertAt(cells, i, c));
  }

  lemma OffsetIs(cells: seq<RawCell>, i: nat)
    requires i <= |cells|
    ensures Offset(cells, i) == OFF_COUNT + 2 + |Area(cells[..i])|
    ensures OFF_COUNT + 2 == OFF_CELLS && OFF_CELLS + MAX_CELL_AREA == PAGE_SIZE
  {
    hide Area;
  }

  lemma HoldsShort(s: Bytes, cells: seq<RawCell>)
    requires HoldsCells(s, cells)
    ensures AllShort(cells)
  {
  }

  lemma FewerZeros(n: nat, k: nat)
    requires k <= n
    ensures Zeros(n)[k..] == Zeros(n - k) && Zeros(k) + Zeros(n - k) == Zeros(n)
  {
  }

  lemma InsertedCells(cells: seq<RawCell>, i: nat, c: RawCell)
    requires i <= |cells|
    ensures Area(InsertAt(cells, i, c)) == Area(cells[..i]) + Image(c) + Area(cells[i..])
    ensures |InsertAt(cells, i, c)| == |cells| + 1
    ensures AllShort(cells) && Short(c) ==> AllShort(InsertAt(cells, i, c))
  {
    var all := InsertAt(cells, i, c);
    AreaAround(all, i);
    assert all[..i] == cells[..i] && all[i] == c && all[i + 1..] == cells[i..];
    hide Area, Image;
  }

  // ---------- deleting ----------

  /** `leafDeleteCell`: the cells are those before without the one at `i`, and
      nothing but the count and the cells changes. */
  method LeafDeleteCell(buf: array<byte>, i: nat, ghost cells: seq<RawCell>)
    requires HoldsCells(buf[..], cells) && i < |cells|
    modifies buf
    ensures HoldsCells(buf[..], RemoveAt(cells, i))
    ensures SameHead(buf[..], old(buf[..]))
  {
    hide *;
    ghost var s0 := buf[..];
    EndOfCells(s0, cells);
    SizeReads(s0, cells, i);
    var count := Uint(buf[..], OFF_COUNT, 2);
    var cellOff := LeafCellOffset(buf, i, cells);
    var endOff := LeafCellOffset(buf, count, cells);
    var kl := Uint(buf[..], cellOff, 2);
    var vl := Uint(buf[..], cellOff + 2, 2) % OVERFLOW_FLAG;
    var cellSize := LEAF_CELL_OVERHEAD + kl + vl;
    Deleted(s0, cells, i, endOff);
    Copy(buf, cellOff, cellOff + cellSize, endOff - cellOff - cellSize);
    Clear(buf, endOff - cellSize, cellSize);
    PutUint(buf, OFF_COUNT, 2, count - 1);
    ClosedIs(s0, cellOff, endOff, cellSize, LittleEndian(count - 1, 2));
  }

  lemma ClosedIs(s: Bytes, off: nat, end: nat, size: nat, count: Bytes)
    requires off + size <= end <= |s| && OFF_COUNT + |count| <= |s|
    ensures Closed(s, off, end, size, count)
            == Overlay(Overlay(Overlay(s, off, s[off + size..end]), end - size, Zeros(size)), OFF_COUNT, count)
  {
  }

  /** The size of cell `i`, computed from its two length fields. */
  lemma SizeReads(s: Bytes, cells: seq<RawCell>, i: nat)
    requires HoldsCells(s, cells) && i < |cells|
    ensures var off := Offset(cells, i);
            OVERFLOW_FLAG > 0 && off + 4 <= |s| && LEAF_CELL_OVERHEAD + Uint(s, off, 2) + Uint(s, off + 2, 2) % OVERFLOW_FLAG == |Image(cells[i])|
  {
    CellReads(s, cells, i);
    assert Short(cells[i]);
    hide Area, LittleEndian, LittleValue, Offset;
  }

  lemma ShiftLeft(p: Bytes, m: Bytes, a: Bytes, z: Bytes, gap: Bytes)
    requires |gap| == |m|
    ensures Overlay(Overlay(p + m + a + z, |p|, a), |p| + |a|, gap) == p + a + gap + z
  {
    assert Overlay(p + m + a + z, |p|, a)[..|p| + |a|] == p + a;
  }

  /** `s` with the bytes from `off + size` to `end` moved left by `size`, zeros
      after them, and a new count. */
  function Closed(s: Bytes, off: nat, end: nat, size: nat, count: Bytes): (r: Bytes)
    requires off + size <= end <= |s| && OFF_COUNT + |count| <= |s|
    ensures |r| == |s|
  {
    Overlay(Overlay(Overlay(s, off, s[off + size..end]), end - size, Zeros(size)), OFF_COUNT, count)
  }

  lemma ClosedParts(s: Bytes, h: Bytes, n: Bytes, b: Bytes, m: Bytes, a: Bytes, z: Bytes, n': Bytes)
    requires |n| == |n'| && |h| == OFF_COUNT && s == h + n + (b + m + a) + z
    ensures var off := |h| + |n| + |b|;
            Closed(s, off, off + |m| + |a|, |m|, n') == h + n' + (b + a) + (Zeros(|m|) + z)
  {
    hide *;
    var off, gap := |h| + |n| + |b|, Zeros(|m|);
    Regroup(h + n, b, m, a, z);
    BytesAfter(h + n + b, m, a, z);
    ShiftLeft(h + n + b, m, a, z, gap);
    Regroup(h + n, b, a, gap, z);
    NewCount(h, n, b + a + gap + z, n');
    Regroup(h + n', b, a, gap, z);
    ClosedIs(s, off, off + |m| + |a|, |m|, n');
  }

  lemma BytesAfter(p: Bytes, m: Bytes, a: Bytes, z: Bytes)
    ensures (p + m + a + z)[|p| + |m|..|p| + |m| + |a|] == a
  {
  }

  lemma Deleted(s: Bytes, cells: seq<RawCell>, i: nat, end: nat)
    requires HoldsCells(s, cells) && i < |cells| && end == OFF_CELLS + |Area(cells)|
    ensures Offset(cells, i) + |Image(cells[i])| <= end <= PAGE_SIZE == |s|
    ensures var r := Closed(s, Offset(cells, i), end, |Image(cells[i])|, LittleEndian(|cells| - 1, 2));
            HoldsCells(r, RemoveAt(cells, i)) && SameHead(r, s)
  {
    hide *;
    var before, after, rest := Area(cells[..i]), Area(cells[i + 1..]), MAX_CELL_AREA - |Area(cells)|;
    var m := Image(cells[i]);
    OffsetIs(cells, i);
    DeletedCells(cells, i);
    AreaAround(cells, i);
    Parts(s, cells);
    HoldsShort(s, cells);
    FewerZeros(rest + |m|, |m|);
    ClosedParts(s, s[..OFF_COUNT], LittleEndian(|cells|, 2), before, m, after, Zeros(rest), LittleEndian(|cells| - 1, 2));
    FromParts(Closed(s, Offset(cells, i), end, |m|, LittleEndian(|cells| - 1, 2)), s, RemoveAt(cells, i));
  }

  lemma DeletedCells(cells: seq<RawCell>, i: nat)
    requires i < |cells|
    ensures Area(RemoveAt(cells, i)) == Area(cells[..i]) + Area(cells[i + 1..])
    ensures |RemoveAt(cells, i)| == |cells| - 1
    ensures AllShort(cells) ==> AllShort(RemoveAt(cells, i))
  {
    AreaOfTwo(cells[..i], cells[i + 1..]);
    hide Area, Image;
  }

  // ---------- space ----------

  /** `leafHasSpace`: whether one more cell fits. */
  method LeafHasSpace(buf: array<byte>, key: Bytes, val: Bytes, ghost cells: seq<RawCell>) returns (ok: bool)
    requires HoldsCells(buf[..], cells)
    ensures ok <==> |Area(cells)| + LEAF_CELL_OVERHEAD + |key| + |val| <= MAX_CELL_AREA
  {
    hide *;
    EndOfCells(buf[..], cells);
    var count := Uint(buf[..], OFF_COUNT, 2);
    var off := LeafCellOffset(buf, count, cells);
    var used := off - OFF_CELLS;
    var needed := LEAF_CELL_OVERHEAD + |key| + |val|;
    return used + needed <= MAX_CELL_AREA;
  }

  // ---------- the cells of a leaf page ----------

  /** The cell that stands for a stored value: the value itself, or the first
      page and the length of its chain. */
  function Raw(c: LeafCell): (r: RawCell)
    ensures |r.val| == StoredLen(c.val)
  {
    match c.val
    case Inline(v) => RawCell(c.key, v, false)
    case Overflow(first, len) => RawCell(c.key, LittleEndian(first, 8) + LittleEndian(len, 4), true)
  }

  function RawAll(cells: seq<LeafCell>): (r: seq<RawCell>)
    ensures |r| == |cells|
  {
    seq(|cells|, i requires 0 <= i < |cells| => Raw(cells[i]))
  }

  /** The page buffer `s` is that of the leaf page `p`. */
  predicate HoldsPage(s: Bytes, p: Page) {
    p.LeafPage? && HoldsCells(s, RawAll(p.cells)) && Uint(s, OFF_NEXT_LEAF, 8) == p.next
  }

  /** Page ids and lengths fit their fields. */
  predicate Representable(p: Page) {
    p.LeafPage? && forall i :: 0 <= i < |p.cells| && p.cells[i].val.Overflow? ==>
                                 p.cells[i].val.first < Pow256(8) && p.cells[i].val.len < Pow256(4)
  }

  /** The bytes a page's cells take are what the page model counts. */
  lemma {:induction false} RawSize(cells: seq<LeafCell>)
    ensures |Area(RawAll(cells))| == LeafUsed(cells)
  {
    if cells != [] {
      assert RawAll(cells)[1..] == RawAll(cells[1..]);
      RawSize(cells[1..]);
    }
  }

  lemma RawInsert(cells: seq<LeafCell>, i: nat, c: LeafCell)
    requires i <= |cells|
    ensures RawAll(InsertAt(cells, i, c)) == InsertAt(RawAll(cells), i, Raw(c))
  {
    hide Raw;
  }

  lemma RawRemove(cells: seq<LeafCell>, i: nat)
    requires i < |cells|
    ensures RawAll(RemoveAt(cells, i)) == RemoveAt(RawAll(cells), i)
  {
    hide Raw;
  }

  /** What `LeafInsertCell` and `LeafDeleteCell` do to a buffer is what the page
      model does to the page. */
  lemma PageInsert(s: Bytes, t: Bytes, p: Page, i: nat, c: LeafCell)
    requires HoldsPage(s, p) && i <= |p.cells| && HoldsCells(t, InsertAt(RawAll(p.cells), i, Raw(c))) && SameHead(t, s)
    ensures HoldsPage(t, LeafPage(InsertAt(p.cells, i, c), p.next))
  {
    RawInsert(p.cells, i, c);
    SameNext(s, t);
    hide HoldsCells, InsertAt, RawAll, Raw, LittleValue;
  }

  lemma PageRemove(s: Bytes, t: Bytes, p: Page, i: nat)
    requires HoldsPage(s, p) && i < |p.cells| && HoldsCells(t, RemoveAt(RawAll(p.cells), i)) && SameHead(t, s)
    ensures HoldsPage(t, LeafPage(RemoveAt(p.cells, i), p.next))
  {
    RawRemove(p.cells, i);
    SameNext(s, t);
    hide HoldsCells, RemoveAt, RawAll, LittleValue;
  }

  lemma SameNext(s: Bytes, t: Bytes)
    requires SameHead(t, s)
    ensures Uint(s, OFF_NEXT_LEAF, 8) == Uint(t, OFF_NEXT_LEAF, 8)
  {
    assert s[..OFF_COUNT][OFF_NEXT_LEAF..] == s[OFF_NEXT_LEAF..OFF_NEXT_LEAF + 8];
    assert t[..OFF_COUNT][OFF_NEXT_LEAF..] == t[OFF_NEXT_LEAF..OFF_NEXT_LEAF + 8];
  }

  /** The bytes of a leaf page: the next leaf at 24, the number of cells at 32,
      and from 34 on the cells.  A cell has the length of its key, the length of
      its value, the key and the value; for a value kept on overflow pages the
      length is 12 and marked by its top bit, and in the place of the value are
      the first page and the length. */
  lemma LeafBytes(s: Bytes, p: Page, i: nat)
    requires HoldsPage(s, p) && i < |p.cells|
    ensures |s| == 4096 && Uint(s, 24, 8) == p.next && Uint(s, 32, 2) == |p.cells|
    ensures var c, off := p.cells[i], 34 + LeafUsed(p.cells[..i]);
            var at, n := off + 4 + |c.key|, if c.val.Inline? then |c.val.val| else 12;
            && at + n <= 4096
            && Uint(s, off, 2) == |c.key| && s[off + 4..at] == c.key
            && match c.val
               case Inline(v) => Uint(s, off + 2, 2) == n < 0x8000 && s[at..at + n] == v
               case Overflow(first, len) =>
                 && Uint(s, off + 2, 2) == 0x800C
                 && s[at..at + 8] == LittleEndian(first, 8) && s[at + 8..at + 12] == LittleEndian(len, 4)
  {
    hide *;
    PageIs(s, p, i);
    var cells := RawAll(p.cells);
    EndOfCells(s, cells);
    CellReads(s, cells, i);
    RawSize(p.cells[..i]);
    RawIs(p.cells[i], s, 34 + LeafUsed(p.cells[..i]));
  }

  lemma PageIs(s: Bytes, p: Page, i: nat)
    requires HoldsPage(s, p) && i < |p.cells|
    ensures p.LeafPage? && HoldsCells(s, RawAll(p.cells)) && Uint(s, 24, 8) == p.next && OFF_COUNT == 32 && PAGE_SIZE == 4096
    ensures RawAll(p.cells)[i] == Raw(p.cells[i])
    ensures Offset(RawAll(p.cells), i) == 34 + |Area(RawAll(p.cells[..i]))|
  {
    assert RawAll(p.cells)[..i] == RawAll(p.cells[..i]);
    hide HoldsCells, Raw, LittleValue, Area;
  }

  lemma RawIs(c: LeafCell, s: Bytes, off: nat)
    requires var r := Raw(c);
             && off + |Image(r)| <= |s| && Short(r) && Uint(s, off, 2) == |r.key| && Uint(s, off + 2, 2) == LengthField(r)
             && s[off + 4..off + 4 + |r.key|] == r.key
             && s[off + 4 + |r.key|..off + 4 + |r.key| + |r.val|] == r.val
    ensures var at, n := off + 4 + |c.key|, if c.val.Inline? then |c.val.val| else 12;
            && at + n <= |s|
            && Uint(s, off, 2) == |c.key| && s[off + 4..at] == c.key
            && match c.val
               case Inline(v) => Uint(s, off + 2, 2) == n < 0x8000 && s[at..at + n] == v
               case Overflow(first, len) =>
                 && Uint(s, off + 2, 2) == 0x800C
                 && s[at..at + 8] == LittleEndian(first, 8) && s[at + 8..at + 12] == LittleEndian(len, 4)
  {
    hide LittleEndian, LittleValue;
    var r, at := Raw(c), off + 4 + |c.key|;
    if c.val.Overflow? {
      assert s[at..at + 8] == s[at..at + 12][..8] && s[at + 8..at + 12] == s[at..at + 12][8..];
    }
  }

  // ---------- a buffer is that of one page only ----------

  lemma {:induction false} SameUpTo(s: Bytes, a: seq<RawCell>, b: seq<RawCell>, i: nat)
    requires HoldsCells(s, a) && HoldsCells(s, b) && i <= |a| == |b|
    ensures a[..i] == b[..i]
  {
    hide *;
    if i > 0 {
      SameUpTo(s, a, b, i - 1);
      CellReads(s, a, i - 1);
      CellReads(s, b, i - 1);
      SameCell(a, b, i - 1);
      assert a[..i] == a[..i - 1] + [a[i - 1]] && b[..i] == b[..i - 1] + [b[i - 1]];
    }
  }

  lemma SameCell(a: seq<RawCell>, b: seq<RawCell>, i: nat)
    requires i < |a| == |b| && a[..i] == b[..i] && Short(a[i]) && Short(b[i])
    ensures Offset(a, i) == Offset(b, i)
    ensures LengthField(a[i]) == LengthField(b[i]) ==> |a[i].val| == |b[i].val| && a[i].over == b[i].over
  {
    hide Area;
  }

  lemma OneReading(s: Bytes, a: seq<RawCell>, b: seq<RawCell>)
    requires HoldsCells(s, a) && HoldsCells(s, b)
    ensures a == b
  {
    hide *;
    EndOfCells(s, a);
    EndOfCells(s, b);
    SameUpTo(s, a, b, |a|);
    assert a[..|a|] == a && b[..|b|] == b;
  }

  lemma RawInjective(c: LeafCell, d: LeafCell)
    requires Raw(c) == Raw(d)
    requires c.val.Overflow? ==> c.val.first < Pow256(8) && c.val.len < Pow256(4)
    requires d.val.Overflow? ==> d.val.first < Pow256(8) && d.val.len < Pow256(4)
    ensures c == d
  {
    hide LittleEndian, LittleValue, Pow256;
    if c.val.Overflow? {
      assert Raw(c).val[..8] == LittleEndian(c.val.first, 8) && Raw(c).val[8..] == LittleEndian(c.val.len, 4);
      assert Raw(d).val[..8] == LittleEndian(d.val.first, 8) && Raw(d).val[8..] == LittleEndian(d.val.len, 4);
      LittleInverts(c.val.first, 8);
      LittleInverts(d.val.first, 8);
      LittleInverts(c.val.len, 4);
      LittleInverts(d.val.len, 4);
    }
  }

  /** Two leaf pages with the same bytes are the same page. */
  lemma OnePage(s: Bytes, p: Page, q: Page)
    requires HoldsPage(s, p) && HoldsPage(s, q) && Representable(p) && Representable(q)
    ensures p == q
  {
    OneReading(s, RawAll(p.cells), RawAll(q.cells));
    hide HoldsCells, Raw, LittleValue, Pow256;
    forall i | 0 <= i < |p.cells| ensures p.cells[i] == q.cells[i] {
      assert RawAll(p.cells)[i] == RawAll(q.cells)[i];
      RawInjective(p.cells[i], q.cells[i]);
    }
  }
}
