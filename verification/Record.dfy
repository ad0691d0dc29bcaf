/** Tagged records: `encoding/record.go`, `varint.go` and `endian.go`. */
module Record {
  import opened Bytes
  import opened PageKeys

  datatype Wire = Fixed64 | Chunk | Fixed8 | List

  datatype Data =
    | Number(n: nat)
    | Text(s: Bytes)
    | Small(b: byte)
    | Items(items: seq<Bytes>)

  datatype Field = Field(id: byte, data: Data)

  datatype RecordError = UnexpectedEOF | VarintOverflow | InvalidWireType

  datatype Read<+T> = Got(value: T, used: nat) | Failed(error: RecordError)

  const MAX_FIELD_ID: byte := 31
  const VARINT_LIMIT: nat := 10

  function WireOf(d: Data): Wire {
    match d case Number(_) => Fixed64 case Text(_) => Chunk case Small(_) => Fixed8 case Items(_) => List
  }

  function WireCode(w: Wire): byte {
    match w case Fixed64 => 0 case Chunk => 1 case Fixed8 => 2 case List => 3
  }

  /** `MakeTag`. */
  function MakeTag(id: byte, w: Wire): byte
    requires id <= MAX_FIELD_ID
  {
    id * 8 + WireCode(w)
  }

  // ---------- little-endian numbers ----------

  function LittleEndian(n: nat, w: nat): (s: Bytes)
    ensures |s| == w
  {
    if w == 0 then [] else [(n % 256) as byte] + LittleEndian(n / 256, w - 1)
  }

  function LittleValue(s: Bytes): (n: nat)
    ensures n < Pow256(|s|)
  {
    if s == [] then 0 else
    assert LittleValue(s[1..]) < Pow256(|s| - 1);
    s[0] as nat + 256 * LittleValue(s[1..])
  }

  lemma {:induction false} LittleInverts(n: nat, w: nat)
    requires n < Pow256(w)
    ensures LittleValue(LittleEndian(n, w)) == n
  {
    if w > 0 {
      LittleInverts(n / 256, w - 1);
      assert LittleEndian(n, w)[1..] == LittleEndian(n / 256, w - 1);
    }
  }

  // ---------- variable-length numbers ----------

  /** `AppendUvarint`: seven bits to a byte, low bits first, as in section 7.6
      of DWARF Version 5. */
  function Uvarint(n: nat): (s: Bytes)
    ensures s != []
  {
    if n < 128 then [n as byte] else [(n % 128 + 128) as byte] + Uvarint(n / 128)
  }

  function Pow128(k: nat): (p: nat)
    ensures p > 0
  {
    if k == 0 then 1 else 128 * Pow128(k - 1)
  }

  /** `Uvarint` when `at` bytes have been read: a tenth byte above 1, or an
      eleventh byte, overflows 64 bits. */
  function ReadUvarintFrom(s: Bytes, at: nat): Read<nat>
    decreases |s|
  {
    if s == [] then Failed(UnexpectedEOF)
    else if at >= VARINT_LIMIT then Failed(VarintOverflow)
    else if s[0] < 128 then
      if at == VARINT_LIMIT - 1 && s[0] > 1 then Failed(VarintOverflow) else Got(s[0] as nat, 1)
    else
      match ReadUvarintFrom(s[1..], at + 1)
      case Failed(e) => Failed(e)
      case Got(v, used) => Got(s[0] as nat - 128 + 128 * v, used + 1)
  }

  function ReadUvarint(s: Bytes): Read<nat> {
    ReadUvarintFrom(s, 0)
  }

  lemma {:induction false} UvarintInverts(n: nat, rest: Bytes, at: nat)
    requires at < VARINT_LIMIT && n < 2 * Pow128(VARINT_LIMIT - 1 - at)
    ensures ReadUvarintFrom(Uvarint(n) + rest, at) == Got(n, |Uvarint(n)|)
    decreases n
  {
    var s := Uvarint(n) + rest;
    if n >= 128 {
      assert at < VARINT_LIMIT - 1 by {
        assert Pow128(0) == 1;
      }
      assert Pow128(VARINT_LIMIT - 1 - at) == 128 * Pow128(VARINT_LIMIT - 2 - at);
      UvarintInverts(n / 128, rest, at + 1);
      assert s[1..] == Uvarint(n / 128) + rest;
    }
  }

  lemma SixtyFourBits()
    ensures 2 * Pow128(VARINT_LIMIT - 1) == ID_LIMIT && Pow256(8) == ID_LIMIT
  {
    Widths();
    assert Pow128(3) == 0x20_0000;
    assert Pow128(6) == 0x20_0000 * Pow128(3);
    assert Pow128(9) == 0x20_0000 * Pow128(6);
  }

  lemma UvarintReads(n: nat, rest: Bytes)
    requires n < ID_LIMIT
    ensures ReadUvarint(Uvarint(n) + rest) == Got(n, |Uvarint(n)|)
  {
    SixtyFourBits();
    UvarintInverts(n, rest, 0);
  }

  // ---------- field data ----------

  function ReadChunk(s: Bytes): Read<Bytes> {
    match ReadUvarint(s)
    case Failed(e) => Failed(e)
    case Got(len, used) =>
      if |s| < used + len then Failed(UnexpectedEOF) else Got(s[used..used + len], used + len)
  }

  function ReadItems(s: Bytes, count: nat): Read<seq<Bytes>>
    decreases count
  {
    if count == 0 then Got([], 0) else
    match ReadChunk(s)
    case Failed(e) => Failed(e)
    case Got(item, used) =>
      if used > |s| then Failed(UnexpectedEOF) else
      match ReadItems(s[used..], count - 1)
      case Failed(e) => Failed(e)
      case Got(items, more) => Got([item] + items, used + more)
  }

  /** The data of a field, read as wire type `w`. */
  function ReadData(s: Bytes, w: Wire): Read<Data> {
    match w
    case Fixed64 => if |s| < 8 then Failed(UnexpectedEOF) else Got(Number(LittleValue(s[..8])), 8)
    case Fixed8 => if s == [] then Failed(UnexpectedEOF) else Got(Small(s[0]), 1)
    case Chunk =>
      (match ReadChunk(s) case Failed(e) => Failed(e) case Got(t, used) => Got(Text(t), used))
    case List =>
      match ReadUvarint(s)
      case Failed(e) => Failed(e)
      case Got(count, used) =>
        if used > |s| then Failed(UnexpectedEOF) else
        match ReadItems(s[used..], count)
        case Failed(e) => Failed(e)
        case Got(items, more) => Got(Items(items), used + more)
  }

  function ChunkBytes(s: Bytes): Bytes {
    Uvarint(|s|) + s
  }

  function ItemBytes(items: seq<Bytes>): Bytes {
    if items == [] then [] else ChunkBytes(items[0]) + ItemBytes(items[1..])
  }

  function DataBytes(d: Data): Bytes {
    match d
    case Number(n) => LittleEndian(n, 8)
    case Text(s) => ChunkBytes(s)
    case Small(b) => [b]
    case Items(items) => Uvarint(|items|) + ItemBytes(items)
  }

  /** Data that the Go types can hold. */
  predicate Encodable(d: Data) {
    match d
    case Number(n) => n < ID_LIMIT
    case Text(s) => |s| < ID_LIMIT
    case Small(_) => true
    case Items(items) => |items| < ID_LIMIT && forall i :: 0 <= i < |items| ==> |items[i]| < ID_LIMIT
  }

  lemma ReadChunkInverts(s: Bytes, rest: Bytes)
    requires |s| < ID_LIMIT
    ensures ReadChunk(ChunkBytes(s) + rest) == Got(s, |ChunkBytes(s)|)
  {
    var u := Uvarint(|s|);
    UvarintReads(|s|, s + rest);
    assert ChunkBytes(s) + rest == u + (s + rest);
    assert (u + (s + rest))[|u|..|u| + |s|] == s;
  }

  lemma ThreeParts(a: Bytes, b: Bytes, c: Bytes)
    ensures a + b + c == a + (b + c) && (a + (b + c))[|a|..] == b + c
  {
  }

  lemma {:induction false} ReadItemsInverts(items: seq<Bytes>, rest: Bytes)
    requires forall i :: 0 <= i < |items| ==> |items[i]| < ID_LIMIT
    ensures ReadItems(ItemBytes(items) + rest, |items|) == Got(items, |ItemBytes(items)|)
  {
    if items != [] {
      var c, tail := ChunkBytes(items[0]), ItemBytes(items[1..]);
      ReadChunkInverts(items[0], tail + rest);
      ReadItemsInverts(items[1..], rest);
      hide ReadChunk, ChunkBytes, ItemBytes;
      ThreeParts(c, tail, rest);
      assert [items[0]] + items[1..] == items;
    }
  }

  /** Reading gives back what was written, and uses exactly those bytes. */
  lemma ReadDataInverts(d: Data, rest: Bytes)
    requires Encodable(d)
    ensures ReadData(DataBytes(d) + rest, WireOf(d)) == Got(d, |DataBytes(d)|)
  {
    match d
    case Number(n) =>
      NumberInverts(n, rest);
    case Text(s) =>
      ReadChunkInverts(s, rest);
      hide ReadChunk, ChunkBytes;
    case Small(_) =>
    case Items(items) =>
      ItemsInvert(items, rest);
  }

  lemma NumberInverts(n: nat, rest: Bytes)
    requires n < ID_LIMIT
    ensures ReadData(DataBytes(Number(n)) + rest, Fixed64) == Got(Number(n), |DataBytes(Number(n))|)
  {
    SixtyFourBits();
    LittleInverts(n, 8);
    hide LittleEndian, LittleValue, Pow128, Pow256;
    assert (LittleEndian(n, 8) + rest)[..8] == LittleEndian(n, 8);
  }

  lemma ItemsInvert(items: seq<Bytes>, rest: Bytes)
    requires |items| < ID_LIMIT && forall i :: 0 <= i < |items| ==> |items[i]| < ID_LIMIT
    ensures ReadData(DataBytes(Items(items)) + rest, List) == Got(Items(items), |DataBytes(Items(items))|)
  {
    hide Uvarint, ItemBytes, ReadUvarint, ReadItems;
    var u, body := Uvarint(|items|), ItemBytes(items);
    UvarintReads(|items|, body + rest);
    ReadItemsInverts(items, rest);
    assert u + body + rest == u + (body + rest);
    assert (u + (body + rest))[|u|..] == body + rest;
  }

  // ---------- the encoder ----------

  function FieldBytes(f: Field): Bytes
    requires f.id <= MAX_FIELD_ID
  {
    [MakeTag(f.id, WireOf(f.data))] + DataBytes(f.data)
  }

  predicate SmallIds(fields: seq<Field>) {
    forall f :: f in fields ==> f.id <= MAX_FIELD_ID
  }

  function FieldsBytes(fields: seq<Field>): Bytes
    requires SmallIds(fields)
  {
    if fields == [] then [] else FieldBytes(fields[0]) + FieldsBytes(fields[1..])
  }

  lemma {:induction false} FieldsConcat(a: seq<Field>, b: seq<Field>)
    requires SmallIds(a) && SmallIds(b)
    ensures SmallIds(a + b) && FieldsBytes(a + b) == FieldsBytes(a) + FieldsBytes(b)
  {
    if a == [] {
      assert a + b == b;
    } else {
      assert (a + b)[1..] == a[1..] + b;
      hide FieldBytes;
      FieldsConcat(a[1..], b);
    }
  }

  lemma OneMoreField(fields: seq<Field>, f: Field)
    requires SmallIds(fields) && f.id <= MAX_FIELD_ID
    ensures SmallIds(fields + [f]) && FieldsBytes(fields + [f]) == FieldsBytes(fields) + FieldBytes(f)
  {
    FieldsConcat(fields, [f]);
    assert [f][1..] == [] && FieldsBytes([f]) == FieldBytes(f) + FieldsBytes([]);
    hide FieldBytes;
  }

  /** A buffer with a two-byte header and the fields written so far. */
  ghost predicate HoldsFields(buf: Bytes, count: byte, fields: seq<Field>) {
    && |buf| >= 2 && SmallIds(fields) && |fields| < 256
    && count as nat == |fields|
    && buf[2..] == FieldsBytes(fields)
  }

  lemma HoldsMore(buf: Bytes, count: byte, fields: seq<Field>, f: Field)
    requires HoldsFields(buf, count, fields) && f.id <= MAX_FIELD_ID && |fields| < 255
    ensures count < 255 && HoldsFields(buf + [MakeTag(f.id, WireOf(f.data))] + DataBytes(f.data), count + 1, fields + [f])
  {
    OneMoreField(fields, f);
    hide FieldsBytes, DataBytes;
    HeaderKept(buf, MakeTag(f.id, WireOf(f.data)), DataBytes(f.data));
  }

  lemma HeaderKept(buf: Bytes, tag: byte, more: Bytes)
    requires |buf| >= 2
    ensures (buf + [tag] + more)[2..] == buf[2..] + ([tag] + more)
  {
  }

  /** `Encoder`. */
  class Encoder {
    var buf: Bytes
    var fieldCount: byte
    ghost var fields: seq<Field>

    constructor (version: byte)
      ensures Valid() && fields == [] && buf[0] == version
    {
      buf, fieldCount, fields := [version, 0], 0, [];
    }

    ghost predicate Valid()
      reads this
    {
      HoldsFields(buf, fieldCount, fields)
    }

    method Put(id: byte, data: Data)
      requires Valid() && id <= MAX_FIELD_ID && |fields| < 255
      modifies this
      ensures Valid() && fields == old(fields) + [Field(id, data)] && buf[0] == old(buf[0])
    {
      HoldsMore(buf, fieldCount, fields, Field(id, data));
      assert |buf| >= 2;
      hide HoldsFields, DataBytes;
      buf := buf + [MakeTag(id, WireOf(data))];
      buf := buf + DataBytes(data);
      fieldCount := fieldCount + 1;
      fields := fields + [Field(id, data)];
    }

    method PutUint64(id: byte, v: nat)
      requires Valid() && id <= MAX_FIELD_ID && |fields| < 255
      modifies this
      ensures Valid() && fields == old(fields) + [Field(id, Number(v))] && buf[0] == old(buf[0])
    {
      Put(id, Number(v));
    }

    method PutBytes(id: byte, v: Bytes)
      requires Valid() && id <= MAX_FIELD_ID && |fields| < 255
      modifies this
      ensures Valid() && fields == old(fields) + [Field(id, Text(v))] && buf[0] == old(buf[0])
    {
      Put(id, Text(v));
    }

    method PutUint8(id: byte, v: byte)
      requires Valid() && id <= MAX_FIELD_ID && |fields| < 255
      modifies this
      ensures Valid() && fields == old(fields) + [Field(id, Small(v))] && buf[0] == old(buf[0])
    {
      Put(id, Small(v));
    }

    /** `Bytes`. */
    method Finish() returns (r: Bytes)
      requires Valid()
      modifies this
      ensures fields == old(fields) && |fields| < 256 && SmallIds(fields)
      ensures r == [old(buf[0]), |fields| as byte] + FieldsBytes(fields)
    {
      buf := buf[1 := fieldCount];
      r := buf;
      assert r == r[..2] + r[2..];
    }
  }

  // ---------- the decoder ----------

  /** `Decoder`, which reads on from `pos`. */
  class Decoder {
    const data: Bytes
    const version: byte
    const fieldCount: byte
    var pos: nat
    var fieldsRead: nat

    /** `NewDecoder`. */
    constructor (data: Bytes)
      requires |data| >= 2
      ensures this.data == data && version == data[0] && fieldCount == data[1]
      ensures Valid() && pos == 2 && fieldsRead == 0
    {
      this.data, version, fieldCount, pos, fieldsRead := data, data[0], data[1], 2, 0;
    }

    ghost predicate Valid()
      reads this
    {
      pos <= |data| && fieldsRead <= fieldCount as nat
    }

    /** What is left to read. */
    ghost function Rest(): Bytes
      requires Valid()
      reads this
    {
      data[pos..]
    }

    /** `Done`. */
    predicate Done()
      reads this
    {
      fieldsRead >= fieldCount as nat
    }

    /** `Next`. */
    method Next() returns (r: Read<(byte, Wire)>)
      requires Valid() && !Done()
      modifies this
      ensures Valid()
      ensures r == NextTag(old(Rest()))
      ensures r.Got? ==> Rest() == old(Rest())[1..] && fieldsRead == old(fieldsRead) + 1
    {
      if pos >= |data| {
        return Failed(UnexpectedEOF);
      }
      var tag := data[pos];
      pos := pos + 1;
      var id, wt := tag / 8, tag % 8;
      if wt > 3 {
        return Failed(InvalidWireType);
      }
      fieldsRead := fieldsRead + 1;
      return Got((id, if wt == 0 then Fixed64 else if wt == 1 then Chunk else if wt == 2 then Fixed8 else List), 1);
    }

    /** `Uint64`. */
    method Uint64() returns (r: Read<nat>)
      requires Valid()
      modifies this`pos
      ensures Valid()
      ensures match r
              case Failed(e) => ReadData(old(Rest()), Fixed64) == Failed(e)
              case Got(n, used) => ReadData(old(Rest()), Fixed64) == Got(Number(n), used) && Rest() == old(Rest())[used..]
    {
      if pos + 8 > |data| {
        return Failed(UnexpectedEOF);
      }
      var v := LittleValue(data[pos..][..8]);
      pos := pos + 8;
      return Got(v, 8);
    }

    /** `Uint8`. */
    method Uint8() returns (r: Read<byte>)
      requires Valid()
      modifies this`pos
      ensures Valid()
      ensures match r
              case Failed(e) => ReadData(old(Rest()), Fixed8) == Failed(e)
              case Got(b, used) => ReadData(old(Rest()), Fixed8) == Got(Small(b), used) && Rest() == old(Rest())[used..]
    {
      if pos >= |data| {
        return Failed(UnexpectedEOF);
      }
      var v := data[pos];
      pos := pos + 1;
      return Got(v, 1);
    }

    /** `Bytes` and `String`. */
    method Text() returns (r: Read<Bytes>)
      requires Valid()
      modifies this`pos
      ensures Valid() && r == ReadChunk(old(Rest()))
      ensures r.Got? ==> Rest() == old(Rest())[r.used..]
    {
      if pos >= |data| {
        return Failed(UnexpectedEOF);
      }
      match ReadUvarint(data[pos..])
      case Failed(e) =>
        return Failed(e);
      case Got(length, n) =>
        ReadUvarintUses(data[pos..], 0);
        var start := pos + n;
        var end := start + length;
        pos := start;
        if end > |data| {
          return Failed(UnexpectedEOF);
        }
        assert data[pos - n..][n..n + length] == data[start..end];
        pos := end;
        return Got(data[start..end], n + length);
    }

    /** `skipList`. */
    method SkipList() returns (r: Read<()>)
      requires Valid()
      modifies this`pos
      ensures Valid()
      ensures r.Failed? ==> ReadData(old(Rest()), List) == Failed(r.error)
      ensures r.Got? ==>
                && ReadData(old(Rest()), List).Got? && ReadData(old(Rest()), List).used == r.used <= |old(Rest())|
                && Rest() == old(Rest())[r.used..]
    {
      hide ReadChunk, ReadUvarint;
      if pos >= |data| {
        EndOfData();
        return Failed(UnexpectedEOF);
      }
      ghost var start := pos;
      match ReadUvarint(data[pos..])
      case Failed(e) =>
        return Failed(e);
      case Got(count, n) =>
        UvarintUses(data[pos..]);
        pos := pos + n;
        Dropped(data, start, n);
        hide ReadItems;
        var items := SkipItems(count);
        if items.Failed? {
          return Failed(items.error);
        }
        Dropped(data, start, n + items.used);
        return Got((), n + items.used);
    }

    /** The loop of `skipList`. */
    method SkipItems(count: nat) returns (r: Read<()>)
      requires Valid()
      modifies this`pos
      ensures Valid()
      ensures r.Failed? ==> ReadItems(old(Rest()), count) == Failed(r.error)
      ensures r.Got? ==>
                && ReadItems(old(Rest()), count).Got? && ReadItems(old(Rest()), count).used == r.used
                && pos == old(pos) + r.used
    {
      hide ReadChunk;
      ghost var all := Rest();
      ghost var items: seq<Bytes> := [];
      ItemsAfter0(ReadItems(all, count));
      var used: nat := 0;
      var i := 0;
      while i < count
        invariant Valid() && i <= count && pos == old(pos) + used
        invariant ReadItems(all, count) == ItemsAfter(items, used, ReadItems(Rest(), count - i))
      {
        ghost var rest := Rest();
        var item := Text();
        ItemsAfterStep(items, used, rest, count - i);
        if item.Failed? {
          return Failed(item.error);
        }
        items := items + [item.value];
        used := used + item.used;
        i := i + 1;
      }
      assert ReadItems(Rest(), 0) == Got([], 0);
      return Got((), used);
    }
  }

  lemma EndOfData()
    ensures ReadUvarint([]) == Failed(UnexpectedEOF)
  {
  }

  lemma UvarintUses(s: Bytes)
    ensures ReadUvarint(s).Got? ==> 0 < ReadUvarint(s).used <= |s|
  {
    ReadUvarintUses(s, 0);
  }

  lemma Dropped(data: Bytes, start: nat, used: nat)
    requires start + used <= |data|
    ensures data[start..][used..] == data[start + used..] && |data[start..]| >= used
  {
  }

  /** What reading gives when `items` were read from `used` bytes before. */
  function ItemsAfter(items: seq<Bytes>, used: nat, r: Read<seq<Bytes>>): Read<seq<Bytes>> {
    match r case Failed(e) => Failed(e) case Got(more, n) => Got(items + more, used + n)
  }

  lemma ItemsAfter0(r: Read<seq<Bytes>>)
    ensures ItemsAfter([], 0, r) == r
  {
    if r.Got? {
      assert [] + r.value == r.value;
    }
  }

  lemma ItemsAfterStep(items: seq<Bytes>, used: nat, s: Bytes, count: nat)
    requires count > 0
    ensures match ReadChunk(s)
            case Failed(e) => ItemsAfter(items, used, ReadItems(s, count)) == Failed(e)
            case Got(item, n) => n <= |s| && ItemsAfter(items, used, ReadItems(s, count)) == ItemsAfter(items + [item], used + n, ReadItems(s[n..], count - 1))
  {
    ReadChunkUses(s);
    hide ReadChunk;
    match ReadChunk(s)
    case Failed(_) =>
    case Got(item, n) =>
      match ReadItems(s[n..], count - 1)
      case Failed(_) =>
      case Got(more, _) => assert items + ([item] + more) == items + [item] + more;
  }

  lemma ReadChunkUses(s: Bytes)
    ensures ReadChunk(s).Got? ==> 0 < ReadChunk(s).used <= |s|
  {
    ReadUvarintUses(s, 0);
  }

  lemma {:induction false} ReadUvarintUses(s: Bytes, at: nat)
    ensures ReadUvarintFrom(s, at).Got? ==> 0 < ReadUvarintFrom(s, at).used <= |s|
    decreases |s|
  {
    if s != [] && at < VARINT_LIMIT && s[0] >= 128 {
      ReadUvarintUses(s[1..], at + 1);
    }
  }

  /** A tag byte: field id and wire type. */
  function NextTag(s: Bytes): Read<(byte, Wire)> {
    if s == [] then Failed(UnexpectedEOF)
    else if s[0] % 8 == 0 then Got((s[0] / 8, Fixed64), 1)
    else if s[0] % 8 == 1 then Got((s[0] / 8, Chunk), 1)
    else if s[0] % 8 == 2 then Got((s[0] / 8, Fixed8), 1)
    else if s[0] % 8 == 3 then Got((s[0] / 8, List), 1)
    else Failed(InvalidWireType)
  }
}
