/** A meta page as bytes: `encodeMeta` and `decodeMeta` of `meta.go`, over the
    header of `page/page.go`.  The checksum is a parameter of the model. */
module MetaBytes {
  import opened Bytes
  import opened TreeModel
  import opened PageKeys
  import opened Record
  import opened PageBytes
  import opened PageHeader
  import opened MetaPages

  /** A number of `w` bytes at `off`. */
  datatype NumberAt = NumberAt(off: nat, w: nat, v: nat)

  /** The fields of a meta page, in the order of their offsets. */
  function Fields(m: Meta): (ps: seq<NumberAt>)
    ensures |ps| == 11
  {
    var r := m.roots;
    [NumberAt(24, 4, m.version), NumberAt(28, 8, m.generation), NumberAt(36, 8, r.pageCount), NumberAt(44, 8, r.freelist),
     NumberAt(52, 1, m.format as nat), NumberAt(53, 2, m.schema), NumberAt(56, 8, r.tree), NumberAt(64, 8, r.modules),
     NumberAt(72, 8, r.tags), NumberAt(80, 8, r.files), NumberAt(88, 8, r.types)]
  }

  /** Every field fits its width. */
  predicate FieldsFit(m: Meta) {
    forall i :: 0 <= i < 11 ==> Fields(m)[i].v < Pow256(Fields(m)[i].w)
  }

  /** `decodeMeta`, after `page.Verify`. */
  function DecodeMeta(crc: Checksum, s: Bytes): Option<Meta>
    requires |s| == PAGE_SIZE
  {
    if Uint(s, 0, 4) != MAGIC || Uint(s, OFF_SUM, 4) != SumOf(crc, s) || s[OFF_TYPE] != TYPE_META then None else
    ByteReads(s, 52);
    Some(Meta(Uint(s, 24, 4), Uint(s, 28, 8), s[52], Uint(s, 53, 2),
              Roots(Uint(s, 36, 8), Uint(s, 44, 8), Uint(s, 56, 8), Uint(s, 64, 8), Uint(s, 72, 8), Uint(s, 80, 8), Uint(s, 88, 8))))
  }

  lemma ByteReads(s: Bytes, off: nat)
    requires off < |s|
    ensures Uint(s, off, 1) == s[off] as nat
  {
    assert s[off..off + 1] == [s[off]] && s[off..off + 1][1..] == [];
  }

  // ---------- a list of fields ----------

  predicate Ascending(ps: seq<NumberAt>) {
    && (forall i :: 0 <= i < |ps| ==> HEADER_SIZE <= ps[i].off && ps[i].off + ps[i].w <= PAGE_SIZE)
    && (forall i, j :: 0 <= i < j < |ps| ==> ps[i].off + ps[i].w <= ps[j].off)
  }

  /** `s` with the fields written one after the other. */
  function Filled(s: Bytes, ps: seq<NumberAt>): (r: Bytes)
    requires |s| == PAGE_SIZE && Ascending(ps)
    ensures |r| == |s|
  {
    if ps == [] then s else
    var n := |ps| - 1;
    Overlay(Filled(s, ps[..n]), ps[n].off, LittleEndian(ps[n].v, ps[n].w))
  }

  /** Fields that do not overlap are all read back. */
  lemma {:induction false} FieldReads(s: Bytes, ps: seq<NumberAt>, i: nat)
    requires |s| == PAGE_SIZE && Ascending(ps) && i < |ps| && ps[i].v < Pow256(ps[i].w)
    ensures Uint(Filled(s, ps), ps[i].off, ps[i].w) == ps[i].v
  {
    hide *;
    var n := |ps| - 1;
    LastFilled(s, ps);
    FieldAt(ps, i);
    var was := Filled(s, ps[..n]);
    if i == n {
      UintReads(was, ps[n].off, ps[n].w, ps[n].v);
    } else {
      assert ps[..n][i] == ps[i];
      FieldReads(s, ps[..n], i);
      OverlayKeeps(was, ps[n].off, LittleEndian(ps[n].v, ps[n].w), ps[i].off, ps[i].w);
      SameUint(was, Filled(s, ps), ps[i].off, ps[i].w);
    }
  }

  lemma LastFilled(s: Bytes, ps: seq<NumberAt>)
    requires |s| == PAGE_SIZE && Ascending(ps) && ps != []
    ensures var n := |ps| - 1;
            && Ascending(ps[..n]) && ps[n].off + ps[n].w <= PAGE_SIZE
            && |LittleEndian(ps[n].v, ps[n].w)| == ps[n].w
            && Filled(s, ps) == Overlay(Filled(s, ps[..n]), ps[n].off, LittleEndian(ps[n].v, ps[n].w))
  {
    hide LittleEndian, Overlay;
  }

  lemma FieldAt(ps: seq<NumberAt>, i: nat)
    requires Ascending(ps) && i < |ps|
    ensures ps[i].off + ps[i].w <= PAGE_SIZE
    ensures i < |ps| - 1 ==> ps[i].off + ps[i].w <= ps[|ps| - 1].off
  {
  }

  lemma SameUint(s: Bytes, t: Bytes, off: nat, w: nat)
    requires off + w <= |s| == |t| && t[off..off + w] == s[off..off + w]
    ensures Uint(t, off, w) == Uint(s, off, w)
  {
    hide LittleValue;
  }

  /** The header stays as it is. */
  lemma {:induction false} HeaderKept(s: Bytes, ps: seq<NumberAt>)
    requires |s| == PAGE_SIZE && Ascending(ps)
    ensures Filled(s, ps)[..HEADER_SIZE] == s[..HEADER_SIZE]
  {
    if ps != [] {
      var n := |ps| - 1;
      HeaderKept(s, ps[..n]);
      hide LittleEndian, Overlay;
      OverlayKeeps(Filled(s, ps[..n]), ps[n].off, LittleEndian(ps[n].v, ps[n].w), 0, HEADER_SIZE);
    }
  }

  lemma FilledMore(s: Bytes, ps: seq<NumberAt>, p: NumberAt)
    requires |s| == PAGE_SIZE && Ascending(ps + [p])
    ensures Ascending(ps) && p.off + p.w <= PAGE_SIZE
    ensures Filled(s, ps + [p]) == Overlay(Filled(s, ps), p.off, LittleEndian(p.v, p.w))
  {
    assert forall i :: 0 <= i < |ps| ==> (ps + [p])[i] == ps[i];
    assert (ps + [p])[|ps|] == p;
    assert (ps + [p])[..|ps|] == ps;
    hide Overlay, LittleEndian;
  }

  // ---------- the meta page ----------

  /** The bytes of a meta page. */
  function MetaPage(crc: Checksum, m: Meta): (s: Bytes)
    ensures |s| == PAGE_SIZE
  {
    FieldsInOrder(m);
    var blank := Overlay(BlankPage(TYPE_META), OFF_SUM, LittleEndian(SumOf(crc, BlankPage(TYPE_META)), 4));
    var filled := Filled(blank, Fields(m));
    Overlay(filled, OFF_SUM, LittleEndian(SumOf(crc, filled), 4))
  }

  lemma NextField(s: Bytes, fs: seq<NumberAt>, k: nat)
    requires |s| == PAGE_SIZE && Ascending(fs) && k < |fs|
    ensures Ascending(fs[..k]) && Ascending(fs[..k + 1]) && fs[k].off + fs[k].w <= PAGE_SIZE
    ensures Filled(s, fs[..k + 1]) == Overlay(Filled(s, fs[..k]), fs[k].off, LittleEndian(fs[k].v, fs[k].w))
  {
    assert fs[..k + 1] == fs[..k] + [fs[k]];
    assert Ascending(fs[..k + 1]);
    FilledMore(s, fs[..k], fs[k]);
    hide Overlay, LittleEndian, Filled;
  }

  lemma NoFields(s: Bytes, fs: seq<NumberAt>)
    requires |s| == PAGE_SIZE
    ensures Ascending(fs[..0]) && Filled(s, fs[..0]) == s
  {
  }

  lemma FieldsInOrder(m: Meta)
    ensures Ascending(Fields(m)) && Fields(m)[..11] == Fields(m)
  {
  }

  method FillFields(buf: array<byte>, m: Meta)
    requires buf.Length == PAGE_SIZE
    modifies buf
    ensures |old(buf[..])| == PAGE_SIZE && Ascending(Fields(m))
    ensures buf[..] == Filled(old(buf[..]), Fields(m))
  {
    hide Ascending, Filled, Overlay, LittleEndian;
    ghost var s, fs := buf[..], Fields(m);
    FieldsInOrder(m);
    NoFields(s, fs);
    PutUint(buf, 24, 4, m.version);
    NextField(s, fs, 0);
    PutUint(buf, 28, 8, m.generation);
    NextField(s, fs, 1);
    PutUint(buf, 36, 8, m.roots.pageCount);
    NextField(s, fs, 2);
    PutUint(buf, 44, 8, m.roots.freelist);
    NextField(s, fs, 3);
    PutUint(buf, 52, 1, m.format as nat);
    NextField(s, fs, 4);
    PutUint(buf, 53, 2, m.schema);
    NextField(s, fs, 5);
    PutUint(buf, 56, 8, m.roots.tree);
    NextField(s, fs, 6);
    PutUint(buf, 64, 8, m.roots.modules);
    NextField(s, fs, 7);
    PutUint(buf, 72, 8, m.roots.tags);
    NextField(s, fs, 8);
    PutUint(buf, 80, 8, m.roots.files);
    NextField(s, fs, 9);
    PutUint(buf, 88, 8, m.roots.types);
    NextField(s, fs, 10);
  }

  /** The header of a meta page. */
  lemma HeaderReads(crc: Checksum, m: Meta)
    ensures Uint(MetaPage(crc, m), 0, 4) == MAGIC && MetaPage(crc, m)[OFF_TYPE] == TYPE_META
  {
    FieldsInOrder(m);
    var sum := LittleEndian(SumOf(crc, BlankPage(TYPE_META)), 4);
    var blank := Overlay(BlankPage(TYPE_META), OFF_SUM, sum);
    HeaderKept(blank, Fields(m));
    var filled := Filled(blank, Fields(m));
    var page := Overlay(filled, OFF_SUM, LittleEndian(SumOf(crc, filled), 4));
    MagicReads(TYPE_META);
    hide LittleEndian, LittleValue, Filled, SumOf, Fields, BlankPage;
    SameStart(blank, filled, page, BlankPage(TYPE_META));
  }

  lemma MetaStart(crc: Checksum, m: Meta)
    ensures MetaPage(crc, m)[..6] == [0x50, 0x42, 0x44, 0x4B, 1, 0]
  {
    FieldsInOrder(m);
    var sum := LittleEndian(SumOf(crc, BlankPage(TYPE_META)), 4);
    var blank := Overlay(BlankPage(TYPE_META), OFF_SUM, sum);
    InitBytes(blank, TYPE_META, sum);
    HeaderKept(blank, Fields(m));
    var filled := Filled(blank, Fields(m));
    hide LittleEndian, Filled, SumOf, Fields, BlankPage;
    assert filled[..6] == filled[..HEADER_SIZE][..6] == blank[..HEADER_SIZE][..6] == blank[..6];
  }

  /** Every field of a meta page is read back. */
  lemma FieldIsRead(crc: Checksum, m: Meta, i: nat)
    requires FieldsFit(m) && i < 11
    ensures Fields(m)[i].off + Fields(m)[i].w <= PAGE_SIZE
    ensures Uint(MetaPage(crc, m), Fields(m)[i].off, Fields(m)[i].w) == Fields(m)[i].v
  {
    FieldsInOrder(m);
    var blank := Overlay(BlankPage(TYPE_META), OFF_SUM, LittleEndian(SumOf(crc, BlankPage(TYPE_META)), 4));
    FieldReads(blank, Fields(m), i);
    var p := Fields(m)[i];
    assert HEADER_SIZE <= p.off && p.off + p.w <= PAGE_SIZE;
    var filled := Filled(blank, Fields(m));
    hide LittleEndian, LittleValue, Filled, SumOf, Fields, BlankPage, Overlay, Ascending;
    OverlayKeeps(filled, OFF_SUM, LittleEndian(SumOf(crc, filled), 4), p.off, p.w);
  }

  /** A meta page decodes to the meta it was encoded from. */
  lemma MetaReads(crc: Checksum, m: Meta)
    requires FieldsFit(m)
    ensures DecodeMeta(crc, MetaPage(crc, m)) == Some(m)
  {
    var s := MetaPage(crc, m);
    HeaderReads(crc, m);
    SumReads(crc, m);
    AllFieldsRead(crc, m);
    ByteReads(s, 52);
    hide MetaPage, SumOf, Uint;
  }

  /** What `decodeMeta` accepts, and as what: "KDBP" and the type in their
      places, the checksum of the page, and then every field where it is. */
  lemma MetaAccepts(crc: Checksum, s: Bytes, m: Meta)
    requires |s| == 4096
    ensures DecodeMeta(crc, s) == Some(m) <==>
            && Uint(s, 0, 4) == 0x4B44_4250 && s[4] == 1 && Uint(s, 6, 4) == crc(s[..6] + [0, 0, 0, 0] + s[10..]) % 0x1_0000_0000
            && Uint(s, 24, 4) == m.version && Uint(s, 28, 8) == m.generation && Uint(s, 36, 8) == m.roots.pageCount
            && Uint(s, 44, 8) == m.roots.freelist && s[52] == m.format && Uint(s, 53, 2) == m.schema
            && Uint(s, 56, 8) == m.roots.tree && Uint(s, 64, 8) == m.roots.modules && Uint(s, 72, 8) == m.roots.tags
            && Uint(s, 80, 8) == m.roots.files && Uint(s, 88, 8) == m.roots.types
  {
    SumIs(crc, s);
    hide Uint, SumOf;
  }

  lemma SumIs(crc: Checksum, s: Bytes)
    requires |s| == 4096
    ensures SumOf(crc, s) == crc(s[..6] + [0, 0, 0, 0] + s[10..]) % 0x1_0000_0000
  {
    assert Zeros(4) == [0, 0, 0, 0];
    assert Pow256(4) == 0x1_0000_0000 by {
      assert Pow256(1) == 256 && Pow256(2) == 256 * Pow256(1) && Pow256(3) == 256 * Pow256(2);
    }
  }

  lemma AllFieldsRead(crc: Checksum, m: Meta)
    requires FieldsFit(m)
    ensures var s, r := MetaPage(crc, m), m.roots;
            && Uint(s, 24, 4) == m.version && Uint(s, 28, 8) == m.generation && Uint(s, 36, 8) == r.pageCount
            && Uint(s, 44, 8) == r.freelist && Uint(s, 52, 1) == m.format as nat && Uint(s, 53, 2) == m.schema
            && Uint(s, 56, 8) == r.tree && Uint(s, 64, 8) == r.modules && Uint(s, 72, 8) == r.tags
            && Uint(s, 80, 8) == r.files && Uint(s, 88, 8) == r.types
  {
    hide MetaPage, Uint, FieldsFit;
    FieldIsRead(crc, m, 0);
    FieldIsRead(crc, m, 1);
    FieldIsRead(crc, m, 2);
    FieldIsRead(crc, m, 3);
    FieldIsRead(crc, m, 4);
    FieldIsRead(crc, m, 5);
    FieldIsRead(crc, m, 6);
    FieldIsRead(crc, m, 7);
    FieldIsRead(crc, m, 8);
    FieldIsRead(crc, m, 9);
    FieldIsRead(crc, m, 10);
  }

  lemma SumReads(crc: Checksum, m: Meta)
    ensures Uint(MetaPage(crc, m), OFF_SUM, 4) == SumOf(crc, MetaPage(crc, m))
  {
    var blank := Overlay(BlankPage(TYPE_META), OFF_SUM, LittleEndian(SumOf(crc, BlankPage(TYPE_META)), 4));
    FieldsInOrder(m);
    var filled := Filled(blank, Fields(m));
    SumIgnoresItself(crc, filled, LittleEndian(SumOf(crc, filled), 4));
    UintReads(filled, OFF_SUM, 4, SumOf(crc, filled));
    hide LittleEndian, LittleValue, Filled, SumOf, Fields, BlankPage, Overlay, Uint;
  }

  /** `encodeMeta`. */
  method EncodeMeta(buf: array<byte>, m: Meta, crc: Checksum)
    requires buf.Length == PAGE_SIZE
    modifies buf
    ensures buf[..] == MetaPage(crc, m)
    ensures FieldsFit(m) ==> DecodeMeta(crc, buf[..]) == Some(m)
    ensures buf[..6] == [0x50, 0x42, 0x44, 0x4B, 1, 0]
  {
    hide *;
    MetaStart(crc, m);
    Init(buf, TYPE_META, crc);
    ghost var s := buf[..];
    FillFields(buf, m);
    SetChecksum(buf, crc);
    PageIs(crc, m, s);
    if FieldsFit(m) {
      MetaReads(crc, m);
    }
  }

  lemma PageIs(crc: Checksum, m: Meta, s: Bytes)
    requires s == Overlay(BlankPage(TYPE_META), OFF_SUM, LittleEndian(SumOf(crc, BlankPage(TYPE_META)), 4))
    ensures |s| == PAGE_SIZE && Ascending(Fields(m))
    ensures MetaPage(crc, m) == Overlay(Filled(s, Fields(m)), OFF_SUM, LittleEndian(SumOf(crc, Filled(s, Fields(m))), 4))
  {
    FieldsInOrder(m);
    hide Overlay, BlankPage, LittleEndian, SumOf, Filled, Fields, Ascending;
  }
}
