/** The header of a page: `page/page.go`.  The checksum, CRC-32C in the source,
    is a parameter of the model. */
module PageHeader {
  import opened Bytes
  import opened PageKeys
  import opened Record
  import opened PageBytes

  const MAGIC: nat := 0x4B44_4250
  const TYPE_META: byte := 1
  const TYPE_OVERFLOW: byte := 4
  const OFF_TYPE: nat := 4
  const OFF_SUM: nat := 6
  const HEADER_SIZE: nat := 24

  type Checksum = Bytes -> nat

  /** The checksum of a page, taken with its own field as zeros. */
  function SumOf(crc: Checksum, s: Bytes): nat
    requires |s| == PAGE_SIZE
  {
    crc(Overlay(s, OFF_SUM, Zeros(4))) % Pow256(4)
  }

  /** The checksum does not depend on its own field. */
  lemma SumIgnoresItself(crc: Checksum, s: Bytes, b: Bytes)
    requires |s| == PAGE_SIZE && |b| == 4
    ensures SumOf(crc, Overlay(s, OFF_SUM, b)) == SumOf(crc, s)
    ensures SumOf(crc, s) < Pow256(4)
  {
    assert Overlay(Overlay(s, OFF_SUM, b), OFF_SUM, Zeros(4)) == Overlay(s, OFF_SUM, Zeros(4));
  }

  /** A page without data or checksum: magic, type and zeros. */
  function BlankPage(t: byte): (s: Bytes)
    ensures |s| == PAGE_SIZE
  {
    Overlay(Overlay(Zeros(PAGE_SIZE), 0, LittleEndian(MAGIC, 4)), OFF_TYPE, [t])
  }

  /** The bytes of that page: "KDBP" as a number, low byte first, the type,
      and 4,091 zeros. */
  lemma BlankBytes(t: byte)
    ensures BlankPage(t) == [0x50, 0x42, 0x44, 0x4B, t] + Zeros(4091)
  {
    assert LittleEndian(MAGIC, 4) == [0x50] + LittleEndian(0x4B_4442, 3);
    assert LittleEndian(0x4B_4442, 3) == [0x42] + LittleEndian(0x4B44, 2);
    assert LittleEndian(0x4B44, 2) == [0x44] + LittleEndian(0x4B, 1) && LittleEndian(0x4B, 1) == [0x4B] + LittleEndian(0, 0);
    hide LittleEndian;
    assert LittleEndian(MAGIC, 4) == [0x50, 0x42, 0x44, 0x4B];
  }

  lemma MagicReads(t: byte)
    ensures Uint(BlankPage(t), 0, 4) == MAGIC && BlankPage(t)[OFF_TYPE] == t
  {
    assert Pow256(4) == 0x1_0000_0000 by {
      assert Pow256(1) == 256 && Pow256(2) == 256 * Pow256(1) && Pow256(3) == 256 * Pow256(2);
    }
    hide LittleEndian, LittleValue;
    var page := Overlay(Zeros(PAGE_SIZE), 0, LittleEndian(MAGIC, 4));
    UintReads(Zeros(PAGE_SIZE), 0, 4, MAGIC);
    OverlayKeeps(page, OFF_TYPE, [t], 0, 4);
  }

  /** Magic and type survive what is written behind the header. */
  lemma SameStart(blank: Bytes, filled: Bytes, page: Bytes, was: Bytes)
    requires |blank| == |filled| == |page| == |was| == PAGE_SIZE
    requires filled[..HEADER_SIZE] == blank[..HEADER_SIZE]
    requires blank[..OFF_SUM] == was[..OFF_SUM] && page[..OFF_SUM] == filled[..OFF_SUM]
    ensures page[0..4] == was[0..4] && page[OFF_TYPE] == was[OFF_TYPE]
  {
    assert forall k :: 0 <= k < OFF_SUM ==> page[k] == page[..OFF_SUM][k] == filled[k] == filled[..HEADER_SIZE][k] == blank[k] == blank[..OFF_SUM][k] == was[k];
  }

  /** `SetChecksum`. */
  method SetChecksum(buf: array<byte>, crc: Checksum)
    requires buf.Length == PAGE_SIZE
    modifies buf
    ensures |buf[..]| == PAGE_SIZE
    ensures buf[..] == Overlay(old(buf[..]), OFF_SUM, LittleEndian(SumOf(crc, old(buf[..])), 4))
  {
    hide LittleEndian;
    ghost var s := buf[..];
    FourZeros();
    PutUint(buf, OFF_SUM, 4, 0);
    var cs := crc(buf[..]) % Pow256(4);
    PutUint(buf, OFF_SUM, 4, cs);
    assert Overlay(Overlay(s, OFF_SUM, Zeros(4)), OFF_SUM, LittleEndian(cs, 4)) == Overlay(s, OFF_SUM, LittleEndian(cs, 4));
  }

  lemma FourZeros()
    ensures LittleEndian(0, 4) == Zeros(4)
  {
    assert LittleEndian(0, 4) == [0] + LittleEndian(0, 3) && LittleEndian(0, 3) == [0] + LittleEndian(0, 2);
    assert LittleEndian(0, 2) == [0] + LittleEndian(0, 1) && LittleEndian(0, 1) == [0] + LittleEndian(0, 0);
  }

  /** `Init`, with log sequence number 0. */
  method Init(buf: array<byte>, t: byte, crc: Checksum)
    requires buf.Length == PAGE_SIZE
    modifies buf
    ensures |buf[..]| == PAGE_SIZE
    ensures buf[..] == Overlay(BlankPage(t), OFF_SUM, LittleEndian(SumOf(crc, BlankPage(t)), 4))
    ensures buf[..6] == [0x50, 0x42, 0x44, 0x4B, t, 0] && buf[10..] == Zeros(4086)
  {
    hide *;
    HeaderFits();
    ghost var s := buf[..];
    Clear(buf, 0, PAGE_SIZE);
    PutUint(buf, 0, 4, MAGIC);
    Write(buf, OFF_TYPE, [t]);
    BlankIs(s, t);
    SetChecksum(buf, crc);
    InitBytes(buf[..], t, LittleEndian(SumOf(crc, BlankPage(t)), 4));
  }

  lemma HeaderFits()
    ensures OFF_TYPE + 1 <= OFF_SUM && OFF_SUM + 4 <= PAGE_SIZE && 4 <= PAGE_SIZE
  {
  }

  lemma BlankIs(s: Bytes, t: byte)
    requires |s| == PAGE_SIZE
    ensures BlankPage(t) == Overlay(Overlay(Overlay(s, 0, Zeros(PAGE_SIZE)), 0, LittleEndian(MAGIC, 4)), OFF_TYPE, [t])
  {
    hide LittleEndian;
    assert Overlay(s, 0, Zeros(PAGE_SIZE)) == Zeros(PAGE_SIZE);
  }

  lemma InitBytes(s: Bytes, t: byte, sum: Bytes)
    requires OFF_SUM + |sum| <= PAGE_SIZE && |sum| == 4 && s == Overlay(BlankPage(t), OFF_SUM, sum)
    ensures |s| == 4096 && s[..6] == [0x50, 0x42, 0x44, 0x4B, t, 0] && s[10..] == Zeros(4086)
  {
    BlankBytes(t);
    hide BlankPage;
  }
}
