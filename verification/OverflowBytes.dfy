/** Overflow pages as bytes: what `writeOverflow` puts into a page buffer and
    `readOverflow` takes out of it, in `btree/btree.go`. */
module OverflowBytes {
  import opened Bytes
  import opened TreeModel
  import opened Pages
  import opened PageKeys
  import opened Record
  import opened PageBytes
  import opened PageHeader

  /** The page buffer `s` is that of the overflow page `p`: behind the header
      the next page of the chain, and then the payload to the last byte. */
  predicate HoldsOverflow(s: Bytes, p: Page) {
    && p.OverflowPage? && p.link < Pow256(8)
    && |s| == 4096 && s[24..32] == LittleEndian(p.link, 8) && s[32..] == p.data
  }

  /** The page that `WriteChunk` of the tree makes of a chunk. */
  function ChunkPage(chunk: Bytes): Page
    requires |chunk| <= OVERFLOW_PAYLOAD
  {
    OverflowPage(0, chunk + Zeros(OVERFLOW_PAYLOAD - |chunk|))
  }

  /** One round of `writeOverflow` on the buffer of a fresh page. */
  method WriteChunk(buf: array<byte>, chunk: Bytes, crc: Checksum)
    requires buf.Length == PAGE_SIZE && |chunk| <= OVERFLOW_PAYLOAD
    modifies buf
    ensures HoldsOverflow(buf[..], ChunkPage(chunk))
    ensures buf[..6] == [0x50, 0x42, 0x44, 0x4B, 4, 0]
  {
    hide *;
    SizesAre();
    Init(buf, TYPE_OVERFLOW, crc);
    ghost var s := buf[..];
    PutUint(buf, HEADER_SIZE, 8, 0);
    Write(buf, HEADER_SIZE + 8, chunk);
    ChunkWritten(s, buf[..], chunk);
  }

  lemma SizesAre()
    ensures PAGE_SIZE == 4096 && HEADER_SIZE == 24 && TYPE_OVERFLOW == 4 && OVERFLOW_PAYLOAD == 4064
  {
  }

  lemma ChunkWritten(s: Bytes, t: Bytes, chunk: Bytes)
    requires |s| == 4096 && |chunk| <= OVERFLOW_PAYLOAD && s[10..] == Zeros(4086)
    requires t == Overlay(Overlay(s, 24, LittleEndian(0, 8)), 32, chunk)
    ensures HoldsOverflow(t, ChunkPage(chunk)) && t[..6] == s[..6]
  {
    hide LittleEndian;
    var data := chunk + Zeros(4064 - |chunk|);
    forall k | 0 <= k < 4064 ensures t[32..][k] == data[k] {
      assert k >= |chunk| ==> t[32 + k] == s[32 + k] == s[10..][22 + k];
    }
    assert t[32..] == data;
  }

  /** The page before is linked to the page `id`. */
  method LinkTo(buf: array<byte>, id: nat, ghost p: Page)
    requires HoldsOverflow(buf[..], p) && id < Pow256(8)
    modifies buf
    ensures p.OverflowPage? && HoldsOverflow(buf[..], OverflowPage(id, p.data))
  {
    hide LittleEndian, Pow256;
    ghost var s := buf[..];
    PutUint(buf, HEADER_SIZE, 8, id);
    assert buf[..][32..] == s[32..];
  }

  /** One round of `readOverflow`: the next page of the chain, and as much of
      the payload as is still needed. */
  method ReadChunk(buf: array<byte>, need: nat, ghost p: Page) returns (next: nat, part: Bytes)
    requires HoldsOverflow(buf[..], p)
    ensures p.OverflowPage? && next == p.link
    ensures part == if need < |p.data| then p.data[..need] else p.data
  {
    hide LittleEndian, LittleValue, Pow256;
    ghost var s := buf[..];
    assert buf.Length == |s| == 4096;
    LittleInverts(p.link, 8);
    next := Uint(buf[..], HEADER_SIZE, 8);
    var n := if need > 4064 then 4064 else need;
    part := buf[HEADER_SIZE + 8..HEADER_SIZE + 8 + n];
    assert part == s[32..][..n];
  }

  // ---------- chains ----------

  type Buffers = map<PageId, Bytes>

  /** The buffers of the pages of a chain. */
  ghost predicate HoldsBuffers(bufs: Buffers, pages: Heap, chain: seq<PageId>) {
    forall p :: p in chain ==> p in bufs && p in pages && HoldsOverflow(bufs[p], pages[p])
  }

  /** Where a value is, byte by byte: byte `k` is byte 32 + k % 4064 of the
      page k / 4064 of its chain, which has ceil(len / 4064) pages, each with
      the next one at byte 24 and the last with 0 there. */
  lemma ValueBytes(bufs: Buffers, pages: Heap, chain: seq<PageId>, val: Bytes)
    requires HoldsChain(pages, chain, val) && HoldsBuffers(bufs, pages, chain)
    ensures |chain| == (|val| + 4063) / 4064
    ensures forall j :: 0 <= j < |chain| ==>
                          && chain[j] in bufs && |bufs[chain[j]]| == 4096
                          && Uint(bufs[chain[j]], 24, 8) == if j + 1 < |chain| then chain[j + 1] else 0
    ensures forall k :: 0 <= k < |val| ==>
                          && k / 4064 < |chain| && chain[k / 4064] in bufs && |bufs[chain[k / 4064]]| == 4096
                          && bufs[chain[k / 4064]][32 + k % 4064] == val[k]
  {
    hide LittleEndian, LittleValue, Pow256;
    forall j | 0 <= j < |chain|
      ensures chain[j] in bufs && |bufs[chain[j]]| == 4096 && Uint(bufs[chain[j]], 24, 8) == if j + 1 < |chain| then chain[j + 1] else 0
    {
      PageBytesAre(bufs, pages, chain, val, j);
    }
    forall k | 0 <= k < |val|
      ensures k / 4064 < |chain| && chain[k / 4064] in bufs && |bufs[chain[k / 4064]]| == 4096 && bufs[chain[k / 4064]][32 + k % 4064] == val[k]
    {
      PageBytesAre(bufs, pages, chain, val, k / 4064);
    }
  }

  lemma PageBytesAre(bufs: Buffers, pages: Heap, chain: seq<PageId>, val: Bytes, j: nat)
    requires HoldsChain(pages, chain, val) && HoldsBuffers(bufs, pages, chain) && j < |chain|
    ensures chain[j] in bufs && |bufs[chain[j]]| == 4096
    ensures Uint(bufs[chain[j]], 24, 8) == if j + 1 < |chain| then chain[j + 1] else 0
    ensures forall k :: j * 4064 <= k < |val| && k < (j + 1) * 4064 ==> bufs[chain[j]][32 + k - j * 4064] == val[k]
  {
    hide LittleEndian, LittleValue, Pow256;
    assert HoldsChunk(pages, chain, val, j);
    var p, s := pages[chain[j]], bufs[chain[j]];
    LittleInverts(p.link, 8);
    forall k | j * 4064 <= k < |val| && k < (j + 1) * 4064 ensures s[32 + k - j * 4064] == val[k] {
      assert Pages.Chunk(val, j)[k - j * 4064] == val[k];
      assert s[32..][k - j * 4064] == p.data[k - j * 4064];
    }
  }
}
