/** The clock-sweep buffer pool: `bufpool/bufpool.go`.

    A page has a logical content: what its frame holds while it is cached, and
    what the disk holds otherwise.  Every operation of the pool is proved to
    leave all logical contents alone; only a client's own writes change them.
    The checksum field of a page is not part of its content: a page is `sealed`
    while its checksum is up to date. */
module BufPool {
  import opened Bytes
  import opened PageKeys

  type PageId = nat

  const DEFAULT_PAGES: nat := 256

  datatype Buf = Buf(body: Bytes, sealed: bool)

  /** `PageIO`.  The environment decides which pages can be read and written
      at any moment. */
  class Disk {
    var pages: map<PageId, Buf>
    var badReads: set<PageId>
    var badWrites: set<PageId>
    var badSync: bool

    constructor (pages: map<PageId, Buf>)
      ensures this.pages == pages
    {
      this.pages, badReads, badWrites, badSync := pages, {}, {}, false;
    }

    method ReadPage(id: PageId) returns (ok: bool, buf: Buf)
      ensures ok == (id in pages && id !in badReads)
      ensures ok ==> buf == pages[id]
    {
      if id in pages && id !in badReads {
        return true, pages[id];
      }
      return false, Buf([], false);
    }

    method WritePage(id: PageId, buf: Buf) returns (ok: bool)
      modifies this`pages
      ensures ok == (id !in badWrites)
      ensures pages == if ok then old(pages)[id := buf] else old(pages)
    {
      ok := id !in badWrites;
      if ok {
        pages := pages[id := buf];
      }
    }

    method Sync() returns (ok: bool)
      ensures ok == !badSync
    {
      ok := !badSync;
    }

    /** No page fails to be written. */
    ghost predicate Writable()
      reads this`badWrites
    {
      badWrites == {}
    }
  }

  class Frame {
    const pageID: PageId
    var buf: Buf
    var dirty: bool
    var pinCnt: int
    var ref: bool

    constructor (id: PageId, buf: Buf)
      ensures pageID == id && this.buf == buf && !dirty && pinCnt == 1 && ref
    {
      pageID, this.buf, dirty, pinCnt, ref := id, buf, false, 1, true;
    }

    /** `page.SetChecksum`. */
    method SetChecksum()
      modifies this`buf
      ensures buf == Buf(old(buf.body), true)
    {
      buf := buf.(sealed := true);
    }
  }

  // ---------- the ring ----------

  /** The ring position `j` steps after `h`. */
  function At(h: nat, j: nat, n: nat): (i: nat)
    requires n > 0
    ensures i < n
  {
    (h + j) % n
  }

  function NextPosition(i: nat, n: nat): (j: nat)
    requires n > 0
    ensures j < n
  {
    (i + 1) % n
  }

  lemma AtStep(h: nat, j: nat, n: nat)
    requires n > 0
    ensures NextPosition(At(h, j, n), n) == At(h, j + 1, n)
  {
    var q, r := (h + j) / n, (h + j) % n;
    if r + 1 == n {
      NextMultiple(q, n);
      SameRemainder(h + j + 1, q + 1, 0, n);
      SameRemainder(n, 1, 0, n);
    } else {
      SameRemainder(h + j + 1, q, r + 1, n);
      SameRemainder(r + 1, 0, r + 1, n);
    }
  }

  lemma NextMultiple(q: nat, n: nat)
    ensures (q + 1) * n == q * n + n
  {
  }

  lemma SameRemainder(x: nat, q: nat, r: nat, n: nat)
    requires n > 0 && r < n && x == q * n + r
    ensures x % n == r
  {
    DivMod(q, n, r);
  }

  /** One round later the hand is back. */
  lemma AtRound(h: nat, j: nat, n: nat)
    requires n > 0
    ensures At(h, j + n, n) == At(h, j, n)
  {
    var q, r := (h + j) / n, (h + j) % n;
    assert h + j == q * n + r;
    NextMultiple(q, n);
    SameRemainder(h + j + n, q + 1, r, n);
  }

  lemma AtStart(h: nat, n: nat)
    requires h < n
    ensures At(h, 0, n) == h
  {
  }

  /** Ring and frame map hold the same frames, once each, and the hand is in
      range. */
  ghost predicate Ring(clock: seq<Frame>, frames: map<PageId, Frame>, hand: nat) {
    && |clock| == |frames|
    && (forall i :: 0 <= i < |clock| ==> clock[i].pageID in frames && frames[clock[i].pageID] == clock[i])
    && (forall p :: p in frames ==> frames[p] in clock && frames[p].pageID == p)
    && (forall i, j :: 0 <= i < j < |clock| ==> clock[i].pageID != clock[j].pageID)
    && (hand < |clock| || (clock == [] && hand == 0))
  }

  /** The ring without position `i`: the last frame moves there. */
  function Without(clock: seq<Frame>, i: nat): (r: seq<Frame>)
    requires i < |clock|
    ensures |r| == |clock| - 1
  {
    clock[i := clock[|clock| - 1]][..|clock| - 1]
  }

  lemma WithoutHas(clock: seq<Frame>, i: nat, f: Frame)
    requires i < |clock| && f in clock && f != clock[i]
    ensures f in Without(clock, i)
  {
    var j :| 0 <= j < |clock| && clock[j] == f;
    var n := |clock| - 1;
    if j == n {
      assert Without(clock, i)[i] == f;
    } else {
      assert Without(clock, i)[j] == f;
    }
  }

  lemma KeysWithout<K, V>(m: map<K, V>, k: K)
    requires k in m
    ensures |m - {k}| == |m| - 1
  {
    assert (m - {k}).Keys == m.Keys - {k};
    assert |m.Keys - {k}| == |m.Keys| - 1;
    assert |m| == |m.Keys| && |m - {k}| == |(m - {k}).Keys|;
  }

  lemma RingWithout(clock: seq<Frame>, frames: map<PageId, Frame>, i: nat, hand: nat)
    requires Ring(clock, frames, i) && i < |clock|
    requires hand < |clock| - 1 || (|clock| == 1 && hand == 0)
    ensures Ring(Without(clock, i), frames - {clock[i].pageID}, hand)
    ensures forall f :: f in Without(clock, i) ==> f in clock
  {
    hide Without;
    var r, id := Without(clock, i), clock[i].pageID;
    KeysWithout(frames, id);
    WithoutAt(clock, i);
    WithoutDiffers(clock, i);
    forall j | 0 <= j < |r| ensures r[j].pageID in frames - {id} && frames[r[j].pageID] == r[j] {
      assert r[j] in clock;
    }
    forall p | p in frames - {id} ensures frames[p] in r && frames[p].pageID == p {
      WithoutHas(clock, i, frames[p]);
    }
  }

  lemma WithoutDiffers(clock: seq<Frame>, i: nat)
    requires i < |clock|
    requires forall j, k :: 0 <= j < k < |clock| ==> clock[j].pageID != clock[k].pageID
    ensures var r := Without(clock, i);
            && (forall j, k :: 0 <= j < k < |r| ==> r[j].pageID != r[k].pageID)
            && forall j :: 0 <= j < |r| ==> r[j].pageID != clock[i].pageID
  {
    WithoutAt(clock, i);
    hide Without;
  }

  lemma WithoutAt(clock: seq<Frame>, i: nat)
    requires i < |clock|
    ensures forall j :: 0 <= j < |clock| - 1 ==> Without(clock, i)[j] == clock[if j == i then |clock| - 1 else j]
    ensures forall f :: f in Without(clock, i) ==> f in clock
  {
  }

  /** Where the hand is when its frame has been removed and `n` are left. */
  function HandWithout(hand: nat, n: nat): nat {
    if n == 0 then 0 else hand % n
  }

  lemma HandStays(hand: nat, n: nat)
    ensures HandWithout(hand, n) == if n == 0 then 0 else hand % n
    ensures HandWithout(hand, n) < n || (n == 0 && HandWithout(hand, n) == 0)
  {
  }

  /** The ring with a new frame at its end. */
  lemma RingWith(clock: seq<Frame>, frames: map<PageId, Frame>, hand: nat, f: Frame)
    requires Ring(clock, frames, hand) && f.pageID !in frames
    ensures Ring(clock + [f], frames[f.pageID := f], hand)
  {
    var r, m := clock + [f], frames[f.pageID := f];
    assert m.Keys == frames.Keys + {f.pageID};
    assert |m| == |m.Keys| && |frames| == |frames.Keys|;
    assert r[|clock|] == f;
    forall p | p in m ensures m[p] in r && m[p].pageID == p {
      if p != f.pageID {
        var j :| 0 <= j < |clock| && clock[j] == frames[p];
        assert r[j] == frames[p];
      }
    }
  }

  /** A frame that is neither dirty nor touched agrees with the disk. */
  ghost predicate FrameOk(f: Frame, touched: set<PageId>, pages: map<PageId, Buf>)
    reads f
  {
    && f.pageID in pages && f.pinCnt >= 0
    && (f.pageID in touched ==> f.pinCnt > 0)
    && (!f.dirty && f.pageID !in touched ==> f.buf.body == pages[f.pageID].body)
  }

  /** What the sweep looks at in a frame. */
  datatype Look = Look(pinned: bool, ref: bool)

  ghost function Looks(ring: seq<Frame>): (r: seq<Look>)
    reads ring
    ensures |r| == |ring| && forall i :: 0 <= i < |r| ==> r[i] == Look(ring[i].pinCnt > 0, ring[i].ref)
  {
    seq(|ring|, i requires 0 <= i < |ring| reads ring => Look(ring[i].pinCnt > 0, ring[i].ref))
  }

  /** Unpinned and not referenced. */
  predicate Chosen(l: Look) {
    !l.pinned && !l.ref
  }

  /** The victim of a sweep that meets `was` from position `h` on is `j` steps
      away: the first frame that is unpinned and unreferenced, or if there is
      none, the first unpinned one. */
  ghost predicate VictimAt(was: seq<Look>, h: nat, j: nat)
    requires was != []
  {
    var n := |was|;
    && j < n
    && if exists i :: 0 <= i < n && Chosen(was[i])
       then Chosen(was[At(h, j, n)]) && forall i :: 0 <= i < j ==> !Chosen(was[At(h, i, n)])
       else !was[At(h, j, n)].pinned && forall i :: 0 <= i < j ==> was[At(h, i, n)].pinned
  }

  /** The reference bits that are left when the victim is `j` steps away: pinned
      frames keep theirs; of the others those before the victim have lost it, and
      if none was unreferenced at first, all have. */
  ghost predicate BitsLeft(now: seq<Look>, was: seq<Look>, h: nat, j: nat)
    requires |now| == |was| > 0
  {
    var n := |was|;
    forall i :: 0 <= i < n ==>
      now[At(h, i, n)].ref ==
      (was[At(h, i, n)].ref && (was[At(h, i, n)].pinned || (i >= j && exists l :: 0 <= l < n && Chosen(was[l]))))
  }

  /** The ring after `k` steps of a sweep from `h`: in the first round every frame
      passed was pinned or referenced, in the second every one was pinned; those
      passed and not pinned have lost their bit, and nothing else is different. */
  ghost predicate Swept(now: seq<Look>, was: seq<Look>, h: nat, k: nat) {
    && |now| == |was| > 0
    && var n := |was|;
       && (forall i :: 0 <= i < n ==> now[i].pinned == was[i].pinned)
       && (forall j :: 0 <= j < k && j < n ==> !Chosen(was[At(h, j, n)]))
       && (forall j :: 0 <= j < k - n ==> was[At(h, j, n)].pinned)
       && (forall j :: 0 <= j < n ==> now[At(h, j, n)].ref == (was[At(h, j, n)].ref && (was[At(h, j, n)].pinned || j >= k)))
  }

  lemma AtIs(h: nat, j: nat, n: nat)
    requires j < n && h < n
    ensures At(h, j, n) == if h + j < n then h + j else h + j - n
  {
    if h + j < n {
      SameRemainder(h + j, 0, h + j, n);
    } else {
      SameRemainder(h + j, 1, h + j - n, n);
    }
  }

  /** Two positions of one round differ. */
  lemma AtDiffers(h: nat, i: nat, j: nat, n: nat)
    requires i < n && j < n && i != j && h < n
    ensures At(h, i, n) != At(h, j, n)
  {
    AtIs(h, i, n);
    AtIs(h, j, n);
  }

  /** Every position is met in the first round. */
  lemma MetOnce(h: nat, i: nat, n: nat) returns (j: nat)
    requires h < n && i < n
    ensures j < n && At(h, j, n) == i
  {
    j := if i >= h then i - h else i + n - h;
    AtIs(h, j, n);
  }

  lemma SweptSize(now: seq<Look>, was: seq<Look>, h: nat, k: nat)
    requires Swept(now, was, h, k)
    ensures |now| == |was| > 0
  {
  }

  lemma IsChosen(l: Look)
    requires !l.pinned && !l.ref
    ensures Chosen(l)
  {
  }

  lemma SweepBegins(was: seq<Look>, h: nat)
    requires was != []
    ensures Swept(was, was, h, 0)
  {
    hide At;
  }

  /** The position of step `k`, counted in the first round. */
  lemma InRound(h: nat, k: nat, n: nat) returns (j: nat)
    requires n > 0 && k < 2 * n
    ensures j == (if k < n then k else k - n) && At(h, j, n) == At(h, k, n)
  {
    j := if k < n then k else k - n;
    if k >= n {
      AtRound(h, k - n, n);
    }
  }

  /** The frame under the hand was pinned. */
  lemma SweptPinned(now: seq<Look>, was: seq<Look>, h: nat, k: nat)
    requires Swept(now, was, h, k) && k < 2 * |was| && now[At(h, k, |was|)].pinned
    ensures Swept(now, was, h, k + 1)
  {
    var j := InRound(h, k, |was|);
    hide At;
  }

  /** The frame under the hand had its reference bit, and loses it; this is in
      the first round. */
  lemma SweptRef(now: seq<Look>, was: seq<Look>, h: nat, k: nat)
    requires Swept(now, was, h, k) && h < |was| && k < 2 * |was|
    requires now[At(h, k, |was|)] == Look(false, true)
    ensures Swept(now[At(h, k, |was|) := Look(false, false)], was, h, k + 1)
  {
    var n := |was|;
    var j := InRound(h, k, n);
    var after := now[At(h, k, n) := Look(false, false)];
    forall i | 0 <= i < n
      ensures after[At(h, i, n)].ref == (was[At(h, i, n)].ref && (was[At(h, i, n)].pinned || i >= k + 1))
    {
      if i != k {
        AtDiffers(h, i, k, n);
      }
    }
    hide At;
  }

  /** The frame under the hand is neither pinned nor referenced. */
  lemma SweptVictim(now: seq<Look>, was: seq<Look>, h: nat, k: nat) returns (j: nat)
    requires Swept(now, was, h, k) && h < |was| && k < 2 * |was| && Chosen(now[At(h, k, |was|)])
    ensures At(h, k, |was|) == At(h, j, |was|) && VictimAt(was, h, j) && BitsLeft(now, was, h, j)
  {
    var n := |was|;
    j := InRound(h, k, n);
    if k < n {
      assert Chosen(was[At(h, j, n)]);
    } else {
      NoneChosen(was, h);
    }
    hide At;
  }

  /** A full round without a choice means that there is none. */
  lemma NoneChosen(was: seq<Look>, h: nat)
    requires was != [] && h < |was| && forall j :: 0 <= j < |was| ==> !Chosen(was[At(h, j, |was|)])
    ensures forall i :: 0 <= i < |was| ==> !Chosen(was[i])
  {
    forall i | 0 <= i < |was| ensures !Chosen(was[i]) {
      var j := MetOnce(h, i, |was|);
    }
  }

  /** After two rounds every frame was pinned, and every bit is where it was. */
  lemma SweptTwice(now: seq<Look>, was: seq<Look>, h: nat)
    requires Swept(now, was, h, 2 * |was|) && h < |was|
    ensures now == was && forall i :: 0 <= i < |was| ==> was[i].pinned
  {
    forall i | 0 <= i < |was| ensures was[i].pinned && now[i] == was[i] {
      var j := MetOnce(h, i, |was|);
      hide At;
      assert 0 <= j < 2 * |was| - |was|;
    }
  }

  /** A frame that was referenced is no victim while some frame is unpinned and
      unreferenced. */
  lemma ReferencedStays(was: seq<Look>, h: nat, j: nat)
    requires was != [] && VictimAt(was, h, j) && exists i :: 0 <= i < |was| && Chosen(was[i])
    ensures !was[At(h, j, |was|)].ref
  {
    hide At;
  }

  class Pool {
    const io: Disk
    var maxPages: int
    var frames: map<PageId, Frame>
    var clock: seq<Frame>
    var clockHand: nat
    /** Pages that a client has written to and not yet marked dirty. */
    ghost var touched: set<PageId>

    /** `New`. */
    constructor (io: Disk, maxPages: int)
      ensures Valid() && this.io == io && frames == map[]
      ensures this.maxPages == if maxPages <= 0 then 256 else maxPages
      ensures View() == DiskView(io.pages)
    {
      this.io := io;
      this.maxPages := if maxPages <= 0 then DEFAULT_PAGES else maxPages;
      frames, clock, clockHand, touched := map[], [], 0, {};
    }

    // ---------- what the pool stands for ----------

    ghost predicate Valid()
      reads this, io, clock
    {
      && Ring(clock, frames, clockHand) && maxPages >= 1
      && (forall p :: p in frames ==> frames[p] in clock && FrameOk(frames[p], touched, io.pages))
      && (forall p :: p in touched ==> p in frames)
    }

    /** The logical content of a page. */
    ghost function Content(p: PageId): Bytes
      requires p in io.pages && (p in frames ==> frames[p] in clock)
      reads this, io, clock
    {
      if p in frames then frames[p].buf.body else io.pages[p].body
    }

    ghost function View(): map<PageId, Bytes>
      requires Valid()
      reads this, io, clock
    {
      map p | p in io.pages :: Content(p)
    }

    /** Whether some cached page is not pinned. */
    ghost predicate SomeUnpinned()
      reads this, clock
    {
      exists i :: 0 <= i < |clock| && clock[i].pinCnt <= 0
    }

    /** Whether some cached page is neither pinned nor referenced. */
    ghost predicate SomeChosen()
      reads this, clock
    {
      exists i :: 0 <= i < |clock| && clock[i].pinCnt <= 0 && !clock[i].ref
    }

    // ---------- eviction ----------

    /** `advanceHand`. */
    method AdvanceHand()
      requires |clock| > 0
      modifies this`clockHand
      ensures clockHand == NextPosition(old(clockHand), |clock|)
    {
      clockHand := (clockHand + 1) % |clock|;
    }

    /** `removeClock`: the last frame takes the place of the removed one. */
    method RemoveClock(i: nat)
      requires i < |clock| && clockHand < |clock|
      modifies this`clock, this`clockHand
      ensures clock == Without(old(clock), i)
      ensures clockHand == if clock == [] then 0 else old(clockHand) % |clock|
    {
      var n := |clock|;
      clock := clock[i := clock[n - 1]];
      clock := clock[..n - 1];
      if |clock| == 0 {
        clockHand := 0;
        return;
      }
      clockHand := clockHand % |clock|;
    }

    /** Writes a frame back, its checksum recomputed. */
    method WriteBack(f: Frame) returns (ok: bool)
      requires Valid() && f in clock
      modifies f`buf, io`pages
      ensures Valid() && View() == old(View())
      ensures ok == (f.pageID !in io.badWrites)
      ensures f.buf.body == old(f.buf.body)
      ensures io.pages == if ok then old(io.pages)[f.pageID := Buf(f.buf.body, true)] else old(io.pages)
    {
      hide Ring;
      InRing(clock, frames, clockHand, f);
      f.SetChecksum();
      ok := io.WritePage(f.pageID, f.buf);
      forall p | p in frames ensures FrameOk(frames[p], touched, io.pages) {
        assert old(FrameOk(frames[p], touched, io.pages));
      }
      assert io.pages.Keys == old(io.pages.Keys);
    }

    /** The frame at the hand goes: written back first if it is dirty. */
    method Evict() returns (ok: bool, ghost victim: PageId)
      requires Valid() && clock != [] && clock[clockHand].pinCnt <= 0
      modifies this`clock, this`clockHand, this`frames, io`pages, set f | f in clock :: f`buf
      ensures Valid() && View() == old(View())
      ensures victim == old(clock[clockHand].pageID)
      ensures ok == (old(clock[clockHand].dirty) ==> victim !in io.badWrites)
      ensures frames == if ok then old(frames) - {victim} else old(frames)
      ensures if ok then clock == Without(old(clock), old(clockHand)) && clockHand == HandWithout(old(clockHand), |clock|)
              else clock == old(clock) && clockHand == old(clockHand)
      ensures forall f :: f in clock ==> f in old(clock)
      ensures forall f :: f in old(clock) ==> f.buf.body == old(f.buf.body)
      ensures Sealed(old(io.pages), io.pages)
      ensures io.pages == if ok && old(clock[clockHand].dirty) then old(io.pages)[victim := Buf(old(clock[clockHand].buf.body), true)]
                          else old(io.pages)
    {
      hide *;
      HandInRing();
      var f := clock[clockHand];
      EvictStarts(f);
      victim := f.pageID;
      if f.dirty {
        ok := WriteBack(f);
        JustSealed(old(io.pages), io.pages, victim);
        if !ok {
          return;
        }
      }
      Drop(f);
      return true, victim;
    }

    lemma HandInRing()
      requires Valid() && clock != []
      ensures clockHand < |clock|
    {
    }

    lemma EvictStarts(f: Frame)
      requires Valid() && f in clock && f.pinCnt <= 0
      ensures f.pageID in io.pages && (!f.dirty ==> f.buf.body == io.pages[f.pageID].body)
      ensures Sealed(io.pages, io.pages)
    {
      InRing(clock, frames, clockHand, f);
    }

    /** The frame at the hand, which agrees with the disk, leaves the pool. */
    method Drop(f: Frame)
      requires Valid() && clockHand < |clock| && clock[clockHand] == f && f.pinCnt <= 0
      requires f.pageID in io.pages && f.buf.body == io.pages[f.pageID].body
      modifies this`clock, this`clockHand, this`frames
      ensures Valid() && View() == old(View())
      ensures frames == old(frames) - {f.pageID}
      ensures clock == Without(old(clock), old(clockHand)) && clockHand == HandWithout(old(clockHand), |clock|)
      ensures forall g :: g in clock ==> g in old(clock)
    {
      hide *;
      ghost var ring, all, hand := clock, frames, clockHand;
      RingOf();
      RemoveClock(clockHand);
      HandStays(hand, |clock|);
      frames := frames - {f.pageID};
      RingWithout(ring, all, hand, clockHand);
      Dropped(f);
    }

    lemma RingOf()
      requires Valid()
      ensures Ring(clock, frames, clockHand)
    {
    }

    /** What is left when the frame `f` has been dropped. */
    twostate lemma Dropped(f: Frame)
      requires old(Valid()) && Ring(clock, frames, clockHand) && old(f in clock) && frames == old(frames) - {f.pageID}
      requires io.pages == old(io.pages) && touched == old(touched) && maxPages == old(maxPages)
      requires f.pageID in io.pages && f.buf.body == io.pages[f.pageID].body && f.pinCnt <= 0
      requires forall g :: g in old(clock) ==> unchanged(g)
      ensures Valid() && View() == old(View())
    {
      InRing(old(clock), old(frames), old(clockHand), f);
      StillInRing(clock, frames, clockHand);
      StillInRing(old(clock), old(frames), old(clockHand));
      hide Ring;
      assert old(FrameOk(f, touched, io.pages));
      hide FrameOk;
      forall p | p in io.pages ensures Content(p) == old(Content(p)) {
        if p in frames {
          assert frames[p] == old(frames[p]);
        }
      }
    }

    /** Reference bits say nothing about contents. */
    twostate lemma RefsOnly()
      requires old(Valid()) && clock == old(clock) && frames == old(frames) && touched == old(touched)
      requires maxPages == old(maxPages) && io.pages == old(io.pages) && (clockHand < |clock| || (clock == [] && clockHand == 0))
      requires forall f :: f in clock ==> f.buf == old(f.buf) && f.dirty == old(f.dirty) && f.pinCnt == old(f.pinCnt)
      ensures Valid() && View() == old(View())
    {
      forall p | p in frames ensures FrameOk(frames[p], touched, io.pages) && frames[p] in clock {
        assert old(FrameOk(frames[p], touched, io.pages));
      }
    }

    /** One look at the frame under the hand: a victim, or one more passed. */
    method Sweep(ghost was: seq<Look>, ghost h: nat, ghost k: nat) returns (found: bool)
      requires Valid() && h < |clock| && clockHand == At(h, k, |clock|) && k < 2 * |clock|
      requires Swept(Looks(clock), was, h, k)
      modifies this`clockHand, set f | f in clock :: f`ref
      ensures Valid() && View() == old(View())
      ensures found ==> clockHand == old(clockHand) && clock[clockHand].pinCnt <= 0 && Chosen(Looks(clock)[clockHand])
      ensures found ==> Looks(clock) == old(Looks(clock))
      ensures !found ==> clockHand == At(h, k + 1, |clock|) && Swept(Looks(clock), was, h, k + 1)
    {
      hide *;
      HandInRing();
      SweptSize(Looks(clock), was, h, k);
      var f := clock[clockHand];
      ghost var looks := Looks(clock);
      AtStep(h, k, |clock|);
      if f.pinCnt > 0 {
        SweptPinned(looks, was, h, k);
        AdvanceHand();
        InRange(h, k + 1);
        RefsOnly();
        assert Looks(clock) == looks;
        return false;
      }
      if f.ref {
        SweptRef(looks, was, h, k);
        FramesDiffer();
        assert f in clock;
        f.ref := false;
        ghost var after := looks[clockHand := Look(false, false)];
        assert Looks(clock) == after;
        AdvanceHand();
        InRange(h, k + 1);
        RefsOnly();
        assert Looks(clock) == after;
        return false;
      }
      LookAt(clockHand);
      IsChosen(Looks(clock)[clockHand]);
      return true;
    }

    lemma FramesDiffer()
      requires Valid()
      ensures forall i, j :: 0 <= i < j < |clock| ==> clock[i] != clock[j]
    {
    }

    lemma InRange(h: nat, k: nat)
      requires |clock| > 0 && clockHand == At(h, k, |clock|)
      ensures clockHand < |clock|
    {
    }

    /** Moves the hand to the victim, `steps` away, in at most two rounds: there is
        one exactly when some page is not pinned. */
    method FindVictim() returns (found: bool, ghost steps: nat)
      requires Valid()
      modifies this`clockHand, set f | f in clock :: f`ref
      ensures Valid() && View() == old(View())
      ensures found == old(SomeUnpinned())
      ensures found ==>
                && clock != [] && clockHand == At(old(clockHand), steps, |clock|) && clock[clockHand].pinCnt <= 0
                && VictimAt(old(Looks(clock)), old(clockHand), steps)
                && BitsLeft(Looks(clock), old(Looks(clock)), old(clockHand), steps)
                && (old(SomeChosen()) ==> !old(Looks(clock))[At(old(clockHand), steps, |clock|)].ref)
      ensures !found ==> Looks(clock) == old(Looks(clock))
    {
      hide *;
      var n := |clock|;
      steps := 0;
      if n == 0 {
        NoneUnpinned();
        assert Looks(clock) == old(Looks(clock));
        return false, 0;
      }
      ghost var h, was, some := clockHand, Looks(clock), SomeChosen();
      ChosenIn();
      SweepStarts();
      SweepBegins(was, h);
      var k := 0;
      while k < 2 * n
        invariant k <= 2 * n && h < n == |clock|
        invariant clockHand == At(h, k, n) && Valid() && View() == old(View()) && Swept(Looks(clock), was, h, k)
      {
        found := Sweep(was, h, k);
        if found {
          steps := SweptVictim(Looks(clock), was, h, k);
          if some {
            ReferencedStays(was, h, steps);
          }
          SomeFree(was, h, steps);
          return;
        }
        k := k + 1;
      }
      SweptTwice(Looks(clock), was, h);
      return false, 0;
    }

    /** `evictOne`: the victim is the first frame from the hand that is unpinned
        and unreferenced, or if there is none the first unpinned one, `steps`
        away; the unpinned frames passed on the way lose their reference bits.
        Only a failed write, or no unpinned page, prevents it. */
    method EvictOne() returns (ok: bool, ghost victim: PageId, ghost steps: nat)
      requires Valid()
      modifies this`clock, this`clockHand, this`frames, io`pages, set f | f in clock :: f
      ensures Valid() && View() == old(View())
      ensures ok ==> victim in old(frames) && old(frames[victim].pinCnt) <= 0 && frames == old(frames) - {victim}
      ensures !ok ==> frames == old(frames) && clock == old(clock)
      ensures ok ==> old(SomeUnpinned())
      ensures io.Writable() ==> ok == old(SomeUnpinned())
      ensures old(SomeUnpinned()) ==>
                && old(clock) != [] && VictimAt(old(Looks(clock)), old(clockHand), steps)
                && victim == old(clock)[At(old(clockHand), steps, |old(clock)|)].pageID
                && BitsLeft(Looks(old(clock)), old(Looks(clock)), old(clockHand), steps)
                && victim in old(frames) && ok == (old(frames[victim].dirty) ==> victim !in io.badWrites)
      ensures ok ==>
                var at := At(old(clockHand), steps, |old(clock)|);
                clock == Without(old(clock), at) && clockHand == HandWithout(at, |clock|)
      ensures !old(SomeUnpinned()) ==> Looks(old(clock)) == old(Looks(clock))
      ensures ok && old(SomeChosen()) ==> !old(frames[victim].ref)
      ensures forall f :: f in clock ==> f in old(clock)
      ensures forall f :: f in old(clock) ==> f.buf.body == old(f.buf.body) && f.pinCnt == old(f.pinCnt) && f.dirty == old(f.dirty)
    {
      hide *;
      victim := 0;
      var found;
      found, steps := FindVictim();
      if !found {
        return false, 0, steps;
      }
      ghost var ring, looks := clock, Looks(clock);
      HandInRing();
      VictimInPool(clockHand);
      ok, victim := Evict();
      assert Looks(ring) == looks;
    }

    lemma ChosenIn()
      ensures SomeChosen() <==> exists i :: 0 <= i < |clock| && Chosen(Looks(clock)[i])
      ensures SomeUnpinned() <==> exists i :: 0 <= i < |clock| && !Looks(clock)[i].pinned
    {
      if SomeChosen() {
        var i :| 0 <= i < |clock| && clock[i].pinCnt <= 0 && !clock[i].ref;
        assert Chosen(Looks(clock)[i]);
      }
      if SomeUnpinned() {
        var i :| 0 <= i < |clock| && clock[i].pinCnt <= 0;
        assert !Looks(clock)[i].pinned;
      }
    }

    /** Whoever is picked shows that some page was not pinned. */
    lemma SomeFree(was: seq<Look>, h: nat, j: nat)
      requires was != [] && VictimAt(was, h, j)
      ensures exists i :: 0 <= i < |was| && !was[i].pinned
    {
      assert !was[At(h, j, |was|)].pinned;
    }

    lemma LookAt(i: nat)
      requires i < |clock|
      ensures Looks(clock)[i] == Look(clock[i].pinCnt > 0, clock[i].ref)
    {
    }

    lemma NoneUnpinned()
      requires |clock| == 0
      ensures !SomeUnpinned()
    {
    }

    lemma SweepStarts()
      requires Valid() && |clock| > 0
      ensures clockHand < |clock| && clockHand == At(clockHand, 0, |clock|)
    {
      AtStart(clockHand, |clock|);
    }

    // ---------- clients ----------

    /** `Pin`: the page's frame, loaded if it is not cached, with one pin
        more.  A miss evicts one frame at most, so a pool whose capacity was
        lowered stays above it: misses replace frames one by one. */
    method Pin(id: PageId) returns (ok: bool, frame: Frame?)
      requires Valid()
      modifies this, io`pages, set f | f in clock :: f
      ensures Valid() && View() == old(View()) && touched == old(touched) && maxPages == old(maxPages)
      ensures ok ==>
                && frame != null && id in frames && frames[id] == frame && frame.ref
                && frame.pinCnt == (if id in old(frames) then old(frames[id].pinCnt) else 0) + 1
      ensures id in old(frames) ==> ok && frames == old(frames) && clock == old(clock)
      ensures io.Writable() && io.badReads == {} && id !in old(frames) ==>
                ok == (id in old(io.pages) && (|old(frames)| < maxPages || old(SomeUnpinned())))
      ensures forall p :: p in old(frames) && old(frames[p].pinCnt) > 0 ==>
                            p in frames && frames[p] == old(frames[p]) && (p != id ==> frames[p].pinCnt == old(frames[p].pinCnt))
      ensures |frames| <= if |old(frames)| > maxPages then |old(frames)| else maxPages
      ensures ok && id !in old(frames) ==>
                |frames| == if |old(frames)| >= maxPages then |old(frames)| else |old(frames)| + 1
      ensures ok && old(SomeChosen()) ==> forall p :: p in old(frames) && old(frames[p].ref) ==> p in frames && frames[p] == old(frames[p])
      ensures id in old(frames) ==>
                && frame.buf == old(frame.buf) && frame.dirty == old(frame.dirty)
                && forall p :: p in frames && p != id ==> unchanged(frames[p])
      ensures ok && id !in old(frames) ==> frame.buf == io.pages[id] && !frame.dirty
    {
      hide *;
      if id in frames {
        var f := frames[id];
        CachedFrame(id);
        f.pinCnt := f.pinCnt + 1;
        f.ref := true;
        CountersOnly(f);
        return true, f;
      }
      ViewDomain();
      var room := MakeRoom();
      if !room {
        return false, null;
      }
      ViewDomain();
      var got, buf := io.ReadPage(id);
      if !got {
        return false, null;
      }
      FramesAndRing();
      frame := Load(id, buf);
      return true, frame;
    }

    /** Evicts a frame if the pool is at its capacity. */
    method MakeRoom() returns (ok: bool)
      requires Valid()
      modifies this`clock, this`clockHand, this`frames, io`pages, set f | f in clock :: f
      ensures Valid() && View() == old(View())
      ensures io.Writable() ==> ok == (|old(frames)| < maxPages || old(SomeUnpinned()))
      ensures forall p :: p in frames ==> p in old(frames)
      ensures forall p :: p in old(frames) && old(frames[p].pinCnt) > 0 ==>
                            p in frames && frames[p] == old(frames[p]) && frames[p].pinCnt == old(frames[p].pinCnt)
      ensures |frames| <= |old(frames)|
      ensures |old(frames)| < maxPages ==> ok && frames == old(frames)
      ensures ok && |old(frames)| >= maxPages ==> |frames| == |old(frames)| - 1
      ensures ok && old(SomeChosen()) ==> forall p :: p in old(frames) && old(frames[p].ref) ==> p in frames
      ensures forall p :: p in frames ==> frames[p] == old(frames[p])
      ensures !ok ==> frames == old(frames)
    {
      hide *;
      FramesAndRing();
      if |frames| < maxPages {
        return true;
      }
      ghost var all := frames;
      ghost var victim;
      ghost var steps;
      ok, victim, steps := EvictOne();
      if ok {
        KeysWithout(all, victim);
      }
    }

    /** The frame for a page just read. */
    method Load(id: PageId, buf: Buf) returns (f: Frame)
      requires Valid() && id !in frames && id in io.pages && buf == io.pages[id]
      modifies this`frames, this`clock
      ensures Valid() && View() == old(View()) && fresh(f)
      ensures frames == old(frames)[id := f] && clock == old(clock) + [f] && |frames| == |old(frames)| + 1
      ensures f.pageID == id && f.pinCnt == 1 && f.ref && f.buf == buf && !f.dirty
    {
      hide *;
      f := new Frame(id, buf);
      ghost var ring, all := clock, frames;
      RingOf();
      NotTouched(id);
      frames := frames[id := f];
      clock := clock + [f];
      RingWith(ring, all, clockHand, f);
      LoadedSize(all, id, f);
      Loaded(f);
    }

    lemma NotTouched(id: PageId)
      requires Valid() && id !in frames
      ensures id !in touched
    {
    }

    lemma LoadedSize(all: map<PageId, Frame>, id: PageId, f: Frame)
      requires id !in all
      ensures |all[id := f]| == |all| + 1
    {
      assert all[id := f].Keys == all.Keys + {id};
      assert |all[id := f]| == |all[id := f].Keys| && |all| == |all.Keys|;
    }

    twostate lemma LoadedIsValid(new f: Frame)
      requires old(Valid()) && Ring(clock, frames, clockHand) && clock == old(clock) + [f] && clockHand == old(clockHand)
      requires f.pageID !in old(frames) && frames == old(frames)[f.pageID := f] && f.pageID !in touched
      requires io.pages == old(io.pages) && touched == old(touched) && maxPages == old(maxPages)
      requires f.pageID in io.pages && f.buf == io.pages[f.pageID] && f.pinCnt == 1 && !f.dirty
      requires forall g :: g in old(clock) ==> unchanged(g)
      ensures Valid()
    {
      StillInRing(clock, frames, clockHand);
      StillInRing(old(clock), old(frames), old(clockHand));
      hide Ring;
      forall p | p in frames ensures FrameOk(frames[p], touched, io.pages) {
        if p != f.pageID {
          assert old(FrameOk(frames[p], touched, io.pages));
        }
      }
    }

    twostate lemma Loaded(new f: Frame)
      requires old(Valid()) && Ring(clock, frames, clockHand) && clock == old(clock) + [f] && clockHand == old(clockHand)
      requires f.pageID !in old(frames) && frames == old(frames)[f.pageID := f] && f.pageID !in touched
      requires io.pages == old(io.pages) && touched == old(touched) && maxPages == old(maxPages)
      requires f.pageID in io.pages && f.buf == io.pages[f.pageID] && f.pinCnt == 1 && !f.dirty
      requires forall g :: g in old(clock) ==> unchanged(g)
      ensures Valid() && View() == old(View())
    {
      LoadedIsValid(f);
      StillInRing(old(clock), old(frames), old(clockHand));
      hide Ring, FrameOk;
      forall p | p in io.pages ensures Content(p) == old(Content(p)) {
        if p in frames && p != f.pageID {
          assert frames[p] == old(frames[p]);
        }
      }
    }

    lemma WritableIs()
      ensures io.Writable() <==> io.badWrites == {}
    {
    }

    lemma FramesAndRing()
      requires Valid()
      ensures |clock| == |frames| && forall p :: p in frames ==> frames[p] in clock && frames[p].pageID == p
    {
    }

    lemma CachedFrame(id: PageId)
      requires Valid() && id in frames
      ensures frames[id] in clock && frames[id].pageID == id && frames[id].pinCnt >= 0
      ensures id in touched ==> frames[id].pinCnt > 0
      ensures forall p :: p in frames ==> frames[p] in clock && frames[p].pageID == p
    {
    }

    /** Pins, reference bits and a dirty bit that is set change no content. */
    twostate lemma CountersOnly(f: Frame)
      requires old(Valid()) && unchanged(this) && unchanged(io) && f in clock
      requires forall g :: g in clock && g != f ==> unchanged(g)
      requires f.buf == old(f.buf) && (old(f.dirty) ==> f.dirty) && f.pinCnt >= 0
      requires f.pageID in touched ==> f.pinCnt > 0
      ensures Valid() && View() == old(View())
    {
      forall p | p in frames ensures FrameOk(frames[p], touched, io.pages) {
        assert old(FrameOk(frames[p], touched, io.pages));
      }
    }

    /** `Unpin`.  Panics on a page that is not cached or not pinned.  A client
        marks a page that it wrote dirty before it gives up its last pin. */
    method Unpin(id: PageId) returns (panics: bool)
      requires Valid()
      requires id in frames && frames[id].pinCnt == 1 ==> id !in touched
      modifies set f | f in clock :: f
      ensures Valid() && View() == old(View())
      ensures panics == !(id in frames && old(frames[id].pinCnt) > 0)
      ensures !panics ==>
                && frames[id].pinCnt == old(frames[id].pinCnt) - 1 && frames[id].ref == old(frames[id].ref)
                && frames[id].dirty == old(frames[id].dirty) && frames[id].buf == old(frames[id].buf)
      ensures forall p :: p in frames && (p != id || panics) ==> unchanged(frames[p])
    {
      hide *;
      FramesAndRing();
      if id !in frames {
        return true;
      }
      var f := frames[id];
      CachedFrame(id);
      if f.pinCnt <= 0 {
        return true;
      }
      f.pinCnt := f.pinCnt - 1;
      CountersOnly(f);
      return false;
    }

    /** `MarkDirty`.  Panics on a page that is not cached or not pinned. */
    method MarkDirty(id: PageId) returns (panics: bool)
      requires Valid()
      modifies this`touched, set f | f in clock :: f
      ensures Valid() && View() == old(View())
      ensures panics == !(id in frames && old(frames[id].pinCnt) > 0)
      ensures touched == if panics then old(touched) else old(touched) - {id}
      ensures !panics ==>
                && frames[id].dirty && frames[id].pinCnt == old(frames[id].pinCnt)
                && frames[id].ref == old(frames[id].ref) && frames[id].buf == old(frames[id].buf)
      ensures forall p :: p in frames && (p != id || panics) ==> unchanged(frames[p])
    {
      hide *;
      FramesAndRing();
      if id !in frames {
        return true;
      }
      var f := frames[id];
      CachedFrame(id);
      if f.pinCnt <= 0 {
        return true;
      }
      f.dirty := true;
      CountersOnly(f);
      label marked:
      touched := touched - {id};
      FewerTouched@marked(id);
      return false;
    }

    twostate lemma FewerTouched(id: PageId)
      requires old(Valid()) && io.pages == old(io.pages) && clock == old(clock) && frames == old(frames)
      requires clockHand == old(clockHand) && maxPages == old(maxPages) && touched == old(touched) - {id}
      requires (forall g :: g in clock ==> unchanged(g)) && id in frames && frames[id].dirty
      ensures Valid() && View() == old(View())
    {
      StillInRing(clock, frames, clockHand);
      forall p | p in frames ensures FrameOk(frames[p], touched, io.pages) {
        assert old(FrameOk(frames[p], touched, io.pages));
      }
    }

    /** A client writes into the buffer of a page it has pinned. */
    method ClientWrite(f: Frame, body: Bytes)
      requires Valid() && f.pageID in frames && frames[f.pageID] == f && f.pinCnt > 0
      modifies this`touched, f`buf
      ensures Valid() && View() == old(View())[f.pageID := body]
      ensures touched == if f.dirty then old(touched) else old(touched) + {f.pageID}
    {
      hide *;
      CachedFrame(f.pageID);
      f.buf := Buf(body, false);
      if !f.dirty {
        touched := touched + {f.pageID};
      }
      Written(f.pageID);
    }

    twostate lemma Written(id: PageId)
      requires old(Valid()) && io.pages == old(io.pages) && clock == old(clock) && frames == old(frames)
      requires clockHand == old(clockHand) && maxPages == old(maxPages) && id in frames && frames[id] in clock
      requires touched == if old(frames[id].dirty) then old(touched) else old(touched) + {id}
      requires forall g :: g in clock && g != frames[id] ==> unchanged(g)
      requires frames[id].dirty == old(frames[id].dirty)
      requires frames[id].pinCnt == old(frames[id].pinCnt) && frames[id].pinCnt > 0
      ensures Valid() && View() == old(View())[id := frames[id].buf.body]
    {
      StillInRing(clock, frames, clockHand);
      hide Ring;
      forall p | p in frames ensures FrameOk(frames[p], touched, io.pages) {
        assert old(FrameOk(frames[p], touched, io.pages));
      }
      hide FrameOk;
      forall p | p in io.pages ensures Content(p) == if p == id then frames[id].buf.body else old(Content(p)) {
        if p in frames {
          assert frames[p].pageID == p;
        }
      }
    }

    /** Writes back the dirty frame of a page and marks it clean. */
    method Clean(f: Frame) returns (ok: bool)
      requires Valid() && f in clock && f.dirty
      modifies io`pages, f
      ensures Valid() && View() == old(View())
      ensures ok == (f.pageID !in io.badWrites) && f.dirty == !ok && f.pinCnt == old(f.pinCnt) && f.ref == old(f.ref)
      ensures forall p :: p in old(io.pages) && p != f.pageID ==> p in io.pages && io.pages[p] == old(io.pages[p])
    {
      hide *;
      ok := WriteBack(f);
      FrameOf(f);
      if ok {
        label written:
        f.dirty := false;
        Cleaned@written(f);
      }
    }

    lemma FrameOf(f: Frame)
      requires Valid() && f in clock
      ensures f.pageID in frames && frames[f.pageID] == f
    {
      InRing(clock, frames, clockHand, f);
    }

    twostate lemma Cleaned(f: Frame)
      requires old(Valid()) && unchanged(this) && unchanged(io) && f in clock
      requires forall g :: g in clock && g != f ==> unchanged(g)
      requires f.buf == old(f.buf) && f.pinCnt == old(f.pinCnt) && f.pageID in io.pages && io.pages[f.pageID].body == f.buf.body
      ensures Valid() && View() == old(View())
    {
      forall p | p in frames ensures FrameOk(frames[p], touched, io.pages) {
        assert old(FrameOk(frames[p], touched, io.pages));
      }
    }

    /** `FlushPage`. */
    method FlushPage(id: PageId) returns (ok: bool)
      requires Valid()
      modifies io`pages, set f | f in clock :: f
      ensures Valid() && View() == old(View())
      ensures ok == (id in frames && old(frames[id].dirty) ==> id !in io.badWrites)
      ensures ok && id in frames ==> !frames[id].dirty
      ensures forall p :: p in frames && p != id ==> unchanged(frames[p])
      ensures id in frames ==> frames[id].pinCnt == old(frames[id].pinCnt) && frames[id].ref == old(frames[id].ref)
      ensures ok && id in io.pages && id !in touched ==> io.pages[id].body == View()[id]
    {
      hide *;
      FramesAndRing();
      if id !in frames {
        OnDisk(id);
        return true;
      }
      var f := frames[id];
      if !f.dirty {
        OnDisk(id);
        return true;
      }
      ok := Clean(f);
      OnDisk(id);
    }

    lemma OnDisk(id: PageId)
      requires Valid()
      ensures id in io.pages && id !in touched && (id in frames ==> !frames[id].dirty) ==> View()[id] == io.pages[id].body
    {
    }

    lemma ViewDomain()
      requires Valid()
      ensures forall p :: p in View() <==> p in io.pages
    {
    }

    /** `FlushDirty`: the frames in no particular order, then a sync. */
    method FlushDirty() returns (ok: bool)
      requires Valid()
      modifies io`pages, set f | f in clock :: f
      ensures Valid() && View() == old(View())
      ensures io.Writable() && !io.badSync ==> ok
      ensures ok ==> forall p :: p in frames ==> !frames[p].dirty
      ensures ok ==> forall p :: p in io.pages && p !in touched ==> io.pages[p].body == View()[p]
      ensures forall p :: p in frames ==> frames[p].pinCnt == old(frames[p].pinCnt) && frames[p].ref == old(frames[p].ref)
    {
      hide *;
      FramesAndRing();
      WritableIs();
      var todo := frames.Keys;
      while todo != {}
        invariant Valid() && View() == old(View()) && todo <= frames.Keys
        invariant forall p :: p in frames && p !in todo ==> !frames[p].dirty
        invariant forall p :: p in frames ==> frames[p].pinCnt == old(frames[p].pinCnt) && frames[p].ref == old(frames[p].ref)
      {
        var id :| id in todo;
        todo := todo - {id};
        var f := frames[id];
        if f.dirty {
          var written := Clean(f);
          if !written {
            return false;
          }
        }
      }
      ok := io.Sync();
      ViewDomain();
      forall p | p in io.pages && p !in touched ensures io.pages[p].body == View()[p] {
        OnDisk(p);
      }
    }

    /** `SetMaxPages`. */
    method SetMaxPages(n: int)
      requires Valid()
      modifies this`maxPages
      ensures Valid() && View() == old(View())
      ensures maxPages == if n < 1 then 1 else n
    {
      maxPages := if n < 1 then 1 else n;
    }

    lemma VictimInPool(i: nat)
      requires Valid() && i < |clock|
      ensures clock[i].pageID in frames && frames[clock[i].pageID] == clock[i]
      ensures io.Writable() ==> io.badWrites == {}
    {
    }
  }

  lemma StillInRing(clock: seq<Frame>, frames: map<PageId, Frame>, hand: nat)
    requires Ring(clock, frames, hand)
    ensures forall p :: p in frames ==> frames[p] in clock && frames[p].pageID == p
  {
  }

  lemma InRing(clock: seq<Frame>, frames: map<PageId, Frame>, hand: nat, f: Frame)
    requires Ring(clock, frames, hand)
    ensures f in clock <==> f.pageID in frames && frames[f.pageID] == f
    ensures forall p :: p in frames ==> frames[p] in clock && frames[p].pageID == p
  {
  }

  lemma JustSealed(a: map<PageId, Buf>, b: map<PageId, Buf>, p: PageId)
    requires b == a || (exists buf: Buf :: buf.sealed && b == a[p := buf])
    ensures Sealed(a, b)
  {
  }

  /** Pages that were written carry a valid checksum. */
  ghost predicate Sealed(a: map<PageId, Buf>, b: map<PageId, Buf>) {
    forall p :: p in b && (p !in a || b[p] != a[p]) ==> b[p].sealed
  }

  function DiskView(pages: map<PageId, Buf>): map<PageId, Bytes> {
    map p | p in pages :: pages[p].body
  }
}
