/** The free-page allocator: `freelist/btree_freelist.go`. */
module Freelist {
  import opened Bytes
  import opened TreeModel
  import opened TreeView
  import opened TreeOps
  import opened TreePacked
  import opened Pages
  import opened BTreeFacts
  import opened LeafList
  import opened ReadFacts
  import opened BTree
  import opened Cursors
  import opened PageKeys
  import opened FreelistFacts

  /** The pages of `clients` are as they were. */
  ghost predicate ClientsKept(a: Heap, b: Heap, clients: set<PageId>) {
    forall p :: p in clients && p in a ==> p in b && b[p] == a[p]
  }

  /** Free page IDs are the keys of a tree whose own nodes live on pages of the
      same allocator's reserve. */
  class BTreeFreelist {
    const tree: Tree
    const pool: Pool
    const reserve: Reserve
    ghost var held: set<PageId>
    ghost var all: set<PageId>

    /** `OpenBTreeFreelist` with an empty tree and `pages` in reserve. */
    constructor Open(pool: Pool, pages: seq<PageId>)
      requires forall p: PageId :: Occ(pages, p) <= 1
      requires forall i :: 0 <= i < |pages| ==> 0 < pages[i] < ID_LIMIT
      ensures Valid() && fresh(tree) && fresh(reserve) && this.pool == pool
      ensures held == {} && all == (set p | p in pages) && reserve.ids == pages && tree.shape == Empty
    {
      this.pool := pool;
      var r := new Reserve(pool, pages);
      reserve := r;
      OccMember(pages, 0);
      tree := new Tree(pool, r);
      held, all := {}, set p | p in pages;
      new;
      OnlyReserve(pages);
    }

    /** `OpenBTreeFreelist` with the root that another allocator left on these
        pages and no reserve, as a database is opened again.  The reserve is not
        on disk: its pages are managed no longer. */
    constructor Reopen(root: PageId, was: BTreeFreelist)
      requires was.Valid() && root == was.tree.root
      ensures Valid() && fresh(tree) && fresh(reserve) && pool == was.pool
      ensures tree.shape == was.tree.shape && reserve.ids == [] && held == was.held
      ensures all == was.all - (set p | p in was.reserve.ids)
      ensures FreePages() == was.FreePages() - |was.reserve.ids|
    {
      hide *;
      Opened(was);
      NoReserve(was.pool.pages, was.tree.shape, was.reserve.ids, was.held, was.all);
      was.tree.ValidParts();
      pool := was.pool;
      var r := new Reserve(was.pool, []);
      reserve := r;
      tree := new Tree.At(root, was.pool, r, was.tree.shape);
      held, all := was.held, was.all - set p | p in was.reserve.ids;
      new;
      Closed(this);
    }

    ghost predicate Valid()
      reads this, tree, pool, reserve
    {
      && tree.pool == pool && tree.fl == reserve && reserve.pool == pool
      && tree.Valid()
      && Partition(tree.shape, reserve.ids, held, all)
    }

    /** How many IDs the tree holds. */
    ghost function Listings(): nat
      reads tree
    {
      |TreeCells(tree.shape)|
    }

    /** How many free pages there are: in the tree and in reserve. */
    ghost function FreePages(): nat
      reads tree, reserve
    {
      Listings() + |reserve.ids|
    }

    /** `Alloc`: the smallest free ID while the tree has any, then the reserve,
        newest first. */
    method Alloc() returns (ok: bool, id: PageId)
      requires Valid()
      modifies this, tree, pool, reserve
      ensures Valid() && all == old(all)
      ensures ok == (old(FreePages()) > 0)
      ensures if ok then id in all && id !in old(held) && held == old(held) + {id} else held == old(held)
      ensures old(Listings()) > 0 ==>
                && Listed(old(tree.shape), id) && (forall p :: Listed(old(tree.shape), p) ==> id <= p)
                && Listings() == old(Listings()) - 1
      ensures old(Listings()) == 0 ==> tree.shape == old(tree.shape)
      ensures old(Listings()) == 0 && ok ==> old(reserve.ids) == reserve.ids + [id]
      ensures ClientsKept(old(pool.pages), pool.pages, old(held))
    {
      hide *;
      ghost var t, ids, pages := tree.shape, reserve.ids, pool.pages;
      Opened(this);
      NothingTouched(pages, held);
      var cur := new Cursor(tree);
      var positioned := cur.First();
      StartsAtLeast(cur);
      if positioned {
        var key := cur.Key();
        FirstIsLeast(t);
        if |key| == 8 {
          id := KeyToPageID(key);
          TakeLeast(t, ids, held, all);
          var _ := tree.Remove(key);
          ClientsUntouched(t, ids, held, all, pages, pool.pages);
          held := held + {id};
          Closed(this);
          return true, id;
        }
      }
      if |reserve.ids| > 0 {
        TakeReserve(t, ids, held, all);
        var n := |reserve.ids| - 1;
        id := reserve.ids[n];
        ReserveTaken(pages, t, ids);
        reserve.ids := reserve.ids[..n];
        TreeStillHeld(tree, pages, t, ids[..n]);
        held := held + {id};
        Closed(this);
        return true, id;
      }
      return false, 0;
    }

    /** `Free`: to the reserve while that is low, to the tree otherwise.  Nothing
        checks that the page is not free already: unless the tree takes it, and
        lists it already, it is then in two places. */
    method Free(id: PageId) returns (ok: bool)
      requires Valid() && id < ID_LIMIT
      modifies this, tree, pool, reserve
      ensures ShapedTree(old(tree.shape))
      ensures var o := Put(old(tree.shape), PageIDToKey(id), [], old(reserve.ids));
              && ok == (id != 0 && (|old(reserve.ids)| < 4 || o.status == Done))
              && (ok && |old(reserve.ids)| < 4 ==>
                    tree.shape == old(tree.shape) && reserve.ids == old(reserve.ids) + [id])
              && (ok && |old(reserve.ids)| >= 4 ==> tree.shape == o.tree && reserve.ids == o.av)
      ensures ok && Given(old(held), old(all), id) ==>
                && Valid() && held == old(held) - {id} && all == old(all) + {id}
                && (|old(reserve.ids)| >= 4 ==> Listings() == old(Listings()) + 1)
      ensures ok && !Given(old(held), old(all), id) ==>
                if |old(reserve.ids)| >= 4 && Listed(old(tree.shape), id)
                then Valid() && held == old(held) && all == old(all) && TreeMap(tree.shape) == TreeMap(old(tree.shape))
                else Doubled(tree.shape, reserve.ids)
      ensures id == 0 ==> Valid() && held == old(held) && all == old(all) && FreePages() == old(FreePages())
      ensures id != 0 && old(Listings()) < 571_880 ==> ok
      ensures ClientsKept(old(pool.pages), pool.pages, old(held) - {id})
    {
      hide *;
      ghost var t, ids, pages := tree.shape, reserve.ids, pool.pages;
      Opened(this);
      NothingTouched(pages, held - {id});
      if id == 0 {
        return false;
      }
      ghost var clients, given := held - {id}, Given(held, all, id);
      GivenIs(held, all, id);
      if given {
        if id !in held {
          Adopt(t, ids, held, all, id);
          held, all := held + {id}, all + {id};
        }
        ManagedAlready(t, ids, held, all, id);
        GiveToReserve(t, ids, held, all, id);
        ReserveGiven(pages, t, ids, held, all, id);
        GiveToTree(t, ids, held, all, id);
        if |ids| >= RESERVE_TARGET {
          EnoughRoom(t, ids, held, all, id);
        }
      } else {
        ReserveTwice(t, ids, held, all, id);
        ListTwice(t, ids, held, all, id);
      }
      if |reserve.ids| < RESERVE_TARGET {
        reserve.ids := reserve.ids + [id];
        if given {
          TreeStillHeld(tree, pages, t, ids + [id]);
          held := held - {id};
          Closed(this);
        }
        return true;
      }
      var key := PageIDToKey(id);
      var status := tree.Put(key, []);
      ClientsUntouched(t, ids, held, all, pages, pool.pages);
      FewerClients(pages, pool.pages, held, clients);
      if status != Done {
        return false;
      }
      if given {
        held := held - {id};
        Closed(this);
      } else if Listed(t, id) {
        Closed(this);
      }
      return true;
    }

    /** `FreeCount`: the reserve and the keys that a cursor yields. */
    method FreeCount() returns (count: nat)
      requires Valid()
      ensures count == FreePages()
    {
      hide *;
      Opened(this);
      count := |reserve.ids|;
      var cur := new Cursor(tree);
      var more := cur.First();
      StartsAtLeast(cur);
      RestValid(cur);
      if more {
        count := count + 1;
        more := cur.Next();
        RestValid(cur);
        while more
          invariant cur.Positioned() && cur.tree == tree && more == cur.valid && more == (cur.Rest() != [])
          invariant count + |cur.Rest()| == |TreeCells(tree.shape)| + |reserve.ids|
          decreases |cur.Rest()|
        {
          count := count + 1;
          more := cur.Next();
          RestValid(cur);
        }
      }
    }

    /** `FlushReserve`: reserve pages beyond four go to the tree. */
    method FlushReserve() returns (ok: bool)
      requires Valid()
      modifies this, tree, pool, reserve
      ensures ok ==>
                && Valid() && held == old(held) && all == old(all)
                && |reserve.ids| <= |old(reserve.ids)| && |reserve.ids| <= 4
                && Listings() >= old(Listings()) && FreePages() <= old(FreePages())
      ensures old(FreePages()) <= 571_880 ==> ok
      ensures ClientsKept(old(pool.pages), pool.pages, old(held))
    {
      hide *;
      Opened(this);
      NothingTouched(pool.pages, held);
      ghost var before := pool.pages;
      while |reserve.ids| > RESERVE_TARGET
        invariant Valid() && held == old(held) && all == old(all)
        invariant |reserve.ids| <= |old(reserve.ids)|
        invariant |TreeCells(tree.shape)| >= |TreeCells(old(tree.shape))|
        invariant |TreeCells(tree.shape)| + |reserve.ids| <= |TreeCells(old(tree.shape))| + |old(reserve.ids)|
        invariant ClientsKept(before, pool.pages, held)
        decreases |reserve.ids|
      {
        ghost var t, ids, pages := tree.shape, reserve.ids, pool.pages;
        Opened(this);
        TakeReserve(t, ids, held, all);
        var n := |reserve.ids| - 1;
        var pageID := reserve.ids[n];
        ReserveTaken(pages, t, ids);
        reserve.ids := reserve.ids[..n];
        ghost var lent := held + {pageID};
        TreeStillHeld(tree, pages, t, ids[..n]);
        GiveToTree(t, ids[..n], lent, all, pageID);
        EnoughRoom(t, ids[..n], lent, all, pageID);
        var key := PageIDToKey(pageID);
        var status := tree.Put(key, []);
        ClientsUntouched(t, ids[..n], lent, all, pages, pool.pages);
        FewerClients(pages, pool.pages, lent, held);
        KeptTwice(before, pages, pool.pages, held);
        if status != Done {
          return false;
        }
        PutTakes(t, key, ids[..n]);
        assert lent - {pageID} == held;
        Closed(this);
      }
      Opened(this);
      return true;
    }
  }

  // ---------- glue ----------

  lemma OnlyReserve(pages: seq<PageId>)
    requires forall p: PageId :: Occ(pages, p) <= 1
    requires forall i :: 0 <= i < |pages| ==> 0 < pages[i] < ID_LIMIT
    ensures Partition(Empty, pages, {}, set p | p in pages)
  {
    forall p: PageId ensures Places(Empty, pages, {}, p) == if p in pages then 1 else 0 {
      OccMember(pages, p);
    }
  }

  /** Without its reserve the tree is still on its pages, and the other pages
      are still where they were. */
  lemma NoReserve(pages: Heap, t: Shape, ids: seq<PageId>, held: set<PageId>, all: set<PageId>)
    requires HoldsTree(pages, t, ids) && Partition(t, ids, held, all)
    ensures HoldsTree(pages, t, []) && Partition(t, [], held, all - set p | p in ids)
  {
    hide Holds, WellFormed, PackedTree, Listed, TreeUses, Occ;
    var rest := all - set p | p in ids;
    forall p: PageId ensures Occ([], p) == 0 && Places(t, [], held, p) == if p in rest then 1 else 0 {
      OccMember(ids, p);
      OccNone(p);
      assert Places(t, ids, held, p) == Places(t, [], held, p) + Occ(ids, p);
      assert p in rest <==> p in all && p !in ids;
    }
  }

  lemma OccNone(p: PageId)
    ensures Occ([], p) == 0
  {
  }

  lemma GivenIs(held: set<PageId>, all: set<PageId>, id: PageId)
    ensures Given(held, all, id) <==> id in held || id !in all
  {
  }

  lemma Opened(f: BTreeFreelist)
    requires f.Valid()
    ensures f.tree.Valid() && f.tree.pool == f.pool && f.tree.fl == f.reserve && f.reserve.pool == f.pool
    ensures Partition(f.tree.shape, f.reserve.ids, f.held, f.all)
    ensures WellFormed(f.tree.shape) && PackedTree(f.tree.shape) && ShapedTree(f.tree.shape)
    ensures HoldsTree(f.pool.pages, f.tree.shape, f.reserve.ids)
    ensures f.Listings() == |TreeCells(f.tree.shape)|
    ensures f.FreePages() == |TreeCells(f.tree.shape)| + |f.reserve.ids|
    ensures RESERVE_TARGET == 4 && ROOMY == 571_880
  {
  }

  lemma Closed(f: BTreeFreelist)
    requires f.tree.Valid() && f.tree.pool == f.pool && f.tree.fl == f.reserve && f.reserve.pool == f.pool
    requires Partition(f.tree.shape, f.reserve.ids, f.held, f.all)
    ensures f.Valid() && f.Listings() == |TreeCells(f.tree.shape)|
    ensures f.FreePages() == |TreeCells(f.tree.shape)| + |f.reserve.ids|
  {
  }

  lemma StartsAtLeast(c: Cursor)
    requires c.Positioned() && PackedTree(c.tree.shape)
    requires AllLeaves(AllOf(c.tree.shape)) && c.Rest() == Visible(AllOf(c.tree.shape))
    ensures c.Rest() == TreeCells(c.tree.shape) && c.valid == (c.Rest() != [])
  {
    PackedCursorsAreExact(c.tree.shape, []);
  }

  lemma NothingTouched(pages: Heap, clients: set<PageId>)
    ensures ClientsKept(pages, pages, clients)
  {
  }

  lemma FewerClients(a: Heap, b: Heap, clients: set<PageId>, fewer: set<PageId>)
    requires ClientsKept(a, b, clients) && fewer <= clients
    ensures ClientsKept(a, b, fewer)
  {
  }

  lemma KeptTwice(a: Heap, b: Heap, c: Heap, clients: set<PageId>)
    requires ClientsKept(a, b, clients) && ClientsKept(b, c, clients)
    ensures ClientsKept(a, c, clients)
  {
  }

  lemma ClientsUntouched(t: Shape, ids: seq<PageId>, held: set<PageId>, all: set<PageId>, a: Heap, b: Heap)
    requires Partition(t, ids, held, all) && UntouchedTree(a, b, t, ids)
    ensures ClientsKept(a, b, held)
  {
    hide WellFormed, PackedTree, TreeUses, Occ, Listed;
    forall p | p in held ensures TreeUses(t, p) == 0 && Occ(ids, p) == 0 {
      assert Places(t, ids, held, p) <= 1;
    }
  }

  /** The pages of the tree are unaffected by what the reserve loses or gets. */
  lemma ReserveTaken(pages: Heap, t: Shape, ids: seq<PageId>)
    requires HoldsTree(pages, t, ids) && ids != []
    ensures HoldsTree(pages, t, ids[..|ids| - 1])
  {
    hide Uses, Holds;
    forall p: PageId ensures Occ(ids[..|ids| - 1], p) <= Occ(ids, p) {
      OccLast(ids, p);
    }
  }

  lemma ReserveGiven(pages: Heap, t: Shape, ids: seq<PageId>, held: set<PageId>, all: set<PageId>, id: PageId)
    requires HoldsTree(pages, t, ids) && Partition(t, ids, held, all) && id in held
    ensures HoldsTree(pages, t, ids + [id])
  {
    GiveToReserve(t, ids, held, all, id);
    hide WellFormed, PackedTree, TreeUses, Occ, Listed, Holds;
    forall p: PageId ensures TreeUses(t, p) + Occ(ids + [id], p) <= 1 && 0 !in all {
      assert Places(t, ids + [id], held - {id}, p) <= 1;
    }
    assert Places(t, ids + [id], held - {id}, 0) == 0;
  }

  lemma TreeStillHeld(tree: Tree, pages: Heap, t: Shape, ids: seq<PageId>)
    requires tree.fl.pool == tree.pool && tree.shape == t && tree.pool.pages == pages && tree.fl.ids == ids
    requires WellFormed(t) && HoldsTree(pages, t, ids)
    requires tree.root == (if t.Root? then t.node.id else 0)
    ensures tree.Valid()
  {
    hide WellFormed;
    if t.Root? {
      assert TreeUses(t, 0) == 0 && Uses(t.node, t.node.id) > 0;
    }
  }

  lemma ManagedAlready(t: Shape, ids: seq<PageId>, held: set<PageId>, all: set<PageId>, id: PageId)
    requires Partition(t, ids, held, all) && id in held
    ensures id in all && all + {id} == all
  {
    HeldNotListed(t, ids, held, all, id);
  }

  lemma EnoughRoom(t: Shape, ids: seq<PageId>, held: set<PageId>, all: set<PageId>, id: PageId)
    requires Partition(t, ids, held, all) && id in held && |ids| >= RESERVE_TARGET
    ensures id < ID_LIMIT && ShapedTree(t)
    ensures |TreeCells(t)| < ROOMY ==> Put(t, PageIDToKey(id), [], ids).status == Done
  {
    HeldNotListed(t, ids, held, all, id);
    hide Put, PageIDToKey;
    if |TreeCells(t)| < ROOMY {
      FourAreEnough(t, ids, held, all, id);
    }
  }

}
