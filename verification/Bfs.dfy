/** Bounded breadth-first search over the link graph: `graph/reachable.go` and
    `graph/graph.go`. */
module Bfs {
  import opened Bytes
  import opened TreeModel
  import opened Keys
  import opened StoreFacts
  import opened Store
  import opened Walks

  datatype Direction = Forward | Reverse | Both | NoDirection

  const DEFAULT_MAX_DEPTH: nat := 5
  const DEFAULT_MAX_VISITED: nat := 10_000

  /** `TraversalOptions`. */
  datatype Options = Options(filter: Filter, maxDepth: int, maxVisited: int, direction: Direction)

  /** The bounds that `resolved` settles on. */
  function MaxDepth(o: Options): (d: nat)
    ensures d > 0
  {
    if o.maxDepth <= 0 then DEFAULT_MAX_DEPTH else o.maxDepth
  }

  function MaxVisited(o: Options): (n: nat)
    ensures n > 0
  {
    if o.maxVisited <= 0 then DEFAULT_MAX_VISITED else o.maxVisited
  }

  datatype GraphError = InvalidStart | UnknownDirection | VisitedCapExceeded | StoreFailed(error: StoreError)

  // ---------- reach ----------

  /** What a search is after: the links in the store, the options and the start. */
  datatype Quest = Quest(chains: Chains, opts: Options, start: Ref)

  /** One hop on one side. */
  ghost predicate Hop(q: Quest, dir: Direction, a: Ref, b: Ref) {
    if dir == Forward then ForwardNeighbour(q.chains, q.opts.filter, a, b) else ReverseNeighbour(q.chains, q.opts.filter, a, b)
  }

  /** `x` is at most `d` hops from the start, all on one side. */
  ghost predicate WithinHops(q: Quest, dir: Direction, x: Ref, d: nat)
    decreases d
  {
    if d == 0 then x == q.start
    else WithinHops(q, dir, x, d - 1) || exists y :: WithinHops(q, dir, y, d - 1) && Hop(q, dir, y, x)
  }

  /** The sides a direction walks on. */
  predicate Side(d: Direction, dir: Direction) {
    (dir == Forward && (d == Forward || d == Both)) || (dir == Reverse && (d == Reverse || d == Both))
  }

  function Sides(d: Direction): nat {
    if d == Both then 2 else 1
  }

  /** `visitKey`. */
  datatype Pair = Pair(ref: Ref, dir: Direction)

  /** `queued`. */
  datatype Queued = Queued(ref: Ref, depth: nat, dir: Direction)

  /** A pair that the search may visit. */
  ghost predicate InReach(q: Quest, p: Pair) {
    Side(q.opts.direction, p.dir) && WithinHops(q, p.dir, p.ref, MaxDepth(q.opts))
  }

  ghost predicate AllInReach(q: Quest, s: set<Pair>) {
    forall p :: p in s ==> InReach(q, p)
  }

  /** How many pairs may be visited; the starts always are. */
  function Bound(o: Options): nat {
    if MaxVisited(o) > Sides(o.direction) then MaxVisited(o) else Sides(o.direction)
  }

  /** More pairs are in reach than the search may visit. */
  ghost predicate TooMany(q: Quest) {
    exists s: set<Pair> :: |s| > Bound(q.opts) && AllInReach(q, s)
  }

  /** What a search that visits everything in reach finds. */
  ghost predicate Reached(q: Quest, x: Ref) {
    x != q.start && exists dir :: InReach(q, Pair(x, dir))
  }

  predicate NoDuplicates(s: seq<Ref>) {
    forall i, j :: 0 <= i < j < |s| ==> s[i] != s[j]
  }

  lemma {:induction false} WithinMore(q: Quest, dir: Direction, x: Ref, d: nat, e: nat)
    requires WithinHops(q, dir, x, d) && d <= e
    ensures WithinHops(q, dir, x, e)
    decreases e
  {
    hide Hop;
    if d < e {
      WithinMore(q, dir, x, d, e - 1);
    }
  }

  // ---------- reach as paths ----------

  /** A chain of links, all followed forward or all followed back. */
  ghost predicate IsPath(chains: Chains, f: Filter, back: bool, p: seq<Ref>) {
    && p != []
    && forall i :: 0 < i < |p| ==>
         if back then ReverseNeighbour(chains, f, p[i - 1], p[i]) else ForwardNeighbour(chains, f, p[i - 1], p[i])
  }

  /** Some path of at most `d` links leads from `a` to `b`. */
  ghost predicate Leads(chains: Chains, f: Filter, back: bool, a: Ref, b: Ref, d: nat) {
    exists p :: IsPath(chains, f, back, p) && p[0] == a && p[|p| - 1] == b && |p| <= d + 1
  }

  lemma {:induction false} WithinLeads(q: Quest, dir: Direction, x: Ref, d: nat)
    requires (dir == Forward || dir == Reverse) && WithinHops(q, dir, x, d)
    ensures Leads(q.chains, q.opts.filter, dir == Reverse, q.start, x, d)
    decreases d
  {
    hide ForwardNeighbour, ReverseNeighbour;
    var f, back := q.opts.filter, dir == Reverse;
    if d == 0 {
      assert IsPath(q.chains, f, back, [x]);
    } else if WithinHops(q, dir, x, d - 1) {
      WithinLeads(q, dir, x, d - 1);
      var p :| IsPath(q.chains, f, back, p) && p[0] == q.start && p[|p| - 1] == x && |p| <= d;
    } else {
      var y :| WithinHops(q, dir, y, d - 1) && Hop(q, dir, y, x);
      WithinLeads(q, dir, y, d - 1);
      var p :| IsPath(q.chains, f, back, p) && p[0] == q.start && p[|p| - 1] == y && |p| <= d;
      OneLinkMore(q.chains, f, back, p, x);
      assert (p + [x])[0] == q.start && (p + [x])[|p|] == x;
    }
  }

  lemma OneLinkMore(chains: Chains, f: Filter, back: bool, p: seq<Ref>, x: Ref)
    requires IsPath(chains, f, back, p)
    requires if back then ReverseNeighbour(chains, f, p[|p| - 1], x) else ForwardNeighbour(chains, f, p[|p| - 1], x)
    ensures IsPath(chains, f, back, p + [x])
  {
    hide ForwardNeighbour, ReverseNeighbour;
    var r := p + [x];
    forall i | 0 < i < |r|
      ensures if back then ReverseNeighbour(chains, f, r[i - 1], r[i]) else ForwardNeighbour(chains, f, r[i - 1], r[i])
    {
      assert r[i - 1] == p[i - 1];
    }
  }

  lemma {:induction false} PathWithin(q: Quest, dir: Direction, p: seq<Ref>, d: nat)
    requires (dir == Forward || dir == Reverse) && IsPath(q.chains, q.opts.filter, dir == Reverse, p)
    requires p[0] == q.start && |p| <= d + 1
    ensures WithinHops(q, dir, p[|p| - 1], d)
    decreases |p|
  {
    hide ForwardNeighbour, ReverseNeighbour;
    var n := |p| - 1;
    if n == 0 {
      WithinMore(q, dir, q.start, 0, d);
    } else {
      var rest := p[..n];
      assert forall i :: 0 <= i < n ==> rest[i] == p[i];
      PathWithin(q, dir, rest, d - 1);
      assert Hop(q, dir, rest[n - 1], p[n]);
    }
  }

  lemma WithinIsLeads(q: Quest, dir: Direction, x: Ref, d: nat)
    requires dir == Forward || dir == Reverse
    ensures WithinHops(q, dir, x, d) <==> Leads(q.chains, q.opts.filter, dir == Reverse, q.start, x, d)
  {
    hide WithinHops, ForwardNeighbour, ReverseNeighbour;
    if WithinHops(q, dir, x, d) {
      WithinLeads(q, dir, x, d);
    }
    if Leads(q.chains, q.opts.filter, dir == Reverse, q.start, x, d) {
      var p :| IsPath(q.chains, q.opts.filter, dir == Reverse, p) && p[0] == q.start && p[|p| - 1] == x && |p| <= d + 1;
      PathWithin(q, dir, p, d);
    }
  }

  /** What a search finds, by paths on the sides that it walks on. */
  ghost predicate Findable(chains: Chains, f: Filter, d: Direction, a: Ref, b: Ref, depth: nat) {
    || ((d == Forward || d == Both) && Leads(chains, f, false, a, b, depth))
    || ((d == Reverse || d == Both) && Leads(chains, f, true, a, b, depth))
  }

  /** A ref and the side on which it is found; for both sides it counts twice. */
  datatype Sided = Sided(ref: Ref, back: bool)

  ghost predicate Crowd(chains: Chains, f: Filter, d: Direction, a: Ref, depth: nat, s: set<Sided>) {
    forall p :: p in s ==>
      (if p.back then d == Reverse || d == Both else d == Forward || d == Both) && Leads(chains, f, p.back, a, p.ref, depth)
  }

  /** The start, on every side walked on, and more than `cap` refs in all. */
  ghost predicate Crowded(chains: Chains, f: Filter, d: Direction, a: Ref, depth: nat, cap: nat) {
    exists s: set<Sided> :: |s| > cap && |s| > (if d == Both then 2 else 1) && Crowd(chains, f, d, a, depth, s)
  }

  lemma ReachedIsFindable(q: Quest, x: Ref)
    requires q.opts.direction != NoDirection
    ensures Reached(q, x) <==>
            x != q.start && Findable(q.chains, q.opts.filter, q.opts.direction, q.start, x,
                                     if q.opts.maxDepth > 0 then q.opts.maxDepth else 5)
  {
    var d := MaxDepth(q.opts);
    assert d == if q.opts.maxDepth > 0 then q.opts.maxDepth else 5;
    hide WithinHops, Leads, MaxDepth;
    WithinIsLeads(q, Forward, x, d);
    WithinIsLeads(q, Reverse, x, d);
    if Reached(q, x) {
      var dir :| InReach(q, Pair(x, dir));
    }
    if x != q.start && Findable(q.chains, q.opts.filter, q.opts.direction, q.start, x, d) {
      assert InReach(q, Pair(x, Forward)) || InReach(q, Pair(x, Reverse));
    }
  }

  function PairOf(p: Sided): Pair {
    Pair(p.ref, if p.back then Reverse else Forward)
  }

  function SidedOf(p: Pair): Sided {
    Sided(p.ref, p.dir == Reverse)
  }

  lemma InReachIsLeads(q: Quest, p: Sided)
    ensures InReach(q, PairOf(p)) <==>
            && (if p.back then q.opts.direction == Reverse || q.opts.direction == Both
                else q.opts.direction == Forward || q.opts.direction == Both)
            && Leads(q.chains, q.opts.filter, p.back, q.start, p.ref, if q.opts.maxDepth > 0 then q.opts.maxDepth else 5)
  {
    WithinIsLeads(q, PairOf(p).dir, p.ref, MaxDepth(q.opts));
    hide WithinHops, Leads;
  }

  lemma {:induction false} MapsOneToOne<A, B>(s: set<A>, t: set<B>, f: A -> B)
    requires (forall x, y :: x in s && y in s && f(x) == f(y) ==> x == y) && t == set x | x in s :: f(x)
    ensures |t| == |s|
    decreases s
  {
    if s != {} {
      var a :| a in s;
      var rest := s - {a};
      MapsOneToOne(rest, t - {f(a)}, f);
    }
  }

  lemma CrowdIsTooMany(q: Quest)
    requires q.opts.direction != NoDirection
    ensures TooMany(q) <==>
            Crowded(q.chains, q.opts.filter, q.opts.direction, q.start,
                    if q.opts.maxDepth > 0 then q.opts.maxDepth else 5, if q.opts.maxVisited > 0 then q.opts.maxVisited else 10_000)
  {
    var f, dir, a := q.opts.filter, q.opts.direction, q.start;
    var depth: nat := if q.opts.maxDepth > 0 then q.opts.maxDepth else 5;
    var cap: nat := if q.opts.maxVisited > 0 then q.opts.maxVisited else 10_000;
    BoundIs(q.opts);
    hide *;
    if exists s: set<Pair> :: |s| > Bound(q.opts) && AllInReach(q, s) {
      var s: set<Pair> :| |s| > Bound(q.opts) && AllInReach(q, s);
      var t := ToSided(q, s);
      CrowdedBy(q.chains, f, dir, a, depth, cap, t);
    }
    if exists s: set<Sided> :: |s| > cap && |s| > (if dir == Both then 2 else 1) && Crowd(q.chains, f, dir, a, depth, s) {
      var s: set<Sided> :| |s| > cap && |s| > (if dir == Both then 2 else 1) && Crowd(q.chains, f, dir, a, depth, s);
      var t := ToPairs(q, s);
      TooManyBy(q, t);
    }
    Unfolded(q, depth, cap);
  }

  lemma Unfolded(q: Quest, depth: nat, cap: nat)
    ensures TooMany(q) <==> exists s: set<Pair> :: |s| > Bound(q.opts) && AllInReach(q, s)
    ensures Crowded(q.chains, q.opts.filter, q.opts.direction, q.start, depth, cap) <==>
            exists s: set<Sided> :: |s| > cap && |s| > (if q.opts.direction == Both then 2 else 1)
                                    && Crowd(q.chains, q.opts.filter, q.opts.direction, q.start, depth, s)
  {
    hide Bound, AllInReach, Crowd;
  }

  lemma BoundIs(o: Options)
    ensures Bound(o) >= (if o.maxVisited > 0 then o.maxVisited else 10_000) && Bound(o) >= (if o.direction == Both then 2 else 1)
    ensures Bound(o) == (if o.maxVisited > 0 then o.maxVisited else 10_000) || Bound(o) == (if o.direction == Both then 2 else 1)
  {
  }

  lemma TooManyBy(q: Quest, s: set<Pair>)
    requires |s| > Bound(q.opts) && AllInReach(q, s)
    ensures TooMany(q)
  {
    hide Bound, AllInReach;
  }

  lemma CrowdedBy(chains: Chains, f: Filter, d: Direction, a: Ref, depth: nat, cap: nat, s: set<Sided>)
    requires |s| > cap && |s| > (if d == Both then 2 else 1) && Crowd(chains, f, d, a, depth, s)
    ensures Crowded(chains, f, d, a, depth, cap)
  {
    hide Crowd;
  }

  lemma ToSided(q: Quest, s: set<Pair>) returns (t: set<Sided>)
    requires AllInReach(q, s)
    ensures |t| == |s|
    ensures Crowd(q.chains, q.opts.filter, q.opts.direction, q.start, if q.opts.maxDepth > 0 then q.opts.maxDepth else 5, t)
  {
    t := set p | p in s :: SidedOf(p);
    SidesKnown(q, s);
    hide InReach, Leads;
    MapsOneToOne(s, t, SidedOf);
    forall p | p in t ensures InReach(q, PairOf(p)) {
    }
    forall p | p in t
      ensures (if p.back then q.opts.direction == Reverse || q.opts.direction == Both
               else q.opts.direction == Forward || q.opts.direction == Both)
      ensures Leads(q.chains, q.opts.filter, p.back, q.start, p.ref, if q.opts.maxDepth > 0 then q.opts.maxDepth else 5)
    {
      InReachIsLeads(q, p);
    }
  }

  lemma ToPairs(q: Quest, s: set<Sided>) returns (t: set<Pair>)
    requires Crowd(q.chains, q.opts.filter, q.opts.direction, q.start, if q.opts.maxDepth > 0 then q.opts.maxDepth else 5, s)
    ensures |t| == |s| && AllInReach(q, t)
  {
    hide InReach, Leads;
    t := set p | p in s :: PairOf(p);
    MapsOneToOne(s, t, PairOf);
    forall p | p in s ensures InReach(q, PairOf(p)) {
      InReachIsLeads(q, p);
    }
  }

  lemma SidesKnown(q: Quest, s: set<Pair>)
    requires AllInReach(q, s)
    ensures forall p :: p in s ==> (p.dir == Forward || p.dir == Reverse) && PairOf(SidedOf(p)) == p
  {
    hide WithinHops;
    forall p | p in s ensures p.dir == Forward || p.dir == Reverse {
      assert InReach(q, p);
    }
  }

  // ---------- the search ----------

  /** The pairs visited so far, each with the depth at which it was found. */
  type Depths = map<Pair, nat>

  /** Every hop from `p` leads to a pair found one deeper at most. */
  ghost predicate Expanded(q: Quest, depths: Depths, p: Pair) {
    && p in depths
    && forall x :: Hop(q, p.dir, p.ref, x) ==> Pair(x, p.dir) in depths && depths[Pair(x, p.dir)] <= depths[p] + 1
  }

  /** `p` needs no more work: it waits in the queue, is too deep to expand, or
      has been expanded. */
  ghost predicate Settled(q: Quest, depths: Depths, queue: seq<Queued>, p: Pair) {
    && p in depths
    && (Queued(p.ref, depths[p], p.dir) in queue || depths[p] >= MaxDepth(q.opts) || Expanded(q, depths, p))
  }

  ghost predicate AllSettled(q: Quest, depths: Depths, queue: seq<Queued>) {
    forall p :: p in depths ==> Settled(q, depths, queue, p)
  }

  ghost predicate OthersSettled(q: Quest, depths: Depths, queue: seq<Queued>, but: Pair) {
    forall p :: p in depths && p != but ==> Settled(q, depths, queue, p)
  }

  ghost predicate GoodDepths(q: Quest, depths: Depths) {
    && (forall p :: p in depths ==> Side(q.opts.direction, p.dir) && depths[p] <= MaxDepth(q.opts) && WithinHops(q, p.dir, p.ref, depths[p]))
    && (forall dir :: Side(q.opts.direction, dir) ==> Pair(q.start, dir) in depths && depths[Pair(q.start, dir)] == 0)
  }

  predicate AtDepth(depths: Depths, item: Queued) {
    Pair(item.ref, item.dir) in depths && depths[Pair(item.ref, item.dir)] == item.depth
  }

  predicate InDepthOrder(queue: seq<Queued>) {
    forall i, j :: 0 <= i < j < |queue| ==> queue[i].depth <= queue[j].depth
  }

  predicate NoDeeper(depths: Depths, d: nat) {
    forall p :: p in depths ==> depths[p] <= d
  }

  /** The queue holds visited pairs in the order of their depths, none of which
      is below `d`; nothing is deeper than the hop after `d`. */
  predicate GoodQueue(depths: Depths, queue: seq<Queued>, d: nat) {
    && (forall i :: 0 <= i < |queue| ==> AtDepth(depths, queue[i]) && d <= queue[i].depth)
    && InDepthOrder(queue)
    && NoDeeper(depths, d + 1)
  }

  /** The refs handed out are the refs visited, but for the start. */
  ghost predicate GoodResult(start: Ref, depths: Depths, emitted: set<Ref>, result: seq<Ref>) {
    && NoDuplicates(result)
    && (forall x :: x in emitted <==> x in result)
    && (forall x :: x in result <==> x != start && exists dir :: Pair(x, dir) in depths)
  }

  /** The state of a search that has not exceeded its cap; `d` is the depth of
      the item popped last. */
  ghost predicate Searching(q: Quest, depths: Depths, visited: set<Pair>, emitted: set<Ref>, result: seq<Ref>, queue: seq<Queued>, d: nat) {
    && depths.Keys == visited && Sides(q.opts.direction) <= |visited| <= Bound(q.opts)
    && GoodDepths(q, depths) && GoodQueue(depths, queue, d) && GoodResult(q.start, depths, emitted, result)
  }

  /** The state of a search that has exceeded its cap. */
  ghost predicate Capped(q: Quest, visited: set<Pair>, result: seq<Ref>) {
    && |visited| == Bound(q.opts) + 1 && AllInReach(q, visited)
    && NoDuplicates(result) && forall x :: x in result ==> Reached(q, x)
  }

  // ---------- the first steps ----------

  /** What the queue holds at first. */
  function StartQueue(q: Quest): seq<Queued> {
    (if Side(q.opts.direction, Forward) then [Queued(q.start, 0, Forward)] else [])
    + (if Side(q.opts.direction, Reverse) then [Queued(q.start, 0, Reverse)] else [])
  }

  function StartDepths(q: Quest): Depths {
    map dir | dir in {Forward, Reverse} && Side(q.opts.direction, dir) :: Pair(q.start, dir) := 0
  }

  lemma Starts(q: Quest)
    requires q.opts.direction != NoDirection
    ensures Searching(q, StartDepths(q), StartDepths(q).Keys, {}, [], StartQueue(q), 0)
    ensures AllSettled(q, StartDepths(q), StartQueue(q))
  {
    hide Hop, MaxVisited;
    var d := StartDepths(q);
    if q.opts.direction == Both {
      assert d.Keys == {Pair(q.start, Forward), Pair(q.start, Reverse)};
    } else {
      assert d.Keys == {Pair(q.start, q.opts.direction)};
    }
    assert GoodDepths(q, d);
    forall p | p in d ensures Settled(q, d, StartQueue(q), p) {
      var item := Queued(p.ref, 0, p.dir);
      assert item in StartQueue(q);
    }
  }

  // ---------- one neighbour ----------

  lemma FoundDeeper(q: Quest, depths: Depths, item: Queued, n: Ref)
    requires GoodDepths(q, depths) && AtDepth(depths, item) && item.depth < MaxDepth(q.opts) && Hop(q, item.dir, item.ref, n)
    ensures Side(q.opts.direction, item.dir) && WithinHops(q, item.dir, n, item.depth + 1)
  {
    hide Hop;
    assert WithinHops(q, item.dir, item.ref, item.depth);
  }

  lemma FoundReaches(q: Quest, depths: Depths, item: Queued, n: Ref)
    requires GoodDepths(q, depths) && AtDepth(depths, item) && item.depth < MaxDepth(q.opts) && Hop(q, item.dir, item.ref, n)
    ensures InReach(q, Pair(n, item.dir))
  {
    FoundDeeper(q, depths, item, n);
    hide Hop, GoodDepths;
    WithinMore(q, item.dir, n, item.depth + 1, MaxDepth(q.opts));
  }

  lemma VisitedReaches(q: Quest, depths: Depths)
    requires GoodDepths(q, depths)
    ensures AllInReach(q, depths.Keys)
  {
    hide Hop, WithinHops;
    forall p | p in depths ensures InReach(q, p) {
      WithinMore(q, p.dir, p.ref, depths[p], MaxDepth(q.opts));
    }
  }

  lemma ResultReached(q: Quest, depths: Depths, emitted: set<Ref>, result: seq<Ref>)
    requires GoodDepths(q, depths) && GoodResult(q.start, depths, emitted, result)
    ensures forall x :: x in result ==> Reached(q, x)
  {
    VisitedReaches(q, depths);
    hide InReach, GoodDepths;
    forall x | x in result ensures Reached(q, x) {
      var dir :| Pair(x, dir) in depths;
      assert InReach(q, Pair(x, dir));
    }
  }

  /** One pair more than may be visited has been found. */
  lemma CapFires(q: Quest, depths: Depths, visited: set<Pair>, emitted: set<Ref>, result: seq<Ref>, queue: seq<Queued>,
                 item: Queued, n: Ref)
    requires Searching(q, depths, visited, emitted, result, queue, item.depth)
    requires AtDepth(depths, item) && item.depth < MaxDepth(q.opts) && Hop(q, item.dir, item.ref, n)
    requires Pair(n, item.dir) !in visited && |visited| + 1 > MaxVisited(q.opts)
    ensures Capped(q, visited + {Pair(n, item.dir)}, result)
  {
    FoundReaches(q, depths, item, n);
    VisitedReaches(q, depths);
    ResultReached(q, depths, emitted, result);
    hide Hop, InReach, GoodDepths, GoodQueue, MaxVisited, Reached;
  }

  /** A pair found for the first time. */
  lemma Finds(q: Quest, depths: Depths, visited: set<Pair>, emitted: set<Ref>, result: seq<Ref>, queue: seq<Queued>,
              item: Queued, n: Ref)
    requires Searching(q, depths, visited, emitted, result, queue, item.depth)
    requires AtDepth(depths, item) && item.depth < MaxDepth(q.opts) && Hop(q, item.dir, item.ref, n)
    requires Pair(n, item.dir) !in visited && |visited| + 1 <= MaxVisited(q.opts)
    ensures Searching(q, depths[Pair(n, item.dir) := item.depth + 1], visited + {Pair(n, item.dir)},
                      if n in emitted then emitted else emitted + {n}, if n in emitted then result else result + [n],
                      queue + [Queued(n, item.depth + 1, item.dir)], item.depth)
  {
    hide *;
    SearchingParts(q, depths, visited, emitted, result, queue, item.depth);
    var p := Pair(n, item.dir);
    FoundDeeper(q, depths, item, n);
    StartIsVisited(q, depths, item.dir);
    DepthsMore(q, depths, p, item.depth + 1);
    QueueMore(depths, queue, item.depth, p);
    ResultMore(q.start, depths, emitted, result, p, item.depth + 1);
    StillSearching(q, depths[p := item.depth + 1], visited + {p}, if n in emitted then emitted else emitted + {n},
                   if n in emitted then result else result + [n], queue + [Queued(n, item.depth + 1, item.dir)], item.depth);
  }

  lemma SearchingParts(q: Quest, depths: Depths, visited: set<Pair>, emitted: set<Ref>, result: seq<Ref>, queue: seq<Queued>, d: nat)
    requires Searching(q, depths, visited, emitted, result, queue, d)
    ensures depths.Keys == visited && Sides(q.opts.direction) <= |visited| && (|visited| + 1 <= MaxVisited(q.opts) ==> |visited| + 1 <= Bound(q.opts))
    ensures GoodDepths(q, depths) && GoodQueue(depths, queue, d) && GoodResult(q.start, depths, emitted, result)
  {
    hide GoodDepths, GoodQueue, GoodResult, MaxVisited;
  }

  lemma StillSearching(q: Quest, depths: Depths, visited: set<Pair>, emitted: set<Ref>, result: seq<Ref>, queue: seq<Queued>, d: nat)
    requires depths.Keys == visited && Sides(q.opts.direction) <= |visited| <= Bound(q.opts)
    requires GoodDepths(q, depths) && GoodQueue(depths, queue, d) && GoodResult(q.start, depths, emitted, result)
    ensures Searching(q, depths, visited, emitted, result, queue, d)
  {
    hide GoodDepths, GoodQueue, GoodResult, MaxVisited, Sides, Bound;
  }

  lemma DepthsMore(q: Quest, depths: Depths, p: Pair, d: nat)
    requires GoodDepths(q, depths) && p !in depths && Side(q.opts.direction, p.dir) && d <= MaxDepth(q.opts) && WithinHops(q, p.dir, p.ref, d)
    ensures GoodDepths(q, depths[p := d])
  {
    hide WithinHops, MaxDepth;
  }

  lemma QueueMore(depths: Depths, queue: seq<Queued>, d: nat, p: Pair)
    requires GoodQueue(depths, queue, d) && p !in depths
    ensures GoodQueue(depths[p := d + 1], queue + [Queued(p.ref, d + 1, p.dir)], d)
  {
    forall i | 0 <= i < |queue| ensures queue[i].depth <= d + 1 {
      assert AtDepth(depths, queue[i]);
    }
  }

  lemma ResultMore(start: Ref, depths: Depths, emitted: set<Ref>, result: seq<Ref>, p: Pair, d: nat)
    requires GoodResult(start, depths, emitted, result) && p !in depths && p.ref != start
    ensures GoodResult(start, depths[p := d], if p.ref in emitted then emitted else emitted + {p.ref},
                       if p.ref in emitted then result else result + [p.ref])
  {
    var more := depths[p := d];
    var out := if p.ref in emitted then result else result + [p.ref];
    forall x ensures x in out <==> x != start && exists dir :: Pair(x, dir) in more {
      if x == p.ref {
        assert p == Pair(x, p.dir);
      } else if dir :| Pair(x, dir) in depths {
        assert Pair(x, dir) in more;
      }
      if dir :| Pair(x, dir) in more && x != p.ref {
        assert Pair(x, dir) in depths;
      }
    }
  }

  /** What is settled stays settled when a pair is found. */
  lemma StaysSettled(q: Quest, depths: Depths, queue: seq<Queued>, but: Pair, p: Pair, d: nat)
    requires OthersSettled(q, depths, queue, but) && p !in depths && but in depths
    ensures OthersSettled(q, depths[p := d], queue + [Queued(p.ref, d, p.dir)], but)
  {
    hide Hop, MaxDepth;
    var more, longer := depths[p := d], queue + [Queued(p.ref, d, p.dir)];
    forall o | o in more && o != but ensures Settled(q, more, longer, o) {
      if o == p {
        assert longer[|queue|] == Queued(o.ref, more[o], o.dir);
      } else {
        assert Settled(q, depths, queue, o);
      }
    }
  }

  /** What has been found keeps its depth. */
  predicate KeepsDepths(was: Depths, depths: Depths) {
    forall p :: p in was ==> p in depths && depths[p] == was[p]
  }

  lemma KeepsSame(depths: Depths)
    ensures KeepsDepths(depths, depths)
  {
  }

  lemma KnownPairs(q: Quest, depths: Depths, visited: set<Pair>, emitted: set<Ref>, result: seq<Ref>, queue: seq<Queued>, d: nat, key: Pair)
    requires Searching(q, depths, visited, emitted, result, queue, d)
    ensures key in visited <==> key in depths
    ensures key in visited ==> depths[key] <= d + 1
  {
    hide GoodDepths, GoodResult, AtDepth, InDepthOrder;
  }

  lemma OldPairs(depths: Depths, item: Queued, key: Pair)
    requires AtDepth(depths, item) && key !in depths
    ensures Pair(item.ref, item.dir) in depths && AtDepth(depths[key := item.depth + 1], item)
    ensures KeepsDepths(depths, depths[key := item.depth + 1])
  {
  }

  // ---------- one item ----------

  /** `item` has been popped and is being expanded. */
  ghost predicate Open(q: Quest, depths: Depths, queue: seq<Queued>, item: Queued) {
    AtDepth(depths, item) && OthersSettled(q, depths, queue, Pair(item.ref, item.dir))
  }

  /** The neighbour `n` of `item` has been found. */
  predicate HasFound(was: Depths, depths: Depths, item: Queued, n: Ref) {
    && Pair(n, item.dir) in depths && depths[Pair(n, item.dir)] <= item.depth + 1
    && KeepsDepths(was, depths)
  }

  /** What `emit` may do to the state of a search within its cap. */
  lemma EmitStep(q: Quest, depths: Depths, visited: set<Pair>, emitted: set<Ref>, result: seq<Ref>, queue: seq<Queued>,
                 item: Queued, n: Ref)
    requires Searching(q, depths, visited, emitted, result, queue, item.depth)
    requires Open(q, depths, queue, item) && item.depth < MaxDepth(q.opts) && Hop(q, item.dir, item.ref, n)
    ensures var key := Pair(n, item.dir);
            if key in visited then HasFound(depths, depths, item, n)
            else if |visited + {key}| > MaxVisited(q.opts) then Capped(q, visited + {key}, result)
            else
              var more, longer := depths[key := item.depth + 1], queue + [Queued(n, item.depth + 1, item.dir)];
              && Searching(q, more, visited + {key}, if n in emitted then emitted else emitted + {n},
                           if n in emitted then result else result + [n], longer, item.depth)
              && Open(q, more, longer, item) && HasFound(depths, more, item, n)
  {
    hide Hop, Searching, Capped, AtDepth, OthersSettled, MaxDepth, MaxVisited, KeepsDepths;
    var key := Pair(n, item.dir);
    KnownPairs(q, depths, visited, emitted, result, queue, item.depth, key);
    if key in visited {
      KeepsSame(depths);
    } else {
      OldPairs(depths, item, key);
      if |visited + {key}| > MaxVisited(q.opts) {
        CapFires(q, depths, visited, emitted, result, queue, item, n);
      } else {
        Finds(q, depths, visited, emitted, result, queue, item, n);
        StaysSettled(q, depths, queue, Pair(item.ref, item.dir), key, item.depth + 1);
      }
    }
  }

  /** The neighbours before position `k` have been found, one hop deeper at most. */
  predicate AllFound(depths: Depths, item: Queued, out: seq<Ref>, k: nat) {
    && k <= |out|
    && forall i :: 0 <= i < k ==> Pair(out[i], item.dir) in depths && depths[Pair(out[i], item.dir)] <= item.depth + 1
  }

  lemma Pops(q: Quest, depths: Depths, visited: set<Pair>, emitted: set<Ref>, result: seq<Ref>, queue: seq<Queued>, d: nat)
    requires Searching(q, depths, visited, emitted, result, queue, d) && AllSettled(q, depths, queue) && queue != []
    ensures AtDepth(depths, queue[0]) && Side(q.opts.direction, queue[0].dir)
    ensures Searching(q, depths, visited, emitted, result, queue[1..], queue[0].depth)
    ensures OthersSettled(q, depths, queue[1..], Pair(queue[0].ref, queue[0].dir))
    ensures queue[0].depth >= MaxDepth(q.opts) ==> AllSettled(q, depths, queue[1..])
  {
    hide Hop, WithinHops, GoodResult, MaxDepth, MaxVisited, Expanded;
    var item := queue[0];
    FrontIsDeepEnough(depths, queue, d);
    assert AtDepth(depths, item);
    forall p | p in depths && p != Pair(item.ref, item.dir) ensures Settled(q, depths, queue[1..], p) {
      assert Settled(q, depths, queue, p);
    }
  }

  /** The front of the queue is at least as deep as the item popped before it. */
  lemma FrontIsDeepEnough(depths: Depths, queue: seq<Queued>, d: nat)
    requires GoodQueue(depths, queue, d) && queue != []
    ensures NoDeeper(depths, queue[0].depth + 1)
  {
    assert d <= queue[0].depth;
  }

  lemma Expands(q: Quest, depths: Depths, queue: seq<Queued>, item: Queued, out: seq<Ref>)
    requires OthersSettled(q, depths, queue, Pair(item.ref, item.dir)) && AtDepth(depths, item) && AllFound(depths, item, out, |out|)
    requires forall x :: x in out <==> Hop(q, item.dir, item.ref, x)
    ensures AllSettled(q, depths, queue)
  {
    hide Hop, MaxDepth;
    assert Expanded(q, depths, Pair(item.ref, item.dir));
  }

  // ---------- the end ----------

  /** At the end everything in reach has been visited. */
  lemma {:induction false} AllVisited(q: Quest, depths: Depths, dir: Direction, x: Ref, d: nat)
    requires GoodDepths(q, depths) && Side(q.opts.direction, dir) && d <= MaxDepth(q.opts)
    requires AllSettled(q, depths, []) && WithinHops(q, dir, x, d)
    ensures Pair(x, dir) in depths && depths[Pair(x, dir)] <= d
    decreases d
  {
    StartIsVisited(q, depths, dir);
    hide Hop, GoodDepths;
    if d > 0 && WithinHops(q, dir, x, d - 1) {
      AllVisited(q, depths, dir, x, d - 1);
    } else if d > 0 {
      var y :| WithinHops(q, dir, y, d - 1) && Hop(q, dir, y, x);
      AllVisited(q, depths, dir, y, d - 1);
      assert Settled(q, depths, [], Pair(y, dir));
    }
  }

  lemma StartIsVisited(q: Quest, depths: Depths, dir: Direction)
    requires GoodDepths(q, depths) && Side(q.opts.direction, dir)
    ensures Pair(q.start, dir) in depths && depths[Pair(q.start, dir)] == 0
  {
    hide WithinHops;
  }

  lemma SubsetIsSmaller(s: set<Pair>, t: set<Pair>)
    requires s <= t
    ensures |s| <= |t|
  {
    if s != {} {
      var p :| p in s;
      SubsetIsSmaller(s - {p}, t - {p});
    }
  }

  /** A search that ends within its cap has found what is in reach, no more and
      no less, and there was room for it. */
  lemma EndsWithReach(q: Quest, depths: Depths, visited: set<Pair>, emitted: set<Ref>, result: seq<Ref>, d: nat)
    requires Searching(q, depths, visited, emitted, result, [], d) && AllSettled(q, depths, [])
    ensures !TooMany(q) && NoDuplicates(result)
    ensures forall x :: x in result <==> Reached(q, x)
  {
    ResultReached(q, depths, emitted, result);
    hide Hop, WithinHops, GoodDepths, AllSettled, MaxDepth, MaxVisited;
    forall p | InReach(q, p) ensures p in depths {
      AllVisited(q, depths, p.dir, p.ref, MaxDepth(q.opts));
    }
    forall s: set<Pair> | AllInReach(q, s) ensures |s| <= Bound(q.opts) {
      SubsetIsSmaller(s, visited);
    }
    hide InReach;
    forall x | Reached(q, x) ensures x in result {
      var dir :| InReach(q, Pair(x, dir));
      assert Pair(x, dir) in depths;
    }
  }

  /** A search that exceeds its cap had too much in reach. */
  lemma EndsCapped(q: Quest, visited: set<Pair>, result: seq<Ref>)
    requires Capped(q, visited, result)
    ensures TooMany(q) && NoDuplicates(result) && forall x :: x in result ==> Reached(q, x)
  {
    hide AllInReach, Reached;
  }

  /** `bfsState`. */
  class BfsState {
    ghost const q: Quest
    var visited: set<Pair>
    var emitted: set<Ref>
    var result: seq<Ref>
    var queue: seq<Queued>
    var capExceeded: bool
    ghost var depths: Depths

    /** `newBFSState`. */
    constructor (start: Ref, opts: Options, ghost chains: Chains)
      requires opts.direction != NoDirection
      ensures q == Quest(chains, opts, start) && !capExceeded
      ensures visited == depths.Keys && emitted == {} && result == [] && depths == StartDepths(q) && queue == StartQueue(q)
    {
      q := Quest(chains, opts, start);
      visited, emitted, result, queue, capExceeded, depths := {}, {}, [], [], false, map[];
      new;
      hide MaxDepth, MaxVisited;
      if opts.direction == Forward || opts.direction == Both {
        EnqueueStart(start, Forward);
      }
      if opts.direction == Reverse || opts.direction == Both {
        EnqueueStart(start, Reverse);
      }
      assert depths == StartDepths(q);
      assert queue == StartQueue(q);
    }

    /** `enqueueStart`. */
    method EnqueueStart(ref: Ref, dir: Direction)
      requires visited == depths.Keys
      modifies this`visited, this`queue, this`depths
      ensures visited == depths.Keys
      ensures if Pair(ref, dir) in old(visited)
              then visited == old(visited) && queue == old(queue) && depths == old(depths)
              else queue == old(queue) + [Queued(ref, 0, dir)] && depths == old(depths)[Pair(ref, dir) := 0]
    {
      var key := Pair(ref, dir);
      if key in visited {
        return;
      }
      visited := visited + {key};
      queue := queue + [Queued(ref, 0, dir)];
      depths := depths[key := 0];
    }

    /** Where the search stands after an item of depth `d` was popped. */
    ghost predicate Standing(d: nat)
      reads this
    {
      if capExceeded then Capped(q, visited, result) else Searching(q, depths, visited, emitted, result, queue, d)
    }

    lemma Room(d: nat)
      requires Standing(d)
      ensures |visited| <= Bound(q.opts) + 1
    {
    }

    /** `emit`. */
    method Emit(item: Queued, n: Ref, maxVisited: nat)
      requires maxVisited == MaxVisited(q.opts) && item.depth < MaxDepth(q.opts) && Hop(q, item.dir, item.ref, n)
      requires Standing(item.depth) && (!capExceeded ==> Open(q, depths, queue, item))
      modifies this
      ensures Standing(item.depth) && (old(capExceeded) ==> capExceeded)
      ensures !capExceeded ==> Open(q, depths, queue, item) && HasFound(old(depths), depths, item, n)
      ensures |visited| > |old(visited)| || (visited == old(visited) && queue == old(queue))
    {
      hide Hop, Searching, Capped, Open, HasFound, MaxDepth, MaxVisited, Bound, Side, Sides;
      if capExceeded {
        return;
      }
      var key := Pair(n, item.dir);
      EmitStep(q, depths, visited, emitted, result, queue, item, n);
      if key in visited {
        return;
      }
      visited := visited + {key};
      if |visited| > maxVisited {
        capExceeded := true;
        return;
      }
      if n !in emitted {
        emitted := emitted + {n};
        result := result + [n];
      }
      queue := queue + [Queued(n, item.depth + 1, item.dir)];
      depths := depths[key := item.depth + 1];
    }

    /** `expand`; what the walk emits is taken in the order it emits it. */
    method Expand(st: EventStore, item: Queued, opts: Options) returns (r: Answer<()>)
      requires st.Valid() && q.chains == st.chains && q.opts == opts && item.depth < MaxDepth(opts)
      requires !capExceeded && Standing(item.depth) && Open(q, depths, queue, item) && Side(opts.direction, item.dir)
      modifies this
      ensures r.Good? && Standing(item.depth)
      ensures !capExceeded ==> AllSettled(q, depths, queue)
      ensures |visited| > |old(visited)| || (visited == old(visited) && queue == old(queue))
    {
      hide Hop, Searching, Capped, AtDepth, OthersSettled, AllSettled, MaxDepth, MaxVisited, ForwardNeighbour, ReverseNeighbour;
      var walk;
      if item.dir == Forward {
        walk := WalkForward(st, item.ref, opts.filter);
      } else {
        walk := WalkReverse(st, item.ref, opts.filter);
      }
      if walk.Bad? {
        return Bad(AnswerProblem(walk));
      }
      WalkIsHops(q, item, walk.value);
      EmitAll(item, walk.value, MaxVisited(opts));
      if !capExceeded {
        Expands(q, depths, queue, item, walk.value);
      }
      return Good(());
    }

    method EmitAll(item: Queued, out: seq<Ref>, maxVisited: nat)
      requires maxVisited == MaxVisited(q.opts) && item.depth < MaxDepth(q.opts)
      requires forall x :: x in out ==> Hop(q, item.dir, item.ref, x)
      requires !capExceeded && Standing(item.depth) && Open(q, depths, queue, item)
      modifies this
      ensures Standing(item.depth)
      ensures !capExceeded ==>
                Open(q, depths, queue, item) && AllFound(depths, item, out, |out|)
      ensures |visited| > |old(visited)| || (visited == old(visited) && queue == old(queue))
    {
      hide Hop, Searching, Capped, Open, MaxDepth, MaxVisited;
      for k := 0 to |out|
        invariant Standing(item.depth)
        invariant !capExceeded ==> Open(q, depths, queue, item) && AllFound(depths, item, out, k)
        invariant |visited| > |old(visited)| || (visited == old(visited) && queue == old(queue))
      {
        Emit(item, out[k], maxVisited);
      }
    }

    /** `run`. */
    method Run(st: EventStore, opts: Options) returns (r: Answer<()>)
      requires st.Valid() && q.chains == st.chains && q.opts == opts
      requires !capExceeded && Standing(0) && AllSettled(q, depths, queue)
      modifies this
      ensures r.Good? && capExceeded == TooMany(q) && NoDuplicates(result)
      ensures forall x :: x in result ==> Reached(q, x)
      ensures !capExceeded ==> forall x :: Reached(q, x) ==> x in result
    {
      hide Hop, Searching, Capped, AtDepth, OthersSettled, AllSettled, MaxDepth, MaxVisited, Reached, InReach, TooMany, NoDuplicates;
      ghost var d := 0;
      while |queue| > 0
        invariant Standing(d)
        invariant !capExceeded ==> AllSettled(q, depths, queue)
        decreases Bound(q.opts) + 1 - |visited|, |queue|
      {
        Room(d);
        if capExceeded {
          EndsCapped(q, visited, result);
          return Good(());
        }
        var item := queue[0];
        Pops(q, depths, visited, emitted, result, queue, d);
        d := item.depth;
        queue := queue[1..];
        if item.depth < MaxDepth(opts) {
          r := Expand(st, item, opts);
          if r.Bad? {
            return;
          }
        }
        Room(d);
      }
      if capExceeded {
        EndsCapped(q, visited, result);
      } else {
        EndsWithReach(q, depths, visited, emitted, result, d);
      }
      return Good(());
    }
  }

  lemma WalkIsHops(q: Quest, item: Queued, out: seq<Ref>)
    requires item.dir == Forward ==> forall x :: x in out <==> ForwardNeighbour(q.chains, q.opts.filter, item.ref, x)
    requires item.dir != Forward ==> forall x :: x in out <==> ReverseNeighbour(q.chains, q.opts.filter, item.ref, x)
    ensures forall x :: x in out <==> Hop(q, item.dir, item.ref, x)
  {
    hide ForwardNeighbour, ReverseNeighbour;
  }

  /** `Reachable`: the refs found, and the error if there is one. */
  method Reachable(st: EventStore, start: Ref, opts: Options) returns (result: seq<Ref>, err: Option<GraphError>)
    requires st.Valid()
    ensures start == [] ==> err == Some(InvalidStart) && result == []
    ensures start != [] && opts.direction == NoDirection ==> err == Some(UnknownDirection) && result == []
    ensures start != [] && opts.direction != NoDirection ==>
              var q := Quest(st.chains, opts, start);
              && err == (if TooMany(q) then Some(VisitedCapExceeded) else None)
              && NoDuplicates(result)
              && (forall x :: x in result ==> Reached(q, x))
              && (err.None? ==> forall x :: Reached(q, x) ==> x in result)
    ensures start != [] && opts.direction != NoDirection ==>
              var depth: nat := if opts.maxDepth > 0 then opts.maxDepth else 5;
              var cap: nat := if opts.maxVisited > 0 then opts.maxVisited else 10_000;
              && (err == Some(VisitedCapExceeded) <==> Crowded(st.chains, opts.filter, opts.direction, start, depth, cap))
              && (forall x :: x in result ==> x != start && Findable(st.chains, opts.filter, opts.direction, start, x, depth))
              && (err == None ==>
                    forall x :: x != start && Findable(st.chains, opts.filter, opts.direction, start, x, depth) ==> x in result)
  {
    hide Hop, Searching, Capped, AllSettled, TooMany, Reached, NoDuplicates, StartDepths, StartQueue, Findable, Crowded, MaxDepth;
    if start == [] {
      return [], Some(InvalidStart);
    }
    if opts.direction == NoDirection {
      return [], Some(UnknownDirection);
    }
    ghost var q := Quest(st.chains, opts, start);
    CrowdIsTooMany(q);
    forall x ensures Reached(q, x) <==>
                     x != start && Findable(st.chains, opts.filter, opts.direction, start, x, if opts.maxDepth > 0 then opts.maxDepth else 5) {
      ReachedIsFindable(q, x);
    }
    var state := new BfsState(start, opts, st.chains);
    Starts(state.q);
    assert state.Standing(0);
    var r := state.Run(st, opts);
    result := state.result;
    if r.Bad? {
      return result, Some(StoreFailed(AnswerProblem(r)));
    }
    return result, if state.capExceeded then Some(VisitedCapExceeded) else None;
  }

  lemma ReachedBackwards(q: Quest)
    requires q.opts.direction == Reverse
    ensures forall x :: Reached(q, x) <==> x != q.start && WithinHops(q, Reverse, x, MaxDepth(q.opts))
  {
    hide WithinHops, MaxDepth;
    forall x | x != q.start && WithinHops(q, Reverse, x, MaxDepth(q.opts)) ensures Reached(q, x) {
      assert InReach(q, Pair(x, Reverse));
    }
  }

  /** `ImpactRadius`. */
  method ImpactRadius(st: EventStore, target: Ref, maxDepth: int) returns (result: seq<Ref>, err: Option<GraphError>)
    requires st.Valid()
    ensures target == [] ==> err == Some(InvalidStart) && result == []
    ensures target != [] ==>
              var q := Quest(st.chains, Options(Filter([], None), maxDepth, 0, Reverse), target);
              && err == (if TooMany(q) then Some(VisitedCapExceeded) else None)
              && NoDuplicates(result)
              && (forall x :: x in result ==> x != target && WithinHops(q, Reverse, x, MaxDepth(q.opts)))
              && (err.None? ==> forall x :: x != target && WithinHops(q, Reverse, x, MaxDepth(q.opts)) ==> x in result)
    ensures target != [] ==>
              var depth: nat := if maxDepth > 0 then maxDepth else 5;
              && (err == Some(VisitedCapExceeded) <==> Crowded(st.chains, Filter([], None), Reverse, target, depth, 10_000))
              && (forall x :: x in result ==> x != target && Leads(st.chains, Filter([], None), true, target, x, depth))
              && (err == None ==> forall x :: x != target && Leads(st.chains, Filter([], None), true, target, x, depth) ==> x in result)
  {
    var opts := Options(Filter([], None), maxDepth, 0, Reverse);
    ReachedBackwards(Quest(st.chains, opts, target));
    hide Reached, WithinHops, TooMany, Leads, Crowded, MaxDepth;
    result, err := Reachable(st, target, opts);
  }

  // ---------- one hop ----------

  /** `Neighbors`: each ref once, start included if it links to itself. */
  method Neighbors(st: EventStore, start: Ref, opts: Options) returns (result: seq<Ref>, err: Option<GraphError>)
    requires st.Valid()
    ensures start == [] ==> err == Some(InvalidStart) && result == []
    ensures start != [] && opts.direction == NoDirection ==> err == Some(UnknownDirection) && result == []
    ensures start != [] && opts.direction != NoDirection ==>
              && err == None && NoDuplicates(result)
              && forall x :: x in result <==>
                   || ((opts.direction == Forward || opts.direction == Both) && ForwardNeighbour(st.chains, opts.filter, start, x))
                   || ((opts.direction == Reverse || opts.direction == Both) && ReverseNeighbour(st.chains, opts.filter, start, x))
  {
    hide ForwardNeighbour, ReverseNeighbour;
    if start == [] {
      return [], Some(InvalidStart);
    }
    if opts.direction == NoDirection {
      return [], Some(UnknownDirection);
    }
    result := [];
    if opts.direction == Forward || opts.direction == Both {
      var walk := WalkForward(st, start, opts.filter);
      if walk.Bad? {
        return [], Some(StoreFailed(AnswerProblem(walk)));
      }
      result := EmitNew(result, walk.value);
    }
    if opts.direction == Reverse || opts.direction == Both {
      var walk := WalkReverse(st, start, opts.filter);
      if walk.Bad? {
        return [], Some(StoreFailed(AnswerProblem(walk)));
      }
      result := EmitNew(result, walk.value);
    }
    return result, None;
  }

  /** The closure `emit` of `Neighbors`, over what one walk emits. */
  method EmitNew(out: seq<Ref>, walk: seq<Ref>) returns (result: seq<Ref>)
    requires NoDuplicates(out)
    ensures NoDuplicates(result) && forall x :: x in result <==> x in out || x in walk
  {
    result := out;
    for i := 0 to |walk|
      invariant NoDuplicates(result) && forall x :: x in result <==> x in out || x in walk[..i]
    {
      assert walk[..i + 1] == walk[..i] + [walk[i]];
      if walk[i] !in result {
        result := result + [walk[i]];
      }
    }
    assert walk[..|walk|] == walk;
  }
}
