/** Forward walks against backward ones: `graph/neighbors.go` walks forward on the
    records of links and backward on the index that `event/store.go` keeps. */
module Duality {
  import opened Bytes
  import opened TreeModel
  import opened TreeView
  import opened Keys
  import opened Codec
  import opened StoreFacts
  import opened Store
  import opened Walks

  // ---------- one pair of walks ----------

  /** A link that an append refuses, after writing its forward record, for want
      of an end or of a type, and that a walk follows all the same. */
  ghost predicate FollowsIncomplete(chains: Chains, f: Filter, s: Ref, r: Ref) {
    exists edge :: !Complete(Link(s, edge, r)) && Follows(chains, f, LinkChain(s, edge, r))
  }

  lemma IndexedOrIncomplete(chains: Chains, f: Filter, s: Ref, r: Ref)
    ensures ForwardNeighbour(chains, f, s, r) <==> ReverseNeighbour(chains, f, r, s) || FollowsIncomplete(chains, f, s, r)
  {
    hide Follows, LinkChain;
    if ForwardNeighbour(chains, f, s, r) {
      var edge :| Follows(chains, f, LinkChain(s, edge, r));
      assert Complete(Link(s, edge, r)) <==> s != [] && edge != [] && r != [];
    }
  }

  /** Walks the same links from both ends.  The walk from `s` meets `r` exactly
      when the walk back from `r` meets `s`, or an incomplete link is followed. */
  method WalkBothWays(st: EventStore, s: Ref, r: Ref, f: Filter) returns (fwd: seq<Ref>, back: seq<Ref>)
    requires st.Valid()
    ensures forall x :: x in fwd <==> ForwardNeighbour(st.chains, f, s, x)
    ensures forall x :: x in back <==> ReverseNeighbour(st.chains, f, r, x)
    ensures r in fwd <==> s in back || FollowsIncomplete(st.chains, f, s, r)
  {
    hide *;
    var there := WalkForward(st, s, f);
    var andBack := WalkReverse(st, r, f);
    IndexedOrIncomplete(st.chains, f, s, r);
    return if there.Good? then there.value else [], if andBack.Good? then andBack.value else [];
  }

  // ---------- a whole store ----------

  /** Every forward walk agrees with every walk back, for all refs, edge filters
      and points in time. */
  ghost predicate Agree(chains: Chains) {
    forall f, s, r :: ForwardNeighbour(chains, f, s, r) <==> ReverseNeighbour(chains, f, r, s)
  }

  lemma AgreeAt(chains: Chains, f: Filter, s: Ref, r: Ref)
    requires Agree(chains)
    ensures ForwardNeighbour(chains, f, s, r) <==> ReverseNeighbour(chains, f, r, s)
  {
  }

  /** Version `i + 1` is the newest one of its time. */
  predicate NewestThen(events: seq<Event>, i: nat)
    requires i < |events|
  {
    forall j :: i < j < |events| ==> events[j].hdr.createdAt > events[i].hdr.createdAt
  }

  /** Some version is the newest one of its time and is not superseded. */
  predicate Shows(events: seq<Event>) {
    exists i: nat :: i < |events| && NewestThen(events, i) && events[i].hdr.lifecycle != SUPERSEDED
  }

  /** No link without an end or a type shows. */
  ghost predicate NoLooseLink(chains: Chains) {
    forall s, edge, r :: !Complete(Link(s, edge, r)) ==> !Shows(VersionsOf(chains, LinkChain(s, edge, r)))
  }

  lemma {:induction false} GreatestIsNewestThen(events: seq<Event>, t: Time) returns (i: nat)
    requires GreatestBy(events, t).Good?
    ensures i < |events| && events[i] == GreatestBy(events, t).value && NewestThen(events, i)
    ensures events[i].hdr.createdAt <= t
  {
    var n := |events| - 1;
    if events[n].hdr.createdAt <= t {
      return n;
    }
    i := GreatestIsNewestThen(events[..n], t);
    assert events[..n][i] == events[i];
    forall j | i < j < |events| ensures events[j].hdr.createdAt > events[i].hdr.createdAt {
      assert j < n ==> events[..n][j] == events[j];
    }
  }

  lemma {:induction false} NewestThenIsGreatest(events: seq<Event>, i: nat)
    requires i < |events| && NewestThen(events, i)
    ensures GreatestBy(events, events[i].hdr.createdAt) == Good(events[i])
  {
    var n := |events| - 1;
    if i < n {
      assert forall j :: 0 <= j < n ==> events[..n][j] == events[j];
      NewestThenIsGreatest(events[..n], i);
    }
  }

  /** What a walk looks at is the newest version of its time. */
  lemma ActiveShows(events: seq<Event>, f: Filter)
    requires Followed(f, ActiveVersion(events, f.asOf))
    ensures Shows(events)
  {
    if f.asOf.Some? {
      var i := GreatestIsNewestThen(events, f.asOf.value);
    } else {
      assert NewestThen(events, |events| - 1);
    }
  }

  /** A link that shows is followed by some walk of its own type. */
  lemma ShownIsFollowed(chains: Chains, s: Ref, edge: Bytes, r: Ref) returns (f: Filter)
    requires GoodChains(chains) && Shows(VersionsOf(chains, LinkChain(s, edge, r)))
    ensures f.edgeTypes == [edge] && Follows(chains, f, LinkChain(s, edge, r))
  {
    hide GoodChains, LinkChain;
    var c := LinkChain(s, edge, r);
    var events := VersionsOf(chains, c);
    var i: nat :| i < |events| && NewestThen(events, i) && events[i].hdr.lifecycle != SUPERSEDED;
    f := Filter([edge], Some(events[i].hdr.createdAt));
    NewestThenIsGreatest(events, i);
    VersionOfLink(chains, s, edge, r, events[i]);
    assert edge in f.edgeTypes;
  }

  lemma FollowedLink(chains: Chains, f: Filter, s: Ref, edge: Bytes, r: Ref)
    requires GoodChains(chains) && Follows(chains, f, LinkChain(s, edge, r))
    ensures EdgeAllowed(f, edge) && Shows(VersionsOf(chains, LinkChain(s, edge, r)))
  {
    hide GoodChains, LinkChain, Shows;
    var c := LinkChain(s, edge, r);
    SomeVersionIsIn(chains[c], f.asOf);
    ActiveShows(chains[c], f);
    VersionOfLink(chains, s, edge, r, ActiveVersion(chains[c], f.asOf).value);
  }

  /** Walks agree if and only if no version of an incomplete link is, newest of
      its time, anything but superseded. */
  lemma AgreeExactly(chains: Chains)
    requires GoodChains(chains)
    ensures Agree(chains) <==> NoLooseLink(chains)
  {
    hide *;
    if NoLooseLink(chains) {
      TightAgrees(chains);
    }
    if Agree(chains) {
      AgreeIsTight(chains);
    }
  }

  lemma TightAgrees(chains: Chains)
    requires GoodChains(chains) && NoLooseLink(chains)
    ensures Agree(chains)
  {
    hide GoodChains, Follows, Shows, LinkChain, ForwardNeighbour, ReverseNeighbour, Complete;
    forall f, s, r ensures ForwardNeighbour(chains, f, s, r) <==> ReverseNeighbour(chains, f, r, s) {
      IndexedOrIncomplete(chains, f, s, r);
      if FollowsIncomplete(chains, f, s, r) {
        var edge :| !Complete(Link(s, edge, r)) && Follows(chains, f, LinkChain(s, edge, r));
        FollowedLink(chains, f, s, edge, r);
      }
    }
  }

  lemma AgreeIsTight(chains: Chains)
    requires GoodChains(chains) && Agree(chains)
    ensures NoLooseLink(chains)
  {
    hide GoodChains, Agree, Follows, Shows, LinkChain;
    forall s, edge, r | !Complete(Link(s, edge, r)) ensures !Shows(VersionsOf(chains, LinkChain(s, edge, r))) {
      if Shows(VersionsOf(chains, LinkChain(s, edge, r))) {
        var f := ShownIsFollowed(chains, s, edge, r);
        AgreeAt(chains, f, s, r);
        assert ForwardNeighbour(chains, f, s, r);
        var other :| r != [] && other != [] && s != [] && Follows(chains, f, LinkChain(s, other, r));
        FollowedLink(chains, f, s, other, r);
      }
    }
  }

  // ---------- appends ----------

  /** What an append has to meet for the walks to go on agreeing. */
  predicate Tight(e: Event) {
    Complete(e.body) || e.hdr.lifecycle == SUPERSEDED
  }

  lemma LastShows(events: seq<Event>, e: Event)
    ensures Shows(events + [e]) ==> e.hdr.lifecycle != SUPERSEDED || Shows(events)
    ensures e.hdr.lifecycle != SUPERSEDED ==> Shows(events + [e])
  {
    var all, n := events + [e], |events|;
    assert NewestThen(all, n);
    if Shows(all) && e.hdr.lifecycle == SUPERSEDED {
      var i: nat :| i < |all| && NewestThen(all, i) && all[i].hdr.lifecycle != SUPERSEDED;
      assert forall j :: 0 <= j < n ==> all[j] == events[j];
      assert NewestThen(events, i);
    }
  }

  /** Writing one more version keeps the agreement if and only if its link has
      both ends and a type, or the version is a superseded one. */
  lemma AppendAgrees(chains: Chains, e: Event, now: Time)
    requires GoodChainId(ChainOf(e))
    requires var next := NextVersion(chains, e, now); GoodChains(chains) && GoodChains(Extended(chains, ChainOf(e), next))
    requires Agree(chains)
    ensures Agree(Extended(chains, ChainOf(e), NextVersion(chains, e, now))) <==> Tight(e)
  {
    hide *;
    var c, next := ChainOf(e), NextVersion(chains, e, now);
    var x := Extended(chains, c, next);
    NextHas(chains, e, now);
    AgreeExactly(chains);
    AgreeExactly(x);
    LastShows(VersionsOf(chains, c), next);
    if Tight(e) {
      TightKept(chains, e, now);
    }
    if NoLooseLink(x) {
      TightNeeded(chains, e, now);
    }
  }

  lemma NextHas(chains: Chains, e: Event, now: Time)
    requires GoodChainId(ChainOf(e))
    ensures NextVersion(chains, e, now).hdr.lifecycle == SUPERSEDED <==> e.hdr.lifecycle == SUPERSEDED
    ensures var next := NextVersion(chains, e, now);
            VersionsOf(Extended(chains, ChainOf(e), next), ChainOf(e)) == VersionsOf(chains, ChainOf(e)) + [next]
  {
    hide LinkID, KeyOf, WordTime, TimeWord;
  }

  lemma TightKept(chains: Chains, e: Event, now: Time)
    requires GoodChainId(ChainOf(e)) && NoLooseLink(chains) && Tight(e)
    ensures NoLooseLink(Extended(chains, ChainOf(e), NextVersion(chains, e, now)))
  {
    var c, next := ChainOf(e), NextVersion(chains, e, now);
    var x := Extended(chains, c, next);
    NextHas(chains, e, now);
    LastShows(VersionsOf(chains, c), next);
    hide Shows, LinkChain, ChainOf, NextVersion, GoodChainId;
    forall s, edge, r | !Complete(Link(s, edge, r)) ensures !Shows(VersionsOf(x, LinkChain(s, edge, r))) {
      assert !Shows(VersionsOf(chains, LinkChain(s, edge, r)));
      if LinkChain(s, edge, r) == c {
        LinkIsChain(s, edge, r, e);
      }
    }
  }

  lemma TightNeeded(chains: Chains, e: Event, now: Time)
    requires GoodChainId(ChainOf(e)) && NoLooseLink(Extended(chains, ChainOf(e), NextVersion(chains, e, now)))
    ensures Tight(e)
  {
    var c, next := ChainOf(e), NextVersion(chains, e, now);
    NextHas(chains, e, now);
    LastShows(VersionsOf(chains, c), next);
    hide Shows, NextVersion, GoodChainId, LinkID;
    if !Complete(e.body) {
      assert c == LinkChain(e.body.src, e.body.edge, e.body.dst);
      assert !Complete(Link(e.body.src, e.body.edge, e.body.dst));
    }
  }

  lemma NothingAgrees()
    ensures Agree(map[]) && forall c :: VersionsOf(map[], c) == []
  {
  }

  lemma GoodStore(st: EventStore)
    requires st.Valid()
    ensures GoodChains(st.chains)
  {
    hide *;
    st.Unfold();
    HoldingParts(Contents(st.cells), st.chains);
  }

  lemma Written(before: Chains, e: Event, now: Time, after: Chains)
    requires GoodChainId(ChainOf(e)) && after == Extended(before, ChainOf(e), NextVersion(before, e, now))
    ensures after != before
    ensures forall c :: |VersionsOf(before, c)| <= |VersionsOf(after, c)| <= |VersionsOf(before, c)| + 1
  {
    hide LinkID, NextVersion, KeyOf;
    assert |VersionsOf(after, ChainOf(e))| == |VersionsOf(before, ChainOf(e))| + 1;
  }

  /** `Append`, for a store whose walks agree: they go on agreeing if and only if
      nothing was written or the event is tight. */
  method AppendKeepsAgreement(st: EventStore, e: Event, now: Time) returns (r: Answer<Bytes>)
    requires st.Valid() && GoodBody(e) && |VersionsOf(st.chains, ChainOf(e))| + 1 < MAX_VERSIONS
    modifies st
    ensures st.Valid()
    ensures old(Agree(st.chains)) ==> (Agree(st.chains) <==> st.chains == old(st.chains) || Tight(e))
    ensures forall c :: |VersionsOf(st.chains, c)| <= |VersionsOf(old(st.chains), c)| + 1
  {
    hide *;
    ghost var before := st.chains;
    GoodStore(st);
    r := st.Append(e, now);
    GoodStore(st);
    if st.chains != before {
      Written(before, e, now, st.chains);
      if Agree(before) {
        AppendAgrees(before, e, now);
      }
    }
  }

  /** Appends one event after another to an empty store.  When each of them is
      tight, every walk over the store agrees with every walk back. */
  method AppendAll(es: seq<Event>, clock: seq<Time>) returns (st: EventStore)
    requires |es| == |clock| < MAX_VERSIONS - 1 && forall e :: e in es ==> GoodBody(e)
    ensures fresh(st) && st.Valid()
    ensures (forall e :: e in es ==> Tight(e)) ==> Agree(st.chains)
  {
    hide *;
    st := new EventStore();
    NothingAgrees();
    for i := 0 to |es|
      invariant fresh(st) && st.Valid()
      invariant forall c :: |VersionsOf(st.chains, c)| <= i
      invariant (forall e :: e in es ==> Tight(e)) ==> Agree(st.chains)
    {
      var r := AppendKeepsAgreement(st, es[i], clock[i]);
    }
  }

  lemma NotEmptyId(e: Event)
    requires GoodChainId(ChainOf(e))
    ensures EventID(e) != [] && 1 < MAX_VERSIONS
  {
    hide EventID;
  }

  /** The only link there is has no type: it is followed forward and not back. */
  lemma OnlyUntyped(e: Event, now: Time, f: Filter)
    requires e.body.Link? && e.body.edge == [] && GoodChainId(ChainOf(e)) && e.hdr.lifecycle != SUPERSEDED && f == Filter([], None)
    ensures !Complete(e.body) && VersionsOf(map[], ChainOf(e)) == []
    ensures var chains := Extended(map[], ChainOf(e), NextVersion(map[], e, now));
            && (forall x :: ForwardNeighbour(chains, f, e.body.src, x) <==> x == e.body.dst)
            && (forall x :: !ReverseNeighbour(chains, f, e.body.dst, x))
  {
    var next := NextVersion(map[], e, now);
    var chains := Extended(map[], ChainOf(e), next);
    NextHas(map[], e, now);
    assert Followed(f, ActiveVersion([next], None));
    assert ChainOf(e) == LinkChain(e.body.src, [], e.body.dst);
    assert forall c :: Follows(chains, f, c) <==> c == ChainOf(e);
    hide Follows, LinkChain, NextVersion, ChainOf;
    assert Follows(chains, f, LinkChain(e.body.src, [], e.body.dst));
    forall x ensures ForwardNeighbour(chains, f, e.body.src, x) ==> x == e.body.dst {
      if ForwardNeighbour(chains, f, e.body.src, x) {
        var edge :| Follows(chains, f, LinkChain(e.body.src, edge, x));
        SameLink(e.body.src, [], e.body.dst, e.body.src, edge, x);
      }
    }
    forall x ensures !ReverseNeighbour(chains, f, e.body.dst, x) {
      if ReverseNeighbour(chains, f, e.body.dst, x) {
        var edge :| edge != [] && Follows(chains, f, LinkChain(x, edge, e.body.dst));
        SameLink(e.body.src, [], e.body.dst, x, edge, e.body.dst);
      }
    }
  }

  /** The exception happens: the append of a link without a type to an empty
      store is refused, and leaves a link that is followed one way only. */
  method UntypedLinkIsOneWay(e: Event, now: Time) returns (st: EventStore, r: Answer<Bytes>, fwd: seq<Ref>, back: seq<Ref>)
    requires e.body.Link? && e.body.edge == [] && GoodBody(e) && GoodChainId(ChainOf(e)) && |KeyOf(ChainOf(e), 1)| <= MAX_KEY_SIZE
    requires e.hdr.lifecycle <= HISTORICAL && e.hdr.lifecycle != SUPERSEDED
    ensures fresh(st) && st.Valid() && r == Bad(NoId)
    ensures forall x :: x in fwd <==> ForwardNeighbour(st.chains, Filter([], None), e.body.src, x)
    ensures forall x :: x in back <==> ReverseNeighbour(st.chains, Filter([], None), e.body.dst, x)
    ensures (forall x :: x in fwd <==> x == e.body.dst) && forall x :: x !in back
  {
    hide *;
    st := new EventStore();
    OnlyUntyped(e, now, Filter([], None));
    NotEmptyId(e);
    r := st.Append(e, now);
    fwd, back := WalkBothWays(st, e.body.src, e.body.dst, Filter([], None));
  }
}
