/** Neighbours in the link graph: `graph/neighbors.go`. */
module Walks {
  import opened Bytes
  import opened TreeModel
  import opened TreeView
  import opened PageKeys
  import opened Keys
  import opened Codec
  import opened StoreFacts
  import opened Groups
  import opened Store

  type Ref = Bytes

  /** The options that a walk uses. */
  datatype Filter = Filter(edgeTypes: seq<Bytes>, asOf: Option<Time>)

  /** `edgeAllowed`. */
  predicate EdgeAllowed(f: Filter, edge: Bytes) {
    f.edgeTypes == [] || edge in f.edgeTypes
  }

  /** The version of a link that a walk looks at: the newest, or the newest
      created by a point in time. */
  function ActiveVersion(events: seq<Event>, asOf: Option<Time>): Answer<Event> {
    match asOf
    case Some(t) => GreatestBy(events, t)
    case None => if events == [] then Bad(NotFound) else Good(events[|events| - 1])
  }

  /** Whether a walk follows a link. */
  predicate Followed(f: Filter, a: Answer<Event>) {
    a.Good? && a.value.body.Link? && EdgeAllowed(f, a.value.body.edge) && a.value.hdr.lifecycle != SUPERSEDED
  }

  predicate Follows(chains: Chains, f: Filter, c: ChainId) {
    c in chains && Followed(f, ActiveVersion(chains[c], f.asOf))
  }

  /** `r` is a forward neighbour of `s`. */
  ghost predicate ForwardNeighbour(chains: Chains, f: Filter, s: Ref, r: Ref) {
    exists edge :: Follows(chains, f, LinkChain(s, edge, r))
  }

  /** `r` is a reverse neighbour of `d`: the reverse index knows the link. */
  ghost predicate ReverseNeighbour(chains: Chains, f: Filter, d: Ref, r: Ref) {
    exists edge :: d != [] && edge != [] && r != [] && Follows(chains, f, LinkChain(r, edge, d))
  }

  // ---------- links in force ----------

  /** Version `i + 1` is in force: the newest one, or the newest created by the
      point in time. */
  predicate InForceAt(events: seq<Event>, asOf: Option<Time>, i: nat) {
    && i < |events|
    && match asOf
       case None => i == |events| - 1
       case Some(t) => events[i].hdr.createdAt <= t && forall j :: i < j < |events| ==> events[j].hdr.createdAt > t
  }

  /** A link from `s` to `x` of type `edge` is in force, and not superseded. */
  predicate LinkShows(chains: Chains, asOf: Option<Time>, s: Ref, edge: Bytes, x: Ref) {
    var events := VersionsOf(chains, LinkChain(s, edge, x));
    exists i: nat :: i < |events| && InForceAt(events, asOf, i) && events[i].hdr.lifecycle != 2
  }

  lemma {:induction false} GreatestInForce(events: seq<Event>, t: Time) returns (i: nat)
    requires GreatestBy(events, t).Good?
    ensures InForceAt(events, Some(t), i) && events[i] == GreatestBy(events, t).value
  {
    var n := |events| - 1;
    if events[n].hdr.createdAt <= t {
      return n;
    }
    i := GreatestInForce(events[..n], t);
    forall j | i < j < |events| ensures events[j].hdr.createdAt > t {
      assert j < n ==> events[..n][j] == events[j];
    }
  }

  lemma {:induction false} InForceIsGreatest(events: seq<Event>, t: Time, i: nat)
    requires InForceAt(events, Some(t), i)
    ensures GreatestBy(events, t) == Good(events[i])
  {
    var n := |events| - 1;
    if i < n {
      assert forall j :: 0 <= j < n ==> events[..n][j] == events[j];
      InForceIsGreatest(events[..n], t, i);
    }
  }

  lemma InForceIsActive(events: seq<Event>, asOf: Option<Time>, i: nat)
    requires InForceAt(events, asOf, i)
    ensures ActiveVersion(events, asOf) == Good(events[i])
  {
    if asOf.Some? {
      InForceIsGreatest(events, asOf.value, i);
    }
  }

  lemma ActiveInForce(events: seq<Event>, asOf: Option<Time>) returns (i: nat)
    requires ActiveVersion(events, asOf).Good?
    ensures InForceAt(events, asOf, i) && events[i] == ActiveVersion(events, asOf).value
  {
    if asOf.Some? {
      i := GreatestInForce(events, asOf.value);
    } else {
      i := |events| - 1;
    }
  }

  /** A walk follows a link of a type that it lets through and that shows. */
  lemma FollowsShown(chains: Chains, f: Filter, s: Ref, edge: Bytes, x: Ref)
    requires GoodChains(chains)
    ensures Follows(chains, f, LinkChain(s, edge, x)) <==>
            (f.edgeTypes == [] || edge in f.edgeTypes) && LinkShows(chains, f.asOf, s, edge, x)
  {
    hide GoodChains, LinkChain, InForceAt, ActiveVersion;
    var c := LinkChain(s, edge, x);
    var events := VersionsOf(chains, c);
    if Follows(chains, f, c) {
      var i := ActiveInForce(events, f.asOf);
      SomeVersionIsIn(events, f.asOf);
      VersionOfLink(chains, s, edge, x, events[i]);
      InForceIn(events, f.asOf, i);
    }
    if (f.edgeTypes == [] || edge in f.edgeTypes) && LinkShows(chains, f.asOf, s, edge, x) {
      var i: nat :| i < |events| && InForceAt(events, f.asOf, i) && events[i].hdr.lifecycle != 2;
      InForceIsActive(events, f.asOf, i);
      VersionOfLink(chains, s, edge, x, events[i]);
    }
  }

  lemma InForceIn(events: seq<Event>, asOf: Option<Time>, i: nat)
    requires InForceAt(events, asOf, i)
    ensures i < |events| && events[i] in events
  {
  }

  lemma ForwardShown(chains: Chains, f: Filter, s: Ref)
    requires GoodChains(chains)
    ensures forall x :: ForwardNeighbour(chains, f, s, x) <==>
                        exists edge :: (f.edgeTypes == [] || edge in f.edgeTypes) && LinkShows(chains, f.asOf, s, edge, x)
  {
    hide GoodChains, Follows, LinkShows;
    forall x, edge ensures Follows(chains, f, LinkChain(s, edge, x)) <==>
                           (f.edgeTypes == [] || edge in f.edgeTypes) && LinkShows(chains, f.asOf, s, edge, x) {
      FollowsShown(chains, f, s, edge, x);
    }
  }

  lemma ReverseShown(chains: Chains, f: Filter, d: Ref)
    requires GoodChains(chains)
    ensures forall x :: ReverseNeighbour(chains, f, d, x) <==>
                        exists edge :: d != [] && edge != [] && x != [] && (f.edgeTypes == [] || edge in f.edgeTypes)
                                       && LinkShows(chains, f.asOf, x, edge, d)
  {
    hide GoodChains, Follows, LinkShows;
    forall x, edge ensures Follows(chains, f, LinkChain(x, edge, d)) <==>
                           (f.edgeTypes == [] || edge in f.edgeTypes) && LinkShows(chains, f.asOf, x, edge, d) {
      FollowsShown(chains, f, x, edge, d);
    }
  }

  // ---------- link chains ----------

  lemma SomeVersionIsIn(events: seq<Event>, asOf: Option<Time>)
    ensures ActiveVersion(events, asOf).Good? ==> ActiveVersion(events, asOf).value in events
  {
    if asOf.Some? {
      GreatestIsIn(events, asOf.value);
    }
  }

  lemma {:induction false} GreatestIsIn(events: seq<Event>, t: Time)
    ensures GreatestBy(events, t).Good? ==> GreatestBy(events, t).value in events
  {
    if events != [] && events[|events| - 1].hdr.createdAt > t {
      GreatestIsIn(events[..|events| - 1], t);
    }
  }

  /** Every version of a link has the link's ends and type. */
  lemma LinkVersions(chains: Chains, c: ChainId, e: Event)
    requires GoodChains(chains) && c in chains && e in chains[c] && c.kind == LINK
    ensures e.body.Link? && c == LinkChain(e.body.src, e.body.edge, e.body.dst)
  {
    assert GoodChain(c, chains[c]);
    var i :| 0 <= i < |chains[c]| && chains[c][i] == e;
    assert GoodVersion(c, i, e);
    hide LinkID;
  }

  lemma VersionOfLink(chains: Chains, src: Ref, edge: Bytes, dst: Ref, e: Event)
    requires GoodChains(chains) && LinkChain(src, edge, dst) in chains && e in chains[LinkChain(src, edge, dst)]
    ensures e.body == Link(src, edge, dst)
  {
    LinkVersions(chains, LinkChain(src, edge, dst), e);
    SameLink(src, edge, dst, e.body.src, e.body.edge, e.body.dst);
    hide LinkID;
  }

  /** The links from `start`. */
  lemma ForwardSelection(chains: Chains, start: Ref) returns (sel: set<ChainId>)
    requires GoodChains(chains)
    ensures Selects(chains, ForwardSrcPrefix(start), sel)
    ensures forall c :: c in sel <==> c in chains && c.kind == LINK && exists edge, dst :: c == LinkChain(start, edge, dst)
  {
    sel := set c | c in chains && c.kind == LINK && chains[c] != [] && chains[c][0].body.Link? && chains[c][0].body.src == start;
    forall c ensures c in sel <==> c in chains && c.kind == LINK && exists edge, dst :: c == LinkChain(start, edge, dst) {
      if c in chains && c.kind == LINK {
        SelectedLink(chains, c, start);
      }
    }
    forall c, i: nat, key | c in chains && i < |chains[c]| && IsVersion(c, i, key)
      ensures ForwardSrcPrefix(start) <= key <==> c in sel
    {
      ForwardPrefixSelects(chains, start, c, i, key);
      if c.kind == LINK {
        SelectedLink(chains, c, start);
      }
    }
    forall key | IsReverseKey(chains, key) ensures !(ForwardSrcPrefix(start) <= key) {
      hide Escape;
      assert Prefix(LINK) <= ForwardSrcPrefix(start);
      ReverseHasNoKind(LINK, chains, key);
      assert ForwardSrcPrefix(start) <= key ==> Prefix(LINK) <= key;
    }
  }

  lemma SelectedLink(chains: Chains, c: ChainId, start: Ref)
    requires GoodChains(chains) && c in chains && c.kind == LINK
    ensures chains[c] != [] && chains[c][0].body.Link?
    ensures chains[c][0].body.src == start <==> exists edge, dst :: c == LinkChain(start, edge, dst)
  {
    assert GoodChain(c, chains[c]);
    var e := chains[c][0];
    assert e in chains[c];
    LinkVersions(chains, c, e);
    hide GoodChains, GoodChain, LinkChain;
    if exists edge, dst :: c == LinkChain(start, edge, dst) {
      var edge, dst :| c == LinkChain(start, edge, dst);
      SameLink(start, edge, dst, e.body.src, e.body.edge, e.body.dst);
    }
    if e.body.src == start {
      assert c == LinkChain(start, e.body.edge, e.body.dst);
    }
  }

  lemma ForwardPrefixSelects(chains: Chains, start: Ref, c: ChainId, i: nat, key: Bytes)
    requires GoodChains(chains) && c in chains && i < |chains[c]| && IsVersion(c, i, key)
    ensures ForwardSrcPrefix(start) <= key <==> c.kind == LINK && chains[c][0].body.Link? && chains[c][0].body.src == start
  {
    assert GoodChain(c, chains[c]);
    hide GoodVersion, PadVersion, Escape;
    if c.kind == LINK {
      var e := chains[c][0];
      assert e in chains[c];
      LinkVersions(chains, c, e);
      hide GoodChains, GoodChain;
      ForwardSrcPrefixIsExact(start, e.body.src, e.body.edge, e.body.dst, i + 1);
    } else {
      KindPrefixIsExact(LINK, c, i, key);
      assert Prefix(LINK) <= ForwardSrcPrefix(start);
      assert ForwardSrcPrefix(start) <= key ==> Prefix(LINK) <= key;
    }
  }

  // ---------- the forward walk ----------

  /** `linkSnapshot`: what a walk keeps of a link record. */
  datatype Snapshot = Snapshot(dst: Ref, edge: Bytes, lifecycle: byte, createdAt: Time)

  /** "x:x:x", the placeholder id of `decodeLinkSnapshot`. */
  const DUMMY_ID: Bytes := [120, COLON, 120, COLON, 120]

  /** `decodeLinkSnapshot`. */
  function DecodeSnapshot(val: Bytes): Option<Snapshot> {
    match Decode(val, DUMMY_ID)
    case Failure(_) => None
    case Success(e) => SnapshotOf(Good(e))
  }

  function SnapshotOf(a: Answer<Event>): Option<Snapshot> {
    if a.Good? && a.value.body.Link?
    then Some(Snapshot(a.value.body.dst, a.value.body.edge, a.value.hdr.lifecycle, a.value.hdr.createdAt))
    else None
  }

  /** A link record decodes the same whatever id is given for it. */
  lemma LinkNeedsNoId(val: Bytes, id: Bytes, e: Event)
    requires Decode(val, id) == Success(e) && e.body.Link?
    ensures Decode(val, DUMMY_ID) == Success(e)
  {
    hide ReadRecord, SetFields;
  }

  /** The version looked at after one more version has been seen. */
  lemma ActiveStep(events: seq<Event>, i: nat, asOf: Option<Time>)
    requires i < |events|
    ensures ActiveVersion(events[..i + 1], asOf) ==
            if asOf.None? || events[i].hdr.createdAt <= asOf.value then Good(events[i]) else ActiveVersion(events[..i], asOf)
    ensures ActiveVersion([], asOf).Bad?
  {
    assert events[..i + 1][..i] == events[..i];
  }

  /** The targets of the links followed among the first groups. */
  ghost predicate Emitted(chains: Chains, f: Filter, start: Ref, owners: seq<Owner>, g: nat, out: seq<Ref>) {
    && g <= |owners|
    && forall x :: x in out <==> exists edge :: LinkChain(start, edge, x) in IdsBefore(owners, g) && Follows(chains, f, LinkChain(start, edge, x))
  }

  /** `walkForward`: what it emits, in order. */
  method WalkForward(st: EventStore, start: Ref, f: Filter) returns (r: Answer<seq<Ref>>)
    requires st.Valid()
    ensures r.Good?
    ensures forall x :: x in r.value <==> ForwardNeighbour(st.chains, f, start, x)
    ensures forall x :: x in r.value <==>
                        exists edge :: (f.edgeTypes == [] || edge in f.edgeTypes) && LinkShows(st.chains, f.asOf, start, edge, x)
  {
    hide *;
    st.Unfold();
    ghost var chains := st.chains;
    var cells, prefix := st.cells, ForwardSrcPrefix(start);
    HoldingParts(Contents(cells), chains);
    ForwardShown(chains, f, start);
    ghost var sel := ForwardSelection(chains, start);
    ghost var s := Scan(cells, prefix);
    ghost var owners := ScanIsGrouped(cells, chains, prefix, sel);
    GroupedSize(s, chains, sel, owners);
    var out: seq<Ref> := [];
    var currentTuple: Bytes := [];
    var chosen: Option<Snapshot> := None;
    var i := Slot(cells, prefix);
    ghost var a, g: nat := i, 0;
    ScanStarts(cells, prefix);
    NothingEmitted(chains, f, start, owners);
    while i < |cells| && prefix <= cells[i].key
      invariant a <= i <= ScanEnd(cells, prefix, a) && i - a <= |s|
      invariant i == a ==> currentTuple == [] && chosen == None && g == 0
      invariant i > a ==> currentTuple != [] && currentTuple == Escape(owners[i - a - 1].c.id)
      invariant i > a ==> InLinkGroup(chains, f, start, owners, g, i - a, currentTuple, chosen)
      invariant Emitted(chains, f, start, owners, g, out)
    {
      InScan(cells, prefix, i);
      ghost var j: nat := i - a;
      LinkAt(s, chains, sel, start, owners, j);
      var body := SplitChainTuple(cells[i].key);
      if body.Err? {
        return Bad(KeyProblem(body));
      }
      if body.value != currentTuple {
        if currentTuple != [] {
          EmitGroup(s, chains, sel, f, start, owners, g, j, currentTuple, chosen, out);
          out := out + Flush(f, chosen);
          g := j;
        }
        currentTuple := body.value;
        chosen := None;
      }
      var snap := DecodeSnapshot(cells[i].val);
      if snap.None? {
        return Bad(MalformedKey);
      }
      LinkStep(s, chains, sel, f, start, owners, g, j, currentTuple, chosen);
      if f.asOf.None? || snap.value.createdAt <= f.asOf.value {
        chosen := snap;
      }
      i := i + 1;
    }
    AfterScan(cells, prefix, i);
    if currentTuple != [] {
      EmitGroup(s, chains, sel, f, start, owners, g, i - a, currentTuple, chosen, out);
      out := out + Flush(f, chosen);
      g := i - a;
    }
    AllEmitted(s, chains, sel, f, start, owners, out);
    return Good(out);
  }

  /** `flush`: emits the chosen version's target if the filter lets it through. */
  function Flush(f: Filter, chosen: Option<Snapshot>): seq<Ref> {
    if chosen.Some? && EdgeAllowed(f, chosen.value.edge) && chosen.value.lifecycle != SUPERSEDED then [chosen.value.dst] else []
  }

  /** The group at hand goes from `g` to before `j`; `chosen` is the version to
      look at among those seen. */
  ghost predicate InLinkGroup(chains: Chains, f: Filter, start: Ref, owners: seq<Owner>, g: nat, j: nat,
                              tuple: Bytes, chosen: Option<Snapshot>) {
    && g < j <= |owners| && InGroup(owners, g, j)
    && var o := owners[j - 1];
       && o.c in chains && o.i < |chains[o.c]|
       && tuple == Escape(o.c.id) && tuple != []
       && chosen == SnapshotOf(ActiveVersion(chains[o.c][..o.i + 1], f.asOf))
  }

  lemma NothingEmitted(chains: Chains, f: Filter, start: Ref, owners: seq<Owner>)
    ensures Emitted(chains, f, start, owners, 0, [])
  {
  }

  lemma LinkAt(s: seq<Cell>, chains: Chains, sel: set<ChainId>, start: Ref, owners: seq<Owner>, j: nat)
    requires Grouped(s, chains, sel, owners) && j < |s| && GoodChains(chains)
    requires forall c :: c in sel <==> c in chains && c.kind == LINK && exists edge, dst :: c == LinkChain(start, edge, dst)
    ensures |owners| == |s| && Owns(chains, sel, s[j], owners[j]) && owners[j].c in chains && owners[j].i < |chains[owners[j].c]|
    ensures SplitChainTuple(s[j].key) == Ok(Escape(owners[j].c.id)) && Escape(owners[j].c.id) != []
    ensures DecodeSnapshot(s[j].val) == SnapshotOf(Good(chains[owners[j].c][owners[j].i])) && DecodeSnapshot(s[j].val).Some?
    ensures DecodeSnapshot(s[j].val).value.createdAt == chains[owners[j].c][owners[j].i].hdr.createdAt
  {
    hide *;
    EndsWithKind(s, chains, sel, owners, j);
    OwnedLink(chains, sel, s[j], owners[j]);
  }

  lemma OwnedLink(chains: Chains, sel: set<ChainId>, x: Cell, o: Owner)
    requires Owns(chains, sel, x, o) && GoodChains(chains) && o.c.kind == LINK
    ensures o.c in chains && o.i < |chains[o.c]|
    ensures SplitChainTuple(x.key) == Ok(Escape(o.c.id)) && Escape(o.c.id) != []
    ensures DecodeSnapshot(x.val) == SnapshotOf(Good(chains[o.c][o.i])) && DecodeSnapshot(x.val).Some?
    ensures DecodeSnapshot(x.val).value.createdAt == chains[o.c][o.i].hdr.createdAt
  {
    hide *;
    OwnedVersion(chains, sel, x, o);
    LinkKeyParts(o.c.id, o.i + 1);
    EscapeInjective(o.c.id, []);
    EscapeOfNothing();
    LinkVersionAt(chains, o.c, o.i);
    LinkNeedsNoId(x.val, o.c.id, chains[o.c][o.i]);
    SnapshotReads(x.val, chains[o.c][o.i]);
  }

  lemma OwnedVersion(chains: Chains, sel: set<ChainId>, x: Cell, o: Owner)
    requires Owns(chains, sel, x, o) && GoodChains(chains) && o.c.kind == LINK
    ensures o.c in chains && o.i < |chains[o.c]| && GoodChain(o.c, chains[o.c])
    ensures o.c.id != [] && o.i + 1 < MAX_VERSIONS && x.key == BuildKey(LINK, o.c.id, o.i + 1).value
    ensures Decode(x.val, o.c.id) == Success(chains[o.c][o.i])
  {
    assert GoodChain(o.c, chains[o.c]);
    hide Decode, BuildKey, ParseKey, GoodVersion;
  }

  lemma SnapshotReads(val: Bytes, e: Event)
    requires Decode(val, DUMMY_ID) == Success(e) && e.body.Link?
    ensures DecodeSnapshot(val) == SnapshotOf(Good(e)) && DecodeSnapshot(val).Some?
    ensures DecodeSnapshot(val).value.createdAt == e.hdr.createdAt
  {
    hide Decode;
  }

  lemma EscapeOfNothing()
    ensures Escape([]) == []
  {
  }

  lemma LinkVersionAt(chains: Chains, c: ChainId, i: nat)
    requires c in chains && GoodChain(c, chains[c]) && i < |chains[c]| && c.kind == LINK
    ensures chains[c][i].body.Link?
  {
    assert GoodVersion(c, i, chains[c][i]);
    hide LinkID;
  }

  /** What `Flush` emits for a link whose chain has been seen to its end. */
  lemma FlushFollows(chains: Chains, f: Filter, start: Ref, c: ChainId, chosen: Option<Snapshot>, edge: Bytes, dst: Ref)
    requires GoodChains(chains) && c in chains && c == LinkChain(start, edge, dst)
    requires chosen == SnapshotOf(ActiveVersion(chains[c], f.asOf))
    ensures Flush(f, chosen) == if Follows(chains, f, c) then [dst] else []
  {
    var a := ActiveVersion(chains[c], f.asOf);
    SomeVersionIsIn(chains[c], f.asOf);
    if a.Good? {
      VersionOfLink(chains, start, edge, dst, a.value);
    }
    hide ActiveVersion, LinkID, GoodChains;
  }

  lemma EmitMore(chains: Chains, f: Filter, start: Ref, owners: seq<Owner>, g: nat, j: nat, c: ChainId, edge: Bytes, dst: Ref,
                 out: seq<Ref>, more: seq<Ref>)
    requires Emitted(chains, f, start, owners, g, out) && j <= |owners|
    requires IdsBefore(owners, j) == IdsBefore(owners, g) + {c} && c == LinkChain(start, edge, dst)
    requires more == if Follows(chains, f, c) then [dst] else []
    ensures Emitted(chains, f, start, owners, j, out + more)
  {
    hide IdsBefore, Follows, LinkChain;
    forall x ensures x in out + more <==>
                     exists ed :: LinkChain(start, ed, x) in IdsBefore(owners, j) && Follows(chains, f, LinkChain(start, ed, x))
    {
      if x in more {
        assert LinkChain(start, edge, x) in IdsBefore(owners, j) && Follows(chains, f, LinkChain(start, edge, x));
      }
      if x in out {
        var ed :| LinkChain(start, ed, x) in IdsBefore(owners, g) && Follows(chains, f, LinkChain(start, ed, x));
        assert LinkChain(start, ed, x) in IdsBefore(owners, j);
      }
      if ed :| LinkChain(start, ed, x) in IdsBefore(owners, j) && Follows(chains, f, LinkChain(start, ed, x)) {
        if LinkChain(start, ed, x) in IdsBefore(owners, g) {
          assert x in out;
        } else {
          SameLink(start, edge, dst, start, ed, x);
        }
      }
    }
  }

  lemma EmitGroup(s: seq<Cell>, chains: Chains, sel: set<ChainId>, f: Filter, start: Ref, owners: seq<Owner>, g: nat, j: nat,
                  tuple: Bytes, chosen: Option<Snapshot>, out: seq<Ref>)
    requires Grouped(s, chains, sel, owners) && GoodChains(chains) && |owners| == |s|
    requires forall c :: c in sel <==> c in chains && c.kind == LINK && exists edge, dst :: c == LinkChain(start, edge, dst)
    requires InLinkGroup(chains, f, start, owners, g, j, tuple, chosen) && Emitted(chains, f, start, owners, g, out)
    requires j < |s| ==> Escape(owners[j].c.id) != tuple
    ensures Emitted(chains, f, start, owners, j, out + Flush(f, chosen))
  {
    hide *;
    LinkGroupParts(chains, f, start, owners, g, j, tuple, chosen);
    var c := owners[j - 1].c;
    EndsWithLast(s, chains, sel, owners, j);
    OwnedIn(chains, sel, s[j - 1], owners[j - 1]);
    IdsOfGroup(owners, g, j);
    assert chains[c][..|chains[c]|] == chains[c];
    var edge, dst :| c == LinkChain(start, edge, dst);
    FlushFollows(chains, f, start, c, chosen, edge, dst);
    EmitMore(chains, f, start, owners, g, j, c, edge, dst, out, Flush(f, chosen));
  }

  lemma LinkGroupParts(chains: Chains, f: Filter, start: Ref, owners: seq<Owner>, g: nat, j: nat, tuple: Bytes, chosen: Option<Snapshot>)
    requires InLinkGroup(chains, f, start, owners, g, j, tuple, chosen)
    ensures g < j <= |owners| && InGroup(owners, g, j)
    ensures var o := owners[j - 1];
            && o.c in chains && o.i < |chains[o.c]| && tuple == Escape(o.c.id)
            && chosen == SnapshotOf(ActiveVersion(chains[o.c][..o.i + 1], f.asOf))
    ensures j < |owners| && Escape(owners[j].c.id) != tuple ==> owners[j].c != owners[j - 1].c
  {
  }

  lemma OwnedIn(chains: Chains, sel: set<ChainId>, x: Cell, o: Owner)
    requires Owns(chains, sel, x, o)
    ensures o.c in sel && o.c in chains
  {
  }

  lemma LinkStep(s: seq<Cell>, chains: Chains, sel: set<ChainId>, f: Filter, start: Ref, owners: seq<Owner>, g: nat, j: nat,
                 tuple: Bytes, chosen: Option<Snapshot>)
    requires Grouped(s, chains, sel, owners) && |owners| == |s| && j < |s| && GoodChains(chains)
    requires forall c :: c in sel <==> c in chains && c.kind == LINK && exists edge, dst :: c == LinkChain(start, edge, dst)
    requires Owns(chains, sel, s[j], owners[j]) && tuple == Escape(owners[j].c.id) && tuple != []
    requires (g == j && chosen == None && (j > 0 ==> Escape(owners[j - 1].c.id) != tuple))
             || InLinkGroup(chains, f, start, owners, g, j, tuple, chosen)
    ensures owners[j].c in chains && owners[j].i < |chains[owners[j].c]|
    ensures var e := chains[owners[j].c][owners[j].i];
            InLinkGroup(chains, f, start, owners, g, j + 1, tuple,
                        if f.asOf.None? || e.hdr.createdAt <= f.asOf.value then SnapshotOf(Good(e)) else chosen)
  {
    hide *;
    OwnerInRange(chains, sel, s[j], owners[j]);
    if g == j {
      GroupPoint(chains, f, start, owners, g, j, tuple, chosen);
      FirstOfGroup(s, chains, sel, owners, j);
      GroupAt(owners, g, j);
      FirstLink(chains, f, start, owners, j, tuple);
    } else {
      LinkGroupParts(chains, f, start, owners, g, j, tuple, chosen);
      NextOfGroup(s, chains, sel, f, start, owners, g, j, tuple, chosen);
      GroupAt(owners, g, j);
      NextLink(chains, f, start, owners, g, j, tuple, chosen);
    }
  }

  lemma GroupPoint(chains: Chains, f: Filter, start: Ref, owners: seq<Owner>, g: nat, j: nat, tuple: Bytes, chosen: Option<Snapshot>)
    requires g == j < |owners| && tuple == Escape(owners[j].c.id)
    requires (g == j && chosen == None && (j > 0 ==> Escape(owners[j - 1].c.id) != tuple))
             || InLinkGroup(chains, f, start, owners, g, j, tuple, chosen)
    ensures chosen == None && (j > 0 ==> owners[j - 1].c != owners[j].c)
  {
  }

  lemma FirstLink(chains: Chains, f: Filter, start: Ref, owners: seq<Owner>, j: nat, tuple: Bytes)
    requires j < |owners| && InGroup(owners, j, j + 1) && owners[j].c in chains && owners[j].i == 0 < |chains[owners[j].c]|
    requires tuple == Escape(owners[j].c.id) && tuple != []
    ensures var e := chains[owners[j].c][0];
            InLinkGroup(chains, f, start, owners, j, j + 1, tuple,
                        if f.asOf.None? || e.hdr.createdAt <= f.asOf.value then SnapshotOf(Good(e)) else None)
  {
    var events := chains[owners[j].c];
    ActiveStep(events, 0, f.asOf);
    assert events[..0] == [];
    hide Escape, ActiveVersion;
  }

  lemma NextLink(chains: Chains, f: Filter, start: Ref, owners: seq<Owner>, g: nat, j: nat, tuple: Bytes, chosen: Option<Snapshot>)
    requires 0 < j < |owners| && g < j && InGroup(owners, g, j + 1) && owners[j].c in chains && owners[j].i < |chains[owners[j].c]|
    requires owners[j].c == owners[j - 1].c && owners[j].i == owners[j - 1].i + 1
    requires tuple == Escape(owners[j].c.id) && tuple != []
    requires chosen == SnapshotOf(ActiveVersion(chains[owners[j].c][..owners[j].i], f.asOf))
    ensures var e := chains[owners[j].c][owners[j].i];
            InLinkGroup(chains, f, start, owners, g, j + 1, tuple,
                        if f.asOf.None? || e.hdr.createdAt <= f.asOf.value then SnapshotOf(Good(e)) else chosen)
  {
    ActiveStep(chains[owners[j].c], owners[j].i, f.asOf);
    hide Escape, ActiveVersion;
  }

  lemma OwnerInRange(chains: Chains, sel: set<ChainId>, x: Cell, o: Owner)
    requires Owns(chains, sel, x, o)
    ensures o.c in chains && o.i < |chains[o.c]|
  {
  }

  lemma FirstOfGroup(s: seq<Cell>, chains: Chains, sel: set<ChainId>, owners: seq<Owner>, j: nat)
    requires Grouped(s, chains, sel, owners) && |owners| == |s| && j < |s|
    requires j > 0 ==> owners[j - 1].c != owners[j].c
    ensures owners[j].i == 0
  {
    if j > 0 {
      FollowsAt(s, chains, sel, owners, j);
    }
    hide Owns;
  }

  lemma NextOfGroup(s: seq<Cell>, chains: Chains, sel: set<ChainId>, f: Filter, start: Ref, owners: seq<Owner>, g: nat, j: nat,
                    tuple: Bytes, chosen: Option<Snapshot>)
    requires Grouped(s, chains, sel, owners) && |owners| == |s| && j < |s| && GoodChains(chains)
    requires forall c :: c in sel <==> c in chains && c.kind == LINK && exists edge, dst :: c == LinkChain(start, edge, dst)
    requires Owns(chains, sel, s[j], owners[j]) && tuple == Escape(owners[j].c.id)
    requires InLinkGroup(chains, f, start, owners, g, j, tuple, chosen)
    ensures j > 0 && owners[j].c == owners[j - 1].c && owners[j].i == owners[j - 1].i + 1
  {
    LinkGroupParts(chains, f, start, owners, g, j, tuple, chosen);
    FollowsAt(s, chains, sel, owners, j);
    EndsWithKind(s, chains, sel, owners, j - 1);
    OwnedIn(chains, sel, s[j], owners[j]);
    EscapeInjective(owners[j].c.id, owners[j - 1].c.id);
    hide Grouped, Escape, Owns, InLinkGroup, GoodChains;
  }

  lemma EndsWithKind(s: seq<Cell>, chains: Chains, sel: set<ChainId>, owners: seq<Owner>, j: nat)
    requires Grouped(s, chains, sel, owners) && j < |s|
    ensures |owners| == |s| && owners[j].c in sel && Owns(chains, sel, s[j], owners[j])
  {
    hide IsVersion, Decode, ParseKey, GoodVersion;
    assert Owns(chains, sel, s[j], owners[j]);
  }

  /** The forward walk has emitted every neighbour, and nothing else. */
  lemma AllEmitted(s: seq<Cell>, chains: Chains, sel: set<ChainId>, f: Filter, start: Ref, owners: seq<Owner>, out: seq<Ref>)
    requires Grouped(s, chains, sel, owners) && Emitted(chains, f, start, owners, |s|, out)
    requires forall c :: c in sel <==> c in chains && c.kind == LINK && exists edge, dst :: c == LinkChain(start, edge, dst)
    ensures forall x :: x in out <==> ForwardNeighbour(chains, f, start, x)
  {
    IdsAreSelection(s, chains, sel, owners);
    hide Grouped, IdsBefore, LinkID;
    forall x ensures x in out <==> ForwardNeighbour(chains, f, start, x) {
      if edge :| Follows(chains, f, LinkChain(start, edge, x)) {
        assert LinkChain(start, edge, x) in sel;
      }
    }
  }

  lemma IdsAreSelection(s: seq<Cell>, chains: Chains, sel: set<ChainId>, owners: seq<Owner>)
    requires Grouped(s, chains, sel, owners)
    ensures |owners| == |s| && IdsBefore(owners, |s|) == sel
  {
    forall c ensures c in IdsBefore(owners, |s|) <==> c in sel {
      IdsBeforeAre(owners, |s|, c);
      if c in IdsBefore(owners, |s|) {
        var k :| 0 <= k < |s| && owners[k].c == c;
        EndsWithKind(s, chains, sel, owners, k);
      }
    }
  }

  // ---------- the reverse walk ----------

  /** An entry of the reverse index: the link from `src` by `edge`. */
  datatype Source = Source(src: Ref, edge: Bytes)

  ghost predicate Indexed(chains: Chains, start: Ref, x: Cell, o: Source) {
    var c := LinkChain(o.src, o.edge, start);
    && start != [] && o.src != [] && o.edge != [] && c in chains && GoodChainId(c)
    && x.key == BuildReverseLinkKey(start, o.edge, o.src).value
    && x.val == KeyOf(c, |chains[c]|)
  }

  /** A scan of the reverse index meets entries of links to `start` only. */
  lemma SourceAt(cells: seq<Cell>, chains: Chains, start: Ref, x: Cell) returns (o: Source)
    requires Sorted(cells) && Holding(Contents(cells), chains) && x in Scan(cells, ReverseDstPrefix(start))
    ensures Indexed(chains, start, x, o)
  {
    var m := Contents(cells);
    ScanIsExact(cells, ReverseDstPrefix(start));
    CellsAreEntries(cells, x);
    KeyIsEither(m, chains, x.key);
    ReversePrefixSelects(chains, start, x.key);
    HoldingParts(m, chains);
    hide Scan, Contents, Holding, Sorted;
    o := SourceOfKey(chains, start, x.key);
    IndexSays(m, chains, o.src, o.edge, start);
  }

  lemma ReversePrefixSelects(chains: Chains, start: Ref, key: Bytes)
    requires ReverseDstPrefix(start) <= key && (IsVersionKey(chains, key) || IsReverseKey(chains, key))
    ensures IsReverseKey(chains, key)
  {
    hide Escape, IsReverseKey, BuildKey;
    if IsVersionKey(chains, key) {
      var c, i: nat :| c in chains && i < |chains[c]| && IsVersion(c, i, key);
      assert REVERSE_LINK_PREFIX <= ReverseDstPrefix(start);
      EventKeyIsNotReverse(c.kind, c.id, i + 1, ReverseDstPrefix(start));
    }
  }

  lemma SourceOfKey(chains: Chains, start: Ref, key: Bytes) returns (o: Source)
    requires ReverseDstPrefix(start) <= key && IsReverseKey(chains, key)
    ensures start != [] && o.src != [] && o.edge != [] && LinkChain(o.src, o.edge, start) in chains
    ensures key == BuildReverseLinkKey(start, o.edge, o.src).value
  {
    hide ReverseDstPrefix, LinkChain, Composite;
    var src, edge, dst :| src != [] && edge != [] && dst != [] && LinkChain(src, edge, dst) in chains
                          && key == BuildReverseLinkKey(dst, edge, src).value;
    ReverseDstPrefixIsExact(start, dst, edge, src);
    o := Source(src, edge);
  }

  lemma IndexSays(m: map<Bytes, Bytes>, chains: Chains, src: Ref, edge: Bytes, dst: Ref)
    requires IndexedBut(m, chains, None) && src != [] && edge != [] && dst != [] && LinkChain(src, edge, dst) in chains
    ensures Indexes(m, chains, src, edge, dst)
  {
    hide Indexes, LinkChain;
  }

  /** Every indexed link to `start` is met. */
  lemma SourceIsMet(cells: seq<Cell>, chains: Chains, start: Ref, o: Source) returns (k: nat)
    requires Sorted(cells) && Holding(Contents(cells), chains)
    requires start != [] && o.src != [] && o.edge != [] && LinkChain(o.src, o.edge, start) in chains
    ensures k < |Scan(cells, ReverseDstPrefix(start))|
    ensures Scan(cells, ReverseDstPrefix(start))[k].key == BuildReverseLinkKey(start, o.edge, o.src).value
  {
    hide Scan, Contents, Holding, Sorted, ReverseDstPrefix, LinkChain, Composite, GoodChains, AllStored, OnlyKnown, IndexedBut, KeyOf;
    var m, s := Contents(cells), Scan(cells, ReverseDstPrefix(start));
    ScanIsExact(cells, ReverseDstPrefix(start));
    HoldingParts(m, chains);
    IndexSays(m, chains, o.src, o.edge, start);
    ReverseDstPrefixIsExact(start, start, o.edge, o.src);
    var rk := BuildReverseLinkKey(start, o.edge, o.src).value;
    EntriesAreCells(cells, rk);
    var x :| x in cells && x.key == rk && x.val == m[rk];
    assert x in s;
    k :| 0 <= k < |s| && s[k] == x;
  }

  /** `emitReverseLinkLatest`. */
  method EmitLatest(st: EventStore, fwdKey: Bytes, f: Filter, ghost start: Ref, ghost o: Source) returns (r: Answer<seq<Ref>>)
    requires st.Valid() && f.asOf.None?
    requires LinkChain(o.src, o.edge, start) in st.chains && GoodChainId(LinkChain(o.src, o.edge, start))
    requires fwdKey == KeyOf(LinkChain(o.src, o.edge, start), |st.chains[LinkChain(o.src, o.edge, start)]|)
    ensures r == Good(if Follows(st.chains, f, LinkChain(o.src, o.edge, start)) then [o.src] else [])
  {
    hide *;
    st.Unfold();
    NewestLink(Contents(st.cells), st.chains, f, o.src, o.edge, start);
    var found, val := st.Get(fwdKey);
    if !found {
      return Bad(SupersedesMissing);
    }
    var parsed := ParseKey(fwdKey);
    if parsed.Err? {
      return Bad(KeyProblem(parsed));
    }
    var e := Decode(val, parsed.value.id);
    if e.Failure? {
      return Bad(RecordProblem(e));
    }
    if !e.value.body.Link? {
      return Bad(MalformedKey);
    }
    if !EdgeAllowed(f, e.value.body.edge) || e.value.hdr.lifecycle == SUPERSEDED {
      return Good([]);
    }
    return Good([e.value.body.src]);
  }

  lemma NewestLink(m: map<Bytes, Bytes>, chains: Chains, f: Filter, src: Ref, edge: Bytes, dst: Ref)
    requires Holding(m, chains) && f.asOf.None? && LinkChain(src, edge, dst) in chains && GoodChainId(LinkChain(src, edge, dst))
    ensures var c := LinkChain(src, edge, dst);
            var n := |chains[c]|;
            && n > 0 && KeyOf(c, n) in m && ParseKey(KeyOf(c, n)) == Ok(ParsedKey(LINK, c.id, n))
            && var e := chains[c][n - 1];
               && Decode(m[KeyOf(c, n)], c.id) == Success(e) && e.body.Link? && e.body.src == src
               && (Follows(chains, f, c) <==> EdgeAllowed(f, e.body.edge) && e.hdr.lifecycle != SUPERSEDED)
  {
    var c := LinkChain(src, edge, dst);
    hide LinkID, Decode, ParseKey, BuildKey, EdgeAllowed;
    HoldingParts(m, chains);
    assert GoodChain(c, chains[c]);
    hide Holding, GoodVersion;
    NewestStored(m, chains, c);
    ParsedVersion(c, |chains[c]|);
    var e := chains[c][|chains[c]| - 1];
    assert e in chains[c];
    VersionOfLink(chains, src, edge, dst, e);
  }

  /** `emitReverseLinkAsOf`: scans the whole chain for the newest version created
      by the point in time. */
  method EmitAsOf(st: EventStore, fwdKey: Bytes, f: Filter, ghost start: Ref, ghost o: Source) returns (r: Answer<seq<Ref>>)
    requires st.Valid() && f.asOf.Some? && o.src != []
    requires LinkChain(o.src, o.edge, start) in st.chains && GoodChainId(LinkChain(o.src, o.edge, start))
    requires fwdKey == KeyOf(LinkChain(o.src, o.edge, start), |st.chains[LinkChain(o.src, o.edge, start)]|)
    ensures r == Good(if Follows(st.chains, f, LinkChain(o.src, o.edge, start)) then [o.src] else [])
  {
    hide *;
    st.Unfold();
    ghost var chains, c := st.chains, LinkChain(o.src, o.edge, start);
    ghost var events := chains[c];
    ChainPrefixKnown(Contents(st.cells), chains, o.src, o.edge, start);
    var p := ChainPrefixFromForwardKey(fwdKey);
    if p.Err? {
      return Bad(KeyProblem(p));
    }
    var cells, prefix, t := st.cells, p.value, f.asOf.value;
    ScanReads(cells, chains, c);
    var chosen: Option<Snapshot> := None;
    var src: Ref := [];
    var i := Slot(cells, prefix);
    ghost var a := i;
    ScanStarts(cells, prefix);
    NothingActive(events, t);
    while i < |cells| && prefix <= cells[i].key
      invariant a <= i <= ScanEnd(cells, prefix, a) && i - a <= |events|
      invariant chosen == SnapshotOf(GreatestBy(events[..i - a], t))
      invariant src == if chosen.Some? then o.src else []
    {
      InScan(cells, prefix, i);
      ghost var j: nat := i - a;
      ChainLinkAt(cells, chains, o.src, o.edge, start, j);
      GreatestStep(events, j, t);
      var snap := DecodeSnapshot(cells[i].val);
      if snap.None? {
        return Bad(MalformedKey);
      }
      if snap.value.createdAt <= t {
        chosen := snap;
        if src == [] {
          var parsed := ParseKey(cells[i].key);
          if parsed.Err? {
            return Bad(KeyProblem(parsed));
          }
          var e := Decode(cells[i].val, parsed.value.id);
          if e.Failure? {
            return Bad(RecordProblem(e));
          }
          if e.value.body.Link? {
            src := e.value.body.src;
          }
        }
      }
      i := i + 1;
    }
    AfterScan(cells, prefix, i);
    AsOfFollows(Contents(cells), chains, f, o.src, o.edge, start, chosen);
    if chosen.None? || src == [] {
      return Good([]);
    }
    if !EdgeAllowed(f, chosen.value.edge) || chosen.value.lifecycle == SUPERSEDED {
      return Good([]);
    }
    return Good([src]);
  }

  lemma ChainPrefixKnown(m: map<Bytes, Bytes>, chains: Chains, src: Ref, edge: Bytes, dst: Ref)
    requires Holding(m, chains) && LinkChain(src, edge, dst) in chains && GoodChainId(LinkChain(src, edge, dst))
    ensures var c := LinkChain(src, edge, dst);
            && ChainPrefix(c.kind, c.id).Ok? && VersionsOf(chains, c) == chains[c]
            && ChainPrefixFromForwardKey(KeyOf(c, |chains[c]|)) == ChainPrefix(c.kind, c.id)
  {
    var c := LinkChain(src, edge, dst);
    VersionsFit(m, chains, c);
    LinkKeyParts(c.id, |chains[c]|);
    hide Holding, LinkID, Escape, PadVersion, ChainPrefixFromForwardKey;
  }

  lemma NothingActive(events: seq<Event>, t: Time)
    ensures events[..0] == [] && SnapshotOf(GreatestBy([], t)) == None
  {
  }

  lemma GreatestStep(events: seq<Event>, i: nat, t: Time)
    requires i < |events|
    ensures GreatestBy(events[..i + 1], t) ==
            if events[i].hdr.createdAt <= t then Good(events[i]) else GreatestBy(events[..i], t)
  {
    assert events[..i + 1][..i] == events[..i];
  }

  lemma ChainLinkAt(cells: seq<Cell>, chains: Chains, src: Ref, edge: Bytes, dst: Ref, j: nat)
    requires Sorted(cells) && Holding(Contents(cells), chains)
    requires LinkChain(src, edge, dst) in chains && GoodChainId(LinkChain(src, edge, dst))
    requires var c := LinkChain(src, edge, dst); ChainPrefix(c.kind, c.id).Ok? && j < |Scan(cells, ChainPrefix(c.kind, c.id).value)|
    ensures var c := LinkChain(src, edge, dst);
            var x := Scan(cells, ChainPrefix(c.kind, c.id).value)[j];
            && j < |chains[c]|
            && var e := chains[c][j];
               && e.body.Link? && e.body.src == src
               && DecodeSnapshot(x.val) == SnapshotOf(Good(e)) && DecodeSnapshot(x.val).Some?
               && DecodeSnapshot(x.val).value.createdAt == e.hdr.createdAt
               && ParseKey(x.key) == Ok(ParsedKey(c.kind, c.id, j + 1)) && Decode(x.val, c.id) == Success(e)
  {
    var c := LinkChain(src, edge, dst);
    VersionAt(cells, chains, c, j);
    HoldingParts(Contents(cells), chains);
    hide Holding, LinkID, Decode, ParseKey, Contents, Scan, Sorted, ChainPrefix, GoodChains;
    var e := chains[c][j];
    assert e in chains[c];
    VersionOfLink(chains, src, edge, dst, e);
    LinkNeedsNoId(Scan(cells, ChainPrefix(c.kind, c.id).value)[j].val, c.id, e);
  }

  lemma AsOfFollows(m: map<Bytes, Bytes>, chains: Chains, f: Filter, src: Ref, edge: Bytes, dst: Ref, chosen: Option<Snapshot>)
    requires Holding(m, chains) && f.asOf.Some? && LinkChain(src, edge, dst) in chains
    requires var events := chains[LinkChain(src, edge, dst)];
             chosen == SnapshotOf(GreatestBy(events[..|events|], f.asOf.value))
    ensures Follows(chains, f, LinkChain(src, edge, dst)) <==>
            chosen.Some? && EdgeAllowed(f, chosen.value.edge) && chosen.value.lifecycle != SUPERSEDED
  {
    var events := chains[LinkChain(src, edge, dst)];
    assert events[..|events|] == events;
    hide LinkID, GreatestBy;
  }

  /** The sources of the links followed among the first entries. */
  ghost predicate EmittedBack(chains: Chains, f: Filter, start: Ref, sources: seq<Source>, out: seq<Ref>) {
    forall x :: x in out <==> exists k :: 0 <= k < |sources| && sources[k].src == x && Follows(chains, f, LinkChain(x, sources[k].edge, start))
  }

  /** `walkReverse`: what it emits, in order. */
  method WalkReverse(st: EventStore, start: Ref, f: Filter) returns (r: Answer<seq<Ref>>)
    requires st.Valid()
    ensures r.Good?
    ensures forall x :: x in r.value <==> ReverseNeighbour(st.chains, f, start, x)
    ensures forall x :: x in r.value <==>
                        exists edge :: start != [] && edge != [] && x != [] && (f.edgeTypes == [] || edge in f.edgeTypes)
                                       && LinkShows(st.chains, f.asOf, x, edge, start)
  {
    hide *;
    st.Unfold();
    ghost var chains := st.chains;
    var cells, prefix := st.cells, ReverseDstPrefix(start);
    HoldingParts(Contents(cells), chains);
    ReverseShown(chains, f, start);
    ghost var s := Scan(cells, prefix);
    ghost var sources: seq<Source> := [];
    var out: seq<Ref> := [];
    var i := Slot(cells, prefix);
    ghost var a := i;
    ScanStarts(cells, prefix);
    NothingEmittedBack(chains, f, start);
    while i < |cells| && prefix <= cells[i].key
      invariant a <= i <= ScanEnd(cells, prefix, a) && i - a <= |s| && |sources| == i - a
      invariant forall k :: 0 <= k < |sources| ==> Indexed(chains, start, s[k], sources[k])
      invariant EmittedBack(chains, f, start, sources, out)
    {
      InScan(cells, prefix, i);
      ghost var o := SourceAt(cells, chains, start, cells[i]);
      IndexedParts(chains, start, cells[i], o);
      var fwdKey := cells[i].val;
      var more;
      if f.asOf.None? {
        more := EmitLatest(st, fwdKey, f, start, o);
      } else {
        more := EmitAsOf(st, fwdKey, f, start, o);
      }
      if more.Bad? {
        return Bad(AnswerProblem(more));
      }
      EmitBack(chains, f, start, sources, out, o);
      out := out + more.value;
      sources := sources + [o];
      i := i + 1;
    }
    AfterScan(cells, prefix, i);
    AllEmittedBack(cells, chains, f, start, sources, out);
    return Good(out);
  }

  function AnswerProblem<T>(a: Answer<T>): StoreError {
    if a.Bad? then a.error else NotFound
  }

  lemma NothingEmittedBack(chains: Chains, f: Filter, start: Ref)
    ensures EmittedBack(chains, f, start, [], [])
  {
  }

  lemma IndexedParts(chains: Chains, start: Ref, x: Cell, o: Source)
    requires Indexed(chains, start, x, o)
    ensures var c := LinkChain(o.src, o.edge, start);
            c in chains && GoodChainId(c) && o.src != [] && x.val == KeyOf(c, |chains[c]|)
  {
  }

  lemma EmitBack(chains: Chains, f: Filter, start: Ref, sources: seq<Source>, out: seq<Ref>, o: Source)
    requires EmittedBack(chains, f, start, sources, out)
    ensures EmittedBack(chains, f, start, sources + [o],
                        out + if Follows(chains, f, LinkChain(o.src, o.edge, start)) then [o.src] else [])
  {
    hide Follows, LinkChain;
    var more, all := if Follows(chains, f, LinkChain(o.src, o.edge, start)) then [o.src] else [], sources + [o];
    forall x ensures x in out + more <==>
                     exists k :: 0 <= k < |all| && all[k].src == x && Follows(chains, f, LinkChain(x, all[k].edge, start))
    {
      if x in more {
        assert all[|sources|] == o;
      }
      if x in out {
        var k :| 0 <= k < |sources| && sources[k].src == x && Follows(chains, f, LinkChain(x, sources[k].edge, start));
        assert all[k] == sources[k];
      }
      if k :| 0 <= k < |all| && all[k].src == x && Follows(chains, f, LinkChain(x, all[k].edge, start)) {
        assert k < |sources| ==> all[k] == sources[k];
      }
    }
  }

  lemma AllEmittedBack(cells: seq<Cell>, chains: Chains, f: Filter, start: Ref, sources: seq<Source>, out: seq<Ref>)
    requires Sorted(cells) && Holding(Contents(cells), chains)
    requires |sources| == |Scan(cells, ReverseDstPrefix(start))|
    requires forall k :: 0 <= k < |sources| ==> Indexed(chains, start, Scan(cells, ReverseDstPrefix(start))[k], sources[k])
    requires EmittedBack(chains, f, start, sources, out)
    ensures forall x :: x in out <==> ReverseNeighbour(chains, f, start, x)
  {
    hide Scan, Holding, Contents, Sorted, ReverseDstPrefix, LinkChain, Composite;
    var s := Scan(cells, ReverseDstPrefix(start));
    forall x ensures x in out <==> ReverseNeighbour(chains, f, start, x) {
      if x in out {
        var k :| 0 <= k < |sources| && sources[k].src == x && Follows(chains, f, LinkChain(x, sources[k].edge, start));
        assert Indexed(chains, start, s[k], sources[k]);
      }
      if ReverseNeighbour(chains, f, start, x) {
        var edge :| start != [] && edge != [] && x != [] && Follows(chains, f, LinkChain(x, edge, start));
        var k := SourceIsMet(cells, chains, start, Source(x, edge));
        assert Indexed(chains, start, s[k], sources[k]);
        SameSource(start, edge, x, sources[k].edge, sources[k].src);
      }
    }
  }

  lemma SameSource(dst: Ref, edge: Bytes, src: Ref, edge': Bytes, src': Ref)
    requires dst != [] && edge != [] && src != [] && edge' != [] && src' != []
    requires BuildReverseLinkKey(dst, edge, src).value == BuildReverseLinkKey(dst, edge', src').value
    ensures edge == edge' && src == src'
  {
    ParseReverseInverts(dst, edge, src);
    ParseReverseInverts(dst, edge', src');
    hide BuildReverseLinkKey, ParseReverseLinkKey;
  }

  // ---------- edge types ----------

  /** The walks with a list of edge types, with each of them alone, and with no
      list: a list yields what its types yield, and no list what any type does. */
  method WalkByTypes(st: EventStore, start: Ref, types: seq<Bytes>, asOf: Option<Time>, back: bool)
    returns (whole: seq<Ref>, parts: seq<seq<Ref>>, all: seq<Ref>)
    requires st.Valid() && types != []
    ensures |parts| == |types|
    ensures forall x :: x in whole <==> exists k :: 0 <= k < |parts| && x in parts[k]
    ensures forall k, x :: 0 <= k < |parts| ==>
                             (x in parts[k] <==>
                              if back then start != [] && types[k] != [] && x != [] && LinkShows(st.chains, asOf, x, types[k], start)
                              else LinkShows(st.chains, asOf, start, types[k], x))
    ensures forall x :: x in all <==>
                        exists edge :: if back then start != [] && edge != [] && x != [] && LinkShows(st.chains, asOf, x, edge, start)
                                       else LinkShows(st.chains, asOf, start, edge, x)
  {
    hide *;
    whole := WalkSide(st, start, Filter(types, asOf), back);
    all := WalkSide(st, start, Filter([], asOf), back);
    parts := [];
    for k := 0 to |types|
      invariant |parts| == k
      invariant forall j, x :: 0 <= j < k ==> (x in parts[j] <==> Shown(st.chains, asOf, back, start, types[j], x))
    {
      var part := WalkSide(st, start, Filter([types[k]], asOf), back);
      OneType(st.chains, asOf, back, start, types[k], part);
      parts := parts + [part];
    }
    ManyTypes(st.chains, asOf, back, start, types, whole, parts);
    ShownUnfolds(st.chains, asOf, back, start);
  }

  /** A link of one type shows to a walk on one side. */
  predicate Shown(chains: Chains, asOf: Option<Time>, back: bool, start: Ref, edge: Bytes, x: Ref) {
    if back then start != [] && edge != [] && x != [] && LinkShows(chains, asOf, x, edge, start)
    else LinkShows(chains, asOf, start, edge, x)
  }

  method WalkSide(st: EventStore, start: Ref, f: Filter, back: bool) returns (out: seq<Ref>)
    requires st.Valid()
    ensures forall x :: x in out <==>
                        exists edge :: (f.edgeTypes == [] || edge in f.edgeTypes) && Shown(st.chains, f.asOf, back, start, edge, x)
  {
    hide *;
    ShownUnfolds(st.chains, f.asOf, back, start);
    var r;
    if back {
      r := WalkReverse(st, start, f);
    } else {
      r := WalkForward(st, start, f);
    }
    out := if r.Good? then r.value else [];
    SideShown(st.chains, f, start, back, out);
  }

  lemma SideShown(chains: Chains, f: Filter, start: Ref, back: bool, out: seq<Ref>)
    requires back ==> forall x :: x in out <==>
               exists edge :: start != [] && edge != [] && x != [] && (f.edgeTypes == [] || edge in f.edgeTypes)
                              && LinkShows(chains, f.asOf, x, edge, start)
    requires !back ==> forall x :: x in out <==>
               exists edge :: (f.edgeTypes == [] || edge in f.edgeTypes) && LinkShows(chains, f.asOf, start, edge, x)
    ensures forall x :: x in out <==>
                        exists edge :: (f.edgeTypes == [] || edge in f.edgeTypes) && Shown(chains, f.asOf, back, start, edge, x)
  {
    hide LinkShows;
    forall x ensures x in out <==> exists edge :: (f.edgeTypes == [] || edge in f.edgeTypes) && Shown(chains, f.asOf, back, start, edge, x) {
      if x in out {
        if back {
          var edge :| start != [] && edge != [] && x != [] && (f.edgeTypes == [] || edge in f.edgeTypes)
                      && LinkShows(chains, f.asOf, x, edge, start);
          assert Shown(chains, f.asOf, back, start, edge, x);
        } else {
          var edge :| (f.edgeTypes == [] || edge in f.edgeTypes) && LinkShows(chains, f.asOf, start, edge, x);
          assert Shown(chains, f.asOf, back, start, edge, x);
        }
      }
    }
  }

  lemma OneType(chains: Chains, asOf: Option<Time>, back: bool, start: Ref, edge: Bytes, part: seq<Ref>)
    requires forall x :: x in part <==> exists e :: ([edge] == [] || e in [edge]) && Shown(chains, asOf, back, start, e, x)
    ensures forall x :: x in part <==> Shown(chains, asOf, back, start, edge, x)
  {
    hide Shown;
    forall x ensures x in part <==> Shown(chains, asOf, back, start, edge, x) {
      assert edge in [edge];
    }
  }

  lemma ManyTypes(chains: Chains, asOf: Option<Time>, back: bool, start: Ref, types: seq<Bytes>, whole: seq<Ref>, parts: seq<seq<Ref>>)
    requires |parts| == |types| > 0
    requires forall x :: x in whole <==> exists e :: (types == [] || e in types) && Shown(chains, asOf, back, start, e, x)
    requires forall k, x :: 0 <= k < |parts| ==> (x in parts[k] <==> Shown(chains, asOf, back, start, types[k], x))
    ensures forall x :: x in whole <==> exists k :: 0 <= k < |parts| && x in parts[k]
  {
    hide Shown;
    forall x ensures x in whole <==> exists k :: 0 <= k < |parts| && x in parts[k] {
      if x in whole {
        var e :| e in types && Shown(chains, asOf, back, start, e, x);
        var k :| 0 <= k < |types| && types[k] == e;
        assert x in parts[k];
      }
      if k :| 0 <= k < |parts| && x in parts[k] {
        assert types[k] in types;
      }
    }
  }

  lemma ShownUnfolds(chains: Chains, asOf: Option<Time>, back: bool, start: Ref)
    ensures forall edge, x :: Shown(chains, asOf, back, start, edge, x) <==>
                              if back then start != [] && edge != [] && x != [] && LinkShows(chains, asOf, x, edge, start)
                              else LinkShows(chains, asOf, start, edge, x)
  {
    hide LinkShows;
  }
}
