/** The versioned event log: `event/store.go`.

    A store keeps its records in key order, as the cursors of `Cursors` yield
    them.  Its ghost field `chains` lists the versions of every id, oldest
    first, as they read back. */
module Store {
  import opened Bytes
  import opened TreeModel
  import opened TreeView
  import opened PageKeys
  import opened Keys
  import opened Codec
  import opened StoreFacts
  import opened Groups
  import R = Record

  datatype StoreError = NoId | MalformedKey | NoSuchKind | NotFound | SupersedesLoop | SupersedesMissing | TooLong
                      | Record(error: CodecError)

  datatype Answer<+T> = Good(value: T) | Bad(error: StoreError)

  function KeyErrorOf(e: KeyError): StoreError {
    match e case InvalidKey => MalformedKey case InvalidKind => NoSuchKind case EmptyID => NoId
  }

  /** The error of a failed decoding or parsing. */
  function RecordProblem(e: Try<Event>): StoreError {
    if e.Failure? then Record(e.error) else NotFound
  }

  function KeyProblem<T>(r: Result<T>): StoreError {
    if r.Err? then KeyErrorOf(r.error) else MalformedKey
  }

  // ---------- appending ----------

  /** A body whose strings have lengths in 64 bits and whose enumerations are
      valid or unset. */
  predicate GoodBody(e: Event) {
    && (e.body.Link? ==> e.name == [])
    && match e.body
       case Entity(t, p, n, h) => |t| < ID_LIMIT && |p| < ID_LIMIT && |n| < ID_LIMIT && |h| < ID_LIMIT
       case Decision(t, b, sev, sc, src) =>
         && |t| < ID_LIMIT && |b| < ID_LIMIT && |src| < ID_LIMIT
         && (sev == 0 || ValidEnum(sev)) && (sc == 0 || ValidEnum(sc))
       case Link(s, ed, d) => |s| < ID_LIMIT && |ed| < ID_LIMIT && |d| < ID_LIMIT
       case Observation(a, s) => |a| < ID_LIMIT && |s| < ID_LIMIT
       case Outcome(t, s) => |t| < ID_LIMIT && |s| < ID_LIMIT
  }

  /** The header that an append stamps on an event. */
  function Stamp(e: Event, version: nat, prior: Bytes, now: Time): Event {
    e.(hdr := Header(version,
                     if e.hdr.createdAt == ZERO_TIME then now else e.hdr.createdAt,
                     prior,
                     if e.hdr.lifecycle == UNSET then ACTIVE else e.hdr.lifecycle))
  }

  /** The version that an append adds to the chain of `e`. */
  ghost function NextVersion(chains: Chains, e: Event, now: Time): Event
    requires GoodChainId(ChainOf(e))
  {
    var c := ChainOf(e);
    var n := |VersionsOf(chains, c)|;
    ReadBack(Stamp(e, n + 1, if n == 0 then [] else KeyOf(c, n), now))
  }

  /** What has to be stored of an event: its own name and body, the next version
      number, the key of the version before, the creation time given (the clock's
      if none is), and the lifecycle given (active if none is).  Times are kept
      within 64 bits; the epoch reads as no time. */
  ghost predicate StoredAs(e: Event, c: ChainId, n: nat, now: Time, v: Event)
    requires GoodChainId(c)
  {
    var t := if e.hdr.createdAt == -62_135_596_800_000_000_000 then now else e.hdr.createdAt;
    && v.name == e.name && v.body == e.body
    && v.hdr.version == n + 1
    && v.hdr.supersedes == (if n == 0 then [] else BuildKey(c.kind, c.id, n).value)
    && v.hdr.lifecycle == (if e.hdr.lifecycle == 0 then 1 else e.hdr.lifecycle)
    && (-0x8000_0000_0000_0000 <= t < 0x8000_0000_0000_0000 ==>
          v.hdr.createdAt == if t == 0 then -62_135_596_800_000_000_000 else t)
  }

  lemma NextIsStored(chains: Chains, e: Event, now: Time)
    requires GoodChainId(ChainOf(e))
    ensures StoredAs(e, ChainOf(e), |VersionsOf(chains, ChainOf(e))|, now, NextVersion(chains, e, now))
  {
    var n := |VersionsOf(chains, ChainOf(e))|;
    var t := if e.hdr.createdAt == ZERO_TIME then now else e.hdr.createdAt;
    if -0x8000_0000_0000_0000 <= t < 0x8000_0000_0000_0000 {
      TimeKept(t);
    }
    hide LinkID, BuildKey, WordTime, TimeWord;
  }

  lemma TimeKept(t: Time)
    requires -0x8000_0000_0000_0000 <= t < 0x8000_0000_0000_0000
    ensures WordTime(TimeWord(t)) == if t == 0 then ZERO_TIME else t
  {
  }

  /** Both ends and the type of a link. */
  predicate Complete(b: Body) {
    b.Link? ==> b.src != [] && b.edge != [] && b.dst != []
  }

  // ---------- reading ----------

  /** How many versions precede the first one created after `t`. */
  function Until(events: seq<Event>, t: Time): (n: nat)
    ensures n <= |events|
    ensures forall i :: 0 <= i < n ==> events[i].hdr.createdAt <= t
    ensures n < |events| ==> events[n].hdr.createdAt > t
  {
    if events == [] || events[0].hdr.createdAt > t then 0 else 1 + Until(events[1..], t)
  }

  function AsOfAnswer(events: seq<Event>, t: Time): Answer<Event> {
    if Until(events, t) == 0 then Bad(NotFound) else Good(events[Until(events, t) - 1])
  }

  /** The newest version created by `t`, if any. */
  function GreatestBy(events: seq<Event>, t: Time): Answer<Event> {
    if events == [] then Bad(NotFound)
    else if events[|events| - 1].hdr.createdAt <= t then Good(events[|events| - 1])
    else GreatestBy(events[..|events| - 1], t)
  }

  /** Versions from the newest to the oldest. */
  function Backwards(events: seq<Event>): (r: seq<Event>)
    ensures |r| == |events|
    ensures forall i :: 0 <= i < |r| ==> r[i] == events[|events| - 1 - i]
  {
    seq(|events|, i requires 0 <= i < |events| => events[|events| - 1 - i])
  }

  class EventStore {
    var cells: seq<Cell>
    ghost var chains: Chains

    constructor ()
      ensures Valid() && chains == map[]
    {
      cells, chains := [], map[];
    }

    ghost predicate Valid()
      reads this
    {
      && Sorted(cells)
      && Holding(Contents(cells), chains)
      && forall c :: c in cells ==> |c.key| <= MAX_KEY_SIZE
    }

    lemma Unfold()
      requires Valid()
      ensures Sorted(cells) && Holding(Contents(cells), chains)
      ensures forall c :: c in cells ==> |c.key| <= MAX_KEY_SIZE
    {
    }

    /** `Put` of the transaction, for a key that is not empty. */
    method Put(key: Bytes, val: Bytes) returns (ok: bool)
      requires Sorted(cells) && (forall c :: c in cells ==> |c.key| <= MAX_KEY_SIZE) && key != []
      modifies this`cells
      ensures Sorted(cells) && forall c :: c in cells ==> |c.key| <= MAX_KEY_SIZE
      ensures ok == (|key| <= MAX_KEY_SIZE)
      ensures if ok then cells == PutCell(old(cells), Cell(key, val, [])) && Contents(cells) == Contents(old(cells))[key := val]
              else cells == old(cells)
    {
      hide Contents, PutCell, Rank, Sorted;
      if |key| > MAX_KEY_SIZE {
        return false;
      }
      PutCellMembers(cells, Cell(key, val, []));
      PutCellIsUpdate(cells, Cell(key, val, []));
      cells := PutCell(cells, Cell(key, val, []));
      return true;
    }

    /** `Get` of the transaction. */
    method Get(key: Bytes) returns (found: bool, val: Bytes)
      requires Sorted(cells)
      ensures found == (key in Contents(cells))
      ensures found ==> val == Contents(cells)[key]
    {
      SlotContents(cells, key);
      hide Contents, Rank, Sorted;
      var i := Slot(cells, key);
      found := HasKeyAt(cells, i, key);
      val := if found then cells[i].val else [];
    }

    /** `latestKeyAndVersionFromCursor` with the prefix of chain `c`. */
    method LatestKey(prefix: Bytes, ghost c: ChainId) returns (key: Bytes, version: nat)
      requires Valid() && GoodChainId(c) && prefix == ChainPrefix(c.kind, c.id).value
      ensures version == |VersionsOf(chains, c)|
      ensures key == if version == 0 then [] else KeyOf(c, version)
    {
      hide *;
      Unfold();
      ScanOfChain(cells, chains, c);
      ghost var n := |VersionsOf(chains, c)|;
      key, version := [], 0;
      var i := Slot(cells, prefix);
      ghost var a := i;
      ScanStarts(cells, prefix);
      while i < |cells| && prefix <= cells[i].key
        invariant a <= i <= ScanEnd(cells, prefix, a)
        invariant i == a ==> key == []
        invariant i > a ==> key == KeyOf(c, i - a)
      {
        InScan(cells, prefix, i);
        key := cells[i].key;
        i := i + 1;
      }
      AfterScan(cells, prefix, i);
      if key == [] {
        KeyNotEmpty(c, n);
        return [], 0;
      }
      ParsedVersion(c, n);
      version := ParseKey(key).value.version;
    }

    /** `appendInTx`, with `writeReverseIndex` for links.  A link without both
        ends and a type is refused only after its forward record is written. */
    method Append(e: Event, now: Time) returns (r: Answer<Bytes>)
      requires Valid() && GoodBody(e)
      requires |VersionsOf(chains, ChainOf(e))| + 1 < MAX_VERSIONS
      modifies this
      ensures Valid()
      ensures EventID(e) == [] ==> r == Bad(NoId) && chains == old(chains)
      ensures EventID(e) != [] ==>
                var c := ChainOf(e);
                var n := |VersionsOf(old(chains), c)|;
                && GoodChainId(c)
                && (e.hdr.lifecycle > HISTORICAL ==> r == Bad(Record(BadLifecycle)) && chains == old(chains))
                && (e.hdr.lifecycle <= HISTORICAL && |KeyOf(c, n + 1)| > MAX_KEY_SIZE ==> r == Bad(TooLong) && chains == old(chains))
                && (e.hdr.lifecycle <= HISTORICAL && |KeyOf(c, n + 1)| <= MAX_KEY_SIZE ==>
                      && chains == Extended(old(chains), c, NextVersion(old(chains), e, now))
                      && c in chains && |chains[c]| == n + 1 && StoredAs(e, c, n, now, chains[c][n])
                      && r == if Complete(e.body) then Good(KeyOf(c, n + 1)) else Bad(NoId))
    {
      hide *;
      Unfold();
      if EventID(e) == [] {
        return Bad(NoId);
      }
      ghost var c, before, all := ChainOf(e), cells, chains;
      ChainOfEvent(e);
      var prior, priorVersion := LatestKey(ChainPrefix(KindOf(e.body), EventID(e)).value, c);
      var stamped := Stamp(e, priorVersion + 1, prior, now);
      ghost var next := NextVersion(all, e, now);
      PriorFits(cells, chains, c);
      Stamped(e, all, prior, priorVersion, now, stamped, next);
      var key := BuildKey(KindOf(e.body), EventID(e), stamped.hdr.version).value;
      var value := Encode(stamped);
      if value.Failure? {
        return Bad(Record(value.error));
      }
      KeyNotEmpty(c, priorVersion + 1);
      var ok := Put(key, value.value);
      if !ok {
        return Bad(TooLong);
      }
      ForwardWritten(Contents(before), all, c, next, value.value);
      chains := Extended(all, c, next);
      NextIsStored(all, e, now);
      LastOfChain(all, c, next);
      CompleteBody(e.body);
      if e.body.Link? {
        var src, edge, dst := e.body.src, e.body.edge, e.body.dst;
        if src == [] || edge == [] || dst == [] {
          IncompleteLink(Contents(cells), chains, c, e);
          Fold();
          return Bad(NoId);
        }
        LinkGrown(all, e, next);
        var rkey := BuildReverseLinkKey(dst, edge, src).value;
        ReverseKeyFits(src, edge, dst, priorVersion + 1, key, rkey);
        IndexWritten(Contents(cells), chains, src, edge, dst);
        ok := Put(rkey, key);
        Fold();
        return Good(key);
      }
      NoLink(Contents(cells), chains, c, e);
      Fold();
      return Good(key);
    }

    lemma Fold()
      requires Sorted(cells) && Holding(Contents(cells), chains)
      requires forall c :: c in cells ==> |c.key| <= MAX_KEY_SIZE
      ensures Valid()
    {
    }

    /** `Latest`. */
    method Latest(kind: Kind, id: Bytes) returns (r: Answer<Event>)
      requires Valid()
      ensures id == [] ==> r == Bad(NoId)
      ensures id != [] && !ValidKind(kind) ==> r == Bad(NoSuchKind)
      ensures id != [] && ValidKind(kind) ==>
                var events := VersionsOf(chains, ChainId(kind, id));
                r == if events == [] then Bad(NotFound) else Good(events[|events| - 1])
    {
      hide *;
      if id == [] {
        return Bad(NoId);
      }
      ghost var c := ChainId(kind, id);
      PrefixOf(kind, id);
      var prefix := ChainPrefix(kind, id);
      if prefix.Err? {
        return Bad(KeyProblem(prefix));
      }
      Unfold();
      ScanOfChain(cells, chains, c);
      var key, version := LatestKey(prefix.value, c);
      if key == [] {
        KeyNotEmpty(c, version);
        return Bad(NotFound);
      }
      NewestStored(Contents(cells), chains, c);
      var found, val := Get(key);
      var e := Decode(val, id);
      if e.Failure? {
        return Bad(RecordProblem(e));
      }
      return Good(e.value);
    }

    /** `AsOf`, whose walk ends at the first version created after `t`. */
    method AsOf(kind: Kind, id: Bytes, t: Time) returns (r: Answer<Event>)
      requires Valid()
      ensures id == [] ==> r == Bad(NoId)
      ensures id != [] && !ValidKind(kind) ==> r == Bad(NoSuchKind)
      ensures id != [] && ValidKind(kind) ==> r == AsOfAnswer(VersionsOf(chains, ChainId(kind, id)), t)
    {
      hide *;
      if id == [] {
        return Bad(NoId);
      }
      ghost var c := ChainId(kind, id);
      PrefixOf(kind, id);
      var p := ChainPrefix(kind, id);
      if p.Err? {
        return Bad(KeyProblem(p));
      }
      var prefix := p.value;
      Unfold();
      ghost var events := VersionsOf(chains, c);
      ScanReads(cells, chains, c);
      r := Bad(NotFound);
      var i := Slot(cells, prefix);
      ghost var a := i;
      ScanStarts(cells, prefix);
      UntilStarts(events, t);
      while i < |cells| && prefix <= cells[i].key
        invariant a <= i <= ScanEnd(cells, prefix, a)
        invariant i - a <= Until(events, t) <= |events|
        invariant i == a ==> r == Bad(NotFound)
        invariant i > a ==> r == Good(events[i - a - 1])
      {
        InScan(cells, prefix, i);
        ghost var j: nat := i - a;
        VersionAt(cells, chains, c, j);
        var parsed := ParseKey(cells[i].key);
        if parsed.Err? {
          return Bad(KeyProblem(parsed));
        }
        var e := Decode(cells[i].val, parsed.value.id);
        if e.Failure? {
          return Bad(RecordProblem(e));
        }
        UntilAt(events, t, j);
        if e.value.hdr.createdAt > t {
          AsOfStops(events, t, j, r);
          return;
        }
        r := Good(e.value);
        i := i + 1;
      }
      AfterScan(cells, prefix, i);
      AsOfStops(events, t, i - a, r);
    }

    /** `ResolveSupersedes`: follows the superseded keys from `startKey`, at most
        `maxHops` of them. */
    method ResolveSupersedes(startKey: Bytes, maxHops: int) returns (r: Answer<seq<Event>>)
      requires Valid()
      ensures startKey == [] ==> r == Bad(MalformedKey)
      ensures startKey != [] && startKey !in Contents(cells) ==> r == Bad(NotFound)
      ensures startKey in Contents(cells) && IsReverseKey(chains, startKey) ==> r == Bad(MalformedKey)
      ensures forall c, i: nat :: c in chains && i < |chains[c]| && IsVersion(c, i, startKey) ==>
                                    r == if (if maxHops < 0 then 0 else maxHops) < i then Bad(SupersedesLoop)
                                         else Good(Backwards(chains[c][..i + 1]))
    {
      hide *;
      Unfold();
      NoEmptyKeys(Contents(cells), chains);
      if startKey == [] {
        return Bad(MalformedKey);
      }
      var limit := if maxHops < 0 then 0 else maxHops;
      ghost var known, c, v := WhichVersion(Contents(cells), chains, startKey);
      ghost var events := VersionsOf(chains, c);
      var chain: seq<Event> := [];
      var visited: set<Bytes> := {};
      var currentKey := startKey;
      var hops := 0;
      while true
        invariant hops <= limit && |chain| == hops
        invariant !known ==> hops == 0 && currentKey == startKey && visited == {}
        invariant known ==> hops < v && currentKey == KeyOf(c, v - hops)
        invariant known ==> forall i :: 0 <= i < hops ==> chain[i] == events[v - 1 - i]
        invariant known ==> forall k :: k in visited ==> exists i: nat {:trigger IsVersion(c, i, k)} :: v - hops <= i < v && IsVersion(c, i, k)
        decreases limit - hops
      {
        if known {
          NotVisited(chains, c, v, hops, visited, currentKey);
          VersionFound(Contents(cells), chains, c, v - hops);
        }
        if currentKey in visited {
          return Bad(SupersedesLoop);
        }
        visited := visited + {currentKey};
        var found, val := Get(currentKey);
        if !found {
          return Bad(if |chain| == 0 then NotFound else SupersedesMissing);
        }
        var parsed := ParseKey(currentKey);
        if parsed.Err? {
          return Bad(KeyProblem(parsed));
        }
        var e := Decode(val, parsed.value.id);
        if e.Failure? {
          return Bad(RecordProblem(e));
        }
        chain := chain + [e.value];
        var next := e.value.hdr.supersedes;
        if next == [] {
          ReachedFirst(chains, c, v, hops, startKey, limit, chain);
          return Good(chain);
        }
        if hops >= limit {
          return Bad(SupersedesLoop);
        }
        hops := hops + 1;
        currentKey := next;
      }
    }

    /** `IterateKind`: the newest version of each id of a kind, handed over in
        the order of the scan.  `ids` lists the ids met. */
    method IterateKind(kind: Kind) returns (r: Answer<seq<Event>>, ghost ids: seq<ChainId>)
      requires Valid()
      ensures !ValidKind(kind) ==> r == Bad(NoSuchKind)
      ensures ValidKind(kind) ==>
                && r.Good? && Newest(chains, ids, r.value) && Distinct(ids)
                && forall c :: c in ids <==> c in chains && c.kind == kind
    {
      hide *;
      ids := [];
      if !ValidKind(kind) {
        return Bad(NoSuchKind), [];
      }
      var prefix := Prefix(kind);
      Unfold();
      ghost var sel := KindSelection(chains, kind);
      ghost var s := Scan(cells, prefix);
      ghost var owners := ScanIsGrouped(cells, chains, prefix, sel);
      assert |owners| == |s| by { GroupedSize(s, chains, sel, owners); }
      var es: seq<Event> := [];
      var currentID: Bytes := [];
      var currentValue: Bytes := [];
      var haveCurrent := false;
      var i := Slot(cells, prefix);
      ghost var a, g: nat := i, 0;
      ScanStarts(cells, prefix);
      NothingMet(chains, owners);
      while i < |cells| && prefix <= cells[i].key
        invariant a <= i <= ScanEnd(cells, prefix, a) && i - a <= |s|
        invariant haveCurrent == (i > a) && (i == a ==> currentID == [] && g == 0)
        invariant i > a ==> currentID == owners[i - a - 1].c.id && currentValue == s[i - a - 1].val
        invariant i > a ==> g < i - a && InGroup(owners, g, i - a)
        invariant Met(chains, owners, g, ids, es)
      {
        InScan(cells, prefix, i);
        ghost var j: nat := i - a;
        OwnerAt(s, chains, sel, owners, j, kind);
        var parsed := ParseKey(cells[i].key);
        if parsed.Err? {
          return Bad(KeyProblem(parsed)), ids;
        }
        if parsed.value.id != currentID {
          if haveCurrent {
            FlushMeets(s, chains, sel, owners, g, j, ids, es);
            var e := Decode(currentValue, currentID);
            if e.Failure? {
              return Bad(RecordProblem(e)), ids;
            }
            haveCurrent := false;
            es, ids, g := es + [e.value], ids + [owners[j - 1].c], j;
          }
          currentID := parsed.value.id;
        }
        GroupAt(owners, g, j);
        currentValue := cells[i].val;
        haveCurrent := true;
        i := i + 1;
      }
      AfterScan(cells, prefix, i);
      if haveCurrent {
        FlushMeets(s, chains, sel, owners, g, i - a, ids, es);
        var e := Decode(currentValue, currentID);
        if e.Failure? {
          return Bad(RecordProblem(e)), ids;
        }
        es, ids, g := es + [e.value], ids + [owners[i - a - 1].c], i - a;
      }
      AllMet(s, chains, sel, owners, ids, es);
      return Good(es), ids;
    }
  }

  /** Appends an event and reads it back: whatever the answer of `Append`, if it
      wrote anything then `Latest` gives what the event had to be stored as. */
  method AppendAndRead(st: EventStore, e: Event, now: Time) returns (r: Answer<Bytes>, latest: Answer<Event>)
    requires st.Valid() && GoodBody(e) && EventID(e) != []
    requires |VersionsOf(st.chains, ChainOf(e))| + 1 < MAX_VERSIONS
    modifies st
    ensures st.Valid() && GoodChainId(ChainOf(e))
    ensures e.hdr.lifecycle <= HISTORICAL && |KeyOf(ChainOf(e), |VersionsOf(old(st.chains), ChainOf(e))| + 1)| <= MAX_KEY_SIZE ==>
              latest.Good? && StoredAs(e, ChainOf(e), |VersionsOf(old(st.chains), ChainOf(e))|, now, latest.value)
  {
    hide *;
    ChainOfEvent(e);
    r := st.Append(e, now);
    latest := st.Latest(KindOf(e.body), EventID(e));
    ChainIn(st.chains, ChainOf(e));
  }

  lemma ChainIn(chains: Chains, c: ChainId)
    ensures VersionsOf(chains, c) == if c in chains then chains[c] else []
    ensures GoodChainId(c) ==> ValidKind(c.kind) && c.id != []
  {
  }

  // ---------- glue ----------

  lemma LastOfChain(chains: Chains, c: ChainId, e: Event)
    ensures var x, n := Extended(chains, c, e), |VersionsOf(chains, c)|;
            c in x && |x[c]| == n + 1 && x[c][n] == e
  {
  }

  lemma ScanStarts(cells: seq<Cell>, p: Bytes)
    ensures Slot(cells, p) <= ScanEnd(cells, p, Slot(cells, p))
    ensures |Scan(cells, p)| == ScanEnd(cells, p, Slot(cells, p)) - Slot(cells, p)
  {
  }

  lemma InScan(cells: seq<Cell>, p: Bytes, i: nat)
    requires Slot(cells, p) <= i < |cells| && i <= ScanEnd(cells, p, Slot(cells, p)) && p <= cells[i].key
    ensures i < ScanEnd(cells, p, Slot(cells, p)) && i - Slot(cells, p) < |Scan(cells, p)|
    ensures Scan(cells, p)[i - Slot(cells, p)] == cells[i]
  {
    hide Slot;
  }

  lemma AfterScan(cells: seq<Cell>, p: Bytes, i: nat)
    requires Slot(cells, p) <= i <= ScanEnd(cells, p, Slot(cells, p)) && !(i < |cells| && p <= cells[i].key)
    ensures i - Slot(cells, p) == |Scan(cells, p)|
  {
    hide Slot;
  }

  lemma ScanOfChain(cells: seq<Cell>, chains: Chains, c: ChainId)
    requires Sorted(cells) && Holding(Contents(cells), chains) && GoodChainId(c)
    ensures var s, events := Scan(cells, ChainPrefix(c.kind, c.id).value), VersionsOf(chains, c);
            && |s| == |events| < MAX_VERSIONS
            && forall i :: 0 <= i < |s| ==> s[i].key == KeyOf(c, i + 1)
  {
    ChainScan(cells, chains, c);
    hide Scan, Contents, KeyOf;
  }

  lemma KeyNotEmpty(c: ChainId, v: nat)
    requires GoodChainId(c)
    ensures KeyOf(c, v) != []
  {
    hide PadVersion, Escape;
  }

  lemma ParsedVersion(c: ChainId, v: nat)
    requires GoodChainId(c) && v < MAX_VERSIONS
    ensures ParseKey(KeyOf(c, v)) == Ok(ParsedKey(c.kind, c.id, v))
  {
    ParseKeyInverts(c.kind, c.id, v);
    hide BuildKey, ParseKey;
  }

  lemma ChainOfEvent(e: Event)
    requires EventID(e) != []
    ensures GoodChainId(ChainOf(e)) && ChainOf(e) == ChainId(KindOf(e.body), EventID(e))
    ensures ChainPrefix(KindOf(e.body), EventID(e)).Ok?
  {
    hide EventID;
  }

  lemma PriorFits(cells: seq<Cell>, chains: Chains, c: ChainId)
    requires Sorted(cells) && Holding(Contents(cells), chains) && GoodChainId(c)
    requires forall x :: x in cells ==> |x.key| <= MAX_KEY_SIZE
    ensures |VersionsOf(chains, c)| > 0 ==> |KeyOf(c, |VersionsOf(chains, c)|)| <= MAX_KEY_SIZE
  {
    hide *;
    var n := |VersionsOf(chains, c)|;
    if n > 0 {
      VersionStored(Contents(cells), chains, c, n - 1);
      VersionReads(Contents(cells), chains, c, n - 1);
      EntriesAreCells(cells, KeyOf(c, n));
    }
  }

  /** What an append writes reads back as the next version. */
  lemma Stamped(e: Event, chains: Chains, prior: Bytes, n: nat, now: Time, stamped: Event, next: Event)
    requires EventID(e) != [] && GoodBody(e) && n + 1 < MAX_VERSIONS && |prior| <= MAX_KEY_SIZE
    requires GoodChainId(ChainOf(e)) && n == |VersionsOf(chains, ChainOf(e))|
    requires prior == if n == 0 then [] else KeyOf(ChainOf(e), n)
    requires stamped == Stamp(e, n + 1, prior, now) && next == NextVersion(chains, e, now)
    ensures BuildKey(KindOf(e.body), EventID(e), stamped.hdr.version) == Ok(KeyOf(ChainOf(e), n + 1))
    ensures e.hdr.lifecycle > HISTORICAL ==> Encode(stamped) == Failure(BadLifecycle)
    ensures e.hdr.lifecycle <= HISTORICAL ==>
              && Encode(stamped).Success?
              && Decode(Encode(stamped).value, ChainOf(e).id) == Success(next)
              && GoodVersion(ChainOf(e), n, next)
  {
    hide Decode, EventFields, R.FieldsBytes, WordTime, TimeWord, LinkID, PadVersion, Escape;
    assert EventID(stamped) == EventID(e);
    assert next == ReadBack(stamped);
    if e.hdr.lifecycle <= HISTORICAL {
      assert Storable(stamped);
      DecodeInverts(stamped);
    }
  }

  lemma LinkIsChain(src: Bytes, edge: Bytes, dst: Bytes, e: Event)
    requires ChainOf(e) == LinkChain(src, edge, dst)
    ensures e.body.Link? && e.body.src == src && e.body.edge == edge && e.body.dst == dst
  {
    assert KindOf(e.body) == LINK;
    SameLink(src, edge, dst, e.body.src, e.body.edge, e.body.dst);
    hide LinkID;
  }

  lemma IncompleteLink(m: map<Bytes, Bytes>, chains: Chains, c: ChainId, e: Event)
    requires GoodChains(chains) && AllStored(m, chains) && OnlyKnown(m, chains) && IndexedBut(m, chains, Some(c))
    requires c == ChainOf(e) && e.body.Link? && (e.body.src == [] || e.body.edge == [] || e.body.dst == [])
    ensures Holding(m, chains)
  {
    hide GoodChains, AllStored, OnlyKnown, IndexedBut, Holding, LinkChain, ChainOf;
    forall src, edge, dst | c == LinkChain(src, edge, dst) ensures src == [] || edge == [] || dst == [] {
      LinkIsChain(src, edge, dst, e);
    }
    NoIndexNeeded(m, chains, c);
  }

  lemma NoLink(m: map<Bytes, Bytes>, chains: Chains, c: ChainId, e: Event)
    requires GoodChains(chains) && AllStored(m, chains) && OnlyKnown(m, chains) && IndexedBut(m, chains, Some(c))
    requires c == ChainOf(e) && !e.body.Link?
    ensures Holding(m, chains)
  {
    assert c.kind != LINK;
    hide GoodChains, AllStored, OnlyKnown, IndexedBut, Holding, LinkID;
    NoIndexNeeded(m, chains, c);
  }

  lemma CompleteBody(b: Body)
    ensures Complete(b) <==> (b.Link? ==> b.src != [] && b.edge != [] && b.dst != [])
    ensures b.Link? && Complete(b) ==> BuildReverseLinkKey(b.dst, b.edge, b.src).Ok?
  {
    hide Composite;
  }

  lemma LinkGrown(chains: Chains, e: Event, next: Event)
    requires e.body.Link? && GoodChainId(ChainOf(e))
    ensures LinkChain(e.body.src, e.body.edge, e.body.dst) == ChainOf(e)
    ensures ChainOf(e) in Extended(chains, ChainOf(e), next)
    ensures |Extended(chains, ChainOf(e), next)[ChainOf(e)]| == |VersionsOf(chains, ChainOf(e))| + 1
  {
    hide LinkID;
  }

  lemma {:induction false} EscapeGrows(s: Bytes)
    ensures |Escape(s)| >= |s|
  {
    if s != [] {
      EscapeGrows(s[1..]);
    }
  }

  /** A link's reverse key is shorter than its forward keys. */
  lemma ReverseKeyFits(src: Bytes, edge: Bytes, dst: Bytes, v: nat, key: Bytes, rkey: Bytes)
    requires src != [] && edge != [] && dst != [] && v < MAX_VERSIONS
    requires GoodChainId(LinkChain(src, edge, dst)) && key == KeyOf(LinkChain(src, edge, dst), v)
    requires rkey == BuildReverseLinkKey(dst, edge, src).value
    ensures rkey != [] && |rkey| <= |key|
  {
    EscapeGrows(LinkID(src, edge, dst));
    PadVersionFits(v);
    hide Escape, PadVersion;
  }

  lemma PrefixOf(kind: Kind, id: Bytes)
    requires id != []
    ensures if ValidKind(kind) then GoodChainId(ChainId(kind, id)) && ChainPrefix(kind, id).Ok?
            else ChainPrefix(kind, id) == Err(InvalidKind)
    ensures !ValidKind(kind) ==> KeyProblem(ChainPrefix(kind, id)) == NoSuchKind
  {
    hide Escape;
  }

  lemma NewestStored(m: map<Bytes, Bytes>, chains: Chains, c: ChainId)
    requires Holding(m, chains) && GoodChainId(c)
    ensures var events := VersionsOf(chains, c);
            events != [] ==> KeyOf(c, |events|) in m && Decode(m[KeyOf(c, |events|)], c.id) == Success(events[|events| - 1])
  {
    hide *;
    var n := |VersionsOf(chains, c)|;
    if n > 0 {
      VersionStored(m, chains, c, n - 1);
      VersionReads(m, chains, c, n - 1);
    }
  }

  lemma ScanReads(cells: seq<Cell>, chains: Chains, c: ChainId)
    requires Sorted(cells) && Holding(Contents(cells), chains) && GoodChainId(c)
    ensures |Scan(cells, ChainPrefix(c.kind, c.id).value)| == |VersionsOf(chains, c)|
  {
    ChainScan(cells, chains, c);
  }

  lemma VersionAt(cells: seq<Cell>, chains: Chains, c: ChainId, j: nat)
    requires Sorted(cells) && Holding(Contents(cells), chains) && GoodChainId(c)
    requires j < |Scan(cells, ChainPrefix(c.kind, c.id).value)|
    ensures var x := Scan(cells, ChainPrefix(c.kind, c.id).value)[j];
            && j < |VersionsOf(chains, c)|
            && ParseKey(x.key) == Ok(ParsedKey(c.kind, c.id, j + 1))
            && Decode(x.val, c.id) == Success(VersionsOf(chains, c)[j])
  {
    ChainScan(cells, chains, c);
    hide Scan, Contents, Decode, KeyOf, ParseKey, Holding, GoodVersion, VersionsOf;
    ParsedVersion(c, j + 1);
  }

  lemma UntilStarts(events: seq<Event>, t: Time)
    ensures 0 <= Until(events, t) <= |events|
  {
  }

  lemma UntilAt(events: seq<Event>, t: Time, j: nat)
    requires j < |events| && j <= Until(events, t)
    ensures events[j].hdr.createdAt > t <==> Until(events, t) == j
  {
    hide Until;
  }

  lemma AsOfStops(events: seq<Event>, t: Time, j: nat, r: Answer<Event>)
    requires j == Until(events, t) && r == if j == 0 then Bad(NotFound) else Good(events[j - 1])
    ensures r == AsOfAnswer(events, t)
  {
  }

  lemma NoEmptyKeys(m: map<Bytes, Bytes>, chains: Chains)
    requires Holding(m, chains)
    ensures [] !in m && !IsReverseKey(chains, []) && forall c, i: nat :: !IsVersion(c, i, [])
  {
    forall c, i: nat ensures !IsVersion(c, i, []) {
      if GoodChainId(c) {
        KeyNotEmpty(c, i + 1);
      }
    }
    hide IsVersion;
    if [] in m {
      KeyIsEither(m, chains, []);
    }
  }

  /** Which version a key is of, if any. */
  lemma WhichVersion(m: map<Bytes, Bytes>, chains: Chains, key: Bytes) returns (known: bool, c: ChainId, v: nat)
    requires Holding(m, chains) && key != []
    ensures known == IsVersionKey(chains, key)
    ensures known ==>
              && c in chains && GoodChainId(c) && 0 < v <= |chains[c]| < MAX_VERSIONS && VersionsOf(chains, c) == chains[c]
              && key == KeyOf(c, v) && key in m && !IsReverseKey(chains, key)
              && forall d, i: nat :: d in chains && i < |chains[d]| && IsVersion(d, i, key) ==> d == c && i + 1 == v
    ensures !known ==>
              && (key in m ==> IsReverseKey(chains, key) && ParseKey(key) == Err(InvalidKey))
              && (IsReverseKey(chains, key) ==> ParseKey(key) == Err(InvalidKey))
              && forall d, i: nat :: d in chains && i < |chains[d]| ==> !IsVersion(d, i, key)
    ensures ParseKey(key) == Err(InvalidKey) ==> KeyProblem(ParseKey(key)) == MalformedKey
  {
    hide GoodChainId, KeyOf, Holding, ParseKey;
    known, c, v := IsVersionKey(chains, key), ChainId(0, []), 0;
    if known {
      var i: nat;
      c, i :| c in chains && i < |chains[c]| && IsVersion(c, i, key);
      v := i + 1;
      OnlyVersion(m, chains, key, c, i);
    } else {
      if key in m {
        KeyIsEither(m, chains, key);
      }
      if IsReverseKey(chains, key) {
        ReverseIsMalformed(chains, key);
      }
    }
  }

  lemma OnlyVersion(m: map<Bytes, Bytes>, chains: Chains, key: Bytes, c: ChainId, i: nat)
    requires Holding(m, chains) && c in chains && i < |chains[c]| && IsVersion(c, i, key)
    ensures key in m && !IsReverseKey(chains, key) && |chains[c]| < MAX_VERSIONS
    ensures forall d, j: nat :: d in chains && j < |chains[d]| && IsVersion(d, j, key) ==> d == c && j == i
  {
    hide Decode, BuildKey, Holding;
    VersionsFit(m, chains, c);
    VersionStored(m, chains, c, i);
    VersionReads(m, chains, c, i);
    VersionIsNotReverse(c, i, chains, key);
    forall d, j: nat | d in chains && j < |chains[d]| && IsVersion(d, j, key) ensures d == c && j == i {
      VersionsFit(m, chains, d);
      KeysDiffer(c.kind, c.id, i + 1, d.kind, d.id, j + 1);
    }
  }

  lemma VersionIsNotReverse(c: ChainId, i: nat, chains: Chains, key: Bytes)
    requires IsVersion(c, i, key)
    ensures !IsReverseKey(chains, key)
  {
    EventKeyIsNotReverse(c.kind, c.id, i + 1, REVERSE_LINK_PREFIX);
    hide BuildKey, Composite;
    assert !(REVERSE_LINK_PREFIX <= key);
  }

  lemma ReverseIsMalformed(chains: Chains, key: Bytes)
    requires IsReverseKey(chains, key)
    ensures REVERSE_LINK_PREFIX <= key && ParseKey(key) == Err(InvalidKey)
  {
    hide Composite;
  }

  lemma VersionFound(m: map<Bytes, Bytes>, chains: Chains, c: ChainId, v: nat)
    requires Holding(m, chains) && c in chains && GoodChainId(c) && 0 < v <= |chains[c]|
    ensures KeyOf(c, v) in m && ParseKey(KeyOf(c, v)) == Ok(ParsedKey(c.kind, c.id, v))
    ensures var e := Decode(m[KeyOf(c, v)], c.id);
            && e == Success(chains[c][v - 1])
            && e.value.hdr.supersedes == (if v == 1 then [] else KeyOf(c, v - 1))
            && (v > 1 ==> KeyOf(c, v - 1) != [])
  {
    hide Decode, BuildKey, Holding, ParseKey;
    VersionsFit(m, chains, c);
    VersionStored(m, chains, c, v - 1);
    VersionReads(m, chains, c, v - 1);
    ParsedVersion(c, v);
    if v > 1 {
      KeyNotEmpty(c, v - 1);
    }
  }

  lemma NotVisited(chains: Chains, c: ChainId, v: nat, hops: nat, visited: set<Bytes>, key: Bytes)
    requires GoodChainId(c) && hops < v < MAX_VERSIONS && key == KeyOf(c, v - hops)
    requires forall k :: k in visited ==> exists i: nat {:trigger IsVersion(c, i, k)} :: v - hops <= i < v && IsVersion(c, i, k)
    ensures key !in visited
    ensures IsVersion(c, v - hops - 1, key)
  {
    hide BuildKey;
    if key in visited {
      var i: nat :| v - hops <= i < v && IsVersion(c, i, key);
      KeysDiffer(c.kind, c.id, v - hops, c.kind, c.id, i + 1);
    }
  }

  lemma ReachedFirst(chains: Chains, c: ChainId, v: nat, hops: nat, startKey: Bytes, limit: nat, chain: seq<Event>)
    requires c in chains && v <= |chains[c]| && hops + 1 == v == |chain|
    requires forall i :: 0 <= i < v ==> chain[i] == chains[c][v - 1 - i]
    ensures chain == Backwards(chains[c][..v])
  {
  }

  // ---------- iterating a kind ----------

  predicate Distinct(ids: seq<ChainId>) {
    forall i, j :: 0 <= i < j < |ids| ==> ids[i] != ids[j]
  }

  /** The newest version of each id, in order. */
  ghost predicate Newest(chains: Chains, ids: seq<ChainId>, es: seq<Event>) {
    && |ids| == |es|
    && forall k :: 0 <= k < |ids| ==> ids[k] in chains && chains[ids[k]] != [] && es[k] == chains[ids[k]][|chains[ids[k]]| - 1]
  }

  function IdsBefore(owners: seq<Owner>, j: nat): set<ChainId>
    requires j <= |owners|
  {
    if j == 0 then {} else IdsBefore(owners, j - 1) + {owners[j - 1].c}
  }

  lemma {:induction false} IdsBeforeAre(owners: seq<Owner>, j: nat, c: ChainId)
    requires j <= |owners|
    ensures c in IdsBefore(owners, j) <==> exists k :: 0 <= k < j && owners[k].c == c
  {
    if j > 0 {
      IdsBeforeAre(owners, j - 1, c);
    }
  }

  /** The ids of the groups before position `g` have been handed over. */
  ghost predicate Met(chains: Chains, owners: seq<Owner>, g: nat, ids: seq<ChainId>, es: seq<Event>) {
    && g <= |owners| && Newest(chains, ids, es) && Distinct(ids)
    && forall c :: c in ids <==> c in IdsBefore(owners, g)
  }

  /** The group at hand goes from `g` to before `j`. */
  predicate InGroup(owners: seq<Owner>, g: nat, j: nat) {
    && g < j <= |owners| && (g == 0 || owners[g].c != owners[g - 1].c)
    && forall k :: g <= k < j ==> owners[k].c == owners[j - 1].c
  }

  lemma GroupAt(owners: seq<Owner>, g: nat, j: nat)
    requires j < |owners| && g <= j
    requires if g == j then g == 0 || owners[g].c != owners[g - 1].c else InGroup(owners, g, j) && owners[j].c == owners[j - 1].c
    ensures InGroup(owners, g, j + 1)
  {
  }

  lemma KindSelection(chains: Chains, kind: Kind) returns (sel: set<ChainId>)
    requires ValidKind(kind)
    ensures Selects(chains, Prefix(kind), sel)
    ensures forall c :: c in sel <==> c in chains && c.kind == kind
  {
    sel := set c | c in chains && c.kind == kind;
    forall c, i: nat, key | c in chains && i < |chains[c]| && IsVersion(c, i, key)
      ensures Prefix(kind) <= key <==> c in sel
    {
      KindPrefixIsExact(kind, c, i, key);
    }
    forall key | IsReverseKey(chains, key) ensures !(Prefix(kind) <= key) {
      ReverseHasNoKind(kind, chains, key);
    }
  }

  lemma KindPrefixIsExact(kind: Kind, c: ChainId, i: nat, key: Bytes)
    requires ValidKind(kind) && IsVersion(c, i, key)
    ensures Prefix(kind) <= key <==> c.kind == kind
  {
    hide Escape, PadVersion;
    assert Prefix(c.kind) <= key && key[..2] == Prefix(c.kind);
    if c.kind != kind {
      DifferAt(Prefix(kind), key, 0);
    }
  }

  lemma ReverseHasNoKind(kind: Kind, chains: Chains, key: Bytes)
    requires ValidKind(kind) && IsReverseKey(chains, key)
    ensures !(Prefix(kind) <= key)
  {
    hide Composite;
    var src, edge, dst :| src != [] && edge != [] && dst != [] && LinkChain(src, edge, dst) in chains
                          && key == BuildReverseLinkKey(dst, edge, src).value;
    ReverseKeyIsNotEvent(dst, edge, src, kind, Prefix(kind));
  }

  lemma NothingMet(chains: Chains, owners: seq<Owner>)
    ensures Met(chains, owners, 0, [], [])
  {
  }

  lemma GroupedSize(s: seq<Cell>, chains: Chains, sel: set<ChainId>, owners: seq<Owner>)
    requires Grouped(s, chains, sel, owners)
    ensures |owners| == |s|
  {
  }

  lemma OwnerAt(s: seq<Cell>, chains: Chains, sel: set<ChainId>, owners: seq<Owner>, j: nat, kind: Kind)
    requires Grouped(s, chains, sel, owners) && j < |s| && forall c :: c in sel ==> c.kind == kind
    ensures |owners| == |s| && owners[j].c.id != []
    ensures ParseKey(s[j].key) == Ok(ParsedKey(kind, owners[j].c.id, owners[j].i + 1))
    ensures j > 0 ==> (owners[j].c.id == owners[j - 1].c.id <==> owners[j].c == owners[j - 1].c)
  {
    hide Decode, ParseKey, GoodVersion, GoesOn;
    assert Owns(chains, sel, s[j], owners[j]);
    assert j > 0 ==> Owns(chains, sel, s[j - 1], owners[j - 1]);
  }

  /** At the end of a group its newest version is at hand. */
  lemma FlushIsNewest(s: seq<Cell>, chains: Chains, sel: set<ChainId>, owners: seq<Owner>, j: nat)
    requires Grouped(s, chains, sel, owners) && 0 < j <= |s|
    requires j == |s| || owners[j].c != owners[j - 1].c
    ensures |owners| == |s| && owners[j - 1].c in chains && chains[owners[j - 1].c] != []
    ensures var c := owners[j - 1].c;
            Decode(s[j - 1].val, c.id) == Success(chains[c][|chains[c]| - 1])
  {
    EndsWithLast(s, chains, sel, owners, j);
    hide Grouped, IsVersion, Decode, ParseKey, GoodVersion;
  }

  lemma EndsWithLast(s: seq<Cell>, chains: Chains, sel: set<ChainId>, owners: seq<Owner>, j: nat)
    requires Grouped(s, chains, sel, owners) && 0 < j <= |s|
    requires j == |s| || owners[j].c != owners[j - 1].c
    ensures |owners| == |s| && Owns(chains, sel, s[j - 1], owners[j - 1])
    ensures owners[j - 1].c in chains && owners[j - 1].i + 1 == |chains[owners[j - 1].c]|
  {
    hide IsVersion, Decode, ParseKey, GoodVersion;
    assert Owns(chains, sel, s[j - 1], owners[j - 1]);
    assert j < |s| ==> GoesOn(chains, owners, j);
  }

  lemma {:induction false} IdsOfGroup(owners: seq<Owner>, g: nat, j: nat)
    requires InGroup(owners, g, j)
    ensures IdsBefore(owners, j) == IdsBefore(owners, g) + {owners[j - 1].c}
  {
    if g + 1 < j {
      IdsOfGroup(owners, g, j - 1);
    }
  }

  lemma NewGroup(s: seq<Cell>, chains: Chains, sel: set<ChainId>, owners: seq<Owner>, g: nat, j: nat)
    requires Grouped(s, chains, sel, owners) && InGroup(owners, g, j)
    ensures owners[j - 1].c !in IdsBefore(owners, g)
  {
    if g > 0 {
      FollowsAt(s, chains, sel, owners, g);
      IdsBeforeAre(owners, g, owners[g].c);
    }
  }

  lemma FollowsAt(s: seq<Cell>, chains: Chains, sel: set<ChainId>, owners: seq<Owner>, g: nat)
    requires Grouped(s, chains, sel, owners) && 0 < g < |s|
    ensures |owners| == |s| && owners[g - 1].c in chains && GoesOn(chains, owners, g)
  {
    hide IsVersion, Decode, ParseKey, GoodVersion;
    assert Owns(chains, sel, s[g - 1], owners[g - 1]);
  }

  lemma NewestMore(chains: Chains, ids: seq<ChainId>, es: seq<Event>, c: ChainId)
    requires Newest(chains, ids, es) && Distinct(ids) && c in chains && chains[c] != [] && c !in ids
    ensures Newest(chains, ids + [c], es + [chains[c][|chains[c]| - 1]]) && Distinct(ids + [c])
  {
  }

  /** The id of the group before position `j` has been handed over. */
  lemma MeetMore(s: seq<Cell>, chains: Chains, sel: set<ChainId>, owners: seq<Owner>, g: nat, j: nat,
                 ids: seq<ChainId>, es: seq<Event>)
    requires Grouped(s, chains, sel, owners) && InGroup(owners, g, j) && Met(chains, owners, g, ids, es)
    requires owners[j - 1].c in chains && chains[owners[j - 1].c] != []
    ensures var c := owners[j - 1].c;
            Met(chains, owners, j, ids + [c], es + [chains[c][|chains[c]| - 1]])
  {
    hide *;
    GroupWithin(owners, g, j);
    IdsOfGroup(owners, g, j);
    NewGroup(s, chains, sel, owners, g, j);
    MetMore(chains, owners, g, j, ids, es, owners[j - 1].c);
  }

  /** What is at hand at the end of a group, and the ids met with it. */
  lemma FlushMeets(s: seq<Cell>, chains: Chains, sel: set<ChainId>, owners: seq<Owner>, g: nat, j: nat,
                   ids: seq<ChainId>, es: seq<Event>)
    requires Grouped(s, chains, sel, owners) && 0 < j <= |s| && InGroup(owners, g, j) && Met(chains, owners, g, ids, es)
    requires |owners| == |s| && (j == |s| || owners[j].c != owners[j - 1].c)
    ensures var c := owners[j - 1].c;
            && Decode(s[j - 1].val, c.id).Success?
            && Met(chains, owners, j, ids + [c], es + [Decode(s[j - 1].val, c.id).value])
  {
    hide *;
    FlushIsNewest(s, chains, sel, owners, j);
    MeetMore(s, chains, sel, owners, g, j, ids, es);
  }

  lemma GroupWithin(owners: seq<Owner>, g: nat, j: nat)
    requires InGroup(owners, g, j)
    ensures g < j <= |owners|
  {
  }

  lemma MetMore(chains: Chains, owners: seq<Owner>, g: nat, j: nat, ids: seq<ChainId>, es: seq<Event>, c: ChainId)
    requires Met(chains, owners, g, ids, es) && c in chains && chains[c] != [] && j <= |owners|
    requires IdsBefore(owners, j) == IdsBefore(owners, g) + {c} && c !in IdsBefore(owners, g)
    ensures Met(chains, owners, j, ids + [c], es + [chains[c][|chains[c]| - 1]])
  {
    hide IdsBefore;
    NewestMore(chains, ids, es, c);
    hide Newest, Distinct;
  }

  lemma AllMet(s: seq<Cell>, chains: Chains, sel: set<ChainId>, owners: seq<Owner>, ids: seq<ChainId>, es: seq<Event>)
    requires Grouped(s, chains, sel, owners) && Met(chains, owners, |s|, ids, es)
    ensures Newest(chains, ids, es) && Distinct(ids)
    ensures forall c :: c in ids <==> c in sel
  {
    hide GoesOn, Decode, ParseKey, GoodVersion, IsVersion, IdsBefore, Newest, Distinct;
    forall c ensures c in IdsBefore(owners, |s|) <==> c in sel {
      IdsBeforeAre(owners, |s|, c);
      if c in IdsBefore(owners, |s|) {
        var k :| 0 <= k < |s| && owners[k].c == c;
        assert Owns(chains, sel, s[k], owners[k]);
      }
    }
  }

  // ---------- what `AsOf` means ----------

  predicate NonDecreasing(events: seq<Event>) {
    forall i, j :: 0 <= i < j < |events| ==> events[i].hdr.createdAt <= events[j].hdr.createdAt
  }

  lemma {:induction false} GreatestIs(events: seq<Event>, t: Time, k: nat)
    requires k <= |events| && forall i :: k <= i < |events| ==> events[i].hdr.createdAt > t
    requires k > 0 ==> events[k - 1].hdr.createdAt <= t
    ensures GreatestBy(events, t) == if k == 0 then Bad(NotFound) else Good(events[k - 1])
  {
    if k < |events| {
      assert events[|events| - 1].hdr.createdAt > t;
      GreatestIs(events[..|events| - 1], t, k);
    }
  }

  /** `AsOf` gives the newest version created by `t`, for every `t`, exactly when
      creation times never decrease along the chain. */
  lemma AsOfIsGreatest(events: seq<Event>)
    requires forall i :: 0 <= i < |events| ==> events[i].hdr.version == i + 1
    ensures (forall t :: AsOfAnswer(events, t) == GreatestBy(events, t)) <==> NonDecreasing(events)
  {
    if NonDecreasing(events) {
      forall t ensures AsOfAnswer(events, t) == GreatestBy(events, t) {
        GreatestIs(events, t, Until(events, t));
      }
    } else {
      var i, j :| 0 <= i < j < |events| && events[i].hdr.createdAt > events[j].hdr.createdAt;
      var t := events[j].hdr.createdAt;
      assert Until(events, t) <= i;
      GreatestReaches(events, t, j);
      assert AsOfAnswer(events, t) != GreatestBy(events, t);
    }
  }

  lemma {:induction false} GreatestReaches(events: seq<Event>, t: Time, j: nat)
    requires j < |events| && events[j].hdr.createdAt <= t
    requires forall i :: 0 <= i < |events| ==> events[i].hdr.version == i + 1
    ensures GreatestBy(events, t).Good? && GreatestBy(events, t).value.hdr.version > j
  {
    var n := |events| - 1;
    if events[n].hdr.createdAt > t {
      GreatestReaches(events[..n], t, j);
    }
  }
}
