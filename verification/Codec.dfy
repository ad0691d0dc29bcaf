/** Event records: `event/codec.go` and `event/types.go`. */
module Codec {
  import opened Bytes
  import opened PageKeys
  import opened Keys
  import opened Record

  /** A point in time, in nanoseconds from the Unix epoch. */
  type Time = int

  /** The zero `time.Time`, 1 January of the year 1. */
  const ZERO_TIME: Time := -62_135_596_800_000_000_000

  const SCHEMA_VERSION: byte := 1

  const UNSET: byte := 0
  const ACTIVE: byte := 1
  const SUPERSEDED: byte := 2
  const HISTORICAL: byte := 3

  datatype Header = Header(version: nat, createdAt: Time, supersedes: Bytes, lifecycle: byte)

  datatype Body =
    | Entity(typ: Bytes, path: Bytes, name: Bytes, hash: Bytes)
    | Decision(title: Bytes, body: Bytes, severity: byte, scope: byte, source: Bytes)
    | Link(src: Bytes, edge: Bytes, dst: Bytes)
    | Observation(action: Bytes, about: Bytes)
    | Outcome(sort: Bytes, about: Bytes)

  /** An event.  A link has no id of its own: it is made from its ends. */
  datatype Event = Event(name: Bytes, hdr: Header, body: Body)

  datatype CodecError = Corrupt | UnknownSchema | BadKind | BadLifecycle | BadSeverity | BadScope | NoID

  datatype Try<+T> = Success(value: T) | Failure(error: CodecError)

  function KindOf(b: Body): (k: Kind)
    ensures ValidKind(k)
  {
    match b
    case Entity(_, _, _, _) => ENTITY
    case Decision(_, _, _, _, _) => DECISION
    case Link(_, _, _) => LINK
    case Observation(_, _) => OBSERVATION
    case Outcome(_, _) => OUTCOME
  }

  /** `ID`. */
  function EventID(e: Event): Bytes {
    match e.body
    case Link(src, edge, dst) => LinkID(src, edge, dst)
    case _ => e.name
  }

  /** The values of the enumerations `Lifecycle`, `Severity` and `Scope`. */
  predicate ValidEnum(b: byte) {
    1 <= b <= 3
  }

  // ---------- encoding ----------

  function TextField(id: byte, s: Bytes): (r: seq<Field>)
    ensures |r| <= 1 && (id <= MAX_FIELD_ID ==> SmallIds(r))
  {
    if s == [] then [] else [Field(id, Text(s))]
  }

  function SmallField(id: byte, b: byte): (r: seq<Field>)
    ensures |r| <= 1 && (id <= MAX_FIELD_ID ==> SmallIds(r))
  {
    if b == 0 then [] else [Field(id, Small(b))]
  }

  /** `UnixNano`, which wraps around outside 64 bits, as an unsigned word. */
  function TimeWord(t: Time): (n: nat)
    ensures n < ID_LIMIT
  {
    t % ID_LIMIT
  }

  /** The time that a word stands for; the epoch reads as the zero time. */
  function WordTime(n: nat): Time {
    if n == 0 then ZERO_TIME else if n < ID_LIMIT / 2 then n else n - ID_LIMIT
  }

  /** `encodePayload`. */
  function PayloadFields(b: Body): (r: seq<Field>)
    ensures |r| <= 5 && SmallIds(r)
  {
    hide TextField, SmallField;
    match b
    case Entity(t, p, n, h) => TextField(10, t) + TextField(11, p) + TextField(12, n) + TextField(13, h)
    case Decision(t, b, sev, sc, src) =>
      TextField(15, t) + TextField(16, b) + SmallField(17, sev) + SmallField(18, sc) + TextField(19, src)
    case Link(s, e, d) => TextField(20, s) + TextField(21, e) + TextField(22, d)
    case Observation(a, s) => TextField(25, a) + TextField(26, s)
    case Outcome(t, s) => TextField(28, t) + TextField(29, s)
  }

  function HeaderFields(hdr: Header, k: Kind): seq<Field> {
    [Field(1, Number(hdr.version)), Field(2, Number(TimeWord(hdr.createdAt)))] + TextField(3, hdr.supersedes) +
    [Field(4, Small(k as byte))] + SmallField(5, hdr.lifecycle)
  }

  function EventFields(e: Event): (fields: seq<Field>)
    ensures SmallIds(fields) && |fields| <= 10
  {
    HeaderFields(e.hdr, KindOf(e.body)) + PayloadFields(e.body)
  }

  /** `Encode`. */
  function Encode(e: Event): Try<Bytes> {
    if EventID(e) == [] then Failure(NoID)
    else if e.hdr.lifecycle != UNSET && !ValidEnum(e.hdr.lifecycle) then Failure(BadLifecycle)
    else Success([SCHEMA_VERSION, |EventFields(e)| as byte] + FieldsBytes(EventFields(e)))
  }

  // ---------- decoding ----------

  /** What `readRecord` has gathered: the header, the kind if there was one, and
      the payload fields. */
  datatype Gathered = Gathered(hdr: Header, kind: Kind, payload: seq<Field>)

  const NOTHING: Gathered := Gathered(Header(0, ZERO_TIME, [], UNSET), 0, [])

  predicate IsHeader(id: byte) {
    1 <= id <= 5
  }

  /** The wire type a field is read as: header fields are read as what they
      should be, whatever their tag says. */
  function ReadAs(id: byte, w: Wire): Wire {
    if id == 1 || id == 2 then Fixed64
    else if id == 3 then Chunk
    else if id == 4 || id == 5 then Fixed8
    else w
  }

  /** One field's effect: `applyHeaderField`, or `captureRaw`. */
  function Apply(g: Gathered, id: byte, d: Data): Try<Gathered> {
    match d
    case Number(n) =>
      if id == 1 then Success(g.(hdr := g.hdr.(version := n)))
      else if id == 2 then Success(g.(hdr := g.hdr.(createdAt := WordTime(n))))
      else Success(g.(payload := g.payload + [Field(id, d)]))
    case Text(s) =>
      if id == 3 then Success(if s == [] then g else g.(hdr := g.hdr.(supersedes := s)))
      else Success(g.(payload := g.payload + [Field(id, d)]))
    case Small(b) =>
      if id == 4 then if ValidKind(b as Kind) then Success(g.(kind := b as Kind)) else Failure(BadKind)
      else if id == 5 then if ValidEnum(b) then Success(g.(hdr := g.hdr.(lifecycle := b))) else Failure(BadLifecycle)
      else Success(g.(payload := g.payload + [Field(id, d)]))
    case Items(_) => Success(g.(payload := g.payload + [Field(id, Items([]))]))
  }

  /** `readRecord`: `n` fields. */
  function ReadRecord(s: Bytes, n: nat, g: Gathered): Try<Gathered>
    decreases n
  {
    if n == 0 then Success(g) else
    match NextTag(s)
    case Failed(_) => Failure(Corrupt)
    case Got((id, w), _) =>
      match ReadData(s[1..], ReadAs(id, w))
      case Failed(_) => Failure(Corrupt)
      case Got(d, used) =>
        if used > |s| - 1 then Failure(Corrupt) else
        match Apply(g, id, d)
        case Failure(e) => Failure(e)
        case Success(g') => ReadRecord(s[1..][used..], n - 1, g')
  }

  function RawText(d: Data): Bytes {
    if d.Text? then d.s else []
  }

  function RawSmall(d: Data): byte {
    if d.Small? then d.b else 0
  }

  function EmptyBody(k: Kind): Body
    requires ValidKind(k)
  {
    if k == ENTITY then Entity([], [], [], [])
    else if k == DECISION then Decision([], [], 0, 0, [])
    else if k == OBSERVATION then Observation([], [])
    else if k == OUTCOME then Outcome([], [])
    else Link([], [], [])
  }

  /** What one payload field sets; unknown fields set nothing. */
  function SetField(b: Body, f: Field): Try<Body> {
    var t := RawText(f.data);
    match b
    case Entity(ty, p, n, h) =>
      if f.id == 10 then Success(Entity(t, p, n, h)) else if f.id == 11 then Success(Entity(ty, t, n, h))
      else if f.id == 12 then Success(Entity(ty, p, t, h)) else if f.id == 13 then Success(Entity(ty, p, n, t)) else Success(b)
    case Decision(ti, bo, sev, sc, so) =>
      if f.id == 15 then Success(Decision(t, bo, sev, sc, so)) else if f.id == 16 then Success(Decision(ti, t, sev, sc, so))
      else if f.id == 17 then
        if ValidEnum(RawSmall(f.data)) then Success(Decision(ti, bo, RawSmall(f.data), sc, so)) else Failure(BadSeverity)
      else if f.id == 18 then
        if ValidEnum(RawSmall(f.data)) then Success(Decision(ti, bo, sev, RawSmall(f.data), so)) else Failure(BadScope)
      else if f.id == 19 then Success(Decision(ti, bo, sev, sc, t)) else Success(b)
    case Link(s, e, d) =>
      if f.id == 20 then Success(Link(t, e, d)) else if f.id == 21 then Success(Link(s, t, d))
      else if f.id == 22 then Success(Link(s, e, t)) else Success(b)
    case Observation(a, s) =>
      if f.id == 25 then Success(Observation(t, s)) else if f.id == 26 then Success(Observation(a, t)) else Success(b)
    case Outcome(k, s) =>
      if f.id == 28 then Success(Outcome(t, s)) else if f.id == 29 then Success(Outcome(k, t)) else Success(b)
  }

  /** The `assemble` functions. */
  function SetFields(b: Body, fields: seq<Field>): Try<Body>
    decreases |fields|
  {
    if fields == [] then Success(b) else
    match SetField(b, fields[0])
    case Failure(e) => Failure(e)
    case Success(b') => SetFields(b', fields[1..])
  }

  function Assemble(g: Gathered, id: Bytes): Try<Event> {
    if !ValidKind(g.kind) then Failure(BadKind)
    else if id == [] then Failure(NoID)
    else
      match SetFields(EmptyBody(g.kind), g.payload)
      case Failure(e) => Failure(e)
      case Success(b) => Success(Event(if b.Link? then [] else id, g.hdr, b))
  }

  /** `Decode`. */
  function Decode(value: Bytes, id: Bytes): Try<Event> {
    if |value| < 2 then Failure(Corrupt)
    else if value[0] != SCHEMA_VERSION then Failure(UnknownSchema)
    else
      match ReadRecord(value[2..], value[1] as nat, NOTHING)
      case Failure(e) => Failure(e)
      case Success(g) => Assemble(g, id)
  }

  // ---------- the loops ----------

  method EncodePayload(enc: Encoder, b: Body)
    requires enc.Valid() && |enc.fields| <= 5
    modifies enc
    ensures enc.Valid() && enc.buf[0] == old(enc.buf[0]) && enc.fields == old(enc.fields) + PayloadFields(b)
  {
    hide Encoder.Valid, TextField, SmallField, SmallIds;
    ghost var f := enc.fields;
    match b
    case Entity(t, p, n, h) =>
      PutText(enc, 10, t);
      PutText(enc, 11, p);
      PutText(enc, 12, n);
      PutText(enc, 13, h);
      Regroup(f, TextField(10, t), TextField(11, p), TextField(12, n), TextField(13, h));
    case Decision(t, body, sev, sc, src) =>
      PutText(enc, 15, t);
      PutText(enc, 16, body);
      PutSmall(enc, 17, sev);
      PutSmall(enc, 18, sc);
      Regroup(f, TextField(15, t), TextField(16, body), SmallField(17, sev), SmallField(18, sc));
      ghost var four := TextField(15, t) + TextField(16, body) + SmallField(17, sev) + SmallField(18, sc);
      PutText(enc, 19, src);
      Regroup(f, four, TextField(19, src), [], []);
    case Link(s, e, d) =>
      PutText(enc, 20, s);
      PutText(enc, 21, e);
      PutText(enc, 22, d);
      Regroup(f, TextField(20, s), TextField(21, e), TextField(22, d), []);
    case Observation(a, s) =>
      PutText(enc, 25, a);
      PutText(enc, 26, s);
      Regroup(f, TextField(25, a), TextField(26, s), [], []);
    case Outcome(t, s) =>
      PutText(enc, 28, t);
      PutText(enc, 29, s);
      Regroup(f, TextField(28, t), TextField(29, s), [], []);
  }

  lemma Regroup(f: seq<Field>, a: seq<Field>, b: seq<Field>, c: seq<Field>, d: seq<Field>)
    ensures f + a + b + c + d == f + (a + b + c + d)
    ensures d == [] ==> f + a + b + c == f + (a + b + c)
    ensures c == d == [] ==> f + a + b == f + (a + b)
  {
  }

  method PutText(enc: Encoder, id: byte, s: Bytes)
    requires enc.Valid() && id <= MAX_FIELD_ID && |enc.fields| < 255
    modifies enc
    ensures enc.Valid() && enc.buf[0] == old(enc.buf[0]) && enc.fields == old(enc.fields) + TextField(id, s)
  {
    if s != [] {
      enc.PutBytes(id, s);
    }
  }

  method PutSmall(enc: Encoder, id: byte, b: byte)
    requires enc.Valid() && id <= MAX_FIELD_ID && |enc.fields| < 255
    modifies enc
    ensures enc.Valid() && enc.buf[0] == old(enc.buf[0]) && enc.fields == old(enc.fields) + SmallField(id, b)
  {
    if b != 0 {
      enc.PutUint8(id, b);
    }
  }

  /** `Encode`. */
  method EncodeEvent(e: Event) returns (r: Try<Bytes>)
    ensures r == Encode(e)
  {
    hide Encoder.Valid, FieldsBytes;
    if EventID(e) == [] {
      return Failure(NoID);
    }
    if e.hdr.lifecycle != UNSET && !ValidEnum(e.hdr.lifecycle) {
      return Failure(BadLifecycle);
    }
    var enc := new Encoder(SCHEMA_VERSION);
    enc.PutUint64(1, e.hdr.version);
    enc.PutUint64(2, TimeWord(e.hdr.createdAt));
    PutText(enc, 3, e.hdr.supersedes);
    enc.PutUint8(4, KindOf(e.body) as byte);
    PutSmall(enc, 5, e.hdr.lifecycle);
    assert enc.fields == HeaderFields(e.hdr, KindOf(e.body));
    EncodePayload(enc, e.body);
    assert enc.fields == EventFields(e);
    var value := enc.Finish();
    return Success(value);
  }

  /** The data of the field that the decoder has just read the tag of. */
  method ReadField(dec: Decoder, w: Wire) returns (r: Read<Data>)
    requires dec.Valid()
    modifies dec`pos
    ensures dec.Valid()
    ensures match r
            case Failed(e) => ReadData(old(dec.Rest()), w) == Failed(e)
            case Got(d, used) =>
              && ReadData(old(dec.Rest()), w).Got? && ReadData(old(dec.Rest()), w).used == used <= |old(dec.Rest())|
              && dec.Rest() == old(dec.Rest())[used..]
              && SameData(d, ReadData(old(dec.Rest()), w).value)
  {
    match w
    case Fixed64 =>
      var n := dec.Uint64();
      return match n case Failed(e) => Failed(e) case Got(v, used) => Got(Number(v), used);
    case Fixed8 =>
      var b := dec.Uint8();
      return match b case Failed(e) => Failed(e) case Got(v, used) => Got(Small(v), used);
    case Chunk =>
      var t := dec.Text();
      return match t case Failed(e) => Failed(e) case Got(v, used) => Got(Text(v), used);
    case List =>
      var l := dec.SkipList();
      return match l case Failed(e) => Failed(e) case Got(_, used) => Got(Items([]), used);
  }

  /** Lists are skipped, so their items are not kept. */
  predicate SameData(a: Data, b: Data) {
    a == b || (a.Items? && b.Items?)
  }

  /** `readRecord`. */
  method GatherFields(dec: Decoder) returns (r: Try<Gathered>)
    requires dec.Valid() && dec.fieldsRead == 0
    modifies dec
    ensures r == ReadRecord(old(dec.Rest()), dec.fieldCount as nat, NOTHING)
  {
    hide ReadData, NextTag, Apply;
    ghost var all, n := dec.Rest(), dec.fieldCount as nat;
    var g := NOTHING;
    while !dec.Done()
      invariant dec.Valid()
      invariant ReadRecord(all, n, NOTHING) == ReadRecord(dec.Rest(), n - dec.fieldsRead, g)
      decreases n - dec.fieldsRead
    {
      ghost var s := dec.Rest();
      var tag := dec.Next();
      if tag.Failed? {
        return Failure(Corrupt);
      }
      TagNeedsByte(s);
      var (id, w) := tag.value;
      var d := ReadField(dec, ReadAs(id, w));
      if d.Failed? {
        return Failure(Corrupt);
      }
      ItemsDropped(g, id, d.value, ReadData(s[1..], ReadAs(id, w)).value);
      var next := Apply(g, id, d.value);
      if next.Failure? {
        return Failure(next.error);
      }
      g := next.value;
    }
    return Success(g);
  }

  lemma TagNeedsByte(s: Bytes)
    ensures NextTag(s).Got? ==> s != []
  {
  }

  lemma ItemsDropped(g: Gathered, id: byte, a: Data, b: Data)
    requires SameData(a, b)
    ensures Apply(g, id, a) == Apply(g, id, b)
  {
  }

  method AssembleBody(k: Kind, fields: seq<Field>) returns (r: Try<Body>)
    requires ValidKind(k)
    ensures r == SetFields(EmptyBody(k), fields)
  {
    hide SetField;
    var b := EmptyBody(k);
    var i := 0;
    assert fields[0..] == fields;
    while i < |fields|
      invariant i <= |fields|
      invariant SetFields(EmptyBody(k), fields) == SetFields(b, fields[i..])
    {
      assert fields[i..][1..] == fields[i + 1..];
      var next := SetField(b, fields[i]);
      if next.Failure? {
        return Failure(next.error);
      }
      b := next.value;
      i := i + 1;
    }
    return Success(b);
  }

  /** `Decode`. */
  method DecodeEvent(value: Bytes, id: Bytes) returns (r: Try<Event>)
    ensures r == Decode(value, id)
  {
    hide ReadRecord, SetFields, EmptyBody;
    if |value| < 2 {
      return Failure(Corrupt);
    }
    var dec := new Decoder(value);
    if dec.version != SCHEMA_VERSION {
      return Failure(UnknownSchema);
    }
    assert dec.Rest() == value[2..];
    var gathered := GatherFields(dec);
    if gathered.Failure? {
      return Failure(gathered.error);
    }
    var g := gathered.value;
    if !ValidKind(g.kind) {
      return Failure(BadKind);
    }
    if id == [] {
      return Failure(NoID);
    }
    var body := AssembleBody(g.kind, g.payload);
    if body.Failure? {
      return Failure(body.error);
    }
    return Success(Event(if body.value.Link? then [] else id, g.hdr, body.value));
  }

  // ---------- a record as a list of fields ----------

  /** Fields as an encoder writes them: header fields of their own types. */
  predicate WellTyped(f: Field) {
    f.id <= MAX_FIELD_ID && Encodable(f.data) && ReadAs(f.id, WireOf(f.data)) == WireOf(f.data)
  }

  function ApplyAll(g: Gathered, fields: seq<Field>): Try<Gathered>
    decreases |fields|
  {
    if fields == [] then Success(g) else
    match Apply(g, fields[0].id, fields[0].data)
    case Failure(e) => Failure(e)
    case Success(g') => ApplyAll(g', fields[1..])
  }

  lemma TagReads(f: Field, rest: Bytes)
    requires f.id <= MAX_FIELD_ID
    ensures NextTag(FieldBytes(f) + rest) == Got((f.id, WireOf(f.data)), 1)
  {
    var tag := MakeTag(f.id, WireOf(f.data));
    assert (FieldBytes(f) + rest)[0] == tag;
    assert tag / 8 == f.id && tag % 8 == WireCode(WireOf(f.data));
  }

  lemma ReadOneField(f: Field, rest: Bytes)
    requires WellTyped(f)
    ensures var s := FieldBytes(f) + rest;
            && NextTag(s) == Got((f.id, WireOf(f.data)), 1) && |s| >= 1
            && ReadData(s[1..], ReadAs(f.id, WireOf(f.data))) == Got(f.data, |DataBytes(f.data)|)
            && |DataBytes(f.data)| <= |s| - 1
            && s[1..][|DataBytes(f.data)|..] == rest
  {
    hide ReadData, DataBytes, NextTag, FieldBytes;
    TagReads(f, rest);
    ReadDataInverts(f.data, rest);
    AfterTag(f, rest);
  }

  lemma AfterTag(f: Field, rest: Bytes)
    requires f.id <= MAX_FIELD_ID
    ensures var s := FieldBytes(f) + rest;
            && |s| == 1 + |DataBytes(f.data)| + |rest| && s[1..] == DataBytes(f.data) + rest
            && s[1..][|DataBytes(f.data)|..] == rest
  {
    hide DataBytes;
  }

  predicate AllWellTyped(fields: seq<Field>) {
    forall f :: f in fields ==> WellTyped(f)
  }

  /** Decoding a written record applies its fields one after the other. */
  lemma {:induction false} ReadRecordInverts(fields: seq<Field>, g: Gathered)
    requires AllWellTyped(fields)
    ensures SmallIds(fields) && ReadRecord(FieldsBytes(fields), |fields|, g) == ApplyAll(g, fields)
    decreases |fields|
  {
    hide ReadData, DataBytes, FieldBytes, NextTag, Apply, MakeTag, FieldsBytes, WellTyped, SmallIds, AllWellTyped;
    AllSmall(fields);
    if fields == [] {
      NothingToRead();
    } else {
      FirstField(fields);
      match Apply(g, fields[0].id, fields[0].data)
      case Failure(_) =>
      case Success(g') =>
        ReadRecordInverts(fields[1..], g');
    }
  }

  lemma NothingToRead()
    ensures FieldsBytes([]) == []
  {
  }

  lemma AllSmall(fields: seq<Field>)
    requires AllWellTyped(fields)
    ensures SmallIds(fields)
  {
    assert forall f :: f in fields ==> WellTyped(f) && f.id <= MAX_FIELD_ID;
  }

  /** What the decoder finds at the front of a record. */
  lemma FirstField(fields: seq<Field>)
    requires AllWellTyped(fields) && fields != []
    ensures AllWellTyped(fields[1..]) && SmallIds(fields) && SmallIds(fields[1..])
    ensures var f, s := fields[0], FieldsBytes(fields);
            && NextTag(s) == Got((f.id, WireOf(f.data)), 1) && |s| >= 1
            && ReadData(s[1..], ReadAs(f.id, WireOf(f.data))) == Got(f.data, |DataBytes(f.data)|)
            && |DataBytes(f.data)| <= |s| - 1
            && s[1..][|DataBytes(f.data)|..] == FieldsBytes(fields[1..])
  {
    AllSmall(fields);
    AllSmall(fields[1..]);
    ReadOneField(fields[0], FieldsBytes(fields[1..]));
    hide ReadData, DataBytes, FieldBytes, NextTag, MakeTag, WellTyped;
  }

  // ---------- the round trip ----------

  /** An event whose numbers and lengths fit their types and whose enumerations
      are valid or unset. */
  predicate Storable(e: Event) {
    && e.hdr.version < ID_LIMIT && |e.hdr.supersedes| < ID_LIMIT
    && (e.hdr.lifecycle == UNSET || ValidEnum(e.hdr.lifecycle))
    && EventID(e) != [] && (e.body.Link? ==> e.name == [])
    && match e.body
       case Entity(t, p, n, h) => |t| < ID_LIMIT && |p| < ID_LIMIT && |n| < ID_LIMIT && |h| < ID_LIMIT
       case Decision(t, b, sev, sc, src) =>
         && |t| < ID_LIMIT && |b| < ID_LIMIT && |src| < ID_LIMIT
         && (sev == 0 || ValidEnum(sev)) && (sc == 0 || ValidEnum(sc))
       case Link(s, ed, d) => |s| < ID_LIMIT && |ed| < ID_LIMIT && |d| < ID_LIMIT
       case Observation(a, s) => |a| < ID_LIMIT && |s| < ID_LIMIT
       case Outcome(t, s) => |t| < ID_LIMIT && |s| < ID_LIMIT
  }

  /** What an event reads back as: its creation time goes through a 64-bit
      word, in which the epoch stands for the zero time. */
  function ReadBack(e: Event): Event {
    e.(hdr := e.hdr.(createdAt := WordTime(TimeWord(e.hdr.createdAt))))
  }

  /** Times survive exactly in 64 bits, except the epoch itself, which reads back
      as the zero time, 719,162 days before it. */
  lemma TimesSurvive(t: Time)
    ensures WordTime(TimeWord(t)) == t <==> -0x8000_0000_0000_0000 <= t < 0x8000_0000_0000_0000 && t != 0
    ensures WordTime(TimeWord(0)) == -719_162 * 86_400 * 1_000_000_000
  {
    var q, n := t / ID_LIMIT, TimeWord(t);
    assert t == q * ID_LIMIT + n;
  }

  lemma {:induction false} ApplyAllConcat(g: Gathered, a: seq<Field>, b: seq<Field>)
    ensures ApplyAll(g, a + b) ==
            match ApplyAll(g, a) case Failure(e) => Failure(e) case Success(g') => ApplyAll(g', b)
    decreases |a|
  {
    hide Apply;
    if a == [] {
      assert a + b == b;
    } else {
      assert (a + b)[1..] == a[1..] + b;
      match Apply(g, a[0].id, a[0].data)
      case Failure(_) =>
      case Success(g') => ApplyAllConcat(g', a[1..], b);
    }
  }

  lemma ApplyOne(g: Gathered, f: Field)
    ensures ApplyAll(g, [f]) == Apply(g, f.id, f.data)
  {
    hide Apply;
    assert [f][1..] == [];
  }

  lemma HeaderApplies(hdr: Header, k: Kind)
    requires ValidKind(k) && (hdr.lifecycle == UNSET || ValidEnum(hdr.lifecycle))
    ensures ApplyAll(NOTHING, HeaderFields(hdr, k)) ==
            Success(Gathered(hdr.(createdAt := WordTime(TimeWord(hdr.createdAt))), k, []))
  {
    var f1, f2, f4 := Field(1, Number(hdr.version)), Field(2, Number(TimeWord(hdr.createdAt))), Field(4, Small(k as byte));
    var t := WordTime(TimeWord(hdr.createdAt));
    hide WordTime, TimeWord;
    var g2 := Gathered(Header(hdr.version, t, [], UNSET), 0, []);
    var g3 := Gathered(Header(hdr.version, t, hdr.supersedes, UNSET), 0, []);
    var g4 := Gathered(Header(hdr.version, t, hdr.supersedes, UNSET), k, []);
    assert [f1, f2] == [f1] + [f2];
    ApplyAllConcat(NOTHING, [f1], [f2]);
    ApplyOne(NOTHING, f1);
    ApplyOne(NOTHING.(hdr := NOTHING.hdr.(version := hdr.version)), f2);
    assert ApplyAll(NOTHING, [f1, f2]) == Success(g2);
    ApplyAllConcat(NOTHING, [f1, f2], TextField(3, hdr.supersedes));
    ApplyOne(g2, Field(3, Text(hdr.supersedes)));
    assert ApplyAll(g2, TextField(3, hdr.supersedes)) == Success(g3);
    ApplyAllConcat(NOTHING, [f1, f2] + TextField(3, hdr.supersedes), [f4]);
    ApplyOne(g3, f4);
    ApplyAllConcat(NOTHING, [f1, f2] + TextField(3, hdr.supersedes) + [f4], SmallField(5, hdr.lifecycle));
    ApplyOne(g4, Field(5, Small(hdr.lifecycle)));
  }

  predicate PayloadOnly(fields: seq<Field>) {
    forall f :: f in fields ==> !IsHeader(f.id) && !f.data.Items?
  }

  lemma {:induction false} PayloadGathers(g: Gathered, fields: seq<Field>)
    requires PayloadOnly(fields)
    ensures ApplyAll(g, fields) == Success(g.(payload := g.payload + fields))
    decreases |fields|
  {
    if fields == [] {
      assert g.payload + [] == g.payload;
    } else {
      var f := fields[0];
      assert f in fields && PayloadOnly(fields[1..]);
      assert Apply(g, f.id, f.data) == Success(g.(payload := g.payload + [f]));
      PayloadGathers(g.(payload := g.payload + [f]), fields[1..]);
      assert g.payload + [f] + fields[1..] == g.payload + fields;
    }
  }

  lemma {:induction false} SetFieldsConcat(b: Body, x: seq<Field>, y: seq<Field>)
    ensures SetFields(b, x + y) == match SetFields(b, x) case Failure(e) => Failure(e) case Success(b') => SetFields(b', y)
    decreases |x|
  {
    hide SetField;
    if x == [] {
      assert x + y == y;
    } else {
      assert (x + y)[1..] == x[1..] + y;
      match SetField(b, x[0])
      case Failure(_) =>
      case Success(b') => SetFieldsConcat(b', x[1..], y);
    }
  }

  /** A text or enumeration field that is there, or left out because it is
      empty, sets its part of the body. */
  lemma SetText(b: Body, rest: seq<Field>, id: byte, t: Bytes, b': Body)
    requires SetField(b, Field(id, Text(t))) == Success(b') && (t == [] ==> b' == b)
    ensures SetFields(b, TextField(id, t) + rest) == SetFields(b', rest)
  {
    hide SetField;
    if t == [] {
      assert [] + rest == rest;
    } else {
      assert ([Field(id, Text(t))] + rest)[1..] == rest;
    }
  }

  lemma SetSmall(b: Body, rest: seq<Field>, id: byte, v: byte, b': Body)
    requires v != 0 ==> SetField(b, Field(id, Small(v))) == Success(b')
    requires v == 0 ==> b' == b
    ensures SetFields(b, SmallField(id, v) + rest) == SetFields(b', rest)
  {
    hide SetField;
    if v == 0 {
      assert [] + rest == rest;
    } else {
      assert ([Field(id, Small(v))] + rest)[1..] == rest;
    }
  }

  lemma NoMoreFields(b: Body)
    ensures SetFields(b, []) == Success(b)
  {
  }

  lemma EntitySets(t: Bytes, p: Bytes, n: Bytes, h: Bytes)
    ensures SetFields(EmptyBody(ENTITY), PayloadFields(Entity(t, p, n, h))) == Success(Entity(t, p, n, h))
  {
    hide SetFields;
    var a, b, c, d := TextField(10, t), TextField(11, p), TextField(12, n), TextField(13, h);
    SetText(Entity([], [], [], []), b + c + d, 10, t, Entity(t, [], [], []));
    SetText(Entity(t, [], [], []), c + d, 11, p, Entity(t, p, [], []));
    SetText(Entity(t, p, [], []), d, 12, n, Entity(t, p, n, []));
    SetText(Entity(t, p, n, []), [], 13, h, Entity(t, p, n, h));
    NoMoreFields(Entity(t, p, n, h));
    hide TextField;
    assert a + b + c + d == a + (b + c + d) && b + c + d == b + (c + d) && d + [] == d;
  }

  lemma DecisionSets(t: Bytes, body: Bytes, sev: byte, sc: byte, src: Bytes)
    requires (sev == 0 || ValidEnum(sev)) && (sc == 0 || ValidEnum(sc))
    ensures SetFields(EmptyBody(DECISION), PayloadFields(Decision(t, body, sev, sc, src))) == Success(Decision(t, body, sev, sc, src))
  {
    DecisionFields(t, body, sev, sc, src);
    SetsDecision(t, body, sev, sc, src);
    hide SetFields, TextField, SmallField, SetField;
    var a, b, c, d, e := TextField(15, t), TextField(16, body), SmallField(17, sev), SmallField(18, sc), TextField(19, src);
    SetText(Decision([], [], 0, 0, []), b + (c + (d + (e + []))), 15, t, Decision(t, [], 0, 0, []));
    SetText(Decision(t, [], 0, 0, []), c + (d + (e + [])), 16, body, Decision(t, body, 0, 0, []));
    SetSmall(Decision(t, body, 0, 0, []), d + (e + []), 17, sev, Decision(t, body, sev, 0, []));
    SetSmall(Decision(t, body, sev, 0, []), e + [], 18, sc, Decision(t, body, sev, sc, []));
    SetText(Decision(t, body, sev, sc, []), [], 19, src, Decision(t, body, sev, sc, src));
    NoMoreFields(Decision(t, body, sev, sc, src));
  }

  lemma DecisionFields(t: Bytes, body: Bytes, sev: byte, sc: byte, src: Bytes)
    ensures EmptyBody(DECISION) == Decision([], [], 0, 0, [])
    ensures PayloadFields(Decision(t, body, sev, sc, src)) ==
            TextField(15, t) + (TextField(16, body) + (SmallField(17, sev) + (SmallField(18, sc) + (TextField(19, src) + []))))
  {
    hide TextField, SmallField;
  }

  lemma SetsDecision(t: Bytes, body: Bytes, sev: byte, sc: byte, src: Bytes)
    requires (sev == 0 || ValidEnum(sev)) && (sc == 0 || ValidEnum(sc))
    ensures SetField(Decision([], [], 0, 0, []), Field(15, Text(t))) == Success(Decision(t, [], 0, 0, []))
    ensures SetField(Decision(t, [], 0, 0, []), Field(16, Text(body))) == Success(Decision(t, body, 0, 0, []))
    ensures sev != 0 ==> SetField(Decision(t, body, 0, 0, []), Field(17, Small(sev))) == Success(Decision(t, body, sev, 0, []))
    ensures sc != 0 ==> SetField(Decision(t, body, sev, 0, []), Field(18, Small(sc))) == Success(Decision(t, body, sev, sc, []))
    ensures SetField(Decision(t, body, sev, sc, []), Field(19, Text(src))) == Success(Decision(t, body, sev, sc, src))
  {
  }

  lemma LinkSets(s: Bytes, ed: Bytes, d: Bytes)
    ensures SetFields(EmptyBody(LINK), PayloadFields(Link(s, ed, d))) == Success(Link(s, ed, d))
  {
    hide SetFields;
    var x, y, z := TextField(20, s), TextField(21, ed), TextField(22, d);
    SetText(Link([], [], []), y + z, 20, s, Link(s, [], []));
    SetText(Link(s, [], []), z, 21, ed, Link(s, ed, []));
    SetText(Link(s, ed, []), [], 22, d, Link(s, ed, d));
    NoMoreFields(Link(s, ed, d));
    hide TextField;
    assert x + y + z == x + (y + z) && z + [] == z;
  }

  lemma ObservationSets(a: Bytes, s: Bytes)
    ensures SetFields(EmptyBody(OBSERVATION), PayloadFields(Observation(a, s))) == Success(Observation(a, s))
  {
    SetText(Observation([], []), TextField(26, s), 25, a, Observation(a, []));
    SetText(Observation(a, []), [], 26, s, Observation(a, s));
    assert TextField(26, s) + [] == TextField(26, s);
  }

  lemma OutcomeSets(t: Bytes, s: Bytes)
    ensures SetFields(EmptyBody(OUTCOME), PayloadFields(Outcome(t, s))) == Success(Outcome(t, s))
  {
    SetText(Outcome([], []), TextField(29, s), 28, t, Outcome(t, []));
    SetText(Outcome(t, []), [], 29, s, Outcome(t, s));
    assert TextField(29, s) + [] == TextField(29, s);
  }

  lemma BodySets(e: Event)
    requires Storable(e)
    ensures SetFields(EmptyBody(KindOf(e.body)), PayloadFields(e.body)) == Success(e.body)
  {
    hide SetFields, PayloadFields, EmptyBody;
    match e.body
    case Entity(t, p, n, h) => EntitySets(t, p, n, h);
    case Decision(t, b, sev, sc, src) => DecisionSets(t, b, sev, sc, src);
    case Link(s, ed, d) => LinkSets(s, ed, d);
    case Observation(a, s) => ObservationSets(a, s);
    case Outcome(t, s) => OutcomeSets(t, s);
  }

  lemma EventFieldsTyped(e: Event)
    requires Storable(e)
    ensures AllWellTyped(EventFields(e)) && PayloadOnly(PayloadFields(e.body))
  {
    hide EventID, LinkID;
    forall f | f in HeaderFields(e.hdr, KindOf(e.body)) ensures WellTyped(f) {
    }
    PayloadTyped(e);
  }

  predicate PayloadOk(fields: seq<Field>) {
    forall f :: f in fields ==> WellTyped(f) && !IsHeader(f.id) && !f.data.Items?
  }

  lemma TextOk(id: byte, s: Bytes)
    requires 5 < id <= MAX_FIELD_ID && |s| < ID_LIMIT
    ensures PayloadOk(TextField(id, s))
  {
  }

  lemma SmallOk(id: byte, b: byte)
    requires 5 < id <= MAX_FIELD_ID
    ensures PayloadOk(SmallField(id, b))
  {
  }

  lemma PayloadTyped(e: Event)
    requires Storable(e)
    ensures PayloadOk(PayloadFields(e.body))
  {
    hide EventID, LinkID, TextField, SmallField, WellTyped;
    match e.body
    case Entity(t, p, n, h) =>
      TextOk(10, t);
      TextOk(11, p);
      TextOk(12, n);
      TextOk(13, h);
    case Decision(t, b, sev, sc, src) =>
      TextOk(15, t);
      TextOk(16, b);
      SmallOk(17, sev);
      SmallOk(18, sc);
      TextOk(19, src);
    case Link(s, ed, d) =>
      TextOk(20, s);
      TextOk(21, ed);
      TextOk(22, d);
    case Observation(a, s) =>
      TextOk(25, a);
      TextOk(26, s);
    case Outcome(t, s) =>
      TextOk(28, t);
      TextOk(29, s);
  }

  /** Decoding an encoded event gives the event back, but for the creation time
      as 64 bits hold it. */
  lemma DecodeInverts(e: Event)
    requires Storable(e)
    ensures Encode(e).Success?
    ensures Decode(Encode(e).value, EventID(e)) == Success(ReadBack(e))
  {
    var fields, g := EventFields(e), Gathered(ReadBack(e).hdr, KindOf(e.body), []);
    EventFieldsTyped(e);
    ReadRecordInverts(fields, NOTHING);
    ApplyAllConcat(NOTHING, HeaderFields(e.hdr, KindOf(e.body)), PayloadFields(e.body));
    HeaderApplies(e.hdr, KindOf(e.body));
    PayloadGathers(g, PayloadFields(e.body));
    assert [] + PayloadFields(e.body) == PayloadFields(e.body);
    BodySets(e);
    hide ReadRecord, ApplyAll, SetFields, PayloadFields, HeaderFields, FieldsBytes, EmptyBody, AllWellTyped, PayloadOnly, LinkID;
    var value := Encode(e).value;
    assert value[2..] == FieldsBytes(fields) && value[1] as nat == |fields|;
  }

  // ---------- unknown fields ----------

  /** Field ids that a payload of kind `k` does not know. */
  predicate Unknown(id: byte, k: Kind) {
    && !IsHeader(id)
    && (k == ENTITY ==> !(10 <= id <= 13)) && (k == DECISION ==> !(15 <= id <= 19)) && (k == LINK ==> !(20 <= id <= 22))
    && (k == OBSERVATION ==> !(25 <= id <= 26)) && (k == OUTCOME ==> !(28 <= id <= 29))
  }

  /** A record of written fields. */
  function RecordOf(fields: seq<Field>): Bytes
    requires SmallIds(fields) && |fields| < 256
  {
    [SCHEMA_VERSION, |fields| as byte] + FieldsBytes(fields)
  }

  lemma DecodeRecord(fields: seq<Field>, id: Bytes)
    requires AllWellTyped(fields) && |fields| < 256
    ensures SmallIds(fields)
    ensures Decode(RecordOf(fields), id) ==
            match ApplyAll(NOTHING, fields) case Failure(e) => Failure(e) case Success(g) => Assemble(g, id)
  {
    ReadRecordInverts(fields, NOTHING);
    hide ReadRecord, ApplyAll, Assemble, FieldsBytes;
    assert RecordOf(fields)[2..] == FieldsBytes(fields);
  }

  lemma {:induction false} SetFieldsKeepKind(b: Body, fields: seq<Field>)
    ensures SetFields(b, fields).Success? ==> KindOf(SetFields(b, fields).value) == KindOf(b)
    decreases |fields|
  {
    if fields != [] && SetField(b, fields[0]).Success? {
      SetFieldsKeepKind(SetField(b, fields[0]).value, fields[1..]);
    }
  }

  lemma UnknownSetsNothing(k: Kind, x: seq<Field>, u: Field, y: seq<Field>)
    requires ValidKind(k) && Unknown(u.id, k)
    ensures SetFields(EmptyBody(k), x + [u] + y) == SetFields(EmptyBody(k), x + y)
  {
    var b := EmptyBody(k);
    SetFieldsConcat(b, x + [u], y);
    SetFieldsConcat(b, x, [u]);
    SetFieldsConcat(b, x, y);
    SetFieldsKeepKind(b, x);
    assert [u][1..] == [];
    hide EmptyBody;
    assert forall b' :: KindOf(b') == k ==> SetField(b', u) == Success(b') && SetFields(b', [u]) == Success(b');
  }

  /** What gathering gives when the payload so far has one field more. */
  lemma {:induction false} GatherMore(g: Gathered, x: seq<Field>, u: Field, y: seq<Field>, fields: seq<Field>)
    requires g.payload == x + y
    ensures ApplyAll(g, fields).Failure? ==> ApplyAll(g.(payload := x + [u] + y), fields) == ApplyAll(g, fields)
    ensures ApplyAll(g, fields).Success? ==>
              var r := ApplyAll(g, fields).value;
              exists z :: r.payload == x + z && ApplyAll(g.(payload := x + [u] + y), fields) == Success(r.(payload := x + [u] + z))
    decreases |fields|
  {
    if fields == [] {
      assert ApplyAll(g, fields) == Success(g);
    } else {
      var f := fields[0];
      match Apply(g, f.id, f.data)
      case Failure(_) =>
      case Success(g') =>
        var y' := if g'.payload == g.payload then y else y + [g'.payload[|g.payload|]];
        assert g'.payload == x + y' by {
          if g'.payload != g.payload {
            assert x + (y + [g'.payload[|g.payload|]]) == x + y + [g'.payload[|g.payload|]];
          }
        }
        assert x + [u] + (y + [f]) == x + [u] + y + [f];
        assert x + [u] + (y + [Field(f.id, Items([]))]) == x + [u] + y + [Field(f.id, Items([]))];
        assert Apply(g.(payload := x + [u] + y), f.id, f.data) == Success(g'.(payload := x + [u] + y'));
        GatherMore(g', x, u, y', fields[1..]);
    }
  }

  /** A payload field that the event's kind does not know changes nothing,
      wherever it stands in the record and whatever its type. */
  lemma UnknownFieldsAreSkipped(a: seq<Field>, u: Field, b: seq<Field>, id: Bytes)
    requires AllWellTyped(a + [u] + b) && |a| + |b| < 255
    requires match ApplyAll(NOTHING, a + b)
             case Failure(_) => !IsHeader(u.id)
             case Success(g) => Unknown(u.id, g.kind)
    ensures AllWellTyped(a + b) && SmallIds(a + b) && SmallIds(a + [u] + b)
    ensures Decode(RecordOf(a + [u] + b), id) == Decode(RecordOf(a + b), id)
  {
    AllTypedWithout(a, u, b);
    assert |a + [u] + b| < 256 && |a + b| < 256;
    hide *;
    DecodeRecord(a + [u] + b, id);
    DecodeRecord(a + b, id);
    UnknownGathers(a, u, b, id);
  }

  lemma UnknownGathers(a: seq<Field>, u: Field, b: seq<Field>, id: Bytes)
    requires match ApplyAll(NOTHING, a + b)
             case Failure(_) => !IsHeader(u.id)
             case Success(g) => Unknown(u.id, g.kind)
    ensures match ApplyAll(NOTHING, a + b)
            case Failure(e) => ApplyAll(NOTHING, a + [u] + b) == Failure(e)
            case Success(r) =>
              && ApplyAll(NOTHING, a + [u] + b).Success?
              && Assemble(ApplyAll(NOTHING, a + [u] + b).value, id) == Assemble(r, id)
  {
    hide *;
    ApplyAllConcat(NOTHING, a, b);
    ApplyAllConcat(NOTHING, a, [u] + b);
    assert a + [u] + b == a + ([u] + b);
    match ApplyAll(NOTHING, a)
    case Failure(_) =>
    case Success(g) =>
      SkipsOne(g, u, b, id);
  }

  lemma AllTypedWithout(a: seq<Field>, u: Field, b: seq<Field>)
    requires AllWellTyped(a + [u] + b)
    ensures AllWellTyped(a + b)
  {
    hide WellTyped;
    assert forall f :: f in a + b ==> f in a + [u] + b;
  }

  lemma SkipsOne(g: Gathered, u: Field, b: seq<Field>, id: Bytes)
    requires match ApplyAll(g, b)
             case Failure(_) => !IsHeader(u.id)
             case Success(g) => Unknown(u.id, g.kind)
    ensures match ApplyAll(g, b)
            case Failure(e) => ApplyAll(g, [u] + b) == Failure(e)
            case Success(r) =>
              && ApplyAll(g, [u] + b).Success?
              && Assemble(ApplyAll(g, [u] + b).value, id) == Assemble(r, id)
  {
    var v := if u.data.Items? then Field(u.id, Items([])) else u;
    assert Apply(g, u.id, u.data) == Success(g.(payload := g.payload + [v]));
    assert ([u] + b)[1..] == b;
    assert ApplyAll(g, [u] + b) == ApplyAll(g.(payload := g.payload + [v]), b);
    assert g.payload + [] == g.payload && g.payload + [v] + [] == g.payload + [v];
    GatherMore(g, g.payload, v, [], b);
    match ApplyAll(g, b)
    case Failure(_) =>
    case Success(r) =>
      var z :| r.payload == g.payload + z &&
               ApplyAll(g.(payload := g.payload + [v]), b) == Success(r.(payload := g.payload + [v] + z));
      if ValidKind(r.kind) {
        UnknownSetsNothing(r.kind, g.payload, v, z);
      }
  }
}
