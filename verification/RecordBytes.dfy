/** The bytes of event records, in numbers, and records cut short. */
module RecordBytes {
  import opened Bytes
  import opened PageKeys
  import opened Keys
  import opened Record
  import opened Codec

  // ---------- variable-length numbers ----------

  /** Byte `i` of a number's LEB128 form holds bits 7i to 7i + 6, and every byte
      but the last has its top bit set. */
  lemma {:induction false} UvarintBytes(n: nat, i: nat)
    requires i < |Uvarint(n)|
    ensures Uvarint(n)[i] as nat == n / Pow128(i) % 128 + if i + 1 < |Uvarint(n)| then 128 else 0
    decreases n
  {
    UvarintStep(n);
    PowerStep(i);
    hide Uvarint, Pow128;
    if n >= 128 && i > 0 {
      UvarintBytes(n / 128, i - 1);
      DivTwice(n, Pow128(i - 1));
    }
  }

  /** There are no more bytes than needed. */
  lemma {:induction false} UvarintLength(n: nat)
    ensures n < Pow128(|Uvarint(n)|) && (n > 0 ==> n >= Pow128(|Uvarint(n)| - 1))
    decreases n
  {
    UvarintStep(n);
    PowerStep(|Uvarint(n)|);
    PowerStep(|Uvarint(n)| - 1);
    hide Uvarint, Pow128;
    if n >= 128 {
      UvarintLength(n / 128);
    }
  }

  lemma UvarintStep(n: nat)
    ensures n < 128 ==> Uvarint(n) == [n as byte]
    ensures n >= 128 ==> Uvarint(n) == [(n % 128 + 128) as byte] + Uvarint(n / 128)
  {
  }

  lemma PowerStep(k: nat)
    ensures Pow128(0) == 1 && (k > 0 ==> Pow128(k) == 128 * Pow128(k - 1))
  {
  }

  lemma DivTwice(n: nat, p: nat)
    requires p > 0
    ensures n / 128 / p == n / (128 * p)
  {
    var a, r := n / 128, n % 128;
    var q, s := a / p, a % p;
    assert n == 128 * (q * p + s) + r;
    assert n == (128 * p) * q + (128 * s + r);
    SameQuotient(n / (128 * p), n % (128 * p), q, 128 * s + r, 128 * p);
  }

  /** The number that groups of seven bits stand for, low ones first. */
  function Groups(s: Bytes): nat {
    if s == [] then 0 else s[0] as nat % 128 + 128 * Groups(s[1..])
  }

  /** What `ReadUvarint` makes of any bytes, when `t` of them come before the
      first one below 128: a number ends with byte ten at the latest, which is 0
      or 1 then. */
  lemma ReadUvarintIs(s: Bytes, t: nat)
    requires t <= |s| && (forall i :: 0 <= i < t ==> s[i] >= 128) && (t < |s| ==> s[t] < 128)
    ensures ReadUvarint(s) ==
            if t == |s| <= 10 then Failed(UnexpectedEOF)
            else if t > 9 || (t == 9 && s[9] > 1) then Failed(VarintOverflow)
            else Got(Groups(s[..t + 1]), t + 1)
  {
    ReadGroups(s, t, 0);
  }

  lemma {:induction false} ReadGroups(s: Bytes, t: nat, at: nat)
    requires t <= |s| && (forall i :: 0 <= i < t ==> s[i] >= 128) && (t < |s| ==> s[t] < 128) && at <= 10
    ensures ReadUvarintFrom(s, at) ==
            if t == |s| <= 10 - at then Failed(UnexpectedEOF)
            else if t + at > 9 || (t + at == 9 && s[t] > 1) then Failed(VarintOverflow)
            else Got(Groups(s[..t + 1]), t + 1)
    decreases t
  {
    if t > 0 && at < 10 {
      ReadGroups(s[1..], t - 1, at + 1);
      if t < |s| {
        assert s[..t + 1][1..] == s[1..][..t];
      }
    } else if t == 0 && s != [] {
      assert s[..1][1..] == [];
    }
  }

  // ---------- events ----------

  /** A text field: its tag, eight times the field's id and one, then the length
      and the bytes; nothing for an empty one. */
  function TextBytes(tag: byte, s: Bytes): Bytes {
    if s == [] then [] else [tag] + Uvarint(|s|) + s
  }

  /** A field of one byte, whose tag is eight times the id and two; nothing for
      a 0. */
  function SmallBytes(tag: byte, b: byte): Bytes {
    if b == 0 then [] else [tag, b]
  }

  /** The payload of each kind of event. */
  function BodyBytes(b: Body): Bytes {
    match b
    case Entity(t, p, n, h) => TextBytes(81, t) + TextBytes(89, p) + TextBytes(97, n) + TextBytes(105, h)
    case Decision(t, b, sev, sc, src) =>
      TextBytes(121, t) + TextBytes(129, b) + SmallBytes(138, sev) + SmallBytes(146, sc) + TextBytes(153, src)
    case Link(s, e, d) => TextBytes(161, s) + TextBytes(169, e) + TextBytes(177, d)
    case Observation(a, s) => TextBytes(201, a) + TextBytes(209, s)
    case Outcome(t, s) => TextBytes(225, t) + TextBytes(233, s)
  }

  /** The number of a kind: 1 to 5 for entities, decisions, observations,
      outcomes and links. */
  function KindNumber(b: Body): byte {
    match b
    case Entity(_, _, _, _) => 1
    case Decision(_, _, _, _, _) => 2
    case Observation(_, _) => 3
    case Outcome(_, _) => 4
    case Link(_, _, _) => 5
  }

  lemma TextLayout(id: byte, s: Bytes)
    requires id <= 31
    ensures SmallIds(TextField(id, s)) && FieldsBytes(TextField(id, s)) == TextBytes(8 * id + 1, s)
  {
    if s != [] {
      OneField(Field(id, Text(s)));
    }
  }

  lemma SmallLayout(id: byte, b: byte)
    requires id <= 31
    ensures SmallIds(SmallField(id, b)) && FieldsBytes(SmallField(id, b)) == SmallBytes(8 * id + 2, b)
  {
    if b != 0 {
      OneField(Field(id, Small(b)));
    }
  }

  lemma OneField(f: Field)
    requires f.id <= 31
    ensures SmallIds([f]) && FieldsBytes([f]) == FieldBytes(f)
  {
    assert [f][1..] == [];
    assert FieldBytes(f) + [] == FieldBytes(f);
    hide FieldBytes;
  }

  /** What `Encode` writes: schema version 1, the number of fields, the version
      and the time in eight bytes each, the key superseded, the kind and the
      lifecycle, and the payload. */
  lemma EventBytes(e: Event)
    requires Encode(e).Success?
    ensures var fields := EventFields(e);
            Encode(e).value ==
            [1, |fields| as byte] + [8] + LittleEndian(e.hdr.version, 8) +
            [16] + LittleEndian(e.hdr.createdAt % 0x1_0000_0000_0000_0000, 8) + TextBytes(25, e.hdr.supersedes) +
            [34, KindNumber(e.body)] + SmallBytes(42, e.hdr.lifecycle) + BodyBytes(e.body)
  {
    hide *;
    BodyLayout(e.body);
    HeaderLayout(e.hdr, KindOf(e.body), KindNumber(e.body));
    EncodeIs(e);
    var f := HeaderFields(e.hdr, KindOf(e.body));
    FieldsConcat(f, PayloadFields(e.body));
    var c := [1, |EventFields(e)| as byte];
    var n, t, s, k := LittleEndian(e.hdr.version, 8), LittleEndian(e.hdr.createdAt % 0x1_0000_0000_0000_0000, 8),
                      TextBytes(25, e.hdr.supersedes), SmallBytes(42, e.hdr.lifecycle);
    assert c + (([8] + n + [16] + t + s + [34, KindNumber(e.body)] + k) + BodyBytes(e.body)) ==
           c + [8] + n + [16] + t + s + [34, KindNumber(e.body)] + k + BodyBytes(e.body);
  }

  lemma EncodeIs(e: Event)
    requires Encode(e).Success?
    ensures SmallIds(EventFields(e)) && |EventFields(e)| < 256
    ensures EventFields(e) == HeaderFields(e.hdr, KindOf(e.body)) + PayloadFields(e.body)
    ensures Encode(e).value == [1, |EventFields(e)| as byte] + FieldsBytes(EventFields(e))
  {
    hide HeaderFields, PayloadFields, FieldsBytes, EventID;
  }

  lemma Joined(a: seq<Field>, b: seq<Field>)
    requires SmallIds(a) && SmallIds(b)
    ensures SmallIds(a + b) && FieldsBytes(a + b) == FieldsBytes(a) + FieldsBytes(b)
  {
    FieldsConcat(a, b);
  }

  lemma HeaderLayout(hdr: Header, k: Kind, number: byte)
    requires number == k as byte
    ensures SmallIds(HeaderFields(hdr, k))
    ensures FieldsBytes(HeaderFields(hdr, k)) ==
            [8] + LittleEndian(hdr.version, 8) + [16] + LittleEndian(hdr.createdAt % 0x1_0000_0000_0000_0000, 8) +
            TextBytes(25, hdr.supersedes) + [34, number] + SmallBytes(42, hdr.lifecycle)
  {
    hide *;
    HeaderIs(hdr, k);
    TimeIs(hdr.createdAt);
    NumberLayout(1, hdr.version);
    NumberLayout(2, TimeWord(hdr.createdAt));
    KindLayout(number);
    TextLayout(3, hdr.supersedes);
    SmallLayout(5, hdr.lifecycle);
    var a, b, c := [Field(1, Number(hdr.version))], [Field(2, Number(TimeWord(hdr.createdAt)))], TextField(3, hdr.supersedes);
    var d := [Field(4, Small(number))];
    Joined(a, b);
    Joined(a + b, c);
    Joined(a + b + c, d);
    Joined(a + b + c + d, SmallField(5, hdr.lifecycle));
    JoinedBytes([8] + LittleEndian(hdr.version, 8), [16], LittleEndian(TimeWord(hdr.createdAt), 8));
  }

  lemma JoinedBytes(a: Bytes, b: Bytes, c: Bytes)
    ensures a + (b + c) == a + b + c
  {
  }

  lemma KindLayout(number: byte)
    ensures SmallIds([Field(4, Small(number))]) && FieldsBytes([Field(4, Small(number))]) == [34, number]
  {
    OneField(Field(4, Small(number)));
  }

  lemma TimeIs(t: Time)
    ensures TimeWord(t) == t % 0x1_0000_0000_0000_0000
  {
  }

  lemma HeaderIs(hdr: Header, k: Kind)
    ensures HeaderFields(hdr, k) ==
            [Field(1, Number(hdr.version))] + [Field(2, Number(TimeWord(hdr.createdAt)))] + TextField(3, hdr.supersedes) +
            [Field(4, Small(k as byte))] + SmallField(5, hdr.lifecycle)
  {
    hide TextField, SmallField, TimeWord;
  }

  lemma NumberLayout(id: byte, n: nat)
    requires id <= 31
    ensures SmallIds([Field(id, Number(n))]) && FieldsBytes([Field(id, Number(n))]) == [8 * id] + LittleEndian(n, 8)
  {
    OneField(Field(id, Number(n)));
    hide LittleEndian;
  }

  lemma BodyLayout(b: Body)
    ensures SmallIds(PayloadFields(b)) && FieldsBytes(PayloadFields(b)) == BodyBytes(b)
    ensures KindNumber(b) == KindOf(b) as byte
  {
    hide TextField, SmallField, TextBytes, SmallBytes, FieldsBytes, SmallIds;
    match b
    case Entity(t, p, n, h) =>
      TextLayout(10, t);
      TextLayout(11, p);
      TextLayout(12, n);
      TextLayout(13, h);
      Joined(TextField(10, t), TextField(11, p));
      Joined(TextField(10, t) + TextField(11, p), TextField(12, n));
      Joined(TextField(10, t) + TextField(11, p) + TextField(12, n), TextField(13, h));
    case Decision(t, b, sev, sc, src) =>
      TextLayout(15, t);
      TextLayout(16, b);
      SmallLayout(17, sev);
      SmallLayout(18, sc);
      TextLayout(19, src);
      Joined(TextField(15, t), TextField(16, b));
      Joined(TextField(15, t) + TextField(16, b), SmallField(17, sev));
      Joined(TextField(15, t) + TextField(16, b) + SmallField(17, sev), SmallField(18, sc));
      Joined(TextField(15, t) + TextField(16, b) + SmallField(17, sev) + SmallField(18, sc), TextField(19, src));
    case Link(s, e, d) =>
      TextLayout(20, s);
      TextLayout(21, e);
      TextLayout(22, d);
      Joined(TextField(20, s), TextField(21, e));
      Joined(TextField(20, s) + TextField(21, e), TextField(22, d));
    case Observation(a, s) =>
      TextLayout(25, a);
      TextLayout(26, s);
      Joined(TextField(25, a), TextField(26, s));
    case Outcome(t, s) =>
      TextLayout(28, t);
      TextLayout(29, s);
      Joined(TextField(28, t), TextField(29, s));
  }

  /** The type in the tag of a header field does not matter: version and time
      are read as numbers, the key superseded as text, kind and lifecycle as one
      byte. */
  lemma HeaderTypes(id: byte, code: byte, d: Data, rest: Bytes, n: nat, g: Gathered)
    requires 1 <= id <= 5 && code <= 3 && Encodable(d)
    requires if id <= 2 then d.Number? else if id == 3 then d.Text? else d.Small?
    ensures ReadRecord([8 * id + code] + DataBytes(d) + rest, n + 1, g) ==
            if Apply(g, id, d).Failure? then Failure(Apply(g, id, d).error) else ReadRecord(rest, n, Apply(g, id, d).value)
  {
    var s := [8 * id + code] + DataBytes(d) + rest;
    var w := if code == 0 then Fixed64 else if code == 1 then Wire.Chunk else if code == 2 then Fixed8 else Wire.List;
    TagOf(s, id, code);
    assert NextTag(s) == Got((id, w), 1) && ReadAs(id, w) == WireOf(d);
    ReadDataInverts(d, rest);
    hide NextTag, ReadAs, ReadData, Apply, DataBytes;
    assert s[1..] == DataBytes(d) + rest && (DataBytes(d) + rest)[|DataBytes(d)|..] == rest;
  }

  lemma TagOf(s: Bytes, id: byte, code: byte)
    requires s != [] && id <= 31 && code <= 3 && s[0] == 8 * id + code
    ensures s[0] / 8 == id && s[0] % 8 == code
  {
  }

  // ---------- records cut short ----------

  lemma {:induction false} UvarintCut(n: nat, k: nat, at: nat)
    requires k < |Uvarint(n)| && at + |Uvarint(n)| <= 10
    ensures ReadUvarintFrom(Uvarint(n)[..k], at) == Failed(UnexpectedEOF)
    decreases n
  {
    if n >= 128 && k > 0 {
      UvarintCut(n / 128, k - 1, at + 1);
      assert Uvarint(n)[..k][1..] == Uvarint(n / 128)[..k - 1];
    }
  }

  lemma UvarintShort(n: nat)
    requires n < ID_LIMIT
    ensures |Uvarint(n)| <= 10
  {
    SixtyFourBits();
    UvarintLength(n);
    PowerStep(10);
    hide Uvarint, Pow128;
    if |Uvarint(n)| > 10 {
      PowersGrow(10, |Uvarint(n)| - 1);
    }
  }

  lemma {:induction false} PowersGrow(i: nat, j: nat)
    requires i <= j
    ensures Pow128(i) <= Pow128(j)
  {
    if i < j {
      PowersGrow(i, j - 1);
    }
  }

  /** A field's data cut short cannot be read. */
  lemma DataCut(d: Data, k: nat)
    requires Encodable(d) && !d.Items? && k < |DataBytes(d)|
    ensures ReadData(DataBytes(d)[..k], WireOf(d)).Failed?
  {
    match d
    case Number(_) =>
    case Small(_) =>
    case Text(s) =>
      ChunkCut(s, k);
    case Items(_) =>
  }

  lemma ChunkCut(s: Bytes, k: nat)
    requires |s| < ID_LIMIT && k < |ChunkBytes(s)|
    ensures ReadChunk(ChunkBytes(s)[..k]).Failed?
  {
    var u := Uvarint(|s|);
    UvarintShort(|s|);
    hide Uvarint, ReadUvarintFrom;
    if k < |u| {
      UvarintCut(|s|, k, 0);
      assert ChunkBytes(s)[..k] == u[..k];
    } else {
      UvarintReads(|s|, s[..k - |u|]);
      assert ChunkBytes(s)[..k] == u + s[..k - |u|];
    }
  }

  /** Fields cut short, whose values are all valid, read as corrupt. */
  lemma {:induction false} FieldsCut(fields: seq<Field>, k: nat, g: Gathered)
    requires AllWellTyped(fields) && SmallIds(fields) && k < |FieldsBytes(fields)| && ApplyAll(g, fields).Success?
    requires forall f :: f in fields ==> !f.data.Items?
    ensures ReadRecord(FieldsBytes(fields)[..k], |fields|, g) == Failure(Corrupt)
    decreases |fields|
  {
    hide *;
    SomeField(fields, k);
    FieldsAre(fields, g);
    var f, rest := fields[0], fields[1..];
    var n := |FieldBytes(f)|;
    if k < n {
      FieldCut(f, k);
      assert FieldsBytes(fields)[..k] == FieldBytes(f)[..k];
      CutAt(FieldBytes(f)[..k], f, |fields|, g);
    } else {
      assert FieldsBytes(fields)[..k] == FieldBytes(f) + FieldsBytes(rest)[..k - n];
      ReadOneField(f, FieldsBytes(rest)[..k - n]);
      GoesOn(FieldsBytes(fields)[..k], f, |fields|, g);
      FieldsCut(rest, k - n, Apply(g, f.id, f.data).value);
    }
  }

  lemma SomeField(fields: seq<Field>, k: nat)
    requires SmallIds(fields) && k < |FieldsBytes(fields)|
    ensures fields != []
  {
  }

  lemma FieldsAre(fields: seq<Field>, g: Gathered)
    requires AllWellTyped(fields) && SmallIds(fields) && fields != [] && ApplyAll(g, fields).Success?
    requires forall f :: f in fields ==> !f.data.Items?
    ensures var f, rest := fields[0], fields[1..];
            && WellTyped(f) && f.id <= MAX_FIELD_ID && !f.data.Items?
            && AllWellTyped(rest) && SmallIds(rest) && (forall f :: f in rest ==> !f.data.Items?)
            && FieldsBytes(fields) == FieldBytes(f) + FieldsBytes(rest)
            && Apply(g, f.id, f.data).Success? && ApplyAll(Apply(g, f.id, f.data).value, rest).Success?
  {
    hide FieldBytes, Apply;
    assert WellTyped(fields[0]);
  }

  /** Neither the tag nor the data can be missing. */
  lemma FieldCut(f: Field, k: nat)
    requires WellTyped(f) && f.id <= MAX_FIELD_ID && !f.data.Items? && k < |FieldBytes(f)|
    ensures var s := FieldBytes(f)[..k];
            || NextTag(s).Failed?
            || (|s| > 0 && NextTag(s) == Got((f.id, WireOf(f.data)), 1) && ReadData(s[1..], ReadAs(f.id, WireOf(f.data))).Failed?)
  {
    var s := FieldBytes(f)[..k];
    if k > 0 {
      DataCut(f.data, k - 1);
      assert s[1..] == DataBytes(f.data)[..k - 1];
      TagReads(f, []);
      assert (FieldBytes(f) + [])[0] == s[0];
      hide ReadData, DataBytes;
    }
  }

  lemma CutAt(s: Bytes, f: Field, n: nat, g: Gathered)
    requires n > 0
    requires || NextTag(s).Failed?
             || (|s| > 0 && NextTag(s) == Got((f.id, WireOf(f.data)), 1) && ReadData(s[1..], ReadAs(f.id, WireOf(f.data))).Failed?)
    ensures ReadRecord(s, n, g) == Failure(Corrupt)
  {
    hide NextTag, ReadData;
  }

  lemma GoesOn(s: Bytes, f: Field, n: nat, g: Gathered)
    requires n > 0 && |s| >= 1 && NextTag(s) == Got((f.id, WireOf(f.data)), 1)
    requires ReadData(s[1..], ReadAs(f.id, WireOf(f.data))) == Got(f.data, |DataBytes(f.data)|)
    requires |DataBytes(f.data)| <= |s| - 1 && Apply(g, f.id, f.data).Success?
    ensures ReadRecord(s, n, g) == ReadRecord(s[1..][|DataBytes(f.data)|..], n - 1, Apply(g, f.id, f.data).value)
  {
    hide NextTag, ReadData, Apply, DataBytes;
  }

  /** No proper prefix of a stored record decodes to an event: each reads as
      corrupt, wherever it is cut. */
  lemma DecodeCut(e: Event, k: nat, id: Bytes)
    requires Storable(e) && Encode(e).Success? && k < |Encode(e).value|
    ensures Decode(Encode(e).value[..k], id) == Failure(Corrupt)
  {
    hide *;
    var fields, value := EventFields(e), Encode(e).value;
    EncodeIs(e);
    if k >= 2 {
      EventFieldsTyped(e);
      EventApplies(e);
      FieldsCut(fields, k - 2, NOTHING);
      assert value[..k][2..] == FieldsBytes(fields)[..k - 2];
      assert value[..k][0] == 1 && value[..k][1] as nat == |fields|;
    }
    DecodeHead(value[..k], id);
  }

  /** How decoding starts: fewer than two bytes are corrupt, and the first must
      be schema version 1. */
  lemma DecodeHead(value: Bytes, id: Bytes)
    ensures |value| < 2 ==> Decode(value, id) == Failure(Corrupt)
    ensures |value| >= 2 && value[0] != 1 ==> Decode(value, id) == Failure(UnknownSchema)
    ensures |value| >= 2 && value[0] == 1 && ReadRecord(value[2..], value[1] as nat, NOTHING).Failure? ==>
              Decode(value, id) == Failure(ReadRecord(value[2..], value[1] as nat, NOTHING).error)
  {
    hide ReadRecord, Assemble;
  }

  /** All header fields of an event are valid, and its payload is gathered. */
  lemma EventApplies(e: Event)
    requires Storable(e)
    ensures ApplyAll(NOTHING, EventFields(e)).Success?
    ensures forall f :: f in EventFields(e) ==> !f.data.Items?
  {
    EventFieldsTyped(e);
    ApplyAllConcat(NOTHING, HeaderFields(e.hdr, KindOf(e.body)), PayloadFields(e.body));
    HeaderApplies(e.hdr, KindOf(e.body));
    PayloadGathers(Gathered(ReadBack(e).hdr, KindOf(e.body), []), PayloadFields(e.body));
    hide ApplyAll, PayloadFields, TimeWord, WordTime, AllWellTyped, LinkID, EventID;
  }

  // ---------- records with values that are not allowed ----------

  /** A kind is 1 to 5, and a lifecycle 1 to 3. */
  predicate Allowed(f: Field) {
    && (f.id == 4 && f.data.Small? ==> 1 <= f.data.b <= 5)
    && (f.id == 5 && f.data.Small? ==> 1 <= f.data.b <= 3)
  }

  lemma {:induction false} AllowedApply(g: Gathered, fields: seq<Field>)
    requires AllWellTyped(fields) && forall i :: 0 <= i < |fields| ==> Allowed(fields[i])
    ensures ApplyAll(g, fields).Success?
    ensures (forall i :: 0 <= i < |fields| ==> fields[i].id != 4) ==> ApplyAll(g, fields).value.kind == g.kind
    ensures ValidKind(g.kind) || (exists i :: 0 <= i < |fields| && fields[i].id == 4) ==> ValidKind(ApplyAll(g, fields).value.kind)
    decreases |fields|
  {
    if fields != [] {
      var f := fields[0];
      KindKept(g, f);
      hide Apply, WellTyped, Allowed;
      AllowedApply(Apply(g, f.id, f.data).value, fields[1..]);
    }
  }

  lemma KindKept(g: Gathered, f: Field)
    requires WellTyped(f) && Allowed(f)
    ensures Apply(g, f.id, f.data).Success?
    ensures f.id != 4 ==> Apply(g, f.id, f.data).value.kind == g.kind
    ensures f.id == 4 ==> ValidKind(Apply(g, f.id, f.data).value.kind)
  {
  }

  /** The first kind or lifecycle that is not allowed decides the error. */
  lemma HeaderErrors(fields: seq<Field>, i: nat, id: Bytes)
    requires AllWellTyped(fields) && |fields| < 256 && i < |fields|
    requires !Allowed(fields[i]) && forall j :: 0 <= j < i ==> Allowed(fields[j])
    ensures SmallIds(fields)
    ensures Decode(RecordOf(fields), id) == Failure(if fields[i].id == 4 then BadKind else BadLifecycle)
  {
    hide *;
    var f := fields[i];
    TypedAround(fields, i);
    DecodeRecord(fields, id);
    AllowedApply(NOTHING, fields[..i]);
    assert fields == fields[..i] + fields[i..];
    ApplyAllConcat(NOTHING, fields[..i], fields[i..]);
    NotAllowed(ApplyAll(NOTHING, fields[..i]).value, fields[i..]);
  }

  lemma TypedAround(fields: seq<Field>, i: nat)
    requires AllWellTyped(fields) && i < |fields|
    ensures AllWellTyped(fields[..i]) && WellTyped(fields[i])
  {
    hide WellTyped;
  }

  lemma NotAllowed(g: Gathered, fields: seq<Field>)
    requires fields != [] && WellTyped(fields[0]) && !Allowed(fields[0])
    ensures ApplyAll(g, fields) == Failure(if fields[0].id == 4 then BadKind else BadLifecycle)
  {
    var f := fields[0];
    assert Apply(g, f.id, f.data) == Failure(if f.id == 4 then BadKind else BadLifecycle);
    hide Apply;
  }

  /** Without a kind there is no event. */
  lemma NoKind(fields: seq<Field>, id: Bytes)
    requires AllWellTyped(fields) && |fields| < 256
    requires forall i :: 0 <= i < |fields| ==> Allowed(fields[i]) && fields[i].id != 4
    ensures SmallIds(fields) && Decode(RecordOf(fields), id) == Failure(BadKind)
  {
    DecodeRecord(fields, id);
    AllowedApply(NOTHING, fields);
    hide RecordOf, Decode, ApplyAll;
  }

  /** Nor without an id. */
  lemma NoName(fields: seq<Field>, i: nat)
    requires AllWellTyped(fields) && |fields| < 256
    requires forall i :: 0 <= i < |fields| ==> Allowed(fields[i])
    requires i < |fields| && fields[i].id == 4
    ensures SmallIds(fields) && Decode(RecordOf(fields), []) == Failure(NoID)
  {
    hide *;
    DecodeRecord(fields, []);
    AllowedApply(NOTHING, fields);
    NamelessFails(ApplyAll(NOTHING, fields).value);
  }

  lemma NamelessFails(g: Gathered)
    requires ValidKind(g.kind)
    ensures Assemble(g, []) == Failure(NoID)
  {
  }

  /** A decision's severity and scope are 1 to 3 where they are given: the first
      one that is not decides the error. */
  lemma DecisionErrors(hdr: Header, fields: seq<Field>, i: nat, id: Bytes)
    requires id != [] && (hdr.lifecycle == 0 || 1 <= hdr.lifecycle <= 3)
    requires PayloadOnly(fields) && AllWellTyped(HeaderFields(hdr, 2) + fields) && |fields| < 250
    requires i < |fields| && BadEnum(fields[i]) && forall j :: 0 <= j < i ==> !BadEnum(fields[j])
    ensures var all := HeaderFields(hdr, 2) + fields;
            && SmallIds(all) && |all| < 256
            && Decode(RecordOf(all), id) == Failure(if fields[i].id == 17 then BadSeverity else BadScope)
  {
    var all := HeaderFields(hdr, 2) + fields;
    HeaderCount(hdr);
    DecodeRecord(all, id);
    ApplyAllConcat(NOTHING, HeaderFields(hdr, 2), fields);
    HeaderApplies(hdr, 2);
    var g := Gathered(hdr.(createdAt := WordTime(TimeWord(hdr.createdAt))), 2, []);
    PayloadGathers(g, fields);
    assert [] + fields == fields;
    hide *;
    GoodDecision(Decision([], [], 0, 0, []), fields[..i]);
    SetsUpTo(fields, i);
    AssembleDecision(g.(payload := fields), id);
  }

  predicate BadEnum(f: Field) {
    (f.id == 17 || f.id == 18) && !(f.data.Small? && 1 <= f.data.b <= 3)
  }

  lemma HeaderCount(hdr: Header)
    ensures |HeaderFields(hdr, 2)| <= 5
  {
    hide TimeWord;
  }

  lemma AssembleDecision(g: Gathered, id: Bytes)
    requires id != [] && g.kind == 2
    ensures SetFields(Decision([], [], 0, 0, []), g.payload).Failure? ==>
              Assemble(g, id) == Failure(SetFields(Decision([], [], 0, 0, []), g.payload).error)
  {
    hide SetFields;
  }

  lemma {:induction false} GoodDecision(b: Body, fields: seq<Field>)
    requires b.Decision? && forall j :: 0 <= j < |fields| ==> !BadEnum(fields[j])
    ensures SetFields(b, fields).Success? && SetFields(b, fields).value.Decision?
    decreases |fields|
  {
    if fields != [] {
      assert SetField(b, fields[0]).Success? && SetField(b, fields[0]).value.Decision?;
      hide SetField, BadEnum;
      GoodDecision(SetField(b, fields[0]).value, fields[1..]);
    }
  }

  lemma SetsUpTo(fields: seq<Field>, i: nat)
    requires i < |fields| && BadEnum(fields[i])
    requires SetFields(Decision([], [], 0, 0, []), fields[..i]).Success?
    requires SetFields(Decision([], [], 0, 0, []), fields[..i]).value.Decision?
    ensures SetFields(Decision([], [], 0, 0, []), fields) == Failure(if fields[i].id == 17 then BadSeverity else BadScope)
  {
    var start := Decision([], [], 0, 0, []);
    assert fields == fields[..i] + fields[i..] && fields[i..][0] == fields[i];
    SetFieldsConcat(start, fields[..i], fields[i..]);
    var b := SetFields(start, fields[..i]).value;
    assert SetField(b, fields[i]) == Failure(if fields[i].id == 17 then BadSeverity else BadScope);
    hide SetField;
  }
}
