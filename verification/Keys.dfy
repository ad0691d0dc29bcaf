/** Storage keys of events and links: `event/key.go`, `graph/keys.go` and the
    kind prefixes of `event/event.go`. */
module Keys {
  import opened Bytes

  const COLON: byte := 58
  const BACKSLASH: byte := 92
  const LOWER_C: byte := 99
  const ZERO: byte := 48
  const VERSION_DIGITS: nat := 16
  const MAX_VERSIONS: nat := 10_000_000_000_000_000

  /** `Kind`.  A value outside the five named ones is invalid. */
  newtype Kind = x: int | 0 <= x < 256

  const ENTITY: Kind := 1
  const DECISION: Kind := 2
  const OBSERVATION: Kind := 3
  const OUTCOME: Kind := 4
  const LINK: Kind := 5

  predicate ValidKind(k: Kind) {
    1 <= k <= 5
  }

  datatype KeyError = InvalidKey | InvalidKind | EmptyID

  datatype Result<+T> = Ok(value: T) | Err(error: KeyError)

  /** "e:", "d:", "o:", "x:", "l:", or nothing for an invalid kind. */
  function Prefix(k: Kind): Bytes {
    if k == ENTITY then [101, COLON]
    else if k == DECISION then [100, COLON]
    else if k == OBSERVATION then [111, COLON]
    else if k == OUTCOME then [120, COLON]
    else if k == LINK then [108, COLON]
    else []
  }

  function KindFromPrefix(p: Bytes): Result<Kind> {
    if p == Prefix(ENTITY) then Ok(ENTITY)
    else if p == Prefix(DECISION) then Ok(DECISION)
    else if p == Prefix(OBSERVATION) then Ok(OBSERVATION)
    else if p == Prefix(OUTCOME) then Ok(OUTCOME)
    else if p == Prefix(LINK) then Ok(LINK)
    else Err(InvalidKind)
  }

  const REVERSE_LINK_PREFIX: Bytes := [108, 114, COLON]
  const VERSION_SEPARATOR: Bytes := [COLON, 118]

  // ---------- escaping ----------

  function EscapeByte(c: byte): Bytes {
    if c == BACKSLASH then [BACKSLASH, BACKSLASH] else if c == COLON then [BACKSLASH, LOWER_C] else [c]
  }

  function Escape(id: Bytes): Bytes {
    if id == [] then [] else EscapeByte(id[0]) + Escape(id[1..])
  }

  function Unescape(s: Bytes): Result<Bytes> {
    if s == [] then Ok([])
    else if s[0] != BACKSLASH then Prepend(s[0], Unescape(s[1..]))
    else if |s| == 1 then Err(InvalidKey)
    else if s[1] == BACKSLASH then Prepend(BACKSLASH, Unescape(s[2..]))
    else if s[1] == LOWER_C then Prepend(COLON, Unescape(s[2..]))
    else Err(InvalidKey)
  }

  function Prepend(c: byte, r: Result<Bytes>): Result<Bytes> {
    match r case Ok(s) => Ok([c] + s) case Err(e) => Err(e)
  }

  lemma {:induction false} EscapeConcat(a: Bytes, b: Bytes)
    ensures Escape(a + b) == Escape(a) + Escape(b)
  {
    if a == [] {
      assert a + b == b;
    } else {
      assert (a + b)[1..] == a[1..] + b;
      EscapeConcat(a[1..], b);
    }
  }

  lemma EscapeOne(c: byte)
    ensures Escape([c]) == EscapeByte(c)
  {
    assert [c][1..] == [];
  }

  /** Escaping goes byte by byte: a backslash is doubled, a colon becomes "\\c",
      and any other byte stays. */
  lemma EscapeRule(a: Bytes, c: byte)
    ensures Escape([]) == []
    ensures Escape(a + [c]) == Escape(a) + if c == 92 then [92, 92] else if c == 58 then [92, 99] else [c]
  {
    EscapeConcat(a, [c]);
    EscapeOne(c);
  }

  /** `EscapeID`. */
  method EscapeID(id: Bytes) returns (r: Bytes)
    ensures r == Escape(id)
  {
    r := [];
    var i := 0;
    while i < |id|
      invariant i <= |id| && r == Escape(id[..i])
    {
      assert id[..i + 1] == id[..i] + [id[i]];
      EscapeConcat(id[..i], [id[i]]);
      EscapeOne(id[i]);
      var c := id[i];
      if c == BACKSLASH {
        r := r + [BACKSLASH, BACKSLASH];
      } else if c == COLON {
        r := r + [BACKSLASH, LOWER_C];
      } else {
        r := r + [c];
      }
      i := i + 1;
    }
    assert id[..i] == id;
  }

  function PrependAll(s: Bytes, r: Result<Bytes>): Result<Bytes> {
    match r case Ok(t) => Ok(s + t) case Err(e) => Err(e)
  }

  lemma AppendNothing(r: Result<Bytes>)
    ensures PrependAll([], r) == r
  {
    match r case Ok(t) => assert [] + t == t; case Err(_) =>
  }

  lemma AppendPrepend(s: Bytes, c: byte, r: Result<Bytes>)
    ensures PrependAll(s, Prepend(c, r)) == PrependAll(s + [c], r)
  {
    match r case Ok(t) => assert s + ([c] + t) == s + [c] + t; case Err(_) =>
  }

  /** `UnescapeID`. */
  method UnescapeID(escaped: Bytes) returns (r: Result<Bytes>)
    ensures r == Unescape(escaped)
  {
    var out: Bytes := [];
    var i := 0;
    assert escaped[0..] == escaped;
    AppendNothing(Unescape(escaped));
    while i < |escaped|
      invariant i <= |escaped|
      invariant Unescape(escaped) == PrependAll(out, Unescape(escaped[i..]))
    {
      var c := escaped[i];
      ghost var s := escaped[i..];
      assert s[1..] == escaped[i + 1..];
      if c != BACKSLASH {
        AppendPrepend(out, c, Unescape(s[1..]));
        out := out + [c];
        i := i + 1;
        continue;
      }
      if i + 1 >= |escaped| {
        return Err(InvalidKey);
      }
      assert s[2..] == escaped[i + 2..];
      var next := escaped[i + 1];
      if next == BACKSLASH {
        AppendPrepend(out, BACKSLASH, Unescape(s[2..]));
        out := out + [BACKSLASH];
      } else if next == LOWER_C {
        AppendPrepend(out, COLON, Unescape(s[2..]));
        out := out + [COLON];
      } else {
        return Err(InvalidKey);
      }
      i := i + 2;
    }
    assert escaped[i..] == [] && out + [] == out;
    return Ok(out);
  }

  /** Unescaping undoes escaping, whatever the id. */
  lemma {:induction false} UnescapeEscape(id: Bytes)
    ensures Unescape(Escape(id)) == Ok(id)
  {
    hide Unescape;
    if id == [] {
      UnescapeNothing();
    } else {
      UnescapeEscape(id[1..]);
      UnescapeToken(id[0], Escape(id[1..]));
      assert id == [id[0]] + id[1..];
    }
  }

  lemma UnescapeNothing()
    ensures Unescape([]) == Ok([])
  {
  }

  /** Unescaping undoes the escape of one byte. */
  lemma UnescapeToken(c: byte, rest: Bytes)
    ensures Unescape(EscapeByte(c) + rest) == Prepend(c, Unescape(rest))
  {
    var t := EscapeByte(c);
    assert (t + rest)[|t|..] == rest;
  }

  /** Escaping undoes unescaping exactly on strings without a bare colon. */
  lemma {:induction false} EscapeUnescape(s: Bytes)
    requires Unescape(s).Ok?
    ensures Escape(Unescape(s).value) == s <==> COLON !in s
    decreases |s|
  {
    if s != [] {
      var k := if s[0] == BACKSLASH then 2 else 1;
      EscapeUnescape(s[k..]);
      var id, rest := Unescape(s).value, Unescape(s[k..]).value;
      assert id[1..] == rest;
      assert s == s[..k] + s[k..];
      if s[0] == COLON {
        assert Escape(id)[0] == BACKSLASH;
      } else {
        assert EscapeByte(id[0]) == s[..k];
        assert (s[..k] + Escape(rest) == s[..k] + s[k..]) <==> Escape(rest) == s[k..] by {
          assert (s[..k] + Escape(rest))[k..] == Escape(rest) && (s[..k] + s[k..])[k..] == s[k..];
        }
        assert COLON in s <==> COLON in s[k..] by {
          if COLON in s {
            var j :| 0 <= j < |s| && s[j] == COLON;
            assert j >= k;
            assert s[k..][j - k] == COLON;
          }
        }
      }
    }
  }

  lemma {:induction false} NoColon(id: Bytes)
    ensures COLON !in Escape(id)
  {
    if id != [] {
      NoColon(id[1..]);
    }
  }

  lemma EscapeInjective(a: Bytes, b: Bytes)
    ensures Escape(a) == Escape(b) <==> a == b
  {
    UnescapeEscape(a);
    UnescapeEscape(b);
  }

  /** Escaping keeps and reflects prefixes. */
  lemma {:induction false} EscapePrefix(a: Bytes, b: Bytes)
    ensures Escape(a) <= Escape(b) <==> a <= b
  {
    if a != [] {
      if b == [] {
        assert |Escape(a)| > 0;
      } else if a[0] == b[0] {
        EscapePrefix(a[1..], b[1..]);
        PrefixConcat(EscapeByte(a[0]), Escape(a[1..]), Escape(b[1..]));
        assert a == [a[0]] + a[1..] && b == [b[0]] + b[1..];
        PrefixConcat([a[0]], a[1..], b[1..]);
      } else {
        assert !(a <= b);
        DifferentTokens(a, b);
      }
    }
  }

  lemma DifferentTokens(a: Bytes, b: Bytes)
    requires a != [] && b != [] && a[0] != b[0]
    ensures !(Escape(a) <= Escape(b))
  {
    var x, y := EscapeByte(a[0]), EscapeByte(b[0]);
    assert x <= Escape(a) && y <= Escape(b);
    var k := if x[0] == y[0] then 1 else 0;
    assert Escape(a)[k] == x[k] && Escape(b)[k] == y[k] && x[k] != y[k];
    DifferAt(Escape(a), Escape(b), k);
  }

  lemma DifferAt(p: Bytes, q: Bytes, k: nat)
    requires k < |p| && k < |q| && p[k] != q[k]
    ensures !(p <= q)
  {
    assert p <= q ==> p[k] == q[k];
  }

  lemma PrefixConcat(p: Bytes, a: Bytes, b: Bytes)
    ensures p + a <= p + b <==> a <= b
  {
    if p + a <= p + b {
      assert (p + b)[..|p| + |a|] == p + a;
      assert b[..|a|] == (p + b)[|p|..|p| + |a|] == (p + a)[|p|..] == a;
    }
    if a <= b {
      assert (p + b)[..|p + a|] == p + b[..|a|];
    }
  }

  /** What comes before the first colon decides a prefix that ends in one. */
  lemma ColonDecides(u: Bytes, w: Bytes, x: Bytes, y: Bytes)
    requires COLON !in u && COLON !in w
    ensures u + [COLON] + x <= w + [COLON] + y <==> u == w && x <= y
  {
    var p, q := u + [COLON] + x, w + [COLON] + y;
    FirstColon(u, x);
    FirstColon(w, y);
    if p <= q {
      assert p[|u|] == q[|u|] && !(|u| < |w|);
      assert p[|w|] == q[|w|] && !(|w| < |u|);
      assert u == p[..|u|] && w == q[..|w|];
      PrefixConcat(u + [COLON], x, y);
    }
    if u == w && x <= y {
      PrefixConcat(u + [COLON], x, y);
    }
  }

  lemma FirstColon(u: Bytes, x: Bytes)
    requires COLON !in u
    ensures (u + [COLON] + x)[|u|] == COLON
    ensures forall i :: 0 <= i < |u| ==> (u + [COLON] + x)[i] != COLON
  {
    forall i | 0 <= i < |u| ensures (u + [COLON] + x)[i] != COLON {
      assert (u + [COLON] + x)[i] == u[i] && u[i] in u;
    }
  }

  // ---------- versions ----------

  function Pow10(w: nat): (p: nat)
    ensures p > 0
  {
    if w == 0 then 1 else 10 * Pow10(w - 1)
  }

  /** `w` decimal digits of `n`. */
  function Digits(n: nat, w: nat): (s: Bytes)
    requires n < Pow10(w)
    ensures |s| == w
  {
    if w == 0 then [] else Digits(n / 10, w - 1) + [ZERO + (n % 10) as byte]
  }

  /** How many digits a number has, at least `w`. */
  function Width(n: nat, w: nat): (k: nat)
    requires w > 0
    ensures k >= w && n < Pow10(k)
    decreases n - Pow10(w)
  {
    if n < Pow10(w) then w else Width(n, w + 1)
  }

  /** `padVersion`: sixteen digits, or more if the number needs them. */
  function PadVersion(v: nat): Bytes {
    Digits(v, Width(v, VERSION_DIGITS))
  }

  lemma SixteenDigits()
    ensures Pow10(VERSION_DIGITS) == MAX_VERSIONS
  {
    assert Pow10(4) == 10_000;
    assert Pow10(8) == 10_000 * Pow10(4);
    assert Pow10(12) == 10_000 * Pow10(8);
    assert Pow10(16) == 10_000 * Pow10(12);
  }

  lemma PadVersionFits(v: nat)
    requires v < MAX_VERSIONS
    ensures v < Pow10(VERSION_DIGITS) && PadVersion(v) == Digits(v, VERSION_DIGITS)
  {
    SixteenDigits();
  }

  /** `strconv.ParseUint` on the version digits; any other byte is an error. */
  function ParseDigits(s: Bytes): Result<nat> {
    if s == [] then Ok(0)
    else
      var d := s[|s| - 1];
      var r := ParseDigits(s[..|s| - 1]);
      if r.Err? then r
      else if ZERO <= d <= ZERO + 9 then Ok(10 * r.value + (d - ZERO) as nat)
      else Err(InvalidKey)
  }

  lemma {:induction false} ParseDigitsInverts(n: nat, w: nat)
    requires n < Pow10(w)
    ensures ParseDigits(Digits(n, w)) == Ok(n)
  {
    hide ParseDigits;
    if w == 0 {
      NoDigits();
    } else {
      ParseDigitsInverts(n / 10, w - 1);
      OneMoreDigit(Digits(n / 10, w - 1), n % 10);
    }
  }

  lemma NoDigits()
    ensures ParseDigits([]) == Ok(0)
  {
  }

  lemma OneMoreDigit(s: Bytes, d: nat)
    requires ParseDigits(s).Ok? && d < 10
    ensures ParseDigits(s + [ZERO + d as byte]) == Ok(10 * ParseDigits(s).value + d)
  {
    var x := ZERO + d as byte;
    LastOfMore(s, x);
    var t := s + [x];
    assert ZERO <= x <= ZERO + 9 && (x - ZERO) as nat == d;
  }

  lemma LastOfMore(s: Bytes, x: byte)
    ensures |s + [x]| == |s| + 1 && (s + [x])[|s|] == x && (s + [x])[..|s|] == s
  {
  }

  /** Digit strings of one width sort as the numbers do. */
  lemma {:induction false} DigitsOrder(m: nat, n: nat, w: nat)
    requires m < Pow10(w) && n < Pow10(w)
    ensures Rank(Digits(m, w)) < Rank(Digits(n, w)) <==> m < n
    decreases w
  {
    hide Rank;
    if w > 0 {
      DigitsOrder(m / 10, n / 10, w - 1);
      DigitsOrder(n / 10, m / 10, w - 1);
      var x, y: byte := ZERO + (m % 10) as byte, ZERO + (n % 10) as byte;
      var a, b := Digits(m / 10, w - 1), Digits(n / 10, w - 1);
      RankInjective(a, b);
      if m / 10 == n / 10 {
        RankAfterPrefix(a, [x], [y]);
        RankOfByte(x);
        RankOfByte(y);
      } else if m / 10 < n / 10 {
        RankOfLonger(a, [x], b, [y]);
      } else {
        RankOfLonger(b, [y], a, [x]);
      }
    }
  }

  lemma RankOfByte(x: byte)
    ensures Rank([x]) == (x as real + 1.0) / 257.0
  {
    assert [x][1..] == [];
  }

  lemma {:induction false} RankAfterPrefix(p: Bytes, a: Bytes, b: Bytes)
    ensures Rank(p + a) < Rank(p + b) <==> Rank(a) < Rank(b)
  {
    if p == [] {
      assert p + a == a && p + b == b;
    } else {
      RankAfterPrefix(p[1..], a, b);
      assert (p + a)[1..] == p[1..] + a && (p + b)[1..] == p[1..] + b;
    }
  }

  /** Strings of one length that differ keep their order whatever follows. */
  lemma {:induction false} RankOfLonger(a: Bytes, x: Bytes, b: Bytes, y: Bytes)
    requires |a| == |b| && Rank(a) < Rank(b)
    ensures Rank(a + x) < Rank(b + y)
  {
    if a != [] {
      assert (a + x)[1..] == a[1..] + x && (b + y)[1..] == b[1..] + y;
      if a[0] == b[0] {
        RankOfLonger(a[1..], x, b[1..], y);
      } else {
        TopByteDecides(a, b);
        assert a[0] as real + 1.0 <= b[0] as real;
      }
    }
  }

  lemma TopByteDecides(a: Bytes, b: Bytes)
    requires a != [] && b != [] && a[0] != b[0]
    ensures a[0] < b[0] <==> Rank(a) < Rank(b)
  {
    if a[0] < b[0] {
      assert a[0] as real + 1.0 <= b[0] as real;
    } else {
      assert b[0] as real + 1.0 <= a[0] as real;
    }
  }

  // ---------- event keys ----------

  /** `BuildKey`. */
  function BuildKey(k: Kind, id: Bytes, version: nat): Result<Bytes> {
    if !ValidKind(k) then Err(InvalidKind)
    else if id == [] then Err(EmptyID)
    else Ok(Prefix(k) + Escape(id) + VERSION_SEPARATOR + PadVersion(version))
  }

  /** `chainPrefix`: what the keys of all versions of one id start with. */
  function ChainPrefix(k: Kind, id: Bytes): Result<Bytes> {
    if !ValidKind(k) then Err(InvalidKind)
    else if id == [] then Err(EmptyID)
    else Ok(Prefix(k) + Escape(id) + VERSION_SEPARATOR)
  }

  datatype ParsedKey = ParsedKey(kind: Kind, id: Bytes, version: nat)

  const VERSION_TAIL: nat := 18

  /** `splitVersionSuffix`: where the version suffix starts, and the version. */
  function SplitVersionSuffix(s: Bytes): Result<(nat, nat)> {
    if |s| < VERSION_TAIL + 2 then Err(InvalidKey)
    else
      var start := |s| - VERSION_TAIL;
      if s[start..start + 2] != VERSION_SEPARATOR then Err(InvalidKey)
      else
        match ParseDigits(s[start + 2..])
        case Err(e) => Err(e)
        case Ok(v) => Ok((start, v))
  }

  /** The first colon, or the length of a string without one. */
  function IndexOfColon(s: Bytes): (i: nat)
    ensures i <= |s|
    ensures i < |s| ==> s[i] == COLON
    ensures forall j :: 0 <= j < i ==> s[j] != COLON
  {
    if s == [] || s[0] == COLON then 0 else 1 + IndexOfColon(s[1..])
  }

  /** `ParseKey`. */
  function ParseKey(s: Bytes): Result<ParsedKey> {
    if REVERSE_LINK_PREFIX <= s then Err(InvalidKey)
    else
      var colon := IndexOfColon(s);
      if colon == |s| || colon < 1 then Err(InvalidKey)
      else
        match KindFromPrefix(s[..colon + 1])
        case Err(e) => Err(e)
        case Ok(kind) =>
          match SplitVersionSuffix(s)
          case Err(e) => Err(e)
          case Ok((start, version)) =>
            var escaped := s[colon + 1..start];
            if escaped == [] then Err(EmptyID)
            else
              match Unescape(escaped)
              case Err(e) => Err(e)
              case Ok(id) => Ok(ParsedKey(kind, id, version))
  }

  lemma KeyParts(k: Kind, id: Bytes, version: nat)
    requires ValidKind(k) && id != [] && version < MAX_VERSIONS
    ensures var key := BuildKey(k, id, version).value;
            && |key| == 2 + |Escape(id)| + VERSION_TAIL && |Escape(id)| > 0
            && key[..2] == Prefix(k)
            && key[2..|key| - VERSION_TAIL] == Escape(id)
            && key[|key| - VERSION_TAIL..|key| - VERSION_TAIL + 2] == VERSION_SEPARATOR
            && key[|key| - VERSION_TAIL + 2..] == PadVersion(version)
  {
    hide Digits, PadVersion, Width, Pow10, Escape;
    PadVersionFits(version);
    EscapeIsSomething(id);
    FourParts(Prefix(k), Escape(id), VERSION_SEPARATOR, PadVersion(version));
  }

  lemma EscapeIsSomething(id: Bytes)
    requires id != []
    ensures |Escape(id)| > 0
  {
  }

  lemma FourParts(a: Bytes, b: Bytes, c: Bytes, d: Bytes)
    ensures var s := a + b + c + d;
            && s[..|a|] == a && s[|a|..|a| + |b|] == b
            && s[|a| + |b|..|a| + |b| + |c|] == c && s[|a| + |b| + |c|..] == d
  {
  }

  /** `ParseKey` undoes `BuildKey` for every version below 10^16, the number
      that sixteen digits can tell apart. */
  lemma ParseKeyInverts(k: Kind, id: Bytes, version: nat)
    requires ValidKind(k) && id != [] && version < MAX_VERSIONS
    ensures BuildKey(k, id, version).Ok?
    ensures ParseKey(BuildKey(k, id, version).value) == Ok(ParsedKey(k, id, version))
  {
    var key := BuildKey(k, id, version).value;
    KeyParts(k, id, version);
    PadVersionFits(version);
    ParseDigitsInverts(version, VERSION_DIGITS);
    UnescapeEscape(id);
    hide Escape, Unescape, PadVersion, ParseDigits, BuildKey, Digits, Width, Pow10;
    ParseParts(key, k, id, version);
  }

  lemma KeyHead(key: Bytes, k: Kind)
    requires ValidKind(k) && |key| > 2 && key[..2] == Prefix(k)
    ensures IndexOfColon(key) == 1 && !(REVERSE_LINK_PREFIX <= key) && KindFromPrefix(key[..2]) == Ok(k)
  {
    assert key[0] == Prefix(k)[0] && key[1] == Prefix(k)[1] == COLON;
    DifferAt(REVERSE_LINK_PREFIX, key, 1);
  }

  lemma ParseParts(key: Bytes, k: Kind, id: Bytes, version: nat)
    requires ValidKind(k) && |key| > 2 + VERSION_TAIL && key[..2] == Prefix(k)
    requires Unescape(key[2..|key| - VERSION_TAIL]) == Ok(id)
    requires key[|key| - VERSION_TAIL..|key| - VERSION_TAIL + 2] == VERSION_SEPARATOR
    requires ParseDigits(key[|key| - VERSION_TAIL + 2..]) == Ok(version)
    ensures ParseKey(key) == Ok(ParsedKey(k, id, version))
  {
    KeyHead(key, k);
    hide Unescape, ParseDigits, IndexOfColon, Prefix, KindFromPrefix;
  }

  // ---------- the bytes of a key ----------

  /** Sixteen decimal digits that stand for `v`. */
  predicate IsPadded(d: Bytes, v: nat) {
    && |d| == 16
    && (forall i :: 0 <= i < 16 ==> 48 <= d[i] <= 57)
    && v == Decimal(d)
  }

  /** The number that decimal digits stand for. */
  function Decimal(d: Bytes): nat {
    if d == [] then 0
    else 10 * Decimal(d[..|d| - 1]) + if 48 <= d[|d| - 1] <= 57 then (d[|d| - 1] - 48) as nat else 0
  }

  lemma {:induction false} DigitsAre(s: Bytes)
    ensures (forall i :: 0 <= i < |s| ==> 48 <= s[i] <= 57) ==> ParseDigits(s) == Ok(Decimal(s))
    ensures (exists i :: 0 <= i < |s| && !(48 <= s[i] <= 57)) ==> ParseDigits(s) == Err(InvalidKey)
  {
    if s != [] {
      DigitsAre(s[..|s| - 1]);
    }
  }

  /** The letter of a kind: e, d, o, x or l. */
  predicate IsLetter(c: byte, k: Kind) {
    (c == 101 && k == 1) || (c == 100 && k == 2) || (c == 111 && k == 3) || (c == 120 && k == 4) || (c == 108 && k == 5)
  }

  /** What `BuildKey` writes: the letter of the kind, a colon, the escaped id,
      ":v" and the version in sixteen digits. */
  lemma KeyBytes(k: Kind, id: Bytes, version: nat)
    requires ValidKind(k) && id != [] && version < 10_000_000_000_000_000
    ensures var r := BuildKey(k, id, version);
            && r.Ok? && |r.value| == 20 + |Escape(id)|
            && IsLetter(r.value[0], k) && r.value[1] == 58
            && r.value[2..|r.value| - 18] == Escape(id)
            && r.value[|r.value| - 18..|r.value| - 16] == [58, 118]
            && IsPadded(r.value[|r.value| - 16..], version)
  {
    hide *;
    KeySizes();
    KeyParts(k, id, version);
    PaddedIs(version);
    KeyIs(k, id, version);
    LetterIs(BuildKey(k, id, version).value, k);
  }

  lemma KeySizes()
    ensures MAX_VERSIONS == 10_000_000_000_000_000 && VERSION_TAIL == 18 && VERSION_SEPARATOR == [58, 118]
  {
  }

  lemma PaddedIs(version: nat)
    requires version < MAX_VERSIONS
    ensures IsPadded(PadVersion(version), version)
  {
    PadVersionFits(version);
    ParseDigitsInverts(version, VERSION_DIGITS);
    DigitsAre(Digits(version, VERSION_DIGITS));
    hide PadVersion, ParseDigits, Digits, Width, Pow10, Decimal;
  }

  lemma KeyIs(k: Kind, id: Bytes, version: nat)
    requires ValidKind(k) && id != []
    ensures BuildKey(k, id, version).Ok?
  {
    hide Escape, PadVersion;
  }

  lemma LetterIs(key: Bytes, k: Kind)
    requires ValidKind(k) && |key| > 2 && key[..2] == Prefix(k)
    ensures IsLetter(key[0], k) && key[1] == 58
  {
    assert key[..2][0] == key[0] && key[..2][1] == key[1];
  }

  /** What `ParseKey` accepts, and as what: keys of that form, the id escaped
      in any way that `UnescapeID` takes. */
  lemma ParseKeyAccepts(s: Bytes, k: Kind, id: Bytes, version: nat)
    ensures ParseKey(s) == Ok(ParsedKey(k, id, version)) <==>
            && |s| > 20 && IsLetter(s[0], k) && s[1] == 58
            && Unescape(s[2..|s| - 18]) == Ok(id)
            && s[|s| - 18..|s| - 16] == [58, 118]
            && IsPadded(s[|s| - 16..], version)
  {
    if |s| >= 20 {
      DigitsAre(s[|s| - 16..]);
    }
    var colon := IndexOfColon(s);
    hide Unescape, ParseDigits, Decimal, IndexOfColon;
    if REVERSE_LINK_PREFIX <= s {
      assert s[1] == 114;
    }
  }

  /** And what it answers otherwise: the first check that fails decides. */
  lemma ParseKeyErrors(s: Bytes, c: nat)
    requires c <= |s| && (forall i :: 0 <= i < c ==> s[i] != 58) && (c < |s| ==> s[c] == 58)
    requires ParseKey(s).Err?
    ensures var tail := |s| - 18;
            ParseKey(s).error ==
            if [108, 114, 58] <= s || c == |s| || c == 0 then InvalidKey
            else if c > 1 || s[0] !in [101, 100, 111, 120, 108] then InvalidKind
            else if |s| == 20 && s[tail..tail + 2] == [58, 118] && forall i :: 4 <= i < 20 ==> 48 <= s[i] <= 57 then EmptyID
            else InvalidKey
  {
    var colon := IndexOfColon(s);
    assert !(colon < c) && !(c < colon);
    if |s| >= 20 {
      DigitsAre(s[|s| - 16..]);
      assert |s| == 20 ==> forall i :: 4 <= i < 20 ==> s[i] == s[4..][i - 4];
    }
    UnescapeErrors(s);
    hide ParseDigits, Decimal, IndexOfColon, Unescape;
    if c == 1 < |s| {
      OneLetter(s);
      if |s| > 20 {
        UnescapeErrors(s[2..|s| - 18]);
      }
    } else if 1 < c < |s| {
      LongPrefix(s, c);
    }
  }

  lemma OneLetter(s: Bytes)
    requires |s| > 1 && s[1] == 58
    ensures KindFromPrefix(s[..2]) == Err(InvalidKind) <==> s[0] !in [101, 100, 111, 120, 108]
  {
    assert s[..2] == [s[0], 58];
  }

  lemma LongPrefix(s: Bytes, c: nat)
    requires 1 < c < |s|
    ensures KindFromPrefix(s[..c + 1]) == Err(InvalidKind)
  {
    assert |s[..c + 1]| > 2;
  }

  lemma {:induction false} UnescapeErrors(s: Bytes)
    ensures Unescape(s).Err? ==> Unescape(s).error == InvalidKey
    ensures s != [] && Unescape(s).Ok? ==> Unescape(s).value != []
    decreases |s|
  {
    if s != [] {
      UnescapeErrors(s[1..]);
      if |s| > 1 {
        UnescapeErrors(s[2..]);
      }
    }
  }

  /** Among the keys of stored versions, those that start with the chain prefix
      of an id are exactly the versions of that id. */
  lemma ChainPrefixIsExact(k: Kind, id: Bytes, k': Kind, id': Bytes, version: nat)
    requires ValidKind(k) && id != [] && ValidKind(k') && id' != [] && version < MAX_VERSIONS
    ensures ChainPrefix(k, id).value <= BuildKey(k', id', version).value <==> k == k' && id == id'
  {
    NoColon(id);
    NoColon(id');
    EscapeInjective(id, id');
    hide Escape, PadVersion;
    var p, key := ChainPrefix(k, id).value, BuildKey(k', id', version).value;
    var u, w := Escape(id), Escape(id');
    assert p == Prefix(k) + (u + [COLON] + [118]);
    assert key == Prefix(k') + (w + [COLON] + ([118] + PadVersion(version)));
    assert [118] <= [118] + PadVersion(version);
    ColonDecides(u, w, [118], [118] + PadVersion(version));
    if k == k' {
      PrefixConcat(Prefix(k), u + [COLON] + [118], w + [COLON] + ([118] + PadVersion(version)));
    } else {
      DifferAt(p, key, 0);
    }
  }

  /** Byte order of one id's keys is the order of their versions. */
  lemma VersionOrder(k: Kind, id: Bytes, v: nat, w: nat)
    requires ValidKind(k) && id != [] && v < MAX_VERSIONS && w < MAX_VERSIONS
    ensures Rank(BuildKey(k, id, v).value) < Rank(BuildKey(k, id, w).value) <==> v < w
  {
    PadVersionFits(v);
    PadVersionFits(w);
    DigitsOrder(v, w, VERSION_DIGITS);
    RankAfterPrefix(ChainPrefix(k, id).value, PadVersion(v), PadVersion(w));
  }

  /** Different versions have different keys. */
  lemma KeysDiffer(k: Kind, id: Bytes, version: nat, k': Kind, id': Bytes, version': nat)
    requires ValidKind(k) && id != [] && version < MAX_VERSIONS
    requires ValidKind(k') && id' != [] && version' < MAX_VERSIONS
    ensures BuildKey(k, id, version).value == BuildKey(k', id', version').value <==>
            k == k' && id == id' && version == version'
  {
    ParseKeyInverts(k, id, version);
    ParseKeyInverts(k', id', version');
  }

  // ---------- reverse-link keys ----------

  /** Three escaped segments, separated by bare colons. */
  function Composite(a: Bytes, b: Bytes, c: Bytes): Bytes {
    Escape(a) + [COLON] + Escape(b) + [COLON] + Escape(c)
  }

  /** `BuildReverseLinkKey`. */
  function BuildReverseLinkKey(dst: Bytes, edge: Bytes, src: Bytes): Result<Bytes> {
    if dst == [] || edge == [] || src == [] then Err(EmptyID)
    else Ok(REVERSE_LINK_PREFIX + Composite(dst, edge, src))
  }

  /** The segments between unescaped colons, escapes kept. */
  function Segments(s: Bytes): (parts: seq<Bytes>)
    ensures parts != []
  {
    if s == [] then [[]]
    else if s[0] == BACKSLASH && |s| > 1 then Longer(s[..2], Segments(s[2..]))
    else if s[0] == COLON then [[]] + Segments(s[1..])
    else Longer(s[..1], Segments(s[1..]))
  }

  function Longer(p: Bytes, parts: seq<Bytes>): seq<Bytes>
    requires parts != []
  {
    [p + parts[0]] + parts[1..]
  }

  lemma LongerTwice(p: Bytes, q: Bytes, parts: seq<Bytes>)
    requires parts != []
    ensures Longer(p, Longer(q, parts)) == Longer(p + q, parts)
    ensures Longer([], parts) == parts
  {
    assert p + (q + parts[0]) == p + q + parts[0];
    assert [] + parts[0] == parts[0];
  }

  /** `splitEscapedColons`. */
  method SplitEscapedColons(s: Bytes, want: nat) returns (r: Result<seq<Bytes>>)
    ensures r == if |Segments(s)| == want then Ok(Segments(s)) else Err(InvalidKey)
  {
    var parts: seq<Bytes> := [];
    var current: Bytes := [];
    var i := 0;
    assert s[0..] == s;
    LongerTwice([], [], Segments(s));
    assert [] + Segments(s) == Segments(s);
    while i < |s|
      invariant i <= |s|
      invariant Segments(s) == parts + Longer(current, Segments(s[i..]))
    {
      var c := s[i];
      ghost var t := s[i..];
      assert t[1..] == s[i + 1..] && t[..1] == [c];
      if c == BACKSLASH && i + 1 < |s| {
        assert t[2..] == s[i + 2..] && t[..2] == [c, s[i + 1]];
        LongerTwice(current, [c, s[i + 1]], Segments(s[i + 2..]));
        assert current + [c] + [s[i + 1]] == current + [c, s[i + 1]];
        current := current + [c];
        current := current + [s[i + 1]];
        i := i + 2;
        continue;
      }
      if c == COLON {
        assert current + [] == current;
        assert Longer(current, [[]] + Segments(s[i + 1..])) == [current] + Segments(s[i + 1..]);
        LongerTwice([], [], Segments(s[i + 1..]));
        assert parts + ([current] + Segments(s[i + 1..])) == parts + [current] + Segments(s[i + 1..]);
        parts := parts + [current];
        current := [];
        i := i + 1;
        continue;
      }
      LongerTwice(current, [c], Segments(s[i + 1..]));
      current := current + [c];
      i := i + 1;
    }
    assert s[i..] == [] && current + [] == current && Longer(current, [[]]) == [current];
    parts := parts + [current];
    if |parts| != want {
      return Err(InvalidKey);
    }
    return Ok(parts);
  }

  /** `ParseReverseLinkKey`, as (dst, edge, src). */
  function ParseReverseLinkKey(s: Bytes): Result<(Bytes, Bytes, Bytes)> {
    if !(REVERSE_LINK_PREFIX <= s) then Err(InvalidKey)
    else
      var parts := Segments(s[3..]);
      if |parts| != 3 then Err(InvalidKey)
      else
        match (Unescape(parts[0]), Unescape(parts[1]), Unescape(parts[2]))
        case (Err(e), _, _) => Err(e)
        case (Ok(_), Err(e), _) => Err(e)
        case (Ok(_), Ok(_), Err(e)) => Err(e)
        case (Ok(dst), Ok(edge), Ok(src)) =>
          if dst == [] || edge == [] || src == [] then Err(EmptyID) else Ok((dst, edge, src))
  }

  /** The key of a link's reverse entry: "lr:", then its ends and type, each
      escaped, the destination first, with colons between them. */
  lemma ReverseKeyBytes(dst: Bytes, edge: Bytes, src: Bytes)
    requires dst != [] && edge != [] && src != []
    ensures BuildReverseLinkKey(dst, edge, src) ==
            Ok([108, 114, 58] + Escape(dst) + [58] + Escape(edge) + [58] + Escape(src))
  {
    hide Escape;
    var a, b, c := Escape(dst), Escape(edge), Escape(src);
    assert [108, 114, 58] + (a + [58] + b + [58] + c) == [108, 114, 58] + a + [58] + b + [58] + c;
  }

  /** An escaped segment ends at the next bare colon. */
  lemma {:induction false} SegmentsOfEscape(id: Bytes, rest: Bytes)
    ensures Segments(Escape(id) + [COLON] + rest) == [Escape(id)] + Segments(rest)
    ensures Segments(Escape(id)) == [Escape(id)]
  {
    hide Segments, Longer, EscapeByte;
    if id == [] {
      NoSegments(rest);
      assert Escape(id) + [COLON] + rest == [COLON] + rest;
    } else {
      var t, tail := EscapeByte(id[0]), Escape(id[1..]);
      SegmentsOfEscape(id[1..], rest);
      assert Escape(id) + [COLON] + rest == t + (tail + [COLON] + rest);
      SegmentToken(id[0], tail + [COLON] + rest);
      SegmentToken(id[0], tail);
      LongerFirst(t, tail, Segments(rest));
      LongerFirst(t, tail, []);
      assert [tail] + [] == [tail] && [t + tail] + [] == [t + tail];
    }
  }

  lemma NoSegments(rest: Bytes)
    ensures Segments([COLON] + rest) == [[]] + Segments(rest) && Segments([]) == [[]]
  {
    assert ([COLON] + rest)[1..] == rest;
  }

  /** An escaped byte belongs to the segment it starts. */
  lemma SegmentToken(c: byte, rest: Bytes)
    ensures Segments(EscapeByte(c) + rest) == Longer(EscapeByte(c), Segments(rest))
  {
    var t := EscapeByte(c);
    assert (t + rest)[|t|..] == rest && (t + rest)[..|t|] == t;
  }

  lemma LongerFirst(p: Bytes, first: Bytes, parts: seq<Bytes>)
    ensures Longer(p, [first] + parts) == [p + first] + parts
  {
  }

  /** `ParseReverseLinkKey` undoes `BuildReverseLinkKey`. */
  lemma ParseReverseInverts(dst: Bytes, edge: Bytes, src: Bytes)
    requires dst != [] && edge != [] && src != []
    ensures ParseReverseLinkKey(BuildReverseLinkKey(dst, edge, src).value) == Ok((dst, edge, src))
  {
    var key := BuildReverseLinkKey(dst, edge, src).value;
    CompositeSegments(dst, edge, src);
    UnescapeEscape(dst);
    UnescapeEscape(edge);
    UnescapeEscape(src);
    hide Escape, Segments, Unescape;
    assert key[3..] == Composite(dst, edge, src);
  }

  lemma CompositeSegments(a: Bytes, b: Bytes, c: Bytes)
    ensures Segments(Composite(a, b, c)) == [Escape(a), Escape(b), Escape(c)]
  {
    hide *;
    CompositeIs(a, b, c);
    SegmentsOfEscape(a, Escape(b) + [COLON] + Escape(c));
    SegmentsOfEscape(b, Escape(c));
    SegmentsOfEscape(c, []);
  }

  lemma CompositeIs(a: Bytes, b: Bytes, c: Bytes)
    ensures Composite(a, b, c) == Escape(a) + [COLON] + (Escape(b) + [COLON] + Escape(c))
  {
    hide Escape;
  }

  lemma CompositeInjective(a: Bytes, b: Bytes, c: Bytes, a': Bytes, b': Bytes, c': Bytes)
    ensures Composite(a, b, c) == Composite(a', b', c') <==> a == a' && b == b' && c == c'
  {
    CompositeSegments(a, b, c);
    CompositeSegments(a', b', c');
    EscapeInjective(a, a');
    EscapeInjective(b, b');
    EscapeInjective(c, c');
    hide Escape, Segments;
    if Composite(a, b, c) == Composite(a', b', c') {
      assert [Escape(a), Escape(b), Escape(c)] == [Escape(a'), Escape(b'), Escape(c')];
      assert [Escape(a), Escape(b), Escape(c)][1] == [Escape(a'), Escape(b'), Escape(c')][1];
    }
  }

  /** `reverseDstPrefix` in `graph/keys.go`. */
  function ReverseDstPrefix(dst: Bytes): Bytes {
    REVERSE_LINK_PREFIX + Escape(dst) + [COLON]
  }

  /** A reverse-link key starts with the prefix of `d` exactly when `d` is its
      destination; an event key never does. */
  lemma ReverseDstPrefixIsExact(d: Bytes, dst: Bytes, edge: Bytes, src: Bytes)
    requires dst != [] && edge != [] && src != []
    ensures ReverseDstPrefix(d) <= BuildReverseLinkKey(dst, edge, src).value <==> d == dst
  {
    NoColon(d);
    NoColon(dst);
    EscapeInjective(d, dst);
    hide Escape;
    var rest := Escape(edge) + [COLON] + Escape(src);
    ColonDecides(Escape(d), Escape(dst), [], rest);
    PrefixConcat(REVERSE_LINK_PREFIX, Escape(d) + [COLON] + [], Escape(dst) + [COLON] + rest);
    assert ReverseDstPrefix(d) == REVERSE_LINK_PREFIX + (Escape(d) + [COLON] + []);
    assert BuildReverseLinkKey(dst, edge, src).value == REVERSE_LINK_PREFIX + (Escape(dst) + [COLON] + rest);
  }

  lemma EventKeyIsNotReverse(k: Kind, id: Bytes, version: nat, p: Bytes)
    requires ValidKind(k) && id != [] && REVERSE_LINK_PREFIX <= p
    ensures !(p <= BuildKey(k, id, version).value)
  {
    DifferAt(p, BuildKey(k, id, version).value, 1);
  }

  lemma ReverseKeyIsNotEvent(dst: Bytes, edge: Bytes, src: Bytes, k: Kind, p: Bytes)
    requires dst != [] && edge != [] && src != [] && ValidKind(k) && Prefix(k) <= p
    ensures !(p <= BuildReverseLinkKey(dst, edge, src).value)
  {
    DifferAt(p, BuildReverseLinkKey(dst, edge, src).value, 1);
  }

  // ---------- links ----------

  /** `Link.ID`. */
  function LinkID(src: Bytes, edge: Bytes, dst: Bytes): Bytes {
    Composite(src, edge, dst)
  }

  /** `forwardSrcPrefix` in `graph/keys.go`. */
  function ForwardSrcPrefix(start: Bytes): Bytes {
    Prefix(LINK) + Escape(Escape(start)) + [BACKSLASH, LOWER_C]
  }

  /** Although a link's key escapes its source twice, it starts with the prefix
      of `s` exactly when `s` is its source. */
  lemma ForwardSrcPrefixIsExact(s: Bytes, src: Bytes, edge: Bytes, dst: Bytes, version: nat)
    requires version < MAX_VERSIONS
    ensures LinkID(src, edge, dst) != []
    ensures ForwardSrcPrefix(s) <= BuildKey(LINK, LinkID(src, edge, dst), version).value <==> s == src
  {
    var u, w, rest := Escape(s), Escape(src), Escape(edge) + [COLON] + Escape(dst);
    var id := LinkID(src, edge, dst);
    NoColon(s);
    NoColon(src);
    EscapeInjective(s, src);
    ColonDecides(u, w, [], rest);
    assert id == w + [COLON] + rest;
    EscapePrefix(u + [COLON], id);
    assert u + [COLON] + [] == u + [COLON];
    ForwardPrefixEscapes(s);
    hide Escape, PadVersion, Prefix, Composite, ForwardSrcPrefix;
    EscapedKeyPrefix(u + [COLON], id, version);
  }

  lemma ForwardPrefixEscapes(s: Bytes)
    ensures ForwardSrcPrefix(s) == Prefix(LINK) + Escape(Escape(s) + [COLON])
  {
    EscapeConcat(Escape(s), [COLON]);
    EscapeOne(COLON);
    hide Escape;
    assert Prefix(LINK) + Escape(Escape(s)) + [BACKSLASH, LOWER_C] == Prefix(LINK) + (Escape(Escape(s)) + [BACKSLASH, LOWER_C]);
  }

  /** Escaped strings are compared through the key of an id. */
  lemma EscapedKeyPrefix(p: Bytes, id: Bytes, version: nat)
    requires id != []
    ensures Prefix(LINK) + Escape(p) <= BuildKey(LINK, id, version).value <==> Escape(p) <= Escape(id)
  {
    NoColon(p);
    hide Escape, PadVersion, Prefix;
    var tail := VERSION_SEPARATOR + PadVersion(version);
    EscapedPrefixOf(Escape(p), Escape(id), tail);
    PrefixConcat(Prefix(LINK), Escape(p), Escape(id) + tail);
    assert BuildKey(LINK, id, version).value == Prefix(LINK) + (Escape(id) + tail);
  }

  /** A string without colons cannot reach past the first one. */
  lemma EscapedPrefixOf(p: Bytes, e: Bytes, tail: Bytes)
    requires COLON !in p && tail != [] && tail[0] == COLON
    ensures p <= e + tail <==> p <= e
  {
    if |p| > |e| {
      assert p[|e|] in p;
      DifferAt(p, e + tail, |e|);
    } else {
      assert (e + tail)[..|p|] == e[..|p|];
    }
  }

  /** `splitChainTuple` in `graph/keys.go`: the escaped id of a link key. */
  function SplitChainTuple(key: Bytes): Result<Bytes> {
    if !(Prefix(LINK) <= key) || |key| < 2 + 1 + VERSION_TAIL then Err(InvalidKey)
    else Ok(key[2..|key| - VERSION_TAIL])
  }

  /** `chainPrefixFromForwardKey` in `graph/keys.go`. */
  function ChainPrefixFromForwardKey(key: Bytes): Result<Bytes> {
    if |key| < VERSION_TAIL + 2 then Err(InvalidKey)
    else Ok(key[..|key| - VERSION_TAIL] + VERSION_SEPARATOR)
  }

  /** Both read a stored link key the way it was built: two keys have the same
      tuple exactly when they are versions of one link. */
  lemma LinkKeyParts(id: Bytes, version: nat)
    requires id != [] && version < MAX_VERSIONS
    ensures SplitChainTuple(BuildKey(LINK, id, version).value) == Ok(Escape(id))
    ensures ChainPrefixFromForwardKey(BuildKey(LINK, id, version).value) == ChainPrefix(LINK, id)
  {
    KeyParts(LINK, id, version);
    hide Escape, PadVersion;
    var key := BuildKey(LINK, id, version).value;
    assert key[..|key| - VERSION_TAIL] == key[..2] + key[2..|key| - VERSION_TAIL];
  }

  /** What the two accept: a tuple needs "l:" and more than 20 bytes, a chain
      prefix 20 bytes. */
  lemma LinkKeyChecks(key: Bytes)
    ensures SplitChainTuple(key) ==
            if |key| > 20 && key[0] == 108 && key[1] == 58 then Ok(key[2..|key| - 18]) else Err(InvalidKey)
    ensures ChainPrefixFromForwardKey(key) ==
            if |key| >= 20 then Ok(key[..|key| - 18] + [58, 118]) else Err(InvalidKey)
  {
    assert [108, 58] <= key <==> |key| >= 2 && key[0] == 108 && key[1] == 58;
  }
}
