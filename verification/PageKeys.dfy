/** Page IDs as 8-byte big-endian keys: `PageIDToKey` and `KeyToPageID` in
    `freelist/btree_freelist.go`. */
module PageKeys {
  import opened Bytes

  const ID_LIMIT: nat := 0x1_0000_0000_0000_0000

  function Pow256(w: nat): (p: nat)
    ensures p > 0
  {
    if w == 0 then 1 else 256 * Pow256(w - 1)
  }

  /** The `w` low bytes of `n`, most significant first. */
  function BigEndian(n: nat, w: nat): (k: Bytes)
    requires n < Pow256(w)
    ensures |k| == w
  {
    if w == 0 then [] else
    var p := Pow256(w - 1);
    TopByte(n, p);
    [(n / p) as byte] + BigEndian(n % p, w - 1)
  }

  function Value(k: Bytes): (n: nat)
    ensures n < Pow256(|k|)
  {
    if k == [] then 0 else
    var p := Pow256(|k| - 1);
    TopBound(k[0] as nat, p, Value(k[1..]));
    k[0] as nat * p + Value(k[1..])
  }

  lemma TopByte(n: nat, p: nat)
    requires p > 0 && n < 256 * p
    ensures 0 <= n / p < 256 && n == n / p * p + n % p
  {
  }

  lemma TopBound(b: nat, p: nat, v: nat)
    requires b < 256 && v < p
    ensures b * p + v < 256 * p
  {
    assert b * p <= 255 * p;
  }

  lemma DivMod(b: nat, p: nat, v: nat)
    requires v < p
    ensures (b * p + v) / p == b && (b * p + v) % p == v
  {
    var q, r := (b * p + v) / p, (b * p + v) % p;
    assert q * p + r == b * p + v;
    SameQuotient(q, r, b, v, p);
  }

  lemma SameQuotient(q: int, r: nat, b: int, v: nat, p: nat)
    requires r < p && v < p && q * p + r == b * p + v
    ensures q == b && r == v
  {
    assert (q - b) * p == v - r;
    if q - b >= 1 {
      TimesAtLeast(q - b, p);
    } else if b - q >= 1 {
      TimesAtLeast(b - q, p);
    }
  }

  lemma TimesAtLeast(d: int, p: nat)
    requires d >= 1
    ensures d * p >= p
  {
  }

  lemma {:induction false} ValueOfBigEndian(n: nat, w: nat)
    requires n < Pow256(w)
    ensures Value(BigEndian(n, w)) == n
  {
    hide Value;
    if w == 0 {
      NoValue();
    } else {
      var p := Pow256(w - 1);
      TopByte(n, p);
      ValueOfBigEndian(n % p, w - 1);
      ValueOfOneMore((n / p) as byte, BigEndian(n % p, w - 1));
    }
  }

  lemma NoValue()
    ensures Value([]) == 0
  {
  }

  lemma ValueOfOneMore(b: byte, k: Bytes)
    ensures Value([b] + k) == b as nat * Pow256(|k|) + Value(k)
  {
    assert ([b] + k)[1..] == k;
  }

  lemma {:induction false} BigEndianOfValue(k: Bytes)
    ensures BigEndian(Value(k), |k|) == k
  {
    if k != [] {
      var p := Pow256(|k| - 1);
      BigEndianOfValue(k[1..]);
      DivMod(k[0] as nat, p, Value(k[1..]));
      assert k == [k[0]] + k[1..];
    }
  }

  /** On keys of one width, byte order is numeric order. */
  lemma {:induction false} RankIsValueOrder(a: Bytes, b: Bytes)
    requires |a| == |b|
    ensures Rank(a) < Rank(b) <==> Value(a) < Value(b)
  {
    if a != [] {
      var p := Pow256(|a| - 1);
      RankIsValueOrder(a[1..], b[1..]);
      if a[0] < b[0] {
        LowerTop(a, b, p);
      } else if b[0] < a[0] {
        LowerTop(b, a, p);
      }
    }
  }

  lemma LowerTop(a: Bytes, b: Bytes, p: nat)
    requires |a| == |b| && a != [] && p == Pow256(|a| - 1) && a[0] < b[0]
    ensures Rank(a) < Rank(b) && Value(a) < Value(b)
  {
    assert a[0] as real + 1.0 <= b[0] as real;
    assert Rank(a) == (a[0] as real + 1.0 + Rank(a[1..])) / 257.0;
    assert Rank(b) == (b[0] as real + 1.0 + Rank(b[1..])) / 257.0;
    hide Rank;
    assert Value(a) == a[0] as nat * p + Value(a[1..]) && Value(a[1..]) < p;
    assert Value(b) == b[0] as nat * p + Value(b[1..]);
    hide Value;
    TopDecides(a[0] as nat, Value(a[1..]), b[0] as nat, Value(b[1..]), p);
  }

  lemma TopDecides(x: nat, v: nat, y: nat, w: nat, p: nat)
    requires x < y && v < p
    ensures x * p + v < y * p + w
  {
    TimesAtLeast(y - x, p);
    assert y * p == x * p + (y - x) * p;
  }

  lemma Widths()
    ensures Pow256(8) == ID_LIMIT
  {
    assert Pow256(2) == 0x1_0000;
    assert Pow256(4) == 0x1_0000_0000;
    assert Pow256(6) == 0x1_0000_0000_0000;
  }

  /** `PageIDToKey`. */
  function PageIDToKey(id: nat): (key: Bytes)
    requires id < ID_LIMIT
    ensures |key| == 8
  {
    Widths();
    BigEndian(id, 8)
  }

  /** `KeyToPageID`. */
  function KeyToPageID(key: Bytes): (id: nat)
    requires |key| == 8
    ensures id < ID_LIMIT
  {
    Widths();
    Value(key)
  }

  /** Page IDs and 8-byte keys correspond one to one, and the tree's key order
      is the order of the IDs. */
  lemma KeysAreIds(id: nat, key: Bytes)
    requires id < ID_LIMIT && |key| == 8
    ensures KeyToPageID(PageIDToKey(id)) == id
    ensures PageIDToKey(KeyToPageID(key)) == key
    ensures Rank(PageIDToKey(id)) < Rank(key) <==> id < KeyToPageID(key)
    ensures Rank(PageIDToKey(id)) <= Rank(key) <==> id <= KeyToPageID(key)
  {
    Widths();
    ValueOfBigEndian(id, 8);
    BigEndianOfValue(key);
    RankIsValueOrder(PageIDToKey(id), key);
    RankIsValueOrder(key, PageIDToKey(id));
  }
}
