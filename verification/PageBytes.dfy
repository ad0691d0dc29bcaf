/** Numbers and runs of bytes inside a page buffer: `encoding/endian.go` and
    Go's `copy` and `clear`. */
module PageBytes {
  import opened Bytes
  import opened PageKeys
  import opened Record

  const PAGE_SIZE: nat := 4096

  /** `s` with the bytes from `off` on replaced by `b`. */
  function Overlay(s: Bytes, off: nat, b: Bytes): (r: Bytes)
    requires off + |b| <= |s|
    ensures |r| == |s|
  {
    s[..off] + b + s[off + |b|..]
  }

  function Zeros(n: nat): (s: Bytes)
    ensures |s| == n
  {
    seq(n, _ => 0 as byte)
  }

  /** `Uint16`, `Uint32` and `Uint64`. */
  function Uint(s: Bytes, off: nat, w: nat): nat
    requires off + w <= |s|
  {
    LittleValue(s[off..off + w])
  }

  /** `PutUint16`, `PutUint32` and `PutUint64`. */
  method PutUint(buf: array<byte>, off: nat, w: nat, v: nat)
    requires off + w <= buf.Length
    modifies buf
    ensures buf[..] == Overlay(old(buf[..]), off, LittleEndian(v, w))
  {
    hide LittleEndian;
    ghost var was, digits := buf[..], LittleEndian(v, w);
    var rest := v;
    for i := 0 to w
      invariant digits[i..] == LittleEndian(rest, w - i)
      invariant buf[..] == was[..off] + digits[..i] + was[off + i..]
    {
      NextDigit(digits, i, rest, w - i);
      buf[off + i] := (rest % 256) as byte;
      rest := rest / 256;
    }
  }

  lemma NextDigit(digits: Bytes, i: nat, rest: nat, w: nat)
    requires i < |digits| && w > 0 && digits[i..] == LittleEndian(rest, w)
    ensures digits[i] == (rest % 256) as byte && digits[i + 1..] == LittleEndian(rest / 256, w - 1)
  {
    assert digits[i] == digits[i..][0] && digits[i + 1..] == digits[i..][1..];
  }

  /** `copy` within one buffer, whose ranges may overlap. */
  method Copy(buf: array<byte>, dst: nat, src: nat, n: nat)
    requires dst + n <= buf.Length && src + n <= buf.Length
    modifies buf
    ensures buf[..] == Overlay(old(buf[..]), dst, old(buf[..])[src..src + n])
  {
    forall k | 0 <= k < n {
      buf[dst + k] := buf[src + k];
    }
  }

  /** `copy` into a buffer. */
  method Write(buf: array<byte>, off: nat, b: Bytes)
    requires off + |b| <= buf.Length
    modifies buf
    ensures buf[..] == Overlay(old(buf[..]), off, b)
  {
    forall k | 0 <= k < |b| {
      buf[off + k] := b[k];
    }
  }

  /** `clear`. */
  method Clear(buf: array<byte>, off: nat, n: nat)
    requires off + n <= buf.Length
    modifies buf
    ensures buf[..] == Overlay(old(buf[..]), off, Zeros(n))
  {
    forall k | 0 <= k < n {
      buf[off + k] := 0;
    }
  }

  /** What is written at `off` is read back there. */
  lemma OverlayReads(s: Bytes, off: nat, b: Bytes)
    requires off + |b| <= |s|
    ensures Overlay(s, off, b)[off..off + |b|] == b
  {
  }

  /** The rest of the buffer stays as it is. */
  lemma OverlayKeeps(s: Bytes, off: nat, b: Bytes, at: nat, w: nat)
    requires off + |b| <= |s| && at + w <= |s| && (at + w <= off || off + |b| <= at)
    ensures Overlay(s, off, b)[at..at + w] == s[at..at + w]
  {
  }

  /** A number written is read back, and others stay as they are. */
  lemma UintReads(s: Bytes, off: nat, w: nat, v: nat)
    requires off + w <= |s| && v < Pow256(w)
    ensures Uint(Overlay(s, off, LittleEndian(v, w)), off, w) == v
  {
    OverlayReads(s, off, LittleEndian(v, w));
    LittleInverts(v, w);
  }
}
