/** Byte strings, the order `bytes.Compare` puts on them, and big-endian integers. */
module ByteStrings {

  type Byte = b: int | 0 <= b < 256

  type Bytes = seq<Byte>

  datatype Option<+T> = None | Some(value: T)

  /** A Go byte slice: `nil` is not the empty slice. */
  datatype Slice = Nil | Slice(bytes: Bytes) {
    function Contents(): Bytes {
      if Nil? then [] else bytes
    }
  }

  /** `bytes.Compare(a, b) < 0`. */
  predicate Less(a: Bytes, b: Bytes) {
    b != [] && (a == [] || a[0] < b[0] || (a[0] == b[0] && Less(a[1..], b[1..])))
  }

  lemma {:induction false} LessIrreflexive(a: Bytes)
    ensures !Less(a, a)
  {
    if a != [] {
      LessIrreflexive(a[1..]);
    }
  }

  lemma {:induction false} LessTransitive(a: Bytes, b: Bytes, c: Bytes)
    requires Less(a, b) && Less(b, c)
    ensures Less(a, c)
  {
    if a != [] && a[0] == b[0] == c[0] {
      LessTransitive(a[1..], b[1..], c[1..]);
    }
  }

  lemma {:induction false} LessTotal(a: Bytes, b: Bytes)
    ensures a == b || Less(a, b) || Less(b, a)
    ensures !(Less(a, b) && Less(b, a))
    ensures Less(a, b) ==> a != b
  {
    if a != [] && b != [] && a[0] == b[0] {
      LessTotal(a[1..], b[1..]);
      assert a == [a[0]] + a[1..] && b == [b[0]] + b[1..];
    }
  }

  lemma {:induction false} LessCommonPrefix(p: Bytes, a: Bytes, b: Bytes)
    ensures Less(p + a, p + b) <==> Less(a, b)
  {
    if p == [] {
      assert p + a == a && p + b == b;
    } else {
      LessCommonPrefix(p[1..], a, b);
      assert (p + a)[1..] == p[1..] + a && (p + b)[1..] == p[1..] + b;
    }
  }

  /** Strings of equal length compare by their heads before their tails. */
  lemma {:induction false} LessEqualLength(a: Bytes, x: Bytes, b: Bytes, y: Bytes)
    requires |a| == |b|
    ensures Less(a + x, b + y) <==> Less(a, b) || (a == b && Less(x, y))
  {
    if a == [] {
      assert a + x == x && b + y == y;
    } else {
      LessEqualLength(a[1..], x, b[1..], y);
      assert (a + x)[1..] == a[1..] + x && (b + y)[1..] == b[1..] + y;
      assert a == [a[0]] + a[1..] && b == [b[0]] + b[1..];
    }
  }

  // ---- The exclusive upper bound of a prefix ----

  /** The smallest string above every string that starts with `p`; None when there is none. */
  function PrefixEnd(p: Bytes): Option<Bytes> {
    if p == [] then None
    else
      var i := |p| - 1;
      if p[i] == 255 then PrefixEnd(p[..i]) else Some(p[..i] + [p[i] + 1])
  }

  /** A key lies in the half-open range [lo, hi); an absent bound does not constrain it. */
  predicate InRange(key: Bytes, lo: Option<Bytes>, hi: Option<Bytes>) {
    && (lo.Some? ==> !Less(key, lo.value))
    && (hi.Some? ==> Less(key, hi.value))
  }

  /** Scanning [p, prefixEnd(p)) visits exactly the keys that start with p. */
  lemma {:induction false} PrefixRange(p: Bytes, key: Bytes)
    ensures p <= key <==> InRange(key, Some(p), PrefixEnd(p))
  {
    PrefixAtLeast(p, key);
    PrefixBelowEnd(p, key);
  }

  lemma {:induction false} PrefixAtLeast(p: Bytes, key: Bytes)
    ensures p <= key ==> !Less(key, p)
  {
    if p <= key {
      LessCommonPrefix(p, key[|p|..], []);
      assert p + key[|p|..] == key && p + [] == p;
    }
  }

  /** Above p, staying below prefixEnd(p) is the same as starting with p. */
  lemma {:induction false} PrefixBelowEnd(p: Bytes, key: Bytes)
    ensures !Less(key, p) ==> (p <= key <==> (PrefixEnd(p).Some? ==> Less(key, PrefixEnd(p).value)))
  {
    if p != [] && !Less(key, p) {
      var i := |p| - 1;
      var q := p[..i];
      assert p == q + [p[i]];
      PrefixAtLeast(q, p);
      LessTotal(q, p);
      if Less(key, q) {
        LessTransitive(key, q, p);
        assert false;
      }
      PrefixBelowEnd(q, key);
      if q <= key {
        var rest := key[i..];
        assert key == q + rest;
        LessCommonPrefix(q, rest, [p[i]]);
        if p[i] != 255 {
          LessCommonPrefix(q, rest, [p[i] + 1]);
        }
        assert p <= key <==> rest != [] && rest[0] == p[i];
      } else if p[i] != 255 {
        NotPrefixAbove(q, [p[i] + 1], key);
      }
    }
  }

  /** A string above q that does not start with q is above everything that does. */
  lemma {:induction false} NotPrefixAbove(q: Bytes, x: Bytes, key: Bytes)
    requires !Less(key, q) && !(q <= key)
    ensures !Less(key, q + x)
  {
    if key != [] && key[0] == q[0] {
      assert (q + x)[1..] == q[1..] + x;
      assert key == [key[0]] + key[1..] && q == [q[0]] + q[1..];
      NotPrefixAbove(q[1..], x, key[1..]);
    }
  }

  /** `prefixEnd`: the backward loop over a copy of the prefix. */
  method ComputePrefixEnd(p: Bytes) returns (end: Option<Bytes>)
    ensures end == PrefixEnd(p)
    ensures forall key: Bytes :: p <= key <==> InRange(key, Some(p), end)
  {
    var i := |p|;
    assert p[..i] == p;
    while i > 0
      invariant 0 <= i <= |p|
      invariant PrefixEnd(p) == PrefixEnd(p[..i])
    {
      if p[i - 1] != 255 {
        end := Some(p[..i][i - 1 := p[i - 1] + 1]);
        assert p[..i][..i - 1] == p[..i - 1];
        assert end.value == p[..i - 1] + [p[i - 1] + 1];
        break;
      }
      assert p[..i][..i - 1] == p[..i - 1];
      i := i - 1;
    }
    if i == 0 {
      end := None;
    }
    forall key: Bytes
      ensures p <= key <==> InRange(key, Some(p), end)
    {
      PrefixRange(p, key);
    }
  }

  // ---- Big-endian integers ----

  function Pow256(n: nat): (r: nat)
    ensures r > 0
  {
    if n == 0 then 1 else 256 * Pow256(n - 1)
  }

  /** The n low-order bytes of v, most significant first. */
  function BigEndian(v: nat, n: nat): (b: Bytes)
    ensures |b| == n
  {
    if n == 0 then [] else BigEndian(v / 256, n - 1) + [v % 256]
  }

  function FromBigEndian(b: Bytes): nat {
    if b == [] then 0 else FromBigEndian(b[..|b| - 1]) * 256 + b[|b| - 1]
  }

  lemma {:induction false} BigEndianRoundTrip(v: nat, n: nat)
    requires v < Pow256(n)
    ensures FromBigEndian(BigEndian(v, n)) == v
  {
    if n != 0 {
      BigEndianRoundTrip(v / 256, n - 1);
      assert BigEndian(v, n)[..n - 1] == BigEndian(v / 256, n - 1);
    }
  }

  lemma {:induction false} FromBigEndianRoundTrip(b: Bytes)
    ensures FromBigEndian(b) < Pow256(|b|)
    ensures BigEndian(FromBigEndian(b), |b|) == b
  {
    if b != [] {
      FromBigEndianRoundTrip(b[..|b| - 1]);
      assert b == b[..|b| - 1] + [b[|b| - 1]];
    }
  }

  /** Big-endian bytes sort the way the numbers do. */
  lemma {:induction false} BigEndianOrder(v: nat, w: nat, n: nat)
    requires v < Pow256(n) && w < Pow256(n)
    ensures Less(BigEndian(v, n), BigEndian(w, n)) <==> v < w
  {
    if n != 0 {
      BigEndianOrder(v / 256, w / 256, n - 1);
      LessEqualLength(BigEndian(v / 256, n - 1), [v % 256], BigEndian(w / 256, n - 1), [w % 256]);
      if BigEndian(v / 256, n - 1) == BigEndian(w / 256, n - 1) {
        BigEndianRoundTrip(v / 256, n - 1);
        BigEndianRoundTrip(w / 256, n - 1);
      }
    }
  }
}
