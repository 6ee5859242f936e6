/** The byte format of MVCC keys (storage/mvcc_key.go). */
module MvccKeys {
  import opened ByteStrings

  const MAX_VERSION: nat := 0xFFFF_FFFF_FFFF_FFFF

  /** A 64-bit transaction version. */
  type Version = v: nat | v <= MAX_VERSION

  datatype MvccKey =
    | NextVersion
    | TxnActive(version: Version)
    | TxnWrite(version: Version, rawKey: Bytes)
    | Versioned(rawKey: Bytes, version: Version)

  /** "\x00spacedb\x00" */
  const NAMESPACE: Bytes := [0, 115, 112, 97, 99, 101, 100, 98, 0]

  function KindByte(k: MvccKey): Byte {
    match k
    case NextVersion => 0
    case TxnActive(_) => 1
    case TxnWrite(_, _) => 2
    case Versioned(_, _) => 3
  }

  function KindPrefix(kind: Byte): (p: Bytes)
    ensures |p| == 10
  {
    NAMESPACE + [kind]
  }

  function EncodeVersion(v: Version): Bytes {
    BigEndian(v, 8)
  }

  lemma Pow256Of8()
    ensures Pow256(8) == MAX_VERSION + 1
  {
    assert Pow256(2) == 0x1_0000;
    assert Pow256(4) == 0x1_0000_0000;
    assert Pow256(6) == 0x1_0000_0000_0000;
  }

  function DecodeVersion(b: Bytes): (r: Option<Version>) {
    if |b| != 8 then None
    else
      Pow256Of8();
      FromBigEndianRoundTrip(b);
      Some(FromBigEndian(b))
  }

  /** A zero byte becomes 00 ff. */
  function Escaped(b: Byte): Bytes {
    if b == 0 then [0, 255] else [b]
  }

  function Escape(raw: Bytes): Bytes {
    if raw == [] then [] else Escaped(raw[0]) + Escape(raw[1..])
  }

  /** An escaped key closed by 00 00. */
  function Terminated(raw: Bytes): Bytes {
    Escape(raw) + [0, 0]
  }

  function Encode(k: MvccKey): Bytes {
    KindPrefix(KindByte(k)) +
    match k {
      case NextVersion => []
      case TxnActive(v) => EncodeVersion(v)
      case TxnWrite(v, raw) => EncodeVersion(v) + Terminated(raw)
      case Versioned(raw, v) => Terminated(raw) + EncodeVersion(v)
    }
  }

  /** The raw key before the first 00 00, and what follows it; None for every malformed input. */
  function DecodeRaw(b: Bytes): Option<(Bytes, Bytes)> {
    if b == [] then None
    else if b[0] != 0 then Prepend(b[0], DecodeRaw(b[1..]))
    else if |b| < 2 then None
    else if b[1] == 0 then Some(([], b[2..]))
    else if b[1] == 255 then Prepend(0, DecodeRaw(b[2..]))
    else None
  }

  function Prepend(x: Byte, r: Option<(Bytes, Bytes)>): Option<(Bytes, Bytes)> {
    if r.None? then None else Some(([x] + r.value.0, r.value.1))
  }

  function Decode(b: Bytes): Option<MvccKey> {
    if |b| < 10 || b[..9] != NAMESPACE then None
    else
      var payload := b[10..];
      match b[9] {
        case 0 => if payload == [] then Some(NextVersion) else None
        case 1 =>
          var v := DecodeVersion(payload);
          if v.None? then None else Some(TxnActive(v.value))
        case 2 =>
          if |payload| < 8 then None
          else
            var v := DecodeVersion(payload[..8]);
            var raw := DecodeRaw(payload[8..]);
            if v.None? || raw.None? || raw.value.1 != [] then None
            else Some(TxnWrite(v.value, raw.value.0))
        case 3 =>
          var raw := DecodeRaw(payload);
          if raw.None? then None
          else
            var v := DecodeVersion(raw.value.1);
            if v.None? then None else Some(Versioned(raw.value.0, v.value))
        case _ => None
      }
  }

  // ---- The loops of the codec ----

  /** `appendEscapedRawKey` */
  method AppendEscapedRawKey(dst: Bytes, raw: Bytes) returns (out: Bytes)
    ensures out == dst + Escape(raw)
    ensures forall key: Bytes, rest: Bytes :: Escape(raw) <= Terminated(key) + rest <==> raw <= key
  {
    out := dst;
    for i := 0 to |raw|
      invariant out + Escape(raw[i..]) == dst + Escape(raw)
    {
      assert raw[i..][0] == raw[i] && raw[i..][1..] == raw[i + 1..];
      if raw[i] == 0 {
        out := out + [0, 255];
      } else {
        out := out + [raw[i]];
      }
    }
    assert raw[|raw|..] == [];
    forall key: Bytes, rest: Bytes
      ensures Escape(raw) <= Terminated(key) + rest <==> raw <= key
    {
      EscapedPrefix(raw, key, rest);
    }
  }

  /** `decodeRawKey`: the index walk over the escaped bytes. */
  method DecodeRawKey(b: Bytes) returns (r: Option<(Bytes, Bytes)>)
    ensures r == DecodeRaw(b)
    ensures r.Some? <==> exists raw: Bytes, rest: Bytes :: b == Terminated(raw) + rest
    ensures r.Some? ==> b == Terminated(r.value.0) + r.value.1
  {
    var raw: Bytes := [];
    var i := 0;
    r := None;
    assert b[0..] == b;
    assert DecodeRaw(b).Some? ==> [] + DecodeRaw(b).value.0 == DecodeRaw(b).value.0;
    while i < |b|
      invariant 0 <= i <= |b| && r == None
      invariant DecodeRaw(b) == PrependAll(raw, DecodeRaw(b[i..]))
    {
      assert b[i..][0] == b[i] && b[i..][1..] == b[i + 1..];
      if b[i] != 0 {
        PrependAllStep(raw, b[i], DecodeRaw(b[i + 1..]));
        raw := raw + [b[i]];
        i := i + 1;
        continue;
      }
      if i + 1 >= |b| {
        break;
      }
      assert b[i..][1] == b[i + 1] && b[i..][2..] == b[i + 2..];
      if b[i + 1] == 0 {
        r := Some((raw, b[i + 2..]));
        assert raw + [] == raw;
        break;
      } else if b[i + 1] == 255 {
        PrependAllStep(raw, 0, DecodeRaw(b[i + 2..]));
        raw := raw + [0];
        i := i + 2;
      } else {
        break;
      }
    }
    DecodeRawExact(b);
  }

  ghost function PrependAll(p: Bytes, r: Option<(Bytes, Bytes)>): Option<(Bytes, Bytes)> {
    if r.None? then None else Some((p + r.value.0, r.value.1))
  }

  lemma PrependAllStep(p: Bytes, x: Byte, r: Option<(Bytes, Bytes)>)
    ensures PrependAll(p, Prepend(x, r)) == PrependAll(p + [x], r)
  {
    if r.Some? {
      assert p + ([x] + r.value.0) == (p + [x]) + r.value.0;
    }
  }

  // ---- Decoding inverts encoding, both ways ----

  lemma {:induction false} DecodeTerminated(raw: Bytes, rest: Bytes)
    ensures DecodeRaw(Terminated(raw) + rest) == Some((raw, rest))
  {
    var b := Terminated(raw) + rest;
    if raw == [] {
      assert b == [0, 0] + rest;
    } else {
      DecodeTerminated(raw[1..], rest);
      var tail := Terminated(raw[1..]) + rest;
      assert b == Escaped(raw[0]) + tail;
      assert raw == [raw[0]] + raw[1..];
    }
  }

  lemma {:induction false} TerminatedOfDecoded(b: Bytes)
    ensures DecodeRaw(b).Some? ==> b == Terminated(DecodeRaw(b).value.0) + DecodeRaw(b).value.1
  {
    var r := DecodeRaw(b);
    if r.Some? {
      if b[0] != 0 {
        TerminatedOfDecoded(b[1..]);
        var s := DecodeRaw(b[1..]).value;
        assert ([b[0]] + s.0)[1..] == s.0;
        assert b == [b[0]] + b[1..];
      } else if b[1] == 0 {
        assert b == [0, 0] + b[2..];
      } else {
        TerminatedOfDecoded(b[2..]);
        var s := DecodeRaw(b[2..]).value;
        assert ([0] + s.0)[1..] == s.0;
        assert b == [0, 255] + b[2..];
      }
    }
  }

  lemma DecodeRawExact(b: Bytes)
    ensures DecodeRaw(b).Some? <==> exists raw: Bytes, rest: Bytes :: b == Terminated(raw) + rest
    ensures DecodeRaw(b).Some? ==> b == Terminated(DecodeRaw(b).value.0) + DecodeRaw(b).value.1
  {
    TerminatedOfDecoded(b);
    forall raw: Bytes, rest: Bytes | b == Terminated(raw) + rest
      ensures DecodeRaw(b).Some?
    {
      DecodeTerminated(raw, rest);
    }
  }

  lemma VersionRoundTrip(v: Version)
    ensures DecodeVersion(EncodeVersion(v)) == Some(v)
  {
    Pow256Of8();
    BigEndianRoundTrip(v, 8);
  }

  lemma VersionOfDecoded(b: Bytes)
    ensures DecodeVersion(b).Some? ==> EncodeVersion(DecodeVersion(b).value) == b
  {
    if |b| == 8 {
      FromBigEndianRoundTrip(b);
    }
  }

  /** Every key decodes from its own encoding. */
  lemma DecodeEncode(k: MvccKey)
    ensures Decode(Encode(k)) == Some(k)
  {
    var b := Encode(k);
    var payload := b[10..];
    assert b[..9] == NAMESPACE && b[9] == KindByte(k);
    match k
    case NextVersion =>
    case TxnActive(v) =>
      assert payload == EncodeVersion(v);
      VersionRoundTrip(v);
    case TxnWrite(v, raw) =>
      assert payload == EncodeVersion(v) + Terminated(raw);
      assert payload[..8] == EncodeVersion(v) && payload[8..] == Terminated(raw) == Terminated(raw) + [];
      VersionRoundTrip(v);
      DecodeTerminated(raw, []);
    case Versioned(raw, v) =>
      assert payload == Terminated(raw) + EncodeVersion(v);
      VersionRoundTrip(v);
      DecodeTerminated(raw, EncodeVersion(v));
  }

  /** Every accepted byte string is the encoding of the key it decodes to. */
  lemma EncodeDecode(b: Bytes)
    ensures Decode(b).Some? ==> Encode(Decode(b).value) == b
  {
    if Decode(b).Some? {
      var payload := b[10..];
      assert b == KindPrefix(b[9]) + payload;
      if b[9] == 1 {
        VersionOfDecoded(payload);
      } else if b[9] == 2 {
        VersionOfDecoded(payload[..8]);
        TerminatedOfDecoded(payload[8..]);
        assert payload == payload[..8] + payload[8..];
      } else if b[9] == 3 {
        TerminatedOfDecoded(payload);
        VersionOfDecoded(DecodeRaw(payload).value.1);
      }
    }
  }

  /** No two keys, of the same kind or of different kinds, share an encoding. */
  lemma EncodeInjective(j: MvccKey, k: MvccKey)
    ensures Encode(j) == Encode(k) ==> j == k
  {
    DecodeEncode(j);
    DecodeEncode(k);
  }

  // ---- Order ----

  lemma TerminatedStep(a: Bytes, x: Bytes)
    requires a != []
    ensures Terminated(a) + x == Escaped(a[0]) + (Terminated(a[1..]) + x)
  {
  }

  /** The terminator sorts below every escaped byte. */
  lemma EmptyFirst(x: Bytes, b: Bytes, y: Bytes)
    requires b != []
    ensures Less(Terminated([]) + x, Terminated(b) + y) && !Less(Terminated(b) + y, Terminated([]) + x)
  {
    var l, r := Terminated([]) + x, Terminated(b) + y;
    TerminatedStep(b, y);
    assert l[0] == 0 && l[1] == 0;
    if b[0] == 0 {
      assert r[0] == 0 && r[1] == 255;
      assert l[1..][0] == 0 && r[1..][0] == 255;
    } else {
      assert r[0] == b[0];
    }
  }

  lemma {:induction false} TerminatedOrder(a: Bytes, x: Bytes, b: Bytes, y: Bytes)
    ensures Less(Terminated(a) + x, Terminated(b) + y) <==> Less(a, b) || (a == b && Less(x, y))
  {
    if a == [] && b == [] {
      LessCommonPrefix([0, 0], x, y);
    } else if a == [] {
      EmptyFirst(x, b, y);
    } else if b == [] {
      EmptyFirst(y, a, x);
    } else {
      TerminatedStep(a, x);
      TerminatedStep(b, y);
      if a[0] == b[0] {
        TerminatedOrder(a[1..], x, b[1..], y);
        LessCommonPrefix(Escaped(a[0]), Terminated(a[1..]) + x, Terminated(b[1..]) + y);
        assert a == [a[0]] + a[1..] && b == [b[0]] + b[1..];
      }
    }
  }

  /** Versioned keys sort by raw key, then by version. */
  lemma VersionedOrder(a: Bytes, v: Version, b: Bytes, w: Version)
    ensures Less(Encode(Versioned(a, v)), Encode(Versioned(b, w))) <==> Less(a, b) || (a == b && v < w)
  {
    LessCommonPrefix(KindPrefix(3), Terminated(a) + EncodeVersion(v), Terminated(b) + EncodeVersion(w));
    TerminatedOrder(a, EncodeVersion(v), b, EncodeVersion(w));
    Pow256Of8();
    BigEndianOrder(v, w, 8);
  }

  /** An escaped prefix starts an encoded key exactly when the prefix starts the raw key. */
  lemma {:induction false} EscapedPrefix(p: Bytes, key: Bytes, rest: Bytes)
    ensures Escape(p) <= Terminated(key) + rest <==> p <= key
  {
    if p != [] {
      var b := Terminated(key) + rest;
      var h := Escaped(p[0]);
      if key == [] {
        assert b == [0, 0] + rest;
        assert Escape(p)[0] != 0 || Escape(p)[1] == 255;
      } else if p[0] == key[0] {
        EscapedPrefix(p[1..], key[1..], rest);
        var tail := Terminated(key[1..]) + rest;
        assert b == h + tail;
        assert Escape(p) <= b <==> Escape(p[1..]) <= tail by {
          assert b[|h|..] == tail && Escape(p)[|h|..] == Escape(p[1..]);
          assert Escape(p[1..]) <= tail ==> tail == Escape(p[1..]) + tail[|Escape(p[1..])|..];
        }
        assert p == [p[0]] + p[1..] && key == [key[0]] + key[1..];
      } else {
        assert Escape(p)[0] == p[0] && b[0] == key[0];
      }
    }
  }

  // ---- Scan prefixes ----

  function VersionedPrefix(p: Bytes): Bytes {
    KindPrefix(3) + Escape(p)
  }

  function TxnWritePrefix(v: Version): Bytes {
    KindPrefix(2) + EncodeVersion(v)
  }

  lemma KindPrefixOnly(kind: Byte, k: MvccKey, tail: Bytes)
    ensures KindPrefix(kind) + tail <= Encode(k) ==> KindByte(k) == kind
    ensures KindPrefix(kind) <= Encode(k) <==> KindByte(k) == kind
  {
    assert Encode(k)[9] == KindByte(k);
    assert (KindPrefix(kind) + tail)[9] == kind;
  }

  /** The prefix of a raw-key scan selects the versions of the raw keys with that prefix, and nothing else. */
  lemma VersionedPrefixSelects(p: Bytes, k: MvccKey)
    ensures VersionedPrefix(p) <= Encode(k) <==> k.Versioned? && p <= k.rawKey
  {
    KindPrefixOnly(3, k, Escape(p));
    if k.Versioned? {
      PrefixOfTail(KindPrefix(3), Escape(p), Terminated(k.rawKey) + EncodeVersion(k.version));
      EscapedPrefix(p, k.rawKey, EncodeVersion(k.version));
    }
  }

  /** The prefix of a write-set scan selects the write records of that transaction, and nothing else. */
  lemma TxnWritePrefixSelects(v: Version, k: MvccKey)
    ensures TxnWritePrefix(v) <= Encode(k) <==> k.TxnWrite? && k.version == v
  {
    KindPrefixOnly(2, k, EncodeVersion(v));
    if k.TxnWrite? {
      PrefixOfTail(KindPrefix(2), EncodeVersion(v), EncodeVersion(k.version) + Terminated(k.rawKey));
      assert EncodeVersion(v) <= EncodeVersion(k.version) + Terminated(k.rawKey) <==>
        EncodeVersion(v) == EncodeVersion(k.version);
      VersionRoundTrip(v);
      VersionRoundTrip(k.version);
    }
  }

  lemma PrefixOfTail(h: Bytes, a: Bytes, b: Bytes)
    ensures h + a <= h + b <==> a <= b
  {
    assert (h + a)[|h|..] == a && (h + b)[|h|..] == b;
    if h + a <= h + b {
      assert forall i | 0 <= i < |a| :: a[i] == (h + a)[|h| + i] && b[i] == (h + b)[|h| + i];
    }
  }
}
