/** The append-only log of storage/disk_log.go and what replaying it means. */
module DiskLogs {
  import opened ByteStrings
  import opened Ordering

  const HEADER_SIZE: nat := 8
  const MAX_VALUE_SIZE: nat := 0x7FFF_FFFF
  const MAX_ENTRY_SIZE: nat := 0xFFFF_FFFF
  /** The int32 value length -1, as the four bytes hold it. */
  const TOMBSTONE_FIELD: nat := 0xFFFF_FFFF

  datatype Record = Put(key: Bytes, value: Bytes) | Tombstone(key: Bytes)

  datatype Position = Position(offset: nat, size: nat)

  type Keydir = map<Bytes, Position>

  function Stored(r: Record): Bytes {
    if r.Put? then r.value else []
  }

  function EntrySize(r: Record): nat {
    HEADER_SIZE + |r.key| + |Stored(r)|
  }

  /** What `writeEntry` accepts. */
  predicate WellFormed(r: Record) {
    |Stored(r)| <= MAX_VALUE_SIZE && EntrySize(r) <= MAX_ENTRY_SIZE
  }

  predicate AllWellFormed(rs: seq<Record>) {
    forall r :: r in rs ==> WellFormed(r)
  }

  function ValueField(r: Record): nat {
    if r.Put? then |r.value| else TOMBSTONE_FIELD
  }

  function EncodeRecord(r: Record): (b: Bytes)
    ensures |b| == EntrySize(r)
  {
    BigEndian(|r.key|, 4) + BigEndian(ValueField(r), 4) + r.key + Stored(r)
  }

  function Encoder(): Record -> Bytes {
    r => EncodeRecord(r)
  }

  /** The records one after another, in any encoding. */
  function Concat(enc: Record -> Bytes, rs: seq<Record>): Bytes {
    if rs == [] then [] else enc(rs[0]) + Concat(enc, rs[1..])
  }

  function EncodeAll(rs: seq<Record>): Bytes {
    Concat(Encoder(), rs)
  }

  lemma {:induction false} EncodeAllConcat(a: seq<Record>, b: seq<Record>)
    ensures EncodeAll(a + b) == EncodeAll(a) + EncodeAll(b)
  {
    if a == [] {
      assert a + b == b;
    } else {
      assert (a + b)[1..] == a[1..] + b;
      EncodeAllConcat(a[1..], b);
    }
  }

  lemma EncodeOne(r: Record)
    ensures EncodeAll([r]) == EncodeRecord(r)
  {
    assert [r][1..] == [] && Concat(Encoder(), [r][1..]) == [];
  }

  // ---- Reading ----

  /** A 32-bit pattern read as a signed length. */
  function Int32(u: nat): int {
    if u < 0x8000_0000 then u else u - 0x1_0000_0000
  }

  /** `ReadAt` into a buffer of n bytes: an empty buffer is always filled. */
  function ReadAt(log: Bytes, offset: nat, n: nat): Option<Bytes> {
    if n == 0 then Some([]) else if offset + n <= |log| then Some(log[offset..offset + n]) else None
  }

  /** `readEntry`: the key of the record at an offset, and its value length field. */
  function ReadEntry(log: Bytes, offset: nat): Option<(Bytes, int)> {
    if offset + HEADER_SIZE > |log| then None
    else
      var keySize := FromBigEndian(log[offset..offset + 4]);
      var valueSize := Int32(FromBigEndian(log[offset + 4..offset + 8]));
      var key := ReadAt(log, offset + HEADER_SIZE, keySize);
      if key.None? then None else Some((key.value, valueSize))
  }

  lemma Pow256Of4()
    ensures Pow256(4) == 0x1_0000_0000
  {
    assert Pow256(2) == 0x1_0000;
  }

  /**
   A record is accepted exactly if the length of its value fits a signed 32-bit field and its
   whole length an unsigned one.
   */
  lemma WellFormedExact(r: Record)
    ensures WellFormed(r) <==> |Stored(r)| < Pow256(4) / 2 && 8 + |r.key| + |Stored(r)| < Pow256(4)
  {
    Pow256Of4();
  }

  predicate Stands(enc: Record -> Bytes, log: Bytes, offset: nat, r: Record) {
    offset + |enc(r)| <= |log| && log[offset..offset + |enc(r)|] == enc(r)
  }

  /** A record stands at an offset of the log. */
  predicate RecordAt(log: Bytes, offset: nat, r: Record) {
    Stands(Encoder(), log, offset, r)
  }

  lemma SubSlice(s: Bytes, a: nat, b: nat, c: nat, d: nat)
    requires a <= b <= |s| && c <= d <= b - a
    ensures s[a..b][c..d] == s[a + c..a + d]
  {
    var l, r := s[a..b][c..d], s[a + c..a + d];
    forall i | 0 <= i < |l|
      ensures l[i] == r[i]
    {
      assert l[i] == s[a..b][c + i];
    }
  }

  lemma FourParts(w: Bytes, i: nat, j: nat, k: nat)
    requires i <= j <= k <= |w|
    ensures w == w[..i] + w[i..j] + w[j..k] + w[k..]
  {
  }

  /** The header fields, the key and the value of a record, where they stand in the log. */
  predicate PartsAt(log: Bytes, offset: nat, r: Record) {
    offset + EntrySize(r) <= |log|
      && PiecesStand(log, offset, BigEndian(|r.key|, 4), BigEndian(ValueField(r), 4), r.key, Stored(r))
  }

  predicate PiecesStand(log: Bytes, a: nat, h: Bytes, f: Bytes, key: Bytes, stored: Bytes)
    requires |h| == |f| == 4 && a + 8 + |key| + |stored| <= |log|
  {
    var k, b := a + 8 + |key|, a + 8 + |key| + |stored|;
    log[a..a + 4] == h && log[a + 4..a + 8] == f && log[a + 8..k] == key && log[k..b] == stored
  }

  lemma FourPieces(w: Bytes, h: Bytes, f: Bytes, key: Bytes, stored: Bytes)
    requires |h| == |f| == 4 && |w| == 8 + |key| + |stored|
    ensures w == h + f + key + stored <==>
            w[0..4] == h && w[4..8] == f && w[8..8 + |key|] == key && w[8 + |key|..|w|] == stored
  {
    FourParts(w, 4, 8, 8 + |key|);
    var all := h + f + key + stored;
    assert all[0..4] == h && all[4..8] == f && all[8..8 + |key|] == key && all[8 + |key|..|all|] == stored;
  }

  /** Four pieces make up a stretch of the log exactly if each stands at its place there. */
  lemma PiecesAt(log: Bytes, a: nat, h: Bytes, f: Bytes, key: Bytes, stored: Bytes)
    requires |h| == |f| == 4 && a + 8 + |key| + |stored| <= |log|
    ensures log[a..a + 8 + |key| + |stored|] == h + f + key + stored <==> PiecesStand(log, a, h, f, key, stored)
  {
    var k, b := 8 + |key|, a + 8 + |key| + |stored|;
    FourPieces(log[a..b], h, f, key, stored);
    SubSlice(log, a, b, 0, 4);
    SubSlice(log, a, b, 4, 8);
    SubSlice(log, a, b, 8, k);
    SubSlice(log, a, b, k, b - a);
  }

  lemma PartsMakeRecord(log: Bytes, offset: nat, r: Record)
    ensures RecordAt(log, offset, r) <==> PartsAt(log, offset, r)
  {
    if offset + EntrySize(r) <= |log| {
      var h, f, stored := BigEndian(|r.key|, 4), BigEndian(ValueField(r), 4), Stored(r);
      PiecesAt(log, offset, h, f, r.key, stored);
      assert EncodeRecord(r) == h + f + r.key + stored;
    }
  }

  lemma ReadEntryOf(log: Bytes, offset: nat, r: Record)
    requires WellFormed(r) && RecordAt(log, offset, r)
    ensures ReadEntry(log, offset) == Some((r.key, if r.Put? then |r.value| else -1))
    ensures log[offset + HEADER_SIZE + |r.key|..offset + EntrySize(r)] == Stored(r)
  {
    PartsMakeRecord(log, offset, r);
    Pow256Of4();
    BigEndianRoundTrip(|r.key|, 4);
    BigEndianRoundTrip(ValueField(r), 4);
  }

  /** The record `rebuildKeydir` accepts at an offset, if any. */
  function ParseAt(log: Bytes, offset: nat): Option<Record> {
    var e := ReadEntry(log, offset);
    if e.None? then None
    else
      var (key, valueSize) := e.value;
      if valueSize < -1 then None
      else
        var stored := if valueSize == -1 then 0 else valueSize;
        var size := HEADER_SIZE + |key| + stored;
        if size > MAX_ENTRY_SIZE || size > |log| - offset then None
        else if valueSize == -1 then Some(Tombstone(key))
        else Some(Put(key, log[offset + HEADER_SIZE + |key|..offset + size]))
  }

  /** Parsing accepts exactly the well-formed records, where they stand. */
  lemma ParseAtExact(log: Bytes, offset: nat, r: Record)
    ensures ParseAt(log, offset) == Some(r) <==> WellFormed(r) && RecordAt(log, offset, r)
  {
    if WellFormed(r) && RecordAt(log, offset, r) {
      ReadEntryOf(log, offset, r);
    }
    if ParseAt(log, offset) == Some(r) {
      ParsedStands(log, offset, r);
    }
  }

  lemma ParsedStands(log: Bytes, offset: nat, r: Record)
    requires ParseAt(log, offset) == Some(r)
    ensures WellFormed(r) && RecordAt(log, offset, r)
  {
    ParsedFields(log, offset, r);
    FromBigEndianRoundTrip(log[offset..offset + 4]);
    FromBigEndianRoundTrip(log[offset + 4..offset + 8]);
    PartsMakeRecord(log, offset, r);
  }

  /** The header fields of what was parsed are the sizes of its parts, and the parts follow. */
  lemma ParsedFields(log: Bytes, offset: nat, r: Record)
    requires ParseAt(log, offset) == Some(r)
    ensures WellFormed(r) && offset + EntrySize(r) <= |log|
    ensures FromBigEndian(log[offset..offset + 4]) == |r.key|
    ensures FromBigEndian(log[offset + 4..offset + 8]) == ValueField(r)
    ensures log[offset + 8..offset + 8 + |r.key|] == r.key
    ensures log[offset + 8 + |r.key|..offset + EntrySize(r)] == Stored(r)
  {
    Pow256Of4();
    FromBigEndianRoundTrip(log[offset + 4..offset + 8]);
  }

  // ---- Replaying ----

  function Reindex(kd: Keydir, r: Record, offset: nat): Keydir {
    if r.Tombstone? then kd - {r.key} else kd[r.key := Position(offset, EntrySize(r))]
  }

  /** The index a log of these records has. */
  function Index(rs: seq<Record>): Keydir {
    if rs == [] then map[]
    else
      var init := rs[..|rs| - 1];
      Reindex(Index(init), rs[|rs| - 1], |EncodeAll(init)|)
  }

  function Update(m: map<Bytes, Bytes>, r: Record): map<Bytes, Bytes> {
    if r.Tombstone? then m - {r.key} else m[r.key := r.value]
  }

  /** The map these records build, the last write of a key winning. */
  function Replay(rs: seq<Record>): map<Bytes, Bytes> {
    if rs == [] then map[] else Update(Replay(rs[..|rs| - 1]), rs[|rs| - 1])
  }

  /** The offset loop of `rebuildKeydir` over a file of length len; None is its error. */
  function Walk(parse: nat -> Option<Record>, len: nat, offset: nat, kd: Keydir): Option<Keydir>
    decreases len - offset
  {
    if offset >= len then Some(kd)
    else
      var r := parse(offset);
      if r.None? then None
      else Walk(parse, len, offset + EntrySize(r.value), Reindex(kd, r.value, offset))
  }

  function Parser(log: Bytes): nat -> Option<Record> {
    (offset: nat) => ParseAt(log, offset)
  }

  /** The keydir `rebuildKeydir` computes from a log. */
  function Rebuild(log: Bytes): Option<Keydir> {
    Walk(Parser(log), |log|, 0, map[])
  }

  /** Parsing from an offset on meets the records rs, one after the other. */
  ghost predicate Meets(parse: nat -> Option<Record>, offset: nat, rs: seq<Record>)
    decreases |rs|
  {
    rs == [] || (parse(offset) == Some(rs[0]) && Meets(parse, offset + EntrySize(rs[0]), rs[1..]))
  }

  lemma SnocInit<T>(a: seq<T>, x: T)
    ensures (a + [x])[..|a + [x]| - 1] == a && (a + [x])[|a + [x]| - 1] == x
  {
  }

  lemma IndexSnoc(done: seq<Record>, r: Record)
    ensures Index(done + [r]) == Reindex(Index(done), r, |EncodeAll(done)|)
    ensures Replay(done + [r]) == Update(Replay(done), r)
    ensures EncodeAll(done + [r]) == EncodeAll(done) + EncodeRecord(r)
  {
    SnocInit(done, r);
    EncodeAllConcat(done, [r]);
    EncodeOne(r);
  }

  /** The index after going on from an offset. */
  ghost function IndexFrom(kd: Keydir, offset: nat, rs: seq<Record>): Keydir
    decreases |rs|
  {
    if rs == [] then kd else IndexFrom(Reindex(kd, rs[0], offset), offset + EntrySize(rs[0]), rs[1..])
  }

  function Size(rs: seq<Record>): nat {
    if rs == [] then 0 else EntrySize(rs[0]) + Size(rs[1..])
  }

  lemma {:induction false} WalkFrom(parse: nat -> Option<Record>, len: nat, offset: nat, kd: Keydir, rs: seq<Record>)
    requires Meets(parse, offset, rs) && len == offset + Size(rs)
    ensures Walk(parse, len, offset, kd) == Some(IndexFrom(kd, offset, rs))
    decreases |rs|
  {
    if rs != [] {
      WalkFrom(parse, len, offset + EntrySize(rs[0]), Reindex(kd, rs[0], offset), rs[1..]);
    }
  }

  lemma {:induction false} SizeOfEncoded(rs: seq<Record>)
    ensures |EncodeAll(rs)| == Size(rs)
  {
    if rs != [] {
      SizeOfEncoded(rs[1..]);
    }
  }

  lemma IndexOneMore(done: seq<Record>, r: Record)
    ensures Index(done + [r]) == Reindex(Index(done), r, Size(done)) && Size(done + [r]) == Size(done) + EntrySize(r)
  {
    IndexSnoc(done, r);
    SizeOfEncoded(done);
    SizeOfEncoded(done + [r]);
  }

  lemma MoveOver(done: seq<Record>, rest: seq<Record>)
    requires rest != []
    ensures (done + [rest[0]]) + rest[1..] == done + rest
  {
  }

  lemma {:induction false} IndexGoesOn(kd: Keydir, size: nat, done: seq<Record>, rest: seq<Record>, all: seq<Record>)
    requires kd == Index(done) && size == Size(done) && all == done + rest
    ensures IndexFrom(kd, size, rest) == Index(all)
    decreases |rest|
  {
    if rest == [] {
      assert done + rest == done;
    } else {
      var r := rest[0];
      IndexOneMore(done, r);
      MoveOver(done, rest);
      IndexGoesOn(Reindex(kd, r, size), size + EntrySize(r), done + [r], rest[1..], all);
    }
  }

  lemma WalkMeets(parse: nat -> Option<Record>, len: nat, rs: seq<Record>)
    requires Meets(parse, 0, rs) && len == |EncodeAll(rs)|
    ensures Walk(parse, len, 0, map[]) == Some(Index(rs))
  {
    SizeOfEncoded(rs);
    WalkFrom(parse, len, 0, map[], rs);
    IndexGoesOn(map[], 0, [], rs, rs);
    assert [] + rs == rs;
  }

  /** parse accepts exactly the well-formed records of the log, where they stand. */
  ghost predicate ParsesAs(enc: Record -> Bytes, parse: nat -> Option<Record>, log: Bytes) {
    && (forall r :: |enc(r)| == EntrySize(r))
    && forall offset: nat, r :: parse(offset) == Some(r) <==> WellFormed(r) && Stands(enc, log, offset, r)
  }

  ghost predicate Parses(parse: nat -> Option<Record>, log: Bytes) {
    ParsesAs(Encoder(), parse, log)
  }

  lemma ParserParses(log: Bytes)
    ensures Parses(Parser(log), log)
  {
    forall offset: nat, r
      ensures Parser(log)(offset) == Some(r) <==> WellFormed(r) && Stands(Encoder(), log, offset, r)
    {
      ParseAtExact(log, offset, r);
    }
  }

  /** No record reaches beyond the end of the log. */
  ghost predicate Within(parse: nat -> Option<Record>, len: nat) {
    forall offset: nat :: parse(offset).Some? ==> offset + EntrySize(parse(offset).value) <= len
  }

  lemma ParsesWithin(parse: nat -> Option<Record>, log: Bytes)
    requires Parses(parse, log)
    ensures Within(parse, |log|)
  {
    forall offset: nat | parse(offset).Some?
      ensures offset + EntrySize(parse(offset).value) <= |log|
    {
      assert parse(offset) == Some(parse(offset).value);
    }
  }

  lemma {:induction false} WalkedMeets(parse: nat -> Option<Record>, len: nat, offset: nat, kd: Keydir)
    returns (rs: seq<Record>)
    requires Within(parse, len) && offset <= len && Walk(parse, len, offset, kd).Some?
    ensures Meets(parse, offset, rs) && offset + Size(rs) == len
    decreases len - offset
  {
    if offset == len {
      rs := [];
    } else {
      var r := parse(offset).value;
      var rest := WalkedMeets(parse, len, offset + EntrySize(r), Reindex(kd, r, offset));
      rs := [r] + rest;
      assert rs[1..] == rest;
    }
  }

  /** w and then tail stand at the end of the log exactly if each stands at its place. */
  lemma CutAt(log: Bytes, offset: nat, w: Bytes, tail: Bytes)
    requires offset + |w| <= |log|
    ensures log[offset..] == w + tail <==> log[offset..offset + |w|] == w && log[offset + |w|..] == tail
  {
    var next := offset + |w|;
    assert log[offset..] == log[offset..next] + log[next..];
    if log[offset..] == w + tail {
      assert log[offset..next] == log[offset..][..|w|];
      assert log[next..] == log[offset..][|w|..];
    }
  }

  lemma HeadStandsFirst(enc: Record -> Bytes, log: Bytes, offset: nat, rs: seq<Record>)
    requires rs != [] && offset + |Concat(enc, rs)| == |log|
    ensures var next := offset + |enc(rs[0])|;
            && next + |Concat(enc, rs[1..])| == |log|
            && (log[offset..] == Concat(enc, rs) <==>
               Stands(enc, log, offset, rs[0]) && log[next..] == Concat(enc, rs[1..]))
  {
    CutAt(log, offset, enc(rs[0]), Concat(enc, rs[1..]));
  }

  lemma HeadMet(enc: Record -> Bytes, parse: nat -> Option<Record>, log: Bytes, offset: nat, rs: seq<Record>)
    requires ParsesAs(enc, parse, log) && rs != []
    ensures Meets(parse, offset, rs) <==>
            WellFormed(rs[0]) && Stands(enc, log, offset, rs[0]) && Meets(parse, offset + EntrySize(rs[0]), rs[1..])
  {
  }

  lemma {:induction false} MetIsThere(
    enc: Record -> Bytes, parse: nat -> Option<Record>, log: Bytes, offset: nat, rs: seq<Record>)
    requires ParsesAs(enc, parse, log) && offset + |Concat(enc, rs)| == |log| && Meets(parse, offset, rs)
    ensures AllWellFormed(rs) && log[offset..] == Concat(enc, rs)
    decreases |rs|
  {
    if rs != [] {
      HeadStandsFirst(enc, log, offset, rs);
      HeadMet(enc, parse, log, offset, rs);
      MetIsThere(enc, parse, log, offset + EntrySize(rs[0]), rs[1..]);
      FirstWellFormed(rs);
    }
  }

  lemma {:induction false} ThereIsMet(
    enc: Record -> Bytes, parse: nat -> Option<Record>, log: Bytes, offset: nat, rs: seq<Record>)
    requires ParsesAs(enc, parse, log) && offset + |Concat(enc, rs)| == |log| && AllWellFormed(rs)
    requires log[offset..] == Concat(enc, rs)
    ensures Meets(parse, offset, rs)
    decreases |rs|
  {
    if rs != [] {
      HeadStandsFirst(enc, log, offset, rs);
      HeadMet(enc, parse, log, offset, rs);
      FirstWellFormed(rs);
      ThereIsMet(enc, parse, log, offset + EntrySize(rs[0]), rs[1..]);
    }
  }

  lemma FirstWellFormed(rs: seq<Record>)
    requires rs != []
    ensures AllWellFormed(rs) <==> WellFormed(rs[0]) && AllWellFormed(rs[1..])
  {
    assert forall r :: r in rs <==> r == rs[0] || r in rs[1..];
  }

  /** What parsing meets to the end of the log is what the log encodes. */
  lemma MeetsExact(parse: nat -> Option<Record>, log: Bytes, offset: nat, rs: seq<Record>)
    requires Parses(parse, log) && offset + |EncodeAll(rs)| == |log|
    ensures Meets(parse, offset, rs) <==> AllWellFormed(rs) && log[offset..] == EncodeAll(rs)
  {
    if Meets(parse, offset, rs) {
      MetIsThere(Encoder(), parse, log, offset, rs);
    }
    if AllWellFormed(rs) && log[offset..] == EncodeAll(rs) {
      ThereIsMet(Encoder(), parse, log, offset, rs);
    }
  }

  /** Rebuilding succeeds exactly on concatenations of well-formed records, and then yields their index. */
  lemma RebuildExact(log: Bytes)
    ensures Rebuild(log).Some? <==> exists rs :: AllWellFormed(rs) && log == EncodeAll(rs)
    ensures forall rs :: AllWellFormed(rs) && log == EncodeAll(rs) ==> Rebuild(log) == Some(Index(rs))
  {
    assert log[0..] == log;
    ParserParses(log);
    if Rebuild(log).Some? {
      ParsesWithin(Parser(log), log);
      var rs := WalkedMeets(Parser(log), |log|, 0, map[]);
      SizeOfEncoded(rs);
      MeetsExact(Parser(log), log, 0, rs);
      assert log == EncodeAll(rs);
    }
    forall rs | AllWellFormed(rs) && log == EncodeAll(rs)
      ensures Rebuild(log) == Some(Index(rs))
    {
      MeetsExact(Parser(log), log, 0, rs);
      WalkMeets(Parser(log), |log|, rs);
    }
  }

  /** The log determines the records: tombstones, empty values and their order included. */
  lemma {:induction false} LogUnambiguous(a: seq<Record>, b: seq<Record>)
    requires AllWellFormed(a) && AllWellFormed(b) && EncodeAll(a) == EncodeAll(b)
    ensures a == b
  {
    if a != [] && b != [] {
      SameFirst(a, b);
      LogUnambiguous(a[1..], b[1..]);
      assert a == [a[0]] + a[1..] && b == [b[0]] + b[1..];
    }
  }

  lemma SameFirst(a: seq<Record>, b: seq<Record>)
    requires a != [] && b != [] && AllWellFormed(a) && AllWellFormed(b) && EncodeAll(a) == EncodeAll(b)
    ensures a[0] == b[0] && EncodeAll(a[1..]) == EncodeAll(b[1..])
  {
    HeadStands(a);
    HeadStands(b);
    OneRecordAt(EncodeAll(a), 0, a[0], b[0]);
  }

  lemma OneRecordAt(log: Bytes, offset: nat, r: Record, r': Record)
    requires WellFormed(r) && WellFormed(r') && RecordAt(log, offset, r) && RecordAt(log, offset, r')
    ensures r == r'
  {
    ParseAtExact(log, offset, r);
    ParseAtExact(log, offset, r');
  }

  lemma HeadStands(a: seq<Record>)
    requires a != []
    ensures RecordAt(EncodeAll(a), 0, a[0]) && EncodeAll(a)[EntrySize(a[0])..] == EncodeAll(a[1..])
  {
  }

  // ---- Reading through an index ----

  /** Each entry of kd points at a record in the log that puts the value m has for the key. */
  ghost predicate Points(log: Bytes, kd: Keydir, m: map<Bytes, Bytes>) {
    && kd.Keys == m.Keys
    && forall k :: k in kd ==> PointsAt(log, kd[k], k, m[k])
  }

  predicate PointsAt(log: Bytes, pos: Position, k: Bytes, value: Bytes) {
    var r := Put(k, value);
    WellFormed(r) && RecordAt(log, pos.offset, r) && pos.size == EntrySize(r)
  }

  /** Scanned index entries point, one by one, at the pairs ps. */
  ghost predicate AllPointAt(log: Bytes, items: seq<Pair<Position>>, ps: seq<Pair<Bytes>>) {
    && |items| == |ps|
    && forall i :: 0 <= i < |items| ==>
       items[i].key == ps[i].key && PointsAt(log, items[i].value, ps[i].key, ps[i].value)
  }

  lemma ListedPointAt(log: Bytes, kd: Keydir, m: map<Bytes, Bytes>)
    requires Points(log, kd, m)
    ensures AllPointAt(log, Listing(kd), Listing(m))
  {
    ListingKeys(kd, m);
  }

  /** The log only grows, so positions stay good. */
  lemma PointsAtLater(log: Bytes, more: Bytes, pos: Position, k: Bytes, value: Bytes)
    requires log <= more && PointsAt(log, pos, k, value)
    ensures PointsAt(more, pos, k, value)
  {
    var end := pos.offset + EntrySize(Put(k, value));
    assert more[pos.offset..end] == log[pos.offset..end];
  }

  lemma RecordAtEnd(log: Bytes, r: Record)
    ensures RecordAt(log + EncodeRecord(r), |log|, r)
  {
  }

  lemma PointsAppend(log: Bytes, kd: Keydir, m: map<Bytes, Bytes>, r: Record)
    requires Points(log, kd, m) && WellFormed(r)
    ensures Points(log + EncodeRecord(r), Reindex(kd, r, |log|), Update(m, r))
  {
    var more := log + EncodeRecord(r);
    var kd', m' := Reindex(kd, r, |log|), Update(m, r);
    forall k | k in kd'
      ensures PointsAt(more, kd'[k], k, m'[k])
    {
      if r.Put? && k == r.key {
        RecordAtEnd(log, r);
      } else {
        PointsAtLater(log, more, kd[k], k, m[k]);
      }
    }
  }

  /** The index of a log points, for each undeleted key, at its last written value. */
  lemma {:induction false} IndexPoints(rs: seq<Record>)
    requires AllWellFormed(rs)
    ensures Points(EncodeAll(rs), Index(rs), Replay(rs))
  {
    if rs != [] {
      var init, r := rs[..|rs| - 1], rs[|rs| - 1];
      IndexPoints(init);
      assert rs == init + [r];
      IndexSnoc(init, r);
      PointsAppend(EncodeAll(init), Index(init), Replay(init), r);
    }
  }

  /** `readLogValue`; None is its error. */
  function ReadLogValue(log: Bytes, pos: Position): Option<Bytes> {
    var e := ReadEntry(log, pos.offset);
    if e.None? then None
    else
      var (key, valueSize) := e.value;
      if valueSize < 0 || HEADER_SIZE + |key| + valueSize != pos.size then None
      else ReadAt(log, pos.offset + HEADER_SIZE + |key|, valueSize)
  }

  lemma ReadsBack(log: Bytes, pos: Position, k: Bytes, value: Bytes)
    requires PointsAt(log, pos, k, value)
    ensures ReadLogValue(log, pos) == Some(value)
  {
    ReadEntryOf(log, pos.offset, Put(k, value));
  }

  /** The index is the one a rebuild of the log computes. */
  ghost predicate Consistent(log: Bytes, kd: Keydir, rs: seq<Record>) {
    AllWellFormed(rs) && log == EncodeAll(rs) && kd == Index(rs)
  }

  lemma ConsistentAppend(log: Bytes, kd: Keydir, rs: seq<Record>, r: Record)
    requires Consistent(log, kd, rs) && WellFormed(r)
    ensures Consistent(log + EncodeRecord(r), Reindex(kd, r, |log|), rs + [r])
    ensures Replay(rs + [r]) == Update(Replay(rs), r)
  {
    IndexSnoc(rs, r);
  }
}
