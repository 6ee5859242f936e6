/**
 How an engine holds the protocol's records: the keys of storage/mvcc_key.go, the tagged
 values of storage/storage.go, and the engine call that carries out each protocol call.
 */
module MvccImages {
  import opened ByteStrings
  import opened MvccKeys
  import opened MemoryEngines
  import opened MvccProtocol

  // ---- The byte image of the protocol's records ----

  /** A tag byte, 0 for a deletion and 1 for a value, then the value. */
  function EncodeValue(value: Value): Bytes {
    match value
    case None => [0]
    case Some(b) => [1] + b
  }

  /** `decodeVersionedValue`; the outer None is its error. */
  function DecodeValue(b: Bytes): Option<Value> {
    if b == [] then None
    else if b[0] == 0 then Some(None)
    else if b[0] == 1 then Some(Some(b[1..]))
    else None
  }

  lemma ValueRoundTrip(value: Value)
    ensures DecodeValue(EncodeValue(value)) == Some(value)
  {
  }

  ghost predicate Holds(db: Db, key: MvccKey) {
    match key
    case NextVersion => db.next != 1
    case TxnActive(v) => v in db.active
    case TxnWrite(v, k) => (v, k) in db.writes
    case Versioned(k, v) => (k, v) in db.versions
  }

  ghost function StoredValue(db: Db, key: MvccKey): Slice
    requires Holds(db, key) && db.next <= MAX_VERSION
  {
    match key
    case NextVersion => Slice(EncodeVersion(db.next))
    case TxnActive(_) => Nil
    case TxnWrite(_, _) => Nil
    case Versioned(k, v) => Slice(EncodeValue(db.versions[(k, v)]))
  }

  ghost predicate Fits(db: Db) {
    && 1 <= db.next <= MAX_VERSION
    && (forall v :: v in db.active ==> v <= MAX_VERSION)
    && (forall vk :: vk in db.writes ==> vk.0 <= MAX_VERSION)
    && (forall kv :: kv in db.versions ==> kv.1 <= MAX_VERSION)
  }

  /** The engine holds the encodings of db's records and nothing else. */
  ghost predicate Represents(data: map<Bytes, Slice>, db: Db) {
    && Fits(db)
    && (forall b {:trigger Decode(b)} :: b in data ==> Decode(b).Some? && Holds(db, Decode(b).value))
    && (forall key {:trigger Holds(db, key)} :: Holds(db, key) ==>
       Encode(key) in data && data[Encode(key)] == StoredValue(db, key))
  }

  lemma EmptyRepresents()
    ensures Represents(map[], EMPTY)
  {
  }

  ghost predicate CallFits(c: Call) {
    match c
    case SetNext(v) => 1 < v <= MAX_VERSION
    case MarkActive(v) => v <= MAX_VERSION
    case ClearActive(v) => v <= MAX_VERSION
    case RecordWrite(v, _) => v <= MAX_VERSION
    case ClearWrite(v, _) => v <= MAX_VERSION
    case PutVersion(_, v, _) => v <= MAX_VERSION
    case DropVersion(_, v) => v <= MAX_VERSION
  }

  ghost function KeyOf(c: Call): MvccKey
    requires CallFits(c)
  {
    match c
    case SetNext(_) => NextVersion
    case MarkActive(v) => TxnActive(v)
    case ClearActive(v) => TxnActive(v)
    case RecordWrite(v, k) => TxnWrite(v, k)
    case ClearWrite(v, k) => TxnWrite(v, k)
    case PutVersion(k, v, _) => Versioned(k, v)
    case DropVersion(k, v) => Versioned(k, v)
  }

  /** The engine call that carries out a protocol call. */
  ghost function EncodeCall(c: Call): EngineCall
    requires CallFits(c)
  {
    var b := Encode(KeyOf(c));
    match c
    case SetNext(v) => SetCall(b, Slice(EncodeVersion(v)))
    case MarkActive(_) => SetCall(b, Nil)
    case ClearActive(_) => DeleteCall(b)
    case RecordWrite(_, _) => SetCall(b, Nil)
    case ClearWrite(_, _) => DeleteCall(b)
    case PutVersion(_, _, value) => SetCall(b, Slice(EncodeValue(value)))
    case DropVersion(_, _) => DeleteCall(b)
  }

  /** A call changes what the engine holds at its own key only. */
  lemma CallIsLocal(db: Db, c: Call, key: MvccKey)
    requires Fits(db) && CallFits(c)
    ensures Fits(Apply(db, c))
    ensures key != KeyOf(c) ==>
              && (Holds(Apply(db, c), key) <==> Holds(db, key))
              && (Holds(db, key) ==> StoredValue(Apply(db, c), key) == StoredValue(db, key))
    ensures Holds(Apply(db, c), KeyOf(c)) <==> EncodeCall(c).SetCall?
    ensures Holds(Apply(db, c), KeyOf(c)) ==> StoredValue(Apply(db, c), KeyOf(c)) == EncodeCall(c).value
  {
  }

  lemma CallRepresents(data: map<Bytes, Slice>, db: Db, c: Call)
    requires Represents(data, db) && CallFits(c)
    ensures Represents(ApplyCall(data, EncodeCall(c)), Apply(db, c))
  {
    forall key
      ensures key != KeyOf(c) ==> SameAt(db, Apply(db, c), key)
    {
      CallIsLocal(db, c, key);
    }
    CallIsLocal(db, c, KeyOf(c));
    LocalUpdate(data, db, Apply(db, c), KeyOf(c), EncodeCall(c));
  }

  ghost predicate SameAt(db: Db, e: Db, key: MvccKey)
    requires Fits(db) && Fits(e)
  {
    && (Holds(e, key) <==> Holds(db, key))
    && (Holds(db, key) ==> StoredValue(e, key) == StoredValue(db, key))
  }

  lemma LocalUpdate(data: map<Bytes, Slice>, db: Db, e: Db, at: MvccKey, call: EngineCall)
    requires Represents(data, db) && Fits(e) && call.key == Encode(at)
    requires forall key :: key != at ==> SameAt(db, e, key)
    requires Holds(e, at) <==> call.SetCall?
    requires Holds(e, at) ==> StoredValue(e, at) == call.value
    ensures Represents(ApplyCall(data, call), e)
  {
    var out := ApplyCall(data, call);
    DecodeEncode(at);
    forall x | x in out
      ensures Decode(x).Some? && Holds(e, Decode(x).value)
    {
      if x != call.key {
        EncodeDecode(x);
        assert Decode(x).value != at;
        assert SameAt(db, e, Decode(x).value);
      }
    }
    forall key | Holds(e, key)
      ensures Encode(key) in out && out[Encode(key)] == StoredValue(e, key)
    {
      EncodeInjective(key, at);
      assert key != at ==> SameAt(db, e, key);
    }
  }

  ghost predicate AllFit(cs: seq<Call>) {
    forall c :: c in cs ==> CallFits(c)
  }

  ghost function EncodeCalls(cs: seq<Call>): (es: seq<EngineCall>)
    requires AllFit(cs)
    ensures |es| == |cs|
  {
    seq(|cs|, i requires 0 <= i < |cs| => EncodeCall(cs[i]))
  }

  /** Whatever prefix of an operation's engine calls a crash lets through, the engine holds the protocol's records. */
  lemma {:induction false} CallsRepresent(data: map<Bytes, Slice>, db: Db, cs: seq<Call>)
    requires Represents(data, db) && AllFit(cs)
    ensures Represents(ApplyCalls(data, EncodeCalls(cs)), ApplyAll(db, cs))
  {
    if cs != [] {
      var init := cs[..|cs| - 1];
      CallsRepresent(data, db, init);
      assert EncodeCalls(cs)[..|cs| - 1] == EncodeCalls(init);
      CallRepresents(ApplyCalls(data, EncodeCalls(init)), ApplyAll(db, init), cs[|cs| - 1]);
    }
  }

  /** A crash after n of an operation's engine calls leaves the records the protocol would leave. */
  lemma CrashRepresents(data: map<Bytes, Slice>, db: Db, cs: seq<Call>, n: nat)
    requires Represents(data, db) && AllFit(cs)
    ensures Represents(ApplyCalls(data, Prefix(EncodeCalls(cs), n)), ApplyAll(db, Prefix(cs, n)))
  {
    assert AllFit(Prefix(cs, n));
    assert Prefix(EncodeCalls(cs), n) == EncodeCalls(Prefix(cs, n));
    CallsRepresent(data, db, Prefix(cs, n));
  }
}
