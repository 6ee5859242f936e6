/** The row layer (engine/kv.go): tables and rows in the key-value view of one transaction. */
module RowStores {
  import opened ByteStrings
  import opened Ordering
  import opened SqlValues
  import opened RowKeys
  import opened Schemas
  import opened SnapshotIsolation

  /** The JSON encodings, as a pair of functions that undo each other. */
  datatype Codec = Codec(
    encodeRow: Row -> Bytes, decodeRow: Bytes -> Option<Row>,
    encodeTable: Table -> Bytes, decodeTable: Bytes -> Option<Table>)

  ghost predicate Lossless(c: Codec) {
    && (forall row :: c.decodeRow(c.encodeRow(row)) == Some(row))
    && (forall t :: c.decodeTable(c.encodeTable(t)) == Some(t))
  }

  type View = map<Bytes, Bytes>

  /** The key of a row: that of its own primary key. */
  function KeyOf(t: Table, row: Row): Bytes
    requires PrimaryKey(t, row).Some?
  {
    RowKey(t.name, PrimaryKey(t, row).value)
  }

  /** The view holds the table t under its name. */
  ghost predicate TableAt(c: Codec, view: View, t: Table) {
    && NoZero(t.name) && ValidTable(t)
    && TableKey(t.name) in view && c.decodeTable(view[TableKey(t.name)]) == Some(t)
  }

  /** The view holds under key a valid row of the table t, and key is that of its own primary key. */
  ghost predicate RowAt(c: Codec, view: View, key: Bytes, t: Table, row: Row) {
    && TableAt(c, view, t) && ValidRow(t, row)
    && PrimaryKey(t, row).Some? && key == KeyOf(t, row)
    && key in view && c.decodeRow(view[key]) == Some(row)
  }

  ghost predicate SoundAt(c: Codec, view: View, key: Bytes) {
    (exists t :: TableAt(c, view, t) && key == TableKey(t.name)) || (exists t, row :: RowAt(c, view, key, t, row))
  }

  /** Everything in the view is a valid table or a valid row of a table, under its own key. */
  ghost predicate Sound(c: Codec, view: View) {
    forall key {:trigger SoundAt(c, view, key)} :: key in view ==> SoundAt(c, view, key)
  }

  /** Changing one key that is no table's keeps everything else sound. */
  lemma KeepsOthers(c: Codec, view: View, view': View, at: Bytes)
    requires Sound(c, view)
    requires forall k :: k != at ==> (k in view <==> k in view') && (k in view ==> view[k] == view'[k])
    requires forall t :: TableAt(c, view, t) ==> TableKey(t.name) != at
    ensures forall t :: TableAt(c, view, t) ==> TableAt(c, view', t)
    ensures forall key :: key in view' && key != at ==> SoundAt(c, view', key)
  {
    forall key | key in view' && key != at
      ensures SoundAt(c, view', key)
    {
      assert SoundAt(c, view, key);
      if t, row :| RowAt(c, view, key, t, row) {
        assert RowAt(c, view', key, t, row);
      }
    }
  }

  lemma RowKeyIsNoTableKey(name: Bytes, v: Value)
    requires NoZero(name)
    ensures forall u :: NoZero(u) ==> TableKey(u) != RowKey(name, v)
  {
    forall u | NoZero(u)
      ensures TableKey(u) != RowKey(name, v)
    {
      RowPrefixSelects(u, name, v);
    }
  }

  lemma RowKeyIsNoTable(c: Codec, view: View, name: Bytes, v: Value)
    requires NoZero(name)
    ensures forall t :: TableAt(c, view, t) ==> TableKey(t.name) != RowKey(name, v)
  {
    RowKeyIsNoTableKey(name, v);
  }

  lemma PutRowSound(c: Codec, view: View, t: Table, row: Row)
    requires Lossless(c) && Sound(c, view) && TableAt(c, view, t) && ValidRow(t, row)
    ensures PrimaryKey(t, row).Some? && Sound(c, view[KeyOf(t, row) := c.encodeRow(row)])
    ensures forall u :: TableAt(c, view, u) ==> TableAt(c, view[KeyOf(t, row) := c.encodeRow(row)], u)
  {
    PrimaryKeysComparable(t, row, row);
    var key := KeyOf(t, row);
    var view' := view[key := c.encodeRow(row)];
    RowKeyIsNoTable(c, view, t.name, PrimaryKey(t, row).value);
    KeepsOthers(c, view, view', key);
    assert RowAt(c, view', key, t, row);
    assert SoundAt(c, view', key);
  }

  lemma DropRowSound(c: Codec, view: View, name: Bytes, v: Value)
    requires Sound(c, view) && NoZero(name)
    ensures Sound(c, view - {RowKey(name, v)})
    ensures forall u :: TableAt(c, view, u) ==> TableAt(c, view - {RowKey(name, v)}, u)
  {
    RowKeyIsNoTable(c, view, name, v);
    KeepsOthers(c, view, view - {RowKey(name, v)}, RowKey(name, v));
  }

  lemma PutTableSound(c: Codec, view: View, t: Table)
    requires Lossless(c) && Sound(c, view) && NoZero(t.name) && ValidTable(t) && TableKey(t.name) !in view
    ensures Sound(c, view[TableKey(t.name) := c.encodeTable(t)])
    ensures TableAt(c, view[TableKey(t.name) := c.encodeTable(t)], t)
  {
    var view' := view[TableKey(t.name) := c.encodeTable(t)];
    KeepsOthers(c, view, view', TableKey(t.name));
    assert TableAt(c, view', t);
    assert SoundAt(c, view', TableKey(t.name));
  }

  /** A stored table entry is the table of that name. */
  lemma TableEntry(c: Codec, view: View, name: Bytes) returns (t: Table)
    requires Sound(c, view) && NoZero(name) && TableKey(name) in view
    ensures TableAt(c, view, t) && t.name == name
  {
    assert SoundAt(c, view, TableKey(name));
    if u, row :| RowAt(c, view, TableKey(name), u, row) {
      RowPrefixSelects(name, u.name, PrimaryKey(u, row).value);
    }
    t :| TableAt(c, view, t) && TableKey(name) == TableKey(t.name);
    assert TableKey(name)[1..] == name && TableKey(t.name)[1..] == t.name;
  }

  /** What lies under a table's prefix is a row of that table. */
  lemma RowEntry(c: Codec, view: View, t: Table, key: Bytes) returns (row: Row)
    requires Sound(c, view) && TableAt(c, view, t) && key in view && RowPrefix(t.name) <= key
    ensures RowAt(c, view, key, t, row)
  {
    assert SoundAt(c, view, key);
    if u :| TableAt(c, view, u) && key == TableKey(u.name) {
      RowPrefixSelects(t.name, u.name, Null);
    }
    var u, r :| RowAt(c, view, key, u, r);
    RowPrefixSelects(t.name, u.name, PrimaryKey(u, r).value);
    row := r;
  }

  /** Both hold the same under k. */
  ghost predicate Same(a: View, b: View, k: Bytes) {
    (k in a <==> k in b) && (k in a ==> a[k] == b[k])
  }

  lemma SameEverywhere(a: View, b: View)
    requires forall k :: Same(a, b, k)
    ensures a == b
  {
    assert forall k :: k in a ==> Same(a, b, k);
    assert forall k :: k in b ==> Same(a, b, k);
    assert a.Keys == b.Keys;
  }

  /** The view after setting a key or, with None, deleting it. */
  function Written(view: View, key: Bytes, value: Option<Bytes>): View {
    if value.Some? then view[key := value.value] else view - {key}
  }

  lemma WriteOverlays(base: View, w: WriteSet, key: Bytes, value: Option<Bytes>)
    ensures Overlay(base, w[key := value]) == Written(Overlay(base, w), key, value)
  {
  }

  lemma PutTwice(view: View, key: Bytes, value: Bytes)
    ensures (view - {key})[key := value] == view[key := value]
  {
  }

  /** The view, after a write. */
  lemma WriteMakesView(c: Codec, snapshot: View, writes: WriteSet, view: View, key: Bytes, value: Option<Bytes>)
    requires Lossless(c) && Sound(c, view) && RowWrite(c, view, key, value) && view == Overlay(snapshot, writes)
    ensures Sound(c, Written(view, key, value))
    ensures Overlay(snapshot, writes[key := value]) == Written(view, key, value)
    ensures forall t :: TableAt(c, view, t) ==> TableAt(c, Written(view, key, value), t)
  {
    WriteOverlays(snapshot, writes, key, value);
    RowWriteSound(c, view, key, value);
  }

  ghost predicate TablesKept(snapshot: View, writes: WriteSet) {
    forall name :: NoZero(name) && TableKey(name) in snapshot ==> TableKey(name) !in writes
  }

  /** The writes never touch a table of the snapshot, and make a sound view of it. */
  ghost predicate Disciplined(c: Codec, snapshot: View, writes: WriteSet) {
    Sound(c, Overlay(snapshot, writes)) && TablesKept(snapshot, writes)
  }

  /** The writes the row layer makes: delete a row, put a valid row of a table, put a new table. */
  ghost predicate RowWrite(c: Codec, view: View, key: Bytes, value: Option<Bytes>) {
    || (value.None? && exists name, primary :: NoZero(name) && key == RowKey(name, primary))
    || (exists t, row :: TableAt(c, view, t) && PutsRow(c, t, row, key, value))
    || (exists t :: PutsTable(c, view, t, key, value))
  }

  ghost predicate PutsRow(c: Codec, t: Table, row: Row, key: Bytes, value: Option<Bytes>) {
    ValidRow(t, row) && PrimaryKey(t, row).Some? && key == KeyOf(t, row) && value == Some(c.encodeRow(row))
  }

  ghost predicate PutsTable(c: Codec, view: View, t: Table, key: Bytes, value: Option<Bytes>) {
    && NoZero(t.name) && ValidTable(t) && TableKey(t.name) !in view
    && key == TableKey(t.name) && value == Some(c.encodeTable(t))
  }

  lemma RowWriteSound(c: Codec, view: View, key: Bytes, value: Option<Bytes>)
    requires Lossless(c) && Sound(c, view) && RowWrite(c, view, key, value)
    ensures Sound(c, Written(view, key, value))
    ensures forall t :: TableAt(c, view, t) ==> TableAt(c, Written(view, key, value), t)
    ensures forall name :: NoZero(name) && key == TableKey(name) ==> key !in view
  {
    if value.None? {
      var name, primary :| NoZero(name) && key == RowKey(name, primary);
      DropRowSound(c, view, name, primary);
      RowKeyIsNoTableKey(name, primary);
    } else if t, row :| TableAt(c, view, t) && PutsRow(c, t, row, key, value) {
      PutRowSound(c, view, t, row);
      RowKeyIsNoTableKey(t.name, PrimaryKey(t, row).value);
    } else {
      var t :| PutsTable(c, view, t, key, value);
      PutTableSound(c, view, t);
    }
  }

  /** A write of the row layer keeps its transaction disciplined. */
  lemma RowWriteDisciplined(c: Codec, snapshot: View, writes: WriteSet, key: Bytes, value: Option<Bytes>)
    requires Lossless(c) && Disciplined(c, snapshot, writes) && RowWrite(c, Overlay(snapshot, writes), key, value)
    ensures Disciplined(c, snapshot, writes[key := value])
  {
    RowWriteSound(c, Overlay(snapshot, writes), key, value);
    WriteOverlays(snapshot, writes, key, value);
  }

  /**
   Refused: by a check of the row layer.  Conflicted: by the write-conflict check of the store.
   TooLarge: the log on disk has no room for a record of that size.
   */
  datatype Status = Ok | Refused | Conflicted | TooLarge

  ghost predicate CanCreateRow(c: Codec, view: View, name: Bytes, row: Row) {
    exists t :: TableAt(c, view, t) && t.name == name && ValidRow(t, row) && PrimaryKey(t, row).Some?
      && KeyOf(t, row) !in view
  }

  /** Rows of t are exactly these, in strictly ascending order of primary key. */
  ghost predicate IsScan(c: Codec, view: View, t: Table, rows: seq<Row>) {
    && (forall i :: 0 <= i < |rows| ==>
       ValidRow(t, rows[i]) && PrimaryKey(t, rows[i]).Some? && RowAt(c, view, KeyOf(t, rows[i]), t, rows[i]))
    && (forall i, j :: 0 <= i < j < |rows| ==>
       Compare(PrimaryKey(t, rows[i]).value, PrimaryKey(t, rows[j]).value) == Some(-1))
    && (forall key, row :: RowAt(c, view, key, t, row) ==> row in rows)
  }

  /** The values under the table's prefix, decoded, in key order. */
  ghost function RowsOf(c: Codec, view: View, t: Table): seq<Row> {
    var es := Listing(WithPrefix(view, RowPrefix(t.name)));
    seq(|es|, i requires 0 <= i < |es| => match c.decodeRow(es[i].value) case Some(row) => row case None => [])
  }

  lemma RowsAscend(c: Codec, view: View, t: Table, j: Bytes, a: Row, k: Bytes, b: Row)
    requires RowAt(c, view, j, t, a) && RowAt(c, view, k, t, b) && Less(j, k)
    ensures Compare(PrimaryKey(t, a).value, PrimaryKey(t, b).value) == Some(-1)
  {
    PrimaryKeysComparable(t, a, b);
    RowKeyOrder(t.name, PrimaryKey(t, a).value, PrimaryKey(t, b).value);
  }

  lemma RowListed(c: Codec, view: View, t: Table, key: Bytes, row: Row) returns (i: nat)
    requires RowAt(c, view, key, t, row)
    ensures var es := Listing(WithPrefix(view, RowPrefix(t.name))); i < |es| && c.decodeRow(es[i].value) == Some(row)
  {
    RowPrefixSelects(t.name, t.name, PrimaryKey(t, row).value);
    var m := WithPrefix(view, RowPrefix(t.name));
    assert key in m;
    i := ListingIndex(m, key);
  }

  lemma ListedRow(c: Codec, view: View, t: Table, i: nat) returns (row: Row)
    requires Sound(c, view) && TableAt(c, view, t) && i < |Listing(WithPrefix(view, RowPrefix(t.name)))|
    ensures RowAt(c, view, Listing(WithPrefix(view, RowPrefix(t.name)))[i].key, t, row)
    ensures c.decodeRow(Listing(WithPrefix(view, RowPrefix(t.name)))[i].value) == Some(row)
  {
    var m := WithPrefix(view, RowPrefix(t.name));
    ListingFacts(m);
    row := RowEntry(c, view, t, Listing(m)[i].key);
  }

  ghost predicate ListedAs(c: Codec, view: View, t: Table, e: Pair<Bytes>, row: Row) {
    RowAt(c, view, e.key, t, row) && c.decodeRow(e.value) == Some(row)
  }

  lemma ListingDecodes(c: Codec, view: View, t: Table)
    requires Sound(c, view) && TableAt(c, view, t)
    ensures var es, rows := Listing(WithPrefix(view, RowPrefix(t.name))), RowsOf(c, view, t);
            |es| == |rows| && forall i :: 0 <= i < |es| ==> ListedAs(c, view, t, es[i], rows[i])
  {
    forall i | 0 <= i < |RowsOf(c, view, t)|
      ensures ListedAs(c, view, t, Listing(WithPrefix(view, RowPrefix(t.name)))[i], RowsOf(c, view, t)[i])
    {
      var row := ListedRow(c, view, t, i);
    }
  }

  /** Key order is the order of the primary keys, and nothing else lies under the prefix. */
  lemma ScanIsExact(c: Codec, view: View, t: Table)
    requires Sound(c, view) && TableAt(c, view, t)
    ensures IsScan(c, view, t, RowsOf(c, view, t))
  {
    var es, rows := Listing(WithPrefix(view, RowPrefix(t.name))), RowsOf(c, view, t);
    ListingDecodes(c, view, t);
    forall i, j | 0 <= i < j < |rows|
      ensures Compare(PrimaryKey(t, rows[i]).value, PrimaryKey(t, rows[j]).value) == Some(-1)
    {
      assert ListedAs(c, view, t, es[i], rows[i]) && ListedAs(c, view, t, es[j], rows[j]);
      ListingFacts(WithPrefix(view, RowPrefix(t.name)));
      RowsAscend(c, view, t, es[i].key, rows[i], es[j].key, rows[j]);
    }
    forall key, row | RowAt(c, view, key, t, row)
      ensures row in rows
    {
      var i := RowListed(c, view, t, key, row);
      assert rows[i] == row;
    }
  }

  /** The loop of `ScanTable`. */
  method DecodeRows(c: Codec, t: Table, es: seq<Pair<Bytes>>, ghost stored: seq<Row>) returns (rows: Option<seq<Row>>)
    requires |stored| == |es| && forall i :: 0 <= i < |es| ==> c.decodeRow(es[i].value) == Some(stored[i])
    ensures rows == if forall i :: 0 <= i < |es| ==> |stored[i]| == |t.columns| then Some(stored) else None
  {
    var out: seq<Row> := [];
    for i := 0 to |es|
      invariant out == stored[..i] && forall j :: 0 <= j < i ==> |stored[j]| == |t.columns|
    {
      var row := c.decodeRow(es[i].value);
      if row.None? || |row.value| != |t.columns| {
        return None;
      }
      out := out + [row.value];
    }
    assert stored[..|es|] == stored;
    rows := Some(out);
  }

  /** What `ScanTable` makes of the entries under its prefix. */
  method DecodeTable(c: Codec, t: Table, es: seq<Pair<Bytes>>, ghost view: View) returns (rows: Option<seq<Row>>)
    requires Sound(c, view) && TableAt(c, view, t) && es == Listing(WithPrefix(view, RowPrefix(t.name)))
    ensures rows == Some(RowsOf(c, view, t))
  {
    ListingDecodes(c, view, t);
    rows := DecodeRows(c, t, es, RowsOf(c, view, t));
  }
}
