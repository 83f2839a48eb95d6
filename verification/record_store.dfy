/** The per-class record store: the ordered `@records`, the `record_index`
    from `id.to_s` to position, and the `dirty` flag, with `next_id`,
    `insert`, `exists?`, `save` and the loading loop of `data=`. */
module RecordStores {
  import opened Wrappers
  import opened Values
  import opened Errors
  import opened Records

  datatype RecordStore = RecordStore(records: seq<Record>, index: map<string, int>, dirty: bool)

  /** A class before any load: no records, an empty index, and `dirty`
      unset (nil, so falsy). */
  const EmptyStore: RecordStore := RecordStore([], map[], false)

  function Ids(records: seq<Record>, defaults: map<string, Value>): (ids: seq<Value>)
    ensures |ids| == |records|
    ensures forall i :: 0 <= i < |records| ==> ids[i] == Id(records[i], defaults)
  {
    seq(|records|, i requires 0 <= i < |records| => Id(records[i], defaults))
  }

  /** `next_id`: 1 for an empty store; the successor of the largest id when
      that id is an Integer; nil when it is anything else; and the
      ArgumentError of `max` when two ids cannot be compared. */
  function NextId(store: RecordStore, defaults: map<string, Value>): (r: Result<Value, Error>)
    ensures store.records == [] ==> r == Ok(Int(1))
    ensures r.Err? <==> !SameKind(Ids(store.records, defaults))
    ensures r.Err? ==> r.error == ArgumentError
    ensures r.Ok? && store.records != [] && r.value.Int? ==>
      && (forall i :: 0 <= i < |store.records| ==>
            Id(store.records[i], defaults).Int? && Id(store.records[i], defaults).i < r.value.i)
      && (exists i :: 0 <= i < |store.records| && Id(store.records[i], defaults) == Int(r.value.i - 1))
    ensures r.Ok? && store.records != [] && !r.value.Int? ==> r.value == Nil
  {
    var ids := Ids(store.records, defaults);
    match MaxOf(ids)
    case NoElements => Ok(Int(1))
    case Incomparable => Err(ArgumentError)
    case Largest(m) =>
      if m.Int? then
        assert forall i :: 0 <= i < |ids| ==> ids[i].Int? && ids[i].i <= m.i;
        Ok(Int(m.i + 1))
      else Ok(Nil)
  }

  /** `next_id` read off the outcome of `max` over the ids. */
  lemma NextIdOfMax(store: RecordStore, defaults: map<string, Value>, r: MaxResult)
    requires MaxOf(Ids(store.records, defaults)) == r
    ensures r.NoElements? ==> NextId(store, defaults) == Ok(Int(1))
    ensures r.Incomparable? ==> NextId(store, defaults) == Err(ArgumentError)
    ensures r.Largest? ==> NextId(store, defaults) == Ok(if r.v.Int? then Int(r.v.i + 1) else Nil)
  {
  }

  /** Ids 3, 7 and 2 give 8. */
  lemma NextIdAfterThreeSevenTwo(r1: Record, r2: Record, r3: Record, defaults: map<string, Value>)
    requires Id(r1, defaults) == Int(3) && Id(r2, defaults) == Int(7) && Id(r3, defaults) == Int(2)
    ensures NextId(RecordStore([r1, r2, r3], map[], true), defaults) == Ok(Int(8))
  {
    var store := RecordStore([r1, r2, r3], map[], true);
    var ids := Ids(store.records, defaults);
    assert ids == [Int(3), Int(7), Int(2)];
    assert SameKind(ids);
    var m := MaxOf(ids);
    assert m.Largest? && m.v in ids;
    assert m.v.Int? && ids[1].i <= m.v.i;
    assert m.v == Int(7);
  }

  /** All ids Strings: the largest is not numeric, so `next_id` is nil. */
  lemma NextIdStringIds(store: RecordStore, defaults: map<string, Value>)
    requires store.records != []
    requires forall i :: 0 <= i < |store.records| ==> Id(store.records[i], defaults).Str?
    ensures NextId(store, defaults) == Ok(Nil)
  {
    var ids := Ids(store.records, defaults);
    assert forall i :: 0 <= i < |ids| ==> Kind(ids[i]) == 4;
    match MaxOf(ids)
    case Largest(m) =>
      assert m.Str?;
  }

  /** `record[:id] ||= next_id`: a record whose id reads falsy (through the
      merged attributes) gets `next_id` written into its own attributes;
      `next_id` is not evaluated otherwise. */
  function AssignId(store: RecordStore, defaults: map<string, Value>, r: Record): (res: Result<Record, Error>)
    ensures Truthy(Attribute(r, defaults, "id")) ==> res == Ok(r)
    ensures !Truthy(Attribute(r, defaults, "id")) ==>
      && (res.Ok? <==> NextId(store, defaults).Ok?)
      && (res.Ok? ==> Attribute(res.value, defaults, "id") == NextId(store, defaults).value)
      && (res.Err? ==> res.error == NextId(store, defaults).error)
    ensures res.Ok? ==> res.value.cls == r.cls && res.value.attrs - {"id"} == r.attrs - {"id"}
  {
    if Truthy(Attribute(r, defaults, "id")) then Ok(r)
    else
      match NextId(store, defaults)
      case Err(e) => Err(e)
      case Ok(n) => Ok(Record(r.cls, r.attrs["id" := n]))
  }

  /** `insert(record)`: assign an id if needed; when the store is dirty,
      refuse an id whose `to_s` is already indexed (`validate_unique_id`);
      then mark dirty, index the key at the current length and append.
      A raise leaves the store as it was. */
  function Insert(store: RecordStore, defaults: map<string, Value>, r: Record): (res: Result<RecordStore, Error>)
    ensures AssignId(store, defaults, r).Err? ==> res == Err(AssignId(store, defaults, r).error)
    ensures AssignId(store, defaults, r).Ok? ==>
      var rec := AssignId(store, defaults, r).value;
      && (res.Err? <==> store.dirty && Key(rec, defaults) in store.index)
      && (res.Err? ==> res.error == IdError)
      && (res.Ok? ==>
            && res.value.records == store.records + [rec]
            && res.value.index == store.index[Key(rec, defaults) := |store.records|]
            && res.value.dirty)
  {
    match AssignId(store, defaults, r)
    case Err(e) => Err(e)
    case Ok(rec) =>
      var key := Key(rec, defaults);
      if store.dirty && key in store.index then Err(IdError)
      else Ok(RecordStore(store.records + [rec], store.index[key := |store.records|], true))
  }

  /** The loop of `data=`: `insert new(row)` for each row in turn, stopping
      at the first raise with the earlier rows inserted. */
  function InsertRows(store: RecordStore, defaults: map<string, Value>, cls: string, rows: seq<Row>): (r: Step<RecordStore>)
    ensures |store.records| <= |r.value.records| <= |store.records| + |rows|
    ensures store.dirty ==> r.value.dirty
    ensures r.raised.Some? ==> r.raised == Some(IdError) || r.raised == Some(ArgumentError)
    decreases |rows|
  {
    if rows == [] then Step(store, None)
    else
      match Insert(store, defaults, FromRow(cls, rows[0]))
      case Err(e) => Step(store, Some(e))
      case Ok(next) => InsertRows(next, defaults, cls, rows[1..])
  }

  /** Every index entry points at a record whose key it is, and every
      record's key is indexed. */
  predicate IndexConsistent(store: RecordStore, defaults: map<string, Value>) {
    && (forall k :: k in store.index ==>
          0 <= store.index[k] < |store.records| && Key(store.records[store.index[k]], defaults) == k)
    && (forall i :: 0 <= i < |store.records| ==> Key(store.records[i], defaults) in store.index)
  }

  /** No two records share an index key. */
  predicate UniqueKeys(store: RecordStore, defaults: map<string, Value>) {
    forall i, j :: 0 <= i < j < |store.records| ==>
      Key(store.records[i], defaults) != Key(store.records[j], defaults)
  }

  /** Insert keeps the index consistent, whether or not it checked
      uniqueness (unchecked, a repeated key is re-pointed at the newest
      record). */
  lemma InsertKeepsIndexConsistent(store: RecordStore, defaults: map<string, Value>, r: Record)
    requires IndexConsistent(store, defaults)
    requires Insert(store, defaults, r).Ok?
    ensures IndexConsistent(Insert(store, defaults, r).value, defaults)
  {
    var next := Insert(store, defaults, r).value;
    var rec := AssignId(store, defaults, r).value;
    var n := |store.records|;
    forall k | k in next.index
      ensures 0 <= next.index[k] < |next.records| && Key(next.records[next.index[k]], defaults) == k
    {
      if k != Key(rec, defaults) {
        assert next.records[store.index[k]] == store.records[store.index[k]];
      }
    }
    forall i | 0 <= i < |next.records| ensures Key(next.records[i], defaults) in next.index {
      if i < n {
        assert next.records[i] == store.records[i];
      }
    }
  }

  /** A dirty store that starts with unique keys keeps them: the check
      refuses every repeated key. */
  lemma InsertKeepsUniqueKeys(store: RecordStore, defaults: map<string, Value>, r: Record)
    requires store.dirty && IndexConsistent(store, defaults) && UniqueKeys(store, defaults)
    requires Insert(store, defaults, r).Ok?
    ensures UniqueKeys(Insert(store, defaults, r).value, defaults)
  {
    var next := Insert(store, defaults, r).value;
    var rec := AssignId(store, defaults, r).value;
    var n := |store.records|;
    forall i, j | 0 <= i < j < |next.records|
      ensures Key(next.records[i], defaults) != Key(next.records[j], defaults)
    {
      assert next.records[i] == store.records[i];
      if j == n {
        assert Key(store.records[i], defaults) in store.index;
      } else {
        assert next.records[j] == store.records[j];
      }
    }
  }

  /** Two attribute maps that agree on every key except `id`. */
  predicate SameBesidesId(a: map<string, Value>, b: map<string, Value>) {
    a - {"id"} == b - {"id"}
  }

  /** What a row becomes in the store: a record of the class whose
      attributes are the row's apart from `id`, and exactly the row's record
      when the row gave a truthy id. The id written in for an id-less row is
      not constrained here. */
  predicate LoadedFrom(rec: Record, cls: string, row: Row, defaults: map<string, Value>) {
    && rec.cls == cls
    && SameBesidesId(rec.attrs, RowAttrs(row))
    && (Truthy(Attribute(FromRow(cls, row), defaults, "id")) ==> rec == FromRow(cls, row))
  }

  /** A loop that raises nothing appends one record per row and leaves the
      records already there in place. */
  lemma {:induction false} InsertRowsAppends(store: RecordStore, defaults: map<string, Value>, cls: string, rows: seq<Row>)
    requires InsertRows(store, defaults, cls, rows).raised.None?
    ensures var out := InsertRows(store, defaults, cls, rows).value;
      && |out.records| == |store.records| + |rows|
      && out.records[..|store.records|] == store.records
      && (rows != [] ==> out.dirty)
    decreases |rows|
  {
    if rows != [] {
      var next := Insert(store, defaults, FromRow(cls, rows[0])).value;
      var out := InsertRows(store, defaults, cls, rows).value;
      var n := |store.records|;
      InsertRowsAppends(next, defaults, cls, rows[1..]);
      assert out.records[..n] == out.records[..n + 1][..n] == next.records[..n];
      if |rows| == 1 {
        assert out == next;
      }
    }
  }

  lemma AssignedFromRow(store: RecordStore, defaults: map<string, Value>, cls: string, row: Row)
    requires AssignId(store, defaults, FromRow(cls, row)).Ok?
    ensures LoadedFrom(AssignId(store, defaults, FromRow(cls, row)).value, cls, row, defaults)
  {
  }

  /** One turn of the loop: the store after the first row's insert, from
      which the remaining rows carry on. */
  lemma InsertRowsUnfold(store: RecordStore, defaults: map<string, Value>, cls: string, rows: seq<Row>)
    returns (next: RecordStore)
    requires rows != [] && InsertRows(store, defaults, cls, rows).raised.None?
    ensures |next.records| == |store.records| + 1
    ensures InsertRows(store, defaults, cls, rows) == InsertRows(next, defaults, cls, rows[1..])
  {
    next := Insert(store, defaults, FromRow(cls, rows[0])).value;
  }

  /** The first row's record sits right after the records already there. */
  lemma InsertRowsFirst(store: RecordStore, defaults: map<string, Value>, cls: string, rows: seq<Row>)
    requires InsertRows(store, defaults, cls, rows).raised.None?
    requires rows != []
    ensures |InsertRows(store, defaults, cls, rows).value.records| > |store.records|
    ensures LoadedFrom(InsertRows(store, defaults, cls, rows).value.records[|store.records|], cls, rows[0], defaults)
  {
    var r := FromRow(cls, rows[0]);
    var next := Insert(store, defaults, r).value;
    var n := |store.records|;
    InsertRowsAppends(next, defaults, cls, rows[1..]);
    AssignedFromRow(store, defaults, cls, rows[0]);
    var out := InsertRows(store, defaults, cls, rows).value;
    assert out.records[..n + 1] == next.records;
    assert out.records[n] == next.records[n];
  }

  /** In a loop that raises nothing, the record appended for row `i`, at
      position `k` of the result, is that row's record. */
  lemma {:induction false} InsertRowsRecordAt(store: RecordStore, defaults: map<string, Value>, cls: string, rows: seq<Row>,
                                               out: RecordStore, i: nat, k: nat, row: Row)
    requires InsertRows(store, defaults, cls, rows) == Step(out, None)
    requires i < |rows| && k == |store.records| + i && row == rows[i]
    ensures k < |out.records|
    ensures LoadedFrom(out.records[k], cls, row, defaults)
    decreases |rows|, 1
  {
    if i == 0 {
      InsertRowsFirst(store, defaults, cls, rows);
    } else {
      InsertRowsRecordAtLater(store, defaults, cls, rows, out, i, k, row);
    }
  }

  /** The case of a later row: it is row `i - 1` of the rows left after the
      first insert. */
  lemma {:induction false} InsertRowsRecordAtLater(store: RecordStore, defaults: map<string, Value>, cls: string, rows: seq<Row>,
                                                    out: RecordStore, i: nat, k: nat, row: Row)
    requires InsertRows(store, defaults, cls, rows) == Step(out, None)
    requires 0 < i < |rows| && k == |store.records| + i && row == rows[i]
    ensures k < |out.records|
    ensures LoadedFrom(out.records[k], cls, row, defaults)
    decreases |rows|, 0
  {
    var next := InsertRowsUnfold(store, defaults, cls, rows);
    assert rows[1..][i - 1] == row;
    InsertRowsRecordAt(next, defaults, cls, rows[1..], out, i - 1, k, row);
  }

  /** Loading into a dirty store whose index is consistent and whose keys are
      unique keeps both properties, raise or not. */
  lemma {:induction false} InsertRowsKeepsUnique(store: RecordStore, defaults: map<string, Value>, cls: string, rows: seq<Row>)
    requires store.dirty && IndexConsistent(store, defaults) && UniqueKeys(store, defaults)
    ensures var out := InsertRows(store, defaults, cls, rows).value;
      out.dirty && IndexConsistent(out, defaults) && UniqueKeys(out, defaults)
    decreases |rows|
  {
    if rows != [] {
      var r := FromRow(cls, rows[0]);
      if Insert(store, defaults, r).Ok? {
        InsertKeepsIndexConsistent(store, defaults, r);
        InsertKeepsUniqueKeys(store, defaults, r);
        InsertRowsKeepsUnique(Insert(store, defaults, r).value, defaults, cls, rows[1..]);
      }
    }
  }

  /** The key a row's own id gives its record. */
  function RowKey(cls: string, row: Row, defaults: map<string, Value>): string {
    Key(FromRow(cls, row), defaults)
  }

  /** Two rows with truthy ids of the same `to_s` cannot both be loaded into a
      dirty store with unique keys. */
  lemma InsertRowsRejectsDuplicates(store: RecordStore, defaults: map<string, Value>, cls: string, rows: seq<Row>, i: nat, j: nat)
    requires store.dirty && IndexConsistent(store, defaults) && UniqueKeys(store, defaults)
    requires i < j < |rows|
    requires Truthy(Attribute(FromRow(cls, rows[i]), defaults, "id"))
    requires Truthy(Attribute(FromRow(cls, rows[j]), defaults, "id"))
    requires RowKey(cls, rows[i], defaults) == RowKey(cls, rows[j], defaults)
    ensures InsertRows(store, defaults, cls, rows).raised.Some?
  {
    if InsertRows(store, defaults, cls, rows).raised.None? {
      var out := InsertRows(store, defaults, cls, rows).value;
      InsertRowsRecordAt(store, defaults, cls, rows, out, i, |store.records| + i, rows[i]);
      InsertRowsRecordAt(store, defaults, cls, rows, out, j, |store.records| + j, rows[j]);
      InsertRowsKeepsUnique(store, defaults, cls, rows);
    }
  }

  /** When every row carries a truthy id, `next_id` is never evaluated, so the
      only exception the loop can raise is `IdError`. */
  lemma {:induction false} InsertRowsRaisesOnlyIdError(store: RecordStore, defaults: map<string, Value>, cls: string, rows: seq<Row>)
    requires forall i :: 0 <= i < |rows| ==> Truthy(Attribute(FromRow(cls, rows[i]), defaults, "id"))
    ensures InsertRows(store, defaults, cls, rows).raised in {None, Some(IdError)}
    decreases |rows|
  {
    if rows != [] {
      var r := FromRow(cls, rows[0]);
      if Insert(store, defaults, r).Ok? {
        assert forall i :: 0 <= i < |rows[1..]| ==> rows[1..][i] == rows[i + 1];
        InsertRowsRaisesOnlyIdError(Insert(store, defaults, r).value, defaults, cls, rows[1..]);
      }
    }
  }

  /** The argument forms of `exists?` modelled here: an object with an id, a
      falsy value, and no argument at all. */
  datatype ExistsArg = RecordArg(r: Record) | FalsyArg | NoArg

  /** `exists?`: for a record, whether `record_index` has its `id.to_s`
      (every indexed position is present); false for a falsy argument; for no
      argument, whether there is any record. */
  function Exists(store: RecordStore, defaults: map<string, Value>, arg: ExistsArg): (b: bool)
    ensures arg.FalsyArg? ==> !b
    ensures arg.RecordArg? && !b && IndexConsistent(store, defaults) ==>
      forall i :: 0 <= i < |store.records| ==> Key(store.records[i], defaults) != Key(arg.r, defaults)
    ensures arg.NoArg? ==> (b <==> |store.records| > 0)
  {
    match arg
    case RecordArg(r) => Key(r, defaults) in store.index
    case FalsyArg => false
    case NoArg => store.records != []
  }

  /** With a consistent index, the index lookup of `exists?` agrees with a
      scan of the records. */
  lemma ExistsAgreesWithScan(store: RecordStore, defaults: map<string, Value>, r: Record)
    requires IndexConsistent(store, defaults)
    ensures Exists(store, defaults, RecordArg(r)) <==>
      exists i :: 0 <= i < |store.records| && Key(store.records[i], defaults) == Key(r, defaults)
  {
    var k := Key(r, defaults);
    if k in store.index {
      assert Key(store.records[store.index[k]], defaults) == k;
    }
  }

  /** With a consistent index, `exists?` without an argument holds exactly
      when the index holds an entry. */
  lemma ExistsWithoutArgument(store: RecordStore, defaults: map<string, Value>)
    requires IndexConsistent(store, defaults)
    ensures Exists(store, defaults, NoArg) <==> store.index != map[]
  {
    if store.records != [] {
      assert Key(store.records[0], defaults) in store.index;
    }
    if store.index != map[] {
      var k :| k in store.index;
      assert store.index[k] < |store.records|;
    }
  }

  /** A record just inserted is found by `exists?`, with or without the
      record as argument. */
  lemma ExistsAfterInsert(store: RecordStore, defaults: map<string, Value>, r: Record)
    requires Insert(store, defaults, r).Ok?
    ensures Exists(Insert(store, defaults, r).value, defaults, RecordArg(AssignId(store, defaults, r).value))
    ensures Exists(Insert(store, defaults, r).value, defaults, NoArg)
  {
  }

  /** `save`: insert the record unless `exists?` already finds its id; the
      result is the store and the caller's record afterwards (an id assigned
      by `insert` stays on the record even when `insert` then raises). */
  function Save(store: RecordStore, defaults: map<string, Value>, r: Record): (out: Step<(RecordStore, Record)>)
    ensures Exists(store, defaults, RecordArg(r)) ==> out == Step((store, r), None)
    ensures !Exists(store, defaults, RecordArg(r)) && Insert(store, defaults, r).Ok? ==>
      out == Step((Insert(store, defaults, r).value, AssignId(store, defaults, r).value), None)
    ensures !Exists(store, defaults, RecordArg(r)) && Insert(store, defaults, r).Err? ==>
      && out.raised == Some(Insert(store, defaults, r).error)
      && out.value.1 == (if AssignId(store, defaults, r).Ok? then AssignId(store, defaults, r).value else r)
    ensures out.raised.Some? ==> out.value.0 == store
  {
    if Exists(store, defaults, RecordArg(r)) then Step((store, r), None)
    else
      match AssignId(store, defaults, r)
      case Err(e) => Step((store, r), Some(e))
      case Ok(rec) =>
        match Insert(store, defaults, r)
        case Err(e) => Step((store, rec), Some(e))
        case Ok(next) => Step((next, rec), None)
  }

  /** Saving a record that was just saved changes nothing. */
  lemma SaveIdempotent(store: RecordStore, defaults: map<string, Value>, r: Record)
    requires Save(store, defaults, r).raised.None?
    ensures var (next, rec) := Save(store, defaults, r).value;
      Save(next, defaults, rec) == Step((next, rec), None)
  {
  }

  /** With a consistent index, `save` never raises `IdError`: a record
      `exists?` does not find has an unindexed key, and an id from `next_id`
      is above every indexed Integer id (or nil, whose key is that of the
      id-less record). Only the ArgumentError of `next_id` remains. */
  lemma SaveRaisesNoIdError(store: RecordStore, defaults: map<string, Value>, r: Record)
    requires IndexConsistent(store, defaults)
    ensures Save(store, defaults, r).raised in {None, Some(ArgumentError)}
  {
    if !Exists(store, defaults, RecordArg(r)) && AssignId(store, defaults, r).Ok? {
      var rec := AssignId(store, defaults, r).value;
      if !Truthy(Attribute(r, defaults, "id")) {
        var n := NextId(store, defaults).value;
        if n.Int? && store.records != [] {
          if Key(rec, defaults) in store.index {
            var i := store.index[Key(rec, defaults)];
            var other := Id(store.records[i], defaults);
            assert IntToS(other.i) == IntToS(n.i);
            IntToSInjective(other.i, n.i);
          }
        }
      }
    }
  }

  /** `record[key] = value` (or `id=`) on a record held by the store: the
      record changes, the index does not. */
  function SetAttribute(store: RecordStore, pos: nat, key: string, v: Value): (out: RecordStore)
    requires pos < |store.records|
    ensures out.index == store.index && out.dirty == store.dirty
    ensures |out.records| == |store.records|
    ensures forall i :: 0 <= i < |store.records| && i != pos ==> out.records[i] == store.records[i]
    ensures out.records[pos].attrs == store.records[pos].attrs[key := v]
  {
    var rec := store.records[pos];
    store.(records := store.records[pos := Record(rec.cls, rec.attrs[key := v])])
  }

  /** The index goes stale when a stored record's id changes: the record is
      still in the store, but `exists?` looks up its new key and misses. */
  lemma ChangedIdGoesStale(store: RecordStore, defaults: map<string, Value>, pos: nat, v: Value)
    requires IndexConsistent(store, defaults) && pos < |store.records|
    requires Truthy(v) && ToS(v) !in store.index
    ensures var out := SetAttribute(store, pos, "id", v);
      && out.records[pos] in out.records
      && !Exists(out, defaults, RecordArg(out.records[pos]))
      && !IndexConsistent(out, defaults)
  {
    var out := SetAttribute(store, pos, "id", v);
    assert Attribute(out.records[pos], defaults, "id") == v;
    assert Key(out.records[pos], defaults) == ToS(v);
  }
}
