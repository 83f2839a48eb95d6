/** The class-level state of one `ActiveHash::Base` subclass taken as a
    whole (its field registry, its record store and the retained `_data`
    payload) and the operations that replace the store wholesale: `data=`,
    `delete_all` and `reload`. */
module Models {
  import opened Wrappers
  import opened Values
  import opened Errors
  import opened Records
  import opened Schemas
  import opened RecordStores

  datatype Model = Model(cls: string, schema: Schema, store: RecordStore, data: Option<seq<Row>>)

  /** A subclass before any declaration or load. */
  function Initial(cls: string): (m: Model)
    ensures m.store.records == [] && m.store.index == map[] && !m.store.dirty
    ensures m.schema.fieldNames == [] && m.data.None?
  {
    Model(cls, EmptySchema, EmptyStore, None)
  }

  /** The store right after `mark_dirty`, `@records = nil` and
      `reset_record_index` (a nil `@records` reads as no records). */
  const Cleared: RecordStore := RecordStore([], map[], true)

  /** `data=`: mark dirty, drop the records and the index, retain the
      payload, and for a non-nil payload declare its fields and insert one
      record per row, in order. A raise leaves whatever was done before it. */
  function Load(m: Model, rows: Option<seq<Row>>): (r: Step<Model>)
    ensures r.value.cls == m.cls && r.value.data == rows && r.value.store.dirty
    ensures rows.None? ==> r.raised.None? && r.value.schema == m.schema && r.value.store.records == []
    ensures rows.Some? ==> |r.value.store.records| <= |rows.value|
    ensures r.raised.Some? ==>
      r.raised == Some(ReservedFieldError) || r.raised == Some(IdError) || r.raised == Some(ArgumentError)
  {
    var cleared := m.(store := Cleared, data := rows);
    match rows
    case None => Step(cleared, None)
    case Some(rs) =>
      var declared := AutoAssign(m.schema, rs);
      if declared.raised.Some? then Step(cleared.(schema := declared.value), declared.raised)
      else
        var loaded := InsertRows(Cleared, declared.value.defaults, m.cls, rs);
        Step(cleared.(schema := declared.value, store := loaded.value), loaded.raised)
  }

  /** `delete_all`: mark dirty and drop the records and the index. */
  function DeleteAll(m: Model): (r: Model)
    ensures r.store.records == [] && r.store.index == map[] && r.store.dirty
    ensures r.schema == m.schema && r.data == m.data && r.cls == m.cls
  {
    m.(store := Cleared)
  }

  /** `reload`: load the retained payload again, then `mark_clean`; a raise
      in the load skips `mark_clean`. */
  function Reload(m: Model): (r: Step<Model>)
    ensures r.value.cls == m.cls && r.value.data == m.data
    ensures r.value.store.dirty <==> r.raised.Some?
  {
    var loaded := Load(m, m.data);
    if loaded.raised.Some? then loaded
    else Step(loaded.value.(store := loaded.value.store.(dirty := false)), None)
  }

  /** `insert(record)` at class level: the store changes, nothing else. */
  function InsertRecord(m: Model, r: Record): (out: Step<Model>)
    ensures out.value.cls == m.cls && out.value.schema == m.schema && out.value.data == m.data
    ensures out.raised.Some? ==> out.value == m
    ensures out.raised.None? ==>
      && out.value.store.dirty
      && |out.value.store.records| == |m.store.records| + 1
      && out.value.store.records[..|m.store.records|] == m.store.records
  {
    match Insert(m.store, m.schema.defaults, r)
    case Err(e) => Step(m, Some(e))
    case Ok(s) => Step(m.(store := s), None)
  }

  /** A nil payload leaves the store empty, dirty, and the fields as they
      were. */
  lemma LoadNil(m: Model)
    ensures Load(m, None).raised.None?
    ensures var s := Load(m, None).value.store;
      s.records == [] && s.index == map[] && s.dirty
    ensures Load(m, None).value.schema == m.schema
  {
  }

  /** A load that raises nothing leaves one record per row, each the row's
      record; a consistent index over unique keys; the store dirty; and the
      payload's keys appended to the field list. */
  lemma LoadOutcome(m: Model, rs: seq<Row>)
    requires Load(m, Some(rs)).raised.None?
    ensures var out := Load(m, Some(rs)).value;
      && |out.store.records| == |rs|
      && (forall i :: 0 <= i < |rs| ==> LoadedFrom(out.store.records[i], m.cls, rs[i], m.schema.defaults))
      && IndexConsistent(out.store, m.schema.defaults)
      && UniqueKeys(out.store, m.schema.defaults)
      && out.store.dirty
      && out.schema.fieldNames == m.schema.fieldNames + Dedup(NonIdKeys(rs))
      && out.schema.defaults == m.schema.defaults
      && out.data == Some(rs)
  {
    var declared := AutoAssign(m.schema, rs);
    var defaults := m.schema.defaults;
    assert declared.raised.None?;
    InsertRowsAppends(Cleared, defaults, m.cls, rs);
    InsertRowsKeepsUnique(Cleared, defaults, m.cls, rs);
    LoadedEveryRow(defaults, m.cls, rs);
    assert Dedup(NonIdKeys(rs))[..LeadingFields(Dedup(NonIdKeys(rs)))] == Dedup(NonIdKeys(rs));
  }

  /** Every row of a load that raised nothing became its record, in order. */
  lemma LoadedEveryRow(defaults: map<string, Value>, cls: string, rs: seq<Row>)
    requires InsertRows(Cleared, defaults, cls, rs).raised.None?
    ensures var out := InsertRows(Cleared, defaults, cls, rs).value;
      |out.records| == |rs| &&
      forall i :: 0 <= i < |rs| ==> LoadedFrom(out.records[i], cls, rs[i], defaults)
  {
    var out := InsertRows(Cleared, defaults, cls, rs).value;
    InsertRowsAppends(Cleared, defaults, cls, rs);
    forall i | 0 <= i < |rs| ensures LoadedFrom(out.records[i], cls, rs[i], defaults) {
      InsertRowsRecordAt(Cleared, defaults, cls, rs, out, i, i, rs[i]);
    }
  }

  /** The store is marked dirty before the first insert, so two rows whose
      truthy ids have the same `to_s` raise even on the first load; when no
      key is `attributes` and every row has a truthy id, the exception is
      `IdError`. */
  lemma LoadRejectsDuplicateIds(m: Model, rs: seq<Row>, i: nat, j: nat)
    requires i < j < |rs|
    requires Truthy(Attribute(FromRow(m.cls, rs[i]), m.schema.defaults, "id"))
    requires Truthy(Attribute(FromRow(m.cls, rs[j]), m.schema.defaults, "id"))
    requires RowKey(m.cls, rs[i], m.schema.defaults) == RowKey(m.cls, rs[j], m.schema.defaults)
    ensures Load(m, Some(rs)).raised.Some?
    ensures (forall a, b :: 0 <= a < |rs| && 0 <= b < |rs[a]| ==> !Reserved(rs[a][b].0)) &&
            (forall a :: 0 <= a < |rs| ==> Truthy(Attribute(FromRow(m.cls, rs[a]), m.schema.defaults, "id"))) ==>
      Load(m, Some(rs)).raised == Some(IdError)
  {
    var defaults := m.schema.defaults;
    AutoAssignOutcome(m.schema, rs);
    if AutoAssign(m.schema, rs).raised.None? {
      InsertRowsRejectsDuplicates(Cleared, defaults, m.cls, rs, i, j);
      if forall a :: 0 <= a < |rs| ==> Truthy(Attribute(FromRow(m.cls, rs[a]), defaults, "id")) {
        InsertRowsRaisesOnlyIdError(Cleared, defaults, m.cls, rs);
      }
    }
  }

  /** What a load builds depends on the payload, the class and its
      defaults, and not on the records or the index held before. */
  lemma LoadIgnoresOldStore(m: Model, s: RecordStore, rows: Option<seq<Row>>)
    ensures Load(m.(store := s), rows) == Load(m, rows)
  {
  }

  /** `reload` right after a load that raised nothing rebuilds the same
      records and index, leaves the store clean, and appends the payload's
      keys to the field list once more. */
  lemma ReloadRestores(m: Model, rows: Option<seq<Row>>)
    requires Load(m, rows).raised.None?
    ensures var loaded := Load(m, rows).value;
      && Reload(loaded).raised.None?
      && Reload(loaded).value.store == loaded.store.(dirty := false)
      && Reload(loaded).value.data == rows
      && Reload(loaded).value.schema.fieldNames ==
           loaded.schema.fieldNames + (if rows.Some? then Dedup(NonIdKeys(rows.value)) else [])
  {
    var loaded := Load(m, rows).value;
    if rows.Some? {
      var names := Dedup(NonIdKeys(rows.value));
      var first := AutoAssign(m.schema, rows.value);
      var second := AutoAssign(loaded.schema, rows.value);
      assert first.raised.None?;
      assert LeadingFields(names) == |names|;
      assert names[..|names|] == names;
      assert second.raised.None?;
      assert second.value.defaults == first.value.defaults;
    }
  }

  /** `delete_all` followed by `reload` brings the records back: reloading
      reads the retained payload, not the emptied store. */
  lemma DeleteAllThenReload(m: Model, rows: Option<seq<Row>>)
    requires Load(m, rows).raised.None?
    ensures var loaded := Load(m, rows).value;
      && Reload(DeleteAll(loaded)).raised.None?
      && Reload(DeleteAll(loaded)).value.store.records == loaded.store.records
      && Reload(DeleteAll(loaded)).value.store.index == loaded.store.index
  {
    var loaded := Load(m, rows).value;
    ReloadRestores(m, rows);
    LoadIgnoresOldStore(loaded, Cleared, loaded.data);
  }

  /** After `reload` the store is clean, so the next insert skips the
      uniqueness check: a record reusing an indexed id goes in, and two
      records then share that key, the index pointing at the newer one. */
  lemma InsertAfterReloadSkipsCheck(m: Model, r: Record)
    requires Reload(m).raised.None?
    requires Truthy(Attribute(r, m.schema.defaults, "id"))
    requires Key(r, m.schema.defaults) in Reload(m).value.store.index
    ensures var before := Reload(m).value;
      && InsertRecord(before, r).raised.None?
      && !UniqueKeys(InsertRecord(before, r).value.store, m.schema.defaults)
      && InsertRecord(before, r).value.store.index[Key(r, m.schema.defaults)] == |before.store.records|
  {
    var before := Reload(m).value;
    var defaults := m.schema.defaults;
    assert before.schema.defaults == defaults by {
      if m.data.Some? {
        assert AutoAssign(m.schema, m.data.value).value.defaults == defaults;
      }
    }
    assert IndexConsistent(before.store, defaults) by {
      if m.data.Some? {
        LoadOutcome(m, m.data.value);
      }
    }
    var p := before.store.index[Key(r, defaults)];
    var after := InsertRecord(before, r).value.store;
    assert after.records[p] == before.store.records[p];
    assert after.records[|before.store.records|] == r;
  }
}
