/** `ActiveHash::Base` at class level: the class attributes and instance
    variables of one subclass as fields of an object, and the class methods
    that update them in place, each proved against the value-level
    definitions of the other modules. */
module ActiveHashBase {
  import opened Wrappers
  import opened Values
  import opened Errors
  import opened Records
  import opened Schemas
  import opened RecordStores
  import opened FinderNames
  import opened Finders
  import opened Models

  class Base {
    /** The subclass name (`instance_of?` compares it). */
    const cls: string
    /** `@records` (nil reads as empty). */
    var records: seq<Record>
    /** `record_index`: `id.to_s` to position. */
    var index: map<string, int>
    /** The `dirty` class attribute (nil reads as false). */
    var dirty: bool
    /** `field_names`. */
    var fieldNames: seq<string>
    /** `default_attributes`. */
    var defaults: map<string, Value>
    /** The generated getters, each with the default it captured. */
    var getters: map<string, Value>
    /** `_data`, the payload last given to `data=`. */
    var data: Option<seq<Row>>

    function StoreOf(): RecordStore
      reads this
    {
      RecordStore(records, index, dirty)
    }

    function SchemaOf(): Schema
      reads this
    {
      Schema(fieldNames, defaults, getters)
    }

    function ModelOf(): Model
      reads this
    {
      Model(cls, SchemaOf(), StoreOf(), data)
    }

    constructor (name: string)
      ensures ModelOf() == Initial(name)
    {
      cls := name;
      records := [];
      index := map[];
      dirty := false;
      fieldNames := [];
      defaults := map[];
      getters := map[];
      data := None;
    }

    /** `next_id`: 1 when there is no record, the successor of an Integer
        maximum id, nil for any other maximum; an incomparable pair of ids
        raises `ArgumentError`. */
    method NextId() returns (r: Result<Value, Error>)
      ensures r == RecordStores.NextId(StoreOf(), defaults)
    {
      var max := MaxId();
      NextIdOfMax(StoreOf(), defaults, max);
      match max
      case NoElements => r := Ok(Int(1));
      case Incomparable => r := Err(ArgumentError);
      case Largest(m) => r := Ok(if m.Int? then Int(m.i + 1) else Nil);
    }

    /** `all_in_process.max { |a, b| a.id <=> b.id }`, as the running
        maximum over the records in order; the result is that of `max` over
        the ids. */
    method MaxId() returns (max: MaxResult)
      ensures max == MaxOf(Ids(records, defaults))
    {
      ghost var ids := Ids(records, defaults);
      ghost var target := MaxOf(ids);
      if records == [] {
        return NoElements;
      }
      var m := Id(records[0], defaults);
      var i := 1;
      while i < |records|
        invariant 1 <= i <= |records|
        invariant target == MaxFrom(m, ids[i..])
      {
        assert ids[i..][0] == Id(records[i], defaults) && ids[i..][1..] == ids[i + 1..];
        MaxFromStep(m, ids[i..]);
        var c := Compare(Id(records[i], defaults), m);
        if c.None? {
          return Incomparable;
        }
        if c.value > 0 {
          m := Id(records[i], defaults);
        }
        i := i + 1;
      }
      max := Largest(m);
    }

    /** `insert(record)`; `stored` is the caller's record afterwards, with
        the id `next_id` gave it. */
    method Insert(r: Record) returns (stored: Record, raised: Option<Error>)
      modifies this
      ensures var res := RecordStores.Insert(old(StoreOf()), old(defaults), r);
        && (res.Ok? ==> StoreOf() == res.value && raised.None?)
        && (res.Err? ==> StoreOf() == old(StoreOf()) && raised == Some(res.error))
      ensures AssignId(old(StoreOf()), old(defaults), r).Ok? ==> stored == AssignId(old(StoreOf()), old(defaults), r).value
      ensures AssignId(old(StoreOf()), old(defaults), r).Err? ==> stored == r
      ensures SchemaOf() == old(SchemaOf()) && data == old(data)
    {
      stored := r;
      if !Truthy(Attribute(r, defaults, "id")) {
        var n := NextId();
        if n.Err? {
          return r, Some(n.error);
        }
        stored := Record(r.cls, r.attrs["id" := n.value]);
      }
      var key := Key(stored, defaults);
      if dirty && key in index {
        return stored, Some(IdError);
      }
      dirty := true;
      index := index[key := |records|];
      records := records + [stored];
      raised := None;
    }

    /** `field(name, default: …)`. */
    method Field(name: string, default: Option<Value>) returns (raised: Option<Error>)
      modifies this
      ensures var res := Schemas.Field(old(SchemaOf()), name, default);
        && (res.Ok? ==> SchemaOf() == res.value && raised.None?)
        && (res.Err? ==> SchemaOf() == old(SchemaOf()) && raised == Some(res.error))
      ensures StoreOf() == old(StoreOf()) && data == old(data)
    {
      if Reserved(name) {
        return Some(ReservedFieldError);
      }
      fieldNames := fieldNames + [name];
      if default.Some? {
        defaults := defaults[name := default.value];
      }
      if name != "id" && name !in getters {
        getters := getters[name := default.GetOr(Nil)];
      }
      raised := None;
    }

    /** `fields(*names, options)`. */
    method Fields(names: seq<string>, default: Option<Value>) returns (raised: Option<Error>)
      modifies this
      ensures var res := DeclareAll(old(SchemaOf()), names, default);
        SchemaOf() == res.value && raised == res.raised
      ensures StoreOf() == old(StoreOf()) && data == old(data)
    {
      ghost var target := DeclareAll(SchemaOf(), names, default);
      var i := 0;
      while i < |names|
        invariant 0 <= i <= |names|
        invariant target == DeclareAll(SchemaOf(), names[i..], default)
        invariant StoreOf() == old(StoreOf()) && data == old(data)
      {
        DeclareAllStep(SchemaOf(), names, i, default);
        raised := Field(names[i], default);
        if raised.Some? {
          return;
        }
        i := i + 1;
      }
      raised := None;
    }

    /** `auto_assign_fields(rows)`: the `inject` collecting every key but
        `id`, then `uniq`, then `field` for each. */
    method AutoAssignFields(rows: seq<Row>) returns (raised: Option<Error>)
      modifies this
      ensures var res := AutoAssign(old(SchemaOf()), rows);
        SchemaOf() == res.value && raised == res.raised
      ensures StoreOf() == old(StoreOf()) && data == old(data)
    {
      var keys: seq<string> := [];
      var i := 0;
      while i < |rows|
        invariant 0 <= i <= |rows|
        invariant keys == NonIdKeys(rows[..i])
      {
        var row := rows[i];
        var j := 0;
        while j < |row|
          invariant 0 <= j <= |row|
          invariant keys == NonIdKeys(rows[..i]) + RowNonIdKeys(row[..j])
        {
          assert row[..j + 1][..j] == row[..j];
          if row[j].0 != "id" {
            keys := keys + [row[j].0];
          }
          j := j + 1;
        }
        assert row[..j] == row;
        assert rows[..i + 1][..i] == rows[..i];
        i := i + 1;
      }
      assert rows[..i] == rows;
      raised := Fields(Dedup(keys), None);
    }

    /** The loop of `data=`: `insert new(hash)` for each row in turn,
        stopping at the first raise. */
    method InsertAll(rs: seq<Row>) returns (raised: Option<Error>)
      modifies this
      ensures var res := InsertRows(old(StoreOf()), defaults, cls, rs);
        StoreOf() == res.value && raised == res.raised
      ensures SchemaOf() == old(SchemaOf()) && data == old(data)
    {
      var i := 0;
      while i < |rs|
        invariant 0 <= i <= |rs|
        invariant InsertRows(old(StoreOf()), defaults, cls, rs) == InsertRows(StoreOf(), defaults, cls, rs[i..])
        invariant SchemaOf() == old(SchemaOf()) && data == old(data)
      {
        assert rs[i..][1..] == rs[i + 1..];
        var _, e := Insert(FromRow(cls, rs[i]));
        if e.Some? {
          return e;
        }
        i := i + 1;
      }
      raised := None;
    }

    /** `data=(rows)`. */
    method SetData(rows: Option<seq<Row>>) returns (raised: Option<Error>)
      modifies this
      ensures var res := Load(old(ModelOf()), rows);
        ModelOf() == res.value && raised == res.raised
    {
      dirty := true;
      records := [];
      index := map[];
      data := rows;
      if rows.None? {
        return None;
      }
      raised := AutoAssignFields(rows.value);
      if raised.Some? {
        return;
      }
      raised := InsertAll(rows.value);
    }

    /** `delete_all`. */
    method DeleteAll()
      modifies this
      ensures ModelOf() == Models.DeleteAll(old(ModelOf()))
    {
      dirty := true;
      index := map[];
      records := [];
    }

    /** `reload`: `reset_record_index`, `self.data = _data`, `mark_clean`. */
    method Reload() returns (raised: Option<Error>)
      modifies this
      ensures var res := Models.Reload(old(ModelOf()));
        ModelOf() == res.value && raised == res.raised
    {
      index := map[];
      raised := SetData(data);
      if raised.None? {
        dirty := false;
      }
    }

    /** `exists?` for an object with an id. */
    method ExistsRecord(r: Record) returns (found: bool)
      ensures found == Exists(StoreOf(), defaults, RecordArg(r))
      ensures IndexConsistent(StoreOf(), defaults) ==>
        (found <==> exists i :: 0 <= i < |records| && Key(records[i], defaults) == Key(r, defaults))
    {
      found := Key(r, defaults) in index;
      if IndexConsistent(StoreOf(), defaults) {
        ExistsAgreesWithScan(StoreOf(), defaults, r);
      }
    }

    /** `save`: insert unless `exists?` finds the record; `stored` is the
        caller's record afterwards. */
    method Save(r: Record) returns (stored: Record, raised: Option<Error>)
      modifies this
      ensures var res := RecordStores.Save(old(StoreOf()), old(defaults), r);
        StoreOf() == res.value.0 && stored == res.value.1 && raised == res.raised
      ensures SchemaOf() == old(SchemaOf()) && data == old(data)
    {
      if Key(r, defaults) in index {
        return r, None;
      }
      stored, raised := Insert(r);
    }

    /** `record[key] = value` on the record at position `pos`. */
    method SetRecordAttribute(pos: nat, key: string, v: Value)
      requires pos < |records|
      modifies this
      ensures StoreOf() == SetAttribute(old(StoreOf()), pos, key, v)
      ensures SchemaOf() == old(SchemaOf()) && data == old(data)
    {
      records := records[pos := Record(records[pos].cls, records[pos].attrs[key := v])];
    }

    /** `all.select { … }` with the finder's field/argument pairs. */
    method Select(fields: seq<string>, args: seq<Value>) returns (matches: seq<Record>)
      ensures matches == Matching(records, SchemaOf(), fields, args)
    {
      matches := [];
      var i := 0;
      while i < |records|
        invariant 0 <= i <= |records|
        invariant matches == Matching(records[..i], SchemaOf(), fields, args)
      {
        assert records[..i + 1][..i] == records[..i];
        if Matches(records[i], SchemaOf(), fields, args) {
          matches := matches + [records[i]];
        }
        i := i + 1;
      }
      assert records[..i] == records;
    }

    /** `method_missing(name, *args)` for a finder name: the `select` over
        the records, then the first match or all of them. */
    method MethodMissing(name: string, args: seq<Value>) returns (r: Result<FinderResult, Error>)
      ensures r == Finders.MethodMissing(SchemaOf(), StoreOf(), name, args)
    {
      var config := Parse(name);
      if config.None? {
        return Err(NoMethodError);
      }
      var fields := config.value.fields;
      if !(forall f :: f in fields ==> f in fieldNames || f == "id") {
        return Err(NoMethodError);
      }
      var matches := Select(fields, args);
      if config.value.all {
        return Ok(Many(matches));
      }
      if matches != [] {
        return Ok(One(Some(matches[0])));
      }
      if config.value.bang {
        return Err(RecordNotFound);
      }
      return Ok(One(None));
    }
  }
}
