/** The per-class field registry: `field_names`, `default_attributes` and
    the getters `field` generates, with `fields`, `validate_field` and
    `auto_assign_fields`. Accessor generation is a table: `getters` maps each
    field that received a generated getter to the default that getter
    captured. */
module Schemas {
  import opened Wrappers
  import opened Values
  import opened Errors
  import opened Records

  datatype Schema = Schema(fieldNames: seq<string>, defaults: map<string, Value>, getters: map<string, Value>)

  const EmptySchema: Schema := Schema([], map[], map[])

  /** `validate_field`: `attributes` is reserved. */
  const ReservedFields: seq<string> := ["attributes"]

  /** `validate_field`: `[:attributes].include?(name)`, so `attributes` is
      the one reserved name. */
  predicate Reserved(name: string): (b: bool)
    ensures b <==> name == "attributes"
    ensures b ==> name != "id"
  {
    name in ReservedFields
  }

  /** Every declared field other than `id` has a generated getter (`id`
      keeps `Base#id`), and only declared fields have one. */
  predicate Registry(sch: Schema) {
    && (forall f :: f in sch.fieldNames && f != "id" ==> f in sch.getters)
    && (forall f :: f in sch.getters ==> f in sch.fieldNames && f != "id")
  }

  /** `field name, default: d` (`default` is None when the option is absent).
      The name is appended to `field_names` even when already there; the
      default, when given, is recorded; a getter is generated only when the
      class has no method of that name yet, so it keeps the default of the
      first declaration. */
  function Field(sch: Schema, name: string, default: Option<Value>): (r: Result<Schema, Error>)
    ensures r.Err? <==> Reserved(name)
    ensures r.Err? ==> r.error == ReservedFieldError
    ensures r.Ok? ==> r.value.fieldNames == sch.fieldNames + [name]
    ensures r.Ok? && default.None? ==> r.value.defaults == sch.defaults
    ensures r.Ok? && default.Some? ==> r.value.defaults == sch.defaults[name := default.value]
    ensures r.Ok? && (name == "id" || name in sch.getters) ==> r.value.getters == sch.getters
    ensures r.Ok? && name != "id" && name !in sch.getters ==>
      name in r.value.getters && r.value.getters[name] == default.GetOr(Nil)
    ensures r.Ok? ==> forall f :: f != name ==>
      && (f in r.value.getters <==> f in sch.getters)
      && (f in sch.getters ==> r.value.getters[f] == sch.getters[f])
    ensures Registry(sch) && r.Ok? ==> Registry(r.value)
  {
    if Reserved(name) then Err(ReservedFieldError)
    else
      Ok(Schema(
        sch.fieldNames + [name],
        if default.Some? then sch.defaults[name := default.value] else sch.defaults,
        if name == "id" || name in sch.getters then sch.getters
        else sch.getters[name := default.GetOr(Nil)]))
  }

  /** Declaring a field twice lists it twice, and its getter keeps the default
      given first while `default_attributes` holds the one given last. */
  lemma RedeclareField(sch: Schema, name: string, first: Value, second: Value)
    requires !Reserved(name) && name != "id" && name !in sch.getters
    ensures Field(sch, name, Some(first)).Ok?
    ensures var s1 := Field(sch, name, Some(first)).value;
      && Field(s1, name, Some(second)).Ok?
      && Field(s1, name, Some(second)).value.fieldNames == sch.fieldNames + [name, name]
      && Field(s1, name, Some(second)).value.getters[name] == first
      && Field(s1, name, Some(second)).value.defaults[name] == second
  {
    var s1 := Field(sch, name, Some(first)).value;
    assert s1.fieldNames + [name] == sch.fieldNames + [name, name];
  }

  /** The number of names `fields` declares before one is refused. */
  function LeadingFields(names: seq<string>): (n: nat)
    ensures n <= |names|
    ensures forall i :: 0 <= i < n ==> !Reserved(names[i])
    ensures n < |names| ==> Reserved(names[n])
  {
    if names == [] || Reserved(names[0]) then 0
    else 1 + LeadingFields(names[1..])
  }

  /** `fields(*names, options)`: `field` for each name in turn, with the same
      options; a refused name stops the loop with the earlier names declared. */
  function DeclareAll(sch: Schema, names: seq<string>, default: Option<Value>): (r: Step<Schema>)
    ensures r.raised == if LeadingFields(names) < |names| then Some(ReservedFieldError) else None
    ensures var declared := names[..LeadingFields(names)];
      r.value == Schema(sch.fieldNames + declared, Defaulted(sch.defaults, declared, default), WithGetters(sch.getters, declared, default))
    decreases |names|
  {
    if names == [] then Step(sch, None)
    else
      match Field(sch, names[0], default)
      case Err(e) => Step(sch, Some(e))
      case Ok(next) =>
        var r := DeclareAll(next, names[1..], default);
        DeclaredCons(names);
        r
  }

  /** `fields` keeps every declared field other than `id` paired with a
      getter, and gives getters to declared fields only. */
  lemma {:induction false} DeclareAllKeepsRegistry(sch: Schema, names: seq<string>, default: Option<Value>)
    requires Registry(sch)
    ensures Registry(DeclareAll(sch, names, default).value)
    decreases |names|
  {
    if names != [] && Field(sch, names[0], default).Ok? {
      DeclareAllKeepsRegistry(Field(sch, names[0], default).value, names[1..], default);
    }
  }

  /** One turn of `fields` from position `i`: declare that name, then the
      ones after it. */
  lemma DeclareAllStep(sch: Schema, names: seq<string>, i: nat, default: Option<Value>)
    requires i < |names|
    ensures Field(sch, names[i], default).Err? ==>
      DeclareAll(sch, names[i..], default) == Step(sch, Some(Field(sch, names[i], default).error))
    ensures Field(sch, names[i], default).Ok? ==>
      DeclareAll(sch, names[i..], default) == DeclareAll(Field(sch, names[i], default).value, names[i + 1..], default)
  {
    assert names[i..][0] == names[i] && names[i..][1..] == names[i + 1..];
  }

  /** The names `fields` declares are the first name followed by those the
      rest of the call declares. */
  lemma DeclaredCons(names: seq<string>)
    requires names != [] && !Reserved(names[0])
    ensures var declared := names[..LeadingFields(names)];
      && declared != [] && declared[0] == names[0]
      && declared[1..] == names[1..][..LeadingFields(names[1..])]
  {
  }

  /** `default_attributes` once `fields` has declared `names` in turn: the
      given default, when there is one, recorded under each name. */
  function Defaulted(defaults: map<string, Value>, names: seq<string>, default: Option<Value>): map<string, Value>
    decreases |names|
  {
    if default.None? || names == [] then defaults
    else Defaulted(defaults[names[0] := default.value], names[1..], default)
  }

  /** The getters once `fields` has declared `names` in turn: a name other
      than `id` that has no getter yet gets one holding the given default, or
      nil; an existing getter is kept. */
  function WithGetters(getters: map<string, Value>, names: seq<string>, default: Option<Value>): map<string, Value>
    decreases |names|
  {
    if names == [] then getters
    else
      var n := names[0];
      WithGetters(if n == "id" || n in getters then getters else getters[n := default.GetOr(Nil)], names[1..], default)
  }

  /** The defaults `Defaulted` gives: the given default under each declared
      name, and the old entry under every other key. */
  lemma {:induction false} DefaultedEntries(defaults: map<string, Value>, names: seq<string>, default: Option<Value>)
    ensures var d := Defaulted(defaults, names, default);
      && (forall k :: k in d <==> k in defaults || (default.Some? && k in names))
      && (forall k :: k in d && k !in names ==> d[k] == defaults[k])
      && (default.Some? ==> forall k :: k in names ==> d[k] == default.value)
    decreases |names|
  {
    if default.Some? && names != [] {
      var d1 := defaults[names[0] := default.value];
      assert Defaulted(defaults, names, default) == Defaulted(d1, names[1..], default);
      DefaultedEntries(d1, names[1..], default);
      forall k ensures k in names <==> k == names[0] || k in names[1..] {
        assert names == [names[0]] + names[1..];
      }
    } else {
      assert Defaulted(defaults, names, default) == defaults;
    }
  }

  /** The getters `WithGetters` gives: every existing getter kept, and a new
      one, holding the given default or nil, exactly for each declared name
      other than `id` that had none. */
  lemma {:induction false} WithGettersEntries(getters: map<string, Value>, names: seq<string>, default: Option<Value>)
    ensures var g := WithGetters(getters, names, default);
      && (forall f :: f in getters ==> f in g && g[f] == getters[f])
      && (forall f :: f in g <==> f in getters || (f in names && f != "id"))
      && (forall f :: f in g && f !in getters ==> g[f] == default.GetOr(Nil))
    decreases |names|
  {
    if names != [] {
      var n := names[0];
      var g1 := if n == "id" || n in getters then getters else getters[n := default.GetOr(Nil)];
      assert WithGetters(getters, names, default) == WithGetters(g1, names[1..], default);
      WithGettersEntries(g1, names[1..], default);
      forall f ensures f in names <==> f == n || f in names[1..] {
        assert names == [n] + names[1..];
      }
    }
  }

  /** The keys of one row other than `id`, in order. */
  function RowNonIdKeys(row: Row): (ks: seq<string>)
    ensures forall k :: k in ks <==> k != "id" && exists j :: 0 <= j < |row| && row[j].0 == k
  {
    if row == [] then []
    else
      var init := row[..|row| - 1];
      assert forall j :: 0 <= j < |init| ==> init[j] == row[j];
      var k := row[|row| - 1].0;
      RowNonIdKeys(init) + (if k == "id" then [] else [k])
  }

  /** The `inject` of `auto_assign_fields`: every key of every row except
      `id`, in row order and key order, repeats included. */
  function NonIdKeys(rows: seq<Row>): (ks: seq<string>)
    ensures forall k :: k in ks <==>
      k != "id" && exists i, j :: 0 <= i < |rows| && 0 <= j < |rows[i]| && rows[i][j].0 == k
  {
    if rows == [] then []
    else
      var init := rows[..|rows| - 1];
      assert forall i :: 0 <= i < |init| ==> init[i] == rows[i];
      var ks := NonIdKeys(init) + RowNonIdKeys(rows[|rows| - 1]);
      ks
  }

  predicate Distinct(ks: seq<string>) {
    forall i, j :: 0 <= i < j < |ks| ==> ks[i] != ks[j]
  }

  /** `Array#uniq`: the first occurrence of each element, in order. */
  function Dedup(ks: seq<string>): (r: seq<string>)
    ensures Distinct(r)
    ensures forall k :: k in r <==> k in ks
  {
    if ks == [] then []
    else
      var init := ks[..|ks| - 1];
      var d := Dedup(init);
      assert ks == init + [ks[|ks| - 1]];
      if ks[|ks| - 1] in d then d else d + [ks[|ks| - 1]]
  }

  /** The position of the first occurrence. */
  function FirstIndex(ks: seq<string>, k: string): (i: nat)
    requires k in ks
    ensures i < |ks| && ks[i] == k && k !in ks[..i]
  {
    if ks[0] == k then 0 else 1 + FirstIndex(ks[1..], k)
  }

  lemma FirstIndexExtend(ks: seq<string>, x: string, k: string)
    requires k in ks
    ensures FirstIndex(ks + [x], k) == FirstIndex(ks, k)
  {
    var i := FirstIndex(ks, k);
    var j := FirstIndex(ks + [x], k);
    assert (ks + [x])[i] == k;
  }

  /** `uniq` keeps the keys in first-seen order. */
  lemma {:induction false} DedupFirstSeen(ks: seq<string>, i: nat, j: nat)
    requires i < j < |Dedup(ks)|
    ensures Dedup(ks)[i] in ks && Dedup(ks)[j] in ks
    ensures FirstIndex(ks, Dedup(ks)[i]) < FirstIndex(ks, Dedup(ks)[j])
  {
    var init := ks[..|ks| - 1];
    var x := ks[|ks| - 1];
    var d := Dedup(init);
    assert ks == init + [x];
    FirstIndexExtend(init, x, Dedup(ks)[i]);
    if x in d {
      FirstIndexExtend(init, x, Dedup(ks)[j]);
      DedupFirstSeen(init, i, j);
    } else if j < |d| {
      FirstIndexExtend(init, x, Dedup(ks)[j]);
      DedupFirstSeen(init, i, j);
    } else {
      assert Dedup(ks)[j] == x && x !in init;
      assert FirstIndex(ks, x) == |init|;
      assert FirstIndex(init, Dedup(ks)[i]) < |init|;
    }
  }

  /** `auto_assign_fields(rows)`: declare, without default, each key of the
      payload other than `id`, once, in first-seen order. */
  function AutoAssign(sch: Schema, rows: seq<Row>): (r: Step<Schema>)
    ensures r.value.defaults == sch.defaults
    ensures forall f :: f in sch.getters ==> f in r.value.getters && r.value.getters[f] == sch.getters[f]
    ensures forall f :: f in r.value.getters && f !in sch.getters ==> f != "id" && r.value.getters[f] == Nil
    ensures Registry(sch) ==> Registry(r.value)
  {
    var names := Dedup(NonIdKeys(rows));
    WithGettersEntries(sch.getters, names[..LeadingFields(names)], None);
    if Registry(sch) then
      DeclareAllKeepsRegistry(sch, names, None);
      DeclareAll(sch, names, None)
    else DeclareAll(sch, names, None)
  }

  /** A payload with no `attributes` key declares all its other keys; one
      with such a key raises `ReservedFieldError`. */
  lemma AutoAssignOutcome(sch: Schema, rows: seq<Row>)
    ensures (forall i, j :: 0 <= i < |rows| && 0 <= j < |rows[i]| ==> !Reserved(rows[i][j].0)) ==>
      AutoAssign(sch, rows) == Step(Schema(sch.fieldNames + Dedup(NonIdKeys(rows)), sch.defaults, AutoAssign(sch, rows).value.getters), None)
    ensures (exists i, j :: 0 <= i < |rows| && 0 <= j < |rows[i]| && Reserved(rows[i][j].0)) ==>
      AutoAssign(sch, rows).raised == Some(ReservedFieldError)
  {
    var names := Dedup(NonIdKeys(rows));
    if exists i, j :: 0 <= i < |rows| && 0 <= j < |rows[i]| && Reserved(rows[i][j].0) {
      assert "attributes" in names;
    } else {
      forall t | 0 <= t < |names| ensures !Reserved(names[t]) {
        assert names[t] in NonIdKeys(rows);
      }
      assert LeadingFields(names) == |names|;
      assert names[..|names|] == names;
    }
  }
}
