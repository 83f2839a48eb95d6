/** The dynamic finders answered by `method_missing`: `respond_to?` decides
    whether a finder name is served, and the matcher keeps the records whose
    fields render like the arguments. */
module Finders {
  import opened Wrappers
  import opened Values
  import opened Errors
  import opened Records
  import opened Schemas
  import opened RecordStores
  import opened FinderNames

  /** What a finder returns: one record or nil for `find_by_…`, every match
      for `find_all_by_…`. */
  datatype FinderResult = One(found: Option<Record>) | Many(matches: seq<Record>)

  /** The finder-name half of `respond_to?`: the name parses, and every
      field it names is declared or is `id`. */
  predicate RespondTo(sch: Schema, name: string): (b: bool)
    ensures b ==> StartsWith(name, FindBy) || (StartsWith(name, FindAllBy) && !EndsWith(name, "!"))
  {
    && Parse(name).Some?
    && forall f :: f in Parse(name).value.fields ==> f in sch.fieldNames || f == "id"
  }

  /** The argument zipped with field `k`: nil when the call gave fewer
      arguments than the name has fields. */
  function Arg(args: seq<Value>, k: nat): (v: Value)
    ensures k < |args| ==> v == args[k]
    ensures |args| <= k ==> v == Nil && ToS(v) == ""
  {
    if k < |args| then args[k] else Nil
  }

  /** A record matches when, for every field of the name, the field read
      through its getter and the zipped argument have the same `to_s`. */
  predicate Matches(r: Record, sch: Schema, fields: seq<string>, args: seq<Value>): (b: bool)
    ensures fields == [] ==> b
    ensures b ==> forall k :: |args| <= k < |fields| ==> ToS(Read(r, sch.defaults, sch.getters, fields[k])) == ""
  {
    forall k :: 0 <= k < |fields| ==>
      ToS(Read(r, sch.defaults, sch.getters, fields[k])) == ToS(Arg(args, k))
  }

  /** `all.select { … }`: the matching records, in store order. */
  function Matching(records: seq<Record>, sch: Schema, fields: seq<string>, args: seq<Value>): (ms: seq<Record>)
    ensures |ms| <= |records|
    ensures forall r :: r in ms <==> r in records && Matches(r, sch, fields, args)
  {
    if records == [] then []
    else
      var init := records[..|records| - 1];
      var last := records[|records| - 1];
      assert records == init + [last];
      Matching(init, sch, fields, args) + (if Matches(last, sch, fields, args) then [last] else [])
  }

  /** Selecting from two runs of records one after the other is selecting
      from each and concatenating, so the matches keep store order. */
  lemma {:induction false} MatchingAppend(xs: seq<Record>, ys: seq<Record>, sch: Schema, fields: seq<string>, args: seq<Value>)
    ensures Matching(xs + ys, sch, fields, args) == Matching(xs, sch, fields, args) + Matching(ys, sch, fields, args)
    decreases |ys|
  {
    if ys != [] {
      var init := ys[..|ys| - 1];
      assert xs + ys == (xs + init) + [ys[|ys| - 1]];
      assert (xs + ys)[..|xs + ys| - 1] == xs + init;
      MatchingAppend(xs, init, sch, fields, args);
    } else {
      assert xs + ys == xs;
    }
  }

  /** The position of the first matching record, or the length when none
      matches: an independent definition, scanning from the front. */
  function FirstMatchAt(records: seq<Record>, sch: Schema, fields: seq<string>, args: seq<Value>): (i: nat)
    ensures i <= |records|
    ensures i < |records| ==> Matches(records[i], sch, fields, args)
    ensures forall j :: 0 <= j < i ==> !Matches(records[j], sch, fields, args)
  {
    if records == [] then 0
    else if Matches(records[0], sch, fields, args) then 0
    else
      1 + FirstMatchAt(records[1..], sch, fields, args)
  }

  /** No record before position `i` matches, so the selection from them is
      empty. */
  lemma {:induction false} MatchingNone(records: seq<Record>, i: nat, sch: Schema, fields: seq<string>, args: seq<Value>)
    requires i <= |records|
    requires forall j :: 0 <= j < i ==> !Matches(records[j], sch, fields, args)
    ensures Matching(records[..i], sch, fields, args) == []
    decreases i
  {
    if i > 0 {
      assert records[..i][..i - 1] == records[..i - 1];
      MatchingNone(records, i - 1, sch, fields, args);
    }
  }

  /** The record at `i` matches, so the selection from position `i` on
      starts with it. */
  lemma MatchingHead(records: seq<Record>, i: nat, sch: Schema, fields: seq<string>, args: seq<Value>)
    requires i < |records| && Matches(records[i], sch, fields, args)
    ensures Matching(records[i..], sch, fields, args) != []
    ensures Matching(records[i..], sch, fields, args)[0] == records[i]
  {
    var rest := records[i..];
    assert rest == [records[i]] + rest[1..];
    MatchingAppend([records[i]], rest[1..], sch, fields, args);
    assert [records[i]][..0] == [];
  }

  /** The selection is empty exactly when nothing matches, and otherwise
      starts with the record at the first matching position. */
  lemma MatchingStartsAtFirstMatch(records: seq<Record>, sch: Schema, fields: seq<string>, args: seq<Value>)
    ensures var i := FirstMatchAt(records, sch, fields, args);
      && (Matching(records, sch, fields, args) == [] <==> i == |records|)
      && (i < |records| ==> Matching(records, sch, fields, args)[0] == records[i])
  {
    var i := FirstMatchAt(records, sch, fields, args);
    assert records == records[..i] + records[i..];
    MatchingAppend(records[..i], records[i..], sch, fields, args);
    MatchingNone(records, i, sch, fields, args);
    if i < |records| {
      MatchingHead(records, i, sch, fields, args);
    } else {
      assert records[i..] == [];
    }
  }

  /** `method_missing`: `NoMethodError` for a name `respond_to?` refuses;
      otherwise every match for `find_all_by_…`, and the first match, or
      nil, or `RecordNotFound` for the bang form, for `find_by_…`. */
  function MethodMissing(sch: Schema, store: RecordStore, name: string, args: seq<Value>): (r: Result<FinderResult, Error>)
    ensures r.Err? ==> r.error == NoMethodError || r.error == RecordNotFound
    ensures r.Ok? ==> RespondTo(sch, name) && (r.value.Many? <==> Parse(name).value.all)
    ensures r.Ok? && r.value.Many? ==> forall x :: x in r.value.matches ==> x in store.records
    ensures r.Ok? && r.value.One? && r.value.found.Some? ==>
      r.value.found.value in store.records && Matches(r.value.found.value, sch, Parse(name).value.fields, args)
    ensures r == Err(RecordNotFound) ==>
      && Parse(name).Some? && Parse(name).value.bang
      && forall x :: x in store.records ==> !Matches(x, sch, Parse(name).value.fields, args)
    ensures r == Ok(One(None)) ==>
      && Parse(name).Some? && !Parse(name).value.bang
      && forall x :: x in store.records ==> !Matches(x, sch, Parse(name).value.fields, args)
  {
    if !RespondTo(sch, name) then Err(NoMethodError)
    else
      var c := Parse(name).value;
      var ms := Matching(store.records, sch, c.fields, args);
      if c.all then Ok(Many(ms))
      else if ms != [] then Ok(One(Some(ms[0])))
      else if c.bang then Err(RecordNotFound)
      else Ok(One(None))
  }

  /** `find_all_by_…` returns exactly the records that match, in store
      order. */
  lemma FindAllReturnsEveryMatch(sch: Schema, store: RecordStore, name: string, args: seq<Value>)
    requires RespondTo(sch, name) && Parse(name).value.all
    ensures var fields := Parse(name).value.fields;
      && MethodMissing(sch, store, name, args).Ok?
      && MethodMissing(sch, store, name, args).value.Many?
      && (forall r :: r in MethodMissing(sch, store, name, args).value.matches <==>
            r in store.records && Matches(r, sch, fields, args))
      && (forall n :: 0 <= n <= |store.records| ==>
            MethodMissing(sch, store, name, args).value.matches ==
              Matching(store.records[..n], sch, fields, args) + Matching(store.records[n..], sch, fields, args))
  {
    var fields := Parse(name).value.fields;
    forall n | 0 <= n <= |store.records|
      ensures Matching(store.records, sch, fields, args) ==
        Matching(store.records[..n], sch, fields, args) + Matching(store.records[n..], sch, fields, args)
    {
      assert store.records == store.records[..n] + store.records[n..];
      MatchingAppend(store.records[..n], store.records[n..], sch, fields, args);
    }
  }

  /** `find_by_…` returns the record at the first matching position; with
      no match it returns nil, and the bang form raises `RecordNotFound`. */
  lemma FindByReturnsFirstMatch(sch: Schema, store: RecordStore, name: string, args: seq<Value>)
    requires RespondTo(sch, name) && !Parse(name).value.all
    ensures var i := FirstMatchAt(store.records, sch, Parse(name).value.fields, args);
      MethodMissing(sch, store, name, args) ==
        if i < |store.records| then Ok(One(Some(store.records[i])))
        else if Parse(name).value.bang then Err(RecordNotFound)
        else Ok(One(None))
  {
    MatchingStartsAtFirstMatch(store.records, sch, Parse(name).value.fields, args);
  }

  /** A name `respond_to?` refuses raises `NoMethodError`, and a name it
      accepts never does. */
  lemma RefusedNameRaises(sch: Schema, store: RecordStore, name: string, args: seq<Value>)
    ensures MethodMissing(sch, store, name, args) == Err(NoMethodError) <==> !RespondTo(sch, name)
  {
  }

  /** The name of a finder over declared fields is served, and `find_by_`
      followed by an undeclared field is not. */
  lemma RespondToFinderName(sch: Schema, c: FinderConfig)
    requires Expressible(c)
    ensures RespondTo(sch, FinderName(c)) <==> forall f :: f in c.fields ==> f in sch.fieldNames || f == "id"
  {
    ParseFinderName(c);
  }
}
