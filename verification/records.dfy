/** One ActiveHash record (an instance of an `ActiveHash::Base` subclass):
    its attribute hash, the merged read view with the class defaults, the
    `id` reader, equality and hashing, and the generated field getter. */
module Records {
  import opened Values

  /** A record: the name of its class and its own `@attributes` hash. */
  datatype Record = Record(cls: string, attrs: map<string, Value>)

  /** One hash of a bulk-load payload, as its entries in insertion order.
      Keys are symbol names; a later entry for the same key wins. */
  type Row = seq<(string, Value)>

  function RowAttrs(row: Row): (m: map<string, Value>)
    ensures forall k :: k in m <==> exists i :: 0 <= i < |row| && row[i].0 == k
  {
    if row == [] then map[]
    else
      var init := row[..|row| - 1];
      assert forall i :: 0 <= i < |init| ==> init[i] == row[i];
      RowAttrs(init)[row[|row| - 1].0 := row[|row| - 1].1]
  }

  /** `new(hash)`: every key of the hash is routed through its setter, which
      stores it in `@attributes`. */
  function FromRow(cls: string, row: Row): (r: Record)
    ensures r.cls == cls
    ensures forall k :: k in r.attrs <==> exists i :: 0 <= i < |row| && row[i].0 == k
  {
    Record(cls, RowAttrs(row))
  }

  /** `attributes[key]`: the class defaults overlaid by the record's own
      attributes; nil where neither has the key. */
  function Attribute(r: Record, defaults: map<string, Value>, key: string): (v: Value)
    ensures key in defaults + r.attrs ==> v == (defaults + r.attrs)[key]
    ensures key !in defaults + r.attrs ==> v == Nil
    ensures key in r.attrs ==> v == r.attrs[key]
  {
    if key in r.attrs then r.attrs[key]
    else if key in defaults then defaults[key]
    else Nil
  }

  /** `Base#id`: the id attribute when it is truthy, nil otherwise. */
  function Id(r: Record, defaults: map<string, Value>): (v: Value)
    ensures v == Nil || Truthy(v)
    ensures v == Nil <==> !Truthy(Attribute(r, defaults, "id"))
    ensures v != Nil ==> v == Attribute(r, defaults, "id")
  {
    var a := Attribute(r, defaults, "id");
    if Truthy(a) then a else Nil
  }

  /** `id.to_s`, the key of the class's record index. */
  function Key(r: Record, defaults: map<string, Value>): (k: string)
    ensures Id(r, defaults) == Nil ==> k == ""
    ensures Id(r, defaults).Int? ==> k != "" && (k[0] == '-' <==> Id(r, defaults).i < 0)
  {
    ToS(Id(r, defaults))
  }

  /** `eql?` and `==`: same class, a non-nil id, and equal ids. Both records
      are read with the defaults of their (common) class. */
  predicate Eql(a: Record, b: Record, defaults: map<string, Value>): (e: bool)
    ensures e ==> Truthy(Attribute(a, defaults, "id")) && Truthy(Attribute(b, defaults, "id"))
    ensures e ==> Key(a, defaults) == Key(b, defaults)
  {
    a.cls == b.cls && Id(a, defaults) != Nil && Id(a, defaults) == Id(b, defaults)
  }

  /** `hash` is `id.hash`: the model keeps the value that Ruby hashes. */
  function HashKey(r: Record, defaults: map<string, Value>): (h: Value)
    ensures h == Nil <==> !Truthy(Attribute(r, defaults, "id"))
    ensures h == Nil || Truthy(h)
  {
    Id(r, defaults)
  }

  lemma EqlSymmetric(a: Record, b: Record, defaults: map<string, Value>)
    ensures Eql(a, b, defaults) <==> Eql(b, a, defaults)
  {
  }

  lemma EqlTransitive(a: Record, b: Record, c: Record, defaults: map<string, Value>)
    requires Eql(a, b, defaults) && Eql(b, c, defaults)
    ensures Eql(a, c, defaults)
  {
  }

  /** A record equals itself exactly when its id is truthy: a record whose id
      is nil or false is equal to nothing, itself included. */
  lemma EqlReflexiveIffId(a: Record, defaults: map<string, Value>)
    ensures Eql(a, a, defaults) <==> Truthy(Attribute(a, defaults, "id"))
    ensures !Truthy(Attribute(a, defaults, "id")) ==>
      forall b :: !Eql(a, b, defaults) && !Eql(b, a, defaults)
  {
  }

  /** Equal records hash alike, and the hash depends on nothing but the id. */
  lemma EqlHashConsistent(a: Record, b: Record, defaults: map<string, Value>)
    ensures Eql(a, b, defaults) ==> HashKey(a, defaults) == HashKey(b, defaults)
    ensures Id(a, defaults) == Id(b, defaults) ==> HashKey(a, defaults) == HashKey(b, defaults)
  {
  }

  /** `record.send(field)` for a name that passed the finder checks: `id`
      is `Base#id`; any other declared field has a generated getter, which
      returns the attribute unless it is nil, and then the default captured
      when the getter was defined (`getters[field]`). */
  function Read(r: Record, defaults: map<string, Value>, getters: map<string, Value>, field: string): (v: Value)
    ensures field == "id" ==> v == Id(r, defaults)
    ensures field != "id" && field in getters && Attribute(r, defaults, field) != Nil ==>
      v == Attribute(r, defaults, field)
    ensures field != "id" && field in getters && Attribute(r, defaults, field) == Nil ==>
      v == getters[field]
  {
    if field == "id" then Id(r, defaults)
    else if field in getters then
      var a := Attribute(r, defaults, field);
      if a == Nil then getters[field] else a
    else Attribute(r, defaults, field)
  }

  /** A record built from a payload row reads back, through its getter, every
      non-nil value the row gave it. */
  lemma ReadFromRow(cls: string, row: Row, defaults: map<string, Value>, getters: map<string, Value>, i: nat)
    requires i < |row| && row[i].0 != "id" && row[i].0 in getters
    requires forall j :: i < j < |row| ==> row[j].0 != row[i].0
    requires row[i].1 != Nil
    ensures Read(FromRow(cls, row), defaults, getters, row[i].0) == row[i].1
  {
    RowAttrsLast(row, i);
  }

  /** The value a row gives a key is that of its last entry for the key. */
  lemma {:induction false} RowAttrsLast(row: Row, i: nat)
    requires i < |row|
    requires forall j :: i < j < |row| ==> row[j].0 != row[i].0
    ensures RowAttrs(row)[row[i].0] == row[i].1
  {
    var init := row[..|row| - 1];
    if i < |row| - 1 {
      RowAttrsLast(init, i);
    }
  }
}
