/** Ruby values as they occur in record attributes, ids and finder
    arguments, with the three Ruby operations the store relies on:
    truthiness, `to_s` and `<=>`. */
module Values {
  import opened Wrappers

  datatype Value = Nil | Bool(b: bool) | Int(i: int) | Str(s: string)

  /** Ruby truthiness: only nil and false are falsy. */
  predicate Truthy(v: Value) {
    v != Nil && v != Bool(false)
  }

  function Digit(d: nat): (c: char)
    requires d < 10
    ensures '0' <= c <= '9'
  {
    ('0' as int + d) as char
  }

  /** `Integer#to_s` for a non-negative integer. */
  function NatToS(n: nat): (s: string)
    ensures 1 <= |s|
    ensures n >= 10 ==> 2 <= |s|
    ensures forall i :: 0 <= i < |s| ==> '0' <= s[i] <= '9'
  {
    if n < 10 then [Digit(n)] else NatToS(n / 10) + [Digit(n % 10)]
  }

  /** `Integer#to_s`: a `-` exactly for a negative integer, then decimal
      digits. */
  function IntToS(i: int): (s: string)
    ensures 1 <= |s|
    ensures s[0] == '-' <==> i < 0
    ensures forall j :: 1 <= j < |s| ==> '0' <= s[j] <= '9'
  {
    if i < 0 then "-" + NatToS(-i) else NatToS(i)
  }

  /** `to_s`: nil renders as the empty string, a String as itself. */
  function ToS(v: Value): (s: string)
    ensures v == Nil ==> s == ""
    ensures v.Bool? || v.Int? ==> s != ""
    ensures v.Str? ==> s == v.s
  {
    match v
    case Nil => ""
    case Bool(b) => if b then "true" else "false"
    case Int(i) => IntToS(i)
    case Str(s) => s
  }

  lemma {:induction false} NatToSInjective(a: nat, b: nat)
    requires NatToS(a) == NatToS(b)
    ensures a == b
  {
    if a >= 10 && b >= 10 {
      var sa, sb := NatToS(a), NatToS(b);
      assert sa[..|sa| - 1] == NatToS(a / 10);
      assert sb[..|sb| - 1] == NatToS(b / 10);
      NatToSInjective(a / 10, b / 10);
      assert Digit(a % 10) == sa[|sa| - 1] == sb[|sb| - 1] == Digit(b % 10);
    }
  }

  /** Distinct integers have distinct `to_s` renderings. */
  lemma IntToSInjective(a: int, b: int)
    requires IntToS(a) == IntToS(b)
    ensures a == b
  {
    if a < 0 && b < 0 {
      assert NatToS(-a) == IntToS(a)[1..] == IntToS(b)[1..] == NatToS(-b);
      NatToSInjective(-a, -b);
    } else if a >= 0 && b >= 0 {
      NatToSInjective(a, b);
    }
  }

  /** The comparison class of a value: Ruby's `<=>` is nil across classes,
      and `true <=> false` is nil as well. */
  function Kind(v: Value): nat {
    match v
    case Nil => 0
    case Bool(b) => if b then 1 else 2
    case Int(_) => 3
    case Str(_) => 4
  }

  /** `String#<=>`: lexicographic, a proper prefix first. */
  function CompareStrings(a: string, b: string): (c: int)
    ensures -1 <= c <= 1
    ensures c == 0 <==> a == b
  {
    if a == [] && b == [] then 0
    else if a == [] then -1
    else if b == [] then 1
    else if a[0] < b[0] then -1
    else if a[0] > b[0] then 1
    else
      var c := CompareStrings(a[1..], b[1..]);
      assert a == [a[0]] + a[1..] && b == [b[0]] + b[1..];
      c
  }

  /** Ruby's `<=>`; None where Ruby answers nil. */
  function Compare(a: Value, b: Value): (r: Option<int>)
    ensures r.Some? <==> Kind(a) == Kind(b)
    ensures r.Some? ==> (r.value == 0 <==> a == b)
  {
    match (a, b)
    case (Int(x), Int(y)) => Some(if x < y then -1 else if x == y then 0 else 1)
    case (Str(x), Str(y)) => Some(CompareStrings(x, y))
    case _ => if Kind(a) == Kind(b) then Some(0) else None
  }

  /** Every element has the comparison class of the first, so that `<=>`
      answers for every pair. */
  predicate SameKind(vs: seq<Value>) {
    forall i :: 0 <= i < |vs| ==> Kind(vs[i]) == Kind(vs[0])
  }

  datatype MaxResult = NoElements | Largest(v: Value) | Incomparable

  /** The scan behind `max { |a, b| a <=> b }`: `m` is the running maximum;
      each next element replaces it when it compares greater, and a nil
      comparison raises. */
  function MaxFrom(m: Value, rest: seq<Value>): (r: MaxResult)
    ensures !r.NoElements?
    ensures r.Incomparable? <==> exists i :: 0 <= i < |rest| && Kind(rest[i]) != Kind(m)
    ensures r.Largest? ==> r.v == m || r.v in rest
    ensures r.Largest? && r.v.Int? ==>
      && m.Int? && m.i <= r.v.i
      && forall i :: 0 <= i < |rest| ==> rest[i].Int? && rest[i].i <= r.v.i
    decreases |rest|
  {
    if rest == [] then Largest(m)
    else
      match Compare(rest[0], m)
      case None => Incomparable
      case Some(c) =>
        var next := if c > 0 then rest[0] else m;
        assert forall i :: 0 <= i < |rest| - 1 ==> rest[1..][i] == rest[i + 1];
        MaxFrom(next, rest[1..])
  }

  /** One step of the scan: compare the next element with the running
      maximum, then scan the rest. */
  lemma MaxFromStep(m: Value, rest: seq<Value>)
    requires rest != []
    ensures Compare(rest[0], m).None? ==> MaxFrom(m, rest) == Incomparable
    ensures Compare(rest[0], m).Some? ==>
      MaxFrom(m, rest) == MaxFrom(if Compare(rest[0], m).value > 0 then rest[0] else m, rest[1..])
  {
  }

  /** Ruby's `max { |a, b| a <=> b }`: the first element starts the running
      maximum. */
  function MaxOf(vs: seq<Value>): (r: MaxResult)
    ensures r.NoElements? <==> vs == []
    ensures vs != [] ==> (r.Incomparable? <==> !SameKind(vs))
    ensures r.Largest? ==> r.v in vs
    ensures r.Largest? && r.v.Int? ==>
      forall i :: 0 <= i < |vs| ==> vs[i].Int? && vs[i].i <= r.v.i
  {
    if vs == [] then NoElements
    else
      assert forall i :: 0 <= i < |vs| - 1 ==> vs[1..][i] == vs[i + 1];
      MaxFrom(vs[0], vs[1..])
  }
}
