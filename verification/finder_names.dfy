/** The dynamic finder name parser: `configuration_for_custom_finder`
    decomposes `find_(all_)?by_<field>(_and_<field>)*(!)?` into the
    multiplicity, the failure mode and the field list. */
module FinderNames {
  import opened Wrappers

  /** The conjunction marker that separates field names. */
  const Sep: string := "_and_"

  predicate StartsWith(s: string, prefix: string) {
    |prefix| <= |s| && s[..|prefix|] == prefix
  }

  predicate EndsWith(s: string, suffix: string) {
    |suffix| <= |s| && s[|s| - |suffix|..] == suffix
  }

  predicate SepAt(s: string, i: int) {
    0 <= i && i + |Sep| <= |s| && s[i..i + |Sep|] == Sep
  }

  predicate HasSep(s: string) {
    exists i :: 0 <= i <= |s| && SepAt(s, i)
  }

  lemma SepAtTail(s: string, j: nat)
    requires 1 <= |s|
    ensures SepAt(s[1..], j) <==> SepAt(s, j + 1)
  {
    if j + 1 + |Sep| <= |s| {
      assert s[1..][j..j + |Sep|] == s[j + 1..j + 1 + |Sep|];
    }
  }

  /** The leftmost occurrence of the marker, or -1. */
  function FirstSep(s: string): (k: int)
    ensures -1 <= k
    ensures k >= 0 ==> SepAt(s, k) && forall j :: 0 <= j < k ==> !SepAt(s, j)
    ensures k < 0 ==> !HasSep(s)
    decreases |s|
  {
    if |s| < |Sep| then -1
    else if s[..|Sep|] == Sep then 0
    else
      var k := FirstSep(s[1..]);
      FirstSepStep(s, k);
      if k < 0 then -1 else k + 1
  }

  lemma FirstSepStep(s: string, k: int)
    requires |Sep| <= |s| && s[..|Sep|] != Sep
    requires -1 <= k
    requires k >= 0 ==> SepAt(s[1..], k) && forall j :: 0 <= j < k ==> !SepAt(s[1..], j)
    requires k < 0 ==> !HasSep(s[1..])
    ensures k >= 0 ==> SepAt(s, k + 1) && forall j :: 0 <= j < k + 1 ==> !SepAt(s, j)
    ensures k < 0 ==> !HasSep(s)
  {
    forall j: nat ensures SepAt(s[1..], j) <==> SepAt(s, j + 1) {
      SepAtTail(s, j);
    }
    assert !SepAt(s, 0);
    if k < 0 {
      forall j | 0 <= j <= |s| ensures !SepAt(s, j) {
        if j > 0 {
          assert !SepAt(s[1..], j - 1);
        }
      }
    } else {
      forall j | 1 <= j < k + 1 ensures !SepAt(s, j) {
        assert !SepAt(s[1..], j - 1);
      }
    }
  }

  /** The pieces between the markers, joined back by the marker. */
  function JoinAll(ps: seq<string>): string {
    if ps == [] then ""
    else if |ps| == 1 then ps[0]
    else ps[0] + Sep + JoinAll(ps[1..])
  }

  /** Splitting at every marker, leftmost first, keeping empty pieces. */
  function SplitAll(s: string): (ps: seq<string>)
    ensures 1 <= |ps|
    ensures JoinAll(ps) == s
    ensures forall i :: 0 <= i < |ps| ==> !HasSep(ps[i])
    decreases |s|
  {
    var k := FirstSep(s);
    if k < 0 then [s]
    else
      var rest := SplitAll(s[k + |Sep|..]);
      PrefixBeforeFirstSep(s, k);
      assert s == s[..k] + Sep + s[k + |Sep|..];
      [s[..k]] + rest
  }

  lemma PrefixBeforeFirstSep(s: string, k: nat)
    requires SepAt(s, k) && forall j :: 0 <= j < k ==> !SepAt(s, j)
    ensures !HasSep(s[..k])
  {
    forall j | SepAt(s[..k], j) ensures false {
      assert s[..k][j..j + |Sep|] == s[j..j + |Sep|];
      assert SepAt(s, j);
    }
  }

  /** Ruby's `String#split` drops the empty strings at the end. */
  function DropTrailingEmpty(ps: seq<string>): (r: seq<string>)
    ensures |r| <= |ps| && r == ps[..|r|]
    ensures r == [] || r[|r| - 1] != ""
    ensures forall i :: |r| <= i < |ps| ==> ps[i] == ""
  {
    if ps == [] then []
    else if ps[|ps| - 1] == "" then DropTrailingEmpty(ps[..|ps| - 1])
    else ps
  }

  /** `s.split('_and_')`. */
  function SplitFields(s: string): (fields: seq<string>)
    ensures forall i :: 0 <= i < |fields| ==> !HasSep(fields[i])
    ensures fields == [] || fields[|fields| - 1] != ""
    ensures |fields| <= |SplitAll(s)| && fields == SplitAll(s)[..|fields|]
    ensures forall i :: |fields| <= i < |SplitAll(s)| ==> SplitAll(s)[i] == ""
  {
    var ps := SplitAll(s);
    var r := DropTrailingEmpty(ps);
    assert forall i :: 0 <= i < |r| ==> r[i] == ps[i];
    r
  }

  /** The configuration a finder name decomposes into: `:all?`, `:bang?`
      and `:fields`. */
  datatype FinderConfig = FinderConfig(all: bool, bang: bool, fields: seq<string>)

  const FindBy: string := "find_by_"
  const FindAllBy: string := "find_all_by_"

  /** `configuration_for_custom_finder`: the match of
      `/^find_(all_)?by_(.*?)(!)?$/`, refused when both the `all_` group and
      the `!` group matched. The lazy middle group leaves a final `!` to the
      bang group. */
  function Parse(name: string): (r: Option<FinderConfig>)
    ensures r.Some? <==>
      StartsWith(name, FindBy) || (StartsWith(name, FindAllBy) && !EndsWith(name, "!"))
    ensures r.Some? ==> r.value.all == StartsWith(name, FindAllBy)
    ensures r.Some? ==> r.value.bang == EndsWith(name, "!")
    ensures r.Some? ==> !(r.value.all && r.value.bang)
    ensures r.Some? ==> forall i :: 0 <= i < |r.value.fields| ==> !HasSep(r.value.fields[i])
  {
    PrefixesExclusive(name);
    if StartsWith(name, FindAllBy) then
      if EndsWith(name, "!") then None
      else Some(FinderConfig(true, false, SplitFields(name[|FindAllBy|..])))
    else if StartsWith(name, FindBy) then
      if EndsWith(name, "!") then
        BangAfterPrefix(name);
        Some(FinderConfig(false, true, SplitFields(name[|FindBy|..|name| - 1])))
      else Some(FinderConfig(false, false, SplitFields(name[|FindBy|..])))
    else None
  }

  lemma PrefixesExclusive(name: string)
    ensures !(StartsWith(name, FindBy) && StartsWith(name, FindAllBy))
  {
    if StartsWith(name, FindAllBy) {
      assert name[5] == 'a';
    }
  }

  lemma BangAfterPrefix(name: string)
    requires StartsWith(name, FindBy) && EndsWith(name, "!")
    ensures |FindBy| < |name|
  {
    assert name[|name| - 1] == '!';
    assert name[|FindBy| - 1] == '_';
  }

  /** The finder name that spells a configuration out. */
  function FinderName(c: FinderConfig): string {
    (if c.all then FindAllBy else FindBy) + JoinAll(c.fields) + (if c.bang then "!" else "")
  }

  /** The configurations a name can express: not both `all` and `!`; no
      field holds the marker or ends in a partial marker that would fuse with
      the next one; the last field is non-empty (the split drops trailing
      empty pieces) and, without `!`, does not itself end in `!`. */
  predicate Expressible(c: FinderConfig) {
    && !(c.all && c.bang)
    && (forall i :: 0 <= i < |c.fields| ==> !HasSep(c.fields[i]))
    && (forall i :: 0 <= i < |c.fields| - 1 ==> !EndsWith(c.fields[i], "_and"))
    && (c.fields != [] ==>
          c.fields[|c.fields| - 1] != "" &&
          (c.bang || !EndsWith(c.fields[|c.fields| - 1], "!")))
  }

  /** A marker cannot start inside a piece and run into the marker after it,
      unless the piece ends in `_and`. */
  lemma NoStraddle(p: string, rest: string, j: nat)
    requires j < |p| < j + |Sep|
    requires !EndsWith(p, "_and")
    ensures !SepAt(p + Sep + rest, j)
  {
    var s := p + Sep + rest;
    if j + |Sep| <= |s| {
      var w := s[j..j + |Sep|];
      var l := |p| - j;
      assert w[l] == s[|p|] == '_';
      assert Sep[1] == 'a' && Sep[2] == 'n' && Sep[3] == 'd' && Sep[..4] == "_and";
      if l < 4 {
        assert w[l] != Sep[l];
      } else {
        assert w[..4] == p[|p| - 4..] != "_and";
      }
    }
  }

  /** Splitting undoes joining, for pieces that hold no marker and do not end
      in a partial one. */
  lemma {:induction false} SplitJoin(ps: seq<string>)
    requires 1 <= |ps|
    requires forall i :: 0 <= i < |ps| ==> !HasSep(ps[i])
    requires forall i :: 0 <= i < |ps| - 1 ==> !EndsWith(ps[i], "_and")
    ensures SplitAll(JoinAll(ps)) == ps
  {
    if |ps| == 1 {
      assert FirstSep(ps[0]) < 0;
    } else {
      var p, tail := ps[0], ps[1..];
      var s := JoinAll(ps);
      assert s == p + Sep + JoinAll(tail);
      assert SepAt(s, |p|) by {
        assert s[|p|..|p| + |Sep|] == Sep;
      }
      forall j | 0 <= j < |p| ensures !SepAt(s, j) {
        if j + |Sep| <= |p| {
          assert s[j..j + |Sep|] == p[j..j + |Sep|];
          assert !SepAt(p, j);
        } else {
          NoStraddle(p, JoinAll(tail), j);
        }
      }
      var k := FirstSep(s);
      assert k == |p|;
      assert s[k + |Sep|..] == JoinAll(tail);
      assert s[..k] == p;
      SplitJoin(tail);
    }
  }

  /** The field part of an expressible configuration splits back into its
      fields. */
  lemma FieldsRoundTrip(c: FinderConfig)
    requires Expressible(c)
    ensures SplitFields(JoinAll(c.fields)) == c.fields
  {
    if c.fields == [] {
      assert FirstSep("") < 0;
    } else {
      SplitJoin(c.fields);
    }
  }

  /** Without `!`, the field part of an expressible configuration does not
      end in `!`. */
  lemma FieldsEndWithoutBang(c: FinderConfig)
    requires Expressible(c) && !c.bang
    ensures JoinAll(c.fields) == [] || JoinAll(c.fields)[|JoinAll(c.fields)| - 1] != '!'
  {
    if c.fields != [] {
      JoinAllLast(c.fields);
    }
  }

  lemma ParseFindAllBy(body: string)
    requires body == [] || body[|body| - 1] != '!'
    ensures Parse(FindAllBy + body) == Some(FinderConfig(true, false, SplitFields(body)))
  {
    var name := FindAllBy + body;
    assert name[..|FindAllBy|] == FindAllBy;
    assert name[|FindAllBy|..] == body;
    assert name[|name| - 1] != '!';
  }

  lemma ParseFindBy(body: string)
    requires body == [] || body[|body| - 1] != '!'
    ensures Parse(FindBy + body) == Some(FinderConfig(false, false, SplitFields(body)))
  {
    var name := FindBy + body;
    PrefixesExclusive(name);
    assert name[..|FindBy|] == FindBy;
    assert name[|FindBy|..] == body;
    assert name[|name| - 1] != '!';
  }

  lemma ParseFindByBang(body: string)
    ensures Parse(FindBy + body + "!") == Some(FinderConfig(false, true, SplitFields(body)))
  {
    var name := FindBy + body + "!";
    PrefixesExclusive(name);
    assert name[..|FindBy|] == FindBy;
    assert name[|name| - 1..] == "!";
    assert name[|FindBy|..|name| - 1] == body;
  }

  /** Every expressible configuration survives spelling it out and parsing
      it back. */
  lemma ParseFinderName(c: FinderConfig)
    requires Expressible(c)
    ensures Parse(FinderName(c)) == Some(c)
  {
    var body := JoinAll(c.fields);
    FieldsRoundTrip(c);
    if !c.bang {
      FieldsEndWithoutBang(c);
    }
    if c.all {
      ParseFindAllBy(body);
      assert FinderName(c) == FindAllBy + body;
    } else if c.bang {
      ParseFindByBang(body);
      assert FinderName(c) == FindBy + body + "!";
    } else {
      ParseFindBy(body);
      assert FinderName(c) == FindBy + body;
    }
  }

  lemma {:induction false} JoinAllLast(ps: seq<string>)
    requires ps != [] && ps[|ps| - 1] != ""
    ensures |JoinAll(ps)| >= 1
    ensures JoinAll(ps)[|JoinAll(ps)| - 1] == ps[|ps| - 1][|ps[|ps| - 1]| - 1]
  {
    if |ps| > 1 {
      JoinAllLast(ps[1..]);
    }
  }
}
