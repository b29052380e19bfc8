/**
 Holiday records and the type filter `Holidays.FilterByType`
 (publicholidays.go, lines 10-24 and 46-69).

 The filter runs in two phases: it validates every requested tag in argument
 order and fails at the first invalid one, then keeps, in input order and at
 most once each, the records that carry at least one requested tag.
 */
module Filter {
  import opened Wrappers
  import opened HolidayTypes

  /**
   One holiday as decoded from the service. Only `types` is inspected by the
   filter; the other fields are carried along unchanged. Go's nil and empty
   slices are both the empty sequence here.
   */
  datatype Holiday = Holiday(
    date: string,
    localName: string,
    name: string,
    countryCode: string,
    fixed: bool,
    global: bool,
    counties: seq<string>,
    launchYear: int,
    types: seq<string>)

  /** True iff some tag of `types` is among the `wanted` tags. */
  predicate Carries(types: seq<string>, wanted: set<string>) {
    exists t :: t in types && t in wanted
  }

  /**
   The inner loop over one record's tags: it scans in order and stops at the
   first tag that is wanted.
   */
  function HasWantedType(types: seq<string>, wanted: set<string>): (b: bool)
    ensures b <==> Carries(types, wanted)
  {
    if |types| == 0 then false
    else if types[0] in wanted then true
    else
      assert forall t :: t in types[1..] ==> t in types;
      assert forall t :: t in types && t != types[0] ==> t in types[1..];
      HasWantedType(types[1..], wanted)
  }

  /** The phase-one loop: validates the tags in order and stops at the first invalid one. */
  function ValidateAll(hTypes: seq<string>): (r: Outcome<TypeError>)
    ensures r.Pass? <==> forall i :: 0 <= i < |hTypes| ==> IsValidType(hTypes[i])
    ensures r.Fail? ==>
              exists i :: 0 <= i < |hTypes| && !IsValidType(hTypes[i]) &&
                          r.error == InvalidType(hTypes[i]) &&
                          forall j :: 0 <= j < i ==> IsValidType(hTypes[j])
  {
    if |hTypes| == 0 then Pass
    else
      match ValidateType(hTypes[0])
      case Fail(e) => Fail(e)
      case Pass =>
        var rest := ValidateAll(hTypes[1..]);
        assert forall i :: 1 <= i < |hTypes| ==> hTypes[i] == hTypes[1..][i - 1];
        if rest.Fail? then
          var i :| 0 <= i < |hTypes[1..]| && !IsValidType(hTypes[1..][i]) &&
                   rest.error == InvalidType(hTypes[1..][i]) &&
                   forall j :: 0 <= j < i ==> IsValidType(hTypes[1..][j]);
          assert forall j :: 0 <= j < i + 1 ==> IsValidType(hTypes[j]) by {
            forall j | 0 <= j < i + 1
              ensures IsValidType(hTypes[j])
            {
              if j > 0 {
                assert hTypes[j] == hTypes[1..][j - 1];
              }
            }
          }
          rest
        else
          rest
  }

  /**
   The phase-two loop over the records, written over the prefix already
   visited: the record at the end is appended iff it carries a wanted tag.
   */
  function Select(holidays: seq<Holiday>, wanted: set<string>): (r: seq<Holiday>)
    ensures |r| <= |holidays|
    decreases |holidays|
  {
    if |holidays| == 0 then []
    else
      var n := |holidays| - 1;
      Select(holidays[..n], wanted) +
        (if HasWantedType(holidays[n].types, wanted) then [holidays[n]] else [])
  }

  /**
   `Holidays.FilterByType`: fails with the first invalid tag, and otherwise
   returns the records that carry a requested tag. The set of requested tags
   is the Go code's `typeSet`.
   */
  function FilterByType(holidays: seq<Holiday>, hTypes: seq<string>): (r: Result<seq<Holiday>, TypeError>)
    ensures r.Err? <==> exists i :: 0 <= i < |hTypes| && !IsValidType(hTypes[i])
    ensures r.Ok? ==> |r.value| <= |holidays|
  {
    match ValidateAll(hTypes)
    case Fail(e) => Err(e)
    case Pass => Ok(Select(holidays, (set t | t in hTypes)))
  }

  // ---------------------------------------------------------------------------
  // A reference definition of the successful result.

  /** True iff `idx` is strictly increasing. */
  ghost predicate Increasing(idx: seq<nat>) {
    forall k, l :: 0 <= k < l < |idx| ==> idx[k] < idx[l]
  }

  /**
   `out` is the subsequence of `xs` at the positions `idx`, those positions are
   increasing, and they are exactly the positions of the records that carry a
   wanted tag. This says at once that `out` is sound, complete, stable, and
   free of duplicated positions.
   */
  ghost predicate Embeds(idx: seq<nat>, out: seq<Holiday>, xs: seq<Holiday>, wanted: set<string>) {
    && |idx| == |out|
    && (forall k :: 0 <= k < |idx| ==> idx[k] < |xs| && out[k] == xs[idx[k]])
    && Increasing(idx)
    && (forall i :: 0 <= i < |xs| ==> (i in idx <==> Carries(xs[i].types, wanted)))
  }

  /** `out` is the in-order selection of exactly the records of `xs` that carry a wanted tag. */
  ghost predicate IsSelectionOf(out: seq<Holiday>, xs: seq<Holiday>, wanted: set<string>) {
    exists idx :: Embeds(idx, out, xs, wanted)
  }

  /** The positions the record loop selects, in visiting order. */
  ghost function Positions(xs: seq<Holiday>, wanted: set<string>): seq<nat>
    decreases |xs|
  {
    if |xs| == 0 then []
    else
      var n := |xs| - 1;
      Positions(xs[..n], wanted) + (if HasWantedType(xs[n].types, wanted) then [n] else [])
  }

  /** The record loop selects exactly the matching positions, in order. */
  lemma {:induction false} SelectEmbeds(xs: seq<Holiday>, wanted: set<string>)
    ensures Embeds(Positions(xs, wanted), Select(xs, wanted), xs, wanted)
    decreases |xs|
  {
    if |xs| > 0 {
      var n := |xs| - 1;
      var pre := xs[..n];
      SelectEmbeds(pre, wanted);
      var p, s := Positions(pre, wanted), Select(pre, wanted);
      assert forall k :: 0 <= k < |p| ==> p[k] < n;
      assert forall i :: 0 <= i < n ==> pre[i] == xs[i];
      assert n !in p;
    }
  }

  /** Two increasing index sequences with the same elements are equal. */
  lemma {:induction false} IncreasingUnique(a: seq<nat>, b: seq<nat>)
    requires Increasing(a) && Increasing(b)
    requires forall i :: i in a <==> i in b
    ensures a == b
    decreases |a|
  {
    assert |a| > 0 ==> a[0] in b;
    assert |b| > 0 ==> b[0] in a;
    if |a| > 0 {
      assert a[0] == b[0] by {
        var i :| 0 <= i < |b| && b[i] == a[0];
        var j :| 0 <= j < |a| && a[j] == b[0];
        assert a[0] <= a[j] && b[0] <= b[i];
      }
      forall x
        ensures x in a[1..] <==> x in b[1..]
      {
        if x in a[1..] {
          var k :| 1 <= k < |a| && a[k] == x;
          assert x in b;
          assert x != b[0];
        }
        if x in b[1..] {
          var k :| 1 <= k < |b| && b[k] == x;
          assert x in a;
          assert x != a[0];
        }
      }
      IncreasingUnique(a[1..], b[1..]);
      assert a == [a[0]] + a[1..];
      assert b == [b[0]] + b[1..];
    }
  }

  /** At most one output satisfies the reference definition. */
  lemma EmbedsUnique(idx1: seq<nat>, out1: seq<Holiday>, idx2: seq<nat>, out2: seq<Holiday>,
                     xs: seq<Holiday>, wanted: set<string>)
    requires Embeds(idx1, out1, xs, wanted) && Embeds(idx2, out2, xs, wanted)
    ensures out1 == out2
  {
    forall i
      ensures i in idx1 <==> i in idx2
    {
      if i in idx1 {
        var k :| 0 <= k < |idx1| && idx1[k] == i;
      }
      if i in idx2 {
        var k :| 0 <= k < |idx2| && idx2[k] == i;
      }
    }
    IncreasingUnique(idx1, idx2);
  }

  // ---------------------------------------------------------------------------
  // Properties of FilterByType.

  /**
   The filter succeeds with `out` exactly when every requested tag is valid and
   `out` is the in-order subsequence of the records that carry a requested tag.
   */
  lemma FilterByTypeCharacterization(holidays: seq<Holiday>, hTypes: seq<string>, out: seq<Holiday>)
    ensures FilterByType(holidays, hTypes) == Ok(out) <==>
              (forall i :: 0 <= i < |hTypes| ==> IsValidType(hTypes[i])) &&
              IsSelectionOf(out, holidays, (set t | t in hTypes))
  {
    var wanted := set t | t in hTypes;
    SelectEmbeds(holidays, wanted);
    if (forall i :: 0 <= i < |hTypes| ==> IsValidType(hTypes[i])) &&
       IsSelectionOf(out, holidays, wanted) {
      var idx :| Embeds(idx, out, holidays, wanted);
      EmbedsUnique(idx, out, Positions(holidays, wanted), Select(holidays, wanted), holidays, wanted);
    }
  }

  /** Stability: a successful result is an in-order subsequence of the input, records unchanged. */
  lemma FilterByTypeStable(holidays: seq<Holiday>, hTypes: seq<string>)
    requires FilterByType(holidays, hTypes).Ok?
    ensures exists idx :: |idx| == |FilterByType(holidays, hTypes).value| && Increasing(idx) &&
              forall k :: 0 <= k < |idx| ==>
                idx[k] < |holidays| && FilterByType(holidays, hTypes).value[k] == holidays[idx[k]]
  {
    var wanted := set t | t in hTypes;
    SelectEmbeds(holidays, wanted);
    var idx := Positions(holidays, wanted);
    assert Embeds(idx, FilterByType(holidays, hTypes).value, holidays, wanted);
  }

  /** Soundness: every record in a successful result carries one of the requested tags. */
  lemma FilterByTypeSound(holidays: seq<Holiday>, hTypes: seq<string>)
    requires FilterByType(holidays, hTypes).Ok?
    ensures forall h :: h in FilterByType(holidays, hTypes).value ==>
              exists t :: t in h.types && t in hTypes
  {
    var wanted := set t | t in hTypes;
    var out := FilterByType(holidays, hTypes).value;
    SelectEmbeds(holidays, wanted);
    var idx := Positions(holidays, wanted);
    forall h | h in out
      ensures exists t :: t in h.types && t in hTypes
    {
      var k :| 0 <= k < |out| && out[k] == h;
      assert idx[k] in idx;
      assert Carries(holidays[idx[k]].types, wanted);
    }
  }

  /**
   Record tags are never validated, but a record whose tags are all outside the
   enumeration is never kept: every kept record carries a valid tag.
   */
  lemma FilterByTypeKeepsOnlyValidlyTagged(holidays: seq<Holiday>, hTypes: seq<string>)
    requires FilterByType(holidays, hTypes).Ok?
    ensures forall h :: h in FilterByType(holidays, hTypes).value ==>
              exists t :: t in h.types && IsValidType(t)
  {
    FilterByTypeSound(holidays, hTypes);
    forall h | h in FilterByType(holidays, hTypes).value
      ensures exists t :: t in h.types && IsValidType(t)
    {
      var t :| t in h.types && t in hTypes;
      var i :| 0 <= i < |hTypes| && hTypes[i] == t;
      assert IsValidType(hTypes[i]);
    }
  }

  /** Completeness: every input record that carries a requested tag is in a successful result. */
  lemma FilterByTypeComplete(holidays: seq<Holiday>, hTypes: seq<string>)
    requires FilterByType(holidays, hTypes).Ok?
    ensures forall i :: 0 <= i < |holidays| && (exists t :: t in holidays[i].types && t in hTypes) ==>
              holidays[i] in FilterByType(holidays, hTypes).value
  {
    var wanted := set t | t in hTypes;
    var out := FilterByType(holidays, hTypes).value;
    SelectEmbeds(holidays, wanted);
    var idx := Positions(holidays, wanted);
    forall i | 0 <= i < |holidays| && (exists t :: t in holidays[i].types && t in hTypes)
      ensures holidays[i] in out
    {
      assert Carries(holidays[i].types, wanted);
      var k :| 0 <= k < |idx| && idx[k] == i;
      assert out[k] == holidays[i];
    }
  }

  /** The record loop never emits a record more often than the input holds it. */
  lemma {:induction false} SelectNoDuplication(xs: seq<Holiday>, wanted: set<string>)
    ensures multiset(Select(xs, wanted)) <= multiset(xs)
    decreases |xs|
  {
    if |xs| > 0 {
      var n := |xs| - 1;
      SelectNoDuplication(xs[..n], wanted);
      assert xs == xs[..n] + [xs[n]];
    }
  }

  /**
   No duplication: each input record contributes at most once, however many of
   its tags match, so no record occurs more often in the result than in the input.
   */
  lemma FilterByTypeNoDuplication(holidays: seq<Holiday>, hTypes: seq<string>)
    requires FilterByType(holidays, hTypes).Ok?
    ensures multiset(FilterByType(holidays, hTypes).value) <= multiset(holidays)
  {
    SelectNoDuplication(holidays, (set t | t in hTypes));
  }

  /**
   Fail-fast validation: with an invalid requested tag the filter fails with
   the first invalid tag in argument order, whatever the records are.
   */
  lemma FilterByTypeReportsFirstInvalid(holidays: seq<Holiday>, hTypes: seq<string>, i: nat)
    requires i < |hTypes| && !IsValidType(hTypes[i])
    requires forall j :: 0 <= j < i ==> IsValidType(hTypes[j])
    ensures FilterByType(holidays, hTypes) == Err(InvalidType(hTypes[i]))
  {
    var r := ValidateAll(hTypes);
    assert r.Fail?;
    var i' :| 0 <= i' < |hTypes| && !IsValidType(hTypes[i']) &&
              r.error == InvalidType(hTypes[i']) &&
              forall j :: 0 <= j < i' ==> IsValidType(hTypes[j]);
    assert i' == i;
  }

  /** The outcome of validation does not depend on the records. */
  lemma FilterByTypeErrorIgnoresRecords(a: seq<Holiday>, b: seq<Holiday>, hTypes: seq<string>)
    requires FilterByType(a, hTypes).Err?
    ensures FilterByType(b, hTypes) == FilterByType(a, hTypes)
  {
  }

  /** With no requested tags nothing matches: the result is empty, not an error. */
  lemma {:induction false} SelectNothingWanted(xs: seq<Holiday>)
    ensures Select(xs, {}) == []
    decreases |xs|
  {
    if |xs| > 0 {
      SelectNothingWanted(xs[..|xs| - 1]);
    }
  }

  /** An empty tag list gives an empty successful result for any records. */
  lemma FilterByTypeNoTags(holidays: seq<Holiday>)
    ensures FilterByType(holidays, []) == Ok([])
  {
    assert (set t: string | t in []) == {};
    SelectNothingWanted(holidays);
  }

  /** An empty record list gives an empty result for any valid tag list. */
  lemma FilterByTypeNoRecords(hTypes: seq<string>)
    requires forall i :: 0 <= i < |hTypes| ==> IsValidType(hTypes[i])
    ensures FilterByType([], hTypes) == Ok([])
  {
  }

  // ---------------------------------------------------------------------------
  // Worked scenarios.

  function Sample(types: seq<string>): Holiday {
    Holiday("2024-01-01", "", "", "XX", true, true, [], 0, types)
  }

  /** Asking for Bank keeps only the record tagged School and Bank. */
  lemma ScenarioBank()
    ensures FilterByType([Sample(["Public"]), Sample(["School", "Bank"]), Sample(["Observance"])], ["Bank"])
            == Ok([Sample(["School", "Bank"])])
  {
    var xs := [Sample(["Public"]), Sample(["School", "Bank"]), Sample(["Observance"])];
    var wanted := set t | t in ["Bank"];
    assert wanted == {"Bank"};
    assert !HasWantedType(["Public"], wanted);
    assert HasWantedType(["School", "Bank"], wanted) by {
      assert "Bank" in ["School", "Bank"];
    }
    assert !HasWantedType(["Observance"], wanted);
    assert ValidateAll(["Bank"]) == Pass;
    assert xs[..2][..1] == [Sample(["Public"])];
    assert xs[..2] == [Sample(["Public"]), Sample(["School", "Bank"])];
    assert Select(xs[..2][..1], wanted) == [];
    assert Select(xs[..2], wanted) == [Sample(["School", "Bank"])];
    assert Select(xs, wanted) == [Sample(["School", "Bank"])];
  }

  /** Asking for Public and Observance keeps the first and third records, in that order. */
  lemma ScenarioPublicObservance()
    ensures FilterByType([Sample(["Public"]), Sample(["School", "Bank"]), Sample(["Observance"])],
                         ["Public", "Observance"])
            == Ok([Sample(["Public"]), Sample(["Observance"])])
  {
    var xs := [Sample(["Public"]), Sample(["School", "Bank"]), Sample(["Observance"])];
    var wanted := set t | t in ["Public", "Observance"];
    assert wanted == {"Public", "Observance"};
    assert HasWantedType(["Public"], wanted) by {
      assert "Public" in ["Public"];
    }
    assert !HasWantedType(["School", "Bank"], wanted);
    assert HasWantedType(["Observance"], wanted) by {
      assert "Observance" in ["Observance"];
    }
    assert ValidateAll(["Public", "Observance"]) == Pass;
    assert xs[..2][..1] == [Sample(["Public"])];
    assert xs[..2] == [Sample(["Public"]), Sample(["School", "Bank"])];
    assert Select(xs[..2][..1], wanted) == [Sample(["Public"])];
    assert Select(xs[..2], wanted) == [Sample(["Public"])];
    assert Select(xs, wanted) == [Sample(["Public"]), Sample(["Observance"])];
  }

  /** One invalid tag fails the whole call, even after a valid one. */
  lemma ScenarioInvalidTag()
    ensures FilterByType([Sample(["Public"])], ["Public", "Festival", "Holiday"])
            == Err(InvalidType("Festival"))
  {
    FilterByTypeReportsFirstInvalid([Sample(["Public"])], ["Public", "Festival", "Holiday"], 1);
  }
}
