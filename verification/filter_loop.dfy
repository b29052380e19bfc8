/**
 `Holidays.FilterByType` written as the Go code writes it: a validation loop
 that fills a `map[string]bool` and returns early on the first invalid tag,
 then a record loop with an inner loop over each record's tags that appends
 the record and breaks at the first wanted tag (publicholidays.go, lines 47-69).
 */
module FilterLoop {
  import opened Wrappers
  import opened HolidayTypes
  import opened Filter

  /**
   Returns the Go pair `(filtered, err)`: on error the slice is nil (empty)
   and the error is the one the functional filter reports; otherwise the
   slice is the functional filter's result.
   */
  method FilterByTypeLoop(holidays: seq<Holiday>, hTypes: seq<string>)
    returns (filtered: seq<Holiday>, err: Option<TypeError>)
    ensures err.Some? ==> filtered == [] && FilterByType(holidays, hTypes) == Err(err.value)
    ensures err.None? ==> FilterByType(holidays, hTypes) == Ok(filtered)
  {
    filtered := [];
    var typeSet: map<string, bool> := map[];

    var i := 0;
    while i < |hTypes|
      invariant 0 <= i <= |hTypes|
      invariant forall j :: 0 <= j < i ==> IsValidType(hTypes[j])
      invariant forall t :: LookupFlag(typeSet, t) <==> t in hTypes[..i]
    {
      var e := ValidateType(hTypes[i]);
      if e.Fail? {
        FilterByTypeReportsFirstInvalid(holidays, hTypes, i);
        return [], Some(e.error);
      }
      typeSet := typeSet[hTypes[i] := true];
      assert hTypes[..i + 1] == hTypes[..i] + [hTypes[i]];
      i := i + 1;
    }
    assert hTypes[..i] == hTypes;
    ghost var wanted := set t | t in hTypes;

    var n := 0;
    while n < |holidays|
      invariant 0 <= n <= |holidays|
      invariant filtered == Select(holidays[..n], wanted)
    {
      var holiday := holidays[n];
      ghost var before := filtered;
      var k := 0;
      while k < |holiday.types|
        invariant 0 <= k <= |holiday.types|
        invariant filtered == before
        invariant forall j :: 0 <= j < k ==> holiday.types[j] !in wanted
      {
        var t := holiday.types[k];
        if LookupFlag(typeSet, t) {
          filtered := filtered + [holiday];
          break;
        }
        k := k + 1;
      }
      assert holidays[..n + 1][..n] == holidays[..n];
      if k == |holiday.types| {
        assert !Carries(holiday.types, wanted);
      } else {
        assert Carries(holiday.types, wanted) by {
          assert holiday.types[k] in holiday.types;
        }
      }
      n := n + 1;
    }
    assert holidays[..n] == holidays;
    err := None;
  }
}
