/**
 The closed enumeration of holiday-type tags and the validator that checks a
 caller-supplied tag against it (publicholidays.go, lines 26-44 and 102-108).
 */
module HolidayTypes {
  import opened Wrappers

  // The six tag constants, spelled as the remote service spells them.
  const Public: string := "Public"
  const Bank: string := "Bank"               // banks and offices are closed
  const School: string := "School"           // schools are closed
  const Authorities: string := "Authorities" // authorities are closed
  const Optional: string := "Optional"       // most people take a day off
  const Observance: string := "Observance"   // festivity without a paid day off

  /** The lookup table of valid tags: a Go `map[string]bool` with every entry `true`. */
  const ValidTypes: map<string, bool> :=
    map[Public := true, Bank := true, School := true,
        Authorities := true, Optional := true, Observance := true]

  /** Indexing a Go map yields the zero value, `false`, for a missing key. */
  function LookupFlag(m: map<string, bool>, key: string): bool {
    key in m && m[key]
  }

  /** The only error the filter raises: a requested tag outside the enumeration. */
  datatype TypeError = InvalidType(tag: string)

  /** True iff `t` is one of the six tag constants. */
  predicate IsValidType(t: string) {
    LookupFlag(ValidTypes, t)
  }

  /** Checks one tag against the table; the error names the offending tag. */
  function ValidateType(hType: string): (r: Outcome<TypeError>)
    ensures r.Pass? <==>
              hType == "Public" || hType == "Bank" || hType == "School" ||
              hType == "Authorities" || hType == "Optional" || hType == "Observance"
    ensures r.Fail? ==> r.error == InvalidType(hType)
  {
    if !IsValidType(hType) then Fail(InvalidType(hType)) else Pass
  }

  /**
   The same enumeration as a closed variant type: every value built through
   this type is valid by construction, and `Parse` is the one place where
   external text is converted into it.
   */
  datatype HolidayType =
    | PublicHoliday
    | BankHoliday
    | SchoolHoliday
    | AuthoritiesHoliday
    | OptionalHoliday
    | ObservanceHoliday

  /** The tag string of a holiday type. */
  function Name(k: HolidayType): string {
    match k
    case PublicHoliday => Public
    case BankHoliday => Bank
    case SchoolHoliday => School
    case AuthoritiesHoliday => Authorities
    case OptionalHoliday => Optional
    case ObservanceHoliday => Observance
  }

  /** Converts external text into a holiday type, or None if the text is not a valid tag. */
  function Parse(s: string): (r: Option<HolidayType>)
    ensures r.Some? ==> Name(r.value) == s
  {
    if s == Public then Some(PublicHoliday)
    else if s == Bank then Some(BankHoliday)
    else if s == School then Some(SchoolHoliday)
    else if s == Authorities then Some(AuthoritiesHoliday)
    else if s == Optional then Some(OptionalHoliday)
    else if s == Observance then Some(ObservanceHoliday)
    else None
  }

  /** Parsing the name of a holiday type gives that type back. */
  lemma ParseName(k: HolidayType)
    ensures Parse(Name(k)) == Some(k)
  {
  }

  /** The variant type and the string validator accept exactly the same tags. */
  lemma ParseAgreesWithValidateType(s: string)
    ensures Parse(s).Some? <==> ValidateType(s).Pass?
    ensures ValidateType(s).Pass? <==> exists k :: Name(k) == s
  {
    if ValidateType(s).Pass? {
      assert Name(Parse(s).value) == s;
    }
  }

  /** A tag outside the enumeration, such as "Festival", fails with an error naming it. */
  lemma ValidateTypeExamples()
    ensures ValidateType("Festival") == Fail(InvalidType("Festival"))
  {
  }
}
