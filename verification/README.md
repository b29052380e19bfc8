# publicholidays: the holiday-type filter, modelled in Dafny

The Go package `publicholidays` fetches a country's public holidays for a year
from a remote service, and it can filter the returned records by holiday-type
tag. This project models the part with logic. That part is the closed table of
six type tags (Public, Bank, School, Authorities, Optional, Observance), the
validator `ValidateType`, and `Holidays.FilterByType`.

`FilterByType` works in two phases. First it checks every requested tag in
argument order and stops with an error at the first invalid one; in that case
it returns no records. Then it walks the records in order and keeps each record
that carries at least one requested tag. A record is kept once, however many of
its tags match.

Files:

- `wrappers.dfy`: `Option`, `Outcome` and `Result`. They stand in for Go's
  `error` and `(value, error)` returns.
- `holiday_types.dfy` (module `HolidayTypes`): the tag constants and the
  `validTypes` lookup table. Go's map lookup yields `false` for a missing key.
  It also holds `ValidateType` and a closed variant type `HolidayType` with
  `Name`/`Parse`. Every `HolidayType` value is valid by construction.
- `filter.dfy` (module `Filter`): the `Holiday` record, the functional
  `FilterByType`, and the properties proved about it.
  - `Embeds` is an independent reference definition of a successful result. It
    says the result sits at strictly increasing input positions, and that these
    are exactly the positions of records carrying a requested tag.
  - `FilterByTypeCharacterization` proves, in both directions, that a
    successful result is exactly the output that `Embeds` describes.
- `filter_loop.dfy` (module `FilterLoop`): the two Go loops as written. This
  includes the `map[string]bool` type set, the early `return nil, err` and the
  `break`. They are proved to compute the same result as the functional filter,
  whose requested-tag set `set t | t in hTypes` stands for that `typeSet`.

Go's nil slice and empty slice are both the empty sequence. Error values carry
only the offending tag, not the formatted message.

## Model

| member | source | states |
|---|---|---|
| `HolidayTypes.ValidateType` | publicholidays.go:103-108 | passes exactly for the six literal tags "Public", "Bank", "School", "Authorities", "Optional", "Observance"; every other string fails with an error naming that string |
| `HolidayTypes.Parse` | publicholidays.go:27-34 | a successful parse returns the holiday type whose tag is exactly the input text |
| `HolidayTypes.ParseName` | publicholidays.go:27-34 | parsing the tag of any holiday type gives that type back |
| `HolidayTypes.ParseAgreesWithValidateType` | publicholidays.go:36-44 | the closed variant type and the lookup table accept the same strings: a string validates iff it is the tag of some holiday type |
| `HolidayTypes.ValidateTypeExamples` | publicholidays.go:103-108 | the string "Festival", which is not one of the six tags, fails with an error naming it |
| `Filter.HasWantedType` | publicholidays.go:61-66 | the scan of one record's tags, which stops at the first match, answers true iff some tag of the record is in the requested set |
| `Filter.ValidateAll` | publicholidays.go:52-57 | validation passes iff every requested tag is valid; on failure the error names a tag that is invalid and that all earlier tags are valid |
| `Filter.Select` | publicholidays.go:60-67 | the record loop never yields more records than it is given |
| `Filter.FilterByType` | publicholidays.go:47-69 | fails iff some requested tag is invalid; a successful result is no longer than the input |
| `Filter.SelectEmbeds` | publicholidays.go:60-67 | the record loop yields the records at exactly the matching positions, in increasing position order, copied unchanged |
| `Filter.EmbedsUnique` | publicholidays.go:60-67 | at most one output is an in-order selection of exactly the matching positions, so the reference definition fixes the result |
| `Filter.FilterByTypeCharacterization` | publicholidays.go:47-69 | the filter returns `Ok(out)` iff all requested tags are valid and `out` is the in-order subsequence of exactly the records carrying a requested tag |
| `Filter.FilterByTypeStable` | publicholidays.go:60-63 | a successful result is a subsequence of the input at strictly increasing positions, with records unchanged |
| `Filter.FilterByTypeSound` | publicholidays.go:60-63 | every record in a successful result has a tag among the requested tags |
| `Filter.FilterByTypeKeepsOnlyValidlyTagged` | publicholidays.go:52-63 | every record in a successful result carries a valid tag, although record tags themselves are never validated |
| `Filter.FilterByTypeComplete` | publicholidays.go:60-66 | every input record with a tag among the requested tags appears in a successful result |
| `Filter.SelectNoDuplication` | publicholidays.go:61-65 | the record loop emits each record at most as often as the input holds it |
| `Filter.FilterByTypeNoDuplication` | publicholidays.go:61-65 | the multiset of a successful result is contained in the input's multiset, even when several tags of one record match |
| `Filter.FilterByTypeReportsFirstInvalid` | publicholidays.go:52-55 | if tag `i` is the first invalid one, the filter fails with `InvalidType` of that tag and returns no records, whatever the records are |
| `Filter.FilterByTypeErrorIgnoresRecords` | publicholidays.go:52-55 | a validation failure, and the tag it reports, depend only on the tag list |
| `Filter.SelectNothingWanted` | publicholidays.go:60-67 | with an empty requested set the record loop keeps nothing |
| `Filter.FilterByTypeNoTags` | publicholidays.go:48-68 | an empty tag list gives an empty successful result (not an error, not the input) for any records |
| `Filter.FilterByTypeNoRecords` | publicholidays.go:48-68 | an empty record list gives an empty successful result for any valid tag list |
| `Filter.ScenarioBank` | publicholidays.go:47-69 | records tagged [Public], [School, Bank], [Observance] filtered by Bank give only the second record |
| `Filter.ScenarioPublicObservance` | publicholidays.go:47-69 | the same records filtered by Public and Observance give the first and third records, in that order |
| `Filter.ScenarioInvalidTag` | publicholidays.go:52-55 | tags Public, Festival, Holiday fail with `InvalidType("Festival")`, the first invalid tag |
| `FilterLoop.FilterByTypeLoop` | publicholidays.go:47-69 | the Go loops return a nil slice with the functional filter's error when a tag is invalid, and otherwise the functional filter's result |

## Left out

- `GetHolidays` (publicholidays.go:72-95): URL formatting, the HTTP GET, the status-code check and JSON decoding are network I/O and standard-library calls.
- `GetCurrentYear` (publicholidays.go:98-100): it reads the system clock.
- The text of the error messages built with `fmt.Errorf`: an error is modelled as `InvalidType(tag)` carrying the offending tag.
- The `Holiday` fields other than `types` are carried as plain values. No invariant is assumed about them or about `types`. Well-formed service data gives every holiday at least one type, but the code accepts any slice, possibly empty or holding unknown strings; the model follows the code.
