# human.Duration in Dafny

A model of the Go package `human`: a `Duration` is a signed 64-bit count of
nanoseconds. The package gives it eight named units (year, week, day, hour,
minute, second, millisecond, nanosecond) and three operations:

- `human()` breaks a span into "<count> <unit>" groups. It walks the units
  from the year down and keeps only the remainder for the next unit. A unit
  that goes zero times is skipped, and "s" is added unless the count is 1.
  The groups are joined with spaces, and " ago" is appended for a negative
  span.
- `Name()` returns the bare singular name of one of the eight constants and
  the `human()` text of any other span. `String()` is `Name()`.
- `Round(to)` moves a span past the next boundary of `to`. A non-negative
  span goes up to the next multiple. A negative span goes down by
  `to - d % to`, where Go's truncated remainder `d % to` is at most zero.

Files:

- `text.dfy` (module `Text`) holds the two formatting primitives the code
  relies on.
  - `DecimalString` is the `%v` rendering of a non-negative count.
    `DecimalValue` is its inverse.
  - `JoinSpace` is `strings.Join(parts, " ")`. `Split` is its inverse on
    space-free parts.
- `arith.dfy` (module `Arith`) holds facts about Euclidean division that the
  proofs need.
- `duration.dfy` (module `Duration`) holds the model and its properties.
  - Data: the `Duration` range type, the unit constants, the unit table, and
    `UnitName` (the switch of `Name()`).
  - `Decompose` is the specification of the groups `human()` writes.
    `CollectGroups` is the loop itself, with its invariant, and `Human` is
    the whole method.
  - Also here: `Name`, `String`, the truncated remainder `TruncRem` and
    `Round`.
- `duration_cases.dfy` (module `DurationCases`) holds the values the
  package's tests fix.

`human()` is imperative in the source, so it is a method, proved equal to the
function `HumanText`. Its loop is written as the method `CollectGroups`,
which walks a unit table given as a parameter; `Human` hands it the fixed
table from duration.go:35. The other operations are pure and are functions.

The specification of `human()` is `Decompose`. It is characterised
independently by the predicate `Canonical`: units strictly decreasing, counts positive, and from each term
on, the rest adds up to less than the next larger unit.

- `DecomposeIsCanonical` shows that what `human()` writes is canonical and
  adds up to the span.
- `CanonicalIsDecompose` shows the converse: a canonical list is exactly
  what `human()` writes for its sum.

Together the two say that a span has exactly one decomposition, and that
`human()` finds it.

Where the package's prose and its code differ, the model follows the code:

- The doc comments at duration.go:26 and duration.go:66 end their example
  with "2 days 15 hours". The code, and the tests at duration_test.go:15
  and :77, give "2 days 14 hours 13 minutes …" (`SevenGroups`).
- The comment on `Round` says it rounds "up". A negative span actually goes
  down, and the result is generally not a multiple of `to`
  (`RoundNegativeMultiple`, `RoundCases`).

`human()` of a unit constant is "1 year"; only `Name()` gives the bare name
"year" (`HumanOfUnit`).

## Model

| member | source | states |
|---|---|---|
| Duration.UnitName | duration.go:69-86 | each constant's name is a single word of at least three letters that does not end in "s" |
| Duration.UnitsIsTable | duration.go:35 | the table human() walks is strictly decreasing, each unit is preceded by the next larger one, and it ends with the nanosecond |
| Duration.UnitsComplete | duration.go:14-23 | every one of the eight constants is in the table |
| Duration.Decompose | duration.go:35-55 | the terms the loop emits; its promises are stated by DecomposeTerms, DecomposeDescending, DecomposeSum, DecomposeIsCanonical and CanonicalIsDecompose |
| Duration.Label | duration.go:45-48 | the unit name, plural unless the count is 1; stated by LabelPlural |
| Duration.Render | duration.go:51 | one group "<count> <label>"; stated by HumanHasSpace and the test groups of SevenRendered, EightRendered and PastRendered |
| Duration.RendersAs | duration.go:35-55 | the groups are a given list when each term renders as the group in the same place |
| Duration.HumanText | duration.go:27-61 | the value human() returns; stated by HumanEmpty, HumanPast, HumanHasSpace and HumanOfUnit |
| Duration.Name | duration.go:67-88 | the bare name for a constant, the human() text otherwise; stated by NameOneWord, NameOfConstants, NameOfNinety and HumanOfUnit |
| Duration.String | duration.go:99-101 | an alias for Name(); stated by NameOneWord and NameOfConstants |
| Text.JoinSpace | duration.go:56 | `strings.Join(parts, " ")`; stated by SplitJoin |
| Duration.GroupsStep | duration.go:37-54 | one pass of the loop keeps the groups written so far, followed by the groups of the remainder, equal to the groups of the whole span |
| Duration.CollectGroups | duration.go:28-55 | the loop writes exactly the rendered terms of the decomposition of the span over the table |
| Duration.Human | duration.go:27-61 | human() returns the joined groups of \|d\|, followed by " ago" exactly when d is negative |
| Duration.DecomposeTerms | duration.go:37-42 | every emitted term has a non-zero count and a unit of the table |
| Duration.DecomposeDescending | duration.go:35-54 | over a decreasing table, the emitted units strictly decrease |
| Duration.DecomposeSum | duration.go:35-55 | over a table that ends with the nanosecond, the counts times their units add back up to the span |
| Duration.CarryBound | duration.go:54 | each term's count times its unit stays below the next larger unit of the table |
| Duration.HumanCounts | duration.go:35-55 | every count is positive and at most 292 years, 52 weeks, 6 days, 23 hours, 59 minutes, 59 seconds, 999 milliseconds or 999999 nanoseconds |
| Duration.HumanTerms | duration.go:35-55 | the terms of a span have strictly decreasing units and add up to its magnitude |
| Duration.DecomposeIsCanonical | duration.go:35-55 | what the loop emits for a span in range is canonical and adds up to the span |
| Duration.CanonicalIsDecompose | duration.go:35-55 | a canonical list of terms from the table is exactly what the loop emits for its sum, so a span has only one decomposition |
| Duration.TakenCase | duration.go:37-54 | when the first term uses the table's first unit, that count is the quotient and the other terms decompose the remainder |
| Duration.SkippedCase | duration.go:40-42 | when no term uses the table's first unit, its quotient is zero and the span passes on unchanged |
| Duration.HeadTaken | duration.go:37-54 | a non-zero quotient c with remainder r emits (c, unit) and continues with r |
| Duration.TermsOfSpan | duration.go:35-55 | a canonical list adding up to n is the decomposition of n over the unit table |
| Duration.LabelPlural | duration.go:45-48 | a label is the unit's name, with "s" appended exactly when the count is not 1 |
| Duration.DecomposeOfUnit | duration.go:35-55 | over a decreasing table, a unit of the table decomposes into one of itself |
| Duration.HumanOfUnit | duration.go:45-51 | human() of a constant is "1 " followed by its name, while Name() returns the bare name |
| Duration.HumanEmpty | duration.go:28-60 | human() is the empty string exactly for zero |
| Duration.HumanPast | duration.go:29-33 | the text of -d is the text of d followed by " ago" |
| Duration.HumanHasSpace | duration.go:51-56 | the text of a non-zero span contains a space |
| Duration.NameOneWord | duration.go:67-101 | Name() is one word exactly for the eight constants and zero, and String() equals Name() |
| Duration.TruncRem | duration.go:93 | Go's remainder is congruent to the dividend, in [0, to) for a non-negative dividend and in (-to, 0] for a negative one |
| Duration.Round | duration.go:91-96 | for d >= 0 the result is a multiple of `to` in (d, d + to]; for d < 0 it lies in (d - 2·to, d - to], as far below d - to as Go's remainder is from zero |
| Duration.RoundLeastMultipleAbove | duration.go:95 | for d >= 0 the result is the least multiple of `to` strictly above d |
| Duration.RoundExactMultiple | duration.go:91-96 | an exact multiple still moves by one whole `to`, up when d >= 0 and down when d < 0 |
| Duration.RoundAdvancesAgain | duration.go:95 | rounding a rounded non-negative span advances it by `to` again |
| Duration.RoundNegativeMultiple | duration.go:93 | for d < 0 the result is a multiple of `to` exactly when Go's remainder is 0 or -to/2 |
| Duration.RoundMirror | duration.go:91-96 | for d < 0, Round(d) == -Round(-d) exactly when d is a multiple of `to` |
| Text.DecimalString | duration.go:51 | the `%v` text of a count is a non-empty run of digits with no leading zero, except "0" itself |
| Text.DecimalRoundTrip | duration.go:51 | reading the digits back gives the count |
| Text.DecimalCanonical | duration.go:51 | every digit run with no leading zero is the text of its value |
| Text.SplitJoin | duration.go:56 | splitting the space join of space-free parts gives the parts back |
| DurationCases.NameOfConstants | duration_test.go:7-14 | Name() and String() of the eight constants are "year" … "nanosecond" |
| DurationCases.NameOfNinety | duration.go:67-88 | a span of 90 nanoseconds, which is no constant, is named "90 nanoseconds", character for character |
| DurationCases.SevenRendered | duration_test.go:15 | the eight groups render as "253 years", "35 weeks", "2 days", "14 hours", "13 minutes", "19 seconds", "999 milliseconds", "999999 nanoseconds" |
| DurationCases.EightRendered | duration_test.go:16 | the eight groups render as "285 years", "20 weeks", "1 day", "15 hours", "59 minutes", "59 seconds", "999 milliseconds", "999999 nanoseconds" |
| DurationCases.PastRendered | duration_test.go:17 | the seven groups render as "31 years", "37 weeks", "1 hour", "46 minutes", "39 seconds", "999 milliseconds", "999999 nanoseconds" |
| DurationCases.SevenGroups | duration_test.go:15 | 7999999999999999999 decomposes into the terms behind those eight groups, and its name is their group texts joined by spaces |
| DurationCases.EightGroups | duration_test.go:16 | 8999999999999999999 decomposes into the terms behind those eight groups, and its name is their group texts joined by spaces |
| DurationCases.PastGroups | duration_test.go:17 | the magnitude of -999999999999999999 decomposes into the terms behind those seven groups, and its name is their group texts joined by spaces, followed by " ago" |
| DurationCases.RoundCases | duration_test.go:29-64 | the sixteen rounding results of the tests, and the negative result for the minute is not a multiple of a minute |

## Left out

- Negating the most negative int64 (duration.go:32) wraps in Go and leaves the span negative. `Human`, `HumanText`, `Name` and `String` require `d != MinInt64` instead.
- Round: int64 overflow near the ends of the range is excluded by the precondition `RoundFits`, which states exactly when the result is representable. `to <= 0` is excluded by `to > 0`: Go panics on zero.
- `fmt.Sprintf` and `strings.Join` are not modelled as library calls. `DecimalString` and `JoinSpace` stand in for them, for the non-negative counts and plain strings the code passes.
- The `fmt.Stringer` interface wiring (duration.go:98) is not modelled. `String` is only the alias.
- The commented-out debug print at duration.go:68 is not modelled.
- The test harness (map iteration, `t.Errorf`) is not modelled. The tests serve only as expected values.
- SevenGroups: states the name as the space join of the test's group strings, each proved character for character by SevenRendered. The joined string is not compared with the test's literal as a whole. The verifier cannot close a string equality of that length within its resource limit: the join fails at about 60 characters. The same holds for EightGroups and PastGroups.
- EightGroups: see SevenGroups.
- PastGroups: see SevenGroups.
