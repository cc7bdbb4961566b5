# bump_version: build-number selection and increment, in Dafny

The bump_version Fastlane action finds the next build number for an iOS app.
It asks App Store Connect for the build train (all builds uploaded for one
version label) and sorts the trains' build-version strings with a custom
comparator. It takes the last one as the latest build and then computes a
successor. A flat build number such as `42` goes to Fastlane's
`IncrementBuildNumberAction`. A dotted one such as `1.2.3` has its last
segment bumped (`1.2.4`), and the result is set on every target with
`agvtool new-version -all`.

This project models the pure logic inside that action's `run` and proves
properties of it:

- `RubyString` models the Ruby core behaviour the logic uses.
  - `String#split(".")`: trailing empty fields are dropped, and `"".split(".")` is empty.
  - `Array#join`.
  - `String#to_i`: an optional sign, then the leading digits, and 0 when there are none.
  - `Integer#to_s` and `String#strip`.
- `BuildOrder` holds the comparator and its reference order. The reference
  order is lexicographic on the integer values of the first three segments,
  and a missing segment counts as 0. The module proves the comparator is a
  total preorder. It models `sorted` as the plain string sort followed by a
  stable comparator sort, and selects the latest build as a maximal element.
- `BuildIncrement` holds the increment. It delegates when there is at most
  one segment. Otherwise it replaces the last segment by the decimal form of
  its value plus one.
- `BumpVersion` joins the pieces:
  - When there is no train, it falls back to `initial_build_number`, or stops with the user error.
  - An empty train crashes.
  - It builds the `agvtool` argument, using the stripped `build_number` override when one is given.
- `Wrappers` holds `Option` and `Result`.

Collaborators become arguments:
- The catalogue lookup is a `TrainLookup` value.
- `initial_build_number` and `build_number` are `Option<String>` values.
- The external incrementer's result is not seen. The outcome only records
  that the work was delegated.

Behaviour of the code worth knowing:

- A missing segment counts as 0. The comparator indexes past the end of the
  split array, which gives nil, and `nil.to_i` is 0 (`SegmentValue`).
- Of the two train cases, only a missing train reaches the `rescue`. A present but empty train makes
  `sorted.last` nil, and `nil.split` at line 88 raises outside the `rescue`.
  `Run` reports this as `Failure(NilBuildNumber)`. The `initial_build_number`
  option's own description says this case should fall back too; see
  "Findings". `RunIntended` models that fallback.
- `length <= 1` also delegates `""` and strings made only of dots, which
  split into no segments.
- Builds are first sorted as strings and then by the comparator. The
  comparator ties versions whose first three segment values agree ("1.2"
  and "1.2.0"). The model's comparator sort is stable, so the latest build
  is, among the tied maxima, the last in string order.

## Model

| member | source | states |
|---|---|---|
| RubyString.Fields | lib/fastlane/plugin/bump_version/actions/bump_version_action.rb:48-49 | the fields between separators: at least one, none containing the separator |
| RubyString.Split | lib/fastlane/plugin/bump_version/actions/bump_version_action.rb:48-49 | `split(".")` yields separator-free fields, never ends in an empty field, and is a prefix of the raw field list whose every dropped field is empty (only trailing empty fields are dropped) |
| RubyString.DropTrailingEmpty | lib/fastlane/plugin/bump_version/actions/bump_version_action.rb:48-49 | the result is a prefix of the fields, does not end in an empty field, and everything it drops is empty |
| RubyString.Join | lib/fastlane/plugin/bump_version/actions/bump_version_action.rb:95 | `join` starts with the first part, and joining nothing gives the empty string |
| RubyString.FieldsOfJoin | lib/fastlane/plugin/bump_version/actions/bump_version_action.rb:88-95 | cutting a join of separator-free parts at every separator gives the parts back, empty ones included |
| RubyString.JoinOfFields | lib/fastlane/plugin/bump_version/actions/bump_version_action.rb:48-49 | joining the raw fields of a string rebuilds the string |
| RubyString.SplitOfJoin | lib/fastlane/plugin/bump_version/actions/bump_version_action.rb:88-95 | `split(join(parts)) == parts` for separator-free parts whose last part is non-empty, which is what lets the increment keep the segment count |
| RubyString.SplitDropsOnlyTrailingSeparators | lib/fastlane/plugin/bump_version/actions/bump_version_action.rb:48-49 | `split` loses only separators at the end: the rejoined fields plus some dots rebuild the input |
| RubyString.ToI | lib/fastlane/plugin/bump_version/actions/bump_version_action.rb:51-76 | `to_i` is 0 for an empty string or one that starts with neither a sign nor a digit, and negative only after a leading `-` |
| RubyString.ToIIgnoresSuffix | lib/fastlane/plugin/bump_version/actions/bump_version_action.rb:51-76 | `to_i` reads the leading digit run and ignores whatever follows it (`"12abc"` gives 12) |
| RubyString.NatToS | lib/fastlane/plugin/bump_version/actions/bump_version_action.rb:92-94 | the decimal digits of a natural number: non-empty, all digits, no leading zero (0 is written "0"), no dot, and their value is the number |
| RubyString.IntToS | lib/fastlane/plugin/bump_version/actions/bump_version_action.rb:92-94 | `Integer#to_s` is the canonical decimal: digits with no leading zero (only 0 is written "0"), preceded by `-` exactly for negatives, no dot, and `to_i` reads back the same integer |
| RubyString.ToISigned | lib/fastlane/plugin/bump_version/actions/bump_version_action.rb:92 | after a leading `-` or `+` the digit run is read and the sign applied (`"-12x"` gives -12, `"+7"` gives 7) |
| RubyString.StringLe | lib/fastlane/plugin/bump_version/actions/bump_version_action.rb:47 | `String#<=>` used by the plain `.sort`: the first differing code point decides, and a proper prefix sorts first |
| RubyString.StringLeTotal | lib/fastlane/plugin/bump_version/actions/bump_version_action.rb:47 | any two strings are ordered one way or the other by `String#<=>` |
| RubyString.StringLeTransitive | lib/fastlane/plugin/bump_version/actions/bump_version_action.rb:47 | the string order is transitive |
| RubyString.StringLeAntisymmetric | lib/fastlane/plugin/bump_version/actions/bump_version_action.rb:47 | two strings each no later than the other are equal |
| RubyString.Strip | lib/fastlane/plugin/bump_version/actions/bump_version_action.rb:116 | `strip` removes only whitespace at the two ends: the input is whitespace + result + whitespace, and the result neither starts nor ends with whitespace |
| BuildOrder.SegmentValue | lib/fastlane/plugin/bump_version/actions/bump_version_action.rb:51-76 | a segment index past the end (Ruby's nil) has value 0 |
| BuildOrder.Spaceship | lib/fastlane/plugin/bump_version/actions/bump_version_action.rb:76 | integer `<=>` is -1, 0 or 1 exactly when the left side is smaller, equal or larger |
| BuildOrder.Compare | lib/fastlane/plugin/bump_version/actions/bump_version_action.rb:47-77 | the comparator block always answers -1, 0 or 1 |
| BuildOrder.CompareIsKeyOrder | lib/fastlane/plugin/bump_version/actions/bump_version_action.rb:47-77 | the comparator says before, tie or after exactly when the key of the first three segment values is lexicographically smaller, equal or larger |
| BuildOrder.CompareIgnoresLaterSegments | lib/fastlane/plugin/bump_version/actions/bump_version_action.rb:48-76 | two versions whose first three segment values agree compare alike against every version, on either side: later segments never matter |
| BuildOrder.CompareReflexive | lib/fastlane/plugin/bump_version/actions/bump_version_action.rb:47-77 | every version ties with itself |
| BuildOrder.CompareAntisymmetric | lib/fastlane/plugin/bump_version/actions/bump_version_action.rb:47-77 | swapping the operands negates the answer |
| BuildOrder.CompareTransitive | lib/fastlane/plugin/bump_version/actions/bump_version_action.rb:47-77 | "sorts no later than" is transitive, and strictly so when either step is strict |
| BuildOrder.CompareTotal | lib/fastlane/plugin/bump_version/actions/bump_version_action.rb:47-77 | any two versions are ordered one way or the other |
| BuildOrder.AtMostIsTotalPreorder | lib/fastlane/plugin/bump_version/actions/bump_version_action.rb:47-77 | the comparator read as "sorts no later than" is a total preorder, so sorting by it is well defined up to ties |
| BuildOrder.StringLeIsTotalPreorder | lib/fastlane/plugin/bump_version/actions/bump_version_action.rb:47 | the plain `.sort` orders by a total preorder |
| BuildOrder.Insert | lib/fastlane/plugin/bump_version/actions/bump_version_action.rb:47 | inserting into a sorted list keeps it sorted and adds exactly the one element |
| BuildOrder.Sort | lib/fastlane/plugin/bump_version/actions/bump_version_action.rb:47 | the sort yields a sorted permutation of the train's build versions |
| BuildOrder.SortedLastIsMaximal | lib/fastlane/plugin/bump_version/actions/bump_version_action.rb:47-79 | for ANY sorted permutation of a non-empty list, the last element is in the list and nothing in the list sorts after it |
| BuildOrder.AtMostThenByStringIsTotalPreorder | lib/fastlane/plugin/bump_version/actions/bump_version_action.rb:47-77 | the comparator with ties broken by string order is a total preorder, and it is exactly `AtMost` with `StringLe` deciding ties |
| BuildOrder.PrependKeepsTieOrder | lib/fastlane/plugin/bump_version/actions/bump_version_action.rb:47 | an element no later than the head and no later in tie order than any element can go in front |
| BuildOrder.InsertKeepsTieOrder | lib/fastlane/plugin/bump_version/actions/bump_version_action.rb:47 | inserting an element that is first in tie order puts it before every element it ties with |
| BuildOrder.HeadBeforeInserted | lib/fastlane/plugin/bump_version/actions/bump_version_action.rb:47 | inserting into the rest of a list keeps its head before everything |
| BuildOrder.SortKeepsTieOrder | lib/fastlane/plugin/bump_version/actions/bump_version_action.rb:47 | the comparator sort is stable: sorting an already string-sorted list leaves tied elements in string order |
| BuildOrder.SortBuildVersions | lib/fastlane/plugin/bump_version/actions/bump_version_action.rb:47-77 | `sorted` is a permutation of the build versions, ordered by the comparator, with tied versions in string order |
| BuildOrder.SelectMax | lib/fastlane/plugin/bump_version/actions/bump_version_action.rb:47-79 | `sorted.last` of a non-empty train is one of its build versions, no build version compares strictly greater, and every build version tied with it is no later in string order |
| BuildOrder.MaximaAreTied | lib/fastlane/plugin/bump_version/actions/bump_version_action.rb:47-79 | any two maximal build versions tie and have equal keys |
| BuildOrder.SegmentValueOfFields | lib/fastlane/plugin/bump_version/actions/bump_version_action.rb:48-51 | an empty field that `split` drops at the end has value 0, like a missing segment, so every raw field counts with its `to_i` |
| BuildOrder.KeyOfThreeSegments | lib/fastlane/plugin/bump_version/actions/bump_version_action.rb:48-76 | a version of three dot-separated fields has as key the `to_i` of the three fields, an empty last field giving 0 |
| BuildOrder.KeyOfTwoSegments | lib/fastlane/plugin/bump_version/actions/bump_version_action.rb:48-76 | a two-field version has the key of its two fields with 0 as third value |
| BuildOrder.TiedMaximumIsStringLast | lib/fastlane/plugin/bump_version/actions/bump_version_action.rb:47-79 | in a train of two tied versions the latest build is the one later in string order |
| BuildOrder.TiedPairPicksTheStringLast | lib/fastlane/plugin/bump_version/actions/bump_version_action.rb:47-79 | of two tied versions, the one later in string order is selected whichever order the train lists them in |
| BuildOrder.ShortFormTies | lib/fastlane/plugin/bump_version/actions/bump_version_action.rb:51-76 | "1.2.0" and "1.2" tie under the comparator |
| BuildOrder.TiedMaximaPickTheStringLast | lib/fastlane/plugin/bump_version/actions/bump_version_action.rb:47-79 | the latest build of the train "1.2.0", "1.2" is "1.2.0" |
| BuildOrder.NumericPatchComparison | lib/fastlane/plugin/bump_version/actions/bump_version_action.rb:63-76 | "1.2.10" sorts after "1.2.3": the third segment is compared as a number |
| BuildOrder.NumericMajorComparison | lib/fastlane/plugin/bump_version/actions/bump_version_action.rb:51-62 | "10.0.0" sorts after "2.0.1": the first segment is compared as a number |
| BuildIncrement.BumpLast | lib/fastlane/plugin/bump_version/actions/bump_version_action.rb:92-94 | popping the last segment and pushing `to_i + 1` as a string keeps the count and all other segments, and the new last segment is non-empty, dot-free and worth one more |
| BuildIncrement.NextBuildNumber | lib/fastlane/plugin/bump_version/actions/bump_version_action.rb:88-95 | delegates exactly when the build number splits into at most one segment. Otherwise the result splits into as many segments, all but the last unchanged, and the last is the canonical decimal of the old last segment's value plus one; the result is exactly those segments joined by dots |
| BuildIncrement.IncrementIsNewer | lib/fastlane/plugin/bump_version/actions/bump_version_action.rb:88-95 | for two or three segments the new build number sorts strictly after the old one |
| BuildIncrement.IncrementPastThirdSegmentTies | lib/fastlane/plugin/bump_version/actions/bump_version_action.rb:88-95 | for four or more segments the new build number ties with the old one under the comparator |
| BuildIncrement.IncrementNeverOlder | lib/fastlane/plugin/bump_version/actions/bump_version_action.rb:88-95 | for two or more segments the new build number never sorts before the old one |
| BuildIncrement.NextOfThree | lib/fastlane/plugin/bump_version/actions/bump_version_action.rb:88-95 | a three-segment build number p.q.r becomes p.q.(to_i(r)+1) |
| BuildIncrement.NextOfThreeIs | lib/fastlane/plugin/bump_version/actions/bump_version_action.rb:88-95 | p.q.r becomes p.q.n for the decimal n of `to_i(r) + 1` |
| BuildIncrement.IncrementExample | lib/fastlane/plugin/bump_version/actions/bump_version_action.rb:92-95 | "1.2.3" becomes "1.2.4" |
| BuildIncrement.IncrementCarriesIntoNewDigit | lib/fastlane/plugin/bump_version/actions/bump_version_action.rb:92-95 | "1.2.9" becomes "1.2.10" |
| BuildIncrement.IncrementOfNonNumericSegment | lib/fastlane/plugin/bump_version/actions/bump_version_action.rb:92-95 | "1.2.x" becomes "1.2.1" |
| BuildIncrement.IncrementOfZeroPatch | lib/fastlane/plugin/bump_version/actions/bump_version_action.rb:92-95 | "1.2.0" becomes "1.2.1" |
| BuildIncrement.FlatNumberIsDelegated | lib/fastlane/plugin/bump_version/actions/bump_version_action.rb:88-90 | "42" and "" are handed to the external incrementer |
| BumpVersion.LatestBuildNumber | lib/fastlane/plugin/bump_version/actions/bump_version_action.rb:45-83 | no train gives `initial_build_number` when set and the user error otherwise. A train never fails: an empty one gives nil, and a non-empty one gives a maximal member |
| BumpVersion.AgvtoolArguments | lib/fastlane/plugin/bump_version/actions/bump_version_action.rb:116 | the argument is `new-version -all ` followed by the computed version, or by the `build_number` override with its end whitespace removed |
| BumpVersion.Proceed | lib/fastlane/plugin/bump_version/actions/bump_version_action.rb:88-116 | delegates exactly for a build number of at most one segment; otherwise the computed `result_version` is the increment of the latest build and never sorts before it, and the agvtool argument is `new-version -all ` plus that version, or plus the stripped `build_number` override when one is given |
| BumpVersion.Run | lib/fastlane/plugin/bump_version/actions/bump_version_action.rb:45-116 | fails as the source does (user error; nil build number for an empty train); a missing train with `initial_build_number` proceeds from that value, a non-empty train proceeds from its selected latest build, and the computed `result_version` never sorts before any build of the train (a `build_number` override is set as given and not compared) |
| BumpVersion.AnyMaximalLatestBuild | lib/fastlane/plugin/bump_version/actions/bump_version_action.rb:47-116 | whichever maximal build a sort leaves last, the computed `result_version` never sorts before any build, and sorts strictly after all of them when that build has two or three segments |
| BumpVersion.NewVersionIsNewestInTrain | lib/fastlane/plugin/bump_version/actions/bump_version_action.rb:47-95 | when the latest build has two or three segments, the computed `result_version` sorts strictly after every build already in the train |
| BumpVersion.TiedTrainExample | lib/fastlane/plugin/bump_version/actions/bump_version_action.rb:47-116 | a train holding "1.2.0" and "1.2" sets "1.2.1", with `new-version -all 1.2.1` as agvtool argument |
| BumpVersion.FlatBuildNumberIsDelegated | lib/fastlane/plugin/bump_version/actions/bump_version_action.rb:88-90 | a flat latest build number ends the action by delegating to `IncrementBuildNumberAction` |
| BumpVersion.EmptyTrainIgnoresInitialBuildNumber | lib/fastlane/plugin/bump_version/actions/bump_version_action.rb:79-88 | an empty train with `initial_build_number` set ends in the nil build number as written, but succeeds with the intended lookup |
| BumpVersion.LatestBuildNumberIntended | lib/fastlane/plugin/bump_version/actions/bump_version_action.rb:79-83 | with no build at all (no train, or an empty one) the result is `initial_build_number` when set and the user error otherwise; never the nil build number; a non-empty train gives a maximal member |
| BumpVersion.RunIntended | lib/fastlane/plugin/bump_version/actions/bump_version_action.rb:79-116 | with the intended lookup the action stops exactly when there is no build and no `initial_build_number`; with no build it proceeds from `initial_build_number`, with builds from the selected latest build, and the computed `result_version` never sorts before any build of the train |

## Findings

| source | as written | input that shows it | evidently intended | confidence | as-written member | corrected member |
|---|---|---|---|---|---|---|
| lib/fastlane/plugin/bump_version/actions/bump_version_action.rb:79-88 | a train that exists but holds no builds makes `sorted.last` nil; nothing raises inside the `begin`, so the `rescue` with `initial_build_number` is skipped, and `nil.split` raises at line 88 | a train present with no builds, `initial_build_number` = "1.0" | use `initial_build_number`, which the option describes (line 178) as the value used "if no build is in current train" | not executed; medium (whether the catalogue ever returns an empty train is not visible here) | BumpVersion.EmptyTrainIgnoresInitialBuildNumber | BumpVersion.LatestBuildNumberIntended |

## Left out

- Login, team selection, app lookup and the live-version path (lines 16-24): network clients behind a library that is not part of this model.
- Choosing the version label (lines 26-41): it depends on the key order of a remote hash and on an interactive console prompt.
- The work of `IncrementBuildNumberAction.run`: a foreign action. The model records only that the work was delegated, not what it returns.
- Building and running the shell command (lines 99-129): the project folder, `shellescape`, `Actions.sh`, the `agvtool what-version` re-read and the test-mode return of the command string. Only the version argument given to `new-version -all` is modelled.
- `lane_context` writes and `UI.message` logging: side-channel state and console output.
- `available_options` and `is_supported?` (lines 134-219): CLI and environment configuration.
- BuildOrder.Sort: Ruby's sort algorithm is not modelled. A stable insertion sort stands in for it. Ruby does not promise a stable sort, so among several tied maxima (such as "1.2" and "1.2.0", or "1.2.3" and "1.2.3.9") Ruby may leave a different one last than `SelectMax` does, and the version set then differs ("1.3" instead of "1.2.1"). Everything except which tied maximum is chosen is proved for any sorted permutation (`SortedLastIsMaximal`) and any maximal choice (`AnyMaximalLatestBuild`).
- RubyString.ToI: Ruby's `to_i` also skips leading whitespace and accepts `_` between digits. Only an optional sign followed by leading digits is modelled.
- BumpVersion.LatestBuildNumber: the `rescue` in the source catches any exception in the lookup block. Only a missing train is modelled, because build versions here are always strings.
- The `initial_build_number` option defaults to the integer 1, and calling `split` on an integer would raise. The model takes this option and `build_number` as strings, the values `to_s` would give.
