# Atmos CLI: a verified model of its error and command layers

Atmos is a command-line tool whose `cmd/` and `errors/` packages do more than wire libraries together.
This project models the parts that carry algorithms or state, and proves what they promise for all inputs,
all runs and all reachable states. `dafny verify dfyconfig.toml` verifies the whole project.

| modules | what they model |
|---|---|
| `CodeSpans`, `SpanImages`, `HintEscaping` | the hint escaper: code spans by the rule of section 6.1 of CommonMark 0.31.2, and brackets escaped only outside them |
| `ErrorTrees`, `ErrorBuilding`, `UniqueLists` | error trees of wraps and joins, hint and detail collection across them, and the fluent builder |
| `BuiltErrors`, `BuiltLayers`, `BuiltTowers`, `BuiltContexts` | what any use of the builder keeps and reaches of its causes, from an error or from nil, and through any depth of wrapping |
| `ContextText` | error context printed as `k=v` text, and its four readers |
| `AuthFailure` | the authentication sentinel removed in place, scopes accumulated over re-wraps |
| `Reporting` | detached snapshots and claim-once reporting |
| `ToolchainPath` | the PATH entries that Atmos owns, as a two-variable state machine over all runs |
| `AnsiBackground`, `SgrParameters` | background colours taken out of SGR sequences (section 8.3.117 of ECMA-48), and which parameters remain |
| `LineFilling`, `Gradient` | greedy line filling and its optimality; the callout gradient |
| `RootFlags` | the two scanners over leading root flags |
| `CommandTree` | custom commands merged into the command tree |
| `FlagValues`, `CommandFlags`, `FlagRegistration` | the flags of a custom command validated, registered and read back, at any depth of nesting |
| `Conditions`, `StepLoop` | `when` and `continue` conditions, the look ahead over the steps and the step loop |

Code that updates state is modelled by classes, arrays and loops, each proved against a specification
function or against the property itself; what the source promises is then proved about those functions.
Go's panics, nil values and error returns are modelled as results, not excluded.

## What the code does against its documentation

The model follows the code in each of these places; the lemma named gives the exact condition or shows the
input.

- A flag of a custom command directly below the root may declare the shorthand `i`. Validation looks only at
  the parent, but the command has a flag `identity` with that shorthand itself, so registration panics
  (`ShorthandOfIdentityPanics`). The exact condition is `AcceptedFlagsWork`; below another custom command it
  always holds (`BelowCustomIsSafe`).
- Validation requires a shorthand of one character, but a character of more than one byte makes the shorthand
  lookup panic before an error can be reported (`CrashIff`, `WideShorthandCrashes`).
- A flag directly below the root may declare the shorthand `h`, or be named `help` without being boolean. It is
  accepted and registered, but the command cannot run (`ShorthandOfHelpPanics`); `NestedFlagsRun` is the exact
  condition.
- A flag whose name equals its own shorthand, or another flag's, is reported as a duplicate: names and
  shorthands share one map (`ShorthandOfOwnName`).
- JoinPreservingHints says that it re-attaches every hint of its errors; it re-attaches those on the errors'
  own single-cause chains (`JoinReaches`, `NestedJoinHidesHint`).
- The hints of an error given to Build are not re-attached by WithCause, unlike the cause's: the traversal
  reaches every hint if and only if the causes' hints are fixed under escaping and the base's are given again
  (`ReachesAllIff`, and `TowerReachesAllIff` for any depth of wrapping). Of a nil error the first cause takes the
  place, so its hints are not re-attached either (`NilBaseHidesHint`); explanations given before it are lost
  (`BuiltKeepsDetails`).
- WithCause says that it preserves the cause's context. What comes through is the first word of each value, and
  nothing of a key with a space (`BuiltContext`); every key is answered in full if and only if no key or value
  that the builder adds has a space (`AllInFullIff`).
- Of a code that counts as a background code, a 48 among the arguments of a foreground colour is taken for a
  background colour; of any other code a 48 at its end stays (`CodeKeepsNonBackgroundIff`). So a palette
  foreground colour 48 is kept where its code ends, and lost where more parameters follow (`Foreground48`). A
  code other than an SGR code that looks like a background code gets an extra `m` (`StripKeepsVisibleIff`).
- Empty segments of an authentication message are dropped although they are not the sentinel
  (`EmptySegmentIsLost`); `LinesSurviveIff` says when no line but the sentinel is lost.
- HasContext and GetContext differ on a key that is written with two values and on a key that contains `=`
  (`LookupsDisagree`); `LookupsAgreeIff` says when they agree.
- The look ahead over the steps overlooks a freshness fact written with a leading dot
  (`LeadingDotIsPassedOver`); it agrees with the loop if and only if evaluation never comes to one
  (`AsForeseenIff`).
- A configured name with a space is registered under its first word and not found again, so processing the same
  configuration twice adds its command twice (`SpacedNameIsAddedAgain`, `RegisterTwiceIff`).
- Clearing PATH before setting it is not neutral when all the user has is one empty entry and the call says
  more (`ClearThenSet`). Repeating a call changes PATH again where a user entry is a piece of an added
  directory (`ReplaceIdempotentIff`).

## Model

| member | source | states |
|---|---|---|
| `CodeSpans.SkipBackticks` | errors/builder.go:252-257 | Gives the first offset at or after the start that holds no backtick; `RunEnd` states that property |
| `CodeSpans.ClosingRun` | errors/builder.go:263-276 | What the search for a closing run promises: the found offset ends a maximal run of exactly the opening length, and no such run stands before it; nothing is found only if there is none up to the end |
| `CodeSpans.FindClosingBacktickRun` | errors/builder.go:263-276 | The scanning loop computes `ClosingRun`, also where it returns no end |
| `CodeSpans.CodeSpanRanges` | errors/builder.go:226-248 | The scan returns a list of spans that meets the rule of section 6.1 of CommonMark 0.31.2 as the code reads it (ordered, disjoint, opened and closed by maximal runs of equal length with none of that length in between, every run left as text unclosed to the end of the string), and no other list meets it |
| `CodeSpans.SpanListUnique` | errors/builder.go:216-248 | Any two span lists that meet the rule are equal, so the rule determines the scanner |
| `SpanImages.SpansMove` | errors/builder.go:188-199 | Any rewriting that copies backticks and puts none in moves the code spans: the spans of the rewritten text are the images of the spans of the text |
| `HintEscaping.EscapeHintAngleBrackets` | errors/builder.go:200-214 | The loop with its running offset computes `Escape`: exempt hints unchanged, text between spans escaped, spans copied |
| `HintEscaping.TwoPassesAreOne` | errors/builder.go:278-282 | The two successive replacements are one character-wise replacement; the second does not see what the first wrote |
| `HintEscaping.EachBracketReplaced` | errors/builder.go:278-282 | Wherever a `<` stands, `&lt;` takes its place, and `&gt;` that of a `>`; every other character is copied |
| `HintEscaping.EscapeWrites` | errors/builder.go:200-214 | Character by character and for every hint: an exempt one is left as it is; of any other a `<` outside its spans becomes `&lt;`, a `>` there `&gt;`, and every other character, and every one inside a span, stays, at the place the escape moves it to |
| `HintEscaping.EscapeKeepsSpans` | errors/builder.go:200-214 | The escaped hint has as many spans, in the places the escape moves them to, with the same characters |
| `HintEscaping.EscapeLeavesNoRawBracket` | errors/builder.go:188-214 | Every `<` or `>` that is left stands inside a code span of the result |
| `HintEscaping.EscapeFixes` | errors/builder.go:200-214 | A hint is left alone if and only if it is exempt or has no raw bracket outside its spans |
| `HintEscaping.EscapeIdempotent` | errors/builder.go:200-214 | Escaping twice is escaping once, for every hint |
| `HintEscaping.EscapeKeepsExemption` | errors/builder.go:200-203 | Escaping neither gives nor takes an `EXAMPLE:` or `TITLE:` prefix |
| `HintEscaping.UnescapeOfEscape` | errors/builder.go:200-214 | Undoing the entities between the spans of the escaped hint gives what undoing them in the hint gives |
| `HintEscaping.EscapeRoundTrip` | errors/builder.go:200-214 | That gives the hint back if and only if it is exempt or had no `&lt;` or `&gt;` between its spans |
| `ContextText.PrintContext` | errors/builder.go:303-321 | Walking the context map in any order and sorting gives one text, the sorted pairs; keys without a `%`, which stand in the format string |
| `ContextText.SortedUnique` | errors/builder.go:311-316 | A set of keys has one sorted listing |
| `ContextText.LessMeans` | errors/builder.go:311-311 | The order of the keys: at the first place where two differ, the smaller character decides, and a prefix comes first |
| `ContextText.ExtractContext` | errors/builder.go:152-171 | The nested loops over details and words take over every pair whose key is not there yet |
| `ContextText.ReadPairIs` | errors/builder.go:161-168 | A word with an `=` is read as its key, which has none, and the rest behind the first; a word without one is no pair |
| `ContextText.GetContext` | errors/testing.go:105-130 | The nested loops with early return give the first word that starts with key and `=` |
| `ContextText.HasContext` | errors/testing.go:41-66 | The nested loops with early return find whether some word splits at its first `=` into key and value |
| `ContextText.LookupsAgree` | errors/testing.go:105-130 | For a key without `=`, one lookup finds a value if and only if the other holds of some value, and it is one of them |
| `ContextText.LookupsAgreeIff` | errors/testing.go:41-130 | For every key, the two lookups say the same of every value if and only if the key has no `=` and all its pairs have one value, or has one and stands in front of `=` in no pair |
| `ContextText.LookupsDisagree` | errors/testing.go:41-130 | Of a key written with two values one lookup gives the first, the other finds both, or neither where the key contains `=` |
| `ContextText.MergePrinted` | errors/builder.go:152-171 | Reading a printed context into another gives every key, and the value that was there first wins each collision |
| `ContextText.PrintReadRoundTrip` | errors/builder.go:303-321 | Printing a formattable context and reading it back recovers the map if and only if no key contains a space or `=` and no value contains a space |
| `ContextText.LookupInPrinted` | errors/testing.go:105-130 | In a printed clean context HasContext answers what the map does, for every key; GetContext does so if and only if the key has no `=` or stands in front of `=` in no pair |
| `ContextText.LookupFirst` | errors/testing.go:105-130 | In a printed context with any values, GetContext gives for any key the first word that answers it, pair by pair in the order of the sorted keys |
| `ContextText.LookupTells` | errors/testing.go:105-130 | So of a key that only its own pair speaks of it gives the first word of the value, and nothing of a key with a space |
| `ContextText.ExtractContextPairs` | errors/error_funcs.go:196-216 | The nested loops collect the trimmed words that contain `=`, in order |
| `ContextText.TrimSpaceIs` | errors/error_funcs.go:204-212 | Trimming takes off exactly the white space in front and behind |
| `ContextText.SpacesAre` | errors/error_funcs.go:204-212 | The white space is exactly that of Unicode |
| `ContextText.PrintedIsShown` | errors/error_funcs.go:196-216 | The display of a printed context shows its pairs word for word if and only if trimming takes nothing off any of them |
| `UniqueLists.DedupLists` | errors/multicause.go:37-54 | Appending what is not there yet lists every string once, in the order of first occurrence |
| `ErrorTrees.Gatherer.Gather` | errors/multicause.go:37-54 | The recursion through the shared set and output list, with its loop down the causes, appends what this tree has and the list lacks, in the order of first encounter; it terminates on tree size |
| `ErrorTrees.Gatherer.AddAll` | errors/multicause.go:38-43 | The inner loop appends the collected strings that are not in the set and keeps set and list together |
| `ErrorTrees.CollectAcrossCauses` | errors/multicause.go:27-35 | AllHints and AllDetails compute `AllTexts`; a nil error gives the empty list |
| `ErrorTrees.EncounterFindsAttached` | errors/multicause.go:37-54 | What the traversal meets is exactly what is attached at some node, also below nested multi-cause errors |
| `ErrorTrees.AllTextsFindsAll` | errors/multicause.go:10-35 | The list has exactly the attached strings, each once, in the order of first encounter |
| `ErrorTrees.AllTextsFindsNodes` | errors/multicause.go:10-54 | AllHints has a text if and only if some node of the error is a hint layer with it, and AllDetails if and only if some node is a detail layer with it |
| `ErrorTrees.JoinPreservingHints` | errors/join.go:19-35 | The nested loop re-attaches each distinct hint of the errors, in order, to their join; nil errors are left out and nothing but nil gives nil |
| `ErrorTrees.PresentAround` | errors/join.go:19-26 | Of a list of errors exactly the nil ones are left out, in order |
| `ErrorTrees.JoinKeepsHints` | errors/join.go:10-35 | The single-cause traversal of the join finds each hint once that it finds in some of the errors, and no other |
| `ErrorTrees.JoinReaches` | errors/join.go:10-35 | Joining attaches no new hint, and the traversal reaches every attached hint if and only if each is on the chain of one of the errors |
| `ErrorTrees.NestedJoinHidesHint` | errors/join.go:10-35 | A hint below a nested multi-cause error is attached but not reached: only the chains of the errors are re-attached |
| `ErrorBuilding.ErrorBuilder.Build` | errors/builder.go:24-37 | A new builder holds the error, which may be nil, and, if it has one that wraps nothing, itself as the sentinel |
| `ErrorBuilding.ErrorBuilder.WithHint` | errors/builder.go:41-44 | One call of the builder as a value: the hint is added behind the others, and nothing else changes |
| `ErrorBuilding.ErrorBuilder.WithExplanation` | errors/builder.go:55-58 | The explanation becomes the error's outermost detail; a builder without an error stays without one |
| `ErrorBuilding.ErrorBuilder.WithExampleFile` | errors/builder.go:68-71 | The example is added as a hint with the prefix `EXAMPLE:` |
| `ErrorBuilding.ErrorBuilder.WithContext` | errors/builder.go:82-88 | The key has the new value, the text that is printed for it, and nothing else changes |
| `ErrorBuilding.ErrorBuilder.WithTitle` | errors/builder.go:93-96 | The last title given counts |
| `ErrorBuilding.ErrorBuilder.WithExitCode` | errors/builder.go:99-102 | The last exit code given counts |
| `ErrorBuilding.ErrorBuilder.WithCause` | errors/builder.go:122-148 | A nil cause changes nothing; otherwise the cause joins the error as a second cause, its details and hints from anywhere below are taken over, and its context is merged under the builder's |
| `ErrorBuilding.ErrorBuilder.Err` | errors/builder.go:285-335 | The loops wrap the error in title, escaped hints, printed context, sentinel marks and exit code; calling it leaves the builder as it was |
| `ErrorBuilding.FinishedHints` | errors/builder.go:285-299 | On the chain of the built error stand the base chain's hints, the title and every hint, escaped, in that order; nothing changes below |
| `ErrorBuilding.EscapeAllMembers` | errors/builder.go:294-299 | The escaped hints are the images of the hints, and each is left alone by escaping again |
| `BuiltErrors.NilIff` | errors/builder.go:122-148 | The builder gives nil if and only if it was made from nil and was given no cause |
| `BuiltErrors.BuiltKeepsHints` | errors/builder.go:122-148 | For any base, nil or not, and any calls that give an error, it carries exactly the builder's own hints, its base's, and those of the causes that joined, as they are and escaped; a nil base's place is taken by the first cause |
| `BuiltErrors.CauseHintReached` | errors/builder.go:139-144 | The single-cause traversal finds the hint of a cause that joined unchanged if and only if escaping leaves it alone |
| `BuiltErrors.NilBaseHidesHint` | errors/builder.go:122-130 | Made from nil, the builder gives its only cause itself, and a hint beneath that cause's chain is attached but not reached, whatever the hint is |
| `BuiltErrors.ReachedIff` | errors/builder.go:122-148 | The single-cause traversal reaches exactly the builder's own hints, those of the causes that joined, escaped, and without such a cause those on the base's chain; the base may be nil |
| `BuiltErrors.ReachesAllIff` | errors/builder.go:122-148 | It reaches every attached hint if and only if the hints of the causes that joined are fixed under escaping and every hint of the base, or of the first cause in its place, is also the builder's own or a joined cause's, or without one on the base's chain |
| `BuiltErrors.AllTextsIsChainIff` | errors/multicause.go:10-17 | For any error AllHints is the list that the single-cause traversal finds if and only if that reaches every hint |
| `BuiltErrors.AllHintsIsChain` | errors/multicause.go:10-17 | For any base and calls the same holds of a built error under the condition of `ReachesAllIff`, and the traversal's list is the base chain's hints (none where a cause joined), the title and the hints escaped, once each |
| `BuiltErrors.BuiltSettledIff` | errors/builder.go:122-148 | Every hint of a built error is fixed under escaping if and only if those of its base and of the causes that joined are |
| `BuiltLayers.BuiltLayer` | errors/builder.go:122-148 | For any base and calls that give an error, a layer stands somewhere in it if and only if it stands in the base or in a cause that joined, is an explanation given while there was an error, or is one that Err adds: title, escaped hint, printed context, mark or exit code; the exit code is the outermost |
| `BuiltLayers.BuiltKeepsDetails` | errors/builder.go:55-58 | The details of a built error are exactly its explanations, its base's details and those of the causes that joined; of a builder made from nil an explanation before the first cause is lost |
| `BuiltLayers.CodeAndSentinels` | errors/builder.go:24-37 | The last exit code given counts, and the mark is the error given to Build where it wraps nothing, whatever is called afterwards |
| `BuiltLayers.BuiltHoldsAll` | errors/builder.go:104-148 | The error given to Build and every cause are themselves nodes of the built error, where errors.Is finds them |
| `BuiltTowers.FirstCauseIsBase` | errors/builder.go:122-130 | For its hints, attached and reached, a builder made from nil is one made from its first cause, with the calls before and after it |
| `BuiltTowers.TowerKeepsHints` | errors/builder.go:122-148 | Through any depth of Build, WithCause and Err, whatever the bottom, bases (nil or not) and causes, the hints are exactly those of the bottom and of the layers as they are, and of those that joined a layer on the way also escaped, once |
| `BuiltTowers.TowerSettledIff` | errors/builder.go:122-148 | Every hint of a tower is fixed under escaping if and only if those of its bottom, bases and causes are |
| `BuiltTowers.TowerReachedIff` | errors/builder.go:122-148 | What the traversal reaches of a tower, layer by layer from the top |
| `BuiltTowers.TowerReachesAllIff` | errors/multicause.go:10-17 | The single-cause traversal reaches every hint of a tower if and only if the outermost layer's other causes are fixed under escaping and: where the error below joins them, all of it is too and the outermost base has no hint that nothing else gives; where it stands for a nil base, its hints stay in reach or are given again |
| `BuiltContexts.BuiltAnswers` | errors/builder.go:122-171 | For any base, calls and key GetContext gives the first word that answers in the sorted text of all that the builder collected, or else, where no cause joined, what the base says |
| `BuiltContexts.BuiltContext` | errors/builder.go:122-171 | For any base and calls a key without `=` of which no other added pair speaks has the value that it was given last, up to its first space, or else what the first of the causes that joined says, or else, where none joined, what the base says |
| `BuiltContexts.AllInFullIff` | errors/builder.go:122-171 | Every key is answered in full, with what it was given last or else as by the causes or the base, if and only if no key that keeps an added value and no such value has a space |
| `BuiltContexts.TowerContext` | errors/builder.go:152-171 | Through any depth of wrapping, with any calls before and after the error below is added as a cause and other causes beside it, the outermost layer that names a key decides its value, up to its first space, as long as no other added pair speaks of the key |
| `AuthFailure.KeepLines` | errors/auth_failure.go:133-142 | The filter that shares the array it reads from never overwrites an unread line: the kept prefix is the old array without the sentinel |
| `AuthFailure.KeepSegments` | errors/auth_failure.go:120-130 | The same for the outer filter, which also cleans each segment and drops the ones left empty |
| `AuthFailure.DropSentinelLines` | errors/auth_failure.go:133-142 | Splitting, filtering in place and joining computes `KeptLines` |
| `AuthFailure.DropSentinelSegments` | errors/auth_failure.go:115-130 | Splitting, filtering in place and joining computes `Dropped` |
| `AuthFailure.DropIdempotent` | errors/auth_failure.go:115-130 | Dropping twice is dropping once |
| `AuthFailure.NoSentinelLeft` | errors/auth_failure.go:115-130 | No segment of the result is the sentinel and no line of a segment is |
| `AuthFailure.NoSentinelLine` | errors/auth_failure.go:115-142 | No line of the whole result is the sentinel either |
| `AuthFailure.LinesSurviveIff` | errors/auth_failure.go:115-142 | Exactly the lines that are not the sentinel survive, in order, if and only if no segment is left with one empty line alone, or just one where all the others are left with no line |
| `AuthFailure.OtherLinesSurvive` | errors/auth_failure.go:115-142 | For any message, what survives and what should differ in empty lines only, order kept |
| `AuthFailure.EmptySegmentIsLost` | errors/auth_failure.go:122-128 | An empty segment between two others is dropped, although it is not the sentinel |
| `AuthFailure.AppendUniqueScope` | errors/auth_failure.go:99-113 | The nested loops append the scopes that are not there yet, in order |
| `AuthFailure.WrapAuthenticationFailed` | errors/auth_failure.go:41-62 | Nil gives nil; a direct wrap of an authentication failure merges the scopes and keeps the inner detail; any other cause gives its cleaned message as detail |
| `AuthFailure.EnsureAuthenticationFailed` | errors/auth_failure.go:68-73 | Nil gives nil, an authentication failure is returned as it is, anything else is wrapped without a scope |
| `AuthFailure.WrapsAccumulate` | errors/auth_failure.go:41-62 | After any number of direct wraps the scopes are the non-empty ones, outermost first and once each, the detail is the innermost message cleaned, and the cause is still at the bottom |
| `AuthFailure.MessageReads` | errors/auth_failure.go:76-86 | The message of a first wrap in each of its four forms: with or without scopes, with or without detail |
| `AuthFailure.WrappedDetailIsClean` | errors/auth_failure.go:41-86 | After any number of wraps the detail has no sentinel segment and no sentinel line |
| `Reporting.CloneReportingMap` | errors/reporting.go:84-93 | The copy holds what the source holds, to any nesting depth, in cells that did not exist before; nil stays nil |
| `Reporting.CloneReportingList` | errors/reporting.go:104-109 | The same for a list of any values |
| `Reporting.CloneReportingValue` | errors/reporting.go:95-116 | Every handled shape is copied to any depth; a value of another type is the same value |
| `Reporting.SnapshotReportingInfo` | errors/reporting.go:71-82 | The snapshot equals its source in what it keeps, shares no map or list with it, and every other field is empty |
| `Reporting.SnapshotKept` | errors/reporting.go:71-82 | As long as its own cells are not written to, a snapshot holds what it held, whatever is written elsewhere; the same holds of the source against writes to the snapshot |
| `Reporting.Flag.Claim` | errors/reporting.go:50-52 | The compare-and-swap succeeds if and only if the flag was not set, and sets it |
| `Reporting.ReportingError.ReportingContext` | errors/reporting.go:54-56 | Every read gives a new detached copy of the same contents |
| `Reporting.WithReportingContext` | errors/reporting.go:59-69 | Nil gives nil; a re-wrap shares the flag of the occurrence found below, a first wrap starts an unclaimed one; the snapshot is detached from the given information |
| `Reporting.FirstOfEnclosed` | errors/reporting.go:60-66 | However an occurrence is wrapped and joined, the search finds it, or the one that stands in front of it in the outermost join that has one there |
| `Reporting.RunSchedule` | errors/reporting.go:50-69 | In any interleaving of claims and re-wraps of one occurrence every claim is answered, exactly the first succeeds, and only if it was not claimed before |
| `ToolchainPath.Process.ReplaceInstalledProjectPath` | cmd/toolchain_environment.go:33-70 | The loops and the two Setenv calls compute `Replaced` on PATH and marker, or leave both as they were when PATH cannot be set |
| `ToolchainPath.ReadsOf` | cmd/toolchain_environment.go:33-46 | An unset variable reads as the empty string, which lists nothing; any other list is split at the separators and nowhere else |
| `ToolchainPath.Process.ApplyInstalledProjectTools` | cmd/toolchain_environment.go:19-30 | Clearing, then setting; an error in between leaves the cleared baseline |
| `ToolchainPath.UserEntriesKeptIff` | cmd/toolchain_environment.go:33-70 | For arbitrary directories one call keeps the set of user-owned entries if and only if no piece of a directory it adds is one of them, it adds more than the empty directory, and it does not leave the empty string for the user's entries |
| `ToolchainPath.RunKeepsUserEntries` | cmd/toolchain_environment.go:33-70 | Over any sequence of calls with any directories the set of user-owned entries never changes if and only if each call meets the condition of one call, and then entries that no call names keep their order and number |
| `ToolchainPath.ListableRunKeeps` | cmd/toolchain_environment.go:33-70 | Directories that are not empty and have no list separator in them always meet that condition, unless all the user has is one empty entry |
| `ToolchainPath.RunLeavesUserList` | cmd/toolchain_environment.go:33-70 | Calls of such a run that name no user-owned entry leave the user's list exactly as it was |
| `ToolchainPath.LastCallDecides` | cmd/toolchain_environment.go:33-70 | When no call names a user-owned entry, PATH and marker after any such run show only the last call, whatever its directories are and also where it has none |
| `ToolchainPath.EmptyCallRestores` | cmd/toolchain_environment.go:19-24 | An empty call after any such run restores the PATH from before the first one |
| `ToolchainPath.ReplaceIdempotentIff` | cmd/toolchain_environment.go:33-70 | Repeating a call with any directories changes nothing if and only if no user-owned entry is a piece of a directory that the call adds |
| `ToolchainPath.ClearThenSet` | cmd/toolchain_environment.go:19-30 | Clearing first makes no difference, with any directories, if and only if there is nothing to set, or one empty directory, or the user has something else than one empty entry |
| `AnsiBackground.FindAnsiCodeEnd` | cmd/root.go:1192-1199 | Gives the first letter of the part, or -1 |
| `AnsiBackground.StripBackgroundFromSGR` | cmd/root.go:1207-1251 | The loop that advances by one, three or five parameters computes `StrippedSGR` |
| `AnsiBackground.ProcessAnsiEscapeSequence` | cmd/root.go:1254-1277 | The kept code and the remainder: every branch, also a part without a letter |
| `AnsiBackground.StripBackgroundCodes` | cmd/root.go:1283-1301 | Splitting at `ESC [` and gluing the kept codes and the texts together computes `Stripped` |
| `AnsiBackground.BackgroundCodeParts` | cmd/root.go:1202-1204 | A code counts as a background code if and only if one of its parameters other than the last is 48 |
| `AnsiBackground.StripKeepsVisibleIff` | cmd/root.go:1283-1301 | For text whose escapes are complete, what stripANSI leaves of the result equals what it leaves of the input if and only if no code other than an SGR code looks like a background code and keeps its letter |
| `AnsiBackground.StripKeepsVisible` | errors/formatter.go:769-774 | For SGR codes only, stripping never changes the visible text |
| `AnsiBackground.NoBackgroundLeft` | cmd/root.go:1202-1301 | The result is complete again and none of its codes is a background code |
| `AnsiBackground.StripIdempotent` | cmd/root.go:1283-1301 | Stripping twice is stripping once |
| `SgrParameters.KeptIsNonBackground` | cmd/root.go:1222-1245 | The inner filter keeps exactly the non-background parameters, in order, if and only if no 48 is an argument of a foreground colour |
| `SgrParameters.BackgroundForms` | cmd/root.go:1207-1251 | From the first 48 on: with form 2 four arguments are taken out, with form 5 two, with any other form only the 48; where the arguments break off, nothing of them is left |
| `SgrParameters.OneCodeStripped` | cmd/root.go:1283-1301 | A text with one SGR code: it stays unless it has a 48 that is not its last parameter; otherwise what the filter keeps of it is put between `ESC [` and `m`, or nothing where it keeps nothing |
| `SgrParameters.CodeKeepsNonBackgroundIff` | cmd/root.go:1202-1277 | Of any SGR code exactly the non-background parameters remain if and only if, for a code that counts as a background code, no 48 is an argument of a foreground colour, and for any other the last parameter is no 48 or is such an argument |
| `SgrParameters.TextKeepsNonBackgroundIff` | cmd/root.go:1202-1301 | Of all codes of an SGR text exactly the non-background parameters remain, in order, if and only if every one of its codes meets that condition |
| `SgrParameters.Foreground48` | cmd/root.go:1202-1277 | In a code with no other 38 or 48 a palette foreground colour 48 is kept where its code ends; where more parameters follow, 38 and 5 stay and the rest is filtered as if the 48 began a background colour |
| `RootFlags.IsSkippableRootFlag` | cmd/cmd_utils.go:2105-2116 | Which arguments are root flags and which of them take the next argument as their value |
| `RootFlags.SkipLeadingRootFlags` | cmd/root.go:1613-1636 | The reslicing loop computes `Skip`, and fails at `--` and at a missing value |
| `RootFlags.ValueFlagSkips` | cmd/root.go:1613-1636 | A value flag takes the next argument, and fails without one; written with `=` it takes none |
| `RootFlags.BoolFlagSkips` | cmd/root.go:1613-1636 | A boolean flag takes the next argument if and only if that is a boolean literal; written with `=` it takes none |
| `RootFlags.BoolLiterals` | cmd/cmd_utils.go:2121-2124 | The two words count as boolean literals in any mixture of cases; no other text, digit or longer word shown does |
| `RootFlags.OtherArgumentSkips` | cmd/cmd_utils.go:2105-2116 | `-C` with its value attached is skipped alone, `--` fails, and any other argument ends the scan |
| `RootFlags.IsVersionCommandWithArgs` | cmd/cmd_utils.go:2071-2099 | The index scanner says yes if and only if the reslicing scanner succeeds and its remainder starts with `version` or `--version`, for every argument list |
| `RootFlags.BlockInFront` | cmd/root.go:1613-1636 | A complete block of root flags in front of a list: the remainder is that of the list, or of its tail if the block ends in a bare boolean flag and the list starts with a boolean literal |
| `RootFlags.BlockChangesNothing` | cmd/root.go:1613-1636 | So the block changes nothing if and only if it is not that case |
| `RootFlags.MatchesLeadingTokens` | cmd/root.go:1655-1665 | True if and only if the tokens are a prefix of the arguments |
| `RootFlags.IsBuiltinConfigValidationArgs` | cmd/root.go:1594-1607 | True if and only if what stands behind the root flags starts with one of the three command forms |
| `LineFilling.WrapText` | errors/formatter.go:793-833 | The loop over words gives the words in order on lines that fit the given width, or 80 where that is not positive, measured in bytes (a longer line has one word), and no other such breaking has fewer lines |
| `LineFilling.CountMonotone` | errors/formatter.go:793-833 | The exchange argument: a shorter line begun never costs lines, and a line begun costs at most one more |
| `LineFilling.GreedyOptimal` | errors/formatter.go:793-833 | No breaking of the words into consecutive lines that obey the limit has fewer lines than the greedy one |
| `Gradient.RatioBounded` | errors/formatter.go:571-583 | For every line below the count the ratio is in [0, 1] and grows from line to line by at most a third |
| `Gradient.RatioSteps` | errors/formatter.go:571-583 | Of four or more lines the last has ratio 1 and the steps are equal; of two to four they are thirds, and a single line has ratio 0 |
| `Gradient.RoundIsNearest` | errors/formatter.go:596-598 | A channel is rounded to the nearest integer, halves away from zero |
| `Gradient.ChannelMonotone` | errors/formatter.go:596-598 | A channel starts and ends at its endpoints, lies between them and moves only towards the end |
| `Gradient.ColorRoundTrip` | errors/formatter.go:585-618 | A printed colour parses back to the same three channels |
| `Gradient.HexReads` | errors/formatter.go:600-618 | What is read as a colour and what as black: either case, with or without `#`, and signs, which ParseInt accepts |
| `Gradient.GradientMovesForward` | errors/formatter.go:505-533 | Read back, the first line has the start colour and later lines move towards the end colour, channel by channel, which the last of four or more lines has, whatever the two colour texts are |
| `CommandTree.Command.Find` | cmd/cmd_utils.go:523-530 | Gives the first child with the name, or none |
| `CommandTree.Command.AddCommand` | cmd/cmd_utils.go:199-199 | Adds a child behind the others and changes nothing else of the tree |
| `CommandTree.WarnKeepsBehaviour` | cmd/cmd_utils.go:537-557 | Putting the warning in front gives a command that warns and then does exactly what it did, whichever hooks it had, also where one is such a warning already |
| `CommandTree.Command.WarnStepsConflictOnRun` | cmd/cmd_utils.go:537-557 | The command's new hook warns and then does exactly what happened before it ran: its earlier PreRunE, or else its earlier PreRun; its children and what it runs stay |
| `CommandTree.ProcessCommands` | cmd/cmd_utils.go:126-210 | The loop over the configured commands turns the mutable tree into `RegisterAll` of the old one, with the same error where it stops |
| `CommandTree.ProcessCommand` | cmd/cmd_utils.go:134-206 | One entry: reuse or create, stub, warn, recurse; every branch and every early end |
| `CommandTree.RegisterNew` | cmd/cmd_utils.go:183-206 | A new command is added before its own commands are registered below it |
| `CommandTree.RegisterAllExtends` | cmd/cmd_utils.go:126-210 | No command is removed, and what each did when invoked (its effective hook and its run) is what it does behind the warnings that were added, also when registration ends with an error |
| `CommandTree.RegisterAllUniqueIff` | cmd/cmd_utils.go:126-210 | With any names, sibling names stay unique if and only if each command that is added comes where no sibling has its name, the configured one up to its first space; also when registration ends with an error |
| `CommandTree.SpaceFreeIsApart` | cmd/cmd_utils.go:126-210 | Configured names without a space always meet that condition |
| `CommandTree.RegisterAllRuns` | cmd/cmd_utils.go:126-210 | Where that condition holds, after registration the paths are exactly the old ones and the configured ones; an old path does what it did, hook and run, a new one what its first entry says, in its own or its nearest configured ancestor's working directory, and in front of that stand the warnings of exactly the entries whose steps are ignored |
| `CommandTree.NewCommandRuns` | cmd/cmd_utils.go:134-206 | Under the same condition a path without a command gets one if and only if some chain of nested entries leads to it; the command runs the last entry of the first chain, as a custom command in the last directory that is not empty among the given one and those configured along the chain, or as a stub, with that entry's hook behind the collision warnings |
| `CommandTree.RegisterTwiceIff` | cmd/cmd_utils.go:126-210 | After a registration without error, processing the same configuration again ends without error and changes nothing but warnings if and only if no configured name at any depth has a space |
| `CommandTree.SpacedNameIsAddedAgain` | cmd/cmd_utils.go:523-530 | The name `a b` is registered as `a`, not found again and added a second time |
| `CommandFlags.ValidateFlag` | cmd/cmd_utils.go:641-673 | One flag, in the order of the checks: its own problems, a duplicate, a type conflict with an existing flag, its shorthand |
| `CommandFlags.OwnProblemIff` | pkg/customcommand/flags.go:44-187 | A flag has no problem of its own if and only if its type is one of the three or empty, its default is missing or reads as a value of that type, an integer one within 64 bits, and no value list restricts an integer |
| `CommandFlags.ValidateFlagShorthand` | cmd/cmd_utils.go:700-745 | The checks of a new flag's shorthand, and the panic on one of more than one byte |
| `CommandFlags.ValidateCustomCommandFlags` | cmd/cmd_utils.go:630-638 | The loop with its shared map of names and shorthands accepts if and only if each flag is suitable for itself and all names and new shorthands together are distinct |
| `CommandFlags.StopsIff` | cmd/cmd_utils.go:630-638 | Every verdict but acceptance is that of the first flag which is not accepted behind the flags before it |
| `CommandFlags.CrashIff` | cmd/cmd_utils.go:705-731 | Validation panics if and only if some flag, behind flags that are all acceptable, is new, has no problem of its own and has an unseen name and an unseen shorthand of one character beyond ASCII |
| `CommandFlags.ShorthandOfOwnName` | cmd/cmd_utils.go:650-724 | A new flag with no other problem whose shorthand is its own name is rejected as a duplicate |
| `CommandFlags.WideShorthandCrashes` | cmd/cmd_utils.go:705-731 | It does panic on a flag with such a shorthand alone |
| `FlagRegistration.FlagSet.AddFlag` | cmd/cmd_utils.go:773-833 | A flag set panics if and only if the name or shorthand is taken or the shorthand is longer than one byte |
| `FlagRegistration.FlagSet.MarkRequired` | cmd/cmd_utils.go:763-767 | Marking a flag as required fails if and only if there is none of that name |
| `FlagRegistration.RegisterCustomCommandFlags` | cmd/cmd_utils.go:749-770 | The loop adds the flags that are not inherited and marks the required ones, in order; it panics where `Registered` has no result, and marking never fails |
| `FlagRegistration.RegisteredIff` | cmd/cmd_utils.go:749-788 | Accepted flags are all registered, once each and in order, if and only if no new one clashes with the flags the command already has |
| `FlagRegistration.MergedIff` | cmd/cmd_utils.go:749-770 | Merging in the inherited flags works if and only if no shorthand clashes, and gives unique names and shorthands again |
| `FlagRegistration.AcceptedFlagsWork` | cmd/cmd_utils.go:586-602 | Accepted flags can be registered and merged, and each is then found with its declared type, if and only if they stay clear of the command's own flags: the empty name, `identity` and the shorthand `i` |
| `FlagRegistration.ShorthandOfIdentityPanics` | cmd/cmd_utils.go:586-602 | Directly below the root a flag with shorthand `i` is accepted and then panics on registration |
| `FlagRegistration.BelowCustomIsSafe` | cmd/cmd_utils.go:641-745 | Below a custom command validation itself keeps flags clear of the reserved ones |
| `FlagRegistration.NestedFlagsWork` | cmd/cmd_utils.go:561-611 | To any depth of nesting, accepted flags can all be registered and merged if and only if those of the outermost custom command are clear of the reserved ones |
| `FlagRegistration.AcceptedFlagsRun` | cmd/cmd_utils.go:561-611 | A command with accepted flags can run, with the help flag that Cobra adds then, if and only if they also stay clear of that flag: one named `help` is boolean, and where there is none nothing has the shorthand `h` |
| `FlagRegistration.NestedFlagsRun` | cmd/cmd_utils.go:561-611 | To any depth of nesting the commands can all run if and only if the outermost one's flags are clear of the reserved ones and each one's of the help flag |
| `FlagRegistration.ShorthandOfHelpPanics` | cmd/cmd_utils.go:700-745 | Directly below the root a flag with shorthand `h` is accepted, registered and merged, and the command panics when it runs |
| `FlagRegistration.ExtractFlags` | cmd/cmd_utils.go:916-942 | The extraction loop succeeds if and only if every declared flag is found and reads as its type, and gives each flag's value under its name |
| `FlagValues.AtoiOfItoa` | pkg/customcommand/flags.go:190-198 | Every 64-bit integer reads back from its printed form |
| `FlagValues.AtoiReads` | pkg/customcommand/flags.go:180-198 | What reads as an integer is an optional sign and at least one digit, and stays in the 64-bit range |
| `FlagValues.PrintedReads` | cmd/cmd_utils.go:916-942 | The printed form of integers, with their sign, and of the two booleans |
| `FlagRegistration.RunningFlagsReadBack` | cmd/cmd_utils.go:916-942 | Whatever values of their types a command line leaves in the accepted flags of a command that runs, extraction succeeds and gives those values |
| `FlagRegistration.UntouchedFlagReads` | cmd/cmd_utils.go:773-833 | Where the command line sets nothing, every new flag of a command that runs is found under its name and shorthand and reads back as its declared default, or as false, empty or 0 where it has none |
| `Conditions.UnmentionedDoesNotMatter` | pkg/condition/evaluate.go:129-212 | A condition in which no token is `preconditions` or `.preconditions`, or starts with one of them and a dot, evaluates the same with and without them, through all operators |
| `Conditions.EvalIsMeaning` | pkg/condition/evaluate.go:129-212 | Evaluation computes the meaning of a condition: an error or a value, `not` the opposite value, `all` the first child that is not true, `any` the first that is not false, each predicate what its word says |
| `Conditions.MentionsIsToken` | pkg/condition/cel.go:115-147 | The scan finds an identifier if and only if some maximal token of the text is the identifier or starts with it and a dot |
| `Conditions.LeadingDotHides` | pkg/condition/cel.go:115-137 | The token scan misses an identifier that is written with a leading dot |
| `StepLoop.LookAhead` | cmd/cmd_utils.go:951-991 | The loop stops at the first step that is deferred, evaluates to true or fails to evaluate, and passes over only steps that evaluate to false |
| `StepLoop.EffectiveIsDeclared` | pkg/runner/freshness/checker.go:110-180 | The effective condition either mentions a freshness fact or is the declared one |
| `StepLoop.FactsOf` | pkg/runner/freshness/checker.go:191-326 | Which facts are looked up, what each of them is then, and exactly when looking them up fails |
| `StepLoop.WithoutWhen` | pkg/runner/freshness/checker.go:106-157 | A step without a condition is entered, as long as the command has not failed, if and only if it tracks nothing, a tracked checksum has changed, or a precondition's tool is missing |
| `StepLoop.NotIsNegation` | pkg/condition/evaluate.go:139-144 | A step whose condition is negated is entered where the step itself is decided and not entered, unless the default holds both back; both fail alike |
| `StepLoop.PlatformSteps` | pkg/condition/evaluate.go:151-160 | A step with `ci` is entered if and only if nothing failed and this is CI, with `local` if and only if nothing failed and it is not |
| `StepLoop.DecidedAsForeseen` | cmd/cmd_utils.go:1126-1171 | A step that is not deferred and has no fact behind a leading dot is decided in the loop as the look ahead decided it, whatever its files and tools are |
| `StepLoop.NothingRunnableRunsNothing` | cmd/cmd_utils.go:988-991 | If the look ahead finds nothing runnable among steps without such a leading dot, the loop enters no step and ends without error |
| `StepLoop.BrokenBreaksTheLoop` | cmd/cmd_utils.go:980-983 | If the look ahead ends with an evaluation error, the loop ends with the same one at the same step, entering none before |
| `StepLoop.RunnableIsFirst` | cmd/cmd_utils.go:951-987 | Where the look ahead stops, the loop enters no step before, and enters that step if it was decided by evaluation |
| `StepLoop.LeadingDotIsPassedOver` | pkg/condition/cel.go:115-137 | For any expression with a leading dot that is not deferred there is an evaluator as assumed with which the look ahead ends a command whose loop would have run its step |
| `StepLoop.AsForeseenIff` | cmd/cmd_utils.go:951-991 | For any condition that is not deferred, look ahead and loop decide alike under every such evaluator if and only if the step has no preconditions or evaluation never comes to an expression with a leading dot |
| `StepLoop.NeverReachedWithout` | pkg/condition/evaluate.go:129-212 | Evaluation never comes to one where the condition holds none, and always does where it is such an expression alone |
| `StepLoop.LeadingDotIsNotDeferred` | pkg/condition/cel.go:115-137 | `.preconditions.success` is such an expression |
| `StepLoop.RunSteps` | cmd/cmd_utils.go:1123-1690 | The loop's variables agree with the log of its turns throughout: the log is the run of the steps, the returned error is decided by the log alone, and freshness is recorded for exactly the steps that succeeded themselves and declare inputs or artifacts |
| `StepLoop.RunUnique` | cmd/cmd_utils.go:1124-1688 | What the turns find determines the run |
| `StepLoop.EndingTells` | cmd/cmd_utils.go:1668-1690 | The command fails if and only if a step failed unforgiven; its error is the silent code 1 if and only if there was such a failure, all were reported and it is no dependency |
| `StepLoop.StaysFailed` | cmd/cmd_utils.go:1675-1675 | Once failed, a run stays failed |
| `StepLoop.EnteredAfterFailure` | pkg/condition/evaluate.go:48-56 | After an unforgiven failure only steps whose condition speaks of the status are entered |
| `StepLoop.LifecycleSteps` | cmd/cmd_utils.go:1163-1171 | A step with `always` is entered whenever its turn comes, `failure` if and only if a step before failed unforgiven, `success` if and only if none did |
| `StepLoop.ForgivenIsSuccess` | cmd/cmd_utils.go:1643-1665 | To every other step and to the ending a forgiven failure is a success |
| `StepLoop.ForgivenMeans` | cmd/cmd_utils.go:1643-1665 | A failure is forgiven if and only if the step was entered and failed with an error that is not silent and its `continue` condition means true for the status failure |

## Left out

- The libraries below: Cobra, pflag, Viper, cockroachdb errors, cel-go, Glamour and Lip Gloss are not part of
  this model. What is used of them is stated where it is used: a flag set panics on a name or shorthand it has
  and on a shorthand of more than one byte, marking a flag as required fails for a name that is not there,
  AddFlagSet skips names that are there, a command that runs gets a boolean flag `help` with shorthand `h` unless
  it has one of that name, PreRunE is called or else PreRun, GetAllHints and
  GetAllDetails follow the single-cause chain from the innermost layer outwards, GetAllHints without
  repetitions, and GetAllSafeDetails gives the safe details of the whole chain.
- Strings are sequences of characters, not of bytes; text that is not valid UTF-8 is not modelled.
- ContextText.PrintContext: a value stands for the text that the verb `%s` prints for it. A key with a `%` would
  be read as a verb by the format string: Err, PrintContext and what is said of printed contexts ask for keys
  without one. Redaction of safe details and safe details from other sources are not modelled.
- BuiltContexts.BuiltContext: of a key of which another added pair speaks BuiltAnswers says what is answered, by
  the order of the sorted keys; the same for TowerContext.
- BuiltContexts.AllInFullIff: the keys that the builder adds hold no `=`; such a key is written like a shorter key
  with a longer value.
- CommandTree.ProcessCommand: what creating a command with its flags comes to is a given outcome there; the
  flags themselves are modelled in CommandFlags.
- CommandTree.Command.WarnStepsConflictOnRun: the command path in the text of the warning is not modelled.
- CommandTree.RegisterAllRuns: among siblings of one name the order in which Cobra sorts them would decide, so it
  asks for the condition of RegisterAllUniqueIff.
- FlagRegistration.AcceptedFlagsWork: flags that the parent passes down are one list in the order of lookup; local
  flags of the parent that shadow an inherited one are not modelled.
- CommandFlags.ValidateFlag: a default written as a float is modelled by the whole number it stands for, if any.
- StepLoop.RunSteps: what a step does when it runs, preparing it, retries and timeouts are a given outcome of
  its turn; writing a freshness record may fail without consequence, so only the attempt is modelled; the
  outcome is the same whether the command exits or, as a dependency, records its error.
- StepLoop.NothingRunnableRunsNothing: the flags, arguments and environment that conditions read are the same
  for the look ahead and the loop; interactive prompts in between can change them.
- Conditions.UnmentionedDoesNotMatter: assumes that the CEL evaluator does not read the preconditions in an
  expression that holds neither token. Predicates registered by other packages are not modelled.
- Freshness facts, their globs, hashes and time stamps are given for each turn; which of them are looked up, and
  which errors that can raise, is modelled.
- Reporting.CloneReportingMap: maps and lists that contain themselves are not modelled; the source does not
  terminate on them. The global reporter and its lock are left out.
- Reporting.WithReportingContext: errors are values with a reporting error as an object among them; errors.As
  is the search for the first one.
- Reporting.RunSchedule: for re-wraps without another reporting error in front; FirstOfEnclosed says which one
  is found where there is one.
- AuthFailure.WrapAuthenticationFailed: the scope is the text that formatting gave; errors.Is of the sentinel
  type and WrapIdentityAuthFailed are not modelled.
- ToolchainPath.Process.Setenv: fails only for a value with a NUL character; Windows lists are not modelled.
- ToolchainPath.RunKeepsUserEntries: a run has the calls whose Setenv of PATH succeeds; any other call changes
  nothing.
- SgrParameters.KeptIsNonBackground: the parameters of 38 and 48 are read by position, without the colon form.
- AnsiBackground.StripKeepsVisibleIff: for text with stray or incomplete escapes nothing is claimed, although the
  methods compute the same results as the code there.
- LineFilling.WrapText: takes the words that strings.Fields gives.
- Gradient.RatioBounded: ratios are exact rationals; floating-point rounding is not modelled.
- Boolean literals of root flags are folded by the simple case folding of Unicode as far as it reaches the
  letters of `true` and `false`.
- Process execution, containers, authentication, toolchain installation, Git, Sentry, prompts, help, completion
  and the network are input and output of the parts modelled here.
- runValidationTasks, normalizeHelpTopicArgs, GetExitCode and the standalone-spec checks are not modelled.
