# A verified model of the platform's algorithms and protocols

The platform ingests SBOMs and advisories and answers queries about them. Most of its service layer is
SQL, but a handful of algorithms and protocols decide whether the answers are right. This project models
those in Dafny and proves what they are for. Every branch, constant and error path follows the code; where
the code and its own documentation differ, the model follows the code and the difference is a lemma.

| files | what they model |
|---|---|
| `Query.dfy`, `QueryCodec.dfy`, `QueryRoundTrip.dfy`, `QueryCompose.dfy`, `QueryPrune.dfy`, `QueryEscape.dfy` | the `q` query language: parser, evaluator, printing by the documented grammar, composition by concatenation, the prune query, `escape_q` |
| `Labels.dfy`, `Importer.dfy`, `ImporterRuns.dfy` | label validation; the importer service as atomic statements over a table; every interleaving of its clients |
| `PercentEncoding.dfy`, `Cpe.dfy`, `CpeIdentity.dfy`, `CpeQuoting.dfy`, `CpeRow.dfy` | CPE 2.3 strings, CPE 2.2 URIs read with and without regard to quoting, version 5 identifiers, database rows |
| `Identifiers.dfy`, `Purl.dfy` | package URL identifiers as hash chains |
| `SortKey.dfy` | the generated sort key of vulnerability identifiers |
| `TokenProvider.dfy`, `TokenProviderRuns.dfy`, `TokenProviderTimes.dfy` | the token cache of the load tests; every interleaving of its threads; when tokens expire |
| `Migration.dfy` | partitioned data migrations that abort and are run again |
| `Paging.dfy`, `Duplicates.dfy`, `Client.dfy`, `Deletion.dfy` | the command line's batch work |
| `Assertions.dfy` | version assertions about packages |
| `Strings.dfy` | results, options and the string operations of the Rust standard library |

Code that works on values is modelled by functions and lemmas. Objects that change are classes whose
methods are proved equal to a function of the old state, and loops are loops, proved against a
specification; the lemmas are about those functions. Concurrent code is a class of atomic steps together
with a transition function on snapshots, and its properties are proved for every sequence of steps.

Time, random identifiers, map iteration order, responses of servers and the moment at which something
fails are parameters, so every lemma quantifies over them. Random identifiers never repeat. Version 5
hashing is a free constructor: it has no collisions.

## What differs from the documentation

- `escape_q` escapes fewer characters than the documented grammar asks for. `QueryEscape.EscapedFilter` and
  `QueryEscape.EscapedFullText` say exactly which values come through the parser, as the value of a filter and
  as a query of their own; `QueryEscape.PipeBecomesAlternatives`, `QueryEscape.ComparisonBecomesFilter` and
  `QueryEscape.EscapeQLosesBackslash` are families and a value that do not.
- The documented grammar is followed by the parser only for constraints that are `Printable`; the exact
  condition is the right-hand side of `QueryRoundTrip.RoundTrip`.
- Alternatives separated by a pipe are an OR only in full-text search and with `=` and `~`; with the other
  operators every alternative has to hold: `QueryCompose.Alternatives`.
- `build_prune_query` without a query of the caller, or with one that ends in `&`, puts an empty full-text
  search before its options: `QueryPrune.PruneWithoutQuery`, `QueryPrune.NarrowMeaning`. After a query that ends
  in a backslash the first option is swallowed, and the result can match what the caller's query does not:
  `QueryPrune.BackslashSwallowsOption`, `QueryPrune.BackslashDoesNotNarrow`.
- An escaped `*` or `?` of a CPE 2.3 string becomes a wildcard of the URI, where NISTIR 7695 keeps it apart from one:
  exactly when, `CpeQuoting.EscapeSurvives`; and exactly which strings keep all they say, `CpeQuoting.FormattedStringRoundTrip`.
- `find_duplicates` keeps an undated entry if there is one, not the most recent one:
  `Duplicates.KeptIsLatest`, `Duplicates.DatedIsDeleted`. An entry that two pages both delivered is deleted
  altogether: `Duplicates.LostIfFetchedTwice`, `Duplicates.DeliveredTwiceIsDeleted`.
- `delete_entries` never skips anything, because a missing resource is reported as `NotFound`:
  `Deletion.NothingIsSkipped`.
- A claimant's `NotAffected` assertion about one vulnerability withdraws its `Affected` assertions about all
  others at that version: `Assertions.ClaimIsLost`, and exactly for whom that makes a difference,
  `Assertions.ListsStandingClaims`.
- A token whose expiry was never stored can be handed out when the margin is so negative that the provider's
  clock has not reached its opposite: `TokenProviderRuns.MarginKeepsTokensDated`.
- The heartbeat (modules/importer/src/runner/common/heartbeat.rs, lines 76 to 94) changes an importer's row without a new
  revision: `ImporterRuns.BeatAfterCreate` is such a run, and `ImporterRuns.OnlyBeatsAreHidden` says that nothing else
  does; "same revision, same row" holds up to the heartbeat column.
- Deleting an importer deletes its reports (migration/src/m0000010_init_up.sql, line 3783), so the reports stored
  are those of the importers' present lives.

## Model

| member | source | states |
|---|---|---|
| Query.CaptureIsLazyMatch | common/src/db/query.rs:87-90 | the tokenizer finds what the regular expression finds: a match with the shortest field and, for it, the earliest alternative operator, or none if there is none |
| QueryCodec.EncodeIsOnePass | common/src/db/query.rs:92-94 | two whole-string replacements in sequence equal one simultaneous pass, on every string |
| QueryCodec.DecodeIsOnePass | common/src/db/query.rs:95-101 | five whole-string replacements, each seeing what the previous left, equal one unescaping pass, on every string |
| QueryCodec.ParseLength | common/src/db/query.rs:102-121 | the number of constraints, read off the raw text: separators not preceded by a backslash, and one more unless the text ends in one |
| QueryRoundTrip.RoundTrip | common/src/db/query.rs:149-157 | parsing a list of constraints printed by the documented grammar returns that list if and only if the list is printable, for all lists |
| QueryRoundTrip.PrintableRoundTrips | common/src/db/query.rs:195-196 | escaping operators and special characters with a backslash is enough for printable constraints |
| QueryRoundTrip.ParsedPieceIsPrintable | common/src/db/query.rs:104-119 | every constraint the parser produces can be printed on its own |
| QueryRoundTrip.ParseWeight | common/src/db/query.rs:110-117 | parsing conserves the separators: values of all constraints together number the unescaped pipes plus the constraints |
| QueryCompose.ConcatenationParses | common/src/db/query.rs:102-121 | for all texts, joining two queries with `&` concatenates their constraints if and only if the first is not empty, ends in no unescaped `&` and in no backslash |
| QueryCompose.ApplyOfConcat | common/src/db/query.rs:56-83 | `&` between queries is conjunction, and commutes |
| QueryCompose.PrintedMeaning | common/src/db/query.rs:186-189 | a printed list of constraints matches what all of its constraints match |
| QueryCompose.NegatedOperators | common/src/db/query.rs:63-67 | on fields that are present `!=` and `!~` are the complements of `=` and `~`, for any list of alternatives |
| QueryCompose.MatchMeaning | common/src/db/query.rs:63-67 | the query texts `f=v`, `f!=v`, `f~v` and `f!~v`, with any alternatives: some value equal or contained, or no value so |
| QueryCompose.ComparisonMeaning | common/src/db/query.rs:68-71 | the query texts `f>v`, `f>=v`, `f<v` and `f<=v`: for a field that compares by its rank on any scale, that inequality with the rank of every value |
| QueryCompose.MissingField | common/src/db/query.rs:62-62 | no filter, with any operator, matches a record that lacks its field |
| QueryCompose.SearchMeaning | common/src/db/query.rs:74-80 | a text without operator matches if some value of the record contains some alternative |
| QueryCompose.Alternatives | common/src/db/query.rs:63-80 | alternatives widen full-text search, `=` and `~`; with every other operator all of them have to hold |
| QueryCompose.DisplayOfParse | common/src/db/query.rs:233-241 | displaying the parsed constraints of a query gives back its text, when that has no backslash, no control codes 7 and 8 and does not end in `&` |
| QueryPrune.BuildPruneQuery | cli/src/common/mod.rs:12-43 | the query is the caller's own narrowed by each option in order; the list parameters carry it with limit, offset and sort |
| QueryPrune.NarrowParses | cli/src/common/mod.rs:15-28 | options of one piece each append exactly one constraint each, after those of the query, if and only if there are none or the query is not empty, ends in no unescaped `&` and in no backslash |
| QueryPrune.NarrowMeaning | cli/src/common/mod.rs:12-28 | unless some text that an added `&` follows ends in a backslash, the result matches exactly what the query and every option match, whatever separators they hold, and nothing without a value containing the empty text when some such text is empty or ends in `&` |
| QueryPrune.PruneOnlyNarrows | cli/src/common/mod.rs:12-43 | the same for the prune query and its options, with or without a query of the caller |
| QueryPrune.PruneSelects | cli/src/common/mod.rs:12-28 | for plain dates and labels, in terms of records: a prune selects what the caller's query matches, published strictly before the one date, ingested strictly before the other, with every label given, and nothing else |
| QueryPrune.PruneWithoutQuery | cli/src/common/mod.rs:13-28 | without a query of the caller an empty full-text search comes first, so a match needs some value containing the empty text as well as every option |
| QueryPrune.BackslashSwallowsOption | cli/src/common/mod.rs:13-28 | after a query ending in a backslash the first option adds no constraint |
| QueryPrune.BackslashDoesNotNarrow | cli/src/common/mod.rs:13-28 | for every such equality filter and plain option some record is matched by the result and not by the caller's query |
| QueryPrune.DateFilter | cli/src/common/mod.rs:15-22 | `published<date` and `ingested<date` are one less-than filter on that field |
| QueryPrune.LabelFilter | cli/src/common/mod.rs:24-28 | a `key=value` label option is one equality filter on that label |
| QueryEscape.EscapeQIsEscape | test-context/src/q.rs:2-8 | three replacements in sequence equal one escaping pass |
| QueryEscape.EscapedFilter | test-context/src/q.rs:1-8 | a field, an operator and an escaped value parse as that one filter with that one value if and only if the grammar can carry the field and the value has no control codes 7 and 8, no pipe and no newline; for all texts and operators |
| QueryEscape.EscapedFullText | test-context/src/q.rs:1-8 | an escaped value parses as a full-text search for that value if and only if it is not empty, has no such control code and no pipe, and no `~`, `<` or `>` that follows some text without backslash or `=` and is followed by no newline |
| QueryEscape.EscapeQRoundTrip | test-context/src/q.rs:2-8 | a step to these: replacing and unescaping alone return a value if and only if it has no control codes 7 and 8 and no backslash followed by a pipe |
| QueryEscape.ComparisonBecomesFilter | test-context/src/q.rs:5-7 | a plain text around `~`, `<` or `>` parses as a filter once escaped, although unescaping returns it |
| QueryEscape.PipeBecomesAlternatives | test-context/src/q.rs:5-7 | a plain text around a pipe parses as two alternatives once escaped, although unescaping returns it |
| QueryEscape.EscapeQLosesBackslash | test-context/src/q.rs:5-7 | a backslash followed by a pipe comes back as the pipe alone, from the codec and from the parser in every filter |
| Labels.LabelSet.ValidateMut | entity/src/labels.rs:81-110 | the loop over the map, replacing the labels on success and leaving them alone on failure |
| Labels.LabelSet.ApplyUpdate | entity/src/labels.rs:214-227 | the loop over an update: a value sets a label, none removes it |
| Labels.TrimExactly | entity/src/labels.rs:85-86 | trimming returns the one text without white space at either end that white space around it makes the original, with the white space of Unicode character by character |
| Labels.ValidateSucceeds | entity/src/labels.rs:84-105 | success does not depend on the iteration order: every key has a visible character and no `=` or backslash, every value no `=` |
| Labels.RejectionIsFirst | entity/src/labels.rs:88-103 | the error is that of the first entry visited that is not acceptable: an empty key, a bad key by its trimmed text, or a bad value of an acceptable key |
| Labels.ResultEntries | entity/src/labels.rs:84-107 | validated labels have exactly the trimmed keys, each with the trimmed value of some entry whose key trims to it |
| Labels.ValidatedLabels | entity/src/labels.rs:84-107 | no key or value of validated labels begins or ends with white space, none holds a reserved character, and of the entries with one trimmed key the last visited wins |
| Labels.FixedPoint | entity/src/labels.rs:81-110 | the clean label sets are exactly the fixed points of validation, in every order |
| Labels.ValidateTwice | entity/src/labels.rs:112-114 | validating what validation returned changes nothing, whatever the two orders |
| Labels.OrderIndependence | entity/src/labels.rs:82-107 | for all labels, the outcome is independent of the order if and only if no two keys that trim to one carry values that trim differently or, where some entry is rejected, all rejections are the same error |
| Labels.ApplyInAnyOrder | entity/src/labels.rs:214-227 | an update has one result, whatever order its entries come in: labels with a value are set, those without are gone, the others stay |
| ImporterService.Service.Create | modules/importer/src/service.rs:150-182 | a validated configuration in a new row with a fresh revision, or an error and no change |
| ImporterService.Service.Update | modules/importer/src/service.rs:351-390 | the compare-and-set: the assignments and a fresh revision if name and revision match, an error and no change otherwise |
| ImporterService.Service.PatchRead | modules/importer/src/service.rs:206-217 | the read of a patch, with the check of the caller's revision |
| ImporterService.Service.PatchWrite | modules/importer/src/service.rs:219-246 | the later write of a patch, conditional on the revision read |
| ImporterService.Service.UpdateConfiguration | modules/importer/src/service.rs:249-267 | validates, then writes the configuration conditionally |
| ImporterService.Service.UpdateStart | modules/importer/src/service.rs:271-292 | writes the start of a run conditionally |
| ImporterService.Service.UpdateFinish | modules/importer/src/service.rs:295-349 | one transaction: the conditional write and the report, or neither |
| ImporterService.Service.Reset | modules/importer/src/service.rs:394-417 | writes the reset conditionally |
| ImporterService.Service.UpdateProgress | modules/importer/src/service.rs:420-441 | writes the progress conditionally |
| ImporterService.Service.SetProgressMessage | modules/importer/src/service.rs:444-457 | writes the message conditionally |
| ImporterService.Service.Delete | modules/importer/src/service.rs:460-475 | removes the row and its reports if name and revision match, and says whether it did |
| ImporterService.Service.Beat | modules/importer/src/runner/common/heartbeat.rs:76-94 | sets the heartbeat if it is the one seen before |
| ImporterRuns.StepKeepsInv | modules/importer/src/service.rs:351-390 | every action keeps: revisions fresh and pairwise distinct, both progress counters null or both set, labels clean, pending patches tied to the row they read, every report belonging to an importer that exists |
| ImporterRuns.Reachable | modules/importer/src/service.rs:150-475 | that invariant holds after every run |
| ImporterRuns.TakesEffect | modules/importer/src/service.rs:150-475 | each operation takes effect if and only if the importer exists with the revision expected, if any, and the configuration to store is acceptable (a creation if the name is free, a heartbeat if the last one is as seen), and otherwise changes nothing |
| ImporterRuns.RowIsWritten | modules/importer/src/service.rs:271-457 | start, finish, reset, progress, message and heartbeat write exactly the columns and values named, in that row alone |
| ImporterRuns.ConfigurationIsStored | modules/importer/src/service.rs:150-182 | creating stores the validated configuration in a waiting row without history, replacing it stores it in the row that is there |
| ImporterRuns.CreationErrors | modules/importer/src/service.rs:155-179 | a creation fails with the error of its labels or, where these are acceptable, because the name is taken, and in no other case |
| ImporterRuns.ImporterIsRemoved | modules/importer/src/service.rs:460-475 | deleting removes that importer and no other |
| ImporterRuns.PatchRemembers | modules/importer/src/service.rs:206-217 | the read of a patch fails with `NotFound` or a collision exactly when the importer or the revision expected is missing, and else keeps what the row holds |
| ImporterRuns.ReportsAreKept | modules/importer/src/service.rs:330-345 | after any run the reports are, each once, those of the finishes that took effect, but for importers deleted since |
| ImporterRuns.RevisionIdentifiesRow | modules/importer/src/service.rs:362-376 | a revision seen at two moments of any run belongs to one importer with one content, up to the heartbeat, across deletes and re-creates |
| ImporterRuns.OnlyBeatsAreHidden | modules/importer/src/runner/common/heartbeat.rs:76-94 | a step changes a row under the same revision if and only if it is a heartbeat that takes effect with a new time |
| ImporterRuns.BeatAfterCreate | modules/importer/src/runner/common/heartbeat.rs:78-90 | after any successful creation a first heartbeat gives one revision two rows |
| ImporterRuns.UndisturbedBetween | modules/importer/src/service.rs:369-376 | if the revision is the same at two moments, the row was that row at every moment between |
| ImporterRuns.PatchIsAtomic | modules/importer/src/service.rs:190-247 | no lost update: a patch that succeeds stores the validated transformation of the configuration in the row at that moment, and touches nothing else |
| ImporterRuns.PatchFailsOnlyOnConflict | modules/importer/src/service.rs:194-195 | the conditional write of a patch succeeds if and only if the row it read is still there |
| ImporterRuns.StepRefines | modules/importer/src/service.rs:378-389 | each step is a step of the atomic service or leaves its ledger unchanged |
| ImporterRuns.RunRefinesAtomicService | modules/importer/src/service.rs:196-247 | every interleaving leaves the configurations and reports of the successful operations executed one at a time, patches indivisible and one report for each successful finish that carried one |
| PercentEncoding.EncodeUriComponent | common/src/cpe.rs:453-469 | the loop over the characters equals the recursive encoding |
| PercentEncoding.DecodeOfEncode | common/src/cpe.rs:451-469 | decoding what was encoded gives back every value, wildcard codes read as wildcards, over all of UTF-8 |
| PercentEncoding.EncodingRoundTrip | common/src/cpe.rs:451-469 | encoding loses nothing if and only if the value has no characters 1 and 2 |
| PercentEncoding.EncodedAlphabet | common/src/cpe.rs:455-466 | encoded text has no separators, and is empty or `-` only for those values |
| PercentEncoding.WrittenAsItIs | common/src/cpe.rs:459-466 | a character is written as it is if and only if it is an ASCII letter or digit, `_`, `-` or `.`; any other takes three characters or more, from a percent sign on |
| Cpe.SplitCpe23 | common/src/cpe.rs:415-433 | the scanning loop equals the recursive split |
| Cpe.SplitIsLossless | common/src/cpe.rs:415-433 | joining the parts with `:` gives back every input |
| Cpe.SplitIsUnique | common/src/cpe.rs:414-433 | a list of parts is the split of its join if and only if no part holds an unescaped colon and only the last ends in a lone backslash |
| Cpe.UnescapeCpe23 | common/src/cpe.rs:436-449 | the scanning loop equals the recursive unescaping |
| Cpe.SplitAndUnescape | common/src/cpe.rs:415-449 | escaping values, joining, splitting and unescaping returns the values |
| Cpe.ComponentToUri | common/src/cpe.rs:472-479 | a raw component becomes the URI binding of its unescaped text, `*` and `-` alone that of ANY and NA |
| Cpe.PackEdition | common/src/cpe.rs:504-511 | the packed edition is the binding of edition and extended attributes |
| Cpe.PopTrailingEmpty | common/src/cpe.rs:529-531 | the pop loop removes exactly the trailing empty components: what it leaves is a prefix that does not end in one, and all it removes are empty |
| Cpe.Cpe23ToUri | common/src/cpe.rs:484-534 | fails unless there are eleven components; otherwise the URI binding of the eleven attributes |
| CpeIdentity.EditionThroughUri | common/src/cpe.rs:504-511 | the five texts packed with `~` are unpacked as they were, packed or not |
| CpeIdentity.FieldsThroughUri | common/src/cpe.rs:518-533 | dropping trailing empties, joining and packing lose no text of any of the eleven attributes, unless part or language hold a colon |
| CpeIdentity.NoTrailingColon | common/src/cpe.rs:529-533 | the URI of any name without colons in part and language ends in no colon |
| CpeIdentity.NameThroughUri | common/src/cpe.rs:484-534 | the values (texts, quoting forgotten) read back from the URI of any name without colons in part and language |
| CpeIdentity.UriRoundTrip | common/src/cpe.rs:341-391 | the values (texts, quoting forgotten) of all eleven attributes are recovered if and only if the name is faithful |
| CpeQuoting.EscapeSurvives | common/src/cpe.rs:472-479 | the URI text of a raw component is the binding of what the component says, wildcards and quoted characters told apart, if and only if it escapes no `*` or `?` |
| CpeQuoting.PiecesRoundTrip | common/src/cpe.rs:451-452 | that binding itself is read back exactly unless it holds one of the characters 1 and 2 |
| CpeQuoting.AttributeThroughUri | common/src/cpe.rs:472-479 | a raw component is read back as what it says if and only if it is `*` or `-`, or escapes no wildcard and unescapes to a text that is not empty, not `-` and free of characters 1 and 2 |
| CpeQuoting.FormattedStringRoundTrip | common/src/cpe.rs:481-534 | unbinding the URI recovers all eleven attributes of a formatted string, quoting included, if and only if its raw components meet that condition, the part has no colon and the language is not empty and has none |
| CpeQuoting.SameUriSameName | common/src/cpe.rs:484-534 | two such strings with one URI have the same attributes, quoting included |
| CpeIdentity.WithAnyVersion | common/src/cpe.rs:341-391 | rebuilds and parses the URI without version; a parse error would keep the original |
| CpeIdentity.AnyVersionKeeps | common/src/cpe.rs:379-390 | never takes the error branch, is idempotent, and keeps the other attributes if and only if they are faithful |
| CpeIdentity.AnyVersionFields | common/src/cpe.rs:341-391 | what is left after normalizing, attribute by attribute |
| CpeIdentity.AnyVersionIdentity | common/src/cpe.rs:146-154 | normalized names share an identifier if and only if their hashed attributes other than the version have equal text, as far as a URI carries it; and normalizing keeps the identifier if and only if the version text is `*` and nothing hashed is lost |
| CpeIdentity.SharedAncestors | common/src/cpe.rs:146-154 | for every length, two identifiers share that many links from the root if and only if as many of part, vendor, product, version, update, edition and language, in this order, have equal text |
| CpeIdentity.LanguageComesLast | common/src/cpe.rs:153-153 | changing the language alone changes the last link alone |
| CpeIdentity.EqualTexts | common/src/cpe.rs:147-153 | two components hash alike if and only if they are equal, but for `*` and ANY and for the empty text and NA |
| CpeRow.PackColumns | entity/src/cpe.rs:331-364 | the packed edition of a row as one text |
| CpeRow.ColumnsSay | entity/src/cpe.rs:101-158 | every attribute has its own column: absent for NA, `*` for ANY, or the value; a missing part or language is `*` |
| CpeRow.NameThroughRow | entity/src/cpe.rs:289-321 | for values that need no percent-encoding, reading a row back always succeeds and yields each attribute as the row retains it |
| CpeRow.RowRoundTrip | entity/src/cpe.rs:101-158 | for every name, the trip through the database is the identity if and only if no attribute is NA, empty, `*`, `-` or holds a percent sign, the language is none of `*`, `ANY` and empty, the part is not the text `*`, and no `~` can be taken for the packing |
| CpeRow.RowKeepsIdentifier | entity/src/cpe.rs:103-103 | for every row that can be read back, the stored identifier is that of the CPE read if and only if no hashed attribute is NA, empty, `-` or holds a percent sign, the language is not `ANY` or empty, and no `~` is taken for the packing |
| Purl.ComputePackageUuid | common/src/purl.rs:104-110 | the reassigned result is the chain of type, namespace if any, and name |
| Purl.Uuids | common/src/purl.rs:140-145 | the three identifiers, with the loop over the qualifiers |
| Purl.SortedIsUnique | common/src/purl.rs:128-131 | a map has exactly one ascending enumeration, so insertion order does not matter |
| Purl.QualifierUuidInjective | common/src/purl.rs:104-138 | two package URLs share a qualified identifier if and only if they are equal up to a missing version being empty, with or without namespace |
| Purl.SharedAncestors | common/src/purl.rs:104-110 | two package URLs share the first link of their chains if and only if they share the type, the second if also the namespace or, where there is none, the name |
| Purl.GreatestQualifier | common/src/purl.rs:126-134 | a qualifier whose key comes after all others extends the chain by its key and then by its value |
| Purl.PackageMeetsVersion | common/src/purl.rs:104-124 | when exactly a package identifier equals a version identifier |
| Purl.LevelsAgree | common/src/purl.rs:148-167 | `to_base` and `to_version` drop exactly the later links of the chain |
| SortKey.MatchExactly | migration/src/m0002090_vulnerability_id_sort_index.rs:28-29 | at each position at most one match is possible: the whole run of digits, if it is a word of its own |
| SortKey.ReplaceByTokens | migration/src/m0002090_vulnerability_id_sort_index.rs:27-32 | a global replacement changes the numbers and nothing else |
| SortKey.KeyTokens | migration/src/m0002090_vulnerability_id_sort_index.rs:11-14 | the two rewrites bring each number to nineteen digits and keep all other text |
| SortKey.KeyNumbersHaveFixedWidth | migration/src/m0002090_vulnerability_id_sort_index.rs:12-14 | every all-digit word of a key has exactly 19 digits |
| SortKey.KeyOrder | migration/src/m0002090_vulnerability_id_sort_index.rs:10-33 | for identifiers of one shape, key order is the order of their number tuples modulo 10000000000000000000 |
| SortKey.KeyEquality | migration/src/m0002090_vulnerability_id_sort_index.rs:10-33 | keys are equal if and only if shapes and retained numbers are |
| SortKey.KeptExactly | migration/src/m0002090_vulnerability_id_sort_index.rs:13-14 | a number is retained in full if and only if it is below 10000000000000000000, as every number of at most 19 digits is |
| SortKey.SmallNumbersSort | migration/src/m0002090_vulnerability_id_sort_index.rs:10-15 | for identifiers of one shape with numbers below 10000000000000000000, key order is decided by the first number that differs, as a number, and keys are equal if and only if all numbers are |
| SortKey.KeyIsIdempotent | migration/src/m0002090_vulnerability_id_sort_index.rs:27-32 | the key of a key is that key |
| TokenProvider.OidcTokenProvider.constructor | tools/perf/auth.py:39-52 | no token, expiry zero, lock free |
| TokenProvider.OidcTokenProvider.Advance | tools/perf/auth.py:69-105 | one atomic step of a thread, equal to the transition function |
| TokenProvider.OidcTokenProvider.Receive | tools/perf/auth.py:72-84 | the response to a request reaches the thread that sent it |
| TokenProvider.OidcTokenProvider.Raise | tools/perf/auth.py:81-85 | a request or a lifetime that raises ends the call through the release of the lock |
| TokenProviderRuns.StepKeepsInv | tools/perf/auth.py:69-105 | every step of every thread keeps the invariant linking lock, program counters, token, expiry and completed requests |
| TokenProviderRuns.MutualExclusion | tools/perf/auth.py:102-104 | at most one thread is inside the token request, in every run |
| TokenProviderRuns.EveryReturnIsAToken | tools/perf/auth.py:97-105 | no call returns None, whatever the margin; unless the margin is below minus the initial clock, an unlocked return hands out a token at least as new as one whose stored expiry was far enough away, a locked return one whose own expiry was stored |
| TokenProviderRuns.FetchOnlyWhenDue | tools/perf/auth.py:92-95 | a request starts only under the lock, when no token is stored or the clock has reached the stored expiry less the margin |
| TokenProviderRuns.RequestsAreSpaced | tools/perf/auth.py:85-95 | request `n` starts no earlier than the first plus all lifetimes granted before it, each less the margin |
| TokenProviderRuns.NoDeadlock | tools/perf/auth.py:102-105 | while a call is in progress some thread can move or is waiting for a response |
| TokenProviderRuns.CallsAreShort | tools/perf/auth.py:97-105 | a call ends after at most fourteen of its own steps, whatever the others do |
| TokenProviderRuns.MarginKeepsTokensDated | tools/perf/auth.py:92-100 | every unlocked return of every run has had a stored expiry to be compared with if and only if the clock had reached minus the margin when the provider was made |
| TokenProviderRuns.NegativeMarginLosesExpiry | tools/perf/auth.py:28-28 | with a clock that starts at zero that holds exactly for the margins that are not negative |
| TokenProviderTimes.FetchIsDated | tools/perf/auth.py:82-85 | in every run, every completed fetch stores the token of its response, and an expiry between the clock at the response and the clock at the last write, each plus the lifetime granted, 300 seconds where none was |
| TokenProviderTimes.OnlyFetchesDate | tools/perf/auth.py:85-85 | nothing but the last write of a fetch changes the stored expiry |
| TokenProviderTimes.UnlockedReturnIsInTime | tools/perf/auth.py:92-100 | a token handed out without the lock is that of a response no older than one whose time of storing plus lifetime less the margin the clock had not reached when the same call read it, in terms of the run alone, whenever the first expiry was due at the start |
| TokenProviderTimes.LockedReturnIsDated | tools/perf/auth.py:102-105 | a token handed out under the lock is that of a response whose fetch was completed, on the same condition |
| TokenProviderTimes.RaisesAfterFailure | tools/perf/auth.py:81-105 | a call ends without a token only if its own request, or the lifetime in its response, failed |
| TokenProviderTimes.RequestsWait | tools/perf/auth.py:85-95 | a request starts no earlier than the response to the last completed one plus the lifetime granted less the margin |
| Migration.Disjoint | migration/src/data/partition.rs:48-54 | partitions of one total select disjoint documents |
| Migration.Complete | migration/src/data/partition.rs:14-17 | no document is left out if and only if every number below the total is running |
| Migration.BeyondTotal | migration/src/data/partition.rs:53-53 | a runner numbered at or beyond the total selects nothing |
| Migration.SelectedExactly | migration/src/data/partition.rs:48-54 | a runner takes exactly the listed documents whose hash is its own number, below the total, plus a multiple of the total |
| Migration.NeverShared | migration/src/data/mod.rs:211-240 | in every history, two runs of different partitions of one total never have a document in common, neither waiting nor in an open transaction |
| Migration.Database.LaunchRun | migration/src/data/mod.rs:234-240 | the queue of a run is the selection of its partition, in listing order |
| Migration.Database.BeginDocument | migration/src/data/mod.rs:266-280 | the handler runs on the present rows in an open transaction |
| Migration.Database.CommitDocument | migration/src/data/mod.rs:282-289 | a commit stores the rows the handler computed |
| Migration.Database.AbortRun | migration/src/data/mod.rs:291-293 | an abort rolls back all open transactions of the run and keeps the committed ones |
| Migration.Database.ProcessAll | migration/src/data/mod.rs:186-197 | the reference: every document once, in sequence, equals the map of the handler |
| Migration.StepKeepsInv | migration/src/data/mod.rs:211-215 | in every step each document is untouched or processed, and open transactions hold the processed rows |
| Migration.NeverHalfProcessed | migration/src/data/mod.rs:217-221 | after any history each document is untouched or fully processed |
| Migration.RunsConverge | migration/src/data/mod.rs:201-215 | after any history with aborts and re-runs in which each partition of some total completed once, the database is as if every document was processed once |
| Migration.TwiceIsOnce | migration/src/data/mod.rs:214-215 | where the handler accepts the migrated table too, migrating it again changes nothing if and only if the handler is idempotent on the table |
| Migration.RerunsNeedIdempotence | migration/src/data/mod.rs:214-215 | for every such table and listing, the history of two complete runs ends as one run does if and only if the handler is idempotent on the table |
| Paging.Distribute | cli/src/api/sbom.rs:175-179 | the loop deals page `i` to worker `i` modulo the concurrency |
| Paging.OffsetsFit | cli/src/api/sbom.rs:172-173 | page `i` starts at `i` times the batch size, below the total, so nothing overflows 32 bits |
| Paging.EveryRecordRequestedOnce | cli/src/api/sbom.rs:171-179 | every record below the total is on exactly one page of exactly one worker, and no other record is |
| Paging.WorkerCountsAddUp | cli/src/api/sbom.rs:181-193 | the workers' counts add up to the total |
| Paging.RoundRobin | cli/src/api/sbom.rs:175-179 | which pages a worker has, and in which order |
| Paging.LoadsAreBalanced | cli/src/api/sbom.rs:175-175 | no worker has more than one page more than another |
| Duplicates.GroupByDocument | cli/src/api/sbom.rs:238-244 | the loop groups the entries by document, in the order fetched |
| Duplicates.FindDuplicates | cli/src/api/sbom.rs:246-271 | the loop over the groups, in any order, reports each group of two or more by its sorted entries |
| Duplicates.GroupsReported | cli/src/api/sbom.rs:249-271 | a group is reported for a document if and only if it has two entries or more, under the id and date of the entry kept and with one id fewer than entries |
| Duplicates.SortIsAStableSort | cli/src/api/sbom.rs:255-260 | the sort orders by the coded comparator, keeps all entries and leaves ties as they were |
| Duplicates.KeptIsChoice | cli/src/api/sbom.rs:254-262 | the entry kept is the first undated one fetched for the document or, if all are dated, the first of the latest date, and there is exactly one such |
| Duplicates.KeptIsLatest | cli/src/api/sbom.rs:254-262 | the entry kept is a latest published one if and only if no entry of the document lacks a date |
| Duplicates.DatedIsDeleted | cli/src/api/sbom.rs:254-265 | of a dated and an undated SBOM of one document the dated one is deleted |
| Duplicates.ListedIds | cli/src/api/sbom.rs:454-464 | an id is listed for deletion if and only if some document has it on an entry it does not keep |
| Duplicates.ListedEntries | cli/src/api/sbom.rs:454-464 | the document an id is listed with is one that has it on an entry it does not keep, and each such pair is listed |
| Duplicates.AtMostTheKeptSurvives | cli/src/api/sbom.rs:262-270 | after the deletion a document has exactly the entry kept, or nothing when that id is listed as well |
| Duplicates.EveryDocumentKeepsOne | cli/src/api/sbom.rs:246-270 | with distinct ids every document keeps exactly one SBOM, the one chosen |
| Duplicates.LostIfFetchedTwice | cli/src/api/sbom.rs:249-265 | a document loses its last SBOM if and only if its first undated entry, or its first of the latest date if all are dated, was fetched more than once |
| Duplicates.DeliveredTwiceIsDeleted | cli/src/api/sbom.rs:249-265 | any SBOM delivered twice is an example |
| Duplicates.OneLessPerDocument | cli/src/api/sbom.rs:454-464 | deletions and documents together are as many as entries fetched |
| Client.ApiClient.RefreshToken | cli/src/api/client.rs:108-128 | the shared token is replaced exactly when credentials exist and a token is granted |
| Client.ApiClient.ExecuteWithRetry | cli/src/api/client.rs:183-225 | the loop ends at the first answer that is not passed over, with the calls, delays and token that go with it, and at most one refresh |
| Client.ResponseClasses | cli/src/api/client.rs:227-249 | for every status and body, the answer: success, `NotFound`, `TokenExpired`, `Unauthorized`, `Timeout`, `ServerError` or `HttpError`, and whether it is worth another attempt |
| Client.TransportFailures | cli/src/api/client.rs:42-54 | a request or a body that does not arrive is a timeout, 408 unless it has a status, or a network error, and always worth another attempt |
| Client.CallsExactly | cli/src/api/client.rs:191-222 | an attempt is made if and only if every answer before it was a passing failure, or the first to say that the token has expired, where a new token is granted |
| Client.ThreeAttempts | cli/src/api/client.rs:188-224 | as configured: at most three calls and three seconds of delays, and exactly these with the third answer when all three fail in passing |
| Client.OutcomeIsUnique | cli/src/api/client.rs:191-224 | the answers determine calls, result and delay |
| Client.TotalSleepIsBounded | cli/src/api/client.rs:204-219 | the delays of a run with `N` attempts add up to at most 500·N·(N−1) milliseconds, and to that if and only if every answer but the last is worth one |
| Client.OneRefresh | cli/src/api/client.rs:194-203 | a run passes over at most one expired token |
| Client.ResultIsAnAnswer | cli/src/api/client.rs:188-224 | with two or more attempts the caller sees `Unauthorized` or an answer actually received, never `TokenExpired` |
| Client.OneAttemptIsNotEnough | cli/src/api/client.rs:188-200 | with one attempt a refresh ends in the placeholder error |
| Client.SuccessIsReported | cli/src/api/client.rs:191-193 | success is returned if and only if some attempt succeeds and all before it are passed over |
| Client.MissingIsNeverHttpError | cli/src/api/client.rs:227-249 | no run ends in `HttpError(404, _)` |
| Deletion.Collector.Complete | cli/src/common/mod.rs:144-175 | one completion is appended to exactly one of the three lists |
| Deletion.DeleteEntries | cli/src/common/mod.rs:111-194 | the lists filled in the order of completion, with their sizes as 32-bit totals |
| Deletion.NothingIsLost | cli/src/common/mod.rs:146-173 | the three lists together are the completions, each exactly once |
| Deletion.FiledWhere | cli/src/common/mod.rs:146-173 | an item is in a list if and only if the answer for its entry belongs there |
| Deletion.ListsSay | cli/src/common/mod.rs:146-173 | for every entry: listed as deleted after a success, as skipped after a plain 404, as failed with its own error after anything else, each if and only if |
| Deletion.OrderDoesNotMatter | cli/src/common/mod.rs:135-177 | two orders of completion fill each list with the same items |
| Deletion.NothingIsSkipped | cli/src/common/mod.rs:154-160 | with the client's answers the skipped list is always empty |
| Assertions.NotAffectedClaimantsForVersion | common/src/package/mod.rs:35-56 | the loop over the assertions, failing at the first version that does not parse |
| Assertions.AffectedClaimantsForVersion | common/src/package/mod.rs:58-96 | the loop over the ranges, then the claimants ruled out, with the first parse error in the order of the code |
| Assertions.FilterByVersion | common/src/package/mod.rs:98-142 | the loop keeps what concerns the version, failing at the first version that does not parse |
| Assertions.FilterSucceeds | common/src/package/mod.rs:98-142 | filtering succeeds if and only if the claimant query does and every `Fixed` version parses |
| Assertions.FirstErrors | common/src/package/mod.rs:35-142 | which text each of the three queries fails with: the candidate, or the first in the order of the list that is no version, start before end, ranges before versions not affected |
| Assertions.FilterKeeps | common/src/package/mod.rs:105-138 | what a filter keeps and who says not affected, in terms of the versions: the start included, the end left out |
| Assertions.ResultsInOrder | common/src/package/mod.rs:98-142 | results come in the order of the assertions: two lists together give what the first gives followed by what the second gives |
| Assertions.FilterCommutes | common/src/package/mod.rs:58-142 | after filtering by a version the query at that version cannot fail and lists the same claimants in the same order, and filtering again changes nothing |
| Assertions.AffectedMeans | common/src/package/mod.rs:66-93 | a claimant is listed if and only if one of its ranges holds the version and it rules that version out for no vulnerability |
| Assertions.ListsStandingClaims | common/src/package/mod.rs:83-93 | the list agrees with the claims taken vulnerability by vulnerability if and only if the claimant rules the version out for nothing, or for every vulnerability it claims |
| Assertions.ClaimIsLost | common/src/package/mod.rs:83-93 | two assertions of one claimant about different vulnerabilities for which it does not |

## Left out

- SQL generated from queries, columns, sorting and pagination: the model has `apply` and the parser only; a context's comparisons (`eq`, `like`, `gt` and so on) are parameters.
- `regex`: replaced by a hand-written tokenizer, tied to the pattern's leftmost-first, lazy meaning by `Query.CaptureIsLazyMatch`.
- `OwnedUri::from_str` is not part of this model. Its place is taken by section 6.1 of NISTIR 7695 as `CpeQuoting.UnbindQuoted`, and, for the values that the accessors return and the identifier hashes, by `CpeIdentity.Unbind`, which reads a wildcard as its character and so forgets quoting. Both copy part and language as they stand, and neither rejects a wildcard for standing inside a value.
- CpeIdentity.NameThroughUri: forgets quoting, for that reason.
- CpeIdentity.UriRoundTrip: forgets quoting, for that reason.
- The URI builder of the `cpe` crate is not part of this model: it is taken to read each text as `CpeIdentity.Unbind` does, and `ANY` for languages as ANY.
- QueryPrune.PruneSelects: speaks of dates and labels without characters of the grammar; `QueryPrune.NarrowMeaning` covers all texts.
- CpeRow.NameThroughRow: says what is read back only for values that need no percent-encoding, and for `*`; exactly which names come back unchanged is said of all.
- CpeIdentity.AnyVersionKeeps: is stated for names without colons in part and language, which is what a parsed CPE has.
- CpeIdentity.AnyVersionIdentity: the same.
- `CpeType::Empty`: the part of a name is ANY or its text.
- `CpeCompare`: the answers expected of it do not fit the inclusion of sets of names.
- ImporterService.Service.Update: does not say whether a failed update reports a missing importer or a collision, because the code decides that by a second read that other clients can overtake.
- ImporterService.Service.UpdateProgress: does not model the conversion of unsigned counters to the signed column, which would only add a range check.
- Importer configurations other than their labels are opaque text, and serialization to JSON is taken to be faithful.
- The list and report queries of the importer service: reads without a protocol.
- Trimming follows the white space of Unicode through a fixed list of characters; no other Unicode property is used.
- Word boundaries in the sort key: which characters other than digits are word characters is a parameter of every lemma.
- `Purl::translate` and the parsing of package URLs: text substitution without a law to keep.
- TokenProviderRuns.EveryReturnIsAToken: takes the `access_token` of a response to be text, as section 5.1 of RFC 6749 requires; a JSON null would be stored and returned.
- TokenProviderRuns.RequestsAreSpaced: counts requests that completed, because a failed one grants no lifetime.
- OIDC discovery, HTTP, files, progress bars and the reading of environment variables: input and output.
- Migration.RunsConverge: lets any number of transactions be open at once, so it also covers the configured concurrency; transient failures of storage, handler or database are the abort step.
- `Options::should_skip` and the hasher: a list lookup, and an arbitrary function from documents to hashes.
- Paging.Distribute: needs a positive batch size and concurrency, where the code would panic on zero.
- Duplicates.FindDuplicates: takes the fetched entries as given; failed pages, entries without document id and the rounding of the 64-bit total to 32 bits only change which entries those are.
- Duplicates.KeptIsLatest: compares publication dates as the code does, as text.
- `DeletedResult`, `SkippedResult` and `FailedResult` are one record; the error stays a value instead of its message.
- `lenient_semver`: a parser into a total order of versions is a parameter.
- Severity scores, hashing readers, chunked inserts and other short helpers: no interacting cases.
