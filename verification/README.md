# Verified models of the repository's algorithmic cores

This project models the parts of the repository that compute something
difficult, and proves what they promise for every input, every run or every
reachable state.

- **JSON Schema compiler** (`SchemaTypes`, `SchemaEmit`, `SchemaMeaning`,
  `SchemaLastWins`, `SchemaFaithful`, `SchemaRanges`, `SchemaExactness`,
  `SchemaExactTypes`, `Prices`, `SchemaCompiler`, `SchemaDocument`,
  `SchemaNames`, `SchemaBoundaries`). Python annotations, possibly cyclic through records,
  compile to JSON Schema Draft 2020-12 through a depth-first walk that shares
  one dictionary of definitions. `HasType` says which JSON values are serialized
  values of an annotation under the metadata around it, including validators that
  the compiler never reads; `Validates` gives the emitted keywords the meaning of
  JSON Schema Core 2020-12 (sections 4.3.2, 8.2.3.1, 10.2.1.2, 10.3.1.1,
  10.3.1.2, 10.3.2.1, 10.3.2.3) and JSON Schema Validation 2020-12 (sections 6.1
  to 6.5.3). No serialized value is ever rejected, and each kind of annotation has
  an if-and-only-if condition for accepting nothing else; `SchemaNames` keeps
  classes of one name apart.
- **Evaluation gate** (`Gate`, `GateTheorems`). The attempt budget, the stop
  reason, the session and the byte ceiling are shared by unboundedly many
  request handlers. Every interleaving of handler steps keeps one invariant.
- **Decoders and checkers around the gate** (`JsonLines`, `Rpc`, `Assembly`,
  `AssemblyRoundTrip`, `ToolCycles`, `Trajectory`, `Verdict`).
- **Synthetic histories** (`Workload`, `GrowingHistory`).
- **Release evidence and digests** (`SortedNames`, `Checksums`, `Release`,
  `ReleaseBundle`, `ReleaseRoundTrip`, `ReleaseExample`, `Framing`).
- **Graph walks** (`Graph`, `RequestWalker`, `ProcessClosure`).

`Options` holds the two result types that everything shares.

## What is false, and exactly when it holds

Some natural properties do not hold of the code. Each has a lemma with the
failing family and the condition under which the code is right.

- What the compiler does not read is lost: a validator function, the stripping of
  whitespace, a field validator or a validator of whole records. `CommitSha` and
  `NonEmptyContent` (packages/core/sediment_core/models.py:221 and 95) become plain
  strings, and `NonEmptyText` accepts blanks. For every annotation the schema is
  exact with such demands if and only if it is exact without them and no value
  breaks one (`UnreadDemandsIff`; `ValidatorIsLost` is the smallest instance,
  `ClassExactIff` the one for validators of a class).
- A schema is not always exact in its bounds either: each keyword holds the last bound written for it
  (`LastValueWins`, `LastLengthWins`). For every list of constraints,
  `FloatExactIff`, `IntExactIff`, `TextExactIff` and `ArrayExactIff` give the
  condition in both directions; `LaterBoundWins` is the smallest instance.
- Every bound on a decimal is dropped. Since the price pattern admits exactly
  the numbers that are not negative, `ge=0` is harmless and `ge=5` is not:
  `DecimalDropsBounds`, and `DecimalUnionDropsBounds` for a decimal inside a
  union.
- A length bound overwrites the arity of a fixed tuple, so `tuple[int, int]` with
  `max_length=5` accepts five items; exact if and only if the arity survives
  (`TupleExactIff`).
- Constraints on a literal, an enumeration, `Any`, a mapping or a record are
  dropped, so `Annotated[Literal[1, 7], Field(ge=5)]` accepts 1
  (`LiteralExactIff`, `AnyExactIff`, `MappingDropsLength`, `RecordDropsLength`),
  and literal keys behind an alias or an enumeration are not enforced
  (`NamedKeysExactIff`).
- A union writes its lengths for strings unless its first argument is a list or
  tuple (`FirstArgumentNamesTheLength`); `UnionExactIff` has the condition for
  each sort of value.
- Omitting null is clean if and only if no surviving branch accepts null and a
  lone surviving branch implies the limits beside the union, which are dropped
  (`OmissionCleanIff`): `Any | None` still accepts null (`AnyKeepsNull`), and an
  optional number, text or list loses its bounds (`OmittedNullDropsBounds`).
- A typed dictionary that inherits a key from a class of other totality requires
  or drops it wrongly; `InheritedTotality` has the exact condition, and
  `RecordExactIff` the one for any class, key by key.
- A root class that its own fields reach leaves a dangling `$ref`, and only then
  (`RefsResolveIffAcyclicRoot`, `CyclicRootDangles`). Definitions are keyed by class
  name, so every reference leads to the class that was meant if and only if no
  reachable class has the root's name and no two different ones share a name
  (`RightIffNoClash`).
- An incomplete gate record implies a stop unless an exception outside the
  caught classes (for example `RecursionError` from parsing) escaped that
  record's own handler; then the gate may stay open (`IncompleteMeansStopped`,
  `EscapeLeavesGateOpen`). A record whose write itself fails is lost, so the
  conservation law counts it separately (`ReservationsConserved`).
- An accepted preflight leaves as many reservations without a record as were
  made after the budget was read (`AcceptedTraffic`, with such a run in
  `LateReservation`).
- A bundled release whose names are distinct files fails verification within its
  support window in two cases and no other: an inventory lists a stale digest of `security-support.json` or
  `SHA256SUMS`, or `SHA256SUMS` is a symbolic link to another asset, which is
  overwritten after it was hashed (`BundleRoundTrip`). `StaleExample` and
  `LinkedExample` are complete releases of both kinds.
- A request body with `properties` beside `$ref` has table links without a
  section (`SiblingPropertiesAreSkipped`). Two references with the same last
  segment share one section, so all sections are right if and only if no two
  different objects of one name are reached (`AllShownIff`, `ClashHidesOne`).
- The migration digest depends on discovery order exactly when two scripts of
  the same name differ (`OrderIndependentIff`). The function accepts such lists,
  although its default arguments cannot produce one.

## Modelling choices

JSON parsing, canonical encoding, SHA-256 and the UTF-8 encoding of names are
open functions: partial for parsing, injective where a theorem needs it.
Regular expressions and formats are an open dialect, except that the price
pattern is written out where its numbers matter. Bounds are real numbers, and a
constraint on a decimal holds of the number that its text stands for. Dates are
day numbers and datetimes are integer microseconds. Disk, network and clock
outcomes are nondeterministic steps or parameters. A symbolic link is recorded by
where it finally leads, and no two names are hard links to one file. Classes are
identified by their `__name__`, as in the compiler's dictionary; `SchemaNames`
says when that is harmless. A decimal is by definition a text of the price
pattern that conforms to the format, and a date-time one that conforms to its
format, for the type as for the validator: that no other decimal (a negative one,
or one with an exponent) is serialized, and that formats are checked, is taken
from the repository and not proved. An enumeration
is the literal of its values; `typing.List` and `typing.Dict` without arguments
are lists and mappings of `Any`, while the bare builtins `list` and `dict` have
no mapping and raise. The two `WithJsonSchema` overrides in the repository
(packages/core/sediment_core/models.py:50 and 114) repeat `"type": "string"` on a
string and write a pattern or a maximum length, so they are those bounds. Event
identifiers are strings. A `$ref` in the API document is a non-empty string and
its target a dictionary.

## Model

| member | source | states |
|---|---|---|
| SchemaCompiler.ApplyConstraints | scripts/gen_schema_docs.py:1238-1274 | nested metadata is flattened and written in turn: each keyword ends with the last bound written for it or what stood there before, the length keywords are those the annotation selects, every other keyword is untouched, and boolean schemas pass through |
| SchemaLastWins.LastValueWins | scripts/gen_schema_docs.py:1252-1266 | each numeric keyword and the pattern hold the last such bound |
| SchemaLastWins.LastLengthWins | scripts/gen_schema_docs.py:1267-1273 | the selected pair of length keywords holds the last lengths and the other pair is untouched |
| SchemaCompiler.SchemaForType | scripts/gen_schema_docs.py:1329-1431 | terminates on any finite type graph, cyclic or not; the text is the same whatever definitions existed before; the dictionary keeps every earlier entry and gains only complete, reachable ones; failure means an unsupported annotation here or in a reachable class |
| SchemaCompiler.Reference | scripts/gen_schema_docs.py:1397-1405 | a class in progress or already defined is only referenced; otherwise its placeholder is replaced by its complete schema before returning |
| SchemaCompiler.SchemasFor | scripts/gen_schema_docs.py:1352-1387 | union and tuple arguments compile in order over the shared dictionary, with everything they mention defined afterwards |
| SchemaCompiler.ObjectSchema | scripts/gen_schema_docs.py:1277-1326 | the loop yields the closed object of all fields with omitted-null reduction and the required list, and defines every mentioned class |
| SchemaCompiler.GrownThen | scripts/gen_schema_docs.py:1329-1431 | what two successive calls add to the definitions composes |
| SchemaCompiler.GrownRecord | scripts/gen_schema_docs.py:1397-1405 | replacing a placeholder completes the class and everything below it, seen from before the placeholder |
| SchemaDocument.RenderJsonSchema | scripts/gen_schema_docs.py:1434-1447 | succeeds exactly when nothing reachable is unsupported; the result is the root's object with exactly the reachable classes except the root as definitions, and no placeholder |
| SchemaDocument.EntriesAreReachable | scripts/gen_schema_docs.py:1434-1447 | from an empty dictionary, the entries are exactly the reachable classes and each is fully compiled |
| SchemaDocument.RefsEmitted | scripts/gen_schema_docs.py:1329-1431 | the references written for an annotation are exactly the records it mentions |
| SchemaDocument.RefsInObject | scripts/gen_schema_docs.py:1277-1326 | the references in a class's schema are exactly the records its fields mention, also after null branches are removed |
| SchemaDocument.RefsResolveIffAcyclicRoot | scripts/gen_schema_docs.py:1434-1447 | after the root entry is popped, every reference resolves if and only if no chain of fields leads back to the root |
| SchemaDocument.DocumentAcceptsEveryRecord | scripts/gen_schema_docs.py:1206-1447 | no serialized record of the root is rejected, whatever constraints its annotations carry |
| SchemaDocument.DocumentMeansTheType | scripts/gen_schema_docs.py:1206-1447 | when the bounds of the root and the classes reachable from it survive emission and the demands that the compiler does not read follow from what it writes, a value validates against the document if and only if it is a serialized record of the root |
| SchemaFaithful.Accepts | scripts/gen_schema_docs.py:1329-1431 | every serialized value of any annotation that meets its constraints validates, by recursion on the value through cyclic types |
| SchemaFaithful.AcceptsRecord | scripts/gen_schema_docs.py:1277-1326 | every serialized record validates against its class's object schema |
| SchemaFaithful.Rejects | scripts/gen_schema_docs.py:1329-1431 | under the stated discipline only serialized values that meet all constraints validate, the number of a decimal and validators included |
| SchemaFaithful.RejectsRecord | scripts/gen_schema_docs.py:1277-1326 | under the discipline only serialized records validate against the object schema |
| SchemaFaithful.LimitsNeverTighter | scripts/gen_schema_docs.py:1238-1274 | overwriting keywords in any order never rejects a value that meets all bounds |
| SchemaFaithful.KeptBoundsHold | scripts/gen_schema_docs.py:1238-1274 | if each final keyword is at least as tight as each bound, decimals are asked for no more than any price gives and unread demands follow from the annotation and the keywords, all constraints hold |
| SchemaFaithful.HasTypeMeets | scripts/gen_schema_docs.py:1338-1344 | a value of an annotation under some metadata meets that metadata and is a value under less of it |
| SchemaFaithful.HasTypeMore | scripts/gen_schema_docs.py:1338-1344 | metadata that a value meets can be put around its annotation, through wrappers and unions |
| SchemaFaithful.MeetsFlattened | scripts/gen_schema_docs.py:1249-1251 | the flattened constraint list demands exactly what the nested metadata demands |
| SchemaFaithful.WithoutNullKeeps | scripts/gen_schema_docs.py:1206-1216 | removing the null branch rejects nothing but null |
| SchemaFaithful.WithoutNullOnNull | scripts/gen_schema_docs.py:1206-1216 | the reduced schema accepts null exactly when a branch other than the plain null schema does |
| SchemaFaithful.OmittedExact | scripts/gen_schema_docs.py:1206-1216 | when only the plain null branch accepts null and no bound is lost, the reduced schema accepts exactly the values other than null |
| SchemaFaithful.LiteralExact | scripts/gen_schema_docs.py:1219-1235 | a literal or enumeration schema accepts exactly the listed values, with or without the inferred type |
| SchemaFaithful.UnionForm | scripts/gen_schema_docs.py:1352-1356 | a union's schema accepts what some argument's schema accepts, within the limits beside it |
| SchemaFaithful.ArrayForm | scripts/gen_schema_docs.py:1359-1374 | a list or variadic tuple accepts arrays all of whose items conform, within the item limits |
| SchemaFaithful.TupleForm | scripts/gen_schema_docs.py:1364-1387 | a fixed tuple accepts arrays within its arity limits whose items conform position by position |
| SchemaFaithful.MappingForm | scripts/gen_schema_docs.py:1388-1396 | a mapping accepts objects whose values conform and, for direct literal keys, whose keys are listed |
| SchemaFaithful.ObjectForm | scripts/gen_schema_docs.py:1277-1326 | a class's schema accepts exactly objects with only declared keys, each conforming or left out where it may be |
| SchemaFaithful.NullForm | scripts/gen_schema_docs.py:1329-1431 | an emitted schema accepts null exactly when the annotation admits null |
| SchemaFaithful.NullTyped | scripts/gen_schema_docs.py:1329-1431 | null is a serialized value exactly of the annotations that admit it, under metadata that take it |
| SchemaExactness.UnreadDemandsIff | scripts/gen_schema_docs.py:1238-1274 | for every annotation, the schema is exact with demands that the compiler does not read if and only if it is exact without them and no value breaks one |
| SchemaExactness.EmitSame | scripts/gen_schema_docs.py:1238-1274 | what is emitted depends only on the bounds of the metadata |
| SchemaExactness.SortBySort | scripts/gen_schema_docs.py:1238-1274 | where limits stand beside an annotation, its schema is exact if and only if its bounds are for each sort of value and no value breaks an unread demand |
| SchemaExactness.FloatsExactIff | scripts/gen_schema_docs.py:1255-1263 | numbers, where every number is a value: exact if and only if each bound is implied by a surviving keyword or the keywords allow nothing |
| SchemaExactness.IntsExactIff | scripts/gen_schema_docs.py:1255-1263 | the same where exactly the whole numbers are values |
| SchemaExactness.TextsExactIff | scripts/gen_schema_docs.py:1267-1273 | texts without patterns: exact if and only if each length bound is implied by the string keywords or they allow nothing |
| SchemaExactness.ArraysExactIff | scripts/gen_schema_docs.py:1267-1273 | arrays of every length: exact if and only if each length bound is implied by the array keywords or they allow nothing |
| SchemaExactness.ObjectsExactIff | scripts/gen_schema_docs.py:1267-1273 | objects of every size: exact if and only if no length is bounded, since none is written for them |
| SchemaExactTypes.FloatExactIff | scripts/gen_schema_docs.py:1427-1428 | for every constraint list, a float is exact if and only if each bound is implied or nothing is allowed, and no value breaks an unread demand |
| SchemaExactTypes.IntExactIff | scripts/gen_schema_docs.py:1425-1426 | the same for an integer, with bounds rounded to the integers they allow |
| SchemaExactTypes.TextExactIff | scripts/gen_schema_docs.py:1423-1424 | the same for the lengths of a string without patterns |
| SchemaExactTypes.PatternExactIff | scripts/gen_schema_docs.py:1423-1424 | with patterns, and for date-times: exact if and only if every text that the keywords allow meets the metadata |
| SchemaExactTypes.LiteralExactIff | scripts/gen_schema_docs.py:1357-1358 | a literal or enumeration is exact if and only if each listed value meets the constraints, which are dropped |
| SchemaExactTypes.AnyExactIff | scripts/gen_schema_docs.py:1335-1336 | `Any` is exact if and only if its constraints bind nothing |
| SchemaExactTypes.BoolExactIff | scripts/gen_schema_docs.py:1421-1422 | constraints on a boolean bind only through unread demands |
| SchemaExactTypes.NullExactIff | scripts/gen_schema_docs.py:1429-1430 | so do those on null, and `Never` is always exact |
| SchemaExactTypes.IgnoredIff | scripts/gen_schema_docs.py:1388-1430 | where a branch returns without applying the metadata, the schema is exact if and only if every value meets them |
| SchemaExactTypes.ArrayExactIff | scripts/gen_schema_docs.py:1359-1374 | with a value of the item type, an array is exact if and only if each length bound is implied or no length is allowed, and no array breaks an unread demand |
| SchemaExactTypes.EmptyArrayExactIff | scripts/gen_schema_docs.py:1359-1374 | when the item type has no value, the empty array alone decides |
| SchemaExactTypes.TupleExactIff | scripts/gen_schema_docs.py:1375-1387 | with a value of each part, a fixed tuple is exact if and only if no length bound has overwritten its arity and every bound holds there, or no length is allowed, and no tuple breaks an unread demand |
| SchemaExactTypes.MappingDropsLength | scripts/gen_schema_docs.py:1388-1396 | for every constraint list, an open or literal-keyed mapping is exact if and only if no object of it breaks a length bound or an unread demand |
| SchemaExactTypes.NamedKeysExactIff | scripts/gen_schema_docs.py:1390-1396 | literal keys behind an alias or enumeration are enforced if and only if the value type has no value |
| SchemaExactTypes.NamedKeysOpen | scripts/gen_schema_docs.py:1390-1396 | an object with an unlisted key is accepted whatever the constraints |
| SchemaExactTypes.DecimalDropsBounds | scripts/gen_schema_docs.py:1415-1420 | a decimal is exact if and only if every price meets the bounds (at least zero or less, no upper bound, no length beyond one) and none breaks an unread demand |
| SchemaExactTypes.DecimalUnionDropsBounds | scripts/gen_schema_docs.py:1352-1356 | numeric and length bounds around a union hold of its decimals if and only if the price pattern and the length keywords alone imply them, or no price is allowed |
| SchemaExactTypes.PricesImplied | scripts/gen_schema_docs.py:1415-1420 | length keywords imply a list of bounds on all prices exactly when they imply each, the length of a price limiting it from above |
| SchemaExactTypes.UnionExactIff | scripts/gen_schema_docs.py:1352-1356 | a union of exact arguments is exact if and only if its bounds are on each sort and no value breaks an unread demand, with the condition for each sort in terms of the keywords that its first argument selects |
| SchemaExactTypes.IntGives | scripts/gen_schema_docs.py:1352-1356 | an integer argument with no other numbers beside it makes exactly the whole numbers values of the union |
| SchemaExactTypes.PricesNonNegative | packages/export/sediment_export/price_manifest.py:28 | a dialect that reads the price pattern as written gives no price a negative number |
| SchemaExactTypes.ArgumentGives | scripts/gen_schema_docs.py:1352-1356 | which arguments give a union every number, text, array length or object size |
| Prices.PriceBounded | packages/export/sediment_export/price_manifest.py:28 | a price text of a length stands for less than that power of ten |
| Prices.Nines | packages/export/sediment_export/price_manifest.py:28 | the largest price of each length |
| Prices.ZeroPrice | packages/export/sediment_export/price_manifest.py:28 | a price of value zero of each length |
| Prices.PriceValue | packages/export/sediment_export/price_manifest.py:28 | a price is never negative |
| SchemaRanges.EmptyRangeIff | scripts/gen_schema_docs.py:1255-1263 | the four numeric keywords allow no number exactly when two of them cross |
| SchemaRanges.NumbersImplied | scripts/gen_schema_docs.py:1255-1263 | the keywords imply a list of bounds exactly when each is implied by a keyword or nothing is allowed |
| SchemaRanges.IntegersImplied | scripts/gen_schema_docs.py:1255-1263 | the same over the integers |
| SchemaRanges.LengthsImplied | scripts/gen_schema_docs.py:1267-1273 | the same for a pair of length keywords |
| SchemaBoundaries.LaterBoundWins | scripts/gen_schema_docs.py:1252-1263 | two lower bounds on a float are both enforced if and only if the later one is at least the earlier one |
| SchemaBoundaries.ValidatorIsLost | scripts/gen_schema_docs.py:1252-1274 | a string with a validator is exact if and only if the validator refuses no text |
| SchemaBoundaries.FirstArgumentNamesTheLength | scripts/gen_schema_docs.py:1243-1248 | for every union of exact arguments and every constraint list, lengths are enforced on arrays when the first argument is no list or tuple, and on texts when it is, if and only if none is bounded |
| SchemaBoundaries.OmissionCleanIff | scripts/gen_schema_docs.py:1206-1216 | for every union, omitting null keeps exactly the other values if and only if no surviving branch accepts null and a lone surviving branch implies the limits beside the union |
| SchemaBoundaries.LoneBranchDropsLimits | scripts/gen_schema_docs.py:1206-1216 | with one surviving argument, that is if and only if it rejects null and implies the dropped limits |
| SchemaBoundaries.AnyKeepsNull | scripts/gen_schema_docs.py:1206-1216 | `Any` beside null still accepts null after the reduction |
| SchemaBoundaries.OmittedNullDropsBounds | scripts/gen_schema_docs.py:1206-1216 | for an optional number, text or list, that is if and only if no keyword for that sort restricts anything |
| SchemaBoundaries.RecordExactIff | scripts/gen_schema_docs.py:1277-1326 | with a value for every key, the keys of a class agree with its schema on every value if and only if each key does, on its values and its absence |
| SchemaBoundaries.ClassExactIff | scripts/gen_schema_docs.py:1277-1326 | a class means its schema if and only if each key does and no record with typed keys breaks a validator of the class |
| SchemaBoundaries.KeysAlwaysAccepted | scripts/gen_schema_docs.py:1277-1326 | records with typed keys always validate where no key that may be absent is required |
| SchemaBoundaries.RecordDropsLength | scripts/gen_schema_docs.py:1397-1405 | constraints around a record are dropped: with a smallest and a largest record, exact if and only if no size breaks a length bound and no record breaks an unread demand |
| SchemaBoundaries.DocumentExactIff | scripts/gen_schema_docs.py:1434-1447 | a document means its root class if and only if every field of the root does and no validator of the class binds |
| SchemaBoundaries.InheritedTotality | scripts/gen_schema_docs.py:1313-1317 | a typed dictionary with exact keys agrees with its schema on every value if and only if each key has its qualifier outermost or keeps the totality of its class, and no demand on it binds |
| SchemaNames.Definitions | scripts/gen_schema_docs.py:1434-1447 | the walk over classes keyed by name terminates, and its references all lead to the classes that were meant if and only if no reachable names clash |
| SchemaNames.RightIffNoClash | scripts/gen_schema_docs.py:1397-1405 | the same of any dictionary that the walk can leave: no reachable class may have the root's name and no two different ones may share a name |
| SchemaBoundaries.CyclicRootDangles | scripts/gen_schema_docs.py:1434-1447 | for a linked list as root, two nodes are a serialized value that the document rejects |
| Gate.AttemptBudget.TryReserve | scripts/session_context_retrieval_eval.py:69-78 | a reservation is granted below the limit and otherwise counted as declined |
| Gate.GateState.Stop | scripts/session_context_retrieval_eval.py:307-309 | only the first reason is kept |
| Gate.GateState.CountBytes | scripts/session_context_retrieval_eval.py:311-316 | the total always grows; passing the ceiling stops the gate and refuses |
| Gate.GateState.BindSession | scripts/session_context_retrieval_eval.py:409-412 | the first session is kept and any other is refused |
| Gate.StepInv | scripts/session_context_retrieval_eval.py:358-503 | every step of every handler keeps the counters, bytes, records and program points consistent |
| Gate.RunInv | scripts/session_context_retrieval_eval.py:358-503 | so does every interleaving; stop and session are write-once and counters and records only grow |
| Gate.BytesTrack | scripts/session_context_retrieval_eval.py:311-316 | bytes move from counted to pending to written without exceeding what was counted within the ceiling |
| GateTheorems.AttemptsWithinLimit | scripts/session_context_retrieval_eval.py:69-78 | in every reachable state upstream requests per route are within the limit, and forwarded plus declined is the number of attempts that asked |
| GateTheorems.RetainedWithinCeiling | scripts/session_context_retrieval_eval.py:311-316 | in every reachable state the saved request and response bytes are within the total ceiling |
| GateTheorems.OneStopOneSession | scripts/session_context_retrieval_eval.py:297-316 | once set, stop reason and session never change, and every record with a session names that one |
| GateTheorems.ReservationsConserved | scripts/session_context_retrieval_eval.py:358-503 | forwarded is handlers in flight plus records plus refusals after reserving plus lost records, and a refusal implies a stop |
| GateTheorems.IncompleteMeansStopped | scripts/session_context_retrieval_eval.py:492-502 | a record with an error is incomplete and the gate is stopped; a record is incomplete without an error exactly when an exception escaped its own handler |
| GateTheorems.EscapeLeavesGateOpen | scripts/session_context_retrieval_eval.py:492-502 | a run in which an uncaught exception leaves an incomplete record and no stop |
| Gate.StepOwner | scripts/session_context_retrieval_eval.py:381-502 | every record on disk stays that of the finished handler whose identifier it bears |
| GateTheorems.AcceptedTraffic | scripts/session_context_retrieval_eval.py:1915-1934 | acceptance of the preflight leaves exactly the late reservations unrecorded; with none, every reserved attempt finished with status 200, and every model attempt in the one session |
| GateTheorems.LateReservation | scripts/session_context_retrieval_eval.py:1915-1934 | a run whose preflight is accepted although a later attempt has no record |
| JsonLines.Decoder.Feed | scripts/session_context_retrieval_eval.py:95-112 | one feed returns the records and residue that the buffered stream means, or its first error |
| JsonLines.SplitIsPlain | scripts/session_context_retrieval_eval.py:95-112 | the pieces joined by LF are the stream and contain no LF |
| JsonLines.MeaningConcat | scripts/session_context_retrieval_eval.py:95-112 | decoding a prefix and then the residue with the rest equals decoding the whole, errors included |
| JsonLines.ChunkingIsIrrelevant | scripts/session_context_retrieval_eval.py:88-112 | every way of cutting a stream gives the same records and residue or the same first error |
| JsonLines.JudgedRecords | scripts/session_context_retrieval_eval.py:95-112 | success means that every complete line is short enough and parses, with one record for each line in order |
| JsonLines.ReadStream | scripts/session_context_retrieval_eval.py:542-563 | the log is the stream in whole chunks, with a part of the next only where a write failed, and the queue begins the records of a beginning of the log, in order; without an error the log is all of the stream and the queue holds exactly its records |
| JsonLines.ReadEvents | scripts/session_context_retrieval_eval.py:1290-1297 | re-reading returns the log's records, and fails on a partial last record |
| JsonLines.LiveThenSaved | scripts/session_context_retrieval_eval.py:542-563 | when the live read succeeds, re-reading the log reproduces what was queued |
| Rpc.RpcClient.Receive | scripts/session_context_retrieval_eval.py:566-577 | takes the next arrival in order, or raises and takes nothing |
| Rpc.RpcClient.Request | scripts/session_context_retrieval_eval.py:579-595 | sets aside everything but its own response, in order, and returns only on a successful one |
| Rpc.RpcClient.WaitSettled | scripts/session_context_retrieval_eval.py:597-603 | inspects set-aside events and then new ones, each once and in arrival order; returns only at a settled event with no continuation before it |
| Rpc.Drive | scripts/session_context_retrieval_eval.py:566-603 | over any sequence of requests and waits, inspected then pending are exactly the arrivals other than requests' own responses, and each wait used one settled event |
| Rpc.StillSettled | scripts/session_context_retrieval_eval.py:597-603 | a returned wait adds exactly one settled event and no continuation to what was inspected |
| Rpc.NothingBetween | scripts/session_context_retrieval_eval.py:597-603 | no continuation arrived before the settled event that a wait last returned, except as a request's own response |
| Assembly.AssembleHistory | scripts/session_context_retrieval_eval.py:193-231 | succeeds exactly for distinct items that the manifest lists, each found at its place with matching role, finish reason and kind, and none left over; the result holds each entry's parts at its index |
| Assembly.AssembleEntries | scripts/session_context_retrieval_eval.py:199-228 | each entry must be the next index of its side and each listed part present |
| Assembly.AssembleParts | scripts/session_context_retrieval_eval.py:204-221 | the parts of one entry, each used once |
| Assembly.LookupSize | scripts/session_context_retrieval_eval.py:193-196 | the dictionary has as many entries as items exactly when no reference repeats |
| AssemblyRoundTrip.DecomposeThenAssemble | scripts/keyword_streaming_benchmark.py:196-207 | decomposing any call, permuting the items and assembling gives the call back |
| AssemblyRoundTrip.CaptureThenAssemble | scripts/session_context_retrieval_eval.py:1170-1190 | so does reading its references in batches with replies in any order |
| AssemblyRoundTrip.ReadInBatches | scripts/session_context_retrieval_eval.py:1175-1189 | batches of 32 references together fetch every reference once |
| AssemblyRoundTrip.RefsOfCall | scripts/session_context_retrieval_eval.py:1170-1174 | the manifest's references in reading order are those of the call's items in order |
| AssemblyRoundTrip.SuccessIsBijection | scripts/session_context_retrieval_eval.py:193-231 | success means an exact bijection between listed references and items |
| ToolCycles.PreflightToolCycles | scripts/session_context_retrieval_eval.py:1694-1776 | succeeds exactly when some assignment of ends, calls and consumptions satisfies the specification; the result is one, and no other consumes any result earlier |
| ToolCycles.GreedyWins | scripts/session_context_retrieval_eval.py:1694-1776 | the choices of the loop form a matching that is earliest at every cycle |
| ToolCycles.StuckMeansNone | scripts/session_context_retrieval_eval.py:1694-1776 | where the loop gives up, no assignment exists |
| ToolCycles.EndsUsed | scripts/session_context_retrieval_eval.py:1694-1776 | non-overlapping cycles use every end exactly when there are as many ends as cycles |
| ToolCycles.StartsUsed | scripts/session_context_retrieval_eval.py:1694-1776 | and every start exactly when they begin at the starts in order |
| ToolCycles.FirstConsumer | scripts/session_context_retrieval_eval.py:1748-1762 | the earliest later history that carries the result, if any does |
| Trajectory.RetrievalObservations | scripts/session_context_retrieval_eval.py:1325-1369 | hits are those of completed retrievals, and later work holds exactly when some work start follows complete evidence |
| Trajectory.FlagsNeverRevert | scripts/session_context_retrieval_eval.py:1325-1369 | a longer log never takes a flag back |
| Trajectory.CapturedTrajectory | scripts/session_context_retrieval_eval.py:1372-1392 | true exactly when a work call follows responses that jointly hit both kinds |
| Trajectory.LookupBeforeWork | scripts/session_context_retrieval_eval.py:1395-1433 | true exactly when a matched retrieval completed before the first work start |
| Trajectory.DecidedByPrefix | scripts/session_context_retrieval_eval.py:1395-1433 | logs that agree up to the first work start agree on the lookup |
| Verdict.Evaluate | scripts/session_context_retrieval_eval.py:234-294 | complete, feasible and benefit are the order-free properties: nine distinct runs, all C runs pass, some verified settled A run misses |
| Verdict.OrderIsIrrelevant | scripts/session_context_retrieval_eval.py:234-294 | permuting the records changes no flag |
| Verdict.AllPassed | scripts/session_context_retrieval_eval.py:234-294 | for complete records, three passes means that all C runs pass |
| Verdict.PairedIsMiss | scripts/session_context_retrieval_eval.py:234-294 | when feasible, a paired failure in some repetition is any A run that misses |
| Verdict.RunOrderSuffices | scripts/session_context_retrieval_eval.py:1653-1684 | the run order supplies every arm and repetition once |
| Workload.RoundedWithinHalf | sim/capacity_workload.py:137-149 | the microsecond quotient is nearest, ties to even |
| Workload.StrictlyIncreasing | sim/capacity_workload.py:137-149 | for every valid profile, later calls have strictly later timestamps despite rounding |
| Workload.WithinWindow | sim/capacity_workload.py:137-149 | every timestamp lies in the window from the anchor less the weeks up to, not including, the anchor |
| Workload.WeekOfCall | sim/capacity_workload.py:137-149 | a call falls in a week exactly when its index is among that week's calls |
| Workload.WeeklyShare | sim/capacity_workload.py:137-149 | each week holds exactly sessions per week times calls per session observations |
| GrowingHistory.Body | sim/capacity_workload.py:152-153 | a body has exactly the requested size |
| GrowingHistory.SessionScript | sim/capacity_workload.py:172-187 | every user body of a session has the history size and every assistant body the output size |
| GrowingHistory.GatewayEnvelope | sim/capacity_workload.py:156-196 | the envelope of a call index is that turn of its session: quotient and remainder place it, and the answers it replays are the outputs of the earlier indices |
| GrowingHistory.Accumulate | scripts/storage_history_benchmark.py:77-106 | accumulating one list gives the same calls at every turn |
| GrowingHistory.VerifyPrefix | scripts/session_context_retrieval_eval.py:865-880 | returns the last call exactly when every earlier input and output is a prefix of its input |
| GrowingHistory.EarlierIsPrefix | sim/capacity_workload.py:172-187 | each earlier input and output is a prefix of every later input |
| GrowingHistory.GeneratedVerifies | scripts/session_context_retrieval_eval.py:865-880 | every Session that the accumulating generator builds passes the prefix check |
| GrowingHistory.EnvelopesVerify | scripts/session_context_retrieval_eval.py:865-880 | so do the first calls of any session built from their indices alone, and they are the same calls |
| GrowingHistory.CallTotals | scripts/storage_history_benchmark.py:255-256 | text and parts of one call |
| GrowingHistory.SessionTotals | scripts/capacity_rehearsal.py:48-52 | text and parts summed over a Session meet the declared closed forms |
| GrowingHistory.OncePlusReplayed | scripts/storage_history_benchmark.py:472-480 | the text of each turn plus the text of the messages it replays is all the text, and the two sums meet the reported formulas |
| GrowingHistory.ReplayedIsPrevious | scripts/storage_history_benchmark.py:77-106 | what a turn replays is exactly the inputs and output of the call before it |
| SortedNames.StrictUnique | scripts/rescan_releases.py:79-110 | a sorted listing does not depend on discovery order |
| Checksums.ParseRendered | scripts/rescan_releases.py:155-170 | written checksum lines read back as the same names and digests |
| Release.InventorySet | scripts/rescan_releases.py:76-110 | succeeds exactly when every inventory checks, no key repeats and the keys are complete; lists the inventories in order |
| Release.SixOrEight | scripts/rescan_releases.py:76-110 | an accepted set has six inventories, or eight when retired ones are allowed |
| ReleaseBundle.CheckEvidence | scripts/rescan_releases.py:113-144 | the evidence that bundling demands before writing |
| ReleaseBundle.ListSums | scripts/rescan_releases.py:155-159 | one checksum line for every safe regular file in name order, or failure |
| ReleaseBundle.Directory.Bundle | scripts/rescan_releases.py:113-160 | the directory afterwards, links followed: success exactly when the evidence holds, both files can be written and every other entry is a safe regular file; metadata is left behind when a bad name is found late |
| ReleaseBundle.CheckSums | scripts/rescan_releases.py:163-179 | the checksum file covers exactly the other files, once each, with matching digests |
| ReleaseBundle.VerifyRelease | scripts/rescan_releases.py:163-195 | accepts exactly covered directories in their support window with consistent inventories, reading the checksum file through a link, and returns six or eight |
| ReleaseRoundTrip.BundleRoundTrip | scripts/rescan_releases.py:113-195 | a bundled release verifies on exactly the days of its window, with the same inventories, if and only if no inventory lists a stale digest of a rewritten file and the checksum file is no link to another asset |
| ReleaseRoundTrip.LinkedSumsFails | scripts/rescan_releases.py:155-160 | a checksum file that links to another asset makes the release fail on every day |
| ReleaseRoundTrip.UnlistedRoundTrip | scripts/rescan_releases.py:113-195 | when no inventory lists the rewritten files and the checksum file links to no entry, bundling then verifying always succeeds within the window |
| ReleaseRoundTrip.StaleListingFails | scripts/rescan_releases.py:113-195 | an inventory with a stale digest of the metadata makes the release fail on every day |
| ReleaseExample.StaleExample | scripts/rescan_releases.py:113-195 | a concrete release that bundling accepts and verification refuses on every day because of stale digests |
| ReleaseExample.LinkedExample | scripts/rescan_releases.py:113-195 | a concrete release that bundling accepts and verification refuses on every day because of a linked checksum file |
| RequestWalker.RequestDefinitions | scripts/gen_api_docs.py:698-742 | the walk ends on any reference graph and its sections are exactly the object schemas reachable by reference from request bodies |
| RequestWalker.Walker.Visit | scripts/gen_api_docs.py:702-717 | one visit adds exactly what the node reaches, and sections for the objects among it |
| RequestWalker.Walker.Follow | scripts/gen_api_docs.py:707-714 | following a reference visits its target once, cycles included |
| RequestWalker.LinkIsReached | scripts/gen_api_docs.py:566-577 | an object link that a field's type writes leads to an object that the request bodies reach |
| RequestWalker.LinksHaveSections | scripts/gen_api_docs.py:674-742 | every object link in a body table or nested table has a section of its name, unless a `$ref` stands beside the properties, and it shows the linked object when no different object of that name is reached |
| RequestWalker.AllShownIff | scripts/gen_api_docs.py:698-742 | the section of every reached object shows that object if and only if no two different reached objects share a name |
| RequestWalker.ClashHidesOne | scripts/gen_api_docs.py:707-714 | two references with one last segment to different objects, of which the page shows only one |
| RequestWalker.SiblingPropertiesAreSkipped | scripts/gen_api_docs.py:702-717 | a body with properties beside `$ref` whose link has no section |
| ProcessClosure.ExpandUntilEqual | scripts/agent_evidence_benchmark.py:292-299 | terminates with exactly the root and its descendants |
| ProcessClosure.AddUntilIncluded | scripts/capacity_rehearsal.py:219-224 | terminates with exactly the root and its descendants |
| ProcessClosure.TreeIsLeast | scripts/agent_evidence_benchmark.py:286-304 | the two loops agree on every process table, and the set is the least one with the root closed under children |
| ProcessClosure.MemorySampler.Sample | scripts/agent_evidence_benchmark.py:284-305 | one sample raises the peak by the memory of the whole tree and counts the descendants |
| ProcessClosure.Monitor.Sample | scripts/capacity_rehearsal.py:208-246 | one sample raises the peak by the memory of the same tree |
| Framing.FramesAreRead | scripts/security_image_assurance.py:102-111 | the hashed bytes decode to every file in order, for both framings |
| Framing.FramesInjective | scripts/security_image_assurance.py:102-111 | the hashed bytes determine the names, executable bits and contents |
| Framing.TreeDigest | scripts/security_image_assurance.py:102-111 | succeeds exactly for regular files whose lengths fit, and hashes them in name order |
| Framing.TreeDigestsAgree | scripts/security_image_assurance.py:102-111 | two trees have equal digests if and only if they are the same tree |
| Framing.MigrationDigest | conftest.py:54-65 | succeeds exactly for a non-empty list whose lengths fit, and hashes it in stable name order |
| Framing.MigrationDigestDetermines | conftest.py:57-65 | equal digests mean the same scripts with the same contents |
| Framing.SortIsStable | conftest.py:57 | sorting keeps scripts of one name in their order |
| Framing.OrderIndependentIff | conftest.py:57-65 | discovery order is irrelevant if and only if no two scripts of one name differ |

## Left out

- SchemaFaithful.Rejects: its discipline is sufficient for whole annotations; the exact conditions are the equivalences for each kind of annotation in `SchemaExactTypes` and for classes in `ClassExactIff`, which take a value of each item type. Where patterns or unread demands are involved the condition speaks of the texts and values they allow, because regular expressions and validators are open.
- SchemaFaithful.Accepts: demands that a key that may be absent is not listed as required; `InheritedTotality` shows why.
- SchemaExactTypes.DecimalUnionDropsBounds: supposes no patterns around the union, because regular expressions are open.
- SchemaBoundaries.ClassExactIff: where a class has validators of whole records, supposes that records with typed keys validate, which `KeysAlwaysAccepted` proves for classes without the inherited-totality fault.
- RequestWalker.LinksHaveSections: states the section for schemas without `$ref` beside their properties; the other case is `SiblingPropertiesAreSkipped`.
- ReleaseRoundTrip.BundleRoundTrip: supposes that the text of the checksums does not collide with that of an asset, which matters only where `SHA256SUMS` links to one.
- `WithJsonSchema` overrides other than those above, bounds on datetimes, recursive type aliases and generic records in the schema compiler.
- Markdown rendering of schema, API and CLI documentation, which is presentation.
- HTTP, Docker, git, subprocess and PostgreSQL handling: only the state they read and write is modelled.
- How a retrieval result is scored against the gold references: an open function of the result in the trajectory folds.
- Wheel contents, static-analysis evidence, gate files and SBOM formats: open predicates of the directory or text.
- Discovery of the files of the production source tree: the digest starts from the set of paths it collected.
- FactStore, derivation, export and delivery of captured evidence.
- `scripts/release_rehearsal.py`, `scripts/security_policy.py`, `scripts/ci_preflight.py`, `scripts/cursor_enterprise_fixture.py` and the checkout shims: mostly conjunctions over single records.
- Workspace size, free space and job fields of the capacity monitor, wall-clock limits and real hash strength.
- The reading side of usage totals and workspace validation in the evaluation script, which would only add easy members.
