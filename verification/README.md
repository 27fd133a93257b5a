# Millforge, verified

A Dafny model of the deterministic core of Millforge, with proofs about it. `dafny verify
dfyconfig.toml` checks all of it.

## What is modelled

**Canonical JSON** (`JsonText`, `JsonNumber`, `Json`, `JsonGrammar`, `JsonSpelling`, `JsonRoundTrip`,
`JsonCompact`, `JsonCanonical`). Python
strings are sequences of code points, lone surrogates included; a dict is its members in insertion
order; a float is its `repr`, an opaque lexeme. The printer (`sort_keys`, `ensure_ascii`, compact
separators) and the readers built on `json.loads` are written out character by character, so that
printing and reading can be proved to undo each other. `JsonSpelling.Spells` is the grammar of RFC 8259
(sections 2 to 7), with the constants Python adds, as a relation between texts and values. It shares
nothing with the reader; the reader is proved to decide it, and the printer to write its one compact
spelling.

**Selected outputs** (`Schema`, `SchemaWellFormed`, `SchemaNormalForm`, `SchemaValidator`,
`SchemaAgreement`, `SchemaMismatch`, `SchemaCanonical`, `SchemaPinning`, `SchemaNames`, `SchemaAdmission`,
`SchemaDisordered`). The closed JSON-schema subset: normalization of a schema, the payload ceilings, the validator that runs a normalized schema, the
requirement that pins a schema by the digest of its canonical text, and admission end to end.
`SchemaValidator.Satisfies` is the independent meaning of a schema as it was written; it shares nothing
with the validator. `SchemaWellFormed.WellFormed` says in the same way which schemas are admitted,
`SchemaNormalForm.NormalOf` what the normalized schema is, and `SchemaMismatch.FaultAt` where a payload
first departs from a schema. The hash is a function parameter.

**Bounded text** (`Utf8`, `Context`, `Redaction`, `RedactionShape`, `RedactionSecrecy`,
`RedactionExposure`). UTF-8 as
section 3 of RFC 3629 defines it, truncation between characters, the context-file allocator, and
redaction: a budget object and a set of containers being visited, both updated in place by a recursive
walk over a value graph that may be cyclic. `Redaction.Redact` is the specification of that walk; its
bounds are proved, what stands at each position of its result (`RedactionShape.Shows`), and when the
result depends on values below sensitive keys. A sensitive key is one
that is sensitive as it was given.

**Message histories** (`History`), **prerequisite graphs** (`Prerequisites`) and **compiled plans**
(`Plan`): the acceptance loop over tool calls and their results, depth-first search with a shared
visited set, the terminal-gated producers built on it, and the checker that collects violations.

**Artifacts** (`ArtifactWriter`, `Jsonl`, `JsonlReading`). A writer object over a disk object. Every write
may fail before, during or after the temporary file is filled. Runs are sequences of calls of the writer as
its methods are specified.

**The compact eval** (`Workflow`, `Closure`, `Scorer`, `Reports`, `ReportCounts`, `Wilson`): the four-stage state
machine, the closure gates, the scorer, the report's counts, and the Wilson interval over the reals
for any square-root function.

**Ordering** (`Ordering`, `Terminals`): Python's `sorted`, and the one order of terminal results.

`Basics` holds shared datatypes. A method models code that updates variables; it is proved against a
function or predicate, and the results are then proved about that.

## Where the code does less than its documentation suggests

- `ensure_ascii` writes a lone high surrogate followed by a lone low one exactly like the code point
  they spell together, so canonical bytes do not determine a Python value. Printing and reading undo
  each other exactly on values without such a pair (`JsonCanonical.CanonicalRoundTrip`), which covers
  every value that was itself read from JSON text (`JsonCanonical.StrictTextsSettle`).
- For the same reason a schema handed over as a Python mapping can be rejected by its own digest:
  merging surrogate pairs may change the order of property names. This happens exactly when some object
  node's names do not keep their order (`SchemaAdmission.PinAcceptsExactly`), and there is
  such a schema (`SchemaDisordered.DisorderedRejected`). Schemas given as JSON text are never rejected
  (`SchemaAdmission.TextSchemaPins`).
- A manifest handed to the artifact writer as a validated model, or as a mapping that is not a `dict`, is
  not checked against what was written, so it may list artifacts that do not exist
  (`ArtifactWriter.StaleManifest`). A manifest handed over as a `dict` always lists exactly the tracked
  artifacts.
- Report inputs may hold several records of one trial. Validation accepts them, but building the
  report then raises when an arm's failures outnumber the planned trials
  (`Reports.MetricsBuiltExactly`, `Reports.DuplicateRecordsRaise`).
- A dict key is checked for sensitivity after it has been cut to `max_string_length` and charged to the
  redaction budget, so a sensitive key is treated as harmless when either cut makes it look so. A key that
  `max_string_length` cut is charged like any other and leaves the rest of the budget to what follows: with
  three characters and 32768 bytes, the text below the key `token` is shown
  (`RedactionExposure.TokenTextShown`, and for every such key `RedactionExposure.TextShown`). With a budget
  for key and replacement, the value of a single entry with a sensitive key is hidden if and only if the key
  still looks sensitive once it is cut to `max_string_length` (`RedactionExposure.SurvivesExactly`). When all sensitive keys of a graph do, no text below them shows
  whatever the budget (`RedactionSecrecy.SecretTextsHidden`), and nothing at all with a budget that covers
  what the value needs (`RedactionExposure.SufficientBudgetHides`). A smaller budget may cut such a key and
  show numbers and the shape of containers below it: with three bytes, the number below `token`
  (`RedactionExposure.TokenShown`). `RedactionExposure.HiddenExactly` and
  `RedactionExposure.NumbersHiddenExactly` say when that happens in a whole graph.
- Two closure gates, on the terminal path and on open acceptance checks, cannot fire once the arbiter's
  verdict is validated (`Closure.DeadGates`).

## Model

| member | source | states |
|---|---|---|
| JsonText.TextRoundTrip | src/millforge/compiled_plan.py:809-820 | for every Python string, the escaped literal reads back as the string with its surrogate pairs merged, leaving whatever follows unread |
| JsonText.ReadTextPairFree | src/millforge/contracts.py:210-226 | no string literal, however spelled, is ever read as a string holding an unmerged surrogate pair |
| JsonText.EscapeMerge | src/millforge/compiled_plan.py:809-820 | merging surrogate pairs does not change the escaped text: the printer cannot tell them apart |
| JsonGrammar.LiteralRead | src/millforge/contracts.py:210-226 | every string literal of RFC 8259 section 7, with any escape and either case of hexadecimal digits, is read up to its closing quote as the text it spells, pairs joined |
| JsonGrammar.LiteralSpelled | src/millforge/contracts.py:210-226 | whatever string literal is read is one of that grammar and spells what was read |
| JsonGrammar.NumeralRead | src/millforge/contracts.py:210-226 | every number of RFC 8259 section 6 is read to its end, and as a float exactly when it has a fraction or an exponent |
| JsonGrammar.NumeralSpelled | src/millforge/contracts.py:210-226 | whatever number is read is one of that grammar |
| JsonSpelling.LoadExactly | src/millforge/contracts.py:210-226 | the reader without the strictness checks, keeping every pair of a dict, returns a value for a text if and only if the text spells it by the grammar of RFC 8259 with Python's constants: any of the four space characters around tokens, and nothing else after the value |
| JsonSpelling.StrictExactly | src/millforge/contracts.py:210-226 | the strict reader returns a value for a text if and only if the text spells it, it is finite, and no dict in it has a key twice |
| JsonRoundTrip.ReadRendered | src/millforge/compiled_plan.py:809-820 | a printed value followed by any delimiter is read back, up to that delimiter, as its merged form |
| JsonCompact.PrintedExactly | src/millforge/compiled_plan.py:809-820 | a text is the printed text of a finite value if and only if it is the compact spelling of it: no space, short escapes where there are any, lower-case hexadecimal for all else outside printable ASCII |
| Json.RejectDuplicateKeys | src/millforge/contracts.py:188-197 | the pairs hook succeeds exactly when no key is repeated, and then keeps every pair in order |
| Json.StrictIsRawThenChecked | src/millforge/contracts.py:244-258 | the strict reader accepts exactly the texts whose pair-preserving reading passes the raw strictness check, and reads the same value |
| JsonCanonical.SerializeIsCanonical | src/millforge/compiled_plan.py:809-820 | serialization succeeds exactly on finite values, integers being of a length the runtime prints; its text is printable ASCII, so the line-ending replacement never changes anything |
| JsonCanonical.CanonIdempotent | src/millforge/compiled_plan.py:809-820 | sorting keys throughout is idempotent on Python values |
| JsonCanonical.CanonIgnoresOrder | src/millforge/compiled_plan.py:809-820 | dicts with the same members in any order have one canonical form |
| JsonCanonical.LoadCanonical | src/millforge/contracts.py:1175-1176 | reading a canonical text gives the key-sorted value with its surrogate pairs merged |
| JsonCanonical.CanonicalRoundTrip | src/millforge/compiled_plan.py:809-820 | printing canonically and reading strictly returns exactly the key-sorted value if and only if the value holds no unmerged surrogate pair |
| JsonCanonical.CanonicalInjective | src/millforge/contracts.py:317-318 | equal canonical texts mean equal values, up to key order and surrogate pairs; 1, 1.0 and true stay apart |
| JsonCanonical.SameText | src/millforge/compiled_plan.py:809-820 | two values print alike exactly when they agree up to surrogate pairs |
| JsonCanonical.SurrogatePairCollides | src/millforge/compiled_plan.py:809-820 | two different values with one canonical text |
| JsonCanonical.StrictTextsSettle | src/millforge/contracts.py:210-226 | whatever JSON text is read strictly, its canonical text reads back as the same key-sorted value and prints as itself |
| SchemaWellFormed.WellFormedExactly | src/millforge/contracts.py:321-463 | normalization admits a schema, at any depth, if and only if it is well formed: each kind with its own keywords only, const and enum not both, additionalProperties exactly false, at most 64 properties with names within the ceiling, required distinct strings naming properties, items present, integer bounds with 0 <= min <= max <= ceiling, const and enum values admissible for the kind, and nesting within the limit |
| SchemaNormalForm.NormalizedMeans | src/millforge/contracts.py:321-463 | what normalization returns, member by member: kind, constraint, bounds and constants as written, properties and required names sorted, enum values sorted by their canonical bytes |
| Schema.CanonicalizeEnum | src/millforge/contracts.py:434-462 | the enum loop succeeds exactly on 1 to 64 admissible scalars with pairwise different canonical bytes, and returns them sorted by those bytes |
| SchemaValidator.PayloadAdmission | src/millforge/contracts.py:495-532 | payload normalization accepts exactly the values whose depth, sizes, strings and numbers all the way down are within the global ceilings, and returns them unchanged |
| SchemaAgreement.Agreement | src/millforge/contracts.py:1307-1396 | for every admitted schema and bounded payload, the validator on the normalized schema never crashes, and finds no mismatch exactly when the payload satisfies the schema as it was written |
| SchemaMismatch.MismatchLocated | src/millforge/contracts.py:1307-1396 | the path of a reported mismatch leads to the first fault of the payload against the schema as it was written |
| SchemaCanonical.SpellingDoesNotMatter | src/millforge/contracts.py:321-463 | schemas that differ only in the order of keys, properties, required names or enum values, or in spelling out an empty properties or required, are either both refused or both admitted with one canonical form |
| SchemaPinning.ReloadedSettles | src/millforge/contracts.py:1168-1200 | a normalized schema, printed, loaded and normalized again at the same depth, is admitted and prints the same, when its reloaded names are in order |
| SchemaNames.ReloadedInOrder | src/millforge/contracts.py:383-394 | the reloaded schema's keys are in order exactly when merging surrogate pairs keeps the order of the names at every object node of the schema as written |
| SchemaAdmission.NormalizedKept | src/millforge/contracts.py:321-463 | normalization returns finite Python values with distinct keys and introduces no surrogate pair |
| SchemaAdmission.PinSettlesExactly | src/millforge/contracts.py:1168-1200 | canonicalizing the loaded schema gives the pinned bytes again if and only if its names keep their order |
| SchemaAdmission.PinAcceptsExactly | src/millforge/contracts.py:1191-1200 | a schema whose names keep their order is pinned with the digest of its canonical bytes; any other is rejected by its own digest check unless two different texts have one digest |
| SchemaDisordered.DisorderedNames | src/millforge/contracts.py:383-394 | a schema that normalization admits and whose names do not keep their order |
| SchemaDisordered.DisorderedRejected | src/millforge/contracts.py:1191-1200 | that schema is canonicalized within the byte ceiling and then rejected by its own digest check, unless two different texts have one digest |
| SchemaAdmission.PairFreeSchemaPins | src/millforge/contracts.py:1168-1200 | a schema without surrogate pairs is always pinned, as its canonical form |
| SchemaAdmission.TextSchemaPins | src/millforge/contracts.py:466-485 | a schema given as strict JSON text is never rejected by its own digest |
| SchemaAdmission.VerdictOnCanon | src/millforge/contracts.py:1307-1396 | sorting the keys of a schema changes no verdict, not even the path of the mismatch |
| SchemaAdmission.PinnedAgreement | src/millforge/contracts.py:1297-1301 | whenever names keep their order, surrogate pairs included, the validator decides the meaning of the schema the requirement carries; without surrogate pairs, that of the schema that was handed in |
| SchemaAdmission.AdmittedExactly | src/millforge/contracts.py:1274-1304 | a candidate is admitted exactly when it is absent and optional, or within the ceilings, at most 1 MiB in canonical bytes, and an instance of the schema the requirement carries, which without surrogate pairs means an instance of the schema it was made from; it is admitted unchanged |
| SchemaAdmission.SatisfiesCanon | src/millforge/contracts.py:1307-1396 | whether a payload is an instance of a schema does not depend on its key order |
| SchemaAdmission.VerdictIgnoresKeyOrder | src/millforge/contracts.py:1307-1396 | payloads that differ only in key order get the same answer from the validator |
| Utf8.DecodeCut | src/millforge/base/context.py:34-40 | cutting a UTF-8 encoding at any byte and decoding it, ignoring errors, gives the longest prefix of characters that fits |
| Utf8.DecodeEncode | src/millforge/base/context.py:34-40 | decoding undoes encoding |
| Utf8.FrontExact | src/millforge/base/context.py:34-40 | a character is decoded at the front of any bytes exactly where its encoding stands, so no overlong form and no surrogate is |
| Utf8.TruncationExact | src/millforge/base/context.py:34-40 | truncation returns the longest prefix, cut between characters, that fits the limit; it changes nothing exactly when the text fits |
| Utf8.ByteOrder | src/millforge/contracts.py:1239 | comparing UTF-8 bytes and comparing code points order any two texts alike |
| Context.Allocate | src/millforge/base/context.py:187-227 | the included contents together are the truncation of all contents together to 49152 bytes; each record describes its file in order, only the last can be cut, and the flag is set exactly when some file is not included whole |
| Context.LongestPrefix | src/millforge/base/context.py:187-227 | those contents are the longest prefix of all contents, cut between characters, that fits |
| Redaction.Budget.Take | src/millforge/contracts.py:1688-1703 | one text is charged to the budget as specified, and what is used never exceeds the limit |
| Redaction.ChargeMeans | src/millforge/contracts.py:1693-1703 | a text is kept whole when it fits the rest of the budget, otherwise its longest fitting prefix is kept and marked, and an empty budget gives the bare marker |
| Redaction.Walk.RedactValue | src/millforge/contracts.py:1833-1917 | the in-place walk computes the specified redaction, leaves the budget as specified, and restores the set of containers being visited |
| Redaction.RedactDiagnostic | src/millforge/contracts.py:1775-1792 | the entry point redacts with a fresh budget and nothing visited |
| RedactionShape.RedactionShows | src/millforge/contracts.py:1833-1917 | the result by position, whatever the budget: list element i is the image of the i-th value and a cut list ends with the truncation mark; dict entries stand in order under their shown keys, a key written twice keeping its first place and last value; a container being visited and the depth limit give their marks; strings and opaque values give their redacted text as the rest of the budget pays for it; scalars give themselves |
| RedactionShape.RedactionMirrors | src/millforge/contracts.py:1833-1917 | when the budget exceeds what the value needs, the result is that image with no text cut, and exactly the needs are charged |
| Redaction.RedactGuaranteed | src/millforge/contracts.py:1833-1917 | at any point of the walk, what a value adds to the output in bytes beyond one marker per string is covered by what it is charged |
| Redaction.RedactionBounded | src/millforge/contracts.py:1833-1917 | for every value graph, cycles included, the result nests at most max_depth containers of at most max_collection_items + 1 entries with distinct keys, and all its strings take at most max_total_bytes plus 11 bytes per string |
| RedactionSecrecy.SecretTextsHidden | src/millforge/contracts.py:1833-1917 | when every sensitive key of a graph still looks sensitive cut to max_string_length, graphs that differ only in texts below sensitive keys, and in texts with equal redacted form, redact to the same value, whatever the budget |
| RedactionExposure.FittingKeyHides | src/millforge/contracts.py:1869-1881 | below a key that looks sensitive cut to max_string_length and fits in what the budget has left, any value, containers included, becomes the replacement |
| RedactionExposure.ItemHiddenExactly | src/millforge/contracts.py:1828-1881 | for any key, sensitive or not, what an entry becomes is the same for every value if and only if the form of the key the walk looks at, cut to max_string_length and to the budget, is sensitive, or the depth allows no value |
| RedactionExposure.NumberShownExactly | src/millforge/contracts.py:1828-1881 | a number is shown if and only if the form of its key the walk looks at, cut by the string length or by the budget or not at all, is not sensitive, and the depth allows it |
| RedactionExposure.TextShownExactly | src/millforge/contracts.py:1828-1881 | two texts of different redacted form that fit can be told apart if and only if the form of their key the walk looks at is not sensitive, the depth allows it, and the key leaves budget |
| RedactionExposure.HiddenExactly | src/millforge/contracts.py:1833-1917 | a value left in the result below a sensitive key that the walk saw in a harmless form means that the result depends on what stands below sensitive keys; if all sensitive keys survive the cut to max_string_length, or no mapping writes a key twice, the result depends on it only then |
| RedactionExposure.NumbersHiddenExactly | src/millforge/contracts.py:1833-1917 | among all graphs with numbers below their sensitive keys, the result never changes if and only if no number from there is left in it |
| RedactionExposure.NeedsCharged | src/millforge/contracts.py:1833-1917 | while what a value needs, counted on the input without any budget, fits in the budget, exactly that is charged; if all sensitive keys survive the cut to max_string_length, no value from below one is left in the result |
| RedactionExposure.SufficientBudgetHides | src/millforge/contracts.py:1775-1792 | when what the value needs fits in max_total_bytes and all its sensitive keys survive the cut to max_string_length, nothing below a sensitive key influences the result |
| RedactionExposure.NumberShown | src/millforge/contracts.py:1775-1792 | for every sensitive key that the walk looks at in a harmless form, a graph whose redaction shows the number below it |
| RedactionExposure.TextShown | src/millforge/contracts.py:1775-1792 | for every sensitive key that does not survive the cut to max_string_length, a graph whose redaction shows the text below it, though the budget covers all the value needs |
| RedactionExposure.SurvivesExactly | src/millforge/contracts.py:1828-1881 | with a budget for key and replacement, the value of a single entry with a sensitive key is hidden if and only if the key survives the cut to max_string_length |
| RedactionExposure.TokenShown | src/millforge/contracts.py:1775-1792 | a concrete policy and graph: three bytes, and the number below the key token is shown |
| RedactionExposure.TokenTextShown | src/millforge/contracts.py:1775-1792 | a concrete policy and graph: strings of three characters and 32768 bytes, and the text below the key token is shown |
| History.Accept | src/millforge/contracts.py:2158-2178 | the loop accepts exactly the histories with distinct call ids, every result answering an earlier call by id and name, and no call answered twice; a refusal names what is wrong with the first message that does not fit |
| History.PrefixWellFormed | src/millforge/contracts.py:2158-2178 | every prefix of an acceptable history is acceptable |
| Prerequisites.Search.Visit | src/millforge/eval_presets.py:1203-1209 | one visit adds only ids reachable from its node, explores all of what it adds, and fails only on reaching an id no node has |
| Prerequisites.GraphEdges | src/millforge/eval_presets.py:1203-1209 | an edge leads from one id to another exactly when the last listed node of the first lists the second as a prerequisite |
| Prerequisites.ProducerIsLast | src/millforge/eval_presets.py:1166-1195 | the producer of an artifact is the last listed node that produces it |
| Prerequisites.TerminalIsLast | src/millforge/eval_presets.py:1166-1195 | the node of a terminal result is the last listed one with it |
| Prerequisites.TransitivePrerequisites | src/millforge/eval_presets.py:1198-1212 | the search ends on every graph, cyclic ones included, and returns exactly the ids reachable by one or more edges; it raises exactly when the start or some reachable id is not listed |
| Prerequisites.TerminalGatedArtifactProducers | src/millforge/eval_presets.py:1166-1195 | for every requirement, the evidence is, in the order of its artifacts, the last listed producer of each artifact that a path of prerequisites between listed nodes leads to from the last listed node of its terminal result; it raises exactly when such a path leads to an id no node has |
| Prerequisites.LengthCheckExact | src/millforge/eval_presets.py:1325-1333 | the readiness check on lengths passes exactly when a path of prerequisites leads from the terminal node to the last listed producer of every required artifact |
| Plan.ValidatePlanInvariants | src/millforge/compiled_plan.py:463-552 | the nested loops report exactly the violations the plan has |
| Plan.NoViolationsExact | src/millforge/compiled_plan.py:463-552 | nothing can be reported exactly when the plan is well formed |
| Plan.TerminalIsLast | src/millforge/compiled_plan.py:463-552 | the terminal node of an id that counts is the last listed one |
| Plan.TerminalMapBijective | src/millforge/compiled_plan.py:446-454 | on a plan without violations whose map values are unique, the terminal map is a bijection between terminal nodes and terminal results, and every terminal requirement names one of them |
| ArtifactWriter.Writer.AtomicWrite | src/millforge/artifacts.py:163-209 | whatever fails, the files afterwards are as specified: on success only the target changes, on failure at most the temporary file is left behind |
| ArtifactWriter.Writer.WriteArtifact | src/millforge/artifacts.py:282-301 | one write, with the metadata tracked exactly when it succeeds |
| ArtifactWriter.ResolveExact | src/millforge/artifacts.py:120-157 | a reference resolves exactly when its path is relative, without `..`, and `millforge` or below it, and then to the path it names |
| ArtifactWriter.WriteSucceedsExactly | src/millforge/artifacts.py:282-301 | a write succeeds exactly when the path is safe and nothing fails; the file then holds the content, and size, digest and media type tracked describe it |
| ArtifactWriter.WriteLeaves | src/millforge/artifacts.py:163-209 | a failed write leaves nothing, or when the temporary file cannot be removed, that file with what was written to it |
| ArtifactWriter.Writer.EnrichManifest | src/millforge/artifacts.py:438-488 | enrichment fails exactly when a requested artifact is not tracked, and otherwise lists exactly the tracked ids in strictly ascending order with their metadata |
| ArtifactWriter.Writer.WriteManifest | src/millforge/artifacts.py:392-421 | a dict is enriched before it is written, anything else that lists artifacts is written as it is, and refused data changes nothing |
| ArtifactWriter.ManifestSucceedsExactly | src/millforge/artifacts.py:392-421 | a manifest call succeeds exactly when every requested artifact is tracked, the entries fit the model and can be written; the file then holds the text of those entries |
| ArtifactWriter.UnsafeRefused | src/millforge/artifacts.py:120-157 | a call with an unsafe path is refused and changes nothing |
| ArtifactWriter.StaysInside | src/millforge/artifacts.py:120-209 | every call touches files below `millforge` only, but for a temporary file that a failed call addressed to `millforge` itself may leave beside it |
| ArtifactWriter.RunsStayInside | src/millforge/artifacts.py:120-209 | over every run of calls not addressed to `millforge` itself, no file ever stands outside it |
| ArtifactWriter.ListingUnique | src/millforge/artifacts.py:438-488 | there is only one list of exactly the tracked artifacts in ascending order |
| ArtifactWriter.FailureChangesNothing | src/millforge/artifacts.py:163-209 | a failed call leaves the tracked artifacts, the recorded manifest and every existing file as they were |
| ArtifactWriter.StepAgrees | src/millforge/artifacts.py:282-301 | every call, failed or not, keeps recorded sizes and digests in agreement with the bytes on disk |
| ArtifactWriter.ManifestListsTracked | src/millforge/artifacts.py:392-421 | a written manifest lists exactly the tracked ids in strictly ascending order if and only if it was handed in as a dict, or as anything else that already did |
| ArtifactWriter.StaleManifest | src/millforge/artifacts.py:438-450 | a validated manifest naming an artifact that was never written is written all the same |
| ArtifactWriter.RunsAgree | src/millforge/artifacts.py:85-118 | over every run of calls from an empty directory with distinct ids at distinct targets, tracked metadata and the last manifest agree with the disk after every call, and failed calls change nothing |
| ArtifactWriter.RunManifests | src/millforge/artifacts.py:392-421 | in every run, a manifest written from a dict lists in ascending order exactly the artifacts whose writes succeeded before it, each as last written |
| Jsonl.SerializeJsonl | src/millforge/artifacts.py:245-280 | the loop writes exactly the log of the records when all are finite, and fails otherwise |
| Jsonl.ReadJsonl | src/millforge/artifacts.py:494-530 | the reading loop returns the records of the lines, or the reason for the first line it refuses |
| JsonlReading.LogExactly | src/millforge/artifacts.py:494-530 | for every content, written by this program or not, what reading comes to: refused as partial exactly when it does not end with a newline; otherwise, split into lines ended by \n, \r or \r\n, the records its lines spell by the grammar of RFC 8259, when every line spells one without repeated keys that the model accepts, or a refusal of the first line that does not, as empty or as invalid |
| Jsonl.LogRoundTrip | src/millforge/artifacts.py:245-280 | reading back a written log returns exactly the records written, with sorted keys |
| Jsonl.CutLog | src/millforge/artifacts.py:494-530 | every prefix of a log is refused as partial or read as a prefix of the records |
| Workflow.AttemptDiagnostic | src/millforge/eval_workflow.py:413-515 | the checks in order, retries before counts before history, report the specified diagnostic |
| Workflow.AttemptCodes | src/millforge/eval_workflow.py:413-515 | each diagnostic of an attempt state is given in exactly one case, in plain facts about its retries, counts and stages |
| Workflow.CodesExact | src/millforge/eval_workflow.py:542-683 | each diagnostic of a transition is given in exactly one case |
| Workflow.ResolvableExact | src/millforge/eval_workflow.py:413-515 | an attempt state passes exactly when its retries and counts are within limits and the stages it presupposes have run |
| Workflow.TableRow | src/millforge/eval_workflow.py:696-772 | for every legal result exactly one row of the published table matches |
| Workflow.DecisionsFollowTable | src/millforge/eval_workflow.py:542-683 | for every integer attempt state, a decision is valid exactly when the result is legal and the state resolvable, and is then the matching row's |
| Workflow.RunIsSound | src/millforge/eval_workflow.py:542-683 | what every run keeps: the counters add up to the executions, stay within limits and fit the stage that is next |
| Workflow.RunsAreSafe | src/millforge/eval_workflow.py:542-683 | every run of legal results is never invalid, keeps its counters within limits and has ended after six executions; it completes only by the arbiter closing it |
| Workflow.RunsNeverStick | src/millforge/eval_workflow.py:542-683 | a run that has not ended can go on |
| Workflow.SixExecutions | src/millforge/eval_workflow.py:542-683 | six executions are really reached |
| Closure.ValidatePresent | src/millforge/eval_boundary.py:1806-1821 | exactly the valid artifacts of the bundle are kept, and nothing is reported exactly when all are valid |
| Closure.BundleRefused | src/millforge/eval_boundary.py:1806-1821 | a bundle is refused as it stands exactly when some entry has an unknown id, is invalid in a field closure does not look at, or is at fault: of the wrong kind, a verdict without evidence, or one whose fields contradict it |
| Closure.CommandStatus | src/millforge/eval_boundary.py:2085-2107 | the list filled step by step is exactly the command problems |
| Closure.ValidateClosure | src/millforge/eval_boundary.py:2230-2373 | the whole validator rejects a bundle with an invalid artifact and otherwise decides by the gates |
| Closure.DeadGates | src/millforge/eval_boundary.py:1977-2041 | on a validated arbiter verdict the terminal-path and open-acceptance gates never fire, and the kind follows from the verdict |
| Closure.SuccessExact | src/millforge/eval_boundary.py:2230-2373 | the closure is a valid success exactly when one plain conjunction holds, and its result then says so in full; gates that skip absent artifacts let nothing through |
| Closure.RejectionExact | src/millforge/eval_boundary.py:2230-2373 | the same for a valid rejection |
| Closure.BlockedExact | src/millforge/eval_boundary.py:2230-2373 | the same for a valid blocked closure, with or without builder and checker artifacts |
| Closure.BadCapabilitiesExact | src/millforge/eval_boundary.py:2230-2373 | the capability boundary is reported exactly when everything looked at before holds and some capability is denied or missing |
| Closure.BadFixtureExact | src/millforge/eval_boundary.py:2230-2373 | the fixture boundary is reported exactly when the snapshot is malformed where a blocked bundle needs it, or everything looked at before holds and the fixture does not |
| Closure.BadContextExact | src/millforge/eval_boundary.py:2230-2373 | the context boundary is reported exactly when everything looked at before holds and the context does not |
| Closure.BadArtifactsExact | src/millforge/eval_boundary.py:2230-2373 | the artifact boundary is reported in exactly four cases, and names as missing exactly the required artifacts that are absent, in the required order |
| Scorer.FailureLabels | src/millforge/eval_suite.py:1921-1953 | the labels appended one by one are exactly the specified ones, in order |
| Scorer.LabelsExact | src/millforge/eval_suite.py:1921-1953 | each label is given exactly when its defect is present |
| Scorer.LabelsOrdered | src/millforge/eval_suite.py:1921-1953 | the labels stand in the order of the taxonomy, each at most once |
| Scorer.OutcomeExact | src/millforge/eval_suite.py:1624-1778 | each outcome is given in exactly one case |
| Scorer.FlagsExact | src/millforge/eval_suite.py:1624-1778 | false closure, correct blocking, artifact completeness, capability violation and false success, each exactly when the fixture and the input say so |
| Scorer.ResultLabels | src/millforge/eval_suite.py:1624-1778 | each label of the result is given exactly when the fixture and the input say so |
| Scorer.ClaimsFollowWorkflow | src/millforge/eval_suite.py:1605-1621 | the terminal results the scorer takes for success and for a block are exactly those after which the workflow goes on with an unjudged or approved candidate, or stops blocked |
| Scorer.ResultMissing | src/millforge/eval_suite.py:1624-1778 | the missing artifacts of a scored trial are the required ones not provided, in the required order |
| Scorer.PrimarySuccessExact | src/millforge/eval_suite.py:1624-1778 | primary success holds exactly when identities match and there is no explanation, defect, failure or blocked terminal |
| Scorer.ScoreIsValid | src/millforge/eval_suite.py:874-926 | whatever the fixture and input, the scorer's result satisfies its own validator |
| Scorer.WorseNeverSucceeds | src/millforge/eval_suite.py:1624-1778 | making evidence worse, such as failing a check that passed, never creates primary success |
| Reports.ValidateInputs | src/millforge/eval_reports.py:2250-2339 | the checking loops accept exactly the inputs described without them |
| Reports.OutcomesConserved | src/millforge/eval_reports.py:1516-1628 | the seven outcome counts add up to twice the records |
| ReportCounts.PrimaryExact | src/millforge/eval_reports.py:1516-1628 | the thirteen primary metrics are each under its id the number of record cells or plans the id speaks of, out of the right total |
| ReportCounts.ArmExact | src/millforge/eval_reports.py:1858-1914 | every number of an arm's summary counts the cells of that arm |
| ReportCounts.CategoryExact | src/millforge/eval_reports.py:1982-2042 | every number of a category's summary counts its cells and its plans |
| ReportCounts.PendingExact | src/millforge/eval_reports.py:2056-2068 | the pending trials are the pending hashes of the resume index that name a plan, or without an index the plans no record is of |
| Reports.ArmSummaries | src/millforge/eval_reports.py:1858-1914 | the loops compute each arm's counts and denominators |
| Reports.ArmsConserved | src/millforge/eval_reports.py:1858-1914 | the two arms' completion, invalid, failure and appended counts add up to the campaign's |
| Reports.OutcomesByCategory | src/millforge/eval_reports.py:1985-2001 | the dict filled record by record holds exactly the categories of plans and records, each with its outcomes |
| Reports.CategorySummaries | src/millforge/eval_reports.py:1982-2042 | the categories are listed in strictly ascending order, each with its counts |
| Reports.ReportedCategoriesConserved | src/millforge/eval_reports.py:1982-2042 | every outcome count, and the appended records, add up over the listed categories to the campaign's |
| Reports.PendingConserved | src/millforge/eval_reports.py:2056-2068 | without a resume index, pending trials and records together are the plans |
| Reports.ResumedPendingBounded | src/millforge/eval_reports.py:2056-2068 | with a resume index, pending trials and records never exceed the plans |
| Reports.MissingConserved | src/millforge/eval_reports.py:2045-2053 | with one trial per pair, missing pairs and records together are the plans |
| Reports.ComparisonExact | src/millforge/eval_reports.py:1823-1855 | with one record per trial, the paired comparison counts every record once and its difference is that of the arms' successes |
| ReportCounts.ComparisonCounted | src/millforge/eval_reports.py:1823-1855 | for any plans and records, the comparison counts the plans whose trial's last record succeeded, arm by arm, out of those whose trial has a record |
| Reports.MetricsBuiltExactly | src/millforge/eval_reports.py:421-430 | no counted metric of the primary, arm and category summaries raises exactly when neither arm's failures nor the pending trials outnumber the plans |
| Reports.CountsWithinDenominators | src/millforge/eval_reports.py:1516-1628 | with one record per trial, every counted metric is within its denominator, so none of them raises |
| Reports.DuplicateRecordsRaise | src/millforge/eval_reports.py:2250-2339 | inputs that validation accepts and whose report raises |
| Wilson.IntervalBounds | src/millforge/eval_reports.py:1289-1305 | 0 <= lower <= share <= upper <= 1, as the interval model demands |
| Wilson.IntervalSolves | src/millforge/eval_reports.py:1289-1305 | the two ends are exactly the solutions of n (s/n - p)^2 = z^2 p (1 - p) |
| Wilson.IntervalMirrors | src/millforge/eval_reports.py:1289-1305 | counting failures instead of successes mirrors the interval |
| Terminals.ByTerminalResult | src/millforge/contracts.py:1226-1239 | the lookup is built exactly for at most 64 nonblank distinct terminal results, in byte order |
| Terminals.CanonicalTerminalsExact | src/millforge/base/harness.py:34-48 | the vocabulary is admitted exactly when it has 1 to 64 valid names, no two alike, and is then listed in code-point order |
| Terminals.BytesAndCodesSortAlike | src/millforge/contracts.py:1452-1460 | sorting by UTF-8 bytes and sorting by code points give one order |
| Terminals.OneOrder | src/millforge/base/harness.py:34-48 | requirements that cover the harness vocabulary stand in its order, which is also the descriptor's |
| Terminals.DigestIgnoresOrder | src/millforge/base/identity.py:375-389 | the requirements digest does not depend on the order the caller lists them in |
| Terminals.DigestTextReads | src/millforge/base/identity.py:375-389 | the hashed text reads back as one record per requirement, in the byte order of the terminal results, that says of its result what it requires |
| Terminals.DigestTextDetermines | src/millforge/base/identity.py:375-389 | the hashed text determines the requirements |

## Left out

- Redacting text itself, sensitive-key recognition, and the secret, host-path and leak filters: regular expressions, taken as arbitrary functions or not modelled.
- SHA-256: an arbitrary function. Statements about digests that need it say "unless two texts have one digest".
- JsonCanonical.SerializeIsCanonical: the runtime refuses to print integers of more than 4300 digits, which the model prints; an integer here is one the runtime prints.
- SchemaAdmission.AdmittedExactly: for the same reason, a payload with such an integer is admitted by the model and refused by the code.
- Wilson.IntervalBounds: stated over the reals; floating-point rounding is not modelled.
- Context.Allocate: for contents that UTF-8 can encode; a content with a lone surrogate raises in the original.
- RedactionShape.RedactionMirrors: asks for a byte more than the value needs, because an empty text met when the budget is used up already gives the bare mark; `RedactionShape.RedactionShows` covers every budget.
- SchemaWellFormed.WellFormedExactly: for values whose dicts have distinct keys, which every Python dict has.
- JsonSpelling.LoadExactly: what float a lexeme denotes is a parameter of reader and grammar alike.
- RedactionExposure.HiddenExactly: for graphs whose sensitive keys do not all survive and whose mappings also write some key twice, only one direction: a value that is overwritten later may still have used budget.
- Redaction.RedactionBounded: for texts and keys that UTF-8 can encode, and with the mapping key text as the key's identity.
- ArtifactWriter.RunsAgree: symbolic links, directory creation and file permissions are not modelled, and the temporary name is assumed not taken, as `mkstemp` guarantees.
- Jsonl.CutLog: cuts are stated on characters, which are bytes because the log is ASCII.
- Prerequisites.TerminalGatedArtifactProducers: terminal results are distinct among the requirements, which the source model validates (`src/millforge/compiler/source.py:332-340`).
- Reports.ResumedPendingBounded: pending hashes are distinct, which the resume index validates (`src/millforge/eval_trials.py:1022-1025`).
- Reports.ArmSummaries: one result of each arm per record, in that order, which the record validates (`src/millforge/eval_trials.py:877-882`). Usage and cost metrics, task summaries and taxonomies are not modelled.
- Plan.ValidatePlanInvariants: the set of violations, not their order or wording.
- Scorer.ScoreIsValid: the consistency checks; hash formats and diagnostic texts are not modelled.
- Closure.ValidateClosure: fields of artifacts that closure does not look at are one flag per artifact; expanding a capability snapshot into its results is not modelled.
- Workflow.AttemptDiagnostic: attempt mappings with unknown extra keys are not modelled.
- Terminals.OneOrder: the vocabulary check on each name is a parameter.
- Error texts: refusals are told apart where the code's order of checks is stated, not by wording.
- Python objects that are not JSON: non-string keys and other types, and the size limit on a schema or payload given as raw text, are not modelled.
- `json.loads` limits on integer digits and nesting.
- Context-file discovery, the model backend, connectors, runtime, eval trial store, campaign driver and Markdown rendering: I/O, or bookkeeping that would add only easy members.
