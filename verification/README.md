# noleak: a verified model of the redaction pipeline

noleak keeps secrets out of text that leaves a machine. A vault holds each secret under a placeholder
`@TOKEN_hhhhhh@`; a detector finds known values and high-entropy token runs; the daemon and the proxy replace
what was found by placeholders; a hook puts real values back into commands bound for hosts they are bound to; a
paste filter redacts bracketed pastes on their way into a terminal program; a frame codec carries the daemon's
messages. This project models those parts and proves what they promise, for all inputs, runs and interleavings.
`dafny verify dfyconfig.toml` checks everything.

| files | subject |
|---|---|
| `ByteText`, `Sequences`, `KnownValues`, `Entropy`, `Detector` | byte strings, occurrences, the detector's layers and its deduplication |
| `Redaction`, `Redactors`, `Survival` | overlap resolution and splicing, both implementations, and when a value cannot survive |
| `Vault`, `History`, `Hosts`, `MemoryVault`, `BindingSlices` | the vault as a state machine, its history semantics, host patterns, the class that implements it, the slices it edits in place |
| `Scanning`, `ScanEffects`, `OrderIndependence`, `Ties`, `ScanSurvival`, `Daemon`, `Proxy` | the match loop against a live vault, what it guarantees and leaves in the vault, and both servers |
| `Restore`, `RestoreExactly`, `HookOnVault` | the hook that substitutes placeholders back, exactly what it restores and when it fails, and the hook against a live vault |
| `Streaming`, `EntropyRedaction`, `LiveStreaming`, `StreamingRuns` | line-by-line against whole-body redaction, for fixed stages and on a live vault; idempotence |
| `SaveProtocol`, `DrainingSaves`, `SaveRuns`, `Blob`, `Opening` | the debounced save as interleaved steps; the file format; which files load, and a vault from one opening to the next |
| `Paste`, `Frame` | the paste filter; the length-prefixed frames |

How the source is read:

- Loops, in-place edits and objects stay methods, arrays and classes, each proved equal to a function of its
  inputs and old state, or to satisfy a relation on them; the theorems are about those functions and relations.
- `IsRedaction(text, spans, out)` is the one specification of both redactors. It mentions only the set of spans,
  so what is proved of it holds for every order of matches and every tie the sort breaks.
- Foreign code is a parameter with laws. Placeholders are an arbitrary function of the value (the master secret
  is fixed); where it matters, its results have the placeholder shape and do not collide on the values in use.
  The Aho-Corasick matcher reports exactly the dictionary values that occur. The regular-expression and context
  stages are arbitrary functions with in-bounds, non-empty matches. A run's entropy is an arbitrary real function
  of its bytes. AES-GCM decodes what it encodes; JSON does up to an arbitrary cleaning of strings.
- Several promises fail as stated. Each such failure is a lemma that exhibits it, and beside it stands the condition
  under which the promise is kept, an exact one unless "Left out" says otherwise:
  - a known value with a border, or one that agrees with part of a placeholder, can survive (`ScanSurvivalExactly`);
  - "longest match wins" (comment at `internal/ipc/server.go:220-221`) is not what sorting by start does
    (`LongestWinsExactly`);
  - `Rotate` followed by registering the old value again breaks the vault's indexes and can make `Register`
    dereference nil (`ApplyConsistentExactly`, `RotateThenReregisterPanics`); a rotated-in value is redacted to a
    placeholder nobody can resolve (`KnownReferExactly`, `RotatedValueUnresolvable`);
  - a text that holds part of a placeholder is not always restored (`RestoresExactly`);
  - an active value rotated in has two outputs, as the sort falls (`OneOutputExactly`, `RotationTies`);
  - the paste filter misses a marker cut by a chunk boundary (`ChunkIndependentExactly`);
  - a callback's save that outlives `Close` writes an empty vault (`CloseAfterRunExactly`, `CloseKeepsExactly`), and a
    timer armed again while its callback waits brings that about on a vault at rest (`StrayTimerWipes`);
  - failed saves or saves renamed out of order lose updates, although the comment at `internal/vault/file.go:35` says
    the mutex serializes disk writes (`DrainExactly`, `FailingDrainExactly`, `OverlapRun`, `FailedRun`);
  - streamed and whole-body redaction differ (`StreamSpansExactly`): when a secret runs over the end of a line or is only
    found by what stands on another line, as the patterns at `internal/detect/patterns.go:131`, 152, 239 and 248 and
    `internal/detect/context.go:20-26` allow (`OverLineEndDiffers`, `SecretOverLines`); when a known value runs over the
    end of a line (`KnownLineLocalExactly`); and when a line registers a value that a later line shows elsewhere
    (`ForeseenExactly`, `StreamingDiffers`).
- The file format has two limits (`SaveLoadRoundTripExactly`). An empty master secret would save to a file that does
  not load; a vault that was opened always holds a non-empty one. A value that is no valid UTF-8 comes back changed and
  is no longer redacted (`UncleanValueForgotten`); the patterns can register such values from raw bytes
  (`internal/detect/patterns.go:227`, `internal/detect/context.go:26`).
- Where comments and code disagree the code is followed: `Scan` promises matches sorted by start
  (`internal/detect/detector.go:81-84`) and does not sort (`ReportUnsorted`); `matchHost` speaks of a single leading
  label (`internal/vault/vault.go:383-387`) and admits any number; a value is promised one placeholder for a given
  vault (`internal/vault/vault.go:51-54`), but a rotated-in value keeps that of the value it replaced; `Rotate` is said
  to archive the old value (`internal/vault/vault.go:74-75`), and it drops it.

## Model

| member | source | states |
|---|---|---|
| ScanSurvival.ScanSurvivalExactly | internal/ipc/server.go:181-257 | A known value is gone from the output of every scan, over all vaults, stages, policies, texts and collision-free derivations, if and only if it has no border and agrees with no overlapped part of a placeholder |
| ScanSurvival.BorderedSurvivesScan | internal/detect/detector.go:97-116 | For every bordered value there is a scan that leaves it: a vault that holds it, a table that finds two bytes in front of it, two different placeholders |
| ScanSurvival.AgreeingSurvivesScan | internal/ipc/server.go:246-255 | For every value that agrees with a placeholder there is a scan whose output spells it anew |
| Survival.NoSurvival | internal/ipc/server.go:222-257 | The safe direction for the redactor alone: no occurrence in the output, including across splice points, whatever other spans are added |
| Survival.AtFreeSafe | internal/vault/vault.go:105-113 | For a value without `@`, safety is exactly: no border, and not inside any placeholder's `TOKEN_hhhhhh` |
| Survival.WindowOfSplice | internal/ipc/server.go:246-255 | A window of spliced output meets an inserted placeholder or is an untouched window of the input |
| Scanning.KnownValuesVanish | internal/ipc/server.go:181-212 | The same for a whole scan: an active, safe vault value occurs nowhere in the redacted output, whatever vault state and registrations the scan goes through |
| Scanning.KnownReported | internal/ipc/server.go:181-208 | Every hit of an active value that is not passed through ends up among the spans handed to the redactor |
| Scanning.ScanRefers | internal/ipc/server.go:189-210 | If placeholders derive from values and the texts replaced do not collide, then after all registrations of a scan every assigned placeholder is a live key whose value is exactly the bytes it replaces, is the derived one (so repeating the scan assigns the same), and earlier entries keep their values |
| Scanning.KnownReferExactly | internal/vault/vault.go:266-280 | From a vault in which the derived placeholder of every value leads back to it, an operation keeps that if and only if it does not rotate a live entry to a value that derives another placeholder |
| Scanning.KnownReferRunExactly | internal/vault/vault.go:153-301 | The same over whole runs: every value resolves in every state of an admissible run if and only if no such rotation is in it |
| Scanning.RotatedValueUnresolvable | internal/vault/vault.go:266-280 | After one rotation the rotated-in value is active yet its derived placeholder is not in the vault |
| Scanning.AssignedAllSafe | internal/vault/vault.go:153-165 | A vault whose value index has no dangling target keeps that through the match loop, so the loop cannot dereference a missing entry |
| Scanning.ScanExists | internal/ipc/server.go:171-218 | Against every vault, lawful stages scan every text to some vault and output |
| ScanEffects.RegistersExactly | internal/ipc/server.go:189-208 | After a scan the vault holds, besides what it did, exactly the texts of the matches that are no known values, not passed through and confident enough |
| ScanEffects.NothingRegistered | internal/ipc/server.go:197-203 | Where registering is off a scan adds no value and no entry, and only known values bear placeholders |
| ScanEffects.PassedNotRegistered | internal/proxy/proxy.go:368-370 | No text passed through comes to be in the vault, whatever state that is in |
| ScanEffects.PassedNotShown | internal/proxy/proxy.go:368-370 | No placeholder-bearing span covers a text passed through |
| ScanEffects.EntriesKept | internal/ipc/server.go:189-208 | A scan leaves value, bindings, status, kind and source of every entry it does not collide with as they were, and counts one use for every known match shown as its placeholder |
| ScanEffects.EntriesMade | internal/ipc/server.go:197-203 | Every entry a scan adds is bound to no host, awaits review, sits under the placeholder derived from its value, and has the kind and prefixed source of a match that registers |
| ScanEffects.ClosedPassesAll | internal/vault/vault.go:343-351 | A scan against a closed vault redacts nothing and changes nothing, whatever the stages find |
| Daemon.Server.HandleScan | internal/ipc/server.go:171-218 | Vault, wire matches and output after a scan: the detector's report over the vault's active values, each match sent as found with the derived placeholder if it is a known value, with the one its text has or gets if registering is asked for and its confidence is at least 0.85, and else with none; without registering no entry is made; the output is one redaction of the matches with a placeholder |
| Daemon.Server.AssignMatches | internal/ipc/server.go:188-208 | The match loop equals the specification's fold over the live vault, and keeps matches in bounds |
| Daemon.Server.AssignPlaceholder | internal/ipc/server.go:192-203 | One turn: known values get the derived placeholder and a use, confident others are registered |
| Daemon.ScanWithVault | internal/ipc/server.go:180-183 | The detector is synchronised with the vault before scanning, and reports exactly what it should for some order of the values |
| Daemon.Server.HandleResolve | internal/ipc/server.go:259-269 | The reply by the vault's fields: another error if it is closed, not found without an entry, the entry's value if some binding of it admits the host, not bound otherwise; a use is counted exactly on success |
| Daemon.LookupBound | internal/hooks/pre.go:61-83 | An entry bound to some host of the command is found by the hook's host loop |
| Daemon.RedactThenRestore | internal/hooks/pre.go:45-97 | End to end: daemon redaction of a text without stray tokens followed by the hook, against any later vault that keeps and binds the entries, returns the original text byte for byte |
| Proxy.Server.ScanAndRedact | internal/proxy/proxy.go:351-400 | The proxy's scan by its own settings: no passthrough token comes to be in the vault and none is covered by a redacted span; when active values carry their derived placeholders the redacted ranges are exactly those, not passthrough tokens, that are hits of active values or put forward by another stage with the configured confidence |
| Proxy.Server.CollectSpans | internal/proxy/proxy.go:366-394 | The collecting loop leaves exactly the placeholder-bearing spans of the specification, none over a passthrough token, and its vault; by the server's settings they are the spans of the known values and of the matches of the configured confidence, each with the placeholder its text has or gets |
| Proxy.Server.AssignPlaceholder | internal/proxy/proxy.go:367-387 | One turn, passthrough tokens skipped |
| Proxy.Server.StreamResponse | internal/proxy/proxy.go:328-346 | The read-line loop, each line scanned against the vault the lines before it left, ends in a vault and output that the streaming specification admits under the server's settings; no passthrough token is registered on the way |
| LiveStreaming.StreamSpansExactly | internal/proxy/proxy.go:328-400 | For every body and all stages, a stream redacts the spans that a scan of the whole body would if and only if nothing redacted in the body runs over the end of a line and every line, scanned alone with the values known by then, has redacted what the body has there |
| LiveStreaming.LiveStreamEqualsBuffering | internal/proxy/proxy.go:328-400 | Under that condition the streamed output equals the body scanned whole, on the live vault and for all stages |
| LiveStreaming.OverLineEndDiffers | internal/proxy/proxy.go:328-346 | A range that runs over the end of a line is redacted in the body and not in the stream, whatever else is found |
| LiveStreaming.ForeseenExactly | internal/proxy/proxy.go:328-400 | On a body whose lines are scanned alone as they are together, a stream redacts those spans if and only if every later hit of a text new to the vault is at a range redacted anyway |
| LiveStreaming.ForeseenAsInBody | internal/proxy/proxy.go:328-400 | On such a body that condition and the general one are the same |
| LiveStreaming.SplitsCut | internal/detect/detector.go:85-125 | A cut is clean when the findings of the other stages split there and no known value occurs across it |
| LiveStreaming.LineLocalOn | internal/proxy/proxy.go:328-346 | Every body is such a one when no stage finds anything across a newline and no active value has an inner one, which the shipped pattern table does not grant |
| LiveStreaming.NothingNewForeseen | internal/proxy/proxy.go:328-400 | On such a body it holds when every text redacted is one the vault already holds, so that no line registers anything |
| StreamingRuns.StreamingDiffers | internal/proxy/proxy.go:328-400 | A concrete empty vault, stages and two lines on which the streamed and the whole-body output are different bytes, both written out: a value registered on the first line shows on the second |
| StreamingRuns.SecretOverLines | internal/detect/patterns.go:131 | A secret that runs over the end of a line, as a private key in PEM form does, is redacted in the body scanned whole, and streamed the body passes unchanged; both outputs written out |
| LiveStreaming.StreamAnswers | internal/proxy/proxy.go:328-346 | What a stream writes is a redaction of the spans of its lines, each with the texts of the lines before it known |
| LiveStreaming.StreamUnique | internal/proxy/proxy.go:328-346 | A stream has one output, whatever the order of matches on its lines, if active values carry their derived placeholders and new ones do not collide |
| LiveStreaming.ScanLearns | internal/ipc/server.go:188-208 | After a scan the vault holds and knows, besides what it did, exactly the texts replaced that it did not hold |
| LiveStreaming.LiveSpansAcross | internal/detect/detector.go:85-125 | At a clean cut what is redacted before and after is independent |
| OrderIndependence.OutputUnique | internal/proxy/proxy.go:410-448 | One text, vault, stages and policy have one output if no two matches on one range carry different placeholders: independent of map order in Values, of sort instability, and of which of the two redactors ran; no derivation or collision hypothesis |
| OrderIndependence.TieFreeExactly | internal/ipc/server.go:189-210 | That is so exactly when no confident match of another stage lies on a known value whose entry has another placeholder than the derived one |
| OrderIndependence.OneScanAnswerExactly | internal/ipc/server.go:222-257 | And it is exactly when all selections of the scan's spans have one answer |
| Ties.OneOutputExactly | internal/ipc/server.go:171-218 | A vault has one output for every lawful scan of every text under every policy if and only if its active values carry their derived placeholders |
| Ties.RotationTies | internal/vault/vault.go:266-280 | After one rotation it has not: the rotated-in value, found both ways, may become either placeholder |
| OrderIndependence.ReportExactly | internal/detect/detector.go:85-125 | What is reported, told without any order: the known-value hits, and of the other stages the first match of every key that no known value took |
| OrderIndependence.StagesReported | internal/detect/detector.go:85-125 | Whatever a stage finds, the context stage only if enabled, something of the same range and kind hash is reported |
| OrderIndependence.ContextUnseen | internal/detect/detector.go:120-122 | With the context stage off, what it would find does not matter |
| OrderIndependence.DedupedIsFirst | internal/detect/detector.go:146-161 | A match survives deduplication exactly when it is the first of its key |
| OrderIndependence.ScanSpans | internal/ipc/server.go:189-208 | Which spans a scan redacts when active values carry their derived placeholders, told range by range from the active values and what the stages put forward |
| Redaction.OneAnswerExactly | internal/ipc/server.go:228-245 | All selections of spans have one answer if and only if spans with equal bounds carry equal placeholders |
| Redaction.RedactionDeterministic | internal/proxy/proxy.go:410-448 | Under that condition two redactions of one set of spans are equal |
| Redaction.GreedyUnique | internal/ipc/server.go:234-245 | The kept spans themselves are then determined |
| Redaction.GreedyOrdered | internal/ipc/server.go:234-245 | Kept spans come from the input, in order, pairwise disjoint |
| Redaction.GreedyMaximal | internal/ipc/server.go:226-245 | Every span overlaps a kept one that starts earlier, or equally early and is at least as long |
| Redaction.RedactionExists | internal/ipc/server.go:222-257 | Every set of in-bounds spans has a redaction |
| Redaction.LongestWinsExactly | internal/ipc/server.go:220-245 | The documented policy "longest match wins" is met on all selections of a set of spans if and only if no span is longer than an earlier one it overlaps |
| Redaction.SpliceLength | internal/ipc/server.go:246-256 | Output length is input length less the kept lengths plus 14 per kept span |
| Redaction.FilteredIsGreedy | internal/ipc/server.go:234-245 | The filter loop over a sorted list is greedy selection from its placeholder-bearing spans |
| Redactors.RedactInPlace | internal/ipc/server.go:222-257 | The daemon's redactor answers a redaction of the set of placeholder-bearing matches |
| Redactors.Compact | internal/ipc/server.go:234-245 | Compaction into `sorted[:0]`, which overwrites the array it reads, leaves the filtered list |
| Redactors.SortSlice | internal/ipc/server.go:228-233 | A sorted permutation under start ascending, length descending |
| Redactors.Rewrite | internal/proxy/proxy.go:410-427 | The proxy's redactor answers a redaction of the same specification, permuting its argument |
| Redactors.SortSpans | internal/proxy/proxy.go:434-441 | In-place insertion sort: sorted and a permutation |
| Redactors.SinkInto | internal/proxy/proxy.go:437-440 | The inner swap loop extends the sorted prefix by one |
| KnownValues.HitsAreOccurrences | internal/detect/detector.go:101-114 | Every reported hit is an occurrence |
| KnownValues.HitCovers | internal/detect/detector.go:101-114 | Every occurrence shares a byte with a hit at or before it |
| KnownValues.HitsDisjoint | internal/detect/detector.go:101-114 | Hits do not overlap, in order |
| KnownValues.UnborderedHitsAreAll | internal/detect/detector.go:101-114 | Without a border the hits are exactly the occurrences |
| ByteText.IndexFromIsLeftmost | internal/detect/detector.go:127-144 | The search function returns the leftmost occurrence, or -1 exactly when there is none |
| Detector.IndexOf | internal/detect/detector.go:127-144 | The double loop computes that search; the empty needle is never found |
| Detector.ScanValue | internal/detect/detector.go:101-115 | The inner loop over one value reports its leftmost greedy hits |
| Detector.ScanKnown | internal/detect/detector.go:96-117 | The loop over the matcher's hits reports them value by value |
| Detector.KnownMatchesExactly | internal/detect/detector.go:97-116 | A match is among them exactly when it is a hit of a value the matcher named |
| Detector.Dedup | internal/detect/detector.go:146-161 | In-place compaction keeps the first match of every key (start, end, hash of kind) |
| Detector.DedupedKeepsFirst | internal/detect/detector.go:146-161 | Of every key the first match survives |
| Detector.DedupKeepsSpans | internal/detect/detector.go:146-161 | The set of (start, end) ranges is unchanged |
| Detector.HashKind | internal/detect/detector.go:163-169 | The hash loop with 64-bit wrap-around |
| Detector.NonEmptyExactly | internal/detect/detector.go:63-80 | SetExactValues keeps exactly the non-empty values |
| Detector.Detector.SetExactValues | internal/detect/detector.go:63-80 | Values and matcher are replaced together; no matcher when nothing is left |
| Detector.Detector.Scan | internal/detect/detector.go:85-125 | The report is the deduplicated concatenation of the stages, known values first; nothing on empty input |
| Detector.ScanReportsKnown | internal/detect/detector.go:97-125 | Every hit of every known value is in the report as an "ac" match |
| Detector.ReportUnsorted | internal/detect/detector.go:81-125 | Counterexample to "sorted by Start": two known values reported in the order the vault yields them |
| Detector.LawfulMatcherExists | internal/detect/detector.go:72-116 | The law assumed of the matcher, that it names exactly the dictionary values that occur, can be met: trying value after value meets it |
| Detector.ScanSound | internal/detect/detector.go:85-125 | Every reported match is in bounds and non-empty, and "ac" matches cover known values |
| Entropy.ScanEntropy | internal/detect/entropy.go:13-49 | The loop, with its flush at end of input, computes the specification's list |
| Entropy.EntropyExact | internal/detect/entropy.go:13-49 | A match is reported exactly when it is a maximal token run that meets the length floor and the threshold |
| Entropy.WordReported | internal/detect/entropy.go:22-64 | A word of letters, digits, `_`, `-`, `+` and `=` with none of these beside it is reported whole or, if it does not qualify, not at all |
| Entropy.ConfidentExactly | internal/detect/entropy.go:90-99 | Which reports reach a confidence floor f: all for f up to 0.5, those scored 4f + 2 or more for f up to 0.9, none above |
| Entropy.EmittedSeparated | internal/detect/entropy.go:22-48 | Reported runs are in order, with a non-token byte after each |
| Entropy.EntropyCut | internal/detect/entropy.go:13-49 | After a non-token byte the scan distributes over concatenation, offsets shifted |
| EntropyRedaction.EntropyIdempotent | internal/detect/entropy.go:13-63 | With a length floor above 12, redacting the entropy stage's output again changes nothing, for every scoring function and choice of placeholders |
| EntropyRedaction.RunOfSplice | internal/proxy/proxy.go:410-427 | A long maximal run of the output is an untouched maximal run of the input; placeholders are never matched inside |
| EntropyRedaction.EntropyStreams | internal/proxy/proxy.go:330-346 | For the entropy stage, line-by-line redaction equals whole-body redaction |
| EntropyRedaction.RunsLineLocal | internal/detect/entropy.go:13-49 | The runs found before and after a newline are independent |
| Streaming.RedactionAcross | internal/proxy/proxy.go:410-427 | Redaction distributes over a cut that no span crosses |
| Streaming.KnownLineLocalExactly | internal/detect/detector.go:97-116 | The known-value stage is line-local if and only if the value has no newline before its last byte |
| RestoreExactly.RestoresExactly | internal/hooks/pre.go:45-96 | A text is restored byte for byte whatever was redacted in it, by whatever placeholders that resolve to what they replaced, if and only if it has no stray `TOKEN_hhhhhh`: one with a byte after it and before it a `@` or two bytes |
| Restore.RestoreIdentity | internal/hooks/pre.go:45-96 | The restoring direction, for one redaction |
| Restore.RestoresWhatResolves | internal/hooks/pre.go:45-97 | Of one redaction of a text without stray tokens, what resolves to the bytes replaced comes back and what does not keeps its placeholder |
| RestoreExactly.StrayLost | internal/hooks/pre.go:58-87 | The losing direction: every text with a stray token has a redaction the hook does not undo |
| Restore.FindAllInSplice | internal/hooks/hooks.go:83-101 | In the redaction of a text without stray tokens the placeholders found are exactly the inserted ones, in order |
| Restore.ReplaceUndoes | internal/hooks/pre.go:79-79 | Replacing one placeholder everywhere undoes exactly its spans and disturbs no other |
| Restore.SubstituteUndoes | internal/hooks/pre.go:58-87 | The sequential replacements compose, in any order that covers all labels |
| Restore.LiteralPlaceholderRewritten | internal/hooks/pre.go:58-87 | Counterexample: a literal placeholder in the original is rewritten |
| Restore.StraddledPlaceholderLost | internal/hooks/hooks.go:83-101 | Counterexample: `@TOKEN_hhhhhh` before a redacted byte steals the next placeholder's first byte, and restoration fails |
| Restore.FindPlaceholders | internal/hooks/hooks.go:87-101 | The compaction into `all[:0]` keeps each placeholder once, in order of position |
| Restore.PreBash | internal/hooks/pre.go:42-96 | The nested loops: the specified substitution, and an error exactly when for some placeholder of the command a call fails or is answered by another error at a host before which all answer not bound or nothing |
| Restore.HookFailsExactly | internal/hooks/pre.go:58-83 | That condition, for the substitution as a function |
| Restore.LookupExactly | internal/hooks/pre.go:61-83 | The host loop by the daemon's replies alone: which value it finds, and when it aborts |
| Restore.UnansweredStays | internal/hooks/pre.go:45-100 | A command for whose placeholders no call fails and no host answers a value stays as it is |
| HookOnVault.LookupOnVault | internal/hooks/pre.go:61-83 | Against a vault the host loop finds the value of an entry exactly when it is not empty and some host of the command is admitted by some binding, whatever the order of hosts |
| HookOnVault.FailsOnClosedExactly | internal/hooks/pre.go:45-83 | Against a vault the hook fails exactly when the command has a placeholder and a host and the vault is closed |
| HookOnVault.LookupByHistory | internal/vault/vault.go:153-301 | After any admissible run the value a command may be given for a placeholder is the last its history gave it, exactly for the hosts bound and not unbound since |
| Restore.FirstAnswer | internal/hooks/pre.go:60-84 | The host loop: a value wins, unbound is skipped, unknown ends it, anything else aborts |
| Sequences.DistinctElements | internal/hooks/hooks.go:92-100 | First-occurrence filtering keeps the elements not seen before |
| Sequences.DistinctHasNoRepeats | internal/hooks/hooks.go:92-100 | ... and leaves no repeats |
| Sequences.CompactDistinct | internal/hooks/hooks.go:92-100 | Its in-place form equals it |
| Vault.ApplyConsistentExactly | internal/vault/vault.go:153-301 | From a consistent vault an operation leads to a consistent one if and only if its guard holds: a fresh placeholder for Register, a value not held by another entry for Rotate, nothing for the rest |
| Vault.RunConsistent | internal/vault/vault.go:153-301 | Every run within the guards keeps the maps inverse, the order duplicate-free and exactly the live keys, identifiers rising and bounded |
| Vault.ConsistentNeverPanics | internal/vault/vault.go:159-164 | A consistent vault never dereferences a missing entry |
| Vault.WithoutRotation | internal/vault/vault.go:153-301 | Without rotations, collision-freedom of the registered values alone keeps every guard, the invariant, and every placeholder derived |
| Vault.DerivedExactly | internal/vault/vault.go:153-301 | From a vault whose placeholders all derive from their values, an operation keeps that if and only if it is not a rotation of a live entry to a value that derives another |
| Vault.DerivedRunExactly | internal/vault/vault.go:153-301 | Lifted to runs: derived in every state passed through exactly when no operation is such a rotation |
| Vault.RotateThenReregisterPanics | internal/vault/vault.go:153-301 | Counterexample: register, rotate, register the old value, delete, register the new value panics |
| Vault.RotateConsistent | internal/vault/vault.go:266-280 | Rotate alone, exactly |
| Vault.RegisterConsistent | internal/vault/vault.go:153-181 | Register of a new value, exactly |
| Vault.DeleteConsistent | internal/vault/vault.go:282-301 | Delete always keeps the invariant |
| History.HistorySemantics | internal/vault/vault.go:153-301 | After any admissible run value, bindings, status, uses, kind and source of every placeholder are the fold of the operations and answers a caller saw, and the vault is consistent |
| History.ResolveByHistory | internal/vault/vault.go:196-212 | Resolve gives the current value exactly when some pattern bound by that history admits the host, by labels, and otherwise the right error |
| History.ResolveBoundHosts | internal/vault/vault.go:196-212 | Where no wildcard is bound by that history, Resolve gives the last value exactly for the bound hosts, letter for letter |
| History.ActiveByHistory | internal/vault/vault.go:322-333 | A value is given to the detector exactly when it is the last value of some placeholder whose last status is neither rejected nor archived |
| History.AnswerByHistory | internal/vault/vault.go:153-301 | What the next operation answers: Register the entry as history has it, under the placeholder that holds the value or else the derived one; the others success exactly for live placeholders |
| History.ClosedForGood | internal/vault/vault.go:343-351 | On a closed vault every later operation fails as closed, nothing resolves and no value is active |
| History.CloseCloses | internal/vault/vault.go:343-351 | Close makes any vault such a one, whatever follows |
| History.StepHistory | internal/vault/vault.go:153-301 | One operation moves all of them as its event says |
| History.MergedOnce | internal/vault/vault.go:365-381 | Merged bindings list every host once; the old ones stay in front as they were if none was listed twice |
| Hosts.WildcardAdmits | internal/vault/vault.go:383-403 | `*.d` admits exactly the hosts whose labels end with d's labels, except the name that is a dot and d |
| Hosts.MatchesAsAdmits | internal/vault/vault.go:383-403 | A pattern admits a host exactly when it is that host, or is `*.d` with d not empty and the host is under d by labels |
| Hosts.LiteralAdmits | internal/vault/vault.go:388-391 | A pattern that is no wildcard admits exactly the host it spells; every pattern admits its own text |
| Hosts.LabelSuffix | internal/vault/vault.go:388-403 | Label-wise suffix is equality or a suffix after a dot |
| MemoryVault.MemoryVault.Register | internal/vault/vault.go:153-181 | New whole state and answer, as Vault.Apply says; the only new object is the new entry |
| MemoryVault.MemoryVault.Lookup | internal/vault/vault.go:183-194 | A copy of the entry, or closed / not found |
| MemoryVault.MemoryVault.Resolve | internal/vault/vault.go:196-212 | The binding loop computes the specified resolution |
| MemoryVault.MemoryVault.Bind | internal/vault/vault.go:214-226 | New whole state and answer |
| MemoryVault.MemoryVault.Unbind | internal/vault/vault.go:228-250 | New whole state and answer: all copies of the hosts go |
| MemoryVault.MemoryVault.SetStatus | internal/vault/vault.go:252-264 | New whole state and answer |
| MemoryVault.MemoryVault.Rotate | internal/vault/vault.go:266-280 | New whole state and answer, whether or not the guard holds |
| MemoryVault.MemoryVault.Delete | internal/vault/vault.go:282-301 | New whole state and answer: only the first listing is removed |
| MemoryVault.MemoryVault.MarkUse | internal/vault/vault.go:335-341 | One more use of a live entry, nothing else |
| MemoryVault.MemoryVault.Close | internal/vault/vault.go:343-351 | Everything is dropped and later operations fail |
| MemoryVault.MemoryVault.Values | internal/vault/vault.go:322-333 | Exactly the values of entries neither rejected nor archived, in some order |
| MemoryVault.MergeBindings | internal/vault/vault.go:365-381 | First occurrences of the old bindings, then of the new ones |
| BindingSlices.UnbindInPlace | internal/vault/vault.go:239-248 | Filtering into `e.Bindings[:0]` gives the filtered list; the tail of the shared array keeps stale hosts |
| BindingSlices.MergeInPlace | internal/vault/vault.go:365-381 | Merging into `existing[:0]` and appending, with or without reallocation, gives the merged list |
| BindingSlices.Push | internal/vault/vault.go:375-379 | append: in place while capacity lasts, else a copy that leaves the old array alone |
| SaveProtocol.NoLostUpdate | internal/vault/file.go:160-236 | In every interleaving in which saves succeed and are renamed in the order of their snapshots: dirty holds exactly when a timer is set, unsaved changes have a callback on its way, and a clean idle vault is on disk, up to use counts |
| SaveProtocol.SerialIsOrdered | internal/vault/file.go:160-236 | Saves that do not overlap are renamed in that order |
| DrainingSaves.DrainExactly | internal/vault/file.go:160-214 | For every state: the saves in flight leave the disk up to date, in whatever order they snapshot and rename, if and only if every snapshot already held is up to date and with none in flight the disk is |
| DrainingSaves.FailingDrainExactly | internal/vault/file.go:160-236 | When any of them may fail, if and only if besides the disk already is up to date |
| SaveProtocol.StepDurable | internal/vault/file.go:160-236 | The inductive invariant behind it, step by step |
| SaveProtocol.CloseAfterRunExactly | internal/vault/file.go:286-301 | From an opened vault, after any such run, with no mutator mid-way and no save in flight: everything that returned before Close is on disk after every interleaving of Close if and only if no callback waits for the lock and no timer but the current one is armed |
| SaveProtocol.CloseKeepsExactly | internal/vault/file.go:286-301 | For an arbitrary state as Close starts, reachable or not: kept if and only if besides that snapshots in flight are current and unmarked state is on disk |
| SaveProtocol.QuietCloseKeeps | internal/vault/file.go:286-301 | The keeping direction for one run |
| SaveProtocol.UnquietCloseLoses | internal/vault/file.go:228-301 | The losing direction, with the run that loses |
| SaveProtocol.PendingWipes | internal/vault/file.go:160-301 | A save that has yet to snapshot when Close ends leaves an empty vault on disk |
| SaveProtocol.OverlapLosesUpdate | internal/vault/file.go:216-236 | Counterexample to "serializes disk writes": two overlapping saves leave a stale file with nothing marked dirty |
| SaveProtocol.FailedSaveLosesUpdate | internal/vault/file.go:227-235 | A failed save is forgotten: clean, idle, and not on disk |
| SaveRuns.OverlapRun | internal/vault/file.go:216-236 | The overlap on a concrete vault: two values registered, the second in memory only |
| SaveRuns.FailedRun | internal/vault/file.go:227-235 | The failure on a concrete vault: one value registered, in memory only, and nothing will save it |
| SaveRuns.StrayTimer | internal/vault/file.go:216-236 | A run with saves renamed in order after which two values are in memory and on disk, nothing is dirty, and a timer no field names is armed |
| SaveRuns.StrayTimerWipes | internal/vault/file.go:216-301 | After that run Close returns, the timer fires, and the file holds an empty vault |
| SaveProtocol.MarkUseInvisible | internal/vault/vault.go:335-341 | MarkUse, which never marks dirty, changes nothing of what is saved but use counts |
| SaveProtocol.FileVault.MarkDirty | internal/vault/file.go:216-236 | Fields and timer after marking: nothing when closing, reset or create otherwise |
| SaveProtocol.FileVault.BeginSave | internal/vault/file.go:228-232 | What the callback does under the lock |
| SaveProtocol.FileVault.BeginClose | internal/vault/file.go:286-293 | What Close does under the lock |
| Blob.SaveLoadRoundTripExactly | internal/vault/file.go:94-212 | Loading a saved consistent vault restores maps, order and secret and sets the next identifier to the largest stored if and only if the secret is not empty and every string survives JSON, that is, is valid UTF-8 |
| Blob.UncleanValueForgotten | internal/vault/file.go:146-180 | A value that is no valid UTF-8 is known before a reload and not after it |
| Blob.ReopenAfterClose | internal/vault/file.go:94-301 | From an opened vault, after any run with saves renamed in order, a quiet Close in any interleaving and then opening the file give back the vault as it was when Close started, up to use counts, identifiers still rising |
| Opening.Lifecycle | internal/vault/file.go:62-301 | The same from any opening: no file, one in the old format, or one that save wrote; the vault opens again under the secret of the first opening with nothing left to save |
| Opening.StartsOpened | internal/vault/file.go:62-92 | Opening such a file starts from where the durability theorems do |
| Opening.LoadsExactly | internal/vault/file.go:94-158 | A file loads, and as what, exactly when it is magic, version, nonce and a ciphertext that opens to a payload with a secret, then with its entries and secret, or to a legacy array and no such payload, then with its entries, a new secret and to be saved |
| Opening.RefusedByFrame | internal/vault/file.go:99-119 | Files that are short, or do not begin with magic and version, or do not decrypt, are refused as such |
| Opening.PersistedFilled | internal/vault/file.go:146-170 | An image whose placeholders differ is what the vault it fills would be saved as |
| Opening.Load | internal/vault/file.go:94-158 | The branches and the filling loop |
| Opening.Save | internal/vault/file.go:161-196 | The loop over the order, and the frame |
| Opening.Open | internal/vault/file.go:62-92 | Result and save fields of an opening; a new vault and a legacy one are marked dirty |
| Blob.RefillRestores | internal/vault/file.go:146-156 | The filling loop rebuilds the state from its entries |
| Blob.LastIDBounds | internal/vault/file.go:152-155 | The restored counter bounds every live identifier, so new ones still rise, and never exceeds the old counter |
| Blob.Fill | internal/vault/file.go:146-156 | The loop equals its specification on any entry list, consistent or not |
| Blob.HexRoundTrip | internal/vault/file.go:122-169 | Hexadecimal decoding undoes encoding |
| Paste.ChunkIndependentExactly | internal/wrapper/wrapper.go:169-220 | Feeding a then any b equals feeding them at once if and only if the unconsumed tail of a ends in no proper prefix of the marker then sought |
| Paste.CleanCutIndependent | internal/wrapper/wrapper.go:169-220 | The independent direction |
| Paste.SplitTrailingPrefix | internal/wrapper/wrapper.go:286-297 | The largest such prefix length; zero exactly when nothing can straddle |
| Paste.PasteFilter.Process | internal/wrapper/wrapper.go:169-220 | The index loop computes the transducer's state and output |
| Paste.EveryByteAccounted | internal/wrapper/wrapper.go:169-252 | For any chunking the input factors into plain bytes, completed pastes and an open paste, and the output is that factorisation with, in place of each completed body, what the daemon answered for it, or the body if the call failed or the answer is empty, and the open body held back |
| Paste.EveryPasteScanned | internal/wrapper/wrapper.go:169-252 | Read in one piece the factorisation is the real one: no begin marker in plain bytes, no end marker in a body, so every complete paste is replaced by the daemon's answer |
| Paste.WholePaste | internal/wrapper/wrapper.go:169-252 | One paste typed with what follows it: out go the begin sequence, the daemon's answer (the paste itself if the call fails or the answer is empty), the end sequence, and the rest as typed in the plain |
| Paste.OutageConserves | internal/wrapper/wrapper.go:222-252 | With the daemon down or changing nothing, output plus buffer is the input |
| Frame.StreamExactly | internal/ipc/frame.go:14-50 | Reading n frames from a stream yields given payloads and rest if and only if the stream is those frames followed by that rest |
| Frame.ReadExactly | internal/ipc/frame.go:36-50 | One read yields a payload exactly when the stream starts with its frame and it is within the limit |
| Frame.CutShort | internal/ipc/frame.go:36-50 | Of every frame cut short, the read tells none, part of a header and part of a body apart |
| Frame.Refused | internal/ipc/frame.go:36-46 | A header is refused as too large exactly when it announces more than 16 MiB |
| Frame.PrefixFree | internal/ipc/frame.go:19-50 | No frame is a proper prefix of another |
| Frame.Stream.WriteFrame | internal/ipc/frame.go:19-32 | Appends header and payload, or refuses a payload over 16 MiB and writes nothing |
| Frame.Stream.ReadFrame | internal/ipc/frame.go:36-50 | Result and remaining stream in every case, errors included |
| Frame.Uint32OfPut | internal/ipc/frame.go:23-25 | The 32-bit big-endian length reads back |

## Left out

- Regular-expression tables, context heuristics, Shannon entropy, the placeholder hash, JSON, AES-GCM and key handling: parameters with the laws stated above.
- Daemon.Server.HandleScan: one scan is one step. The source runs a goroutine per connection, so that other requests can change the vault between Values and Register; such interleavings are not modelled. It requires that no value points at a missing entry, because the source dereferences nil there; WithoutRotation and ApplyConsistentExactly say when that is guaranteed, RotateThenReregisterPanics when not.
- Base64 and the request and response envelopes of the daemon, Notify events, banners and logs: not relevant to any property here. HandleScan and ScanAndRedact also return the detector's report, which the source keeps internal, so that contracts can speak of it.
- LiveStreaming.LiveStreamEqualsBuffering: equal outputs are proved from the condition; the converse is exact for the spans (StreamSpansExactly), not for the bytes, since a further span can be hidden behind an overlapping one or carry the text it replaces.
- SaveProtocol.NoLostUpdate: for runs that end with nothing in flight it asks for renames in snapshot order and no failure; what any state with saves in flight can lose is exact in DrainExactly and FailingDrainExactly.
- OrderIndependence.OutputUnique: the non-dictionary stages are deterministic functions of the text, as in the source.
- Vault.RunConsistent: the invariant of runs that leave the guards is not stated; a run may leave consistency and come back.
- MemoryVault.MemoryVault.Unbind: the class holds bindings as sequences; that the source filters within the entry's own array is proved separately in BindingSlices, and its one observable effect, a snapshot torn while it is being written, is a step of SaveProtocol. That no two entries and no caller share a bindings array is not proved; in the source it follows from the copies in Register and cloneEntry.
- SaveProtocol.CloseKeepsExactly: the final save of Close is assumed not to fail; a failing one is returned to the caller by the source.
- Blob.SaveLoadRoundTripExactly: one fixed secret and nonce per save; wall-clock fields of entries are not modelled.
- Frame.Stream.WriteFrame: the writer below it accepts every byte; its own I/O errors are not modelled.
- Paste.PasteFilter.Process: the scan is an arbitrary function of the body, fixed while the filter runs; the field that keeps a partial marker is written as in the source and, as there, never read.
- History.HistorySemantics: covers runs of an open vault; a closed one is ClosedForGood.
- memoryVault.List, the read-write lock of memoryVault (every operation is one step), timestamps, HTTP transport, gzip, the terminal, sockets, configuration and the user interface.
- URL and host extraction in the hook: the host list is an input.
