# AsterDrive: verified models of the redaction, configuration and shutdown cores

This project models, in Dafny, the parts of the AsterDrive server whose correctness depends on
whole strings, whole histories or every interleaving, and proves what those parts are for.

* **Error-message redaction** (`Text`, `Masking`, `MarkerRedaction`, `BearerRedaction`,
  `Sanitizer`, `Stretches`, `Credentials`, `Spelling`). Nine marker passes and a bearer pass rewrite a
  storage-driver message. In the final text every marker and every bearer header is followed by a
  complete mask; each pass is exactly a substitution of delimiter-free values. A marker pass is
  *not* idempotent: the closing bracket of the mask is itself a delimiter, so a second pass
  lengthens the text. It is idempotent on exactly the texts without the marker. For the same
  reason a secret can leave a trace: a value behind a marker does so exactly if it contains a
  marker that is handled before the first one occurring between the last delimiter and the value.
  An announced bearer credential is hidden exactly if the bearer pass is inside a credential when
  it comes to it; a header that was itself taken for a value announces nothing, and the credential
  behind it survives.
* **Audit scope** (`AuditScope`, `RuntimeConfigs`, `ConfigInterleavings`). A bit mask compiled
  from a configured list of actions is cached beside the configuration snapshot. The mask
  refines the set it was compiled from; the cache agrees with the snapshot after every
  non-overlapping call; under every interleaving of the atomic actions it belongs to one
  snapshot that was really installed. Exact agreement fails for some overlapping calls, and a
  concrete schedule shows it; the exact condition is given over every schedule, by its last store
  and what that thread had read.
* **Audit recovery and shutdown** (`AuditRecovery`, `JsonValues`, `Shutdown`). Write a temporary
  file, sync, rename: a step system over any number of attempts with a fault or a crash at every
  step, and the coded sequence as a run of that system; then the result chain of a terminating
  process, with the saved text determining every unconfirmed record.
* **CORS and public origins** (`Json`, `Ordering`, `Origins`, `Cors`, `CorsPolicy`, `SiteUrl`).
  Canonical forms down to the characters of the stored JSON, the legacy migration, the
  cross-checked keys as a state machine, the fail-closed policy reader, and the resolution of
  public origins.
* **Numeric settings** (`Decimal`, `Operations`). What a normaliser stores, the matching reader
  returns, exactly as far as the reader can represent it: very large byte limits fall back to the
  default, and very large speed limits switch limiting off.
* **Static configuration and process role** (`Loader`, `Role`). Generated secrets over any
  sequence of loads: they persist unless a rewrite of the file tears, and the files no fault can
  harm are exactly those that hold all secrets. Readiness and liveness over any run; task
  definitions registered once.

Code that works by updating variables in a loop or fields of an object is a method or a class
with a contract that ties it to a function; the laws are lemmas about that function. Code made
of expressions is functions and lemmas. What an elementary definition is (a delimiter, a port, an
accepted number, a name) is also stated literally, apart from the definition. Failures that the server reports as errors are `None`
or an error value. Strings are sequences of Unicode scalar values; all markers, headers and
delimiters are ASCII, so positions in characters and in UTF-8 bytes select the same pieces.

## Assumptions

* The snapshot store's `apply` and `remove` report a change exactly when they changed the
  snapshot; which models it takes is an input of the model (`accepted`). Replacing the snapshot
  installs what `from_configs` builds, and of equal keys the last one counts.
* `usize` is 64 bits wide.
* A URI's authority is read by the scanner of `Origins` (characters, brackets, at most one port
  colon, no percent sign); a fragment is dropped by the URI reader. The browser's serialisation
  of an origin removes a default port and requires a well-formed host.
* Recovery ids are fresh random ids: no two attempts share one.
* The JSON writer puts the members of an object in the order of their names.
* The audit writer's state does not change between its final report and the saving of its
  records; it has been stopped by then.

## Model

| member | source | states |
|---|---|---|
| `Masking.ValueStopIs` | src/errors.rs:923-930 | the end of a value is the only position that a delimiter-free stretch reaches and where the text ends or a delimiter stands |
| `Masking.DelimitersAre` | src/errors.rs:925-928 | the eleven delimiters |
| `Text.TrimMeans` | src/config/cors.rs:227-227 | trimming removes the outer white space and nothing else |
| `Text.SpacesAre` | src/config/cors.rs:227-227 | the white-space characters |
| `MarkerRedaction.RedactKeyValueAfterMarker` | src/errors.rs:911-938 | the loop over the shrinking rest terminates and computes the marker pass for every text and every non-empty marker |
| `MarkerRedaction.RedactGuards` | src/errors.rs:911-938 | after a pass every occurrence of its marker is followed by the mask and a boundary, and no pass breaks this for another marker |
| `MarkerRedaction.RedactIsSubstitution` | src/errors.rs:911-938 | every text is fragments, each but the last ending with its only marker, woven with delimiter-free values; the output is the same text with the mask for every value |
| `MarkerRedaction.RedactIgnoresValues` | src/errors.rs:911-938 | conversely, any text woven from such fragments and delimiter-free values gives the fragments with masks, so the output does not depend on the values |
| `MarkerRedaction.SecondPassGrows` | src/errors.rs:918-930 | a second pass never shortens the text, and lengthens it whenever the input had the marker |
| `MarkerRedaction.RedactTwice` | src/errors.rs:918-930 | a pass is idempotent on a text if and only if the text lacks the marker |
| `BearerRedaction.CredentialSuffix` | src/errors.rs:950-979 | where a header's credential starts does not depend on the text already consumed |
| `BearerRedaction.RedactAuthorizationBearer` | src/errors.rs:941-995 | the loop terminates on the redacting and on both `continue` paths and computes the bearer pass |
| `BearerRedaction.BearerIsMasked` | src/errors.rs:941-995 | for any mix of headers, every case-insensitive authorization header with the bearer scheme and blanks in the output is followed by the mask and a boundary |
| `BearerRedaction.BearerIsSubstitution` | src/errors.rs:941-995 | the input is fragments, each but the last announcing a bearer credential, woven with delimiter-free values; the output has the mask for every value and is otherwise unchanged |
| `BearerRedaction.BearerKeepsGuard` | src/errors.rs:829-842 | the bearer pass keeps every marker masked that was masked before it |
| `Sanitizer.MarkersAreMarkers` | src/errors.rs:829-839 | each of the nine markers has its only `=` at its end and no delimiter, bracket or colon |
| `Sanitizer.SanitizeMarkers` | src/errors.rs:829-844 | the loop over the nine markers followed by the bearer pass computes the fold |
| `Sanitizer.FoldGuards` | src/errors.rs:829-841 | a marker masked by one pass stays masked through all later passes |
| `Sanitizer.SanitizedIsMasked` | src/errors.rs:829-844 | for every text entering the fold, each of the nine markers and every bearer header in the final output is followed by the mask and a boundary |
| `Sanitizer.PassTreatsAlike` | src/errors.rs:911-938 | a pass treats two delimiter-free values behind the same marker alike, if it is that marker's pass or finds its own marker in neither: both are masked or both are kept in the same surroundings |
| `Sanitizer.FoldIgnoresValue` | src/errors.rs:829-841 | the passes give the same text for two values behind a marker in which no earlier handled marker occurs, behind any text |
| `Sanitizer.SanitizeIgnoresSecrets` | src/errors.rs:822-845 | texts that differ in any number of delimiter-free values behind the nine markers are sanitized to the same text, as long as no value contains a marker handled before its own |
| `Stretches.RedactSplits` | src/errors.rs:911-938 | a pass works separately on the text in front of a delimiter and on the text from it on |
| `Stretches.FoldOnStretch` | src/errors.rs:829-841 | what the nine passes make of any delimiter-free stretch in closed form: the kept text, one mask, and one closing bracket for each further pass that cut it |
| `Stretches.BearerSplits` | src/errors.rs:941-995 | the bearer pass works separately on the text in front of a closing bracket and on the text from it on |
| `Stretches.AlikeWhenCutAlike` | src/errors.rs:822-845 | two stretches cut down to the same text are sanitized alike if and only if equally many passes cut them |
| `Stretches.MarkersDiffer` | src/errors.rs:829-839 | no marker is the end of another one |
| `Stretches.CutLikeHead` | src/errors.rs:829-841 | a value behind a text ending with a marker changes nothing of what is kept, and adds a cut exactly if it contains a marker handled before all those in that text |
| `Stretches.ValueLeavesNoTrace` | src/errors.rs:822-845 | in every surroundings a value behind a marker leaves no trace if and only if it contains none of the markers handled before the first one that occurs between the last delimiter and the value |
| `Stretches.OwnValueLeavesNoTrace` | src/errors.rs:822-845 | in particular, without another marker in front, if and only if it contains none handled before its own |
| `Stretches.InnerMarkerShows` | src/errors.rs:829-841 | the sanitizer distinguishes `sig=AccountKey=x` from `sig=x` |
| `Credentials.TakenStep` | src/errors.rs:941-995 | where the bearer pass is inside a credential at the end of a text, it takes what follows along up to the next delimiter, behind any number of earlier headers |
| `Credentials.UntakenSplits` | src/errors.rs:941-995 | where it is not, although that text announces a credential, it treats what follows as if the text were not there |
| `Credentials.CredentialHiddenExactly` | src/errors.rs:941-995 | two different header-free credentials behind an announcing text are treated alike if and only if the pass is inside a credential at its end; otherwise they survive as they are |
| `Credentials.BearerIgnoresValues` | src/errors.rs:941-995 | any text woven from fragments that the pass reaches through and delimiter-free values is redacted to the fragments with masks, so the output does not depend on the credentials |
| `Credentials.CutsAreReached` | src/errors.rs:941-995 | the fragments of the pass's own cuts are all of that kind |
| `Credentials.HeaderAsCredential` | src/errors.rs:946-991 | a header standing where a credential is expected is taken for it, and the credential it announces stays, for every token |
| `Credentials.SanitizeIgnoresCredentials` | src/errors.rs:822-845 | the whole sanitizer is blind to any number of marker-free credentials that the bearer pass reaches in the folded text |
| `Credentials.CredentialTrace` | src/errors.rs:822-845 | what the sanitizer leaves of any credential, the first or a later one, that the bearer pass takes in the folded text: one bracket for each marker pass that cut it; none exactly if the credential contains no marker |
| `Credentials.SanitizeHidesExactly` | src/errors.rs:822-845 | the whole sanitizer treats two different marker- and header-free credentials alike if and only if the bearer pass is inside a credential at the end of the folded text in front of them |
| `Credentials.HeaderAsValue` | src/errors.rs:829-844 | a marker pass can take the header for its value: what follows `AccountKey=Authorization: Bearer ` stays |
| `Credentials.TokenSurvives` | src/errors.rs:829-844 | in particular `AccountKey=Authorization: Bearer TOK` becomes `AccountKey=[redacted] Bearer TOK` |
| `Spelling.CredentialIsSpelled` | src/errors.rs:952-979 | a credential starts behind a header exactly where blanks, the letters of `bearer` each small or capital, and one or more blanks end; otherwise there is none |
| `Spelling.SpelledCredentialIsMasked` | src/errors.rs:941-995 | behind text in which no header starts, a header and scheme spelled in any mix of cases with blanks between make the bearer pass replace the value up to the next delimiter by `[redacted]` and go on behind it |
| `Spelling.SpelledHeadersAreMasked` | src/errors.rs:941-995 | in every output of the pass and of the sanitizer, each header and scheme so spelled stand before `[redacted]` and the end or one of the eleven delimiters |
| `Spelling.NineMarkersAreMasked` | src/errors.rs:829-844 | for every text, each of the nine markers, by name, is followed by `[redacted]` and the end or a delimiter in the output |
| `Spelling.OtherTextIsKept` | src/errors.rs:829-844 | a text with none of the nine, by name, and no header in any case comes out unchanged |
| `AuditScope.SetMaskBit` | src/config/audit.rs:169-175 | the in-place update of the word array is the bit update on sequences |
| `AuditScope.WithBitContains` | src/config/audit.rs:169-183 | setting one bit sets that action and disturbs no other, within its word or across words |
| `AuditScope.FoldBitsContains` | src/config/audit.rs:129-134 | a mask folded from a list contains exactly the actions of the list |
| `AuditScope.BuildMask` | src/config/audit.rs:154-167 | the array that is filled bit by bit holds the folded mask |
| `AuditScope.LookUpName` | crates/aster_drive_model/src/types/audit.rs:1483-1509 | with distinct names every action is found under its own name |
| `AuditScope.ParseRecordedActions` | src/config/audit.rs:99-121 | the loop with its seen-array accepts exactly the JSON lists of known names without repetition and returns their actions in order |
| `AuditScope.RecordedMeans` | src/config/audit.rs:99-121 | a list is refused exactly for an unknown or repeated name; otherwise it stands for the catalogue positions of its names in order |
| `AuditScope.NormalizeRecordedActions` | src/config/audit.rs:72-97 | the loop with its selected-array gives the chosen names once each in catalogue order, and refuses workspace mutations |
| `AuditScope.NormalizedMeans` | src/config/audit.rs:72-97 | storing is refused exactly for a workspace mutation; otherwise exactly the chosen names are stored, each once, in catalogue order |
| `AuditScope.NormalFormIsStable` | src/config/audit.rs:72-121 | the normal form is its own normal form, parses to the same set of actions, and lists them in ascending catalogue order |
| `AuditScope.NormalFormIsCanonical` | src/config/audit.rs:72-97 | two accepted values have the same normal form if and only if they name the same set of actions |
| `AuditScope.MaskRefinesSet` | src/config/audit.rs:19-35 | for any catalogue and any raw values an action is recorded if and only if logging is enabled, it is no workspace mutation, and the raw list is absent, invalid or names it |
| `AuditScope.NormalFormKeepsScope` | src/config/audit.rs:72-144 | replacing a raw list by its normal form changes the decision for no action |
| `AuditScope.BoolLikeMeans` | src/config/bool_like.rs:1-7 | the eight words of a switch, in any case and with spaces around |
| `AuditScope.EnabledMeans` | src/config/audit.rs:19-22 | only a word for off switches recording off |
| `RuntimeConfigs.StepAgrees` | src/config/runtime_config.rs:59-132 | every reload, apply and remove keeps the cached settings equal to those compiled from the snapshot, also for ignored applies, absent keys, unrelated keys and failed reads |
| `RuntimeConfigs.OtherKeysDoNotMatter` | src/config/runtime_config.rs:141-147 | snapshots that differ only in a key outside the two audit keys compile to the same settings |
| `RuntimeConfigs.HistoryAgrees` | src/config/runtime_config.rs:24-66 | after any history of calls from a new configuration the cache agrees with the current snapshot |
| `RuntimeConfigs.HistoryDecides` | src/config/runtime_config.rs:96-101 | after any such history each recording decision is the one the currently stored raw values call for |
| `RuntimeConfigs.LastModelCounts` | src/config/runtime_config.rs:60-61 | of the fetched models with a key the last one is stored |
| `RuntimeConfigs.KeysOfModels` | src/config/runtime_config.rs:60-61 | a key is present exactly if some fetched model has it |
| `RuntimeConfigs.CallDecides` | src/config/runtime_config.rs:59-132 | each call stores what it is about under its key and leaves every other key alone |
| `RuntimeConfigs.LastCallDecides` | src/config/runtime_config.rs:59-132 | after any history, what is stored under a key is what the last reload, accepted apply or removal concerning it left |
| `RuntimeConfigs.NothingWithoutCall` | src/config/runtime_config.rs:24-32 | without such a call nothing is stored |
| `RuntimeConfigs.RuntimeConfig.constructor` | src/config/runtime_config.rs:24-32 | an empty snapshot with the default settings agrees |
| `RuntimeConfigs.RuntimeConfig.Reload` | src/config/runtime_config.rs:59-66 | after a read, the keys are those of the fetched models, each with its last model, and the settings agree; a failed read leaves both as they were |
| `RuntimeConfigs.RuntimeConfig.Apply` | src/config/runtime_config.rs:119-125 | an accepted model is stored under its key and every other key is as before, an ignored one changes nothing, and the settings stay in agreement |
| `RuntimeConfigs.RuntimeConfig.Remove` | src/config/runtime_config.rs:127-132 | the key is gone, everything else is kept, and the settings stay in agreement |
| `RuntimeConfigs.RuntimeConfig.ShouldRecordAuditAction` | src/config/runtime_config.rs:96-101 | the answer from the cached mask is the answer of the stored raw values |
| `ConfigInterleavings.FireKeepsInv` | src/config/runtime_config.rs:59-66 | every atomic action of every thread keeps: the cached settings, and those each thread carries, belong to one snapshot, no older than the thread's own change |
| `ConfigInterleavings.NeverTorn` | src/config/runtime_config.rs:119-132 | this holds through every schedule of any number of calls |
| `ConfigInterleavings.EveryInterleavingIsWhole` | src/config/runtime_config.rs:59-147 | from a new configuration, in every interleaving, the cached settings are those compiled from one snapshot that was installed at some moment |
| `ConfigInterleavings.StoreIsNoOlder` | src/config/runtime_config.rs:119-125 | a call that stores settings leaves the cache no older than its own change |
| `ConfigInterleavings.CurrentExactly` | src/config/runtime_config.rs:59-147 | over every schedule the cache is current if and only if the snapshot it was built from compiles to the current settings, and it is if no install since changed an audit key's raw value |
| `ConfigInterleavings.CacheDecides` | src/config/runtime_config.rs:96-101 | over every schedule each cached decision is the one that snapshot's raw values call for |
| `ConfigInterleavings.StaleExactly` | src/config/runtime_config.rs:59-147 | over every schedule a cached decision is stale if and only if the raw audit values at the cache's source and in the current snapshot call for different decisions |
| `ConfigInterleavings.SourceIsLastRead` | src/config/runtime_config.rs:59-132 | that snapshot is the one that was current when the thread of the last store read it |
| `ConfigInterleavings.LastStoreDecides` | src/config/runtime_config.rs:59-147 | the exact condition in terms of the schedule: its last store, that thread's read, and the installs behind the read |
| `ConfigInterleavings.LastStoreShape` | src/config/runtime_config.rs:59-132 | every schedule that can be run and has a store is covered: its last store comes from a thread that read before and did nothing in between |
| `ConfigInterleavings.SourceWithoutStore` | src/config/runtime_config.rs:24-32 | without a store it is the empty snapshot of the beginning |
| `ConfigInterleavings.CallAloneRepairs` | src/config/runtime_config.rs:59-132 | behind any schedule, a reload or a call that changes an audit key leaves the cache current if it runs alone to its store |
| `ConfigInterleavings.SoloStaysQuiet` | src/config/runtime_config.rs:59-132 | while calls do not overlap, no audit key changed since the snapshot the cache, or the running call, was built from |
| `ConfigInterleavings.NonOverlappingFromStart` | src/config/runtime_config.rs:24-132 | so after every schedule of non-overlapping calls the cache is current whenever none is running |
| `ConfigInterleavings.AloneIsStep` | src/config/runtime_config.rs:59-132 | the atomic actions of a call that runs alone do to snapshot and cache exactly what the call does |
| `ConfigInterleavings.OverlapCanLeaveStale` | src/config/runtime_config.rs:119-125 | two overlapping applies can leave the cache different from the current snapshot's settings after both returned; the schedule is given |
| `AuditRecovery.ActKeepsInv` | src/runtime/audit_recovery.rs:78-106 | each file operation, succeeding or failing, keeps the description of what every attempt's files look like at its point |
| `AuditRecovery.ExecKeepsInv` | src/runtime/audit_recovery.rs:45-106 | so does every schedule of any number of attempts, stopped at any step |
| `AuditRecovery.RecoveryIsSafe` | src/runtime/audit_recovery.rs:45-106 | over every schedule of faults and crashes a published file is an untouched old one or holds an attempt's complete payload; a saved attempt has published; no old file is altered unless an attempt reuses a published id; a returned attempt leaves a temporary file only if its removal failed |
| `AuditRecovery.Disk.CreateNew` | src/runtime/audit_recovery.rs:86-90 | opening creates an empty file and fails if the name exists |
| `AuditRecovery.Disk.WriteAll` | src/runtime/audit_recovery.rs:92-92 | writing stores the whole content or, failing, a part of it |
| `AuditRecovery.Disk.Move` | src/runtime/audit_recovery.rs:101-101 | renaming moves the content and removes the old name, or changes nothing |
| `AuditRecovery.StageTemporary` | src/runtime/audit_recovery.rs:78-100 | staging succeeds exactly without a fault and with a free name; then the temporary file holds the whole payload, else at most a leftover with failed removal remains |
| `AuditRecovery.PreserveUnconfirmed` | src/runtime/audit_recovery.rs:45-106 | saving succeeds exactly when nothing fails and the name is free; then the published file with the whole payload is the only change; a failure changes nothing but a leftover whose removal failed; the operations are a run of the step system |
| `AuditRecovery.AttemptRuns` | src/runtime/audit_recovery.rs:45-106 | the operations of a coded attempt are a run of the step system, begun in any state under a fresh id |
| `AuditRecovery.CodedAttemptIsReached` | src/runtime/audit_recovery.rs:45-106 | so the safety of whole runs holds for a coded attempt behind any run of others |
| `JsonValues.RenderUnique` | src/runtime/audit_recovery.rs:68-77 | two JSON values are rendered alike if and only if they are equal |
| `Shutdown.PayloadDetermines` | src/runtime/audit_recovery.rs:49-77 | the saved text determines the whole report, with every record in order |
| `Shutdown.PayloadMembers` | src/runtime/audit_recovery.rs:68-77 | which member of the saved object holds which count, class and record, by name |
| `Shutdown.RecordMembers` | src/runtime/audit_recovery.rs:54-64 | which member of a saved record holds what, by name |
| `JsonValues.RenderedForm` | src/runtime/audit_recovery.rs:68-77 | the rendered text of lists and objects: brackets or braces around the comma-separated parts |
| `Shutdown.SavedIsNotLost` | src/runtime/audit_recovery.rs:25-40 | the message that the records were saved is never the message that saving failed |
| `Shutdown.FinishAudit` | src/runtime/audit_recovery.rs:10-43 | with no queued and no pending record the result passes through and no file changes; otherwise the file is saved or not according to what fails, and the text says so with the sum of both counts and the original error in front |
| `Shutdown.FinishProcess` | src/runtime/assembly.rs:160-171 | the chain is Ok if and only if the runtime was, neither a queued nor a pending record remained and a metrics provider shut down; the literal message in each other case, an original error at its front; "saved to" means the published file is complete and determines every record; the writer keeps its records |
| `Json.ReadEscaped` | src/config/audit.rs:146-152 | reading undoes the escaping of any character |
| `Json.RoundTrip` | src/config/cors.rs:204-212 | decoding the encoded form of any list of strings gives the list back |
| `Json.EncodedIsTrimmed` | src/config/cors.rs:163-170 | encoded lists start with a bracket and trimming leaves them alone |
| `Json.EncodedForm` | src/config/cors.rs:204-212 | the written form: quoted elements with commas between in brackets, without white space |
| `Json.EscapesAre` | src/config/cors.rs:210-211 | how the writer escapes, character by character |
| `Json.ReadsAre` | src/config/cors.rs:168-170 | which escapes the reader takes, and that raw control characters and other escapes are refused |
| `Json.UnicodeMeans` | src/config/cors.rs:168-170 | which character a four-digit escape stands for, and that surrogates do not stand alone |
| `Json.SurrogatesMean` | src/config/cors.rs:168-170 | which character a surrogate pair stands for, and that a high surrogate with any other escape is refused |
| `Json.SpacedIsRead` | src/config/cors.rs:168-170 | white space around the array, its elements and commas is ignored |
| `Json.MalformedIsRefused` | src/config/cors.rs:168-170 | text behind the array, anything but an array, and elements that are no strings are refused |
| `Ordering.InsertSorted` | src/config/cors.rs:172-186 | inserting keeps the set strictly sorted |
| `Ordering.SortedIsUnique` | src/config/cors.rs:200-200 | two strictly sorted lists with the same elements are equal |
| `Ordering.LessMeans` | src/config/cors.rs:172-172 | the order: the smaller character at the first difference, or the proper beginning, comes first |
| `Origins.NormalIsFixed` | src/config/cors.rs:222-280 | a lower-case scheme and authority in normal form are normalised to themselves |
| `Origins.NormalizeIsIdempotent` | src/config/cors.rs:222-280 | normalising an accepted origin again changes nothing, and its normal form is trimmed |
| `Origins.OriginMeans` | src/config/cors.rs:222-280 | which origins are accepted, exactly, and what they become: an allowed scheme, a valid authority and at most a root path; a path or query is refused |
| `Origins.OtherOriginsAreRefused` | src/config/cors.rs:227-244 | the wildcard is taken only where allowed; blank origins and those without a scheme are refused |
| `Origins.HostNamesAreAccepted` | src/config/cors.rs:252-254 | a host name with or without port is a valid authority, a second colon is not |
| `Origins.BracketsAreAccepted` | src/config/cors.rs:252-254 | a bracketed address with or without port is valid; an open bracket and a percent sign are not |
| `Origins.StrangeAuthorityIsRefused` | src/config/cors.rs:256-260 | user information and other foreign characters are refused |
| `Origins.ExtensionsAre` | src/config/cors.rs:19-20 | the three extension schemes |
| `Cors.ParseAllowedOriginsValue` | src/config/cors.rs:162-202 | the loop over the entries, with its sorted set and wildcard flag, computes the parsed list or the refusal |
| `Cors.CollectMeaning` | src/config/cors.rs:172-187 | a list is refused if and only if an entry is invalid; otherwise the collected set is strictly sorted and holds exactly the normal forms of the entries, and the flag says whether a wildcard occurs |
| `Cors.ParsedMeans` | src/config/cors.rs:189-201 | the parsed list, exactly: refused with an invalid entry or a wildcard beside another origin, else any, none, or exactly the named origins |
| `Cors.EntryMeans` | src/config/cors.rs:175-187 | one entry: trimmed, skipped if empty, else normalised with the extension schemes |
| `Cors.ValueMeans` | src/config/cors.rs:162-170 | a blank value is no origin and a malformed one is refused |
| `Cors.OrderDoesNotMatter` | src/config/cors.rs:172-202 | lists with the same entries, in any order and repetition, parse alike |
| `Cors.SerializeParses` | src/config/cors.rs:204-212 | a canonical list is read back from its serialised form |
| `Cors.ParsedIsCanonical` | src/config/cors.rs:162-202 | every parsed list is non-empty, strictly sorted, without a wildcard, and each entry its own normal form |
| `Cors.NormalFormIsStable` | src/config/cors.rs:123-126 | parse after serialize after parse is parse, and normalising is idempotent |
| `Cors.NormalFormIsCanonical` | src/config/cors.rs:123-126 | two accepted values have the same normal form if and only if they parse to the same list |
| `Cors.LegacyMeans` | src/config/cors.rs:133-142 | a comma-separated value migrates to the list of its parts |
| `Cors.SplitMeans` | src/config/cors.rs:133-134 | the parts are free of commas and joined by commas give the value back |
| `Cors.NonEmptyTrimmedSnoc` | src/config/cors.rs:135-138 | empty parts are dropped, the others kept trimmed and in order |
| `Cors.JsonMigratesAsJson` | src/config/cors.rs:129-131 | a value that is a JSON list already goes through the JSON normaliser |
| `Cors.MigrationIsStable` | src/config/cors.rs:128-143 | a migrated value migrates to itself and is its own JSON normal form |
| `CorsPolicy.BoolTextReads` | src/config/cors.rs:295-301 | a stored flag is read alike by the strict and by the lenient reader |
| `CorsPolicy.StepIsSafe` | src/config/definitions.rs:463-494 | no accepted or refused write and no removal of any of the four keys leaves the states with normal values and without a wildcard beside credentials |
| `CorsPolicy.ReachableIsSafe` | src/config/definitions.rs:841-892 | every store reachable from the defaults is such a state, whichever key is written last |
| `CorsPolicy.NeverWildcardWithCredentials` | src/config/definitions.rs:463-494 | in no reachable store does the list `["*"]` stand beside credentials switched on, in whatever order they were written |
| `CorsPolicy.AdmittedExactly` | src/config/definitions.rs:463-494 | which writes of each key are admitted, exactly, and what is stored |
| `CorsPolicy.FlagsRead` | src/config/cors.rs:295-301 | the words both flag readers take for on, and the preflight age with its default |
| `CorsPolicy.StepTouchesOwn` | src/config/definitions.rs:463-494 | a write touches its own key and only if admitted; a removal forgets its key and nothing else |
| `CorsPolicy.DefaultsDeny` | src/config/definitions.rs:841-892 | the defaults are switched off; switched on alone they allow no origin and no credentials for an hour |
| `CorsPolicy.StoredIsFixedPoint` | src/config/definitions.rs:463-494 | in such a state every stored value would be admitted again, unchanged |
| `CorsPolicy.PolicyFailsClosed` | src/config/cors.rs:22-112 | for arbitrary raw values the policy never has any origin together with credentials, a disabled one is the closed default, and an invalid or contradictory configuration allows no origin |
| `CorsPolicy.PolicyReadsBack` | src/config/cors.rs:47-111 | on every reachable store with CORS enabled the policy is exactly what the stored texts denote; no fallback is taken |
| `CorsPolicy.WriteReadsBack` | src/config/cors.rs:47-111 | after an accepted write to a reachable store, an enabled policy shows the written value as parsed from the written text |
| `SiteUrl.ParsePublicSiteUrl` | src/config/site_url.rs:58-69 | the strict loop accepts exactly the lists of valid origins and gives their serialised forms once each |
| `SiteUrl.PublicSiteUrls` | src/config/site_url.rs:78-115 | the tolerant loop gives the valid entries' serialised forms once each, and nothing for an unreadable value |
| `SiteUrl.TolerantIsStrictOnValid` | src/config/site_url.rs:58-115 | the tolerant reader is the strict parser on the valid entries alone, equals it wherever it accepts, and the strict parser refuses exactly when some entry is invalid |
| `SiteUrl.DedupeMeaning` | src/config/site_url.rs:63-65 | deduplication keeps each origin once, in the order of first occurrence |
| `SiteUrl.ValidOriginsInOrder` | src/config/site_url.rs:95-112 | the valid entries come in the order of the list |
| `SiteUrl.SerializedIsFixed` | src/config/site_url.rs:51-55 | the serialisation without default port is a fixed point |
| `SiteUrl.OriginIsFixed` | src/config/site_url.rs:38-56 | an accepted origin is accepted again as itself, and is trimmed and not empty |
| `SiteUrl.PlainOriginMeans` | src/config/site_url.rs:38-56 | a host name under http or https in any case becomes its lower-case form; port 443 of https and 80 of http are dropped, every other port is kept |
| `SiteUrl.DefaultPortsAre` | src/config/site_url.rs:51-55 | the default ports by number |
| `SiteUrl.BadPortsAreRefused` | src/config/site_url.rs:39-43 | ports beyond 16 bits or without digits, and wildcards, are refused |
| `SiteUrl.EntriesMean` | src/config/site_url.rs:17-36 | the entries are those of the JSON list that are not blank, trimmed and in order |
| `SiteUrl.StoredListIsStable` | src/config/site_url.rs:9-15 | the stored list is its own normal form, and the request path reads exactly the origins that were written |
| `SiteUrl.RequestGetsConfigured` | src/config/site_url.rs:121-139 | a request gets only a configured origin: its own if listed, else the first valid one; none exactly if no entry is valid |
| `Decimal.PrintThenParse` | src/config/operations.rs:920-944 | a printed number is trimmed and reads back, for every width it fits |
| `Decimal.ParsedMeans` | src/config/operations.rs:932-944 | which texts are read as which number, with signs and the type's range |
| `Decimal.OthersAreRefused` | src/config/operations.rs:932-944 | all other texts are refused |
| `Decimal.ValueMeans` | src/config/operations.rs:932-944 | digits count by their decimal position |
| `Decimal.NoLeadingZero` | src/config/operations.rs:920-930 | printed numbers have no leading zero |
| `Operations.StoredReadsBack` | src/config/operations.rs:151-245 | for every family of settings, what the normaliser stores is its own normal form, re-parses to the written number, and reads back as what that number means if and only if the reader can represent it: a byte limit up to the `i64` maximum, a speed limit while its bytes fit 64 bits, any other always |
| `Operations.BeyondTheReader` | src/config/operations.rs:634-651 | an accepted byte limit beyond that gives the default, an accepted speed limit beyond that switches limiting off |
| `Operations.AcceptedLimitSwitchesOff` | src/config/operations.rs:634-651 | the least such speed limit is 2^44, and one less still limits |
| `Operations.AcceptedMeans` | src/config/operations.rs:151-245 | which numbers each normaliser accepts, in literal bounds, and that it stores their digits |
| `Operations.OtherTextsAreRefused` | src/config/operations.rs:932-944 | every other text is refused by every normaliser |
| `Operations.RawNumberMeans` | src/config/operations.rs:907-1064 | what each reader makes of any stored 64-bit number, accepted or not, in literal bounds |
| `Operations.FallbackMeans` | src/config/operations.rs:946-1064 | what each reader gives without a usable value |
| `Operations.StoredIsCanonical` | src/config/operations.rs:920-944 | two accepted texts are stored alike if and only if they denote the same number |
| `Operations.DispatchBounds` | src/config/operations.rs:354-371 | for arbitrary raw values 1 ≤ interval ≤ idle maximum ≤ 164 |
| `Operations.IdleMaxReadsBack` | src/config/operations.rs:363-371 | a stored idle maximum is raised only to the poll interval |
| `Operations.ConcurrencyBounds` | src/config/operations.rs:184-193 | for arbitrary raw values task concurrency lies in 1..16 and a cluster quota is absent or in 1..65536 |
| `Loader.InsertMissing` | src/config/loader.rs:253-271 | the loop adds exactly the secrets that neither the file nor the environment has, and reports whether there were any |
| `Loader.BackfillHas` | src/config/loader.rs:267-270 | a key is there afterwards exactly if it was, or is a secret the environment does not supply; old values stay and new ones are the generated ones |
| `Loader.ConfigFile.Rewrite` | src/config/loader.rs:214-217 | writing replaces the content, changes nothing when refused, and leaves a part when it fails behind the truncation |
| `Loader.ConfigFile.EnsureDefaultExists` | src/config/loader.rs:186-193 | a default file is created exactly if there was none and the write succeeds |
| `Loader.ConfigFile.LoadFromPath` | src/config/loader.rs:111-159 | the file becomes what the load function says, with the report of what was created and added |
| `Loader.LoadGrows` | src/config/loader.rs:222-285 | one load keeps every key of the file and all other content and adds only secrets, unless its rewrite tears; then the file is what the torn write left |
| `Loader.SafeUnderEveryFault` | src/config/loader.rs:273-284 | under an environment every load keeps the file whatever fails, if and only if there is nothing to backfill or the file is refused; the only-if half needs no other tear than the truncation, or a cut table name in a file that held nothing |
| `Loader.SecretsPersist` | src/config/loader.rs:111-285 | over any sequence of loads in which no rewrite tears, under any environments and other failures, what the file once held never changes and only secrets are added |
| `Loader.NeverChanges` | src/config/loader.rs:222-285 | a file that holds all secrets, or is refused, is never changed again, by any loads under any environments and any faults |
| `Loader.PersistExactly` | src/config/loader.rs:222-285 | every sequence of loads keeps the file, whatever fails, if and only if the file holds all secrets or is refused, with the same tears |
| `Loader.TruncationReplacesSecrets` | src/config/loader.rs:273-284 | a file that lacks a secret can be truncated by a failing rewrite, and the next load then succeeds and replaces every secret |
| `Loader.EnvironmentIsNotStored` | src/config/loader.rs:267-270 | the backfill never adds a secret that the environment supplies: after a load without a torn write the file has it exactly if it had it when the backfill started |
| `Loader.FirstStartStores` | src/config/loader.rs:186-193 | on a first start the default file has every secret, also those the environment supplies |
| `Loader.FirstStartContents` | src/config/loader.rs:195-217 | what a first start writes: the generated secrets, the other defaults and the rest |
| `Loader.LoadReports` | src/config/loader.rs:111-159 | when a load succeeds and what it reports as created and added |
| `Loader.BadFilesFail` | src/config/loader.rs:230-251 | a file that is no TOML, or whose `auth` is no table, fails the load and stays as it is |
| `Loader.SuppliedIsNeverStored` | src/config/loader.rs:267-270 | over any sequence of loads whose environments supply it and whose rewrites do not tear, an existing file has the secret exactly if it had it at the beginning |
| `Loader.LoadSettles` | src/config/loader.rs:111-159 | after a successful load every secret is in the file or the environment, and loading again under the same environment writes nothing |
| `Loader.VariablesAre` | src/config/loader.rs:287-289 | the six environment variables by name |
| `Loader.SixSecretsAreThere` | src/config/loader.rs:253-271 | after a successful load each of the six secrets, by name, is in the file or supplied by its variable |
| `Loader.OnlySixSecrets` | src/config/loader.rs:253-266 | and no others are secrets |
| `Role.RunMeaning` | src/runtime/role.rs:41-47 | after any run the flags say which events occurred and each consumer shows its last report |
| `Role.HealthOfRun` | src/runtime/role.rs:49-69 | readiness and liveness are decided by the events: never ready before initialisation, never again after cancellation, and live once initialised and cancelled |
| `Role.ReadyImpliesLive` | src/runtime/role.rs:49-69 | if consumers are ready only while running, ready implies live after every run |
| `Role.RegisteredOnce` | src/runtime/assembly.rs:58-112 | for every catalogue a task-consuming role registers each definition exactly as often as it is listed, and an Api role only the cleanup ones |
| `Role.ComponentsRegister` | src/runtime/assembly.rs:70-108 | which component registers which definitions, and which components each role has, by name |

## Left out

- The rewriting of URL-shaped words before the marker fold (`src/errors.rs:823-909`): it rests on the URL library; the theorems start at the fold and hold for every string that enters it.
- AuditRecovery.RecoveryIsSafe: durability of the renamed directory entry across a power failure; the code syncs only the file, so the model has process crashes.
- Loader.ConfigFile.Rewrite: which part a torn write leaves is an input of the model; TOML's syntax is not part of it.
- Origins.NormalizeIsIdempotent: the length limits of the URI reader; authorities with user information are refused by the source and by the scanner alike.
- SiteUrl.OriginIsFixed: internationalised names, IPv4 shorthand and the compression of IPv6 addresses in the browser's serialisation.
- SiteUrl.SerializedIsFixed: the same address forms.
- The wording of validation errors; a refused value is `None`. The shutdown texts are modelled because their content is promised.
- Locks, the database and asynchronous scheduling below the level of the atomic actions of `ConfigInterleavings`.
- The concrete action catalogue with its names and indices; every result holds for any catalogue with distinct names.
- Boolean settings, download engines, deployment, mail, branding and WOPI validators: they would only add single-branch checks.
- HTTP assembly, routes, command line, error-to-status tables, pagination cursors and trusted-proxy handling: tables and plumbing, or algorithms that live in other crates.
