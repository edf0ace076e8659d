# Verified models of the scanners, folds and protocols

A Dafny model of the stateful core of the repository: its concurrent work pool, the projector and parsers that
fold event streams, its quote-aware scanners and argument grammars, the redactors that rewrite trees, the
validator/scorer/oracle triangle of the memory-review evaluation, and the arithmetic of its truncation and
fingerprint. For each of them the model states what the code is for, independently of how the code does it, and
proves the two agree on every input.

`dafny verify dfyconfig.toml` checks the whole project.

## How the model is laid out

| file | models | main results |
|---|---|---|
| `WorkPool.dfy` | lanes claiming indices from a shared counter | safety, the limit that is kept and can be reached, termination and final state of every interleaving |
| `CustomerActivity.dfy` | the customer transcript projector | rows are the maximal runs and read as the events of each; idempotence; conservation; details account for every key |
| `TraceTools.dfy`, `AgentTraces.dfy` | call/output correlation in the two transcript parsers | first-reply and last-reply rules over the records alone |
| `Segments.dfy` | splitting a command at its top-level operators | pieces between operators outside quotations; fixpoint; quoted text never splits |
| `SecretImport.dfy` | the KEY=VALUE import grammar | what each line means; round trip; when scan and decoder agree; what an accepted line consists of; canonical form, exactly when it fits the byte limit |
| `SandboxLines.dfy`, `SandboxEnv.dfy`, `SandboxCanonical.dfy` | logical lines, ENV bodies and the canonical text of a sandbox layer | line partition and where reading stops; tokens as stretches between gaps; ENV bodies can set exactly the writable values; what the canonical text holds; equal exactly when the sources mean the same |
| `GithubArgv.dfy` | the grammar of allowed `gh pr` commands | accepted exactly when an arrangement, and why refused otherwise; order does not matter; unambiguous |
| `SkillCommands.dfy` | slash commands in front of a prompt | decomposition; round trip; canonical form |
| `LazyRedaction.dfy` | copy-on-write redaction of heap values | equal to the eager map, place by place; same reference exactly when nothing changed; nothing old is written |
| `DepthRedaction.dfy` | depth-limited redaction of telemetry | nesting bound on cyclic graphs; every secret-named key holds the placeholder, span snapshots aside; what is kept, redacted and cut off at every place |
| `ReviewJson.dfy`, `FixtureLoader.dfy`, `OutputScorers.dfy`, `ReviewRunner.dfy` | the memory-review evaluation | the loader accepts exactly the sound documents; what each scorer requires; all seven pass exactly for perfect outputs, stated on the documents alone; the oracle passes on everything the loader accepts |
| `RepoGuess.dfy` | repository guessing under an arbitrary classifier | the guess in terms of candidates, texts and answer; matches are candidates; order and repetition of candidates do not matter, and when they show in what is offered |
| `TaskDenoising.dfy` | the fingerprint and the removal of injected context | what the fingerprint is, bit by bit; one changed code unit always shows; peeling inverts wrapping, uniquely |
| `Truncation.dfy` | two truncators with a marker that prints its own omission | exact length; bounds; when truncating twice is truncating once |
| `DisconnectMask.dfy` | the mask over short reconnects | when a mask exists, what it hides and for how long |
| `Option.dfy`, `JsText.dfy`, `Quotes.dfy`, `Utf16.dfy`, `Sorting.dfy` | shared text, quotation and sorting primitives | trimming finds the only tight middle; sorted forms agree exactly for permutations |

Code that works by loops over mutable state is a method with loop invariants, proved equal to a specification
function or to a declarative predicate; the theorems are then about that specification. Patterns that only
recognise tokens, case folding, collation, JSON printing, URL parsing and the classifier are function parameters,
so every theorem holds for whatever they do, under the laws it names (`Lawful`: the comparison is a total order that
tells apart the strings it is used on; `PrintsApart`: the printer gives different documents different texts).

Some promises hold only under a condition, and each is proved with the exact one:

* The pool returns an array of holes exactly when the concurrency is zero or less and there is something to do
  (`WorkPool.FilledIffSomeLane`).
* A row of the transcript counts distinct (tool, content) pairs exactly when its details have keys of their own; the
  tools of any set are told apart exactly when no name is another one followed by a NUL and more
  (`CustomerActivity.KeysIdentifyIff`, `CustomerActivity.DetailsCountPairs`).
* The Claude parser reports output and duration of the same result exactly when the call has no timestamp, or its
  last result has one, or no result before that had one (`TraceTools.DurationAgreesIff`).
* The lazy redactor returns the identical reference exactly when no leaf changed and no container holds a
  not-a-number (`LazyRedaction.LazyEqualsEager`, `LazyRedaction.ArrayOfNaNIsCopied`).
* The closing-quote scan of a secret's value and its decoder agree exactly when nothing but a note stands behind the
  closing quote, or there is none and the value does not end in a quote (`SecretImport.ScanAndDecoderAgreeIff`).
* Nothing of an accepted secret is lost exactly when no text stands behind a closing quote without a hash
  (`SecretImport.NothingIsLostIff`).
* An accepted secret import has a printed form that imports the same exactly when that form is within the byte limit
  (`SecretImport.CanonicalFormImportsTheSame`, `SecretImport.EscapingCanExceedTheLimit`).
* The repositories offered for ambiguous names are the same in every order of the candidates exactly when there are
  no more than a hundred (`RepoGuess.StableOfferIff`).
* Truncating a trace twice is truncating it once exactly when the text fits, the marker of its length fits, or the
  text is as long as that marker (`Truncation.TruncationIsIdempotentIff`).

## Model

| member | source | states |
|---|---|---|
| `WorkPool.StepInv` | scripts/plan-necessity-eval.ts:643-652 | a claim or a completion of any lane keeps the pool invariant and uses up exactly one of the remaining steps |
| `WorkPool.RunInv` | scripts/plan-necessity-eval.ts:641-653 | the invariant holds after every interleaving, and the length of the schedule is determined by what remains |
| `WorkPool.EverySlotClaimedOnce` | scripts/plan-necessity-eval.ts:641-653 | in every interleaving slots are claimed once each and in order, two lanes never share a slot, and the calls awaiting an answer are never more than the concurrency, nor than the inputs |
| `WorkPool.LimitIsReached` | scripts/plan-necessity-eval.ts:643-652 | with a concurrency of at least one some schedule has as many calls awaiting an answer as the concurrency and the number of inputs allow |
| `WorkPool.EveryScheduleTerminates` | scripts/plan-necessity-eval.ts:643-652 | no schedule is longer than two steps an input and one a lane, and the pool is stuck only when all lanes have returned |
| `WorkPool.FinalResults` | scripts/plan-necessity-eval.ts:641-653 | at the end every slot holds the worker's answer for its own input, whatever the order was, and the counter is the number of inputs plus the smaller of the concurrency and the number of inputs |
| `WorkPool.FilledIffSomeLane` | scripts/plan-necessity-eval.ts:643-644 | a finished run has filled every slot exactly when there was nothing to fill or the concurrency was at least one |
| `WorkPool.Pool.constructor` | scripts/plan-necessity-eval.ts:641-644 | a new pool is the initial state of the step system |
| `WorkPool.Pool.ClaimNext` | scripts/plan-necessity-eval.ts:646-648 | reading and advancing the shared counter is one claim step of the system |
| `WorkPool.Pool.StoreAnswer` | scripts/plan-necessity-eval.ts:649-649 | storing an awaited answer is one completion step of the system |
| `WorkPool.MapWithConcurrency` | scripts/plan-necessity-eval.ts:636-654 | for any order of the lanes the result maps the worker over the inputs if the concurrency is positive, with never more calls awaiting an answer than that, and is all holes if it is not |
| `CustomerActivity.RunLengthIsMaximal` | shared/transcript/customer-activity-projector.ts:371-373 | the head run is the only prefix of mergeable neighbours that cannot be extended |
| `CustomerActivity.RowsAreMaximalRuns` | shared/transcript/customer-activity-projector.ts:375-426 | any cutting of the events into maximal runs gives the specified rows |
| `CustomerActivity.MaximalRunsExist` | shared/transcript/customer-activity-projector.ts:375-426 | every event list has such a cutting |
| `CustomerActivity.CollectDetails` | shared/transcript/customer-activity-projector.ts:255-282 | the loop over items returns the capped first-of-each-key details and the number left over |
| `CustomerActivity.OffersOfCall` | shared/transcript/customer-activity-projector.ts:260-277 | a tool call offers its one detail, cleansed, unless that is blank |
| `CustomerActivity.OffersOfPatch` | shared/transcript/customer-activity-projector.ts:249-253 | a patch offers what its files offer, in order |
| `CustomerActivity.OffersOfFile` | shared/transcript/customer-activity-projector.ts:249-266 | a file's detail is its cleansed name, unless that is blank |
| `CustomerActivity.FlushBucket` | shared/transcript/customer-activity-projector.ts:354-369 | flushing a run that cannot be extended appends the run's one row, and nothing for an empty bucket |
| `CustomerActivity.Consume` | shared/transcript/customer-activity-projector.ts:379-422 | one turn of the loop keeps what has been emitted plus what the open bucket and the rest will give |
| `CustomerActivity.ProjectCustomerActivityEvents` | shared/transcript/customer-activity-projector.ts:375-426 | the loop computes the specified rows; they read, run by run, as the events with the worst status, the summed counts, the first five distinct details shortened and the rest counted, and everything else is passed on in place |
| `CustomerActivity.ProjectionReads` | shared/transcript/customer-activity-projector.ts:284-426 | the specified rows read so, stated over the fields of the events alone |
| `CustomerActivity.ProjectionConserves` | shared/transcript/customer-activity-projector.ts:375-426 | the counts of the rows add up to the classified events plus the counts already present |
| `CustomerActivity.ProjectionIsIdempotent` | shared/transcript/customer-activity-projector.ts:375-426 | projecting a projected list changes nothing |
| `CustomerActivity.StatusIsWorst` | shared/transcript/customer-activity-projector.ts:284-306 | a row has failed exactly when some tool call in it has an error whose category is not "command"; otherwise it is running exactly when some call is; otherwise it is completed |
| `CustomerActivity.FirstPositionsComplete` | shared/transcript/customer-activity-projector.ts:263-266 | the first positions of the keys are all of them, in order |
| `CustomerActivity.FirstOfEachKeyIsFirst` | shared/transcript/customer-activity-projector.ts:263-269 | deduplication keeps exactly the details at those positions |
| `CustomerActivity.DetailsAccountForEveryKey` | shared/transcript/customer-activity-projector.ts:255-282 | details are the first five first occurrences, and with the overflow they count every distinct key |
| `CustomerActivity.KeysIdentifyIff` | shared/transcript/customer-activity-projector.ts:263-263 | keys tell the details of a set of tools apart exactly when no tool name is another one followed by a NUL and more |
| `CustomerActivity.DetailsCountPairs` | shared/transcript/customer-activity-projector.ts:255-282 | details and overflow never exceed the number of distinct (tool, content) pairs, and equal it exactly when no two of them share a key, as whenever no tool name is nested in another |
| `CustomerActivity.NestedNamesLoseADetail` | shared/transcript/customer-activity-projector.ts:263-265 | an instance: two details of nested names share a key, and the second is lost |
| `TraceTools.FirstReplyStep` | scripts/agent-trace-export/parse-codex.ts:178-188 | an open call takes the entry that replies to it and no other entry changes its tool |
| `TraceTools.FirstReplyOnCall` | scripts/agent-trace-export/parse-codex.ts:160-177 | recording a call keeps the pending map in step with the first-reply rule, also when its identifier is reused |
| `TraceTools.FirstReplyOnMatch` | scripts/agent-trace-export/parse-codex.ts:181-188 | writing the tool and deleting the pending call keeps the rule |
| `TraceTools.FirstReplyOnUnmatched` | scripts/agent-trace-export/parse-codex.ts:178-182 | an output that matches nothing changes no tool |
| `TraceTools.FirstReplyToolsUnique` | scripts/agent-trace-export/parse-codex.ts:104-192 | the history alone determines the tools |
| `TraceTools.FirstReplyIsFinal` | scripts/agent-trace-export/parse-codex.ts:181-188 | a written tool is never written again, whatever follows |
| `CodexRollout.StoreOutput` | scripts/agent-trace-export/parse-codex.ts:178-188 | an output record moves the tools and the pending map on by one history entry |
| `CodexRollout.ParseCodexRollout` | scripts/agent-trace-export/parse-codex.ts:73-218 | one tool for each call record, in order; it holds the text, the estimate and the elapsed time of the first output record with its identifier, if that comes before the identifier is reused, and is unanswered otherwise; the run has failed exactly when there is a stream error, and has succeeded exactly when there is none but a completed task |
| `CodexRollout.HistoryIsStream` | scripts/agent-trace-export/parse-codex.ts:155-192 | the history has one entry for each call and each output record, in their order and with their fields |
| `CodexRollout.HistoryTraces` | scripts/agent-trace-export/parse-codex.ts:155-192 | what the history says of the tools is that, stated over the records |
| `TraceTools.LastReplyStep` | scripts/agent-trace-export/parse-claude.ts:141-155 | a current call takes every entry that replies to it, and keeps its duration when a timestamp is missing |
| `TraceTools.LastReplyOnMatch` | scripts/agent-trace-export/parse-claude.ts:148-154 | overwriting the tool keeps the last-reply rule |
| `TraceTools.LastReplyOnUnmatched` | scripts/agent-trace-export/parse-claude.ts:143-149 | an unmatched result changes no tool |
| `TraceTools.LastReplyToolsUnique` | scripts/agent-trace-export/parse-claude.ts:80-157 | the history alone determines the tools |
| `TraceTools.DurationMayBeOlderThanOutput` | scripts/agent-trace-export/parse-claude.ts:149-154 | a history in which they come from different results |
| `TraceTools.DurationAgreesIff` | scripts/agent-trace-export/parse-claude.ts:148-154 | output and duration come from the same result exactly when the call has no timestamp, or the last result has one, or no result before it had one |
| `ClaudeTranscript.StoreResult` | scripts/agent-trace-export/parse-claude.ts:141-155 | a tool result moves the tools on by one history entry |
| `ClaudeTranscript.ReadAssistant` | scripts/agent-trace-export/parse-claude.ts:108-130 | the block loop files every tool-use block in order |
| `ClaudeTranscript.ReadUser` | scripts/agent-trace-export/parse-claude.ts:133-156 | the block loop stores every tool result in order |
| `ClaudeTranscript.ParseClaudeTranscript` | scripts/agent-trace-export/parse-claude.ts:61-157 | one tool for each tool-use block of an assistant message, in order; it holds the text and the estimate of the last tool-result block of a user message with its identifier before that is reused, and the elapsed time of the last of them with a timestamp |
| `ClaudeTranscript.HistoryIsStream` | scripts/agent-trace-export/parse-claude.ts:106-156 | the history has one entry for each tool-use block of an assistant message and each tool-result block of a user message, in their order and with their fields |
| `ClaudeTranscript.HistoryTraces` | scripts/agent-trace-export/parse-claude.ts:80-157 | what the history says of the tools is that, stated over messages and blocks |
| `Segments.SplitTopLevelSegments` | shared/command-classification.ts:96-142 | the character loop computes the specified segments, which are the pieces between operators outside quotations |
| `Segments.SplitIsCut` | shared/command-classification.ts:96-142 | the segments are the non-blank pieces, trimmed, between the positions at which a semicolon, a pipe, a doubled pipe or a doubled ampersand stands outside every quotation |
| `Segments.ScanWellSplit` | shared/command-classification.ts:96-142 | every raw segment is free of operators outside quotations |
| `Segments.ScanConserves` | shared/command-classification.ts:96-142 | the command is its raw segments with one operator between each two |
| `Segments.SegmentSplitsToItself` | shared/command-classification.ts:96-142 | each segment splits to itself alone |
| `Segments.SplitIsAFixpoint` | shared/command-classification.ts:96-142 | joining the segments with semicolons and splitting again gives the same segments |
| `Segments.SplitAroundQuotation` | shared/command-classification.ts:96-142 | the segments around a closed quotation depend on what stands before and after it only |
| `Segments.QuotedTextNeverSplits` | shared/command-classification.ts:96-142 | replacing the content of a closed quotation changes its own segment and nothing else |
| `SecretImport.SplitInlineUsageNote` | shared/secrets/import-format.ts:75-117 | the quote scan finds the specified value part and note |
| `SecretImport.GoodLineIsEntry` | shared/secrets/import-format.ts:119-222 | a line that is accepted gives a valid key that is new, a non-blank one-line value and a tight note |
| `SecretImport.ParseSecretImportText` | shared/secrets/import-format.ts:119-222 | the loop returns the specified entries, or all errors with their line numbers |
| `SecretImport.ParseIsOutcome` | shared/secrets/import-format.ts:119-222 | every line is accounted for: by an entry, by an error, or as blank or a comment; the result is all errors, or else the entries, 1 to 200 of them and within the byte limit |
| `SecretImport.LinesAreCut` | shared/secrets/import-format.ts:132-132 | lines end at a line feed, with or without a carriage return before it, and nowhere else |
| `SecretImport.LineIsRead` | shared/secrets/import-format.ts:140-151 | a line splits at its first equals sign into the trimmed name, perhaps exported, and a right-hand side |
| `SecretImport.QuotedIsRead` | shared/secrets/import-format.ts:39-117 | a quotation, perhaps with a note behind it, gives its decoded content and the note |
| `SecretImport.BareIsRead` | shared/secrets/import-format.ts:75-117 | an unquoted value without a hash, perhaps with a note behind it, gives the value trimmed and the note |
| `SecretImport.SpacedQuotedIsRead` | shared/secrets/import-format.ts:39-117 | with white space in front of the quotation and no hash in it the value is still decoded |
| `SecretImport.EscapesMean` | shared/secrets/import-format.ts:55-73 | what each escape decodes to, piece by piece; a backslash in front of anything else stays |
| `SecretImport.UnescapeEscape` | shared/secrets/import-format.ts:39-73 | decoding undoes escaping for every value |
| `SecretImport.ScanCloseEscaped` | shared/secrets/import-format.ts:75-117 | the closing-quote scan skips exactly an escaped value |
| `SecretImport.ScanAndDecoderAgreeIff` | shared/secrets/import-format.ts:39-117 | for a quoted right-hand side the decoder accepts exactly what the scanned closing quote delimits, and refuses a text without one, if and only if nothing but a note stands behind the closing quote, or without one no quote stands at the end |
| `SecretImport.JunkBecomesValue` | shared/secrets/import-format.ts:92-97 | with other text in front of a hash the decoder is given the whole right-hand side: refused unless it ends in a quote, and then the closing quote and all that follows become part of the value |
| `SecretImport.JunkIsRefused` | shared/secrets/import-format.ts:92-97 | an instance, `K="a" x # n`, is refused as unclosed |
| `SecretImport.JunkIsSwallowed` | shared/secrets/import-format.ts:92-97 | an instance, `K="a" x # "`, is accepted with the quote and the text behind it in the value |
| `SecretImport.EscapedQuoteCloses` | shared/secrets/import-format.ts:83-106 | an instance without a closing quote, `K="a\"`, is accepted, the escaped quote taken for the closing one |
| `SecretImport.AcceptedLineConsists` | shared/secrets/import-format.ts:140-213 | an accepted line is white space, perhaps an export, the key, an equals sign and a right-hand side that gives the value and the note |
| `SecretImport.NothingIsLostIff` | shared/secrets/import-format.ts:75-117 | every right-hand side is white space, the text of the value, something behind it and perhaps a hash with the note; that something is white space exactly when no text stands behind a closing quote without a hash |
| `SecretImport.DroppedTextIsRead` | shared/secrets/import-format.ts:91-93 | a family of lines with such text: they give the value alone |
| `SecretImport.ExportIsIgnored` | shared/secrets/import-format.ts:119-222 | a leading `export` changes nothing for any line that is not blank, a comment or exported already: the same entry or the same refusal |
| `SecretImport.RoundTrip` | shared/secrets/import-format.ts:119-222 | printing 1 to 200 importable entries and parsing gives back keys, values and notes on lines 1, 2, 3 and so on, exactly when the printed text is within the byte limit |
| `SecretImport.AcceptedIsImportable` | shared/secrets/import-format.ts:119-222 | whatever is accepted has distinct valid keys, non-blank one-line values, tight notes and rising line numbers |
| `SecretImport.CanonicalFormImportsTheSame` | shared/secrets/import-format.ts:119-222 | the printed form of an accepted text imports the same secrets exactly when it is within the byte limit |
| `SecretImport.EscapingCanExceedTheLimit` | shared/secrets/import-format.ts:39-73 | a family of accepted texts whose printed form, with every quotation mark escaped, exceeds the limit |
| `LazyRedaction.RedactSecretsInValue` | shared/observability/redact.ts:201-230 | writes nothing that was there before; at every place the result has the redacted text, or the same leaf or kind of container as the value; it is the identical reference exactly when nothing changed and no container holds a not-a-number, and is otherwise a new container whose parts are new or come from the value |
| `LazyRedaction.RedactList` | shared/observability/redact.ts:205-214 | the loop over an array: the copy is allocated at the first difference, grows in place and holds exactly the results so far |
| `LazyRedaction.RedactRecord` | shared/observability/redact.ts:216-229 | the same for the entries of an object, keys included |
| `LazyRedaction.SharesIsEager` | shared/observability/redact.ts:201-230 | the result has the tree of the naive map over all string leaves |
| `LazyRedaction.PlacesRedacted` | shared/observability/redact.ts:201-230 | at every path the result holds the redacted text where the value holds a text, keeps every other leaf, and has as many parts under the same keys |
| `LazyRedaction.QuietIffUnchanged` | shared/observability/redact.ts:205-229 | no comparison in the walk differs exactly when no leaf changes and no container holds a not-a-number |
| `LazyRedaction.LazyEqualsEager` | shared/observability/redact.ts:201-230 | equal to the eager result, and the identical reference exactly when nothing changed |
| `LazyRedaction.ArrayOfNaNIsCopied` | shared/observability/redact.ts:205-214 | an array holding one not-a-number is copied although its tree stays the same |
| `DepthRedaction.ValueNesting` | shared/observability/redact.ts:118-126 | the result of redacting any value is at most one level deeper than the depth argument |
| `DepthRedaction.ErrorNesting` | shared/observability/redact.ts:128-155 | a cloned error is at most one level deeper than the depth argument, and at most two levels when that is used up |
| `DepthRedaction.ObjectNesting` | shared/observability/redact.ts:157-187 | for an object, cyclic or not, at most two levels deeper |
| `DepthRedaction.NestingBoundIsTight` | shared/observability/redact.ts:157-187 | the bound is met at every depth by an array that holds itself |
| `DepthRedaction.ObjectScrubbed` | shared/observability/redact.ts:103-187 | every secret-named key of the result holds the placeholder, except dispatch span snapshots under `spans` of a completed-subspans event |
| `DepthRedaction.ErrorScrubbed` | shared/observability/redact.ts:128-155 | an error's own secret-named properties are never exempt; below them the rule is the general one, span snapshots included |
| `DepthRedaction.SnapshotStaysSnapshot` | shared/observability/redact.ts:103-116 | a snapshot becomes the placeholder, or has only snapshot keys after redaction, or is cut off because the depth is used up |
| `DepthRedaction.ValueScrubbed` | shared/observability/redact.ts:118-187 | below any redacted value every secret-named key holds the placeholder, except dispatch span snapshots |
| `DepthRedaction.WalkCustom` | shared/observability/redact.ts:148-153 | the loop over an error's properties computes their specified redaction |
| `DepthRedaction.WalkObject` | shared/observability/redact.ts:157-187 | the loop over an object's entries computes their specified redaction: it mirrors the object place by place, and no text is left in it that redaction would change |
| `DepthRedaction.ObjectMirrors` | shared/observability/redact.ts:103-187 | keys and their order are kept, numbers, booleans and null too; every text within the depth is redacted, every value under a secret-named key is the placeholder unless exempt, and exactly what lies deeper is cut off |
| `DepthRedaction.EventOfIff` | shared/observability/redact.ts:157-187 | the event that decides the exemption is the root object's own text under that key |
| `DepthRedaction.ValueMirrors` | shared/observability/redact.ts:118-155 | the same for any value below an object, errors with their messages, causes and own properties included |
| `DepthRedaction.PayloadIsRedacted` | shared/observability/redact.ts:103-187 | when redacting twice is redacting once and leaves the placeholder alone, no text in the result and no message of an error in it would be changed by redaction |
| `SandboxLines.SplitLogicalInstructions` | shared/sandbox-layer/parser.ts:406-446 | the line loop computes the specified instructions or the first problem with its line |
| `SandboxLines.SplitIsOutcome` | shared/sandbox-layer/parser.ts:406-446 | the first line that stops the reading decides, by a syntax directive outside an instruction, a heredoc or too long an instruction so far; without one, an instruction still open at the end; without that, the instructions partition the file |
| `SandboxLines.LinesAreCut` | shared/sandbox-layer/parser.ts:411-412 | lines end at a line feed, with or without a carriage return before it; an empty last one does not count |
| `SandboxLines.ContinuedIff` | shared/sandbox-layer/parser.ts:431-431 | a line goes on exactly when a backslash stands at its end, white space aside |
| `SandboxLines.PieceIs` | shared/sandbox-layer/parser.ts:432-432 | it contributes what stands in front of that backslash, trimmed, or all of it |
| `SandboxLines.BlankOrCommentIff` | shared/sandbox-layer/parser.ts:420-421 | it may be skipped exactly when it is white space, or its first other character is a hash |
| `SandboxLines.ScanKeepsInv` | shared/sandbox-layer/parser.ts:417-443 | every turn keeps closed instructions faithful, ordered and with all other lines accounted for |
| `SandboxLines.InstructionsPartitionTheFile` | shared/sandbox-layer/parser.ts:406-446 | line ranges are non-empty, disjoint and increasing, texts are the joined lines, and every other line is blank, a comment or a lone backslash |
| `SandboxEnv.SplitEnvTokens` | shared/sandbox-layer/parser.ts:448-475 | the character loop computes the specified tokens or reports an open quote |
| `SandboxEnv.AssignAll` | shared/sandbox-layer/parser.ts:483-514 | the token loop computes the specified variables or the first problem |
| `SandboxEnv.TokensAreTokens` | shared/sandbox-layer/parser.ts:448-475 | every token is non-empty, has its quotes closed and holds no white space outside them |
| `SandboxEnv.TokensAreStretches` | shared/sandbox-layer/parser.ts:448-475 | the tokens are the longest stretches of the body without white space outside quotations, and there are none exactly when a quotation is open at the end |
| `SandboxEnv.TokenMeans` | shared/sandbox-layer/parser.ts:483-514 | a token is a key up to the first equals sign and a value that may stand in quotes; it is refused with the first thing wrong: no key, a key or a value out of its limits, a secret |
| `SandboxEnv.SplitIsAFixpoint` | shared/sandbox-layer/parser.ts:448-475 | joining the tokens with spaces and splitting again gives the same tokens |
| `SandboxEnv.OpenQuoteHasNoTokens` | shared/sandbox-layer/parser.ts:473-473 | splitting fails exactly when a quote is left open |
| `SandboxEnv.RoundTrip` | shared/sandbox-layer/parser.ts:477-519 | 1 to 50 written assignments, of any values that can be written at all, are read back |
| `SandboxEnv.LastOfEachIsLast` | shared/sandbox-layer/parser.ts:513-513 | the value of a variable is that of its last assignment |
| `SandboxEnv.WritableIff` | shared/sandbox-layer/parser.ts:496-498 | a value can be written in double quotes, in single quotes or bare exactly when some text stands for it |
| `SandboxEnv.AcceptedHasForm` | shared/sandbox-layer/parser.ts:477-519 | every accepted body has written assignments that give the same variables |
| `SandboxEnv.SettableIffPrintable` | shared/sandbox-layer/parser.ts:477-519 | some body sets a variable to a value exactly when the assignment is printable |
| `SandboxEnv.AcceptedIsSane` | shared/sandbox-layer/parser.ts:477-519 | accepted variables are 1 to 50 with valid keys and non-empty one-line values without recognised secrets |
| `SandboxCanonical.SortJsonCanonical` | shared/sandbox-layer/parser.ts:582-590 | two values sort to the same one exactly when they mean the same |
| `SandboxCanonical.SortJsonSorts` | shared/sandbox-layer/parser.ts:582-590 | the keys of every object in the sorted value are in order, at every depth |
| `SandboxCanonical.SameEnv` | shared/sandbox-layer/parser.ts:568-580 | normalized variables mean the same exactly when the assignments are equal as sets |
| `SandboxCanonical.SameLayer` | shared/sandbox-layer/parser.ts:568-580 | normalized instructions mean the same exactly when kinds, order, commands and variables agree |
| `SandboxCanonical.CanonicalTextIdentifiesSource` | shared/sandbox-layer/parser.ts:592-610 | canonical texts are equal exactly when manifest, build identity and instructions agree; line positions and variable order never show |
| `SandboxCanonical.DocumentMeans` | shared/sandbox-layer/parser.ts:568-610 | the document that is printed is sorted throughout and holds the version, the manifest, the build identity, and for each instruction its kind with its command or its variables |
| `GithubArgv.ParseGithubActionArgv` | shared/github-action.ts:24-92 | the index loop computes the specified operation or problem |
| `GithubArgv.EveryArrangementParses` | shared/github-action.ts:24-92 | any sequence of valid argument groups with one target, at most one repository and a title exactly for an edit parses to that operation |
| `GithubArgv.AcceptedIffArrangement` | shared/github-action.ts:24-92 | an argument list is accepted as an operation exactly when it is such a sequence |
| `GithubArgv.RefusedIff` | shared/github-action.ts:24-92 | a list is refused with a problem exactly when it is no such command at all, or its first word that cannot be read behind well-formed groups has that problem, or nothing is left to read and a target or a title is missing or too much |
| `GithubArgv.TargetIff` | shared/github-action.ts:10-22 | a target is a number from 1 to 9007199254740991 in decimal notation, or the last of four path parts of a pull request's address |
| `GithubArgv.ValueIff` | shared/github-action.ts:50-74 | a repository is an owner and a name with one slash between them and no white space; a title has 1 to 256 code units |
| `GithubArgv.OrderDoesNotMatter` | shared/github-action.ts:44-80 | reordering the groups of an accepted command changes nothing |
| `GithubArgv.FlagFormsAgree` | shared/github-action.ts:46-75 | the spaced and the equals form of a flag mean the same for a value that does not begin with a dash |
| `GithubArgv.ArrangementUnique` | shared/github-action.ts:44-80 | an argument list can be read as groups in one way only |
| `SkillCommands.ParseLeadingSkillCommands` | shared/skills/index.ts:74-96 | the cursor loop computes the specified skills and prompt |
| `SkillCommands.ParseDecomposes` | shared/skills/index.ts:74-96 | every input is white space, the commands read, and a prompt with no command in front |
| `SkillCommands.RestIff` | shared/skills/index.ts:74-96 | that prompt is any text that begins with no white space and with no slash, valid name and end or white space |
| `SkillCommands.SkillsByFirstAppearance` | shared/skills/index.ts:84-85 | the skills are the names that occur, each once, ordered by the positions of their first appearances |
| `SkillCommands.CommandsAreRead` | shared/skills/index.ts:79-90 | commands written with any white space between them are read back, each skill once |
| `SkillCommands.RoundTrip` | shared/skills/index.ts:74-96 | distinct skills and a prompt without a leading command survive being written and read |
| `SkillCommands.CanonicalForm` | shared/skills/index.ts:74-96 | writing what was read and reading it again changes nothing, for every input |
| `FixtureLoader.ValidateEvidenceIdArray` | disposable/memory-review-bot/eval-loader.ts:265-283 | pushes one code for every blank, missing or unknown evidence identifier |
| `FixtureLoader.ValidateReturnedMemories` | disposable/memory-review-bot/eval-loader.ts:135-164 | pushes the codes of every entry and collects the identifiers |
| `FixtureLoader.ValidateExpectedResults` | disposable/memory-review-bot/eval-loader.ts:204-220 | pushes the codes of every expected result and one for each returned memory without one |
| `FixtureLoader.ValidateMemoryReviewBotFixture` | disposable/memory-review-bot/eval-loader.ts:102-230 | returns the codes of all issues in the order they are found |
| `FixtureLoader.ResultsIff` | disposable/memory-review-bot/eval-loader.ts:204-263 | the expected results raise no issue exactly when they are one valid result for each returned memory |
| `FixtureLoader.AcceptedIffValid` | disposable/memory-review-bot/eval-loader.ts:102-230 | the loader accepts exactly the valid fixtures |
| `FixtureLoader.AcceptedIffSound` | disposable/memory-review-bot/eval-loader.ts:102-283 | validity is stated on the document alone: every field by its name, limit, pattern and allowed texts, identifiers without repetition, and one sound result for each memory |
| `OutputScorers.CollectResults` | disposable/memory-review-bot/eval-scorers.ts:244-269 | the loop collects the readable results and pushes the codes of the others, of duplicates, of unknown and of missing memories |
| `OutputScorers.ValidateReviewerOutput` | disposable/memory-review-bot/eval-scorers.ts:223-286 | returns the reason codes, each once, and the output exactly when there is none |
| `OutputScorers.UniqueHasTheSame` | disposable/memory-review-bot/eval-scorers.ts:486-488 | removing repeated reason codes keeps each of them, once |
| `OutputScorers.ValidationIff` | disposable/memory-review-bot/eval-scorers.ts:223-322 | validation finds nothing exactly in well-formed outputs with one result for each returned memory |
| `OutputScorers.ScoreMemoryReviewBotOutput` | disposable/memory-review-bot/eval-scorers.ts:56-221 | all the scores returned have passed exactly when every scorer there is passes the output |
| `OutputScorers.ComparisonsIff` | disposable/memory-review-bot/eval-scorers.ts:112-221 | the item-label, root-cause and lifecycle scorers together pass exactly when all labels agree |
| `OutputScorers.EachScorerIff` | disposable/memory-review-bot/eval-scorers.ts:56-221 | what each of the seven scorers alone requires of a valid output, in the labels of the fixture and the output: the outcome, the evidence a judgment needs, the item labels with the one relevance exception, the root causes as sets, the lifecycle actions, the hurt memories |
| `OutputScorers.AgreeingHurtTheSame` | disposable/memory-review-bot/eval-scorers.ts:145-169 | the hurt-memory scorer follows from the others |
| `OutputScorers.PassesAllIffPerfect` | disposable/memory-review-bot/eval-scorers.ts:56-286 | an output passes all seven scorers exactly when it is well-formed, has one agreeing result for each memory up to root-cause order and the one relevance exception, and cites real evidence wherever it says more than borderline, not useful, neutral and without a cause |
| `ReviewRunner.OracleIsPerfect` | disposable/memory-review-bot/eval-loader.ts:488-496 | whatever the loader accepts, the output copied from its labels is perfect |
| `ReviewRunner.AcceptedPassesIffPerfect` | disposable/memory-review-bot/eval-runner.ts:93-111 | for an accepted fixture any reviewer's output passes exactly when it is perfect |
| `ReviewRunner.PerfectIsRight` | disposable/memory-review-bot/eval-scorers.ts:56-322 | for an accepted fixture perfection is stated on the two documents alone, by the names and texts of their fields |
| `ReviewRunner.PassedIffRight` | disposable/memory-review-bot/eval-runner.ts:93-111 | a report of an accepted fixture says passed exactly when the document the reviewer gave is right in that sense |
| `ReviewRunner.PassedIffAllPass` | disposable/memory-review-bot/eval-runner.ts:99-108 | a fixture is reported as passed exactly when all seven scorers pass |
| `ReviewRunner.RunMemoryReviewBotFixtures` | disposable/memory-review-bot/eval-runner.ts:113-122 | one report for each fixture in order, unless the reviewer throws |
| `ReviewRunner.OracleAnswersWithLast` | disposable/memory-review-bot/eval-runner.ts:124-143 | the oracle answers with the labels of the last fixture of an id, so with repeated ids it passes exactly when those are perfect for the fixture at hand |
| `ReviewRunner.OraclePassesAccepted` | disposable/memory-review-bot/eval-runner.ts:113-143 | for accepted fixtures with distinct ids the run with the oracle reports every fixture, and every one as passed by all scorers |
| `RepoGuess.NormalizeRepoCandidates` | shared/repo-resolution/index.ts:120-142 | the loop lists the first candidate of each key, each key once, in the order of first candidates |
| `RepoGuess.KeptAreAllowed` | shared/repo-resolution/index.ts:120-142 | a repository is allowed under a key exactly when the first candidate with that owner and name, trimmed and case folded, is that repository with its texts trimmed |
| `RepoGuess.OrderAndRepetitionDoNotMatter` | shared/repo-resolution/index.ts:120-142 | when candidates of one key agree, the allowed repositories depend on the set of candidates only |
| `RepoGuess.KeptAgain` | shared/repo-resolution/index.ts:246-252 | normalizing a normalized list again keeps exactly its entries |
| `RepoGuess.MentionedExactly` | shared/repo-resolution/index.ts:301-308 | the mentioned keys are the allowed keys that some user text mentions, each once |
| `RepoGuess.CollectMentions` | shared/repo-resolution/index.ts:301-308 | the nested loop collects them in order of first mention |
| `RepoGuess.FindHintMatches` | shared/repo-resolution/index.ts:498-513 | the nested loop selects the repositories a hint names |
| `RepoGuess.DeterministicGuessRepo` | shared/repo-resolution/index.ts:296-376 | states the verdict of mentions, names in the text, channel name and hints |
| `RepoGuess.ParseAllowedSuggestions` | shared/repo-resolution/index.ts:576-603 | the first five allowed repositories suggested, each once |
| `RepoGuess.ValidateRepoClassification` | shared/repo-resolution/index.ts:246-294 | states the verdict on any answer of the classifier |
| `RepoGuess.ProductMetadataGuessRepo` | shared/repo-resolution/index.ts:415-479 | states the fallback to the product repository |
| `RepoGuess.GuessRepoFromTextContext` | shared/repo-resolution/index.ts:206-244 | the guess depends on the candidates through the allowed repositories only, and is what the texts say of these; if that is nothing, what the classifier says; and if that is no match, what the product's metadata says |
| `RepoGuess.VerdictIsGuess` | shared/repo-resolution/index.ts:206-479 | the verdict is that guess, stated over the candidates, the texts and the answer: which mentions, names, channels, hints, suggestions and signals count, in which order, with which confidence |
| `RepoGuess.MatchIsACandidate` | shared/repo-resolution/index.ts:206-294 | whatever the classifier answers, a match is one of the candidates |
| `RepoGuess.TwoMentionsAreNeverResolved` | shared/repo-resolution/index.ts:323-329 | two mentioned allowed repositories are never resolved by guessing |
| `RepoGuess.SameCandidatesSameGuess` | shared/repo-resolution/index.ts:206-376 | permuting or repeating candidates changes nothing, except which order ambiguous names are offered in |
| `RepoGuess.StableOfferIff` | shared/repo-resolution/index.ts:546-561 | the same repositories are offered in every order of the candidates exactly when there are no more than a hundred |
| `RepoGuess.FirstOfferedMovedToEnd` | shared/repo-resolution/index.ts:546-561 | with more than a hundred, moving the candidates of the first offered one to the end leaves it out |
| `Fingerprint.StableFingerprint` | shared/memory/task-denoising.ts:153-160 | the loop over code units computes the padded hexadecimal hash |
| `Fingerprint.FingerprintIs` | shared/memory/task-denoising.ts:153-160 | from 2166136261 on, each code unit is combined bit by bit by exclusive or and the state multiplied by 16777619 in 32 bits; the last state is written in eight hexadecimal digits |
| `Fingerprint.MixInjective` | shared/memory/task-denoising.ts:156-157 | a step never merges two states, nor two code units |
| `Fingerprint.NotationInjective` | shared/memory/task-denoising.ts:159-159 | two hashes with the same padded notation are equal |
| `Fingerprint.ChangedUnitShows` | shared/memory/task-denoising.ts:153-160 | in any context two fingerprints are equal exactly when the code units are |
| `Fingerprint.OneDifferenceShows` | shared/memory/task-denoising.ts:153-160 | texts of equal length that differ at one position have different fingerprints |
| `InjectedContext.StripLeadingInjectedContext` | shared/memory/task-denoising.ts:83-97 | the offset loop removes the specified blocks and counts them |
| `InjectedContext.CompanyMemoryUnambiguous` | shared/constants/prompt-context.ts:7-10 | the markers in use cannot overlap in a way that confuses the search |
| `InjectedContext.PeelUndoesWrapping` | shared/memory/task-denoising.ts:83-97 | peeling a text with blocks put in front is peeling the text, with as many more sections removed |
| `InjectedContext.PeelDecomposes` | shared/memory/task-denoising.ts:83-97 | every text is wrapped blocks in front of what peeling returns |
| `InjectedContext.DecompositionIsUnique` | shared/memory/task-denoising.ts:83-97 | two ways to take a text apart so have equal bodies and equal rests |
| `Truncation.ExcerptIsExact` | shared/post-execution.ts:207-221 | an over-long text gives exactly `max` code units; head, tail and printed number account for the whole, and the last cut takes off at most one unit when the marker fits |
| `Truncation.DiffExcerptIsExact` | shared/post-execution.ts:207-221 | the same for the marker in use |
| `Truncation.OneMoreDigit` | shared/post-execution.ts:207-218 | adding the marker's length to the omission costs at most one more digit |
| `Truncation.TruncationBound` | scripts/agent-trace-export/redact.ts:145-154 | the result is never longer than the limit or the marker of the whole length, and prints exactly what it leaves out |
| `Truncation.TruncationIsIdempotentIff` | scripts/agent-trace-export/redact.ts:145-154 | truncating twice is truncating once exactly when the text is short enough, the limit has room for the marker of the whole length, or the text is as long as that marker |
| `Truncation.TruncatingTwiceCanDiffer` | scripts/agent-trace-export/redact.ts:145-154 | an instance: a million code units with the limit 0 |
| `DisconnectMask.MaskIffWatchedStart` | shared/session/transient-disconnect.ts:45-55 | after any trace a mask exists exactly when the current reconnecting streak was preceded by a view that was not reconnecting, and it holds that view and the streak's start |
| `DisconnectMask.RenderedIsTrueOrYoung` | shared/session/transient-disconnect.ts:57-66 | what is rendered differs from the truth only less than 15 seconds after such a start, and is then the view before it |
| `DisconnectMask.YoungStreakIsHidden` | shared/session/transient-disconnect.ts:57-66 | and a streak watched from its start is hidden for all of that time |
| `DisconnectMask.VisibleStaysVisible` | shared/session/transient-disconnect.ts:45-66 | a streak that is rendered as it is stays so: it is never masked again |

## Left out

- Rejected worker promises: a worker that throws ends the whole pool; the step system has only claims and completions.
- Titles, summaries, identifiers of rows: the text a row shows is not modelled; its category, prompt, status, count, details and overflow are.
- Turns, token peaks, search and edit counters, model names and tool inputs in the two transcript parsers: independent accumulators beside the correlation that is modelled.
- Lone surrogates: strings that are only scanned are sequences of Unicode scalar values; the fingerprint, the two truncators and the details of a row, which cut or hash text, work on UTF-16 code units, and other lengths the code measures in units or bytes are measured so.
- Detail texts: which command or file a detail shows, and how tool names and commands are classified, are parameters of the projector.
- Undefined leaves, functions and symbols in redaction: the models have strings, numbers, booleans, null, arrays, objects and errors; integer-like keys and `__proto__`, which an object would reorder or lose, are not distinguished.
- Cycles in the lazy redactor: like the code, it does not end on a container that holds itself; the depth-limited one does.
- Error stacks: the stack of a new error is a parameter.
- Patterns for secrets, heredocs, syntax directives, dispatch span names aside from their table, command classes, and repository mentions: parameters, so nothing is claimed of what they match.
- The head share of a truncation: the code gives the head three fifths in floating point; the model allows any share, which covers it.
- Paths and messages of fixture issues, and the details of scores: only the reason codes are modelled.
- Non-finite numbers and absent fields in fixtures and outputs are modelled; objects with an inherited property of a field's name are not.
- The production reviewer and the metadata of a run: network calls and values no scorer reads.
- Reading fixture files from a directory: input and output.
- Rationales, summaries and confidences in a validated output: they are checked, and then no scorer reads them.
- A repository classifier that throws: the error leaves the guess without a result.
- Prompts for the repository classifier and the shortening of its reasons: the answer is arbitrary, so what it was asked does not matter; reasons are kept as what they were made from.
- The manifest validator, safety checks of RUN commands and the dispatch on instruction names of a sandbox layer: finite checks on a parsed document, one by one.
- The SHA-256 of the canonical text: an injective function would preserve the theorem, a hash function is not one.
- URL parsing in pull-request targets: a parameter that returns the path parts of an https URL of github.com.
- Non-array arguments to the command grammar: excluded by its type.
- Front matter of skills, retrieval scores, memory file normalization, egress lists, publish gates, prompt budgets, evaluation metrics: smaller folds and tables whose claims are easier than the ones above.
- Command line, network, database and template code: input and output.
