# agent-task-notifier, modelled in Dafny

This project models the logic of agent-task-notifier. The notifier watches terminal output from coding agents (Codex, Claude, opencode) and turns structured OSC frames into desktop notifications. The model is written in Dafny and proves properties of that logic. It covers seven pieces:

- **The stream frame decoder** (`Parser.AgentOutputParser`).
  - A class with a persistent `streamBuffer`. `Feed`, `Flush` and `ProcessBuffer` update the buffer in place, and `ProcessBuffer` loops on a cursor.
  - OSC sequences open with `ESC ]` (ECMA-48 section 8.3.89) and close with BEL or with ST `ESC \` (ECMA-48 section 8.3.143).
  - Only a sequence whose trimmed content starts `777;notify;AGENT_TASK_EVENT_V1;` is decoded. Decoding is base64url (section 5 of RFC 4648, with padding restored), then UTF-8, then JSON, then `validatePayload`.
  - Base64 itself is written out in `base64.dfy` (section 4 of RFC 4648), with its round trip proved.
- **The dedupe engine** (`Dedupe.EventDedupe`). A map from derived key to last-seen time, with a clamped window and lazy pruning. The clock is a parameter. The window is a JavaScript number (`Dedupe.JsNumber`): finite, fractional, infinite or NaN.
- **The Codex TOML reconciler** (`CodexConfig`). It removes the managed block, comments out legacy `notify =` assignments, and inserts a fresh block before the first table header.
  - The managed line is a TOML basic string (TOML v1.0.0, "Basic strings").
  - `removeManagedBlock` and `commentLegacyNotifyAssignments` are methods with loops. The second rewrites an `array` in place.
  - The blank-line trimmers are methods too.
- **The Claude JSON hooks reconciler** (`ClaudeHooks`).
  - It validates the settings shape, with the source's error messages.
  - Per hook event, it drops managed entries and emptied groups and upserts the managed command.
  - It shell-quotes the command.
  - JSON (RFC 8259) is a tagged union with ordered members (`Json`).
- **The unchanged / updated / failed decision** shared by both bootstrap classes (`Reconcile`).
- **The opencode adapter** (`OpenCodeNotifier`). It holds the frame builder, the session → turn-token map with TTL pruning and reuse-without-refresh, and the event → payload mapping. The round trip from the adapter's frame to the parser's event is proved in `FrameRoundTrip`.
- **Notification text shaping** (`Notifier`) and **the terminal registry** (`Registry.TerminalRegistry`). The registry is a two-map bijection.

`JSON.parse`, `JSON.stringify` and UTF-8 conversion are fields of a `Serialization.Codec` value that the model takes as a parameter. What the core relies on about them is stated as hypotheses:
- `Utf8RoundTrips`.
- `ParseShaped`: what `JSON.parse` returns is `Json.Shaped`. No object has a key twice, and array-index keys come first in ascending order, as ECMAScript orders an object's keys.
- `JsonRoundTrips`: a compact serialisation parses back when the value is `Json.Wire`, meaning every number is finite and every object is shaped.
- `IndentedRoundTrips`: the same for the two-space-indented serialisation plus `"\n"`, and an object serialises starting with `{`.

Other runtime inputs are parameters too:
- the clock (`now`, `timestamp`);
- the UUID given to a new terminal;
- the results of the file system calls (`Reconcile.ReadOutcome` and an optional write error).

Three behaviours of the decoder are proved as they stand in `src/parser.ts`, rather than corrected:
- A frame split exactly between `ESC` and `]` is lost. With the two-byte prefix not yet present, the whole buffer is discarded (`ParserStream.SplitInsidePrefix`).
- An unterminated foreign OSC sequence swallows the next valid frame. Its content runs up to that frame's BEL, so the frame is never decoded (`ParserStream.ForeignSwallows`, `ParserStream.ForeignSwallowsEvents`).
- `validatePayload` accepts an empty `message`. Only `typeof message === "string"` is checked (`Parser.ValidatePayloadAccepts`).

A split anywhere after the prefix is harmless (`ParserStream.SplitAfterPrefix`, `FrameRoundTrip.BuiltFrameSplit`). A terminated foreign sequence before a frame is collected and ignored, and the frame after it is decoded (`ParserStream.ForeignThenFrame`).

## Model

| member | source | states |
|---|---|---|
| Types.NamesInjective | src/types.ts:3-5 | The wire literals of sources, event types and statuses are pairwise distinct, so each names one enum value |
| Parser.RecognisedLiterals | src/parser.ts:162-175 | `isSource`, `isEventType` and `isStatus` accept exactly the listed string literals, and reject every other value |
| Parser.MaybeString | src/parser.ts:158-160 | A value is kept exactly when it is a non-empty string, and then it is that string |
| Parser.ValidatePayloadAccepts | src/parser.ts:121-156 | A payload is accepted iff `version` is 1, source, event and status are the listed literals, `message` is any string (the empty one too) and `createdAt` is a finite number; an accepted payload is well formed |
| Parser.ValidatePayloadFields | src/parser.ts:121-156 | The validated payload carries exactly the object's required fields, and each optional field only when it is a non-empty string |
| Parser.ValidateOf | src/parser.ts:121-156 | Conversely, any object whose fields spell out a payload validates to that payload |
| Parser.DecodeBase64Url | src/parser.ts:106-119 | An empty payload is rejected, and a decoded payload is never empty text |
| Base64.UrlRoundTrip | src/parser.ts:106-119 | Restoring the padding and decoding inverts the adapter's URL-safe encoding for every non-empty byte string; the empty string encodes to the empty text, which the decoder rejects |
| Base64.RestorePadding | src/parser.ts:111-112 | Restoring the padding adds `(4 - n % 4) % 4` `=` characters and keeps the text in front, so the padded length is a multiple of 4 |
| Base64.DecodeEncode | src/parser.ts:114-115 | Standard base64 decoding inverts standard base64 encoding (section 4 of RFC 4648) |
| Base64.EncodeShape | src/parser.ts:114-115 | An encoding has a length that is a multiple of 4, is empty only for no bytes, and carries exactly the padding its length calls for |
| Parser.TryParseSpec | src/parser.ts:63-103 | The structured parse of a sequence's content is the notification parse of what follows `777;notify;` when the content starts with that prefix, and "not structured" otherwise |
| Parser.MatchNotifyPrefixIsStartsWith | src/parser.ts:64-68 | Matching the prefix character by character is the same as a `startsWith` test |
| FrameRoundTrip.NotificationParses | src/parser.ts:68-103 | With the `AGENT_TASK_EVENT_V1` title and a well-encoded JSON body, a notification yields the validated payload, or "schema validation failed" when it does not validate |
| Parser.Emitted | src/parser.ts:96-102 | A sequence contributes at most one event, and one exactly when it parsed as structured |
| Parser.Terminator | src/parser.ts:38-53 | A terminator is found past the prefix: a BEL of length 1 or an ST `ESC \` of length 2, inside the buffer |
| Parser.TerminatorFirst | src/parser.ts:38-47 | No terminator occurs before the chosen one, and none at all when the sequence is unterminated |
| Parser.TerminatorIsFirstOf | src/parser.ts:38-47 | The chosen terminator is the earlier of the first BEL and the first ST, as the two `indexOf` searches give it |
| Parser.NextSequence | src/parser.ts:31-58 | A sequence found from the cursor starts at or after it with `ESC ]`, and a closed one ends past its prefix and inside the buffer, so the cursor moves strictly forward |
| Parser.NextSequenceIsIndexOf | src/parser.ts:31-36 | The next sequence starts at the first `ESC ]` from the cursor, and there is none when `indexOf` finds none |
| Parser.FindSequence | src/parser.ts:32-53 | The loop body's search finds exactly the next sequence |
| Parser.Scan | src/parser.ts:28-61 | After a scan the retained tail is empty, or starts with `ESC ]` and holds no terminator after the prefix |
| Parser.ScanFromPending | src/parser.ts:50-53 | Every scan leaves a pending tail of that shape |
| Parser.ScanFromSuffix | src/parser.ts:50-53 | The retained tail is a suffix of the buffer, from the cursor onward |
| Parser.ScanFromFound | src/parser.ts:54-57 | Scanning with earlier contents already found appends what the scan finds after them |
| Parser.EventsAppend | src/parser.ts:55-56 | The events of consecutive sequences are the events of each, in order |
| Parser.EventsSnoc | src/parser.ts:55-56 | One more sequence adds the event of its trimmed content |
| Parser.AgentOutputParser.constructor | src/parser.ts:14-17 | A new decoder starts with an empty buffer |
| Parser.AgentOutputParser.Feed | src/parser.ts:19-22 | Feeding a chunk emits the events of the sequences that close in the buffer plus the chunk, and keeps exactly the pending tail |
| Parser.AgentOutputParser.Flush | src/parser.ts:24-26 | Flushing empties the buffer |
| Parser.AgentOutputParser.ProcessBuffer | src/parser.ts:28-61 | The cursor loop emits the events of every closed sequence in order and leaves the buffer at the pending tail |
| ParserStream.NoStartDiscards | src/parser.ts:32-35 | When no `ESC ]` occurs from the cursor on, the rest of the buffer is discarded and nothing more is emitted |
| ParserStream.ScanFrame | src/parser.ts:28-61 | A whole frame scans to its one content and leaves nothing behind |
| ParserStream.ScanPartialFrame | src/parser.ts:50-53 | Every prefix of a frame that already includes `ESC ]` is kept whole, waiting for its terminator |
| ParserStream.SplitAfterPrefix | src/parser.ts:19-61 | A frame fed in two chunks, split anywhere after `ESC ]`, gives the same events as the whole frame and leaves nothing behind |
| ParserStream.SplitInsidePrefix | src/parser.ts:32-35 | A frame split between `ESC` and `]` yields nothing from either chunk, although the whole frame scans to its content |
| ParserStream.ForeignSwallows | src/parser.ts:38-55 | An unterminated foreign OSC followed by a valid frame scans to one sequence running up to that frame's BEL |
| ParserStream.ForeignSwallowsEvents | src/parser.ts:38-79 | That merged sequence yields no event, while the frame alone would scan to its own content |
| ParserStream.ScanTwoFrames | src/parser.ts:28-61 | Two whole frames in a row scan to their two contents, in order, and leave nothing behind |
| ParserStream.ForeignThenFrame | src/parser.ts:55-79 | A terminated sequence whose content yields no event, then a frame: both are collected, and the events are those of the frame alone |
| Dedupe.NormalizeIsWords | src/dedupe.ts:34 | The message key part is the lower-cased message's words joined by single spaces |
| Dedupe.SameWordsSameKey | src/dedupe.ts:29-36 | Two events without a `dedupeKey`, on one terminal, with the same source, event and status and messages that differ only in ASCII case or whitespace, get the same key |
| Dedupe.DistinctDedupeKeys | src/dedupe.ts:29-33 | Distinct non-empty `dedupeKey`s on the same terminal give distinct keys |
| Dedupe.Pruned | src/dedupe.ts:38-45 | Pruning keeps exactly the entries not below `now - max(4 * window, 60000)`, unchanged; below an infinite window's -Infinity or a NaN threshold nothing lies |
| Dedupe.PruneNothing | src/dedupe.ts:38-45 | An infinite or NaN window prunes nothing |
| Dedupe.PruneKeepsSuppressors | src/dedupe.ts:12-45 | Under a clamped window, pruning never removes an entry that still suppresses, one with `now - ts < window` |
| Dedupe.Decide | src/dedupe.ts:12-27 | With the window clamped by `Math.max(0, w)` (NaN stays NaN), an event is emitted iff its key has no pruned record inside the window; an emitted key is stamped with `now`, and a suppressed call leaves the pruned map as it is |
| Dedupe.SuppressedDoesNotExtend | src/dedupe.ts:17-23 | A suppressed event keeps the stored timestamp of its key, which lies inside the window |
| Dedupe.ZeroWindowEmits | src/dedupe.ts:14-20 | A window of 0 or less, or -Infinity, always emits, as long as no stored time lies in the future |
| Dedupe.NaNWindowEmits | src/dedupe.ts:12-27 | A NaN window emits every event, stamps it and prunes nothing |
| Dedupe.InfiniteWindowSuppresses | src/dedupe.ts:12-27 | An infinite window suppresses every repeat of a recorded key and prunes nothing |
| Dedupe.FractionalWindowExample | src/dedupe.ts:20-26 | A 0.5 ms window suppresses a repeat in the same millisecond and lets one through a millisecond later |
| Dedupe.WindowExample | src/dedupe.ts:20-26 | With a 3000 ms window the calls at t=0, 2999 and 3001 give true, false and true |
| Dedupe.EventDedupe.constructor | src/dedupe.ts:4-10 | A new engine holds no timestamps |
| Dedupe.EventDedupe.ShouldEmit | src/dedupe.ts:12-27 | The method's answer and its new map are the decision for the old map |
| Dedupe.EventDedupe.Prune | src/dedupe.ts:38-45 | The in-place deletion loop leaves exactly the pruned map |
| CodexConfig.NormalizeBreaks | src/codexNotifyBootstrap.ts:209-213 | Normalising line breaks leaves no carriage return |
| CodexConfig.NormalizeBreaksSpec | src/codexNotifyBootstrap.ts:209-213 | CRLF and a lone CR each become one LF, and every other character is kept |
| CodexConfig.SplitLines | src/codexNotifyBootstrap.ts:209-214 | Empty text splits into no lines, and every line is free of line breaks |
| CodexConfig.SplitLinesJoin | src/codexNotifyBootstrap.ts:209-214 | Joining the lines with LF gives back the text with its line breaks normalised |
| CodexConfig.SplitLinesOfJoin | src/codexNotifyBootstrap.ts:209-214 | Splitting lines joined with LF gives them back |
| CodexConfig.RemoveManagedBlock | src/codexNotifyBootstrap.ts:130-150 | The flag-driven loop returns the lines outside managed blocks, joined |
| CodexConfig.KeptHasNoStart | src/codexNotifyBootstrap.ts:130-150 | No kept line has a start marker as its trim |
| CodexConfig.NoBlockKeepsAll | src/codexNotifyBootstrap.ts:130-150 | Without a start marker every line is kept |
| CodexConfig.RemovesClosedBlock | src/codexNotifyBootstrap.ts:130-150 | A start marker, the lines up to the next end marker and that marker are dropped, and scanning carries on after them |
| CodexConfig.RemovesOpenBlock | src/codexNotifyBootstrap.ts:130-150 | A start marker that no end marker follows drops the rest of the text |
| CodexConfig.KeptPrefix | src/codexNotifyBootstrap.ts:130-150 | Lines before any start marker are kept in order |
| CodexConfig.LegacyFromShape | src/codexNotifyBootstrap.ts:180-186 | Leading whitespace, `notify`, optional whitespace and `=` start a legacy assignment |
| CodexConfig.CommentedNeverMatches | src/codexNotifyBootstrap.ts:180-186 | A line prefixed with `# ` is never a legacy start |
| CodexConfig.RunEnd | src/codexNotifyBootstrap.ts:164-169 | The bracket run of a legacy start ends at or after it and inside the text |
| CodexConfig.RunMonotone | src/codexNotifyBootstrap.ts:164-169 | A larger bracket balance never ends a run earlier |
| CodexConfig.CommentedLines | src/codexNotifyBootstrap.ts:152-178 | Commenting keeps the number of lines |
| CodexConfig.CommentOutRange | src/codexNotifyBootstrap.ts:171-173 | The loop prefixes `# ` to exactly the lines of the range and leaves the others |
| CodexConfig.ScanRun | src/codexNotifyBootstrap.ts:164-169 | The bracket-balance loop finds the end of the run as `RunEnd` defines it |
| CodexConfig.CommentLegacyNotifyAssignments | src/codexNotifyBootstrap.ts:152-178 | The nested loops over the line array return the commented text: each line prefixed with `# ` iff it lies in the bracket run of a legacy start, and unchanged otherwise |
| CodexConfig.LegacyStartCommented | src/codexNotifyBootstrap.ts:157-174 | Every legacy start is commented out |
| CodexConfig.NoLegacyAfterCommenting | src/codexNotifyBootstrap.ts:152-186 | After commenting, no line is a legacy start |
| CodexConfig.NoLegacyUnchanged | src/codexNotifyBootstrap.ts:152-178 | Text without a legacy start is left as it is |
| CodexConfig.CommentingIdempotent | src/codexNotifyBootstrap.ts:152-186 | Commenting twice is commenting once |
| CodexConfig.CommentedTextIdempotent | src/codexNotifyBootstrap.ts:152-186 | The same, on the text |
| CodexConfig.ReadEscaped | src/codexNotifyBootstrap.ts:203-207 | Reading a TOML basic string back from its escaped form gives the value, and stops at the closing quote |
| CodexConfig.EscapeOneLine | src/codexNotifyBootstrap.ts:203-207 | Escaping introduces no line break |
| CodexConfig.ManagedBlockLines | src/codexNotifyBootstrap.ts:194-207 | For a one-line script path, the managed block is exactly three lines, START, `notify = ["bash", "<p>"]` and END, and the path reads back from the string literal |
| CodexConfig.ManagedBlockMarkers | src/codexNotifyBootstrap.ts:194-201 | The markers are their own trim and differ, and none of the three block lines is a table header or a marker other than its own |
| CodexConfig.LeadingTrimmed | src/codexNotifyBootstrap.ts:250-256 | The result is a suffix of the lines, every dropped line is blank, and the first kept one is not |
| CodexConfig.TrailingTrimmed | src/codexNotifyBootstrap.ts:258-264 | The result is a prefix of the lines, every dropped line is blank, and the last kept one is not |
| CodexConfig.TrimLeadingBlankLines | src/codexNotifyBootstrap.ts:250-256 | The `start` loop returns the lines without leading blank lines |
| CodexConfig.TrimTrailingBlankLines | src/codexNotifyBootstrap.ts:258-264 | The `end` loop returns the lines without trailing blank lines |
| CodexConfig.FirstTableFrom | src/codexNotifyBootstrap.ts:218-248 | The header search finds the first table header, or -1 when there is none |
| CodexConfig.TrimEndJoin | src/codexNotifyBootstrap.ts:220-239 | Trimming the end of joined lines drops trailing blank lines and trims the end of the last one kept |
| CodexConfig.InsertedLines | src/codexNotifyBootstrap.ts:216-240 | Inserting the block places its three lines between the layout's leading and trailing lines, as the source separates them with and without a table header |
| CodexConfig.LayoutStable | src/codexNotifyBootstrap.ts:216-240 | Laying out the text the layout produced gives the same layout |
| CodexConfig.BuildNextLayout | src/codexNotifyBootstrap.ts:216-240 | For a one-line script path and a config with no hidden marker (`CodexConfig.NoHiddenMarker`), the next config is the cleaned text's leading lines, then the one managed block, then its trailing lines; no other line is a start marker or a legacy assignment, so the result holds exactly one managed block |
| CodexConfig.CleanConfigKept | src/codexNotifyBootstrap.ts:123-128 | A config without managed blocks or legacy assignments passes the removal and commenting steps unchanged, line breaks aside; the insertion step then changes only the managed block and the blank lines around where it goes (`CodexConfig.BuildNextLayout`) |
| CodexConfig.BuildNextIdempotent | src/codexNotifyBootstrap.ts:123-128 | Rebuilding from the built text gives the identical text |
| Reconcile.ReadConfigText | src/codexNotifyBootstrap.ts:110-121 | A missing file reads as empty text, any other read error fails, and a file read gives its text |
| Reconcile.EnsureConfigured | src/codexNotifyBootstrap.ts:74-101 | The file is written iff the run reports "updated", and then with built text that differs from the original; a run fails iff syncing, reading, building or a needed write fails; an unchanged build writes nothing |
| CodexConfig.SecondReconcileUnchanged | src/codexNotifyBootstrap.ts:74-101 | Reconciling the written config again reports "unchanged" and writes nothing |
| ClaudeHooks.ShellCommandReadsBack | src/claudeHooksBootstrap.ts:291-301 | The command is `bash "` plus the escaped path, and reading the double-quoted word back gives the path |
| ClaudeHooks.ReadShellEscaped | src/claudeHooksBootstrap.ts:295-301 | Escaping `\`, `"`, `$` and backtick inside double quotes is undone by the shell's reading, up to the closing quote |
| ClaudeHooks.ShellCommandInjective | src/claudeHooksBootstrap.ts:291-301 | Distinct script paths give distinct commands |
| ClaudeHooks.ShellEscapeUnfold | src/claudeHooksBootstrap.ts:295-301 | The four replacement passes amount to escaping one character at a time: no pass rewrites a backslash an earlier pass added |
| ClaudeHooks.ShellEscapePlain | src/claudeHooksBootstrap.ts:295-301 | Text without special characters is left as it is |
| ClaudeHooks.StopNeverMatchesSubagent | src/claudeHooksBootstrap.ts:282-289 | For the stop script, a command holding `subagent-stop-hook.sh` after `\` becomes `/` is never managed |
| ClaudeHooks.MirroredCommandIsManaged | src/claudeHooksBootstrap.ts:282-293 | The command built for a script mirrored under `agent-task-notifier/` carries the signature and is recognised as managed |
| ClaudeHooks.ParseSettingsObject | src/claudeHooksBootstrap.ts:149-165 | Blank text gives `{}`; otherwise the result succeeds iff the text parses to an object, which it is then; unparsable text and a non-object root fail with their own messages |
| ClaudeHooks.EnsureHooksObject | src/claudeHooksBootstrap.ts:167-178 | A missing `hooks` becomes `{}`, an object `hooks` is kept, and anything else fails |
| ClaudeHooks.NormalizeHookGroups | src/claudeHooksBootstrap.ts:202-216 | A missing event gives no groups and a non-array fails; an array succeeds iff every item is an object, keeping the items, and otherwise fails naming the first non-object index |
| ClaudeHooks.FirstNonRecord | src/claudeHooksBootstrap.ts:210-215 | The index reported is that of the first item that is not an object |
| ClaudeHooks.NormalizeEntries | src/claudeHooksBootstrap.ts:210-215 | The array loop succeeds iff every item is an object, and otherwise fails at the first item that is not |
| ClaudeHooks.FilterHooksSpec | src/claudeHooksBootstrap.ts:238-250 | Filtering fails iff an entry is not an object; otherwise it keeps exactly the entries whose command is the desired one, or that are not `command` entries carrying the managed signature, in their original order and multiplicity: the result is the input at the increasing indices of exactly the kept entries |
| ClaudeHooks.FilterHooksPicked | src/claudeHooksBootstrap.ts:231-250 | The kept entries are the input at increasing indices, exactly those of the entries the filter keeps |
| ClaudeHooks.FilterHooksClean | src/claudeHooksBootstrap.ts:238-250 | Entries that all survive are kept as they are |
| ClaudeHooks.FilterGroupHooks | src/claudeHooksBootstrap.ts:238-250 | The loop over a group's entries returns the filtered entries, or the entry error |
| ClaudeHooks.RemovedGroupSpec | src/claudeHooksBootstrap.ts:225-258 | A group succeeds iff it has a `hooks` array of objects; the result is no group or one clean group, and failures carry their messages |
| ClaudeHooks.RemovedGroupsSpec | src/claudeHooksBootstrap.ts:218-262 | Removal succeeds iff every group is well formed, and every surviving group is clean, so groups left empty, and groups empty from the start, are dropped |
| ClaudeHooks.RemovedGroupsClean | src/claudeHooksBootstrap.ts:218-262 | Removal leaves clean groups as they are, so removing twice is removing once |
| ClaudeHooks.RemoveManagedCommands | src/claudeHooksBootstrap.ts:218-262 | The loop over groups returns the removal result |
| ClaudeHooks.RemovedEntries | src/claudeHooksBootstrap.ts:218-262 | After removal an entry appears in some group iff it appeared before and is kept by the filter; the surviving groups are the groups with their kept entries, in their original order, at exactly the indices of the groups that keep an entry |
| ClaudeHooks.RemovedGroupsOrder | src/claudeHooksBootstrap.ts:225-262 | The surviving groups are the trimmed groups in their original order, at exactly the indices of the groups that keep an entry |
| ClaudeHooks.RemovedGroupEntries | src/claudeHooksBootstrap.ts:231-258 | The same for one group; a group survives iff it keeps an entry, and then its `hooks` holds the kept entries while every other field keeps its value and its place |
| ClaudeHooks.HasExactCommand | src/claudeHooksBootstrap.ts:264-280 | The nested loops find an entry whose command is the desired one exactly when one exists |
| ClaudeHooks.HasExactIn | src/claudeHooksBootstrap.ts:264-280 | An exact command exists iff some group holds an entry with that command |
| ClaudeHooks.RemovedKeepsExact | src/claudeHooksBootstrap.ts:238-250 | Removal keeps an exact entry iff there was one |
| ClaudeHooks.GroupsJson | src/claudeHooksBootstrap.ts:190-199 | The groups written back are the group objects, in order |
| ClaudeHooks.ReadBackGroups | src/claudeHooksBootstrap.ts:199-216 | Reading back the written groups gives them unchanged |
| ClaudeHooks.WithManagedSpec | src/claudeHooksBootstrap.ts:186-199 | After an upsert over clean groups the exact command is present, and every group is still clean |
| ClaudeHooks.UpsertedSpec | src/claudeHooksBootstrap.ts:180-216 | The upsert succeeds iff the event is missing or holds an array of well-formed groups; it changes no other event, keeps the key order or appends the event, and leaves the event with the exact command and only clean groups |
| ClaudeHooks.UpsertedEntries | src/claudeHooksBootstrap.ts:186-258 | Every entry the filter keeps survives, and the only entry ever added is `{type:"command", command}` in a new group, appended only when no exact entry survived |
| ClaudeHooks.UpsertedFixed | src/claudeHooksBootstrap.ts:180-200 | Upserting an event that already holds the upsert's result changes nothing |
| ClaudeHooks.UpsertCommandHook | src/claudeHooksBootstrap.ts:180-200 | The method returns the upsert result |
| ClaudeHooks.UpsertedWire | src/claudeHooksBootstrap.ts:180-200 | Under an event name that is not an array index, the upsert keeps the hooks object serialisable: no non-finite number, and keys in ECMAScript order |
| ClaudeHooks.UpdatedSettingsFixed | src/claudeHooksBootstrap.ts:137-147 | Updating an already-updated settings tree changes nothing |
| ClaudeHooks.NextSettingsSpec | src/claudeHooksBootstrap.ts:137-147 | Only `hooks` changes at the root, only `hooks.Stop` and `hooks.SubagentStop` change inside it, and both carry their managed command |
| ClaudeHooks.FreshSettings | src/claudeHooksBootstrap.ts:137-152 | Blank settings become `{hooks: {Stop: [group], SubagentStop: [group]}}`, each group holding the managed command |
| ClaudeHooks.BuildNextSettingsText | src/claudeHooksBootstrap.ts:137-147 | The method returns the indented serialisation of the next tree plus a newline, or the first shape error |
| ClaudeHooks.NextSettingsWire | src/claudeHooksBootstrap.ts:137-147 | The next settings tree is serialisable when the parsed settings have only finite numbers |
| ClaudeHooks.NextSettingsIdempotent | src/claudeHooksBootstrap.ts:137-147 | Rebuilding the settings from the text written gives the identical text |
| ClaudeHooks.SecondReconcileUnchanged | src/claudeHooksBootstrap.ts:83-112 | Reconciling the written settings again reports "unchanged" and writes nothing |
| Base64.EncodeUrlAlphabet | adapters/opencode/agent-task-notifier.js:16-22 | The URL-safe encoding contains no `+`, `/` or `=`, and only URL-safe characters |
| Base64.ToUrl | adapters/opencode/agent-task-notifier.js:19-20 | `+` and `/` are mapped character by character, and the length is kept |
| Base64.StripPadding | adapters/opencode/agent-task-notifier.js:21 | Only a trailing run of `=` is removed, all of it |
| OpenCodeNotifier.BuildOsc | adapters/opencode/agent-task-notifier.js:24-27 | The frame is `ESC ]`, then `777;notify;AGENT_TASK_EVENT_V1;` and the encoded JSON, then BEL |
| FrameRoundTrip.EncodedShape | adapters/opencode/agent-task-notifier.js:16-25 | The encoded payload is non-empty URL-safe text that decodes back to the UTF-8 bytes of the JSON |
| FrameRoundTrip.BuiltFrameScans | adapters/opencode/agent-task-notifier.js:24-27 | The parser scans a built frame to exactly its content and keeps nothing |
| FrameRoundTrip.BuiltContentParses | adapters/opencode/agent-task-notifier.js:24-27 | The parser's prefix and title checks accept the content of a built frame, and it yields the validated payload |
| FrameRoundTrip.BuiltFrameEvents | adapters/opencode/agent-task-notifier.js:24-27 | A built frame is decoded to its payload exactly when the payload validates |
| FrameRoundTrip.BuiltFrameSplit | adapters/opencode/agent-task-notifier.js:24-27 | A built frame fed in two chunks gives the same events, unless the cut falls inside `ESC ]` |
| FrameRoundTrip.TurnCompleteDelivered | adapters/opencode/agent-task-notifier.js:59-76 | The turn-complete payload survives framing, scanning and validation as the expected event |
| FrameRoundTrip.ApprovalDelivered | adapters/opencode/agent-task-notifier.js:78-99 | The approval payload survives framing, scanning and validation as the expected event |
| OpenCodeNotifier.PrunedTokens | adapters/opencode/agent-task-notifier.js:51-57 | Pruning keeps exactly the tokens at most 600000 ms old, unchanged |
| OpenCodeNotifier.ResolveSpec | adapters/opencode/agent-task-notifier.js:33-49 | Within 1500 ms of the stored time the stored token is returned and not refreshed; otherwise `String(timestamp)` is stored and returned; a missing session uses `__unknown__`; other sessions are only pruned |
| OpenCodeNotifier.ReuseDoesNotRefresh | adapters/opencode/agent-task-notifier.js:36-48 | Idle events at t, t+1000 and t+2000 give the same token twice, then a new one, because reuse does not refresh the stored time |
| Text.DecimalInjective | adapters/opencode/agent-task-notifier.js:42 | Distinct timestamps give distinct turn tokens |
| OpenCodeNotifier.TurnTokens.constructor | adapters/opencode/agent-task-notifier.js:10 | The token map starts empty |
| OpenCodeNotifier.TurnTokens.PruneTurnTokens | adapters/opencode/agent-task-notifier.js:51-57 | The deletion loop leaves exactly the pruned map |
| OpenCodeNotifier.TurnTokens.ResolveTurnToken | adapters/opencode/agent-task-notifier.js:33-49 | The method returns, and stores, what the resolution rules give |
| OpenCodeNotifier.TurnTokens.BuildTurnCompleteEvent | adapters/opencode/agent-task-notifier.js:59-76 | The payload carries the resolved token, and the map is updated by the resolution |
| OpenCodeNotifier.TurnTokens.ToAgentEvent | adapters/opencode/agent-task-notifier.js:101-113 | `session.idle`, or an idle `session.status`, builds the turn-complete payload; the two permission events build the approval payload and leave the tokens alone; anything else, a non-object too, gives nothing |
| OpenCodeNotifier.AddIfPresentIsWrite | adapters/opencode/agent-task-notifier.js:74-97 | An optional field is written only when it is truthy |
| OpenCodeNotifier.CommonWire | adapters/opencode/agent-task-notifier.js:64-95 | The common payload fields are serialisable: finite numbers, and distinct keys none of which is an array index |
| OpenCodeNotifier.CommonGets | adapters/opencode/agent-task-notifier.js:64-95 | The payload object holds version 1, source `opencode`, the event, status, title, message, `createdAt` and `dedupeKey` literally |
| OpenCodeNotifier.CommonWithoutIds | adapters/opencode/agent-task-notifier.js:64-95 | The common fields hold no session, task or turn id, so the optional ids are appended as new keys |
| OpenCodeNotifier.OptionalFields | adapters/opencode/agent-task-notifier.js:74-97 | `sessionId` and `taskId` appear exactly when truthy, and the other fields keep their values |
| OpenCodeNotifier.ValidatesFrom | src/parser.ts:121-156 | A payload object built from the common fields and the optional ids validates to the matching payload |
| OpenCodeNotifier.TurnCompleteValidates | adapters/opencode/agent-task-notifier.js:59-76 | Every turn-complete payload passes `validatePayload`, with `dedupeKey` `opencode:turn_complete:<sid or "">:<token>` |
| OpenCodeNotifier.ApprovalValidates | adapters/opencode/agent-task-notifier.js:78-99 | Every approval payload passes `validatePayload`, with the token `id ?? permissionID ?? timestamp`, `taskId` only for a permission id, the default message as fallback and `dedupeKey` `opencode:approval_requested:<sid or "">:<token>` |
| Notifier.TruncateWithEllipsis | src/notifier.ts:175-183 | The input is returned when it is empty or fits or the limit is not positive; otherwise the result is the first `maxChars - 1` characters and `…`, exactly `maxChars` long (just `…` for a limit of 1) |
| Notifier.NormalizeTextSpec | src/notifier.ts:171-173 | Normalised text is the words joined by single spaces, with no outer whitespace, and is empty iff the input is blank |
| Notifier.TitleForEvent | src/notifier.ts:140-163 | A non-blank explicit title wins, trimmed; otherwise the (source, event) table gives the title |
| Notifier.DefaultTitleShape | src/notifier.ts:144-162 | Every table title, `Agent Event` included, is non-empty and starts and ends with a letter |
| Notifier.TitleIsTight | src/notifier.ts:140-163 | The title is never empty and has no outer whitespace |
| Notifier.RenderNotificationContent | src/notifier.ts:165-169 | The rendered title is at most 120 characters and the message at most 140 (the limits of src/notifier.ts lines 18-19) |
| Notifier.RenderedEmptiness | src/notifier.ts:165-169 | The rendered message is empty iff the message is blank, and the rendered title is never empty |
| Notifier.ToastText | src/notifier.ts:84 | The toast is the title alone when the message is empty, else `title: message` |
| Registry.TerminalRegistry.constructor | src/terminalRegistry.ts:5-15 | A new registry is empty and satisfies the bijection invariant |
| Registry.TerminalRegistry.GetOrAssignId | src/terminalRegistry.ts:17-28 | A known terminal gets its id back and nothing changes; a new one gets the fresh id in both maps; the id maps back to the terminal; the invariant is kept |
| Registry.TerminalRegistry.GetTerminalById | src/terminalRegistry.ts:30-32 | A terminal is found iff the id is registered, and it maps back to the id; an id never issued finds nothing |
| Registry.TerminalRegistry.Unregister | src/terminalRegistry.ts:34-43 | Both directions are removed for that terminal only, its id no longer resolves, an unknown terminal changes nothing, and the invariant is kept |
| Json.SetKeys | src/claudeHooksBootstrap.ts:167-199 | A property write keeps the key order: an existing key stays in place and a new one comes last (ECMAScript's order for keys that are not array indices, the only keys written) |
| Json.SetWire | src/claudeHooksBootstrap.ts:167-199 | Writing a serialisable value under a key that is not an array index keeps an object serialisable |
| Json.GetSpec | src/claudeHooksBootstrap.ts:167-186 | A property read finds the first member with the key, and misses only when none has it |

## Left out

- File system, `os.homedir`, mirror-script copying and `chmod`, and the `vscode.window.show*Message` calls in both bootstrap classes. Their outcomes are parameters of `Reconcile.EnsureConfigured`. The `detail` and `configPath` fields of a result are not modelled.
- src/opencodePluginBootstrap.ts is not part of this model. It is file-copy plumbing only.
- src/extension.ts, src/focusRouter.ts, src/config.ts and src/logger.ts are not part of this model. They hold activation, command wiring, URI handling, settings lookup and logging.
- The `NotificationService` class and node-notifier (src/notifier.ts:27-138) are not modelled, apart from the toast text.
- The opencode plugin's shell emission and its stdout/stderr fallback (adapters/opencode/agent-task-notifier.js:115-134) are I/O, and are not modelled.
- Last-write-wins races between overlapping reconciles are concurrency, and are not modelled.
- `JSON.parse`, `JSON.stringify` and UTF-8 are abstract codec functions. The model relies on their round-trip hypotheses and does not define their text formats. The `JSON.parse` error text is dropped, so the parse failure carries no detail.
- Numbers: payload objects hold finite numbers, and the idempotence lemmas for Claude settings require every number in the original settings to be finite. `JSON.stringify` writes an infinity or NaN as `null`.
- Numbers are exact reals, and the round-trip hypotheses treat every finite real as surviving serialisation. Doubles are not modelled. That is exact for what `JSON.parse` returns, and for integer timestamps below 2^53, but not for reals in general.
- JSON objects with duplicate keys do not come out of `JSON.parse` (`Serialization.ParseShaped`). On such a member list, reads and writes act on the first member with the key.
- Json.Set: appends a new key. ECMAScript does that only for keys that are not array indices, and places an index key among the other index keys. The core writes only names (`hooks`, `Stop`, `SubagentStop`, `type`, `command` and the payload fields), and `Json.SetWire` requires such a key.
- The settings tree is updated as a value. In-place mutation of the parsed object, and the aliasing of `root.hooks`, are not modelled separately.
- JavaScript `Map` iteration order is not modelled. Maps are Dafny `map`s, and both deletion loops remove entries independently of order.
- `toLowerCase` is ASCII. Unicode case mapping is not modelled.
- Strings are sequences of characters. UTF-16 code units, surrogate pairs and `.length` in code units are not modelled, so the 120/140 limits count characters.
- Base64 decoding is strict. Node's `Buffer.from(s, 'base64')` skips foreign characters, and the model rejects them instead.
- `vscode.l10n.t` is the identity, so titles are the English strings.
- `randomUUID` and `Date.now` are parameters. `Registry.TerminalRegistry.GetOrAssignId` requires a fresh, non-empty id, which is what a UUID promises.
- TOML control characters in the script path are not escaped, as in the source. `CodexConfig.EscapeOneLine` and the idempotence lemmas therefore require a one-line path.
- CodexConfig.BuildNextIdempotent: requires `NoHiddenMarker`. After the managed block is removed, no line inside a legacy assignment's bracket run may read as the start marker without its `# `. An example is the line `>>> agent-task-notifier managed notify` between `notify = [` and `]`. Commenting would turn that line into a new start marker, and the next run would remove everything from it to the end of the inserted block.
- CodexConfig.SecondReconcileUnchanged: carries the same one-line-path and no-hidden-marker preconditions as `CodexConfig.BuildNextIdempotent`.
- CodexConfig.ManagedBlockLines: requires a one-line script path. The source does not escape line breaks in the path, so a path holding one makes the block longer than three lines.
- CodexConfig.BuildNextLayout: requires a one-line script path and `NoHiddenMarker`. Without the second condition, a commented line can become a second start marker, as described for `CodexConfig.BuildNextIdempotent`.
- ClaudeHooks.NextSettingsIdempotent: relies on the codec hypotheses `IndentedRoundTrips` and `ParseShaped`, and on finite numbers in the original settings.
- ClaudeHooks.SecondReconcileUnchanged: carries the same codec hypotheses (`IndentedRoundTrips`, `ParseShaped`) and finite-number requirement as `ClaudeHooks.NextSettingsIdempotent`.
- ClaudeHooks.MirroredCommandIsManaged: for the stop script, requires that the mirror directory's path does not itself contain `subagent-stop-hook.sh`.
- Dedupe.Decide, Dedupe.EventDedupe.ShouldEmit: a finite window is an exact real and timestamps are whole milliseconds; double rounding, and the overflow of `4 * window` to Infinity for windows near the double range, are not modelled.
- Dedupe.ZeroWindowEmits: requires that no stored timestamp lies after `now`, since a clock that runs backwards would still suppress.
