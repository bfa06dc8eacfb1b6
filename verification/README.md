# emterm cores in Dafny

A verified model of the state machines and codecs at the centre of the emterm terminal: output folding,
the Program Status table, the hot-upgrade handoff document, the snapshot payload, the civil calendar, the
agent-status grammar, latch and store, soft-wrapped lines, the text selection and two rate limiters.

`dafny verify dfyconfig.toml` checks everything.

## How it is laid out

One file, one module. Code that the program writes as expressions is a function here; code that updates
things step by step is a class or a method with loops, proved equal to a specification function, and the
laws are lemmas about that function.

- `Integers`, `Wrappers`, `Text`, `Utf8`, `LittleEndian`: machine integers, the optional value, string
  operations, UTF-8 as section 3 of RFC 3629 defines it, little-endian numbers.
- `FoldLines` (the line maps), `FoldRegistry` (registrations, flags and pruning over every run),
  `FoldEffects` (what each operation does to each line),
  `FoldLayout` (the frozen view of a frame), `FoldWindow` (which lines a frame shows), `FoldScans` (the
  loops), `FoldManager` (the class).
- `Bincode` (the serde data model in the positional layout), `Codecs` (typed codecs as bijections),
  `Handoff` (the document tree and its upgrades), `HandoffLayout` (field order of every version),
  `HandoffCodec` (version gate and theorems, for any four lawful document layouts; `THIS_BUILD` is the
  program's own), `HandoffBytes` (the document written out byte by byte, and that the codec writes and
  accepts exactly that), `LatchHandoff` (a pane's latch carried in the document).
- `SnapshotPayload`, `LocalTime`.
- `AgentStatus`, `AgentStatusWire`, `ExitLatch`, `LatchFeed`, `AgentStatusStore`, `AgentStatusModel`,
  `AgentStatusRuns`, `AgentStatusShown` (what is shown of a pane, told from the calls alone).
- `ProgramStatus` (parser and re-validator), `ProgramStatusGrammar` (which bodies are accepted and what
  they carry), `ProgramTable`, `ProgramTableRuns`, `ProgramStatusReports`,
  `StandardBase64`, `ProgramStatusTable` (the class).
- `LogicalLine`, `Selection`, `RateLimiters`.

Every lemma turns Dafny's automatic induction off: the only inductions are the recursive calls written in
the proofs.

## What the proofs found

- Line-mode selection: the documentation promises that the pressed row always stays selected whole
  (src-tauri/src/selection.rs:60-65). The code ends the bottom row at the current width, so a scrollback
  row stored wider loses its end when it is the bottom row. `Selections.LineModeHoldsOrigin` says exactly
  when the promise holds and `Selections.WideRowIsCut` is a concrete row that breaks it.
- A frame can show rows past the end of the buffer: its window has as many rows as the viewport even when
  folding leaves fewer display lines than that. `FoldWindows.TallWindowOverruns` says exactly when, and in
  `FoldWindows.OverrunExample` a ten-line buffer shows line 17.
- `get_total_display_lines` counts the visible lines exactly when every collapsed region of more than one
  line ends inside the buffer (`FoldLines.TotalDisplayExact`); past that it saturates.
- `secs_from_utc_components` undoes `utc_components` exactly for days whose year fits 32 bits
  (`LocalTime.SecsRoundTrip`); the year is narrowed by truncation.
- `in_subtree` with the empty root accepts only ids that are empty or begin with a slash, which is why
  clearing the root is a case of its own; with that case, clearing and app inheritance use one ancestor
  relation (`ProgramTables.WalkIsAbove`, `ProgramTables.ClearedExactly`).
- A daemon update marked as replay-derived, or the end of a pane, are the only ways a pane's queued
  transitions can fail to chain, and they do exactly when they change what the pane shows
  (`AgentStatusRuns.LinkExactly`).

## Model

| member | source | states |
|---|---|---|
| FoldRegistry.StepKeepsConsistent | src-tauri/src/fold.rs:122-222 | Every register, toggle, expand, unfold, enable and prune keeps regions non-empty, pairwise disjoint and keyed by source and start with the right line count, and disabled folding leaves nothing collapsed. |
| FoldRegistry.Run | src-tauri/src/fold.rs:108-440 | The same over every run from a consistent state. |
| FoldRegistry.RegisterKeepsInv | src-tauri/src/fold.rs:122-180 | Inserting a region that the overlap test admits keeps the registry disjoint and keyed. |
| FoldRegistry.FlagsKeepInv | src-tauri/src/fold.rs:186-195 | Changing collapsed flags alone keeps the registry's invariant. |
| FoldRegistry.PruneKeepsInv | src-tauri/src/fold.rs:358-385 | Shifting the surviving regions up keeps the invariant, and every survivor's flag is that of a region it came from. |
| FoldRegistry.PruneComposes | src-tauri/src/fold.rs:358-385 | Pruning `a` rows and then `b` rows equals pruning `a + b` rows. |
| FoldRegistry.OnlyOneContains | src-tauri/src/fold.rs:413-425 | At most one region contains a line, so toggling or expanding at a line changes that region's flag and nothing else. |
| FoldRegistry.OutsideAll | src-tauri/src/fold.rs:186-195 | A line in no region makes toggle and expand no-ops. |
| FoldRegistry.CollapsedList | src-tauri/src/fold.rs:210-222 | There is a list that holds exactly the collapsed regions in order of start. |
| FoldRegistry.CollapsedListIs | src-tauri/src/fold.rs:210-222 | That list is unique, so any correct way of sorting gives the cached one. |
| FoldRegistry.ReachableNeverSaturates | src-tauri/src/fold.rs:266-316 | In every reachable registry the hidden rows before a region fit 32 bits and never exceed its start, so the saturating subtractions never saturate. |
| FoldEffects.LinesDecide | src-tauri/src/fold.rs:413-425 | A registry that keeps the invariant is what it says of each line: which region, if any, contains it. |
| FoldEffects.RejectedExactly | src-tauri/src/fold.rs:122-131 | A range is rejected exactly when it is empty or one of its lines is already in a region, so a region that only touches another is admitted. |
| FoldEffects.StepEffect | src-tauri/src/fold.rs:122-440 | What every operation does to the region of every line, with no mention of keys or overlap tests: a new uncollapsed region on free lines, one flag flipped or cleared, all flags cleared, or the region of the line further down moved up unless it lost its first line. |
| FoldEffects.HiddenExactly | src-tauri/src/fold.rs:210-222 | A line is hidden exactly when its region is collapsed and starts above it. |
| FoldLines.HiddenFits | src-tauri/src/fold.rs:266-287 | Rows hidden before a collapsed region are at most its start line. |
| FoldLines.DisplayToActualIsVisible | src-tauri/src/fold.rs:239-259 | The line behind display row `d` is visible and has exactly `d` visible lines before it. |
| FoldLines.ActualToDisplayIsRank | src-tauri/src/fold.rs:266-287 | A line's display row is the number of visible lines before the line that stands for it: itself when visible, its region's start when hidden. |
| FoldLines.DisplayRoundTrip | src-tauri/src/fold.rs:239-287 | Mapping a display row to its line and back is the identity. |
| FoldLines.ActualRoundTrip | src-tauri/src/fold.rs:239-287 | Mapping a line to its display row and back gives the line when visible and its region's start when hidden. |
| FoldLines.DisplayToActualIncreases | src-tauri/src/fold.rs:239-259 | The map from display rows to lines is strictly increasing. |
| FoldLines.SummaryFound | src-tauri/src/fold.rs:298-316 | The scan finds the region whose summary row is asked for. |
| FoldLines.SummarySound | src-tauri/src/fold.rs:298-316 | Whatever the scan finds is a collapsed region whose summary row is that display row. |
| FoldLines.SummaryIsStart | src-tauri/src/fold.rs:239-316 | A display row is a region's summary exactly when it maps to that region's start. |
| FoldLines.TotalDisplayExact | src-tauri/src/fold.rs:322-326 | The total is the number of visible lines exactly when the buffer is empty or every collapsed region of more than one line ends inside it. |
| FoldLayouts.CursorReadsRow | src-tauri/src/fold.rs:524-561 | With every region above the row passed, comparing the next region's summary row with the display row answers both per-row scans. |
| FoldLayouts.WindowFits | src-tauri/src/fold.rs:462-475 | The index past the window's last display row is at most the number of buffer lines, so it fits 32 bits. |
| FoldWindows.RowInBuffer | src-tauri/src/fold.rs:239-259 | A display row maps to a line of the buffer exactly when the buffer has that many visible lines before it and one more. |
| FoldWindows.WindowInBufferExactly | src-tauri/src/fold.rs:462-569 | Every row of a frame shows a line of the buffer exactly when the window is empty or ends within the visible lines. |
| FoldWindows.TallWindowOverruns | src-tauri/src/fold.rs:462-569 | When every collapsed region ends inside the buffer, that is exactly when the viewport is empty or no taller than the total of display lines. |
| FoldWindows.OverrunExample | src-tauri/src/fold.rs:462-569 | After registering and folding lines 0 to 8 of a ten-line buffer in a ten-row viewport, the last row shows line 17. |
| FoldWindows.FrameFitsWhen | src-tauri/src/fold.rs:462-569 | When the buffer's length and all hidden rows together fit 32 bits, so does every line a frame maps to. |
| FoldWindows.ScrollLeavesBelow | src-tauri/src/fold.rs:470-475 | With every collapsed region inside the buffer and a viewport no taller than the visible lines, exactly as many visible lines lie below the last row as the scroll offset asks for, or as many as there are above the bottom window. |
| FoldWindows.TallStartsAtTop | src-tauri/src/fold.rs:470-475 | A viewport at least as tall as the visible lines starts at the first display line. |
| FoldWindows.FrameShows | src-tauri/src/fold.rs:462-569 | Row `r` of a frame shows the visible line with `display_start + r` visible lines above it: the summary of the collapsed region that starts there, else the line itself. |
| FoldLayouts.PartitionPoint | src-tauri/src/fold.rs:615-633 | The binary search finds the boundary between the regions that start at or before the line and those after. |
| FoldLayouts.RegionAtLineExact | src-tauri/src/fold.rs:615-633 | The frozen lookup answers a region exactly when it is collapsed and contains the line. |
| FoldLayouts.SearchRefinesScan | src-tauri/src/fold.rs:640-663 | Binary search over prefix sums gives the display row of the linear scan, for every line. |
| FoldScans.FindContaining | src-tauri/src/fold.rs:413-425 | The search over the registry finds the one region that contains the line, if any. |
| FoldScans.ToggleAt | src-tauri/src/fold.rs:186-195 | Flips the flag of the one region that contains the line and says whether there was one. |
| FoldScans.ExpandAt | src-tauri/src/fold.rs:331-342 | Clears the flag of the one region that contains the line and says whether the registry changed. |
| FoldScans.Unfold | src-tauri/src/fold.rs:345-350 | The loop clears every collapsed flag and nothing else. |
| FoldScans.Prune | src-tauri/src/fold.rs:358-385 | The rebuilding loop yields the specified pruned registry in whatever order the map is walked. |
| FoldScans.SortCollapsed | src-tauri/src/fold.rs:210-222 | Collecting and sorting the collapsed regions yields the collapsed list. |
| FoldScans.ScanDisplayToActual | src-tauri/src/fold.rs:239-259 | The loop with its early exit computes the display-to-line map. |
| FoldScans.ScanActualToDisplay | src-tauri/src/fold.rs:266-287 | The loop with its early exit computes the line-to-display map. |
| FoldScans.ScanSummary | src-tauri/src/fold.rs:298-316 | The loop computes the summary lookup. |
| FoldScans.SumHidden | src-tauri/src/fold.rs:322-326 | The sum of hidden rows fits 32 bits. |
| FoldScans.PrefixSums | src-tauri/src/fold.rs:477-485 | The prefix sums are the rows hidden before each region. |
| FoldScans.SkipAbove | src-tauri/src/fold.rs:503-517 | The cursor loop stops at the first region whose summary row is not above the row, with the right offset. |
| FoldScans.NextRow | src-tauri/src/fold.rs:524-561 | One step of the cursor emits the row that the per-line scans would give and keeps the cursor's invariant. |
| FoldScans.WalkRows | src-tauri/src/fold.rs:519-561 | The forward cursor yields one row per viewport row: `Summary(g)` where the summary lookup gives `g`, otherwise the cells of the mapped line. |
| FoldScans.LayOut | src-tauri/src/fold.rs:462-569 | The layout's rows, start and prefix sums are those of the window. |
| FoldScans.Frame | src-tauri/src/fold.rs:462-569 | Totals, window, rows and prefix sums together: the frame of the buffer. |
| FoldManagers.FoldManager.RegisterOsc133Region | src-tauri/src/fold.rs:122-150 | Registers the region, or nothing when it is empty or overlaps, and drops the cache only when it changed. |
| FoldManagers.FoldManager.RegisterCustomRegion | src-tauri/src/fold.rs:154-180 | The same for a custom region, an empty label becoming three dots. |
| FoldManagers.FoldManager.ToggleFold | src-tauri/src/fold.rs:186-195 | Flips the containing region when enabled, and says whether there was one. |
| FoldManagers.FoldManager.ExpandRegionContaining | src-tauri/src/fold.rs:331-342 | Expands the containing region and says whether anything changed. |
| FoldManagers.FoldManager.UnfoldEverything | src-tauri/src/fold.rs:345-350 | Clears every flag and the cache. |
| FoldManagers.FoldManager.SetFoldingEnabled | src-tauri/src/fold.rs:390-395 | Disabling unfolds everything; enabling leaves the flags alone. |
| FoldManagers.FoldManager.PruneBeforeLine | src-tauri/src/fold.rs:358-385 | Replaces the registry by its pruned form. |
| FoldManagers.FoldManager.GetCollapsedRegions | src-tauri/src/fold.rs:210-222 | Answers the sorted collapsed set whether or not it was cached. |
| FoldManagers.FoldManager.DisplayLineToActual | src-tauri/src/fold.rs:239-259 | The map over the current collapsed set. |
| FoldManagers.FoldManager.ActualLineToDisplay | src-tauri/src/fold.rs:266-287 | The map over the current collapsed set. |
| FoldManagers.FoldManager.GetSummaryRegion | src-tauri/src/fold.rs:298-316 | The summary lookup over the current collapsed set. |
| FoldManagers.FoldManager.GetTotalDisplayLines | src-tauri/src/fold.rs:322-326 | The saturated total over the current collapsed set. |
| FoldManagers.FoldManager.BuildLayout | src-tauri/src/fold.rs:462-569 | For every scrollback length, height and offset: exactly one row per viewport row, each the one the per-line scans give at `display_start` plus its index. |
| LocalTime.ProlepticGregorian | src-tauri/src/localtime.rs:127-141 | Day 0 is 1 January 1970 and each next day number is the calendar successor under the 4/100/400 leap rule. |
| LocalTime.DateRoundTrip | src-tauri/src/localtime.rs:117-141 | Every valid date has a day number that maps back to it (before the year is narrowed). |
| LocalTime.DayRoundTrip | src-tauri/src/localtime.rs:117-141 | Every day number has a valid date that maps back to it (before the year is narrowed). |
| LocalTime.NextDayCountsOne | src-tauri/src/localtime.rs:117-125 | The calendar successor has the next day number. |
| LocalTime.YearFits | src-tauri/src/localtime.rs:129-141 | A date's year fits 32 bits exactly when its day number is between two constants. |
| LocalTime.NarrowedDayRoundTrip | src-tauri/src/localtime.rs:117-141 | With the narrowed year the round trip holds exactly for those day numbers. |
| LocalTime.NarrowedDateRoundTrip | src-tauri/src/localtime.rs:117-141 | It holds for every valid date whose year fits 32 bits. |
| LocalTime.SecsRoundTrip | src-tauri/src/localtime.rs:91-111 | Seconds survive the split into components and back exactly when the day is in that range. |
| LocalTime.ComponentsRoundTrip | src-tauri/src/localtime.rs:91-111 | Valid components with a 32-bit year survive the trip through seconds. |
| LocalTime.ClockTicks | src-tauri/src/localtime.rs:91-99 | Second 0 is midnight of 1 January 1970, each next second advances a 24-hour clock by one, and the date moves to its calendar successor exactly when the clock passes midnight; the year is narrowed to 32 bits. |
| Bincode.RoundTrip | crates/mux_ipc/src/handoff.rs:624-633 | In the positional layout every value of a shape decodes from its encoding with anything after it left over. |
| Bincode.Canonical | crates/mux_ipc/src/handoff.rs:624-633 | Whatever decodes is the encoding of what it decodes to, followed by the rest. |
| Bincode.NoPrefixDecodes | crates/mux_ipc/src/handoff.rs:624-633 | No strict prefix of an encoding decodes. |
| LittleEndian.ByteAt | crates/mux_ipc/src/handoff.rs:629-633 | Byte `i` of an encoded number is `n / 256^i % 256`. |
| HandoffCodec.ThisBuildIsLawful | crates/mux_ipc/src/handoff.rs:69-176 | The document layouts of the four versions are bijections between documents and values of their shapes, and lead with the version. |
| HandoffCodec.DocumentVersioned | crates/mux_ipc/src/handoff.rs:629-648 | With any lawful pane layout a document's leading four bytes are its version. |
| HandoffCodec.VersionLeads | crates/mux_ipc/src/handoff.rs:629-648 | The version is `b0 + 256 b1 + 65536 b2 + 16777216 b3` of the leading four bytes, whatever follows, and there is none with fewer. |
| HandoffCodec.EncodedVersion | crates/mux_ipc/src/handoff.rs:629-648 | An encoded document leads with its own version. |
| HandoffCodec.CurrentRoundTrip | crates/mux_ipc/src/handoff.rs:624-673 | Encoding and decoding, with any trailing bytes, is the identity exactly on version-4 documents. |
| HandoffCodec.EncodedDecodes | crates/mux_ipc/src/handoff.rs:646-673 | An encoded document of version 1, 2, 3 or 4 decodes to its upgrade. |
| HandoffCodec.DecodesExactly | crates/mux_ipc/src/handoff.rs:646-673 | Bytes decode to a document exactly when they start with the encoding of a document of some version that upgrades to it. |
| HandoffCodec.SuccessIsCurrent | crates/mux_ipc/src/handoff.rs:522-533 | Every successful decode has schema version 4. |
| HandoffCodec.UnsupportedExactly | crates/mux_ipc/src/handoff.rs:647-653 | The version error is given exactly when four bytes are present and, lowest first, name a version outside 1 to 4, and carries that version and range. |
| HandoffCodec.PrefixMalformed | crates/mux_ipc/src/handoff.rs:646-673 | Every strict prefix of an encoding of any version is malformed. |
| HandoffCodec.ThisBuild | crates/mux_ipc/src/handoff.rs:624-673 | All of it for the program's own four layouts: what decodes, the round trip at version 4, and the refusal of strict prefixes. |
| HandoffBytes.DocumentWritten | crates/mux_ipc/src/handoff.rs:538-582 | With any pane layout, the bytes of a document, its sessions and windows, field by field in declaration order: integers lowest byte first, texts and lists behind a 64-bit length, options behind a byte. |
| HandoffBytes.PaneV1Written | crates/mux_ipc/src/handoff.rs:161-174 | The bytes of a version-1 pane, field by field. |
| HandoffBytes.PaneV2Written | crates/mux_ipc/src/handoff.rs:286-302 | The bytes of a version-2 pane. |
| HandoffBytes.PaneV3Written | crates/mux_ipc/src/handoff.rs:415-433 | The bytes of a version-3 pane. |
| HandoffBytes.PaneWritten | crates/mux_ipc/src/handoff.rs:69-150 | The bytes of a current pane and its records. |
| HandoffBytes.EncodedBytes | crates/mux_ipc/src/handoff.rs:624-633 | What this build writes is, byte for byte, the document written out field by field. |
| HandoffBytes.DecodesExactlyTheseBytes | crates/mux_ipc/src/handoff.rs:646-673 | The decoder accepts exactly the bytes that start with such a document of version 1 to 4 and yields its upgrade. |
| HandoffCodec.UpgradeKeepsTree | crates/mux_ipc/src/handoff.rs:211-275 | An upgrade keeps every session, window and pane in place and every field of the tree, changing panes only by the pane upgrade. |
| HandoffCodec.ChainKeepsTree | crates/mux_ipc/src/handoff.rs:654-661 | The whole chain from version 1 keeps the tree and its order. |
| HandoffCodec.UpgradeAppendsLatch | crates/mux_ipc/src/handoff.rs:176-198 | The first pane upgrade appends an unarmed latch and changes no other byte of the pane. |
| HandoffCodec.UpgradeAppendsScreen | crates/mux_ipc/src/handoff.rs:304-328 | The second appends a main-screen flag and an empty dump and changes nothing else. |
| HandoffCodec.UpgradeAppendsRecords | crates/mux_ipc/src/handoff.rs:435-460 | The third appends an empty record list and changes nothing else. |
| SnapshotPayload.EncodeSnapshotPayload | crates/mux_ipc/src/protocol.rs:262-274 | The buffer is the magic, the narrowed count, the table and the content. |
| SnapshotPayload.LengthIsExact | crates/mux_ipc/src/protocol.rs:276-292 | The length formula is the encoding's length. |
| SnapshotPayload.PayloadIs | crates/mux_ipc/src/protocol.rs:262-274 | Where everything stands: eight magic bytes, the count in bytes 8 to 11, segment `i` in the eight bytes from 12 + 8 i as offset, columns and rows, lowest byte first, then the content. |
| SnapshotPayload.LegacyExactly | crates/mux_ipc/src/protocol.rs:323-346 | A payload is legacy, and passed on whole, exactly when it does not begin with the eight magic bytes; one cut off before its count is malformed. |
| SnapshotPayload.DecodeSnapshotPayloadTyped | crates/mux_ipc/src/protocol.rs:323-416 | The three-way answer, from every check on the whole table. |
| SnapshotPayload.ParseTable | crates/mux_ipc/src/protocol.rs:347-415 | The loop with running totals and early exits judges the table as a whole. |
| SnapshotPayload.CheckEntry | crates/mux_ipc/src/protocol.rs:389-410 | The checks on one entry extend a good prefix or settle that the whole table is bad. |
| SnapshotPayload.TableRoundTrip | crates/mux_ipc/src/protocol.rs:262-416 | A table is read back exactly from its own bytes. |
| SnapshotPayload.StructuredExactly | crates/mux_ipc/src/protocol.rs:262-416 | A payload is structured exactly when the table is within every limit and the payload is its encoding, so every structured result re-encodes to the same bytes. |
| SnapshotPayload.EncodedDecodes | crates/mux_ipc/src/protocol.rs:262-416 | What is encoded decodes back exactly when it has at most 64 entries, ordered offsets inside the content and areas within both budgets, and is malformed otherwise (fewer than 2^32 entries). |
| Utf8.DecodeEncode | src-tauri/src/agent_status.rs:240-258 | Decoding undoes encoding on every text. |
| Utf8.EncodeDecode | src-tauri/src/agent_status.rs:240-258 | Bytes that decode are the encoding of what they decode to, so no overlong or surrogate form is accepted. |
| Utf8.RfcExamples | src-tauri/src/agent_status.rs:265-276 | The examples of section 7 of RFC 3629, of one to four bytes. |
| AgentStatus.PercentDecode | src-tauri/src/agent_status.rs:240-258 | The loop decodes the escapes, refusing cut-short and non-hexadecimal ones and bytes that are not UTF-8. |
| AgentStatus.DecodesSpelled | src-tauri/src/agent_status.rs:240-258 | The decoder yields exactly the bytes that are spelled: each byte as itself, unless it is a percent sign, or as an escape with the high digit first, digits in either case. |
| AgentStatus.EncodedExactly | src-tauri/src/agent_status.rs:265-276 | Every byte is written by itself: unreserved ones as they are, others as a percent sign and two upper-case digits, the high one first. |
| AgentStatus.ComposeShows | src-tauri/src/agent_status.rs:117-126 | Composing two optional states shows the first of blocked, working, error, done and idle among them, and nothing when there is none. |
| AgentStatus.PercentEncode | src-tauri/src/agent_status.rs:265-276 | The loop writes each byte or its escape. |
| AgentStatus.EncodedIsAscii | src-tauri/src/agent_status.rs:260-276 | Encoded text is ASCII and free of the field delimiter. |
| AgentStatus.PercentRoundTrip | src-tauri/src/agent_status.rs:240-276 | Decoding undoes percent-encoding on every text. |
| AgentStatus.SanitizeIdempotent | src-tauri/src/agent_status.rs:226-234 | A sanitized name has no control character, at most 80 characters, and is its own sanitized form. |
| AgentStatus.NameUnchanged | src-tauri/src/agent_status.rs:226-234 | A name is its own sanitized form exactly when it has no control character and at most 80 characters. |
| AgentStatus.NameFiltered | src-tauri/src/agent_status.rs:226-234 | A control character counts for nothing wherever it stands, and what is over 80 characters is cut off. |
| AgentStatusWire.Parse | src-tauri/src/agent_status.rs:174-224 | The parser accepts a clear, or fields with `state` exactly once and valid, `name` at most once and decodable and `v` at most once. |
| AgentStatusWire.ParseTokens | src-tauri/src/agent_status.rs:181-223 | The loop with its seen flags and early exits judges all fields at once. |
| AgentStatusWire.UnknownKeyIgnored | src-tauri/src/agent_status.rs:173-218 | A field with any other key changes nothing, wherever it stands. |
| AgentStatusWire.FieldIs | src-tauri/src/agent_status.rs:187-191 | A token is split at its first equals sign. |
| AgentStatusWire.BareField | src-tauri/src/agent_status.rs:187-191 | A token without one is a key with an empty value. |
| AgentStatusWire.AcceptedExactly | src-tauri/src/agent_status.rs:181-223 | Fields are accepted as a report exactly when `state` is given once with the word of its state, `name` never or once with a text that decodes to its name, and `v` at most once. |
| AgentStatusWire.PlainPayloads | src-tauri/src/agent_status.rs:174-224 | The payload with only a state word sets that state, for each of the four words, and the clear payload clears. |
| AgentStatusWire.BuiltExactly | src-tauri/src/agent_status.rs:281-302 | The text the builder writes, for every event it can send. |
| AgentStatusWire.ParseBuilt | src-tauri/src/agent_status.rs:281-302 | Parsing what the builder wrote gives the event with its name sanitized, for every event and name; a report of Error is refused. |
| AgentStatusWire.ParsedIsCanonical | src-tauri/src/agent_status.rs:174-302 | Whatever the parser accepts survives a second round trip unchanged. |
| ExitLatch.AgentStatusExitLatch.RecordSet | src-tauri/src/agent_status_exit_latch.rs:49-53 | Arms the latch, forgets the command end and wraps the generation. |
| ExitLatch.AgentStatusExitLatch.RecordClear | src-tauri/src/agent_status_exit_latch.rs:59-62 | Disarms the latch. |
| ExitLatch.AgentStatusExitLatch.RecordMark | src-tauri/src/agent_status_exit_latch.rs:72-92 | Fires and disarms, records a command end, or does nothing, as the state says. |
| ExitLatch.AgentStatusExitLatch.FromStateParts | src-tauri/src/agent_status_exit_latch.rs:103-116 | Rebuilds a latch with exactly these parts. |
| ExitLatch.CutChangesNothing | src-tauri/src/agent_status_exit_latch.rs:94-116 | The states and firings of a run are those of its two parts, the second started from the first one's final parts. |
| ExitLatch.Feed | src-tauri/src/agent_status_exit_latch.rs:49-92 | A latch fed a sequence answers and ends as the specification's run. |
| ExitLatch.FeedAndRebuild | src-tauri/src/agent_status_exit_latch.rs:94-116 | A latch taken apart anywhere and rebuilt from its parts answers as one never cut. |
| LatchHandoff.HandOver | src-tauri/src/mux/upgrade.rs:830-840 | Sent inside an encoded handoff document, as the latch fields of any pane of any version-4 document, each part under its own name, and rebuilt from what is decoded, a latch answers as one never cut. |
| LatchHandoff.Ship | crates/mux_ipc/src/handoff.rs:624-673 | A version-4 document arrives as it was sent. |
| ExitLatch.FiresExactly | src-tauri/src/agent_status_exit_latch.rs:20-92 | On every trace the latch fires at a prompt start exactly when the latest earlier report is a Set, a command end follows it, and no prompt start lies between that first command end and this one. |
| ExitLatch.FiringAt | src-tauri/src/agent_status_exit_latch.rs:72-92 | The firings of a run are those of its prefixes. |
| ExitLatch.GenerationCounts | src-tauri/src/agent_status_exit_latch.rs:49-53 | The generation counts the Sets, wrapping at 2^64. |
| LatchFeed.ReconcileLatchFeed | src-tauri/src/agent_status_model.rs:186-207 | The walk with one index computes the greedy reconciliation. |
| LatchFeed.KeepsOrder | src-tauri/src/agent_status_model.rs:163-185 | The result is the feed with marks dropped; every Set and Clear stays, in order. |
| LatchFeed.ConfirmsLongestPrefix | src-tauri/src/agent_status_model.rs:163-207 | Greedy matching confirms the first `k` live marks exactly when they are a subsequence of the candidates, so it confirms as many as can be. |
| LatchFeed.ConfirmsAll | src-tauri/src/agent_status_model.rs:177-183 | It confirms all live marks, in order, exactly when they are a subsequence of the candidates. |
| AgentStatusStore.AggregateIsGreatest | src-tauri/src/agent_status_model.rs:491-501 | The aggregate is contributed by a queried pane and exceeded by none, and is missing only when nothing is contributed. |
| AgentStatusStore.AggregateIgnoresOrder | src-tauri/src/agent_status_model.rs:491-542 | It depends only on the set of queried panes. |
| AgentStatusShown.AggregateExactly | src-tauri/src/agent_status_model.rs:483-501 | The aggregate is of the first class that a queried pane shows, in the order blocked, unseen error, unseen done, working, seen error, seen done, idle, and unseen when a pane shows that state unseen. |
| AgentStatusModels.AgentStatusModel.ApplyPlainTabEvent | src-tauri/src/agent_status_model.rs:232-240 | Reports the event with a minted revision and the stored summary. |
| AgentStatusModels.AgentStatusModel.ApplyPlainTabSummary | src-tauri/src/agent_status_model.rs:246-265 | Reports the summary with a minted revision and the stored OSC 777 part. |
| AgentStatusModels.AgentStatusModel.ApplyDaemonUpdate | src-tauri/src/agent_status_model.rs:283-327 | Reports all parts with the daemon's revision. |
| AgentStatusModels.AgentStatusModel.ApplyReport | src-tauri/src/agent_status_model.rs:337-389 | Stores the parts and their composite, sets unseen on a change, queues a transition for a change that is not replay-derived. |
| AgentStatusModels.AgentStatusModel.DiscardPane | src-tauri/src/agent_status_model.rs:395-400 | Removes the entry and, for a tab, its latch. |
| AgentStatusModels.AgentStatusModel.RecordLatchSet | src-tauri/src/agent_status_model.rs:407-409 | Feeds a Set to the tab's latch, made on first use. |
| AgentStatusModels.AgentStatusModel.RecordLatchClear | src-tauri/src/agent_status_model.rs:414-419 | Feeds a Clear to the tab's latch. |
| AgentStatusModels.AgentStatusModel.RecordLivePromptMark | src-tauri/src/agent_status_model.rs:430-443 | Feeds the mark and, when the latch fires, applies a clear by the ordinary path. |
| AgentStatusModels.AgentStatusModel.MarkPanesSeen | src-tauri/src/agent_status_model.rs:447-456 | Clears unseen on the tracked panes named and touches nothing else. |
| AgentStatusModels.AgentStatusModel.Drain | src-tauri/src/agent_status_model.rs:523-525 | Hands over the queue and empties it. |
| AgentStatusRuns.RunsStayConsistent | src-tauri/src/agent_status_model.rs:97-118 | Over every run each entry's state and name are the composite of its stored parts. |
| AgentStatusRuns.OthersUntouched | src-tauri/src/agent_status_model.rs:337-400 | A run that never names a pane leaves its entry alone. |
| AgentStatusRuns.NothingLost | src-tauri/src/agent_status_model.rs:380-525 | Drains deliver every queued transition once, in order. |
| AgentStatusRuns.LinkExactly | src-tauri/src/agent_status_model.rs:337-400 | A call continues a pane's chain of transitions unless it is a discard or replay-derived update that changes what the pane shows, and then it breaks it. |
| AgentStatusRuns.TransitionsChain | src-tauri/src/agent_status_model.rs:337-389 | Without such calls a pane's transitions chain from the state at the start of the run to the state at its end. |
| AgentStatusRuns.TransitionsAreReal | src-tauri/src/agent_status_model.rs:121-129 | Every queued transition starts from what its pane showed at that moment, ends at what the pane shows after the call, under the name it then carries, and repeats a state only as the first report of an untracked pane that shows nothing. |
| AgentStatusRuns.RevisionCountsReports | src-tauri/src/agent_status_model.rs:228-276 | A tab's revision counts the reports it accepted since it was last tracked anew, inferred clears among them. |
| AgentStatusRuns.SeenMeansUnchanged | src-tauri/src/agent_status_model.rs:331-336 | A pane still marked seen after a run shows what it showed before it. |
| AgentStatusRuns.InferredClear | src-tauri/src/agent_status_model.rs:420-443 | In every reachable store a live mark clears the tab's OSC 777 part, and only that part, exactly when the tab's latch inputs since its last discard call for it. |
| AgentStatusShown.PartsAreTold | src-tauri/src/agent_status_model.rs:228-327 | Over every run a pane holds what it was last told: a tab its last event or inferred clear and its last summary, a daemon pane its last update, nothing once discarded. |
| AgentStatusShown.ShownExactly | src-tauri/src/agent_status_model.rs:97-118 | Over every run a pane shows the first of blocked, working, error, done and idle among the states it was last told, nothing when it was told none, and the name that goes with it: the title or app of the OSC 7501 part when its state is the one shown, else the reported name. |
| AgentStatusShown.UnseenExactly | src-tauri/src/agent_status_model.rs:337-456 | Over every run a tracked pane is unseen exactly when some call changed what it shows, or began to track it, and no later call marked it seen. |
| AgentStatusShown.RevisionIsTold | src-tauri/src/agent_status_model.rs:283-327 | A daemon pane carries the revision of its last update. |
| ProgramStatus.ParseProgress | src-tauri/src/program_status.rs:372-384 | The digit loop accepts exactly the decimal numbers up to 100, leading zeros included, without overflow. |
| ProgramStatus.LeadingZero | src-tauri/src/program_status.rs:372-384 | A leading zero changes no number. |
| ProgramStatus.Collect | src-tauri/src/program_status.rs:323-353 | For each key the last fitting value survives; a progress that is no number in range does not displace an earlier one. |
| ProgramStatus.CheckId | src-tauri/src/program_status.rs:388-404 | The loop accepts exactly one to eight segments of one to 32 name bytes, 128 bytes in all. |
| ProgramStatus.ParseReceived | src-tauri/src/program_status.rs:241-308 | A lone question mark is a query, an over-long sequence is ignored, the rest is judged by its surviving pairs. |
| ProgramStatus.DecodedIsStorable | src-tauri/src/program_status.rs:412-432 | A decoded text is non-empty, within its limit and free of control characters. |
| ProgramStatus.AcceptedIsStorable | src-tauri/src/program_status.rs:241-308 | Every accepted report has a valid id, and a set carries a storable record, whatever base64 does. |
| ProgramStatus.ValidatedExactly | src-tauri/src/program_status.rs:646-703 | The re-validator passes an exported record unchanged exactly when its id is valid and it is storable. |
| ProgramStatus.ValidatedIsStorable | src-tauri/src/program_status.rs:646-703 | Whatever it passes is storable. |
| ProgramStatus.ValidatedOnly | src-tauri/src/program_status.rs:646-703 | For every record: it passes exactly when, empty texts taken for none, it is the export of a storable record under a valid id, and what passes is that record, nothing repaired or dropped. |
| ProgramStatusGrammar.FittingExactly | src-tauri/src/program_status.rs:323-341 | A piece fits exactly when it is a key of lower-case letters, an equals sign and value bytes. |
| ProgramStatusGrammar.LastValueExactly | src-tauri/src/program_status.rs:323-353 | The value kept for a key is that of the last piece that gives it. |
| ProgramStatusGrammar.LastProgressExactly | src-tauri/src/program_status.rs:323-353 | The progress kept is that of the last piece that gives one in range. |
| ProgramStatusGrammar.ParsedExactly | src-tauri/src/program_status.rs:241-308 | Only a lone question mark is a query; anything else is accepted exactly when the whole sequence is at most 4096 bytes and its last values hold a state word or `clear`, a valid id if any, and a readable title and message if any. |
| ProgramStatusGrammar.AcceptedCarries | src-tauri/src/program_status.rs:276-308 | An accepted report carries what the last values say: the id, clear or the state, a kind only when blocked, a progress only when working or blocked, the app if valid, the texts as they decode. |
| ProgramStatusGrammar.Vocabulary | src-tauri/src/program_status.rs:83-155 | The words of the five states and three kinds. |
| ProgramStatusGrammar.PlainReport | src-tauri/src/program_status.rs:241-308 | A body with nothing but a state word sets the empty id to that state, for each of the five words. |
| ProgramStatusGrammar.EveryIdHasAClear | src-tauri/src/program_status.rs:276-284 | For every valid id, the empty one included, the bytes of `state=clear`, with `:id=` and the id unless it is empty, clear that id, whatever base64 does. |
| ProgramStatusGrammar.ClearReaches | src-tauri/src/program_status.rs:533-539 | Fed to a terminal, those bytes remove exactly the records at or below the id and keep the others in order. |
| ProgramStatusReports.EveryRecordHasAReport | src-tauri/src/program_status.rs:241-308 | Every valid id and storable record has a report within the length limit that parses to it. |
| ProgramStatusReports.HandoffKeepsExactlyReachable | src-tauri/src/program_status.rs:533-609 | A table survives export and import unchanged exactly when some inputs produce it. |
| ProgramStatusReports.StandardHandoff | src-tauri/src/program_status.rs:533-609 | The same for standard base64, with nothing assumed. |
| StandardBase64.DecodeEncode | src-tauri/src/program_status.rs:52-57 | Decoding standard base64 undoes encoding on all bytes. |
| StandardBase64.ShortVectors | src-tauri/src/program_status.rs:52-57 | Two test vectors of section 10 of RFC 4648, with padding. |
| StandardBase64.LongVector | src-tauri/src/program_status.rs:52-57 | The longest of them. |
| ProgramStatusReports.StandardUndoes | src-tauri/src/program_status.rs:52-57 | Standard base64 meets what the theorem above assumes. |
| ProgramTables.WalkIsAbove | src-tauri/src/program_status.rs:623-644 | The prefix test with the root's special case and the parent walk give the same ancestors; for the empty root the prefix test alone gives only the empty id and ids with a leading slash. |
| ProgramTables.ClearedExactly | src-tauri/src/program_status.rs:533-539 | A clear removes the id and everything below it, everything for the empty id. |
| ProgramTables.DecidingIs | src-tauri/src/program_status.rs:559-570 | No record outranks the deciding one and no later record equals it. |
| ProgramTables.SummaryExactly | src-tauri/src/program_status.rs:559-580 | The summary shows the first of blocked, working, error, done and idle that a record has, with the title and app of the record that took it last. |
| ProgramTables.TitleSanitized | src-tauri/src/program_status.rs:440-450 | A title is shown as it is exactly when it has at most 80 characters and no control or invisible one; such characters count for nothing, and what is over 80 is cut off. |
| ProgramTables.PromptExactly | src-tauri/src/program_status.rs:544-549 | A prompt start judges each record by itself, in order, and keeps those that are done or in error. |
| ProgramTables.EffectiveAppIsNearest | src-tauri/src/program_status.rs:621-636 | The effective app is that of the longest id at or above the record's that has one; there is none exactly when none has. |
| ProgramTableRuns.RunBounded | src-tauri/src/program_status.rs:533-619 | Over every run of any reports, prompt starts and resets, ids are unique and at most 256. |
| ProgramTableRuns.TableIsLatest | src-tauri/src/program_status.rs:612-619 | After any history of puts the table is the last 256 distinct ids by last update, each with its last record. |
| ProgramTableRuns.SetsAreLatest | src-tauri/src/program_status.rs:533-539 | The same for any run of Set reports. |
| ProgramTableRuns.ImportIsLatest | src-tauri/src/program_status.rs:598-610 | Importing any list keeps the last 256 distinct ids among its valid records. |
| ProgramTableRuns.ImportExport | src-tauri/src/program_status.rs:583-610 | Import undoes export, order included, exactly on bounded tables of storable records. |
| ProgramTableRuns.HandoffKeepsTable | src-tauri/src/program_status.rs:583-619 | Every table that bodies, prompt starts and resets can produce survives the handoff, whatever base64 does. |
| ProgramTableRuns.PromptReaches | src-tauri/src/program_status.rs:544-549 | After a prompt start a terminal holds exactly its done and error records, unchanged. |
| ProgramTableRuns.ResetAndIgnored | src-tauri/src/program_status.rs:552-556 | A reset forgets everything before it, and a body that is no report changes nothing, whatever comes after. |
| ProgramTableRuns.InvalidIsDropped | src-tauri/src/program_status.rs:602-610 | A record that does not pass counts for nothing wherever it stands in an imported list. |
| ProgramStatusTable.Table.ApplyReport | src-tauri/src/program_status.rs:533-539 | A set puts the record last; a clear keeps what is outside the subtree. |
| ProgramStatusTable.Table.StartPrompt | src-tauri/src/program_status.rs:544-549 | Keeps done and error records, in order, and says whether any went. |
| ProgramStatusTable.Table.ResetAll | src-tauri/src/program_status.rs:552-556 | Empties the table and says whether it held any. |
| ProgramStatusTable.Table.Summarize | src-tauri/src/program_status.rs:559-580 | The loop finds the deciding record; its title is sanitized and dropped when empty. |
| ProgramStatusTable.Table.EffectiveApp | src-tauri/src/program_status.rs:623-636 | The parent walk finds the app of the nearest id that has one. |
| ProgramStatusTable.Table.Import | src-tauri/src/program_status.rs:602-610 | The loop puts the valid records in order into a new table. |
| ProgramStatusTable.Table.HandOver | src-tauri/src/program_status.rs:583-610 | Exported and imported, a table is the same exactly when it is bounded and its records are storable. |
| ProgramStatusTable.Table.PutRecord | src-tauri/src/program_status.rs:612-619 | Replaces the id's record or evicts the oldest of a full table, and appends. |
| LogicalLines.LogicalLine.PushRow | src-tauri/src/logical_line.rs:71-84 | Appends the row's text and one cell per character. |
| LogicalLines.CharOfGrapheme | src-tauri/src/logical_line.rs:60-84 | Each character of each grapheme, empty ones shown as a space, stands at its place with the cell that starts where the widths before it end. |
| LogicalLines.LogicalLine.CharIndexAt | src-tauri/src/logical_line.rs:100-102 | The first character at a position, if any. |
| LogicalLines.FirstAtPosition | src-tauri/src/logical_line.rs:97-102 | All characters from the first at a position to any other there share its column. |
| LogicalLines.LogicalLine.CharRangeToSegments | src-tauri/src/logical_line.rs:110-132 | The loop computes the runs of touching cells. |
| LogicalLines.SegmentsCover | src-tauri/src/logical_line.rs:104-132 | The segments cover exactly the columns of the cells. |
| LogicalLines.CellColumns | src-tauri/src/logical_line.rs:104-132 | A cell takes its width from its own column on, at least one column, up to the last a `u16` can name. |
| LogicalLines.RangeCovered | src-tauri/src/logical_line.rs:104-132 | For rows with distinct coordinates and any range: exactly the columns of the characters from its start up to and not including its end, one segment per row touched, in order. |
| Selections.WordBoundary | src-tauri/src/selection.rs:360-423 | On live and scrollback rows alike: the maximal run of word cells around the clamped column, or that single cell. |
| Selections.ScanLeft | src-tauri/src/selection.rs:380-387 | The leftward scan finds the start of the run. |
| Selections.ScanRight | src-tauri/src/selection.rs:388-394 | The rightward scan finds its end. |
| Selections.ExpandRow | src-tauri/src/selection.rs:298-312 | Each glyph stands on its leading column with empty cells behind it. |
| Selections.OneWordOneBoundary | src-tauri/src/selection.rs:360-423 | Two columns have the same boundary exactly when the second lies in the first one's word. |
| Selections.BoundaryExactly | src-tauri/src/selection.rs:360-423 | The boundary at a column, clamped to the row, is the longest run of word cells around it, and just that cell when it is not one. |
| Selections.GlyphAt | src-tauri/src/selection.rs:298-312 | Each glyph stands on the first of its columns, after those of the glyphs before it, and its other columns are empty. |
| Selections.Selection.Extend | src-tauri/src/selection.rs:106-153 | Moves the free end, or recomputes both ends from pivot and pointer. |
| Selections.Selection.ShiftRowsDown | src-tauri/src/selection.rs:178-204 | Drops the selection or shifts and clamps endpoints and pivot. |
| Selections.OnlyTheLastMoveCounts | src-tauri/src/selection.rs:98-105 | Any sequence of drags ends where its last move alone would. |
| Selections.OnlyTheOriginCounts | src-tauri/src/selection.rs:98-105 | In word and line mode the result depends only on pivot and pointer. |
| Selections.CharacterDragSelects | src-tauri/src/selection.rs:106-110 | After a press and any drags in character mode exactly the cells between the pressed position and the last pointer, in reading order and ends included, are selected. |
| Selections.WordDragSelects | src-tauri/src/selection.rs:111-135 | In word mode, exactly the cells from the start of the pressed word or the pointer's, whichever comes first, to the end of either, whichever comes last. |
| Selections.LineDragSelects | src-tauri/src/selection.rs:136-151 | In line mode, exactly the rows from the pressed one to the pointer's, the lower one up to the current width. |
| Selections.PressSelects | src-tauri/src/selection.rs:90-105 | A press alone selects its cell. |
| Selections.WordModeHoldsOrigin | src-tauri/src/selection.rs:111-135 | The pressed word and the word under the pointer are selected whole, and on the pressed row exactly the cells on the pointer's side of that word, or the span of both words. |
| Selections.LineModeOnOrigin | src-tauri/src/selection.rs:136-151 | A cell of the pressed row is selected exactly when the pointer is below or the cell is within the current width. |
| Selections.LineModeHoldsOrigin | src-tauri/src/selection.rs:60-65 | The pressed row is selected whole exactly when the pointer is below it or it is no wider than the terminal. |
| Selections.WideRowIsCut | src-tauri/src/selection.rs:136-151 | A row two columns wide on a one-column terminal loses its second cell. |
| Selections.KeptExactly | src-tauri/src/selection.rs:178-185 | An eviction keeps the selection exactly when it held a cell of a remaining row. |
| Selections.EvictionKeepsCells | src-tauri/src/selection.rs:157-204 | After it exactly the remaining rows' selected cells are selected, clamped endpoints included. |
| Selections.EveryRunIsPivoted | src-tauri/src/selection.rs:179-184 | Over every run of drags and evictions the pivot's row lies between the endpoints' rows. |
| Selections.EvictionCommutes | src-tauri/src/selection.rs:106-204 | Evicting then dragging equals dragging then evicting while pivot and pointer stay in the buffer. |
| RateLimiters.FiresExactly | src-tauri/src/callbacks.rs:912-933 | Under an advancing clock an allowed attempt fires exactly when every undiscarded earlier fire of its key is at least a window old, so two fires of one key are a window apart. |
| RateLimiters.NotificationRateLimiter.ShouldEmit | src-tauri/src/callbacks.rs:915-933 | Prunes what is older than four windows (one, where four overflow) and decides and records. |
| RateLimiters.EmitNeverForgets | src-tauri/src/callbacks.rs:915-933 | Over every run with an advancing clock it decides as a limiter that never prunes. |
| RateLimiters.MemoryExactly | src-tauri/src/callbacks.rs:915-933 | After a run it still holds each key's last fire, exactly while that was at most four windows old at the latest attempt. |
| RateLimiters.AgentNotificationRateLimiter.IsWithinLimit | src-tauri/src/notifications.rs:359-364 | Whether the key has no fire or an old enough one. |
| RateLimiters.AgentNotificationRateLimiter.Record | src-tauri/src/notifications.rs:378-382 | Keeps the fires still within the window and records this one. |
| RateLimiters.AgentNotificationRateLimiter.DiscardKey | src-tauri/src/notifications.rs:387-389 | Forgets the key. |
| RateLimiters.AgentNotificationRateLimiter.MaybeNotify | src-tauri/src/app/agent_status.rs:205-240 | Check, decide with the other gates, record only a fire. |
| RateLimiters.AgentNeverForgets | src-tauri/src/notifications.rs:366-382 | Over every run with an advancing clock, discards and refused attempts included, it decides as a limiter that never prunes. |
| RateLimiters.AgentMemoryExactly | src-tauri/src/notifications.rs:366-382 | After a run it still holds each key's last fire not discarded, exactly while that was less than 30 seconds old at the latest fire of any key. |

## Left out

- FoldManagers.FoldManager.DisplayLineToActual: the result must fit 32 bits; the running line only grows, so that is exactly when no unchecked addition of the program overflows, and what happens on overflow (a panic or a wrap, by build) is not modelled.
- FoldScans.ScanDisplayToActual: the same bound on its result.
- FoldManagers.FoldManager.BuildLayout: buffer length and mapped lines must fit 32 bits, for the same reason; `FoldWindows.FrameFitsWhen` is a guard that ensures it.
- FoldScans.LayOut: the same bound on the last row's line.
- FoldScans.WalkRows: the same bound on the last row's line.
- FoldScans.NextRow: the same bound on the last row's line.
- AgentStatusRuns.RevisionCountsReports: revisions are unbounded; the program's 64-bit counter is not modelled past its range.
- AgentStatusModels.AgentStatusModel.RecordLatchSet: latches are kept in the map by value and rebuilt for each call, which `CutChangesNothing` justifies.
- SnapshotPayload.EncodedDecodes: the narrowing of a count of 2^32 entries or more is modelled, but nothing is claimed for it beyond not being structured.
- Fold ids are the pair of source and start instead of the text made from them, and `BTreeMap` order does not matter to any result.
- Library sorting is insertion by start and library partitioning is bisection; both are fixed by uniqueness lemmas.
- Handoff trees below version 4 share one generic shape for windows, sessions and documents, because only panes differ between versions.
- Lengths of texts and vectors are below 2^64, as in any process.
- A core's rows are at most 65535 columns wide, as rows stored at a 16-bit width are.
- Base64, `is_alphanumeric` and `is_whitespace` are arbitrary functions; only `ProgramStatusReports` assumes that base64 undoes some encoder of the usual length and alphabet, which `StandardBase64` meets.
- The escape-sequence framing around payloads, frames and text envelopes, and the control messages.
- The terminal core itself, `localtime_r` and `localtime_s`, clocks and locks: instants are parameters and each call is one step.
- `resolve`, `byte_offset_of_char`, `counts`, `any_pane_has_reported_state` and single-field getters, which would add only easy members.
- Rendering, windows, processes, sockets, settings and notification texts.
