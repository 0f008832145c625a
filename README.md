# lfgmacros menu generator, modelled in Dafny

`lfgmacros` turns two JSON collections of group events (team events and
league events, each with an ordered list of tips) into one menu file for a
game client. The program splits the team events at level 36. It renders
every event through a template into a sub-menu, concatenates the sub-menus,
and renders the three resulting blocks once more into the top-level menu.
For an event with tips, the template also sees `tip_macros`. This is a chain
of `macro <identifier> say <content>` statements separated by `$$`. The
identifier is the tip name with its whitespace removed.

The model follows `src/main.rs`:

- `outcomes.dfy` (`Outcomes`): the program's panics as `Err` values.
- `events.dfy` (`Events`): `GroupEvent`, `Tip`, `compare_level_requirement`, `get_tips`.
- `partition.dfy` (`Partitioning`): the stable split at threshold 36. Two in-order filters serve as the reference definition.
- `text.dfy` (`Text`): `char::is_whitespace`, UTF-8 byte lengths and `String::truncate`. A Dafny `string` holds Unicode scalar values; the Rust `String` holding it is its UTF-8 encoding.
- `tip_macros.dfy` (`TipMacros`): the tip statement, the pushed buffer, the `$$` join, the truncation as written and as intended.
- `menus.dfy` (`Menus`): the event context, `generate_menus` as a method with loops, and the composition in `main`. The template engine is a function parameter `Renderer`. It maps a template name and a context to a text or an error message.

## Model

| member | source | states |
|---|---|---|
| `Events.CompareLevelRequirement` | src/main.rs:44-64 | A league event is an error (`NotATeamEvent`), never a value. For a team event the result is -1, 0 or 1. It is -1 exactly when the requirement is below the value. It is 0 exactly when the value is 0, so never 0 for a positive value. Otherwise it is 1. |
| `Events.GetTips` | src/main.rs:65-86 | Returns the `tips` field of either variant, unchanged and in order. |
| `Partitioning.Partition` | src/main.rs:106-109 | The only way the split can fail is `NotATeamEvent`, the panic of the predicate. |
| `Partitioning.PartitionIsStableFilter` | src/main.rs:106-109 | The split succeeds if and only if every event is a team event. It is then exactly the in-order filter of the events below the threshold, paired with the in-order filter of those at or above it. This is stability. |
| `Partitioning.PartitionCorrect` | src/main.rs:106-109 | Every event in the low bucket is below the threshold. Every event in the high bucket is at or above it. Together the buckets are a permutation of the input (multiset equality), with nothing lost or duplicated. |
| `Partitioning.FiltersSplitMultiset` | src/main.rs:106-109 | On team events, the two reference filters together have the multiset of the input. |
| `Partitioning.SplitTeamEvents` | src/main.rs:106-109 | The program's split at 36 has the guarantees above, with the threshold written out. |
| `Partitioning.PartitionAtZero` | src/main.rs:54-60 | At threshold 0 every team event lands in the high bucket, so the `value == 0` branch cannot change a split. |
| `Text.RemoveWhitespace` | src/main.rs:149-152 | The filtered name contains no whitespace. It is no longer than the name and holds only the name's characters. |
| `Text.RemoveWhitespaceKeeps` | src/main.rs:149-152 | Exactly the whitespace is removed: every other character stays, as often as it occurs in the name. |
| `Text.RemoveWhitespaceConcat` | src/main.rs:149-152 | Filtering a concatenation filters each piece. |
| `Text.RemoveWhitespaceIdempotent` | src/main.rs:149-152 | Filtering twice is filtering once. |
| `Text.ByteLenAscii` | src/main.rs:160 | A string's byte length equals its character count if and only if the string is ASCII. |
| `Text.TruncateBytes` | src/main.rs:160 | `String::truncate`: a result is a prefix of the string. It has the requested byte length, or the whole string when the request is past the end. A panic happens only below the end. |
| `Text.CutAtPrefix` | src/main.rs:160 | Every character prefix ends on a byte boundary, and truncating there yields that prefix. |
| `TipMacros.Identifier` | src/main.rs:149-152 | A macro identifier has no whitespace and uses only characters of the tip name. |
| `TipMacros.MacroBuffer` | src/main.rs:146-155 | After the loop over a non-empty tip list, the buffer ends with `$$`. |
| `TipMacros.MacroBufferIsJoin` | src/main.rs:146-155 | After the loop the buffer is the in-order statements joined by `$$`, followed by one trailing `$$`. |
| `TipMacros.DropTrailingSeparator` | src/main.rs:159-160 | The intended truncation: its result followed by `$$` is the buffer. |
| `TipMacros.TipMacroList` | src/main.rs:144-162 | For a non-empty tip list, `tip_macros` is the tips' statements in order, joined by `$$`, with no trailing `$$`. |
| `TipMacros.SeparatorCount` | src/main.rs:147-160 | When no tip name or content contains `$`, `tip_macros` for n tips holds exactly 2(n-1) dollar signs, that is n-1 separators. |
| `TipMacros.TwoTips` | src/main.rs:146-160 | Two tips give the first statement, one `$$`, then the second statement. |
| `TipMacros.CadaverCounterFragment` | src/main.rs:147-154 | The tip `Cadaver Counter` / `Defeat the leader` gives `macro CadaverCounter say Defeat the leader`. |
| `TipMacros.TruncateAsWritten` | src/main.rs:160 | The truncation as written drops exactly the trailing `$$` if and only if the buffer is ASCII. On every other buffer it panics or yields something else. |
| `TipMacros.AsWrittenPanicsOnNonAscii` | src/main.rs:160 | With one tip whose content is `é`, the truncation as written panics at a non-boundary. |
| `TipMacros.AsWrittenLosesContent` | src/main.rs:160 | With content `éé`, the truncation as written yields `macro A say é`, losing a character. The intended list is `macro A say éé`. |
| `TipMacros.DropSeparatorIsByteTruncation` | src/main.rs:160 | For every buffer, the intended truncation is `String::truncate(len() - 2)` and never panics. |
| `Menus.ContextBindings` | src/main.rs:157-163 | `content` is always bound. `tips` and `tip_macros` are absent exactly when the event has no tips. Otherwise they hold the tip list and the `$$`-joined statements. |
| `Menus.BuildContext` | src/main.rs:142-163 | The loop, truncation and bindings produce the event's context. For an empty tip list only `content` is bound; otherwise `tips` is the list and `tip_macros` the joined statements. |
| `Menus.MenusOf` | src/main.rs:164-168 | Every failure of the menus is a template error. |
| `Menus.GenerateMenus` | src/main.rs:135-172 | The loop over events returns the menus: the in-order concatenation of the rendered sub-menus, or the first render failure. |
| `Menus.MenusFailureSticks` | src/main.rs:164-168 | Once a prefix of the events fails to render, the whole call fails with the same error. No partial result is returned. |
| `Menus.MenusAreConcatenation` | src/main.rs:140-171 | The menus succeed if and only if every event renders. They are then the in-order concatenation of the sub-menus. |
| `Menus.MenusStopAtFirstFailure` | src/main.rs:164-168 | If event k is the first to fail, the call fails with k's message. |
| `Menus.Run` | src/main.rs:106-132 | Splits, renders both team groups and the league events, then renders the top-level menu from the three blocks. Every failure aborts in that order. |
| `Menus.PipelineRejectsLeagueAmongTeams` | src/main.rs:106-109 | A league event in the team collection aborts the run with `NotATeamEvent`. |
| `Menus.PipelineDocument` | src/main.rs:116-128 | When every template renders, the document is the top-level template rendered with three blocks. These are the concatenated sub-menus of the low team events, of the high team events, and of the league events. |

## Findings

| source | as written | input that shows it | evidently intended | confidence | as-written member | corrected member |
|---|---|---|---|---|---|---|
| src/main.rs:160 | `tip_macros.truncate(tip_macros.chars().count() - 2)` passes a character count as a byte index. | One tip named `A` with content `é` panics, because byte 13 falls inside `é`. Content `éé` yields `macro A say é`, losing a character. | Drop the trailing `$$`, i.e. `truncate(tip_macros.len() - 2)`. | not executed | `TipMacros.TruncateAsWritten`, `TipMacros.AsWrittenPanicsOnNonAscii`, `TipMacros.AsWrittenLosesContent` | `TipMacros.TipMacroList` (through `TipMacros.DropTrailingSeparator`, with `TipMacros.DropSeparatorIsByteTruncation`) |

## Left out

- `read_data_file` (src/main.rs:174-187): opening a file and JSON deserialization are I/O and a foreign library. The loaded event sequences are parameters of `Menus.Run`.
- `write_output` (src/main.rs:189-191): a file write. `Menus.Run` returns the document instead.
- Template loading (src/main.rs:111-114) and the Tera engine: the renderer is the `Renderer` parameter. A failure to load the templates is not modelled.
- Path and file name constants and path joining (src/main.rs:12-21, 96-104): configuration. The three template names are kept. `task_strike_trial_lfg.vm` and `league_lfg.vm` are arguments of `generate_menus` (src/main.rs:116, 118, 121). `lfgmacros.vm` is the template of the top-level `render` call (src/main.rs:128).
- Menus.BuildContext: uses the intended truncation, not the one at line 160. The two agree on an ASCII buffer, and only there, as the ensures of `TipMacros.TruncateAsWritten` states. The non-ASCII difference is the finding above.
- Tera's `Context` is a map filled by `insert`. It is modelled as a record with optional `tips` and `tip_macros`. The JSON serialization of `content` is not modelled; the record holds the event itself.
- Panic messages, other than the message of a template error, are not modelled; each panic is an `Err` of `Outcomes.Failure`.
- The `usize` subtraction at line 160 cannot underflow at its call site, because the buffer holds at least one statement. `TipMacros.TruncateAsWritten` requires a buffer ending in `$$`.
- `i8` results are Dafny `int` values restricted to -1, 0 and 1 by the contract. `u8` fields are a subset type of `int`.
- The code has no categorised tips and no check for empty macro identifiers, so neither is modelled. It does have the `value == 0` branch in the comparison, which is modelled as written.
