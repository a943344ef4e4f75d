# helix-startify launcher state, in Dafny

helix-startify is a start screen shown before the Helix editor opens. It keeps
two lists of file paths in `app.db`: `recents` (most recent first, at most ten,
no repeats) and `bookmarks` (insertion order, at most six, repeats allowed).
One invocation either adds a bookmark, deletes an entry by its key, records a
path as recent and opens it, or shows the interactive screen. On that screen
every entry has a one-hex-digit key: recent `i` has key `i` and bookmark `j` has
key `|recents| + j`. Pressing a key opens that entry. Esc or `q` quits.

The model has these modules:

- `Hex`: `to_digit(16)` and `from_digit(n, 16)` on single characters.
- `Store`: the `App` class. Its fields `recents`, `bookmarks` and the parsed
  `db` are changed in place by `AddBookmark`, `Delete`, `RecordRecent` and
  `Save`. `RecordRecent` and `Delete` are proved against pure functions of
  the old state (`Recorded`, `AfterDelete`), and the properties are lemmas
  about those functions.
- `Selection`: how a digit picks an entry of `recents ++ bookmarks`.
- `View`: the path split done by `Item::as_line`, the ordered screen lines built
  by `ui` (`Screen`), and the loop that builds them (`Ui`).
- `Session`: `run_app` as a loop over a finite event sequence. A poll timeout is
  the `Tick` event, which does nothing.
- `Entry`: the branch order of `main`.

The delete command is modelled exactly as written, and it is only right for
bookmark keys. `VecDeque::remove` does nothing for an index past the end.
The index is then reduced by the new length of recents, and `Vec::remove`
removes that bookmark. For a bookmark key this removes exactly the selected
bookmark (`DeleteBookmarkKey`). For the key of the last recent, it removes that
recent and then also the first bookmark. With no bookmarks it panics. For any
smaller recent key the subtraction underflows and the command panics before
saving. `AfterDelete` states each of these cases.

`--bookmark` stores its argument as given, without making it absolute, so a
bookmark without a `/` can be saved. From then on the interactive screen
panics in its first draw, where `rsplit_once('/')` is unwrapped; `Dispatch`
returns `Crash` in that case.

## Model

| member | source | states |
|---|---|---|
| `Hex.DigitValue` | src/main.rs:72 | a value exists exactly for `0-9`, `a-f` and `A-F`; it is below 16, and every such digit lies in the key range `'0'..='f'` |
| `Hex.HexChar` | src/main.rs:113 | the label digit for `n < 16` reads back as `n` and is never upper case |
| `Hex.HexCharInjective` | src/main.rs:121 | different slots get different label digits |
| `Hex.UpperCaseDigit` | src/main.rs:71-72 | `A`-`F` have the same value as `a`-`f` |
| `Store.Position` | src/main.rs:174 | the loop returns the first index holding the path, or none when the path is absent |
| `Store.RemoveFirst` | src/main.rs:174-176 | removes one occurrence of the path when it is present, so the length drops by one, and leaves the list alone otherwise |
| `Store.RemoveFirstMultiset` | src/main.rs:174-175 | the multiset of entries loses exactly one copy of the path and nothing else |
| `Store.RemoveFirstAt` | src/main.rs:174-175 | removing the first occurrence at index `i` is `s[..i] + s[i+1..]` |
| `Store.RemoveFirstAbsent` | src/main.rs:174 | an absent path leaves the list unchanged |
| `Store.RemoveFirstNoDup` | src/main.rs:174-176 | on a list without repeats, the result has no repeats and no copy of the path |
| `Store.Recorded` | src/main.rs:174-180 | the path ends at index 0; from at most ten entries the length stays the same for a known path, grows by one for a new path, and is capped at ten |
| `Store.RecordedNoDup` | src/main.rs:174-180 | recording keeps recents free of repeats |
| `Store.RecordedBounded` | src/main.rs:174-180 | recording keeps both bounds and the absence of repeats; bookmarks are untouched |
| `Store.RecordedMovesToFront` | src/main.rs:174-177 | a path already at index `i` moves to the front; the others shift down in order and the length is unchanged |
| `Store.RecordedNewPath` | src/main.rs:177-180 | a new path goes in front; on overflow only the back (oldest) entry is dropped |
| `Store.RecordedTwice` | src/main.rs:174-177 | recording the same path twice in a row changes nothing the second time |
| `Store.RecordedAgainAfterOther` | src/main.rs:174-177 | recording A, B, then A gives `[A, B]` |
| `Store.Removed` | src/main.rs:166 | `Vec::remove` in range: the entries before the index stay, the ones after shift down by one |
| `Store.AfterDelete` | src/main.rs:161-167 | a bookmark key removes that bookmark only; the last recent's key removes that recent and the first bookmark; every other key panics |
| `Store.DeleteReadsFirstChar` | src/main.rs:162-163 | only the first character of the key is read: a key and its first character delete alike |
| `Store.DeleteBookmarkKey` | src/main.rs:161-166 | on a bookmark key, the combined list loses exactly the entry at that key |
| `Store.AfterDeleteBounded` | src/main.rs:161-166 | a completed delete keeps the bounds and the absence of repeats |
| `Store.App.Load` | src/main.rs:150-151 | the state is the parsed blob, or two empty lists when it does not parse |
| `Store.App.Save` | src/main.rs:45-53 | the stored state becomes the current state |
| `Store.App.AddBookmark` | src/main.rs:153-159 | appends the path and saves if and only if there are fewer than six bookmarks; otherwise nothing changes; recents untouched; no de-duplication |
| `Store.App.Delete` | src/main.rs:161-169 | the new state is `AfterDelete` of the old one, saved when it completes; on a panic nothing is saved |
| `Store.App.RecordRecent` | src/main.rs:171-181 | recents become `Recorded(old recents, path)`, bookmarks are unchanged, the state is saved, and the invariant is kept |
| `Selection.Resolve` | src/main.rs:71-79 | digit `k` selects entry `k` of `recents ++ bookmarks`, or nothing past its end |
| `Selection.RecentLabel` | src/main.rs:113 | the label of recent `i` is a digit that reads back as `i` |
| `Selection.BookmarkLabel` | src/main.rs:121 | the label of bookmark `j` is a digit that reads back as `|recents| + j` |
| `Selection.RecentLabelRoundTrip` | src/main.rs:112-113 | the label of recent `i` reads back as `i` and selects recent `i` |
| `Selection.BookmarkLabelRoundTrip` | src/main.rs:120-121 | the label of bookmark `j` reads back as `|recents| + j` and selects bookmark `j` |
| `View.SplitPath` | src/main.rs:27 | a split exists exactly when the path has a `/`; prefix, `/` and name rebuild the path, and the name has no `/` |
| `View.SplitPathUnique` | src/main.rs:27 | the split is at the last `/`: it is the only split whose name has no `/` |
| `View.AsLine` | src/main.rs:26-35 | an entry line carries its key, and its directory part (ending in `/`) plus its name rebuild the path |
| `View.Entries` | src/main.rs:112-114 | one entry line per item |
| `View.Screen` | src/main.rs:108-122 | the screen has `5 + |recents| + |bookmarks|` lines |
| `View.ScreenLayout` | src/main.rs:108-122 | the order is "Recents", blank, the recents keyed `i`, blank, "Bookmarks", blank, the bookmarks keyed `|recents| + j` |
| `View.ScreenSelectsWhatItShows` | src/main.rs:112-121 | pressing the key shown on any entry line selects exactly the path that line shows |
| `View.ScreenEntrySlot` | src/main.rs:112-121 | the key on any entry line is the digit of that entry's slot in `recents ++ bookmarks` |
| `View.ScreenLabelsDistinct` | src/main.rs:112-121 | no two entry lines show the same key |
| `View.Ui` | src/main.rs:108-122 | the two loops build exactly `Screen` of the current lists |
| `Session.Step` | src/main.rs:66-84 | Esc or `q` pressed quits; a pressed hex digit below `|recents| + |bookmarks|` launches that entry of the combined list; a pressed non-hex key in `'0'..='f'` panics; every other event does nothing |
| `Session.Run` | src/main.rs:62-89 | the loop keeps running exactly when every event was a no-op; a launched path is one of the listed entries |
| `Session.RunFirstDecisive` | src/main.rs:62-89 | the first event that is not a no-op decides the outcome |
| `Session.RunAppend` | src/main.rs:62-89 | running on `a + b` is running on `a`, then on `b` if still running |
| `Session.QuitKeys` | src/main.rs:70 | Esc or `q` ends a running loop with no selection |
| `Session.UpperCaseKey` | src/main.rs:71-72 | an upper-case hex key acts like its lower-case twin |
| `Session.TwoRecentsOneBookmark` | src/main.rs:69-81 | with recents `/a/1`, `/b/2` and bookmark `/c/3`: keys 0, 1 and 2 open them; keys 3 to f do nothing, and Esc still quits |
| `Session.RunApp` | src/main.rs:56-90 | the loop returns `Run` of the events, and it changes neither list |
| `Entry.AfterSession` | src/main.rs:192-206 | a selection is handed to the editor, a quit and only a quit ends normally, a panic crashes, and a loop still waiting stays running |
| `Entry.Dispatch` | src/main.rs:133-207 | a bookmark wins over a delete, a delete over a path, and the interactive loop runs only with none of them; each branch's effect on the lists and on `app.db` is stated (a bookmark is saved only under six); the interactive branch crashes in its first draw when a path has no `/` or there are more than sixteen entries |

## Left out

- Terminal setup and teardown, ratatui layout, the logo read from `./logo` and the centering pads (src/main.rs:93-106, 124-130, 185-189, 197-203): rendering and terminal side effects with no logic of their own.
- JSON encoding and the file I/O of `App::save` and of loading (src/main.rs:45-53, 145-151): the database is modelled as its parsed content (`db`), and a failed write or read is not modelled.
- Argument parsing, `env::var("USER")`, `current_dir().join` and `Command::exec` (src/main.rs:134-143, 172-173, 182, 195): `Args.path` is taken as already absolute, and `Exec` stands for handing the path to the editor.
- Entry.Dispatch: when `exec` of the editor fails after a direct open, the source ignores the error and goes on to the interactive screen. The model ends that branch at `Exec`.
- Tick bookkeeping with `Instant`/`Duration` and `event::poll` (src/main.rs:61, 65-66, 86-88): wall-clock timing; a timeout is the no-op `Tick` event.
- Session.RunApp: errors from drawing, polling or reading an event are not modelled. The loop draws once before each event, so the draw that follows the last event is not represented.
- Store.Recorded: `pop_back` runs once per record, so recents loaded with more than ten entries stay longer than ten. The model keeps that behaviour, and the ten-entry bound is proved only for recents that start within it.
