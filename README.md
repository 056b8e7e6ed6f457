# MusicPlayer playlist bookkeeping, in Dafny

This project models the playlist logic of the `MusicPlayer` Qt widget
(`musicplayer.cpp`). The widget's state is:
- the ordered list of file paths `musicPaths`;
- the path `currentPlaying` of the current track, where the empty string means none;
- the list widget's selected row;
- which row is drawn highlighted.

The slots update this state in place: add files, add a folder, remove the
selected entry, play, pause, stop, double-click, and advance at the end of a
track by the chosen mode (sequential, shuffle, repeat-all).

Layout:
- `Playlist.dfy`, module `Playlist`: the list operations as functions, with
  the lemmas about them. These are append-if-absent (`AppendNew`),
  `QList::removeAt` (`RemoveAt`), `QList::indexOf` (`IndexOf`), the row of
  the current track (`PlayingIndex`) and the highlight rule.
- `Engine.dfy`, module `Engine`: an abstract media engine. It is a record of
  the loaded source and the playback state (stopped, playing, paused), plus
  the commands the widget sends it.
- `PlayMode.dfy`, module `PlayMode`: the end-of-track rule `NextIndex`. The
  random draw is a parameter. The module also holds the rule as the source
  writes it (see Findings) and lemmas on the order of play in each mode.
- `MusicPlayerWidget.dfy`, module `MusicPlayerWidget`: class `MusicPlayer`,
  with one method per slot.
  - Its invariant `Valid()` requires six things:
    - the selected row is -1 (none) or a row of the list;
    - the playlist has no duplicates;
    - no listed path is empty (the empty path means "no current track");
    - the current track is empty or listed;
    - the current track is the engine's source;
    - exactly the current track's row is highlighted.
  - Every slot keeps `Valid()`.
  - Every slot states its whole new state: the list, the current track, the
    row, the engine, the log of engine calls and the status tag.

The model follows the code in three places a reader might not expect:
- Adding files reports the number chosen, not the number added.
- `playSelectedMusic` compares paths, not indices, to decide whether to load.
- Removal with no selected row only sets a status; no other index reaches it.

## Model

| member | source | states |
|---|---|---|
| `Playlist.IndexOf` | musicplayer.cpp:255 | The result is -1 exactly when the path is absent. Otherwise it is a position holding the path, with no earlier occurrence. |
| `Playlist.AppendNew` | musicplayer.cpp:81-85 | Appending the files one by one, each only when not yet listed (the contains-check, then append; also musicplayer.cpp:122-129). The result is at least as long as the old list and gains at most one entry per file. |
| `Playlist.PlayingIndex` | musicplayer.cpp:196-202 | There is no current row exactly when the current path is empty or not listed. Otherwise the row lists the current path. |
| `Playlist.AppendNewKeepsPrefix` | musicplayer.cpp:81-85 | Adding files never drops or reorders entries: the old playlist is a prefix of the new one. |
| `Playlist.AppendNewElements` | musicplayer.cpp:122-129 | After adding, a path is listed exactly when it was listed before or was among the added files. |
| `Playlist.AppendNewNoDuplicates` | musicplayer.cpp:81-85 | The contains-check before each append keeps a duplicate-free playlist duplicate-free. |
| `Playlist.AppendNewAppendsOnlyAbsent` | musicplayer.cpp:125-126 | Every entry after the old prefix was absent from the old playlist. |
| `Playlist.AppendNewKeepsInputOrder` | musicplayer.cpp:122-129 | Appended paths appear in the order in which they were chosen. |
| `Playlist.AppendNewAddsNothingIff` | musicplayer.cpp:135-139 | The list length is unchanged, which gives the "nothing added" status, exactly when every chosen file was already listed. |
| `Playlist.RemoveAt` | musicplayer.cpp:250 | The result is one shorter. Entries before `i` are kept in place and entries after it move up by one. |
| `Playlist.RemoveAtElements` | musicplayer.cpp:250 | After removing entry `i` from a duplicate-free list, the list lists exactly the other paths and has no duplicates. |
| `Playlist.RemoveAtShiftsIndex` | musicplayer.cpp:250-263 | After removing row `i`, a surviving path found at `j > i` is found at `j - 1`. One found at `j < i` stays at `j`. |
| `Playlist.IsHighlighted` | musicplayer.cpp:311 | The highlight rule: row `k` is highlighted when a track is current and row `k` lists it (a predicate, with no contract of its own). |
| `Playlist.HighlightedRowIsPlayingRow` | musicplayer.cpp:299-316 | In a duplicate-free list, row `k` meets the highlight rule exactly when `k` is the current track's row. So at most one row is highlighted. |
| `PlayMode.NextIndex` | musicplayer.cpp:204-228 | The corrected advance rule. A chosen row is always inside the list. Outside shuffle, a row is chosen only when the current track was found. With no current track, sequential and repeat-all stop. Shuffle plays the drawn row on a non-empty list and does nothing on an empty one. Only sequential and repeat-all stop. |
| `PlayMode.NextIndexAsWritten` | musicplayer.cpp:196-228 | The advance rule as written, reading `currentIndex` even when the scan assigned nothing (it has no contract). |
| `PlayMode.AsWrittenDependsOnUninitialised` | musicplayer.cpp:196-206 | With no current track, the written rule plays row 1, stops, or selects a missing row, depending on the unassigned variable. |
| `PlayMode.AsWrittenAgreesWhenFound` | musicplayer.cpp:196-228 | When the current row is found, the written rule and the corrected rule choose the same action. |
| `PlayMode.RepeatAllWraps` | musicplayer.cpp:221-228 | Repeat-all moves from row `c` to row `(c + 1) mod n`, whatever the random draw. |
| `PlayMode.SequentialPlaysTheRest` | musicplayer.cpp:205-211 | Sequential mode starting at row `c` plays rows `c+1 … n-1` once each, in order, and then stops. |
| `PlayMode.RepeatAllAfter` | musicplayer.cpp:221-228 | Repeat-all never leaves the list, however many tracks play. |
| `PlayMode.RepeatAllCycles` | musicplayer.cpp:221-228 | Repeat-all visits the rows in list order and wraps to row 0 after the last row. After `n` tracks it is back at the starting row. |
| `MusicPlayerWidget.MusicPlayer.constructor` | musicplayer.h:41-42 | The widget starts with an empty playlist, no current track, no selected row and an idle engine. |
| `MusicPlayerWidget.MusicPlayer.HighlightPlaying` | musicplayer.cpp:299-317 | After the loop, row `k` is highlighted exactly when not clearing, a track is current and row `k` lists it. |
| `MusicPlayerWidget.MusicPlayer.UpdatePlaylistWidget` | musicplayer.cpp:93-105 | After the rebuild there is one row per path, highlighted by the highlight rule. |
| `MusicPlayerWidget.MusicPlayer.AppendAbsent` | musicplayer.cpp:120-129 | The playlist becomes `AppendNew(old, files)`. The count returned is the growth in length (`addedCount`). |
| `MusicPlayerWidget.MusicPlayer.SetCurrentRow` | musicplayer.cpp:262 | Selecting a row outside the list selects nothing. |
| `MusicPlayerWidget.MusicPlayer.PlayMusic` | musicplayer.cpp:47-56 | With no selected row, nothing changes. With a stopped engine it starts the selected track. Otherwise it sends one `Play` and changes neither the list nor the current track. |
| `MusicPlayerWidget.MusicPlayer.PauseMusic` | musicplayer.cpp:58-61 | Sends one `Pause`. The list, the current track, the row and the highlight are unchanged. |
| `MusicPlayerWidget.MusicPlayer.StopMusic` | musicplayer.cpp:63-73 | Sends one `Stop`, clears the current track and leaves no row highlighted. |
| `MusicPlayerWidget.MusicPlayer.AddMusic` | musicplayer.cpp:75-91 | No files: nothing changes. Otherwise the playlist becomes `AppendNew(old, files)` and the status reports the number chosen. The current track and the engine are untouched. |
| `MusicPlayerWidget.MusicPlayer.AddMusicFromFolder` | musicplayer.cpp:107-140 | No folder: nothing changes. Otherwise the playlist becomes `AppendNew(old, listing)`. The status reports the growth in length when it is positive, and "nothing added" when it is zero. |
| `MusicPlayerWidget.MusicPlayer.PlaySelectedMusic` | musicplayer.cpp:142-174 | Empty list: no engine call, status only. No row: resumes only when a track is current, and never changes it. A selected row becomes current and is playing. `SetSource` is sent only when the current path changes. |
| `MusicPlayerWidget.MusicPlayer.PlaySelectedOnDoubleClick` | musicplayer.cpp:273-297 | A no-op with no row, or when the selected path is already the playing source. Otherwise the selected path becomes current and the slot sends `SetSource`, then `Play`. |
| `MusicPlayerWidget.MusicPlayer.ItemDoubleClicked` | musicplayer.cpp:34-38 | Running both slots connected to a double click plays the selected track. The second slot adds no engine call. |
| `MusicPlayerWidget.MusicPlayer.FindCurrent` | musicplayer.cpp:196-202 | The scan finds the current track's row exactly as `PlayingIndex` does. |
| `MusicPlayerWidget.MusicPlayer.HandlePlaybackMode` | musicplayer.cpp:194-233 | The list is unchanged and the engine has stopped at the end of the track. When `NextIndex` chooses a row, the widget selects it, makes it current and sends `SetSource` then `Play`, even when it is the track that has just ended. When it says stop, the widget sends `Stop` and clears the current track. Otherwise only the engine's own stop remains. |
| `MusicPlayerWidget.MusicPlayer.RemoveSelectedMusic` | musicplayer.cpp:235-271 | With no selected row, nothing changes except the status. Otherwise exactly the selected entry is removed. Removing the current track stops the engine and clears the track. Any other current track is unchanged and is found one row earlier when it sat after the removed entry. |
| `MusicPlayerWidget.PlayingWithNoCurrentTrack` | musicplayer.cpp:47-73 | Play, stop, pause, then play with a row selected reach a valid state: the engine plays while no track is current, so the end-of-track scan finds no row. |
| `MusicPlayerWidget.RepeatAllReplaysOnlyTrack` | musicplayer.cpp:188-233 | With one listed track in repeat-all, the end of the track loads and plays the same track again: the log ends with a second `SetSource`, `Play`. |

## Left out

- Widget construction and signal wiring (`musicplayer.cpp:10-41`) are not modelled. Each slot is a method call; `ItemDoubleClicked` stands for the two connections of the double-click signal.
- `handleMediaStatus` (`musicplayer.cpp:188-192`) is not modelled as a method; it only forwards `EndOfMedia` to `handlePlaybackMode`. The end of a track is a call to `HandlePlaybackMode`, which starts with the engine's own end-of-media step.
- The media engine's decoding and output are not modelled. The engine is an abstract record with four assumptions:
  - `SetSource` loads the new source stopped;
  - `Play` and `Pause` act only when a source is loaded;
  - `Pause` pauses a stopped source;
  - `Stop` keeps the source;
  - at the end of a track the engine has stopped by itself, keeping its source, before it reports `EndOfMedia`. The function `Engine.EndOfMedia` is this step; it is not a call the widget makes, so it is not logged.
- The file dialogs and the folder listing are not modelled; their results are method inputs. `AddMusic` takes the chosen paths, and an empty list stands for a cancelled dialog. `AddMusicFromFolder` takes the listed paths, or `None` when no folder was chosen.
- `MusicPlayerWidget.MusicPlayer.AddMusic`: requires that no chosen path is empty. The empty string stands for "no current track", and the dialogs return absolute paths. The same holds for `AddMusicFromFolder`.
- `QRandomGenerator` is not modelled. The shuffle draw is the parameter `rnd`, with `0 <= rnd < n`. On an empty list the source calls `bounded(0)`, which a debug build of Qt rejects with an assertion (`highest > 0`). The model follows a release build: the draw is 0, `setCurrentRow(0)` selects nothing in an empty list, and nothing plays, so shuffle on an empty list does nothing.
- The progress bar and seeking (`updateProgress`, `setDuration`, `seek`, and `setValue(0)` in `stopMusic`) are left out. They only forward values to widgets or the engine.
- Display names (`QFileInfo::fileName`), row colours and status texts are left out. The model keeps a highlight flag per row and a status tag per message.
- The selected row after `updatePlaylistWidget` clears and refills the list is not modelled. It depends on the list widget, so the model allows any row or none. No contract states the selection after adding or removing; the row set at `musicplayer.cpp:262` is overwritten by the rebuild.
- `MusicPlayerWidget.MusicPlayer.FindCurrent`: the source loop keeps the last matching row, while the contract states the first one. The two are equal because the invariant excludes duplicate paths.
- `MusicPlayerWidget.MusicPlayer.RemoveSelectedMusic`: the branch that clears `currentPlaying` when `indexOf` returns -1 (`musicplayer.cpp:258-259`) is proved unreachable under the invariant, so the model asserts it is never taken.
- `MusicPlayerWidget.MusicPlayer.HandlePlaybackMode`: follows the corrected rule `NextIndex`, not the source's read of an unassigned variable (see Findings).
- `musicplayer.h` only declares the fields and slots. `main.cpp` only starts the application. Neither is modelled beyond the two fields.

## Findings

| source | as written | input that shows it | evidently intended | confidence | as-written member | corrected member |
|---|---|---|---|---|---|---|
| musicplayer.cpp:196-228 | `currentIndex` is assigned only when the scan finds `currentPlaying`. Otherwise sequential and repeat-all read an uninitialised variable. | Play a track, stop, pause, then press play with a row selected. The engine plays while `currentPlaying` is empty. At the end of the track the sequential choice depends on garbage: row 1, stop, or a missing row. | With no current track, sequential and repeat-all stop. Any chosen row lies inside the list. | high (not executed) | `PlayMode.AsWrittenDependsOnUninitialised` | `PlayMode.NextIndex` |
