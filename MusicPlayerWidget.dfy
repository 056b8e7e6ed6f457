/** The MusicPlayer widget: its playlist (`musicPaths`), the path of the
    current track (`currentPlaying`, empty when none), the list widget's
    selected row and per-row highlight, the media engine it drives and its
    status line. Each slot is a method that updates this state in place. */
module MusicPlayerWidget {
  import opened Playlist
  import opened Engine
  import opened PlayMode

  /** The status line, as a tag per message the widget shows. */
  datatype Status =
    | Blank
    | StatePlaying
    | StatePaused
    | StateStopped
    | AddedTracks(count: int)
    | NothingAdded
    | PlaylistEmpty
    | Resumed(path: Path)
    | NothingSelected
    | NowPlaying(path: Path)
    | NothingToRemove
    | TrackRemoved

  class MusicPlayer {
    var paths: seq<Path>         // musicPaths
    var current: Path            // currentPlaying; "" when no track is current
    var row: int                 // the list widget's selected row; -1 when none
    var highlighted: seq<bool>   // which list rows are drawn highlighted
    var player: Player           // the media engine's source and state
    var log: seq<Command>        // every engine call made so far
    var status: Status           // the status line

    /** The widget's invariant: the list shows one row per path, the
        playlist has no duplicates and no empty path, the current track is
        listed and loaded in the engine, and exactly its row is highlighted. */
    ghost predicate Valid()
      reads this
    {
      && -1 <= row < |paths|
      && NoDuplicates(paths)
      && "" !in paths
      && (current == "" || current in paths)
      && (current != "" ==> player.source == current)
      && HighlightMatches(paths, current, highlighted)
    }

    constructor ()
      ensures Valid()
      ensures paths == [] && current == "" && row == -1 && highlighted == []
      ensures player == Idle && log == [] && status == Blank
    {
      paths, current, row, highlighted := [], "", -1, [];
      player, log, status := Idle, [], Blank;
    }

    // -------------------------------------------------------------------
    // Helpers: engine calls and list-widget operations

    /** One call into the media engine. */
    method Send(c: Command)
      modifies this`player, this`log
      ensures player == Apply(old(player), c) && log == old(log) + [c]
    {
      player := Apply(player, c);
      log := log + [c];
    }

    /** QListWidget::setCurrentRow: a row outside the list selects nothing. */
    method SetCurrentRow(r: int)
      modifies this`row
      ensures row == if 0 <= r < |paths| then r else -1
    {
      row := if 0 <= r < |paths| then r else -1;
    }

    /** The user selects a row of the list (or clears the selection). */
    method SelectRow(r: int)
      requires Valid() && -1 <= r < |paths|
      modifies this`row
      ensures Valid() && row == r
    {
      row := r;
    }

    /** highlightPlayingMusic: resets every row and, unless clearing, marks
        the row whose path is the current track. */
    method HighlightPlaying(clearAll: bool)
      requires |highlighted| == |paths|
      modifies this`highlighted
      ensures |highlighted| == |paths|
      ensures forall k :: 0 <= k < |paths| ==>
        (highlighted[k] <==> !clearAll && IsHighlighted(paths, current, k))
    {
      for i := 0 to |paths|
        invariant |highlighted| == |paths|
        invariant forall k :: 0 <= k < i ==>
          (highlighted[k] <==> !clearAll && IsHighlighted(paths, current, k))
      {
        highlighted := highlighted[i := false];
        if !clearAll && current != "" && paths[i] == current {
          highlighted := highlighted[i := true];
        }
      }
    }

    /** updatePlaylistWidget: rebuilds the list, one row per path, and
        restores the highlight. Which row is selected once the list has been
        cleared and refilled is the list widget's business; the model lets
        it be any row or none. */
    method UpdatePlaylistWidget()
      modifies this`highlighted, this`row
      ensures HighlightMatches(paths, current, highlighted)
      ensures -1 <= row < |paths|
    {
      highlighted := seq(|paths|, _ => false);
      var r :| -1 <= r < |paths|;
      row := r;
      HighlightPlaying(false);
    }

    /** The loop shared by addMusic and addMusicFromFolder: append each file
        not yet listed, counting the ones appended. */
    method AppendAbsent(files: seq<Path>) returns (added: nat)
      modifies this`paths
      ensures paths == AppendNew(old(paths), files)
      ensures added == |paths| - |old(paths)|
    {
      added := 0;
      for i := 0 to |files|
        invariant paths == AppendNew(old(paths), files[..i])
        invariant added == |paths| - |old(paths)|
      {
        assert files[..i + 1][..i] == files[..i];
        if files[i] !in paths {
          paths := paths + [files[i]];
          added := added + 1;
        }
      }
      assert files[..|files|] == files;
    }

    // -------------------------------------------------------------------
    // Slots

    /** playMusic: with a row selected, starts the selected track when the
        engine is stopped, or resumes the engine otherwise. */
    method PlayMusic()
      requires Valid()
      modifies this
      ensures Valid()
      ensures paths == old(paths) && row == old(row)
      ensures old(row) < 0 ==>
        current == old(current) && player == old(player) && log == old(log) && status == old(status)
      ensures old(row) >= 0 ==> status == StatePlaying
      ensures old(row) >= 0 && old(player.state) == Stopped ==>
        && current == paths[row]
        && player == Player(current, Playing)
        && log == old(log) + (if old(current) != current then [SetSource(current)] else []) + [Play]
      ensures old(row) >= 0 && old(player.state) != Stopped ==>
        current == old(current) && player == Apply(old(player), Play) && log == old(log) + [Play]
    {
      if row >= 0 {
        if player.state == Stopped {
          PlaySelectedMusic();
        } else {
          Send(Play);
        }
        status := StatePlaying;
      }
    }

    /** pauseMusic: pauses the engine; the playlist and the current track
        are untouched. */
    method PauseMusic()
      requires Valid()
      modifies this
      ensures Valid()
      ensures paths == old(paths) && current == old(current) && row == old(row)
      ensures highlighted == old(highlighted)
      ensures player == Apply(old(player), Pause) && log == old(log) + [Pause]
      ensures status == StatePaused
    {
      Send(Pause);
      status := StatePaused;
    }

    /** stopMusic: stops the engine, clears the current track and leaves no
        row highlighted. */
    method StopMusic()
      requires Valid()
      modifies this
      ensures Valid()
      ensures paths == old(paths) && row == old(row)
      ensures current == ""
      ensures forall k :: 0 <= k < |highlighted| ==> !highlighted[k]
      ensures player == Apply(old(player), Stop) && log == old(log) + [Stop]
      ensures status == StateStopped
    {
      Send(Stop);
      status := StateStopped;
      current := "";
      HighlightPlaying(true);
    }

    /** addMusic: `files` are the paths chosen in the file dialog (none when
        it was cancelled). Each one not yet listed is appended, in order; the
        status reports how many were chosen, not how many were appended. */
    method AddMusic(files: seq<Path>)
      requires Valid()
      requires "" !in files
      modifies this
      ensures Valid()
      ensures current == old(current) && player == old(player) && log == old(log)
      ensures files == [] ==> paths == old(paths) && row == old(row) && status == old(status)
      ensures files != [] ==> paths == AppendNew(old(paths), files) && status == AddedTracks(|files|)
    {
      if files == [] {
        return;
      }
      AppendNewNoDuplicates(paths, files);
      AppendNewElements(paths, files);
      var _ := AppendAbsent(files);
      UpdatePlaylistWidget();
      status := AddedTracks(|files|);
    }

    /** addMusicFromFolder: `listing` is the audio files of the chosen
        folder, or None when no folder was chosen. Each file not yet listed
        is appended, in order; the status reports the number appended, or
        that nothing was added. */
    method AddMusicFromFolder(listing: Option<seq<Path>>)
      requires Valid()
      requires listing.Some? ==> "" !in listing.value
      modifies this
      ensures Valid()
      ensures current == old(current) && player == old(player) && log == old(log)
      ensures listing.None? ==> paths == old(paths) && row == old(row) && status == old(status)
      ensures listing.Some? ==>
        && paths == AppendNew(old(paths), listing.value)
        && status == if |paths| > |old(paths)| then AddedTracks(|paths| - |old(paths)|) else NothingAdded
    {
      if listing.None? {
        return;
      }
      AppendNewNoDuplicates(paths, listing.value);
      AppendNewElements(paths, listing.value);
      var addedCount := AppendAbsent(listing.value);
      UpdatePlaylistWidget();
      if addedCount > 0 {
        status := AddedTracks(addedCount);
      } else {
        status := NothingAdded;
      }
    }

    /** playSelectedMusic: on an empty list only reports it. With no row
        selected, resumes the current track if there is one. Otherwise makes
        the selected track current, loading it only when it differs from the
        current one, and plays it. */
    method PlaySelectedMusic()
      requires Valid()
      modifies this
      ensures Valid()
      ensures paths == old(paths) && row == old(row)
      ensures |paths| == 0 ==>
        current == old(current) && player == old(player) && log == old(log) && status == PlaylistEmpty
      ensures |paths| > 0 && row < 0 && old(current) != "" ==>
        && current == old(current) && player == Player(current, Playing)
        && log == old(log) + [Play] && status == Resumed(current)
      ensures |paths| > 0 && row < 0 && old(current) == "" ==>
        current == "" && player == old(player) && log == old(log) && status == NothingSelected
      ensures row >= 0 ==>
        && current == paths[row]
        && player == Player(current, Playing)
        && log == old(log) + (if old(current) != current then [SetSource(current)] else []) + [Play]
        && status == NowPlaying(current)
    {
      if |paths| == 0 {
        status := PlaylistEmpty;
        return;
      }
      var currentIndex := row;
      if currentIndex < 0 {
        if current != "" {
          Send(Play);
          status := Resumed(current);
        } else {
          status := NothingSelected;
        }
        return;
      }
      var selected := paths[currentIndex];
      if current != selected {
        current := selected;
        Send(SetSource(selected));
      }
      Send(Play);
      status := NowPlaying(selected);
      HighlightPlaying(false);
    }

    /** playSelectedOnDoubleClick: loads and plays the selected track, unless
        it is already the engine's source and playing. */
    method PlaySelectedOnDoubleClick()
      requires Valid()
      modifies this
      ensures Valid()
      ensures paths == old(paths) && row == old(row)
      ensures old(row) < 0 || old(player) == Player(old(paths[row]), Playing) ==>
        current == old(current) && player == old(player) && log == old(log) && status == old(status)
      ensures old(row) >= 0 && old(player) != Player(old(paths[row]), Playing) ==>
        && current == paths[row]
        && player == Player(current, Playing)
        && log == old(log) + [SetSource(current), Play]
        && status == NowPlaying(current)
    {
      var currentIndex := row;
      if currentIndex < 0 {
        return;
      }
      var selected := paths[currentIndex];
      if player.source == selected && player.state == Playing {
        return;
      }
      current := selected;
      Send(SetSource(selected));
      Send(Play);
      HighlightPlaying(false);
      status := NowPlaying(selected);
    }

    /** A double click on a row: the list widget runs both slots connected to
        it, playSelectedMusic and then playSelectedOnDoubleClick. The second
        finds the track already playing and does nothing. */
    method ItemDoubleClicked()
      requires Valid() && row >= 0
      modifies this
      ensures Valid()
      ensures paths == old(paths) && row == old(row)
      ensures current == paths[row] && player == Player(current, Playing)
      ensures log == old(log) + (if old(current) != current then [SetSource(current)] else []) + [Play]
      ensures status == NowPlaying(current)
    {
      PlaySelectedMusic();
      PlaySelectedOnDoubleClick();
    }

    /** The loop in handlePlaybackMode that looks for the current track's
        row, keeping the last row that matches. */
    method FindCurrent() returns (found: Option<nat>)
      requires Valid()
      ensures found == PlayingIndex(paths, current)
    {
      found := None;
      for i := 0 to |paths|
        invariant found.Some? ==>
          found.value < i && current != "" && paths[found.value] == current
        invariant found.None? ==> current == "" || current !in paths[..i]
      {
        if current != "" && paths[i] == current {
          found := Some(i);
        }
      }
      assert paths[..|paths|] == paths;
      if found.Some? {
        HighlightedRowIsPlayingRow(paths, current, found.value);
      }
    }

    /** handlePlaybackMode, run when the engine reports the end of a track
        (handleMediaStatus with EndOfMedia). By then the engine has stopped
        by itself, keeping its source; that step is not a widget call and is
        not logged. The method then finds the current row and moves on by
        the mode (`rnd` is the random row drawn for shuffle). With no
        current track, sequential and repeat-all stop. A chosen row is
        always loaded afresh and played, even when it is the track that has
        just ended. */
    method HandlePlaybackMode(mode: int, rnd: int)
      requires Valid()
      requires |paths| > 0 ==> 0 <= rnd < |paths|
      modifies this
      ensures Valid()
      ensures paths == old(paths)
      ensures var a := NextIndex(mode, PlayingIndex(old(paths), old(current)), |old(paths)|, rnd);
        && (a.StopPlayback? ==>
              && row == old(row) && current == ""
              && player == Player(old(player).source, Stopped) && log == old(log) + [Stop]
              && status == StateStopped)
        && (a.NoAdvance? ==>
              && row == old(row) && current == old(current)
              && player == EndOfMedia(old(player)) && log == old(log) && status == old(status))
        && (a.PlayRow? ==>
              && row == a.row && current == paths[a.row]
              && player == Player(paths[a.row], Playing)
              && log == old(log) + [SetSource(paths[a.row]), Play]
              && status == NowPlaying(paths[a.row]))
    {
      player := EndOfMedia(player);
      var currentIndex := FindCurrent();
      var a := NextIndex(mode, currentIndex, |paths|, rnd);
      match a {
        case PlayRow(r) =>
          SetCurrentRow(r);
          PlaySelectedOnDoubleClick();
        case StopPlayback =>
          StopMusic();
        case NoAdvance =>
      }
      HighlightPlaying(false);
    }

    /** removeSelectedMusic: with no row selected only reports it. Otherwise
        removes the selected entry, stopping playback first when it is the
        current track; any other current track stays current, one row
        earlier when it sat after the removed one. */
    method RemoveSelectedMusic()
      requires Valid()
      modifies this
      ensures Valid()
      ensures old(row) < 0 ==>
        && paths == old(paths) && current == old(current) && row == old(row)
        && highlighted == old(highlighted)
        && player == old(player) && log == old(log) && status == NothingToRemove
      ensures old(row) >= 0 ==> paths == RemoveAt(old(paths), old(row)) && status == TrackRemoved
      ensures old(row) >= 0 && old(current) == old(paths[row]) ==>
        current == "" && player == Apply(old(player), Stop) && log == old(log) + [Stop]
      ensures old(row) >= 0 && old(current) != old(paths[row]) ==>
        current == old(current) && player == old(player) && log == old(log)
      ensures old(row) >= 0 && current != "" ==>
        var j := IndexOf(old(paths), current);
        IndexOf(paths, current) == if j > old(row) then j - 1 else j
    {
      var currentIndex := row;
      if currentIndex < 0 {
        status := NothingToRemove;
        return;
      }
      var selected := paths[currentIndex];
      if current == selected {
        StopMusic();
      }
      ghost var before := paths;
      RemoveAtElements(before, currentIndex);
      paths := RemoveAt(paths, currentIndex);
      if current != "" {
        RemoveAtShiftsIndex(before, currentIndex, current);
        var playingIndex := IndexOf(paths, current);
        if playingIndex == -1 {
          // The source clears currentPlaying here. The branch cannot be
          // taken: a current track other than the removed one is still
          // listed, because the playlist has no duplicates.
          assert false;
        } else {
          SetCurrentRow(playingIndex);
        }
      }
      UpdatePlaylistWidget();
      status := TrackRemoved;
    }
  }

  /** A reachable state in which the engine plays while no track is
      current: play a track, stop, pause (the engine pauses its loaded
      source), then press play with a row selected. When this track ends,
      the scan in handlePlaybackMode finds no current row. */
  method PlayingWithNoCurrentTrack() returns (w: MusicPlayer)
    ensures w.Valid()
    ensures w.player.state == Playing && w.current == ""
    ensures PlayingIndex(w.paths, w.current) == None
  {
    w := new MusicPlayer();
    w.AddMusic(["a.mp3"]);
    assert ["a.mp3"][..0] == [];
    assert w.paths == ["a.mp3"];
    w.SelectRow(0);
    w.PlaySelectedMusic();
    w.StopMusic();
    w.PauseMusic();
    w.PlayMusic();
  }

  /** Repeat-all with a single track: when the track ends, the engine has
      stopped, so the widget loads the same track again and plays it. */
  method RepeatAllReplaysOnlyTrack() returns (w: MusicPlayer)
    ensures w.Valid()
    ensures w.paths == ["a.mp3"] && w.current == "a.mp3" && w.row == 0
    ensures w.player == Player("a.mp3", Playing)
    ensures w.log == [SetSource("a.mp3"), Play, SetSource("a.mp3"), Play]
  {
    w := new MusicPlayer();
    w.AddMusic(["a.mp3"]);
    assert ["a.mp3"][..0] == [];
    assert w.paths == ["a.mp3"];
    w.SelectRow(0);
    w.PlaySelectedMusic();
    w.HandlePlaybackMode(RepeatAll, 0);
  }
}
