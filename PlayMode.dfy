/** The end-of-track rule: which row the player moves to when a track has
    played to its end, by the mode chosen in the mode box
    (0 sequential, 1 shuffle, 2 repeat-all). */
module PlayMode {
  import opened Playlist

  const Sequential := 0
  const Shuffle := 1
  const RepeatAll := 2

  /** What the player does next: select and play a row, stop, or neither
      (a mode outside the three known ones). */
  datatype Advance = PlayRow(row: int) | StopPlayback | NoAdvance

  /** The advance rule. `cur` is the row of the track that has just ended,
      or None when no listed track is current; `len` is the playlist length;
      `rnd` is the random row drawn for shuffle. With no current row,
      sequential and repeat-all stop; shuffle on an empty list does nothing. */
  function NextIndex(mode: int, cur: Option<nat>, len: nat, rnd: int): (a: Advance)
    requires cur.Some? ==> cur.value < len
    requires len > 0 ==> 0 <= rnd < len
    ensures a.PlayRow? ==> 0 <= a.row < len
    ensures a.PlayRow? && mode != Shuffle ==> cur.Some?
    ensures a.StopPlayback? ==> mode == Sequential || mode == RepeatAll
    ensures cur.None? && (mode == Sequential || mode == RepeatAll) ==> a == StopPlayback
    ensures mode == Shuffle && len > 0 ==> a == PlayRow(rnd)
    ensures mode == Shuffle && len == 0 ==> a == NoAdvance
  {
    if mode == Sequential then
      match cur
      case None => StopPlayback
      case Some(c) => if c < len - 1 then PlayRow(c + 1) else StopPlayback
    else if mode == Shuffle then
      if len == 0 then NoAdvance else PlayRow(rnd)
    else if mode == RepeatAll then
      match cur
      case None => StopPlayback
      case Some(c) => if c < len - 1 then PlayRow(c + 1) else PlayRow(0)
    else
      NoAdvance
  }

  /** The rule as musicplayer.cpp writes it: the scan for the current row
      leaves `currentIndex` unassigned when nothing matches, so the result
      then depends on whatever value `uninit` the variable happens to hold.
      The row may fall outside the list; the list widget then selects
      nothing. */
  function NextIndexAsWritten(mode: int, cur: Option<nat>, len: nat, rnd: int, uninit: int): (a: Advance)
  {
    var currentIndex := if cur.Some? then cur.value else uninit;
    if mode == Sequential then
      if currentIndex < len - 1 then PlayRow(currentIndex + 1) else StopPlayback
    else if mode == Shuffle then
      PlayRow(rnd)
    else if mode == RepeatAll then
      if currentIndex < len - 1 then PlayRow(currentIndex + 1) else PlayRow(0)
    else
      NoAdvance
  }

  /** With no current track, the written rule's choice depends on the
      unassigned variable: in a three-track list in sequential mode it plays
      row 1, stops, or selects a row that does not exist. */
  lemma AsWrittenDependsOnUninitialised()
    ensures NextIndexAsWritten(Sequential, None, 3, 0, 0) == PlayRow(1)
    ensures NextIndexAsWritten(Sequential, None, 3, 0, 2) == StopPlayback
    ensures NextIndexAsWritten(Sequential, None, 3, 0, -7) == PlayRow(-6)
  {
  }

  /** Whenever the current track is found, the written rule and the
      corrected one agree, whatever the unassigned variable holds. */
  lemma AsWrittenAgreesWhenFound(mode: int, c: nat, len: nat, rnd: int, uninit: int)
    requires c < len && 0 <= rnd < len
    ensures NextIndexAsWritten(mode, Some(c), len, rnd, uninit) == NextIndex(mode, Some(c), len, rnd)
  {
  }

  /** Repeat-all moves to the next row modulo the list length, whatever
      the random draw. */
  lemma RepeatAllWraps(c: nat, len: nat, rnd: int)
    requires c < len && 0 <= rnd < len
    ensures NextIndex(RepeatAll, Some(c), len, rnd) == PlayRow((c + 1) % len)
  {
    if c < len - 1 {
      assert (c + 1) % len == c + 1;
    } else {
      assert (c + 1) % len == 0;
    }
  }

  /** The rows sequential mode plays, one track after another, starting
      after row c, until it stops. */
  function SequentialRun(c: nat, len: nat): (rows: seq<int>)
    requires c < len
    decreases len - c
  {
    var a := NextIndex(Sequential, Some(c), len, 0);
    if a.PlayRow? then [a.row] + SequentialRun(a.row, len) else []
  }

  /** Sequential mode plays every later row once, in list order, and then
      stops. */
  lemma {:induction false} SequentialPlaysTheRest(c: nat, len: nat)
    requires c < len
    ensures |SequentialRun(c, len)| == len - 1 - c
    ensures forall k :: 0 <= k < |SequentialRun(c, len)| ==> SequentialRun(c, len)[k] == c + 1 + k
    decreases len - c
  {
    if c < len - 1 {
      SequentialPlaysTheRest(c + 1, len);
    }
  }

  /** The row repeat-all reaches after `steps` tracks, starting at row c. */
  function RepeatAllAfter(c: nat, len: nat, steps: nat): (r: nat)
    requires c < len
    ensures r < len
    decreases steps
  {
    if steps == 0 then c
    else
      var a := NextIndex(RepeatAll, Some(c), len, 0);
      RepeatAllAfter(a.row, len, steps - 1)
  }

  /** Repeat-all visits every row in list order, wrapping to row 0 after the
      last one, and is back at its starting row after `len` tracks. */
  lemma {:induction false} RepeatAllCycles(c: nat, len: nat, steps: nat)
    requires c < len && steps <= len
    ensures RepeatAllAfter(c, len, steps) == if c + steps < len then c + steps else c + steps - len
    decreases steps
  {
    if steps > 0 {
      var next := if c < len - 1 then c + 1 else 0;
      RepeatAllCycles(next, len, steps - 1);
    }
  }
}
