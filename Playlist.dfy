/** The playlist bookkeeping of the music player: an ordered list of file
    paths, with no path listed twice, and the rules the widget applies to it
    (append-if-absent, removal by index, first-index lookup, row highlight). */
module Playlist {

  /** A track is identified by its file path. The empty string is reserved
      for "no track is current". */
  type Path = string

  datatype Option<T> = None | Some(value: T)

  /** No path is listed twice. */
  predicate NoDuplicates(s: seq<Path>)
  {
    forall a, b :: 0 <= a < b < |s| ==> s[a] != s[b]
  }

  /** QList::indexOf: the first position of x in s, or -1 when x is absent. */
  function IndexOf(s: seq<Path>, x: Path): (r: int)
    ensures -1 <= r < |s|
    ensures r == -1 <==> x !in s
    ensures 0 <= r ==> s[r] == x && x !in s[..r]
  {
    if s == [] then -1
    else if s[0] == x then 0
    else
      var r := IndexOf(s[1..], x);
      assert r >= 0 ==> s[..r + 1] == [s[0]] + s[1..][..r];
      if r == -1 then -1 else r + 1
  }

  /** The row of the track that is current, if one is current and listed. */
  function PlayingIndex(paths: seq<Path>, current: Path): (r: Option<nat>)
    ensures r.None? <==> current == "" || current !in paths
    ensures r.Some? ==> r.value < |paths| && paths[r.value] == current && current != ""
  {
    if current == "" || current !in paths then None else Some(IndexOf(paths, current))
  }

  /** The playlist after appending, one by one and in order, each of `files`
      that is not yet listed (QList::contains followed by QList::append). */
  function AppendNew(s: seq<Path>, files: seq<Path>): (r: seq<Path>)
    ensures |s| <= |r| <= |s| + |files|
    decreases |files|
  {
    if files == [] then s
    else
      var t := AppendNew(s, files[..|files| - 1]);
      var f := files[|files| - 1];
      if f in t then t else t + [f]
  }

  /** QList::removeAt: the list without its i-th entry, the others in order. */
  function RemoveAt(s: seq<Path>, i: nat): (r: seq<Path>)
    requires i < |s|
    ensures |r| == |s| - 1
    ensures forall k :: 0 <= k < i ==> r[k] == s[k]
    ensures forall k :: i <= k < |r| ==> r[k] == s[k + 1]
  {
    s[..i] + s[i + 1..]
  }

  /** The highlight rule: row k is highlighted when a track is current and
      row k lists it. */
  predicate IsHighlighted(paths: seq<Path>, current: Path, k: nat)
    requires k < |paths|
  {
    current != "" && paths[k] == current
  }

  /** The widget's per-row highlight flags agree with the highlight rule. */
  predicate HighlightMatches(paths: seq<Path>, current: Path, highlighted: seq<bool>)
  {
    && |highlighted| == |paths|
    && forall k :: 0 <= k < |highlighted| ==> (highlighted[k] <==> IsHighlighted(paths, current, k))
  }

  // ---------------------------------------------------------------------
  // Append-if-absent

  /** The old playlist stays a prefix and nothing is dropped. */
  lemma {:induction false} AppendNewKeepsPrefix(s: seq<Path>, files: seq<Path>)
    ensures |AppendNew(s, files)| >= |s|
    ensures AppendNew(s, files)[..|s|] == s
    decreases |files|
  {
    if files != [] {
      AppendNewKeepsPrefix(s, files[..|files| - 1]);
    }
  }

  /** A path is listed afterwards exactly when it was listed before or was
      among the files added. */
  lemma {:induction false} AppendNewElements(s: seq<Path>, files: seq<Path>)
    ensures forall x :: x in AppendNew(s, files) <==> x in s || x in files
    decreases |files|
  {
    if files != [] {
      var init := files[..|files| - 1];
      AppendNewElements(s, init);
      assert files == init + [files[|files| - 1]];
    }
  }

  /** Appending only absent paths keeps the playlist free of duplicates. */
  lemma {:induction false} AppendNewNoDuplicates(s: seq<Path>, files: seq<Path>)
    requires NoDuplicates(s)
    ensures NoDuplicates(AppendNew(s, files))
    decreases |files|
  {
    if files != [] {
      AppendNewNoDuplicates(s, files[..|files| - 1]);
    }
  }

  /** Nothing is added (the length is unchanged) exactly when every chosen
      file was already listed. */
  lemma {:induction false} AppendNewAddsNothingIff(s: seq<Path>, files: seq<Path>)
    ensures |AppendNew(s, files)| == |s| <==> forall i :: 0 <= i < |files| ==> files[i] in s
  {
    AppendNewKeepsPrefix(s, files);
    AppendNewElements(s, files);
    AppendNewAppendsOnlyAbsent(s, files);
    var r := AppendNew(s, files);
    if |r| == |s| {
      assert r == s;
      forall i | 0 <= i < |files| ensures files[i] in s {
        assert files[i] in r;
      }
    } else {
      var x := r[|s|];
      assert x in r && x !in s;
      var i :| 0 <= i < |files| && files[i] == x;
      assert files[i] !in s;
    }
  }

  /** Every path appended after the old prefix was absent from it and is
      listed once. */
  lemma {:induction false} AppendNewAppendsOnlyAbsent(s: seq<Path>, files: seq<Path>)
    ensures |AppendNew(s, files)| >= |s|
    ensures forall k :: |s| <= k < |AppendNew(s, files)| ==> AppendNew(s, files)[k] !in s
    decreases |files|
  {
    AppendNewKeepsPrefix(s, files);
    if files != [] {
      var init := files[..|files| - 1];
      AppendNewAppendsOnlyAbsent(s, init);
      AppendNewKeepsPrefix(s, init);
      var t := AppendNew(s, init);
      var f := files[|files| - 1];
      if f !in t {
        assert t[..|s|] == s;
        assert f !in s;
      }
    }
  }

  /** A position holding x with no earlier x is the one indexOf finds. */
  lemma IndexOfIsFirst(s: seq<Path>, x: Path, j: nat)
    requires j < |s| && s[j] == x && x !in s[..j]
    ensures IndexOf(s, x) == j
  {
  }

  /** A found position is kept when more entries follow. */
  lemma IndexOfInPrefix(p: seq<Path>, q: seq<Path>, y: Path)
    requires y in p
    ensures IndexOf(p + q, y) == IndexOf(p, y)
  {
    var j := IndexOf(p, y);
    assert (p + q)[j] == y;
    assert (p + q)[..j] == p[..j];
    IndexOfIsFirst(p + q, y, j);
  }

  /** A path absent from the old entries is found after them. */
  lemma IndexOfAfterPrefix(p: seq<Path>, q: seq<Path>, y: Path)
    requires y !in p && y in q
    ensures IndexOf(p + q, y) == |p| + IndexOf(q, y)
  {
    var j := IndexOf(q, y);
    assert (p + q)[|p| + j] == y;
    assert (p + q)[..|p| + j] == p + q[..j];
    IndexOfIsFirst(p + q, y, |p| + j);
  }

  /** The appended paths follow the order in which they were chosen: each
      one's first position among the chosen files is later than that of the
      path appended before it. */
  lemma {:induction false} AppendNewKeepsInputOrder(s: seq<Path>, files: seq<Path>)
    ensures forall a, b :: |s| <= a < b < |AppendNew(s, files)| ==>
      IndexOf(files, AppendNew(s, files)[a]) < IndexOf(files, AppendNew(s, files)[b])
    decreases |files|
  {
    if files != [] {
      var init := files[..|files| - 1];
      var f := files[|files| - 1];
      assert files == init + [f];
      AppendNewKeepsInputOrder(s, init);
      AppendNewElements(s, init);
      AppendNewAppendsOnlyAbsent(s, init);
      var t := AppendNew(s, init);
      var r := AppendNew(s, files);
      forall k | |s| <= k < |t|
        ensures t[k] in init && IndexOf(files, t[k]) == IndexOf(init, t[k]) && IndexOf(init, t[k]) < |init|
      {
        assert t[k] in t && t[k] !in s;
        IndexOfInPrefix(init, [f], t[k]);
      }
      if f !in t {
        assert f !in init;
        IndexOfAfterPrefix(init, [f], f);
        assert IndexOf(files, f) == |init|;
        assert r == t + [f];
        forall a, b | |s| <= a < b < |r|
          ensures IndexOf(files, r[a]) < IndexOf(files, r[b])
        {
          assert r[a] == t[a];
          if b < |t| {
            assert r[b] == t[b];
          }
        }
      }
    }
  }

  // ---------------------------------------------------------------------
  // Removal by index

  /** Removing entry i keeps the list free of duplicates and lists exactly
      the other paths. */
  lemma RemoveAtElements(s: seq<Path>, i: nat)
    requires i < |s| && NoDuplicates(s)
    ensures NoDuplicates(RemoveAt(s, i))
    ensures forall x :: x in RemoveAt(s, i) <==> x in s && x != s[i]
  {
    var r := RemoveAt(s, i);
    forall x | x in s && x != s[i] ensures x in r {
      var j :| 0 <= j < |s| && s[j] == x;
      if j < i { assert r[j] == x; } else { assert r[j - 1] == x; }
    }
  }

  /** After removing entry i, a path that sat at j > i is found at j - 1 and
      one that sat at j < i is still found at j. */
  lemma RemoveAtShiftsIndex(s: seq<Path>, i: nat, x: Path)
    requires i < |s| && NoDuplicates(s) && x in s && x != s[i]
    ensures IndexOf(RemoveAt(s, i), x) == if IndexOf(s, x) > i then IndexOf(s, x) - 1 else IndexOf(s, x)
  {
    var r := RemoveAt(s, i);
    var j := IndexOf(s, x);
    var j' := if j > i then j - 1 else j;
    assert r[j'] == x;
    forall m | 0 <= m < j' ensures r[m] != x {
      var m' := if m < i then m else m + 1;
      assert r[m] == s[m'] && m' < j;
    }
    assert x !in r[..j'];
    IndexOfIsFirst(r, x, j');
  }

  // ---------------------------------------------------------------------
  // Highlight

  /** In a list without duplicates the highlighted row is exactly the row of
      the current track, so at most one row is highlighted. */
  lemma HighlightedRowIsPlayingRow(paths: seq<Path>, current: Path, k: nat)
    requires NoDuplicates(paths) && k < |paths|
    ensures IsHighlighted(paths, current, k) <==> PlayingIndex(paths, current) == Some(k)
  {
    if IsHighlighted(paths, current, k) {
      IndexOfIsFirst(paths, current, k);
    }
  }
}
