/** src/path.rs: turning a `$PATH`-style string into its entries and bracketing a list of entries. */
module PathCodec {
  import opened Text

  /** The hard-coded path-list separator. */
  const Separator: char := ':'

  /**
   * `path2waypoints`: the entries of `path` between colons, in order, empty ones kept.
   * There is always at least one entry, one more than there are colons, no entry holds
   * a colon, and joining the entries with ":" gives `path` back.
   */
  function Path2Waypoints(path: string): (entries: seq<string>)
    ensures |entries| == Count(path, Separator) + 1
    ensures SeparatorFree(entries, Separator)
    ensures Join(entries, [Separator]) == path
    ensures path == "" ==> entries == [""]
  {
    JoinSplit(path, Separator);
    Split(path, Separator)
  }

  /**
   * Entry `i` is the text between the `i`-th and the `(i+1)`-th colon of `path`
   * (the start and the end of `path` standing in for the missing ones).
   */
  lemma EntryBetweenSeparators(path: string, i: nat)
    requires i < |Path2Waypoints(path)|
    ensures var entries, a := Path2Waypoints(path), SegmentStart(Path2Waypoints(path), i);
      var b := a + |entries[i]|;
      && b <= |path|
      && path[a..b] == entries[i]
      && Count(path[..a], Separator) == i
      && (i > 0 ==> path[a - 1] == Separator)
      && (i + 1 < |entries| ==> b < |path| && path[b] == Separator)
      && (i + 1 == |entries| ==> b == |path|)
  {
    var entries := Path2Waypoints(path);
    JoinSegment(entries, Separator, i);
    JoinPrefixCount(entries, Separator, i);
  }

  /** Splitting undoes joining a non-empty list of colon-free entries. */
  lemma EntriesOfJoinedPath(entries: seq<string>)
    requires entries != [] && SeparatorFree(entries, Separator)
    ensures Path2Waypoints(Join(entries, [Separator])) == entries
  {
    SplitJoin(entries, Separator);
  }

  /** `waypoints2json`: the entries, comma-separated, inside square brackets, unquoted. */
  function Waypoints2Json(waypoints: seq<string>): (json: string)
    ensures 2 <= |json| && json[0] == '[' && json[|json| - 1] == ']'
    ensures waypoints == [] ==> json == "[]"
  {
    "[" + Join(waypoints, ",") + "]"
  }

  /**
   * Entries are copied verbatim: the text is two brackets, every entry and one comma
   * between each pair of entries, and nothing more.
   */
  lemma JsonLength(waypoints: seq<string>)
    ensures |Waypoints2Json(waypoints)|
         == 2 + TotalLength(waypoints) + (if waypoints == [] then 0 else |waypoints| - 1)
  {
    if waypoints != [] {
      JoinLength(waypoints, ',');
    }
  }

  /** Entry `i` appears unchanged in the bracketed text, one past its offset in the join. */
  lemma JsonEntryVerbatim(waypoints: seq<string>, i: nat)
    requires i < |waypoints|
    ensures var json, a := Waypoints2Json(waypoints), 1 + SegmentStart(waypoints, i);
      a + |waypoints[i]| < |json| && json[a .. a + |waypoints[i]|] == waypoints[i]
  {
    var inner := Join(waypoints, [',']);
    var a, b := SegmentStart(waypoints, i), SegmentStart(waypoints, i) + |waypoints[i]|;
    JoinSegment(waypoints, ',', i);
    assert inner[a..b] == waypoints[i];
    assert (inner + "]")[a..b] == inner[a..b];
    SliceOfAppend("[", inner + "]", a, b);
    assert Waypoints2Json(waypoints) == "[" + (inner + "]");
  }

  /** With no comma in any entry, splitting the text between the brackets recovers the list. */
  lemma JsonEntriesRecoverable(waypoints: seq<string>)
    requires waypoints != [] && SeparatorFree(waypoints, ',')
    ensures var json := Waypoints2Json(waypoints); Split(json[1..|json| - 1], ',') == waypoints
  {
    var json := Waypoints2Json(waypoints);
    assert json[1..|json| - 1] == Join(waypoints, [',']);
    SplitJoin(waypoints, ',');
  }
}
