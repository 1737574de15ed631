/** src/main.rs: the binary's own copy of the path splitter. */
module Program {
  import opened Text
  import PathCodec

  /**
   * `path2vec`: the entries of `path` between colons, in order, empty ones kept;
   * one more entry than there are colons, none holding a colon, joining back to `path`.
   */
  function Path2Vec(path: string): (entries: seq<string>)
    ensures |entries| == Count(path, ':') + 1
    ensures SeparatorFree(entries, ':')
    ensures Join(entries, ":") == path
    ensures path == "" ==> entries == [""]
  {
    JoinSplit(path, ':');
    Split(path, ':')
  }

  /** The binary's splitter and the library's are the same computation. */
  lemma Path2VecIsPath2Waypoints(path: string)
    ensures Path2Vec(path) == PathCodec.Path2Waypoints(path)
  {
  }
}
