/** src/config.rs: the persisted configuration, its location, `save` and `freeze`. */
module ConfigStore {
  import opened Wrappers
  import opened Text
  import PathCodec
  import opened WaypointRecord

  /** Location of the document relative to the home directory. */
  const ConfigFile: string := ".config/waypoint/config.json"

  /** How Rust displays the error of reading an environment variable that is not set. */
  const NotPresent: string := "environment variable not found"

  /** What stands in for the home directory: `$HOME`, or the error text when it is unset. */
  function HomeBase(home: Option<string>): (base: string)
    ensures home.Some? ==> base == home.value
    ensures home.None? ==> "Couldn't interpret $HOME: " <= base
  {
    match home
    case Some(h) => h
    case None => "Couldn't interpret $HOME: " + NotPresent
  }

  /**
   * `PathBuf::join` with a relative path on a Unix system: a `/` goes between the two
   * unless `base` is empty or already ends with one.
   */
  function PathJoin(base: string, rel: string): (p: string)
    ensures base <= p
    ensures |p| >= |rel| && p[|p| - |rel|..] == rel
    ensures |p| == |base| + |rel| + (if base == [] || base[|base| - 1] == '/' then 0 else 1)
    ensures p[|base| .. |p| - |rel|] == (if base == [] || base[|base| - 1] == '/' then "" else "/")
  {
    if base == [] || base[|base| - 1] == '/' then base + rel else base + "/" + rel
  }

  /**
   * `get_config_path`: the configuration file below `$HOME`, or, when `HOME` is unset,
   * below a directory named after the error.
   */
  function ConfigPath(home: Option<string>): (p: string)
    ensures HomeBase(home) <= p
    ensures |p| >= |ConfigFile| && p[|p| - |ConfigFile|..] == ConfigFile
  {
    PathJoin(HomeBase(home), ConfigFile)
  }

  /** An ordinary home directory gets exactly `/.config/waypoint/config.json` appended. */
  lemma ConfigPathUnderHome(h: string)
    requires h != [] && h[|h| - 1] != '/'
    ensures ConfigPath(Some(h)) == h + "/" + ConfigFile
  {
  }

  /** With `HOME` unset the path is relative, so it names a file below the working directory. */
  lemma UnsetHomeGivesRelativePath()
    ensures ConfigPath(None)[0] != '/'
    ensures "Couldn't interpret $HOME: " <= ConfigPath(None)
  {
    assert ConfigPath(None)[0] == HomeBase(None)[0];
  }

  /** The document as serialized: one field per member of the `Config` struct. */
  datatype Document = Document(path: string, waypoints: seq<Waypoint>, metadata: map<string, string>)

  /** A request that `fs::write` replace the file at `target` with `contents`. */
  datatype FileWrite = FileWrite(target: string, contents: Document)

  datatype FreezeError =
    | AlreadyExists(message: string)  // the file exists and overwriting was not asked for
    | CreateDirFailed(reason: string)  // `fs::create_dir_all` failed with this error

  /**
   * The `location`s of the active records, in stored order (the `filter_map` in `save`):
   * every record is kept exactly when all are active. What is selected, and in which
   * order, is characterised by ActiveLocationsAppend (with the one-record case of the
   * definition) and ActiveLocationsMembership.
   */
  function ActiveLocations(ws: seq<Waypoint>): (locs: seq<string>)
    ensures |locs| <= |ws|
    ensures |locs| == |ws| <==> forall j :: 0 <= j < |ws| ==> ws[j].active
  {
    if ws == [] then []
    else
      assert forall j :: 0 < j < |ws| ==> ws[j] == ws[1..][j - 1];
      (if ws[0].active then [ws[0].location] else []) + ActiveLocations(ws[1..])
  }

  /**
   * The path string `save` renders: the active locations joined with ":". Nothing
   * active renders as "", and when at least one record is active and no active
   * location holds a colon, splitting the path gives back the active locations.
   */
  function ExportedPath(ws: seq<Waypoint>): (p: string)
    ensures ActiveLocations(ws) == [] ==> p == ""
    ensures ActiveLocations(ws) != [] && SeparatorFree(ActiveLocations(ws), PathCodec.Separator)
        ==> PathCodec.Path2Waypoints(p) == ActiveLocations(ws)
  {
    var locs := ActiveLocations(ws);
    // Both branches render the same join; the first only supplies the round-trip proof.
    if locs != [] && SeparatorFree(locs, PathCodec.Separator) then
      PathCodec.EntriesOfJoinedPath(locs);
      Join(locs, [PathCodec.Separator])
    else
      Join(locs, [PathCodec.Separator])
  }

  /** Whether the cached `path` of a document agrees with its records. */
  predicate PathIsCurrent(d: Document)
  {
    d.path == ExportedPath(d.waypoints)
  }

  /** The document `save` rewrites `d` into: the path recomputed, nothing else touched. */
  function Recompute(d: Document): (r: Document)
    ensures PathIsCurrent(r)
    ensures r.waypoints == d.waypoints && r.metadata == d.metadata
  {
    d.(path := ExportedPath(d.waypoints))
  }

  /** Saving twice writes the same document as saving once. */
  lemma RecomputeIdempotent(d: Document)
    ensures Recompute(Recompute(d)) == Recompute(d)
  {
  }

  /** A document whose path is current is left as it is by `save`. */
  lemma RecomputeKeepsCurrent(d: Document)
    requires PathIsCurrent(d)
    ensures Recompute(d) == d
  {
  }

  /** Selecting the active locations distributes over concatenation. */
  lemma {:induction false} ActiveLocationsAppend(a: seq<Waypoint>, b: seq<Waypoint>)
    ensures ActiveLocations(a + b) == ActiveLocations(a) + ActiveLocations(b)
    decreases |a|
  {
    if a == [] {
      assert a + b == b;
    } else {
      assert (a + b)[0] == a[0] && (a + b)[1..] == a[1..] + b;
      ActiveLocationsAppend(a[1..], b);
    }
  }

  /** A location is rendered exactly when some active record carries it. */
  lemma {:induction false} ActiveLocationsMembership(ws: seq<Waypoint>, loc: string)
    ensures loc in ActiveLocations(ws)
        <==> exists j :: 0 <= j < |ws| && ws[j].active && ws[j].location == loc
    decreases |ws|
  {
    if ws != [] {
      ActiveLocationsMembership(ws[1..], loc);
      if exists j :: 0 <= j < |ws[1..]| && ws[1..][j].active && ws[1..][j].location == loc {
        var j :| 0 <= j < |ws[1..]| && ws[1..][j].active && ws[1..][j].location == loc;
        assert ws[j + 1] == ws[1..][j];
      }
      if exists j :: 0 <= j < |ws| && ws[j].active && ws[j].location == loc {
        var j :| 0 <= j < |ws| && ws[j].active && ws[j].location == loc;
        if j > 0 {
          assert ws[1..][j - 1] == ws[j];
        }
      }
    }
  }

  /** With every record active, every location is rendered, in order. */
  lemma {:induction false} ActiveLocationsAllActive(ws: seq<Waypoint>)
    requires forall j :: 0 <= j < |ws| ==> ws[j].active
    ensures ActiveLocations(ws) == Locations(ws)
    decreases |ws|
  {
    if ws != [] {
      ActiveLocationsAllActive(ws[1..]);
      assert Locations(ws) == [ws[0].location] + Locations(ws[1..]);
    }
  }

  /** With no record active, nothing is rendered. */
  lemma {:induction false} ActiveLocationsAllInactive(ws: seq<Waypoint>)
    requires forall j :: 0 <= j < |ws| ==> !ws[j].active
    ensures ActiveLocations(ws) == []
    decreases |ws|
  {
    if ws != [] {
      ActiveLocationsAllInactive(ws[1..]);
    }
  }

  /** An empty or all-inactive list of records renders as the empty path. */
  lemma ExportedPathAllInactive(ws: seq<Waypoint>)
    requires forall j :: 0 <= j < |ws| ==> !ws[j].active
    ensures ExportedPath(ws) == ""
  {
    ActiveLocationsAllInactive(ws);
  }

  /** An inactive record contributes nothing, wherever it is stored. */
  lemma ExportedPathIgnoresInactive(a: seq<Waypoint>, w: Waypoint, b: seq<Waypoint>)
    requires !w.active
    ensures ExportedPath(a + [w] + b) == ExportedPath(a + b)
  {
    ActiveLocationsAppend(a + [w], b);
    ActiveLocationsAppend(a, [w]);
    ActiveLocationsAppend(a, b);
    assert [w][1..] == [];
    assert ActiveLocations([w]) == [];
    assert ActiveLocations(a + [w] + b) == ActiveLocations(a) + ActiveLocations(b);
  }

  /** An active record stored last adds its location at the end, after a colon if needed. */
  lemma ExportedPathAppendActive(ws: seq<Waypoint>, w: Waypoint)
    requires w.active
    ensures ExportedPath(ws + [w])
         == if ActiveLocations(ws) == [] then w.location else ExportedPath(ws) + ":" + w.location
  {
    ActiveLocationsAppend(ws, [w]);
    assert ActiveLocations([w]) == [w.location];
    JoinSnoc(ActiveLocations(ws), w.location, ":");
  }

  /**
   * Saving then splitting: when every record is active and no location holds a colon,
   * the entries of the rendered path are the stored locations.
   */
  lemma ExportedPathRoundTrip(ws: seq<Waypoint>)
    requires ws != []
    requires forall j :: 0 <= j < |ws| ==> ws[j].active && PathCodec.Separator !in ws[j].location
    ensures PathCodec.Path2Waypoints(ExportedPath(ws)) == Locations(ws)
  {
    ActiveLocationsAllActive(ws);
    PathCodec.EntriesOfJoinedPath(Locations(ws));
  }

  /** Why the round trip needs a record: no records render as "", which splits into [""]. */
  lemma RoundTripNeedsARecord()
    ensures PathCodec.Path2Waypoints(ExportedPath([])) == [""] != Locations([])
  {
  }

  /** Seeding from a path with active defaults and saving reproduces that path exactly. */
  lemma SeededPathRoundTrip(envPath: string, d: Defaults)
    requires d.active
    ensures ExportedPath(WaypointRecord.Path2Waypoints(envPath, d)) == envPath
  {
    var ws := WaypointRecord.Path2Waypoints(envPath, d);
    ActiveLocationsAllActive(ws);
  }

  /** Seeding with inactive defaults and saving renders the empty path. */
  lemma SeededInactivePath(envPath: string, d: Defaults)
    requires !d.active
    ensures ExportedPath(WaypointRecord.Path2Waypoints(envPath, d)) == ""
  {
    ExportedPathAllInactive(WaypointRecord.Path2Waypoints(envPath, d));
  }

  /** The in-memory configuration `freeze` builds and `save` updates in place. */
  class Config {
    var path: string
    var waypoints: seq<Waypoint>
    var metadata: map<string, string>

    constructor (path: string, waypoints: seq<Waypoint>, metadata: map<string, string>)
      ensures Snapshot() == Document(path, waypoints, metadata)
    {
      this.path := path;
      this.waypoints := waypoints;
      this.metadata := metadata;
    }

    function Snapshot(): Document
      reads this
    {
      Document(path, waypoints, metadata)
    }

    /**
     * `save`: overwrites `path` with the colon-join of the active locations and asks for
     * the whole document to be written to the configuration file.
     */
    method Save(home: Option<string>) returns (written: FileWrite)
      modifies this
      ensures Snapshot() == Recompute(old(Snapshot()))
      ensures written == FileWrite(ConfigPath(home), Snapshot())
    {
      path := ExportedPath(waypoints);
      written := FileWrite(ConfigPath(home), Snapshot());
    }

    /**
     * `freeze`: unless the file exists and `overwrite` is false, seeds a configuration
     * from `envPath` with empty metadata and saves it. `configExists` is what
     * `exists()` reported for the configuration path and `dirError` the error, if any,
     * of creating its parent directory.
     */
    static method Freeze(overwrite: bool, configExists: bool, envPath: string, home: Option<string>,
                         defaults: Defaults, dirError: Option<string>)
      returns (r: Result<FileWrite, FreezeError>)
      ensures configExists && !overwrite
          ==> r == Failure(AlreadyExists("Config file already exists at " + ConfigPath(home) + "!"))
      ensures !(configExists && !overwrite) && dirError.Some?
          ==> r == Failure(CreateDirFailed(dirError.value))
      ensures !(configExists && !overwrite) && dirError.None?
          ==> var ws := WaypointRecord.Path2Waypoints(envPath, defaults);
              r == Success(FileWrite(ConfigPath(home), Document(ExportedPath(ws), ws, map[])))
      ensures r.Success? && defaults.active ==> r.value.contents.path == envPath
      ensures r.Success? && !defaults.active ==> r.value.contents.path == ""
    {
      if configExists && !overwrite {
        return Failure(AlreadyExists("Config file already exists at " + ConfigPath(home) + "!"));
      }
      var pathString := envPath;
      if dirError.Some? {
        return Failure(CreateDirFailed(dirError.value));
      }
      var seeded := WaypointRecord.Path2Waypoints(pathString, defaults);
      var config := new Config(pathString, seeded, map[]);
      var written := config.Save(home);
      if defaults.active {
        SeededPathRoundTrip(envPath, defaults);
      } else {
        SeededInactivePath(envPath, defaults);
      }
      return Success(written);
    }
  }
}
