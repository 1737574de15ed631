/**
 * The waypoint record. Only `location` and `active` are read by the configuration
 * code; the record defaults the waypoint module gives fresh entries are not known
 * here and are passed in as `Defaults`.
 */
module WaypointRecord {
  import PathCodec

  datatype Waypoint = Waypoint(location: string, tags: seq<string>, priority: nat, active: bool)

  /** Tags, priority and active flag that a record seeded from a path entry receives. */
  datatype Defaults = Defaults(tags: seq<string>, priority: nat, active: bool)

  function FromLocation(location: string, d: Defaults): Waypoint
  {
    Waypoint(location, d.tags, d.priority, d.active)
  }

  /** The `location` of every record, in stored order. */
  function Locations(ws: seq<Waypoint>): (locs: seq<string>)
  {
    seq(|ws|, i requires 0 <= i < |ws| => ws[i].location)
  }

  /**
   * `waypoint::path2waypoints`: one record per colon-separated entry of `path`, in
   * order, each carrying the defaults.
   */
  function Path2Waypoints(path: string, d: Defaults): (ws: seq<Waypoint>)
    ensures Locations(ws) == PathCodec.Path2Waypoints(path)
    ensures forall i :: 0 <= i < |ws| ==>
      ws[i].tags == d.tags && ws[i].priority == d.priority && ws[i].active == d.active
  {
    var entries := PathCodec.Path2Waypoints(path);
    seq(|entries|, i requires 0 <= i < |entries| => FromLocation(entries[i], d))
  }
}
