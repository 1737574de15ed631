# waypoint: path codec and configuration bookkeeping, in Dafny

`waypoint` is a small command-line tool for curating the entries of `$PATH`. It
captures the current path as a list of *waypoints* (one record per entry, with a
location, tags, a priority and an active flag), keeps them in a JSON configuration
file at `$HOME/.config/waypoint/config.json`, and renders a path string back from
the active records.

This project models the part of the program that computes rather than talks to the
operating system:

- splitting a `$PATH`-style string at `:` into its entries, empty entries kept
  (`path2waypoints` in `src/path.rs`, and its copy `path2vec` in `src/main.rs`);
- bracketing a list of entries as `[a,b,c]` (`waypoints2json`);
- `Config::save`, which overwrites the cached `path` with the `:`-join of the
  locations of the active waypoints, in stored order, and writes the document;
- `Config::freeze`, which refuses to run when the file exists and overwriting was not
  asked for, and otherwise seeds a configuration from the environment path, with
  empty metadata, and saves it;
- `get_config_path`, which appends `.config/waypoint/config.json` to `$HOME`, or to
  an error text when `HOME` is unset.

Modules: `Text` (splitting and joining strings, as Rust's `str::split` with a
one-character pattern and `join` do), `PathCodec` (`src/path.rs`), `Program`
(`src/main.rs`), `WaypointRecord` (the waypoint record used by `src/config.rs`),
`ConfigStore` (`src/config.rs`) and `Wrappers` (`Option`, `Result`).

The central facts: splitting and joining with `:` are inverse to each other
(`Text.JoinSplit`, `Text.SplitJoin`); entry `i` of a split is exactly the text between
the `i`-th and `(i+1)`-th colon (`PathCodec.EntryBetweenSeparators`); the path `save`
renders is determined by the active records alone, in order (the `ActiveLocations`
and `ExportedPath` lemmas); and a configuration seeded from a path whose records are
active renders that same path again (`ConfigStore.SeededPathRoundTrip`, carried into
`ConfigStore.Config.Freeze`).

`Config` is a class whose `path` field `Save` assigns in place; `Save` is specified
by `Recompute`, a function on the serialized `Document`, and the properties of the
recomputation are lemmas about that function. Environment and filesystem results are
inputs: whether the configuration file exists, the `overwrite` flag, the environment
path string, `HOME` as an `Option<string>`, and the error, if any, that creating the
configuration directory produced. A write to the file is modelled as a `FileWrite`
value naming the target path and the document written.

Where the round trip from records to path and back is claimed, it needs at least one
record: no records render as `""`, and `""` splits into one empty entry, not into
none (`ConfigStore.RoundTripNeedsARecord`).

## Model

| member | source | states |
|---|---|---|
| `Text.Split` | src/path.rs:9 | The pieces of a split are one more than the separators in the string, and none contains the separator. |
| `Text.Join` | src/path.rs:15 | Joining no entries gives `""`, and a non-empty join is at least as long as its first entry; its other properties are the `Join` lemmas below. |
| `Text.JoinSplit` | src/path.rs:8-12 | Joining the pieces of a split with the separator gives back exactly the original string. |
| `Text.SplitJoin` | src/path.rs:8-12 | Splitting the join of a non-empty list of separator-free entries gives back that list, so the split is the only such list that joins to the string. |
| `Text.JoinLength` | src/path.rs:15 | The join with a one-character separator is as long as all entries together plus one per gap between entries. |
| `Text.JoinSnoc` | src/config.rs:96 | Joining a list with one more entry appends the separator and that entry, or gives just the entry when the list was empty. |
| `Text.JoinSegment` | src/path.rs:15 | Each entry appears verbatim in the join at its offset, preceded by the separator unless first and followed by it unless last, where the string ends. |
| `Text.JoinPrefixCount` | src/path.rs:9-11 | With separator-free entries, exactly `i` separators precede entry `i` in the join. |
| `PathCodec.Path2Waypoints` | src/path.rs:8-12 | The entries are never empty as a list (`""` gives `[""]`), number one more than the colons, contain no colon, and join back to the path. |
| `PathCodec.EntryBetweenSeparators` | src/path.rs:9-11 | Entry `i` is the text between the `i`-th and `(i+1)`-th colon, the ends of the path standing in for missing colons. |
| `PathCodec.EntriesOfJoinedPath` | src/path.rs:8-12 | Splitting the `:`-join of a non-empty list of colon-free entries returns that list. |
| `PathCodec.Waypoints2Json` | src/path.rs:14-16 | The text starts with `[` and ends with `]`, and an empty list gives `[]`. |
| `PathCodec.JsonLength` | src/path.rs:15 | The length is 2 plus the lengths of all entries plus one comma per gap, so nothing is quoted or escaped. |
| `PathCodec.JsonEntryVerbatim` | src/path.rs:15 | Every entry appears unchanged inside the brackets at its position in the comma-join. |
| `PathCodec.JsonEntriesRecoverable` | src/path.rs:15 | For a non-empty list without commas in its entries, splitting the text between the brackets at `,` returns the list. |
| `Program.Path2Vec` | src/main.rs:8-12 | The entries are never empty as a list (`""` gives `[""]`), number one more than the colons, contain no colon, and join back to the path. |
| `Program.Path2VecIsPath2Waypoints` | src/main.rs:8-12 | The binary's splitter returns the same entries as the library's for every path. |
| `WaypointRecord.Path2Waypoints` | src/config.rs:47 | Seeding gives one record per colon-separated entry, in order, whose locations are the entries and whose other fields are the defaults. |
| `ConfigStore.HomeBase` | src/config.rs:106-109 | The directory the configuration goes below is `$HOME` when set, and text starting with `Couldn't interpret $HOME: ` when unset. |
| `ConfigStore.PathJoin` | src/config.rs:111 | Joining a relative path keeps the base as prefix and ends with the relative path; between them stands exactly `/` when the base is non-empty without a trailing `/`, and nothing otherwise. |
| `ConfigStore.ConfigPath` | src/config.rs:105-112 | The path always ends with `.config/waypoint/config.json` and starts with `$HOME`, or with `Couldn't interpret $HOME: …` when `HOME` is unset. |
| `ConfigStore.ConfigPathUnderHome` | src/config.rs:105-112 | For a non-empty home without trailing `/` the path is home, `/`, then `.config/waypoint/config.json`. |
| `ConfigStore.UnsetHomeGivesRelativePath` | src/config.rs:106-111 | With `HOME` unset the path starts with the error text and is therefore relative. |
| `ConfigStore.Recompute` | src/config.rs:84-97 | The document saved has a path that agrees with its records, and the same records and metadata as before. |
| `ConfigStore.RecomputeIdempotent` | src/config.rs:85-96 | Recomputing the path twice gives the same document as recomputing it once. |
| `ConfigStore.RecomputeKeepsCurrent` | src/config.rs:85-96 | A document whose path already agrees with its records is saved unchanged. |
| `ConfigStore.ActiveLocations` | src/config.rs:88-95 | The selection is never longer than the records, and keeps every record exactly when all of them are active; what it selects and in which order is stated by the two lemmas below. |
| `ConfigStore.ExportedPath` | src/config.rs:85-96 | Nothing active renders as `""`, and when at least one record is active and no active location holds a colon, splitting the rendered path returns the active locations in stored order. |
| `ConfigStore.ActiveLocationsAppend` | src/config.rs:85-95 | Selecting active locations from two lists stored one after the other gives the two selections one after the other. |
| `ConfigStore.ActiveLocationsMembership` | src/config.rs:88-94 | A location is selected if and only if some active record carries it. |
| `ConfigStore.ActiveLocationsAllActive` | src/config.rs:88-94 | When every record is active, all locations are selected in stored order. |
| `ConfigStore.ActiveLocationsAllInactive` | src/config.rs:88-94 | When no record is active, nothing is selected. |
| `ConfigStore.ExportedPathAllInactive` | src/config.rs:85-96 | An empty or all-inactive list of records renders as the empty path. |
| `ConfigStore.ExportedPathIgnoresInactive` | src/config.rs:88-94 | Inserting an inactive record anywhere leaves the rendered path unchanged. |
| `ConfigStore.ExportedPathAppendActive` | src/config.rs:85-96 | Storing an active record last appends `:` and its location to the rendered path, or gives just its location when nothing else was active. |
| `ConfigStore.ExportedPathRoundTrip` | src/config.rs:85-96 | For a non-empty list of active records with colon-free locations, splitting the rendered path gives the locations back. |
| `ConfigStore.RoundTripNeedsARecord` | src/config.rs:85-96 | No records render as `""`, which splits into `[""]`, not into the empty list of locations. |
| `ConfigStore.SeededPathRoundTrip` | src/config.rs:45-51 | Seeding records from a path with active defaults and rendering them reproduces the path exactly. |
| `ConfigStore.SeededInactivePath` | src/config.rs:45-51 | Seeding records with inactive defaults renders the empty path. |
| `ConfigStore.Config.constructor` | src/config.rs:45-49 | A new configuration holds exactly the given path, records and metadata. |
| `ConfigStore.Config.Save` | src/config.rs:84-102 | Save assigns only `path`, to the `:`-join of the active locations in stored order, and writes the whole new document to the configuration path. |
| `ConfigStore.Config.Freeze` | src/config.rs:18-58 | Freeze fails with the already-exists message and no write when the file exists without overwrite, fails with the directory error if that step fails, and otherwise writes a document with records seeded in order from the path, empty metadata and the recomputed path, which equals the environment path when the defaults are active and is empty when they are not. |

## Left out

- `get_path` (src/path.rs:1-6, src/main.rs:1-6), `waypoint::get_env_path` and the read of `HOME`: environment reads; their results are parameters.
- `HOME` set to text that is not valid Unicode: `HOME` is an `Option<string>`, so only the not-present error text is modelled.
- `Config::load` (src/config.rs:60-81): file reading and JSON parsing, and it panics on every failure.
- JSON serialization by serde (`to_string_pretty`, `from_str`): a written document is the `Document` value itself, and a serialization failure of `save` is not modelled.
- `ConfigStore.Config.Save`: the outcome of `fs::write` is not modelled; `Save` returns the write it requests, so a failing write is not an error path here.
- `ConfigStore.Config.Freeze`: a failing `save` (src/config.rs:51-57) is not an outcome, because the write's result is not modelled; `Success` carries the write that `save` requests.
- `config_path.parent()` returning nothing (src/config.rs:27-35): the configuration path always ends in `.config/waypoint/config.json`, so it always has a parent.
- `main` (src/main.rs:14-20), the `println!`/`eprintln!` messages and `src/cli.rs`: output and argument dispatch; the operations `cli.rs` calls (`init`, `export_path`, `list_paths`, `add_path`, `remove_path`, `edit_path`) are not defined in the files of this model.
- The waypoint module's own code (record defaults, serde derives) is not part of this model; the tags, priority and active flag of seeded records are the `Defaults` parameter.
- `PathBuf::join` is modelled for a relative suffix on Unix only; Windows separators are not.
