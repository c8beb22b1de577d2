/** The file system as the player sees it: a map from a path to the record
    the JSON text at that path decodes to. JSON encoding itself is not
    modelled; a file either decodes to one of the two records the player
    writes, or it does not (`Foreign`), in which case reading it fails the
    way `json.loads` or a missing key fails in the player.
 */
module Store {

  type Path = string

  /** The decoded content of one file. */
  datatype Doc =
    | SettingsDoc(defaultPlaylist: string, openedPlaylist: string)
    | PlaylistDoc(name: string, tracks: seq<string>, currentTrackIndex: int)
    | Foreign

  type Disk = map<Path, Doc>

  /** The exceptions the modelled code can raise. */
  datatype Error =
    | IndexError      // `del` with an index outside the list
    | CorruptRecord   // the file is not JSON, or lacks a key the reader needs
    | FileNotFound    // `open` or `os.makedirs` on a path that cannot exist

  datatype Option<+T> = None | Some(value: T)

  datatype Result<+T> = Success(value: T) | Failure(error: Error) {

    predicate IsFailure() {
      Failure?
    }

    function PropagateFailure<U>(): Result<U>
      requires Failure?
    {
      Failure(error)
    }

    function Extract(): T
      requires Success?
    {
      value
    }
  }

  /** True iff `after` differs from `before` at most at `path`, and `path`
      exists in `after`: what one overwrite of one file leaves behind. */
  ghost predicate OnlyWritten(before: Disk, after: Disk, path: Path) {
    && after.Keys == before.Keys + {path}
    && forall q :: q in before && q != path ==> after[q] == before[q]
  }

  /** Overwrites (or creates) the file at `path`, as `open(path, 'w+')`
      followed by one `write` does. */
  function Write(disk: Disk, path: Path, doc: Doc): (d: Disk)
    ensures path in d && d[path] == doc
    ensures OnlyWritten(disk, d, path)
  {
    disk[path := doc]
  }
}
