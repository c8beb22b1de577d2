/** A playlist: an ordered list of track paths with a name and a current
    track index, kept in one file. Every mutation is followed by a save, so
    the file always holds the in-memory state.
 */
module Playlists {

  import opened Store
  import SettingsStore
  import PosixPath

  datatype Playlist = Playlist(path: Path, name: string, tracks: seq<string>, currentTrackIndex: int)

  /** A playlist together with the disk as it stands after the playlist's
      last operation. */
  datatype Stored = Stored(playlist: Playlist, disk: Disk)

  /** The three fields `save` writes as one record. */
  function Record(p: Playlist): Doc {
    PlaylistDoc(p.name, p.tracks, p.currentTrackIndex)
  }

  /** True iff the playlist's file holds exactly its in-memory fields. */
  predicate InSync(s: Stored) {
    s.playlist.path in s.disk && s.disk[s.playlist.path] == Record(s.playlist)
  }

  /** `Playlist.load`: read the record at `path`. The path itself is kept,
      everything else comes from the file. */
  function Load(path: Path, disk: Disk): (r: Result<Playlist>)
    ensures r.Success? <==> path in disk && disk[path].PlaylistDoc?
    ensures path !in disk ==> r == Failure(FileNotFound)
    ensures path in disk && !disk[path].PlaylistDoc? ==> r == Failure(CorruptRecord)
    ensures r.Success? ==> r.value.path == path && InSync(Stored(r.value, disk))
  {
    if path !in disk then Failure(FileNotFound)
    else match disk[path]
      case PlaylistDoc(name, tracks, index) => Success(Playlist(path, name, tracks, index))
      case _ => Failure(CorruptRecord)
  }

  /** `Playlist.save`: loading from the same path afterwards restores the
      name, the tracks in order and the current index; no other file
      changes. */
  function Save(p: Playlist, disk: Disk): (d: Disk)
    ensures Load(p.path, d) == Success(p)
    ensures OnlyWritten(disk, d, p.path)
  {
    Write(disk, p.path, Record(p))
  }

  /** `after` is `before` with `items` appended: same identity and index,
      every old track at its old position, the new ones after them in
      order. */
  ghost predicate Appended(before: Playlist, after: Playlist, items: seq<string>) {
    && after.path == before.path
    && after.name == before.name
    && after.currentTrackIndex == before.currentTrackIndex
    && |after.tracks| == |before.tracks| + |items|
    && (forall i :: 0 <= i < |before.tracks| ==> after.tracks[i] == before.tracks[i])
    && (forall j :: 0 <= j < |items| ==> after.tracks[|before.tracks| + j] == items[j])
  }

  /** `Playlist.add_item`: append one track, then save. */
  function AddItem(s: Stored, item: string): (r: Stored)
    ensures Appended(s.playlist, r.playlist, [item])
    ensures InSync(r)
    ensures OnlyWritten(s.disk, r.disk, s.playlist.path)
  {
    var p := s.playlist.(tracks := s.playlist.tracks + [item]);
    Stored(p, Save(p, s.disk))
  }

  /** `Playlist.add_items`: append all tracks in input order, then save.
      No extension filter applies here. */
  function AddItems(s: Stored, items: seq<string>): (r: Stored)
    ensures Appended(s.playlist, r.playlist, items)
    ensures InSync(r)
    ensures OnlyWritten(s.disk, r.disk, s.playlist.path)
  {
    var p := s.playlist.(tracks := s.playlist.tracks + items);
    Stored(p, Save(p, s.disk))
  }

  /** Adding tracks one at a time, saving after each. */
  function AddEach(s: Stored, items: seq<string>): Stored
    decreases |items|
  {
    if items == [] then s else AddEach(AddItem(s, items[0]), items[1..])
  }

  /** Adding a list at once ends in the same playlist and the same disk as
      adding its tracks one by one, provided something was added (with no
      items, `add_items` still saves). */
  lemma {:induction false} AddItemsIsAddEach(s: Stored, items: seq<string>)
    requires items != []
    ensures AddItems(s, items) == AddEach(s, items)
    decreases |items|
  {
    var s1 := AddItem(s, items[0]);
    assert AddEach(s, items) == AddEach(s1, items[1..]);
    var p := s.playlist.(tracks := s.playlist.tracks + items);
    if |items| == 1 {
      assert s.playlist.tracks + items == s.playlist.tracks + [items[0]];
    } else {
      AddItemsIsAddEach(s1, items[1..]);
      assert s1.playlist.tracks + items[1..] == s.playlist.tracks + items;
      assert s1.playlist.(tracks := s1.playlist.tracks + items[1..]) == p;
      assert s1.disk[p.path := Record(p)] == s.disk[p.path := Record(p)];
    }
  }

  /** Python's normalisation of a list index: `-n <= i < 0` counts from
      the end, anything outside `-n <= i < n` raises `IndexError`. */
  function ListIndex(i: int, n: nat): (r: Option<nat>)
    ensures r.Some? <==> -(n as int) <= i < n
    ensures r.Some? ==> r.value < n && r.value % n == i % n
  {
    if 0 <= i < n then Some(i)
    else if -(n as int) <= i < 0 then Some(i + n)
    else None
  }

  /** `after` is `before` with the element at `k` taken out and the rest
      closed up in order. */
  ghost predicate RemovedAt(before: seq<string>, k: nat, after: seq<string>)
    requires k < |before|
  {
    && |after| == |before| - 1
    && (forall j :: 0 <= j < k ==> after[j] == before[j])
    && (forall j :: k <= j < |after| ==> after[j] == before[j + 1])
  }

  /** `Playlist.remove_item`: `del tracks[index]`, then save. An index
      outside the list raises before the save, so the caller's playlist
      and disk stay as they were. The current index is not adjusted. */
  function RemoveItem(s: Stored, index: int): (r: Result<Stored>)
    ensures r.Success? <==> -|s.playlist.tracks| <= index < |s.playlist.tracks|
    ensures r.Failure? ==> r.error == IndexError
    ensures r.Success? ==>
      var k := if index >= 0 then index else index + |s.playlist.tracks|;
      && 0 <= k < |s.playlist.tracks|
      && RemovedAt(s.playlist.tracks, k, r.value.playlist.tracks)
      && r.value.playlist.path == s.playlist.path
      && r.value.playlist.name == s.playlist.name
      && r.value.playlist.currentTrackIndex == s.playlist.currentTrackIndex
      && InSync(r.value)
      && OnlyWritten(s.disk, r.value.disk, s.playlist.path)
  {
    var ts := s.playlist.tracks;
    match ListIndex(index, |ts|)
    case None => Failure(IndexError)
    case Some(k) =>
      var p := s.playlist.(tracks := ts[..k] + ts[k + 1..]);
      Success(Stored(p, Save(p, s.disk)))
  }

  /** Removing one track leaves every other track in the list: as
      multisets, the new list plus the removed track is the old list. */
  lemma RemoveKeepsOthers(s: Stored, index: int)
    requires RemoveItem(s, index).Success?
    ensures var ts := s.playlist.tracks;
            var k := if index >= 0 then index else index + |ts|;
            multiset(RemoveItem(s, index).value.playlist.tracks) + multiset{ts[k]} == multiset(ts)
  {
    var ts := s.playlist.tracks;
    var k := if index >= 0 then index else index + |ts|;
    assert RemoveItem(s, index).value.playlist.tracks == ts[..k] + ts[k + 1..];
    CloseUpMultiset(ts, k);
  }

  /** Taking one element out of a sequence takes it out of its multiset. */
  lemma CloseUpMultiset(ts: seq<string>, k: nat)
    requires k < |ts|
    ensures multiset(ts[..k] + ts[k + 1..]) + multiset{ts[k]} == multiset(ts)
  {
    assert ts == ts[..k] + [ts[k]] + ts[k + 1..];
  }

  /** Removing the last track (by `-1`, as the player does when no row is
      selected, or by its position) undoes adding it. */
  lemma AddThenRemoveLast(s: Stored, item: string)
    ensures RemoveItem(AddItem(s, item), -1).Success?
    ensures RemoveItem(AddItem(s, item), -1).value.playlist == s.playlist
    ensures RemoveItem(AddItem(s, item), |s.playlist.tracks|) == RemoveItem(AddItem(s, item), -1)
  {
    var ts := AddItem(s, item).playlist.tracks;
    assert ts[..|s.playlist.tracks|] == s.playlist.tracks;
    assert ts[..|s.playlist.tracks|] + ts[|s.playlist.tracks| + 1..] == s.playlist.tracks;
  }

  /** `Playlist.set_current_track_index`: store the index as given (no
      clamping to the list's bounds), then save. */
  function SetCurrentTrackIndex(s: Stored, index: int): (r: Stored)
    ensures r.playlist.currentTrackIndex == index
    ensures r.playlist.path == s.playlist.path
    ensures r.playlist.name == s.playlist.name
    ensures r.playlist.tracks == s.playlist.tracks
    ensures InSync(r)
    ensures OnlyWritten(s.disk, r.disk, s.playlist.path)
  {
    var p := s.playlist.(currentTrackIndex := index);
    Stored(p, Save(p, s.disk))
  }

  /** Python truthiness of an optional string argument. */
  predicate Given(o: Option<string>) {
    o.Some? && o.value != ""
  }

  /** `BASE_PATH % name`. */
  function PathForName(name: string): Path {
    "./playlists/" + name + ".playlist"
  }

  /** The file the constructor opens: the path if one is given, else the
      file for the given name, else the default playlist's file. */
  function Target(path: Option<string>, name: Option<string>): Path {
    if Given(path) then path.value
    else if Given(name) then PathForName(name.value)
    else SettingsStore.DefaultPlaylistPath
  }

  /** The name the constructor knows before reading any file. */
  function KnownName(path: Option<string>, name: Option<string>): Option<string> {
    if Given(path) then None
    else if Given(name) then name
    else Some(SettingsStore.DefaultPlaylist)
  }

  /** Without a given path the target lies in `./playlists/`, so it has a
      directory part. */
  lemma TargetDirectory(path: Option<string>, name: Option<string>)
    ensures !Given(path) ==> |Target(path, name)| > 1 && Target(path, name)[1] == '/'
  {
  }

  /** `Playlist.new`: make the parent directory (`os.makedirs('')` raises
      when the path has no directory part), derive the name from the file
      name when none is known, and save the empty playlist. */
  function New(path: Path, name: Option<string>, disk: Disk): (r: Result<Stored>)
    ensures r.Success? <==> exists k :: 0 <= k < |path| && path[k] == '/'
    ensures r.Failure? ==> r.error == FileNotFound
    ensures r.Success? ==>
      && r.value.playlist.path == path
      && r.value.playlist.tracks == []
      && r.value.playlist.currentTrackIndex == 0
      && (Given(name) ==> r.value.playlist.name == name.value)
      && (!Given(name) ==>
            r.value.playlist.name + PosixPath.SplitExt(PosixPath.Basename(path)).1 == PosixPath.Basename(path))
      && InSync(r.value)
      && OnlyWritten(disk, r.value.disk, path)
  {
    if PosixPath.Dirname(path) == [] then Failure(FileNotFound)
    else
      var n := if Given(name) then name.value else PosixPath.SplitExt(PosixPath.Basename(path)).0;
      var p := Playlist(path, n, [], 0);
      Success(Stored(p, Save(p, disk)))
  }

  /** The constructor's branch for an existing file: load it, write
      nothing. */
  function LoadExisting(target: Path, disk: Disk): (r: Result<Stored>)
    requires target in disk
    ensures r.Success? <==> disk[target].PlaylistDoc?
    ensures r.Failure? ==> r.error == CorruptRecord
    ensures r.Success? ==> r.value.disk == disk && r.value.playlist.path == target && InSync(r.value)
  {
    var p :- Load(target, disk);
    Success(Stored(p, disk))
  }

  /** The constructor's branch for a missing file: `new` with the name
      known so far. */
  function Create(path: Option<string>, name: Option<string>, disk: Disk): (r: Result<Stored>)
    requires Target(path, name) !in disk
    ensures r.Success? ==>
      && r.value.playlist.path == Target(path, name)
      && r.value.playlist.tracks == []
      && r.value.playlist.currentTrackIndex == 0
      && InSync(r.value)
      && OnlyWritten(disk, r.value.disk, Target(path, name))
    ensures !Given(path) ==>
      && r.Success?
      && r.value.playlist.name == (if Given(name) then name.value else "default")
    ensures Given(path) && r.Success? ==>
      r.value.playlist.name == PosixPath.SplitExt(PosixPath.Basename(path.value)).0
    // a given path is created iff it has a directory part; otherwise
    // `os.makedirs('')` raises
    ensures Given(path) ==> (r.Success? <==> exists k :: 0 <= k < |path.value| && path.value[k] == '/')
    ensures r.Failure? ==> r.error == FileNotFound
  {
    TargetDirectory(path, name);
    assert Given(path) ==> Target(path, name) == path.value && KnownName(path, name) == None;
    assert !Given(path) ==> Given(KnownName(path, name));
    New(Target(path, name), KnownName(path, name), disk)
  }

  /** The `Playlist` constructor: open the target file if it exists,
      otherwise create it. */
  function Open(path: Option<string>, name: Option<string>, disk: Disk): (r: Result<Stored>)
    // where the playlist lives
    ensures r.Success? && Given(path) ==> r.value.playlist.path == path.value
    ensures r.Success? && !Given(path) && Given(name) ==>
      r.value.playlist.path == "./playlists/" + name.value + ".playlist"
    ensures r.Success? && !Given(path) && !Given(name) ==>
      r.value.playlist.path == "./playlists/default.playlist"
    ensures r.Success? ==> InSync(r.value)
    // an existing file is loaded, never overwritten
    ensures r.Success? ==> forall q :: q in disk ==> q in r.value.disk && r.value.disk[q] == disk[q]
    // and the playlist's own file is the only one that can appear
    ensures r.Success? ==> r.value.disk.Keys == disk.Keys + {r.value.playlist.path}
    ensures Target(path, name) in disk ==>
      && (r.Success? <==> disk[Target(path, name)].PlaylistDoc?)
      && (r.Success? ==> r.value.disk == disk)
    // a missing file is created empty, named after the argument or the file
    ensures Target(path, name) !in disk && r.Success? ==>
      && r.value.playlist.tracks == []
      && r.value.playlist.currentTrackIndex == 0
      && OnlyWritten(disk, r.value.disk, r.value.playlist.path)
    ensures Target(path, name) !in disk && !Given(path) ==>
      && r.Success?
      && r.value.playlist.name == (if Given(name) then name.value else "default")
    ensures Target(path, name) !in disk && Given(path) && r.Success? ==>
      r.value.playlist.name == PosixPath.SplitExt(PosixPath.Basename(path.value)).0
    ensures Target(path, name) !in disk && Given(path) ==>
      (r.Success? <==> exists k :: 0 <= k < |path.value| && path.value[k] == '/')
    // the errors: a file of another kind, or a path without a directory part
    ensures r.Failure? ==>
      r.error == (if Target(path, name) in disk then CorruptRecord else FileNotFound)
  {
    var target := Target(path, name);
    if target in disk then LoadExisting(target, disk) else Create(path, name, disk)
  }

  /** Constructing the same playlist again on the disk the first
      construction left behind loads exactly the same state and writes
      nothing: open-or-create never destroys data. */
  lemma OpenTwice(path: Option<string>, name: Option<string>, disk: Disk)
    ensures var r := Open(path, name, disk);
            r.Success? ==> Open(path, name, r.value.disk) == r
  {
  }
}
