/** How the application ties the settings file to the open playlist: at
    start-up it opens the playlist the settings name, and whenever a
    playlist becomes the open one (`playlist_changed`) its path is written
    back to the settings.
 */
module App {

  import opened Store
  import opened SettingsStore
  import opened Playlists
  import PosixPath

  datatype Session = Session(settings: Settings, playlist: Playlist, disk: Disk)

  /** Both files hold the in-memory state, and the settings name the open
      playlist. */
  predicate Consistent(s: Session) {
    && Read(s.disk) == Success(s.settings)
    && InSync(Stored(s.playlist, s.disk))
    && s.settings.openedPlaylist == s.playlist.path
    && s.playlist.path != ""
  }

  /** `MediaPlayer.load` announcing the playlist, and `playlist_changed`
      recording its path in the settings. The playlist and its file are
      left as they are; only the settings file is written. */
  function Activate(settings: Settings, st: Stored): (r: Session)
    ensures r.playlist == st.playlist
    ensures r.settings == settings.(openedPlaylist := st.playlist.path)
    ensures Read(r.disk) == Success(r.settings)
    ensures OnlyWritten(st.disk, r.disk, SettingsPath)
  {
    var (settings', disk') := SetOpenedPlaylist(settings, st.playlist.path, st.disk);
    Session(settings', st.playlist, disk')
  }

  /** Start-up: read (or create) the settings, open the playlist they name,
      then record it as the opened one. */
  function Startup(disk: Disk): (r: Result<Session>)
    ensures r.Success? ==> Consistent(r.value)
    // start-up fails exactly when reading the settings fails or opening the
    // playlist they name fails
    ensures r.Success? <==>
      && Init(disk).Success?
      && Open(Some(Init(disk).value.0.openedPlaylist), None, Init(disk).value.1).Success?
    // the playlist opened is the one the settings name, and the default is kept
    ensures r.Success? ==>
      && r.value.playlist.path == Target(Some(Init(disk).value.0.openedPlaylist), None)
      && r.value.settings.defaultPlaylist == Init(disk).value.0.defaultPlaylist
    // in terms of the file: a settings record naming a playlist opens that one
    ensures r.Success? && SettingsPath in disk && disk[SettingsPath].SettingsDoc?
            && disk[SettingsPath].openedPlaylist != "" ==>
      && r.value.playlist.path == disk[SettingsPath].openedPlaylist
      && r.value.settings == Settings(disk[SettingsPath].defaultPlaylist, disk[SettingsPath].openedPlaylist)
    // the playlist is exactly what the constructor opened or created
    ensures r.Success? ==>
      r.value.playlist == Open(Some(Init(disk).value.0.openedPlaylist), None, Init(disk).value.1).value.playlist
    // the only files written are the settings file and the playlist's own
    ensures r.Success? ==> r.value.disk.Keys == disk.Keys + {SettingsPath, r.value.playlist.path}
    // first run: the default playlist is opened
    ensures r.Success? && SettingsPath !in disk ==> r.value.playlist.path == DefaultPlaylistPath
    // existing playlist files are never overwritten
    ensures r.Success? ==>
      forall q :: q in disk && q != SettingsPath ==> q in r.value.disk && r.value.disk[q] == disk[q]
  {
    var (settings, disk1) :- Init(disk);
    assert forall q :: q in disk && q != SettingsPath ==> q in disk1 && disk1[q] == disk[q];
    var r := Resume(settings, disk1);
    if r.Success? then
      KeysAdded(disk.Keys, disk1.Keys, r.value.disk.Keys, SettingsPath, r.value.playlist.path);
      r
    else
      r
  }

  /** Adding one file and then another adds both. */
  lemma KeysAdded(k0: set<Path>, k1: set<Path>, k2: set<Path>, a: Path, b: Path)
    requires k1 == k0 + {a} && k2 == k1 + {b}
    ensures k2 == k0 + {a, b}
  {
  }

  /** The second half of start-up, once the settings are read: open the
      playlist they name and record it. */
  function Resume(settings: Settings, disk: Disk): (r: Result<Session>)
    requires Read(disk) == Success(settings)
    ensures r.Success? <==> Open(Some(settings.openedPlaylist), None, disk).Success?
    ensures r.Success? ==>
      && Consistent(r.value)
      && r.value.playlist == Open(Some(settings.openedPlaylist), None, disk).value.playlist
      && r.value.playlist.path == Target(Some(settings.openedPlaylist), None)
      && r.value.settings == settings.(openedPlaylist := r.value.playlist.path)
      && r.value.disk.Keys == disk.Keys + {r.value.playlist.path}
      && forall q :: q in disk && q != SettingsPath ==> q in r.value.disk && r.value.disk[q] == disk[q]
  {
    var st :- Open(Some(settings.openedPlaylist), None, disk);
    assert st.playlist.path != SettingsPath;
    Success(Activate(settings, st))
  }

  /** `create_playlist(name)` (with `name` given) or `load_playlist(path)`
      (with `path` given): open or create the playlist, make it the open
      one, and record it. On an error the session is unchanged. */
  function SwitchTo(s: Session, path: Option<string>, name: Option<string>): (r: Result<Session>)
    requires Consistent(s)
    ensures r.Success? ==> Consistent(r.value)
    ensures r.Success? ==> r.value.playlist.path == Target(path, name)
    // the switch succeeds exactly when the constructor does, and shows what
    // it opened or created
    ensures r.Success? <==> Open(path, name, s.disk).Success?
    ensures r.Success? ==> r.value.playlist == Open(path, name, s.disk).value.playlist
    ensures r.Success? ==> r.value.settings.defaultPlaylist == s.settings.defaultPlaylist
    // no file appears but the playlist's own (the settings file exists already)
    ensures r.Success? ==> r.value.disk.Keys == s.disk.Keys + {r.value.playlist.path}
    ensures r.Success? ==>
      forall q :: q in s.disk && q != SettingsPath ==> q in r.value.disk && r.value.disk[q] == s.disk[q]
  {
    var st :- Open(path, name, s.disk);
    assert st.playlist.path != SettingsPath;
    Success(Activate(s.settings, st))
  }

  /** Restarting the player on the disk a consistent session left behind
      restores exactly that session: the same settings, the same playlist
      (name, tracks in order, current index) and an unchanged disk. */
  lemma RestartRestores(s: Session)
    requires Consistent(s)
    ensures Startup(s.disk) == Success(s)
  {
    assert Init(s.disk) == Success((s.settings, s.disk));
    assert Open(Some(s.settings.openedPlaylist), None, s.disk) == Success(Stored(s.playlist, s.disk));
    assert SettingsStore.Save(s.settings, s.disk) == s.disk;
  }

  /** `update_playlist_index`: the list reports a new current row of the
      open playlist (a double-click, next, previous, the end of a track),
      and it is saved into that playlist's file at once. The rows Qt
      reports while `load` refills the list reach the file the same way,
      but before the settings name the new playlist; those are not this
      function's case. */
  function IndexReported(s: Session, index: int): (r: Session)
    requires Consistent(s)
    ensures Consistent(r)
    ensures r.settings == s.settings
    ensures r.playlist == s.playlist.(currentTrackIndex := index)
    ensures OnlyWritten(s.disk, r.disk, s.playlist.path)
  {
    var st := SetCurrentTrackIndex(Stored(s.playlist, s.disk), index);
    Session(s.settings, st.playlist, st.disk)
  }

  /** Whatever index the list last reported, unclamped, is the one a
      restart comes back with. */
  lemma RestartAfterIndexReport(s: Session, index: int)
    requires Consistent(s)
    ensures Startup(IndexReported(s, index).disk).Success?
    ensures Startup(IndexReported(s, index).disk).value.playlist.currentTrackIndex == index
  {
    RestartRestores(IndexReported(s, index));
  }

  /** The default playlist's file name without its extension is `default`. */
  lemma DefaultFileStem()
    ensures PosixPath.SplitExt(PosixPath.Basename(DefaultPlaylistPath)).0 == "default"
  {
    var p := DefaultPlaylistPath;
    PosixPath.RfindAt(p, '/', 11);
    var b := PosixPath.Basename(p);
    assert b == "default.playlist";
    PosixPath.RfindAt(b, '.', 7);
    assert PosixPath.Rfind(b, '/') == -1;
    assert PosixPath.HasNonDot(b, 0, 7) by {
      assert b[0] != '.';
    }
    assert PosixPath.SplitExt(b).0 == b[..7] == "default";
  }

  /** Opening the default playlist's path where no file exists creates the
      empty playlist `default`. */
  lemma DefaultPlaylistCreated(disk: Disk)
    requires DefaultPlaylistPath !in disk
    ensures Open(Some(DefaultPlaylistPath), None, disk).Success?
    ensures Open(Some(DefaultPlaylistPath), None, disk).value.playlist
         == Playlist("./playlists/default.playlist", "default", [], 0)
  {
    var p := DefaultPlaylistPath;
    assert Target(Some(p), None) == p && KnownName(Some(p), None) == None;
    assert p[1] == '/';
    DefaultFileStem();
    assert New(p, None, disk).value.playlist == Playlist(p, "default", [], 0);
  }

  /** First run on a disk with neither the settings file nor the default
      playlist: the settings hold the defaults and the default playlist is
      created empty, named after its file. */
  lemma FirstRun(disk: Disk)
    requires SettingsPath !in disk && DefaultPlaylistPath !in disk
    ensures Startup(disk).Success?
    ensures Startup(disk).value.settings == Settings("default", "./playlists/default.playlist")
    ensures Startup(disk).value.playlist == Playlist("./playlists/default.playlist", "default", [], 0)
  {
    var disk1 := Init(disk).value.1;
    assert Init(disk).value.0 == Defaults();
    DefaultPlaylistCreated(disk1);
  }

  /** Creating a playlist by a name that has no file yet creates an empty
      playlist of that name in `./playlists/`. */
  lemma CreateByName(s: Session)
    requires Consistent(s)
    requires "./playlists/party.playlist" !in s.disk
    ensures SwitchTo(s, None, Some("party")).Success?
    ensures SwitchTo(s, None, Some("party")).value.playlist
         == Playlist("./playlists/party.playlist", "party", [], 0)
    ensures SwitchTo(s, None, Some("party")).value.settings.openedPlaylist == "./playlists/party.playlist"
  {
    assert PathForName("party") == "./playlists/party.playlist";
  }

  /** An empty name from the "new playlist" dialog is not a name: the
      default playlist is opened instead. */
  lemma EmptyNameOpensDefault(s: Session)
    requires Consistent(s)
    ensures SwitchTo(s, None, Some("")) == SwitchTo(s, None, None)
  {
  }
}
