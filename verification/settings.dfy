/** The player's settings file: which playlist is the default one and
    which playlist was open when the player last ran. Every change is
    written through to the file at once.
 */
module SettingsStore {

  import opened Store

  const SettingsPath: Path := "./userdata.data"
  const DefaultPlaylist: string := "default"
  const DefaultPlaylistPath: Path := "./playlists/default.playlist"

  datatype Settings = Settings(defaultPlaylist: string, openedPlaylist: string)

  /** The record written on first run. */
  function Defaults(): Settings {
    Settings(DefaultPlaylist, DefaultPlaylistPath)
  }

  /** Reading the settings file: it must exist and hold a settings record. */
  function Read(disk: Disk): (r: Result<Settings>)
    ensures r.Success? <==> SettingsPath in disk && disk[SettingsPath].SettingsDoc?
    ensures r.Success? ==>
      disk[SettingsPath] == SettingsDoc(r.value.defaultPlaylist, r.value.openedPlaylist)
    ensures SettingsPath !in disk ==> r == Failure(FileNotFound)
    ensures SettingsPath in disk && !disk[SettingsPath].SettingsDoc? ==> r == Failure(CorruptRecord)
  {
    if SettingsPath !in disk then Failure(FileNotFound)
    else match disk[SettingsPath]
      case SettingsDoc(d, o) => Success(Settings(d, o))
      case _ => Failure(CorruptRecord)
  }

  /** `Settings.save`: both fields are written as one record, and no other
      file changes. */
  function Save(s: Settings, disk: Disk): (d: Disk)
    ensures Read(d) == Success(s)
    ensures OnlyWritten(disk, d, SettingsPath)
  {
    Write(disk, SettingsPath, SettingsDoc(s.defaultPlaylist, s.openedPlaylist))
  }

  /** `Settings.__init__`: create the file with the defaults when it is
      missing, then read it back. An existing file is never overwritten. */
  function Init(disk: Disk): (r: Result<(Settings, Disk)>)
    // whatever succeeds is what the file now holds
    ensures r.Success? ==> Read(r.value.1) == Success(r.value.0)
    // the settings file is the only one that can appear
    ensures r.Success? ==> r.value.1.Keys == disk.Keys + {SettingsPath}
    // first run: the defaults are written and nothing else is touched
    ensures SettingsPath !in disk ==>
      && r.Success?
      && r.value.0 == Settings("default", "./playlists/default.playlist")
      && OnlyWritten(disk, r.value.1, SettingsPath)
    // later runs: the file is only read, and a corrupt file is an error
    ensures SettingsPath in disk ==>
      && (r.Success? <==> disk[SettingsPath].SettingsDoc?)
      && (r.Success? ==> r.value.1 == disk)
      && (r.Failure? ==> r.error == CorruptRecord)
  {
    var disk' := if SettingsPath !in disk then Save(Defaults(), disk) else disk;
    var s :- Read(disk');
    Success((s, disk'))
  }

  /** `Settings.set_opened_playlist`: update one field and write through. */
  function SetOpenedPlaylist(s: Settings, playlist: Path, disk: Disk): (r: (Settings, Disk))
    ensures r.0.openedPlaylist == playlist
    ensures r.0.defaultPlaylist == s.defaultPlaylist
    ensures Read(r.1) == Success(r.0)
    ensures OnlyWritten(disk, r.1, SettingsPath)
  {
    var s' := s.(openedPlaylist := playlist);
    (s', Save(s', disk))
  }

  /** Constructing the settings a second time reads back exactly what the
      first construction produced and writes nothing. */
  lemma InitIdempotent(disk: Disk)
    requires Init(disk).Success?
    ensures Init(Init(disk).value.1) == Init(disk)
  {
  }
}
