# music-player: playlists, settings and the small pure helpers

This project models the non-Qt core of a PyQt5 music player (`main.py`):

- the **settings file** (`Settings`): the default playlist name and the
  path of the playlist that was open last, created with defaults on first
  run and written through on every change;
- the **playlist** (`Playlist`): a name, an ordered list of track paths
  and a current track index, stored as one record per file, opened with
  open-or-create semantics and saved after every mutation;
- the **extension filter** of `MediaPlayer.add_media`, including the
  exact behaviour of `os.path.splitext`, `basename` and `dirname` as
  Python's `posixpath` defines them;
- **`Application.format_time`** and the `MM:SS/MM:SS` time label built from it;
- the **start-up and playlist-switch glue** that keeps the settings file
  naming the open playlist.

The disk is a map from path to the decoded record of that path
(`Store.Disk`); a file that is not valid JSON or lacks a key the reader
needs is `Foreign`, and reading it is an error. Python exceptions become
`Result` failures (`IndexError`, `CorruptRecord`, `FileNotFound`). Every
operation is a pure function from a playlist and a disk to the new playlist
and the new disk. A failure carries no new state. For the single
operations of `Settings` and `Playlist` this is exactly Python's
behaviour: each raises before it writes anything. Start-up is the
exception; see "## Left out".

Modules: `Store` (disk, records, errors), `PosixPath`, `SettingsStore`,
`Playlists`, `Media`, `TimeFormat`, `App`.

Behaviour the model follows as written in `main.py`, where one might
expect otherwise:

- the default settings record holds `default_playlist = 'default'` (a
  name, not a path) and `opened_playlist = './playlists/default.playlist'`;
- only `.mp3`, `.wav` and `.mp4` are accepted, compared case-sensitively;
- `set_current_track_index` stores any integer, with no clamping;
- `remove_item` does not shift `current_track_index`, and a negative index
  counts from the end as Python's `del` does;
- `add_items` appends without any extension filter (only `add_media`
  filters);
- the settings record has no current-track field.

## Model

| member | source | states |
|---|---|---|
| SettingsStore.Read | main.py:32-35 | reading succeeds exactly when the settings file exists and holds a settings record, and then returns its two fields; a missing file is `FileNotFound`, and a file holding anything else is `CorruptRecord` |
| SettingsStore.Save | main.py:37-42 | after saving, reading the settings file gives back exactly the saved record, and no other file changes |
| SettingsStore.Init | main.py:24-35 | on a disk without the settings file, construction succeeds with `('default', './playlists/default.playlist')` and writes only that file; with the file present it never writes, succeeds iff the file holds a settings record, and otherwise fails with `CorruptRecord`; whatever it returns is what the file holds; no file but the settings file ever appears |
| SettingsStore.SetOpenedPlaylist | main.py:44-46 | the opened playlist becomes the argument, the default playlist is kept, and both fields are immediately what the file holds; no other file changes |
| SettingsStore.InitIdempotent | main.py:24-35 | constructing the settings again on the disk the first construction left reads back the same record and writes nothing |
| Playlists.Load | main.py:115-120 | loading succeeds exactly when the file exists and holds a playlist record; the result keeps the requested path and its name, tracks and index are the stored ones; a missing file is `FileNotFound`, and a file holding anything else is `CorruptRecord` |
| Playlists.Save | main.py:107-113 | saving then loading from the same path restores the name, the tracks in the same order and the current index; only that file changes |
| Playlists.AddItem | main.py:91-93 | the item ends up last, every earlier track keeps its position, name, path and index are unchanged, and the stored record equals the new state |
| Playlists.AddItems | main.py:95-97 | the items are appended after the existing tracks in input order with no filtering, earlier tracks keep their positions, and the stored record equals the new state |
| Playlists.AddItemsIsAddEach | main.py:91-97 | adding a non-empty list at once leaves the same playlist and the same disk as adding its items one by one |
| Playlists.ListIndex | main.py:100 | Python list indexing: an index is valid iff `-n <= i < n`, and a valid index selects the position congruent to it modulo `n` |
| Playlists.RemoveItem | main.py:99-101 | removal succeeds iff `-n <= index < n` and otherwise raises `IndexError` before any save; on success the list is one shorter, the tracks before the removed position are unchanged and those after it move up by one, the current index, name and path are unchanged, and the stored record equals the new state |
| Playlists.RemoveKeepsOthers | main.py:99-101 | the remaining tracks together with the removed one are, as a multiset, exactly the old tracks |
| Playlists.AddThenRemoveLast | main.py:91-101 | removing at `-1` (the row the list view reports when nothing is selected) or at the old length right after adding a track restores the playlist as it was |
| Playlists.SetCurrentTrackIndex | main.py:103-105 | the index is stored verbatim, without clamping to the list bounds, tracks, name and path are unchanged, and the stored record equals the new state |
| Playlists.New | main.py:81-89 | creation fails with `FileNotFound` iff the path has no directory part (`os.makedirs('')`); otherwise it yields an empty playlist at index 0, named by the given name or else by the file name without its extension, and writes only that file |
| Playlists.Open | main.py:53-79 | the file opened is the given path, else `./playlists/<name>.playlist`, else the default playlist; an existing file is loaded unchanged and never overwritten, succeeding iff it holds a playlist record; a missing one is created empty at index 0 and named after the name argument, `'default'`, or the file name without extension, which always succeeds without a given path and succeeds for a given path iff it has a directory part; a failure is `CorruptRecord` for an existing file and `FileNotFound` otherwise; in every success the stored record equals the state; no file but the playlist's own ever appears |
| Playlists.LoadExisting | main.py:59-65 | when the target file exists the constructor writes nothing and succeeds iff the file holds a playlist record, which it then holds in memory at that path |
| Playlists.Create | main.py:59-79 | when the target file is missing the constructor creates it empty at index 0, writing only that file; without a given path it always succeeds, named after the name argument or `'default'`; with a given path it succeeds iff the path has a directory part, and the name is the file name without its extension; its only error is `FileNotFound` |
| Playlists.OpenTwice | main.py:53-89 | constructing the same playlist again on the disk the first construction left reads back the same state and writes nothing |
| PosixPath.Basename | main.py:86 | the result is the longest suffix of the path without a separator: a suffix with no `/`, which is the whole path or follows a `/` |
| PosixPath.Dirname | main.py:82-83 | the result is a prefix of the path, and it is empty iff the path contains no separator |
| PosixPath.SplitExt | main.py:217 | root and extension concatenate to the path; a non-empty extension is one dot followed by neither dots nor separators, preceded in the final component by a non-dot character; an empty extension means every character of the final component that precedes a dot is a dot |
| PosixPath.SplitExtScan | main.py:217 | the scan over leading dots of the final component computes the same split as the characterisation |
| PosixPath.SplitExtFinds | main.py:217-218 | for an extension such as `.mp3`, `splitext` reports it iff the path ends with it after a file name that is not all dots |
| Media.AddMedia | main.py:216-224 | the file is accepted iff its `splitext` extension is exactly `.mp3`, `.wav` or `.mp4`; an accepted file is appended last with earlier tracks in place and the playlist saved; a rejected one changes nothing |
| Media.AcceptedMembers | main.py:216-219 | a file is kept by the filter iff it was given and its extension is supported |
| Media.AddFiles | main.py:291-295 | adding the chosen files one by one appends exactly the accepted ones in input order after the existing tracks, keeps name, path and index, and leaves the file in sync |
| Media.AddMediaAcceptsExactly | main.py:141-145 | acceptance holds exactly for names ending in `.mp3`, `.wav` or `.mp4` (same case) after a file name that is not all dots |
| Media.UpperCaseRejected | main.py:216-219 | `song.MP3` is rejected: the comparison is case-sensitive |
| Media.DotFileRejected | main.py:217-219 | `music/.mp3` is rejected: a hidden file has no extension |
| Media.PlainFileAccepted | main.py:216-224 | `music/song.mp3` is accepted |
| TimeFormat.RoundedSeconds | main.py:361 | the result is within half a second of `ms/1000`, and on an exact half it is even (Python's round-half-to-even) |
| TimeFormat.RoundingExamples | main.py:361 | 0.5 s rounds to 0, 1.5 s and 2.5 s both to 2, 2.501 s to 3 |
| TimeFormat.Pad2 | main.py:364 | `%02d` of a number below 100 is two digits whose value is that number |
| TimeFormat.MinutesSecondsModHour | main.py:362-363 | the two `divmod`s with the hours dropped leave the seconds count modulo one hour |
| TimeFormat.FormatTime | main.py:360-364 | the result is always five characters `MM:SS`, both fields are decimal below 60, and minutes and seconds together equal the rounded seconds modulo one hour |
| TimeFormat.HoursDropped | main.py:362-364 | 3 661 000 ms shows as `01:01` |
| TimeFormat.OnDuration | main.py:345-349 | for a non-negative duration the label becomes eleven characters: `00:00/` followed by the formatted duration; a negative duration leaves the label alone |
| TimeFormat.OnPosition | main.py:351-354 | for a non-negative position the label becomes the formatted position, a `/`, and whatever followed the first six characters of the old label; a negative position leaves the label alone |
| TimeFormat.DurationShown | main.py:345-349 | after a duration update the label starts with `00:00/` and its text after the first six characters is the formatted duration |
| TimeFormat.PositionKeepsDuration | main.py:351-354 | a position update keeps the duration after the first six characters and shows the formatted position in the first five, because the formatted time is always five characters |
| TimeFormat.DurationSurvivesPositions | main.py:345-354 | after any sequence of position updates the label still shows the last duration after its first six characters |
| App.Activate | main.py:314-315 | when a playlist becomes the open one, the settings record its path and keep the default, the settings file holds the new record, and only the settings file is written |
| App.Startup | main.py:252-253 | start-up fails exactly when reading the settings or opening the playlist they name fails; on success the playlist is exactly what the playlist constructor opened or created (so a stale path is created empty, named after its file), the playlist opened is the one the settings file names (the default playlist on first run or for an empty name), the default name is kept, both files hold the in-memory state, the only files that can appear are the settings file and the opened playlist's, and no existing playlist file is overwritten before the list reports its index |
| App.Resume | main.py:253 | once the settings are read, opening the playlist they name succeeds exactly when the constructor does; the session then holds exactly that playlist, records its path, keeps both files in sync, adds no file but the playlist's own and overwrites no other |
| App.IndexReported | main.py:194-195 | a row the list reports becomes the playlist's current index unclamped and is saved at once; the settings are unchanged, only the playlist's file is written, and the session stays consistent |
| App.RestartAfterIndexReport | main.py:194-195 | a restart comes back with the last index the list reported, whatever its value |
| App.SwitchTo | main.py:170-180 | creating or loading a playlist succeeds exactly when the playlist constructor does, and makes exactly what it opened or created the open playlist at the resolved path; keeps the settings' default, records its path in the settings, keeps both files in sync, adds no file but the playlist's own, and overwrites no existing playlist file before the list reports its index |
| App.RestartRestores | main.py:252-253 | restarting on the disk a consistent session left behind restores exactly that session, disk included |
| App.DefaultPlaylistCreated | main.py:59-63 | opening the default playlist path where no file exists creates the empty playlist `default` at index 0 |
| App.FirstRun | main.py:24-30 | on a disk with neither file, start-up yields the default settings and an empty default playlist named `default` at index 0 |
| App.CreateByName | main.py:66-72 | creating `party` where no file exists yields an empty playlist `party` at `./playlists/party.playlist`, recorded as the opened one |
| App.EmptyNameOpensDefault | main.py:73-79 | an empty name is not a name: it opens the default playlist, exactly as no name does |

## Left out

- Qt: `PlaylistModel`, `PlaylistEvents`, and the `QMediaPlayer`/`QMediaPlaylist` calls in `MediaPlayer` (play, pause, stop, next, previous, `set_current_index`, signal connections). Their behaviour (wrap-around, the index Qt reports after a removal) lives in Qt, which is not part of this model.
- App.Startup and App.SwitchTo model `MediaPlayer.load` only as its `playlist_changed` emission (`Activate`). The `clear()` and `setCurrentIndex` calls in `load` (main.py:162-166) make Qt report rows, and each report is saved into the newly opened playlist's file by `update_playlist_index` (main.py:156, 194-195). Which rows Qt reports, and in what order, is Qt's business; `App.IndexReported` models one such report. These reports arrive after the new playlist is installed (main.py:179-180) but before `playlist_changed` updates the settings (main.py:168), so the -1 that `clear()` reports after a list that had a current row is saved into the new playlist, and `setCurrentIndex` then reads that -1 back: the stored index of the playlist switched to can be lost. The claim that no existing playlist file is overwritten holds only up to that write-back; after it, the file differs at most in its current index.
- App.Startup: a failure returns no disk. In `main.py` a first run writes `./userdata.data` (main.py:25-30) before `MediaPlayer.__init__` opens the playlist (main.py:155), so if that open then raises, the settings file stays written.
- `MediaPlayer.remove_media` only forwards to `remove_item`; its Qt half is left out for the reason above. `update_playlist_index` is `App.IndexReported`.
- The UI handlers: dialogs, `playlist_toggle` and the window-size constants, `update_metadata`, the sliders, and the `os.walk` scan in `add_folder`.
- JSON itself: a file is either one of the two records or `Foreign`. A record whose fields have the wrong JSON types (a `tracks` value that is not a list) is not modelled.
- Directories: the disk holds files only. `os.path.exists` on a directory, `open` on a directory, and `os.makedirs` failures other than the empty directory part (permissions, a file in the way) are not modelled.
- PosixPath.Dirname: the contract states only what the player relies on (the result is a prefix, empty exactly when the path has no `/`), not the trailing-slash stripping in full.
- TimeFormat.RoundedSeconds: models `round(ms / 1000)` exactly in integers; the float division can differ only for millisecond counts near 2^53, which are out of scope.
- TimeFormat.FormatTime: negative milliseconds are not modelled; the player only formats non-negative values.
- `os.path` is taken to be `posixpath`: on Windows, `ntpath` also splits on `\` and drive letters (`splitext('C:\\m\\.mp3')` has no extension there), which the model does not follow.
- Paths are not normalised: the disk is keyed by the path string, so two spellings of one file (`./playlists/a.playlist` and its absolute form from the open dialog, `a//b` and `a/b`, a symlink) are two files in the model. Where the file system would alias them, `Open` may create a file that `os.path.exists` would find, and "no other file changes" holds per spelling only.
- Real I/O failures (a disk that is full, unreadable files, a crash between the playlist write and the settings write).
