/** The extension filter of the media player: a file joins the playlist
    only when `splitext` reports one of the supported extensions, compared
    case-sensitively.
 */
module Media {

  import opened Store
  import PosixPath
  import Playlists

  const SupportedFormats: seq<string> := [".mp3", ".wav", ".mp4"]

  /** The filter `add_media` applies. */
  predicate Supported(file: string) {
    PosixPath.SplitExt(file).1 in SupportedFormats
  }

  /** `MediaPlayer.add_media`: accept and append a supported file (saving
      the playlist), or report rejection and change nothing. */
  function AddMedia(s: Playlists.Stored, file: string): (r: (bool, Playlists.Stored))
    ensures r.0 <==> PosixPath.SplitExt(file).1 in [".mp3", ".wav", ".mp4"]
    ensures r.0 ==>
      && Playlists.Appended(s.playlist, r.1.playlist, [file])
      && Playlists.InSync(r.1)
      && OnlyWritten(s.disk, r.1.disk, s.playlist.path)
    ensures !r.0 ==> r.1 == s
  {
    if !Supported(file) then (false, s)
    else (true, Playlists.AddItem(s, file))
  }

  /** The files of `files` that `add_media` accepts, in order. */
  function Accepted(files: seq<string>): (r: seq<string>)
    ensures forall i :: 0 <= i < |r| ==> Supported(r[i])
    ensures |r| <= |files|
  {
    if files == [] then []
    else if Supported(files[0]) then [files[0]] + Accepted(files[1..])
    else Accepted(files[1..])
  }

  /** The filter keeps exactly the supported files: a file is kept iff it
      was given and passes. */
  lemma {:induction false} AcceptedMembers(files: seq<string>, f: string)
    ensures f in Accepted(files) <==> f in files && Supported(f)
    decreases |files|
  {
    if files != [] {
      AcceptedMembers(files[1..], f);
      assert files == [files[0]] + files[1..];
    }
  }

  lemma {:induction false} AcceptedAppend(a: seq<string>, b: seq<string>)
    ensures Accepted(a + b) == Accepted(a) + Accepted(b)
    decreases |a|
  {
    if a == [] {
      assert a + b == b;
    } else {
      assert (a + b)[0] == a[0];
      assert (a + b)[1..] == a[1..] + b;
      AcceptedAppend(a[1..], b);
    }
  }

  /** `r` is `s` with `added` appended and saved; nothing else differs. */
  ghost predicate Extended(s: Playlists.Stored, r: Playlists.Stored, added: seq<string>) {
    && r.playlist == s.playlist.(tracks := s.playlist.tracks + added)
    && Playlists.InSync(r)
    && OnlyWritten(s.disk, r.disk, s.playlist.path)
  }

  /** One more `add_media` extends by the file exactly when it is accepted. */
  lemma AddMediaExtends(s: Playlists.Stored, r: Playlists.Stored, added: seq<string>, file: string)
    requires Extended(s, r, added)
    ensures Extended(s, AddMedia(r, file).1, added + Accepted([file]))
  {
    assert Accepted([file]) == if Supported(file) then [file] else [] by {
      assert [file][1..] == [];
    }
    if Supported(file) {
      assert s.playlist.tracks + added + [file] == s.playlist.tracks + (added + [file]);
    } else {
      assert added + [] == added;
    }
  }

  /** One turn of the loop below keeps it the filtered prefix appended. */
  lemma AddFilesStep(s: Playlists.Stored, r: Playlists.Stored, files: seq<string>, i: nat)
    requires i < |files|
    requires Extended(s, r, Accepted(files[..i]))
    ensures Extended(s, AddMedia(r, files[i]).1, Accepted(files[..i + 1]))
  {
    AddMediaExtends(s, r, Accepted(files[..i]), files[i]);
    AcceptedAppend(files[..i], [files[i]]);
    assert files[..i + 1] == files[..i] + [files[i]];
  }

  /** The loop of the "add track" action: `add_media` on every chosen file
      in turn. Exactly the supported files are appended, in input order,
      after the tracks already there, and the file ends in sync. */
  method AddFiles(s: Playlists.Stored, files: seq<string>) returns (r: Playlists.Stored)
    requires Playlists.InSync(s)
    ensures r.playlist.tracks == s.playlist.tracks + Accepted(files)
    ensures r.playlist.path == s.playlist.path && r.playlist.name == s.playlist.name
    ensures r.playlist.currentTrackIndex == s.playlist.currentTrackIndex
    ensures Playlists.InSync(r)
    ensures OnlyWritten(s.disk, r.disk, s.playlist.path)
  {
    r := s;
    assert s.playlist.tracks + [] == s.playlist.tracks;
    var i := 0;
    while i < |files|
      invariant 0 <= i <= |files|
      invariant Extended(s, r, Accepted(files[..i]))
    {
      AddFilesStep(s, r, files, i);
      r, i := AddMedia(r, files[i]).1, i + 1;
    }
    assert files[..i] == files;
    assert Extended(s, r, Accepted(files));
  }

  /** Which file names pass: exactly those ending in `.mp3`, `.wav` or
      `.mp4` (same case) after a file name that is not all dots. */
  lemma AddMediaAcceptsExactly(s: Playlists.Stored, file: string)
    ensures AddMedia(s, file).0 <==>
      || PosixPath.HasExtension(file, ".mp3")
      || PosixPath.HasExtension(file, ".wav")
      || PosixPath.HasExtension(file, ".mp4")
  {
    PosixPath.SplitExtFinds(file, ".mp3");
    PosixPath.SplitExtFinds(file, ".wav");
    PosixPath.SplitExtFinds(file, ".mp4");
  }

  /** The comparison is case-sensitive. */
  lemma UpperCaseRejected(s: Playlists.Stored)
    ensures !AddMedia(s, "song.MP3").0
  {
    AddMediaAcceptsExactly(s, "song.MP3");
    assert "song.MP3"[4..] == ".MP3";
  }

  /** A hidden file named like an extension has no extension. */
  lemma DotFileRejected(s: Playlists.Stored)
    ensures !AddMedia(s, "music/.mp3").0
  {
    var f := "music/.mp3";
    assert f[5] == '/' && f[6] == '.';
    PosixPath.RfindAt(f, '/', 5);
    PosixPath.RfindAt(f, '.', 6);
    assert !PosixPath.HasNonDot(f, 6, 6);
    assert PosixPath.SplitExt(f).1 == [];
  }

  /** An ordinary file name with a supported extension is accepted. */
  lemma PlainFileAccepted(s: Playlists.Stored)
    ensures AddMedia(s, "music/song.mp3").0
  {
    var f := "music/song.mp3";
    assert f[5] == '/' && f[6] == 's' && f[10] == '.';
    PosixPath.RfindAt(f, '/', 5);
    PosixPath.RfindAt(f, '.', 10);
    assert PosixPath.HasNonDot(f, 6, 10);
    assert f[10..] == ".mp3";
  }
}
