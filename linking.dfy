/**
 * Which video file a subtitle file belongs to, decided from file names alone
 * (map_subtitles_to_videos in rapid_moment_navigator.py). The paths are what
 * the directory globs returned; the functions here are the specification that
 * Navigator.MapSubtitlesToVideos is proved against.
 */
module Linking {
  import opened Wrappers
  import opened Text
  import opened Seqs

  /** What one show directory contributes: the subtitle files of its Subtitles
      folder and the .mp4 files of its Season folders, in glob order. */
  datatype ShowFiles = ShowFiles(subtitleFiles: seq<string>, videoFiles: seq<string>)

  /** os.path.basename: what follows the last separator. */
  function Basename(path: string): (r: string)
    ensures IsSuffix(r, path)
    ensures forall i :: 0 <= i < |r| ==> !IsSep(r[i])
    ensures |r| < |path| ==> IsSep(path[|path| - |r| - 1])
  {
    path[|path| - RunBack(path, NotSep)..]
  }

  /** The position of the last '.' of name. */
  function LastDot(name: string): (r: Option<nat>)
    ensures r.Some? ==> r.value < |name| && name[r.value] == '.' && '.' !in name[r.value + 1..]
    ensures r.None? ==> '.' !in name
    decreases |name|
  {
    if name == [] then None
    else if name[|name| - 1] == '.' then Some(|name| - 1)
    else
      var r := LastDot(name[..|name| - 1]);
      assert name == name[..|name| - 1] + [name[|name| - 1]];
      assert r.Some? ==> name[r.value + 1..] == name[..|name| - 1][r.value + 1..] + [name[|name| - 1]];
      r
  }

  /** How many dots begin name: splitext skips them when it looks for the
      start of the file name proper. */
  function LeadingDots(name: string): (n: nat)
    ensures n <= |name|
    ensures forall i :: 0 <= i < n ==> name[i] == '.'
    ensures n < |name| ==> name[n] != '.'
    decreases |name|
  {
    if name == [] || name[0] != '.' then 0
    else
      var n := LeadingDots(name[1..]);
      assert forall i :: 1 <= i <= n ==> name[i] == name[1..][i - 1];
      1 + n
  }

  /** os.path.splitext(name)[0] for a name without separators: name up to its
      last '.', unless nothing but dots comes before that '.' (".hidden"), in
      which case name has no extension and is kept whole. */
  function Root(name: string): string {
    match LastDot(name)
    case None => name
    case Some(d) => if LeadingDots(name) >= d then name else name[..d]
  }

  /** Root keeps a prefix of the name. What it drops is the last '.' and what
      follows it, and only when something other than a dot comes before that
      '.'; a name it keeps whole has no '.', or starts with one. */
  lemma RootDropsLastExtension(name: string)
    ensures IsPrefix(Root(name), name)
    ensures var r := Root(name);
            r != name ==> name[|r|] == '.' && '.' !in name[|r| + 1..] && exists i :: 0 <= i < |r| && r[i] != '.'
    ensures var r := Root(name);
            r == name && '.' in name ==> name[0] == '.'
    ensures Root(name) == name && LastDot(name).Some? ==>
              forall i :: 0 <= i < LastDot(name).value ==> name[i] == '.'
  {
    match LastDot(name)
    case None =>
    case Some(d) =>
      var n := LeadingDots(name);
      if n < d {
        assert name[..d][n] != '.';
      }
  }

  /** A name with a non-dot first character loses exactly its last extension. */
  lemma RootDropsExtension(stem: string, ext: string)
    requires stem != [] && stem[0] != '.' && '.' !in ext
    ensures Root(stem + "." + ext) == stem
  {
    var name := stem + "." + ext;
    assert name[|stem|] == '.';
    assert name[..|stem|] == stem;
    assert '.' !in name[|stem| + 1..] by {
      assert name[|stem| + 1..] == ext;
    }
  }

  /** Lines 106-107: a trailing ".mp4" removed, when there is one. */
  function DropMp4(name: string): (r: string)
    ensures IsPrefix(r, name)
  {
    if IsSuffix(".mp4", name) then name[..|name| - 4] else name
  }

  /** The subtitle name of lines 101-107: the base name without its extension,
      and without a further ".mp4" left over from a "<video>.mp4.srt" name. */
  function SubtitleStem(subtitleFile: string): (r: string)
    ensures IsPrefix(r, Basename(subtitleFile))
  {
    var b := Basename(subtitleFile);
    RootDropsLastExtension(b);
    PrefixOfPrefix(DropMp4(Root(b)), Root(b), b);
    DropMp4(Root(b))
  }

  /** The video name of lines 111-112: the base name without its extension. */
  function VideoStem(videoFile: string): (r: string)
    ensures IsPrefix(r, Basename(videoFile))
  {
    RootDropsLastExtension(Basename(videoFile));
    Root(Basename(videoFile))
  }

  /** "<name>.mp4.<ext>" names the video "<name>.mp4". */
  lemma StemOfCompanionSubtitle(dir: string, stem: string, subtitleExt: string)
    requires stem != [] && stem[0] != '.' && forall i :: 0 <= i < |stem| ==> !IsSep(stem[i])
    requires '.' !in subtitleExt && forall i :: 0 <= i < |subtitleExt| ==> !IsSep(subtitleExt[i])
    ensures SubtitleStem(dir + "/" + stem + ".mp4." + subtitleExt) == stem
  {
    var name := stem + ".mp4." + subtitleExt;
    assert dir + "/" + stem + ".mp4." + subtitleExt == dir + "/" + name;
    BasenameAfterSep(dir, name);
    assert name == (stem + ".mp4") + "." + subtitleExt;
    RootDropsExtension(stem + ".mp4", subtitleExt);
    assert (stem + ".mp4")[..|stem|] == stem;
  }

  /** "<name>.<ext>" names the video "<name>.mp4" when name has no dot. */
  lemma StemOfPlainSubtitle(dir: string, stem: string, subtitleExt: string)
    requires stem != [] && stem[0] != '.' && '.' !in stem && forall i :: 0 <= i < |stem| ==> !IsSep(stem[i])
    requires '.' !in subtitleExt && forall i :: 0 <= i < |subtitleExt| ==> !IsSep(subtitleExt[i])
    ensures SubtitleStem(dir + "/" + stem + "." + subtitleExt) == stem
  {
    var name := stem + "." + subtitleExt;
    assert dir + "/" + stem + "." + subtitleExt == dir + "/" + name;
    BasenameAfterSep(dir, name);
    RootDropsExtension(stem, subtitleExt);
    assert !IsSuffix(".mp4", stem) by {
      if |stem| >= 4 {
        assert stem[|stem| - 4] in stem;
        assert stem[|stem| - 4..][0] == stem[|stem| - 4];
      }
    }
  }

  /** "<name>.mp4" has the video name "<name>". */
  lemma StemOfVideo(dir: string, stem: string)
    requires stem != [] && stem[0] != '.' && forall i :: 0 <= i < |stem| ==> !IsSep(stem[i])
    ensures VideoStem(dir + "/" + stem + ".mp4") == stem
  {
    var name := stem + ".mp4";
    assert dir + "/" + stem + ".mp4" == dir + "/" + name;
    BasenameAfterSep(dir, name);
    assert name == stem + "." + "mp4";
    RootDropsExtension(stem, "mp4");
  }

  lemma BasenameAfterSep(dir: string, name: string)
    requires forall i :: 0 <= i < |name| ==> !IsSep(name[i])
    ensures Basename(dir + "/" + name) == name
  {
    var path := dir + "/" + name;
    assert path[|path| - |name| - 1] == '/';
    assert forall i :: |path| - |name| <= i < |path| ==> path[i] == name[i - (|path| - |name|)];
    RunBackUnique(path, NotSep, |name|);
    assert path[|path| - |name|..] == name;
  }

  /** The test of line 114: the names are equal, or the video name begins the
      subtitle's whole file name. */
  predicate Links(subtitleFile: string, videoFile: string) {
    SubtitleStem(subtitleFile) == VideoStem(videoFile)
    || IsPrefix(VideoStem(videoFile), Basename(subtitleFile))
  }

  /** Because the subtitle name begins its file name, the first half of the test
      is subsumed by the second. */
  lemma LinksIffPrefix(subtitleFile: string, videoFile: string)
    ensures Links(subtitleFile, videoFile) <==> IsPrefix(VideoStem(videoFile), Basename(subtitleFile))
  {
    var b := Basename(subtitleFile);
    var s := SubtitleStem(subtitleFile);
    assert b[..|s|] == s;
  }

  /** The test of line 114 for one subtitle file, as a test on videos. */
  function LinksTo(subtitleFile: string): string -> bool {
    v => Links(subtitleFile, v)
  }

  /** The position of the video that the inner loop stops at: the first one
      that passes the test, or none. */
  function FirstLink(subtitleFile: string, videoFiles: seq<string>): Option<nat> {
    FirstWhere(videoFiles, LinksTo(subtitleFile))
  }

  /** The video the loop stops at passes the test and no earlier one does;
      when it stops at none, no video passes. */
  lemma FirstLinkIsFirst(subtitleFile: string, videoFiles: seq<string>)
    ensures var r := FirstLink(subtitleFile, videoFiles);
            r.Some? ==> r.value < |videoFiles| && Links(subtitleFile, videoFiles[r.value])
    ensures var r := FirstLink(subtitleFile, videoFiles);
            r.Some? ==> forall j :: 0 <= j < r.value ==> !Links(subtitleFile, videoFiles[j])
    ensures var r := FirstLink(subtitleFile, videoFiles);
            r.None? ==> forall j :: 0 <= j < |videoFiles| ==> !Links(subtitleFile, videoFiles[j])
  {
    var r := FirstWhere(videoFiles, LinksTo(subtitleFile));
    if r.Some? {
      forall j | 0 <= j < r.value
        ensures !Links(subtitleFile, videoFiles[j])
      {
        assert !LinksTo(subtitleFile)(videoFiles[j]);
      }
    } else {
      forall j | 0 <= j < |videoFiles|
        ensures !Links(subtitleFile, videoFiles[j])
      {
        assert !LinksTo(subtitleFile)(videoFiles[j]);
      }
    }
  }

  function LinkedVideo(subtitleFile: string, videoFiles: seq<string>): Option<string> {
    match FirstLink(subtitleFile, videoFiles)
    case None => None
    case Some(k) => Some(videoFiles[k])
  }

  /** The video a subtitle finds among videoFiles, as a function of the subtitle. */
  function VideoIn(videoFiles: seq<string>): string -> Option<string> {
    s => LinkedVideo(s, videoFiles)
  }

  /** The map after linking the subtitles of one show, one by one, into m. */
  function LinkAll(m: map<string, string>, subtitleFiles: seq<string>, videoFiles: seq<string>): map<string, string> {
    Record(m, subtitleFiles, VideoIn(videoFiles))
  }

  /** The map after linking every show in turn into m. */
  function LinkShows(m: map<string, string>, shows: seq<ShowFiles>): map<string, string>
    decreases |shows|
  {
    if shows == [] then m
    else
      var last := shows[|shows| - 1];
      LinkAll(LinkShows(m, shows[..|shows| - 1]), last.subtitleFiles, last.videoFiles)
  }

  /** Linking one more subtitle of the show. */
  lemma LinkAllStep(m: map<string, string>, subtitleFiles: seq<string>, videoFiles: seq<string>, j: nat)
    requires j < |subtitleFiles|
    ensures LinkAll(m, subtitleFiles[..j + 1], videoFiles)
         == match LinkedVideo(subtitleFiles[j], videoFiles)
            case None => LinkAll(m, subtitleFiles[..j], videoFiles)
            case Some(v) => LinkAll(m, subtitleFiles[..j], videoFiles)[subtitleFiles[j] := v]
  {
    RecordStep(m, subtitleFiles, VideoIn(videoFiles), j);
  }

  /** Linking one more show. */
  lemma LinkShowsPrefix(m: map<string, string>, shows: seq<ShowFiles>, i: nat)
    requires i < |shows|
    ensures LinkShows(m, shows[..i + 1])
         == LinkAll(LinkShows(m, shows[..i]), shows[i].subtitleFiles, shows[i].videoFiles)
  {
    assert shows[..i + 1][..i] == shows[..i];
  }

  /** A subtitle of the show gets its linked video; every other key keeps
      whatever m said about it, present or absent. */
  lemma LinkAllAt(m: map<string, string>, subtitleFiles: seq<string>, videoFiles: seq<string>, key: string)
    ensures Lookup(LinkAll(m, subtitleFiles, videoFiles), key)
         == if key in subtitleFiles && LinkedVideo(key, videoFiles).Some? then LinkedVideo(key, videoFiles)
            else Lookup(m, key)
  {
    RecordAt(m, subtitleFiles, VideoIn(videoFiles), key);
  }

  ghost predicate LinkedIn(show: ShowFiles, key: string) {
    key in show.subtitleFiles && LinkedVideo(key, show.videoFiles).Some?
  }

  /** After all shows, a key is mapped iff m had it or some show lists it as a
      subtitle that found a video; its video is m's or one found for it. */
  lemma {:induction false} LinkShowsAt(m: map<string, string>, shows: seq<ShowFiles>, key: string)
    ensures key in LinkShows(m, shows) <==> key in m || exists i :: 0 <= i < |shows| && LinkedIn(shows[i], key)
    ensures key in LinkShows(m, shows) ==>
              (key in m && LinkShows(m, shows)[key] == m[key])
              || exists i :: 0 <= i < |shows| && LinkedIn(shows[i], key)
                              && LinkedVideo(key, shows[i].videoFiles) == Some(LinkShows(m, shows)[key])
    decreases |shows|
  {
    if shows != [] {
      var n := |shows| - 1;
      var init := shows[..n];
      var last := shows[n];
      var before := LinkShows(m, init);
      var after := LinkShows(m, shows);
      LinkShowsAt(m, init, key);
      LinkShowsStep(m, shows, key);
      if LinkedIn(last, key) {
        assert LinkedVideo(key, shows[n].videoFiles) == Some(after[key]);
      } else {
        if exists i :: 0 <= i < |shows| && LinkedIn(shows[i], key) {
          var i :| 0 <= i < |shows| && LinkedIn(shows[i], key);
          assert i != n;
          assert shows[i] == init[i];
        }
        if key in after && !(key in m && after[key] == m[key]) {
          var i :| 0 <= i < n && LinkedIn(init[i], key)
                   && LinkedVideo(key, init[i].videoFiles) == Some(before[key]);
          assert shows[i] == init[i];
        }
      }
    }
  }

  /** Linking the last show either links key to its video there or leaves key
      as the shows before it left it. */
  lemma LinkShowsStep(m: map<string, string>, shows: seq<ShowFiles>, key: string)
    requires shows != []
    ensures var last := shows[|shows| - 1];
            Lookup(LinkShows(m, shows), key)
            == if LinkedIn(last, key) then LinkedVideo(key, last.videoFiles)
               else Lookup(LinkShows(m, shows[..|shows| - 1]), key)
  {
    var last := shows[|shows| - 1];
    LinkAllAt(LinkShows(m, shows[..|shows| - 1]), last.subtitleFiles, last.videoFiles, key);
  }

  /** Starting from an empty map, only scanned subtitles that found a video are
      keys, and each is mapped to a video of a show that lists it. */
  lemma FreshMapKeys(shows: seq<ShowFiles>, key: string)
    ensures key in LinkShows(map[], shows) <==> exists i :: 0 <= i < |shows| && LinkedIn(shows[i], key)
    ensures key in LinkShows(map[], shows) ==>
              exists i :: 0 <= i < |shows| && key in shows[i].subtitleFiles
                          && LinkedVideo(key, shows[i].videoFiles) == Some(LinkShows(map[], shows)[key])
  {
    LinkShowsAt(map[], shows, key);
  }
}
