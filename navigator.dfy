/**
 * The state of the RapidMomentNavigator window that its logic changes: the
 * subtitle-to-video map, the list of search results, the batches of results
 * on display and the status line. The widgets themselves, the threads and
 * the file system are outside the model: what the directory scans and file
 * reads return comes in as parameters.
 */
module Navigator {
  import opened Wrappers
  import opened Text
  import opened Srt
  import opened Linking
  import opened Seqs
  import opened Search

  /** What the status line says. */
  datatype Status =
    | Mapping                                   // line 82
    | Mapped(count: nat)                        // line 118
    | EnterKeyword                              // line 127
    | SelectShow                                // line 131
    | Searching(keyword: string, show: string)  // line 143
    | NoSubtitleFolder(show: string)            // line 147
    | Found(count: nat, show: string)           // line 208

  class Navigator {
    /** subtitle_to_video_map */
    var subtitleToVideo: map<string, string>
    /** search_results */
    var searchResults: seq<SearchResult>
    /** The per-file batches shown in the results area, in the order shown. */
    var shown: seq<FileBatch>
    var status: Status

    /** __init__ (lines 11-71): start with an empty map, map the subtitles of
        every show, then start with no results. */
    constructor (shows: seq<ShowFiles>)
      ensures subtitleToVideo == LinkShows(map[], shows)
      ensures status == Mapped(|subtitleToVideo|)
      ensures searchResults == [] && shown == []
    {
      subtitleToVideo := map[];
      searchResults := [];
      shown := [];
      status := Mapping;
      new;
      MapSubtitlesToVideos(shows);
    }

    /** map_subtitles_to_videos (lines 80-118): for every show, every subtitle
        file is linked to the first video whose name passes the test of line
        114; a subtitle with no such video is left as it was. */
    method MapSubtitlesToVideos(shows: seq<ShowFiles>)
      modifies this
      ensures subtitleToVideo == LinkShows(old(subtitleToVideo), shows)
      ensures status == Mapped(|subtitleToVideo|)
      ensures searchResults == old(searchResults) && shown == old(shown)
    {
      status := Mapping;
      var i := 0;
      while i < |shows|
        invariant 0 <= i <= |shows|
        invariant subtitleToVideo == LinkShows(old(subtitleToVideo), shows[..i])
        invariant searchResults == old(searchResults) && shown == old(shown)
      {
        LinkShowsPrefix(old(subtitleToVideo), shows, i);
        MapShow(shows[i].subtitleFiles, shows[i].videoFiles);
        i := i + 1;
      }
      assert shows[..i] == shows;
      status := Mapped(|subtitleToVideo|);
    }

    /** The loop of lines 100-116 for one show: its subtitle files in turn. */
    method MapShow(subtitleFiles: seq<string>, videoFiles: seq<string>)
      modifies this
      ensures subtitleToVideo == LinkAll(old(subtitleToVideo), subtitleFiles, videoFiles)
      ensures searchResults == old(searchResults) && shown == old(shown) && status == old(status)
    {
      var j := 0;
      while j < |subtitleFiles|
        invariant 0 <= j <= |subtitleFiles|
        invariant subtitleToVideo == LinkAll(old(subtitleToVideo), subtitleFiles[..j], videoFiles)
        invariant searchResults == old(searchResults) && shown == old(shown) && status == old(status)
      {
        LinkAllStep(old(subtitleToVideo), subtitleFiles, videoFiles, j);
        MapSubtitle(subtitleFiles[j], videoFiles);
        j := j + 1;
      }
      assert subtitleFiles[..j] == subtitleFiles;
    }

    /** Lines 101-116 for one subtitle file: the video that the inner loop
        finds is recorded for it; when none is found, the map is left as it
        was. */
    method MapSubtitle(subtitleFile: string, videoFiles: seq<string>)
      modifies this
      ensures subtitleToVideo == match LinkedVideo(subtitleFile, videoFiles)
                                 case None => old(subtitleToVideo)
                                 case Some(v) => old(subtitleToVideo)[subtitleFile := v]
      ensures searchResults == old(searchResults) && shown == old(shown) && status == old(status)
    {
      var found := FindVideo(subtitleFile, videoFiles);
      if found.Some? {
        subtitleToVideo := subtitleToVideo[subtitleFile := found.value];
      }
    }

    /** The inner loop of lines 110-116: the subtitle's names are computed
        once (lines 101-107), then the videos are tried in order with the
        test of lines 111-114, and the first that passes is the one found. */
    static method FindVideo(subtitleFile: string, videoFiles: seq<string>) returns (found: Option<string>)
      ensures found == LinkedVideo(subtitleFile, videoFiles)
    {
      var subtitleBasename := Basename(subtitleFile);
      var subtitleName := SubtitleStem(subtitleFile);
      var test := (videoFile: string) =>
        var videoName := VideoStem(videoFile);
        subtitleName == videoName || IsPrefix(videoName, subtitleBasename);
      forall videoFile: string
        ensures test(videoFile) == LinksTo(subtitleFile)(videoFile)
      {
      }
      FirstWhereSame(videoFiles, test, LinksTo(subtitleFile));
      var k := FindFirst(videoFiles, test);
      if k.Some? {
        return Some(videoFiles[k.value]);
      }
      return None;
    }

    /** search_subtitles (lines 120-139): a keyword that is empty once trimmed,
        or no show selected, only sets the status; otherwise the results and
        the results area are cleared and the search runs. */
    method SearchSubtitles(searchInput: string, selectedShow: string, folder: Option<seq<SubtitleFile>>)
      modifies this
      ensures subtitleToVideo == old(subtitleToVideo)
      ensures Strip(searchInput) == [] ==>
                status == EnterKeyword && searchResults == old(searchResults) && shown == old(shown)
      ensures Strip(searchInput) != [] && selectedShow == [] ==>
                status == SelectShow && searchResults == old(searchResults) && shown == old(shown)
      ensures Strip(searchInput) != [] && selectedShow != [] && folder.None? ==>
                status == NoSubtitleFolder(selectedShow) && searchResults == [] && shown == []
      ensures Strip(searchInput) != [] && selectedShow != [] && folder.Some? ==>
                searchResults == SearchAll(Strip(searchInput), folder.value)
                && shown == Batches(Strip(searchInput), SortByPath(folder.value))
                && status == Found(|searchResults|, selectedShow)
    {
      var keyword := Strip(searchInput);
      if keyword == [] {
        status := EnterKeyword;
        return;
      }
      if selectedShow == [] {
        status := SelectShow;
        return;
      }
      shown := [];
      searchResults := [];
      SearchThread(keyword, selectedShow, folder);
    }

    /** _search_thread (lines 141-208): folder is what the Subtitles folder of
        the show holds, None when it does not exist. Every file, in sorted
        path order, has its blocks read; the record of every block whose
        cleaned text contains the keyword is appended to the file's list and
        to the search results, and the count goes up by one. */
    method SearchThread(keyword: string, selectedShow: string, folder: Option<seq<SubtitleFile>>)
      modifies this
      ensures subtitleToVideo == old(subtitleToVideo)
      ensures folder.None? ==>
                status == NoSubtitleFolder(selectedShow)
                && searchResults == old(searchResults) && shown == old(shown)
      ensures folder.Some? ==>
                searchResults == old(searchResults) + SearchAll(keyword, folder.value)
                && shown == old(shown) + Batches(keyword, SortByPath(folder.value))
                && status == Found(|SearchAll(keyword, folder.value)|, selectedShow)
    {
      status := Searching(keyword, selectedShow);
      if folder.None? {
        status := NoSubtitleFolder(selectedShow);
        return;
      }
      var files := SortByPath(folder.value);
      var total := SearchFilesInOrder(keyword, files);
      status := Found(total, selectedShow);
    }

    /** The loop of lines 158-205 over the files, in the order given: each
        file's records are appended to the search results, and a file with
        records has its batch shown. The count returned is that of all the
        records found. */
    method SearchFilesInOrder(keyword: string, files: seq<SubtitleFile>) returns (total: nat)
      modifies this
      ensures searchResults == old(searchResults) + SearchFiles(keyword, files)
      ensures shown == old(shown) + Batches(keyword, files)
      ensures total == |SearchFiles(keyword, files)|
      ensures subtitleToVideo == old(subtitleToVideo) && status == old(status)
    {
      total := 0;
      var i := 0;
      while i < |files|
        invariant 0 <= i <= |files|
        invariant searchResults == old(searchResults) + SearchFiles(keyword, files[..i])
        invariant shown == old(shown) + Batches(keyword, files[..i])
        invariant total == |SearchFiles(keyword, files[..i])|
        invariant subtitleToVideo == old(subtitleToVideo) && status == old(status)
      {
        ghost var found := SearchFiles(keyword, files[..i]);
        ghost var batches := Batches(keyword, files[..i]);
        var fileResults;
        fileResults, total := SearchFile(keyword, files[i], total);
        SearchFilesStep(keyword, files, i);
        BatchesStep(keyword, files, i);
        AppendAssoc(old(searchResults), found, FileEntries(keyword, files[i]));
        AppendAssoc(old(shown), batches, if HasEntries(keyword, files[i]) then [BatchOf(keyword, files[i])] else []);
        i := i + 1;
      }
      assert files[..i] == files;
    }

    /** One file of the loop of lines 158-205: its content is read (line 165)
        and split into blocks by the pattern of line 166, the blocks are
        searched, and when the file has records its batch is shown (lines
        202-205). */
    method SearchFile(keyword: string, file: SubtitleFile, total0: nat)
      returns (fileResults: seq<SearchResult>, total: nat)
      modifies this
      ensures fileResults == FileEntries(keyword, file)
      ensures searchResults == old(searchResults) + fileResults
      ensures shown == old(shown) + if HasEntries(keyword, file) then [BatchOf(keyword, file)] else []
      ensures total == total0 + |fileResults|
      ensures subtitleToVideo == old(subtitleToVideo) && status == old(status)
    {
      var blocks := Blocks(file.content);
      fileResults, total := SearchBlocks(keyword, file.path, blocks, total0);
      if fileResults != [] {
        shown := shown + [FileBatch(file.path, fileResults)];
      }
    }

    /** The loop of lines 169-195 over the blocks of one file, in the order
        the pattern finds them: the record of each block whose cleaned text
        contains the keyword goes to the file's list and to the search
        results, and the running count goes up by one. */
    method SearchBlocks(keyword: string, path: string, blocks: seq<Block>, total0: nat)
      returns (fileResults: seq<SearchResult>, total: nat)
      modifies this
      ensures fileResults == Entries(keyword, path, blocks)
      ensures searchResults == old(searchResults) + fileResults
      ensures total == total0 + |fileResults|
      ensures subtitleToVideo == old(subtitleToVideo) && shown == old(shown) && status == old(status)
    {
      fileResults := [];
      total := total0;
      var j := 0;
      while j < |blocks|
        invariant 0 <= j <= |blocks|
        invariant fileResults == Entries(keyword, path, blocks[..j])
        invariant searchResults == old(searchResults) + fileResults
        invariant total == total0 + |fileResults|
        invariant subtitleToVideo == old(subtitleToVideo) && shown == old(shown) && status == old(status)
      {
        var found := SearchBlock(keyword, path, blocks[j]);
        EntriesStep(keyword, path, blocks, j);
        if found.Some? {
          AppendAssoc(old(searchResults), fileResults, [found.value]);
          fileResults := fileResults + [found.value];
          searchResults := searchResults + [found.value];
          total := total + 1;
        }
        j := j + 1;
      }
      assert blocks[..j] == blocks;
    }

    /** The body of the loop of lines 169-195 for one block: the text is
        trimmed (line 173), its tags are removed (line 176), and when the
        keyword test of line 178 passes, the record of lines 180-193 is made. */
    static method SearchBlock(keyword: string, path: string, block: Block) returns (found: Option<SearchResult>)
      ensures found == if Keeps(keyword, block) then Some(EntryOf(path, block)) else None
    {
      var text := Strip(block.lines);
      var cleanText := StripTags(text);
      if KeywordMatches(keyword, cleanText) {
        var mpcTimeFormat := MpcStartTime(block.start);
        return Some(SearchResult(path, block.num, block.start, block.end, text, mpcTimeFormat));
      }
      return None;
    }
  }
}
