/**
 * What one search records (_search_thread in rapid_moment_navigator.py):
 * every subtitle file of the show, in sorted path order; in each, every
 * block of the file, in the order re.finditer finds them; of those, the ones
 * whose text, trimmed and with its tags removed, contains the keyword, case
 * aside. The functions here are the specification that
 * Navigator.SearchThread is proved against.
 */
module Search {
  import opened Text
  import opened Srt
  import opened Seqs

  /** A subtitle file of the show's Subtitles folder and the content read from it. */
  datatype SubtitleFile = SubtitleFile(path: string, content: string)

  /** The result record of lines 186-193. */
  datatype SearchResult = SearchResult(
    file: string, num: string, startTime: string, endTime: string,
    text: string, mpcStartTime: string)

  /** The results of one file, as handed to the results view (line 205). */
  datatype FileBatch = FileBatch(file: string, results: seq<SearchResult>)

  /** `keyword.lower() in clean_text.lower()` (line 178). */
  predicate KeywordMatches(keyword: string, cleanText: string) {
    Contains(Lower(cleanText), Lower(keyword))
  }

  /** keyword sits at offset i of cleanText, letters compared without case. */
  predicate CaseBlindAt(cleanText: string, keyword: string, i: int) {
    0 <= i && i + |keyword| <= |cleanText|
    && forall j :: 0 <= j < |keyword| ==> LowerChar(cleanText[i + j]) == LowerChar(keyword[j])
  }

  /** The keyword test is a case-blind occurrence of the keyword in the text. */
  lemma KeywordMatchesIff(keyword: string, cleanText: string)
    ensures KeywordMatches(keyword, cleanText) <==> exists i :: CaseBlindAt(cleanText, keyword, i)
  {
    var hay, needle := Lower(cleanText), Lower(keyword);
    ContainsIff(hay, needle);
    if KeywordMatches(keyword, cleanText) {
      var i :| OccursAt(hay, needle, i);
      forall j | 0 <= j < |keyword|
        ensures LowerChar(cleanText[i + j]) == LowerChar(keyword[j])
      {
        assert hay[i..i + |needle|][j] == needle[j];
      }
      assert CaseBlindAt(cleanText, keyword, i);
    }
    if exists i :: CaseBlindAt(cleanText, keyword, i) {
      var i :| CaseBlindAt(cleanText, keyword, i);
      forall j | 0 <= j < |needle|
        ensures hay[i..i + |needle|][j] == needle[j]
      {
        assert LowerChar(cleanText[i + j]) == LowerChar(keyword[j]);
      }
      assert OccursAt(hay, needle, i);
    }
  }

  /** mpc_start_time of lines 180-183: ',' turned into '.', then the part
      before the first '.'. */
  function MpcStartTime(startTime: string): string {
    BeforeFirst(ReplaceChar(startTime, ',', '.'), '.')
  }

  /** The player's start time is the part of the start time before its first
      ',' or '.'. */
  lemma MpcStartTimeCut(startTime: string)
    ensures IsPrefix(MpcStartTime(startTime), startTime)
    ensures forall i :: 0 <= i < |MpcStartTime(startTime)| ==> MpcStartTime(startTime)[i] != ',' && MpcStartTime(startTime)[i] != '.'
    ensures var r := MpcStartTime(startTime);
            |r| < |startTime| ==> startTime[|r|] == ',' || startTime[|r|] == '.'
  {
    var replaced := ReplaceChar(startTime, ',', '.');
    var r := MpcStartTime(startTime);
    forall i | 0 <= i < |r|
      ensures r[i] == startTime[i] && r[i] != ',' && r[i] != '.'
    {
      assert r[i] == replaced[i];
    }
    assert startTime[..|r|] == r;
  }

  /** For a start time HH:MM:SS,mmm that is HH:MM:SS. */
  lemma MpcStartTimeOfTimecode(t: string)
    requires IsTimecode(t)
    ensures MpcStartTime(t) == t[..8]
  {
    var r := MpcStartTime(t);
    MpcStartTimeCut(t);
    assert forall i :: 0 <= i < |r| ==> t[i] != ',' && t[i] != '.';
    assert forall i :: 0 <= i < 8 ==> t[i] != ',' && t[i] != '.';
    assert t[8] == ',';
  }

  /** Whether the entry of block b is recorded: its text, trimmed (line 173)
      and without tags (line 176), passes the keyword test (line 178). */
  predicate Keeps(keyword: string, b: Block) {
    KeywordMatches(keyword, StripTags(Strip(b.lines)))
  }

  /** The record made for block b of the file at path. */
  function EntryOf(path: string, b: Block): SearchResult {
    SearchResult(path, b.num, b.start, b.end, Strip(b.lines), MpcStartTime(b.start))
  }

  /** file_results after the blocks bs (lines 158-195). */
  function Entries(keyword: string, path: string, bs: seq<Block>): seq<SearchResult> {
    FilterMap(bs, b => Keeps(keyword, b), b => EntryOf(path, b))
  }

  /** One more block: its record is appended when it passes the test. */
  lemma EntriesStep(keyword: string, path: string, bs: seq<Block>, j: nat)
    requires j < |bs|
    ensures Entries(keyword, path, bs[..j + 1])
         == Entries(keyword, path, bs[..j]) + if Keeps(keyword, bs[j]) then [EntryOf(path, bs[j])] else []
  {
    assert bs[..j + 1][..j] == bs[..j];
  }

  /** A record is made for a block iff the block passes the keyword test. */
  lemma EntriesIff(keyword: string, path: string, bs: seq<Block>, r: SearchResult)
    ensures r in Entries(keyword, path, bs) <==>
            exists k :: 0 <= k < |bs| && Keeps(keyword, bs[k]) && r == EntryOf(path, bs[k])
  {
    FilterMapIff(bs, b => Keeps(keyword, b), b => EntryOf(path, b), r);
  }

  /** The records of one file: its blocks, read with the pattern of line 166. */
  function FileEntries(keyword: string, f: SubtitleFile): seq<SearchResult> {
    Entries(keyword, f.path, Blocks(f.content))
  }

  /** Every record of a file names the file and holds what the pattern
      guarantees of a block: an all-digit index, two HH:MM:SS,mmm times, the
      trimmed text of one or more non-empty lines that passes the keyword
      test, and HH:MM:SS for the player. */
  lemma FileEntryShape(keyword: string, f: SubtitleFile, r: SearchResult)
    requires r in FileEntries(keyword, f)
    ensures r.file == f.path && IsIndex(r.num) && IsTimecode(r.startTime) && IsTimecode(r.endTime)
    ensures r.mpcStartTime == r.startTime[..8]
    ensures KeywordMatches(keyword, StripTags(r.text))
    ensures exists lines :: IsLines(lines) && r.text == Strip(lines)
  {
    var bs := Blocks(f.content);
    EntriesIff(keyword, f.path, bs, r);
    var k :| 0 <= k < |bs| && Keeps(keyword, bs[k]) && r == EntryOf(f.path, bs[k]);
    BlocksWellFormed(f.content);
    MpcStartTimeOfTimecode(bs[k].start);
  }

  /** search_results after visiting files in order (lines 158-195). */
  function SearchFiles(keyword: string, files: seq<SubtitleFile>): seq<SearchResult> {
    FlatMap(files, f => FileEntries(keyword, f))
  }

  /** One more file: its records follow those found so far. */
  lemma SearchFilesStep(keyword: string, files: seq<SubtitleFile>, i: nat)
    requires i < |files|
    ensures SearchFiles(keyword, files[..i + 1]) == SearchFiles(keyword, files[..i]) + FileEntries(keyword, files[i])
  {
    assert files[..i + 1][..i] == files[..i];
  }

  /** A record is found iff some file of the run holds it. */
  lemma SearchFilesIff(keyword: string, files: seq<SubtitleFile>, r: SearchResult)
    ensures r in SearchFiles(keyword, files) <==>
            exists i :: 0 <= i < |files| && r in FileEntries(keyword, files[i])
  {
    FlatMapIff(files, f => FileEntries(keyword, f), r);
  }

  /** Whether a file has records, so that its batch is shown (line 203). */
  predicate HasEntries(keyword: string, f: SubtitleFile) {
    FileEntries(keyword, f) != []
  }

  /** The batch of a file: its path and its records. */
  function BatchOf(keyword: string, f: SubtitleFile): FileBatch {
    FileBatch(f.path, FileEntries(keyword, f))
  }

  /** The batches handed to the results view: one per file with records, in order. */
  function Batches(keyword: string, files: seq<SubtitleFile>): seq<FileBatch> {
    FilterMap(files, f => HasEntries(keyword, f), f => BatchOf(keyword, f))
  }

  /** One more file: a batch is added when it has records. */
  lemma BatchesStep(keyword: string, files: seq<SubtitleFile>, i: nat)
    requires i < |files|
    ensures Batches(keyword, files[..i + 1])
         == Batches(keyword, files[..i])
            + if HasEntries(keyword, files[i]) then [BatchOf(keyword, files[i])] else []
  {
    assert files[..i + 1][..i] == files[..i];
  }

  /** No batch shown is empty, and each is the batch of one of the files. */
  lemma BatchesShape(keyword: string, files: seq<SubtitleFile>, b: FileBatch)
    requires b in Batches(keyword, files)
    ensures b.results != []
    ensures exists k :: 0 <= k < |files| && b == FileBatch(files[k].path, FileEntries(keyword, files[k]))
  {
    FilterMapIff(files, f => HasEntries(keyword, f), f => BatchOf(keyword, f), b);
  }

  function Flatten(batches: seq<FileBatch>): seq<SearchResult>
    decreases |batches|
  {
    if batches == [] then [] else Flatten(batches[..|batches| - 1]) + batches[|batches| - 1].results
  }

  /** The batches shown hold every record, in order, and nothing else. */
  lemma {:induction false} FlattenBatches(keyword: string, files: seq<SubtitleFile>)
    ensures Flatten(Batches(keyword, files)) == SearchFiles(keyword, files)
    decreases |files|
  {
    if files != [] {
      var n := |files| - 1;
      FlattenBatches(keyword, files[..n]);
      var done := Batches(keyword, files[..n]);
      if HasEntries(keyword, files[n]) {
        assert (done + [BatchOf(keyword, files[n])])[..|done|] == done;
      }
    }
  }

  /** Paths in the order sorted() puts them: by code points, shortest first on a tie. */
  predicate SortedByPath(files: seq<SubtitleFile>) {
    forall i, j :: 0 <= i < j < |files| ==> LexLe(files[i].path, files[j].path)
  }

  /** f placed after every file whose path sorts before or with its own. */
  function InsertByPath(f: SubtitleFile, files: seq<SubtitleFile>): (r: seq<SubtitleFile>)
    ensures |r| == |files| + 1
    decreases |files|
  {
    if files == [] then [f]
    else if LexLe(files[0].path, f.path) then [files[0]] + InsertByPath(f, files[1..])
    else [f] + files
  }

  /** Inserting adds f and loses nothing. */
  lemma {:induction false} InsertByPathPerm(f: SubtitleFile, files: seq<SubtitleFile>)
    ensures multiset(InsertByPath(f, files)) == multiset(files) + multiset{f}
    decreases |files|
  {
    if files != [] && LexLe(files[0].path, f.path) {
      InsertByPathPerm(f, files[1..]);
      assert files == [files[0]] + files[1..];
    }
  }

  /** Inserting into a sorted list keeps it sorted. */
  lemma {:induction false} InsertByPathSorted(f: SubtitleFile, files: seq<SubtitleFile>)
    requires SortedByPath(files)
    ensures SortedByPath(InsertByPath(f, files))
    decreases |files|
  {
    if files == [] {
    } else if LexLe(files[0].path, f.path) {
      var rest := InsertByPath(f, files[1..]);
      InsertByPathSorted(f, files[1..]);
      InsertByPathPerm(f, files[1..]);
      forall x | x in rest
        ensures LexLe(files[0].path, x.path)
      {
        assert x in multiset(rest);
        if x != f {
          assert x in files[1..];
          var i :| 0 <= i < |files[1..]| && files[1..][i] == x;
          assert files[i + 1] == x;
        }
      }
      assert forall j :: 0 < j < |rest| + 1 ==> ([files[0]] + rest)[j] == rest[j - 1];
    } else {
      LexLeTotal(files[0].path, f.path);
      forall j | 0 < j < |files|
        ensures LexLe(f.path, files[j].path)
      {
        LexLeTransitive(f.path, files[0].path, files[j].path);
      }
      assert forall j :: 0 < j < |files| + 1 ==> ([f] + files)[j] == files[j - 1];
    }
  }

  /** sorted(subtitle_files) of line 158, as a stable insertion sort. */
  function SortByPath(files: seq<SubtitleFile>): (r: seq<SubtitleFile>)
    ensures |r| == |files|
    decreases |files|
  {
    if files == [] then []
    else
      var n := |files| - 1;
      InsertByPath(files[n], SortByPath(files[..n]))
  }

  /** The sort's result is in path order and holds exactly the files it was given. */
  lemma {:induction false} SortByPathSorts(files: seq<SubtitleFile>)
    ensures SortedByPath(SortByPath(files))
    ensures multiset(SortByPath(files)) == multiset(files)
    decreases |files|
  {
    if files != [] {
      var n := |files| - 1;
      SortByPathSorts(files[..n]);
      InsertByPathSorted(files[n], SortByPath(files[..n]));
      InsertByPathPerm(files[n], SortByPath(files[..n]));
      assert files == files[..n] + [files[n]];
    }
  }

  /** Everything one search records: the files in sorted order, each with its records. */
  function SearchAll(keyword: string, files: seq<SubtitleFile>): seq<SearchResult> {
    SearchFiles(keyword, SortByPath(files))
  }
}
