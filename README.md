# Rapid Moment Navigator, modelled in Dafny

Rapid Moment Navigator is a small desktop tool (`rapid_moment_navigator.py`).
It links every subtitle file of a show to a video file by file name. It then
finds the subtitle blocks whose text contains a keyword and records each such
block, with the start time a media player is sent to.

This project models the logic that tool runs on strings and lists, and
proves what that logic guarantees.

- `wrappers.dfy` — `Option`.
- `text.dfy` (module `Text`) — the Python string built-ins the program
  uses. It covers the `\d` and `\s` classes, `str.strip()`, `str.lower()`,
  `in` on strings, `startswith`, one-character `replace`, `split(sep)[0]`,
  and the string order that `sorted()` uses.
- `seqs.dfy` (module `Seqs`) — the shapes of the program's loops, written as
  recursive functions:
  - stop at the first element that passes a test (`FirstWhere`, and the
    loop with `break` that computes it, `FindFirst`);
  - append a value for each element that passes (`FilterMap`);
  - append whole lists in turn (`FlatMap`);
  - write a key into a dictionary when a value is found for it (`Record`).
- `linking.dfy` (module `Linking`) — the file-name test of
  `map_subtitles_to_videos`, as a specification. It defines the subtitle
  name and video name (`os.path.basename`, `os.path.splitext`, the trailing
  `.mp4`) and the test of line 114. It also defines the map after one
  subtitle, one show and all shows.
- `srt.dfy` (module `Srt`):
  - The pattern of line 166 as an explicit grammar over the file's content.
    Its head and lazy text group are `HeadAt`, `TextEnd` and `MatchAt`.
  - `re.finditer` as a left-to-right scan (`FindAll`), and the four groups
    of a match (`BlockOf`).
  - The tag removal `re.sub(r'<[^>]+>', '', text)` of line 176
    (`StripTags`).
  - A writer for subtitle blocks (`Serialize`), used to state that reading
    back what was written gives the same blocks.
- `search.dfy` (module `Search`) — the specification of a search:
  - The keyword test of line 178 and the player time of lines 180-183.
  - The record made for a block, the records of one file, and the records
    of all files.
  - The per-file batches handed to the results view.
  - `sorted()` over the file paths, as a stable insertion sort.
- `navigator.dfy` (module `Navigator`) — the class `Navigator`. Its fields
  are the subtitle-to-video map, the search results, the batches shown and
  the status line. Its methods are the program's loops, proved against the
  specifications above:
  - `__init__`;
  - `map_subtitles_to_videos` with its nested loops; the inner loop, which
    breaks at the first video that passes the test, is `Seqs.FindFirst`;
  - the guards of `search_subtitles`;
  - the file and block loops of `_search_thread`.

The file scans and file reads come in as parameters:
- a `ShowFiles` per show;
- a `SubtitleFile(path, content)` per subtitle file;
- `None` for a show without a Subtitles folder.

## Model

| member | source | states |
|---|---|---|
| Text.RunFrom | rapid_moment_navigator.py:166 | a greedy repetition of one character class covers exactly the class's characters from i on, up to the first character outside the class |
| Text.RunBack | rapid_moment_navigator.py:173 | the characters of a class that end a string are exactly those after the last character outside the class |
| Text.StripTrims | rapid_moment_navigator.py:122 | `strip()` leaves a piece of the string with only white space around it; the result is empty exactly when the string is all white space, and otherwise starts and ends with other characters |
| Text.Lower | rapid_moment_navigator.py:178 | after `lower()` no upper-case letter is left, and every character that is not one stays where it was |
| Text.LowerIdempotent | rapid_moment_navigator.py:178 | lowering text that is already lowered changes nothing |
| Text.ContainsIff | rapid_moment_navigator.py:178 | `needle in hay` holds exactly when needle occurs at some offset of hay |
| Text.PrefixOfPrefix | rapid_moment_navigator.py:103-107 | a prefix of a prefix of a string is a prefix of it |
| Text.ReplaceChar | rapid_moment_navigator.py:180 | `replace(',', '.')` keeps the length, leaves no comma, and returns a string without commas unchanged |
| Text.BeforeFirst | rapid_moment_navigator.py:183 | `split('.')[0]` is a prefix without the separator, followed by the separator or by nothing |
| Text.LexLeTotal | rapid_moment_navigator.py:158 | any two strings are ordered one way or the other by `sorted()`'s string order |
| Text.LexLeTransitive | rapid_moment_navigator.py:158 | `sorted()`'s string order is transitive |
| Seqs.FirstWhere | rapid_moment_navigator.py:110-116 | the position found passes the test and no earlier one does; no position is found only when none passes |
| Seqs.FirstWhereAt | rapid_moment_navigator.py:110-116 | a loop that breaks at the first element passing the test stops where FirstWhere says |
| Seqs.FirstWhereNone | rapid_moment_navigator.py:110-116 | a loop that never breaks runs to the end exactly when FirstWhere finds nothing |
| Seqs.FirstWhereSame | rapid_moment_navigator.py:110-116 | two tests that agree on every element stop at the same element |
| Seqs.FindFirst | rapid_moment_navigator.py:110-116 | the loop that tries the elements in order and breaks at the first that passes returns FirstWhere's position |
| Seqs.FilterMapIff | rapid_moment_navigator.py:169-196 | a value is appended exactly when it is made from an element that passes the test |
| Seqs.FilterMapAppend | rapid_moment_navigator.py:169-196 | what two runs of the loop append is what the first appends followed by what the second appends |
| Seqs.FlatMapAppend | rapid_moment_navigator.py:158-196 | appending lists for two runs of files is appending the first run's lists, then the second's |
| Seqs.FlatMapIff | rapid_moment_navigator.py:158-196 | a value is in the combined list exactly when one file's list holds it |
| Seqs.RecordStep | rapid_moment_navigator.py:100-116 | one more key writes its value, if one is found, into the map built so far |
| Seqs.RecordAt | rapid_moment_navigator.py:100-116 | a visited key with a value found ends with that value; every other key keeps what the map said, present or absent |
| Linking.Basename | rapid_moment_navigator.py:101 | `basename` is a suffix of the path with no separator in it, preceded by a separator when it is not the whole path |
| Linking.LastDot | rapid_moment_navigator.py:103 | the last '.' of a name: no '.' follows it, and there is none when the name has no '.' |
| Linking.LeadingDots | rapid_moment_navigator.py:103 | the run of dots that begins a name, which `splitext` skips |
| Linking.RootDropsLastExtension | rapid_moment_navigator.py:103 | `splitext(name)[0]` is a prefix of the name; it drops only the last '.' and what follows, and it drops them exactly when a non-dot comes before that '.' |
| Linking.RootDropsExtension | rapid_moment_navigator.py:103 | a name that starts with a non-dot loses exactly its last extension |
| Linking.DropMp4 | rapid_moment_navigator.py:106-107 | removing a trailing ".mp4" leaves a prefix of the name |
| Linking.SubtitleStem | rapid_moment_navigator.py:101-107 | the subtitle name is a prefix of the subtitle's base name |
| Linking.VideoStem | rapid_moment_navigator.py:111-112 | the video name is a prefix of the video's base name |
| Linking.StemOfCompanionSubtitle | rapid_moment_navigator.py:101-107 | the subtitle "dir/X.mp4.ext" has the subtitle name X |
| Linking.StemOfPlainSubtitle | rapid_moment_navigator.py:101-107 | the subtitle "dir/X.ext" has the subtitle name X when X has no dot |
| Linking.StemOfVideo | rapid_moment_navigator.py:111-112 | the video "dir/X.mp4" has the video name X |
| Linking.BasenameAfterSep | rapid_moment_navigator.py:101 | the base name of "dir/name" is name when name has no separator |
| Linking.LinksIffPrefix | rapid_moment_navigator.py:103-114 | the test of line 114 holds exactly when the video name is a prefix of the subtitle's base name |
| Linking.FirstLinkIsFirst | rapid_moment_navigator.py:110-116 | the video found passes the test and no earlier video does; none is found only when no video passes |
| Linking.LinkAllStep | rapid_moment_navigator.py:100-116 | one more subtitle of a show is written into the map when it finds a video, and the map is unchanged otherwise |
| Linking.LinkShowsPrefix | rapid_moment_navigator.py:84-116 | one more show links its subtitles into the map built from the shows before it |
| Linking.LinkAllAt | rapid_moment_navigator.py:100-116 | after one show, each of its subtitles that found a video maps to that video; every other key keeps what it had, present or absent |
| Linking.LinkShowsStep | rapid_moment_navigator.py:84-116 | after the last show, a key maps to its video there, or keeps what the earlier shows left |
| Linking.LinkShowsAt | rapid_moment_navigator.py:84-116 | after all shows, a key is mapped exactly when it was before or some show lists it as a subtitle that found a video; its value is the old one or a video found for it |
| Linking.FreshMapKeys | rapid_moment_navigator.py:84-116 | from an empty map, the keys are exactly the scanned subtitles that found a video, each mapped to a video of its show |
| Srt.TextEnd | rapid_moment_navigator.py:166 | the lazy text group ends after one or more non-empty lines, at a newline or at the end of the content |
| Srt.TextEndOfLines | rapid_moment_navigator.py:166 | the lazy text group stops at the blank line after its lines, or at the end of the content when its lines run up to there |
| Srt.TextEndIff | rapid_moment_navigator.py:166 | the text group ends at e exactly when one or more non-empty lines run up to e and a newline or the end of the content follows |
| Srt.HeadAt | rapid_moment_navigator.py:166 | the positions of the index's end, the `-->` and the end time lie in order within the content |
| Srt.HeadAtMatched | rapid_moment_navigator.py:166 | where the head matches, the index is digits followed by a newline, the two timecodes have the form `DD:DD:DD,DDD`, white space, `-->` and white space lie between them, and a newline follows the second |
| Srt.HeadAtOfMatched | rapid_moment_navigator.py:166 | wherever all that the head asks holds, the head matches with exactly those positions |
| Srt.HeadAtOfRuns | rapid_moment_navigator.py:166 | the head matches once its three greedy runs, its literals and its timecodes are known |
| Srt.MatchAt | rapid_moment_navigator.py:166 | a match found at i starts at i, lies within the content, and ends at or after its text |
| Srt.MatchAtMatched | rapid_moment_navigator.py:166 | every match found satisfies everything the pattern asks of its four groups, the arrow between the times and its end |
| Srt.MatchAtOfMatched | rapid_moment_navigator.py:166 | every span that satisfies all the pattern asks is the match found at its start |
| Srt.MatchAtIff | rapid_moment_navigator.py:166 | the pattern tried at i matches a span exactly when the span starts at i and satisfies all the pattern asks |
| Srt.MatchAtOf | rapid_moment_navigator.py:166 | the match is the head followed by the text group, plus the newline after it when there is one |
| Srt.MatchAtIsMatcher | rapid_moment_navigator.py:166-167 | the pattern, tried at any position, finds nothing or a non-empty match that starts there |
| Srt.FindAll | rapid_moment_navigator.py:167 | `finditer`'s matches are matches of the pattern at their own starts, lie in order and do not overlap |
| Srt.FindAllIsChain | rapid_moment_navigator.py:167 | no match is skipped: the pattern finds nothing before the first match yielded, between one and the next, or after the last |
| Srt.FindAllSkip | rapid_moment_navigator.py:167 | positions where the pattern finds nothing do not change what the scan yields |
| Srt.FindAllChain | rapid_moment_navigator.py:167 | the scan yields a list of matches exactly when the pattern finds each at its start and nothing before, between or after them |
| Srt.MatchesFrom | rapid_moment_navigator.py:167 | every match `finditer` yields lies within the content |
| Srt.MatchesFromMatched | rapid_moment_navigator.py:166-167 | every match `finditer` yields is one the pattern accepts, arrow included |
| Srt.BlockOfWellFormed | rapid_moment_navigator.py:166-172 | the groups of an accepted match are an all-digit index, two `DD:DD:DD,DDD` times and one or more non-empty lines |
| Srt.BlocksOf | rapid_moment_navigator.py:169-172 | one block per match |
| Srt.BlocksOfAt | rapid_moment_navigator.py:169-172 | the k-th block holds the groups of the k-th match |
| Srt.BlocksWellFormed | rapid_moment_navigator.py:166-172 | every block read from any content is well formed |
| Srt.MatchRendered | rapid_moment_navigator.py:166 | a well-formed block written at p is matched whole at p, whatever follows it |
| Srt.RenderedBlock | rapid_moment_navigator.py:166-172 | the match of a written block holds that block and ends where the next one begins |
| Srt.BlocksOfRendered | rapid_moment_navigator.py:166-172 | the matches of blocks written one after another hold those blocks, in order |
| Srt.FindAllSerialize | rapid_moment_navigator.py:166-172 | reading back well-formed blocks written out gives the same blocks |
| Srt.ReparseIsStable | rapid_moment_navigator.py:166-172 | the blocks read from any content, written out and read again, are the same blocks |
| Srt.TagLength | rapid_moment_navigator.py:176 | a tag found at the start of a string is '<', one or more characters other than '>', then '>'; none is found exactly when no such tag starts there |
| Srt.StripTags | rapid_moment_navigator.py:176 | tag removal never makes text longer |
| Srt.StripTagsOnlyDrops | rapid_moment_navigator.py:176 | tag removal only drops characters: the result holds no character more often than the text |
| Srt.StripTagsLeavesNoTag | rapid_moment_navigator.py:176 | no tag is left after tag removal |
| Srt.StripTagsKeepsTagFree | rapid_moment_navigator.py:176 | text without tags comes back unchanged |
| Srt.StripTagsWithoutOpen | rapid_moment_navigator.py:176 | text without '<' comes back unchanged |
| Srt.StripTagsIdempotent | rapid_moment_navigator.py:176 | removing tags a second time removes nothing more |
| Search.KeywordMatchesIff | rapid_moment_navigator.py:178 | the keyword test holds exactly when the keyword occurs in the cleaned text with letters compared regardless of case |
| Search.MpcStartTimeCut | rapid_moment_navigator.py:180-183 | the player time is the prefix of the start time before its first ',' or '.', and holds neither character |
| Search.MpcStartTimeOfTimecode | rapid_moment_navigator.py:180-183 | for a start time `HH:MM:SS,mmm` the player time is `HH:MM:SS`, its first 8 characters |
| Search.EntriesStep | rapid_moment_navigator.py:169-196 | one more block appends its record to the file's list exactly when it passes the keyword test |
| Search.EntriesIff | rapid_moment_navigator.py:169-196 | a record is in a file's list exactly when it is the record of one of its blocks that passes the test |
| Search.FileEntryShape | rapid_moment_navigator.py:165-193 | every record names its file, has an all-digit index, two `DD:DD:DD,DDD` times and the `HH:MM:SS` player time; its text is one or more lines, trimmed, and after tag removal contains the keyword |
| Search.SearchFilesStep | rapid_moment_navigator.py:158-196 | one more file appends its records after those found so far |
| Search.SearchFilesIff | rapid_moment_navigator.py:158-196 | a record is found exactly when some file's list holds it |
| Search.BatchesStep | rapid_moment_navigator.py:203-205 | one more file adds its batch to the view exactly when it has records |
| Search.BatchesShape | rapid_moment_navigator.py:203-205 | no batch shown is empty, and each is one file's path with that file's records |
| Search.FlattenBatches | rapid_moment_navigator.py:194-205 | the batches shown hold every record found, in order, and nothing else |
| Search.InsertByPath | rapid_moment_navigator.py:158 | inserting one file makes the list one longer |
| Search.InsertByPathPerm | rapid_moment_navigator.py:158 | inserting adds the file and loses nothing |
| Search.InsertByPathSorted | rapid_moment_navigator.py:158 | inserting into a list in path order keeps it in path order |
| Search.SortByPath | rapid_moment_navigator.py:158 | `sorted()` keeps the number of files |
| Search.SortByPathSorts | rapid_moment_navigator.py:158 | `sorted()` puts the files in path order and holds exactly the files it was given |
| Navigator.Navigator.constructor | rapid_moment_navigator.py:11-71 | the window starts with the map built from an empty one over all shows, no results, nothing shown, and the mapped count in the status line |
| Navigator.Navigator.MapSubtitlesToVideos | rapid_moment_navigator.py:80-118 | the map becomes the map linked over all shows, the status reports its size, and the results are untouched |
| Navigator.Navigator.MapShow | rapid_moment_navigator.py:100-116 | the map becomes the old map with the show's subtitles linked one by one |
| Navigator.Navigator.MapSubtitle | rapid_moment_navigator.py:100-116 | the subtitle is mapped to the first video that passes the test, or the map is left as it was |
| Navigator.Navigator.FindVideo | rapid_moment_navigator.py:101-116 | with the subtitle names computed once, the inner loop finds the first video that passes the test of line 114, or none |
| Navigator.Navigator.SearchSubtitles | rapid_moment_navigator.py:120-139 | a keyword that is empty after `strip()` and an empty show each only set their status; otherwise the results and the view are cleared and the search of the trimmed keyword runs |
| Navigator.Navigator.SearchThread | rapid_moment_navigator.py:141-208 | a missing Subtitles folder only sets its status; otherwise the results of all files in sorted order are appended, their batches shown, and the count reported is the number of results of this search |
| Navigator.Navigator.SearchFilesInOrder | rapid_moment_navigator.py:155-205 | the records of the files, in the order given, are appended to the results; the batches are shown; the count equals the number of records appended |
| Navigator.Navigator.SearchFile | rapid_moment_navigator.py:158-205 | the file's records are its list and are appended to the results; its batch is shown when it has records; the count goes up by their number |
| Navigator.Navigator.SearchBlocks | rapid_moment_navigator.py:169-196 | the file's list is the records of its blocks that pass the test, in match order; they are appended to the results, and the count goes up by their number |
| Navigator.Navigator.SearchBlock | rapid_moment_navigator.py:170-193 | a block yields its record exactly when its trimmed, tag-free text contains the keyword |

## Left out

- The Tk window: widget construction, the results text, click handling and
  hit-testing by text index (lines 11-64, 210-259). The model keeps, as
  `shown`, the list of per-file batches handed to the view at line 205.
- Text.IsDigit: `\d` is modelled on the ASCII digits only. Python's `\d`
  also matches every other Unicode decimal digit, so an index or timecode
  written in such digits is not matched by the model.
- Text.Lower: `str.lower()` is modelled on the ASCII letters only. Python
  lowers every cased Unicode letter, and it lowers a final capital sigma to
  'ς' but any other capital sigma to 'σ'. So for non-ASCII letters the
  results differ from Python's in both directions. A keyword that differs
  from the text only in the case of a non-ASCII letter is not found by the
  model. The keyword "Σ" is found by the model in the text "ΟΣ", but not by
  Python.
- `load_shows` (lines 73-78), the directory scans with `os.listdir`, `glob`
  and `os.path.exists` (lines 84-97, 145-152), and the file reads (lines
  162-163). They are I/O. Their results are parameters:
  - the `ShowFiles` of each show, in the order the scans return them;
  - the `SubtitleFile`s of the Subtitles folder, or `None` when the folder
    is missing.
- File decoding with `errors='ignore'`, and the newline translation of text
  mode. The content is taken as the string that the read returns.
- Linking.Basename: the path rules are those of Windows, where the program
  runs. Both '/' and '\\' separate, but drive prefixes such as "C:" are not
  modelled.
- The thread of line 139 and the `root.after` callbacks of lines 205 and
  208. The search runs to the end within the call, and the callbacks'
  effects (a batch shown, the final status) happen in order.
- Exceptions while processing a file (lines 198-200), and with them the
  "Error processing" status. The model's reads cannot fail.
- Launching the media player (lines 261-299). It is an external process.
- The order of keys in the Python dictionary. A Dafny `map` has no order,
  and the program never reads the order.
