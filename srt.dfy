/**
 * The subtitle blocks of line 166 of rapid_moment_navigator.py, read the way
 * re.finditer reads them with the pattern
 *   (\d+)\n(\d{2}:\d{2}:\d{2},\d{3})\s+-->\s+(\d{2}:\d{2}:\d{2},\d{3})\n((?:.+\n)+?)(?:\n|$)
 * and the tag removal re.sub(r'<[^>]+>', '', text) of line 176.
 *
 * Every greedy repetition in the pattern is followed by a character outside
 * its own class, so it never gives characters back: each is a Run. The lazy
 * text group takes one non-empty line at a time and stops at the first point
 * where a newline or the end of the input follows; `\n` is tried before `$`,
 * so `$` only ever adds "at the end of the input". The pattern looks at no
 * character before the position it is tried at, so trying it at position p of
 * the content is trying it at the start of the suffix from p.
 */
module Srt {
  import opened Wrappers
  import opened Text

  /** The four groups of one match: index, start time, end time and the text lines. */
  datatype Block = Block(num: string, start: string, end: string, lines: string)

  /** Where one match lies in the content: it starts at `start`; the index is
      s[start..indexEnd], the start time the 12 characters after the newline
      that follows it, the `-->` of the arrow the 3 characters from arrow, the
      end time the 12 characters from endTime, the text s[endTime + 13..textEnd];
      the match ends just before `end`. */
  datatype Span = Span(start: nat, indexEnd: nat, arrow: nat, endTime: nat, textEnd: nat, end: nat)

  /** `\d{2}:\d{2}:\d{2},\d{3}` at position i of s. */
  predicate TimecodeAt(s: string, i: nat) {
    i + 12 <= |s|
    && IsDigit(s[i]) && IsDigit(s[i + 1]) && s[i + 2] == ':'
    && IsDigit(s[i + 3]) && IsDigit(s[i + 4]) && s[i + 5] == ':'
    && IsDigit(s[i + 6]) && IsDigit(s[i + 7]) && s[i + 8] == ','
    && IsDigit(s[i + 9]) && IsDigit(s[i + 10]) && IsDigit(s[i + 11])
  }

  predicate IsTimecode(t: string) {
    |t| == 12 && TimecodeAt(t, 0)
  }

  /** `\d+` matched exactly. */
  predicate IsIndex(t: string) {
    t != [] && forall i :: 0 <= i < |t| ==> IsDigit(t[i])
  }

  /** `(?:.+\n)+` matches s[i..e] exactly: one or more lines, each ended by a
      newline and none of them empty. So s[i..e] ends with a newline, does
      not start with one, and holds no two newlines in a row. */
  predicate LinesIn(s: string, i: nat, e: nat)
    requires i <= e <= |s|
  {
    i < e && s[i] != '\n' && s[e - 1] == '\n'
    && forall x {:trigger s[x]} :: i < x < e ==> s[x - 1] == '\n' ==> s[x] != '\n'
  }

  predicate IsLines(t: string) {
    LinesIn(t, 0, |t|)
  }

  predicate WellFormed(b: Block) {
    IsIndex(b.num) && IsTimecode(b.start) && IsTimecode(b.end) && IsLines(b.lines)
  }

  /** `((?:.+\n)+?)` followed by `(?:\n|$)` from position j of s: where the
      group ends, when the lazy repetition finds a place to stop. */
  function TextEnd(s: string, j: nat): (r: Option<nat>)
    requires j <= |s|
    ensures r.Some? ==> j < r.value <= |s| && LinesIn(s, j, r.value)
    ensures r.Some? ==> r.value == |s| || s[r.value] == '\n'
    decreases |s| - j
  {
    var n := RunFrom(s, j, NotNewline);
    if n == 0 || j + n == |s| then None
    else if j + n + 1 == |s| || s[j + n + 1] == '\n' then Some(j + n + 1)
    else TextEnd(s, j + n + 1)
  }

  /** Where the index ends, the `-->` sits and the end time starts, when the
      pattern matches from position i of s up to and including the newline
      after the end time. */
  datatype Head = Head(indexEnd: nat, arrow: nat, endTime: nat)

  /** `(\d+)\n(\d{2}:\d{2}:\d{2},\d{3})\s+-->\s+(\d{2}:\d{2}:\d{2},\d{3})\n` at position i of s. */
  function HeadAt(s: string, i: nat): (r: Option<Head>)
    requires i <= |s|
    ensures r.Some? ==> i < r.value.indexEnd && r.value.indexEnd + 13 < r.value.arrow
                        && r.value.arrow + 3 < r.value.endTime && r.value.endTime + 13 <= |s|
  {
    var a := i + RunFrom(s, i, Digit);
    if a == i || a + 13 > |s| || s[a] != '\n' || !TimecodeAt(s, a + 1) then None
    else
      var p := a + 13;
      var w := RunFrom(s, p, Space);
      if w == 0 || p + w + 3 > |s| || s[p + w] != '-' || s[p + w + 1] != '-' || s[p + w + 2] != '>' then None
      else
        var q := p + w + 3;
        var e := q + RunFrom(s, q, Space);
        if e == q || !TimecodeAt(s, e) || e + 12 == |s| || s[e + 12] != '\n' then None
        else Some(Head(a, p + w, e))
  }

  /** The positions sp names lie in order within s. */
  predicate SpanIn(s: string, sp: Span) {
    sp.start < sp.indexEnd && sp.indexEnd + 13 < sp.arrow && sp.arrow + 3 < sp.endTime
    && sp.endTime + 13 < sp.textEnd <= |s|
  }

  /** `\s+-->\s+` matches s[i..e] exactly, with its `-->` at m. */
  predicate ArrowAt(s: string, i: nat, m: nat, e: nat) {
    i < m && m + 3 < e <= |s| && s[m] == '-' && s[m + 1] == '-' && s[m + 2] == '>'
    && (forall x :: i <= x < m ==> IsSpace(s[x]))
    && (forall x :: m + 3 <= x < e ==> IsSpace(s[x]))
  }

  /** What the head of the pattern asks of s from i on, with the positions
      h names: index digits and their newline, the start time, the arrow, the
      end time and its newline. */
  predicate HeadMatched(s: string, i: nat, h: Head) {
    i < h.indexEnd && h.indexEnd + 13 < h.arrow && h.arrow + 3 < h.endTime && h.endTime + 13 <= |s|
    && (forall x :: i <= x < h.indexEnd ==> IsDigit(s[x]))
    && s[h.indexEnd] == '\n' && TimecodeAt(s, h.indexEnd + 1)
    && ArrowAt(s, h.indexEnd + 13, h.arrow, h.endTime)
    && TimecodeAt(s, h.endTime) && s[h.endTime + 12] == '\n'
  }

  /** The groups that sp places in s are what the pattern asks of them, and
      the arrow between the two times is there. */
  predicate MatchedAt(s: string, sp: Span) {
    SpanIn(s, sp)
    && HeadMatched(s, sp.start, Head(sp.indexEnd, sp.arrow, sp.endTime))
    && LinesIn(s, sp.endTime + 13, sp.textEnd)
    && sp.end == (if sp.textEnd == |s| then sp.textEnd else sp.textEnd + 1)
    && (sp.textEnd < |s| ==> s[sp.textEnd] == '\n')
  }

  /** The pattern tried at position i of s. */
  function MatchAt(s: string, i: nat): (r: Option<Span>)
    requires i <= |s|
    ensures r.Some? ==> r.value.start == i && SpanIn(s, r.value) && r.value.textEnd <= r.value.end <= |s|
  {
    match HeadAt(s, i)
    case None => None
    case Some(h) =>
      match TextEnd(s, h.endTime + 13)
      case None => None
      case Some(t) => Some(Span(i, h.indexEnd, h.arrow, h.endTime, t, if t == |s| then t else t + 1))
  }

  /** What the head of the pattern checks, where it matches: the index
      digits and their newline, the start time, the arrow, the end time and
      its newline. */
  lemma HeadAtMatched(s: string, i: nat, h: Head)
    requires i <= |s| && HeadAt(s, i) == Some(h)
    ensures HeadMatched(s, i, h)
  {
    HeadAtParts(s, i, h);
    HeadAtArrow(s, i, h);
  }

  /** The index, the two times and the newlines of a head. */
  lemma HeadAtParts(s: string, i: nat, h: Head)
    requires i <= |s| && HeadAt(s, i) == Some(h)
    ensures (forall x :: i <= x < h.indexEnd ==> IsDigit(s[x])) && s[h.indexEnd] == '\n'
            && TimecodeAt(s, h.indexEnd + 1) && TimecodeAt(s, h.endTime) && s[h.endTime + 12] == '\n'
  {
    var n := RunFrom(s, i, Digit);
    assert forall x :: i <= x < i + n ==> InClass(s[x], Digit);
  }

  /** Where the arrow of a head sits. */
  lemma HeadAtArrow(s: string, i: nat, h: Head)
    requires i <= |s| && HeadAt(s, i) == Some(h)
    ensures ArrowAt(s, h.indexEnd + 13, h.arrow, h.endTime)
  {
    ArrowOfRuns(s, h.indexEnd + 13, h.arrow, h.endTime);
  }

  /** The two greedy `\s+` runs and the `-->` between them that HeadAt checks
      make the arrow. */
  lemma ArrowOfRuns(s: string, p: nat, m: nat, e: nat)
    requires p <= |s| && m == p + RunFrom(s, p, Space) && p < m && m + 3 <= |s|
    requires s[m] == '-' && s[m + 1] == '-' && s[m + 2] == '>'
    requires e == m + 3 + RunFrom(s, m + 3, Space) && m + 3 < e
    ensures ArrowAt(s, p, m, e)
  {
    assert forall x :: p <= x < m ==> InClass(s[x], Space);
    assert forall x :: m + 3 <= x < e ==> InClass(s[x], Space);
  }

  /** A match found at i is one the pattern accepts. */
  lemma MatchAtMatched(s: string, i: nat)
    requires i <= |s| && MatchAt(s, i).Some?
    ensures MatchedAt(s, MatchAt(s, i).value)
  {
    var h := HeadAt(s, i).value;
    var t := TextEnd(s, h.endTime + 13).value;
    MatchedAtOf(s, Span(i, h.indexEnd, h.arrow, h.endTime, t, if t == |s| then t else t + 1));
  }

  /** The span a head and a text end make is one the pattern accepts. */
  lemma MatchedAtOf(s: string, sp: Span)
    requires sp.start <= |s| && HeadAt(s, sp.start) == Some(Head(sp.indexEnd, sp.arrow, sp.endTime))
    requires TextEnd(s, sp.endTime + 13) == Some(sp.textEnd)
    requires sp.end == (if sp.textEnd == |s| then sp.textEnd else sp.textEnd + 1)
    ensures MatchedAt(s, sp)
  {
    HeadAtMatched(s, sp.start, Head(sp.indexEnd, sp.arrow, sp.endTime));
  }

  /** The head is found wherever what it asks of s holds. */
  lemma HeadAtOfMatched(s: string, i: nat, h: Head)
    requires i <= |s| && HeadMatched(s, i, h)
    ensures HeadAt(s, i) == Some(h)
  {
    HeadRuns(s, i, h);
    HeadAtOfRuns(s, i, h);
  }

  /** The greedy runs of a head stop where its positions say. */
  lemma HeadRuns(s: string, i: nat, h: Head)
    requires HeadMatched(s, i, h)
    ensures RunFrom(s, i, Digit) == h.indexEnd - i
    ensures RunFrom(s, h.indexEnd + 13, Space) == h.arrow - (h.indexEnd + 13)
    ensures RunFrom(s, h.arrow + 3, Space) == h.endTime - (h.arrow + 3)
  {
    assert !InClass(s[h.indexEnd], Digit) && !InClass(s[h.arrow], Space) && !InClass(s[h.endTime], Space);
    RunFromUnique(s, i, Digit, h.indexEnd - i);
    RunFromUnique(s, h.indexEnd + 13, Space, h.arrow - (h.indexEnd + 13));
    RunFromUnique(s, h.arrow + 3, Space, h.endTime - (h.arrow + 3));
  }

  /** HeadAt, once its runs are known. */
  lemma HeadAtOfRuns(s: string, i: nat, h: Head)
    requires i < h.indexEnd && h.indexEnd + 13 < h.arrow && h.arrow + 3 < h.endTime && h.endTime + 13 <= |s|
    requires RunFrom(s, i, Digit) == h.indexEnd - i && s[h.indexEnd] == '\n' && TimecodeAt(s, h.indexEnd + 1)
    requires RunFrom(s, h.indexEnd + 13, Space) == h.arrow - (h.indexEnd + 13)
    requires s[h.arrow] == '-' && s[h.arrow + 1] == '-' && s[h.arrow + 2] == '>'
    requires RunFrom(s, h.arrow + 3, Space) == h.endTime - (h.arrow + 3)
    requires TimecodeAt(s, h.endTime) && s[h.endTime + 12] == '\n'
    ensures HeadAt(s, i) == Some(h)
  {
  }

  /** A span the pattern accepts is the match found at its start. */
  lemma MatchAtOfMatched(s: string, sp: Span)
    requires MatchedAt(s, sp)
    ensures MatchAt(s, sp.start) == Some(sp)
  {
    var h := Head(sp.indexEnd, sp.arrow, sp.endTime);
    HeadAtOfMatched(s, sp.start, h);
    TextEndOfLines(s, sp.endTime + 13, sp.textEnd);
    MatchAtOf(s, sp.start, h, sp.textEnd);
  }

  /** The pattern tried at i matches sp exactly when sp starts at i and is a
      span the pattern accepts. */
  lemma MatchAtIff(s: string, i: nat, sp: Span)
    requires i <= |s|
    ensures MatchAt(s, i) == Some(sp) <==> sp.start == i && MatchedAt(s, sp)
  {
    if MatchAt(s, i) == Some(sp) {
      MatchAtMatched(s, i);
    }
    if sp.start == i && MatchedAt(s, sp) {
      MatchAtOfMatched(s, sp);
    }
  }

  /** A pattern tried at each position of s: it finds nothing, or a match
      that starts there and ends further on, within s. */
  ghost predicate Matcher(s: string, matchAt: (string, nat) --> Option<Span>) {
    (forall j :: 0 <= j <= |s| ==> matchAt.requires(s, j))
    && (forall j :: 0 <= j <= |s| && matchAt(s, j).Some? ==> j == matchAt(s, j).value.start < matchAt(s, j).value.end <= |s|)
  }

  lemma MatchAtIsMatcher(s: string)
    ensures Matcher(s, MatchAt)
  {
  }

  /** re.finditer from position i: try the pattern at each position in turn;
      after a match, go on from its end. The matches found lie in order and
      do not overlap, and none is skipped: the pattern finds nothing before
      the first of them, between one and the next, or after the last. */
  function FindAll(s: string, i: nat, matchAt: (string, nat) --> Option<Span>): (r: seq<Span>)
    requires i <= |s| && Matcher(s, matchAt)
    ensures forall k :: 0 <= k < |r| ==> i <= r[k].start < r[k].end <= |s| && matchAt(s, r[k].start) == Some(r[k])
    ensures forall k :: 0 <= k < |r| - 1 ==> r[k].end <= r[k + 1].start
    decreases |s| - i
  {
    if i == |s| then []
    else
      match matchAt(s, i)
      case Some(m) => [m] + FindAll(s, m.end, matchAt)
      case None => FindAll(s, i + 1, matchAt)
  }

  lemma {:induction false} FindAllIsChain(s: string, i: nat, matchAt: (string, nat) --> Option<Span>)
    requires i <= |s| && Matcher(s, matchAt)
    ensures Chain(s, i, FindAll(s, i, matchAt), matchAt)
    decreases |s| - i
  {
    if i < |s| {
      match matchAt(s, i)
      case Some(m) =>
        FindAllIsChain(s, m.end, matchAt);
        var rest := FindAll(s, m.end, matchAt);
        assert ([m] + rest)[1..] == rest;
      case None =>
        FindAllIsChain(s, i + 1, matchAt);
        ChainFrom(s, i, FindAll(s, i + 1, matchAt), matchAt);
    }
  }

  /** The pattern finds nothing at the positions lo up to hi. */
  ghost predicate NoMatchIn(s: string, lo: nat, hi: nat, matchAt: (string, nat) --> Option<Span>)
    requires lo <= hi <= |s| && Matcher(s, matchAt)
  {
    forall x :: lo <= x < hi ==> matchAt(s, x).None?
  }

  /** The scan with matchAt from p finds exactly sps: each is the match at its
      start, the pattern finds nothing between p and the first of them, nor
      between the end of one and the start of the next, nor after the last. */
  ghost predicate Chain(s: string, p: nat, sps: seq<Span>, matchAt: (string, nat) --> Option<Span>)
    requires p <= |s| && Matcher(s, matchAt)
    decreases |sps|
  {
    if sps == [] then NoMatchIn(s, p, |s|, matchAt)
    else
      p <= sps[0].start <= |s| && NoMatchIn(s, p, sps[0].start, matchAt)
      && matchAt(s, sps[0].start) == Some(sps[0]) && Chain(s, sps[0].end, sps[1..], matchAt)
  }

  /** A chain from p + 1 is one from p when the pattern finds nothing at p. */
  lemma ChainFrom(s: string, p: nat, sps: seq<Span>, matchAt: (string, nat) --> Option<Span>)
    requires p < |s| && Matcher(s, matchAt) && matchAt(s, p).None? && Chain(s, p + 1, sps, matchAt)
    ensures Chain(s, p, sps, matchAt)
  {
  }

  /** Positions where the pattern finds nothing are passed over. */
  lemma {:induction false} FindAllSkip(s: string, p: nat, q: nat, matchAt: (string, nat) --> Option<Span>)
    requires p <= q <= |s| && Matcher(s, matchAt) && NoMatchIn(s, p, q, matchAt)
    ensures FindAll(s, p, matchAt) == FindAll(s, q, matchAt)
    decreases q - p
  {
    if p < q {
      FindAllStep(s, p, matchAt);
      FindAllSkip(s, p + 1, q, matchAt);
    }
  }

  /** A position where the pattern finds nothing is passed over. */
  lemma FindAllStep(s: string, p: nat, matchAt: (string, nat) --> Option<Span>)
    requires p < |s| && Matcher(s, matchAt) && matchAt(s, p).None?
    ensures FindAll(s, p, matchAt) == FindAll(s, p + 1, matchAt)
  {
  }

  /** A chain is what the scan finds. */
  lemma {:induction false} ChainFindAll(s: string, p: nat, sps: seq<Span>, matchAt: (string, nat) --> Option<Span>)
    requires p <= |s| && Matcher(s, matchAt) && Chain(s, p, sps, matchAt)
    ensures FindAll(s, p, matchAt) == sps
    decreases |sps|
  {
    if sps == [] {
      FindAllSkip(s, p, |s|, matchAt);
    } else {
      FindAllSkip(s, p, sps[0].start, matchAt);
      ChainFindAll(s, sps[0].end, sps[1..], matchAt);
      assert sps == [sps[0]] + sps[1..];
    }
  }

  /** The four groups of a match. */
  function BlockOf(s: string, sp: Span): Block
    requires SpanIn(s, sp)
  {
    var a, e := sp.indexEnd, sp.endTime;
    Block(s[sp.start..a], s[a + 1..a + 13], s[e..e + 12], s[e + 13..sp.textEnd])
  }

  lemma IndexOfSlice(s: string, i: nat, a: nat)
    requires i < a <= |s| && forall x :: i <= x < a ==> IsDigit(s[x])
    ensures IsIndex(s[i..a])
  {
    var t := s[i..a];
    assert forall x :: 0 <= x < |t| ==> t[x] == s[i + x];
  }

  lemma TimecodeOfSlice(s: string, i: nat)
    requires TimecodeAt(s, i)
    ensures IsTimecode(s[i..i + 12])
  {
    var t := s[i..i + 12];
    assert forall x :: 0 <= x < 12 ==> t[x] == s[i + x];
  }

  lemma LinesOfSlice(s: string, i: nat, e: nat)
    requires i <= e <= |s| && LinesIn(s, i, e)
    ensures IsLines(s[i..e])
  {
    var t := s[i..e];
    assert t[0] == s[i] && t[|t| - 1] == s[e - 1];
    forall x | 0 < x < |t|
      ensures t[x - 1] == '\n' ==> t[x] != '\n'
    {
      assert t[x - 1] == s[i + x - 1] && t[x] == s[i + x];
    }
  }

  /** The groups of a match are what the pattern asks of them. */
  lemma BlockOfWellFormed(s: string, sp: Span)
    requires MatchedAt(s, sp)
    ensures WellFormed(BlockOf(s, sp))
  {
    HeadSlices(s, sp.start, Head(sp.indexEnd, sp.arrow, sp.endTime));
    LinesOfSlice(s, sp.endTime + 13, sp.textEnd);
  }

  /** The index and the two times of a head, as the strings they are. */
  lemma HeadSlices(s: string, i: nat, h: Head)
    requires HeadMatched(s, i, h)
    ensures IsIndex(s[i..h.indexEnd]) && IsTimecode(s[h.indexEnd + 1..h.indexEnd + 13])
            && IsTimecode(s[h.endTime..h.endTime + 12])
  {
    IndexOfSlice(s, i, h.indexEnd);
    TimecodeOfSlice(s, h.indexEnd + 1);
    TimecodeOfSlice(s, h.endTime);
  }

  /** Each span of sps lies in order within s, checked from the first on. */
  predicate AllSpanIn(s: string, sps: seq<Span>)
    decreases |sps|
  {
    sps == [] || (SpanIn(s, sps[0]) && AllSpanIn(s, sps[1..]))
  }

  lemma {:induction false} AllSpanInOf(s: string, sps: seq<Span>)
    requires forall k :: 0 <= k < |sps| ==> SpanIn(s, sps[k])
    ensures AllSpanIn(s, sps)
    decreases |sps|
  {
    if sps != [] {
      assert forall k :: 0 <= k < |sps| - 1 ==> sps[1..][k] == sps[k + 1];
      AllSpanInOf(s, sps[1..]);
    }
  }

  /** The matches of the subtitle pattern in s from position i on, in order. */
  function MatchesFrom(s: string, i: nat): (r: seq<Span>)
    requires i <= |s|
    ensures AllSpanIn(s, r)
  {
    MatchAtIsMatcher(s);
    var r := FindAll(s, i, MatchAt);
    AllSpanInOf(s, r);
    r
  }

  /** Every match found from i on is one the pattern accepts. */
  lemma MatchesFromMatched(s: string, i: nat)
    requires i <= |s|
    ensures forall k :: 0 <= k < |MatchesFrom(s, i)| ==> MatchedAt(s, MatchesFrom(s, i)[k])
  {
    var r := MatchesFrom(s, i);
    forall k | 0 <= k < |r|
      ensures MatchedAt(s, r[k])
    {
      MatchAtMatched(s, r[k].start);
    }
  }

  /** Every block of a file's content, in order. */
  function Blocks(content: string): seq<Block> {
    BlocksFrom(content, 0)
  }

  /** The blocks of the matches from position p of s on, in order. */
  function BlocksFrom(s: string, p: nat): seq<Block>
    requires p <= |s|
  {
    BlocksOf(s, MatchesFrom(s, p))
  }

  /** The groups of each of the matches sps, in order. */
  function BlocksOf(s: string, sps: seq<Span>): (r: seq<Block>)
    requires AllSpanIn(s, sps)
    ensures |r| == |sps|
    decreases |sps|
  {
    if sps == [] then [] else [BlockOf(s, sps[0])] + BlocksOf(s, sps[1..])
  }

  /** The k-th block is the groups of the k-th match. */
  lemma {:induction false} BlocksOfAt(s: string, sps: seq<Span>, k: nat)
    requires AllSpanIn(s, sps) && k < |sps|
    ensures SpanIn(s, sps[k]) && BlocksOf(s, sps)[k] == BlockOf(s, sps[k])
    decreases k
  {
    if k > 0 {
      BlocksOfAt(s, sps[1..], k - 1);
    }
  }

  /** Every block read is well formed: an index of digits, two timecodes and
      one or more non-empty lines. */
  lemma BlocksWellFormed(content: string)
    ensures forall k :: 0 <= k < |Blocks(content)| ==> WellFormed(Blocks(content)[k])
  {
    var sps := MatchesFrom(content, 0);
    MatchesFromMatched(content, 0);
    forall k | 0 <= k < |sps|
      ensures WellFormed(Blocks(content)[k])
    {
      BlocksOfAt(content, sps, k);
      BlockOfWellFormed(content, sps[k]);
    }
  }

  /** A block written out as a subtitle file writes it, blank line included. */
  function Render(b: Block): string {
    b.num + "\n" + b.start + " --> " + b.end + "\n" + b.lines + "\n"
  }

  function Serialize(bs: seq<Block>): string
    decreases |bs|
  {
    if bs == [] then [] else Render(bs[0]) + Serialize(bs[1..])
  }

  /** The lazy text group stops at the blank line after the last of its lines,
      or at the end of the input when its lines run up to there. */
  lemma {:induction false} TextEndOfLines(s: string, j: nat, e: nat)
    requires j <= e <= |s| && LinesIn(s, j, e) && (e == |s| || s[e] == '\n')
    ensures TextEnd(s, j) == Some(e)
    decreases e - j
  {
    var n := RunFrom(s, j, NotNewline);
    assert !InClass(s[e - 1], NotNewline);
    if j + n + 1 < e {
      assert s[j + n + 1] != '\n';
      TextEndOfLines(s, j + n + 1, e);
    }
  }

  /** The text group from j ends at e exactly when s[j..e] is one or more
      non-empty lines followed by a blank line or by the end of the input. */
  lemma TextEndIff(s: string, j: nat, e: nat)
    requires j <= e <= |s|
    ensures TextEnd(s, j) == Some(e) <==> LinesIn(s, j, e) && (e == |s| || s[e] == '\n')
  {
    if LinesIn(s, j, e) && (e == |s| || s[e] == '\n') {
      TextEndOfLines(s, j, e);
    }
  }

  /** t sits in s from position p on. */
  predicate CopyAt(s: string, p: nat, t: string) {
    p + |t| <= |s| && forall k {:trigger t[k]} :: 0 <= k < |t| ==> s[p + k] == t[k]
  }

  /** A copy of x + y is a copy of x followed by a copy of y. */
  lemma CopyAppend(s: string, p: nat, x: string, y: string)
    requires CopyAt(s, p, x + y)
    ensures CopyAt(s, p, x) && CopyAt(s, p + |x|, y)
  {
    forall k | 0 <= k < |x|
      ensures s[p + k] == x[k]
    {
      assert (x + y)[k] == x[k];
    }
    forall k | 0 <= k < |y|
      ensures s[p + |x| + k] == y[k]
    {
      assert (x + y)[|x| + k] == y[k];
    }
  }

  lemma SliceOfCopy(s: string, p: nat, t: string)
    requires CopyAt(s, p, t)
    ensures s[p..p + |t|] == t
  {
    forall k | 0 <= k < |t|
      ensures s[p..p + |t|][k] == t[k]
    {
      assert s[p + k] == t[k];
    }
  }

  lemma CharOfCopy(s: string, p: nat, c: char)
    requires CopyAt(s, p, [c])
    ensures p < |s| && s[p] == c
  {
    assert [c][0] == c;
  }

  /** Where the eight parts of a block rendered at p lie in s. */
  lemma RenderedCopies(s: string, p: nat, b: Block)
    requires CopyAt(s, p, Render(b))
    ensures var a := p + |b.num|; var e := a + 1 + |b.start| + 5 + |b.end| + 1 + |b.lines|;
            CopyAt(s, p, b.num) && CopyAt(s, a, "\n") && CopyAt(s, a + 1, b.start)
            && CopyAt(s, a + 1 + |b.start|, " --> ") && CopyAt(s, a + 1 + |b.start| + 5, b.end)
            && CopyAt(s, a + 1 + |b.start| + 5 + |b.end|, "\n")
            && CopyAt(s, a + 1 + |b.start| + 5 + |b.end| + 1, b.lines) && CopyAt(s, e, "\n")
            && p + |Render(b)| == e + 1
  {
    var r1 := b.num + "\n";
    var r2 := r1 + b.start;
    var r3 := r2 + " --> ";
    var r4 := r3 + b.end;
    var r5 := r4 + "\n";
    var r6 := r5 + b.lines;
    CopyAppend(s, p, r6, "\n");
    CopyAppend(s, p, r5, b.lines);
    CopyAppend(s, p, r4, "\n");
    CopyAppend(s, p, r3, b.end);
    CopyAppend(s, p, r2, " --> ");
    CopyAppend(s, p, r1, b.start);
    CopyAppend(s, p, b.num, "\n");
  }

  /** The index written at p is the greedy `\d+` there. */
  lemma RunOfIndex(s: string, p: nat, num: string)
    requires CopyAt(s, p, num) && IsIndex(num) && CopyAt(s, p + |num|, "\n")
    ensures p + |num| < |s| && RunFrom(s, p, Digit) == |num| && s[p + |num|] == '\n'
  {
    CharOfCopy(s, p + |num|, '\n');
    forall x | p <= x < p + |num|
      ensures InClass(s[x], Digit)
    {
      assert s[p + (x - p)] == num[x - p];
    }
    RunFromUnique(s, p, Digit, |num|);
  }

  lemma TimecodeOfCopy(s: string, x: nat, t: string)
    requires CopyAt(s, x, t) && IsTimecode(t)
    ensures TimecodeAt(s, x)
  {
    assert t[0] == s[x + 0] && t[1] == s[x + 1] && t[2] == s[x + 2] && t[3] == s[x + 3];
    assert t[4] == s[x + 4] && t[5] == s[x + 5] && t[6] == s[x + 6] && t[7] == s[x + 7];
    assert t[8] == s[x + 8] && t[9] == s[x + 9] && t[10] == s[x + 10] && t[11] == s[x + 11];
  }

  /** The arrow between the times is one space, `-->` and one space. */
  lemma ArrowOfCopy(s: string, x: nat)
    requires CopyAt(s, x, " --> ") && x + 5 < |s| && IsDigit(s[x + 5])
    ensures RunFrom(s, x, Space) == 1 && s[x + 1] == '-' && s[x + 2] == '-' && s[x + 3] == '>'
    ensures RunFrom(s, x + 4, Space) == 1
  {
    var arrow := " --> ";
    assert arrow[0] == s[x + 0] && arrow[1] == s[x + 1] && arrow[2] == s[x + 2];
    assert arrow[3] == s[x + 3] && arrow[4] == s[x + 4];
    RunFromUnique(s, x, Space, 1);
    RunFromUnique(s, x + 4, Space, 1);
  }

  lemma LinesOfCopy(s: string, l: nat, t: string)
    requires CopyAt(s, l, t) && IsLines(t)
    ensures LinesIn(s, l, l + |t|)
  {
    forall x | l <= x < l + |t|
      ensures s[x] == t[x - l]
    {
      assert s[l + (x - l)] == t[x - l];
    }
  }

  /** MatchAt, once its head and its text are known. */
  lemma MatchAtOf(s: string, i: nat, h: Head, t: nat)
    requires i <= |s| && HeadAt(s, i) == Some(h)
    requires TextEnd(s, h.endTime + 13) == Some(t)
    ensures MatchAt(s, i) == Some(Span(i, h.indexEnd, h.arrow, h.endTime, t, if t == |s| then t else t + 1))
  {
  }

  /** Where the match of a block rendered at p lies. */
  function RenderedSpan(p: nat, b: Block): Span {
    var a := p + |b.num|;
    Span(p, a, a + 14, a + 18, a + 31 + |b.lines|, a + 32 + |b.lines|)
  }

  /** What the pattern checks in a block rendered at p, character by
      character and run by run. */
  lemma RenderedFacts(s: string, p: nat, b: Block)
    requires WellFormed(b) && CopyAt(s, p, Render(b))
    ensures var a := p + |b.num|; var e := a + 31 + |b.lines|;
            p < a && e < |s| && p + |Render(b)| == e + 1
            && RunFrom(s, p, Digit) == a - p && s[a] == '\n' && TimecodeAt(s, a + 1)
            && RunFrom(s, a + 13, Space) == 1 && s[a + 14] == '-' && s[a + 15] == '-' && s[a + 16] == '>'
            && RunFrom(s, a + 17, Space) == 1 && TimecodeAt(s, a + 18) && s[a + 30] == '\n'
            && LinesIn(s, a + 31, e) && s[e] == '\n'
  {
    RenderedCopies(s, p, b);
    var a := p + |b.num|;
    RunOfIndex(s, p, b.num);
    TimecodeOfCopy(s, a + 1, b.start);
    TimecodeOfCopy(s, a + 18, b.end);
    ArrowOfCopy(s, a + 13);
    CharOfCopy(s, a + 30, '\n');
    LinesOfCopy(s, a + 31, b.lines);
    CharOfCopy(s, a + 31 + |b.lines|, '\n');
  }

  /** The match those facts make. */
  lemma MatchAtOfFacts(s: string, p: nat, a: nat, e: nat)
    requires p < a && a + 31 <= e < |s| && HeadAt(s, p) == Some(Head(a, a + 14, a + 18))
    requires LinesIn(s, a + 31, e) && s[e] == '\n'
    ensures MatchAt(s, p) == Some(Span(p, a, a + 14, a + 18, e, e + 1))
  {
    TextEndOfLines(s, a + 31, e);
    MatchAtOf(s, p, Head(a, a + 14, a + 18), e);
  }

  /** A well-formed block is matched whole where its rendering sits in s,
      whatever follows it. */
  lemma MatchRendered(s: string, p: nat, b: Block)
    requires WellFormed(b) && CopyAt(s, p, Render(b))
    ensures MatchAt(s, p) == Some(RenderedSpan(p, b))
  {
    RenderedFacts(s, p, b);
    var a := p + |b.num|;
    HeadAtOfRuns(s, p, Head(a, a + 14, a + 18));
    MatchAtOfFacts(s, p, a, a + 31 + |b.lines|);
  }

  /** The groups of a match are the fields of the block whose parts lie
      where the match's groups do. */
  lemma BlockOfParts(s: string, sp: Span, b: Block)
    requires SpanIn(s, sp)
    requires s[sp.start..sp.indexEnd] == b.num && s[sp.indexEnd + 1..sp.indexEnd + 13] == b.start
    requires s[sp.endTime..sp.endTime + 12] == b.end && s[sp.endTime + 13..sp.textEnd] == b.lines
    ensures BlockOf(s, sp) == b
  {
    var r := BlockOf(s, sp);
    assert r.num == b.num && r.start == b.start && r.end == b.end && r.lines == b.lines;
  }

  /** Where the fields of a rendered block lie in s. */
  lemma RenderedFields(s: string, p: nat, b: Block)
    requires WellFormed(b) && CopyAt(s, p, Render(b))
    ensures var a := p + |b.num|; var e := a + 31 + |b.lines|;
            e < |s| && s[p..a] == b.num && s[a + 1..a + 13] == b.start
            && s[a + 18..a + 30] == b.end && s[a + 31..e] == b.lines
  {
    RenderedCopies(s, p, b);
    var a := p + |b.num|;
    SliceOfCopy(s, p, b.num);
    SliceOfCopy(s, a + 1, b.start);
    SliceOfCopy(s, a + 18, b.end);
    SliceOfCopy(s, a + 31, b.lines);
  }

  /** How long a well-formed block's rendering is. */
  lemma RenderLength(b: Block)
    requires WellFormed(b)
    ensures |Render(b)| == |b.num| + |b.lines| + 32
  {
  }

  /** The match of a block rendered at p holds that block. */
  lemma BlockOfRendered(s: string, p: nat, b: Block)
    requires WellFormed(b) && CopyAt(s, p, Render(b))
    ensures SpanIn(s, RenderedSpan(p, b)) && BlockOf(s, RenderedSpan(p, b)) == b
  {
    RenderedFields(s, p, b);
    BlockOfParts(s, RenderedSpan(p, b), b);
  }

  /** A well-formed block rendered at p, followed by rest up to the end of s,
      lies in order within s and its span holds it. */
  lemma RenderedBlock(s: string, p: nat, b: Block, rest: string, q: nat)
    requires WellFormed(b) && p <= |s| && s[p..] == Render(b) + rest && q == RenderedSpan(p, b).end
    ensures q <= |s| && s[q..] == rest
    ensures SpanIn(s, RenderedSpan(p, b)) && BlockOf(s, RenderedSpan(p, b)) == b
  {
    RenderLength(b);
    SuffixSplit(s, p, Render(b), rest, q);
    BlockOfRendered(s, p, b);
  }

  /** Each block of bs is well formed, checked from the first on. */
  predicate AllWellFormed(bs: seq<Block>)
    decreases |bs|
  {
    bs == [] || (WellFormed(bs[0]) && AllWellFormed(bs[1..]))
  }

  lemma {:induction false} AllWellFormedOf(bs: seq<Block>)
    requires forall i :: 0 <= i < |bs| ==> WellFormed(bs[i])
    ensures AllWellFormed(bs)
    decreases |bs|
  {
    if bs != [] {
      assert forall i :: 0 <= i < |bs| - 1 ==> bs[1..][i] == bs[i + 1];
      AllWellFormedOf(bs[1..]);
    }
  }

  /** Where s ends with x + y from p on, x is copied at p and y ends s. */
  lemma SuffixSplit(s: string, p: nat, x: string, y: string, q: nat)
    requires p <= |s| && s[p..] == x + y && q == p + |x|
    ensures CopyAt(s, p, x) && q <= |s| && s[q..] == y
  {
    forall k | 0 <= k < |x|
      ensures s[p + k] == x[k]
    {
      assert s[p..][k] == (x + y)[k];
    }
    assert s[q..] == s[p..][|x|..];
  }

  /** The spans where blocks rendered one after another from p lie. */
  function RenderedSpans(p: nat, bs: seq<Block>): seq<Span>
    decreases |bs|
  {
    if bs == [] then [] else [RenderedSpan(p, bs[0])] + RenderedSpans(RenderedSpan(p, bs[0]).end, bs[1..])
  }

  /** The scan finds exactly the chains: sps is what it finds from p if and
      only if no match is skipped between and after the spans of sps. */
  lemma FindAllChain(s: string, p: nat, sps: seq<Span>, matchAt: (string, nat) --> Option<Span>)
    requires p <= |s| && Matcher(s, matchAt)
    ensures FindAll(s, p, matchAt) == sps <==> Chain(s, p, sps, matchAt)
  {
    FindAllIsChain(s, p, matchAt);
    if Chain(s, p, sps, matchAt) {
      ChainFindAll(s, p, sps, matchAt);
    }
  }

  /** Where Serialize's output ends s from p on, the pattern finds one match
      per block, each where that block was written. */
  lemma {:induction false} RenderedChain(s: string, p: nat, bs: seq<Block>)
    requires AllWellFormed(bs) && p <= |s| && s[p..] == Serialize(bs)
    ensures Matcher(s, MatchAt) && Chain(s, p, RenderedSpans(p, bs), MatchAt)
    decreases |bs|
  {
    MatchAtIsMatcher(s);
    if bs != [] {
      var b := bs[0];
      var q := RenderedSpan(p, b).end;
      RenderLength(b);
      SuffixSplit(s, p, Render(b), Serialize(bs[1..]), q);
      MatchRendered(s, p, b);
      RenderedChain(s, q, bs[1..]);
      assert RenderedSpans(p, bs)[1..] == RenderedSpans(q, bs[1..]);
    }
  }

  /** The spans of blocks rendered from p lie in order within s. */
  lemma {:induction false} RenderedSpansIn(s: string, p: nat, bs: seq<Block>)
    requires AllWellFormed(bs) && p <= |s| && s[p..] == Serialize(bs)
    ensures AllSpanIn(s, RenderedSpans(p, bs))
    decreases |bs|
  {
    if bs != [] {
      var b := bs[0];
      var q := RenderedSpan(p, b).end;
      RenderedBlock(s, p, b, Serialize(bs[1..]), q);
      RenderedSpansIn(s, q, bs[1..]);
      assert RenderedSpans(p, bs)[1..] == RenderedSpans(q, bs[1..]);
    }
  }

  /** The first block read from a rendering is the first block written. */
  lemma BlocksOfRenderedStep(s: string, p: nat, bs: seq<Block>, q: nat)
    requires AllWellFormed(bs) && bs != [] && p <= |s| && s[p..] == Serialize(bs)
    requires q == RenderedSpan(p, bs[0]).end
    ensures q <= |s| && s[q..] == Serialize(bs[1..]) && AllWellFormed(bs[1..])
    ensures AllSpanIn(s, RenderedSpans(p, bs))
    ensures BlocksOf(s, RenderedSpans(p, bs)) == [bs[0]] + BlocksOf(s, RenderedSpans(q, bs[1..]))
  {
    RenderedSpansIn(s, p, bs);
    RenderedBlock(s, p, bs[0], Serialize(bs[1..]), q);
    assert RenderedSpans(p, bs)[1..] == RenderedSpans(q, bs[1..]);
  }

  /** Those spans hold the blocks written, in order. */
  lemma {:induction false} BlocksOfRendered(s: string, p: nat, bs: seq<Block>)
    requires AllWellFormed(bs) && p <= |s| && s[p..] == Serialize(bs)
    ensures AllSpanIn(s, RenderedSpans(p, bs)) && BlocksOf(s, RenderedSpans(p, bs)) == bs
    decreases |bs|
  {
    RenderedSpansIn(s, p, bs);
    if bs != [] {
      var q := RenderedSpan(p, bs[0]).end;
      BlocksOfRenderedStep(s, p, bs, q);
      BlocksOfRendered(s, q, bs[1..]);
      assert bs == [bs[0]] + bs[1..];
    }
  }

  /** Reading back what Serialize wrote gives the same blocks. */
  lemma FindAllSerialize(bs: seq<Block>)
    requires forall i :: 0 <= i < |bs| ==> WellFormed(bs[i])
    ensures Blocks(Serialize(bs)) == bs
  {
    var s := Serialize(bs);
    AllWellFormedOf(bs);
    assert s[0..] == s;
    RenderedChain(s, 0, bs);
    FindAllChain(s, 0, RenderedSpans(0, bs), MatchAt);
    BlocksOfRendered(s, 0, bs);
  }

  /** Parsing is stable: what was parsed, written out again, parses the same. */
  lemma ReparseIsStable(s: string)
    ensures Blocks(Serialize(Blocks(s))) == Blocks(s)
  {
    BlocksWellFormed(s);
    FindAllSerialize(Blocks(s));
  }

  /** The length of a `<[^>]+>` tag at the start of s. */
  function TagLength(s: string): (r: Option<nat>)
    ensures r.Some? ==> 3 <= r.value <= |s| && s[0] == '<' && s[r.value - 1] == '>'
                        && '>' !in s[1..r.value - 1]
    ensures r.None? ==> s == [] || s[0] != '<' || (|s| > 1 && s[1] == '>') || '>' !in s[1..]
  {
    if s == [] || s[0] != '<' then None
    else
      var n := Run(s[1..], NotClose);
      if n == 0 || n + 1 == |s| then None
      else
        assert s[1..n + 1] == s[1..][..n];
        Some(n + 2)
  }

  /** No position of s starts a tag. */
  ghost predicate NoTags(s: string) {
    forall i :: 0 <= i < |s| ==> TagLength(s[i..]).None?
  }

  /** A suffix holds no more of each character than the whole. */
  lemma MultisetOfSuffix(s: string, n: nat)
    requires n <= |s|
    ensures multiset(s) == multiset(s[..n]) + multiset(s[n..])
  {
    assert s == s[..n] + s[n..];
  }

  /** re.sub(r'<[^>]+>', '', s): scanning left to right, each tag found is
      dropped and every other character is kept. */
  function StripTags(s: string): (r: string)
    ensures |r| <= |s|
    decreases |s|
  {
    if s == [] then []
    else
      match TagLength(s)
      case Some(n) => StripTags(s[n..])
      case None => [s[0]] + StripTags(s[1..])
  }

  /** StripTags only drops characters: every character it keeps, counted
      with repetitions, is one of s. */
  lemma {:induction false} StripTagsOnlyDrops(s: string)
    ensures multiset(StripTags(s)) <= multiset(s)
    decreases |s|
  {
    if s != [] {
      match TagLength(s)
      case Some(n) =>
        StripTagsOnlyDrops(s[n..]);
        MultisetOfSuffix(s, n);
      case None =>
        StripTagsOnlyDrops(s[1..]);
        MultisetOfSuffix(s, 1);
    }
  }

  /** What StripTags leaves holds no tag. */
  lemma {:induction false} StripTagsLeavesNoTag(s: string)
    ensures NoTags(StripTags(s))
    decreases |s|
  {
    if s != [] {
      match TagLength(s)
      case Some(n) =>
        StripTagsLeavesNoTag(s[n..]);
      case None =>
        var t := StripTags(s[1..]);
        StripTagsLeavesNoTag(s[1..]);
        var r := [s[0]] + t;
        forall i | 0 <= i < |r|
          ensures TagLength(r[i..]).None?
        {
          if i == 0 {
            if s[0] == '<' && |s| > 1 {
              if s[1] == '>' {
                assert t == [s[1]] + StripTags(s[2..]) by {
                  assert s[1..][1..] == s[2..];
                }
              } else {
                assert '>' !in s[1..];
                assert '>' !in t by {
                  StripTagsOnlyDrops(s[1..]);
                  assert multiset(t)['>'] <= multiset(s[1..])['>'] == 0;
                }
                RunUnique(r[1..], NotClose, |t|);
              }
            }
          } else {
            assert r[i..] == t[i - 1..];
          }
        }
    }
  }

  /** Text without tags comes back unchanged. */
  lemma {:induction false} StripTagsKeepsTagFree(s: string)
    requires NoTags(s)
    ensures StripTags(s) == s
    decreases |s|
  {
    if s != [] {
      assert TagLength(s[0..]).None?;
      assert s[0..] == s;
      forall i | 0 <= i < |s| - 1
        ensures TagLength(s[1..][i..]).None?
      {
        assert s[1..][i..] == s[i + 1..];
      }
      StripTagsKeepsTagFree(s[1..]);
    }
  }

  /** Text with no '<' comes back unchanged. */
  lemma StripTagsWithoutOpen(s: string)
    requires '<' !in s
    ensures StripTags(s) == s
  {
    forall i | 0 <= i < |s|
      ensures TagLength(s[i..]).None?
    {
      assert s[i..][0] == s[i];
    }
    StripTagsKeepsTagFree(s);
  }

  /** Removing tags a second time removes nothing more. */
  lemma StripTagsIdempotent(s: string)
    ensures StripTags(StripTags(s)) == StripTags(s)
  {
    StripTagsLeavesNoTag(s);
    StripTagsKeepsTagFree(StripTags(s));
  }
}
