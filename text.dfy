/**
 * The Python string built-ins the navigator relies on: character classes of
 * the `re` module, str.strip(), str.lower(), `in` on strings, str.startswith(),
 * str.replace() of one character, str.split(sep)[0] and the ordering that
 * sorted() uses on strings.
 */
module Text {

  /** str.isspace(), which is also the set that `\s` matches in a str pattern. */
  predicate IsSpace(c: char) {
    ('\t' <= c <= '\r') || ('\U{1C}' <= c <= '\U{1F}') || c == ' '
    || c == '\U{85}' || c == '\U{A0}' || c == '\U{1680}'
    || ('\U{2000}' <= c <= '\U{200A}') || c == '\U{2028}' || c == '\U{2029}'
    || c == '\U{202F}' || c == '\U{205F}' || c == '\U{3000}'
  }

  /** `\d`, restricted to the ASCII digits. */
  predicate IsDigit(c: char) {
    '0' <= c <= '9'
  }

  /** Path separators under the Windows path rules the program runs with. */
  predicate IsSep(c: char) {
    c == '/' || c == '\\'
  }

  /** The character classes that the regular expressions repeat greedily, and
      the characters of a file name. */
  datatype CharClass = Digit | Space | NotNewline | NotClose | NotSep

  predicate InClass(c: char, k: CharClass) {
    match k
    case Digit => IsDigit(c)        // \d
    case Space => IsSpace(c)        // \s
    case NotNewline => c != '\n'    // .
    case NotClose => c != '>'       // [^>]
    case NotSep => !IsSep(c)
  }

  /** How far a greedy repetition of class k reaches from position i of s. */
  function RunFrom(s: string, i: nat, k: CharClass): (n: nat)
    requires i <= |s|
    ensures i + n <= |s|
    ensures forall x {:trigger InClass(s[x], k)} :: i <= x < i + n ==> InClass(s[x], k)
    ensures i + n < |s| ==> !InClass(s[i + n], k)
    decreases |s| - i
  {
    if i == |s| || !InClass(s[i], k) then 0 else 1 + RunFrom(s, i + 1, k)
  }

  /** A length with RunFrom's two properties is the one RunFrom returns. */
  lemma RunFromUnique(s: string, i: nat, k: CharClass, n: nat)
    requires i + n <= |s|
    requires forall x :: i <= x < i + n ==> InClass(s[x], k)
    requires i + n < |s| ==> !InClass(s[i + n], k)
    ensures RunFrom(s, i, k) == n
  {
  }

  /** RunFrom from the start of s. */
  function Run(s: string, k: CharClass): (n: nat)
    ensures n <= |s|
    ensures forall i :: 0 <= i < n ==> InClass(s[i], k)
    ensures n < |s| ==> !InClass(s[n], k)
  {
    RunFrom(s, 0, k)
  }

  /** A length with Run's two properties is the one Run returns. */
  lemma RunUnique(s: string, k: CharClass, n: nat)
    requires n <= |s|
    requires forall i :: 0 <= i < n ==> InClass(s[i], k)
    requires n < |s| ==> !InClass(s[n], k)
    ensures Run(s, k) == n
  {
    RunFromUnique(s, 0, k, n);
  }

  /** How many characters of class k end s. */
  function RunBack(s: string, k: CharClass): (n: nat)
    ensures n <= |s|
    ensures forall i :: |s| - n <= i < |s| ==> InClass(s[i], k)
    ensures n < |s| ==> !InClass(s[|s| - 1 - n], k)
    decreases |s|
  {
    if s == [] || !InClass(s[|s| - 1], k) then 0 else 1 + RunBack(s[..|s| - 1], k)
  }

  /** A length with RunBack's two properties is the one RunBack returns. */
  lemma RunBackUnique(s: string, k: CharClass, n: nat)
    requires n <= |s|
    requires forall i :: |s| - n <= i < |s| ==> InClass(s[i], k)
    requires n < |s| ==> !InClass(s[|s| - 1 - n], k)
    ensures RunBack(s, k) == n
  {
  }

  ghost predicate AllSpace(s: string) {
    forall i :: 0 <= i < |s| ==> IsSpace(s[i])
  }

  /** r sits at offset a of s with nothing but whitespace around it. */
  ghost predicate SpaceAround(s: string, a: nat, r: string) {
    a + |r| <= |s| && s[a..a + |r|] == r && AllSpace(s[..a]) && AllSpace(s[a + |r|..])
  }

  /** str.strip() with no argument. */
  function Strip(s: string): string {
    var t := s[Run(s, Space)..];
    t[..|t| - RunBack(t, Space)]
  }

  /** Strip removes the white space around s and nothing else: what is left
      sits between white space only, is empty exactly when s is all white
      space, and otherwise begins and ends with other characters. */
  lemma StripTrims(s: string)
    ensures exists a :: SpaceAround(s, a, Strip(s))
    ensures Strip(s) == [] <==> AllSpace(s)
    ensures Strip(s) != [] ==> !IsSpace(Strip(s)[0]) && !IsSpace(Strip(s)[|Strip(s)| - 1])
  {
    var a := Run(s, Space);
    var t := s[a..];
    var r := Strip(s);
    assert SpaceAround(s, a, r) by {
      assert s[a..a + |r|] == r;
      assert s[a + |r|..] == t[|r|..];
    }
  }

  /** str.lower() on one character, for the ASCII letters. */
  function LowerChar(c: char): char {
    if 'A' <= c <= 'Z' then (c as int + 32) as char else c
  }

  /** str.lower(), for the ASCII letters: no upper-case letter is left, and
      every character that is not one is kept where it was. */
  function Lower(s: string): (r: string)
    ensures |r| == |s|
    ensures forall i :: 0 <= i < |s| ==> r[i] == LowerChar(s[i])
    ensures forall i :: 0 <= i < |r| ==> !('A' <= r[i] <= 'Z')
    ensures forall i :: 0 <= i < |s| && !('A' <= s[i] <= 'Z') ==> r[i] == s[i]
  {
    seq(|s|, i requires 0 <= i < |s| => LowerChar(s[i]))
  }

  /** Lowering what is already lowered changes nothing. */
  lemma LowerIdempotent(s: string)
    ensures Lower(Lower(s)) == Lower(s)
  {
    var r := Lower(s);
    assert forall i :: 0 <= i < |r| ==> Lower(r)[i] == r[i];
  }

  predicate IsPrefix(p: string, s: string) {
    |p| <= |s| && s[..|p|] == p
  }

  /** A prefix of a prefix of s is a prefix of s. */
  lemma PrefixOfPrefix(p: string, q: string, s: string)
    requires IsPrefix(p, q) && IsPrefix(q, s)
    ensures IsPrefix(p, s)
  {
    assert s[..|p|] == s[..|q|][..|p|];
  }

  predicate IsSuffix(p: string, s: string) {
    |p| <= |s| && s[|s| - |p|..] == p
  }

  /** needle occurs in hay starting at offset i. */
  ghost predicate OccursAt(hay: string, needle: string, i: int) {
    0 <= i && i + |needle| <= |hay| && hay[i..i + |needle|] == needle
  }

  /** Python's `needle in hay` for strings, tried offset by offset. */
  predicate Contains(hay: string, needle: string)
    decreases |hay|
  {
    IsPrefix(needle, hay) || (hay != [] && Contains(hay[1..], needle))
  }

  /** Contains finds needle exactly when needle occurs at some offset of hay. */
  lemma {:induction false} ContainsIff(hay: string, needle: string)
    ensures Contains(hay, needle) <==> exists i :: OccursAt(hay, needle, i)
    decreases |hay|
  {
    if hay != [] {
      ContainsIff(hay[1..], needle);
      if IsPrefix(needle, hay) {
        assert OccursAt(hay, needle, 0);
      }
      if Contains(hay[1..], needle) {
        var i :| OccursAt(hay[1..], needle, i);
        assert hay[i + 1..i + 1 + |needle|] == hay[1..][i..i + |needle|];
        assert OccursAt(hay, needle, i + 1);
      }
      if exists i :: OccursAt(hay, needle, i) {
        var i :| OccursAt(hay, needle, i);
        if i > 0 {
          assert hay[1..][i - 1..i - 1 + |needle|] == hay[i..i + |needle|];
          assert OccursAt(hay[1..], needle, i - 1);
        }
      }
    } else if needle == [] {
      assert OccursAt(hay, needle, 0);
    } else {
      assert forall i :: !OccursAt(hay, needle, i);
    }
  }

  /** str.replace(from, to) for single characters: no `from` is left when
      `to` differs from it, and a string without `from` comes back unchanged. */
  function ReplaceChar(s: string, from: char, to: char): (r: string)
    ensures |r| == |s|
    ensures forall i :: 0 <= i < |s| ==> r[i] == (if s[i] == from then to else s[i])
    ensures from != to ==> from !in r
    ensures from !in s ==> r == s
  {
    seq(|s|, i requires 0 <= i < |s| => if s[i] == from then to else s[i])
  }

  /** str.split(sep)[0]: everything before the first sep, or all of s. */
  function BeforeFirst(s: string, sep: char): (r: string)
    ensures IsPrefix(r, s)
    ensures sep !in r
    ensures |r| < |s| ==> s[|r|] == sep
    decreases |s|
  {
    if s == [] || s[0] == sep then [] else [s[0]] + BeforeFirst(s[1..], sep)
  }

  /** Python's `a <= b` on strings: code point by code point, a prefix first. */
  predicate LexLe(a: string, b: string)
    decreases |a|
  {
    a == [] || (b != [] && (a[0] < b[0] || (a[0] == b[0] && LexLe(a[1..], b[1..]))))
  }

  lemma {:induction false} LexLeTotal(a: string, b: string)
    ensures LexLe(a, b) || LexLe(b, a)
    decreases |a|
  {
    if a != [] && b != [] && a[0] == b[0] {
      LexLeTotal(a[1..], b[1..]);
    }
  }

  lemma {:induction false} LexLeTransitive(a: string, b: string, c: string)
    requires LexLe(a, b) && LexLe(b, c)
    ensures LexLe(a, c)
    decreases |a|
  {
    if a != [] && a[0] == b[0] && b[0] == c[0] {
      LexLeTransitive(a[1..], b[1..], c[1..]);
    }
  }
}
