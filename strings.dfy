/** The Python string primitives the converter relies on, on `seq<char>`
    (one `char` per Unicode code point): `str.isspace`, `str.strip`,
    `str.startswith`, `str.replace` and `str.splitlines`. */
module Strings {

  /** Python's `str.isspace()` for one code point; the `\s` class of `re`
      on `str` patterns accepts exactly the same characters. */
  predicate IsSpace(c: char) {
    ('\t' <= c <= '\r') || ('\U{1C}' <= c <= '\U{1F}') || c == ' '
    || c == '\U{85}' || c == '\U{A0}' || c == '\U{1680}'
    || ('\U{2000}' <= c <= '\U{200A}') || c == '\U{2028}' || c == '\U{2029}'
    || c == '\U{202F}' || c == '\U{205F}' || c == '\U{3000}'
  }

  /** `\d`, restricted to the ASCII digits. */
  predicate IsDigit(c: char) {
    '0' <= c <= '9'
  }

  /** The code points at which `str.splitlines()` ends a line. */
  predicate IsLineBreak(c: char) {
    c == '\n' || c == '\U{B}' || c == '\U{C}' || c == '\r'
    || ('\U{1C}' <= c <= '\U{1E}') || c == '\U{85}'
    || c == '\U{2028}' || c == '\U{2029}'
  }

  predicate StartsWith(s: string, prefix: string) {
    |prefix| <= |s| && s[..|prefix|] == prefix
  }

  /** Length of the longest all-whitespace prefix of `s`. */
  function LeadingSpaces(s: string): (n: nat)
    ensures n <= |s|
    ensures forall i :: 0 <= i < n ==> IsSpace(s[i])
    ensures n < |s| ==> !IsSpace(s[n])
  {
    if s == [] || !IsSpace(s[0]) then 0 else 1 + LeadingSpaces(s[1..])
  }

  /** Length of the longest all-whitespace suffix of `s`. */
  function TrailingSpaces(s: string): (n: nat)
    ensures n <= |s|
    ensures forall i :: |s| - n <= i < |s| ==> IsSpace(s[i])
    ensures n < |s| ==> !IsSpace(s[|s| - 1 - n])
  {
    if s == [] || !IsSpace(s[|s| - 1]) then 0 else 1 + TrailingSpaces(s[..|s| - 1])
  }

  /** Python's `str.strip()`: `s` without its leading and trailing
      whitespace. The result is the slice of `s` that starts after the
      leading whitespace, and everything after it in `s` is whitespace. */
  function Strip(s: string): (r: string)
    ensures LeadingSpaces(s) + |r| <= |s|
    ensures r == s[LeadingSpaces(s)..LeadingSpaces(s) + |r|]
    ensures forall i :: LeadingSpaces(s) + |r| <= i < |s| ==> IsSpace(s[i])
    ensures r == [] || (!IsSpace(r[0]) && !IsSpace(r[|r| - 1]))
  {
    var rest := s[LeadingSpaces(s)..];
    rest[..|rest| - TrailingSpaces(rest)]
  }

  /** `Strip` is determined by the amounts of whitespace it removes. */
  lemma StripExact(s: string, a: nat, b: nat)
    requires a + b < |s|
    requires forall i :: 0 <= i < a ==> IsSpace(s[i])
    requires forall i :: |s| - b <= i < |s| ==> IsSpace(s[i])
    requires !IsSpace(s[a]) && !IsSpace(s[|s| - 1 - b])
    ensures Strip(s) == s[a..|s| - b]
  {
    LeadingUnique(s, a);
    var rest := s[a..];
    forall i | |rest| - b <= i < |rest| ensures IsSpace(rest[i]) {
      assert rest[i] == s[a + i];
    }
    assert rest[|rest| - 1 - b] == s[|s| - 1 - b];
    TrailingUnique(rest, b);
    assert rest[..|rest| - b] == s[a..|s| - b];
  }

  lemma LeadingUnique(s: string, a: nat)
    requires a < |s| && !IsSpace(s[a])
    requires forall i :: 0 <= i < a ==> IsSpace(s[i])
    ensures LeadingSpaces(s) == a
  {
  }

  lemma TrailingUnique(s: string, b: nat)
    requires b < |s| && !IsSpace(s[|s| - 1 - b])
    requires forall i :: |s| - b <= i < |s| ==> IsSpace(s[i])
    ensures TrailingSpaces(s) == b
  {
  }

  /** Python's `s.replace(pat, rep)`: every occurrence of `pat`, found left
      to right without overlap, is replaced by `rep`. */
  function Replace(s: string, pat: string, rep: string): string
    requires pat != []
    decreases |s|
  {
    if |s| < |pat| then s
    else if s[..|pat|] == pat then rep + Replace(s[|pat|..], pat, rep)
    else [s[0]] + Replace(s[1..], pat, rep)
  }

  const CheckSpace: string := ['\U{2714}', ' ']   // "✔ "
  const BulletSpace: string := ['\U{2022}', ' ']  // "• "

  /** Rewriting "✔ " to "• " keeps the length and changes exactly the
      check marks that are followed by a space, wherever they are. */
  lemma {:induction false} ReplaceCheckAt(s: string, k: nat)
    requires k < |s|
    ensures |Replace(s, CheckSpace, BulletSpace)| == |s|
    ensures Replace(s, CheckSpace, BulletSpace)[k]
      == (if s[k] == '\U{2714}' && k + 1 < |s| && s[k + 1] == ' ' then '\U{2022}' else s[k])
    decreases |s|
  {
    var r := Replace(s, CheckSpace, BulletSpace);
    if |s| == 1 {
    } else if s[..2] == CheckSpace {
      assert s[..2] == [s[0], s[1]];
      var t := s[2..];
      assert r == BulletSpace + Replace(t, CheckSpace, BulletSpace);
      if t == [] {
      } else {
        ReplaceCheckAt(t, if k < 2 then 0 else k - 2);
      }
    } else {
      assert s[..2] == [s[0], s[1]];
      var t := s[1..];
      assert r == [s[0]] + Replace(t, CheckSpace, BulletSpace);
      ReplaceCheckAt(t, if k < 1 then 0 else k - 1);
    }
  }

  /** After the rewrite no "✔ " is left anywhere in the line. */
  lemma ReplaceCheckLeavesNone(s: string)
    ensures |Replace(s, CheckSpace, BulletSpace)| == |s|
    ensures forall i :: 0 <= i < |s| - 1 && Replace(s, CheckSpace, BulletSpace)[i] == '\U{2714}' ==>
      Replace(s, CheckSpace, BulletSpace)[i + 1] != ' '
  {
    if s != [] {
      ReplaceCheckAt(s, 0);
    }
    forall i | 0 <= i < |s| - 1 && Replace(s, CheckSpace, BulletSpace)[i] == '\U{2714}'
      ensures Replace(s, CheckSpace, BulletSpace)[i + 1] != ' '
    {
      ReplaceCheckAt(s, i);
      ReplaceCheckAt(s, i + 1);
    }
  }

  /** Index of the first line break in `s`, or `|s|` when there is none. */
  function FirstBreak(s: string): (k: nat)
    ensures k <= |s|
    ensures forall i :: 0 <= i < k ==> !IsLineBreak(s[i])
    ensures k < |s| ==> IsLineBreak(s[k])
  {
    if s == [] || IsLineBreak(s[0]) then 0 else 1 + FirstBreak(s[1..])
  }

  /** The three postconditions of `FirstBreak` determine it. */
  lemma FirstBreakUnique(s: string, k: nat)
    requires k <= |s|
    requires forall i :: 0 <= i < k ==> !IsLineBreak(s[i])
    requires k < |s| ==> IsLineBreak(s[k])
    ensures FirstBreak(s) == k
  {
  }

  predicate NoBreaks(s: string) {
    forall i :: 0 <= i < |s| ==> !IsLineBreak(s[i])
  }

  /** Python's `str.splitlines()`: the lines of `s` without their
      terminators; "\r\n" is one terminator, and a terminator at the very
      end does not start another line, so an empty `s` has no lines. */
  function SplitLines(s: string): (lines: seq<string>)
    ensures lines == [] <==> s == []
    ensures forall i :: 0 <= i < |lines| ==> NoBreaks(lines[i])
    ensures |lines| <= |s|
    decreases |s|
  {
    if s == [] then []
    else
      var k := FirstBreak(s);
      if k == |s| then [s]
      else
        [s[..k]] + SplitLines(s[After(s, k)..])
  }

  /** Where the line after the boundary at `k` starts: "\r\n" is one
      boundary, every other boundary is one character. */
  function After(s: string, k: nat): (next: nat)
    requires k < |s|
    ensures k < next <= |s|
  {
    if s[k] == '\r' && k + 1 < |s| && s[k + 1] == '\n' then k + 2 else k + 1
  }

  /** Each line followed by "\n": the text `"\n".join(lines) + "\n"`. */
  function Terminated(lines: seq<string>): string {
    if lines == [] then [] else lines[0] + "\n" + Terminated(lines[1..])
  }

  /** Splitting undoes terminating: `splitlines` recovers every line,
      empty ones included, in order. */
  lemma {:induction false} SplitTerminated(lines: seq<string>)
    requires forall i :: 0 <= i < |lines| ==> NoBreaks(lines[i])
    ensures SplitLines(Terminated(lines)) == lines
  {
    if lines != [] {
      assert Terminated(lines) == lines[0] + "\n" + Terminated(lines[1..]);
      SplitAtNewline(lines[0], Terminated(lines[1..]));
      assert forall i :: 0 <= i < |lines[1..]| ==> NoBreaks(lines[1..][i]) by {
        forall i | 0 <= i < |lines[1..]| ensures NoBreaks(lines[1..][i]) {
          assert lines[1..][i] == lines[i + 1];
        }
      }
      SplitTerminated(lines[1..]);
    }
  }

  /** A line without boundaries followed by "\n" is the first line. */
  lemma SplitAtNewline(l: string, rest: string)
    requires NoBreaks(l)
    ensures SplitLines(l + "\n" + rest) == [l] + SplitLines(rest)
  {
    var s := l + "\n" + rest;
    assert s[|l|] == '\n';
    assert forall i :: 0 <= i < |l| ==> s[i] == l[i];
    FirstBreakUnique(s, |l|);
    assert s[..|l|] == l;
    assert s[|l| + 1..] == rest;
  }

  /** A final terminator ("\n", "\r" or "\r\n") after a line that is not
      yet terminated adds no line. */
  lemma {:induction false} TrailingTerminator(s: string, term: string)
    requires s != [] && !IsLineBreak(s[|s| - 1])
    requires term == "\n" || term == "\r" || term == "\r\n"
    ensures SplitLines(s + term) == SplitLines(s)
    decreases |s|
  {
    if FirstBreak(s) == |s| {
      LastLineTerminated(s, term);
    } else {
      var rest := s[After(s, FirstBreak(s))..];
      StepAppend(s, term);
      assert rest[|rest| - 1] == s[|s| - 1];
      TrailingTerminator(rest, term);
    }
  }

  /** When the first boundary of `s` is not its last character, appending
      `u` changes neither the first line nor where the next one starts. */
  lemma StepAppend(s: string, u: string)
    requires FirstBreak(s) + 1 < |s|
    ensures After(s, FirstBreak(s)) == |s| ==> s[|s| - 1] == '\n'
    ensures SplitLines(s + u)
      == [s[..FirstBreak(s)]] + SplitLines(s[After(s, FirstBreak(s))..] + u)
  {
    var k := FirstBreak(s);
    var t := s + u;
    assert forall i :: 0 <= i < |s| ==> t[i] == s[i];
    FirstBreakUnique(t, k);
    assert After(t, k) == After(s, k);
    assert t[..k] == s[..k];
    SliceAppend(s, u, After(s, k));
  }

  lemma SliceAppend(s: string, u: string, n: nat)
    requires n <= |s|
    ensures (s + u)[n..] == s[n..] + u
  {
    assert forall i :: 0 <= i < |s| - n + |u| ==> (s + u)[n..][i] == (s[n..] + u)[i];
  }

  /** A last line without a boundary, followed by one terminator, is one line. */
  lemma LastLineTerminated(s: string, term: string)
    requires s != [] && NoBreaks(s)
    requires term == "\n" || term == "\r" || term == "\r\n"
    ensures SplitLines(s + term) == [s] == SplitLines(s)
  {
    var t := s + term;
    assert forall i :: 0 <= i < |s| ==> t[i] == s[i];
    assert t[|s|] == term[0];
    FirstBreakUnique(t, |s|);
    FirstBreakUnique(s, |s|);
    assert t[..|s|] == s;
    assert t[|s|..] == term;
  }
}
