/** The inline splitter of labelled lines: Python's
    `re.split(r'(\*\*.*?\*\*|\_.*?\_\`)', line)` followed by the mapping of
    each part to a `text` node (gerar_teste.py:199-212). */
module Inline {
  import opened Adf
  import opened Wrappers

  /** `a` at index `m` of `s`, followed by `b`. */
  predicate PairAt(s: string, m: int, a: char, b: char) {
    0 <= m && m + 1 < |s| && s[m] == a && s[m + 1] == b
  }

  /** No "\n" in `s` at an index in `[j, m)`; `.` in a pattern matches any
      code point except "\n". */
  predicate NewlineFree(s: string, j: int, m: int) {
    forall n :: j <= n < m && 0 <= n < |s| ==> s[n] != '\n'
  }

  /** The lazy `.*?X` from `j`: the first index at which the two-character
      closer `ab` starts, provided no "\n" has to be crossed to reach it. */
  function Close(s: string, j: nat, a: char, b: char): (k: Option<nat>)
    ensures k.Some? ==> j <= k.value && PairAt(s, k.value, a, b) && NewlineFree(s, j, k.value)
    ensures k.Some? ==> forall m :: j <= m < k.value ==> !PairAt(s, m, a, b)
    ensures k.None? ==> forall m :: j <= m && NewlineFree(s, j, m) ==> !PairAt(s, m, a, b)
    decreases |s| - j
  {
    if j + 2 > |s| then None
    else if PairAt(s, j, a, b) then Some(j)
    else if s[j] == '\n' then None
    else Close(s, j + 1, a, b)
  }

  /** `Close` finds the first closer reachable from `j`. */
  lemma {:induction false} CloseFinds(s: string, j: nat, k: nat, a: char, b: char)
    requires j <= k && PairAt(s, k, a, b)
    requires forall m :: j <= m < k ==> !PairAt(s, m, a, b) && s[m] != '\n'
    ensures Close(s, j, a, b) == Some(k)
    decreases k - j
  {
    if j < k {
      CloseFinds(s, j + 1, k, a, b);
    }
  }

  /** A `**…**` match: opened and closed by "**", with no "**" and no "\n"
      in between (the closer is the earliest one). */
  predicate IsBoldSpan(p: string) {
    |p| >= 4 && PairAt(p, 0, '*', '*') && PairAt(p, |p| - 2, '*', '*')
    && NewlineFree(p, 2, |p| - 2)
    && forall m :: 2 <= m < |p| - 2 ==> !PairAt(p, m, '*', '*')
  }

  /** A `_…_\`` match: opened by "_", closed by the earliest "_`" after it. */
  predicate IsTickSpan(p: string) {
    |p| >= 3 && p[0] == '_' && PairAt(p, |p| - 2, '_', '`')
    && NewlineFree(p, 1, |p| - 2)
    && forall m :: 1 <= m < |p| - 2 ==> !PairAt(p, m, '_', '`')
  }

  /** A part that starts and ends with "**", is at least four long and holds
      no "\n", so that the first alternative would match it whole. */
  predicate LongBoldShape(p: string) {
    |p| >= 4 && PairAt(p, 0, '*', '*') && PairAt(p, |p| - 2, '*', '*') && NewlineFree(p, 0, |p|)
  }

  lemma SpanAt(s: string, i: nat, k: nat, open: nat, a: char, b: char, p: string)
    requires 1 <= open <= 2 && i + open <= k
    requires forall m :: i + open <= m < k ==> !PairAt(s, m, a, b)
    requires PairAt(s, k, a, b) && NewlineFree(s, i + open, k)
    requires p == s[i..k + 2]
    ensures forall m :: open <= m < k - i ==> !PairAt(p, m, a, b)
    ensures NewlineFree(p, open, k - i)
  {
    forall m | open <= m < k - i ensures !PairAt(p, m, a, b) {
      assert !PairAt(s, i + m, a, b);
    }
  }

  /** Where the pattern matches at `i`, the end of the match; the first
      alternative is tried first. */
  function MatchAt(s: string, i: nat): (e: Option<nat>)
    ensures e.Some? ==> i < e.value <= |s| && (IsBoldSpan(s[i..e.value]) || IsTickSpan(s[i..e.value]))
  {
    if PairAt(s, i, '*', '*') && Close(s, i + 2, '*', '*').Some? then
      var k := Close(s, i + 2, '*', '*').value;
      SpanAt(s, i, k, 2, '*', '*', s[i..k + 2]);
      Some(k + 2)
    else if i < |s| && s[i] == '_' && Close(s, i + 1, '_', '`').Some? then
      var k := Close(s, i + 1, '_', '`').value;
      SpanAt(s, i, k, 1, '_', '`', s[i..k + 2]);
      Some(k + 2)
    else None
  }

  /** Conversely, a `**…**` or `_…_\`` span of the line that starts at `i`
      is the match there. */
  lemma SpanMatches(s: string, i: nat, e: nat)
    requires i <= e <= |s|
    requires IsBoldSpan(s[i..e]) || IsTickSpan(s[i..e])
    ensures MatchAt(s, i) == Some(e)
  {
    var p := s[i..e];
    assert forall m :: 0 <= m < |p| ==> p[m] == s[i + m];
    if IsBoldSpan(p) {
      forall m | i + 2 <= m < e - 2 ensures !PairAt(s, m, '*', '*') && s[m] != '\n' {
        assert !PairAt(p, m - i, '*', '*');
        assert p[m - i] == s[m];
      }
      CloseFinds(s, i + 2, e - 2, '*', '*');
    } else {
      forall m | i + 1 <= m < e - 2 ensures !PairAt(s, m, '_', '`') && s[m] != '\n' {
        assert !PairAt(p, m - i, '_', '`');
        assert p[m - i] == s[m];
      }
      CloseFinds(s, i + 1, e - 2, '_', '`');
    }
  }

  /** `match` gives no match anywhere in `[a, b)`. */
  predicate NoneIn(at: nat -> Option<nat>, a: nat, b: nat) {
    forall q: nat :: a <= q < b ==> at(q).None?
  }

  /** `g` is a gap of `s` at `o`: it is the text there, and the pattern
      matches nowhere inside it. */
  predicate GapAt(s: string, at: nat -> Option<nat>, o: nat, g: string) {
    o + |g| <= |s| && s[o..o + |g|] == g && NoneIn(at, o, o + |g|)
  }

  /** `m` is the match of the pattern at `a`; the pattern never matches
      the empty string. */
  predicate MatchPart(s: string, at: nat -> Option<nat>, a: nat, m: string) {
    0 < |m| && a + |m| <= |s| && at(a) == Some(a + |m|) && s[a..a + |m|] == m
  }

  /** `parts` is what `re.split` returns on `s[o..]` when its pattern
      matches at `q` as `at(q)` says: gaps and captured matches alternate,
      starting and ending with a gap; the pattern matches at no position
      inside a gap, and each captured part is the match at the position
      where it starts. */
  predicate SplitsBy(s: string, at: nat -> Option<nat>, o: nat, parts: seq<string>)
    decreases |parts|
  {
    if |parts| == 1 then GapAt(s, at, o, parts[0]) && o + |parts[0]| == |s|
    else
      |parts| >= 3 && GapAt(s, at, o, parts[0]) && MatchPart(s, at, o + |parts[0]|, parts[1])
      && SplitsBy(s, at, o + |parts[0]| + |parts[1]|, parts[2..])
  }

  /** Only one sequence of parts splits a line that way. */
  lemma {:induction false} SplitsByUnique(s: string, at: nat -> Option<nat>, o: nat, p: seq<string>, q: seq<string>)
    requires SplitsBy(s, at, o, p) && SplitsBy(s, at, o, q)
    ensures p == q
    decreases |p|
  {
    var a, b := o + |p[0]|, o + |q[0]|;
    if |p| > 1 && |q| > 1 {
      assert a == b;
      assert p[0] == q[0] && p[1] == q[1];
      SplitsByUnique(s, at, a + |p[1]|, p[2..], q[2..]);
      assert p == [p[0], p[1]] + p[2..];
      assert q == [q[0], q[1]] + q[2..];
    }
  }

  /** The split of `s[o..]` by the pattern of this module. */
  predicate Splits(s: string, o: nat, parts: seq<string>) {
    SplitsBy(s, (q: nat) => MatchAt(s, q), o, parts)
  }

  lemma ConsSplits(s: string, gap: nat, i: nat, e: nat, rest: seq<string>)
    requires gap <= i && MatchAt(s, i) == Some(e)
    requires forall q :: gap <= q < i ==> MatchAt(s, q).None?
    requires Splits(s, e, rest)
    ensures Splits(s, gap, [s[gap..i], s[i..e]] + rest)
  {
    var parts := [s[gap..i], s[i..e]] + rest;
    var at := (q: nat) => MatchAt(s, q);
    assert parts[0] == s[gap..i] && parts[1] == s[i..e] && parts[2..] == rest;
    assert GapAt(s, at, gap, parts[0]);
    assert MatchPart(s, at, i, parts[1]);
  }

  function Concat(parts: seq<string>): string {
    if parts == [] then [] else parts[0] + Concat(parts[1..])
  }

  /** A part with the long bold shape, starting at `gap`, is matched whole
      by the first alternative there; so a gap in which the pattern matches
      nowhere never has that shape. */
  lemma LongBoldMatches(s: string, gap: nat, i: nat)
    requires gap <= i <= |s|
    ensures LongBoldShape(s[gap..i]) ==> MatchAt(s, gap).Some?
  {
    if LongBoldShape(s[gap..i]) {
      assert PairAt(s, gap, '*', '*');
      assert PairAt(s, i - 2, '*', '*');
      assert NewlineFree(s, gap + 2, i - 2);
      assert Close(s, gap + 2, '*', '*').Some?;
    }
  }

  /** The shape of a `re.split` result for this pattern: gaps and matches
      alternate, starting and ending with a (possibly empty) gap; every match
      is a span, and no gap could have been matched by the first alternative. */
  predicate WellSplit(parts: seq<string>) {
    |parts| % 2 == 1
    && (forall k :: 0 <= k < |parts| && k % 2 == 1 ==> IsBoldSpan(parts[k]) || IsTickSpan(parts[k]))
    && (forall k :: 0 <= k < |parts| && k % 2 == 0 ==> !LongBoldShape(parts[k]))
  }

  lemma ConsWellSplit(g: string, m: string, rest: seq<string>)
    requires !LongBoldShape(g) && (IsBoldSpan(m) || IsTickSpan(m)) && WellSplit(rest)
    ensures WellSplit([g, m] + rest)
    ensures Concat([g, m] + rest) == g + m + Concat(rest)
  {
    var parts := [g, m] + rest;
    assert parts[1..] == [m] + rest;
    assert parts[1..][1..] == rest;
    forall k | 2 <= k < |parts| ensures parts[k] == rest[k - 2] { }
  }

  lemma SliceThree(s: string, a: nat, b: nat, c: nat)
    requires a <= b <= c <= |s|
    ensures s[a..] == s[a..b] + s[b..c] + s[c..]
  {
  }

  /** `re.split` with one capture group, resumed at `i` while the gap that
      has not been emitted yet starts at `gap`. */
  function SplitFrom(s: string, gap: nat, i: nat): (parts: seq<string>)
    requires gap <= i <= |s|
    requires forall q :: gap <= q < i ==> MatchAt(s, q).None?
    ensures Splits(s, gap, parts)
    ensures WellSplit(parts)
    ensures Concat(parts) == s[gap..]
    decreases |s| - i
  {
    if i == |s| then
      LongBoldMatches(s, gap, i);
      assert s[gap..i] == s[gap..];
      assert [s[gap..]][0] == s[gap..i];
      [s[gap..]]
    else
      match MatchAt(s, i)
      case Some(e) =>
        LongBoldMatches(s, gap, i);
        var rest := SplitFrom(s, e, e);
        ConsWellSplit(s[gap..i], s[i..e], rest);
        ConsSplits(s, gap, i, e, rest);
        SliceThree(s, gap, i, e);
        [s[gap..i], s[i..e]] + rest
      case None => SplitFrom(s, gap, i + 1)
  }

  /** The parts `re.split(r'(\*\*.*?\*\*|\_.*?\_\`)', s)` returns. */
  function SplitSpans(s: string): (parts: seq<string>)
    ensures Splits(s, 0, parts)
  {
    SplitFrom(s, 0, 0)
  }

  /** `SplitSpans` is the one split of the line that `Splits` describes. */
  lemma SplitSpansExact(s: string, parts: seq<string>)
    ensures Splits(s, 0, parts) <==> parts == SplitSpans(s)
  {
    if Splits(s, 0, parts) {
      SplitsByUnique(s, (q: nat) => MatchAt(s, q), 0, parts, SplitSpans(s));
    }
  }

  /** Python's `part[2:-2]`: the empty string for parts shorter than four. */
  function Inner(p: string): string {
    if |p| >= 4 then p[2..|p| - 2] else []
  }

  /** The node one part contributes: bold when it starts and ends with "**",
      plain when it is any other non-empty part, none when it is empty. */
  function NodeOf(p: string): seq<TextNode> {
    if |p| >= 2 && p[..2] == "**" && p[|p| - 2..] == "**" then [Bold(Inner(p))]
    else if p != [] then [Plain(p)]
    else []
  }

  /** The `text_nodes` the loop at gerar_teste.py:201-212 builds. */
  function PartsToNodes(parts: seq<string>): seq<TextNode> {
    if parts == [] then []
    else PartsToNodes(parts[..|parts| - 1]) + NodeOf(parts[|parts| - 1])
  }

  /** The inline content of a labelled line. */
  function Emphasize(line: string): seq<TextNode> {
    PartsToNodes(SplitSpans(line))
  }

  /** A bold span followed by text without markers splits into an empty
      gap, the span and the text, and gives a strong node for the span's
      inside followed by a plain node for the text. */
  lemma BoldThenPlain(w: string, rest: string)
    requires forall n :: 0 <= n < |w| ==> w[n] != '*' && w[n] != '\n'
    requires forall n :: 0 <= n < |rest| ==> rest[n] != '*' && rest[n] != '_'
    ensures SplitSpans("**" + w + "**" + rest) == ["", "**" + w + "**", rest]
    ensures Emphasize("**" + w + "**" + rest)
      == [Bold(w)] + if rest == [] then [] else [Plain(rest)]
  {
    var tag := "**" + w + "**";
    var line := tag + rest;
    var e := |tag|;
    assert forall n :: 0 <= n < |w| ==> line[2 + n] == w[n];
    assert forall n :: 0 <= n < |rest| ==> line[e + n] == rest[n];
    assert line[e - 2] == '*' && line[e - 1] == '*';
    CloseFinds(line, 2, e - 2, '*', '*');
    assert MatchAt(line, 0) == Some(e);
    forall q | e <= q < |line| ensures MatchAt(line, q).None? {
      assert line[q] == rest[q - e];
    }
    NoMatchTail(line, e, e);
    assert line[e..] == rest;
    assert line[0..0] == "" && line[0..e] == tag;
    assert SplitSpans(line) == ["", tag, rest];
    ThreeNodes(w, rest);
    PlainNode(rest);
  }

  lemma PlainNode(p: string)
    requires p != [] ==> p[0] != '*'
    ensures NodeOf(p) == if p == [] then [] else [Plain(p)]
  {
    assert |p| >= 2 ==> p[..2][0] == p[0];
  }

  lemma ThreeNodes(w: string, rest: string)
    ensures PartsToNodes(["", "**" + w + "**", rest]) == [Bold(w)] + NodeOf(rest)
  {
    var tag := "**" + w + "**";
    var parts := ["", tag, rest];
    assert parts[..2] == ["", tag] && parts[..2][..1] == [""] && parts[..2][..1][..0] == [];
    assert PartsToNodes([""]) == [];
    assert tag[..2] == "**" && tag[|tag| - 2..] == "**" && tag[2..|tag| - 2] == w;
    assert NodeOf(tag) == [Bold(w)];
    assert PartsToNodes(["", tag]) == [Bold(w)];
  }

  /** Every character of a part is a character of the joined parts. */
  lemma {:induction false} ConcatHas(parts: seq<string>, k: nat, c: char)
    requires k < |parts| && c in parts[k]
    ensures c in Concat(parts)
  {
    if k > 0 {
      ConcatHas(parts[1..], k - 1, c);
    }
  }

  /** The node list is empty exactly when every part is empty. */
  lemma {:induction false} NodesEmptyIff(parts: seq<string>)
    ensures PartsToNodes(parts) == [] <==> forall k :: 0 <= k < |parts| ==> parts[k] == []
  {
    if parts != [] {
      var init := parts[..|parts| - 1];
      NodesEmptyIff(init);
      assert forall k :: 0 <= k < |init| ==> init[k] == parts[k];
    }
  }

  lemma {:induction false} ConcatOfEmpties(parts: seq<string>)
    requires forall k :: 0 <= k < |parts| ==> parts[k] == []
    ensures Concat(parts) == []
  {
    if parts != [] {
      ConcatOfEmpties(parts[1..]);
    }
  }

  /** A labelled line is never empty, so its node list is never empty: the
      `if text_nodes:` guard at gerar_teste.py:213 always holds. */
  lemma EmphasizeNonEmpty(line: string)
    requires line != []
    ensures Emphasize(line) != []
  {
    var parts := SplitSpans(line);
    NodesEmptyIff(parts);
    if forall k :: 0 <= k < |parts| ==> parts[k] == [] {
      ConcatOfEmpties(parts);
    }
  }

  /** A part that a line without "\n" can yield. */
  predicate CleanPart(p: string) {
    (IsBoldSpan(p) || IsTickSpan(p) || !LongBoldShape(p)) && NewlineFree(p, 0, |p|)
  }

  /** What a node made from such a part looks like: a strong node's text
      holds no "**", and a plain node's text is never empty. */
  predicate CleanNode(n: TextNode) {
    (IsStrong(n) ==> forall m :: 0 <= m < |n.text| ==> !PairAt(n.text, m, '*', '*'))
    && (!IsStrong(n) ==> n.text != [])
  }

  lemma NodeOfClean(p: string)
    requires CleanPart(p)
    ensures forall j :: 0 <= j < |NodeOf(p)| ==> CleanNode(NodeOf(p)[j])
  {
    if |p| >= 2 && p[..2] == "**" && p[|p| - 2..] == "**" {
      assert p[0] == '*' && p[1] == '*';
      assert p[|p| - 2] == '*' && p[|p| - 1] == '*';
      if |p| >= 4 {
        assert !IsTickSpan(p);
        assert !(!LongBoldShape(p));
        var t := Inner(p);
        forall m | 0 <= m < |t| ensures !PairAt(t, m, '*', '*') {
          if PairAt(t, m, '*', '*') {
            assert PairAt(p, m + 2, '*', '*');
          }
        }
      }
    }
  }

  lemma {:induction false} NodesClean(parts: seq<string>)
    requires forall k :: 0 <= k < |parts| ==> CleanPart(parts[k])
    ensures forall j :: 0 <= j < |PartsToNodes(parts)| ==> CleanNode(PartsToNodes(parts)[j])
  {
    if parts != [] {
      var init := parts[..|parts| - 1];
      assert forall k :: 0 <= k < |init| ==> init[k] == parts[k];
      NodesClean(init);
      NodeOfClean(parts[|parts| - 1]);
      var a, b := PartsToNodes(init), NodeOf(parts[|parts| - 1]);
      assert PartsToNodes(parts) == a + b;
      forall j | 0 <= j < |a + b| ensures CleanNode((a + b)[j]) {
        if j >= |a| { assert (a + b)[j] == b[j - |a|]; }
      }
    }
  }

  /** Bold is decided by shape, yet on a line without "\n" every strong node
      has a text without "**": a captured `**…**` span stops at its earliest
      closer, and a left-over gap that starts and ends with "**" ("**",
      "***") is shorter than four and so gives an empty text. Plain nodes
      are never empty. */
  lemma EmphasizeClean(line: string)
    requires '\n' !in line
    ensures forall j :: 0 <= j < |Emphasize(line)| ==> CleanNode(Emphasize(line)[j])
  {
    var parts := SplitSpans(line);
    forall k | 0 <= k < |parts| ensures CleanPart(parts[k]) {
      if !NewlineFree(parts[k], 0, |parts[k]|) {
        var n :| 0 <= n < |parts[k]| && parts[k][n] == '\n';
        ConcatHas(parts, k, '\n');
        assert false;
      }
    }
    NodesClean(parts);
  }

  /** No text is lost to a gap: on a line without "\n", a gap (a part the
      pattern did not capture, such as a stray "**") becomes one plain node
      holding it whole, or nothing when empty; only the gaps "**" and "***",
      which start and end with "**", become a strong node with an empty
      text. */
  lemma GapNode(t: string, k: nat)
    requires '\n' !in t && k < |SplitSpans(t)| && k % 2 == 0
    ensures NodeOf(SplitSpans(t)[k]) == (if SplitSpans(t)[k] == [] then [] else [Plain(SplitSpans(t)[k])])
      || (SplitSpans(t)[k] in ["**", "***"] && NodeOf(SplitSpans(t)[k]) == [Bold("")])
  {
    var parts := SplitSpans(t);
    var p := parts[k];
    assert !LongBoldShape(p);
    if !NewlineFree(p, 0, |p|) {
      var n :| 0 <= n < |p| && p[n] == '\n';
      ConcatHas(parts, k, '\n');
      assert false;
    }
    if |p| >= 2 && p[..2] == "**" && p[|p| - 2..] == "**" {
      assert p[0] == '*' && p[1] == '*' && p[|p| - 2] == '*' && p[|p| - 1] == '*';
      assert |p| < 4;
      assert p == "**" || p == "***";
    }
  }

  /** Where the pattern matches nowhere from `i` on, the rest of the line
      is one last gap. */
  lemma {:induction false} NoMatchTail(s: string, gap: nat, i: nat)
    requires gap <= i <= |s|
    requires forall q :: gap <= q < i ==> MatchAt(s, q).None?
    requires forall q :: i <= q < |s| ==> MatchAt(s, q).None?
    ensures SplitFrom(s, gap, i) == [s[gap..]]
    decreases |s| - i
  {
    if i < |s| {
      NoMatchTail(s, gap, i + 1);
    }
  }

  /** A line with neither "*" nor "_" is split into itself alone, and so
      gives exactly one plain node (none when it is empty). */
  lemma MarkerFree(line: string)
    requires forall n :: 0 <= n < |line| ==> line[n] != '*' && line[n] != '_'
    ensures SplitSpans(line) == [line]
    ensures Emphasize(line) == if line == [] then [] else [Plain(line)]
  {
    NoMatchTail(line, 0, 0);
    assert SplitSpans(line) == [line];
    assert [line][..0] == [];
    assert |line| >= 2 ==> line[..2][0] == line[0];
    assert NodeOf(line) == if line == [] then [] else [Plain(line)];
    assert PartsToNodes([line]) == PartsToNodes([]) + NodeOf(line);
  }
}
