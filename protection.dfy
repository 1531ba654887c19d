/**
  Protection of readings already present in a line: the pattern
  `EXISTING_FURIGANA_REGEX` (main.py:21), the capturing `re.split` over it and
  `add_furigana_smart` (main.py:47-68). The regular expression is replaced by
  a left-to-right scanner whose result is proved equal to the pattern's
  language.
 */
module Protection {
  import opened Wrappers
  import opened PyText
  import opened Scripts
  import opened Annotator

  /** The characters of the pattern's leading class: kanji, kana and 々. */
  predicate IsClassChar(c: char) {
    IsKanji(c) || IsKana(c) || c == IterationMark
  }

  /** An opening bracket, ASCII or fullwidth. */
  predicate IsOpenParen(c: char) {
    c == '(' || c == '\U{FF08}'
  }

  /** A closing bracket, ASCII or fullwidth; the pattern does not tie its
      style to that of the opening bracket. */
  predicate IsCloseParen(c: char) {
    c == ')' || c == '\U{FF09}'
  }

  /** `t` reads as the pattern with its opening bracket at `i`: one or more
      class characters, the bracket, one or more kana, a closing bracket. */
  ghost predicate ShapedAt(t: string, i: int) {
    && 0 < i && i + 2 < |t|
    && (forall k :: 0 <= k < i ==> IsClassChar(t[k]))
    && IsOpenParen(t[i])
    && (forall k :: i < k < |t| - 1 ==> IsKana(t[k]))
    && IsCloseParen(t[|t| - 1])
  }

  /** The language of `EXISTING_FURIGANA_REGEX`. */
  ghost predicate IsAnnotatedSpan(t: string) {
    exists i :: ShapedAt(t, i)
  }

  /** The end of the pattern's match starting at `p`, if there is one. The
      runs are maximal because a shorter class run would be followed by a
      class character, never by a bracket, and a shorter kana run by a kana,
      never by a closing bracket: backtracking finds nothing else. */
  function MatchAt(s: string, p: nat): (r: Option<nat>)
    requires p <= |s|
    ensures r.Some? ==> p < r.value <= |s|
  {
    var q := RunEnd(s, p, IsClassChar);
    if q == p || q == |s| || !IsOpenParen(s[q]) then None
    else
      var e := RunEnd(s, q + 1, IsKana);
      if e == q + 1 || e == |s| || !IsCloseParen(s[e]) then None
      else Some(e + 1)
  }

  /** Every match the scanner reports is in the pattern's language. */
  lemma MatchAtSound(s: string, p: nat)
    requires p <= |s|
    ensures MatchAt(s, p).Some? ==> IsAnnotatedSpan(s[p..MatchAt(s, p).value])
  {
    if MatchAt(s, p).Some? {
      var q := RunEnd(s, p, IsClassChar);
      var e := RunEnd(s, q + 1, IsKana);
      var t := s[p..e + 1];
      forall k | 0 <= k < q - p ensures IsClassChar(t[k]) {
        assert t[k] == s[p + k];
      }
      forall k | q - p < k < |t| - 1 ensures IsKana(t[k]) {
        assert t[k] == s[p + k];
      }
      assert ShapedAt(t, q - p);
    }
  }

  /** The scanner finds every match of the pattern: a span of `s` in the
      pattern's language starting at `p` is the match at `p`. */
  lemma MatchAtComplete(s: string, p: nat, e: nat)
    requires p <= e <= |s|
    ensures IsAnnotatedSpan(s[p..e]) ==> MatchAt(s, p) == Some(e)
  {
    if IsAnnotatedSpan(s[p..e]) {
      var t := s[p..e];
      var i :| ShapedAt(t, i);
      assert forall k :: 0 <= k < |t| ==> t[k] == s[p + k];
      assert IsOpenParen(s[p + i]) && IsCloseParen(s[e - 1]);
      RunEndUnique(s, p, IsClassChar, p + i);
      RunEndUnique(s, p + i + 1, IsKana, e - 1);
    }
  }

  /** `EXISTING_FURIGANA_REGEX.fullmatch(part)` (main.py:62). */
  function FullMatch(t: string): bool {
    MatchAt(t, 0) == Some(|t|)
  }

  /** The scanner's full match is exactly membership in the pattern's
      language. */
  lemma FullMatchIff(t: string)
    ensures FullMatch(t) <==> IsAnnotatedSpan(t)
  {
    MatchAtSound(t, 0);
    MatchAtComplete(t, 0, |t|);
    assert t[0..|t|] == t;
  }

  datatype Span = Span(start: nat, end: nat)

  /** The leftmost match at or after `pos`, as `re` searches for it. */
  function FindMatch(s: string, pos: nat): (r: Option<Span>)
    requires pos <= |s|
    ensures r.Some? ==> pos <= r.value.start < r.value.end <= |s|
    ensures r.Some? ==> MatchAt(s, r.value.start) == Some(r.value.end)
    ensures r.Some? ==> forall p :: pos <= p < r.value.start ==> MatchAt(s, p).None?
    ensures r.None? ==> forall p :: pos <= p <= |s| ==> MatchAt(s, p).None?
    decreases |s| - pos
  {
    match MatchAt(s, pos)
    case Some(e) => Some(Span(pos, e))
    case None => if pos == |s| then None else FindMatch(s, pos + 1)
  }

  /** Inside a run of class characters, a match starting one character
      earlier ends where the later one does. */
  lemma MatchInsideRun(s: string, p: nat)
    requires p < |s| && IsClassChar(s[p])
    requires MatchAt(s, p + 1).Some?
    ensures MatchAt(s, p) == MatchAt(s, p + 1)
  {
    assert RunEnd(s, p, IsClassChar) == RunEnd(s, p + 1, IsClassChar);
  }

  /** A match found from `pos` starts at `pos` or just after a character
      outside the class: it takes the whole class run it begins in, clipped
      only by where the search started, so kana directly before a kanji run
      are taken into the protected span. */
  lemma MatchStartsAtRunBoundary(s: string, pos: nat)
    requires pos <= |s|
    ensures FindMatch(s, pos).Some? && FindMatch(s, pos).value.start > pos ==>
              !IsClassChar(s[FindMatch(s, pos).value.start - 1])
  {
    var r := FindMatch(s, pos);
    if r.Some? && r.value.start > pos {
      var st := r.value.start;
      if IsClassChar(s[st - 1]) {
        MatchInsideRun(s, st - 1);
      }
    }
  }

  /** `EXISTING_FURIGANA_REGEX.split(s[pos..])` with the search resumed at
      `pos`: the unmatched gaps and the matched spans, alternating, starting
      and ending with a gap. */
  function SplitFrom(s: string, pos: nat): (parts: seq<string>)
    requires pos <= |s|
    ensures |parts| % 2 == 1
    decreases |s| - pos
  {
    match FindMatch(s, pos)
    case None => [s[pos..]]
    case Some(sp) =>
      var rest := SplitFrom(s, sp.end);
      assert (|rest| + 2) % 2 == |rest| % 2;
      [s[pos..sp.start], s[sp.start..sp.end]] + rest
  }

  /** `EXISTING_FURIGANA_REGEX.split(text)` (main.py:52). */
  function SplitParts(text: string): seq<string> {
    SplitFrom(text, 0)
  }

  /** One step of the split loses nothing: a gap, a span and the parts of
      the rest concatenate to the text from the gap on. */
  lemma ConcatSlices(s: string, a: nat, b: nat, c: nat, rest: seq<string>)
    requires a <= b <= c <= |s|
    requires Concat(rest) == s[c..]
    ensures Concat([s[a..b], s[b..c]] + rest) == s[a..]
  {
    ConcatAppend([s[a..b], s[b..c]], rest);
    assert Concat([s[a..b], s[b..c]]) == s[a..b] + s[b..c];
    assert s[a..] == s[a..b] + s[b..c] + s[c..];
  }

  /** The split loses nothing: its parts concatenate, in order, to the text. */
  lemma {:induction false} SplitLossless(s: string, pos: nat)
    requires pos <= |s|
    ensures Concat(SplitFrom(s, pos)) == s[pos..]
    decreases |s| - pos
  {
    match FindMatch(s, pos)
    case None =>
    case Some(sp) =>
      SplitLossless(s, sp.end);
      ConcatSlices(s, pos, sp.start, sp.end, SplitFrom(s, sp.end));
  }

  /** A gap before which the search found no match does not fully match
      the pattern either. */
  lemma GapIsPlain(s: string, pos: nat, st: nat)
    requires pos <= st <= |s|
    requires forall p :: pos <= p < st ==> MatchAt(s, p).None?
    ensures !FullMatch(s[pos..st])
  {
    MatchAtComplete(s, pos, st);
    FullMatchIff(s[pos..st]);
  }

  /** No slice of `g`, at any position, is in the pattern's language. */
  ghost predicate NoAnnotationIn(g: string) {
    forall a, b :: 0 <= a <= b <= |g| ==> !IsAnnotatedSpan(g[a..b])
  }

  /** A gap before which the search found no match holds no annotation
      anywhere, not even a partial one. */
  lemma GapClean(s: string, pos: nat, st: nat)
    requires pos <= st <= |s|
    requires forall p :: pos <= p < st ==> MatchAt(s, p).None?
    ensures NoAnnotationIn(s[pos..st])
  {
    var g := s[pos..st];
    forall a, b | 0 <= a <= b <= |g| ensures !IsAnnotatedSpan(g[a..b]) {
      SliceOfSlice(s, pos, st, a, b);
      if a < b {
        MatchAtComplete(s, pos + a, pos + b);
      }
    }
  }

  /** A matched span fully matches the pattern on its own. */
  lemma MatchIsAnnotated(s: string, st: nat, e: nat)
    requires st <= |s|
    requires MatchAt(s, st) == Some(e)
    ensures FullMatch(s[st..e])
  {
    MatchAtSound(s, st);
    FullMatchIff(s[st..e]);
  }

  /** Parts alternate between gaps, at even positions, and annotations, at
      odd ones. */
  ghost predicate Alternating(parts: seq<string>) {
    AlternatesBy(parts, FullMatch)
  }

  /** `F` holds exactly at the odd positions of `parts`. */
  ghost predicate AlternatesBy(parts: seq<string>, F: string -> bool) {
    forall i :: 0 <= i < |parts| ==> (F(parts[i]) <==> i % 2 == 1)
  }

  /** A gap and an annotation in front of alternating parts keep them
      alternating. */
  lemma AlternatingPrepend(gap: string, span: string, rest: seq<string>, F: string -> bool)
    requires !F(gap) && F(span) && AlternatesBy(rest, F)
    ensures AlternatesBy([gap, span] + rest, F)
  {
    var parts := [gap, span] + rest;
    forall i | 2 <= i < |parts|
      ensures F(parts[i]) <==> i % 2 == 1
    {
      assert parts[i] == rest[i - 2];
      assert i % 2 == (i - 2) % 2;
    }
  }

  /** The parts alternate: a part fully matches the pattern iff it is one of
      the matched spans, at an odd position; no gap does. */
  lemma {:induction false} SplitAlternates(s: string, pos: nat)
    requires pos <= |s|
    ensures Alternating(SplitFrom(s, pos))
    decreases |s| - pos
  {
    match FindMatch(s, pos)
    case None =>
      GapIsPlain(s, pos, |s|);
      assert s[pos..] == s[pos..|s|];
      assert SplitFrom(s, pos) == [s[pos..]];
    case Some(sp) =>
      var gap, span, rest := s[pos..sp.start], s[sp.start..sp.end], SplitFrom(s, sp.end);
      assert SplitFrom(s, pos) == [gap, span] + rest;
      GapIsPlain(s, pos, sp.start);
      MatchIsAnnotated(s, sp.start, sp.end);
      SplitAlternates(s, sp.end);
      AlternatingPrepend(gap, span, rest, FullMatch);
  }

  /** A clean gap and a span in front of parts whose even positions are
      clean keep the even positions clean. */
  lemma CleanGapPrepend(gap: string, span: string, rest: seq<string>)
    requires NoAnnotationIn(gap)
    requires forall i :: 0 <= i < |rest| && i % 2 == 0 ==> NoAnnotationIn(rest[i])
    ensures forall i :: 0 <= i < |[gap, span] + rest| && i % 2 == 0 ==> NoAnnotationIn(([gap, span] + rest)[i])
  {
    var parts := [gap, span] + rest;
    forall i | 2 <= i < |parts| && i % 2 == 0 ensures NoAnnotationIn(parts[i]) {
      assert parts[i] == rest[i - 2];
      assert (i - 2) % 2 == 0;
    }
  }

  /** The gaps of the split, at even positions, hold no annotation anywhere:
      every annotation of the text lies inside a matched span. */
  lemma {:induction false} GapsHoldNoAnnotation(s: string, pos: nat)
    requires pos <= |s|
    ensures forall i :: 0 <= i < |SplitFrom(s, pos)| && i % 2 == 0 ==> NoAnnotationIn(SplitFrom(s, pos)[i])
    decreases |s| - pos
  {
    match FindMatch(s, pos)
    case None =>
      GapClean(s, pos, |s|);
      assert s[pos..] == s[pos..|s|];
      assert SplitFrom(s, pos) == [s[pos..]];
    case Some(sp) =>
      var gap, span, rest := s[pos..sp.start], s[sp.start..sp.end], SplitFrom(s, sp.end);
      assert SplitFrom(s, pos) == [gap, span] + rest;
      GapClean(s, pos, sp.start);
      GapsHoldNoAnnotation(s, sp.end);
      CleanGapPrepend(gap, span, rest);
  }

  /** A match can start inside a match found earlier only where that match
      starts its class run, and then it is the same match: the bracket, the
      kana and the closing bracket begin none. */
  lemma MatchInsideMatch(s: string, st: nat, a: nat)
    requires st <= a <= |s|
    requires MatchAt(s, st).Some? && a < MatchAt(s, st).value
    ensures MatchAt(s, a).Some? ==> MatchAt(s, a) == MatchAt(s, st)
  {
    var q := RunEnd(s, st, IsClassChar);
    var k := RunEnd(s, q + 1, IsKana);
    if a < q {
      RunEndUnique(s, a, IsClassChar, q);
    } else if a == q || a == k {
      assert RunEnd(s, a, IsClassChar) == a;
    } else {
      RunEndUnique(s, a, IsClassChar, k);
    }
  }

  /** The join of one part is that part, and of two parts their
      concatenation. */
  lemma ConcatPair(x: string, y: string)
    ensures Concat([x]) == x && Concat([x, y]) == x + y
  {
    assert [x][1..] == [] && [x, y][1..] == [y];
    assert Concat([y]) == y + Concat([]);
  }

  /** Where part `i` of a split starts, counted from the split's start. */
  function PartStart(parts: seq<string>, i: nat): nat
    requires i <= |parts|
  {
    |Concat(parts[..i])|
  }

  /** Prepending a gap and a span shifts every later part's start by their
      lengths. */
  lemma PartStartPrepend(gap: string, span: string, rest: seq<string>, i: nat)
    requires i <= |rest|
    ensures PartStart([gap, span] + rest, i + 2) == |gap| + |span| + PartStart(rest, i)
  {
    assert ([gap, span] + rest)[..i + 2] == [gap, span] + rest[..i];
    ConcatAppend([gap, span], rest[..i]);
    ConcatPair(gap, span);
  }

  /** The span the search finds from `pos` is part 1 of the split, and its
      bounds are where the search found it. */
  lemma FoundSpanBounds(s: string, pos: nat, sp: Span)
    requires pos <= |s| && FindMatch(s, pos) == Some(sp)
    ensures |SplitFrom(s, pos)| >= 2
    ensures pos + PartStart(SplitFrom(s, pos), 1) == sp.start
    ensures pos + PartStart(SplitFrom(s, pos), 2) == sp.end
  {
    var gap, span := s[pos..sp.start], s[sp.start..sp.end];
    var parts := [gap, span] + SplitFrom(s, sp.end);
    assert SplitFrom(s, pos) == parts;
    assert parts[..1] == [gap] && parts[..2] == [gap, span];
    ConcatPair(gap, span);
  }

  /** The parts after the found span are the split of the rest of the text,
      two positions later and at the same place in the text. */
  lemma PartsAfterSpan(s: string, pos: nat, sp: Span, i: nat)
    requires pos <= |s| && FindMatch(s, pos) == Some(sp)
    requires i <= |SplitFrom(s, sp.end)|
    ensures |SplitFrom(s, pos)| == |SplitFrom(s, sp.end)| + 2
    ensures pos + PartStart(SplitFrom(s, pos), i + 2) == sp.end + PartStart(SplitFrom(s, sp.end), i)
  {
    var gap, span := s[pos..sp.start], s[sp.start..sp.end];
    assert SplitFrom(s, pos) == [gap, span] + SplitFrom(s, sp.end);
    PartStartPrepend(gap, span, SplitFrom(s, sp.end), i);
  }

  /** The search from `pos` finds a match that starts no later than any
      annotation at or after `pos`. */
  lemma SearchReachesAnnotation(s: string, pos: nat, a: nat, b: nat)
    requires pos <= a < b <= |s|
    requires IsAnnotatedSpan(s[a..b])
    ensures FindMatch(s, pos).Some? && FindMatch(s, pos).value.start <= a
  {
    MatchAtComplete(s, a, b);
  }

  /** An annotation that starts inside a found match ends where that match
      does. */
  lemma AnnotationStaysInSpan(s: string, st: nat, a: nat, b: nat)
    requires st <= a < b <= |s|
    requires MatchAt(s, st).Some? && a < MatchAt(s, st).value
    requires IsAnnotatedSpan(s[a..b])
    ensures b == MatchAt(s, st).value
  {
    MatchAtComplete(s, a, b);
    MatchInsideMatch(s, st, a);
  }

  /** Every annotation of the text lies inside one matched span of the
      split: none lies in a gap or straddles a gap and a span. */
  lemma {:induction false} EveryAnnotationInsideASpan(s: string, pos: nat, a: nat, b: nat)
    requires pos <= a < b <= |s|
    requires IsAnnotatedSpan(s[a..b])
    ensures exists i :: 0 <= i < |SplitFrom(s, pos)| && i % 2 == 1 &&
              pos + PartStart(SplitFrom(s, pos), i) <= a && b <= pos + PartStart(SplitFrom(s, pos), i + 1)
    decreases |s| - pos
  {
    SearchReachesAnnotation(s, pos, a, b);
    var sp := FindMatch(s, pos).value;
    if a < sp.end {
      AnnotationStaysInSpan(s, sp.start, a, b);
      FoundSpanBounds(s, pos, sp);
      assert 1 % 2 == 1;
    } else {
      EveryAnnotationInsideASpan(s, sp.end, a, b);
      var rest := SplitFrom(s, sp.end);
      var i :| 0 <= i < |rest| && i % 2 == 1 &&
               sp.end + PartStart(rest, i) <= a && b <= sp.end + PartStart(rest, i + 1);
      PartsAfterSpan(s, pos, sp, i);
      PartsAfterSpan(s, pos, sp, i + 1);
      assert (i + 2) % 2 == 1;
    }
  }

  /** The text `add_furigana_smart` appends for one part when it is not
      empty: the part itself when it fully matches the pattern, its basic
      annotation otherwise. Empty parts contribute nothing. */
  function PartOut(seg: string -> seq<Token>, part: string): string {
    if part == "" then ""
    else if FullMatch(part) then part
    else BasicAnnotation(seg, part)
  }

  /** The list `final_line` after the loop has seen `parts` (main.py:54-66):
      empty parts skipped, the others replaced by their output. */
  function Pieces(seg: string -> seq<Token>, parts: seq<string>): seq<string> {
    if parts == [] then []
    else
      var last := parts[|parts| - 1];
      Pieces(seg, parts[..|parts| - 1]) + (if last == "" then [] else [PartOut(seg, last)])
  }

  /** `add_furigana_smart(text)`, as a function of the segmenter. */
  function SmartAnnotation(seg: string -> seq<Token>, text: string): string {
    Concat(Pieces(seg, SplitParts(text)))
  }

  /** `add_furigana_smart`: split the text, keep the existing annotations,
      annotate the rest, and join the results in order. */
  method AddFuriganaSmart(seg: string -> seq<Token>, text: string) returns (r: string)
    ensures r == SmartAnnotation(seg, text)
  {
    var parts := SplitParts(text);
    var finalLine: seq<string> := [];
    for i := 0 to |parts|
      invariant finalLine == Pieces(seg, parts[..i])
    {
      assert parts[..i + 1][..i] == parts[..i];
      var part := parts[i];
      if part != "" {
        assert Pieces(seg, parts[..i + 1]) == finalLine + [PartOut(seg, part)];
        if FullMatch(part) {
          finalLine := finalLine + [part];
        } else {
          var annotated := AddFuriganaBasic(seg, part);
          finalLine := finalLine + [annotated];
        }
      }
    }
    assert parts[..|parts|] == parts;
    r := Concat(finalLine);
  }

  /** The output of every part, empty or not, in order. */
  function Outputs(seg: string -> seq<Token>, parts: seq<string>): (outs: seq<string>)
    ensures |outs| == |parts|
    ensures forall i :: 0 <= i < |parts| ==> outs[i] == PartOut(seg, parts[i])
  {
    if parts == [] then []
    else
      var init := parts[..|parts| - 1];
      assert forall i :: 0 <= i < |init| ==> init[i] == parts[i];
      Outputs(seg, init) + [PartOut(seg, parts[|parts| - 1])]
  }

  /** Skipping empty parts does not change what is joined. */
  lemma {:induction false} SkipEmptyHarmless(seg: string -> seq<Token>, parts: seq<string>)
    ensures Concat(Pieces(seg, parts)) == Concat(Outputs(seg, parts))
    decreases |parts|
  {
    if parts != [] {
      var init, last := parts[..|parts| - 1], parts[|parts| - 1];
      var out := PartOut(seg, last);
      var tail := if last == "" then [] else [out];
      SkipEmptyHarmless(seg, init);
      ConcatAppend(Outputs(seg, init), [out]);
      ConcatAppend(Pieces(seg, init), tail);
    }
  }

  /** What `add_furigana_smart` returns, part by part: the split of the text
      concatenates back to the text, its parts alternate between gaps (even
      positions) and existing annotations (odd positions), no gap holds an
      annotation anywhere, every annotation of the text lies inside one
      matched span, and the output is the concatenation, in the same
      order, of the parts' outputs, in which every annotation stands
      verbatim. */
  lemma SmartKeepsAnnotations(seg: string -> seq<Token>, text: string)
    ensures Concat(SplitParts(text)) == text
    ensures forall i :: 0 <= i < |SplitParts(text)| ==> (FullMatch(SplitParts(text)[i]) <==> i % 2 == 1)
    ensures SmartAnnotation(seg, text) == Concat(Outputs(seg, SplitParts(text)))
    ensures forall i :: 0 <= i < |SplitParts(text)| && i % 2 == 1 ==>
              Outputs(seg, SplitParts(text))[i] == SplitParts(text)[i]
    ensures forall i :: 0 <= i < |SplitParts(text)| && i % 2 == 0 ==> NoAnnotationIn(SplitParts(text)[i])
    ensures forall a, b :: 0 <= a < b <= |text| && IsAnnotatedSpan(text[a..b]) ==>
              exists i :: 0 <= i < |SplitParts(text)| && i % 2 == 1 &&
                PartStart(SplitParts(text), i) <= a && b <= PartStart(SplitParts(text), i + 1)
  {
    var parts := SplitParts(text);
    SplitLossless(text, 0);
    SplitAlternates(text, 0);
    GapsHoldNoAnnotation(text, 0);
    forall a, b | 0 <= a < b <= |text| && IsAnnotatedSpan(text[a..b])
      ensures exists i :: 0 <= i < |parts| && i % 2 == 1 &&
                PartStart(parts, i) <= a && b <= PartStart(parts, i + 1)
    {
      EveryAnnotationInsideASpan(text, 0, a, b);
    }
    SkipEmptyHarmless(seg, parts);
  }

  /** When the basic annotation leaves every part the loop hands it
      unchanged, `add_furigana_smart` returns its input unchanged. */
  lemma {:induction false} PiecesIdentity(seg: string -> seq<Token>, parts: seq<string>)
    requires forall i :: 0 <= i < |parts| && parts[i] != "" && !FullMatch(parts[i]) ==>
               BasicAnnotation(seg, parts[i]) == parts[i]
    ensures Concat(Pieces(seg, parts)) == Concat(parts)
    decreases |parts|
  {
    if parts != [] {
      var init, last := parts[..|parts| - 1], parts[|parts| - 1];
      assert parts == init + [last];
      assert forall i :: 0 <= i < |init| ==> init[i] == parts[i];
      PiecesIdentity(seg, init);
      var tail := if last == "" then [] else [PartOut(seg, last)];
      assert Pieces(seg, parts) == Pieces(seg, init) + tail;
      assert Concat(tail) == last == Concat([last]);
      ConcatAppend(Pieces(seg, init), tail);
      ConcatAppend(init, [last]);
    }
  }

  /** When the basic annotation changes no gap, `add_furigana_smart` returns
      its input unchanged. */
  lemma SmartIdentity(seg: string -> seq<Token>, text: string)
    requires forall i :: 0 <= i < |SplitParts(text)| && i % 2 == 0 && SplitParts(text)[i] != "" ==>
               BasicAnnotation(seg, SplitParts(text)[i]) == SplitParts(text)[i]
    ensures SmartAnnotation(seg, text) == text
  {
    SplitLossless(text, 0);
    SplitAlternates(text, 0);
    PiecesIdentity(seg, SplitParts(text));
  }

  /** Two segmenters that agree on every part the loop hands to the basic
      annotation produce the same pieces. */
  lemma {:induction false} PiecesSegmentsOnlyGaps(seg1: string -> seq<Token>, seg2: string -> seq<Token>, parts: seq<string>)
    requires forall i :: 0 <= i < |parts| && parts[i] != "" && !FullMatch(parts[i]) ==>
               seg1(parts[i]) == seg2(parts[i])
    ensures Pieces(seg1, parts) == Pieces(seg2, parts)
    decreases |parts|
  {
    if parts != [] {
      var init := parts[..|parts| - 1];
      assert forall i :: 0 <= i < |init| ==> init[i] == parts[i];
      PiecesSegmentsOnlyGaps(seg1, seg2, init);
    }
  }

  /** The segmenter is consulted only on gaps: two segmenters that agree on
      every non-empty gap give the same result, whatever they do on the
      existing annotations. */
  lemma SmartSegmentsOnlyGaps(seg1: string -> seq<Token>, seg2: string -> seq<Token>, text: string)
    requires forall i :: 0 <= i < |SplitParts(text)| && i % 2 == 0 && SplitParts(text)[i] != "" ==>
               seg1(SplitParts(text)[i]) == seg2(SplitParts(text)[i])
    ensures SmartAnnotation(seg1, text) == SmartAnnotation(seg2, text)
  {
    SplitAlternates(text, 0);
    PiecesSegmentsOnlyGaps(seg1, seg2, SplitParts(text));
  }

  /** A text that is one existing annotation is returned unchanged, whatever
      the segmenter: re-annotating an annotation is a no-op. */
  lemma AnnotatedSpanIsFixed(seg: string -> seq<Token>, t: string)
    requires IsAnnotatedSpan(t)
    ensures SmartAnnotation(seg, t) == t
  {
    MatchAtComplete(t, 0, |t|);
    FullMatchIff(t);
    assert t[0..|t|] == t && t[0..0] == "" && t[|t|..] == "";
    assert FindMatch(t, |t|) == None;
    assert SplitFrom(t, |t|) == [""];
    assert FindMatch(t, 0) == Some(Span(0, |t|));
    assert SplitFrom(t, 0) == ["", t] + SplitFrom(t, |t|);
    var parts := SplitParts(t);
    assert parts == ["", t, ""];
    assert Pieces(seg, parts[..1]) == [];
    assert parts[..2][..1] == parts[..1];
    assert Pieces(seg, parts[..2]) == [t];
    assert parts[..3][..2] == parts[..2];
    assert parts[..3] == parts;
    assert Concat([t]) == t;
  }
}
