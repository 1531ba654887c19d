/**
  The line and block driver `process_lyrics_text` (main.py:70-101): split a
  lyric block on newlines, strip each line, recognise a leading `[mm:ss.xx]`
  timestamp, annotate the content of timestamped lines that hold both kanji
  and kana, and join the lines again.
 */
module Lyrics {
  import opened Wrappers
  import opened PyText
  import opened Scripts
  import opened Annotator
  import opened Protection

  /** A character of the class `[\d:.]`. */
  predicate IsStampChar(c: char) {
    IsDecimalDigit(c) || c == ':' || c == '.'
  }

  /** `t` is a whole match of `\[[\d:.]+\]`. */
  ghost predicate IsTimestamp(t: string) {
    && |t| >= 3 && t[0] == '[' && t[|t| - 1] == ']'
    && forall k :: 0 < k < |t| - 1 ==> IsStampChar(t[k])
  }

  /** The two groups of a match of `^(\[[\d:.]+\])(.*)`. */
  datatype Stamped = Stamped(stamp: string, rest: string)

  /** `time_pattern.match(line)` (main.py:76, 80): a bracket, the longest run
      of timestamp characters, which must be non-empty and be followed by a
      closing bracket, then everything up to the first newline. */
  function ParseTimestamp(line: string): Option<Stamped> {
    if line == [] || line[0] != '[' then None
    else
      var d := RunEnd(line, 1, IsStampChar);
      if d == 1 || d == |line| || line[d] != ']' then None
      else Some(Stamped(line[..d + 1], line[d + 1..RunEnd(line, d + 1, IsNotNewline)]))
  }

  /** The positions the parser stops at: the closing bracket `d`, after a
      run of timestamp characters, and the end `e` of the rest of the line,
      which is the line's end or a newline. */
  lemma ParseTimestampParts(line: string) returns (d: nat, e: nat)
    requires ParseTimestamp(line).Some?
    ensures 1 < d && d + 1 <= e <= |line|
    ensures line[0] == '[' && line[d] == ']'
    ensures forall k :: 1 <= k < d ==> IsStampChar(line[k])
    ensures e == |line| || line[e] == '\n'
    ensures forall k :: d + 1 <= k < e ==> line[k] != '\n'
    ensures ParseTimestamp(line).value.stamp == line[..d + 1]
    ensures ParseTimestamp(line).value.rest == line[d + 1..e]
  {
    d := RunEnd(line, 1, IsStampChar);
    e := RunEnd(line, d + 1, IsNotNewline);
  }

  /** A bracket, a non-empty run of timestamp characters and a bracket make a
      timestamp. */
  lemma BracketedStamp(line: string, d: nat)
    requires 1 < d < |line| && line[0] == '[' && line[d] == ']'
    requires forall k :: 1 <= k < d ==> IsStampChar(line[k])
    ensures IsTimestamp(line[..d + 1])
  {
    var t := line[..d + 1];
    assert forall k :: 0 <= k < |t| ==> t[k] == line[k];
  }

  /** What the parser reports is a timestamp at the head of the line,
      followed, on a line without newlines, by the whole rest of the line. */
  lemma ParseTimestampSound(line: string)
    ensures ParseTimestamp(line).Some? ==>
              && IsTimestamp(ParseTimestamp(line).value.stamp)
              && ParseTimestamp(line).value.stamp <= line
              && ('\n' !in line ==> line == ParseTimestamp(line).value.stamp + ParseTimestamp(line).value.rest)
  {
    if ParseTimestamp(line).Some? {
      var d, e := ParseTimestampParts(line);
      BracketedStamp(line, d);
      if '\n' !in line {
        assert e == |line|;
        assert line == line[..d + 1] + line[d + 1..];
      }
    }
  }

  /** Any timestamp at the head of the line is the one the parser reports:
      the timestamp of a line is unique. */
  lemma ParseTimestampComplete(line: string, k: nat)
    requires k <= |line|
    ensures IsTimestamp(line[..k]) ==>
              ParseTimestamp(line).Some? && ParseTimestamp(line).value.stamp == line[..k]
  {
    if IsTimestamp(line[..k]) {
      var t := line[..k];
      forall j | 1 <= j < k - 1 ensures IsStampChar(line[j]) {
        assert line[j] == t[j];
      }
      assert line[k - 1] == t[k - 1];
      RunEndUnique(line, 1, IsStampChar, k - 1);
    }
  }

  /** A timestamp holds no newline. */
  lemma StampWithoutNewline(stamp: string)
    requires IsTimestamp(stamp)
    ensures '\n' !in stamp
  {
    forall k | 0 <= k < |stamp| ensures stamp[k] != '\n' {
      if 0 < k < |stamp| - 1 {
        assert IsStampChar(stamp[k]);
      }
    }
  }

  /** Parsing a timestamp followed by a newline-free rest gives back both. */
  lemma ParseComposed(stamp: string, rest: string)
    requires IsTimestamp(stamp) && '\n' !in rest
    ensures ParseTimestamp(stamp + rest) == Some(Stamped(stamp, rest))
  {
    var line := stamp + rest;
    assert line[..|stamp|] == stamp && line[|stamp|..] == rest;
    ParseTimestampComplete(line, |stamp|);
    StampWithoutNewline(stamp);
    assert '\n' !in line;
    ParseTimestampSound(line);
  }

  /** One loop step of `process_lyrics_text` (main.py:79-99): the stripped
      line, or for a timestamped line whose stripped content holds both a
      kanji and a kana, the timestamp followed by the smart annotation of
      that content. */
  function ProcessLine(seg: string -> seq<Token>, raw: string): string {
    var line := Strip(raw);
    match ParseTimestamp(line)
    case None => line
    case Some(m) =>
      var content := Strip(m.rest);
      if content != "" && HasKanji(content) && HasKana(content) then m.stamp + SmartAnnotation(seg, content)
      else line
  }

  /** `f` applied to every line, in order. */
  function MapLines(f: string -> string, lines: seq<string>): (out: seq<string>)
    ensures |out| == |lines|
    ensures forall i :: 0 <= i < |lines| ==> out[i] == f(lines[i])
  {
    if lines == [] then []
    else
      var init := lines[..|lines| - 1];
      assert forall i :: 0 <= i < |init| ==> init[i] == lines[i];
      MapLines(f, init) + [f(lines[|lines| - 1])]
  }

  /** The list `new_lines` after the loop has seen `lines`. */
  function ProcessedLines(seg: string -> seq<Token>, lines: seq<string>): seq<string> {
    MapLines(raw => ProcessLine(seg, raw), lines)
  }

  /** One more line processed appends its output to the list. */
  lemma ProcessedLinesStep(seg: string -> seq<Token>, lines: seq<string>, i: nat)
    requires i < |lines|
    ensures ProcessedLines(seg, lines[..i + 1]) == ProcessedLines(seg, lines[..i]) + [ProcessLine(seg, lines[i])]
  {
    assert lines[..i + 1][..i] == lines[..i];
  }

  /** `process_lyrics_text(lyrics)`: `None` for an empty block, otherwise the
      processed lines joined by newlines. */
  function ProcessedLyrics(seg: string -> seq<Token>, lyrics: string): Option<string> {
    if lyrics == "" then None
    else Some(JoinLines(ProcessedLines(seg, SplitLines(lyrics))))
  }

  /** `process_lyrics_text`: process a block line by line. */
  method ProcessLyricsText(seg: string -> seq<Token>, lyrics: string) returns (r: Option<string>)
    ensures r.None? <==> lyrics == ""
    ensures r == ProcessedLyrics(seg, lyrics)
  {
    if lyrics == "" {
      return None;
    }
    var lines := SplitLines(lyrics);
    var newLines: seq<string> := [];
    for i := 0 to |lines|
      invariant newLines == ProcessedLines(seg, lines[..i])
    {
      ProcessedLinesStep(seg, lines, i);
      var line := Strip(lines[i]);
      var m := ParseTimestamp(line);
      var out := line;
      if m.Some? {
        var content := Strip(m.value.rest);
        if content != "" && HasKanji(content) && HasKana(content) {
          var newContent := AddFuriganaSmart(seg, content);
          out := m.value.stamp + newContent;
        }
      }
      assert out == ProcessLine(seg, lines[i]);
      newLines := newLines + [out];
    }
    assert lines[..|lines|] == lines;
    r := Some(JoinLines(newLines));
  }

  /** A slice of a newline-free text is newline-free. */
  lemma SliceWithoutNewline(s: string, lo: nat, hi: nat)
    requires lo <= hi <= |s| && '\n' !in s
    ensures '\n' !in s[lo..hi]
  {
    assert forall j :: 0 <= j < hi - lo ==> s[lo..hi][j] == s[lo + j];
  }

  /** The stripped content of a timestamped line has a kanji (a kana) only
      if the line has one. */
  lemma ContentScripts(line: string)
    requires ParseTimestamp(line).Some?
    ensures HasKanji(Strip(ParseTimestamp(line).value.rest)) ==> HasKanji(line)
    ensures HasKana(Strip(ParseTimestamp(line).value.rest)) ==> HasKana(line)
  {
    var d, e := ParseTimestampParts(line);
    StripSliceScripts(line, d + 1, e);
  }

  /** The gate (main.py:87): a line whose stripped text lacks a kanji or
      lacks a kana is emitted as the stripped line. */
  lemma GateRespected(seg: string -> seq<Token>, raw: string)
    requires !HasKanji(Strip(raw)) || !HasKana(Strip(raw))
    ensures ProcessLine(seg, raw) == Strip(raw)
  {
    if ParseTimestamp(Strip(raw)).Some? {
      ContentScripts(Strip(raw));
    }
  }

  /** A line without a leading timestamp is emitted as the stripped line. */
  lemma UnstampedLinePassesThrough(seg: string -> seq<Token>, raw: string)
    requires forall k :: 0 <= k <= |Strip(raw)| ==> !IsTimestamp(Strip(raw)[..k])
    ensures ProcessLine(seg, raw) == Strip(raw)
  {
    ParseTimestampSound(Strip(raw));
  }

  /** A line of a block (it has no newline) that begins, once stripped, with
      the timestamp `line[..k]` keeps that timestamp in front; the rest is
      the smart annotation of the stripped content when the content holds a
      kanji and a kana, and the stripped line otherwise. */
  lemma StampedLine(seg: string -> seq<Token>, raw: string, k: nat)
    requires '\n' !in raw
    requires k <= |Strip(raw)| && IsTimestamp(Strip(raw)[..k])
    ensures var line := Strip(raw);
            var content := Strip(line[k..]);
            && line[..k] <= ProcessLine(seg, raw)
            && ProcessLine(seg, raw) ==
                 if content != "" && HasKanji(content) && HasKana(content)
                 then line[..k] + SmartAnnotation(seg, content)
                 else line
  {
    var line := Strip(raw);
    StripShape(raw);
    SliceWithoutNewline(raw, StripStart(raw), StripStart(raw) + |line|);
    ParseTimestampComplete(line, k);
    ParseTimestampSound(line);
    var m := ParseTimestamp(line).value;
    assert m.rest == line[k..];
  }

  /** The segmenter never puts a newline into a surface or a reading of a
      text that has none. */
  ghost predicate ReadingsWithoutNewline(seg: string -> seq<Token>) {
    forall t :: '\n' !in t ==> TokensWithoutNewline(seg(t))
  }

  /** The smart annotation of a newline-free text has no newline, given a
      segmenter that adds none. */
  lemma SmartWithoutNewline(seg: string -> seq<Token>, text: string)
    requires '\n' !in text
    requires ReadingsWithoutNewline(seg)
    ensures '\n' !in SmartAnnotation(seg, text)
  {
    var parts := SplitParts(text);
    SmartKeepsAnnotations(seg, text);
    ConcatContains(parts, '\n');
    var outs := Outputs(seg, parts);
    forall i | 0 <= i < |outs| ensures '\n' !in outs[i] {
      if parts[i] != "" && !FullMatch(parts[i]) {
        RenderNewlineFree(seg(parts[i]));
      }
    }
    ConcatContains(outs, '\n');
  }

  /** The annotated form of a newline-free timestamped line has no newline. */
  lemma StampedWithoutNewline(seg: string -> seq<Token>, line: string)
    requires '\n' !in line
    requires ReadingsWithoutNewline(seg)
    requires ParseTimestamp(line).Some?
    ensures var m := ParseTimestamp(line).value;
            '\n' !in m.stamp + SmartAnnotation(seg, Strip(m.rest))
  {
    var d, e := ParseTimestampParts(line);
    var lo, hi := StripSlice(line, d + 1, e);
    SliceWithoutNewline(line, lo, hi);
    SmartWithoutNewline(seg, line[lo..hi]);
    SliceWithoutNewline(line, 0, d + 1);
  }

  /** A processed line of a block has no newline. */
  lemma ProcessLineWithoutNewline(seg: string -> seq<Token>, raw: string)
    requires '\n' !in raw
    requires ReadingsWithoutNewline(seg)
    ensures '\n' !in ProcessLine(seg, raw)
  {
    var line := Strip(raw);
    StripShape(raw);
    SliceWithoutNewline(raw, StripStart(raw), StripStart(raw) + |line|);
    if ParseTimestamp(line).Some? {
      StampedWithoutNewline(seg, line);
    }
  }

  /** `process_lyrics_text` keeps the number of lines (main.py:73, 101):
      given a segmenter that puts no newline into its readings, the output
      splits into exactly the processed input lines, one per input line. */
  lemma LineCountPreserved(seg: string -> seq<Token>, lyrics: string)
    requires lyrics != ""
    requires ReadingsWithoutNewline(seg)
    ensures ProcessedLyrics(seg, lyrics).Some?
    ensures SplitLines(ProcessedLyrics(seg, lyrics).value) == ProcessedLines(seg, SplitLines(lyrics))
    ensures |SplitLines(ProcessedLyrics(seg, lyrics).value)| == |SplitLines(lyrics)|
  {
    var lines := SplitLines(lyrics);
    var out := ProcessedLines(seg, lines);
    forall i | 0 <= i < |out| ensures '\n' !in out[i] {
      ProcessLineWithoutNewline(seg, lines[i]);
    }
    SplitJoinLines(out);
  }
}
