# Furigana annotation engine, in Dafny

This project models the annotation engine of `main.py` (lines 17-101). The
engine adds hiragana readings after the kanji of Japanese lyric lines, in the
form `漢字(かんじ)`, and it leaves alone readings that are already there.

It has four layers, one module each, on top of a module of Python string
behaviour:

- `PyText` models the parts of Python's `str` and `re` that the engine
  relies on:
  - `str.isspace` and the Unicode `\d` class;
  - `str.strip()`, `str.split('\n')`, `'\n'.join` and `''.join`;
  - the maximal run that a greedy `[...]+` or `.*` consumes.
- `Scripts` models `has_kanji` and `has_kana` (U+4E00–U+9FFF and
  U+3040–U+30FF).
- `Annotator` models `add_furigana_basic`.
  - pykakasi's segmenter `kks.convert` becomes a parameter
    `seg: string -> seq<Token>`.
  - The method `AddFuriganaBasic` builds `new_line` in a loop. It is proved
    equal to `BasicAnnotation`, the in-order concatenation of the tokens'
    emissions.
- `Protection` models `EXISTING_FURIGANA_REGEX`, its capturing `re.split`,
  `fullmatch` and `add_furigana_smart`.
  - The regular expression is a deterministic left-to-right scanner
    (`MatchAt`, `FindMatch`). The scanner is proved sound and complete for
    the pattern's language (`IsAnnotatedSpan`).
  - The split is proved lossless and alternating: gaps sit at even
    positions, existing annotations at odd ones.
  - No gap holds an annotation, and every annotation of the text lies inside
    one matched span. So `add_furigana_smart` is proved to keep every existing
    annotation verbatim and to consult the segmenter only on gaps.
- `Lyrics` models `process_lyrics_text`.
  - The `^(\[[\d:.]+\])(.*)` timestamp parser is proved sound and complete.
  - The line gate, timestamp preservation and line-count preservation are
    proved.
  - The method `ProcessLyricsText` builds `new_lines` in a loop and is
    proved equal to `ProcessedLyrics`.
- `Scenarios` holds worked cases on concrete lines, for any segmenter:
  - `戸惑う(とまどう)けど嬉しい`;
  - `[00:12.34]今日は`;
  - a mixed-bracket span.

The segmenter, the only foreign call, is a function parameter. A lemma that needs
a property of it states that property in its `requires`.

## Model

| member | source | states |
|---|---|---|
| PyText.RunEnd | main.py:21 | the end of a greedy `[...]+` run: every character before it satisfies the class and the next one does not (or the text ends) |
| PyText.RunEndUnique | main.py:21 | a greedy run is determined by its start: any end with only class characters before it and no class character after it is the run's end |
| PyText.AnyCharIff | main.py:24 | a one-character-class `re.search` succeeds iff some character of the text is in the class |
| PyText.StripStart | main.py:79 | `strip()` drops exactly the leading whitespace: all characters before the start are whitespace and the first kept one is not |
| PyText.TrimEnd | main.py:79 | `strip()` drops exactly the trailing whitespace: all characters from the end on are whitespace and the last kept one is not |
| PyText.StripShape | main.py:79-84 | `s.strip()` is a slice of `s` with only whitespace around it, and it neither begins nor ends with whitespace |
| PyText.Strip | main.py:79 | `str.strip()`, with its meaning stated by `PyText.StripShape`, `PyText.StripSlice` and `PyText.StripIdempotent` |
| PyText.StripSlice | main.py:84 | stripping a slice of a text gives a slice of the text within the same bounds |
| PyText.StripIdempotent | main.py:79-84 | stripping an already stripped text changes nothing |
| PyText.ConcatAppend | main.py:68 | `''.join` distributes over list concatenation |
| PyText.ConcatContains | main.py:68 | a character occurs in a join iff it occurs in one of the joined parts |
| PyText.Concat | main.py:68 | `''.join(parts)`, with its meaning stated by `PyText.ConcatAppend`, `PyText.ConcatContains` and `Protection.SplitLossless` |
| PyText.SplitLines | main.py:73 | `split('\n')` yields at least one piece and no piece holds a newline |
| PyText.JoinSplitLines | main.py:73 | joining the pieces of `split('\n')` with newlines gives back the text |
| PyText.SplitJoinLines | main.py:101 | splitting a newline-join of newline-free lines gives back exactly those lines |
| PyText.JoinLines | main.py:101 | `'\n'.join(lines)`, proved the inverse of `split('\n')` by `PyText.JoinSplitLines` and `PyText.SplitJoinLines` |
| Scripts.HasKanjiIff | main.py:23-24 | `has_kanji(s)` holds iff some character of `s` is in U+4E00–U+9FFF |
| Scripts.HasKanaIff | main.py:26-27 | `has_kana(s)` holds iff some character of `s` is in U+3040–U+30FF |
| Scripts.HasKanji | main.py:23-24 | `has_kanji`, a search for one kanji, with its meaning stated by `Scripts.HasKanjiIff` |
| Scripts.HasKana | main.py:26-27 | `has_kana`, a search for one kana, with its meaning stated by `Scripts.HasKanaIff` |
| Scripts.IterationMarkIsNeither | main.py:21-27 | 々 (U+3005), admitted by the annotation pattern, counts neither as a kanji nor as a kana |
| Scripts.SliceScripts | main.py:23-27 | a slice of a text has a kanji (a kana) only if the text has one |
| Scripts.StripSliceScripts | main.py:84-87 | a stripped slice of a text has a kanji (a kana) only if the text has one |
| Scripts.ConcatKanji | main.py:23-24 | a concatenation has a kanji iff one of its halves has one |
| Annotator.Emit | main.py:41-44 | a token's emission starts with its surface; it is exactly `orig(hira)` when the surface has a kanji and differs from the reading, and exactly `orig` otherwise |
| Annotator.AddFuriganaBasic | main.py:29-45 | the loop's `new_line` is the in-order concatenation of every token's emission |
| Annotator.RenderIdentityIff | main.py:35-45 | the output is never shorter than the tokens' surfaces, and it equals them iff no token needs a reading |
| Annotator.Render | main.py:35-45 | the tokens' emissions joined in order, which `Annotator.AddFuriganaBasic` is proved to compute, with `Annotator.RenderIdentityIff` and `Annotator.RenderNewlineFree` stating its properties |
| Annotator.BasicAnnotation | main.py:29-45 | `add_furigana_basic(text)`: the rendering of the segmenter's tokens, computed by `Annotator.AddFuriganaBasic`; `Annotator.BasicWithoutKanjiIsIdentity` states when it is the identity |
| Annotator.SurfacesKanji | main.py:35-41 | the surfaces hold a kanji iff some token's surface does |
| Annotator.BasicWithoutKanjiIsIdentity | main.py:33-45 | with a segmenter whose surfaces cover its input, a text without kanji (such as the katakana アイドル) comes back unchanged |
| Annotator.RenderNewlineFree | main.py:42-44 | tokens without newlines render without newlines |
| Protection.MatchAt | main.py:21 | a reported match ends after its start and within the text |
| Protection.MatchAtSound | main.py:21 | every match the scanner reports is in the language of `EXISTING_FURIGANA_REGEX` |
| Protection.MatchAtComplete | main.py:21 | every span in the pattern's language starting at a position is the scanner's match there |
| Protection.FullMatchIff | main.py:62 | `fullmatch(part)` succeeds iff the part is in the pattern's language: class run, `(`/`（`, one or more kana, `)`/`）` |
| Protection.FullMatch | main.py:62 | `EXISTING_FURIGANA_REGEX.fullmatch(part)`, proved equal to membership in the pattern's language by `Protection.FullMatchIff` |
| Protection.FindMatch | main.py:52 | `re`'s leftmost search: the reported match starts at the first position with a match, and none is reported only when no position has one |
| Protection.MatchInsideRun | main.py:21 | inside a class run, a match one character earlier ends where the later one does |
| Protection.MatchStartsAtRunBoundary | main.py:52 | a found match starts where the search resumed or right after a non-class character, so kana just before a kanji run are swallowed into the protected span |
| Protection.SplitFrom | main.py:52 | the capturing split yields an odd number of parts: gap, span, …, gap |
| Protection.SplitParts | main.py:52 | `EXISTING_FURIGANA_REGEX.split(text)`: lossless (`Protection.SplitLossless`), alternating (`Protection.SplitAlternates`), with clean gaps (`Protection.GapsHoldNoAnnotation`) and every annotation inside a span (`Protection.EveryAnnotationInsideASpan`) |
| Protection.SplitLossless | main.py:52 | the parts of the split concatenate, in order, to the text |
| Protection.GapIsPlain | main.py:52-62 | a gap the search passed over never fully matches the pattern |
| Protection.MatchIsAnnotated | main.py:52-62 | a matched span fully matches the pattern on its own |
| Protection.GapClean | main.py:52 | a stretch the search passed over holds no annotation at any position, not even inside it |
| Protection.GapsHoldNoAnnotation | main.py:52 | no gap of the split, at an even position, holds an annotation anywhere inside it |
| Protection.MatchInsideMatch | main.py:21 | a match that starts inside a match found earlier is that same match |
| Protection.SearchReachesAnnotation | main.py:52 | the search from a position finds a match starting no later than any annotation after that position |
| Protection.AnnotationStaysInSpan | main.py:21 | an annotation that starts inside a found match ends where that match ends |
| Protection.FoundSpanBounds | main.py:52 | the span the search finds is part 1 of the split, at exactly the found bounds |
| Protection.PartsAfterSpan | main.py:52 | the parts after a found span are the split of the rest of the text, shifted by two positions |
| Protection.EveryAnnotationInsideASpan | main.py:52 | every annotation of the text lies inside one matched span of the split, at an odd position; none lies in a gap or straddles a gap and a span |
| Protection.SplitAlternates | main.py:52-62 | a part fully matches the pattern iff it sits at an odd position of the split |
| Protection.AddFuriganaSmart | main.py:47-68 | the loop's `final_line`, joined, is the concatenation of the non-empty parts' outputs: annotated spans as they are, other parts through the basic annotator |
| Protection.Outputs | main.py:57-66 | one output per part, in order, each the part's own output |
| Protection.SkipEmptyHarmless | main.py:57-58 | skipping empty parts does not change the joined result |
| Protection.PartOut | main.py:57-66 | the text one part contributes: nothing for an empty part, the part itself when it fully matches, its basic annotation otherwise; `Protection.SmartKeepsAnnotations` states its use |
| Protection.Pieces | main.py:54-66 | the list `final_line` after the loop, which `Protection.AddFuriganaSmart` is proved to build; `Protection.SkipEmptyHarmless` and `Protection.PiecesIdentity` state its properties |
| Protection.SmartAnnotation | main.py:47-68 | `add_furigana_smart(text)`, computed by `Protection.AddFuriganaSmart`, with its meaning stated by `Protection.SmartKeepsAnnotations`, `Protection.SmartIdentity` and `Protection.SmartSegmentsOnlyGaps` |
| Protection.SmartKeepsAnnotations | main.py:52-68 | the split is lossless, the parts alternate, no gap holds an annotation, every annotation of the text lies inside one matched span, and the output is the in-order join of the parts' outputs, in which every matched span stands verbatim; so every existing annotation of the text is kept verbatim |
| Protection.PiecesIdentity | main.py:54-68 | when the basic annotator changes no part it is given, the join equals the joined parts |
| Protection.SmartIdentity | main.py:52-68 | when the basic annotator changes no gap, `add_furigana_smart` returns its input unchanged |
| Protection.PiecesSegmentsOnlyGaps | main.py:54-66 | the list of outputs depends on the segmenter only through the parts that are not annotations |
| Protection.SmartSegmentsOnlyGaps | main.py:60-66 | two segmenters that agree on every non-empty gap give the same result; with `Protection.GapsHoldNoAnnotation` (gaps hold no annotation), existing annotations never reach the segmenter |
| Protection.AnnotatedSpanIsFixed | main.py:60-63 | a text that is one existing annotation is returned unchanged whatever the segmenter |
| Lyrics.ParseTimestampParts | main.py:76-84 | a match is `[`, a non-empty run of `[\d:.]`, `]`, then the rest up to the first newline or the end |
| Lyrics.ParseTimestamp | main.py:76-84 | `time_pattern.match(line)` with its two groups, proved sound and complete against `IsTimestamp` by `Lyrics.ParseTimestampSound`, `Lyrics.ParseTimestampComplete` and `Lyrics.ParseComposed` |
| Lyrics.BracketedStamp | main.py:76 | a bracketed non-empty run of `[\d:.]` is a timestamp |
| Lyrics.ParseTimestampSound | main.py:76-83 | the reported timestamp is a timestamp at the head of the line, and on a newline-free line timestamp and rest make up the whole line |
| Lyrics.ParseTimestampComplete | main.py:76-83 | any timestamp at the head of a line is the one the match reports |
| Lyrics.StampWithoutNewline | main.py:76 | a timestamp holds no newline |
| Lyrics.ParseComposed | main.py:76-84 | matching a timestamp followed by a newline-free rest gives back the timestamp and the rest |
| Lyrics.MapLines | main.py:78-99 | one output per line, in order, each the line's own output |
| Lyrics.ProcessedLinesStep | main.py:78-99 | one more processed line appends its output to `new_lines` |
| Lyrics.ProcessLyricsText | main.py:70-101 | the result is None iff the input is empty; otherwise it is the newline-join of the processed lines |
| Lyrics.ProcessLine | main.py:79-99 | one step of the line loop, with its meaning stated by `Lyrics.GateRespected`, `Lyrics.UnstampedLinePassesThrough`, `Lyrics.StampedLine` and `Lyrics.ProcessLineWithoutNewline` |
| Lyrics.ProcessedLyrics | main.py:70-101 | `process_lyrics_text(lyrics)`, computed by `Lyrics.ProcessLyricsText`; `Lyrics.LineCountPreserved` states that it keeps the number of lines |
| Lyrics.ContentScripts | main.py:83-87 | the stripped content has a kanji (a kana) only if the stripped line has one |
| Lyrics.GateRespected | main.py:87-97 | a line lacking a kanji or lacking a kana is emitted as the stripped line |
| Lyrics.UnstampedLinePassesThrough | main.py:80-99 | a line with no leading timestamp is emitted as the stripped line |
| Lyrics.StampedLine | main.py:79-97 | a timestamped line keeps its timestamp in front and is `timestamp + smart(content.strip())` when the content has a kanji and a kana, the stripped line otherwise |
| Lyrics.SmartWithoutNewline | main.py:47-68 | with a segmenter that adds no newline, the smart annotation of a newline-free text has none |
| Lyrics.StampedWithoutNewline | main.py:83-90 | a rebuilt timestamped line of a block holds no newline |
| Lyrics.ProcessLineWithoutNewline | main.py:79-99 | a processed line of a block holds no newline |
| Lyrics.LineCountPreserved | main.py:71-101 | the output of a non-empty block splits back into exactly the processed input lines, as many as the input has |
| Scenarios.MixedBracketsAreAnnotated | main.py:21 | `日(ひ）`, ASCII open and fullwidth close, fully matches the pattern |
| Scenarios.TimestampExample | main.py:76-84 | `[00:12.34]今日は` parses into the timestamp `[00:12.34]` and the rest `今日は` |
| Scenarios.ExampleFirstMatch | main.py:21 | in `戸惑う(とまどう)けど嬉しい` the pattern matches the first nine characters |
| Scenarios.ExampleNoMoreMatch | main.py:52 | no match follows in `けど嬉しい` |
| Scenarios.ExampleSplit | main.py:52 | the split of `戸惑う(とまどう)けど嬉しい` is `["", "戸惑う(とまどう)", "けど嬉しい"]` |
| Scenarios.ExampleParts | main.py:62 | `戸惑う(とまどう)` fully matches the pattern and `けど嬉しい` does not |
| Scenarios.PiecesSnoc | main.py:57-66 | one more part extends `final_line` by that part's output, or by nothing when it is empty |
| Scenarios.PiecesGapTwo | main.py:57-66 | an empty gap followed by two non-empty parts gives the two parts' outputs |
| Scenarios.GapSpanRest | main.py:57-68 | an empty gap, an annotation and a plain rest give the annotation followed by the rest's basic annotation |
| Scenarios.ProtectionExample | main.py:52-68 | `戸惑う(とまどう)` is kept and only `けど嬉しい` reaches the basic annotator, whatever the segmenter |
| Scenarios.RenderPair | main.py:35-45 | two tokens render as their two emissions, in order |
| Scenarios.ExampleEmissions | main.py:41-44 | `けど` stays as it is and `嬉しい` read `うれしい` becomes `嬉しい(うれしい)` |
| Scenarios.ExampleWithTwoTokens | main.py:47-68 | whatever two tokens the segmenter makes of `けど嬉しい`, the line is the annotation followed by their emissions |
| Scenarios.MixedAnnotationScenario | main.py:29-68 | with `嬉しい` read `うれしい`, `戸惑う(とまどう)けど嬉しい` becomes `戸惑う(とまどう)けど嬉しい(うれしい)` |
| Scenarios.StripUnpadded | main.py:79-84 | a text with no whitespace at either end is its own strip |
| Scenarios.KanjiAndKana | main.py:87 | `今日は` passes the gate: it holds a kanji and a kana |
| Scenarios.StampThenContent | main.py:79-90 | a timestamp followed by unpadded newline-free content with a kanji and a kana is rebuilt as the timestamp followed by the content's smart annotation |
| Scenarios.TimestampedLineExample | main.py:79-90 | `[00:12.34]今日は` keeps `[00:12.34]` and only `今日は` is annotated |

## Left out

- `process_file`, `main` and the configuration (main.py:8-10) are not part of this model. They cover tag I/O through mutagen, directory walking and error printing.
- The `print` logging of changed lines (main.py:92-95) is left out: it does not affect the returned text.
- pykakasi is left out. Its dictionary is a foreign library, and the segmenter is a parameter `seg` of the model.
- `process_lyrics_text(None)` is not modelled: text is a `string`, so only the empty string reaches the `if not lyrics_str` branch.
- Exceptions raised by the segmenter are not modelled: `seg` is a total function.
- Fail-open handling of segmenter failures is not modelled: the code has no exception handling, so a failure propagates to the caller.
- The Unicode tables for `str.isspace` and `\d` are those of Unicode 15.0.
- Idempotence across calls (`process(process(L)) == process(L)`) is left out: it depends on the segmenter's readings. The model proves only that an existing annotation is a fixed point of `add_furigana_smart` (`Protection.AnnotatedSpanIsFixed`).
- Annotator.BasicWithoutKanjiIsIdentity: holds only for a segmenter whose surfaces concatenate back to its input. The code never checks that.
- Protection.SmartIdentity: holds only when the basic annotator leaves every gap unchanged. That depends on the segmenter.
- Lyrics.LineCountPreserved: requires that the segmenter puts no newline into a surface or a reading of a newline-free text. A reading with a newline would add lines.

In three places a reader might expect other behaviour than the code has; the model follows the code:

- A reader might expect an annotation's brackets to be paired by style. The code instead accepts mixed brackets such as `(…）` as existing annotations, because the open and close brackets are independent character classes (`Scenarios.MixedBracketsAreAnnotated`).
- A reader might expect lines without a timestamp, and gated-out timestamped lines, to pass through unchanged. The code instead emits them stripped (main.py:79, 97, 99).
- A reader might expect empty input to come back as it is. The code instead returns `None` (main.py:71).
