/**
  Worked cases of the engine on concrete lines, for any segmenter.
 */
module Scenarios {
  import opened Wrappers
  import opened PyText
  import opened Scripts
  import opened Annotator
  import opened Protection
  import opened Lyrics

  /** An opening ASCII bracket closed by a fullwidth one still forms an
      annotated span: the pattern does not pair bracket styles. */
  lemma MixedBracketsAreAnnotated()
    ensures FullMatch("日(ひ）")
  {
    var t := "日(ひ）";
    assert RunEnd(t, 0, IsClassChar) == 1;
    assert RunEnd(t, 2, IsKana) == 3;
  }

  /** `[00:12.34]` has the shape of a timestamp. */
  lemma ExampleStamp()
    ensures IsTimestamp("[00:12.34]")
  {
    var t := "[00:12.34]";
    assert t[1] == '0' && t[3] == ':' && t[6] == '.';
  }

  /** The timestamp of `[00:12.34]今日は` is `[00:12.34]` and the rest is
      `今日は`. */
  lemma TimestampExample()
    ensures ParseTimestamp("[00:12.34]今日は") == Some(Stamped("[00:12.34]", "今日は"))
  {
    var stamp, rest := "[00:12.34]", "今日は";
    ExampleStamp();
    ParseComposed(stamp, rest);
    assert stamp + rest == "[00:12.34]今日は";
  }

  const Annotated: string := "戸惑う(とまどう)"
  const Tail: string := "けど嬉しい"
  const Line: string := "戸惑う(とまどう)けど嬉しい"

  /** The pattern matches the annotated word at the head of the line. */
  lemma ExampleFirstMatch()
    ensures MatchAt(Line, 0) == Some(9)
  {
    RunEndUnique(Line, 0, IsClassChar, 3);
    RunEndUnique(Line, 4, IsKana, 8);
  }

  /** The pattern matches nowhere in the rest of the line. */
  lemma ExampleNoMoreMatch()
    ensures FindMatch(Line, 9).None?
  {
    forall p | 9 <= p <= |Line| ensures MatchAt(Line, p).None? {
      RunEndUnique(Line, p, IsClassChar, |Line|);
    }
  }

  /** The line is split into an empty gap, the annotated word and the
      rest. */
  lemma ExampleSplit()
    ensures SplitParts(Line) == ["", Annotated, Tail]
  {
    ExampleFirstMatch();
    ExampleNoMoreMatch();
    assert Line[0..0] == "" && Line[0..9] == Annotated && Line[9..] == Tail;
    assert FindMatch(Line, 0) == Some(Span(0, 9));
  }

  /** The annotated word fully matches the pattern; the rest does not. */
  lemma ExampleParts()
    ensures FullMatch(Annotated) && !FullMatch(Tail)
  {
    RunEndUnique(Annotated, 0, IsClassChar, 3);
    RunEndUnique(Annotated, 4, IsKana, 8);
    RunEndUnique(Tail, 0, IsClassChar, |Tail|);
  }

  /** Appending one part to the list extends the pieces by that part's output,
      or by nothing when the part is empty. */
  lemma PiecesSnoc(seg: string -> seq<Token>, init: seq<string>, last: string)
    ensures Pieces(seg, init + [last]) == Pieces(seg, init) + (if last == "" then [] else [PartOut(seg, last)])
  {
    assert (init + [last])[..|init|] == init;
  }

  /** An empty gap, then two non-empty parts: the pieces are the outputs of
      the two parts. */
  lemma PiecesGapTwo(seg: string -> seq<Token>, a: string, b: string)
    requires a != "" && b != ""
    ensures Pieces(seg, ["", a, b]) == [PartOut(seg, a), PartOut(seg, b)]
  {
    PiecesSnoc(seg, [], "");
    assert [] + [""] == [""];
    PiecesSnoc(seg, [""], a);
    assert [""] + [a] == ["", a];
    PiecesSnoc(seg, ["", a], b);
    assert ["", a] + [b] == ["", a, b];
  }

  /** An empty gap, an annotated span and a plain remainder give the span
      followed by the remainder's basic annotation. */
  lemma GapSpanRest(seg: string -> seq<Token>, span: string, rest: string)
    requires FullMatch(span) && rest != "" && !FullMatch(rest)
    ensures Concat(Pieces(seg, ["", span, rest])) == span + BasicAnnotation(seg, rest)
  {
    assert span != "";
    PiecesGapTwo(seg, span, rest);
    var b := BasicAnnotation(seg, rest);
    assert PartOut(seg, span) == span && PartOut(seg, rest) == b;
    assert [span, b][1..] == [b] && [b][1..] == [];
    assert Concat([b]) == b;
    assert Concat([span, b]) == span + b;
  }

  /** `戸惑う(とまどう)けど嬉しい`: the annotated word is kept as it is and only
      the rest goes to the basic annotator, whatever the segmenter. */
  lemma ProtectionExample(seg: string -> seq<Token>)
    ensures SmartAnnotation(seg, Line) == Annotated + BasicAnnotation(seg, Tail)
  {
    ExampleSplit();
    ExampleParts();
    GapSpanRest(seg, Annotated, Tail);
  }

  /** Two tokens render as their two emissions, in order. */
  lemma RenderPair(a: Token, b: Token)
    ensures Render([a, b]) == Emit(a) + Emit(b)
  {
    assert [a, b][..1] == [a] && [a][..0] == [];
    assert Render([a]) == Emit(a);
    assert Render([a, b]) == Render([a]) + Emit(b);
  }

  /** `けど` holds no kanji and keeps its form; `嬉しい` holds one and gains
      its reading. */
  lemma ExampleEmissions()
    ensures Emit(Token("けど", "けど")) == "けど"
    ensures Emit(Token("嬉しい", "うれしい")) == "嬉しい(うれしい)"
  {
    var word := "嬉しい";
    HasKanjiIff(word);
    assert IsKanji(word[0]);
  }

  /** Whatever two tokens the segmenter makes of `けど嬉しい`, the line is the
      annotated word followed by their two emissions. */
  lemma ExampleWithTwoTokens(seg: string -> seq<Token>, a: Token, b: Token)
    requires seg(Tail) == [a, b]
    ensures SmartAnnotation(seg, Line) == Annotated + Emit(a) + Emit(b)
  {
    ProtectionExample(seg);
    RenderPair(a, b);
  }

  /** Given a segmenter that reads `けど嬉しい` as `けど` and `嬉しい(うれしい)`,
      only the plain remainder of the line gains a reading. */
  lemma MixedAnnotationScenario(seg: string -> seq<Token>)
    requires seg(Tail) == [Token("けど", "けど"), Token("嬉しい", "うれしい")]
    ensures SmartAnnotation(seg, Line) == "戸惑う(とまどう)けど嬉しい(うれしい)"
  {
    ExampleWithTwoTokens(seg, Token("けど", "けど"), Token("嬉しい", "うれしい"));
    ExampleEmissions();
    ExampleText();
  }

  /** The expected line, assembled from its three pieces. */
  lemma ExampleText()
    ensures Annotated + "けど" + "嬉しい(うれしい)" == "戸惑う(とまどう)けど嬉しい(うれしい)"
  {
  }

  /** A text that neither begins nor ends with whitespace is its own strip. */
  lemma StripUnpadded(s: string)
    requires s != [] && !IsWhitespace(s[0]) && !IsWhitespace(s[|s| - 1])
    ensures Strip(s) == s
  {
    RunEndUnique(s, 0, IsWhitespace, 0);
  }

  /** `今日は` holds a kanji and a kana. */
  lemma KanjiAndKana()
    ensures HasKanji("今日は") && HasKana("今日は")
  {
    var content := "今日は";
    HasKanjiIff(content);
    HasKanaIff(content);
    assert IsKanji(content[0]) && IsKana(content[2]);
  }

  /** A timestamp followed directly by unpadded content that holds a kanji
      and a kana: the timestamp is kept and the content is annotated. */
  lemma StampThenContent(seg: string -> seq<Token>, stamp: string, content: string)
    requires IsTimestamp(stamp) && content != "" && '\n' !in content
    requires !IsWhitespace(content[0]) && !IsWhitespace(content[|content| - 1])
    requires HasKanji(content) && HasKana(content)
    ensures ProcessLine(seg, stamp + content) == stamp + SmartAnnotation(seg, content)
  {
    var raw := stamp + content;
    assert raw[0] == '[' && raw[|raw| - 1] == content[|content| - 1];
    StripUnpadded(raw);
    StripUnpadded(content);
    StampWithoutNewline(stamp);
    assert raw[..|stamp|] == stamp && raw[|stamp|..] == content;
    StampedLine(seg, raw, |stamp|);
  }

  /** `[00:12.34]今日は` keeps its timestamp, and its content, which holds a
      kanji and a kana, is annotated. */
  lemma TimestampedLineExample(seg: string -> seq<Token>)
    ensures ProcessLine(seg, "[00:12.34]今日は") == "[00:12.34]" + SmartAnnotation(seg, "今日は")
  {
    var stamp, content := "[00:12.34]", "今日は";
    ExampleStamp();
    KanjiAndKana();
    StampThenContent(seg, stamp, content);
    assert stamp + content == "[00:12.34]今日は";
  }
}
