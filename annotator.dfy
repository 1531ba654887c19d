/**
  The per-token annotator `add_furigana_basic` (main.py:29-45). The
  morphological segmenter it calls (pykakasi's `kks.convert`, main.py:14-15,
  33) is a foreign library: it enters the model as a parameter
  `seg: string -> seq<Token>`, about which nothing is known unless a lemma
  says so.
 */
module Annotator {
  import opened PyText
  import opened Scripts

  /** One item of the segmenter's result: the surface `orig` and its reading
      `hira`. */
  datatype Token = Token(orig: string, hira: string)

  /** A token gets a parenthesised reading when its surface holds a kanji and
      the reading is written differently from it (main.py:41). */
  predicate NeedsReading(t: Token) {
    HasKanji(t.orig) && t.orig != t.hira
  }

  /** What one loop step appends to `new_line` (main.py:41-44). */
  function Emit(t: Token): (e: string)
    ensures t.orig <= e
    ensures e == t.orig <==> !NeedsReading(t)
    ensures e == t.orig + "(" + t.hira + ")" <==> NeedsReading(t)
  {
    if NeedsReading(t) then t.orig + "(" + t.hira + ")" else t.orig
  }

  /** The text `add_furigana_basic` builds from a token list: the emissions
      of the tokens, in order. */
  function Render(tokens: seq<Token>): string {
    if tokens == [] then ""
    else Render(tokens[..|tokens| - 1]) + Emit(tokens[|tokens| - 1])
  }

  /** The surfaces of a token list, in order; a segmenter that covers its
      input has `Surfaces(seg(text)) == text`. */
  function Surfaces(tokens: seq<Token>): string {
    if tokens == [] then ""
    else Surfaces(tokens[..|tokens| - 1]) + tokens[|tokens| - 1].orig
  }

  /** `add_furigana_basic(text)`, as a function of the segmenter. */
  function BasicAnnotation(seg: string -> seq<Token>, text: string): string {
    Render(seg(text))
  }

  /** `add_furigana_basic`: segment `text` and append each token's emission
      to `new_line`. */
  method AddFuriganaBasic(seg: string -> seq<Token>, text: string) returns (newLine: string)
    ensures newLine == BasicAnnotation(seg, text)
  {
    var result := seg(text);
    newLine := "";
    for i := 0 to |result|
      invariant newLine == Render(result[..i])
    {
      assert result[..i + 1][..i] == result[..i];
      assert Render(result[..i + 1]) == newLine + Emit(result[i]);
      newLine := newLine + Emit(result[i]);
    }
    assert result[..|result|] == result;
  }

  /** Rendering keeps every surface and only ever inserts readings, so it is
      never shorter than the surfaces, and it leaves the surfaces as they are
      exactly when no token needs a reading. */
  lemma {:induction false} RenderIdentityIff(tokens: seq<Token>)
    ensures |Render(tokens)| >= |Surfaces(tokens)|
    ensures Render(tokens) == Surfaces(tokens) <==> forall i :: 0 <= i < |tokens| ==> !NeedsReading(tokens[i])
    decreases |tokens|
  {
    if tokens != [] {
      var init, last := tokens[..|tokens| - 1], tokens[|tokens| - 1];
      RenderIdentityIff(init);
      var r, s := Render(init), Surfaces(init);
      var e := Emit(last);
      assert forall i :: 0 <= i < |init| ==> init[i] == tokens[i];
      if r + e == s + last.orig {
        assert |r| == |s|;
        assert r == (r + e)[..|r|] == (s + last.orig)[..|s|] == s;
        assert e == (r + e)[|r|..] == (s + last.orig)[|s|..] == last.orig;
      }
    }
  }

  /** The surfaces of a token list hold a kanji iff some token's surface does. */
  lemma {:induction false} SurfacesKanji(tokens: seq<Token>)
    ensures HasKanji(Surfaces(tokens)) <==> exists i :: 0 <= i < |tokens| && HasKanji(tokens[i].orig)
    decreases |tokens|
  {
    if tokens != [] {
      var init, last := tokens[..|tokens| - 1], tokens[|tokens| - 1];
      assert forall i :: 0 <= i < |init| ==> init[i] == tokens[i];
      SurfacesKanji(init);
      ConcatKanji(Surfaces(init), last.orig);
      if HasKanji(last.orig) {
        assert HasKanji(tokens[|tokens| - 1].orig);
      }
    }
  }

  /** With a segmenter that covers its input, a text without kanji comes back
      unchanged: katakana words such as アイドル get no reading (main.py:40). */
  lemma BasicWithoutKanjiIsIdentity(seg: string -> seq<Token>, text: string)
    requires Surfaces(seg(text)) == text
    requires !HasKanji(text)
    ensures BasicAnnotation(seg, text) == text
  {
    var tokens := seg(text);
    SurfacesKanji(tokens);
    RenderIdentityIff(tokens);
  }

  /** No surface and no reading of the tokens holds a newline. */
  predicate TokensWithoutNewline(tokens: seq<Token>) {
    forall i :: 0 <= i < |tokens| ==> '\n' !in tokens[i].orig && '\n' !in tokens[i].hira
  }

  /** No newline appears in the rendering of tokens that have none. */
  lemma {:induction false} RenderNewlineFree(tokens: seq<Token>)
    requires TokensWithoutNewline(tokens)
    ensures '\n' !in Render(tokens)
    decreases |tokens|
  {
    if tokens != [] {
      var init, last := tokens[..|tokens| - 1], tokens[|tokens| - 1];
      RenderNewlineFree(init);
      assert '\n' !in last.orig + "(" + last.hira + ")";
    }
  }
}
