/** The script tests of the engine: `has_kanji` and `has_kana` (main.py:23-27). */
module Scripts {
  import opened PyText

  /** The CJK Unified Ideographs block, U+4E00 to U+9FFF. */
  predicate IsKanji(c: char) {
    0x4E00 <= c as int <= 0x9FFF
  }

  /** Hiragana and katakana, U+3040 to U+30FF. */
  predicate IsKana(c: char) {
    0x3040 <= c as int <= 0x30FF
  }

  /** The ideographic iteration mark 々, which the annotation pattern admits
      beside kanji and kana. */
  const IterationMark: char := '\U{3005}'

  /** The iteration mark is neither a kanji nor a kana for `has_kanji` and
      `has_kana`. */
  lemma IterationMarkIsNeither()
    ensures !IsKanji(IterationMark) && !IsKana(IterationMark)
  {
  }

  /** `has_kanji(text)`: a search for one character of the kanji block. */
  function HasKanji(s: string): bool {
    AnyChar(s, IsKanji)
  }

  /** `has_kana(text)`: a search for one character of the kana blocks. */
  function HasKana(s: string): bool {
    AnyChar(s, IsKana)
  }

  /** `has_kanji` holds iff some character is a kanji. */
  lemma HasKanjiIff(s: string)
    ensures HasKanji(s) <==> exists i :: 0 <= i < |s| && IsKanji(s[i])
  {
    AnyCharIff(s, IsKanji);
  }

  /** `has_kana` holds iff some character is a kana. */
  lemma HasKanaIff(s: string)
    ensures HasKana(s) <==> exists i :: 0 <= i < |s| && IsKana(s[i])
  {
    AnyCharIff(s, IsKana);
  }

  /** A slice of a text has a kanji (a kana) only if the text has one. */
  lemma SliceScripts(s: string, lo: nat, hi: nat)
    requires lo <= hi <= |s|
    ensures HasKanji(s[lo..hi]) ==> HasKanji(s)
    ensures HasKana(s[lo..hi]) ==> HasKana(s)
  {
    var t := s[lo..hi];
    HasKanjiIff(t);
    HasKanjiIff(s);
    HasKanaIff(t);
    HasKanaIff(s);
    if HasKanji(t) {
      var i :| 0 <= i < |t| && IsKanji(t[i]);
      assert s[lo + i] == t[i];
    }
    if HasKana(t) {
      var i :| 0 <= i < |t| && IsKana(t[i]);
      assert s[lo + i] == t[i];
    }
  }

  /** A stripped slice of a text has a kanji (a kana) only if the text has
      one. */
  lemma StripSliceScripts(s: string, x: nat, y: nat)
    requires x <= y <= |s|
    ensures HasKanji(Strip(s[x..y])) ==> HasKanji(s)
    ensures HasKana(Strip(s[x..y])) ==> HasKana(s)
  {
    var lo, hi := StripSlice(s, x, y);
    SliceScripts(s, lo, hi);
  }

  /** A concatenation has a kanji iff one of its halves has one. */
  lemma ConcatKanji(a: string, b: string)
    ensures HasKanji(a + b) <==> HasKanji(a) || HasKanji(b)
  {
    SliceScripts(a + b, 0, |a|);
    SliceScripts(a + b, |a|, |a + b|);
    HasKanjiIff(a);
    HasKanjiIff(b);
    HasKanjiIff(a + b);
    assert (a + b)[..|a|] == a;
    assert (a + b)[|a|..] == b;
    if HasKanji(a + b) {
      var i :| 0 <= i < |a + b| && IsKanji((a + b)[i]);
      if i < |a| {
        assert a[i] == (a + b)[i];
      } else {
        assert b[i - |a|] == (a + b)[i];
      }
    }
  }
}
