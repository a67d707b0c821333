/**
 * Duplicate detection on resume text: the Jaccard similarity of the word sets
 * of two texts, and the normal form whose SHA-256 digest is the content hash.
 * The digest itself is not modelled: two texts hash alike exactly when their
 * normal forms are equal.
 */
module DuplicateDetection {
  import opened PyStr
  import opened Sets

  /** `set(text.lower().split())`. */
  function WordSet(text: Str): set<Str> {
    set w | w in Split(Lower(text))
  }

  /**
   * `calculate_text_similarity`: 1.0 when neither text has a word, 0.0 when
   * only one has none, otherwise the size of the common word set over the
   * size of the joint word set, computed exactly.
   */
  function TextSimilarity(text1: Str, text2: Str): (r: real)
    ensures 0.0 <= r <= 1.0
  {
    var words1 := WordSet(text1);
    var words2 := WordSet(text2);
    if words1 == {} && words2 == {} then 1.0
    else if words1 == {} || words2 == {} then 0.0
    else
      SubsetCard(words1 * words2, words1 + words2);
      |words1 * words2| as real / |words1 + words2| as real
  }

  /** Similarity does not depend on the order of its arguments. */
  lemma SimilaritySymmetric(text1: Str, text2: Str)
    ensures TextSimilarity(text1, text2) == TextSimilarity(text2, text1)
  {
    assert WordSet(text1) * WordSet(text2) == WordSet(text2) * WordSet(text1);
    assert WordSet(text1) + WordSet(text2) == WordSet(text2) + WordSet(text1);
  }

  /** A text has no words exactly when it is blank. */
  lemma WordSetEmpty(text: Str)
    ensures WordSet(text) == {} <==> AllSpace(text)
  {
    var lowered := Lower(text);
    assert AllSpace(lowered) <==> AllSpace(text) by {
      assert forall i :: 0 <= i < |text| ==> (IsSpace(lowered[i]) <==> IsSpace(text[i]));
    }
    SplitEmpty(lowered);
    if Split(lowered) != [] {
      assert Split(lowered)[0] in WordSet(text);
    }
  }

  /** Two blank texts are identical (1.0); a blank and a non-blank one share nothing (0.0). */
  lemma SimilarityBlank(text1: Str, text2: Str)
    requires AllSpace(text1)
    ensures AllSpace(text2) ==> TextSimilarity(text1, text2) == 1.0
    ensures !AllSpace(text2) ==> TextSimilarity(text1, text2) == 0.0 && TextSimilarity(text2, text1) == 0.0
  {
    WordSetEmpty(text1);
    WordSetEmpty(text2);
  }

  /** Similarity is 1.0 exactly when the texts have the same words, whatever their order, case or repetition. */
  lemma SimilarityOne(text1: Str, text2: Str)
    ensures TextSimilarity(text1, text2) == 1.0 <==> WordSet(text1) == WordSet(text2)
  {
    var words1 := WordSet(text1);
    var words2 := WordSet(text2);
    if words1 != {} && words2 != {} {
      var common := words1 * words2;
      var all := words1 + words2;
      SubsetCard(common, all);
      RatioOne(|common|, |all|);
      if |common| == |all| {
        SubsetEqualCard(common, all);
        assert forall w :: w in words1 <==> w in words2 by {
          assert words1 <= all && words2 <= all;
        }
      }
      if words1 == words2 {
        assert common == all;
      }
    }
  }

  /** Similarity is 0.0 for two texts with words exactly when they have no word in common. */
  lemma SimilarityZero(text1: Str, text2: Str)
    requires WordSet(text1) != {} && WordSet(text2) != {}
    ensures TextSimilarity(text1, text2) == 0.0 <==> WordSet(text1) !! WordSet(text2)
  {
    var common := WordSet(text1) * WordSet(text2);
    var all := WordSet(text1) + WordSet(text2);
    var w :| w in WordSet(text1);
    assert w in all;
    RatioZero(|common|, |all|);
    assert |common| == 0 <==> common == {};
    if common != {} {
      var v :| v in common;
      assert v in WordSet(text1) && v in WordSet(text2);
    } else {
      assert forall v :: v in WordSet(text1) ==> v !in WordSet(text2) by {
        forall v | v in WordSet(text1) ensures v !in WordSet(text2) {
          assert v !in common;
        }
      }
    }
  }

  lemma RatioOne(x: nat, y: nat)
    requires 0 < y && x <= y
    ensures x as real / y as real == 1.0 <==> x == y
  {
    if x as real / y as real == 1.0 {
      assert x as real == (x as real / y as real) * y as real;
    }
  }

  lemma RatioZero(x: nat, y: nat)
    requires 0 < y
    ensures x as real / y as real == 0.0 <==> x == 0
  {
    if x as real / y as real == 0.0 {
      assert x as real == (x as real / y as real) * y as real;
    }
  }

  // ---------------------------------------------------------------- calculate_content_hash

  /** The normalisation in `calculate_content_hash`: `' '.join(text.lower().split())`. */
  function NormalizeContent(text: Str): Str {
    Join([SPACE], Split(Lower(text)))
  }

  predicate NoUpper(s: Str) {
    forall i :: 0 <= i < |s| ==> !(0x41 <= s[i] <= 0x5A)
  }

  lemma {:induction false} SplitFromNoUpper(s: Str, word: Str)
    requires NoUpper(s) && NoUpper(word)
    ensures forall k :: 0 <= k < |SplitFrom(s, word)| ==> NoUpper(SplitFrom(s, word)[k])
    decreases |s|
  {
    if s != [] {
      if IsSpace(s[0]) {
        SplitFromNoUpper(s[1..], []);
      } else {
        SplitFromNoUpper(s[1..], word + [s[0]]);
      }
    }
  }

  lemma {:induction false} JoinNoUpper(sep: Str, parts: seq<Str>)
    requires NoUpper(sep) && forall k :: 0 <= k < |parts| ==> NoUpper(parts[k])
    ensures NoUpper(Join(sep, parts))
    decreases |parts|
  {
    if |parts| > 1 {
      JoinNoUpper(sep, parts[1..]);
    }
  }

  /** A normal form is lower case, single-spaced and trimmed, and normalising it again changes nothing. */
  lemma NormalizeContentIdempotent(text: Str)
    ensures NormalizeContent(NormalizeContent(text)) == NormalizeContent(text)
    ensures Trimmed(NormalizeContent(text))
  {
    var words := Split(Lower(text));
    var normal := Join([SPACE], words);
    SplitFromNoUpper(Lower(text), []);
    JoinNoUpper([SPACE], words);
    assert Lower(normal) == normal;
    SplitWords(Lower(text));
    SplitJoin(words);
    JoinWordsShape(words);
  }

  /** Upper and lower case normalise alike. */
  lemma NormalizeContentIgnoresCase(text: Str)
    ensures NormalizeContent(Lower(text)) == NormalizeContent(text)
  {
    assert Lower(Lower(text)) == Lower(text);
  }

  /** A non-empty run of whitespace between two pieces of text normalises like one space. */
  lemma NormalizeContentIgnoresSpacing(a: Str, gap: Str, b: Str)
    requires gap != [] && AllSpace(gap)
    ensures NormalizeContent(a + gap + b) == NormalizeContent(a + [SPACE] + b)
  {
    var la := Lower(a);
    var lb := Lower(b);
    var lgap := Lower(gap);
    assert Lower(a + gap + b) == la + [lgap[0]] + (lgap[1..] + lb);
    assert Lower(a + [SPACE] + b) == la + [SPACE] + lb;
    SplitAtSpace(la, lgap[0], lgap[1..] + lb);
    SplitAtSpace(la, SPACE, lb);
    LeadingSpaceSplit(lgap[1..], lb);
  }

  /** Leading whitespace contributes no word. */
  lemma {:induction false} LeadingSpaceSplit(spaces: Str, s: Str)
    requires AllSpace(spaces)
    ensures Split(spaces + s) == Split(s)
    decreases |spaces|
  {
    if spaces != [] {
      var empty: Str := [];
      assert spaces + s == empty + [spaces[0]] + (spaces[1..] + s);
      SplitAtSpace(empty, spaces[0], spaces[1..] + s);
      assert Split(empty) == [];
      LeadingSpaceSplit(spaces[1..], s);
    } else {
      assert spaces + s == s;
    }
  }

  /** Texts with the same normal form, and so the same content hash, have the same words: similarity 1.0. */
  lemma SameNormalFormSameWords(text1: Str, text2: Str)
    requires NormalizeContent(text1) == NormalizeContent(text2)
    ensures WordSet(text1) == WordSet(text2)
    ensures TextSimilarity(text1, text2) == 1.0
  {
    var words1 := Split(Lower(text1));
    var words2 := Split(Lower(text2));
    SplitWords(Lower(text1));
    SplitWords(Lower(text2));
    SplitJoin(words1);
    SplitJoin(words2);
    assert words1 == words2;
    SimilarityOne(text1, text2);
  }
}
