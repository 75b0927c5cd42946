/** The keyword matcher of the ingestion route (src/app/api/pull-jobs/route.ts):
    a fixed vocabulary and a whole-word, case-insensitive test built from the
    regular expression `\b<keyword>\b` with the `i` flag. */
module Keywords {
  import opened Text
  import opened Seqs

  const FullStackTerms: seq<string> := ["full-stack", "fullstack", "full stack"]

  /** The AI/ML group of the source list, split in two halves only to keep
      the proofs about its entries small; `AiTerms` joins them again. */
  const AiFieldTerms: seq<string> := [
    "artificial intelligence", "machine learning", "deep learning", "neural network",
    "computer vision", "natural language processing", "nlp", "ai", "ml"
  ]
  const AiLibraryTerms: seq<string> := [
    "deeplearning", "tensorflow", "pytorch", "keras", "scikit-learn", "opencv",
    "transformers", "llm", "large language model", "generative ai", "genai"
  ]
  const AiTerms: seq<string> := AiFieldTerms + AiLibraryTerms

  const DataScienceTerms: seq<string> := [
    "data scientist", "data science", "data analysis", "data analytics",
    "data engineer", "data engineering", "machine learning engineer", "ml engineer",
    "ai engineer", "research scientist", "applied scientist", "quantitative analyst",
    "statistician", "business intelligence", "predictive analytics", "big data"
  ]

  const ToolTerms: seq<string> := [
    "python", "r programming", "sql", "pandas", "numpy", "jupyter", "databricks",
    "spark", "hadoop", "tableau", "power bi", "statistical modeling",
    "predictive modeling"
  ]

  /** The vocabulary, in source order: full-stack, AI/ML, data-science and
      tool terms. */
  const Vocabulary: seq<string> := FullStackTerms + AiTerms + DataScienceTerms + ToolTerms

  /** A word character of `\b` without the `u` flag: `[A-Za-z0-9_]`. */
  predicate IsWordChar(c: char) {
    ('a' <= c <= 'z') || ('A' <= c <= 'Z') || ('0' <= c <= '9') || c == '_'
  }

  /** Position `i` holds a word character; positions outside `s` do not. */
  predicate WordCharAt(s: string, i: int) {
    0 <= i < |s| && IsWordChar(s[i])
  }

  /** `\b` holds between positions `i - 1` and `i`. */
  predicate IsBoundary(s: string, i: int) {
    WordCharAt(s, i - 1) != WordCharAt(s, i)
  }

  /** `\b<kw>\b` matches `text` at index `i` (the keywords contain no
      regular-expression metacharacters, so `kw` stands for itself). */
  predicate WholeWordAt(text: string, kw: string, i: int) {
    && 0 <= i && i + |kw| <= |text|
    && text[i..i + |kw|] == kw
    && IsBoundary(text, i) && IsBoundary(text, i + |kw|)
  }

  /** The regular expression search, trying every start from `from` on. */
  function FindWholeWord(text: string, kw: string, from: nat): (found: bool)
    ensures found <==> exists i :: from <= i && WholeWordAt(text, kw, i)
    decreases |text| + 1 - from
  {
    if from + |kw| > |text| then false
    else if WholeWordAt(text, kw, from) then true
    else FindWholeWord(text, kw, from + 1)
  }

  /** `new RegExp('\\b' + kw.toLowerCase() + '\\b', 'i').test(text.toLowerCase())`.
      Both sides are already lower-cased, so the `i` flag changes nothing. */
  predicate Mentions(text: string, kw: string) {
    FindWholeWord(Lower(text), Lower(kw), 0)
  }

  /** `getMatchedKeywords`: the keywords mentioned in `text`, in list order. */
  function MatchedKeywords(text: string, keywords: seq<string>): (r: seq<string>)
    ensures IsSubsequence(r, keywords)
    ensures |r| <= |keywords|
    ensures forall k :: k in r <==> k in keywords && Mentions(text, k)
  {
    if |keywords| == 0 then []
    else
      var rest := MatchedKeywords(text, keywords[1..]);
      SubsequenceLength(rest, keywords[1..]);
      assert keywords == [keywords[0]] + keywords[1..];
      if Mentions(text, keywords[0]) then
        SubsequenceCons(keywords[0], rest, keywords[1..]);
        [keywords[0]] + rest
      else
        SubsequenceSkip(keywords[0], rest, keywords[1..]);
        rest
  }

  /** The text mentions the keyword at position `i` of the list. */
  ghost predicate HitAt(text: string, keywords: seq<string>, i: int) {
    0 <= i < |keywords| && Mentions(text, keywords[i])
  }

  /** Some list entry is matched exactly when the result is non-empty. */
  lemma {:induction false} MatchedNonEmpty(text: string, keywords: seq<string>)
    ensures MatchedKeywords(text, keywords) != [] <==> exists i :: HitAt(text, keywords, i)
  {
    var r := MatchedKeywords(text, keywords);
    if r != [] {
      assert r[0] in r;
      var i :| 0 <= i < |keywords| && keywords[i] == r[0];
      assert HitAt(text, keywords, i);
    }
    if i :| HitAt(text, keywords, i) {
      assert keywords[i] in keywords;
      assert keywords[i] in r;
    }
  }

  /** Two or more results exactly when two different list positions are
      matched: entries are counted, not distinct strings. */
  lemma {:induction false} MatchedAtLeastTwo(text: string, keywords: seq<string>)
    ensures |MatchedKeywords(text, keywords)| >= 2
        <==> exists i, j :: i < j && HitAt(text, keywords, i) && HitAt(text, keywords, j)
    decreases |keywords|
  {
    if |keywords| > 0 {
      var tail := keywords[1..];
      var rest := MatchedKeywords(text, tail);
      MatchedAtLeastTwo(text, tail);
      MatchedNonEmpty(text, tail);
      if Mentions(text, keywords[0]) {
        // two hits <==> the head plus at least one hit in the tail
        if rest != [] {
          var j :| HitAt(text, tail, j);
          assert HitAt(text, keywords, 0) && HitAt(text, keywords, j + 1);
        }
        if i, j :| i < j && HitAt(text, keywords, i) && HitAt(text, keywords, j) {
          assert HitAt(text, tail, j - 1);
        }
      } else {
        if i, j :| i < j && HitAt(text, keywords, i) && HitAt(text, keywords, j) {
          assert HitAt(text, tail, i - 1) && HitAt(text, tail, j - 1);
        }
        if i, j :| i < j && HitAt(text, tail, i) && HitAt(text, tail, j) {
          assert HitAt(text, keywords, i + 1) && HitAt(text, keywords, j + 1);
        }
      }
    }
  }

  /** For a keyword that begins and ends with a word character, `\b` on each
      side means: a string edge or a non-word character next to it. */
  lemma WholeWordEdges(text: string, kw: string, i: int)
    requires |kw| > 0 && IsWordChar(kw[0]) && IsWordChar(kw[|kw| - 1])
    ensures WholeWordAt(text, kw, i)
        <==> && OccursAt(text, kw, i)
             && (i == 0 || !IsWordChar(text[i - 1]))
             && (i + |kw| == |text| || !IsWordChar(text[i + |kw|]))
  {
    if OccursAt(text, kw, i) {
      assert text[i] == kw[0];
      assert text[i + |kw| - 1] == kw[|kw| - 1];
    }
  }

  /** `kw` is non-empty and begins and ends with a word character. */
  predicate WordEdged(kw: string) {
    |kw| > 0 && IsWordChar(kw[0]) && IsWordChar(kw[|kw| - 1])
  }

  lemma FullStackWordEdged() ensures forall k :: k in FullStackTerms ==> WordEdged(k) { }
  lemma AiFieldWordEdged() ensures forall k :: k in AiFieldTerms ==> WordEdged(k) { }
  lemma AiLibraryWordEdged() ensures forall k :: k in AiLibraryTerms ==> WordEdged(k) { }
  lemma AiWordEdged(i: int)
    requires 0 <= i < |AiTerms|
    ensures WordEdged(AiTerms[i])
  {
    if i < |AiFieldTerms| {
      AiFieldWordEdged();
      assert AiTerms[i] == AiFieldTerms[i];
      assert AiFieldTerms[i] in AiFieldTerms;
    } else {
      AiLibraryWordEdged();
      assert AiTerms[i] == AiLibraryTerms[i - |AiFieldTerms|];
      assert AiLibraryTerms[i - |AiFieldTerms|] in AiLibraryTerms;
    }
  }
  lemma DataScienceWordEdged() ensures forall k :: k in DataScienceTerms ==> WordEdged(k) { }
  lemma ToolsWordEdged() ensures forall k :: k in ToolTerms ==> WordEdged(k) { }

  /** Every vocabulary entry begins and ends with a word character, so for
      the vocabulary the boundary test is the edge test of `WholeWordEdges`. */
  lemma VocabularyWordEdged(i: int)
    requires 0 <= i < |Vocabulary|
    ensures WordEdged(Vocabulary[i])
  {
    var n1, n2, n3 := |FullStackTerms|, |FullStackTerms| + |AiTerms|,
      |FullStackTerms| + |AiTerms| + |DataScienceTerms|;
    if i < n1 {
      FullStackWordEdged();
      assert Vocabulary[i] == FullStackTerms[i];
      assert FullStackTerms[i] in FullStackTerms;
    } else if i < n2 {
      assert Vocabulary[i] == AiTerms[i - n1];
      AiWordEdged(i - n1);
    } else if i < n3 {
      DataScienceWordEdged();
      assert Vocabulary[i] == DataScienceTerms[i - n2];
      assert DataScienceTerms[i - n2] in DataScienceTerms;
    } else {
      ToolsWordEdged();
      assert Vocabulary[i] == ToolTerms[i - n3];
      assert ToolTerms[i - n3] in ToolTerms;
    }
  }

  /** `kw` occurs in `text` at `p` with a string edge or a non-word
      character on each side. */
  ghost predicate Delimited(text: string, kw: string, p: int) {
    && OccursAt(text, kw, p)
    && (p == 0 || !IsWordChar(text[p - 1]))
    && (p + |kw| == |text| || !IsWordChar(text[p + |kw|]))
  }

  /** A keyword whose lower-cased form is word-edged is reported exactly
      when it occurs in the lower-cased text delimited on both sides. */
  lemma MentionDelimited(text: string, kw: string)
    requires WordEdged(Lower(kw))
    ensures Mentions(text, kw) <==> exists p :: Delimited(Lower(text), Lower(kw), p)
  {
    var k := Lower(kw);
    var t := Lower(text);
    if Mentions(text, kw) {
      var p :| 0 <= p && WholeWordAt(t, k, p);
      WholeWordEdges(t, k, p);
      assert Delimited(t, k, p);
    }
    if p :| Delimited(t, k, p) {
      WholeWordEdges(t, k, p);
      assert WholeWordAt(t, k, p);
    }
  }

  /** Lower-casing keeps the first and last characters word characters. */
  lemma LowerWordEdged(kw: string)
    requires WordEdged(kw)
    ensures WordEdged(Lower(kw))
  {
  }

  /** A vocabulary entry is reported exactly when it occurs in the
      lower-cased text with a string edge or a non-word character on both
      sides. */
  lemma VocabularyMentionDelimited(text: string, i: int)
    requires 0 <= i < |Vocabulary|
    ensures Mentions(text, Vocabulary[i])
        <==> exists p :: Delimited(Lower(text), Lower(Vocabulary[i]), p)
  {
    var k := Vocabulary[i];
    VocabularyWordEdged(i);
    LowerWordEdged(k);
    MentionDelimited(text, k);
  }

  lemma AiIsVocabulary()
    ensures Vocabulary[10] == "ai"
  {
    assert Vocabulary[10] == AiTerms[7] == AiFieldTerms[7];
  }

  /** `ai` is not reported inside `air`, whatever the case. */
  lemma AiNotInAir()
    ensures "ai" !in MatchedKeywords("AIR", Vocabulary)
  {
    assert Lower("AIR") == "air" && Lower("ai") == "ai";
    assert !WholeWordAt("air", "ai", 0) by { assert WordCharAt("air", 2); }
    assert !FindWholeWord("air", "ai", 1);
  }

  /** `ai` is not reported inside `said`. */
  lemma AiNotInSaid()
    ensures "ai" !in MatchedKeywords("said", Vocabulary)
  {
    assert Lower("said") == "said" && Lower("ai") == "ai";
    assert !WholeWordAt("said", "ai", 0) by { assert "said"[0..2] == "sa"; }
    assert !WholeWordAt("said", "ai", 1) by { assert WordCharAt("said", 0); }
    assert !WholeWordAt("said", "ai", 2) by { assert "said"[2..4] == "id"; }
    assert !FindWholeWord("said", "ai", 3);
  }

  /** `ai` is reported in `AI/ML`: `/` is not a word character. */
  lemma AiInAiSlashMl()
    ensures "ai" in MatchedKeywords("AI/ML", Vocabulary)
  {
    AiIsVocabulary();
    assert Lower("AI/ML") == "ai/ml" && Lower("ai") == "ai";
    assert WholeWordAt("ai/ml", "ai", 0) by { assert "ai/ml"[0..2] == "ai"; }
  }
}
