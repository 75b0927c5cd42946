/** `isJobRelevant` of the ingestion route: one keyword in the title is
    enough; otherwise the content must match two or more list entries. */
module Relevance {
  import opened Wrappers
  import opened Text
  import opened Keywords
  import opened Feed

  /** The lower-cased title, `(item.title || '').toLowerCase()`. */
  function TitleText(item: Item): string {
    Lower(OrEmpty(item.title))
  }

  /** The lower-cased content, `(item.content || '').toLowerCase()`. */
  function ContentText(item: Item): string {
    Lower(OrEmpty(item.content))
  }

  /** Some vocabulary entry is mentioned in the title. */
  ghost predicate TitleHit(item: Item) {
    exists i :: HitAt(TitleText(item), Vocabulary, i)
  }

  /** Two different vocabulary entries are mentioned in the content. */
  ghost predicate ContentHitsTwo(item: Item) {
    exists i, j :: i < j && HitAt(ContentText(item), Vocabulary, i) && HitAt(ContentText(item), Vocabulary, j)
  }

  /** `isJobRelevant`. */
  predicate IsJobRelevant(item: Item) {
    |MatchedKeywords(TitleText(item), Vocabulary)| > 0
      || |MatchedKeywords(ContentText(item), Vocabulary)| >= 2
  }

  /** An item is relevant exactly when some vocabulary entry is in its
      title or two different entries are in its content. */
  lemma RelevantIff(item: Item)
    ensures IsJobRelevant(item) <==> TitleHit(item) || ContentHitsTwo(item)
  {
    MatchedNonEmpty(TitleText(item), Vocabulary);
    MatchedAtLeastTwo(ContentText(item), Vocabulary);
  }

  /** A title hit makes the item relevant whatever its content. */
  lemma TitleHitSuffices(item: Item, content: Option<string>)
    ensures TitleHit(item) ==> IsJobRelevant(item.(content := content))
  {
    assert TitleText(item.(content := content)) == TitleText(item);
    RelevantIff(item.(content := content));
  }

  /** Without a title hit, relevance needs two matched list entries: exactly
      one is not enough. */
  lemma ContentNeedsTwo(item: Item)
    requires MatchedKeywords(TitleText(item), Vocabulary) == []
    ensures IsJobRelevant(item) <==> |MatchedKeywords(ContentText(item), Vocabulary)| >= 2
    ensures |MatchedKeywords(ContentText(item), Vocabulary)| == 1 ==> !IsJobRelevant(item)
  {
    MatchedNonEmpty(TitleText(item), Vocabulary);
    MatchedAtLeastTwo(ContentText(item), Vocabulary);
  }

  /** A missing title or content counts as the empty string. */
  lemma MissingIsEmpty(item: Item)
    ensures IsJobRelevant(item.(title := None)) == IsJobRelevant(item.(title := Some("")))
    ensures IsJobRelevant(item.(content := None)) == IsJobRelevant(item.(content := Some("")))
  {
    assert TitleText(item.(title := None)) == TitleText(item.(title := Some("")));
    assert ContentText(item.(content := None)) == ContentText(item.(content := Some("")));
  }

  /** Overlapping entries count separately: content `ml engineer` matches
      both `ml` and `ml engineer`, which makes an untitled item relevant. */
  lemma MlEngineerExample(item: Item)
    requires item.title.None? && item.content == Some("ml engineer")
    ensures IsJobRelevant(item)
  {
    var t := "ml engineer";
    assert ContentText(item) == t;
    assert Lower(t) == t;
    assert Vocabulary[11] == AiTerms[8] == AiFieldTerms[8] == "ml";
    assert Vocabulary[30] == DataScienceTerms[7] == t;
    assert Lower("ml") == "ml";
    assert WholeWordAt(t, "ml", 0) by { assert t[0..2] == "ml"; assert !WordCharAt(t, 2); }
    assert WholeWordAt(t, t, 0) by { assert t[0..|t|] == t; }
    assert HitAt(t, Vocabulary, 11) && HitAt(t, Vocabulary, 30);
    RelevantIff(item);
  }
}
