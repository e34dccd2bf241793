/**
 * Keyword-scored question answering (telegram/bible_qa.py). The table of
 * entries is a parameter, in the table's own order.
 */
module BibleQa {
  import opened Wrappers
  import Text

  datatype QaEntry = QaEntry(keywords: seq<string>, question: string, answer: string, references: seq<string>)

  /** The number of `keywords` that occur as substrings of `text`. */
  function Score(keywords: seq<string>, text: string): (r: nat)
    ensures r <= |keywords|
  {
    if keywords == [] then 0
    else
      Score(keywords[..|keywords| - 1], text)
      + (if Text.Contains(text, keywords[|keywords| - 1]) then 1 else 0)
  }

  /** A score is positive exactly when some keyword occurs in the text. */
  lemma {:induction false} ScorePositive(keywords: seq<string>, text: string)
    ensures Score(keywords, text) > 0 <==> exists k :: k in keywords && Text.Contains(text, k)
    decreases |keywords|
  {
    if keywords != [] {
      var init := keywords[..|keywords| - 1];
      var last := keywords[|keywords| - 1];
      ScorePositive(init, text);
      assert keywords == init + [last];
      assert forall k :: k in keywords <==> k in init || k == last;
      if Text.Contains(text, last) {
        assert last in keywords;
      }
    }
  }

  /**
   * Matching is plain substring containment with no word boundaries: a
   * keyword inside a longer word counts.
   */
  lemma KeywordInsideWord(keywords: seq<string>, before: string, k: string, after: string)
    requires k in keywords
    ensures Score(keywords, before + k + after) > 0
  {
    var text := before + k + after;
    assert Text.OccursAt(k, text, |before|) by {
      assert text[|before|..|before| + |k|] == k;
    }
    Text.ContainsMeansOccurs(text, k);
    ScorePositive(keywords, text);
  }

  /** The inner loop of `find_answer`: the score of one entry. */
  method KeywordScore(keywords: seq<string>, text: string) returns (score: nat)
    ensures score == Score(keywords, text)
  {
    score := 0;
    for i := 0 to |keywords|
      invariant score == Score(keywords[..i], text)
    {
      assert keywords[..i + 1][..i] == keywords[..i];
      if Text.Contains(text, keywords[i]) {
        score := score + 1;
      }
    }
    assert keywords[..|keywords|] == keywords;
  }

  /** The score of entry `i` of `table` for the lower-cased question `q`. */
  function EntryScore(table: seq<QaEntry>, q: string, i: int): nat
    requires 0 <= i < |table|
  {
    Score(table[i].keywords, q)
  }

  /**
   * Entry `i` has a positive score that no entry beats, and every earlier
   * entry scores strictly less.
   */
  ghost predicate FirstMaximum(table: seq<QaEntry>, q: string, i: int) {
    0 <= i < |table| && EntryScore(table, q, i) > 0
    && (forall j :: 0 <= j < i ==> EntryScore(table, q, j) < EntryScore(table, q, i))
    && (forall j :: i < j < |table| ==> EntryScore(table, q, j) <= EntryScore(table, q, i))
  }

  /** All scores are zero exactly when no keyword of any entry occurs in `q`. */
  lemma NoScoreMeansNoKeyword(table: seq<QaEntry>, q: string)
    ensures (forall j :: 0 <= j < |table| ==> EntryScore(table, q, j) == 0)
        <==> (forall j :: 0 <= j < |table| ==> forall k :: k in table[j].keywords ==> !Text.Contains(q, k))
  {
    forall j | 0 <= j < |table|
      ensures EntryScore(table, q, j) == 0 <==> forall k :: k in table[j].keywords ==> !Text.Contains(q, k)
    {
      ScorePositive(table[j].keywords, q);
    }
  }

  /**
   * `find_answer`: the first entry with the highest score for the lower-cased
   * question, or None when no keyword of any entry occurs in it.
   */
  method FindAnswer(table: seq<QaEntry>, userQuestion: string) returns (best: Option<QaEntry>)
    ensures best.None? <==> forall j :: 0 <= j < |table| ==> EntryScore(table, Text.Lower(userQuestion), j) == 0
    ensures best.Some? ==> exists i :: FirstMaximum(table, Text.Lower(userQuestion), i) && best.value == table[i]
  {
    var q := Text.Lower(userQuestion);
    best := None;
    var bestScore := 0;
    ghost var bestIndex := -1;
    for i := 0 to |table|
      invariant forall j :: 0 <= j < i ==> EntryScore(table, q, j) <= bestScore
      invariant best.None? ==> bestScore == 0
      invariant best.Some? ==> 0 <= bestIndex < i && best.value == table[bestIndex]
      invariant best.Some? ==> bestScore == EntryScore(table, q, bestIndex) > 0
      invariant best.Some? ==> forall j :: 0 <= j < bestIndex ==> EntryScore(table, q, j) < bestScore
    {
      var score := KeywordScore(table[i].keywords, q);
      if score > bestScore {
        bestScore := score;
        best := Some(table[i]);
        bestIndex := i;
      }
    }
    if best.Some? {
      assert FirstMaximum(table, q, bestIndex);
    }
  }

  /** `get_all_topics`: every entry's question, in table order. */
  function GetAllTopics(table: seq<QaEntry>): (r: seq<string>)
    ensures |r| == |table|
    ensures forall i :: 0 <= i < |table| ==> r[i] == table[i].question
  {
    if table == [] then [] else [table[0].question] + GetAllTopics(table[1..])
  }
}
