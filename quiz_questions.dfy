/**
 * The quiz question bank and its selector (telegram/quiz_questions.py).
 *
 * The catalogue is a parameter of every operation: the shipped bank is a long
 * literal list, and what the selector promises holds for any list of questions.
 * Python's `None` for a difficulty or category filter is modelled as the empty
 * string, which the source treats the same way (`if difficulty:`). The random
 * choice is a parameter `r`: the pick is position `r % |candidates|` of the
 * candidate list, so every candidate is reachable and nothing else is.
 */
module QuizQuestions {
  import opened Wrappers
  import Seqs

  datatype Question = Question(
    question: string,
    options: seq<string>,
    correct: int,
    reference: string,
    difficulty: string,
    category: string)

  /** The category keys of `CATEGORIES`, in declaration order, and their display names. */
  const CategoryKeys: seq<string> := ["old_testament", "new_testament", "bible_facts"]
  const CategoryNames: map<string, string> :=
    map["old_testament" := "Old Testament", "new_testament" := "New Testament", "bible_facts" := "Bible Facts"]

  const Difficulties: seq<string> := ["easy", "medium", "hard"]

  /** The data invariant every catalogue entry satisfies and the selector relies on. */
  predicate WellFormed(q: Question) {
    && 0 <= q.correct < |q.options|
    && q.difficulty in Difficulties
    && q.category in CategoryKeys
  }

  predicate WellFormedCatalogue(catalogue: seq<Question>) {
    forall i :: 0 <= i < |catalogue| ==> WellFormed(catalogue[i])
  }

  /** The first three entries of the shipped bank, as a sample catalogue. */
  const SampleCatalogue: seq<Question> := [
    Question("Who built the ark?", ["Noah", "Moses", "Abraham", "David"], 0,
             "Genesis 6:14-22", "easy", "old_testament"),
    Question("Who was the first man created by God?", ["Noah", "Adam", "Abraham", "Moses"], 1,
             "Genesis 2:7", "easy", "old_testament"),
    Question("What was the name of the garden where Adam and Eve lived?",
             ["Garden of Gethsemane", "Garden of Eden", "Garden of Babylon", "Garden of Paradise"], 1,
             "Genesis 2:8", "easy", "old_testament")
  ]

  lemma SampleCatalogueWellFormed()
    ensures WellFormedCatalogue(SampleCatalogue)
  {
  }

  /** The two list-comprehension filters of the selector; an empty filter is inactive. */
  predicate Matches(q: Question, difficulty: string, category: string) {
    (difficulty == "" || q.difficulty == difficulty) && (category == "" || q.category == category)
  }

  /** The indices, from `lo` on and in increasing order, of entries that pass both filters. */
  function MatchingFrom(catalogue: seq<Question>, difficulty: string, category: string, lo: nat): (r: seq<int>)
    requires lo <= |catalogue|
    ensures forall i :: i in r <==> lo <= i < |catalogue| && Matches(catalogue[i], difficulty, category)
    ensures forall k :: 0 <= k < |r| ==> lo <= r[k] < |catalogue|
    ensures (forall i :: lo <= i < |catalogue| ==> !Matches(catalogue[i], difficulty, category)) ==> r == []
    decreases |catalogue| - lo
  {
    if lo == |catalogue| then []
    else
      (if Matches(catalogue[lo], difficulty, category) then [lo] else [])
      + MatchingFrom(catalogue, difficulty, category, lo + 1)
  }

  function FilteredIndices(catalogue: seq<Question>, difficulty: string, category: string): seq<int> {
    MatchingFrom(catalogue, difficulty, category, 0)
  }

  /** The indices `0 .. n-1`, in order. */
  function AllIndices(n: nat): (r: seq<int>)
    ensures |r| == n
    ensures forall k :: 0 <= k < n ==> r[k] == k
    ensures forall i :: i in r <==> 0 <= i < n
  {
    if n == 0 then [] else AllIndices(n - 1) + [n - 1]
  }

  /** The members of `ix` that are not in `exclude`, in order. */
  function Without(ix: seq<int>, exclude: seq<int>): (r: seq<int>)
    ensures forall i :: i in r <==> i in ix && i !in exclude
    ensures |r| <= |ix|
    ensures (forall k :: 0 <= k < |ix| ==> ix[k] in exclude) ==> r == []
  {
    if ix == [] then []
    else (if ix[0] in exclude then [] else [ix[0]]) + Without(ix[1..], exclude)
  }

  /**
   * The list `random.choice` picks from in `get_random_question`: the filtered
   * indices minus the excluded ones when that leaves any; otherwise the filtered
   * list (a repeat); when nothing passes the filters, the whole catalogue minus
   * the excluded indices, or the whole catalogue when that is empty too. An empty
   * exclusion list skips the exclusion steps.
   */
  function Candidates(catalogue: seq<Question>, difficulty: string, category: string, exclude: seq<int>): (r: seq<int>)
    ensures r == [] <==> catalogue == []
    ensures forall i :: i in r ==> 0 <= i < |catalogue|
  {
    var filtered := FilteredIndices(catalogue, difficulty, category);
    var available := Without(filtered, exclude);
    var anyAvailable := Without(AllIndices(|catalogue|), exclude);
    if |exclude| > 0 && |available| > 0 then available
    else if |filtered| > 0 then filtered
    else if |exclude| > 0 && |anyAvailable| > 0 then anyAvailable
    else AllIndices(|catalogue|)
  }

  /** The index of the question `get_random_question` returns for random value `r`. */
  function SelectIndex(catalogue: seq<Question>, difficulty: string, category: string, exclude: seq<int>, r: nat): Option<int> {
    Pick(Candidates(catalogue, difficulty, category, exclude), r)
  }

  /** `random.choice(cs)` driven by the random value `r`. */
  function Pick(cs: seq<int>, r: nat): (p: Option<int>)
    ensures p.None? <==> cs == []
    ensures p.Some? ==> p.value in cs
  {
    if cs == [] then None else Some(cs[r % |cs|])
  }

  /**
   * `get_random_question`. `None` stands for the `IndexError` that
   * `random.choice` raises on an empty catalogue.
   */
  function GetRandomQuestion(catalogue: seq<Question>, difficulty: string, category: string, exclude: seq<int>, r: nat): (q: Option<Question>)
    ensures q.None? <==> catalogue == []
    ensures q.Some? ==> q.value in catalogue
  {
    match SelectIndex(catalogue, difficulty, category, exclude, r)
    case None => None
    case Some(i) => Some(catalogue[i])
  }

  /** When exclusions leave a candidate, the pick passes both filters and is not excluded. */
  lemma SelectionAvoidsExclusions(catalogue: seq<Question>, difficulty: string, category: string, exclude: seq<int>, r: nat, j: int)
    requires 0 <= j < |catalogue| && Matches(catalogue[j], difficulty, category) && j !in exclude
    ensures var s := SelectIndex(catalogue, difficulty, category, exclude, r);
      && s.Some? && 0 <= s.value < |catalogue|
      && Matches(catalogue[s.value], difficulty, category) && s.value !in exclude
  {
    var filtered := FilteredIndices(catalogue, difficulty, category);
    var available := Without(filtered, exclude);
    assert j in available;
    if exclude == [] {
      assert j in filtered;
    }
    var cs := Candidates(catalogue, difficulty, category, exclude);
    assert cs[r % |cs|] in cs;
  }

  /** When every matching question is excluded, a matching question is repeated. */
  lemma SelectionRepeatsWhenExhausted(catalogue: seq<Question>, difficulty: string, category: string, exclude: seq<int>, r: nat, j: int)
    requires 0 <= j < |catalogue| && Matches(catalogue[j], difficulty, category)
    requires forall i :: 0 <= i < |catalogue| && Matches(catalogue[i], difficulty, category) ==> i in exclude
    ensures var s := SelectIndex(catalogue, difficulty, category, exclude, r);
      && s.Some? && 0 <= s.value < |catalogue| && Matches(catalogue[s.value], difficulty, category)
  {
    var filtered := FilteredIndices(catalogue, difficulty, category);
    assert j in filtered;

    var cs := Candidates(catalogue, difficulty, category, exclude);
    assert cs == filtered;
    assert cs[r % |cs|] in cs;
  }

  /**
   * When no question passes the filters, the pick comes from the whole
   * catalogue, avoiding excluded indices when some index is not excluded.
   */
  lemma SelectionFallsBackToCatalogue(catalogue: seq<Question>, difficulty: string, category: string, exclude: seq<int>, r: nat)
    requires catalogue != []
    requires forall i :: 0 <= i < |catalogue| ==> !Matches(catalogue[i], difficulty, category)
    ensures var s := SelectIndex(catalogue, difficulty, category, exclude, r);
      && s.Some? && 0 <= s.value < |catalogue|
      && ((exists i :: 0 <= i < |catalogue| && i !in exclude) ==> s.value !in exclude)
  {
    var filtered := FilteredIndices(catalogue, difficulty, category);
    var cs := Candidates(catalogue, difficulty, category, exclude);
    assert cs[r % |cs|] in cs;
    var all := AllIndices(|catalogue|);
    if i :| 0 <= i < |catalogue| && i !in exclude {
      if |exclude| > 0 {
        assert all[i] == i;
        assert i in Without(all, exclude);
        assert cs == Without(all, exclude);
        assert cs[r % |cs|] in cs;
      }
    }
  }

  /** Without exclusions the pick is any question that passes the filters. */
  lemma NoExclusionsChoosesFiltered(catalogue: seq<Question>, difficulty: string, category: string, r: nat)
    requires exists i :: 0 <= i < |catalogue| && Matches(catalogue[i], difficulty, category)
    ensures Candidates(catalogue, difficulty, category, []) == FilteredIndices(catalogue, difficulty, category)
  {
    var i :| 0 <= i < |catalogue| && Matches(catalogue[i], difficulty, category);
    assert i in FilteredIndices(catalogue, difficulty, category);
  }

  /** The random choice ranges over exactly the candidate list. */
  lemma EveryCandidateReachable(catalogue: seq<Question>, difficulty: string, category: string, exclude: seq<int>, i: int)
    requires i in Candidates(catalogue, difficulty, category, exclude)
    ensures exists r: nat :: SelectIndex(catalogue, difficulty, category, exclude, r) == Some(i)
  {
    var cs := Candidates(catalogue, difficulty, category, exclude);
    PickReaches(cs, i);
    var r: nat :| Pick(cs, r) == Some(i);
    assert SelectIndex(catalogue, difficulty, category, exclude, r) == Some(i);
  }

  lemma PickReaches(cs: seq<int>, i: int)
    requires i in cs
    ensures exists r: nat :: Pick(cs, r) == Some(i)
  {
    var k :| 0 <= k < |cs| && cs[k] == i;
    assert k % |cs| == k;
    assert Pick(cs, k) == Some(i);
  }

  /** `get_question_index`: the first position holding an equal question, as `list.index`. */
  function GetQuestionIndex(catalogue: seq<Question>, q: Question): (r: Option<nat>)
    ensures r.None? <==> q !in catalogue
    ensures r.Some? ==> r.value < |catalogue| && catalogue[r.value] == q
    ensures r.Some? ==> forall j :: 0 <= j < r.value ==> catalogue[j] != q
  {
    if catalogue == [] then None
    else if catalogue[0] == q then Some(0)
    else match GetQuestionIndex(catalogue[1..], q)
      case None => None
      case Some(i) => Some(i + 1)
  }

  /** `get_question_by_index`: the entry when `0 <= index < len`, otherwise `None`. */
  function GetQuestionByIndex(catalogue: seq<Question>, index: int): (r: Option<Question>)
    ensures r.Some? <==> 0 <= index < |catalogue|
    ensures r.Some? ==> r.value == catalogue[index]
  {
    if 0 <= index < |catalogue| then Some(catalogue[index]) else None
  }

  /** Looking a catalogue member's index up and fetching that index gives it back. */
  lemma IndexRoundTrip(catalogue: seq<Question>, q: Question)
    requires q in catalogue
    ensures GetQuestionIndex(catalogue, q).Some?
    ensures GetQuestionByIndex(catalogue, GetQuestionIndex(catalogue, q).value) == Some(q)
  {
  }

  /**
   * `get_questions_by_difficulty`: an exact comparison of the tag. A missing
   * tag is the empty string in this model, so `""` selects the untagged
   * entries, where the source's `None` would.
   */
  function QuestionsByDifficulty(catalogue: seq<Question>, difficulty: string): (r: seq<Question>)
    ensures forall q :: q in r <==> q in catalogue && q.difficulty == difficulty
    ensures forall q {:trigger multiset(r)[q]} :: multiset(r)[q] == if q.difficulty == difficulty then multiset(catalogue)[q] else 0
    ensures |r| <= |catalogue|
  {
    if catalogue == [] then []
    else
      var init := catalogue[..|catalogue| - 1];
      var last := catalogue[|catalogue| - 1];
      assert catalogue == init + [last];
      QuestionsByDifficulty(init, difficulty) + (if last.difficulty == difficulty then [last] else [])
  }

  /** `get_questions_by_category`. */
  function QuestionsByCategory(catalogue: seq<Question>, category: string): (r: seq<Question>)
    ensures forall q :: q in r <==> q in catalogue && q.category == category
    ensures forall q {:trigger multiset(r)[q]} :: multiset(r)[q] == if q.category == category then multiset(catalogue)[q] else 0
    ensures |r| <= |catalogue|
  {
    if catalogue == [] then []
    else
      var init := catalogue[..|catalogue| - 1];
      var last := catalogue[|catalogue| - 1];
      assert catalogue == init + [last];
      QuestionsByCategory(init, category) + (if last.category == category then [last] else [])
  }

  /** The difficulty filter keeps the catalogue's order. */
  lemma {:induction false} QuestionsByDifficultyInOrder(catalogue: seq<Question>, difficulty: string)
    ensures Seqs.IsSubsequence(QuestionsByDifficulty(catalogue, difficulty), catalogue)
  {
    if catalogue != [] {
      var init := catalogue[..|catalogue| - 1];
      var last := catalogue[|catalogue| - 1];
      var kept := QuestionsByDifficulty(init, difficulty);
      var keep := last.difficulty == difficulty;
      QuestionsByDifficultyInOrder(init, difficulty);
      Seqs.Extend(kept, init, last, keep);
      assert init + [last] == catalogue;
      assert QuestionsByDifficulty(catalogue, difficulty) == kept + (if keep then [last] else []);
    }
  }

  /** The category filter keeps the catalogue's order. */
  lemma {:induction false} QuestionsByCategoryInOrder(catalogue: seq<Question>, category: string)
    ensures Seqs.IsSubsequence(QuestionsByCategory(catalogue, category), catalogue)
  {
    if catalogue != [] {
      var init := catalogue[..|catalogue| - 1];
      var last := catalogue[|catalogue| - 1];
      var kept := QuestionsByCategory(init, category);
      var keep := last.category == category;
      QuestionsByCategoryInOrder(init, category);
      Seqs.Extend(kept, init, last, keep);
      assert init + [last] == catalogue;
      assert QuestionsByCategory(catalogue, category) == kept + (if keep then [last] else []);
    }
  }

  datatype Stats = Stats(total: nat, byDifficulty: map<string, nat>, byCategory: map<string, nat>)

  /** `get_stats`: the catalogue size and the size of each difficulty and category filter. */
  function GetStats(catalogue: seq<Question>): (s: Stats)
    ensures s.total == |catalogue|
    ensures s.byDifficulty.Keys == set d | d in Difficulties
    ensures forall d :: d in s.byDifficulty ==> s.byDifficulty[d] == |QuestionsByDifficulty(catalogue, d)|
    ensures s.byCategory.Keys == set c | c in CategoryKeys
    ensures forall c :: c in s.byCategory ==> s.byCategory[c] == |QuestionsByCategory(catalogue, c)|
  {
    Stats(
      |catalogue|,
      map d | d in Difficulties :: |QuestionsByDifficulty(catalogue, d)|,
      map c | c in CategoryKeys :: |QuestionsByCategory(catalogue, c)|)
  }

  /** In a well-formed catalogue the per-difficulty counts add up to the total. */
  lemma {:induction false} DifficultyCountsSumToTotal(catalogue: seq<Question>)
    requires WellFormedCatalogue(catalogue)
    ensures |QuestionsByDifficulty(catalogue, "easy")| + |QuestionsByDifficulty(catalogue, "medium")|
            + |QuestionsByDifficulty(catalogue, "hard")| == |catalogue|
  {
    if catalogue != [] {
      var init := catalogue[..|catalogue| - 1];
      assert WellFormed(catalogue[|catalogue| - 1]);
      assert WellFormedCatalogue(init) by {
        forall i | 0 <= i < |init| ensures WellFormed(init[i]) {
          assert init[i] == catalogue[i];
        }
      }
      DifficultyCountsSumToTotal(init);
    }
  }

  /** In a well-formed catalogue the per-category counts add up to the total. */
  lemma {:induction false} CategoryCountsSumToTotal(catalogue: seq<Question>)
    requires WellFormedCatalogue(catalogue)
    ensures |QuestionsByCategory(catalogue, "old_testament")| + |QuestionsByCategory(catalogue, "new_testament")|
            + |QuestionsByCategory(catalogue, "bible_facts")| == |catalogue|
  {
    if catalogue != [] {
      var init := catalogue[..|catalogue| - 1];
      assert WellFormed(catalogue[|catalogue| - 1]);
      assert WellFormedCatalogue(init) by {
        forall i | 0 <= i < |init| ensures WellFormed(init[i]) {
          assert init[i] == catalogue[i];
        }
      }
      CategoryCountsSumToTotal(init);
    }
  }
}
