/** Order facts about sequences shared by the filters of the bot. */
module Seqs {
  /** `sub` is `s` with some entries dropped, the rest kept in order. */
  predicate IsSubsequence<T(==)>(sub: seq<T>, s: seq<T>)
    decreases |s|
  {
    if sub == [] then true
    else if s == [] then false
    else if sub[|sub| - 1] == s[|s| - 1] then IsSubsequence(sub[..|sub| - 1], s[..|s| - 1])
    else IsSubsequence(sub, s[..|s| - 1])
  }

  lemma ConcatAssoc<T>(a: seq<T>, b: seq<T>, c: seq<T>)
    ensures a + (b + c) == (a + b) + c
  {
  }

  /** Appending one entry to `s`, and keeping it or not, preserves the subsequence relation. */
  lemma Extend<T>(sub: seq<T>, s: seq<T>, x: T, keep: bool)
    requires IsSubsequence(sub, s)
    ensures IsSubsequence(sub + (if keep then [x] else []), s + [x])
  {
    var s' := s + [x];
    assert s'[..|s'| - 1] == s;
    if keep {
      var sub' := sub + [x];
      assert sub'[..|sub'| - 1] == sub;
    } else {
      assert sub + [] == sub;
      DropLast(sub, s');
    }
  }

  /** A subsequence of all but the last entry is a subsequence of the whole. */
  lemma {:induction false} DropLast<T>(sub: seq<T>, s: seq<T>)
    requires s != [] && IsSubsequence(sub, s[..|s| - 1])
    ensures IsSubsequence(sub, s)
    decreases |s|, 0
  {
    if sub != [] && sub[|sub| - 1] == s[|s| - 1] {
      SubsequenceDropLast(sub, s[..|s| - 1]);
    }
  }

  /** Dropping the last element of a subsequence keeps it a subsequence. */
  lemma {:induction false} SubsequenceDropLast<T>(sub: seq<T>, s: seq<T>)
    requires sub != [] && IsSubsequence(sub, s)
    ensures IsSubsequence(sub[..|sub| - 1], s)
    decreases |s|, 1
  {
    assert s != [];
    if sub[|sub| - 1] == s[|s| - 1] {
      DropLast(sub[..|sub| - 1], s);
    } else {
      SubsequenceDropLast(sub, s[..|s| - 1]);
      DropLast(sub[..|sub| - 1], s);
    }
  }
}
