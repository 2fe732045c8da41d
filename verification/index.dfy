/** `InvertedIndex`: a postings mapping from token to the ids of the articles
    containing it, and the multi-word query over it. */
module Index {
  import opened Results

  type Postings = map<string, set<int>>

  /** `InvertedIndex.__init__` keeps the mapping it is given. The model is a
      value, so no query can change it. */
  datatype InvertedIndex = InvertedIndex(mapping: Postings)

  // ---------------------------------------------------------------------------
  // sorted() on a set of ids

  predicate StrictlyIncreasing(s: seq<int>) {
    forall i, j :: 0 <= i < j < |s| ==> s[i] < s[j]
  }

  lemma {:induction false} MinimumExists(s: set<int>)
    requires s != {}
    ensures exists m :: m in s && forall y :: y in s ==> m <= y
    decreases s
  {
    if forall y :: y !in s {
      assert false;
    }
    var x :| x in s;
    if s - {x} != {} {
      MinimumExists(s - {x});
      var m :| m in s - {x} && forall y :: y in s - {x} ==> m <= y;
      var least := if x < m then x else m;
      forall y | y in s
        ensures least <= y
      {
        if y != x {
          assert y in s - {x};
        }
      }
      assert least in s;
    } else {
      assert s == {x};
    }
  }

  /** The least element of a non-empty set. */
  function Minimum(s: set<int>): (m: int)
    requires s != {}
    ensures m in s && forall y :: y in s ==> m <= y
  {
    MinimumExists(s);
    var m :| m in s && forall y :: y in s ==> m <= y;
    m
  }

  /** `sorted(s)`: the elements of `s` in ascending order, each once. */
  function SortedSeq(s: set<int>): (r: seq<int>)
    ensures StrictlyIncreasing(r)
    ensures forall x :: x in r <==> x in s
    ensures |r| == |s|
    decreases s
  {
    if s == {} then []
    else
      var m := Minimum(s);
      var rest := SortedSeq(s - {m});
      assert forall x :: x in rest ==> m < x;
      [m] + rest
  }

  /** A set has only one ascending listing, so any strictly increasing
      sequence with the right elements is `sorted` of that set. */
  lemma {:induction false} SortedIsUnique(a: seq<int>, b: seq<int>)
    requires StrictlyIncreasing(a) && StrictlyIncreasing(b)
    requires forall x :: x in a <==> x in b
    ensures a == b
    decreases |a|
  {
    if |a| > 0 {
      assert a[0] in a;
    }
    if |b| > 0 {
      assert b[0] in b;
    }
    if |a| > 0 && |b| > 0 {
      assert a[0] in b;
      assert b[0] in a;
      assert a[0] == b[0];
      forall x
        ensures x in a[1..] <==> x in b[1..]
      {
        if x in a[1..] {
          var i :| 1 <= i < |a| && a[i] == x;
          assert x != a[0];
          assert x in b;
        }
        if x in b[1..] {
          var i :| 1 <= i < |b| && b[i] == x;
          assert x != b[0];
          assert x in a;
        }
      }
      SortedIsUnique(a[1..], b[1..]);
    }
  }

  // ---------------------------------------------------------------------------
  // InvertedIndex.query, as written

  /** One pass of the loop in `query`. A word with no postings resets the
      running value to `()`; a present word replaces a falsy (empty) running
      value with its postings and intersects a non-empty one with them. */
  function Step(acc: set<int>, mapping: Postings, w: string): (r: set<int>)
    ensures w !in mapping ==> r == {}
    ensures w in mapping ==> r <= mapping[w] && forall x :: x in acc && x in mapping[w] ==> x in r
    ensures w in mapping && acc != {} ==> r <= acc
    ensures w in mapping && acc == {} ==> r == mapping[w]
  {
    if w in mapping then
      if acc != {} then acc * mapping[w] else mapping[w]
    else {}
  }

  /** The running value after the loop has seen `words`, in order: nothing
      before the first word and after an absent last word, and otherwise
      some of the last word's postings. */
  function Running(mapping: Postings, words: seq<string>): (r: set<int>)
    ensures words == [] ==> r == {}
    ensures |words| > 0 && words[|words| - 1] !in mapping ==> r == {}
    ensures |words| > 0 && words[|words| - 1] in mapping ==> r <= mapping[words[|words| - 1]]
    decreases |words|
  {
    if |words| == 0 then {}
    else Step(Running(mapping, words[..|words| - 1]), mapping, words[|words| - 1])
  }

  /** `InvertedIndex.query(words)`: the final running value, sorted. The
      result is ascending without repeats; it is empty for no words and when
      the last word is absent, and otherwise draws only on the last word's
      postings. */
  function Query(idx: InvertedIndex, words: seq<string>): (r: seq<int>)
    ensures StrictlyIncreasing(r)
    ensures words == [] ==> r == []
    ensures |words| > 0 && words[|words| - 1] !in idx.mapping ==> r == []
    ensures |words| > 0 && words[|words| - 1] in idx.mapping ==>
              forall x :: x in r ==> x in idx.mapping[words[|words| - 1]]
  {
    SortedSeq(Running(idx.mapping, words))
  }

  /** `id` is in the postings of every word of `words` (all of them present),
      the doc-comment's "common articles for all words". */
  ghost predicate InAll(mapping: Postings, words: seq<string>, id: int) {
    forall k :: 0 <= k < |words| ==> words[k] in mapping && id in mapping[words[k]]
  }

  lemma PrefixInAll(mapping: Postings, words: seq<string>, n: nat, id: int)
    requires n <= |words|
    ensures InAll(mapping, words, id) ==> InAll(mapping, words[..n], id)
  {
    if InAll(mapping, words, id) {
      forall k | 0 <= k < n
        ensures words[..n][k] in mapping && id in mapping[words[..n][k]]
      {
        assert words[..n][k] == words[k];
      }
    }
  }

  lemma ExtendInAll(mapping: Postings, words: seq<string>, id: int)
    requires |words| > 0
    requires InAll(mapping, words[..|words| - 1], id)
    requires words[|words| - 1] in mapping && id in mapping[words[|words| - 1]]
    ensures InAll(mapping, words, id)
  {
    forall k | 0 <= k < |words|
      ensures words[k] in mapping && id in mapping[words[k]]
    {
      if k < |words| - 1 {
        assert words[..|words| - 1][k] == words[k];
      }
    }
  }

  /** The running value always keeps the ids common to all the words. */
  lemma {:induction false} RunningKeepsCommon(mapping: Postings, words: seq<string>, id: int)
    requires InAll(mapping, words, id)
    ensures |words| > 0 ==> id in Running(mapping, words)
    decreases |words|
  {
    if |words| > 0 {
      var p := words[..|words| - 1];
      PrefixInAll(mapping, words, |words| - 1, id);
      RunningKeepsCommon(mapping, p, id);
      assert words[|words| - 1] in mapping && id in mapping[words[|words| - 1]];
    }
  }

  /** Once some id is common to all the words, the running value never held
      anything else. */
  lemma {:induction false} RunningWithinCommon(mapping: Postings, words: seq<string>, c: int, id: int)
    requires InAll(mapping, words, c)
    requires id in Running(mapping, words)
    ensures InAll(mapping, words, id)
    decreases |words|
  {
    var n := |words| - 1;
    var p := words[..n];
    var w := words[n];
    PrefixInAll(mapping, words, n, c);
    assert w in mapping && c in mapping[w];
    if n > 0 {
      RunningKeepsCommon(mapping, p, c);
      RunningWithinCommon(mapping, p, c, id);
    }
    ExtendInAll(mapping, words, id);
  }

  /** Where the words have an article in common, `query` returns exactly the
      articles common to all of them, as the doc-comment promises. */
  lemma QueryIsCommonWhenSomeArticleIsCommon(idx: InvertedIndex, words: seq<string>, c: int)
    requires |words| > 0 && InAll(idx.mapping, words, c)
    ensures c in Query(idx, words)
    ensures forall x :: x in Query(idx, words) <==> InAll(idx.mapping, words, x)
  {
    RunningKeepsCommon(idx.mapping, words, c);
    forall x
      ensures x in Query(idx, words) <==> InAll(idx.mapping, words, x)
    {
      if x in Running(idx.mapping, words) {
        RunningWithinCommon(idx.mapping, words, c, x);
      }
      if InAll(idx.mapping, words, x) {
        RunningKeepsCommon(idx.mapping, words, x);
      }
    }
  }

  /** A word with no postings wipes out everything before it: the query
      answers as if the words after it were the whole query. */
  lemma {:induction false} RunningRestartsAfterMiss(mapping: Postings, words: seq<string>, j: nat, n: nat)
    requires j < n <= |words| && words[j] !in mapping
    ensures Running(mapping, words[..n]) == Running(mapping, words[j + 1..n])
    decreases n
  {
    if n == j + 1 {
      assert words[..n][..n - 1] == words[..j];
    } else {
      RunningRestartsAfterMiss(mapping, words, j, n - 1);
      assert words[..n][..n - 1] == words[..n - 1];
      assert words[j + 1..n][..n - j - 2] == words[j + 1..n - 1];
    }
  }

  lemma QueryRestartsAfterMiss(idx: InvertedIndex, words: seq<string>, j: nat)
    requires j < |words| && words[j] !in idx.mapping
    ensures Query(idx, words) == Query(idx, words[j + 1..])
  {
    RunningRestartsAfterMiss(idx.mapping, words, j, |words|);
    assert words[..|words|] == words;
    assert words[j + 1..|words|] == words[j + 1..];
  }

  /** A miss followed by a present word yields that word's postings, where the
      doc-comment promises no article. */
  lemma MissThenHit(idx: InvertedIndex, u: string, w: string)
    requires u !in idx.mapping && w in idx.mapping
    ensures Query(idx, [u, w]) == SortedSeq(idx.mapping[w])
  {
    assert [u, w][..1] == [u];
    assert [u][..0] == [];
    assert Running(idx.mapping, [u]) == {};
    assert Running(idx.mapping, [u, w]) == idx.mapping[w];
  }

  // ---------------------------------------------------------------------------
  // The query the doc-comment describes

  /** The set of ids common to all of `words`; `None` while no word has been
      seen, so that an empty intersection is never confused with "unset". */
  function Common(mapping: Postings, words: seq<string>): (r: Option<set<int>>)
    ensures r.None? <==> words == []
    ensures r.Some? ==> forall id :: id in r.value <==> InAll(mapping, words, id)
    decreases |words|
  {
    if |words| == 0 then None
    else
      var n := |words| - 1;
      var postings := if words[n] in mapping then mapping[words[n]] else {};
      var r := match Common(mapping, words[..n])
               case None => Some(postings)
               case Some(acc) => Some(acc * postings);
      assert forall id :: id in r.value ==> InAll(mapping, words, id) by {
        forall id | id in r.value {
          ExtendInAll(mapping, words, id);
        }
      }
      assert forall id :: InAll(mapping, words, id) ==> id in r.value by {
        forall id | InAll(mapping, words, id) {
          PrefixInAll(mapping, words, n, id);
        }
      }
      r
  }

  /** The articles that contain every word of the query, ascending: `[]` for
      no words and whenever some word has no postings. */
  function QueryCommon(idx: InvertedIndex, words: seq<string>): (r: seq<int>)
    ensures StrictlyIncreasing(r)
    ensures forall x :: x in r <==> |words| > 0 && InAll(idx.mapping, words, x)
  {
    match Common(idx.mapping, words)
    case None => []
    case Some(ids) => SortedSeq(ids)
  }

  /** The as-written query agrees with the intended one whenever the words do
      have a common article. */
  lemma QueryAgreesWhenSomeArticleIsCommon(idx: InvertedIndex, words: seq<string>, c: int)
    requires |words| > 0 && InAll(idx.mapping, words, c)
    ensures Query(idx, words) == QueryCommon(idx, words)
  {
    QueryIsCommonWhenSomeArticleIsCommon(idx, words, c);
    SortedIsUnique(Query(idx, words), QueryCommon(idx, words));
  }

  /** `query(["fox", "cat"])` where only "cat" is indexed returns cat's
      articles; no article contains both words. */
  lemma AbsentWordIgnored()
    ensures Query(InvertedIndex(map["cat" := {1}]), ["fox", "cat"]) == [1]
    ensures QueryCommon(InvertedIndex(map["cat" := {1}]), ["fox", "cat"]) == []
  {
    var idx := InvertedIndex(map["cat" := {1}]);
    MissThenHit(idx, "fox", "cat");
    SortedIsUnique(SortedSeq({1}), [1]);
    forall x
      ensures !InAll(idx.mapping, ["fox", "cat"], x)
    {
      assert ["fox", "cat"][0] !in idx.mapping;
    }
  }
}
