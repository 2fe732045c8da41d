/** Worked examples of the query as written parting from the doc-comment's
    "common articles for all words". */
module Scenarios {
  import Text
  import Dataset
  import opened Index
  import opened Builder

  /** A text that is a single whitespace-free word has that word as its only
      token. */
  lemma SplitOneWord(a: string)
    requires a != [] && Text.NoWhitespace(a)
    ensures Text.Split(a) == [a]
  {
    Text.SplitWordThen(a, []);
    assert a + [] == a;
  }

  /** Articles `{1: a, 2: b}` for two different words build `{a: {1}, b: {2}}`. */
  lemma BuildTwoArticles(a: string, b: string)
    requires a != [] && Text.NoWhitespace(a) && b != [] && Text.NoWhitespace(b) && a != b
    ensures BuildInvertedIndex([(1, a), (2, b)]).mapping == map[a := {1}, b := {2}]
  {
    SplitOneWord(a);
    SplitOneWord(b);
    var items := [(1, a), (2, b)];
    var m := BuildInvertedIndex(items).mapping;
    var e := map[a := {1}, b := {2}];
    forall t, id
      ensures (t in m && id in m[t]) <==> (t in e && id in e[t])
    {
      if Occurs(items, t, id) {
        var k :| 0 <= k < |items| && items[k].0 == id && t in Text.Split(items[k].1);
        assert k == 0 || k == 1;
      }
      if t == a && id == 1 {
        assert items[0].0 == id && t in Text.Split(items[0].1);
      }
      if t == b && id == 2 {
        assert items[1].0 == id && t in Text.Split(items[1].1);
      }
    }
    PostingsEqual(m, e);
  }

  /** Over postings `{a: {1}, b: {2}}` the loop's running value is `{1}`, then
      `{}`, then `{1}` again. */
  lemma RunningRevives(m: Postings, a: string, b: string)
    requires a in m && b in m && m[a] == {1} && m[b] == {2}
    ensures Running(m, [a, b, a]) == {1}
  {
    var words := [a, b, a];
    assert words[..2] == [a, b] && words[..2][..1] == [a] && [a][..0] == [];
    assert Running(m, [a]) == {1};
    assert Running(m, [a, b]) == {};
  }

  /** Over postings `{a: {1}, b: {2}}`, `query([a, b, a])` is `[1]` while the
      intended query finds no common article. */
  lemma QueryRevives(idx: InvertedIndex, a: string, b: string)
    requires a in idx.mapping && b in idx.mapping && idx.mapping[a] == {1} && idx.mapping[b] == {2}
    ensures Query(idx, [a, b, a]) == [1]
    ensures QueryCommon(idx, [a, b, a]) == []
  {
    RunningRevives(idx.mapping, a, b);
    SortedIsUnique(SortedSeq({1}), [1]);
    var words := [a, b, a];
    forall x
      ensures !InAll(idx.mapping, words, x)
    {
      assert words[0] == a && words[1] == b;
    }
  }

  /** With articles `{1: a, 2: b}`, `query([a, b, a])` returns `[1]` although
      no article contains both words: the empty intersection after `b` is
      falsy, so the second `a` replaces it. */
  lemma RepeatedWordRevivesResult(a: string, b: string)
    requires a != [] && Text.NoWhitespace(a) && b != [] && Text.NoWhitespace(b) && a != b
    ensures Query(BuildInvertedIndex([(1, a), (2, b)]), [a, b, a]) == [1]
    ensures QueryCommon(BuildInvertedIndex([(1, a), (2, b)]), [a, b, a]) == []
  {
    BuildTwoArticles(a, b);
    QueryRevives(BuildInvertedIndex([(1, a), (2, b)]), a, b);
  }

  /** A file that mixes `"\r\n"`, `"\n"` and a final lone `"\r"` loads as its
      three lines and a trailing empty one. */
  lemma MixedLineEndings(x: string, y: string, z: string)
    requires '\r' !in x && '\n' !in x && '\r' !in y && '\n' !in y && '\r' !in z && '\n' !in z
    ensures Dataset.LoadDocument(x + "\r\n" + y + "\n" + z + "\r") == Dataset.LoadLines([x, y, z, ""])
  {
    MixedLines(x, y, z);
    Dataset.LoadDocumentByLines([x, y, z, ""], ["\r\n", "\n", "\r"]);
  }

  lemma MixedLines(x: string, y: string, z: string)
    requires '\r' !in x && '\n' !in x && '\r' !in y && '\n' !in y && '\r' !in z && '\n' !in z
    ensures Text.WellEnded([x, y, z, ""], ["\r\n", "\n", "\r"])
    ensures Text.JoinLines([x, y, z, ""], ["\r\n", "\n", "\r"]) == x + "\r\n" + y + "\n" + z + "\r"
  {
    assert Text.WellEnded([""], []) && Text.JoinLines([""], []) == "";
    Text.BreakBefore(z, "\r", [""], []);
    assert [z] + [""] == [z, ""] && ["\r"] + [] == ["\r"];
    Text.BreakBefore(y, "\n", [z, ""], ["\r"]);
    assert [y] + [z, ""] == [y, z, ""] && ["\n"] + ["\r"] == ["\n", "\r"];
    Text.BreakBefore(x, "\r\n", [y, z, ""], ["\n", "\r"]);
    assert [x] + [y, z, ""] == [x, y, z, ""] && ["\r\n"] + ["\n", "\r"] == ["\r\n", "\n", "\r"];
    assert x + "\r\n" + y + "\n" + z + "\r" == x + ("\r\n" + (y + ("\n" + (z + ("\r" + "")))));
  }
}
