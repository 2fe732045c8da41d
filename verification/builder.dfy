/** `build_inverted_index`: a fold over the articles, and over each article's
    whitespace-separated tokens, that records the article's id under every
    token. */
module Builder {
  import Text
  import opened Index

  /** One pass of the inner loop: add `id` to the token's postings, creating
      `{id}` on the token's first sighting. */
  function AddToken(m: Postings, t: string, id: int): (r: Postings)
    ensures forall u :: u in r <==> u in m || u == t
    ensures r[t] == (if t in m then m[t] else {}) + {id}
    ensures forall u :: u in m && u != t ==> r[u] == m[u]
  {
    if t in m then m[t := m[t] + {id}] else m[t := {id}]
  }

  /** The inner loop over an article's tokens. */
  function AddTokens(m: Postings, tokens: seq<string>, id: int): (r: Postings)
    ensures forall t :: t in r <==> t in m || t in tokens
    ensures forall t :: t in r ==>
              r[t] == (if t in m then m[t] else {}) + (if t in tokens then {id} else {})
    decreases |tokens|
  {
    if |tokens| == 0 then m
    else AddTokens(AddToken(m, tokens[0], id), tokens[1..], id)
  }

  /** Some article's text has `t` among its tokens. */
  ghost predicate Mentions(articles: seq<(int, string)>, t: string) {
    exists k :: 0 <= k < |articles| && t in Text.Split(articles[k].1)
  }

  /** Some article with id `id` has `t` among its tokens. */
  ghost predicate Occurs(articles: seq<(int, string)>, t: string, id: int) {
    exists k :: 0 <= k < |articles| && articles[k].0 == id && t in Text.Split(articles[k].1)
  }

  /** The outer loop over `articles.items()`. */
  function AddArticles(m: Postings, articles: seq<(int, string)>): (r: Postings)
    ensures forall t :: t in r <==> t in m || Mentions(articles, t)
    ensures forall t, id :: t in r ==> (id in r[t] <==> (t in m && id in m[t]) || Occurs(articles, t, id))
    decreases |articles|
  {
    if |articles| == 0 then m
    else
      var (id, text) := articles[0];
      var m' := AddTokens(m, Text.Split(text), id);
      var r := AddArticles(m', articles[1..]);
      ArticlesCons(articles);
      r
  }

  /** What the first article contributes, for every token and id. */
  lemma ArticlesCons(articles: seq<(int, string)>)
    requires |articles| > 0
    ensures forall t :: Mentions(articles, t) <==> t in Text.Split(articles[0].1) || Mentions(articles[1..], t)
    ensures forall t, i :: Occurs(articles, t, i) <==>
              (i == articles[0].0 && t in Text.Split(articles[0].1)) || Occurs(articles[1..], t, i)
  {
    forall t {
      MentionsCons(articles, t);
    }
    forall t, i {
      OccursCons(articles, t, i);
    }
  }

  lemma MentionsCons(articles: seq<(int, string)>, t: string)
    requires |articles| > 0
    ensures Mentions(articles, t) <==> t in Text.Split(articles[0].1) || Mentions(articles[1..], t)
  {
    if Mentions(articles, t) {
      var k :| 0 <= k < |articles| && t in Text.Split(articles[k].1);
      if k > 0 {
        assert articles[1..][k - 1] == articles[k];
      }
    }
    if Mentions(articles[1..], t) {
      var k :| 0 <= k < |articles| - 1 && t in Text.Split(articles[1..][k].1);
      assert articles[1..][k] == articles[k + 1];
    }
  }

  lemma OccursCons(articles: seq<(int, string)>, t: string, id: int)
    requires |articles| > 0
    ensures Occurs(articles, t, id) <==>
              (articles[0].0 == id && t in Text.Split(articles[0].1)) || Occurs(articles[1..], t, id)
  {
    if Occurs(articles, t, id) {
      var k :| 0 <= k < |articles| && articles[k].0 == id && t in Text.Split(articles[k].1);
      if k > 0 {
        assert articles[1..][k - 1] == articles[k];
      }
    }
    if Occurs(articles[1..], t, id) {
      var k :| 0 <= k < |articles| - 1 && articles[1..][k].0 == id && t in Text.Split(articles[1..][k].1);
      assert articles[1..][k] == articles[k + 1];
    }
  }

  /** `build_inverted_index(articles)`, the dict's items given in iteration
      order: a token is a key exactly when some article's text has it among
      its tokens, its postings are exactly the ids of those articles, and so no
      posting set is empty; no articles give an empty mapping. */
  function BuildInvertedIndex(articles: seq<(int, string)>): (idx: InvertedIndex)
    ensures forall t :: t in idx.mapping <==> Mentions(articles, t)
    ensures forall t, id :: t in idx.mapping ==> (id in idx.mapping[t] <==> Occurs(articles, t, id))
    ensures forall t :: t in idx.mapping ==> idx.mapping[t] != {}
    ensures articles == [] ==> idx.mapping == map[]
  {
    var r := AddArticles(map[], articles);
    assert forall t :: t in r ==> r[t] != {} by {
      forall t | t in r
        ensures r[t] != {}
      {
        var k :| 0 <= k < |articles| && t in Text.Split(articles[k].1);
        assert Occurs(articles, t, articles[k].0);
        assert articles[k].0 in r[t];
      }
    }
    InvertedIndex(r)
  }

  /** `items` enumerates the dict `docs`: every pair is an entry of `docs`
      and every key of `docs` appears. */
  ghost predicate Enumerates(items: seq<(int, string)>, docs: map<int, string>) {
    && (forall k :: 0 <= k < |items| ==> items[k].0 in docs && docs[items[k].0] == items[k].1)
    && (forall id :: id in docs ==> exists k :: 0 <= k < |items| && items[k].0 == id)
  }

  /** Built from a dict of articles, the postings of `t` are exactly the ids
      whose article text has `t` among its tokens, whatever the iteration
      order. */
  lemma BuildFromDict(items: seq<(int, string)>, docs: map<int, string>)
    requires Enumerates(items, docs)
    ensures forall t, id :: (t in BuildInvertedIndex(items).mapping && id in BuildInvertedIndex(items).mapping[t])
                            <==> (id in docs && t in Text.Split(docs[id]))
  {
    var mapping := BuildInvertedIndex(items).mapping;
    forall t, id
      ensures (t in mapping && id in mapping[t]) <==> (id in docs && t in Text.Split(docs[id]))
    {
      if id in docs && t in Text.Split(docs[id]) {
        var k :| 0 <= k < |items| && items[k].0 == id;
        assert Occurs(items, t, id);
      }
    }
  }

  /** Two postings maps without empty posting sets are equal when they pair
      the same tokens with the same ids. */
  lemma PostingsEqual(ma: Postings, mb: Postings)
    requires forall t :: t in ma ==> ma[t] != {}
    requires forall t :: t in mb ==> mb[t] != {}
    requires forall t, id :: (t in ma && id in ma[t]) <==> (t in mb && id in mb[t])
    ensures ma == mb
  {
    forall t | t in ma
      ensures t in mb && ma[t] == mb[t]
    {
      if forall id :: id !in ma[t] {
        assert false;
      }
      var id :| id in ma[t];
      assert t in mb;
      assert forall x :: x in ma[t] <==> x in mb[t];
    }
    forall t | t in mb
      ensures t in ma
    {
      if forall id :: id !in mb[t] {
        assert false;
      }
      var id :| id in mb[t];
    }
  }

  /** Any two iteration orders of the same dict build the same index. */
  lemma BuildIsOrderIndependent(a: seq<(int, string)>, b: seq<(int, string)>, docs: map<int, string>)
    requires Enumerates(a, docs) && Enumerates(b, docs)
    ensures BuildInvertedIndex(a) == BuildInvertedIndex(b)
  {
    BuildFromDict(a, docs);
    BuildFromDict(b, docs);
    PostingsEqual(BuildInvertedIndex(a).mapping, BuildInvertedIndex(b).mapping);
  }

  /** An article whose text is empty or only whitespace adds no key and no id. */
  lemma BlankArticleAddsNothing(articles: seq<(int, string)>, id: int, text: string)
    requires Text.AllWhitespace(text)
    ensures BuildInvertedIndex(articles + [(id, text)]) == BuildInvertedIndex(articles)
  {
    Text.SplitAllWhitespace(text);
    var longer := articles + [(id, text)];
    forall t, i
      ensures Occurs(longer, t, i) <==> Occurs(articles, t, i)
    {
      if Occurs(longer, t, i) {
        var k :| 0 <= k < |longer| && longer[k].0 == i && t in Text.Split(longer[k].1);
        assert k < |articles| && longer[k] == articles[k];
      }
      if Occurs(articles, t, i) {
        var k :| 0 <= k < |articles| && articles[k].0 == i && t in Text.Split(articles[k].1);
        assert longer[k] == articles[k];
      }
    }
    PostingsEqual(BuildInvertedIndex(longer).mapping, BuildInvertedIndex(articles).mapping);
  }
}
