/** The public news pages (`Home.tsx`, `News.tsx`): the fetched news sorted
    newest first by `postedAt`, all of them on the news page and the first
    five on the home page, each with at most three photos. `Array.sort` is
    stable, so items posted at the same instant keep the order the API sent
    them in. */
module NewsView {
  import opened Basics
  import opened Sorting
  import opened ClientTypes

  const HomeNewsCount := 5
  const PhotoCount := 3

  /** The sort key: the comparator `b.postedAt - a.postedAt` orders by
      ascending negated time, i.e. by descending time. */
  function NewestKey(n: NewsItem): int {
    -n.postedAt
  }

  /** The news page's list. */
  function NewestFirst(news: seq<NewsItem>): (r: seq<NewsItem>)
    ensures |r| == |news| && multiset(r) == multiset(news)
    ensures forall i, j :: 0 <= i < j < |r| ==> r[i].postedAt >= r[j].postedAt
  {
    var r := SortBy(news, NewestKey);
    assert forall i, j :: 0 <= i < j < |r| ==> NewestKey(r[i]) <= NewestKey(r[j]);
    r
  }

  /** Items posted at the same instant appear in the order the API sent them. */
  lemma TiesKeepFetchOrder(news: seq<NewsItem>, postedAt: int)
    ensures WithKey(NewestFirst(news), NewestKey, -postedAt) == WithKey(news, NewestKey, -postedAt)
  {
    var sorted := SortBy(news, NewestKey);
    assert NewestFirst(news) == sorted;
    SortByIsStable(news, NewestKey, -postedAt);
    assert WithKey(sorted, NewestKey, -postedAt) == WithKey(news, NewestKey, -postedAt);
  }

  /** The home page's list: the newest five. */
  function HomeNews(news: seq<NewsItem>): (r: seq<NewsItem>)
    ensures |r| == if |news| < HomeNewsCount then |news| else HomeNewsCount
    ensures IsPrefixSeq(r, NewestFirst(news))
  {
    Take(NewestFirst(news), HomeNewsCount)
  }

  /** Nothing left off the home page is newer than anything on it. */
  lemma HomeShowsLatest(news: seq<NewsItem>, x: NewsItem)
    requires x in news && x !in HomeNews(news)
    ensures forall y :: y in HomeNews(news) ==> y.postedAt >= x.postedAt
  {
    var sorted := NewestFirst(news);
    var shown := HomeNews(news);
    assert x in multiset(sorted);
    var j :| 0 <= j < |sorted| && sorted[j] == x;
    forall y | y in shown ensures y.postedAt >= x.postedAt {
      var i :| 0 <= i < |shown| && shown[i] == y;
      assert sorted[i] == y;
    }
  }

  /** The photos shown for one item: the first three of its images. */
  function Photos(item: NewsItem): (r: seq<string>)
    ensures |r| == if |item.imageURLs| < PhotoCount then |item.imageURLs| else PhotoCount
    ensures forall i :: 0 <= i < |r| ==> r[i] == item.imageURLs[i]
  {
    Take(item.imageURLs, PhotoCount)
  }
}
