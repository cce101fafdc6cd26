/**
 * The news downloader of the market dashboard: RSS feeds are read into news
 * items, and the items of a stock (0 for the common news) are remembered in a
 * dictionary, where a newly found item is kept only when no remembered one has
 * the same link.
 */
module QuickfolioNews {
  import opened Wrappers

  datatype NewsSource = YahooRSS | CnbcRss | Benzinga

  /** The enum's name, as `ToString` gives it. */
  function SourceName(s: NewsSource): string
  {
    match s
    case YahooRSS => "YahooRSS"
    case CnbcRss => "CnbcRss"
    case Benzinga => "Benzinga"
  }

  /** A news item; the two dates are local-time ticks. */
  datatype NewsItem = NewsItem(
    ticker: string,
    title: string,
    summary: string,
    linkUrl: string,
    downloadTime: int,
    publishDate: int,
    source: string)

  /** An item of a loaded syndication feed, as far as the downloader reads it. */
  datatype FeedEntry = FeedEntry(links: seq<string>, title: string, summary: string, publishDate: int)

  /** How many tries `GetCommonNews` makes at most. */
  const MaxDownloads: nat := 5

  /** The stocks whose Yahoo feeds `GetStockNews` reads, in order. */
  const Stocks: seq<string> :=
    ["AAPL", "ADBE", "AMZN", "BABA", "CRM", "FB", "GOOGL", "MA", "MSFT", "NVDA", "PYPL", "QCOM", "V"]

  // ---------------------------------------------------------------------
  // Reading a feed
  // ---------------------------------------------------------------------

  /** Whether every entry has a link; `Links[0]` of one without throws. */
  predicate AllLinked(entries: seq<FeedEntry>)
  {
    forall i :: 0 <= i < |entries| ==> |entries[i].links| > 0
  }

  /** The item made of a feed entry: its first link, title, summary and publish date. */
  function ToNewsItem(e: FeedEntry, source: NewsSource, ticker: string, now: int): NewsItem
    requires |e.links| > 0
  {
    NewsItem(ticker, e.title, e.summary, e.links[0], now, e.publishDate, SourceName(source))
  }

  /** The items of a feed, one per entry, in feed order. */
  function FeedNews(entries: seq<FeedEntry>, source: NewsSource, ticker: string, now: int): (r: seq<NewsItem>)
    requires AllLinked(entries)
    ensures |r| == |entries|
    ensures forall i :: 0 <= i < |r| ==> r[i] == ToNewsItem(entries[i], source, ticker, now)
    decreases |entries|
  {
    if |entries| == 0 then []
    else FeedNews(entries[..|entries| - 1], source, ticker, now) + [ToNewsItem(entries[|entries| - 1], source, ticker, now)]
  }

  /**
   * What `ReadRSS` returns for a download: `None` is a download or parse that
   * threw, and then, as when an entry has no link, the items are dropped and
   * the list is empty.
   */
  function RssNews(feed: Option<seq<FeedEntry>>, source: NewsSource, ticker: string, now: int): seq<NewsItem>
  {
    if feed.None? || !AllLinked(feed.value) then [] else FeedNews(feed.value, source, ticker, now)
  }

  /** `ReadRSS`: one item per feed entry, or an empty list on any exception. */
  method ReadRss(feed: Option<seq<FeedEntry>>, source: NewsSource, ticker: string, now: int)
    returns (r: seq<NewsItem>)
    ensures r == RssNews(feed, source, ticker, now)
    ensures feed.None? ==> r == []
    ensures feed.Some? && !AllLinked(feed.value) ==> r == []
  {
    if feed.None? {
      return [];
    }
    var entries := feed.value;
    var foundNews: seq<NewsItem> := [];
    var i := 0;
    while i < |entries|
      invariant 0 <= i <= |entries|
      invariant forall k :: 0 <= k < i ==> |entries[k].links| > 0
      invariant AllLinked(entries[..i]) && foundNews == FeedNews(entries[..i], source, ticker, now)
    {
      if |entries[i].links| == 0 {
        // `Links[0]` throws; the handler drops what was read
        assert !AllLinked(entries);
        return [];
      }
      ghost var next := entries[..i + 1];
      assert next[..i] == entries[..i];
      foundNews := foundNews + [ToNewsItem(entries[i], source, ticker, now)];
      i := i + 1;
    }
    assert entries[..i] == entries;
    r := foundNews;
  }

  /** The items of the first `n` stock feeds, one feed after the other. */
  function StockNews(feeds: seq<Option<seq<FeedEntry>>>, now: int, n: nat): seq<NewsItem>
    requires n <= |feeds| && n <= |Stocks|
  {
    if n == 0 then []
    else StockNews(feeds, now, n - 1) + RssNews(feeds[n - 1], YahooRSS, Stocks[n - 1], now)
  }

  /** Every item `StockNews` collects is a Yahoo item of one of the stocks. */
  lemma {:induction false} StockNewsTickers(feeds: seq<Option<seq<FeedEntry>>>, now: int, n: nat)
    requires n <= |feeds| && n <= |Stocks|
    ensures forall k :: 0 <= k < |StockNews(feeds, now, n)| ==>
      StockNews(feeds, now, n)[k].ticker in Stocks[..n] && StockNews(feeds, now, n)[k].source == "YahooRSS"
  {
    if n > 0 {
      StockNewsTickers(feeds, now, n - 1);
      var prev: seq<NewsItem> := StockNews(feeds, now, n - 1);
      var last: seq<NewsItem> := RssNews(feeds[n - 1], YahooRSS, Stocks[n - 1], now);
      assert Stocks[..n] == Stocks[..n - 1] + [Stocks[n - 1]];
      var all: seq<NewsItem> := prev + last;
      forall k | 0 <= k < |all|
        ensures all[k].ticker in Stocks[..n] && all[k].source == "YahooRSS"
      {
        if k >= |prev| {
          assert all[k] == last[k - |prev|];
        }
      }
    }
  }

  /** `GetStockNews`: the Yahoo feed of every stock, read one after the other and concatenated. */
  method GetStockNews(feeds: seq<Option<seq<FeedEntry>>>, now: int) returns (r: seq<NewsItem>)
    requires |feeds| == |Stocks|
    ensures r == StockNews(feeds, now, |Stocks|)
    ensures forall k :: 0 <= k < |r| ==> r[k].ticker in Stocks && r[k].source == "YahooRSS"
  {
    var foundNewsItems: seq<NewsItem> := [];
    var i := 0;
    while i < |Stocks|
      invariant 0 <= i <= |Stocks|
      invariant foundNewsItems == StockNews(feeds, now, i)
    {
      var items := ReadRss(feeds[i], YahooRSS, Stocks[i], now);
      foundNewsItems := foundNewsItems + items;
      i := i + 1;
    }
    StockNewsTickers(feeds, now, |Stocks|);
    assert Stocks[..|Stocks|] == Stocks;
    r := foundNewsItems;
  }

  // ---------------------------------------------------------------------
  // Remembering found items
  // ---------------------------------------------------------------------

  /** Whether some item of `items` has the link. */
  predicate HasLink(items: seq<NewsItem>, link: string)
  {
    exists i :: 0 <= i < |items| && items[i].linkUrl == link
  }

  /** No two items share a link. */
  predicate DistinctLinks(items: seq<NewsItem>)
  {
    forall i, j :: 0 <= i < j < |items| ==> items[i].linkUrl != items[j].linkUrl
  }

  /** The number of items with the link: the `Where(...).Count()` of `AddFoundNews`. */
  function LinkCount(items: seq<NewsItem>, link: string): (r: nat)
    ensures r == 0 <==> !HasLink(items, link)
    ensures r <= |items|
    decreases |items|
  {
    if |items| == 0 then 0
    else
      assert forall i :: 1 <= i < |items| ==> items[1..][i - 1] == items[i];
      LinkCount(items[1..], link) + (if items[0].linkUrl == link then 1 else 0)
  }

  /**
   * Whether the `i`-th found item is new: its link is neither among the
   * remembered items nor on an earlier found item.
   */
  predicate IsNew(known: seq<NewsItem>, found: seq<NewsItem>, i: int)
    requires 0 <= i < |found|
  {
    !HasLink(known, found[i].linkUrl) && forall j :: 0 <= j < i ==> found[j].linkUrl != found[i].linkUrl
  }

  /** The new items among the first `n` found ones, in found order. */
  function NewItems(known: seq<NewsItem>, found: seq<NewsItem>, n: nat): seq<NewsItem>
    requires n <= |found|
  {
    if n == 0 then []
    else NewItems(known, found, n - 1) + (if IsNew(known, found, n - 1) then [found[n - 1]] else [])
  }

  /** The remembered items of an id: none before the first batch. */
  function Stored(memory: map<int, seq<NewsItem>>, id: int): seq<NewsItem>
  {
    if id in memory then memory[id] else []
  }

  /** A link is remembered after `n` found items iff it was before or one of them has it. */
  lemma {:induction false} NewItemsLinks(known: seq<NewsItem>, found: seq<NewsItem>, n: nat, link: string)
    requires n <= |found|
    ensures HasLink(known + NewItems(known, found, n), link) <==>
      HasLink(known, link) || exists j :: 0 <= j < n && found[j].linkUrl == link
  {
    if n == 0 {
      assert known + NewItems(known, found, n) == known;
    } else {
      NewItemsLinks(known, found, n - 1, link);
      var before := known + NewItems(known, found, n - 1);
      var after := known + NewItems(known, found, n);
      if IsNew(known, found, n - 1) {
        assert after == before + [found[n - 1]];
        if found[n - 1].linkUrl == link {
          assert after[|after| - 1].linkUrl == link;
        }
        if HasLink(before, link) {
          var i :| 0 <= i < |before| && before[i].linkUrl == link;
          assert after[i] == before[i];
        }
        if HasLink(after, link) && !HasLink(before, link) {
          var i :| 0 <= i < |after| && after[i].linkUrl == link;
          assert i == |before|;
        }
      } else {
        assert after == before;
        if found[n - 1].linkUrl == link && !HasLink(known, link) {
          var j :| 0 <= j < n - 1 && found[j].linkUrl == found[n - 1].linkUrl;
          assert found[j].linkUrl == link;
        }
      }
    }
  }

  /** With distinct links before, the links stay distinct however many items are added. */
  lemma {:induction false} NewItemsDistinct(known: seq<NewsItem>, found: seq<NewsItem>, n: nat)
    requires n <= |found|
    requires DistinctLinks(known)
    ensures DistinctLinks(known + NewItems(known, found, n))
  {
    if n > 0 {
      NewItemsDistinct(known, found, n - 1);
      var before := known + NewItems(known, found, n - 1);
      if IsNew(known, found, n - 1) {
        var item := found[n - 1];
        NewItemsLinks(known, found, n - 1, item.linkUrl);
        var after := before + [item];
        assert known + NewItems(known, found, n) == after;
        forall i, j | 0 <= i < j < |after| ensures after[i].linkUrl != after[j].linkUrl {
          if j == |before| {
            assert after[i] == before[i];
          }
        }
      } else {
        assert known + NewItems(known, found, n) == before;
      }
    }
  }

  /** After a batch, every link of the batch is remembered. */
  lemma {:induction false} FoundLinksRemembered(known: seq<NewsItem>, found: seq<NewsItem>, i: int)
    requires 0 <= i < |found|
    ensures HasLink(known + NewItems(known, found, |found|), found[i].linkUrl)
  {
    NewItemsLinks(known, found, |found|, found[i].linkUrl);
  }

  /** A batch whose links are all remembered adds nothing, so adding a batch twice is adding it once. */
  lemma {:induction false} KnownBatchAddsNothing(known: seq<NewsItem>, found: seq<NewsItem>, n: nat)
    requires n <= |found|
    requires forall i :: 0 <= i < |found| ==> HasLink(known, found[i].linkUrl)
    ensures NewItems(known, found, n) == []
  {
    if n > 0 {
      KnownBatchAddsNothing(known, found, n - 1);
      assert !IsNew(known, found, n - 1);
    }
  }

  /** Adding the same batch a second time leaves the remembered items as they are. */
  lemma AddingTwiceIsAddingOnce(known: seq<NewsItem>, found: seq<NewsItem>)
    ensures NewItems(known + NewItems(known, found, |found|), found, |found|) == []
  {
    var after := known + NewItems(known, found, |found|);
    forall i | 0 <= i < |found| ensures HasLink(after, found[i].linkUrl) {
      FoundLinksRemembered(known, found, i);
    }
    KnownBatchAddsNothing(after, found, |found|);
  }

  // ---------------------------------------------------------------------
  // Printing
  // ---------------------------------------------------------------------

  /** Items by publish date, those of the same date in their given order. */
  predicate SortedByPublishDate(s: seq<NewsItem>)
  {
    forall i, j :: 0 <= i < j < |s| ==> s[i].publishDate <= s[j].publishDate
  }

  /** The items published at `date`, in their order. */
  function PublishedAt(s: seq<NewsItem>, date: int): seq<NewsItem>
    decreases |s|
  {
    if |s| == 0 then []
    else (if s[0].publishDate == date then [s[0]] else []) + PublishedAt(s[1..], date)
  }

  /** `x` put before the first item of `sorted` published no earlier. */
  function InsertByDate(x: NewsItem, sorted: seq<NewsItem>): (r: seq<NewsItem>)
    ensures multiset(r) == multiset([x] + sorted)
    decreases |sorted|
  {
    if |sorted| == 0 || x.publishDate <= sorted[0].publishDate then [x] + sorted
    else
      assert sorted == [sorted[0]] + sorted[1..];
      [sorted[0]] + InsertByDate(x, sorted[1..])
  }

  /** `OrderBy(x => x.PublishDate)`: a stable sort by publish date. */
  function OrderByPublishDate(s: seq<NewsItem>): (r: seq<NewsItem>)
    ensures |r| == |s|
    decreases |s|
  {
    if |s| == 0 then []
    else
      var rest := OrderByPublishDate(s[1..]);
      assert |multiset(InsertByDate(s[0], rest))| == |multiset([s[0]] + rest)|;
      InsertByDate(s[0], rest)
  }

  /** A date no later than `x` and every sorted item stays no later than every item after inserting `x`. */
  lemma {:induction false} InsertByDateBound(x: NewsItem, sorted: seq<NewsItem>, date: int)
    requires date <= x.publishDate
    requires forall k :: 0 <= k < |sorted| ==> date <= sorted[k].publishDate
    ensures forall k :: 0 <= k < |InsertByDate(x, sorted)| ==> date <= InsertByDate(x, sorted)[k].publishDate
    decreases |sorted|
  {
    if |sorted| > 0 && x.publishDate > sorted[0].publishDate {
      InsertByDateBound(x, sorted[1..], date);
    }
  }

  lemma {:induction false} InsertByDateSorted(x: NewsItem, sorted: seq<NewsItem>)
    requires SortedByPublishDate(sorted)
    ensures SortedByPublishDate(InsertByDate(x, sorted))
    decreases |sorted|
  {
    if |sorted| > 0 && x.publishDate > sorted[0].publishDate {
      var rest := sorted[1..];
      InsertByDateSorted(x, rest);
      InsertByDateBound(x, rest, sorted[0].publishDate);
      var ins := InsertByDate(x, rest);
      var r := [sorted[0]] + ins;
      forall i, j | 0 <= i < j < |r| ensures r[i].publishDate <= r[j].publishDate {
        assert r[j] == ins[j - 1];
        if i > 0 {
          assert r[i] == ins[i - 1];
        }
      }
    }
  }

  /** Inserting keeps the order of every date's items, the inserted one first among its date. */
  lemma {:induction false} InsertByDateKeepsDates(x: NewsItem, sorted: seq<NewsItem>, date: int)
    ensures PublishedAt(InsertByDate(x, sorted), date) == PublishedAt([x] + sorted, date)
    decreases |sorted|
  {
    if |sorted| > 0 && x.publishDate > sorted[0].publishDate {
      var rest := sorted[1..];
      InsertByDateKeepsDates(x, rest, date);
      assert ([sorted[0]] + InsertByDate(x, rest))[1..] == InsertByDate(x, rest);
      assert ([x] + sorted)[1..] == sorted;
      assert ([x] + rest)[1..] == rest;
    } else {
      assert ([x] + sorted)[1..] == sorted;
    }
  }

  /**
   * The sort is sorted, is a permutation, and is stable: the items of each
   * publish date are those of the input, in the input's order.
   */
  lemma {:induction false} OrderByPublishDateMeaning(s: seq<NewsItem>)
    ensures SortedByPublishDate(OrderByPublishDate(s))
    ensures multiset(OrderByPublishDate(s)) == multiset(s)
    ensures forall date :: PublishedAt(OrderByPublishDate(s), date) == PublishedAt(s, date)
    decreases |s|
  {
    if |s| > 0 {
      OrderByPublishDateMeaning(s[1..]);
      var rest := OrderByPublishDate(s[1..]);
      InsertByDateSorted(s[0], rest);
      assert s == [s[0]] + s[1..];
      forall date ensures PublishedAt(OrderByPublishDate(s), date) == PublishedAt(s, date) {
        InsertByDateKeepsDates(s[0], rest, date);
        assert ([s[0]] + rest)[1..] == rest;
      }
    }
  }

  /**
   * One item's record: each field after its marker, the two dates in the
   * "yyyy-MM-dd hh:mm" layout `dateText` gives, closed by "news_end".
   */
  function NewsText(n: NewsItem, dateText: int -> string): string
  {
    "news_ticker" + n.ticker + "news_title" + n.title + "news_summary" + n.summary
    + "news_link" + n.linkUrl + "news_downloadTime" + dateText(n.downloadTime)
    + "news_publishDate" + dateText(n.publishDate) + "news_source" + n.source + "news_end"
  }

  /** The records of the first `n` items, one after the other. */
  function NewsTexts(s: seq<NewsItem>, dateText: int -> string, n: nat): string
    requires n <= |s|
  {
    if n == 0 then "" else NewsTexts(s, dateText, n - 1) + NewsText(s[n - 1], dateText)
  }

  /** `NewsToString`: the records of the items in publish-date order. */
  method NewsToString(newsList: seq<NewsItem>, dateText: int -> string) returns (r: string)
    ensures r == NewsTexts(OrderByPublishDate(newsList), dateText, |newsList|)
  {
    var ordered := OrderByPublishDate(newsList);
    var finalString := "";
    var i := 0;
    while i < |ordered|
      invariant 0 <= i <= |ordered|
      invariant finalString == NewsTexts(ordered, dateText, i)
    {
      assert NewsTexts(ordered, dateText, i + 1) == finalString + NewsText(ordered[i], dateText);
      finalString := finalString + NewsText(ordered[i], dateText);
      i := i + 1;
    }
    r := finalString;
  }

  /** The downloader with its remembered items per stock id. */
  class NewsDownloader {
    var newsMemory: map<int, seq<NewsItem>>

    constructor ()
      ensures newsMemory == map[]
    {
      newsMemory := map[];
    }

    /**
     * `AddFoundNews`: the id gets a list if it has none, and each found item
     * whose link is not yet in the list is appended, in found order; nothing
     * is removed or reordered and no other id changes.
     */
    method AddFoundNews(stockId: int, foundNewsItems: seq<NewsItem>)
      modifies this
      ensures newsMemory == old(newsMemory)[stockId :=
        Stored(old(newsMemory), stockId) + NewItems(Stored(old(newsMemory), stockId), foundNewsItems, |foundNewsItems|)]
    {
      ghost var known := Stored(newsMemory, stockId);
      if stockId !in newsMemory {
        newsMemory := newsMemory[stockId := []];
      }
      assert known + NewItems(known, foundNewsItems, 0) == known;
      var i := 0;
      while i < |foundNewsItems|
        invariant 0 <= i <= |foundNewsItems|
        invariant newsMemory == old(newsMemory)[stockId := known + NewItems(known, foundNewsItems, i)]
      {
        var newsItem := foundNewsItems[i];
        NewItemsLinks(known, foundNewsItems, i, newsItem.linkUrl);
        assert LinkCount(newsMemory[stockId], newsItem.linkUrl) == 0 <==> IsNew(known, foundNewsItems, i);
        if LinkCount(newsMemory[stockId], newsItem.linkUrl) == 0 {
          newsMemory := newsMemory[stockId := newsMemory[stockId] + [newsItem]];
          assert known + NewItems(known, foundNewsItems, i + 1) == known + NewItems(known, foundNewsItems, i) + [newsItem];
        } else {
          assert NewItems(known, foundNewsItems, i + 1) == NewItems(known, foundNewsItems, i);
        }
        i := i + 1;
      }
    }

    /**
     * `GetCommonNews`: the CNBC feed is read up to five times, until a read
     * gives an item; the last read's items are added under id 0, and the
     * items remembered under id 0 are returned. `downloads` holds what each
     * read would give; `tries` is how many were made.
     */
    method GetCommonNews(downloads: seq<Option<seq<FeedEntry>>>, now: int)
      returns (r: seq<NewsItem>, tries: nat)
      requires |downloads| == MaxDownloads
      modifies this
      ensures 1 <= tries <= MaxDownloads
      ensures forall k :: 0 <= k < tries - 1 ==> RssNews(downloads[k], CnbcRss, "", now) == []
      ensures tries < MaxDownloads ==> RssNews(downloads[tries - 1], CnbcRss, "", now) != []
      ensures var known := Stored(old(newsMemory), 0);
        newsMemory == old(newsMemory)[0 := known + NewItems(known, RssNews(downloads[tries - 1], CnbcRss, "", now),
          |RssNews(downloads[tries - 1], CnbcRss, "", now)|)]
      ensures 0 in newsMemory && r == newsMemory[0]
    {
      var foundNewsItems: seq<NewsItem> := [];
      var retryCount := 0;
      while |foundNewsItems| < 1 && retryCount < MaxDownloads
        invariant 0 <= retryCount <= MaxDownloads
        invariant retryCount == 0 ==> foundNewsItems == []
        invariant retryCount > 0 ==> foundNewsItems == RssNews(downloads[retryCount - 1], CnbcRss, "", now)
        invariant forall k :: 0 <= k < retryCount - 1 ==> RssNews(downloads[k], CnbcRss, "", now) == []
        invariant newsMemory == old(newsMemory)
      {
        foundNewsItems := ReadRss(downloads[retryCount], CnbcRss, "", now);
        retryCount := retryCount + 1;
      }
      tries := retryCount;
      AddFoundNews(0, foundNewsItems);
      r := newsMemory[0];
    }
  }
}
