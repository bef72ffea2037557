/** The CBN Weekly (第一财经杂志) route: each entry of the front-page API
    becomes a stub built from its first post, and every stub then gets its
    article body from the article API. The enrichment writes only the
    stub's description, and a failed fetch leaves a fallback text instead of
    an error. The network, the cache and the logger are outside the model:
    fetch outcomes are an oracle and the cache is a map. */
module Cbnweek {
  import opened Common
  import opened Strings

  const RootUrl := "https://www2021.cbnweek.com"
  const ApiRootUrl := "https://api2021.cbnweek.com"
  const ListingUrl := ApiRootUrl + "/v4/first_page_infos?per=1"
  const FeedTitle := "第一财经杂志"
  const FallbackPrefix := "无法获取文章内容: "
  const NameSeparator := ", "

  // ---------------------------------------------------------------------
  // Posts to stubs
  // ---------------------------------------------------------------------

  /** An author or a topic; its `name` may be missing. */
  datatype Named = Named(name: Option<string>)

  /** A post as the API returns it; `authors` and `topics` may be missing. */
  datatype Post = Post(id: string, title: string, displayTime: string,
                       authors: Option<seq<Named>>, topics: Option<seq<Named>>)

  /** An entry of `response.data`; only its first post is used. */
  datatype Entry = Entry(data: seq<Post>)

  /** The fields of a stub other than its description. */
  datatype StubFields = StubFields(guid: string, title: string, link: string, pubDate: Date,
                                   author: Option<string>, category: Option<seq<Option<string>>>)

  /** `.map((a) => a.name)` */
  function Names(people: seq<Named>): (r: seq<Option<string>>)
    ensures |r| == |people|
    ensures forall i :: 0 <= i < |people| ==> r[i] == people[i].name
  {
    seq(|people|, i requires 0 <= i < |people| => people[i].name)
  }

  /** How `join` renders an element: a missing name is empty. */
  function JoinPart(name: Option<string>): string {
    match name
    case None => ""
    case Some(n) => n
  }

  /** `names.join(', ')` */
  function Join(names: seq<Option<string>>): string {
    if names == [] then ""
    else if |names| == 1 then JoinPart(names[0])
    else JoinPart(names[0]) + NameSeparator + Join(names[1..])
  }

  /** Joining two non-empty lists puts one separator between them. */
  lemma {:induction false} JoinConcat(a: seq<Option<string>>, b: seq<Option<string>>)
    requires a != [] && b != []
    ensures Join(a + b) == Join(a) + NameSeparator + Join(b)
  {
    assert (a + b)[0] == a[0];
    assert (a + b)[1..] == a[1..] + b;
    if |a| > 1 {
      JoinConcat(a[1..], b);
    }
  }

  /** The joined names have every name's text and one separator between
      consecutive names: their total length. */
  lemma {:induction false} JoinLength(names: seq<Option<string>>)
    requires names != []
    ensures |Join(names)| == PartsLength(names) + |NameSeparator| * (|names| - 1)
  {
    if |names| > 1 {
      JoinLength(names[1..]);
    }
  }

  function PartsLength(names: seq<Option<string>>): nat {
    if names == [] then 0 else |JoinPart(names[0])| + PartsLength(names[1..])
  }

  const ArticlePrefix := RootUrl + "/article_detail/"

  /** `${rootUrl}/article_detail/${post.id}`: the post id can be read back
      from the link. */
  function ArticleLink(id: string): (r: string)
    ensures StartsWith(r, ArticlePrefix) && r[|ArticlePrefix|..] == id
  {
    ArticlePrefix + id
  }

  /** The stub built from an entry; an entry without posts makes
      `post.id` throw. */
  function StubOf(entry: Entry): (r: Result<StubFields, string>)
    ensures r.Err? <==> entry.data == []
    ensures r.Ok? ==> var post := entry.data[0];
      r.value.guid == post.id && r.value.title == post.title &&
      r.value.link == ArticleLink(post.id) && r.value.pubDate == ParsedDate(post.displayTime) &&
      (post.authors.None? <==> r.value.author.None?) &&
      (post.authors.Some? ==> r.value.author == Some(Join(Names(post.authors.value)))) &&
      (post.topics.None? <==> r.value.category.None?) &&
      (post.topics.Some? ==> r.value.category == Some(Names(post.topics.value)))
  {
    if entry.data == [] then Err("TypeError")
    else
      var post := entry.data[0];
      Ok(StubFields(post.id, post.title, ArticleLink(post.id), ParsedDate(post.displayTime),
                    if post.authors.None? then None else Some(Join(Names(post.authors.value))),
                    if post.topics.None? then None else Some(Names(post.topics.value))))
  }

  /** `response.data.map(...)`: one stub per entry, in order; any entry
      without posts fails the whole mapping. */
  function Stubs(entries: seq<Entry>): Result<seq<StubFields>, string> {
    if entries == [] then Ok([])
    else match StubOf(entries[0])
      case Err(e) => Err(e)
      case Ok(first) =>
        match Stubs(entries[1..])
        case Err(e) => Err(e)
        case Ok(rest) => Ok([first] + rest)
  }

  /** The mapping fails exactly when some entry has no post; otherwise it
      holds one stub per entry, in order. */
  lemma {:induction false} StubsSound(entries: seq<Entry>)
    ensures var r := Stubs(entries);
      (r.Err? <==> exists i :: 0 <= i < |entries| && entries[i].data == []) &&
      (r.Ok? ==> |r.value| == |entries| &&
                 forall i :: 0 <= i < |entries| ==> StubOf(entries[i]) == Ok(r.value[i]))
  {
    if entries != [] && entries[0].data != [] {
      StubsSound(entries[1..]);
      assert forall i :: 1 <= i < |entries| ==> entries[i] == entries[1..][i - 1];
      if Stubs(entries[1..]).Err? {
        var j :| 0 <= j < |entries[1..]| && entries[1..][j].data == [];
        assert entries[j + 1].data == [];
      }
    }
  }

  /** The links of the stubs, in order. */
  function StubLinks(stubs: seq<StubFields>): (r: seq<string>)
    ensures |r| == |stubs| && forall i :: 0 <= i < |stubs| ==> r[i] == stubs[i].link
  {
    seq(|stubs|, i requires 0 <= i < |stubs| => stubs[i].link)
  }

  // ---------------------------------------------------------------------
  // The enrichment
  // ---------------------------------------------------------------------

  /** `detailResponse.data`; `data` may be missing and `content` too. */
  datatype ArticleResponse = ArticleResponse(data: Option<Option<string>>)

  /** The article API, as an oracle from URL to outcome. */
  type ArticleFetcher = string -> Result<ArticleResponse, string>

  /** `${apiRootUrl}/v4/articles/${item.guid}` */
  function ArticleApiUrl(guid: string): string {
    ApiRootUrl + "/v4/articles/" + guid
  }

  /** The fallback text for a stub whose article could not be read. */
  function FallbackDescription(title: string): (r: string)
    ensures StartsWith(r, FallbackPrefix) && r[|FallbackPrefix|..] == title
  {
    FallbackPrefix + title
  }

  /** What the producer writes into `item.description`: the article's
      `content` (possibly missing) when the fetch and the `data` access
      succeed, otherwise the fallback naming the title. */
  function DescriptionFor(guid: string, title: string, fetch: ArticleFetcher): (r: Option<string>)
    ensures fetch(ArticleApiUrl(guid)).Err? ==> r == Some(FallbackDescription(title))
    ensures fetch(ArticleApiUrl(guid)).Ok? && fetch(ArticleApiUrl(guid)).value.data.None? ==>
              r == Some(FallbackDescription(title))
    ensures fetch(ArticleApiUrl(guid)).Ok? && fetch(ArticleApiUrl(guid)).value.data.Some? ==>
              r == fetch(ArticleApiUrl(guid)).value.data.value
  {
    match fetch(ArticleApiUrl(guid))
    case Err(_) => Some(FallbackDescription(title))
    case Ok(ArticleResponse(None)) => Some(FallbackDescription(title))
    case Ok(ArticleResponse(Some(content))) => content
  }

  /** A feed item as it leaves the handler. */
  datatype FeedItem = FeedItem(fields: StubFields, description: Option<string>)

  /** A stub object: the map creates one per entry and the producer
      completes it in place. */
  class Article {
    const guid: string
    const title: string
    const link: string
    const pubDate: Date
    const author: Option<string>
    const category: Option<seq<Option<string>>>
    var description: Option<string>

    /** The object literal of the `.map` callback; `description` is not set. */
    constructor (s: StubFields)
      ensures Fields() == s && description.None?
    {
      guid := s.guid;
      title := s.title;
      link := s.link;
      pubDate := s.pubDate;
      author := s.author;
      category := s.category;
      description := None;
    }

    /** The fields the stub object is made with; no code changes them. */
    function Fields(): StubFields {
      StubFields(guid, title, link, pubDate, author, category)
    }

    /** The object as it is returned and cached. */
    function Value(): (r: FeedItem)
      reads this
      ensures r.fields == Fields() && r.description == description
    {
      FeedItem(Fields(), description)
    }

    /** The `tryGet` producer: it never throws; it sets the description
      and nothing else. */
    method Produce(fetch: ArticleFetcher)
      modifies this
      ensures description == DescriptionFor(guid, title, fetch)
    {
      var response := fetch(ApiRootUrl + "/v4/articles/" + guid);
      if response.Ok? && response.value.data.Some? {
        description := response.value.data.value;
      } else {
        description := Some(FallbackPrefix + title);
      }
    }
  }

  /** Values stored under the link they were built for. */
  predicate CacheKeyed(cache: map<string, FeedItem>) {
    forall k :: k in cache ==> cache[k].fields.link == k
  }

  /** What `cache.tryGet(item.link, producer)` yields for a stub: the
      stored value on a hit, otherwise the stub completed by the
      producer. */
  function TryGetValue(stub: StubFields, cache: map<string, FeedItem>, fetch: ArticleFetcher): FeedItem {
    if stub.link in cache then cache[stub.link]
    else FeedItem(stub, DescriptionFor(stub.guid, stub.title, fetch))
  }

  /** The cache after `tryGet` has run for stubs with the given links and
      values: each lookup sees `cache`, the cache before the run, and a
      miss stores its value under its link. */
  function Store(cache: map<string, FeedItem>, links: seq<string>, items: seq<FeedItem>): map<string, FeedItem>
    requires |links| == |items|
    decreases |links|
  {
    if links == [] then cache
    else
      var n := |links| - 1;
      var before := Store(cache, links[..n], items[..n]);
      if links[n] in cache then before else before[links[n] := items[n]]
  }

  /** The entries the cache had before the run stay as they were. */
  lemma {:induction false} StoreKeeps(cache: map<string, FeedItem>, links: seq<string>, items: seq<FeedItem>)
    requires |links| == |items|
    ensures forall k :: k in cache ==> k in Store(cache, links, items) && Store(cache, links, items)[k] == cache[k]
    decreases |links|
  {
    if links != [] {
      StoreKeeps(cache, links[..|links| - 1], items[..|items| - 1]);
    }
  }

  /** A key is cached afterwards exactly when it was before or some stub
      has it as its link. */
  lemma {:induction false} StoreKeys(cache: map<string, FeedItem>, links: seq<string>, items: seq<FeedItem>)
    requires |links| == |items|
    ensures forall k :: k in Store(cache, links, items) <==> k in cache || k in links
    decreases |links|
  {
    if links != [] {
      var n := |links| - 1;
      StoreKeys(cache, links[..n], items[..n]);
      assert links == links[..n] + [links[n]];
    }
  }

  /** A stub that missed has its value stored under its link, unless a
      later stub with the same link overwrote it. */
  lemma {:induction false} StoreMissed(cache: map<string, FeedItem>, links: seq<string>, items: seq<FeedItem>, i: nat)
    requires |links| == |items| && i < |links| && links[i] !in cache
    requires forall j :: i < j < |links| ==> links[j] != links[i]
    ensures links[i] in Store(cache, links, items) && Store(cache, links, items)[links[i]] == items[i]
    decreases |links|
  {
    var n := |links| - 1;
    if i < n {
      StoreMissed(cache, links[..n], items[..n], i);
    }
  }

  /** Storing values under their own links keeps the cache keyed. */
  lemma {:induction false} StoreKeyed(cache: map<string, FeedItem>, links: seq<string>, items: seq<FeedItem>)
    requires |links| == |items| && CacheKeyed(cache)
    requires forall i :: 0 <= i < |links| && links[i] !in cache ==> items[i].fields.link == links[i]
    ensures CacheKeyed(Store(cache, links, items))
    decreases |links|
  {
    if links != [] {
      var n := |links| - 1;
      StoreKeyed(cache, links[..n], items[..n]);
    }
  }

  /** One `cache.tryGet(item.link, producer)`. The lookup sees `cache`, the
      cache as it was before the run; a miss runs the producer on the stub
      object and stores the completed object under its link in `stored`. */
  method TryGet(article: Article, fetch: ArticleFetcher, cache: map<string, FeedItem>, stored: map<string, FeedItem>)
    returns (item: FeedItem, stored': map<string, FeedItem>)
    modifies article
    ensures item == TryGetValue(article.Fields(), cache, fetch)
    ensures article.link in cache ==> article.description == old(article.description) && stored' == stored
    ensures article.link !in cache ==> article.description == item.description && stored' == stored[article.link := item]
  {
    if article.link in cache {
      item, stored' := cache[article.link], stored;
    } else {
      article.Produce(fetch);
      item := article.Value();
      stored' := stored[article.link := item];
    }
  }

  /** `Promise.all(items.map((item) => cache.tryGet(item.link, producer)))`
      over the stub objects made from `stubs`. Every lookup sees the cache
      as it was before the run, since all of them start before any producer
      stores its result: item `i` is `tryGet`'s value for stub `i`; a stub
      object that missed now holds that value's description, one that hit
      is untouched; the cache is `cache` with each miss stored. */
  method EnrichAll(stubs: seq<StubFields>, articles: seq<Article>, fetch: ArticleFetcher, cache: map<string, FeedItem>)
    returns (items: seq<FeedItem>, cache': map<string, FeedItem>)
    requires |articles| == |stubs|
    requires forall i, j :: 0 <= i < j < |articles| ==> articles[i] != articles[j]
    requires forall i :: 0 <= i < |articles| ==> articles[i].Fields() == stubs[i]
    modifies set i | 0 <= i < |articles| :: articles[i]
    ensures |items| == |stubs|
    ensures forall i :: 0 <= i < |stubs| ==> items[i] == TryGetValue(stubs[i], cache, fetch)
    ensures forall i :: 0 <= i < |stubs| && stubs[i].link in cache ==>
              articles[i].description == old(articles[i].description)
    ensures forall i :: 0 <= i < |stubs| && stubs[i].link !in cache ==>
              articles[i].description == items[i].description
    ensures cache' == Store(cache, StubLinks(stubs), items)
  {
    ghost var links := StubLinks(stubs);
    items := [];
    cache' := cache;
    for n := 0 to |stubs|
      invariant |items| == n
      invariant forall i :: n <= i < |stubs| ==> articles[i].description == old(articles[i].description)
      invariant forall i :: 0 <= i < n ==> items[i] == TryGetValue(stubs[i], cache, fetch)
      invariant forall i :: 0 <= i < n ==>
                  articles[i].description == if stubs[i].link in cache then old(articles[i].description) else items[i].description
      invariant cache' == Store(cache, links[..n], items)
    {
      ghost var before := items;
      assert links[..n + 1][..n] == links[..n];
      assert forall i :: 0 <= i < |articles| && i != n ==> articles[i] != articles[n];
      var item;
      item, cache' := TryGet(articles[n], fetch, cache, cache');
      items := items + [item];
      assert items[..n] == before;
    }
    assert links[..|stubs|] == links;
  }

  // ---------------------------------------------------------------------
  // The handler
  // ---------------------------------------------------------------------

  datatype Feed = Feed(title: string, link: string, items: seq<FeedItem>)

  /** The whole route: the listing fetch, the stubs, their objects, the
      enrichment and the feed. */
  method Handler(fetchListing: string -> Result<seq<Entry>, string>, fetch: ArticleFetcher,
                 cache: map<string, FeedItem>)
    returns (r: Result<Feed, string>, cache': map<string, FeedItem>)
    ensures fetchListing(ListingUrl).Err? ==> r.Err? && cache' == cache
    ensures fetchListing(ListingUrl).Ok? ==>
              (r.Err? <==> Stubs(fetchListing(ListingUrl).value).Err?)
    ensures fetchListing(ListingUrl).Ok? && Stubs(fetchListing(ListingUrl).value).Err? ==> cache' == cache
    ensures r.Ok? ==> r.value.title == FeedTitle && r.value.link == RootUrl
    ensures r.Ok? ==> var stubs := Stubs(fetchListing(ListingUrl).value).value;
              |r.value.items| == |stubs| &&
              (forall i :: 0 <= i < |stubs| ==> r.value.items[i] == TryGetValue(stubs[i], cache, fetch)) &&
              cache' == Store(cache, StubLinks(stubs), r.value.items)
    ensures CacheKeyed(cache) ==> CacheKeyed(cache')
  {
    cache' := cache;
    var listing := fetchListing(ListingUrl);
    if listing.Err? {
      return Err(listing.error), cache';
    }
    var stubs := Stubs(listing.value);
    if stubs.Err? {
      return Err(stubs.error), cache';
    }
    var articles: seq<Article> := [];
    for n := 0 to |stubs.value|
      invariant |articles| == n
      invariant forall i :: 0 <= i < n ==> fresh(articles[i])
      invariant forall i, j :: 0 <= i < j < n ==> articles[i] != articles[j]
      invariant forall i :: 0 <= i < n ==> articles[i].Fields() == stubs.value[i] && articles[i].description.None?
    {
      var article := new Article(stubs.value[n]);
      articles := articles + [article];
    }
    var items;
    items, cache' := EnrichAll(stubs.value, articles, fetch, cache);
    if CacheKeyed(cache) {
      StoreKeyed(cache, StubLinks(stubs.value), items);
    }
    r := Ok(Feed(FeedTitle, RootUrl, items));
  }
}
