/** The Kaiyan (开眼) daily-selection route: the `followCard` entries of the
    recommendation API become feed items that embed the video with a
    playback speed taken from the query. Number parsing and formatting, the
    date conversion, the network and the cache are outside the model: they
    are parameters, and the cache is a map. */
module Kaiyan {
  import opened Common
  import opened Strings

  const ApiUrl := "https://baobab.kaiyanapp.com/api/v5/index/tab/allRec"
  const FeedTitle := "开眼精选"
  const FeedLink := "https://www.kaiyanapp.com/"
  const FeedDescription := "开眼每日精选"
  const DefaultAuthor := "开眼每日精选"
  const FollowCard := "followCard"
  const LineBreak := "<br/>"
  const DefaultSpeed: real := 1.0
  const MinSpeed: real := 0.25
  const MaxSpeed: real := 4.0

  // ---------------------------------------------------------------------
  // The speed parameter
  // ---------------------------------------------------------------------

  /** What `Number.parseFloat` can return. */
  datatype Float = NaN | PositiveInfinity | NegativeInfinity | Finite(value: real)

  /** The query is truthy when present and not empty. */
  predicate Truthy(query: Option<string>) {
    query.Some? && query.value != ""
  }

  /** The parsed speed, before validation. */
  function RequestedSpeed(query: Option<string>, parseFloat: string -> Float): Float {
    if Truthy(query) then parseFloat(query.value) else Finite(DefaultSpeed)
  }

  /** `let speed = …; if (Number.isNaN(speed) || speed < 0.25 || speed > 4) speed = 1;`
      An infinity compares beyond either bound. */
  function Speed(query: Option<string>, parseFloat: string -> Float): (r: real)
    ensures MinSpeed <= r <= MaxSpeed
    ensures !Truthy(query) ==> r == DefaultSpeed
    ensures var p := RequestedSpeed(query, parseFloat);
      (p.Finite? && MinSpeed <= p.value <= MaxSpeed ==> r == p.value) &&
      (!(p.Finite? && MinSpeed <= p.value <= MaxSpeed) ==> r == DefaultSpeed)
  {
    match RequestedSpeed(query, parseFloat)
    case Finite(v) => if v < MinSpeed || v > MaxSpeed then DefaultSpeed else v
    case _ => DefaultSpeed
  }

  // ---------------------------------------------------------------------
  // The followCard filter
  // ---------------------------------------------------------------------

  /** `content.data` of a card: the fields the item uses. */
  datatype Content = Content(playUrl: string, title: string, coverFeed: string,
                             authorName: Option<string>, description: string)

  /** An entry of the list: its `type`, its `data.content.data` and its
      `data.header.time`. */
  datatype Card = Card(kind: string, content: Content, headerTime: int)

  /** `.filter((item) => item.type === 'followCard')` */
  function FollowCards(cards: seq<Card>): (r: seq<Card>)
    ensures |r| <= |cards|
    ensures forall i :: 0 <= i < |r| ==> r[i].kind == FollowCard
  {
    if cards == [] then []
    else if cards[0].kind == FollowCard then [cards[0]] + FollowCards(cards[1..])
    else FollowCards(cards[1..])
  }

  /** The filter works piece by piece, so it keeps the original order. */
  lemma {:induction false} FollowCardsConcat(a: seq<Card>, b: seq<Card>)
    ensures FollowCards(a + b) == FollowCards(a) + FollowCards(b)
  {
    if a == [] {
      assert a + b == b;
    } else {
      assert (a + b)[0] == a[0];
      assert (a + b)[1..] == a[1..] + b;
      FollowCardsConcat(a[1..], b);
    }
  }

  /** A card is kept exactly when it is a `followCard`. */
  lemma {:induction false} FollowCardsMembers(cards: seq<Card>, c: Card)
    ensures c in FollowCards(cards) <==> c in cards && c.kind == FollowCard
  {
    if cards != [] {
      FollowCardsMembers(cards[1..], c);
      assert cards == [cards[0]] + cards[1..];
    }
  }

  // ---------------------------------------------------------------------
  // The item
  // ---------------------------------------------------------------------

  /** `content.data.author?.name ?? '开眼每日精选'`: only a missing name
      falls back; an empty name is kept. */
  function Author(content: Content): (r: string)
    ensures content.authorName.Some? ==> r == content.authorName.value
    ensures content.authorName.None? ==> r == DefaultAuthor
  {
    match content.authorName
    case Some(name) => name
    case None => DefaultAuthor
  }

  /** `<img src="${content.data.cover.feed}" />` */
  function ImageTag(cover: string): string {
    "<img src=\"" + cover + "\" />"
  }

  const PlaybackRateAttr := " playbackRate=\""
  const DefaultPlaybackRateAttr := "\" defaultPlaybackRate=\""
  const OnLoadedDataAttr := "\" onloadeddata=\"this.playbackRate="

  /** The `<video>` tag; `speed` is the speed as JavaScript prints it. */
  function VideoTag(url: string, speed: string): string {
    "<video src=\"" + url + "\" controls=\"controls\"" + PlaybackRateAttr + speed +
    DefaultPlaybackRateAttr + speed + OnLoadedDataAttr + speed + "\"></video>"
  }

  /** The video tag plays the given URL at the given speed three ways: as
      its `playbackRate`, its `defaultPlaybackRate` and in the handler that
      sets the rate once the data has loaded. */
  lemma VideoTagEmbedsSpeed(url: string, speed: string)
    ensures var tag := VideoTag(url, speed);
      var head := "<video src=\"" + url + "\" controls=\"controls\"";
      StartsWith(tag, "<video src=\"" + url + "\"") &&
      OccursAt(tag, PlaybackRateAttr + speed, |head|) &&
      OccursAt(tag, DefaultPlaybackRateAttr + speed, |head + PlaybackRateAttr + speed|) &&
      OccursAt(tag, OnLoadedDataAttr + speed, |head + PlaybackRateAttr + speed + DefaultPlaybackRateAttr + speed|)
  {
    VideoTagOpens(url, speed);
    var head := "<video src=\"" + url + "\" controls=\"controls\"";
    var p1 := head + PlaybackRateAttr + speed;
    var p2 := p1 + DefaultPlaybackRateAttr + speed;
    VideoTagRate(url, speed, head);
    VideoTagDefaultRate(url, speed, p1);
    VideoTagOnLoaded(url, speed, p2);
  }

  lemma VideoTagOpens(url: string, speed: string)
    ensures StartsWith(VideoTag(url, speed), "<video src=\"" + url + "\"")
  {
    var tag := VideoTag(url, speed);
    var opening := "<video src=\"" + url + "\"";
    assert tag == opening + tag[|opening|..];
  }

  lemma VideoTagRate(url: string, speed: string, head: string)
    requires head == "<video src=\"" + url + "\" controls=\"controls\""
    ensures OccursAt(VideoTag(url, speed), PlaybackRateAttr + speed, |head|)
  {
    var attr := PlaybackRateAttr + speed;
    var tag := VideoTag(url, speed);
    var rest := tag[|head| + |attr|..];
    assert tag == head + attr + rest;
    OccursInMiddle(head, attr, rest);
  }

  lemma VideoTagDefaultRate(url: string, speed: string, p1: string)
    requires p1 == "<video src=\"" + url + "\" controls=\"controls\"" + PlaybackRateAttr + speed
    ensures OccursAt(VideoTag(url, speed), DefaultPlaybackRateAttr + speed, |p1|)
  {
    var attr := DefaultPlaybackRateAttr + speed;
    var tag := VideoTag(url, speed);
    var rest := tag[|p1| + |attr|..];
    assert tag == p1 + attr + rest;
    OccursInMiddle(p1, attr, rest);
  }

  lemma VideoTagOnLoaded(url: string, speed: string, p2: string)
    requires p2 == "<video src=\"" + url + "\" controls=\"controls\"" + PlaybackRateAttr + speed +
                   DefaultPlaybackRateAttr + speed
    ensures OccursAt(VideoTag(url, speed), OnLoadedDataAttr + speed, |p2|)
  {
    var attr := OnLoadedDataAttr + speed;
    var rest := "\"></video>";
    assert VideoTag(url, speed) == p2 + attr + rest;
    OccursInMiddle(p2, attr, rest);
  }

  /** `content.data.description + '<br/>' + imgUrl + '<br/>' + itemUrl` */
  function Description(content: Content, speed: string): string {
    content.description + LineBreak + ImageTag(content.coverFeed) + LineBreak + VideoTag(content.playUrl, speed)
  }

  /** The description opens with the card's own text and ends with the
      video tag; the cover image sits between two line breaks. */
  lemma DescriptionLayout(content: Content, speed: string)
    ensures var d := Description(content, speed);
      StartsWith(d, content.description + LineBreak) &&
      OccursAt(d, ImageTag(content.coverFeed) + LineBreak, |content.description + LineBreak|) &&
      d[|d| - |VideoTag(content.playUrl, speed)|..] == VideoTag(content.playUrl, speed)
  {
    var d := Description(content, speed);
    var a := content.description + LineBreak;
    var b := ImageTag(content.coverFeed) + LineBreak;
    var v := VideoTag(content.playUrl, speed);
    assert d == a + b + v;
    assert d[..|a|] == a;
    assert d[|a|..|a| + |b|] == b;
  }

  /** A feed item. */
  datatype Item = Item(title: string, link: string, author: string, description: string, pubDate: string)

  /** The `tryGet` producer for one card: the link is the video URL. */
  function ItemFor(card: Card, speed: real, show: real -> string, utcString: int -> string): (r: Item)
    ensures r.link == card.content.playUrl && r.title == card.content.title
    ensures r.author == Author(card.content)
    ensures r.description == Description(card.content, show(speed))
    ensures r.pubDate == utcString(card.headerTime)
  {
    Item(card.content.title, card.content.playUrl, Author(card.content),
         Description(card.content, show(speed)), utcString(card.headerTime))
  }

  /** Items stored under their link. */
  predicate CacheKeyed(cache: map<string, Item>) {
    forall k :: k in cache ==> cache[k].link == k
  }

  /** What `cache.tryGet(videoUrl, producer)` yields for one card. */
  function TryGet(card: Card, lookup: map<string, Item>, speed: real, show: real -> string,
                  utcString: int -> string): Item {
    if card.content.playUrl in lookup then lookup[card.content.playUrl]
    else ItemFor(card, speed, show, utcString)
  }

  /** `Promise.all(cards.map((item) => cache.tryGet(videoUrl, producer)))`:
      every lookup, keyed by the video URL, sees the cache as it was before
      the run, so the items are one `tryGet` per card, in order. */
  function EnrichAll(cards: seq<Card>, lookup: map<string, Item>, speed: real, show: real -> string,
                     utcString: int -> string): (r: seq<Item>)
    ensures |r| == |cards|
    ensures forall i :: 0 <= i < |cards| ==> r[i] == TryGet(cards[i], lookup, speed, show, utcString)
  {
    seq(|cards|, i requires 0 <= i < |cards| => TryGet(cards[i], lookup, speed, show, utcString))
  }

  /** The cache after the run: each miss stores its item under its URL. */
  function Stored(cards: seq<Card>, lookup: map<string, Item>, stored: map<string, Item>,
                  speed: real, show: real -> string, utcString: int -> string): map<string, Item>
  {
    if cards == [] then stored
    else
      var url := cards[0].content.playUrl;
      var stored' := if url in lookup then stored else stored[url := ItemFor(cards[0], speed, show, utcString)];
      Stored(cards[1..], lookup, stored', speed, show, utcString)
  }

  /** The video URLs of the cards. */
  function Urls(cards: seq<Card>): set<string> {
    set i | 0 <= i < |cards| :: cards[i].content.playUrl
  }

  lemma UrlsOfTail(cards: seq<Card>)
    requires cards != []
    ensures Urls(cards) == {cards[0].content.playUrl} + Urls(cards[1..])
  {
    forall u | u in Urls(cards) ensures u in {cards[0].content.playUrl} + Urls(cards[1..]) {
      var i :| 0 <= i < |cards| && cards[i].content.playUrl == u;
      if i > 0 { assert cards[1..][i - 1] == cards[i]; }
    }
    forall u | u in Urls(cards[1..]) ensures u in Urls(cards) {
      var i :| 0 <= i < |cards[1..]| && cards[1..][i].content.playUrl == u;
      assert cards[i + 1] == cards[1..][i];
    }
  }

  /** Every card's URL ends up cached, and no other key is added. */
  lemma {:induction false} StoredKeys(cards: seq<Card>, lookup: map<string, Item>, stored: map<string, Item>,
                                      speed: real, show: real -> string, utcString: int -> string)
    requires lookup.Keys <= stored.Keys
    ensures Stored(cards, lookup, stored, speed, show, utcString).Keys == stored.Keys + Urls(cards)
  {
    if cards == [] {
      assert Urls(cards) == {};
    } else {
      var url := cards[0].content.playUrl;
      var stored' := if url in lookup then stored else stored[url := ItemFor(cards[0], speed, show, utcString)];
      StoredKeys(cards[1..], lookup, stored', speed, show, utcString);
      UrlsOfTail(cards);
    }
  }

  /** An entry is replaced only under the URL of a card that missed. */
  lemma {:induction false} StoredKeeps(cards: seq<Card>, lookup: map<string, Item>, stored: map<string, Item>,
                                       speed: real, show: real -> string, utcString: int -> string, k: string)
    requires k in stored && (k in lookup || k !in Urls(cards))
    ensures var r := Stored(cards, lookup, stored, speed, show, utcString);
      k in r && r[k] == stored[k]
  {
    if cards != [] {
      var url := cards[0].content.playUrl;
      var stored' := if url in lookup then stored else stored[url := ItemFor(cards[0], speed, show, utcString)];
      UrlsOfTail(cards);
      StoredKeeps(cards[1..], lookup, stored', speed, show, utcString, k);
    }
  }

  /** A card that misses stores its own item, unless a later card with the
      same URL overwrites it. */
  lemma {:induction false} StoredMiss(cards: seq<Card>, lookup: map<string, Item>, stored: map<string, Item>,
                                      speed: real, show: real -> string, utcString: int -> string, i: nat)
    requires i < |cards| && cards[i].content.playUrl !in lookup
    requires forall j :: i < j < |cards| ==> cards[j].content.playUrl != cards[i].content.playUrl
    ensures var r := Stored(cards, lookup, stored, speed, show, utcString);
      cards[i].content.playUrl in r && r[cards[i].content.playUrl] == ItemFor(cards[i], speed, show, utcString)
  {
    var url := cards[0].content.playUrl;
    var stored' := if url in lookup then stored else stored[url := ItemFor(cards[0], speed, show, utcString)];
    if i == 0 {
      assert url !in Urls(cards[1..]);
      StoredKeeps(cards[1..], lookup, stored', speed, show, utcString, url);
    } else {
      assert cards[1..][i - 1] == cards[i];
      forall j | i - 1 < j < |cards[1..]|
        ensures cards[1..][j].content.playUrl != cards[1..][i - 1].content.playUrl
      {
        assert cards[1..][j] == cards[j + 1];
      }
      StoredMiss(cards[1..], lookup, stored', speed, show, utcString, i - 1);
    }
  }

  /** What `tryGet` leaves in the cache: the entries already there stay as
      they were, each card that missed has its URL stored with its item
      (for a repeated URL, the item of the last such card), and nothing
      else is added. */
  lemma StoredSound(cards: seq<Card>, cache: map<string, Item>, speed: real, show: real -> string,
                    utcString: int -> string)
    ensures var r := Stored(cards, cache, cache, speed, show, utcString);
      r.Keys == cache.Keys + Urls(cards) &&
      (forall k :: k in cache ==> r[k] == cache[k]) &&
      (forall i :: 0 <= i < |cards| && cards[i].content.playUrl !in cache &&
                   (forall j :: i < j < |cards| ==> cards[j].content.playUrl != cards[i].content.playUrl) ==>
         r[cards[i].content.playUrl] == ItemFor(cards[i], speed, show, utcString))
  {
    StoredKeys(cards, cache, cache, speed, show, utcString);
    forall k | k in cache ensures Stored(cards, cache, cache, speed, show, utcString)[k] == cache[k] {
      StoredKeeps(cards, cache, cache, speed, show, utcString, k);
    }
    forall i | 0 <= i < |cards| && cards[i].content.playUrl !in cache &&
               (forall j :: i < j < |cards| ==> cards[j].content.playUrl != cards[i].content.playUrl)
      ensures Stored(cards, cache, cache, speed, show, utcString)[cards[i].content.playUrl] == ItemFor(cards[i], speed, show, utcString)
    {
      StoredMiss(cards, cache, cache, speed, show, utcString, i);
    }
  }

  /** A cache of items stored under their own links stays so. */
  lemma {:induction false} StoredKeyed(cards: seq<Card>, lookup: map<string, Item>, stored: map<string, Item>,
                                       speed: real, show: real -> string, utcString: int -> string)
    requires CacheKeyed(stored)
    ensures CacheKeyed(Stored(cards, lookup, stored, speed, show, utcString))
  {
    if cards != [] {
      var url := cards[0].content.playUrl;
      var stored' := if url in lookup then stored else stored[url := ItemFor(cards[0], speed, show, utcString)];
      StoredKeyed(cards[1..], lookup, stored', speed, show, utcString);
    }
  }

  // ---------------------------------------------------------------------
  // The handler
  // ---------------------------------------------------------------------

  /** `response.itemList[i].data.itemList` for each section. */
  datatype Response = Response(sections: seq<seq<Card>>)

  datatype Feed = Feed(title: string, link: string, description: string, items: seq<Item>)

  /** The whole route: the speed, the API fetch, the first section's
      `followCard` entries and their items. An empty `itemList` makes the
      first index throw. */
  function Handler(speedQuery: Option<string>, parseFloat: string -> Float, show: real -> string,
                   utcString: int -> string, fetch: string -> Result<Response, string>,
                   cache: map<string, Item>)
    : (r: Result<(Feed, map<string, Item>), string>)
    ensures fetch(ApiUrl).Err? ==> r.Err?
    ensures fetch(ApiUrl).Ok? ==> (r.Err? <==> fetch(ApiUrl).value.sections == [])
    ensures r.Ok? ==>
              var cards := FollowCards(fetch(ApiUrl).value.sections[0]);
              var speed := Speed(speedQuery, parseFloat);
              var (feed, cache') := r.value;
              feed.title == FeedTitle && feed.link == FeedLink && feed.description == FeedDescription &&
              feed.items == EnrichAll(cards, cache, speed, show, utcString) &&
              cache' == Stored(cards, cache, cache, speed, show, utcString)
  {
    var speed := Speed(speedQuery, parseFloat);
    match fetch(ApiUrl)
    case Err(e) => Err(e)
    case Ok(response) =>
      if response.sections == [] then Err("TypeError")
      else
        var cards := FollowCards(response.sections[0]);
        Ok((Feed(FeedTitle, FeedLink, FeedDescription, EnrichAll(cards, cache, speed, show, utcString)),
            Stored(cards, cache, cache, speed, show, utcString)))
  }

  /** Each feed item is the cached or freshly built item for its card's
      video URL, at the validated speed, one per `followCard`, in order;
      with a cache keyed by link, each item links to its card's video. */
  lemma HandlerItems(speedQuery: Option<string>, parseFloat: string -> Float, show: real -> string,
                     utcString: int -> string, fetch: string -> Result<Response, string>,
                     cache: map<string, Item>)
    requires CacheKeyed(cache)
    ensures var r := Handler(speedQuery, parseFloat, show, utcString, fetch, cache);
      r.Ok? ==>
        var cards := FollowCards(fetch(ApiUrl).value.sections[0]);
        var speed := Speed(speedQuery, parseFloat);
        |r.value.0.items| == |cards| &&
        CacheKeyed(r.value.1) &&
        forall i :: 0 <= i < |cards| ==>
          r.value.0.items[i].link == cards[i].content.playUrl &&
          (cards[i].content.playUrl in cache ==> r.value.0.items[i] == cache[cards[i].content.playUrl]) &&
          (cards[i].content.playUrl !in cache ==> r.value.0.items[i] == ItemFor(cards[i], speed, show, utcString)) &&
          cards[i].content.playUrl in r.value.1
  {
    var r := Handler(speedQuery, parseFloat, show, utcString, fetch, cache);
    if r.Ok? {
      var cards := FollowCards(fetch(ApiUrl).value.sections[0]);
      var speed := Speed(speedQuery, parseFloat);
      StoredKeyed(cards, cache, cache, speed, show, utcString);
      StoredKeys(cards, cache, cache, speed, show, utcString);
      forall i | 0 <= i < |cards| ensures cards[i].content.playUrl in Urls(cards) { }
    }
  }
}
