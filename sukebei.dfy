/** The Sukebei "latest torrents" route: build the listing URL, turn the
    listing rows into stubs, then enrich the stubs one after another from
    their detail pages, escalating once on HTTP 429 and degrading to a
    fallback item on any other failure. Fetching, the cache and the HTML
    parser are outside the model: fetch outcomes are an oracle, the cache is
    a map threaded through the calls, and pages arrive already parsed. */
module Sukebei {
  import opened Common
  import opened Strings

  const RootUrl := "https://sukebei.nyaa.si"
  const DefaultLimit := 30
  const FeedTitle := "Sukebei - Latest Torrents"
  const FallbackDescription := "Details could not be retrieved due to rate limiting."
  const TorrentType := "application/x-bittorrent"
  const MagnetScheme := "magnet:"
  const FileListOpen := "<h3>File List</h3><pre>"
  const FileListClose := "</pre>"
  const TooManyRequests := 429

  /** A route parameter is truthy when it is present and not empty. */
  predicate Truthy(p: Option<string>) {
    p.Some? && p.value != ""
  }

  // ---------------------------------------------------------------------
  // The listing URL
  // ---------------------------------------------------------------------

  /** `filter || '0'` */
  function FilterParam(filter: Option<string>): (r: string)
    ensures r != ""
    ensures Truthy(filter) ==> r == filter.value
    ensures !Truthy(filter) ==> r == "0"
  {
    if Truthy(filter) then filter.value else "0"
  }

  const ListingPrefix := RootUrl + "/?f="
  const CategoryKey := "&c="

  /** The URL the handler fetches. */
  function ListingUrlOf(category: Option<string>, filter: Option<string>): string {
    ListingPrefix + FilterParam(filter) + (if Truthy(category) then CategoryKey + category.value else "")
  }

  /** `let url = …; if (category) { url = … }` */
  method BuildListingUrl(category: Option<string>, filter: Option<string>) returns (url: string)
    ensures url == ListingUrlOf(category, filter)
  {
    url := ListingPrefix + FilterParam(filter);
    if category.Some? && category.value != "" {
      url := url + CategoryKey + category.value;
    }
  }

  /** Reads the filter and the category back from a listing URL. */
  function ParseListingUrl(url: string): Option<(string, Option<string>)> {
    if !StartsWith(url, ListingPrefix) then None
    else
      var query := url[|ListingPrefix|..];
      match FirstIndexOf(query, CategoryKey)
      case None => Some((query, None))
      case Some(k) => Some((query[..k], Some(query[k + |CategoryKey|..])))
  }

  lemma NoAmpersandNoCategoryKey(f: string, tail: string)
    requires forall i :: 0 <= i < |f| ==> f[i] != '&'
    ensures forall k :: 0 <= k < |f| ==> !OccursAt(f + tail, CategoryKey, k)
  {
    forall k | 0 <= k < |f| ensures !OccursAt(f + tail, CategoryKey, k) {
      assert (f + tail)[k] == f[k];
    }
  }

  /** The listing URL determines the filter sent and whether and which
      category was sent, as long as the filter holds no `&`. */
  lemma ListingUrlRoundTrip(category: Option<string>, filter: Option<string>)
    requires forall i :: 0 <= i < |FilterParam(filter)| ==> FilterParam(filter)[i] != '&'
    ensures ParseListingUrl(ListingUrlOf(category, filter)) ==
              Some((FilterParam(filter), if Truthy(category) then Some(category.value) else None))
  {
    var f := FilterParam(filter);
    var url := ListingUrlOf(category, filter);
    var tail := if Truthy(category) then CategoryKey + category.value else "";
    assert url == ListingPrefix + (f + tail);
    assert url[..|ListingPrefix|] == ListingPrefix;
    var query := url[|ListingPrefix|..];
    assert query == f + tail;
    NoAmpersandNoCategoryKey(f, tail);
    if Truthy(category) {
      assert OccursAt(query, CategoryKey, |f|) by {
        assert query[|f|..|f| + 3] == CategoryKey;
      }
      assert FirstIndexOf(query, CategoryKey) == Some(|f|);
      assert query[..|f|] == f;
      assert query[|f| + 3..] == category.value;
    } else {
      assert query == f;
      forall k ensures !OccursAt(query, CategoryKey, k) {
        if !(0 <= k < |f|) {
          assert k < 0 || k + 3 > |query|;
        }
      }
      assert FirstIndexOf(query, CategoryKey) == None;
    }
  }

  // ---------------------------------------------------------------------
  // The row limit
  // ---------------------------------------------------------------------

  /** What `Number.parseInt` can return. */
  datatype Number = NaN | Int(value: int)

  /** `query ? Number.parseInt(query) : 30`; `parseInt` itself is a parameter. */
  function Limit(query: Option<string>, parseInt: string -> Number): (r: Number)
    ensures !Truthy(query) ==> r == Int(DefaultLimit)
    ensures Truthy(query) ==> r == parseInt(query.value)
  {
    if Truthy(query) then parseInt(query.value) else Int(DefaultLimit)
  }

  /** The end index `Array.prototype.slice(0, end)` uses on a list of `len`
      elements. */
  function SliceEnd(len: nat, end: Number): (r: nat)
    ensures r <= len
    ensures end.NaN? ==> r == 0
    ensures end.Int? && 0 <= end.value ==> r == if end.value < len then end.value else len
    ensures end.Int? && end.value < 0 ==> r == if len + end.value < 0 then 0 else len + end.value
  {
    match end
    case NaN => 0
    case Int(n) =>
      if n < 0 then (if len + n < 0 then 0 else len + n)
      else if n < len then n else len
  }

  /** `.slice(0, limit)`: a prefix of the rows, at most `limit` long. */
  function TakeRows<T>(rows: seq<T>, limit: Number): (r: seq<T>)
    ensures |r| <= |rows| && r == rows[..|r|]
    ensures limit.Int? && 0 <= limit.value ==> |r| <= limit.value
    ensures limit.Int? && 0 <= limit.value <= |rows| ==> |r| == limit.value
    ensures limit.Int? && limit.value >= |rows| ==> r == rows
    ensures limit.NaN? ==> r == []
  {
    rows[..SliceEnd(|rows|, limit)]
  }

  // ---------------------------------------------------------------------
  // Rows to stubs
  // ---------------------------------------------------------------------

  /** A `tr.default` row: the href of the first link in its second cell and
      the trimmed texts of its second and fifth cells. */
  datatype Row = Row(href: Option<string>, title: string, dateText: string)

  datatype Stub = Stub(title: string, link: string, pubDate: Date)

  /** What the row mapping can yield, as JavaScript values. */
  datatype Slot = Undefined | Null | Defined(stub: Stub)

  /** A root-relative link gets the site prefixed; any other is kept. */
  function AbsoluteLink(link: string): (r: string)
    ensures !StartsWith(r, "/")
    ensures |link| <= |r| && r[|r| - |link|..] == link
    ensures StartsWith(link, "/") ==> r == RootUrl + link
    ensures !StartsWith(link, "/") ==> r == link
  {
    if StartsWith(link, "/") then
      var r := RootUrl + link;
      assert r[0] == 'h';
      assert r[|r| - |link|..] == link;
      r
    else link
  }

  /** The row mapping: a row without an href gives `null`. */
  function RowToSlot(row: Row): (r: Slot)
    ensures r != Undefined
    ensures r == Null <==> row.href.None? || row.href.value == ""
    ensures r.Defined? ==> r.stub == Stub(row.title, AbsoluteLink(row.href.value), ParsedDate(row.dateText))
  {
    if row.href.None? || row.href.value == "" then Null
    else Defined(Stub(row.title, AbsoluteLink(row.href.value), ParsedDate(row.dateText)))
  }

  function MapRows(rows: seq<Row>): (r: seq<Slot>)
    ensures |r| == |rows|
    ensures forall i :: 0 <= i < |rows| ==> r[i] == RowToSlot(rows[i])
  {
    seq(|rows|, i requires 0 <= i < |rows| => RowToSlot(rows[i]))
  }

  /** `.filter((item) => item !== undefined)` */
  function DropUndefined(slots: seq<Slot>): (r: seq<Slot>)
    ensures |r| <= |slots|
    ensures forall i :: 0 <= i < |r| ==> r[i] != Undefined
  {
    if slots == [] then []
    else if slots[0] == Undefined then DropUndefined(slots[1..])
    else [slots[0]] + DropUndefined(slots[1..])
  }

  /** The filter only drops `undefined`: it keeps `null` slots, so on the
      mapped rows it changes nothing. */
  lemma {:induction false} DropUndefinedKeepsNull(slots: seq<Slot>)
    requires forall i :: 0 <= i < |slots| ==> slots[i] != Undefined
    ensures DropUndefined(slots) == slots
  {
    if slots != [] {
      DropUndefinedKeepsNull(slots[1..]);
    }
  }

  /** The stub list the handler enriches. */
  function Stubs(rows: seq<Row>, limit: Number): seq<Slot> {
    DropUndefined(MapRows(TakeRows(rows, limit)))
  }

  /** One stub per row kept by the limit, in order, a `null` for each row
      without a link. */
  lemma StubsOfRows(rows: seq<Row>, limit: Number)
    ensures |Stubs(rows, limit)| == SliceEnd(|rows|, limit)
    ensures forall i :: 0 <= i < |Stubs(rows, limit)| ==> Stubs(rows, limit)[i] == RowToSlot(rows[i])
  {
    DropUndefinedKeepsNull(MapRows(TakeRows(rows, limit)));
  }

  // ---------------------------------------------------------------------
  // The detail fetch and its escalation
  // ---------------------------------------------------------------------

  /** The `retry` and `timeout` options of a fetch. */
  datatype Policy = Policy(retry: nat, timeout: nat)

  const FirstAttempt := Policy(2, 10000)
  const RateLimitedAttempt := Policy(1, 15000)

  /** A fetch error with an HTTP response, or any other error. */
  datatype FetchError = HttpError(status: int) | OtherError

  /** A detail page as the handler reads it: the hrefs of its links in
      document order, the trimmed text of `#torrent-description` if there
      is one, and the entries of `.torrent-file-list` if there is one. */
  datatype DetailPage = DetailPage(hrefs: seq<string>, descriptionText: Option<string>, fileList: Option<seq<FileEntry>>)

  /** An `li` of the file list: its own trimmed text and the trimmed text
      of its `.file-size`. */
  datatype FileEntry = FileEntry(name: string, size: string)

  /** What the handler does, in order, that the outside world sees. */
  datatype Event = Delay(ms: nat) | Fetch(url: string, policy: Policy)

  /** A fetch oracle: the outcome of fetching a URL with a policy. */
  type Fetcher = (string, Policy) -> Result<DetailPage, FetchError>

  /** The inner try/catch: a first fetch; only a 429 earns a 2000 ms pause
      and exactly one more fetch with the gentler policy, whose outcome is
      final; any other error propagates. */
  function Escalate(link: string, fetch: Fetcher): (r: (Result<DetailPage, FetchError>, seq<Event>))
    ensures fetch(link, FirstAttempt).Ok? ==> r == (fetch(link, FirstAttempt), [Fetch(link, FirstAttempt)])
    ensures fetch(link, FirstAttempt) == Err(HttpError(TooManyRequests)) ==>
              r == (fetch(link, RateLimitedAttempt),
                    [Fetch(link, FirstAttempt), Delay(2000), Fetch(link, RateLimitedAttempt)])
    ensures fetch(link, FirstAttempt).Err? && fetch(link, FirstAttempt) != Err(HttpError(TooManyRequests)) ==>
              r == (fetch(link, FirstAttempt), [Fetch(link, FirstAttempt)])
  {
    var first := fetch(link, FirstAttempt);
    if first.Err? && first.error.HttpError? && first.error.status == TooManyRequests then
      (fetch(link, RateLimitedAttempt), [Fetch(link, FirstAttempt), Delay(2000), Fetch(link, RateLimitedAttempt)])
    else
      (first, [Fetch(link, FirstAttempt)])
  }

  /** `detailResponse` assigned in the `try` and reassigned in the `catch`. */
  method FetchDetail(link: string, fetch: Fetcher) returns (detail: Result<DetailPage, FetchError>, events: seq<Event>)
    ensures (detail, events) == Escalate(link, fetch)
  {
    detail := fetch(link, FirstAttempt);
    events := [Fetch(link, FirstAttempt)];
    if detail.Err? {
      if detail.error.HttpError? && detail.error.status == TooManyRequests {
        events := events + [Delay(2000)];
        detail := fetch(link, RateLimitedAttempt);
        events := events + [Fetch(link, RateLimitedAttempt)];
        assert events == [Fetch(link, FirstAttempt), Delay(2000), Fetch(link, RateLimitedAttempt)];
      }
    }
  }

  /** Counts the fetches in a trace. */
  function FetchCount(events: seq<Event>): nat {
    if events == [] then 0 else (if events[0].Fetch? then 1 else 0) + FetchCount(events[1..])
  }

  /** At most two fetches per detail page, and a second one only after a
      429; a pause comes exactly when there is a second fetch. */
  lemma EscalationBound(link: string, fetch: Fetcher)
    ensures 1 <= FetchCount(Escalate(link, fetch).1) <= 2
    ensures FetchCount(Escalate(link, fetch).1) == 2 <==> fetch(link, FirstAttempt) == Err(HttpError(TooManyRequests))
    ensures Delay(2000) in Escalate(link, fetch).1 <==> fetch(link, FirstAttempt) == Err(HttpError(TooManyRequests))
  {
    var events := Escalate(link, fetch).1;
    if fetch(link, FirstAttempt) == Err(HttpError(TooManyRequests)) {
      assert events[1..][1..][1..] == [];
      assert FetchCount(events[1..][1..]) == 1;
      assert FetchCount(events[1..]) == 1;
    } else {
      assert events[1..] == [];
      assert FetchCount(events) == 1;
    }
  }

  // ---------------------------------------------------------------------
  // The enriched item
  // ---------------------------------------------------------------------

  datatype Enclosure = Enclosure(url: string, mimeType: string)

  /** A feed item; the fallback has no enclosure. */
  datatype Item = Item(title: string, link: string, pubDate: Date, description: string, enclosure: Option<Enclosure>)

  /** `$('a[href^="magnet:"]').first().attr('href') || ''` */
  function FirstMagnet(hrefs: seq<string>): (r: string)
    ensures r == "" <==> forall i :: 0 <= i < |hrefs| ==> !StartsWith(hrefs[i], MagnetScheme)
    ensures r != "" ==> exists i :: 0 <= i < |hrefs| && hrefs[i] == r &&
                          forall j :: 0 <= j < i ==> !StartsWith(hrefs[j], MagnetScheme)
    ensures r != "" ==> StartsWith(r, MagnetScheme)
  {
    if hrefs == [] then ""
    else if StartsWith(hrefs[0], MagnetScheme) then hrefs[0]
    else
      var rest := FirstMagnet(hrefs[1..]);
      assert rest != "" ==> exists i :: 0 <= i < |hrefs| && hrefs[i] == rest &&
                                   forall j :: 0 <= j < i ==> !StartsWith(hrefs[j], MagnetScheme) by {
        if rest != "" {
          var i :| 0 <= i < |hrefs[1..]| && hrefs[1..][i] == rest &&
                   forall j :: 0 <= j < i ==> !StartsWith(hrefs[1..][j], MagnetScheme);
          assert hrefs[i + 1] == rest;
          assert forall j :: 0 <= j < i + 1 ==> !StartsWith(hrefs[j], MagnetScheme) by {
            forall j | 0 <= j < i + 1 ensures !StartsWith(hrefs[j], MagnetScheme) {
              if j > 0 { assert hrefs[j] == hrefs[1..][j - 1]; }
            }
          }
        }
      }
      assert rest == "" ==> forall i :: 0 <= i < |hrefs| ==> !StartsWith(hrefs[i], MagnetScheme) by {
        if rest == "" {
          forall i | 0 <= i < |hrefs| ensures !StartsWith(hrefs[i], MagnetScheme) {
            if i > 0 { assert hrefs[i] == hrefs[1..][i - 1]; }
          }
        }
      }
      rest
  }

  /** One line of the file list. */
  function FileLine(e: FileEntry): string {
    e.name + " " + e.size + "\n"
  }

  /** The lines of the file list, in order. */
  function FileLines(entries: seq<FileEntry>): string {
    if entries == [] then "" else FileLine(entries[0]) + FileLines(entries[1..])
  }

  /** The file list is the lines of its entries in order: listing two
      halves lists the whole. */
  lemma {:induction false} FileLinesConcat(a: seq<FileEntry>, b: seq<FileEntry>)
    ensures FileLines(a + b) == FileLines(a) + FileLines(b)
  {
    if a == [] {
      assert a + b == b;
    } else {
      assert (a + b)[0] == a[0];
      assert (a + b)[1..] == a[1..] + b;
      FileLinesConcat(a[1..], b);
    }
  }

  lemma FileListGrows(entries: seq<FileEntry>, i: nat)
    requires i < |entries|
    ensures FileLines(entries[..i + 1]) == FileLines(entries[..i]) + FileLine(entries[i])
  {
    FileLinesConcat(entries[..i], [entries[i]]);
    assert entries[..i + 1] == entries[..i] + [entries[i]];
    assert FileLines([entries[i]]) == FileLine(entries[i]) + FileLines([]);
  }

  /** The file-list block: empty without a `.torrent-file-list`. */
  function FileListBlock(fileList: Option<seq<FileEntry>>): string {
    match fileList
    case None => ""
    case Some(entries) => FileListOpen + FileLines(entries) + FileListClose
  }

  /** The `fileListText +=` loop over the `li` entries. */
  method RenderFileList(fileList: Option<seq<FileEntry>>) returns (text: string)
    ensures text == FileListBlock(fileList)
  {
    text := "";
    if fileList.Some? {
      var entries := fileList.value;
      text := text + FileListOpen;
      for i := 0 to |entries|
        invariant text == FileListOpen + FileLines(entries[..i])
      {
        FileListGrows(entries, i);
        text := text + FileLine(entries[i]);
      }
      assert entries[..|entries|] == entries;
      text := text + FileListClose;
    }
  }

  /** The rendered torrent description, or nothing without one. */
  function DescriptionHtml(page: DetailPage, render: string -> string): string {
    match page.descriptionText
    case None => ""
    case Some(text) => render(text)
  }

  /** The item built from a fetched detail page. */
  function DetailItem(stub: Stub, page: DetailPage, render: string -> string): (r: Item)
    ensures r.title == stub.title && r.link == stub.link && r.pubDate == stub.pubDate
    ensures r.enclosure == Some(Enclosure(FirstMagnet(page.hrefs), TorrentType))
    ensures r.description == DescriptionHtml(page, render) + FileListBlock(page.fileList)
  {
    Item(stub.title, stub.link, stub.pubDate,
         DescriptionHtml(page, render) + FileListBlock(page.fileList),
         Some(Enclosure(FirstMagnet(page.hrefs), TorrentType)))
  }

  /** The item the outer `catch` returns. */
  function FallbackItem(stub: Stub): (r: Item)
    ensures r.title == stub.title && r.link == stub.link && r.pubDate == stub.pubDate
    ensures r.description == FallbackDescription && r.enclosure.None?
  {
    Item(stub.title, stub.link, stub.pubDate, FallbackDescription, None)
  }

  // ---------------------------------------------------------------------
  // processItem and processItemsSequentially
  // ---------------------------------------------------------------------

  /** The errors that end the whole handler. */
  datatype HandlerError = TypeError | ListingFailed(cause: FetchError)

  /** A failed run: the error, with the cache and the events the work done
      before it left. The cache is shared between requests, so what the
      stubs before a failing one stored stays stored. */
  datatype Failure = Failure(error: HandlerError, cache: map<string, Item>, events: seq<Event>)

  /** Items stored under the link they were built for. */
  predicate CacheKeyed(cache: map<string, Item>) {
    forall k :: k in cache ==> cache[k].link == k
  }

  /** What processing one stub yields: the item, the cache after it, and the
      events it caused. */
  datatype Step = Step(item: Item, cache: map<string, Item>, events: seq<Event>)

  /** `processItem(item)`: a cache hit is returned as stored; otherwise a
      500 ms pause, the escalating fetch, and the detail item, which is
      cached; any failure gives the fallback item, which is not. A `null`
      stub fails in the catch block too, and so ends the handler. */
  function ProcessItem(slot: Slot, cache: map<string, Item>, fetch: Fetcher, render: string -> string): (r: Result<Step, HandlerError>)
    ensures r.Err? <==> !slot.Defined?
  {
    match slot
    case Undefined => Err(TypeError)
    case Null => Err(TypeError)
    case Defined(stub) =>
      if stub.link in cache then Ok(Step(cache[stub.link], cache, []))
      else
        var (detail, events) := Escalate(stub.link, fetch);
        match detail
        case Ok(page) =>
          var item := DetailItem(stub, page, render);
          Ok(Step(item, cache[stub.link := item], [Delay(500)] + events))
        case Err(_) => Ok(Step(FallbackItem(stub), cache, [Delay(500)] + events))
  }

  /** A cached link is answered from the cache with no request; a missing
      one waits 500 ms and fetches, and the item is built from the detail
      page and stored, or, when every attempt fails, built from the stub
      and not stored. */
  lemma ProcessItemSound(slot: Slot, cache: map<string, Item>, fetch: Fetcher, render: string -> string)
    requires slot.Defined?
    ensures var r := ProcessItem(slot, cache, fetch, render);
      (slot.stub.link in cache ==> r.value == Step(cache[slot.stub.link], cache, [])) &&
      (slot.stub.link !in cache ==>
        var (detail, events) := Escalate(slot.stub.link, fetch);
        r.value.events == [Delay(500)] + events &&
        (detail.Ok? ==> r.value.item == DetailItem(slot.stub, detail.value, render) &&
                        r.value.cache == cache[slot.stub.link := r.value.item]) &&
        (detail.Err? ==> r.value.item == FallbackItem(slot.stub) && r.value.cache == cache))
  {
  }

  /** Whatever happens to a stub, the item keeps its link, and, unless it
      came from the cache, its title and date; the cache stays keyed by
      link. */
  lemma ProcessItemKeepsStub(slot: Slot, cache: map<string, Item>, fetch: Fetcher, render: string -> string)
    requires CacheKeyed(cache)
    requires ProcessItem(slot, cache, fetch, render).Ok?
    ensures var step := ProcessItem(slot, cache, fetch, render).value;
      step.item.link == slot.stub.link && CacheKeyed(step.cache) &&
      (slot.stub.link !in cache ==> step.item.title == slot.stub.title && step.item.pubDate == slot.stub.pubDate)
  {
  }

  /** `processItemsSequentially(itemList, index, acc)`, with the cache and
      the event trace threaded along like the accumulator. */
  function ProcessItemsSequentially(itemList: seq<Slot>, index: nat, acc: seq<Item>, cache: map<string, Item>,
                                    events: seq<Event>, fetch: Fetcher, render: string -> string)
    : Result<(seq<Item>, map<string, Item>, seq<Event>), Failure>
    decreases |itemList| - index
  {
    if index >= |itemList| then Ok((acc, cache, events))
    else match ProcessItem(itemList[index], cache, fetch, render)
      case Err(e) => Err(Failure(e, cache, events))
      case Ok(step) =>
        ProcessItemsSequentially(itemList, index + 1, acc + [step.item], step.cache, events + step.events, fetch, render)
  }

  /** The sequential map keeps length and order: it fails exactly when a
      stub from `index` on is not an object, with a `TypeError`; otherwise
      the output is the accumulator followed by one item per remaining
      stub, each carrying its stub's link. Either way the trace only grows
      and the cache stays keyed by link. */
  lemma {:induction false} ProcessItemsSequentiallySound(itemList: seq<Slot>, index: nat, acc: seq<Item>, cache: map<string, Item>,
                                                         events: seq<Event>, fetch: Fetcher, render: string -> string)
    requires CacheKeyed(cache)
    ensures var r := ProcessItemsSequentially(itemList, index, acc, cache, events, fetch, render);
      (r.Err? <==> exists j :: index <= j < |itemList| && !itemList[j].Defined?) &&
      (r.Ok? ==>
        var (out, cache', events') := r.value;
        |out| == |acc| + (if index < |itemList| then |itemList| - index else 0) &&
        acc <= out &&
        (forall j :: |acc| <= j < |out| ==> out[j].link == itemList[index + j - |acc|].stub.link) &&
        CacheKeyed(cache') &&
        events <= events') &&
      (r.Err? ==> r.error.error == TypeError && CacheKeyed(r.error.cache) && events <= r.error.events)
    decreases |itemList| - index
  {
    if index < |itemList| {
      var first := ProcessItem(itemList[index], cache, fetch, render);
      if first.Ok? {
        var step := first.value;
        ProcessItemKeepsStub(itemList[index], cache, fetch, render);
        ProcessItemsSequentiallySound(itemList, index + 1, acc + [step.item], step.cache, events + step.events, fetch, render);
        var r := ProcessItemsSequentially(itemList, index, acc, cache, events, fetch, render);
        assert r == ProcessItemsSequentially(itemList, index + 1, acc + [step.item], step.cache, events + step.events, fetch, render);
        if r.Ok? {
          var (out, cache', events') := r.value;
          assert acc <= acc + [step.item];
          assert events <= events + step.events;
        }
      }
    }
  }

  /** Every slot is an object (no `null` stub). */
  predicate AllDefined(slots: seq<Slot>) {
    forall i :: 0 <= i < |slots| ==> slots[i].Defined?
  }

  /** What processing one object stub does, as a value: the item, the
      cache it leaves and the events it causes. */
  type StepFn = (Stub, map<string, Item>) -> Step

  /** `processItem` on an object stub. */
  function StepOf(fetch: Fetcher, render: string -> string): StepFn {
    (stub: Stub, cache: map<string, Item>) => ProcessItem(Defined(stub), cache, fetch, render).value
  }

  /** The step never replaces an entry that is already there. */
  ghost predicate KeepsEntries(step: StepFn) {
    forall stub, c, k :: k in c ==> k in step(stub, c).cache && step(stub, c).cache[k] == c[k]
  }

  /** The only key the step may add is its stub's link. */
  ghost predicate AddsOnlyOwnLink(step: StepFn) {
    forall stub, c, k :: k in step(stub, c).cache && k !in c ==> k == stub.link
  }

  /** The item carries its stub's link, and a cache keyed by link stays so. */
  ghost predicate KeepsLinks(step: StepFn) {
    forall stub, c :: CacheKeyed(c) ==> step(stub, c).item.link == stub.link && CacheKeyed(step(stub, c).cache)
  }

  /** `processItem` keeps the stored entries, adds at most its own link and
      keeps items tied to their links. */
  lemma StepOfSound(fetch: Fetcher, render: string -> string)
    ensures KeepsEntries(StepOf(fetch, render))
    ensures AddsOnlyOwnLink(StepOf(fetch, render))
    ensures KeepsLinks(StepOf(fetch, render))
  {
    var step := StepOf(fetch, render);
    forall stub, c
      ensures forall k :: k in c ==> k in step(stub, c).cache && step(stub, c).cache[k] == c[k]
      ensures forall k :: k in step(stub, c).cache && k !in c ==> k == stub.link
      ensures CacheKeyed(c) ==> step(stub, c).item.link == stub.link && CacheKeyed(step(stub, c).cache)
    {
      ProcessItemSound(Defined(stub), c, fetch, render);
      if CacheKeyed(c) {
        ProcessItemKeepsStub(Defined(stub), c, fetch, render);
      }
    }
  }

  /** The state after the first `j` stubs, built from the front: stub `i`
      is processed against the cache the stubs before it left. This is the
      reference the accumulator recursion is proved against. */
  function After(slots: seq<Slot>, j: nat, cache: map<string, Item>, step: StepFn)
    : (r: (seq<Item>, map<string, Item>, seq<Event>))
    requires AllDefined(slots) && j <= |slots|
    ensures |r.0| == j
  {
    if j == 0 then ([], cache, [])
    else
      var before := After(slots, j - 1, cache, step);
      var s := step(slots[j - 1].stub, before.1);
      (before.0 + [s.item], s.cache, before.2 + s.events)
  }

  /** One more stub applies the step once more. */
  lemma AfterStep(slots: seq<Slot>, n: nat, cache: map<string, Item>, step: StepFn)
    requires AllDefined(slots) && n < |slots|
    ensures var s := After(slots, n, cache, step);
      var t := step(slots[n].stub, s.1);
      After(slots, n + 1, cache, step) == (s.0 + [t.item], t.cache, s.2 + t.events)
  {
  }

  /** The `j`-th item is what the step makes of the `j`-th stub, against
      the cache the stubs before it left. */
  lemma {:induction false} AfterItem(slots: seq<Slot>, n: nat, j: nat, cache: map<string, Item>, step: StepFn)
    requires AllDefined(slots) && j < n <= |slots|
    ensures After(slots, n, cache, step).0[j] == step(slots[j].stub, After(slots, j, cache, step).1).item
    decreases n
  {
    if j < n - 1 {
      AfterItem(slots, n - 1, j, cache, step);
      assert After(slots, n, cache, step).0[j] == After(slots, n - 1, cache, step).0[j];
    }
  }

  /** Resuming the accumulator recursion at `index` from the state after
      the first `index` stubs gives the state after all of them. */
  lemma {:induction false} SequentialFrom(slots: seq<Slot>, index: nat, cache: map<string, Item>, fetch: Fetcher, render: string -> string)
    requires AllDefined(slots) && index <= |slots|
    ensures var s := After(slots, index, cache, StepOf(fetch, render));
      ProcessItemsSequentially(slots, index, s.0, s.1, s.2, fetch, render) == Ok(After(slots, |slots|, cache, StepOf(fetch, render)))
    decreases |slots| - index
  {
    if index < |slots| {
      var step := StepOf(fetch, render);
      var s := After(slots, index, cache, step);
      SequentialStep(slots, index, s.0, s.1, s.2, fetch, render);
      AfterStep(slots, index, cache, step);
      SequentialFrom(slots, index + 1, cache, fetch, render);
    }
  }

  /** On an object stub the accumulator recursion takes one step. */
  lemma SequentialStep(slots: seq<Slot>, index: nat, acc: seq<Item>, cache: map<string, Item>,
                       events: seq<Event>, fetch: Fetcher, render: string -> string)
    requires index < |slots| && slots[index].Defined?
    ensures var t := StepOf(fetch, render)(slots[index].stub, cache);
      ProcessItemsSequentially(slots, index, acc, cache, events, fetch, render) ==
      ProcessItemsSequentially(slots, index + 1, acc + [t.item], t.cache, events + t.events, fetch, render)
  {
    assert slots[index] == Defined(slots[index].stub);
  }

  /** Resuming the accumulator recursion at `index`, before the first
      stub `j` that is not an object, fails at `j` with the state the stubs
      before it left. */
  lemma {:induction false} SequentialFails(slots: seq<Slot>, j: nat, index: nat, cache: map<string, Item>,
                                           fetch: Fetcher, render: string -> string)
    requires j < |slots| && !slots[j].Defined? && AllDefined(slots[..j]) && index <= j
    ensures var s := After(slots[..j], index, cache, StepOf(fetch, render));
      var f := After(slots[..j], j, cache, StepOf(fetch, render));
      ProcessItemsSequentially(slots, index, s.0, s.1, s.2, fetch, render) == Err(Failure(TypeError, f.1, f.2))
    decreases j - index
  {
    if index < j {
      var step := StepOf(fetch, render);
      var s := After(slots[..j], index, cache, step);
      assert slots[..j][index] == slots[index];
      SequentialStep(slots, index, s.0, s.1, s.2, fetch, render);
      AfterStep(slots[..j], index, cache, step);
      SequentialFails(slots, j, index + 1, cache, fetch, render);
    }
  }

  /** `processItem` of a `null` stub throws, but only after every stub
      before it has been processed: the run fails with a `TypeError`,
      carrying the cache and the trace those stubs left (their misses
      fetched, and stored when detailed). */
  lemma ProcessItemsSequentiallyFails(slots: seq<Slot>, j: nat, cache: map<string, Item>, fetch: Fetcher,
                                      render: string -> string)
    requires j < |slots| && !slots[j].Defined? && AllDefined(slots[..j])
    ensures var f := After(slots[..j], j, cache, StepOf(fetch, render));
      ProcessItemsSequentially(slots, 0, [], cache, [], fetch, render) == Err(Failure(TypeError, f.1, f.2))
  {
    SequentialFails(slots, j, 0, cache, fetch, render);
  }

  /** `out[i] = processItem(items[i])`: with every stub an object, the
      output has one item per stub, item `j` is `processItem` of stub `j`
      run against the cache the earlier stubs left, and the trace is the
      stubs' traces in index order. */
  lemma ProcessItemsSequentiallyInOrder(slots: seq<Slot>, cache: map<string, Item>, fetch: Fetcher, render: string -> string)
    requires AllDefined(slots)
    ensures var r := ProcessItemsSequentially(slots, 0, [], cache, [], fetch, render);
      r == Ok(After(slots, |slots|, cache, StepOf(fetch, render))) &&
      |r.value.0| == |slots| &&
      forall j :: 0 <= j < |slots| ==>
        r.value.0[j] == ProcessItem(slots[j], After(slots, j, cache, StepOf(fetch, render)).1, fetch, render).value.item
  {
    var step := StepOf(fetch, render);
    SequentialFrom(slots, 0, cache, fetch, render);
    forall j | 0 <= j < |slots|
      ensures After(slots, |slots|, cache, step).0[j] ==
              ProcessItem(slots[j], After(slots, j, cache, step).1, fetch, render).value.item
    {
      AfterItem(slots, |slots|, j, cache, step);
      assert slots[j] == Defined(slots[j].stub);
    }
  }

  // ---------------------------------------------------------------------
  // The sequential run in closed form, for stubs with distinct links
  // ---------------------------------------------------------------------

  /** No two stubs share a link. */
  predicate DistinctLinks(slots: seq<Slot>)
    requires AllDefined(slots)
  {
    forall i, j :: 0 <= i < j < |slots| ==> slots[i].stub.link != slots[j].stub.link
  }

  /** The links of the first `j` stubs. */
  function LinksBefore(slots: seq<Slot>, j: nat): set<string>
    requires AllDefined(slots) && j <= |slots|
  {
    set i | 0 <= i < j :: slots[i].stub.link
  }

  /** What a stub becomes when no earlier stub shares its link: the stored
      item on a hit; otherwise the detail item, or the fallback item when
      the escalating fetch fails. */
  function ExpectedItem(stub: Stub, cache: map<string, Item>, fetch: Fetcher, render: string -> string): Item {
    if stub.link in cache then cache[stub.link]
    else match Escalate(stub.link, fetch).0
      case Ok(page) => DetailItem(stub, page, render)
      case Err(_) => FallbackItem(stub)
  }

  /** What a stub does that the outside world sees: nothing on a hit; the
      500 ms pause and the escalating fetch on a miss. */
  function ExpectedEvents(stub: Stub, cache: map<string, Item>, fetch: Fetcher): seq<Event> {
    if stub.link in cache then [] else [Delay(500)] + Escalate(stub.link, fetch).1
  }

  /** The events of the first `j` stubs, in index order. */
  function ExpectedTrace(slots: seq<Slot>, j: nat, cache: map<string, Item>, fetch: Fetcher): seq<Event>
    requires AllDefined(slots) && j <= |slots|
  {
    if j == 0 then [] else ExpectedTrace(slots, j - 1, cache, fetch) + ExpectedEvents(slots[j - 1].stub, cache, fetch)
  }

  /** A stored entry is never replaced: a miss stores only under a link
      that was not there. */
  lemma {:induction false} AfterKeepsEntries(slots: seq<Slot>, i: nat, n: nat, cache: map<string, Item>, step: StepFn)
    requires AllDefined(slots) && i <= n <= |slots| && KeepsEntries(step)
    ensures var ci, cn := After(slots, i, cache, step).1, After(slots, n, cache, step).1;
      forall k :: k in ci ==> k in cn && cn[k] == ci[k]
    decreases n
  {
    if i < n {
      AfterKeepsEntries(slots, i, n - 1, cache, step);
    }
  }

  /** The only new keys are links of stubs already processed. */
  lemma {:induction false} AfterNewKeys(slots: seq<Slot>, n: nat, cache: map<string, Item>, step: StepFn)
    requires AllDefined(slots) && n <= |slots| && AddsOnlyOwnLink(step)
    ensures forall k :: k in After(slots, n, cache, step).1 && k !in cache ==> k in LinksBefore(slots, n)
    decreases n
  {
    if n > 0 {
      AfterNewKeys(slots, n - 1, cache, step);
      assert slots[n - 1].stub.link in LinksBefore(slots, n);
      assert LinksBefore(slots, n - 1) <= LinksBefore(slots, n);
    }
  }

  /** A key `processItem` adds is its stub's link, and only after the
      escalating fetch succeeded: a hit and a fallback store nothing. */
  lemma StepNewKey(stub: Stub, c: map<string, Item>, fetch: Fetcher, render: string -> string, k: string)
    requires k in StepOf(fetch, render)(stub, c).cache && k !in c
    ensures k == stub.link && Escalate(k, fetch).0.Ok?
  {
    ProcessItemSound(Defined(stub), c, fetch, render);
  }

  /** Every key the run adds is the link of a processed stub whose detail
      page was fetched. */
  lemma {:induction false} AfterNewKeysFetched(slots: seq<Slot>, n: nat, cache: map<string, Item>, fetch: Fetcher,
                                               render: string -> string)
    requires AllDefined(slots) && n <= |slots|
    ensures forall k :: k in After(slots, n, cache, StepOf(fetch, render)).1 && k !in cache ==>
              exists j :: 0 <= j < n && slots[j].stub.link == k && Escalate(k, fetch).0.Ok?
    decreases n
  {
    if n > 0 {
      var step := StepOf(fetch, render);
      AfterNewKeysFetched(slots, n - 1, cache, fetch, render);
      var before := After(slots, n - 1, cache, step).1;
      forall k | k in After(slots, n, cache, step).1 && k !in cache
        ensures exists j :: 0 <= j < n && slots[j].stub.link == k && Escalate(k, fetch).0.Ok?
      {
        if k !in before {
          StepNewKey(slots[n - 1].stub, before, fetch, render, k);
        }
      }
    }
  }

  /** With distinct links, the cache stub `j` meets holds the starting
      cache's entry for its link, or no entry for it. */
  lemma CacheSeenDistinct(slots: seq<Slot>, j: nat, cache: map<string, Item>, step: StepFn)
    requires AllDefined(slots) && DistinctLinks(slots) && j < |slots|
    requires KeepsEntries(step) && AddsOnlyOwnLink(step)
    ensures var c, link := After(slots, j, cache, step).1, slots[j].stub.link;
      (link in cache ==> link in c && c[link] == cache[link]) && (link !in cache ==> link !in c)
  {
    assert After(slots, 0, cache, step).1 == cache;
    AfterKeepsEntries(slots, 0, j, cache, step);
    AfterNewKeys(slots, j, cache, step);
    assert slots[j].stub.link !in LinksBefore(slots, j);
  }

  /** With distinct links, stub `j` sees the starting cache's entry for its
      link, or none, so it becomes its expected item. */
  lemma AfterItemDistinct(slots: seq<Slot>, j: nat, cache: map<string, Item>, fetch: Fetcher, render: string -> string)
    requires AllDefined(slots) && DistinctLinks(slots) && j < |slots|
    ensures var t := StepOf(fetch, render)(slots[j].stub, After(slots, j, cache, StepOf(fetch, render)).1);
      t.item == ExpectedItem(slots[j].stub, cache, fetch, render) &&
      t.events == ExpectedEvents(slots[j].stub, cache, fetch)
  {
    var c := After(slots, j, cache, StepOf(fetch, render)).1;
    StepOfSound(fetch, render);
    CacheSeenDistinct(slots, j, cache, StepOf(fetch, render));
    ProcessItemSound(Defined(slots[j].stub), c, fetch, render);
  }

  /** With distinct links the trace is the stubs' events in index order. */
  lemma {:induction false} AfterTraceDistinct(slots: seq<Slot>, n: nat, cache: map<string, Item>, fetch: Fetcher, render: string -> string)
    requires AllDefined(slots) && DistinctLinks(slots) && n <= |slots|
    ensures After(slots, n, cache, StepOf(fetch, render)).2 == ExpectedTrace(slots, n, cache, fetch)
    decreases n
  {
    if n > 0 {
      AfterTraceDistinct(slots, n - 1, cache, fetch, render);
      AfterEventsDistinct(slots, n, cache, fetch, render);
    }
  }

  /** With distinct links, stub `n - 1` adds its expected events. */
  lemma AfterEventsDistinct(slots: seq<Slot>, n: nat, cache: map<string, Item>, fetch: Fetcher, render: string -> string)
    requires AllDefined(slots) && DistinctLinks(slots) && 0 < n <= |slots|
    ensures After(slots, n, cache, StepOf(fetch, render)).2 ==
            After(slots, n - 1, cache, StepOf(fetch, render)).2 + ExpectedEvents(slots[n - 1].stub, cache, fetch)
  {
    AfterItemDistinct(slots, n - 1, cache, fetch, render);
  }

  /** With distinct links, a stub that misses and is detailed leaves its
      item in the final cache under its link. */
  lemma AfterStoresMiss(slots: seq<Slot>, j: nat, cache: map<string, Item>, fetch: Fetcher, render: string -> string)
    requires AllDefined(slots) && DistinctLinks(slots) && j < |slots|
    requires slots[j].stub.link !in cache && Escalate(slots[j].stub.link, fetch).0.Ok?
    ensures var after := After(slots, |slots|, cache, StepOf(fetch, render));
      slots[j].stub.link in after.1 && after.1[slots[j].stub.link] == after.0[j]
  {
    var step := StepOf(fetch, render);
    var link := slots[j].stub.link;
    var c := After(slots, j, cache, step).1;
    StepOfSound(fetch, render);
    CacheSeenDistinct(slots, j, cache, step);
    ProcessItemSound(slots[j], c, fetch, render);
    assert slots[j] == Defined(slots[j].stub);
    AfterItem(slots, |slots|, j, cache, step);
    var t := step(slots[j].stub, c);
    assert link in t.cache && t.cache[link] == t.item;
    assert After(slots, j + 1, cache, step).1 == t.cache;
    AfterKeepsEntries(slots, j + 1, |slots|, cache, step);
  }

  /** With distinct links the cache keeps its entries and gains each
      successfully detailed item under its link, and nothing else. */
  lemma AfterCacheDistinct(slots: seq<Slot>, cache: map<string, Item>, fetch: Fetcher, render: string -> string)
    requires AllDefined(slots) && DistinctLinks(slots)
    ensures var after := After(slots, |slots|, cache, StepOf(fetch, render));
      (forall k :: k in cache ==> k in after.1 && after.1[k] == cache[k]) &&
      (forall j :: 0 <= j < |slots| && slots[j].stub.link !in cache && Escalate(slots[j].stub.link, fetch).0.Ok? ==>
         slots[j].stub.link in after.1 && after.1[slots[j].stub.link] == after.0[j]) &&
      (forall k :: k in after.1 && k !in cache ==>
         exists j :: 0 <= j < |slots| && slots[j].stub.link == k && Escalate(k, fetch).0.Ok?)
  {
    var step := StepOf(fetch, render);
    StepOfSound(fetch, render);
    assert After(slots, 0, cache, step).1 == cache;
    AfterKeepsEntries(slots, 0, |slots|, cache, step);
    AfterNewKeysFetched(slots, |slots|, cache, fetch, render);
    forall j | 0 <= j < |slots| && slots[j].stub.link !in cache && Escalate(slots[j].stub.link, fetch).0.Ok?
      ensures var after := After(slots, |slots|, cache, step);
        slots[j].stub.link in after.1 && after.1[slots[j].stub.link] == after.0[j]
    {
      AfterStoresMiss(slots, j, cache, fetch, render);
    }
  }

  /** Order preservation in closed form: when no two stubs share a link,
      item `j` is what stub `j` alone would become against the starting
      cache, and the trace is, stub by stub in index order, nothing for a
      hit and the 500 ms pause plus the escalating fetch for a miss. */
  lemma DistinctStubsClosedForm(slots: seq<Slot>, cache: map<string, Item>, fetch: Fetcher, render: string -> string)
    requires AllDefined(slots) && DistinctLinks(slots)
    ensures var r := ProcessItemsSequentially(slots, 0, [], cache, [], fetch, render);
      r == Ok(After(slots, |slots|, cache, StepOf(fetch, render))) &&
      |r.value.0| == |slots| &&
      (forall j :: 0 <= j < |slots| ==> r.value.0[j] == ExpectedItem(slots[j].stub, cache, fetch, render)) &&
      r.value.2 == ExpectedTrace(slots, |slots|, cache, fetch)
  {
    var n := |slots|;
    var step := StepOf(fetch, render);
    ProcessItemsSequentiallyInOrder(slots, cache, fetch, render);
    forall j | 0 <= j < n
      ensures After(slots, n, cache, step).0[j] == ExpectedItem(slots[j].stub, cache, fetch, render)
    {
      AfterItem(slots, n, j, cache, step);
      AfterItemDistinct(slots, j, cache, fetch, render);
    }
    AfterTraceDistinct(slots, n, cache, fetch, render);
  }

  // ---------------------------------------------------------------------
  // The handler
  // ---------------------------------------------------------------------

  datatype Feed = Feed(title: string, link: string, items: seq<Item>)

  /** The whole route: the listing fetch, the stubs, the sequential
      enrichment and the feed. */
  function Handler(category: Option<string>, filter: Option<string>, limitQuery: Option<string>,
                   parseInt: string -> Number, fetchListing: string -> Result<seq<Row>, FetchError>,
                   fetch: Fetcher, render: string -> string, cache: map<string, Item>)
    : (r: Result<(Feed, map<string, Item>, seq<Event>), Failure>)
  {
    match fetchListing(ListingUrlOf(category, filter))
    case Err(e) => Err(Failure(ListingFailed(e), cache, []))
    case Ok(rows) =>
      var stubs := Stubs(rows, Limit(limitQuery, parseInt));
      match ProcessItemsSequentially(stubs, 0, [], cache, [], fetch, render)
      case Err(e) => Err(e)
      case Ok((items, cache', events)) => Ok((Feed(FeedTitle, RootUrl, items), cache', events))
  }

  /** Every item carries its stub's link, and the cache stays keyed by
      link. */
  lemma {:induction false} AfterLinks(slots: seq<Slot>, n: nat, cache: map<string, Item>, step: StepFn)
    requires CacheKeyed(cache) && AllDefined(slots) && n <= |slots| && KeepsLinks(step)
    ensures CacheKeyed(After(slots, n, cache, step).1)
    ensures forall j :: 0 <= j < n ==> After(slots, n, cache, step).0[j].link == slots[j].stub.link
    decreases n
  {
    if n > 0 {
      AfterLinks(slots, n - 1, cache, step);
    }
  }

  /** The sequential processing of the listing's stubs: it fails exactly on
      a kept row without a link; otherwise there is one stub per kept row,
      the result is the front-to-back state `After` over them (so
      ProcessItemsSequentiallyInOrder and DistinctStubsClosedForm describe
      each item), and item `j` carries row `j`'s link. */
  lemma ProcessRows(rows: seq<Row>, limit: Number, cache: map<string, Item>, fetch: Fetcher, render: string -> string)
    requires CacheKeyed(cache)
    ensures var kept := SliceEnd(|rows|, limit);
      var stubs := Stubs(rows, limit);
      var p := ProcessItemsSequentially(stubs, 0, [], cache, [], fetch, render);
      (p.Err? <==> exists j :: 0 <= j < kept && RowToSlot(rows[j]) == Null) &&
      (p.Ok? ==>
        AllDefined(stubs) && |stubs| == kept &&
        p.value == After(stubs, kept, cache, StepOf(fetch, render)) &&
        (forall j :: 0 <= j < kept ==>
           stubs[j] == RowToSlot(rows[j]) && p.value.0[j].link == AbsoluteLink(rows[j].href.value)))
  {
    var stubs := Stubs(rows, limit);
    ProcessRowsFails(rows, limit, cache, fetch, render);
    if AllDefined(stubs) {
      StubsOfRows(rows, limit);
      ProcessItemsSequentiallyInOrder(stubs, cache, fetch, render);
      StepOfSound(fetch, render);
      AfterLinks(stubs, |stubs|, cache, StepOf(fetch, render));
    }
  }

  /** The run fails exactly on a kept row without a link, and succeeds
      exactly when every stub is an object. */
  lemma ProcessRowsFails(rows: seq<Row>, limit: Number, cache: map<string, Item>, fetch: Fetcher, render: string -> string)
    requires CacheKeyed(cache)
    ensures var p := ProcessItemsSequentially(Stubs(rows, limit), 0, [], cache, [], fetch, render);
      (p.Err? <==> exists j :: 0 <= j < SliceEnd(|rows|, limit) && RowToSlot(rows[j]) == Null) &&
      (p.Ok? <==> AllDefined(Stubs(rows, limit)))
  {
    var stubs := Stubs(rows, limit);
    StubsOfRows(rows, limit);
    ProcessItemsSequentiallySound(stubs, 0, [], cache, [], fetch, render);
  }

  /** The feed is the sequential processing of the listing's stubs (see
      ProcessRows) under the fixed title and root link; the handler fails
      when the listing fetch fails, with the cache untouched, or when a
      kept row has no link, with what the sequential run had stored and
      done by then (see ProcessItemsSequentiallyFails). */
  lemma HandlerSound(category: Option<string>, filter: Option<string>, limitQuery: Option<string>,
                     parseInt: string -> Number, fetchListing: string -> Result<seq<Row>, FetchError>,
                     fetch: Fetcher, render: string -> string, cache: map<string, Item>)
    requires CacheKeyed(cache)
    ensures var r := Handler(category, filter, limitQuery, parseInt, fetchListing, fetch, render, cache);
      var listing := fetchListing(ListingUrlOf(category, filter));
      (listing.Err? ==> r == Err(Failure(ListingFailed(listing.error), cache, []))) &&
      (listing.Ok? ==>
        var limit := Limit(limitQuery, parseInt);
        var p := ProcessItemsSequentially(Stubs(listing.value, limit), 0, [], cache, [], fetch, render);
        (r.Err? <==> exists j :: 0 <= j < SliceEnd(|listing.value|, limit) && RowToSlot(listing.value[j]) == Null) &&
        (r.Err? ==> p.Err? && r.error == p.error) &&
        (r.Ok? ==> p.Ok? && r.value == (Feed(FeedTitle, RootUrl, p.value.0), p.value.1, p.value.2)))
  {
    var listing := fetchListing(ListingUrlOf(category, filter));
    if listing.Ok? {
      ProcessRows(listing.value, Limit(limitQuery, parseInt), cache, fetch, render);
    }
  }
}
