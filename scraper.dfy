/**
  * The Library of Congress subject-heading search client (`LCSHScraper`): its rate limiter, the
  * search URL it requests, and the walk over the parsed result listing that turns each result
  * group into a `{term, id, url}` record.
  *
  * The clock, `time.sleep`, the HTTP client and `urllib.parse.quote` are not modelled: the two
  * clock readings are parameters, the sleep is returned as a duration, the GET is a function from
  * URL to response, and the percent-encoder is a function parameter.
  */
module Scraper {
  import opened Wrappers
  import opened PyStr

  /** Origin that root-relative links of the result listing are resolved against. */
  const Origin: string := "https://id.loc.gov"

  /** The search-URL template's text before and after its `{keyword}` field. */
  const SearchPrefix: string := "https://id.loc.gov/search/?q="
  const SearchSuffix: string := "&q=cs:http://id.loc.gov/authorities/subjects"

  /**
    * The search-URL template,
    * `https://id.loc.gov/search/?q={keyword}&q=cs:http://id.loc.gov/authorities/subjects`.
    */
  const BaseUrl: string := SearchPrefix + KeywordField + SearchSuffix

  /** `base_url.format(keyword=encoded_query)`. */
  function SearchUrl(encodedQuery: string): (url: string)
    ensures url == SearchPrefix + encodedQuery + SearchSuffix
  {
    assert '{' !in SearchPrefix && '{' !in SearchSuffix;
    FormatSingleField(SearchPrefix, SearchSuffix, encodedQuery);
    FormatKeyword(BaseUrl, encodedQuery)
  }

  // ---------------------------------------------------------------------------------------
  // Rate limiting
  // ---------------------------------------------------------------------------------------

  /** How long `_wait_for_rate_limit` sleeps when the clock reads `now`. */
  function SleepDuration(lastRequestTime: real, minInterval: real, now: real): (d: real)
    ensures d >= 0.0
    ensures d > 0.0 <==> now - lastRequestTime < minInterval
    ensures now + d >= lastRequestTime + minInterval
    ensures d > 0.0 ==> now + d == lastRequestTime + minInterval
  {
    var sinceLast := now - lastRequestTime;
    if sinceLast < minInterval then minInterval - sinceLast else 0.0
  }

  /** The two clock readings of one pass through the limiter: before the decision and after the sleep. */
  datatype Pass = Pass(now: real, resumed: real)

  /** The clearance time before pass `k`: the initial timestamp, or the previous pass's. */
  function PreviousClearance(initial: real, passes: seq<Pass>, k: nat): real
    requires k <= |passes|
  {
    if k == 0 then initial else passes[k - 1].resumed
  }

  /** Every pass resumes no earlier than its sleep ends, measured on the same clock. */
  predicate SleepsHonoured(initial: real, minInterval: real, passes: seq<Pass>) {
    forall k | 0 <= k < |passes| ::
      passes[k].resumed >= passes[k].now + SleepDuration(PreviousClearance(initial, passes, k), minInterval, passes[k].now)
  }

  /**
    * Successive clearances of one limiter are at least `minInterval` apart (the first one at least
    * `minInterval` after the initial timestamp), so any two are separated by that many intervals.
    */
  lemma {:induction false} ClearancesSpaced(initial: real, minInterval: real, passes: seq<Pass>)
    requires SleepsHonoured(initial, minInterval, passes)
    ensures forall k | 0 <= k < |passes| :: passes[k].resumed >= PreviousClearance(initial, passes, k) + minInterval
    ensures forall i, j | 0 <= i <= j < |passes| :: passes[j].resumed - passes[i].resumed >= (j - i) as real * minInterval
  {
    forall k | 0 <= k < |passes| ensures passes[k].resumed >= PreviousClearance(initial, passes, k) + minInterval {
      var previous := PreviousClearance(initial, passes, k);
      assert passes[k].now + SleepDuration(previous, minInterval, passes[k].now) >= previous + minInterval;
    }
    forall i, j | 0 <= i <= j < |passes| ensures passes[j].resumed - passes[i].resumed >= (j - i) as real * minInterval {
      SpacedFrom(initial, minInterval, passes, i, j);
    }
  }

  lemma {:induction false} SpacedFrom(initial: real, minInterval: real, passes: seq<Pass>, i: nat, j: nat)
    requires i <= j < |passes|
    requires forall k | 0 <= k < |passes| :: passes[k].resumed >= PreviousClearance(initial, passes, k) + minInterval
    ensures passes[j].resumed - passes[i].resumed >= (j - i) as real * minInterval
    decreases j - i
  {
    if i < j {
      SpacedFrom(initial, minInterval, passes, i, j - 1);
      assert passes[j].resumed >= passes[j - 1].resumed + minInterval;
      assert (j - i) as real * minInterval == (j - 1 - i) as real * minInterval + minInterval;
    }
  }

  // ---------------------------------------------------------------------------------------
  // The parsed result listing
  // ---------------------------------------------------------------------------------------

  /** An `<a>` element: its text and its `href` attribute, if any. */
  datatype Anchor = Anchor(text: string, href: Option<string>)

  /** A `<td>` cell: its text and the first `<a>` inside it, if any. */
  datatype Cell = Cell(text: string, link: Option<Anchor>)

  /** A `tbody-group` result group: the `<td>` cells of its first `<tr>`, if it has one. */
  datatype Entry = Entry(firstRow: Option<seq<Cell>>)

  /** A parsed response body: the result groups of its `id-std` table, if it has one. */
  datatype Page = Page(resultsTable: Option<seq<Entry>>)

  /** What the GET produced: a transport failure, or a reply with its status code and parsed body. */
  datatype Response = TransportFailure | Reply(status: int, body: Page)

  /** A subject heading found by a search. */
  datatype Record = Record(term: string, id: string, url: string)

  /** The dictionary the source appends for a record. */
  function AsDict(r: Record): (d: map<string, string>)
    ensures d.Keys == {"term", "id", "url"}
    ensures d["term"] == r.term && d["id"] == r.id && d["url"] == r.url
  {
    map["term" := r.term, "id" := r.id, "url" := r.url]
  }

  /** A record as the source emits it: non-empty, whitespace-stripped term and id. */
  predicate WellFormed(r: Record) {
    r.term != "" && r.id != "" && IsStripped(r.term) && IsStripped(r.id)
  }

  /** `raise_for_status()` passes exactly the 2xx codes. */
  predicate IsSuccess(status: int) {
    200 <= status <= 299
  }

  /** The link of a result, resolved against `Origin` when it is a root-relative path. */
  function AbsoluteUrl(href: string): (url: string)
    ensures |href| <= |url| && url[|url| - |href|..] == href
    ensures StartsWithSlash(href) ==> url == Origin + href
    ensures !StartsWithSlash(href) ==> url == href
    ensures !StartsWithSlash(url)
  {
    if StartsWithSlash(href) then Origin + href else href
  }

  /** What one iteration of the entries loop does. */
  datatype Step = Emit(record: Record) | Skip | IndexError

  /** The group has a row, and that row has fewer than two cells. */
  predicate ShortRow(entry: Entry) {
    entry.firstRow.Some? && |entry.firstRow.value| < 2
  }

  /** The group's row has a second cell and that cell holds an anchor. */
  predicate HasLink(entry: Entry) {
    entry.firstRow.Some? && |entry.firstRow.value| >= 2 && entry.firstRow.value[1].link.Some?
  }

  /** One result group: its record, a silent skip, or the `IndexError` of a row with under two cells. */
  function Visit(entry: Entry): (step: Step)
    ensures step.IndexError? <==> ShortRow(entry)
    ensures step.Emit? ==> WellFormed(step.record) && !StartsWithSlash(step.record.url)
  {
    match entry.firstRow
    case None => Skip
    case Some(cells) =>
      if |cells| < 2 then IndexError
      else match cells[1].link
        case None => Skip
        case Some(link) =>
          var term := Strip(link.text);
          var href := link.href.GetOr("");
          var id := Strip(cells[|cells| - 1].text);
          if term != "" && id != "" then Emit(Record(term, id, AbsoluteUrl(href))) else Skip
  }

  /**
    * Which groups yield a record: a group is skipped exactly when it has no row, its second cell
    * has no anchor, or the anchor's text or the last cell's text is all whitespace; otherwise its
    * record's term and id are those texts stripped, and its url is the anchor's resolved href.
    */
  lemma VisitOutcome(entry: Entry)
    ensures Visit(entry).Skip? <==>
      (entry.firstRow.None?
       || (|entry.firstRow.value| >= 2
           && (entry.firstRow.value[1].link.None?
               || AllSpace(entry.firstRow.value[1].link.value.text)
               || AllSpace(entry.firstRow.value[|entry.firstRow.value| - 1].text))))
    ensures Visit(entry).Emit? <==>
      (HasLink(entry)
       && !AllSpace(entry.firstRow.value[1].link.value.text)
       && !AllSpace(entry.firstRow.value[|entry.firstRow.value| - 1].text))
    ensures Visit(entry).Emit? ==>
      var cells := entry.firstRow.value;
      var anchor := cells[1].link.value;
      && Visit(entry).record.term == Strip(anchor.text)
      && Visit(entry).record.id == Strip(cells[|cells| - 1].text)
      && Visit(entry).record.url == AbsoluteUrl(anchor.href.GetOr(""))
  {
  }

  /**
    * The records of the entries loop: one per emitting group, in document order, up to the first
    * group whose row raises, where the catch-all ends the loop.
    */
  function Walk(entries: seq<Entry>): (records: seq<Record>)
    ensures |records| <= |entries|
    ensures forall r | r in records :: WellFormed(r)
  {
    if entries == [] then []
    else match Visit(entries[0])
      case IndexError => []
      case Skip => Walk(entries[1..])
      case Emit(r) => [r] + Walk(entries[1..])
  }

  /** Every record of the walk is the record some group emits. */
  lemma {:induction false} WalkEmitted(entries: seq<Entry>)
    ensures forall r | r in Walk(entries) :: exists k | 0 <= k < |entries| :: Visit(entries[k]) == Emit(r)
    decreases |entries|
  {
    if entries != [] {
      WalkEmitted(entries[1..]);
      EmittedInTail(Visit, entries, Walk(entries[1..]));
      WalkCons(entries);
    }
  }

  /** A record some group of `entries[1..]` emits is one that some group of `entries` emits. */
  lemma EmittedInTail(visit: Entry -> Step, entries: seq<Entry>, rest: seq<Record>)
    requires entries != []
    requires forall r | r in rest :: exists j | 0 <= j < |entries[1..]| :: visit(entries[1..][j]) == Emit(r)
    ensures forall r | r in rest :: exists k | 0 <= k < |entries| :: visit(entries[k]) == Emit(r)
  {
    forall r | r in rest ensures exists k | 0 <= k < |entries| :: visit(entries[k]) == Emit(r) {
      var j :| 0 <= j < |entries[1..]| && visit(entries[1..][j]) == Emit(r);
      assert entries[j + 1] == entries[1..][j];
    }
  }

  /** Some group among `entries` raises `IndexError`. */
  predicate Aborts(entries: seq<Entry>) {
    exists k | 0 <= k < |entries| :: Visit(entries[k]).IndexError?
  }

  /** The walk is compositional: later groups contribute after earlier ones, unless an earlier one raised. */
  lemma {:induction false} WalkAppend(a: seq<Entry>, b: seq<Entry>)
    ensures Walk(a + b) == if Aborts(a) then Walk(a) else Walk(a) + Walk(b)
    decreases |a|
  {
    if a == [] {
      assert a + b == b;
    } else {
      var ab := a + b;
      assert ab[0] == a[0] && ab[1..] == a[1..] + b;
      WalkAppend(a[1..], b);
      AbortsCons(a);
      WalkCons(ab);
      WalkCons(a);
      var v := Visit(a[0]);
      if v.Emit? {
        ConcatAssoc([v.record], Walk(a[1..]), Walk(b));
      }
    }
  }

  /** The first step of the walk. */
  lemma WalkCons(entries: seq<Entry>)
    requires entries != []
    ensures Walk(entries) == match Visit(entries[0])
      case IndexError => []
      case Skip => Walk(entries[1..])
      case Emit(r) => [r] + Walk(entries[1..])
  {
  }

  lemma {:induction false} AbortsCons(a: seq<Entry>)
    requires a != []
    ensures Aborts(a) <==> Visit(a[0]).IndexError? || Aborts(a[1..])
  {
    if Aborts(a) && !Visit(a[0]).IndexError? {
      var k :| 0 <= k < |a| && Visit(a[k]).IndexError?;
      assert a[1..][k - 1] == a[k];
    }
    if Aborts(a[1..]) {
      var k :| 0 <= k < |a[1..]| && Visit(a[1..][k]).IndexError?;
      assert a[k + 1] == a[1..][k];
    }
  }

  /** A group whose row raises ends the walk: the records collected before it are the result. */
  lemma WalkStopsAt(entries: seq<Entry>, k: nat)
    requires k < |entries| && Visit(entries[k]).IndexError?
    ensures Walk(entries) == Walk(entries[..k])
  {
    assert entries == entries[..k] + entries[k..];
    WalkAppend(entries[..k], entries[k..]);
    assert entries[k..][0] == entries[k];
  }

  /** One step of the walk, seen from position `k`. */
  lemma WalkUnfold(entries: seq<Entry>, k: nat)
    requires k < |entries|
    ensures Walk(entries[k..]) == match Visit(entries[k])
      case IndexError => []
      case Skip => Walk(entries[k + 1..])
      case Emit(r) => [r] + Walk(entries[k + 1..])
  {
    assert entries[k..][0] == entries[k] && entries[k..][1..] == entries[k + 1..];
  }

  lemma ConcatAssoc<T>(a: seq<T>, b: seq<T>, c: seq<T>)
    ensures (a + b) + c == a + (b + c)
  {
  }

  /** The records a response yields: none unless the GET succeeded with a 2xx reply holding an `id-std` table. */
  function Harvest(response: Response): (records: seq<Record>)
    ensures !(response.Reply? && IsSuccess(response.status)) ==> records == []
    ensures response.Reply? && response.body.resultsTable.None? ==> records == []
    ensures forall r | r in records :: WellFormed(r)
  {
    if response.Reply? && IsSuccess(response.status) && response.body.resultsTable.Some? then
      Walk(response.body.resultsTable.value)
    else []
  }

  // ---------------------------------------------------------------------------------------
  // The client
  // ---------------------------------------------------------------------------------------

  class LcshScraper {
    const baseUrl: string := BaseUrl
    const minRequestInterval: real := 1.0
    var lastRequestTime: real

    constructor ()
      ensures lastRequestTime == 0.0
    {
      lastRequestTime := 0.0;
    }

    /**
      * Sleeps for the shortfall when the previous clearance is under `minRequestInterval` ago, then
      * records the clock reading taken after the sleep as the new clearance.
      */
    method WaitForRateLimit(now: real, resumed: real) returns (sleep: real)
      modifies this
      ensures sleep == SleepDuration(old(lastRequestTime), minRequestInterval, now)
      ensures lastRequestTime == resumed
    {
      var sinceLast := now - lastRequestTime;
      sleep := 0.0;
      if sinceLast < minRequestInterval {
        sleep := minRequestInterval - sinceLast;
      }
      lastRequestTime := resumed;
    }

    /**
      * One search: passes the limiter once, requests the search URL for the encoded query, and
      * returns what the response yields; never fails. `maxPages` is accepted and ignored.
      */
    method SearchTerms(query: string, maxPages: int, quote: string -> string, now: real, resumed: real,
                       get: string -> Response)
      returns (results: seq<Record>, sleep: real)
      modifies this
      ensures sleep == SleepDuration(old(lastRequestTime), minRequestInterval, now)
      ensures lastRequestTime == resumed
      ensures results == Harvest(get(SearchUrl(quote(query))))
    {
      results := [];
      var encodedQuery := quote(query);
      var searchUrl := FormatKeyword(baseUrl, encodedQuery);
      assert searchUrl == SearchUrl(encodedQuery);
      sleep := WaitForRateLimit(now, resumed);
      var response := get(searchUrl);
      if response.Reply? && IsSuccess(response.status) && response.body.resultsTable.Some? {
        var entries := response.body.resultsTable.value;
        var k := 0;
        while k < |entries|
          invariant 0 <= k <= |entries|
          invariant results + Walk(entries[k..]) == Walk(entries)
          invariant sleep == SleepDuration(old(lastRequestTime), minRequestInterval, now) && lastRequestTime == resumed
        {
          var step := Visit(entries[k]);
          WalkUnfold(entries, k);
          if step.IndexError? {
            // The catch-all handler ends the loop with the records appended so far.
            break;
          }
          if step.Emit? {
            ConcatAssoc(results, [step.record], Walk(entries[k + 1..]));
            results := results + [step.record];
          }
          k := k + 1;
        }
        assert k == |entries| ==> entries[k..] == [];
      }
    }
  }
}
