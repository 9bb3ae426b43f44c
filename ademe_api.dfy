/** Collection of DPE records from the ADEME data-fair API, one postal code
    at a time (`call_API` and `rafraichir_donnees` in models/contexte.py).

    The network is replaced by a server: a total function from a first-page
    request to its response. A response carries an HTTP status and, for a
    status of 200, the chain of pages the `next` links lead through: every
    page but the last carries a `next` link, and following the link of page
    i yields page i + 1. */
module AdemeApi {
  import opened Optional
  import opened Tables

  /** Page size asked for, and the `total` above which further pages are fetched. */
  const PageSize: int := 10_000
  const PostalCodeField: string := "Code_postal_(BAN)"
  const DateField: string := "Date_réception_DPE"

  /** The two datasets: existing dwellings and new dwellings. */
  datatype Endpoint = ExistingDwellings | NewDwellings

  function BaseUrl(e: Endpoint): string {
    match e
    case ExistingDwellings => "https://data.ademe.fr/data-fair/api/v1/datasets/dpe-v2-logements-existants/lines"
    case NewDwellings => "https://data.ademe.fr/data-fair/api/v1/datasets/dpe-v2-logements-neufs/lines"
  }

  // ---------------------------------------------------------------------
  // Date predicates of the two ingestion modes
  // ---------------------------------------------------------------------

  datatype Day = Day(year: nat, month: nat, day: nat)

  /** Calendar order on days (lexicographic on year, month, day). */
  predicate NotAfter(a: Day, b: Day) {
    a.year < b.year
    || (a.year == b.year && (a.month < b.month || (a.month == b.month && a.day <= b.day)))
  }

  /** A range bound; `*` leaves that side open. */
  datatype Bound = Star | On(date: Day)

  /** `field:[lower TO upper]`, both bounds inclusive. */
  datatype DateRange = DateRange(lower: Bound, upper: Bound)

  predicate Covers(r: DateRange, d: Day) {
    (r.lower.Star? || NotAfter(r.lower.date, d)) && (r.upper.Star? || NotAfter(d, r.upper.date))
  }

  /** `call_API` loads everything received up to a cutoff; `rafraichir_donnees`
      fetches what was received from a later day on. */
  datatype Mode = FullLoad | Refresh

  const FullLoadCutoff: Day := Day(2023, 9, 1)
  const RefreshStart: Day := Day(2024, 9, 2)

  function Range(m: Mode): DateRange {
    match m
    case FullLoad => DateRange(Star, On(FullLoadCutoff))
    case Refresh => DateRange(On(RefreshStart), Star)
  }

  /** The full-load range is everything up to its cutoff, the refresh range
      everything from its start on; no day is in both, and every day strictly
      between the two bounds is in neither. */
  lemma RangesDisjointWithGap(d: Day)
    ensures Covers(Range(FullLoad), d) <==> NotAfter(d, FullLoadCutoff)
    ensures Covers(Range(Refresh), d) <==> NotAfter(RefreshStart, d)
    ensures !(Covers(Range(FullLoad), d) && Covers(Range(Refresh), d))
    ensures !NotAfter(d, FullLoadCutoff) && !NotAfter(RefreshStart, d) ==>
      !Covers(Range(FullLoad), d) && !Covers(Range(Refresh), d)
  {
  }

  /** The gap is not empty: 2024-01-01 is fetched by neither mode. */
  lemma GapIsInhabited()
    ensures !Covers(Range(FullLoad), Day(2024, 1, 1)) && !Covers(Range(Refresh), Day(2024, 1, 1))
  {
  }

  function Digit(n: nat): char {
    ('0' as int + n % 10) as char
  }

  function DayText(d: Day): string {
    [Digit(d.year / 1000), Digit(d.year / 100), Digit(d.year / 10), Digit(d.year), '-',
     Digit(d.month / 10), Digit(d.month), '-', Digit(d.day / 10), Digit(d.day)]
  }

  function BoundText(b: Bound): string {
    match b
    case Star => "*"
    case On(d) => DayText(d)
  }

  /** The `qs` query parameter that carries a date range. */
  function RangeFilter(r: DateRange): string {
    DateField + ":[" + BoundText(r.lower) + " TO " + BoundText(r.upper) + "]"
  }

  lemma CutoffTexts()
    ensures DayText(FullLoadCutoff) == "2023-09-01"
    ensures DayText(RefreshStart) == "2024-09-02"
  {
  }

  /** The two ranges render as the source's two literal `qs` strings. */
  lemma FilterTexts()
    ensures RangeFilter(Range(FullLoad)) == "Date_réception_DPE:[* TO 2023-09-01]"
    ensures RangeFilter(Range(Refresh)) == "Date_réception_DPE:[2024-09-02 TO *]"
  {
    CutoffTexts();
    FullLoadFilterText();
    RefreshFilterText();
  }

  lemma FullLoadFilterText()
    requires DayText(FullLoadCutoff) == "2023-09-01"
    ensures RangeFilter(Range(FullLoad)) == "Date_réception_DPE:[* TO 2023-09-01]"
  {
  }

  lemma RefreshFilterText()
    requires DayText(RefreshStart) == "2024-09-02"
    ensures RangeFilter(Range(Refresh)) == "Date_réception_DPE:[2024-09-02 TO *]"
  {
  }

  // ---------------------------------------------------------------------
  // Requests and responses
  // ---------------------------------------------------------------------

  /** The parameters of the first-page GET for one postal code; the URL is
      BaseUrl(endpoint). */
  datatype Request = Request(endpoint: Endpoint, page: int, size: int, q: int, qFields: string, qs: DateRange)

  /** A call the collector issues: a first-page request, or a GET on a `next` link. */
  datatype Call = Get(request: Request) | Follow(link: string)

  function FirstRequest(e: Endpoint, m: Mode, code: int): Request {
    Request(e, 1, PageSize, code, PostalCodeField, Range(m))
  }

  /** One decoded JSON page: `results`, `total` and the optional `next` link. */
  datatype Content = Content(results: seq<Record>, total: int, next: Option<string>)

  datatype Response = Response(status: int, pages: seq<Content>)

  /** A finite chain: exactly the pages before the last carry `next`. */
  predicate Chain(pages: seq<Content>) {
    |pages| > 0 && forall i :: 0 <= i < |pages| ==> (pages[i].next.Some? <==> i < |pages| - 1)
  }

  /** What a status-200 response must look like for the source not to fail:
      a chain of pages, and a `next` key on the first page whenever `total`
      exceeds the page size (the source reads it without checking). */
  predicate WellFormed(resp: Response) {
    resp.status == 200 ==>
      Chain(resp.pages) && (resp.pages[0].total > PageSize ==> resp.pages[0].next.Some?)
  }

  type Server = Request -> Response

  /** The first-page requests for `codes`, in order. */
  function Requests(e: Endpoint, m: Mode, codes: seq<int>): (reqs: seq<Request>)
    ensures |reqs| == |codes|
    ensures forall i :: 0 <= i < |codes| ==> reqs[i] == FirstRequest(e, m, codes[i])
  {
    seq(|codes|, i requires 0 <= i < |codes| => FirstRequest(e, m, codes[i]))
  }

  /** The server's answers to `reqs`, in order. */
  function Answers(server: Server, reqs: seq<Request>): (rs: seq<Response>)
    ensures |rs| == |reqs|
    ensures forall i :: 0 <= i < |reqs| ==> rs[i] == server(reqs[i])
  {
    seq(|reqs|, i requires 0 <= i < |reqs| => server(reqs[i]))
  }

  predicate AllWellFormed(rs: seq<Response>) {
    forall i :: 0 <= i < |rs| ==> WellFormed(rs[i])
  }

  // ---------------------------------------------------------------------
  // What one partition contributes
  // ---------------------------------------------------------------------

  /** Records met when following `next` links from page `i` until a page
      has none. */
  function Walk(pages: seq<Content>, i: nat): seq<Record>
    requires Chain(pages) && i < |pages|
    decreases |pages| - i
  {
    pages[i].results + if pages[i].next.Some? then Walk(pages, i + 1) else []
  }

  /** The results of every page, in page order. */
  function Flatten(pages: seq<Content>): seq<Record> {
    if pages == [] then [] else Flatten(pages[..|pages| - 1]) + pages[|pages| - 1].results
  }

  /** The records one postal code adds to the accumulator: nothing on a
      failure; the first page; and, only when `total` exceeds the page size,
      the pages reached by following `next`. */
  function Contribution(resp: Response): seq<Record>
    requires WellFormed(resp)
  {
    if resp.status != 200 then []
    else if resp.pages[0].total > PageSize then resp.pages[0].results + Walk(resp.pages, 1)
    else resp.pages[0].results
  }

  /** The `next` links followed, in order, when walking the whole chain. */
  function Follows(pages: seq<Content>): seq<Call> {
    if pages == [] then []
    else
      var last := pages[|pages| - 1];
      Follows(pages[..|pages| - 1]) + if last.next.Some? then [Follow(last.next.value)] else []
  }

  function PartitionCalls(req: Request, resp: Response): seq<Call>
    requires WellFormed(resp)
  {
    [Get(req)] + if resp.status == 200 && resp.pages[0].total > PageSize then Follows(resp.pages) else []
  }

  /** The message category the source writes for a status other than 200. */
  datatype Kind =
    | NoData(mode: Mode)      // 204; the refresh text says "no new data"
    | NotFound                // 404
    | AccessDenied            // 403
    | InternalError           // 500
    | Unavailable             // 503
    | RequestFailed(status: int)

  datatype Notice = Notice(code: int, kind: Kind)

  function Classify(status: int, m: Mode): (k: Kind)
    requires status != 200
    ensures k == NoData(m) <==> status == 204
    ensures k == NotFound <==> status == 404
    ensures k == AccessDenied <==> status == 403
    ensures k == InternalError <==> status == 500
    ensures k == Unavailable <==> status == 503
    ensures k.RequestFailed? <==> status !in {204, 404, 403, 500, 503}
    ensures k.RequestFailed? ==> k.status == status
    ensures k.NoData? ==> k.mode == m
  {
    if status == 204 then NoData(m)
    else if status == 404 then NotFound
    else if status == 403 then AccessDenied
    else if status == 500 then InternalError
    else if status == 503 then Unavailable
    else RequestFailed(status)
  }

  function PartitionNotices(code: int, m: Mode, resp: Response): seq<Notice> {
    if resp.status == 200 then [] else [Notice(code, Classify(resp.status, m))]
  }

  // ---------------------------------------------------------------------
  // The whole pass over the postal codes
  // ---------------------------------------------------------------------

  /** The records of all postal codes: their contributions, concatenated
      in the order of the answers. */
  function Collected(rs: seq<Response>): seq<Record>
    requires AllWellFormed(rs)
  {
    if rs == [] then []
    else
      var init := rs[..|rs| - 1];
      assert forall i :: 0 <= i < |init| ==> init[i] == rs[i];
      Collected(init) + Contribution(rs[|rs| - 1])
  }

  function Notices(codes: seq<int>, rs: seq<Response>, m: Mode): seq<Notice>
    requires |codes| == |rs|
  {
    if codes == [] then []
    else
      var n := |codes| - 1;
      Notices(codes[..n], rs[..n], m) + PartitionNotices(codes[n], m, rs[n])
  }

  function Calls(reqs: seq<Request>, rs: seq<Response>): seq<Call>
    requires |reqs| == |rs| && AllWellFormed(rs)
  {
    if reqs == [] then []
    else
      var n := |reqs| - 1;
      assert forall i :: 0 <= i < n ==> rs[..n][i] == rs[i];
      Calls(reqs[..n], rs[..n]) + PartitionCalls(reqs[n], rs[n])
  }

  // ---------------------------------------------------------------------
  // The partition list: sorted(df["code_postal"].unique().tolist())
  // ---------------------------------------------------------------------

  predicate StrictlyAscending(s: seq<int>) {
    forall i, j :: 0 <= i < j < |s| ==> s[i] < s[j]
  }

  function Insert(s: seq<int>, x: int): (r: seq<int>)
    requires StrictlyAscending(s) && x !in s
    ensures StrictlyAscending(r)
    ensures forall y :: y in r <==> y in s || y == x
  {
    if s == [] then [x]
    else if x < s[0] then [x] + s
    else
      AscendingTail(s);
      var rest := Insert(s[1..], x);
      InsertStep(s, x, rest);
      [s[0]] + rest
  }

  lemma AscendingTail(s: seq<int>)
    requires StrictlyAscending(s) && |s| > 0
    ensures StrictlyAscending(s[1..])
    ensures forall y :: y in s <==> y == s[0] || y in s[1..]
  {
    assert s == [s[0]] + s[1..];
  }

  /** Putting the head back in front of the tail's insertion. */
  lemma InsertStep(s: seq<int>, x: int, rest: seq<int>)
    requires StrictlyAscending(s) && |s| > 0 && x !in s && s[0] < x
    requires StrictlyAscending(rest) && forall y :: y in rest <==> y in s[1..] || y == x
    ensures StrictlyAscending([s[0]] + rest)
    ensures forall y :: y in [s[0]] + rest <==> y in s || y == x
  {
    forall j | 0 <= j < |rest| ensures s[0] < rest[j] {
      assert rest[j] in rest;
      if rest[j] != x {
        var k :| 0 <= k < |s[1..]| && s[1..][k] == rest[j];
        assert s[k + 1] == rest[j];
      }
    }
    var r := [s[0]] + rest;
    assert forall j :: 0 < j < |r| ==> r[j] == rest[j - 1];
    assert s == [s[0]] + s[1..];
  }

  function Sorted(u: seq<int>): (r: seq<int>)
    requires Distinct(u)
    ensures StrictlyAscending(r)
    ensures forall y :: y in r <==> y in u
  {
    if u == [] then []
    else
      var init := u[..|u| - 1];
      assert forall y :: y in init ==> y in u;
      Insert(Sorted(init), u[|u| - 1])
  }

  /** The postal codes of the address file, each once, in ascending order. */
  function PartitionKeys(column: seq<int>): (keys: seq<int>)
    ensures StrictlyAscending(keys)
    ensures forall c :: c in keys <==> c in column
  {
    Sorted(Unique(column))
  }

  // ---------------------------------------------------------------------
  // The collection loop
  // ---------------------------------------------------------------------

  /** The continuation of a large result: follow the first page's `next`
      unconditionally, then keep following while the page just fetched has
      one. Returns the records of the pages fetched and the links followed. */
  method FollowLinks(pages: seq<Content>) returns (results: seq<Record>, calls: seq<Call>)
    requires Chain(pages) && pages[0].next.Some?
    ensures results == Walk(pages, 1)
    ensures calls == Follows(pages)
  {
    calls := [Follow(pages[0].next.value)];
    FollowsStep(pages, 0);
    var i := 1;
    var content := pages[1];
    results := content.results;
    FlattenStep(pages, 1, 1);
    while content.next.Some?
      invariant 1 <= i < |pages|
      invariant content == pages[i]
      invariant results == Flatten(pages[1..i + 1])
      invariant calls == Follows(pages[..i])
      decreases |pages| - i
    {
      FollowsStep(pages, i);
      FlattenStep(pages, 1, i + 1);
      calls := calls + [Follow(content.next.value)];
      i := i + 1;
      content := pages[i];
      results := results + content.results;
    }
    FollowsStep(pages, i);
    assert pages[..i + 1] == pages;
    WalkFlatten(pages, 1);
    assert pages[1..i + 1] == pages[1..];
  }

  /** The body of the loop for one postal code, once the first-page request
      has been answered: the status dispatch. Returns what it appends to the
      records, the notices and the calls. */
  method FetchPostalCode(request: Request, response: Response, m: Mode)
    returns (results: seq<Record>, notices: seq<Notice>, calls: seq<Call>)
    requires WellFormed(response)
    ensures results == Contribution(response)
    ensures notices == PartitionNotices(request.q, m, response)
    ensures calls == PartitionCalls(request, response)
    ensures response.status != 200 ==> results == [] && |notices| == 1 && calls == [Get(request)]
    ensures response.status == 200 ==> notices == []
    ensures response.status == 200 && response.pages[0].total <= PageSize ==>
      results == response.pages[0].results && calls == [Get(request)]
    ensures response.status == 200 && response.pages[0].total > PageSize ==>
      results == Flatten(response.pages) && calls == [Get(request)] + Follows(response.pages)
  {
    ContributionCases(response);
    if response.status == 200 {
      var content := response.pages[0];
      results, notices, calls := content.results, [], [Get(request)];
      if content.total > PageSize {
        var more, followed := FollowLinks(response.pages);
        results := results + more;
        calls := calls + followed;
      }
    } else {
      results, notices, calls := [], [Notice(request.q, Classify(response.status, m))], [Get(request)];
    }
  }

  /** When the server answers every postal code's first request with a
      well-formed response, the whole pass receives well-formed responses. */
  lemma AnswersWellFormed(server: Server, e: Endpoint, m: Mode, postalColumn: seq<int>)
    requires forall i :: 0 <= i < |postalColumn| ==> WellFormed(server(FirstRequest(e, m, postalColumn[i])))
    ensures AllWellFormed(Answers(server, Requests(e, m, PartitionKeys(postalColumn))))
  {
    var codes := PartitionKeys(postalColumn);
    var rs := Answers(server, Requests(e, m, codes));
    forall i | 0 <= i < |rs| ensures WellFormed(rs[i]) {
      assert codes[i] in postalColumn;
    }
  }

  /** `call_API(url)` (mode FullLoad) and `rafraichir_donnees(url)` (mode
      Refresh): for each postal code of the address column, in ascending
      order and once each, what FetchPostalCode appends. */
  method Collect(server: Server, e: Endpoint, m: Mode, postalColumn: seq<int>)
    returns (records: seq<Record>, notices: seq<Notice>, calls: seq<Call>)
    requires forall i :: 0 <= i < |postalColumn| ==> WellFormed(server(FirstRequest(e, m, postalColumn[i])))
    ensures AllWellFormed(Answers(server, Requests(e, m, PartitionKeys(postalColumn))))
    ensures records == Collected(Answers(server, Requests(e, m, PartitionKeys(postalColumn))))
    ensures notices == Notices(PartitionKeys(postalColumn), Answers(server, Requests(e, m, PartitionKeys(postalColumn))), m)
    ensures calls == Calls(Requests(e, m, PartitionKeys(postalColumn)), Answers(server, Requests(e, m, PartitionKeys(postalColumn))))
  {
    var codes := PartitionKeys(postalColumn);
    ghost var reqs := Requests(e, m, codes);
    ghost var rs := Answers(server, reqs);
    AnswersWellFormed(server, e, m, postalColumn);
    records, notices, calls := [], [], [];
    for k := 0 to |codes|
      invariant AllWellFormed(rs[..k])
      invariant records == Collected(rs[..k])
      invariant notices == Notices(codes[..k], rs[..k], m)
      invariant calls == Calls(reqs[..k], rs[..k])
    {
      PassStep(codes, reqs, rs, m, k);
      var request := FirstRequest(e, m, codes[k]);
      var response := server(request);
      var results, partitionNotices, partitionCalls := FetchPostalCode(request, response, m);
      records := records + results;
      notices := notices + partitionNotices;
      calls := calls + partitionCalls;
    }
    WholePrefix(codes);
    WholePrefix(reqs);
    WholePrefix(rs);
  }

  lemma SplitLast<T>(s: seq<T>)
    requires |s| > 0
    ensures s == s[..|s| - 1] + [s[|s| - 1]]
  {
  }

  lemma WholePrefix<T>(s: seq<T>)
    ensures s[..|s|] == s
  {
  }

  /** One more postal code extends each accumulator by its own part. */
  lemma PassStep(codes: seq<int>, reqs: seq<Request>, rs: seq<Response>, m: Mode, k: nat)
    requires |codes| == |reqs| == |rs| && k < |rs| && AllWellFormed(rs)
    ensures AllWellFormed(rs[..k]) && AllWellFormed(rs[..k + 1])
    ensures Collected(rs[..k + 1]) == Collected(rs[..k]) + Contribution(rs[k])
    ensures Notices(codes[..k + 1], rs[..k + 1], m) == Notices(codes[..k], rs[..k], m) + PartitionNotices(codes[k], m, rs[k])
    ensures Calls(reqs[..k + 1], rs[..k + 1]) == Calls(reqs[..k], rs[..k]) + PartitionCalls(reqs[k], rs[k])
  {
    assert rs[..k + 1][..k] == rs[..k];
    assert codes[..k + 1][..k] == codes[..k];
    assert reqs[..k + 1][..k] == reqs[..k];
  }

  // ---------------------------------------------------------------------
  // Properties
  // ---------------------------------------------------------------------

  lemma FollowsStep(pages: seq<Content>, i: nat)
    requires i < |pages|
    ensures Follows(pages[..i + 1]) ==
      Follows(pages[..i]) + if pages[i].next.Some? then [Follow(pages[i].next.value)] else []
  {
    assert pages[..i + 1][..i] == pages[..i];
  }

  lemma FlattenStep(pages: seq<Content>, i: nat, j: nat)
    requires i <= j < |pages|
    ensures Flatten(pages[i..j + 1]) == Flatten(pages[i..j]) + pages[j].results
    ensures i == j ==> Flatten(pages[i..j + 1]) == pages[j].results
  {
    assert pages[i..j + 1][..j - i] == pages[i..j];
  }

  /** Following the links from page `i` visits every later page of the chain
      and stops at the last one, the first without `next`. */
  lemma {:induction false} WalkFlatten(pages: seq<Content>, i: nat)
    requires Chain(pages) && i < |pages|
    ensures Walk(pages, i) == Flatten(pages[i..])
    decreases |pages| - i
  {
    if i < |pages| - 1 {
      WalkFlatten(pages, i + 1);
      FlattenCons(pages[i], pages[i + 1..]);
      assert [pages[i]] + pages[i + 1..] == pages[i..];
    } else {
      assert pages[i..] == [pages[i]];
      assert Flatten([pages[i]]) == Flatten([]) + pages[i].results;
    }
  }

  lemma {:induction false} FlattenCons(p: Content, rest: seq<Content>)
    ensures Flatten([p] + rest) == p.results + Flatten(rest)
  {
    if rest != [] {
      var init := rest[..|rest| - 1];
      FlattenCons(p, init);
      assert ([p] + rest)[..|rest|] == [p] + init;
    } else {
      assert Flatten([p]) == Flatten([]) + p.results;
    }
  }

  /** What one postal code contributes: nothing on a status other than 200;
      exactly the first page when `total` is at most the page size, even if
      that page carries `next`; otherwise every page of the chain, in order. */
  lemma ContributionCases(resp: Response)
    requires WellFormed(resp)
    ensures resp.status != 200 ==> Contribution(resp) == []
    ensures resp.status == 200 && resp.pages[0].total <= PageSize ==>
      Contribution(resp) == resp.pages[0].results
    ensures resp.status == 200 && resp.pages[0].total > PageSize ==>
      Contribution(resp) == Flatten(resp.pages)
  {
    if resp.status == 200 && resp.pages[0].total > PageSize {
      var pages := resp.pages;
      WalkFlatten(pages, 1);
      FlattenCons(pages[0], pages[1..]);
      assert [pages[0]] + pages[1..] == pages;
    }
  }

  /** When the server's `total` counts the chain's records, a large result
      is collected in full. */
  lemma PaginationComplete(resp: Response)
    requires WellFormed(resp) && resp.status == 200 && resp.pages[0].total > PageSize
    requires |Flatten(resp.pages)| == resp.pages[0].total
    ensures |Contribution(resp)| == resp.pages[0].total
  {
    ContributionCases(resp);
  }

  /** A walked chain follows one link per page but the last. */
  lemma FollowsChain(pages: seq<Content>)
    requires Chain(pages)
    ensures |Follows(pages)| == |pages| - 1
    ensures forall i :: 0 <= i < |pages| - 1 ==> Follows(pages)[i] == Follow(pages[i].next.value)
  {
    var n := |pages|;
    FollowsPrefix(pages, n - 1);
    assert pages[..n] == pages;
  }

  lemma {:induction false} FollowsPrefix(pages: seq<Content>, k: nat)
    requires Chain(pages) && k < |pages|
    ensures |Follows(pages[..k])| == k
    ensures forall i :: 0 <= i < k ==> Follows(pages[..k])[i] == Follow(pages[i].next.value)
  {
    if k > 0 {
      FollowsPrefix(pages, k - 1);
      assert pages[..k][..k - 1] == pages[..k - 1];
    }
  }

  /** The pass is compositional: the records of a list of postal codes are
      those of its first part followed by those of the rest. */
  lemma {:induction false} CollectedSplit(a: seq<Response>, b: seq<Response>)
    requires AllWellFormed(a) && AllWellFormed(b)
    ensures AllWellFormed(a + b)
    ensures Collected(a + b) == Collected(a) + Collected(b)
    decreases |b|
  {
    if b != [] {
      var init := b[..|b| - 1];
      assert (a + b)[..|a + b| - 1] == a + init;
      CollectedSplit(a, init);
    } else {
      assert a + b == a;
    }
  }

  /** Failure isolation: when the request for the postal code at position
      `j` fails, that code adds nothing, and every other code contributes
      exactly what it would have if that one were not in the list. */
  lemma FailureIsolation(rs: seq<Response>, failed: Response, j: nat)
    requires AllWellFormed(rs) && j < |rs|
    requires failed.status != 200
    ensures AllWellFormed(rs[j := failed])
    ensures Collected(rs[j := failed]) == Collected(rs[..j]) + Collected(rs[j + 1..])
  {
    UpdateSplit(rs, j, failed);
    SlicesWellFormed(rs, j);
    CollectedAround(rs[..j], failed, rs[j + 1..]);
  }

  lemma CollectedAround(before: seq<Response>, failed: Response, after: seq<Response>)
    requires AllWellFormed(before) && AllWellFormed(after) && failed.status != 200
    ensures AllWellFormed(before + [failed] + after)
    ensures Collected(before + [failed] + after) == Collected(before) + Collected(after)
  {
    CollectedOfFailure(failed);
    CollectedSplit(before, [failed]);
    assert Collected(before + [failed]) == Collected(before) + [];
    CollectedSplit(before + [failed], after);
    assert Collected(before) + [] == Collected(before);
  }

  lemma UpdateSplit<T>(s: seq<T>, j: nat, v: T)
    requires j < |s|
    ensures s[j := v] == s[..j] + [v] + s[j + 1..]
  {
  }

  lemma SlicesWellFormed(rs: seq<Response>, j: nat)
    requires AllWellFormed(rs) && j < |rs|
    ensures AllWellFormed(rs[..j]) && AllWellFormed(rs[j + 1..])
  {
    assert forall i :: 0 <= i < j ==> rs[..j][i] == rs[i];
    assert forall i :: j + 1 <= i < |rs| ==> rs[j + 1..][i - j - 1] == rs[i];
  }

  lemma CollectedOfFailure(failed: Response)
    requires failed.status != 200
    ensures AllWellFormed([failed]) && Collected([failed]) == []
  {
    assert [failed][..0] == [];
  }

  /** Number of notices about postal code `c`. */
  function NoticesAbout(ns: seq<Notice>, c: int): nat {
    if ns == [] then 0
    else NoticesAbout(ns[..|ns| - 1], c) + if ns[|ns| - 1].code == c then 1 else 0
  }

  /** Over a duplicate-free partition list, each postal code whose request
      fails gets exactly one notice, every other code none. */
  lemma {:induction false} OneNoticePerFailure(codes: seq<int>, rs: seq<Response>, m: Mode, c: int)
    requires |codes| == |rs| && StrictlyAscending(codes)
    ensures c !in codes ==> NoticesAbout(Notices(codes, rs, m), c) == 0
    ensures forall i :: 0 <= i < |codes| && codes[i] == c ==>
      NoticesAbout(Notices(codes, rs, m), c) == if rs[i].status != 200 then 1 else 0
  {
    if codes != [] {
      var n := |codes| - 1;
      var init, last := codes[..n], codes[n];
      AscendingPrefix(codes, n);
      OneNoticePerFailure(init, rs[..n], m, c);
      NoticesLast(codes, rs, m);
      NoticesAboutAppend(Notices(init, rs[..n], m), PartitionNotices(last, m, rs[n]), c);
      PartitionNoticesAbout(last, m, rs[n], c);
      CodesSplit(codes, c);
    }
  }

  lemma NoticesLast(codes: seq<int>, rs: seq<Response>, m: Mode)
    requires |codes| == |rs| > 0
    ensures Notices(codes, rs, m) ==
      Notices(codes[..|codes| - 1], rs[..|codes| - 1], m) + PartitionNotices(codes[|codes| - 1], m, rs[|codes| - 1])
  {
  }

  /** One postal code's notices mention `c` once when it is `c` and failed. */
  lemma PartitionNoticesAbout(code: int, m: Mode, resp: Response, c: int)
    ensures NoticesAbout(PartitionNotices(code, m, resp), c) == if code == c && resp.status != 200 then 1 else 0
  {
    if resp.status != 200 {
      assert [Notice(code, Classify(resp.status, m))][..0] == [];
    }
  }

  /** Where `c` sits in a strictly ascending list: nowhere, at the last
      position only, or in the prefix only. */
  lemma CodesSplit(codes: seq<int>, c: int)
    requires StrictlyAscending(codes) && |codes| > 0
    ensures var n := |codes| - 1;
      && (c in codes <==> c in codes[..n] || c == codes[n])
      && (forall i :: 0 <= i < |codes| && codes[i] == c && c == codes[n] ==> i == n)
      && (forall i :: 0 <= i < n && codes[i] == c ==> codes[..n][i] == c && c != codes[n])
  {
    var n := |codes| - 1;
    assert codes == codes[..n] + [codes[n]];
  }

  lemma AscendingPrefix(codes: seq<int>, n: nat)
    requires StrictlyAscending(codes) && n < |codes|
    ensures StrictlyAscending(codes[..n]) && codes[n] !in codes[..n]
  {
    assert forall i :: 0 <= i < n ==> codes[..n][i] == codes[i];
  }

  lemma {:induction false} NoticesAboutAppend(a: seq<Notice>, b: seq<Notice>, c: int)
    requires |b| <= 1
    ensures NoticesAbout(a + b, c) == NoticesAbout(a, c) + NoticesAbout(b, c)
  {
    if b != [] {
      assert (a + b)[..|a + b| - 1] == a;
      assert b[..0] == [];
    } else {
      assert a + b == a;
    }
  }

  /** The first-page requests a call trace holds, in order. */
  function FirstRequests(calls: seq<Call>): seq<Request> {
    if calls == [] then []
    else
      var last := calls[|calls| - 1];
      FirstRequests(calls[..|calls| - 1]) + if last.Get? then [last.request] else []
  }

  lemma {:induction false} FirstRequestsAppend(a: seq<Call>, b: seq<Call>)
    ensures FirstRequests(a + b) == FirstRequests(a) + FirstRequests(b)
    decreases |b|
  {
    if b != [] {
      var init := b[..|b| - 1];
      assert (a + b)[..|a + b| - 1] == a + init;
      FirstRequestsAppend(a, init);
    } else {
      assert a + b == a;
    }
  }

  lemma {:induction false} FollowsHaveNoFirstRequest(pages: seq<Content>)
    ensures FirstRequests(Follows(pages)) == []
  {
    if pages != [] {
      var init := pages[..|pages| - 1];
      FollowsHaveNoFirstRequest(init);
      var last := pages[|pages| - 1];
      FirstRequestsAppend(Follows(init), if last.next.Some? then [Follow(last.next.value)] else []);
    }
  }

  /** The calls for one postal code hold exactly one first-page request. */
  lemma PartitionFirstRequest(req: Request, resp: Response)
    requires WellFormed(resp)
    ensures FirstRequests(PartitionCalls(req, resp)) == [req]
  {
    var tail := if resp.status == 200 && resp.pages[0].total > PageSize then Follows(resp.pages) else [];
    FollowsHaveNoFirstRequest(resp.pages);
    FirstRequestsAppend([Get(req)], tail);
    assert FirstRequests([Get(req)]) == [req] by {
      assert [Get(req)][..0] == [];
    }
  }

  /** The calls of a pass end with those of its last postal code. */
  lemma CallsLast(reqs: seq<Request>, rs: seq<Response>)
    requires |reqs| == |rs| > 0 && AllWellFormed(rs)
    ensures AllWellFormed(rs[..|rs| - 1])
    ensures Calls(reqs, rs) == Calls(reqs[..|rs| - 1], rs[..|rs| - 1]) + PartitionCalls(reqs[|rs| - 1], rs[|rs| - 1])
  {
    var n := |rs| - 1;
    assert forall i :: 0 <= i < n ==> rs[..n][i] == rs[i];
  }

  /** Each postal code gets exactly one first-page request, in the order of
      the partition list; every other call follows a `next` link. */
  lemma {:induction false} OneFirstRequestPerCode(reqs: seq<Request>, rs: seq<Response>)
    requires |reqs| == |rs| && AllWellFormed(rs)
    ensures FirstRequests(Calls(reqs, rs)) == reqs
  {
    if reqs != [] {
      var n := |reqs| - 1;
      var init := rs[..n];
      CallsLast(reqs, rs);
      OneFirstRequestPerCode(reqs[..n], init);
      FirstRequestsAppend(Calls(reqs[..n], init), PartitionCalls(reqs[n], rs[n]));
      PartitionFirstRequest(reqs[n], rs[n]);
      SplitLast(reqs);
    }
  }

  /** The requests the pass issues: one per postal code, each asking for
      page 1 of the page size, filtered on the postal-code field and on the
      mode's date range. */
  lemma FirstRequestsOfPass(server: Server, e: Endpoint, m: Mode, codes: seq<int>)
    requires AllWellFormed(Answers(server, Requests(e, m, codes)))
    ensures var sent := FirstRequests(Calls(Requests(e, m, codes), Answers(server, Requests(e, m, codes))));
      |sent| == |codes| &&
      forall i :: 0 <= i < |codes| ==>
        sent[i] == Request(e, 1, PageSize, codes[i], PostalCodeField, Range(m))
  {
    OneFirstRequestPerCode(Requests(e, m, codes), Answers(server, Requests(e, m, codes)));
  }
}
