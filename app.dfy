/** The page script's state and its two entry points: `loadSheet`, which
    fills the header and row lists from the cache or from the query
    endpoint, and `chooseRandom`, which shows three fields of one row. */
module App {
  import opened Wrappers
  import opened JsValues
  import opened Envelope
  import opened Table
  import opened Picker

  /** Why a load produced no dataset. In the page each of these is an
      uncaught rejection that leaves the loading indicator up. */
  datatype LoadError =
    | Network            // `fetch` or `response.text()` rejected
    | MalformedEnvelope  // the envelope pattern did not match: `match[1]` of null
    | InvalidJson        // `JSON.parse` threw on the payload
    | NoTable            // the parsed response has no `table` (an error response)
    | MalformedRows      // mapping the rows threw, after `HEADERS` was replaced

  /** How a load ended. */
  datatype Outcome = FromCache | Fetched | Failed(error: LoadError)

  /** The page's globals `HEADERS`/`ROW_DATA` and the persisted cache slot. */
  datatype State = State(data: Dataset, cache: Option<Dataset>)

  /** What the page shows is well formed, and so is what it has cached. */
  predicate Consistent(s: State)
  {
    WellFormed(s.data) && (s.cache.Some? ==> WellFormed(s.cache.value))
  }

  /** `parseGViz`: take the JSON text out of the envelope, then parse it
      with `parse`, which stands for `JSON.parse` (None where it throws).
      On success the result is the parse of the extracted payload. */
  function ParseGViz(text: string, parse: string -> Option<Response>): (r: Result<Response, LoadError>)
    ensures r.Failure? ==> r.error == MalformedEnvelope || r.error == InvalidJson
    ensures r == Failure(MalformedEnvelope) <==> ExtractPayload(text).None?
    ensures r.Success? <==> ExtractPayload(text).Some? && parse(ExtractPayload(text).value).Some?
    ensures r.Success? ==> r.value == parse(ExtractPayload(text).value).value
  {
    match ExtractPayload(text)
    case None => Failure(MalformedEnvelope)
    case Some(payload) =>
      match parse(payload)
      case None => Failure(InvalidJson)
      case Some(json) => Success(json)
  }

  /** The fetch half of `loadSheet` up to `json.table`: `body` is the
      response text, or None when `fetch` or `response.text()` rejects. A
      failure of the envelope or of the JSON parse is reported as
      `parseGViz` reports it. On success the result is the table of the
      parsed response. */
  function FetchTable(body: Option<string>, parse: string -> Option<Response>): (r: Result<DataTable, LoadError>)
    ensures r == Failure(Network) <==> body.None?
    ensures r == Failure(NoTable) <==>
      body.Some? && ParseGViz(body.value, parse).Success? && ParseGViz(body.value, parse).value.table.None?
    ensures r.Success? <==>
      body.Some? && ParseGViz(body.value, parse).Success? && ParseGViz(body.value, parse).value.table.Some?
    ensures body.Some? && ParseGViz(body.value, parse).Failure? ==> r == Failure(ParseGViz(body.value, parse).error)
    ensures r.Success? ==> r.value == ParseGViz(body.value, parse).value.table.value
  {
    match body
    case None => Failure(Network)
    case Some(text) =>
      match ParseGViz(text, parse)
      case Failure(e) => Failure(e)
      case Success(json) =>
        match json.table
        case None => Failure(NoTable)
        case Some(t) => Success(t)
  }

  /** One run of `loadSheet`. A cache entry that can be read is shown as it
      is and nothing is fetched. Otherwise: a failed fetch changes nothing;
      once there is a table, `HEADERS` is replaced, and if mapping the rows
      then throws, `ROW_DATA` and the cache keep their old contents; else
      the extracted rows are shown and the dataset is written to the cache,
      which keeps its old contents when that write fails. The cache only
      ever changes to exactly what is shown. */
  function LoadStep(s: State, cacheReadOk: bool, body: Option<string>,
                    parse: string -> Option<Response>, cacheWriteOk: bool): (r: (State, Outcome))
    ensures r.1 == FromCache <==> cacheReadOk && s.cache.Some?
    ensures r.1.Failed? ==> r.0.cache == s.cache && r.0.data.rows == s.data.rows
    ensures r.0.cache == s.cache || r.0.cache == Some(r.0.data)
  {
    if cacheReadOk && s.cache.Some? then (State(s.cache.value, s.cache), FromCache)
    else
      match FetchTable(body, parse)
      case Failure(e) => (s, Failed(e))
      case Success(t) =>
        var headers := Headers(t.cols);
        match ExtractRows(t)
        case None => (State(Dataset(headers, s.data.rows), s.cache), Failed(MalformedRows))
        case Some(rows) =>
          var d := Dataset(headers, rows);
          (State(d, if cacheWriteOk then Some(d) else s.cache), Fetched)
  }

  /** A readable cache entry decides the load on its own: the page shows
      exactly the cached headers and rows, the cache is untouched, and the
      network and parser play no part. */
  lemma CacheHitNoFetch(s: State, body: Option<string>, parse: string -> Option<Response>, cacheWriteOk: bool)
    requires s.cache.Some?
    ensures LoadStep(s, true, body, parse, cacheWriteOk) == (State(s.cache.value, s.cache), FromCache)
  {
  }

  /** On a cache miss with a table whose rows can be mapped, the page shows
      exactly the extracted dataset and, when the write succeeds, caches
      that same dataset. */
  lemma MissShowsAndCachesFetched(s: State, cacheReadOk: bool, body: Option<string>,
                                  parse: string -> Option<Response>, cacheWriteOk: bool)
    requires !cacheReadOk || s.cache.None?
    requires FetchTable(body, parse).Success?
    requires Extract(FetchTable(body, parse).value).Some?
    ensures var (s', o) := LoadStep(s, cacheReadOk, body, parse, cacheWriteOk);
      o == Fetched && s'.data == Extract(FetchTable(body, parse).value).value &&
      s'.cache == (if cacheWriteOk then Some(s'.data) else s.cache)
  {
  }

  /** A failed fetch leaves the page and the cache as they were. */
  lemma FailedFetchChangesNothing(s: State, cacheReadOk: bool, body: Option<string>,
                                  parse: string -> Option<Response>, cacheWriteOk: bool)
    requires !cacheReadOk || s.cache.None?
    requires FetchTable(body, parse).Failure?
    ensures LoadStep(s, cacheReadOk, body, parse, cacheWriteOk) == (s, Failed(FetchTable(body, parse).error))
  {
  }

  /** When the rows of the fetched table cannot be mapped, the headers have
      already been replaced by the new table's, while the rows and the cache
      stay as they were. */
  lemma UnmappableRowsReplaceOnlyHeaders(s: State, cacheReadOk: bool, body: Option<string>,
                                         parse: string -> Option<Response>, cacheWriteOk: bool)
    requires !cacheReadOk || s.cache.None?
    requires FetchTable(body, parse).Success?
    requires Extract(FetchTable(body, parse).value).None?
    ensures LoadStep(s, cacheReadOk, body, parse, cacheWriteOk) ==
      (State(Dataset(Headers(FetchTable(body, parse).value.cols), s.data.rows), s.cache), Failed(MalformedRows))
  {
  }

  /** Loading keeps the cache well formed, and keeps what is shown well
      formed unless mapping the rows threw after the headers were replaced. */
  lemma LoadKeepsConsistent(s: State, cacheReadOk: bool, body: Option<string>,
                            parse: string -> Option<Response>, cacheWriteOk: bool)
    requires Consistent(s)
    ensures var (s', o) := LoadStep(s, cacheReadOk, body, parse, cacheWriteOk);
      (s'.cache.Some? ==> WellFormed(s'.cache.value)) &&
      (o != Failed(MalformedRows) ==> Consistent(s'))
  {
  }

  /** The partial update can leave the page inconsistent: on a page whose
      cache cannot be read and which shows one empty row under no headers,
      a response with one column and one null row replaces the headers with
      that column's label and keeps the empty row, which no longer has one
      value per header. */
  lemma HeadersOnlyUpdateBreaksConsistency(json: string)
    ensures var t := DataTable([Column(Some("Title"))], Some([None]));
      var parse := (p: string) => Some(Response(Some(t)));
      var s := State(Dataset([], [[]]), None);
      var (s', o) := LoadStep(s, false, Some(Wrap(json)), parse, true);
      Consistent(s) && o == Failed(MalformedRows) && s'.data == Dataset(["Title"], [[]]) && !Consistent(s')
  {
    var t := DataTable([Column(Some("Title"))], Some([None]));
    var parse := (p: string) => Some(Response(Some(t)));
    var s := State(Dataset([], [[]]), None);
    ExtractWrapped(json);
    assert FetchTable(Some(Wrap(json)), parse) == Success(t);
    assert RowOf(t.cols, t.rows.value[0]).None?;
    assert ExtractRows(t).None?;
    assert Headers(t.cols) == ["Title"];
    var (s', o) := LoadStep(s, false, Some(Wrap(json)), parse, true);
    assert s'.data == Dataset(["Title"], [[]]);
    assert |s'.data.rows[0]| != |s'.data.headers|;
  }

  /** The page runs `loadSheet` once, on empty globals; from there every
      load, the partial update included, leaves the page and the cache well
      formed, provided the stored cache entry was. */
  lemma FreshPageLoadConsistent(stored: Option<Dataset>, cacheReadOk: bool, body: Option<string>,
                                parse: string -> Option<Response>, cacheWriteOk: bool)
    requires stored.Some? ==> WellFormed(stored.value)
    ensures Consistent(LoadStep(State(Dataset([], []), stored), cacheReadOk, body, parse, cacheWriteOk).0)
  {
  }

  /** Loading twice shows the same data as loading once: after a fetch
      whose cache write succeeded, the next load is served from the cache
      with the same headers and rows, whatever the network would answer. */
  lemma SecondLoadFromCache(s: State, cacheReadOk: bool, body: Option<string>, parse: string -> Option<Response>,
                            body2: Option<string>, parse2: string -> Option<Response>, cacheWriteOk2: bool)
    requires LoadStep(s, cacheReadOk, body, parse, true).1 == Fetched
    ensures var s1 := LoadStep(s, cacheReadOk, body, parse, true).0;
      LoadStep(s1, true, body2, parse2, cacheWriteOk2) == (s1, FromCache)
  {
  }

  /** End to end: on a cache miss, a response text holding the envelope
      around a JSON document that describes table `t` (after a preamble that
      does not contain the prefix, and with no `)` after the envelope's own)
      shows exactly the headers and rows extracted from `t` and caches them
      when the write succeeds; when `t`'s rows cannot be mapped, only the
      headers change. */
  lemma LoadWrappedResponse(s: State, cacheReadOk: bool, pre: string, json: string, post: string,
                            parse: string -> Option<Response>, t: DataTable, cacheWriteOk: bool)
    requires !cacheReadOk || s.cache.None?
    requires forall i: nat :: !PrefixAt(pre, i)
    requires ')' !in post
    requires parse(json) == Some(Response(Some(t)))
    ensures LoadStep(s, cacheReadOk, Some(pre + Prefix + json + ")" + post), parse, cacheWriteOk) ==
      match Extract(t)
      case Some(d) => (State(d, if cacheWriteOk then Some(d) else s.cache), Fetched)
      case None => (State(Dataset(Headers(t.cols), s.data.rows), s.cache), Failed(MalformedRows))
  {
    WrapThenExtract(pre, json, post);
  }

  /** The page: `HEADERS`, `ROW_DATA`, and the cache entry in the browser's
      persistent store. */
  class Page {
    var headers: seq<string>
    var rows: seq<seq<Value>>
    var cache: Option<Dataset>

    /** The state as the load step sees it. */
    function Snapshot(): State
      reads this
    {
      State(Dataset(headers, rows), cache)
    }

    /** A fresh page: empty globals, and whatever an earlier visit stored. */
    constructor (stored: Option<Dataset>)
      ensures Snapshot() == State(Dataset([], []), stored)
    {
      headers, rows, cache := [], [], stored;
    }

    /** `loadSheet`, given whether reading the cache succeeds, the response
        body (None when `fetch` or `response.text()` rejects), the JSON parser, and whether
        writing the cache succeeds. */
    method Load(cacheReadOk: bool, body: Option<string>, parse: string -> Option<Response>, cacheWriteOk: bool)
      returns (outcome: Outcome)
      modifies this
      ensures (Snapshot(), outcome) == LoadStep(old(Snapshot()), cacheReadOk, body, parse, cacheWriteOk)
      ensures old(Consistent(Snapshot())) ==> cache.Some? ==> WellFormed(cache.value)
      ensures old(Consistent(Snapshot())) && outcome != Failed(MalformedRows) ==> Consistent(Snapshot())
    {
      if cacheReadOk && cache.Some? {
        rows := cache.value.rows;
        headers := cache.value.headers;
        return FromCache;
      }
      var fetched := FetchTable(body, parse);
      if fetched.Failure? {
        return Failed(fetched.error);
      }
      var t := fetched.value;
      headers := Headers(t.cols);
      var mapped := ExtractRows(t);
      if mapped.None? {
        return Failed(MalformedRows);
      }
      rows := mapped.value;
      if cacheWriteOk {
        cache := Some(Dataset(headers, rows));
      }
      outcome := Fetched;
    }

    /** `chooseRandom` for a draw `r` of `Math.random()`: nothing when there
        are no rows; otherwise the three fields of the row the draw lands on. */
    method ChooseRandom(r: real) returns (pick: Option<Selection>)
      requires 0.0 <= r < 1.0
      ensures pick.None? <==> rows == []
      ensures pick.Some? ==> pick.value == Select(rows[PickIndex(r, |rows|)])
    {
      if |rows| == 0 {
        return None;
      }
      var random := rows[PickIndex(r, |rows|)];
      pick := Some(Select(random));
    }
  }

  /** The example of a three-column sheet with two rows: a pick shows one of
      the two rows verbatim, the first for draws below one half and the
      second otherwise. */
  lemma ExamplePick(r: real)
    requires 0.0 <= r < 1.0
    ensures var rows := [[Str("A"), Str("d1"), Str("http://x")], [Str("B"), Str("d2"), Str("http://y")]];
      Select(rows[PickIndex(r, 2)]) ==
        if r < 0.5 then Selection(Str("A"), Str("d1"), Str("http://x"))
        else Selection(Str("B"), Str("d2"), Str("http://y"))
  {
  }
}
