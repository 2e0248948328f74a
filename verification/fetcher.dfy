/** The date fetcher's decision logic, after the network: whether the GET
    counts as a failure, and which screening dates the JSON reply yields.
    Every failure path gives the empty set, exactly as the catch-all handler
    of the program does. */
module Fetcher {
  import opened Wrappers

  /** One element of the reply's "data" array, reduced to its "scnYmd" entry
      (None when the element has no such key). */
  datatype Item = Item(scnYmd: Option<string>)

  /** The decoded JSON object, reduced to its "data" entry if present. */
  datatype Payload = Payload(data: Option<seq<Item>>)

  /** What the GET produced: a transport failure (timeout, refused
      connection), or a status code and a body that may fail to decode. */
  datatype Response =
    | TransportFailure
    | Http(status: int, json: Option<Payload>)

  /** `raise_for_status` raises on client errors (4xx) and server errors (5xx). */
  predicate RaisesForStatus(status: int)
    ensures RaisesForStatus(status) <==> status / 100 == 4 || status / 100 == 5
  {
    400 <= status < 600
  }

  /** The reply got past `raise_for_status` and decoded to a JSON object with
      a "data" entry. */
  predicate HasData(resp: Response) {
    && resp.Http?
    && !RaisesForStatus(resp.status)
    && resp.json.Some?
    && resp.json.value.data.Some?
  }

  /** Every item carries its date. */
  predicate AllDated(items: seq<Item>) {
    forall i :: 0 <= i < |items| ==> items[i].scnYmd.Some?
  }

  /** The dates of the items, or None when some item has no date (the
      comprehension raises KeyError on it). */
  function Collect(items: seq<Item>): (r: Option<set<string>>)
    ensures r.Some? <==> AllDated(items)
    ensures r.Some? ==> forall d :: d in r.value <==>
              exists i :: 0 <= i < |items| && items[i].scnYmd == Some(d)
    ensures r.Some? ==> |r.value| <= |items|
  {
    if |items| == 0 then Some({})
    else
      match items[0].scnYmd
      case None => None
      case Some(d) =>
        match Collect(items[1..])
        case None => None
        case Some(rest) =>
          assert forall x :: x in rest <==> exists i :: 1 <= i < |items| && items[i].scnYmd == Some(x) by {
            forall x | x in rest
              ensures exists i :: 1 <= i < |items| && items[i].scnYmd == Some(x)
            {
              var j :| 0 <= j < |items[1..]| && items[1..][j].scnYmd == Some(x);
              assert items[j + 1].scnYmd == Some(x);
            }
            forall x, i | 1 <= i < |items| && items[i].scnYmd == Some(x)
              ensures x in rest
            {
              assert items[1..][i - 1].scnYmd == Some(x);
            }
          }
          Some({d} + rest)
  }

  /** The set of dates one fetch reports: the dates of the "data" items when
      the reply is good and every item is dated, and the empty set on any
      failure: transport error, 4xx/5xx status, undecodable JSON, missing
      "data", or an item without a date. */
  function FetchDates(resp: Response): (dates: set<string>)
    ensures !HasData(resp) ==> dates == {}
    ensures HasData(resp) && !AllDated(resp.json.value.data.value) ==> dates == {}
    ensures HasData(resp) && AllDated(resp.json.value.data.value) ==>
              var items := resp.json.value.data.value;
              forall d :: d in dates <==> exists i :: 0 <= i < |items| && items[i].scnYmd == Some(d)
  {
    match resp
    case TransportFailure => {}
    case Http(status, json) =>
      if RaisesForStatus(status) then {}
      else
        match json
        case None => {}
        case Some(payload) =>
          match payload.data
          case None => {}
          case Some(items) =>
            match Collect(items)
            case None => {}
            case Some(dates) => dates
  }

  /** A fetch reports a date only if the reply succeeded and that date is the
      "scnYmd" of one of its items. */
  lemma ReportedDatesComeFromReply(resp: Response, d: string)
    requires d in FetchDates(resp)
    ensures resp.Http? && !RaisesForStatus(resp.status)
    ensures resp.json.Some? && resp.json.value.data.Some?
    ensures Item(Some(d)) in resp.json.value.data.value
  {
  }

  /** An empty reply and a failed fetch are indistinguishable downstream. */
  lemma EmptyReplyLooksLikeFailure(status: int)
    requires !RaisesForStatus(status)
    ensures FetchDates(Http(status, Some(Payload(Some([]))))) == FetchDates(TransportFailure)
  {
  }
}
