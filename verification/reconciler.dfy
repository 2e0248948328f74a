/** One polling cycle: the previously seen dates are compared with the
    freshly fetched ones; new dates are announced once and added to the
    record, and a failed or empty fetch changes nothing. The state file is
    an abstract store value passed in and returned. */
module Reconciler {
  import opened Wrappers
  import Fetcher

  /** The outcome of one reconcile step: the dates to announce (None when no
      message is sent), the seen set afterwards, and whether it was saved. */
  datatype StepResult = StepResult(notified: Option<set<string>>, newSeen: set<string>, wrote: bool)

  /** The decision at the heart of a cycle. */
  function Step(seen: set<string>, current: set<string>): (r: StepResult)
    ensures current == {} ==> r == StepResult(None, seen, false)
    ensures r.notified.Some? <==> !(current <= seen)
    ensures r.notified.Some? ==> r.notified.value == current - seen
    ensures r.wrote <==> r.notified.Some?
    ensures r.newSeen == (if r.wrote then seen + current else seen)
  {
    if current != {} then
      var newDates := current - seen;
      if newDates != {} then StepResult(Some(newDates), seen + newDates, true)
      else
        assert current <= seen by {
          forall d | d in current ensures d in seen { assert d !in newDates; }
        }
        StepResult(None, seen, false)
    else StepResult(None, seen, false)
  }

  /** The dates a step announces, none if it sends nothing. */
  function Sent(r: StepResult): set<string>
  {
    if r.notified.Some? then r.notified.value else {}
  }

  /** What a step announces is non-empty, fetched just now, and new; the seen
      set never shrinks, and after a non-empty fetch it covers that fetch. */
  lemma StepAnnouncesOnlyNewDates(seen: set<string>, current: set<string>)
    ensures var r := Step(seen, current);
            && (r.notified.Some? ==> r.notified.value != {} && r.notified.value !! seen)
            && Sent(r) <= current
            && seen <= r.newSeen
            && (current != {} ==> r.newSeen == seen + current)
            && (r.wrote ==> seen < r.newSeen)
  {
  }

  /** Repeating a step with the same fetch announces nothing and writes nothing. */
  lemma StepIdempotent(seen: set<string>, current: set<string>)
    ensures var again := Step(Step(seen, current).newSeen, current);
            again.notified.None? && !again.wrote && again.newSeen == Step(seen, current).newSeen
  {
  }

  /* ---------------- a sequence of cycles ---------------- */

  /** The results of running the step once per fetch, in order. */
  function Steps(seen: set<string>, fetches: seq<set<string>>): (rs: seq<StepResult>)
    ensures |rs| == |fetches|
    decreases |fetches|
  {
    if |fetches| == 0 then []
    else
      var first := Step(seen, fetches[0]);
      [first] + Steps(first.newSeen, fetches[1..])
  }

  /** The seen set after running the step once per fetch. */
  function FinalSeen(seen: set<string>, fetches: seq<set<string>>): set<string>
    decreases |fetches|
  {
    if |fetches| == 0 then seen else FinalSeen(Step(seen, fetches[0]).newSeen, fetches[1..])
  }

  /** Everything fetched in a sequence of cycles. */
  function UnionAll(fetches: seq<set<string>>): set<string>
  {
    if |fetches| == 0 then {} else fetches[0] + UnionAll(fetches[1..])
  }

  /** After any sequence of cycles the record holds exactly what it held before
      plus everything ever fetched. */
  lemma {:induction false} FinalSeenIsUnion(seen: set<string>, fetches: seq<set<string>>)
    ensures FinalSeen(seen, fetches) == seen + UnionAll(fetches)
    decreases |fetches|
  {
    if |fetches| > 0 {
      var next := Step(seen, fetches[0]).newSeen;
      FinalSeenIsUnion(next, fetches[1..]);
      assert next == seen + fetches[0];
    }
  }

  /** Every step announced only dates not already on record. */
  predicate AllFresh(rs: seq<StepResult>, seen: set<string>) {
    forall i :: 0 <= i < |rs| ==> Sent(rs[i]) !! seen
  }

  /** No two steps announced a common date. */
  predicate PairwiseDisjoint(rs: seq<StepResult>) {
    forall i, j :: 0 <= i < j < |rs| ==> Sent(rs[i]) !! Sent(rs[j])
  }

  /** The dates added to the record are exactly those some step announced. */
  ghost predicate AccountsFor(rs: seq<StepResult>, added: set<string>) {
    forall d :: d in added <==> exists i :: 0 <= i < |rs| && d in Sent(rs[i])
  }

  /** No date is ever announced twice, nor announced if it was already on
      record; and every date added to the record was announced by one of the
      cycles. */
  lemma {:induction false} NoDateAnnouncedTwice(seen: set<string>, fetches: seq<set<string>>)
    ensures AllFresh(Steps(seen, fetches), seen)
    ensures PairwiseDisjoint(Steps(seen, fetches))
    ensures AccountsFor(Steps(seen, fetches), FinalSeen(seen, fetches) - seen)
    decreases |fetches|
  {
    var rs := Steps(seen, fetches);
    if |fetches| > 0 {
      var first := Step(seen, fetches[0]);
      var next := first.newSeen;
      var tail := Steps(next, fetches[1..]);
      NoDateAnnouncedTwice(next, fetches[1..]);
      assert rs == [first] + tail;
      assert next == seen + Sent(first);
      assert Sent(first) !! seen;
      assert forall k :: 0 <= k < |tail| ==> Sent(tail[k]) !! next;
      forall i | 0 <= i < |rs|
        ensures Sent(rs[i]) !! seen
      {
        if i > 0 {
          assert rs[i] == tail[i - 1];
          assert Sent(tail[i - 1]) !! next;
        }
      }
      forall i, j | 0 <= i < j < |rs|
        ensures Sent(rs[i]) !! Sent(rs[j])
      {
        assert rs[j] == tail[j - 1];
        assert Sent(tail[j - 1]) !! next;
        if i > 0 {
          assert rs[i] == tail[i - 1];
        }
      }
      assert FinalSeen(seen, fetches) == FinalSeen(next, fetches[1..]);
      FinalSeenIsUnion(next, fetches[1..]);
      forall d
        ensures d in FinalSeen(seen, fetches) - seen <==>
                exists i :: 0 <= i < |rs| && d in Sent(rs[i])
      {
        if d in FinalSeen(seen, fetches) - seen {
          if d in Sent(first) {
            assert d in Sent(rs[0]);
          } else {
            assert d in FinalSeen(next, fetches[1..]) - next;
            var k :| 0 <= k < |tail| && d in Sent(tail[k]);
            assert d in Sent(rs[k + 1]);
          }
        }
        if exists i :: 0 <= i < |rs| && d in Sent(rs[i]) {
          var i :| 0 <= i < |rs| && d in Sent(rs[i]);
          if i > 0 {
            assert rs[i] == tail[i - 1];
            assert d in FinalSeen(next, fetches[1..]) - next;
          }
        }
      }
    }
  }

  /* ---------------- the cycle with its store ---------------- */

  /** The state file: absent, or holding a set of dates. */
  datatype Store = NoFile | File(dates: set<string>)

  /** `load_seen_dates`: an absent file means nothing seen yet. */
  function Load(store: Store): (seen: set<string>)
    ensures store.NoFile? ==> seen == {}
    ensures store.File? ==> seen == store.dates
  {
    match store
    case NoFile => {}
    case File(dates) => dates
  }

  /** The outcome of one run of the program: what was announced and the store
      afterwards. */
  datatype Cycle = Cycle(notified: Option<set<string>>, store: Store)

  /** `main`: load, fetch, step, and save only if the step says so. */
  function Run(store: Store, resp: Fetcher.Response): (c: Cycle)
    ensures Fetcher.FetchDates(resp) == {} ==> c == Cycle(None, store)
    ensures c.notified.Some? <==> !(Fetcher.FetchDates(resp) <= Load(store))
    ensures c.notified.Some? <==> c.store != store
    ensures c.notified.Some? ==>
              && c.notified.value == Fetcher.FetchDates(resp) - Load(store)
              && c.store == File(Load(store) + Fetcher.FetchDates(resp))
    ensures Load(store) <= Load(c.store)
  {
    var r := Step(Load(store), Fetcher.FetchDates(resp));
    if r.wrote then Cycle(r.notified, File(r.newSeen)) else Cycle(r.notified, store)
  }

  /** A fetch that failed in any way leaves the store exactly as it was, an
      absent file included, and sends nothing. */
  lemma FailedFetchChangesNothing(store: Store, resp: Fetcher.Response)
    requires || resp.TransportFailure?
             || (resp.Http? && Fetcher.RaisesForStatus(resp.status))
             || (resp.Http? && resp.json.None?)
    ensures Run(store, resp) == Cycle(None, store)
  {
  }

  /** Running the program twice against the same reply announces nothing the
      second time and leaves the store as the first run left it. */
  lemma RunIdempotent(store: Store, resp: Fetcher.Response)
    ensures var first := Run(store, resp);
            Run(first.store, resp) == Cycle(None, first.store)
  {
  }

  /** Four sample cycles: a first sighting announces everything, a repeat
      announces nothing, a failed fetch changes nothing, and a partly new
      fetch announces only the new date. */
  lemma Scenarios()
    ensures Step({}, {"20250101", "20250102"})
            == StepResult(Some({"20250101", "20250102"}), {"20250101", "20250102"}, true)
    ensures Step({"20250101"}, {"20250101"}) == StepResult(None, {"20250101"}, false)
    ensures Step({"20250101"}, {}) == StepResult(None, {"20250101"}, false)
    ensures Step({"20250101"}, {"20250101", "20250103"})
            == StepResult(Some({"20250103"}), {"20250101", "20250103"}, true)
  {
    assert {"20250101", "20250103"} - {"20250101"} == {"20250103"} by {
      assert "20250101" != "20250103";
    }
  }
}
