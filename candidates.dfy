/** Loading booking candidates. The record store is an in-memory sequence of
    rows in load order, and a query with equality filters keeps, in order,
    the rows that pass every filter. */
module BookingLoad {
  import opened Records

  /** `b` keeps the elements of `a` in order, possibly dropping some. */
  ghost predicate Subsequence(b: seq<Row>, a: seq<Row>)
    decreases |a|
  {
    if b == [] then true
    else if a == [] then false
    else (b[0] == a[0] && Subsequence(b[1..], a[1..])) || Subsequence(b, a[1..])
  }

  /** The filters of `load_booking_candidates(agent, port)`: each one is
      applied only when its value is truthy. */
  predicate BookingFilter(row: Row, agent: Option<string>, port: Option<string>)
  {
    OptionalFilter(row, "agent", agent) && OptionalFilter(row, "port", port)
  }

  /** `load_booking_candidates(agent, port)`: the rows of the booking table
      that pass the filters, in load order, each as often as it is stored. */
  function LoadBookingCandidates(store: seq<Row>, agent: Option<string>, port: Option<string>): (r: seq<Row>)
    ensures forall k :: 0 <= k < |r| ==> r[k] in store && BookingFilter(r[k], agent, port)
    ensures forall k :: 0 <= k < |store| && BookingFilter(store[k], agent, port) ==> store[k] in r
    ensures Subsequence(r, store)
    ensures forall x :: multiset(r)[x] == if BookingFilter(x, agent, port) then multiset(store)[x] else 0
    decreases |store|
  {
    if store == [] then []
    else
      var rest := LoadBookingCandidates(store[1..], agent, port);
      assert forall k :: 1 <= k < |store| ==> store[k] == store[1..][k - 1];
      assert store == [store[0]] + store[1..];
      if BookingFilter(store[0], agent, port) then
        assert ([store[0]] + rest)[1..] == rest;
        [store[0]] + rest
      else
        SubsequenceDropHead(rest, store);
        rest
  }

  lemma SubsequenceDropHead(b: seq<Row>, a: seq<Row>)
    requires a != [] && Subsequence(b, a[1..])
    ensures Subsequence(b, a)
  {
  }

  /** Lines 89-92: the port-filtered query, and the agent-only query when
      that one returns nothing. */
  function Candidates(store: seq<Row>, agent: Option<string>, port: Option<string>): (r: seq<Row>)
  {
    var first := LoadBookingCandidates(store, agent, port);
    if first != [] then first else LoadBookingCandidates(store, agent, None)
  }

  /** The fallback runs only when the first query is empty; every candidate
      is a stored row that passes the agent filter, and also the port filter
      when the first query found something; there are no candidates exactly
      when no stored row passes the agent filter. */
  lemma CandidatesSpec(store: seq<Row>, agent: Option<string>, port: Option<string>)
    ensures LoadBookingCandidates(store, agent, port) != [] ==>
              Candidates(store, agent, port) == LoadBookingCandidates(store, agent, port)
    ensures LoadBookingCandidates(store, agent, port) == [] ==>
              Candidates(store, agent, port) == LoadBookingCandidates(store, agent, None)
    ensures forall k :: 0 <= k < |Candidates(store, agent, port)| ==>
              Candidates(store, agent, port)[k] in store &&
              OptionalFilter(Candidates(store, agent, port)[k], "agent", agent)
    ensures LoadBookingCandidates(store, agent, port) != [] ==>
              forall k :: 0 <= k < |Candidates(store, agent, port)| ==>
                BookingFilter(Candidates(store, agent, port)[k], agent, port)
    ensures Candidates(store, agent, port) == [] <==>
              forall k :: 0 <= k < |store| ==> !OptionalFilter(store[k], "agent", agent)
    ensures Subsequence(Candidates(store, agent, port), store)
  {
    var first := LoadBookingCandidates(store, agent, port);
    assert forall k :: 0 <= k < |store| ==>
             (BookingFilter(store[k], agent, None) <==> OptionalFilter(store[k], "agent", agent));
    if first != [] {
      assert first[0] in store && OptionalFilter(first[0], "agent", agent);
    }
  }
}
