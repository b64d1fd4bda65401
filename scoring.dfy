/** The scoring pieces of the matcher: the vessel similarity (behind an
    abstract token-set ratio), the weighted score, date parsing (behind an
    abstract parser) and the ETA window. */
module Scoring {
  import opened Records

  /** rapidfuzz's `fuzz.token_set_ratio`, whose internals are not modelled:
      any function of two strings whose values lie in [0, 100]. */
  type TokenSetRatio = f: (string, string) -> real | forall a, b :: 0.0 <= f(a, b) <= 100.0
    witness (a: string, b: string) => 0.0

  /** dateutil's `parser.parse(str(val), dayfirst=True)` inside a
      try/except: a partial parse from text to a timestamp in whole seconds. */
  type DateParser = string -> Option<int>

  /** `vessel_similarity(a, b)`: 0 when either name is empty, otherwise the
      token-set ratio. */
  function VesselSimilarity(ratio: TokenSetRatio, a: string, b: string): (r: real)
    ensures 0.0 <= r <= 100.0
    ensures a == "" || b == "" ==> r == 0.0
    ensures a != "" && b != "" ==> r == ratio(a, b)
  {
    if a == "" || b == "" then 0.0 else ratio(a, b)
  }

  /** `calculate_weighted_score(v_score, port_match, eta_match)`. */
  function WeightedScore(v: real, port: bool, eta: bool): (r: real)
    ensures 0.0 <= v <= 100.0 ==> 0.0 <= r <= 100.0
  {
    v * 0.60 + (if port then 100.0 else 0.0) * 0.20 + (if eta then 100.0 else 0.0) * 0.20
  }

  /** The score is 0.6 of the vessel score plus exactly 20 for each true
      signal. */
  lemma WeightedScoreSignals(v: real, port: bool, eta: bool)
    ensures WeightedScore(v, port, eta) ==
            0.6 * v + (if port then 20.0 else 0.0) + (if eta then 20.0 else 0.0)
    ensures WeightedScore(v, true, eta) == WeightedScore(v, false, eta) + 20.0
    ensures WeightedScore(v, port, true) == WeightedScore(v, port, false) + 20.0
  {
  }

  /** Without a port or ETA signal the score is at most 60, so a threshold
      above 60 can only be reached with at least one signal. */
  lemma AcceptedNeedsSignal(v: real, port: bool, eta: bool, threshold: real)
    requires 0.0 <= v <= 100.0
    requires threshold > 60.0
    requires WeightedScore(v, port, eta) >= threshold
    ensures port || eta
  {
    WeightedScoreSignals(v, port, eta);
  }

  /** `safe_parse_date(val)`: None for a falsy value, otherwise whatever the
      parser makes of it (None when it raises). */
  function SafeParseDate(parse: DateParser, val: Option<string>): (r: Option<int>)
    ensures !Truthy(val) ==> r == None
    ensures Truthy(val) ==> r == parse(val.value)
  {
    if !Truthy(val) then None else parse(val.value)
  }

  const SecondsPerDay: int := 86400

  /** `timedelta(seconds=d).days`: the whole days, rounded down. */
  function TimedeltaDays(d: int): (r: int)
    ensures r * SecondsPerDay <= d < r * SecondsPerDay + SecondsPerDay
  {
    d / SecondsPerDay
  }

  function Abs(x: int): (r: nat)
    ensures r == x || r == -x
  {
    if x < 0 then -x else x
  }

  /** The ETA signal of lines 108-111: both dates present and
      `abs((bl_eta - b_eta).days) <= 10`. */
  function EtaMatch(blEta: Option<int>, bEta: Option<int>): (r: bool)
  {
    blEta.Some? && bEta.Some? && Abs(TimedeltaDays(blEta.value - bEta.value)) <= 10
  }

  /** Because `.days` rounds down, the window is 10 days before and just
      under 11 days after: `-864000 <= blEta - bEta < 950400` seconds. */
  lemma EtaMatchWindow(blEta: Option<int>, bEta: Option<int>)
    ensures EtaMatch(blEta, bEta) <==>
            blEta.Some? && bEta.Some? &&
            -10 * SecondsPerDay <= blEta.value - bEta.value < 11 * SecondsPerDay
  {
    if blEta.Some? && bEta.Some? {
      var d := blEta.value - bEta.value;
      var days := TimedeltaDays(d);
      assert days * SecondsPerDay <= d < days * SecondsPerDay + SecondsPerDay;
    }
  }

  /** The ETA signal is not symmetric: a booking 950000 seconds (just under
      11 days) earlier than the B/L matches, one 950000 seconds later does
      not. */
  lemma EtaMatchAsymmetric()
    ensures EtaMatch(Some(950000), Some(0))
    ensures !EtaMatch(Some(0), Some(950000))
  {
    EtaMatchWindow(Some(950000), Some(0));
    EtaMatchWindow(Some(0), Some(950000));
  }
}
