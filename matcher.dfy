/** The matching engine: scoring every booking candidate against a B/L,
    selecting the best one, and assembling the realtime match record for a
    shipment. */
module Matcher {
  import opened Records
  import opened VesselClean
  import opened Scoring
  import opened BookingLoad

  /** The default acceptance threshold (lines 87 and 137). */
  const DefaultThreshold: int := 75

  /** The weighted score of booking row `b` against the cleaned B/L vessel,
      the B/L port and the B/L ETA (lines 103-118). */
  function CandidateScore(ratio: TokenSetRatio, parse: DateParser, blClean: string,
                          blPort: Option<string>, blEta: Option<int>, b: Row): (r: real)
    ensures 0.0 <= r <= 100.0
  {
    var bkClean := CleanVessel(Some(OrEmpty(Get(b, "vessel"))));
    var vScore := VesselSimilarity(ratio, blClean, bkClean);
    var bEta := SafeParseDate(parse, Get(b, "forecast_eta"));
    WeightedScore(vScore, blPort == Get(b, "port"), EtaMatch(blEta, bEta))
  }

  /** A booking that reaches a threshold above 60 agrees with the B/L on the
      port or on the ETA window: the vessel name alone gives at most 60. */
  lemma AcceptedBookingHasSignal(ratio: TokenSetRatio, parse: DateParser, blClean: string,
                                 blPort: Option<string>, blEta: Option<int>, b: Row, threshold: int)
    requires threshold > 60
    requires CandidateScore(ratio, parse, blClean, blPort, blEta, b) >= threshold as real
    ensures blPort == Get(b, "port") || EtaMatch(blEta, SafeParseDate(parse, Get(b, "forecast_eta")))
  {
    var bkClean := CleanVessel(Some(OrEmpty(Get(b, "vessel"))));
    var vScore := VesselSimilarity(ratio, blClean, bkClean);
    var bEta := SafeParseDate(parse, Get(b, "forecast_eta"));
    AcceptedNeedsSignal(vScore, blPort == Get(b, "port"), EtaMatch(blEta, bEta), threshold as real);
  }

  /** The scoring of lines 103-118 as a function of the booking row alone. */
  function ScoreOf(ratio: TokenSetRatio, parse: DateParser, blClean: string,
                   blPort: Option<string>, blEta: Option<int>): Row -> real
  {
    b => CandidateScore(ratio, parse, blClean, blPort, blEta, b)
  }

  /** The scores `scoreOf` gives the candidates, in order. */
  function MapScores(scoreOf: Row -> real, cands: seq<Row>): (r: seq<real>)
    ensures |r| == |cands|
    decreases |cands|
  {
    if cands == [] then []
    else MapScores(scoreOf, cands[..|cands| - 1]) + [scoreOf(cands[|cands| - 1])]
  }

  /** Position `k` of the score list is the score of candidate `k`. */
  lemma {:induction false} MapScoresAt(scoreOf: Row -> real, cands: seq<Row>, k: int)
    requires 0 <= k < |cands|
    ensures MapScores(scoreOf, cands)[k] == scoreOf(cands[k])
    decreases |cands|
  {
    var n := |cands| - 1;
    if k < n {
      MapScoresAt(scoreOf, cands[..n], k);
      assert cands[..n][k] == cands[k];
    }
  }

  /** Scoring one more candidate appends its score. */
  lemma MapScoresSnoc(scoreOf: Row -> real, cands: seq<Row>, i: int)
    requires 0 <= i < |cands|
    ensures MapScores(scoreOf, cands[..i + 1]) == MapScores(scoreOf, cands[..i]) + [scoreOf(cands[i])]
  {
    assert cands[..i + 1][..i] == cands[..i];
  }

  /** The weighted scores of all candidates against one B/L, in order. */
  function Scores(ratio: TokenSetRatio, parse: DateParser, blClean: string,
                  blPort: Option<string>, blEta: Option<int>, cands: seq<Row>): seq<real>
  {
    MapScores(ScoreOf(ratio, parse, blClean, blPort, blEta), cands)
  }

  /** One score per candidate, and each is that candidate's weighted score. */
  lemma ScoresAt(ratio: TokenSetRatio, parse: DateParser, blClean: string,
                 blPort: Option<string>, blEta: Option<int>, cands: seq<Row>)
    ensures |Scores(ratio, parse, blClean, blPort, blEta, cands)| == |cands|
    ensures forall k :: 0 <= k < |cands| ==>
              Scores(ratio, parse, blClean, blPort, blEta, cands)[k] ==
              CandidateScore(ratio, parse, blClean, blPort, blEta, cands[k])
  {
    forall k | 0 <= k < |cands|
      ensures Scores(ratio, parse, blClean, blPort, blEta, cands)[k] ==
              CandidateScore(ratio, parse, blClean, blPort, blEta, cands[k])
    {
      MapScoresAt(ScoreOf(ratio, parse, blClean, blPort, blEta), cands, k);
    }
  }

  /** Position `k` holds the maximum of `scores`, and no earlier position
      reaches it. */
  predicate FirstMax(scores: seq<real>, k: int)
  {
    && 0 <= k < |scores|
    && (forall j :: 0 <= j < |scores| ==> scores[j] <= scores[k])
    && (forall j :: 0 <= j < k ==> scores[j] < scores[k])
  }

  /** At most one position is the first maximum. */
  lemma FirstMaxUnique(scores: seq<real>, k1: int, k2: int)
    requires FirstMax(scores, k1) && FirstMax(scores, k2)
    ensures k1 == k2
  {
    var a, b := scores[k1], scores[k2];
    assert a == b;
  }

  /** What `find_best_booking_match` returns for the candidates `cands` and
      their `scores`: `(None, 0)` when there are none; otherwise the maximum
      score, together with the first candidate reaching it when that score
      is not below the threshold and None when it is. */
  ghost predicate BestMatch(cands: seq<Row>, scores: seq<real>, threshold: int,
                            best: Option<Row>, bestScore: real)
    requires |scores| == |cands|
  {
    if cands == [] then best == None && bestScore == 0.0
    else exists k :: FirstMax(scores, k) && bestScore == scores[k] &&
                     best == (if bestScore < threshold as real then None else Some(cands[k]))
  }

  /** With a threshold above 60 (the default is 75), an accepted booking
      agrees with the B/L on the port or on the ETA window. */
  lemma AcceptedMatchHasSignal(ratio: TokenSetRatio, parse: DateParser, blClean: string,
                               blPort: Option<string>, blEta: Option<int>, cands: seq<Row>,
                               threshold: int, best: Option<Row>, score: real)
    requires threshold > 60
    requires BestMatch(cands, Scores(ratio, parse, blClean, blPort, blEta, cands), threshold, best, score)
    requires best.Some?
    ensures blPort == Get(best.value, "port") ||
            EtaMatch(blEta, SafeParseDate(parse, Get(best.value, "forecast_eta")))
  {
    var scores := Scores(ratio, parse, blClean, blPort, blEta, cands);
    var k :| FirstMax(scores, k) && score == scores[k] &&
             best == (if score < threshold as real then None else Some(cands[k]));
    ScoresAt(ratio, parse, blClean, blPort, blEta, cands);
    AcceptedBookingHasSignal(ratio, parse, blClean, blPort, blEta, cands[k], threshold);
  }

  /** Lines 94-127 of `find_best_booking_match`, for any scoring of the
      candidates that is never negative: `(None, 0)` without candidates;
      otherwise one pass from the sentinel -1 keeping the first strictly
      greater score, then the threshold test. */
  method SelectBest(scoreOf: Row -> real, candidates: seq<Row>, threshold: int)
    returns (best: Option<Row>, bestScore: real)
    requires forall k :: 0 <= k < |candidates| ==> scoreOf(candidates[k]) >= 0.0
    ensures BestMatch(candidates, MapScores(scoreOf, candidates), threshold, best, bestScore)
    ensures best.Some? ==> best.value in candidates && bestScore == scoreOf(best.value) &&
                           bestScore >= threshold as real
  {
    if candidates == [] {
      return None, 0.0;
    }

    best := None;
    bestScore := -1.0;
    ghost var scores: seq<real> := [];
    ghost var bk := 0;

    for i := 0 to |candidates|
      invariant scores == MapScores(scoreOf, candidates[..i])
      invariant forall j :: 0 <= j < i ==> scores[j] <= bestScore
      invariant i == 0 ==> best == None && bestScore == -1.0
      invariant 0 < i ==> 0 <= bk < i && bestScore == scores[bk] && best == Some(candidates[bk])
      invariant 0 < i ==> forall j :: 0 <= j < bk ==> scores[j] < bestScore
    {
      var b := candidates[i];
      var finalScore := scoreOf(b);
      MapScoresSnoc(scoreOf, candidates, i);
      scores := scores + [finalScore];
      if finalScore > bestScore {
        bestScore := finalScore;
        best := Some(b);
        bk := i;
      }
    }

    assert candidates[..|candidates|] == candidates;
    MapScoresAt(scoreOf, candidates, bk);
    assert FirstMax(scores, bk);
    if bestScore < threshold as real {
      best := None;
    }
  }

  /** The outcome `BestMatch` describes is determined by the candidates, the
      scores and the threshold. */
  lemma BestMatchUnique(cands: seq<Row>, scores: seq<real>, threshold: int,
                        best1: Option<Row>, score1: real, best2: Option<Row>, score2: real)
    requires |scores| == |cands|
    requires BestMatch(cands, scores, threshold, best1, score1)
    requires BestMatch(cands, scores, threshold, best2, score2)
    ensures best1 == best2 && score1 == score2
  {
    if cands != [] {
      var k1 :| FirstMax(scores, k1) && score1 == scores[k1] &&
                best1 == (if score1 < threshold as real then None else Some(cands[k1]));
      var k2 :| FirstMax(scores, k2) && score2 == scores[k2] &&
                best2 == (if score2 < threshold as real then None else Some(cands[k2]));
      FirstMaxUnique(scores, k1, k2);
    }
  }

  /** `find_best_booking_match(bl_vessel, bl_port, bl_eta, agent, threshold)`
      over the booking table `store`: the candidates of `Candidates`, each
      scored by `CandidateScore` against the cleaned B/L vessel. */
  method FindBestBookingMatch(ratio: TokenSetRatio, parse: DateParser, store: seq<Row>,
                              blVessel: Option<string>, blPort: Option<string>, blEta: Option<int>,
                              agent: Option<string>, threshold: int := DefaultThreshold)
    returns (best: Option<Row>, bestScore: real)
    ensures BestMatch(Candidates(store, agent, blPort),
                      Scores(ratio, parse, CleanVessel(blVessel), blPort, blEta, Candidates(store, agent, blPort)),
                      threshold, best, bestScore)
    ensures best.Some? ==> best.value in Candidates(store, agent, blPort) &&
                           bestScore == CandidateScore(ratio, parse, CleanVessel(blVessel), blPort, blEta, best.value) &&
                           bestScore >= threshold as real
  {
    var candidates := LoadBookingCandidates(store, agent, blPort);
    if candidates == [] {
      candidates := LoadBookingCandidates(store, agent, None);
    }
    assert candidates == Candidates(store, agent, blPort);
    var blClean := CleanVessel(blVessel);
    var scoreOf := ScoreOf(ratio, parse, blClean, blPort, blEta);
    assert forall k :: 0 <= k < |candidates| ==> scoreOf(candidates[k]) >= 0.0;
    best, bestScore := SelectBest(scoreOf, candidates, threshold);
  }

  // ---------------------------------------------------------------------
  // The shipment side
  // ---------------------------------------------------------------------

  /** A row of the shipment table: its columns and its `raw_json` object. */
  datatype ShipmentRow = ShipmentRow(columns: Row, rawJson: Option<Row>)

  /** The filters of the shipment query (lines 139-144). */
  predicate ShipmentFilter(sh: ShipmentRow, hblNo: string, agent: Option<string>, sheetName: Option<string>)
  {
    && FieldEquals(sh.columns, "hbl_no", hblNo)
    && OptionalFilter(sh.columns, "agent", agent)
    && OptionalFilter(sh.columns, "sheet_name", sheetName)
  }

  /** The shipment query with `limit(1)`: the first row in load order that
      passes the filters. */
  function FindShipment(shipments: seq<ShipmentRow>, hblNo: string, agent: Option<string>,
                        sheetName: Option<string>): (r: Option<ShipmentRow>)
    ensures r.None? <==> forall k :: 0 <= k < |shipments| ==> !ShipmentFilter(shipments[k], hblNo, agent, sheetName)
    ensures r.Some? ==> exists k :: 0 <= k < |shipments| && shipments[k] == r.value &&
                                    ShipmentFilter(r.value, hblNo, agent, sheetName) &&
                                    forall j :: 0 <= j < k ==> !ShipmentFilter(shipments[j], hblNo, agent, sheetName)
    decreases |shipments|
  {
    if shipments == [] then None
    else if ShipmentFilter(shipments[0], hblNo, agent, sheetName) then Some(shipments[0])
    else
      var r := FindShipment(shipments[1..], hblNo, agent, sheetName);
      assert forall k :: 1 <= k < |shipments| ==> shipments[k] == shipments[1..][k - 1];
      r
  }

  /** `shipment.get("raw_json") or {}` */
  function RawJson(sh: ShipmentRow): (r: Row)
    ensures sh.rawJson.Some? ==> r == sh.rawJson.value
    ensures sh.rawJson.None? ==> r == map[]
  {
    match sh.rawJson
    case Some(m) => if m != map[] then m else map[]
    case None => map[]
  }

  /** The `raw_json` keys tried for the B/L vessel, in order (lines 154-160). */
  const VesselKeys: seq<string> := ["Second Vessel", "SECOND VESSEL", "First Vessel", "Vessel", "VESSEL"]
  /** The `raw_json` keys tried for the B/L port, in order (lines 162-166). */
  const PortKeys: seq<string> := ["Port of Origin", "Port", "POL"]

  /** `raw.get("ETA") or raw.get("ETD") or None` (line 168). */
  function EtaRaw(raw: Row): (r: Option<string>)
    ensures Truthy(Get(raw, "ETA")) ==> r == Get(raw, "ETA")
    ensures !Truthy(Get(raw, "ETA")) && Truthy(Get(raw, "ETD")) ==> r == Get(raw, "ETD")
    ensures !Truthy(Get(raw, "ETA")) && !Truthy(Get(raw, "ETD")) ==> r == None
  {
    var vals := [Get(raw, "ETA"), Get(raw, "ETD"), None];
    assert vals[2] == None && !Truthy(vals[2]);
    assert !Truthy(vals[0]) && !Truthy(vals[1]) ==> forall k :: 0 <= k < |vals| ==> !Truthy(vals[k]);
    OrChain(vals)
  }

  /** `best.get(key) if best else None` */
  function BookingField(best: Option<Row>, key: string): Option<string>
  {
    if best.Some? && best.value != map[] then Get(best.value, key) else None
  }

  /** An empty booking row is falsy in Python, but it has no keys either, so
      a booking field is None exactly when there is no booking or the key is
      absent from it. */
  lemma BookingFieldSpec(best: Option<Row>, key: string)
    ensures BookingField(best, key) == if best.Some? then Get(best.value, key) else None
  {
  }

  /** The record returned by `get_shipment_with_realtime_match`. */
  datatype MatchResult = MatchResult(
    hblNo: Option<string>,
    agent: Option<string>,
    sheetName: Option<string>,
    blVessel: Option<string>,
    blVesselClean: string,
    port: Option<string>,
    similarityScore: real,
    matchFound: bool,
    bookingVessel: Option<string>,
    bookingVesselId: Option<string>,
    forecastEta: Option<string>,
    bookingEta: Option<string>,
    rawJson: Row,
    matchedAt: string)

  /** The booking part of the record for the selected booking `best`. */
  predicate BookingPart(r: MatchResult, best: Option<Row>)
  {
    && r.matchFound == best.Some?
    && r.bookingVessel == BookingField(best, "vessel")
    && r.bookingVesselId == BookingField(best, "id")
    && r.forecastEta == BookingField(best, "forecast_eta")
    && r.bookingEta == BookingField(best, "booking_eta")
  }

  /** `get_shipment_with_realtime_match(hbl_no, agent, sheet_name, threshold)`
      over the shipment table `shipments` and the booking table `bookings`;
      `now` stands for `datetime.utcnow().isoformat()`. */
  method GetShipmentWithRealtimeMatch(ratio: TokenSetRatio, parse: DateParser,
                                      shipments: seq<ShipmentRow>, bookings: seq<Row>,
                                      hblNo: string, agent: Option<string>, sheetName: Option<string>,
                                      now: string, threshold: int := DefaultThreshold)
    returns (result: Option<MatchResult>)
    ensures result.None? <==> FindShipment(shipments, hblNo, agent, sheetName).None?
    ensures result.Some? ==>
              var sh := FindShipment(shipments, hblNo, agent, sheetName).value;
              var raw := RawJson(sh);
              var r := result.value;
              && r.hblNo == Get(sh.columns, "hbl_no")
              && r.agent == Get(sh.columns, "agent")
              && r.sheetName == Get(sh.columns, "sheet_name")
              && r.blVessel == OrChain(Lookups(raw, VesselKeys))
              && r.blVesselClean == CleanVessel(r.blVessel)
              && r.port == OrChain(Lookups(raw, PortKeys))
              && r.rawJson == raw
              && r.matchedAt == now
              && var cands := Candidates(bookings, agent, r.port);
                 var blEta := SafeParseDate(parse, EtaRaw(raw));
                 exists best :: BestMatch(cands, Scores(ratio, parse, r.blVesselClean, r.port, blEta, cands),
                                          threshold, best, r.similarityScore) &&
                                BookingPart(r, best)
    ensures result.Some? && result.value.matchFound ==> result.value.similarityScore >= threshold as real
  {
    var found := FindShipment(shipments, hblNo, agent, sheetName);
    if found.None? {
      return None;
    }

    var shipment := found.value;
    var raw := RawJson(shipment);

    var blVessel := OrChain(Lookups(raw, VesselKeys));
    var blPort := OrChain(Lookups(raw, PortKeys));
    var etaRaw := EtaRaw(raw);
    var blEta := SafeParseDate(parse, etaRaw);

    var best, score := FindBestBookingMatch(ratio, parse, bookings, blVessel, blPort, blEta, agent, threshold);

    var r := MatchResult(
      Get(shipment.columns, "hbl_no"),
      Get(shipment.columns, "agent"),
      Get(shipment.columns, "sheet_name"),
      blVessel,
      CleanVessel(blVessel),
      blPort,
      score,
      best.Some?,
      BookingField(best, "vessel"),
      BookingField(best, "id"),
      BookingField(best, "forecast_eta"),
      BookingField(best, "booking_eta"),
      raw,
      now);
    assert BookingPart(r, best);
    result := Some(r);
  }
}
