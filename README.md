# Realtime shipment-to-booking matcher, modelled in Dafny

This project models the matching engine of `backend2/app/services/matcher.py`.
For a bill-of-lading (B/L) shipment, the engine finds the booking-forecast record that describes
the same sailing.

- `clean_vessel` normalises vessel names:
  1. upper-case the name;
  2. delete the whole-word prefix tokens `MV M/V SV MS MT HSC`;
  3. delete the whole-word voyage tokens `VOY VOYAGE V.`;
  4. blank every character outside `[A-Z0-9 ]`;
  5. collapse whitespace and trim.
- `vessel_similarity` compares two cleaned names with a token-set ratio.
- `calculate_weighted_score` mixes the vessel score (60%) with a port signal and an
  ETA signal (20% each). The ETA signal holds when `abs((bl_eta - b_eta).days) <= 10`.
  Because `.days` rounds down, this is the window `-10 days <= bl_eta - b_eta < 11 days`.
- `load_booking_candidates` queries the booking table with optional agent and port
  filters.
- `find_best_booking_match` loads the candidates (falling back to the agent-only query)
  and scans them. It keeps the first candidate with the strictly highest score, starting
  from a sentinel of -1, and then applies the acceptance threshold. The threshold
  defaults to 75, the constant `Matcher.DefaultThreshold`, modelled as a default
  parameter value.
- `get_shipment_with_realtime_match` looks up one shipment and reads the B/L vessel,
  port and ETA from its `raw_json` through ordered `or`-chains. It runs the matcher and
  assembles the result record.

Modules, one per concern of the source:

| file | module | what it holds |
|---|---|---|
| `records.dfy` | `Records` | rows as `map<string, string>`, `Option` for Python `None`, truthiness, `or`-chains, the optional equality filters |
| `clean_vessel.dfy` | `VesselClean` | the five cleaning steps, `\b(...)\b` matching as `re.sub` does it, the canonical-shape and digit-keeping proofs |
| `clean_vessel_words.dfy` | `VesselWords` | cleaning of space-separated alphanumeric words: tokens that stand alone are dropped, every other word is kept |
| `clean_vessel_cases.dfy` | `VesselCases` | concrete names that show what the word boundaries do with `V.`, `M/V` and `_` |
| `scoring.dfy` | `Scoring` | similarity behind an abstract token-set ratio, the weighted score, date parsing behind an abstract parser, the ETA window |
| `candidates.dfy` | `BookingLoad` | the booking query as an order-preserving filter over the stored rows, and the fallback |
| `matcher.dfy` | `Matcher` | the scoring of one candidate, the selection loop, the shipment lookup and the result record |

How the model relates to the source:

- **Record store.** It is a sequence of rows in the store's natural order. A query keeps,
  in order, the rows that pass its equality filters, and `limit(1)` takes the first such row.
  Load order therefore decides ties.
- **rapidfuzz.** `fuzz.token_set_ratio` is a parameter of type `TokenSetRatio`: any
  function of two strings with values in [0, 100].
- **dateutil.** `parser.parse(..., dayfirst=True)` inside its `try` is a parameter of
  type `DateParser`: a partial map from text to a timestamp in whole seconds.
- **Selection loop.** `find_best_booking_match` is a method with a `for` loop. The
  scoring at lines 103-118 is the function `CandidateScore`. The loop itself is
  `SelectBest`, proved for any score function that is never negative. It keeps the
  sentinel -1, the strict `>` and the final threshold test of the source.

Notes on what the code does, as the model follows it:

- **Scorer.** Vessel similarity is a single `token_set_ratio` call, made only when both
  cleaned names are non-empty. There are no further metrics or bonuses.
- **Alias lists.** The B/L vessel is the first truthy value among "Second Vessel",
  "SECOND VESSEL", "First Vessel", "Vessel" and "VESSEL". The port is the first truthy value
  among "Port of Origin", "Port" and "POL".
- **Empty vessel.** There is no early return for an empty B/L vessel. The candidates are
  still scanned, with vessel score 0.
- **Cleaning at scoring time.** Each booking's `vessel` field is cleaned while it is scored.
  No stored cleaned column is read.

A function without a contract of its own is specified by the lemmas whose rows name it:

- `VesselClean.SubAll` (the `re.sub` scan of lines 35-36, which `RemoveTokens` starts at 0):
  by `SubAllLeftmost`, `SubAllNoMatch`, `SubAllShorter`, `TokenDeletionOnWords`, `TokensHaveNoDigits`
  and the concrete cases.
- `BookingLoad.Candidates` (lines 89-92): by `CandidatesSpec`.
- `Scoring.EtaMatch` (lines 108-111): by `EtaMatchWindow` and `EtaMatchAsymmetric`.
- `Matcher.BookingField` (lines 188-191): by `BookingFieldSpec`.
- `VesselClean.FirstAlt`, `MatchAt`, `LStrip`, `RStrip`, `Strip` and `CollapseWhitespace`: by
  the lemmas named after them with `Spec` appended, or by the `Collapse...` lemmas.

## Model

| member | source | states |
|---|---|---|
| Records.OrChain | backend2/app/services/matcher.py:154-168 | A Python `a or b or ...` chain. The result is truthy exactly when some operand is. When truthy it is the first truthy operand; otherwise it is the last operand. |
| Records.OrEmpty | backend2/app/services/matcher.py:103 | `x or ""`: the string itself when present, and `""` for `None`. |
| VesselClean.Upper | backend2/app/services/matcher.py:32 | `str.upper()` on ASCII: the same length, with each lower-case letter mapped to its capital and every other character unchanged. |
| VesselClean.FirstAltSpec | backend2/app/services/matcher.py:35-36 | The ordered alternation picks nothing exactly when no alternative (followed by `\b`) occurs at the position. Otherwise it picks the first one that does, and no earlier alternative matches. |
| VesselClean.MatchAtSpec | backend2/app/services/matcher.py:35-36 | `\b(alts)\b` matches at a position exactly when `\b` holds there and some alternative followed by `\b` occurs there. The match ends after the first such alternative. |
| VesselClean.SubAllLeftmost | backend2/app/services/matcher.py:35-36 | `re.sub` deletes the leftmost match. When nothing matches at the positions from `i` up to `j` and the pattern matches at `j` up to `e`, the output from `i` is the text from `i` to `j`, then the output of the scan resumed at `e`. |
| VesselClean.SubAllNoMatch | backend2/app/services/matcher.py:35-36 | When the pattern matches nowhere from `i` on, the rest of the string is copied unchanged. |
| VesselClean.SubAllShorter | backend2/app/services/matcher.py:35-36 | The scan from position `i` outputs at most the characters from `i` on. |
| VesselClean.RemoveTokens | backend2/app/services/matcher.py:35-36 | Deleting the whole-word tokens never makes a name longer. |
| VesselClean.ReplaceSpecial | backend2/app/services/matcher.py:39 | `re.sub(r'[^A-Z0-9 ]', " ", s)`: the same length; each character in `[A-Z0-9 ]` is kept, and each other character becomes a space. |
| VesselClean.LStripSpec | backend2/app/services/matcher.py:42 | Stripping on the left keeps a suffix that is empty or starts with a non-whitespace character, and drops only whitespace. |
| VesselClean.RStripSpec | backend2/app/services/matcher.py:42 | Stripping on the right keeps a prefix that is empty or ends with a non-whitespace character, and drops only whitespace. |
| VesselClean.StripSpec | backend2/app/services/matcher.py:42 | `.strip()` returns the slice after the leading whitespace that is followed only by whitespace. That slice neither starts nor ends with whitespace. |
| VesselClean.CollapseFirst | backend2/app/services/matcher.py:42 | `re.sub(r'\s+', " ", s)` is empty exactly when `s` is. It starts with a space when `s` starts with whitespace, and otherwise with the same character. |
| VesselClean.CollapseNoDouble | backend2/app/services/matcher.py:42 | After collapsing, no two whitespace characters are adjacent. |
| VesselClean.CollapseClean | backend2/app/services/matcher.py:42 | Collapsing a string made of `[A-Z0-9 ]` keeps it within that class. |
| VesselClean.CleanVessel | backend2/app/services/matcher.py:27-44 | The five-step pipeline. A falsy argument (`None` or `""`) gives `""`. |
| VesselClean.CleanVesselCanonical | backend2/app/services/matcher.py:27-44 | Every cleaned name contains only `A-Z`, `0-9` and spaces, has no leading or trailing space, and never has two spaces in a row. |
| VesselClean.CleanVesselKeepsDigits | backend2/app/services/matcher.py:28-39 | "Keep vessel numbers": the digits of the cleaned name are the digits of the input, in the same order. |
| VesselClean.TokensHaveNoDigits | backend2/app/services/matcher.py:35-36 | No prefix or voyage token contains a digit, so deleting tokens never deletes a digit. |
| VesselWords.TokenDeletionOnWords | backend2/app/services/matcher.py:35-36 | On space-separated words, deleting `\b(alts)\b` (alternatives without spaces) empties exactly the words that are alternatives and keeps every other word. |
| VesselWords.CleanVesselWords | backend2/app/services/matcher.py:27-44 | Cleaning alphanumeric words joined by single spaces upper-cases them, drops those equal to a prefix or voyage token, and joins the rest with single spaces. |
| VesselWords.CleanOceanStar | backend2/app/services/matcher.py:27-44 | `clean_vessel("MV OCEAN STAR VOY 12") == "OCEAN STAR 12"`. |
| VesselCases.AttachedVoyageMatch | backend2/app/services/matcher.py:36 | In "OCEAN V.12" the voyage pattern matches `V.` at position 6, because the digit after the dot makes `\b` hold. |
| VesselCases.CleanAttachedVoyage | backend2/app/services/matcher.py:27-44 | `clean_vessel("OCEAN V.12") == "OCEAN 12"`. |
| VesselCases.SpacedVoyageNoMatch | backend2/app/services/matcher.py:36 | In "OCEAN V. 12" the voyage pattern does not match at `V.`, because a dot followed by a space is not a word boundary. |
| VesselCases.CleanSpacedVoyage | backend2/app/services/matcher.py:27-44 | `clean_vessel("OCEAN V. 12") == "OCEAN V 12"`: the marker survives as the word V, and its dot becomes a space. |
| VesselCases.SlashedPrefixMatch | backend2/app/services/matcher.py:35 | In "M/V OCEAN" the alternative MV fails on the slash and M/V matches, ending at position 3: `\b` holds before M and between V and the space. |
| VesselCases.CleanSlashedPrefix | backend2/app/services/matcher.py:27-44 | `clean_vessel("M/V OCEAN") == "OCEAN"`: the prefix containing a non-word character is deleted as a whole word. |
| VesselCases.UnderscoredNoPrefix | backend2/app/services/matcher.py:35 | In "MV_X" the prefix pattern does not match at the start, because `_` is a word character and blocks the `\b` after MV. |
| VesselCases.CleanUnderscored | backend2/app/services/matcher.py:27-44 | `clean_vessel("MV_X") == "MV X"`. |
| VesselCases.CleanMvX | backend2/app/services/matcher.py:27-44 | `clean_vessel("MV X") == "X"`. |
| VesselCases.CleanVesselNotIdempotent | backend2/app/services/matcher.py:27-44 | Cleaning a cleaned name can change it again: `clean_vessel(clean_vessel("MV_X")) != clean_vessel("MV_X")`. |
| Scoring.VesselSimilarity | backend2/app/services/matcher.py:50-53 | The result is 0 when either name is empty, otherwise the token-set ratio, and always lies in [0, 100]. |
| Scoring.WeightedScore | backend2/app/services/matcher.py:56-61 | For a vessel score in [0, 100], the weighted score lies in [0, 100]. |
| Scoring.WeightedScoreSignals | backend2/app/services/matcher.py:56-61 | The weighted score is 0.6 times the vessel score plus exactly 20 for each true signal. Turning either signal on adds 20. |
| Scoring.AcceptedNeedsSignal | backend2/app/services/matcher.py:56-61 | For a vessel score in [0, 100], a score that reaches a threshold above 60 needs the port signal or the ETA signal. |
| Scoring.SafeParseDate | backend2/app/services/matcher.py:15-21 | A falsy value gives `None`. Any other value gives whatever the parser makes of it, and a parse failure is `None`. |
| Scoring.TimedeltaDays | backend2/app/services/matcher.py:110 | `.days` of a difference in seconds is the floor of the difference divided by 86400. |
| Scoring.EtaMatchWindow | backend2/app/services/matcher.py:108-111 | The ETA signal holds exactly when both dates are present and `-864000 <= bl_eta - b_eta < 950400` seconds: 10 days one way, and just under 11 days the other way because of the floor. |
| Scoring.EtaMatchAsymmetric | backend2/app/services/matcher.py:110 | The ETA signal is not symmetric: a booking 950000 s earlier than the B/L matches, and one 950000 s later does not. |
| BookingLoad.LoadBookingCandidates | backend2/app/services/matcher.py:67-77 | The query keeps, in store order, exactly the stored rows that pass the filters, each as many times as it is stored. A filter applies only when its value is truthy. |
| BookingLoad.CandidatesSpec | backend2/app/services/matcher.py:89-95 | The agent-only fallback runs only when the port query returns nothing. Every candidate is a stored row that passes the agent filter, and also the port filter when the first query found something. There are no candidates exactly when no stored row passes the agent filter. |
| Matcher.CandidateScore | backend2/app/services/matcher.py:103-118 | The weighted score of one booking against the cleaned B/L vessel, port and ETA lies in [0, 100]. |
| Matcher.AcceptedBookingHasSignal | backend2/app/services/matcher.py:113-118 | A booking whose score reaches a threshold above 60 has the B/L port (`None == None` counts) or an ETA within the window. |
| Matcher.ScoresAt | backend2/app/services/matcher.py:102-118 | The score list has one entry per candidate, and entry k is the weighted score of candidate k. |
| Matcher.FirstMaxUnique | backend2/app/services/matcher.py:120-122 | At most one position holds a maximum score that no earlier position reaches, so the strict `>` tie-break picks exactly one candidate. |
| Matcher.BestMatchUnique | backend2/app/services/matcher.py:94-127 | The candidates, their scores and the threshold determine the returned pair. |
| Matcher.SelectBest | backend2/app/services/matcher.py:94-127 | Without candidates the result is `(None, 0)`. Otherwise the score is the maximum over all candidates. The booking is the first candidate reaching that maximum if the maximum is not below the threshold, and `None` if it is. An accepted booking is a candidate with that score, and the score is `>= threshold`. |
| Matcher.AcceptedMatchHasSignal | backend2/app/services/matcher.py:124-127 | With a threshold above 60 (the default `DefaultThreshold` is 75), an accepted booking agrees with the B/L on the port or on the ETA window. |
| Matcher.FindBestBookingMatch | backend2/app/services/matcher.py:82-127 | `find_best_booking_match` returns the result the selection above gives for the candidates from the port query, or from the agent-only fallback, scored against `clean_vessel(bl_vessel)`. An accepted booking is one of those candidates, carries its own score, and meets the threshold. |
| Matcher.FindShipment | backend2/app/services/matcher.py:139-148 | The shipment is `None` exactly when no row has the `hbl_no` and passes the optional agent and sheet filters. Otherwise it is the first such row. |
| Matcher.RawJson | backend2/app/services/matcher.py:151 | `shipment.get("raw_json") or {}`: the stored object, or the empty object when it is absent. |
| Matcher.EtaRaw | backend2/app/services/matcher.py:168 | `raw.get("ETA") or raw.get("ETD") or None` gives ETA if it is truthy, otherwise ETD if that is truthy, otherwise `None`. |
| Matcher.BookingFieldSpec | backend2/app/services/matcher.py:188-191 | `best.get(k) if best else None` is the field of the selected booking, or `None` when there is no booking. An empty booking row has no keys, so being falsy changes nothing. |
| Matcher.GetShipmentWithRealtimeMatch | backend2/app/services/matcher.py:133-194 | The result is `None` exactly when the shipment lookup finds nothing. Otherwise the record carries the shipment's identifiers, the B/L vessel and port from the ordered alias chains, the cleaned vessel, the matcher's score and booking, `match_found` exactly when a booking was returned, and the booking fields (`None` without a booking). `match_found` implies `similarity_score >= threshold`. |

## Left out

- The Supabase record store is a sequence of rows in memory. Connection and query failures are not modelled.
- rapidfuzz `token_set_ratio` and dateutil `parser.parse` are foreign libraries. They are parameters: the first is assumed to lie in [0, 100], the second is an arbitrary partial parse.
- Timestamps are whole seconds. Sub-second differences are not modelled. Neither is the `TypeError` from subtracting a timezone-aware datetime from a naive one.
- Scores are real numbers. IEEE double rounding of the `0.60` and `0.20` weightings is not modelled.
- Matcher.GetShipmentWithRealtimeMatch: `similarity_score` is the unrounded score, because `round(score, 2)` is floating-point behaviour. `matched_at` is the parameter `now`, standing for `datetime.utcnow().isoformat()`.
- Cell values are strings or `None`. The JSON numbers, booleans and nested values that `raw_json` may hold are not modelled, and neither is the `str(...)` conversion applied to them.
- `str.upper()`, `\b`/`\w` and `\s`/`strip()` are modelled on ASCII. Python's Unicode case mapping and Unicode character classes are not.
- Matcher.SelectBest: requires a score function that is never negative. `CandidateScore` always meets this, so the sentinel -1 is always beaten by the first candidate.
- `upsert_booking_rows` and `row_to_json_safe` are not part of this model: the matcher module imports no definition of them.
- The FastAPI routers, `main.py`, the pandas CSV helpers and the pydantic schemas are not part of this model. They hold no matching logic.
