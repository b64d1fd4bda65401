/** Concrete names that show how the word boundaries of lines 35-36 treat
    the voyage marker `V.`, the prefix `M/V` and the underscore. */
module VesselCases {
  import opened Records
  import opened VesselClean
  import opened VesselWords

  // ---------------------------------------------------------------------
  // Steps on concrete strings
  // ---------------------------------------------------------------------

  /** Upper-casing leaves a string without lower-case letters alone. */
  lemma UpperNoLower(s: string)
    requires forall k :: 0 <= k < |s| ==> !IsLower(s[k])
    ensures Upper(s) == s
  {
    var u := Upper(s);
    assert forall k :: 0 <= k < |s| ==> u[k] == s[k];
  }

  /** No alternative matches where no alternative starts with the character
      found there. */
  lemma NoStartNoMatch(s: string, k: nat, alts: seq<string>)
    requires NonEmptyAll(alts) && k < |s|
    requires forall j :: 0 <= j < |alts| ==> alts[j][0] != s[k]
    ensures MatchAt(s, k, alts).None?
  {
    MatchAtSpec(s, k, alts);
    assert forall j :: 0 <= j < |alts| && LiteralAt(s, k, alts[j]) ==> s[k] == alts[j][0];
  }

  /** The first characters of the prefix tokens are M, S and H. */
  lemma PrefixStarts()
    ensures NonEmptyAll(PrefixTokens)
    ensures forall j :: 0 <= j < |PrefixTokens| ==>
              PrefixTokens[j][0] == 'M' || PrefixTokens[j][0] == 'S' || PrefixTokens[j][0] == 'H'
  {
  }

  /** Every voyage token starts with V. */
  lemma VoyageStarts()
    ensures NonEmptyAll(VoyageTokens)
    ensures forall j :: 0 <= j < |VoyageTokens| ==> VoyageTokens[j][0] == 'V'
  {
  }

  /** A string without M, S or H keeps every character through the prefix
      deletion. */
  lemma NoPrefixStart(s: string)
    requires forall k :: 0 <= k < |s| ==> s[k] != 'M' && s[k] != 'S' && s[k] != 'H'
    ensures NonEmptyAll(PrefixTokens)
    ensures RemoveTokens(s, PrefixTokens) == s
  {
    PrefixStarts();
    forall k | 0 <= k < |s| ensures MatchAt(s, k, PrefixTokens).None? {
      NoStartNoMatch(s, k, PrefixTokens);
    }
    SubAllCopies(s, 0, |s|, PrefixTokens);
  }

  /** Between `i` and `j` there is no V, so the voyage deletion copies that
      stretch. */
  lemma NoVoyageStart(s: string, i: nat, j: nat)
    requires i <= j <= |s|
    requires forall k :: i <= k < j ==> s[k] != 'V'
    ensures NonEmptyAll(VoyageTokens)
    ensures SubAll(s, i, VoyageTokens) == s[i..j] + SubAll(s, j, VoyageTokens)
  {
    VoyageStarts();
    forall k | i <= k < j ensures MatchAt(s, k, VoyageTokens).None? {
      NoStartNoMatch(s, k, VoyageTokens);
    }
    SubAllCopies(s, i, j, VoyageTokens);
  }

  /** The cleaning of a string with no lower-case letter and no M, S or H:
      the pipeline after the prefix deletion. */
  lemma CleanSteps(s: string)
    requires s != ""
    requires forall k :: 0 <= k < |s| ==> !IsLower(s[k]) && s[k] != 'M' && s[k] != 'S' && s[k] != 'H'
    ensures NonEmptyAll(VoyageTokens)
    ensures CleanVessel(Some(s)) ==
            Strip(CollapseWhitespace(ReplaceSpecial(RemoveTokens(s, VoyageTokens))))
  {
    CleanVesselSteps(s);
    UpperNoLower(s);
    NoPrefixStart(s);
    VoyageStarts();
  }

  /** Collapsing and stripping space-joined clean segments, some of them
      empty, keeps the non-empty ones joined by single spaces. It is stated
      for a given `x` so that a caller passing a literal string does not
      make the verifier unfold `JoinSp` on that literal. */
  lemma CollapseSegments(ws: seq<string>, x: string)
    requires forall k :: 0 <= k < |ws| ==> CleanSeg(ws[k])
    requires x == JoinSp(ws)
    ensures Strip(CollapseWhitespace(x)) == JoinSp(NonEmpty(ws))
  {
    CollapseStripJoin(ws);
  }

  /** `t` does not occur at `i` when one of its characters differs. */
  lemma NotLiteralAt(s: string, i: nat, t: string, m: nat)
    requires m < |t| && i + m < |s| && s[i + m] != t[m]
    ensures !LiteralAt(s, i, t)
  {
    if i + |t| <= |s| {
      assert s[i..i + |t|][m] == s[i + m];
    }
  }

  /** The voyage tokens, one by one. */
  lemma VoyageList()
    ensures VoyageTokens == ["VOY", "VOYAGE", "V."]
    ensures |VoyageTokens| == 3
    ensures VoyageTokens[0] == "VOY" && VoyageTokens[1] == "VOYAGE" && VoyageTokens[2] == "V."
  {
  }

  // ---------------------------------------------------------------------
  // `V.` followed by a word character is deleted
  // ---------------------------------------------------------------------

  const Attached: string := "OCEAN V.12"

  lemma AttachedChars()
    ensures |Attached| == 10
    ensures forall k :: 0 <= k < |Attached| ==>
              !IsLower(Attached[k]) && Attached[k] != 'M' && Attached[k] != 'S' && Attached[k] != 'H'
    ensures forall k :: 0 <= k < 6 ==> Attached[k] != 'V'
    ensures forall k :: 8 <= k < 10 ==> Attached[k] != 'V'
    ensures Attached[5] == ' ' && Attached[6] == 'V' && Attached[7] == '.' && Attached[8] == '1'
    ensures Attached[6..8] == "V."
    ensures Attached[0..6] + Attached[8..10] == "OCEAN 12"
  {
  }

  /** At position 6 of "OCEAN V.12" the third voyage alternative matches:
      `V.` is followed by the digit 1, so `\b` holds after the dot. */
  lemma AttachedVoyageMatch()
    ensures NonEmptyAll(VoyageTokens)
    ensures MatchAt(Attached, 6, VoyageTokens) == Some(8)
  {
    var s, v := Attached, VoyageTokens;
    VoyageStarts();
    VoyageList();
    AttachedChars();
    NotLiteralAt(s, 6, v[0], 1);
    NotLiteralAt(s, 6, v[1], 1);
    assert LiteralAt(s, 6, v[2]);
    assert Boundary(s, 6) && Boundary(s, 8);
    assert !AltMatches(s, 6, v[0]) && !AltMatches(s, 6, v[1]) && AltMatches(s, 6, v[2]);
    FirstAltSpec(s, 6, v);
    MatchAtSpec(s, 6, v);
  }

  lemma AttachedVoyageDeleted()
    ensures NonEmptyAll(VoyageTokens)
    ensures RemoveTokens(Attached, VoyageTokens) == "OCEAN 12"
  {
    var s := Attached;
    AttachedChars();
    NoVoyageStart(s, 0, 6);
    AttachedVoyageMatch();
    SubAllSkip(s, 6, 8, VoyageTokens);
    NoVoyageStart(s, 8, 10);
  }

  lemma OceanTwelve()
    ensures JoinSp(["OCEAN", "12"]) == "OCEAN 12"
    ensures NonEmpty(["OCEAN", "12"]) == ["OCEAN", "12"]
    ensures CleanSeg("OCEAN") && CleanSeg("12")
  {
    var ws := ["OCEAN", "12"];
    assert ws[1..] == ["12"];
  }

  lemma OceanTwelveTail()
    ensures Strip(CollapseWhitespace("OCEAN 12")) == "OCEAN 12"
  {
    OceanTwelve();
    CollapseSegments(["OCEAN", "12"], "OCEAN 12");
  }

  lemma OceanTwelveReplaced()
    ensures ReplaceSpecial("OCEAN 12") == "OCEAN 12"
  {
    OceanTwelve();
    CleanJoin(["OCEAN", "12"]);
    ReplaceSpecialClean("OCEAN 12");
  }

  /** `clean_vessel("OCEAN V.12") == "OCEAN 12"` */
  lemma CleanAttachedVoyage()
    ensures CleanVessel(Some("OCEAN V.12")) == "OCEAN 12"
  {
    AttachedChars();
    CleanSteps(Attached);
    AttachedVoyageDeleted();
    OceanTwelveReplaced();
    OceanTwelveTail();
  }

  // ---------------------------------------------------------------------
  // `V.` followed by a space is kept, and its dot becomes a space
  // ---------------------------------------------------------------------

  const Spaced: string := "OCEAN V. 12"

  lemma SpacedChars()
    ensures |Spaced| == 11
    ensures forall k :: 0 <= k < |Spaced| ==>
              !IsLower(Spaced[k]) && Spaced[k] != 'M' && Spaced[k] != 'S' && Spaced[k] != 'H'
    ensures forall k :: 0 <= k < 6 ==> Spaced[k] != 'V'
    ensures forall k :: 7 <= k < 11 ==> Spaced[k] != 'V'
    ensures Spaced[5] == ' ' && Spaced[6] == 'V' && Spaced[7] == '.' && Spaced[8] == ' '
    ensures forall k :: 0 <= k < |Spaced| && k != 7 ==> IsCleanChar(Spaced[k])
  {
  }

  /** At position 6 of "OCEAN V. 12" nothing matches: `V.` occurs, but a
      dot followed by a space is not a word boundary. */
  lemma SpacedVoyageNoMatch()
    ensures NonEmptyAll(VoyageTokens)
    ensures MatchAt(Spaced, 6, VoyageTokens).None?
  {
    var s, v := Spaced, VoyageTokens;
    VoyageStarts();
    VoyageList();
    SpacedChars();
    NotLiteralAt(s, 6, v[0], 1);
    NotLiteralAt(s, 6, v[1], 1);
    assert !Boundary(s, 8);
    assert !AltMatches(s, 6, v[0]) && !AltMatches(s, 6, v[1]) && !AltMatches(s, 6, v[2]);
    MatchAtSpec(s, 6, v);
  }

  lemma SpacedVoyageKept()
    ensures NonEmptyAll(VoyageTokens)
    ensures RemoveTokens(Spaced, VoyageTokens) == Spaced
  {
    var s := Spaced;
    SpacedChars();
    VoyageStarts();
    SpacedVoyageNoMatch();
    forall k | 0 <= k < |s| ensures MatchAt(s, k, VoyageTokens).None? {
      if k != 6 {
        NoStartNoMatch(s, k, VoyageTokens);
      }
    }
    SubAllCopies(s, 0, |s|, VoyageTokens);
  }

  const SpacedReplaced: string := "OCEAN V  12"

  lemma SpacedReplacedChars()
    ensures |SpacedReplaced| == |Spaced| && SpacedReplaced[7] == ' '
    ensures forall k :: 0 <= k < |Spaced| && k != 7 ==> SpacedReplaced[k] == Spaced[k]
  {
  }

  /** `ReplaceSpecial` when exactly position `m` is outside `[A-Z0-9 ]`. */
  lemma ReplaceOne(s: string, r: string, m: nat)
    requires |r| == |s| && m < |s| && !IsCleanChar(s[m]) && r[m] == ' '
    requires forall k :: 0 <= k < |s| && k != m ==> IsCleanChar(s[k]) && r[k] == s[k]
    ensures ReplaceSpecial(s) == r
  {
    var x := ReplaceSpecial(s);
    assert forall k :: 0 <= k < |s| ==> x[k] == r[k];
  }

  lemma SpacedReplace()
    ensures ReplaceSpecial(Spaced) == SpacedReplaced
  {
    SpacedChars();
    SpacedReplacedChars();
    ReplaceOne(Spaced, SpacedReplaced, 7);
  }

  lemma OceanVTwelve()
    ensures JoinSp(["OCEAN", "V", "", "12"]) == SpacedReplaced
    ensures NonEmpty(["OCEAN", "V", "", "12"]) == ["OCEAN", "V", "12"]
    ensures JoinSp(["OCEAN", "V", "12"]) == "OCEAN V 12"
    ensures CleanSeg("OCEAN") && CleanSeg("V") && CleanSeg("") && CleanSeg("12")
  {
    var ws := ["OCEAN", "V", "", "12"];
    assert ws[1..] == ["V", "", "12"] && ws[2..] == ["", "12"] && ws[3..] == ["12"];
    var ne := ["OCEAN", "V", "12"];
    assert ne[1..] == ["V", "12"] && ne[2..] == ["12"];
  }

  lemma OceanVTwelveTail()
    ensures Strip(CollapseWhitespace(SpacedReplaced)) == "OCEAN V 12"
  {
    OceanVTwelve();
    CollapseSegments(["OCEAN", "V", "", "12"], SpacedReplaced);
  }

  /** `clean_vessel("OCEAN V. 12") == "OCEAN V 12"`: the voyage marker
      survives as the word V. */
  lemma CleanSpacedVoyage()
    ensures CleanVessel(Some("OCEAN V. 12")) == "OCEAN V 12"
  {
    SpacedChars();
    CleanSteps(Spaced);
    SpacedVoyageKept();
    SpacedReplace();
    OceanVTwelveTail();
  }

  // ---------------------------------------------------------------------
  // An underscore blocks the prefix token, and cleaning is not idempotent
  // ---------------------------------------------------------------------

  /** The prefix tokens, one by one. */
  lemma PrefixList()
    ensures |PrefixTokens| == 6
    ensures PrefixTokens[0] == "MV" && PrefixTokens[1] == "M/V" && PrefixTokens[2] == "SV"
    ensures PrefixTokens[3] == "MS" && PrefixTokens[4] == "MT" && PrefixTokens[5] == "HSC"
  {
  }

  const Underscored: string := "MV_X"

  lemma UnderscoredChars()
    ensures |Underscored| == 4
    ensures Underscored[0] == 'M' && Underscored[1] == 'V' && Underscored[2] == '_' && Underscored[3] == 'X'
    ensures forall k :: 0 <= k < |Underscored| ==> !IsLower(Underscored[k])
  {
  }

  /** "MV" occurs at the start of "MV_X", but `_` is a word character, so
      there is no `\b` after it; no other prefix token occurs there. */
  lemma UnderscoredNoPrefix()
    ensures NonEmptyAll(PrefixTokens)
    ensures MatchAt(Underscored, 0, PrefixTokens).None?
  {
    var s, p := Underscored, PrefixTokens;
    UnderscoredChars();
    PrefixList();
    PrefixStarts();
    assert !Boundary(s, 2);
    NotLiteralAt(s, 0, p[1], 1);
    NotLiteralAt(s, 0, p[2], 0);
    NotLiteralAt(s, 0, p[3], 1);
    NotLiteralAt(s, 0, p[4], 1);
    NotLiteralAt(s, 0, p[5], 0);
    assert forall k :: 0 <= k < |p| ==> !AltMatches(s, 0, p[k]);
    MatchAtSpec(s, 0, p);
  }

  lemma UnderscoredPrefixKept()
    ensures NonEmptyAll(PrefixTokens)
    ensures RemoveTokens(Underscored, PrefixTokens) == Underscored
  {
    var s := Underscored;
    UnderscoredChars();
    UnderscoredNoPrefix();
    assert !Boundary(s, 1) && !Boundary(s, 2) && !Boundary(s, 3);
    SubAllCopies(s, 0, |s|, PrefixTokens);
  }

  lemma UnderscoredVoyageKept()
    ensures NonEmptyAll(VoyageTokens)
    ensures RemoveTokens(Underscored, VoyageTokens) == Underscored
  {
    var s := Underscored;
    UnderscoredChars();
    VoyageStarts();
    assert !Boundary(s, 1);
    forall k | 0 <= k < |s| ensures MatchAt(s, k, VoyageTokens).None? {
      if k != 1 {
        NoStartNoMatch(s, k, VoyageTokens);
      }
    }
    SubAllCopies(s, 0, |s|, VoyageTokens);
  }

  const UnderscoredReplaced: string := "MV X"

  lemma UnderscoredReplace()
    ensures ReplaceSpecial(Underscored) == UnderscoredReplaced
  {
    UnderscoredChars();
    assert |UnderscoredReplaced| == 4 && UnderscoredReplaced[2] == ' ';
    assert forall k :: 0 <= k < 4 && k != 2 ==> IsCleanChar(Underscored[k]) && UnderscoredReplaced[k] == Underscored[k];
    ReplaceOne(Underscored, UnderscoredReplaced, 2);
  }

  lemma MvXWords()
    ensures JoinSp(["MV", "X"]) == UnderscoredReplaced
    ensures NonEmpty(["MV", "X"]) == ["MV", "X"]
    ensures CleanSeg("MV") && CleanSeg("X") && AlnumWord("MV") && AlnumWord("X")
    ensures Kept(["MV", "X"]) == ["X"]
  {
    var ws := ["MV", "X"];
    assert ws[1..] == ["X"];
    assert PrefixTokens[0] == "MV";
    assert forall k :: 0 <= k < |PrefixTokens| ==> |PrefixTokens[k]| >= 2;
    assert forall k :: 0 <= k < |VoyageTokens| ==> |VoyageTokens[k]| >= 2;
    assert !IsNoiseWord("X");
  }

  lemma MvXTail()
    ensures Strip(CollapseWhitespace(UnderscoredReplaced)) == UnderscoredReplaced
  {
    MvXWords();
    CollapseSegments(["MV", "X"], UnderscoredReplaced);
  }

  /** `clean_vessel("MV_X") == "MV X"`: the underscore keeps MV from being a
      whole word at line 35 and only becomes a space at line 39. */
  lemma CleanUnderscored()
    ensures CleanVessel(Some("MV_X")) == "MV X"
  {
    UnderscoredChars();
    CleanVesselSteps(Underscored);
    UpperNoLower(Underscored);
    UnderscoredPrefixKept();
    UnderscoredVoyageKept();
    UnderscoredReplace();
    MvXTail();
  }

  /** Cleaning "MV X" again deletes MV. */
  lemma CleanMvX()
    ensures CleanVessel(Some("MV X")) == "X"
  {
    var ws := ["MV", "X"];
    MvXWords();
    CleanVesselWords(ws);
    UpperAllClean(ws);
    assert JoinSp(["X"]) == "X";
  }

  /** So `clean_vessel` is not idempotent. */
  lemma CleanVesselNotIdempotent()
    ensures CleanVessel(Some(CleanVessel(Some("MV_X")))) != CleanVessel(Some("MV_X"))
  {
    CleanUnderscored();
    CleanMvX();
  }

  // ---------------------------------------------------------------------
  // The prefix `M/V`, whose middle character is not a word character
  // ---------------------------------------------------------------------

  const Slashed: string := "M/V OCEAN"
  const SlashedRest: string := " OCEAN"

  lemma SlashedChars()
    ensures |Slashed| == 9 && |SlashedRest| == 6
    ensures Slashed[0] == 'M' && Slashed[1] == '/' && Slashed[2] == 'V' && Slashed[3] == ' '
    ensures forall k :: 0 <= k < |Slashed| ==> !IsLower(Slashed[k])
    ensures forall k :: 3 <= k < 9 ==> Slashed[k] != 'M' && Slashed[k] != 'S' && Slashed[k] != 'H'
    ensures forall k :: 0 <= k < 6 ==> SlashedRest[k] != 'V'
    ensures Slashed[0..3] == "M/V" && Slashed[3..9] == SlashedRest
  {
  }

  /** At the start of "M/V OCEAN" the first alternative MV fails on the
      slash and the second one, M/V, matches: `\b` holds before M and
      between V and the space. */
  lemma SlashedPrefixMatch()
    ensures NonEmptyAll(PrefixTokens)
    ensures MatchAt(Slashed, 0, PrefixTokens) == Some(3)
  {
    var s, p := Slashed, PrefixTokens;
    SlashedChars();
    PrefixList();
    PrefixStarts();
    NotLiteralAt(s, 0, p[0], 1);
    assert LiteralAt(s, 0, p[1]);
    assert Boundary(s, 0) && Boundary(s, 3);
    assert !AltMatches(s, 0, p[0]) && AltMatches(s, 0, p[1]);
    FirstAltSpec(s, 0, p);
    MatchAtSpec(s, 0, p);
  }

  lemma SlashedPrefixDeleted()
    ensures NonEmptyAll(PrefixTokens)
    ensures RemoveTokens(Slashed, PrefixTokens) == SlashedRest
  {
    var s, p := Slashed, PrefixTokens;
    SlashedChars();
    PrefixStarts();
    SlashedPrefixMatch();
    SubAllSkip(s, 0, 3, p);
    forall k | 3 <= k < 9 ensures MatchAt(s, k, p).None? {
      NoStartNoMatch(s, k, p);
    }
    SubAllCopies(s, 3, 9, p);
  }

  lemma SlashedRestWords()
    ensures JoinSp(["", "OCEAN"]) == SlashedRest
    ensures NonEmpty(["", "OCEAN"]) == ["OCEAN"]
    ensures JoinSp(["OCEAN"]) == "OCEAN"
    ensures CleanSeg("") && CleanSeg("OCEAN")
  {
    var ws := ["", "OCEAN"];
    assert ws[1..] == ["OCEAN"];
  }

  lemma SlashedRestKept()
    ensures NonEmptyAll(VoyageTokens)
    ensures RemoveTokens(SlashedRest, VoyageTokens) == SlashedRest
    ensures ReplaceSpecial(SlashedRest) == SlashedRest
  {
    SlashedChars();
    NoVoyageStart(SlashedRest, 0, 6);
    SlashedRestWords();
    CleanJoin(["", "OCEAN"]);
    ReplaceSpecialClean(SlashedRest);
  }

  lemma SlashedRestTail()
    ensures Strip(CollapseWhitespace(SlashedRest)) == "OCEAN"
  {
    SlashedRestWords();
    CollapseSegments(["", "OCEAN"], SlashedRest);
  }

  /** `clean_vessel("M/V OCEAN") == "OCEAN"` */
  lemma CleanSlashedPrefix()
    ensures CleanVessel(Some("M/V OCEAN")) == "OCEAN"
  {
    SlashedChars();
    CleanVesselSteps(Slashed);
    UpperNoLower(Slashed);
    SlashedPrefixDeleted();
    SlashedRestKept();
    SlashedRestTail();
  }
}
