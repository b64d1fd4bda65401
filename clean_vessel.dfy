/** `clean_vessel`: the normaliser that turns a raw vessel-name field into
    the canonical form the matcher compares. It is a fixed pipeline:
    upper-case, delete whole-word prefix tokens, delete whole-word voyage
    tokens, turn every character outside `[A-Z0-9 ]` into a space, collapse
    whitespace runs and trim.

    The two token deletions are Python `re.sub` calls with the pattern
    `\b(t1|t2|...)\b` and an empty replacement. They are modelled as a
    left-to-right scan of the ORIGINAL string: at each position the
    leading `\b` is checked, then the alternatives in order, each followed
    by the trailing `\b`; the first that succeeds is deleted and the scan
    resumes after it, otherwise one character is copied. Word characters
    (for `\b`) are ASCII letters, digits and `_`. */
module VesselClean {
  import opened Records

  /** Alternatives of the pattern at matcher.py line 35, in order. */
  const PrefixTokens: seq<string> := ["MV", "M/V", "SV", "MS", "MT", "HSC"]
  /** Alternatives of the pattern at matcher.py line 36, in order. */
  const VoyageTokens: seq<string> := ["VOY", "VOYAGE", "V."]

  // ---------------------------------------------------------------------
  // Character classes
  // ---------------------------------------------------------------------

  predicate IsLower(c: char) { 'a' <= c <= 'z' }
  predicate IsUpper(c: char) { 'A' <= c <= 'Z' }
  predicate IsDigit(c: char) { '0' <= c <= '9' }

  /** `\w` restricted to ASCII. */
  predicate IsWordChar(c: char) { IsUpper(c) || IsLower(c) || IsDigit(c) || c == '_' }

  /** The class `[A-Z0-9 ]` kept at line 39. */
  predicate IsCleanChar(c: char) { IsUpper(c) || IsDigit(c) || c == ' ' }

  /** `\s` and `str.strip()` whitespace restricted to ASCII:
      space, \t \n \v \f \r (9..13) and the separators 28..31. */
  predicate IsSpace(c: char) { c == ' ' || 9 <= c as int <= 13 || 28 <= c as int <= 31 }

  predicate AllClean(s: string) { forall k :: 0 <= k < |s| ==> IsCleanChar(s[k]) }

  /** No two whitespace characters stand next to each other. */
  ghost predicate NoDoubleWs(s: string)
  {
    forall j, k :: 0 <= j && k == j + 1 && k < |s| ==> !(IsSpace(s[j]) && IsSpace(s[k]))
  }

  /** The shape every cleaned name has: only `A-Z`, `0-9` and spaces, no
      leading or trailing space, no two spaces in a row. */
  ghost predicate Canonical(s: string)
  {
    && AllClean(s)
    && (s != [] ==> s[0] != ' ' && s[|s| - 1] != ' ')
    && forall j, k :: 0 <= j && k == j + 1 && k < |s| ==> !(s[j] == ' ' && s[k] == ' ')
  }

  /** The ASCII digits of `s`, in order. */
  function Digits(s: string): string
  {
    if s == [] then [] else (if IsDigit(s[0]) then [s[0]] else []) + Digits(s[1..])
  }

  // ---------------------------------------------------------------------
  // Step 1: str.upper()
  // ---------------------------------------------------------------------

  function UpperChar(c: char): char
  {
    if IsLower(c) then (c as int - 32) as char else c
  }

  function Upper(s: string): (r: string)
    ensures |r| == |s|
    ensures forall k :: 0 <= k < |s| ==> r[k] == UpperChar(s[k])
  {
    if s == [] then [] else [UpperChar(s[0])] + Upper(s[1..])
  }

  // ---------------------------------------------------------------------
  // Steps 2 and 3: re.sub(r'\b(t1|...|tn)\b', "", s)
  // ---------------------------------------------------------------------

  /** `\b` at position `k` of `s`: exactly one of the neighbours is a word
      character (a missing neighbour is not one). */
  predicate Boundary(s: string, k: nat)
    requires k <= |s|
  {
    (k > 0 && IsWordChar(s[k - 1])) != (k < |s| && IsWordChar(s[k]))
  }

  /** The literal `t` occurs at position `i` of `s`. */
  predicate LiteralAt(s: string, i: nat, t: string)
  {
    i + |t| <= |s| && s[i..i + |t|] == t
  }

  /** Alternative `t`, followed by `\b`, matches at position `i`. */
  predicate AltMatches(s: string, i: nat, t: string)
  {
    LiteralAt(s, i, t) && Boundary(s, i + |t|)
  }

  predicate NonEmptyAll(alts: seq<string>)
  {
    forall k :: 0 <= k < |alts| ==> |alts[k]| > 0
  }

  /** The index of the first alternative (in pattern order) that matches
      at `i`, as the regex engine's ordered alternation picks it. */
  function FirstAlt(s: string, i: nat, alts: seq<string>): (r: Option<nat>)
    ensures r.Some? ==> r.value < |alts| && AltMatches(s, i, alts[r.value])
  {
    if alts == [] then None
    else if AltMatches(s, i, alts[0]) then Some(0)
    else
      match FirstAlt(s, i, alts[1..])
      case None => None
      case Some(k) => Some(k + 1)
  }

  /** None exactly when no alternative matches; otherwise no earlier
      alternative matches. */
  lemma {:induction false} FirstAltSpec(s: string, i: nat, alts: seq<string>)
    ensures FirstAlt(s, i, alts).None? <==> forall k :: 0 <= k < |alts| ==> !AltMatches(s, i, alts[k])
    ensures FirstAlt(s, i, alts).Some? ==>
              forall j :: 0 <= j < FirstAlt(s, i, alts).value ==> !AltMatches(s, i, alts[j])
  {
    if alts != [] && !AltMatches(s, i, alts[0]) {
      FirstAltSpec(s, i, alts[1..]);
      assert forall k :: 1 <= k < |alts| ==> alts[k] == alts[1..][k - 1];
    }
  }

  /** The whole pattern `\b(alts)\b` tried at position `i`: the end of the
      match, if any. */
  function MatchAt(s: string, i: nat, alts: seq<string>): (r: Option<nat>)
    requires i <= |s|
    requires NonEmptyAll(alts)
    ensures r.Some? ==> i < r.value <= |s|
  {
    if !Boundary(s, i) then None
    else
      match FirstAlt(s, i, alts)
      case None => None
      case Some(k) => Some(i + |alts[k]|)
  }

  /** The pattern matches at `i` exactly when `\b` holds there and some
      alternative, followed by `\b`, occurs there; the match is the first
      such alternative. */
  lemma MatchAtSpec(s: string, i: nat, alts: seq<string>)
    requires i <= |s|
    requires NonEmptyAll(alts)
    ensures MatchAt(s, i, alts).None? <==>
              !Boundary(s, i) || forall k :: 0 <= k < |alts| ==> !AltMatches(s, i, alts[k])
    ensures MatchAt(s, i, alts).Some? ==>
              exists k :: 0 <= k < |alts| && AltMatches(s, i, alts[k]) &&
                          MatchAt(s, i, alts).value == i + |alts[k]| &&
                          forall j :: 0 <= j < k ==> !AltMatches(s, i, alts[j])
  {
    FirstAltSpec(s, i, alts);
  }

  /** The output of the substitution for the part of `s` from `i` on: at
      each position a match is deleted and the scan resumes after it,
      otherwise one character is copied. */
  function SubAll(s: string, i: nat, alts: seq<string>): string
    requires i <= |s|
    requires NonEmptyAll(alts)
    decreases |s| - i
  {
    if i == |s| then []
    else
      match MatchAt(s, i, alts)
      case Some(j) => SubAll(s, j, alts)
      case None => [s[i]] + SubAll(s, i + 1, alts)
  }

  /** One step of the scan where the pattern does not match. */
  lemma SubAllCopy(s: string, i: nat, alts: seq<string>)
    requires NonEmptyAll(alts)
    requires i < |s| && MatchAt(s, i, alts).None?
    ensures SubAll(s, i, alts) == [s[i]] + SubAll(s, i + 1, alts)
  {
  }

  /** One step of the scan where the pattern matches up to `j`. */
  lemma SubAllSkip(s: string, i: nat, j: nat, alts: seq<string>)
    requires NonEmptyAll(alts)
    requires i < |s| && MatchAt(s, i, alts) == Some(j)
    ensures SubAll(s, i, alts) == SubAll(s, j, alts)
  {
  }

  /** Positions where the pattern does not match are copied one by one. */
  lemma {:induction false} SubAllCopies(s: string, i: nat, j: nat, alts: seq<string>)
    requires NonEmptyAll(alts) && i <= j <= |s|
    requires forall k :: i <= k < j ==> MatchAt(s, k, alts).None?
    ensures SubAll(s, i, alts) == s[i..j] + SubAll(s, j, alts)
    decreases j - i
  {
    if i < j {
      SubAllCopies(s, i + 1, j, alts);
      var rest := SubAll(s, j, alts);
      assert s[i..j] == [s[i]] + s[i + 1..j];
      assert [s[i]] + (s[i + 1..j] + rest) == ([s[i]] + s[i + 1..j]) + rest;
    } else {
      assert s[i..j] == [];
    }
  }

  /** `re.sub` deletes the leftmost match: when nothing matches at the
      positions from `i` up to `j` and the pattern matches at `j` up to `e`,
      the text from `i` to `j` is copied, the match is dropped and the scan
      resumes at `e`. */
  lemma SubAllLeftmost(s: string, i: nat, j: nat, e: nat, alts: seq<string>)
    requires NonEmptyAll(alts) && i <= j <= |s|
    requires forall k :: i <= k < j ==> MatchAt(s, k, alts).None?
    requires MatchAt(s, j, alts) == Some(e)
    ensures SubAll(s, i, alts) == s[i..j] + SubAll(s, e, alts)
  {
    SubAllCopies(s, i, j, alts);
    SubAllSkip(s, j, e, alts);
  }

  /** When nothing matches from `i` on, the rest is copied unchanged. */
  lemma SubAllNoMatch(s: string, i: nat, alts: seq<string>)
    requires NonEmptyAll(alts) && i <= |s|
    requires forall k :: i <= k < |s| ==> MatchAt(s, k, alts).None?
    ensures SubAll(s, i, alts) == s[i..]
  {
    SubAllCopies(s, i, |s|, alts);
    assert s[i..|s|] + [] == s[i..];
  }

  /** The scan from `i` outputs at most the characters from `i` on. */
  lemma {:induction false} SubAllShorter(s: string, i: nat, alts: seq<string>)
    requires i <= |s|
    requires NonEmptyAll(alts)
    ensures |SubAll(s, i, alts)| <= |s| - i
    decreases |s| - i
  {
    if i < |s| {
      match MatchAt(s, i, alts)
      case Some(j) => SubAllShorter(s, j, alts);
      case None => SubAllShorter(s, i + 1, alts);
    }
  }

  /** `re.sub(r'\b(t1|...|tn)\b', "", s)`: deleting tokens never lengthens. */
  function RemoveTokens(s: string, alts: seq<string>): (r: string)
    requires NonEmptyAll(alts)
    ensures |r| <= |s|
  {
    SubAllShorter(s, 0, alts);
    SubAll(s, 0, alts)
  }

  // ---------------------------------------------------------------------
  // Step 4: re.sub(r'[^A-Z0-9 ]', " ", s)
  // ---------------------------------------------------------------------

  /** Every character outside `[A-Z0-9 ]` becomes a space; the others stay. */
  function ReplaceSpecial(s: string): (r: string)
    ensures |r| == |s| && AllClean(r)
    ensures forall k :: 0 <= k < |s| ==> r[k] == if IsCleanChar(s[k]) then s[k] else ' '
  {
    if s == [] then []
    else
      var rest := ReplaceSpecial(s[1..]);
      assert forall k :: 1 <= k < |s| ==> s[k] == s[1..][k - 1];
      [if IsCleanChar(s[0]) then s[0] else ' '] + rest
  }

  // ---------------------------------------------------------------------
  // Step 5: re.sub(r'\s+', " ", s).strip()
  // ---------------------------------------------------------------------

  /** Drops the leading whitespace. */
  function LStrip(s: string): (r: string)
    ensures |r| <= |s|
  {
    if |s| > 0 && IsSpace(s[0]) then LStrip(s[1..]) else s
  }

  /** LStrip keeps a suffix, drops only whitespace, and stops at the first
      character that is not whitespace. */
  lemma {:induction false} LStripSpec(s: string)
    ensures LStrip(s) == s[|s| - |LStrip(s)|..]
    ensures forall k :: 0 <= k < |s| - |LStrip(s)| ==> IsSpace(s[k])
    ensures LStrip(s) == [] || !IsSpace(LStrip(s)[0])
    decreases |s|
  {
    if |s| > 0 && IsSpace(s[0]) {
      LStripSpec(s[1..]);
      assert forall k :: 1 <= k < |s| ==> s[k] == s[1..][k - 1];
    }
  }

  /** Drops the trailing whitespace. */
  function RStrip(s: string): (r: string)
    ensures |r| <= |s|
  {
    if |s| > 0 && IsSpace(s[|s| - 1]) then RStrip(s[..|s| - 1]) else s
  }

  /** RStrip keeps a prefix, drops only whitespace, and stops at the last
      character that is not whitespace. */
  lemma {:induction false} RStripSpec(s: string)
    ensures RStrip(s) == s[..|RStrip(s)|]
    ensures forall k :: |RStrip(s)| <= k < |s| ==> IsSpace(s[k])
    ensures RStrip(s) == [] || !IsSpace(RStrip(s)[|RStrip(s)| - 1])
    decreases |s|
  {
    if |s| > 0 && IsSpace(s[|s| - 1]) {
      RStripSpec(s[..|s| - 1]);
    }
  }

  /** The number of leading whitespace characters of `s`. */
  function LeadingWs(s: string): nat
  {
    |s| - |LStrip(s)|
  }

  /** `str.strip()` */
  function Strip(s: string): string
  {
    RStrip(LStrip(s))
  }

  /** Strip gives the slice of `s` that starts after its leading
      whitespace and is followed by whitespace only, and that slice neither
      starts nor ends with whitespace. */
  lemma StripSpec(s: string)
    ensures Strip(s) == [] || (!IsSpace(Strip(s)[0]) && !IsSpace(Strip(s)[|Strip(s)| - 1]))
    ensures LeadingWs(s) + |Strip(s)| <= |s|
    ensures Strip(s) == s[LeadingWs(s)..LeadingWs(s) + |Strip(s)|]
    ensures forall k :: 0 <= k < LeadingWs(s) ==> IsSpace(s[k])
    ensures forall k :: LeadingWs(s) + |Strip(s)| <= k < |s| ==> IsSpace(s[k])
  {
    var l := LStrip(s);
    var r := RStrip(l);
    var a := |s| - |l|;
    LStripSpec(s);
    RStripSpec(l);
    assert forall k :: a + |r| <= k < |s| ==> s[k] == l[k - a];
    if r != [] {
      assert r[0] == l[0];
    }
  }

  /** `re.sub(r'\s+', " ", s)`: each maximal run of whitespace becomes one
      space. */
  function CollapseWhitespace(s: string): (r: string)
    ensures |r| <= |s|
    decreases |s|
  {
    if s == [] then []
    else if IsSpace(s[0]) then " " + CollapseWhitespace(LStrip(s))
    else [s[0]] + CollapseWhitespace(s[1..])
  }

  /** The collapsed string is empty exactly when the input is, and starts
      with a space exactly when the input starts with whitespace. */
  lemma CollapseFirst(s: string)
    ensures s == [] <==> CollapseWhitespace(s) == []
    ensures s != [] ==> CollapseWhitespace(s)[0] == (if IsSpace(s[0]) then ' ' else s[0])
  {
  }

  /** After collapsing, no two whitespace characters are adjacent. */
  lemma {:induction false} CollapseNoDouble(s: string)
    ensures NoDoubleWs(CollapseWhitespace(s))
    decreases |s|
  {
    if s != [] {
      var r := CollapseWhitespace(s);
      var t := if IsSpace(s[0]) then LStrip(s) else s[1..];
      CollapseNoDouble(t);
      CollapseFirst(t);
      var rt := CollapseWhitespace(t);
      assert r == [r[0]] + rt;
      if IsSpace(s[0]) {
        LStripSpec(s);
        assert rt == [] || !IsSpace(rt[0]);
      }
      forall j, k | 0 <= j && k == j + 1 && k < |r| ensures !(IsSpace(r[j]) && IsSpace(r[k])) {
        if j > 0 {
          assert r[j] == rt[j - 1] && r[k] == rt[k - 1];
        }
      }
    }
  }

  /** Collapsing keeps a string inside `[A-Z0-9 ]`. */
  lemma {:induction false} CollapseClean(s: string)
    requires AllClean(s)
    ensures AllClean(CollapseWhitespace(s))
    decreases |s|
  {
    if s != [] {
      var t := if IsSpace(s[0]) then LStrip(s) else s[1..];
      if IsSpace(s[0]) {
        LStripSpec(s);
        assert forall k :: 0 <= k < |t| ==> t[k] == s[|s| - |t| + k];
      }
      assert AllClean(t);
      CollapseClean(t);
    }
  }

  // ---------------------------------------------------------------------
  // clean_vessel
  // ---------------------------------------------------------------------

  /** `clean_vessel(v)`: "" for a falsy argument, otherwise the five-step
      pipeline. */
  function CleanVessel(v: Option<string>): (r: string)
    ensures !Truthy(v) ==> r == ""
  {
    if !Truthy(v) then ""
    else
      var s1 := Upper(v.value);
      var s2 := RemoveTokens(s1, PrefixTokens);
      var s3 := RemoveTokens(s2, VoyageTokens);
      var s4 := ReplaceSpecial(s3);
      var s5 := CollapseWhitespace(s4);
      Strip(s5)
  }

  /** Every cleaned name is canonical. */
  lemma CleanVesselCanonical(v: Option<string>)
    ensures Canonical(CleanVessel(v))
  {
    if Truthy(v) {
      var s1 := Upper(v.value);
      var s2 := RemoveTokens(s1, PrefixTokens);
      var s3 := RemoveTokens(s2, VoyageTokens);
      var s4 := ReplaceSpecial(s3);
      var s5 := CollapseWhitespace(s4);
      CollapseClean(s4);
      CollapseNoDouble(s4);
      StripKeepsShape(s5);
    }
  }

  /** Stripping a clean string with no two adjacent spaces gives a
      canonical one. */
  lemma StripKeepsShape(s: string)
    requires AllClean(s)
    requires NoDoubleWs(s)
    ensures Canonical(Strip(s))
  {
    var r := Strip(s);
    var a := LeadingWs(s);
    StripSpec(s);
    assert forall k :: 0 <= k < |r| ==> r[k] == s[a + k];
  }

  // ---------------------------------------------------------------------
  // Digits are kept
  // ---------------------------------------------------------------------

  lemma {:induction false} DigitsAppend(a: string, b: string)
    ensures Digits(a + b) == Digits(a) + Digits(b)
  {
    if a != [] {
      assert (a + b)[0] == a[0];
      assert (a + b)[1..] == a[1..] + b;
      DigitsAppend(a[1..], b);
      var d := if IsDigit(a[0]) then [a[0]] else [];
      calc {
        Digits(a + b);
        d + Digits(a[1..] + b);
        d + (Digits(a[1..]) + Digits(b));
        (d + Digits(a[1..])) + Digits(b);
        Digits(a) + Digits(b);
      }
    } else {
      assert a + b == b;
    }
  }

  lemma {:induction false} DigitsOfSpaces(s: string)
    requires forall k :: 0 <= k < |s| ==> !IsDigit(s[k])
    ensures Digits(s) == []
  {
    if s != [] {
      DigitsOfSpaces(s[1..]);
    }
  }

  lemma {:induction false} DigitsUpper(s: string)
    ensures Digits(Upper(s)) == Digits(s)
  {
    if s != [] {
      DigitsUpper(s[1..]);
    }
  }

  lemma {:induction false} DigitsSubAll(s: string, i: nat, alts: seq<string>)
    requires i <= |s|
    requires NonEmptyAll(alts)
    requires forall k :: 0 <= k < |alts| ==> Digits(alts[k]) == []
    ensures Digits(SubAll(s, i, alts)) == Digits(s[i..])
    decreases |s| - i
  {
    if i < |s| {
      var m := MatchAt(s, i, alts);
      if m.Some? {
        var j := m.value;
        SubAllSkip(s, i, j, alts);
        DigitsSubAll(s, j, alts);
        DigitsOfMatch(s, i, alts);
        DigitsSkip(s, i, j);
      } else {
        SubAllCopy(s, i, alts);
        DigitsSubAll(s, i + 1, alts);
        DigitsStep(s, i, SubAll(s, i + 1, alts));
      }
    }
  }

  lemma DigitsSkip(s: string, i: nat, j: nat)
    requires i <= j <= |s| && Digits(s[i..j]) == []
    ensures Digits(s[i..]) == Digits(s[j..])
  {
    assert s[i..] == s[i..j] + s[j..];
    DigitsAppend(s[i..j], s[j..]);
  }

  lemma DigitsStep(s: string, i: nat, t: string)
    requires i < |s|
    ensures Digits([s[i]] + t) == (if IsDigit(s[i]) then [s[i]] else []) + Digits(t)
    ensures Digits(s[i..]) == (if IsDigit(s[i]) then [s[i]] else []) + Digits(s[i + 1..])
  {
    assert ([s[i]] + t)[1..] == t;
    assert s[i..][1..] == s[i + 1..];
  }

  /** A deleted token has no digits. */
  lemma DigitsOfMatch(s: string, i: nat, alts: seq<string>)
    requires i <= |s|
    requires NonEmptyAll(alts)
    requires forall k :: 0 <= k < |alts| ==> Digits(alts[k]) == []
    requires MatchAt(s, i, alts).Some?
    ensures Digits(s[i..MatchAt(s, i, alts).value]) == []
  {
    MatchAtSpec(s, i, alts);
    var k :| 0 <= k < |alts| && AltMatches(s, i, alts[k]) &&
             MatchAt(s, i, alts).value == i + |alts[k]|;
    assert s[i..i + |alts[k]|] == alts[k];
  }

  lemma {:induction false} DigitsReplaceSpecial(s: string)
    ensures Digits(ReplaceSpecial(s)) == Digits(s)
  {
    if s != [] {
      DigitsReplaceSpecial(s[1..]);
    }
  }

  lemma DigitsLStrip(s: string)
    ensures Digits(LStrip(s)) == Digits(s)
  {
    var l := LStrip(s);
    var n := |s| - |l|;
    LStripSpec(s);
    assert s == s[..n] + l;
    DigitsAppend(s[..n], l);
    DigitsOfSpaces(s[..n]);
  }

  lemma DigitsRStrip(s: string)
    ensures Digits(RStrip(s)) == Digits(s)
  {
    var r := RStrip(s);
    RStripSpec(s);
    var post := s[|r|..];
    assert s == r + post;
    assert forall k :: 0 <= k < |post| ==> post[k] == s[|r| + k];
    DigitsAppend(r, post);
    DigitsOfSpaces(post);
  }

  lemma DigitsStrip(s: string)
    ensures Digits(Strip(s)) == Digits(s)
  {
    DigitsLStrip(s);
    DigitsRStrip(LStrip(s));
  }

  lemma {:induction false} DigitsCollapse(s: string)
    ensures Digits(CollapseWhitespace(s)) == Digits(s)
    decreases |s|
  {
    if s != [] {
      if IsSpace(s[0]) {
        var l := LStrip(s);
        DigitsCollapse(l);
        DigitsLStrip(s);
      } else {
        DigitsCollapse(s[1..]);
      }
    }
  }

  /** clean_vessel keeps vessel numbers: the digits of the cleaned name are
      exactly the digits of the input, in order. */
  lemma CleanVesselKeepsDigits(s: string)
    ensures Digits(CleanVessel(Some(s))) == Digits(s)
  {
    if s != "" {
      var s1 := Upper(s);
      var s2 := RemoveTokens(s1, PrefixTokens);
      var s3 := RemoveTokens(s2, VoyageTokens);
      var s4 := ReplaceSpecial(s3);
      var s5 := CollapseWhitespace(s4);
      assert CleanVessel(Some(s)) == Strip(s5);
      DigitsUpper(s);
      TokensHaveNoDigits();
      DigitsSubAll(s1, 0, PrefixTokens);
      assert s1[0..] == s1;
      DigitsSubAll(s2, 0, VoyageTokens);
      assert s2[0..] == s2;
      DigitsReplaceSpecial(s3);
      DigitsCollapse(s4);
      DigitsStrip(s5);
    }
  }

  lemma TokensHaveNoDigits()
    ensures forall k :: 0 <= k < |PrefixTokens| ==> Digits(PrefixTokens[k]) == []
    ensures forall k :: 0 <= k < |VoyageTokens| ==> Digits(VoyageTokens[k]) == []
  {
    forall t | t in PrefixTokens + VoyageTokens ensures Digits(t) == [] {
      DigitsOfSpaces(t);
    }
  }
}
