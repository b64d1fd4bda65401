/** What `clean_vessel` does to a name made of alphanumeric words separated
    by single spaces: it upper-cases the words, drops every word that is a
    prefix token (MV, SV, MS, MT, HSC) or a voyage token (VOY, VOYAGE) and
    keeps everything else in order. `CleanOceanStar` applies this to a
    typical booking name. */
module VesselWords {
  import opened Records
  import opened VesselClean

  /** `" ".join(ws)` */
  function JoinSp(ws: seq<string>): string
  {
    if |ws| == 0 then "" else if |ws| == 1 then ws[0] else ws[0] + " " + JoinSp(ws[1..])
  }

  predicate IsAlnum(c: char) { IsUpper(c) || IsLower(c) || IsDigit(c) }

  predicate AlnumWord(w: string) { forall k :: 0 <= k < |w| ==> IsAlnum(w[k]) }

  /** Words that `clean_vessel` deletes when they stand alone. */
  predicate IsNoiseWord(w: string) { w in PrefixTokens || w in VoyageTokens }

  /** The words that survive, in their original order. */
  function Kept(ws: seq<string>): seq<string>
  {
    if ws == [] then [] else (if IsNoiseWord(ws[0]) then [] else [ws[0]]) + Kept(ws[1..])
  }

  function UpperAll(ws: seq<string>): (r: seq<string>)
    ensures |r| == |ws|
    ensures forall k :: 0 <= k < |ws| ==> r[k] == Upper(ws[k])
  {
    if ws == [] then [] else [Upper(ws[0])] + UpperAll(ws[1..])
  }

  // ---------------------------------------------------------------------
  // Segments: words that may be empty once a token has been deleted
  // ---------------------------------------------------------------------

  predicate WordSeg(w: string) { forall k :: 0 <= k < |w| ==> IsWordChar(w[k]) }

  predicate CleanSeg(w: string) { forall k :: 0 <= k < |w| ==> IsUpper(w[k]) || IsDigit(w[k]) }

  /** Each segment that is one of the alternatives becomes empty. */
  function Blank(ws: seq<string>, alts: seq<string>): (r: seq<string>)
    ensures |r| == |ws|
    ensures forall k :: 0 <= k < |ws| ==> r[k] == if ws[k] in alts then "" else ws[k]
  {
    if ws == [] then [] else [if ws[0] in alts then "" else ws[0]] + Blank(ws[1..], alts)
  }

  function NonEmpty(ws: seq<string>): (r: seq<string>)
    ensures forall k :: 0 <= k < |r| ==> r[k] != ""
  {
    if ws == [] then [] else (if ws[0] == "" then [] else [ws[0]]) + NonEmpty(ws[1..])
  }

  predicate NoSpaceAlts(alts: seq<string>)
  {
    forall k :: 0 <= k < |alts| ==> |alts[k]| > 0 && ' ' !in alts[k]
  }

  lemma PrefixNoSpace()
    ensures NoSpaceAlts(PrefixTokens)
  {
    var p := PrefixTokens;
    assert |p| == 6;
    assert p[0] == "MV" && p[1] == "M/V" && p[2] == "SV" && p[3] == "MS" && p[4] == "MT" && p[5] == "HSC";
  }

  lemma VoyageNoSpace()
    ensures NoSpaceAlts(VoyageTokens)
  {
    var p := VoyageTokens;
    assert |p| == 3;
    assert p[0] == "VOY" && p[1] == "VOYAGE" && p[2] == "V.";
  }

  // ---------------------------------------------------------------------
  // The token deletion, one word at a time
  // ---------------------------------------------------------------------

  /** At the start of a word the pattern matches exactly when the whole word
      is one of the alternatives. */
  lemma WordStartMatch(s: string, i: nat, w: string, alts: seq<string>)
    requires NoSpaceAlts(alts)
    requires w != "" && WordSeg(w) && LiteralAt(s, i, w)
    requires i == 0 || s[i - 1] == ' '
    requires i + |w| == |s| || s[i + |w|] == ' '
    ensures NonEmptyAll(alts)
    ensures MatchAt(s, i, alts) == if w in alts then Some(i + |w|) else None
  {
    assert s[i] == w[0];
    assert Boundary(s, i);
    assert NonEmptyAll(alts);
    MatchAtSpec(s, i, alts);
    forall k | 0 <= k < |alts| && AltMatches(s, i, alts[k]) ensures alts[k] == w {
      AltAtWordStart(s, i, w, alts[k]);
    }
    if w in alts {
      var k :| 0 <= k < |alts| && alts[k] == w;
      assert AltMatches(s, i, alts[k]);
    }
  }

  /** An alternative without spaces that matches at the start of a word is
      that word. */
  lemma AltAtWordStart(s: string, i: nat, w: string, t: string)
    requires |t| > 0 && ' ' !in t
    requires w != "" && WordSeg(w) && LiteralAt(s, i, w)
    requires i + |w| == |s| || s[i + |w|] == ' '
    requires AltMatches(s, i, t)
    ensures t == w
  {
    assert forall m :: i <= m < i + |t| ==> s[m] == t[m - i];
    assert forall m :: i <= m < i + |w| ==> s[m] == w[m - i];
    assert |t| == |w|;
    assert t == s[i..i + |w|];
  }

  /** Inside a word nothing matches, so the rest of the word is copied. */
  lemma {:induction false} InsideWordScan(s: string, i: nat, j: nat, e: nat, alts: seq<string>)
    requires NonEmptyAll(alts)
    requires i < j <= e <= |s|
    requires forall k :: i <= k < e ==> IsWordChar(s[k])
    ensures SubAll(s, j, alts) == s[j..e] + SubAll(s, e, alts)
    decreases e - j
  {
    if j < e {
      assert IsWordChar(s[j - 1]) && IsWordChar(s[j]);
      assert !Boundary(s, j);
      assert MatchAt(s, j, alts).None?;
      SubAllCopy(s, j, alts);
      InsideWordScan(s, i, j + 1, e, alts);
      SliceCons(s, j, e);
      AppendAssoc([s[j]], s[j + 1..e], SubAll(s, e, alts));
    } else {
      assert s[j..e] == [];
    }
  }

  lemma SliceCons(s: string, i: nat, e: nat)
    requires i < e <= |s|
    ensures s[i..e] == [s[i]] + s[i + 1..e]
  {
  }

  lemma WordCharsAt(s: string, i: nat, w: string)
    requires WordSeg(w) && LiteralAt(s, i, w)
    ensures forall k :: i <= k < i + |w| ==> IsWordChar(s[k])
  {
    assert forall k :: i <= k < i + |w| ==> s[k] == w[k - i];
  }

  /** A word that the pattern does not match at its start is copied. */
  lemma WordCopied(s: string, i: nat, w: string, alts: seq<string>)
    requires NonEmptyAll(alts)
    requires w != "" && WordSeg(w) && LiteralAt(s, i, w)
    requires MatchAt(s, i, alts).None?
    ensures SubAll(s, i, alts) == w + SubAll(s, i + |w|, alts)
  {
    WordCharsAt(s, i, w);
    SubAllCopy(s, i, alts);
    InsideWordScan(s, i, i + 1, i + |w|, alts);
    SliceCons(s, i, i + |w|);
    ConsGlue(s[i], s[i + 1..i + |w|], SubAll(s, i + |w|, alts), w, SubAll(s, i, alts), SubAll(s, i + 1, alts));
  }

  lemma ConsGlue(c: char, a: string, r: string, w: string, x: string, y: string)
    requires x == [c] + y && y == a + r && w == [c] + a
    ensures x == w + r
  {
    AppendAssoc([c], a, r);
  }

  lemma AppendAssoc(x: string, y: string, z: string)
    ensures x + (y + z) == (x + y) + z
  {
  }

  /** A whole word is either deleted or copied. */
  lemma WordScan(s: string, i: nat, w: string, alts: seq<string>)
    requires NoSpaceAlts(alts)
    requires WordSeg(w) && LiteralAt(s, i, w)
    requires i == 0 || s[i - 1] == ' '
    requires i + |w| == |s| || s[i + |w|] == ' '
    ensures NonEmptyAll(alts)
    ensures SubAll(s, i, alts) == (if w in alts then "" else w) + SubAll(s, i + |w|, alts)
  {
    if w == "" {
      assert "" + SubAll(s, i, alts) == SubAll(s, i, alts);
    } else {
      WordStartMatch(s, i, w, alts);
      if w in alts {
        SubAllSkip(s, i, i + |w|, alts);
        assert "" + SubAll(s, i + |w|, alts) == SubAll(s, i + |w|, alts);
      } else {
        WordCopied(s, i, w, alts);
      }
    }
  }

  /** A space is always copied. */
  lemma SpaceScan(s: string, i: nat, alts: seq<string>)
    requires NoSpaceAlts(alts)
    requires i < |s| && s[i] == ' '
    ensures NonEmptyAll(alts)
    ensures SubAll(s, i, alts) == " " + SubAll(s, i + 1, alts)
  {
    forall k | 0 <= k < |alts| ensures !AltMatches(s, i, alts[k]) {
      var t := alts[k];
      assert t[0] != ' ';
    }
  }

  /** Deleting whole-word tokens from space-separated segments blanks the
      segments that are tokens. */
  lemma LiteralMid(p: string, w: string, t: string)
    ensures LiteralAt(p + (w + t), |p|, w)
  {
    assert (p + (w + t))[|p|..|p| + |w|] == w;
  }

  /** `JoinSp` of two or more segments. */
  lemma JoinSpCons(ws: seq<string>)
    requires |ws| > 1
    ensures JoinSp(ws) == ws[0] + (" " + JoinSp(ws[1..]))
  {
    AppendAssoc(ws[0], " ", JoinSp(ws[1..]));
  }

  lemma {:induction false} SubAllJoin(p: string, ws: seq<string>, alts: seq<string>)
    requires NoSpaceAlts(alts)
    requires forall k :: 0 <= k < |ws| ==> WordSeg(ws[k])
    requires p == [] || p[|p| - 1] == ' '
    ensures NonEmptyAll(alts)
    ensures SubAll(p + JoinSp(ws), |p|, alts) == JoinSp(Blank(ws, alts))
    decreases |ws|
  {
    var s := p + JoinSp(ws);
    if |ws| == 0 {
      assert s == p;
    } else if |ws| == 1 {
      var w := ws[0];
      assert w + "" == w;
      LiteralMid(p, w, "");
      WordScan(s, |p|, w, alts);
      assert (if w in alts then "" else w) + "" == JoinSp(Blank(ws, alts));
    } else {
      var w, rest := ws[0], ws[1..];
      var p' := JoinStep(p, ws, alts);
      SubAllJoin(p', rest, alts);
      var b := Blank(ws, alts);
      assert b[1..] == Blank(rest, alts);
      JoinSpCons(b);
    }
  }

  /** The first word of two or more and the space after it. */
  lemma JoinStep(p: string, ws: seq<string>, alts: seq<string>) returns (p': string)
    requires NoSpaceAlts(alts)
    requires |ws| > 1 && WordSeg(ws[0])
    requires p == [] || p[|p| - 1] == ' '
    ensures NonEmptyAll(alts)
    ensures p' == (p + ws[0]) + " " && p' + JoinSp(ws[1..]) == p + JoinSp(ws)
    ensures SubAll(p + JoinSp(ws), |p|, alts)
            == (if ws[0] in alts then "" else ws[0]) + (" " + SubAll(p' + JoinSp(ws[1..]), |p'|, alts))
  {
    var s, t := p + JoinSp(ws), JoinSp(ws[1..]);
    p' := JoinShape(p, ws);
    var i := |p| + |ws[0]| + 1;
    assert |p'| == i;
    assert |p| == 0 || s[|p| - 1] == ' ' by {
      if |p| > 0 {
        assert s[|p| - 1] == p[|p| - 1];
      }
    }
    WordSpaceScan(s, |p|, ws[0], alts);
    SubAllSame(p' + t, s, i, alts);
  }

  lemma SubAllSame(a: string, b: string, i: nat, alts: seq<string>)
    requires NonEmptyAll(alts) && i <= |a| && a == b
    ensures SubAll(a, i, alts) == SubAll(b, i, alts)
  {
  }

  /** Where the first word and the space after it lie in `p + JoinSp(ws)`. */
  lemma JoinShape(p: string, ws: seq<string>) returns (p': string)
    requires |ws| > 1
    ensures p' == (p + ws[0]) + " " && p' + JoinSp(ws[1..]) == p + JoinSp(ws)
    ensures LiteralAt(p + JoinSp(ws), |p|, ws[0])
    ensures |p| + |ws[0]| < |p + JoinSp(ws)| && (p + JoinSp(ws))[|p| + |ws[0]|] == ' '
  {
    var w, j := ws[0], JoinSp(ws[1..]);
    var s := p + JoinSp(ws);
    JoinSpCons(ws);
    assert s == p + (w + (" " + j));
    LiteralMid(p, w, " " + j);
    assert s[|p| + |w|] == ' ';
    p' := (p + w) + " ";
    AppendAssoc(p, w, " " + j);
    AppendAssoc(p + w, " ", j);
  }

  /** A word followed by a space. */
  lemma WordSpaceScan(s: string, i: nat, w: string, alts: seq<string>)
    requires NoSpaceAlts(alts)
    requires WordSeg(w) && LiteralAt(s, i, w)
    requires i == 0 || s[i - 1] == ' '
    requires i + |w| < |s| && s[i + |w|] == ' '
    ensures NonEmptyAll(alts)
    ensures SubAll(s, i, alts) == (if w in alts then "" else w) + (" " + SubAll(s, i + |w| + 1, alts))
  {
    var j := i + |w|;
    SpaceScan(s, j, alts);
    WordScan(s, i, w, alts);
    Glue(if w in alts then "" else w, SubAll(s, i, alts), SubAll(s, j, alts), SubAll(s, j + 1, alts));
  }

  lemma Glue(x: string, a: string, b: string, r: string)
    requires a == x + b && b == " " + r
    ensures a == x + (" " + r)
  {
  }

  // ---------------------------------------------------------------------
  // Whitespace collapsing over segments
  // ---------------------------------------------------------------------

  lemma {:induction false} CollapseNoSpacePrefix(w: string, x: string)
    requires CleanSeg(w)
    ensures CollapseWhitespace(w + x) == w + CollapseWhitespace(x)
    decreases |w|
  {
    if w == [] {
      assert w + x == x;
    } else {
      var c, v := w[0], w[1..];
      assert CleanSeg(v) by {
        assert forall k :: 0 <= k < |v| ==> v[k] == w[k + 1];
      }
      CollapseNoSpacePrefix(v, x);
      CollapseCons(c, v + x);
      assert w == [c] + v;
      AppendAssoc([c], v, x);
      AppendAssoc([c], v, CollapseWhitespace(x));
    }
  }

  lemma CollapseCons(c: char, y: string)
    requires !IsSpace(c)
    ensures CollapseWhitespace([c] + y) == [c] + CollapseWhitespace(y)
  {
    assert ([c] + y)[1..] == y;
  }

  lemma CollapseNoSpace(w: string)
    requires CleanSeg(w)
    ensures CollapseWhitespace(w) == w
  {
    CollapseNoSpacePrefix(w, []);
    assert w + [] == w;
  }

  lemma LStripNoSpace(w: string)
    requires w != [] && !IsSpace(w[0])
    ensures LStrip(w) == w
  {
  }

  lemma LStripSpacePrefix(x: string)
    ensures LStrip(" " + x) == LStrip(x)
  {
    assert (" " + x)[1..] == x;
  }

  lemma {:induction false} RStripSpaces(a: string, b: string)
    requires forall k :: 0 <= k < |b| ==> IsSpace(b[k])
    ensures RStrip(a + b) == RStrip(a)
    decreases |b|
  {
    if b == [] {
      assert a + b == a;
    } else {
      assert (a + b)[..|a + b| - 1] == a + b[..|b| - 1];
      RStripSpaces(a, b[..|b| - 1]);
    }
  }

  lemma {:induction false} RStripKeepsPrefix(a: string, b: string)
    requires RStrip(b) != []
    ensures RStrip(a + b) == a + RStrip(b)
    decreases |b|
  {
    if IsSpace(b[|b| - 1]) {
      assert (a + b)[..|a + b| - 1] == a + b[..|b| - 1];
      RStripKeepsPrefix(a, b[..|b| - 1]);
    }
  }

  lemma RStripNoSpace(w: string)
    requires CleanSeg(w)
    ensures RStrip(w) == w
  {
  }

  /** The leading whitespace of the collapsed string is the collapsed leading
      whitespace. */
  lemma LStripCollapse(s: string)
    ensures LStrip(CollapseWhitespace(s)) == CollapseWhitespace(LStrip(s))
  {
    if s != [] {
      var l := LStrip(s);
      if IsSpace(s[0]) {
        LStripSpacePrefix(CollapseWhitespace(l));
        if l != [] {
          LStripSpec(s);
          CollapseFirst(l);
          LStripNoSpace(CollapseWhitespace(l));
        }
      } else {
        CollapseFirst(s);
        LStripNoSpace(CollapseWhitespace(s));
      }
    }
  }

  /** Collapsing what follows the leading whitespace of joined segments. */
  function Tail(ws: seq<string>): string
  {
    CollapseWhitespace(LStrip(JoinSp(ws)))
  }

  lemma CollapseSpacePrefix(x: string)
    ensures CollapseWhitespace(" " + x) == " " + CollapseWhitespace(LStrip(x))
  {
    LStripSpacePrefix(x);
  }

  lemma TailBlankHead(ws: seq<string>)
    requires |ws| > 1 && ws[0] == ""
    ensures Tail(ws) == Tail(ws[1..])
  {
    JoinSpCons(ws);
    assert JoinSp(ws) == " " + JoinSp(ws[1..]);
    LStripSpacePrefix(JoinSp(ws[1..]));
  }

  lemma TailWordHead(ws: seq<string>)
    requires |ws| > 1 && ws[0] != "" && CleanSeg(ws[0])
    ensures Tail(ws) == ws[0] + (" " + Tail(ws[1..]))
  {
    var w, j := ws[0], JoinSp(ws[1..]);
    JoinSpCons(ws);
    assert JoinSp(ws)[0] == w[0];
    LStripNoSpace(JoinSp(ws));
    CollapseNoSpacePrefix(w, " " + j);
    CollapseSpacePrefix(j);
  }

  lemma JoinSpNonEmpty(ws: seq<string>)
    requires ws != [] && ws[0] != ""
    ensures JoinSp(ws) != []
  {
    if |ws| > 1 {
      JoinSpCons(ws);
    }
  }

  /** Trailing whitespace after a word and a space. */
  lemma RStripAfterWord(w: string, t: string, n: seq<string>)
    requires w != "" && CleanSeg(w)
    requires RStrip(t) == JoinSp(n)
    requires forall k :: 0 <= k < |n| ==> n[k] != ""
    ensures RStrip(w + (" " + t)) == JoinSp([w] + n)
  {
    if n == [] {
      RStripSpec(t);
      assert forall k :: 0 <= k < |" " + t| ==> IsSpace((" " + t)[k]);
      RStripSpaces(w, " " + t);
      RStripNoSpace(w);
      assert [w] + n == [w];
    } else {
      JoinSpNonEmpty(n);
      AppendAssoc(w, " ", t);
      RStripKeepsPrefix(w + " ", t);
      AppendAssoc(w, " ", JoinSp(n));
      JoinSpCons([w] + n);
      assert ([w] + n)[1..] == n;
    }
  }

  lemma {:induction false} TailStrip(ws: seq<string>)
    requires forall k :: 0 <= k < |ws| ==> CleanSeg(ws[k])
    ensures RStrip(Tail(ws)) == JoinSp(NonEmpty(ws))
    decreases |ws|
  {
    if |ws| == 1 {
      var w := ws[0];
      assert NonEmpty(ws) == (if w == "" then [] else [w]) + NonEmpty([]);
      if w != "" {
        LStripNoSpace(w);
        CollapseNoSpace(w);
        RStripNoSpace(w);
      }
    } else if |ws| > 1 {
      var w, rest := ws[0], ws[1..];
      TailStrip(rest);
      assert NonEmpty(ws) == (if w == "" then [] else [w]) + NonEmpty(rest);
      if w == "" {
        TailBlankHead(ws);
        assert NonEmpty(ws) == NonEmpty(rest);
      } else {
        TailWordHead(ws);
        RStripAfterWord(w, Tail(rest), NonEmpty(rest));
      }
    }
  }

  /** Collapsing and stripping space-separated segments joins the non-empty
      ones with single spaces. */
  lemma CollapseStripJoin(ws: seq<string>)
    requires forall k :: 0 <= k < |ws| ==> CleanSeg(ws[k])
    ensures Strip(CollapseWhitespace(JoinSp(ws))) == JoinSp(NonEmpty(ws))
  {
    LStripCollapse(JoinSp(ws));
    TailStrip(ws);
  }

  // ---------------------------------------------------------------------
  // The other steps on joined words
  // ---------------------------------------------------------------------

  lemma {:induction false} UpperAppend(a: string, b: string)
    ensures Upper(a + b) == Upper(a) + Upper(b)
  {
  }

  lemma {:induction false} UpperJoin(ws: seq<string>)
    ensures Upper(JoinSp(ws)) == JoinSp(UpperAll(ws))
    decreases |ws|
  {
    if |ws| > 1 {
      UpperJoin(ws[1..]);
      UpperAppend(ws[0], " " + JoinSp(ws[1..]));
      UpperAppend(" ", JoinSp(ws[1..]));
      assert UpperAll(ws)[1..] == UpperAll(ws[1..]);
    }
  }

  lemma {:induction false} CleanJoin(ws: seq<string>)
    requires forall k :: 0 <= k < |ws| ==> CleanSeg(ws[k])
    ensures AllClean(JoinSp(ws))
    decreases |ws|
  {
    if |ws| > 1 {
      CleanJoin(ws[1..]);
      var j := JoinSp(ws[1..]);
      assert JoinSp(ws) == ws[0] + " " + j;
      assert forall k :: |ws[0]| + 1 <= k < |JoinSp(ws)| ==> JoinSp(ws)[k] == j[k - |ws[0]| - 1];
    }
  }

  lemma {:induction false} ReplaceSpecialClean(s: string)
    requires AllClean(s)
    ensures ReplaceSpecial(s) == s
  {
  }

  lemma {:induction false} KeptBlank(ws: seq<string>)
    requires forall k :: 0 <= k < |ws| ==> ws[k] != ""
    ensures NonEmpty(Blank(Blank(ws, PrefixTokens), VoyageTokens)) == Kept(ws)
    decreases |ws|
  {
    if ws != [] {
      KeptBlank(ws[1..]);
      var b := Blank(Blank(ws, PrefixTokens), VoyageTokens);
      assert b[1..] == Blank(Blank(ws[1..], PrefixTokens), VoyageTokens);
      assert "" !in VoyageTokens;
    }
  }

  /** clean_vessel on space-separated alphanumeric words: the noise words
      are dropped and every other word is kept, upper-cased, in order. */
  lemma CleanVesselWords(ws: seq<string>)
    requires forall k :: 0 <= k < |ws| ==> ws[k] != "" && AlnumWord(ws[k])
    ensures CleanVessel(Some(JoinSp(ws))) == JoinSp(Kept(UpperAll(ws)))
  {
    if ws != [] {
      var s := JoinSp(ws);
      assert s != "" by { JoinSpNonEmpty(ws); }
      CleanVesselSteps(s);
      UpperAllWords(ws);
      PrefixNoSpace();
      VoyageNoSpace();
      PipelineOnWords(ws, PrefixTokens, VoyageTokens);
      KeptBlank(UpperAll(ws));
    }
  }

  /** The clean_vessel pipeline, with any two token lists free of spaces,
      on space-separated alphanumeric words. */
  lemma PipelineOnWords(ws: seq<string>, p: seq<string>, v: seq<string>)
    requires forall k :: 0 <= k < |ws| ==>
               UpperAll(ws)[k] != "" && CleanSeg(UpperAll(ws)[k]) && WordSeg(UpperAll(ws)[k])
    requires NoSpaceAlts(p) && NoSpaceAlts(v)
    ensures NonEmptyAll(p) && NonEmptyAll(v)
    ensures Strip(CollapseWhitespace(ReplaceSpecial(RemoveTokens(RemoveTokens(Upper(JoinSp(ws)), p), v))))
            == JoinSp(NonEmpty(Blank(Blank(UpperAll(ws), p), v)))
  {
    var b2 := Blank(Blank(UpperAll(ws), p), v);
    var s3 := RemoveTokens(RemoveTokens(Upper(JoinSp(ws)), p), v);
    TokenStepsOnWords(ws, p, v);
    assert ReplaceSpecial(s3) == s3 by {
      CleanJoin(b2);
      ReplaceSpecialClean(s3);
    }
    CollapseStripJoin(b2);
  }

  /** The two token deletions of the pipeline on upper-cased words. */
  lemma TokenStepsOnWords(ws: seq<string>, p: seq<string>, v: seq<string>)
    requires forall k :: 0 <= k < |ws| ==> CleanSeg(UpperAll(ws)[k]) && WordSeg(UpperAll(ws)[k])
    requires NoSpaceAlts(p) && NoSpaceAlts(v)
    ensures NonEmptyAll(p) && NonEmptyAll(v)
    ensures RemoveTokens(RemoveTokens(Upper(JoinSp(ws)), p), v) == JoinSp(Blank(Blank(UpperAll(ws), p), v))
    ensures forall k :: 0 <= k < |ws| ==> CleanSeg(Blank(Blank(UpperAll(ws), p), v)[k])
  {
    var uw := UpperAll(ws);
    var b1 := Blank(uw, p);
    UpperJoin(ws);
    TokenDeletionOnWords(uw, p);
    BlankSegs(uw, p);
    TokenDeletionOnWords(b1, v);
    BlankSegs(b1, v);
  }

  /** Blanking segments keeps them clean word segments. */
  lemma BlankSegs(ws: seq<string>, alts: seq<string>)
    requires forall k :: 0 <= k < |ws| ==> CleanSeg(ws[k]) && WordSeg(ws[k])
    ensures forall k :: 0 <= k < |ws| ==> CleanSeg(Blank(ws, alts)[k]) && WordSeg(Blank(ws, alts)[k])
  {
    var b := Blank(ws, alts);
    forall k | 0 <= k < |ws| ensures CleanSeg(b[k]) && WordSeg(b[k]) {
      if ws[k] in alts {
        assert b[k] == "";
      } else {
        assert b[k] == ws[k];
      }
    }
  }

  lemma UpperAllWords(ws: seq<string>)
    requires forall k :: 0 <= k < |ws| ==> ws[k] != "" && AlnumWord(ws[k])
    ensures forall k :: 0 <= k < |ws| ==>
              UpperAll(ws)[k] != "" && CleanSeg(UpperAll(ws)[k]) && WordSeg(UpperAll(ws)[k])
  {
    var uw := UpperAll(ws);
    forall k | 0 <= k < |uw| ensures uw[k] != "" && CleanSeg(uw[k]) && WordSeg(uw[k]) {
      UpperAlnum(ws[k]);
    }
  }

  lemma UpperAlnum(w: string)
    requires AlnumWord(w)
    ensures |Upper(w)| == |w| && CleanSeg(Upper(w)) && WordSeg(Upper(w))
  {
    var u := Upper(w);
    forall k | 0 <= k < |u| ensures IsUpper(u[k]) || IsDigit(u[k]) {
      assert u[k] == UpperChar(w[k]);
      assert IsAlnum(w[k]);
    }
  }

  /** One token deletion on space-separated words blanks the words that
      are alternatives and keeps the rest. */
  lemma TokenDeletionOnWords(ws: seq<string>, alts: seq<string>)
    requires NoSpaceAlts(alts)
    requires forall k :: 0 <= k < |ws| ==> WordSeg(ws[k])
    ensures RemoveTokens(JoinSp(ws), alts) == JoinSp(Blank(ws, alts))
  {
    SubAllJoin([], ws, alts);
    assert [] + JoinSp(ws) == JoinSp(ws);
  }

  /** The pipeline of clean_vessel on a non-empty string, step by step. */
  lemma CleanVesselSteps(s: string)
    requires s != ""
    ensures CleanVessel(Some(s)) ==
            Strip(CollapseWhitespace(ReplaceSpecial(
              RemoveTokens(RemoveTokens(Upper(s), PrefixTokens), VoyageTokens))))
  {
  }

  // ---------------------------------------------------------------------
  // Concrete cases
  // ---------------------------------------------------------------------

  /** A typical booking name: prefix and voyage marker go, the voyage
      number stays. */
  lemma CleanOceanStar()
    ensures CleanVessel(Some("MV OCEAN STAR VOY 12")) == "OCEAN STAR 12"
  {
    var ws := ["MV", "OCEAN", "STAR", "VOY", "12"];
    OceanWords();
    CleanVesselWords(ws);
    UpperAllClean(ws);
    OceanKept();
  }

  lemma OceanWords()
    ensures JoinSp(["MV", "OCEAN", "STAR", "VOY", "12"]) == "MV OCEAN STAR VOY 12"
    ensures JoinSp(["OCEAN", "STAR", "12"]) == "OCEAN STAR 12"
    ensures forall k :: 0 <= k < 5 ==>
              ["MV", "OCEAN", "STAR", "VOY", "12"][k] != "" &&
              AlnumWord(["MV", "OCEAN", "STAR", "VOY", "12"][k]) &&
              CleanSeg(["MV", "OCEAN", "STAR", "VOY", "12"][k])
  {
    OceanJoin();
    OceanJoinKept();
  }

  lemma OceanJoin()
    ensures JoinSp(["MV", "OCEAN", "STAR", "VOY", "12"]) == "MV OCEAN STAR VOY 12"
  {
    var ws := ["MV", "OCEAN", "STAR", "VOY", "12"];
    assert ws[1..] == ["OCEAN", "STAR", "VOY", "12"];
    assert ws[2..] == ["STAR", "VOY", "12"];
    assert ws[3..] == ["VOY", "12"];
    assert ws[4..] == ["12"];
  }

  lemma OceanJoinKept()
    ensures JoinSp(["OCEAN", "STAR", "12"]) == "OCEAN STAR 12"
  {
    var ks := ["OCEAN", "STAR", "12"];
    assert ks[1..] == ["STAR", "12"];
    assert ks[2..] == ["12"];
  }

  lemma OceanKept()
    ensures Kept(["MV", "OCEAN", "STAR", "VOY", "12"]) == ["OCEAN", "STAR", "12"]
  {
    var ws := ["MV", "OCEAN", "STAR", "VOY", "12"];
    OceanNoise();
    assert ws[1..] == ["OCEAN", "STAR", "VOY", "12"];
    assert ws[2..] == ["STAR", "VOY", "12"];
    assert ws[3..] == ["VOY", "12"];
    assert ws[4..] == ["12"];
  }

  lemma OceanNoise()
    ensures IsNoiseWord("MV") && IsNoiseWord("VOY")
    ensures !IsNoiseWord("OCEAN") && !IsNoiseWord("STAR") && !IsNoiseWord("12")
  {
    assert PrefixTokens[0] == "MV";
    assert VoyageTokens[0] == "VOY";
    assert forall k :: 0 <= k < |PrefixTokens| ==> |PrefixTokens[k]| <= 3 && PrefixTokens[k] != "12";
    assert forall k :: 0 <= k < |VoyageTokens| ==> VoyageTokens[k][0] == 'V';
  }

  lemma UpperClean(w: string)
    requires CleanSeg(w)
    ensures Upper(w) == w
  {
    var u := Upper(w);
    forall k | 0 <= k < |w| ensures u[k] == w[k] {
      assert u[k] == UpperChar(w[k]);
    }
  }

  lemma UpperAllClean(ws: seq<string>)
    requires forall k :: 0 <= k < |ws| ==> CleanSeg(ws[k])
    ensures UpperAll(ws) == ws
  {
    var u := UpperAll(ws);
    forall k | 0 <= k < |ws| ensures u[k] == ws[k] {
      UpperClean(ws[k]);
    }
  }
}
