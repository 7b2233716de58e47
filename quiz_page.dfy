/**
 * scripts/quiz.js: the quiz page. The region comes from the query string, the map is
 * drawn from that region's features, and each click on a territory scores a guess on
 * the current target and, unless it was the last one, moves on to a new target.
 */
module QuizPage {
  import opened Wrappers
  import opened Text
  import opened Board
  import Common

  /** `location.search.replace('?', '').replace('%20', ' ')`. */
  function ParseRegion(search: string): string {
    ReplaceFirst(ReplaceFirst(search, "?", ""), "%20", " ")
  }

  /** How the browser writes a space of the link's target into `location.search`. */
  function EncodeSpaces(name: string): string {
    ReplaceAll(name, ' ', "%20")
  }

  lemma DropLeadingQuestionMark(a: string)
    ensures ReplaceFirst("?" + a, "?", "") == a
  {
    assert OccursAt("?" + a, "?", 0);
  }

  lemma NoEscapeWithoutPercent(a: string)
    requires '%' !in a
    ensures IndexOf(a, "%20") == None
  {
    forall i: nat | i + 3 <= |a| ensures !OccursAt(a, "%20", i) {
      assert a[i..i + 3][0] == a[i];
    }
  }

  /** A name with exactly one space, at `j`, is the text before it, the space, and the text after it. */
  lemma SplitAtSpace(name: string, j: nat)
    requires j < |name| && name[j] == ' '
    requires forall i, j :: 0 <= i < j < |name| ==> !(name[i] == ' ' && name[j] == ' ')
    ensures name == name[..j] + " " + name[j + 1..]
    ensures ' ' !in name[..j] && ' ' !in name[j + 1..]
  {
    var a, b := name[..j], name[j + 1..];
    assert name == a + [' '] + b;
    forall i | 0 <= i < |a| ensures a[i] != ' ' { assert a[i] == name[i]; }
    forall i | 0 <= i < |b| ensures b[i] != ' ' { assert b[i] == name[j + 1 + i]; }
  }

  lemma ReplaceSingleSpace(a: string, b: string, rep: string)
    requires ' ' !in a && ' ' !in b
    ensures ReplaceAll(a + " " + b, ' ', rep) == a + rep + b
  {
    ReplaceAllAppend(a + " ", b, ' ', rep);
    ReplaceAllAppend(a, " ", ' ', rep);
    ReplaceAllAbsent(a, ' ', rep);
    ReplaceAllAbsent(b, ' ', rep);
    assert ReplaceAll(" ", ' ', rep) == rep;
  }

  /** A query string without escapes parses to itself, minus the leading `?`. */
  lemma ParseRegionPlain(a: string)
    requires '%' !in a
    ensures ParseRegion("?" + a) == a
  {
    DropLeadingQuestionMark(a);
    NoEscapeWithoutPercent(a);
  }

  /** Only the first `%20` becomes a space; whatever follows it is kept as it is. */
  lemma ParseRegionFirstEscape(a: string, b: string)
    requires '%' !in a
    ensures ParseRegion("?" + a + "%20" + b) == a + " " + b
  {
    var q, s := "?" + a + "%20" + b, a + "%20" + b;
    assert q == "?" + s;
    DropLeadingQuestionMark(s);
    FirstEscapeAt(a, b);
    assert ParseRegion(q) == ReplaceFirst(s, "%20", " ");
  }

  lemma FirstEscapeAt(a: string, b: string)
    requires '%' !in a
    ensures ReplaceFirst(a + "%20" + b, "%20", " ") == a + " " + b
  {
    var s := a + "%20" + b;
    assert s[|a|..|a| + 3] == "%20";
    forall j | 0 <= j < |a| ensures !OccursAt(s, "%20", j) {
      assert s[j..j + 3][0] == a[j];
    }
    ReplaceFirstAt(s, "%20", " ", |a|);
    assert s[..|a|] == a && s[|a| + 3..] == b;
  }

  /** A name with no `%` and at most one space survives the browser's encoding and the parse. */
  lemma SearchRoundTrip(name: string)
    requires '%' !in name
    requires forall i, j :: 0 <= i < j < |name| ==> !(name[i] == ' ' && name[j] == ' ')
    ensures ParseRegion("?" + EncodeSpaces(name)) == name
  {
    if ' ' !in name {
      ReplaceAllAbsent(name, ' ', "%20");
      ParseRegionPlain(name);
    } else {
      var j :| 0 <= j < |name| && name[j] == ' ';
      SearchRoundTripAt(name, j);
    }
  }

  lemma SearchRoundTripAt(name: string, j: nat)
    requires '%' !in name && j < |name| && name[j] == ' '
    requires forall i, j :: 0 <= i < j < |name| ==> !(name[i] == ' ' && name[j] == ' ')
    ensures ParseRegion("?" + EncodeSpaces(name)) == name
  {
    SplitAtSpace(name, j);
    var a, b := name[..j], name[j + 1..];
    assert '%' !in a by {
      forall i | 0 <= i < |a| ensures a[i] != '%' { assert a[i] == name[i]; }
    }
    EncodeOneSpace(a, b);
  }

  lemma EncodeOneSpace(a: string, b: string)
    requires ' ' !in a && ' ' !in b && '%' !in a
    ensures ParseRegion("?" + EncodeSpaces(a + " " + b)) == a + " " + b
  {
    var e := EncodeSpaces(a + " " + b);
    ReplaceSingleSpace(a, b, "%20");
    assert "?" + e == "?" + a + "%20" + b;
    ParseRegionFirstEscape(a, b);
  }

  /** Every navigation link of common.js leads back to its own region on this page. */
  lemma NavigationLinksParse(i: nat)
    requires i < |Common.Regions|
    ensures ParseRegion("?" + EncodeSpaces(Common.Regions[i])) == Common.Regions[i]
  {
    var name := Common.Regions[i];
    assert '%' !in name;
    assert forall a, b :: 0 <= a < b < |name| ==> !(name[a] == ' ' && name[b] == ' ');
    SearchRoundTrip(name);
  }

  /** `data/continents/${region.replace(' ', '_')}.geojson`: only the first space is replaced. */
  function DataPath(region: string): string {
    "data/continents/" + ReplaceFirst(region, " ", "_") + ".geojson"
  }

  /** For a name with at most one space the path names the underscored region file. */
  lemma DataPathUnderscored(region: string)
    requires forall i, j :: 0 <= i < j < |region| ==> !(region[i] == ' ' && region[j] == ' ')
    ensures DataPath(region) == "data/continents/" + ReplaceAll(region, ' ', "_") + ".geojson"
  {
    if ' ' !in region {
      UnderscoreNoSpace(region);
    } else {
      var j :| 0 <= j < |region| && region[j] == ' ';
      UnderscoreOneSpace(region, j);
    }
  }

  lemma UnderscoreNoSpace(region: string)
    requires ' ' !in region
    ensures ReplaceFirst(region, " ", "_") == ReplaceAll(region, ' ', "_")
  {
    ReplaceAllAbsent(region, ' ', "_");
    forall i: nat | i + 1 <= |region| ensures !OccursAt(region, " ", i) {
      assert region[i..i + 1][0] == region[i];
    }
  }

  lemma UnderscoreOneSpace(region: string, j: nat)
    requires j < |region| && region[j] == ' '
    requires forall i, j :: 0 <= i < j < |region| ==> !(region[i] == ' ' && region[j] == ' ')
    ensures ReplaceFirst(region, " ", "_") == ReplaceAll(region, ' ', "_")
  {
    SplitAtSpace(region, j);
    var a, b := region[..j], region[j + 1..];
    ReplaceSingleSpace(a, b, "_");
    assert ReplaceAll(region, ' ', "_") == a + "_" + b;
    FirstSpaceAt(region, j);
  }

  lemma FirstSpaceAt(region: string, j: nat)
    requires j < |region| && region[j] == ' ' && ' ' !in region[..j]
    ensures ReplaceFirst(region, " ", "_") == region[..j] + "_" + region[j + 1..]
  {
    forall i | 0 <= i < j ensures !OccursAt(region, " ", i) {
      assert region[i..i + 1][0] == region[..j][i];
    }
    ReplaceFirstAt(region, " ", "_", j);
  }

  /** getProjection: the configuration for each region this page knows, `null` for any other name. */
  function Projection(continent: string): Option<ProjectionConfig> {
    if continent == "Africa" then Some(ProjectionConfig(Equirectangular, 0, 1))
    else if continent == "Asia" then Some(ProjectionConfig(Equirectangular, -12, 1))
    else if continent == "Europe" then Some(ProjectionConfig(Mercator, -12, 10))
    else if continent == "North America" then Some(ProjectionConfig(NaturalEarth1, 14, 1))
    else if continent == "Oceania" then Some(ProjectionConfig(Equirectangular, 160, 1))
    else if continent == "South America" then Some(ProjectionConfig(Equirectangular, 0, 1))
    else None
  }

  /** The six continents of the navigation list have a projection; "World" and every other name fall back to `null`. */
  lemma ProjectionForLinkedRegions(continent: string)
    ensures Projection(continent).Some? <==> continent in Common.Regions[..6]
    ensures Projection("World") == None
  {
    assert Common.Regions[..6] == ["Africa", "Asia", "Europe", "North America", "Oceania", "South America"];
  }

  /** The quiz.js invariant: the shared one, plus the labels, instruction and percent cell of this page. */
  ghost predicate Inv(s: Round) {
    && Consistent(s)
    && |s.labels| + (if s.finished then 1 else 0) == s.guesses
    && s.instruction == (if s.countries == [] then "" else s.countries[s.idx])
    && s.percent == (if s.correct == 0 then Literal("0") else Rounded(s.correct, s.total))
  }

  /** The click handler of drawMap, for a click on element `k`, with `r` the next `rng` draw. */
  function AfterClick(s: Round, k: nat, r: nat): (t: Round)
    requires Inv(s) && k < |s.features|
    requires Continues(s, k) ==> RngResult(|s.countries| - 1, r)
  {
    if !Listening(s, k) then s
    else
      TargetSelected(s, k);
      var c := s.countries[s.idx];
      var t := Scored(s, k);
      if t.guesses >= t.total then t.(finished := true)
      else
        CoordsIsSelected(s.features, c);
        var rest := Splice(s.countries, s.idx);
        t.(labels := s.labels + [Label(c, CoordsElement(s.features, c).value)],
           countries := rest, idx := r, instruction := rest[r])
  }

  /** Restart, and the first load: counters and marks reset, then drawMap. */
  lemma NewRoundInv(names: seq<string>, r: nat)
    requires RngResult(|names|, r)
    ensures Inv(NewRound(names, r, Literal("0")))
  {
    NewRoundConsistent(names, r, Literal("0"));
  }

  /** Every click keeps the invariant. */
  lemma ClickKeepsInv(s: Round, k: nat, r: nat)
    requires Inv(s) && k < |s.features|
    requires Continues(s, k) ==> RngResult(|s.countries| - 1, r)
    ensures Inv(AfterClick(s, k, r))
  {
    if Listening(s, k) {
      TargetSelected(s, k);
      if Continues(s, k) {
        ContinueKeepsInv(s, k, r);
      } else {
        FinalKeepsInv(s, k);
      }
    }
  }

  lemma FinalKeepsInv(s: Round, k: nat)
    requires Inv(s) && k < |s.features| && Listening(s, k) && !Continues(s, k)
    ensures Inv(AfterClick(s, k, 0))
  {
    FinalShape(s, k, 0);
    ScoredKeepsMarks(s, k);
    MarksTargetOnly(s, k);
    ScoreFollowsTarget(s, k);
    var t := Scored(s, k);
    var u := AfterClick(s, k, 0);
    assert Counted(u);
    assert Marked(u) && Anchored(u);
  }

  lemma ContinueKeepsInv(s: Round, k: nat, r: nat)
    requires Inv(s) && k < |s.features| && Continues(s, k)
    requires RngResult(|s.countries| - 1, r)
    ensures Inv(AfterClick(s, k, r))
  {
    ContinueShape(s, k, r);
    ContinueCounted(s, k, r);
    ContinueMarked(s, k, r);
    var u := AfterClick(s, k, r);
    if DistinctIds(s.features) {
      MarksTargetOnly(s, k);
      RemainingNotDisabled(s, k);
      assert OnceEach(u);
    }
    ScoreFollowsTarget(s, k);
  }

  lemma ContinueCounted(s: Round, k: nat, r: nat)
    requires Inv(s) && k < |s.features| && Continues(s, k)
    requires RngResult(|s.countries| - 1, r)
    ensures Counted(AfterClick(s, k, r))
  {
    ContinueShape(s, k, r);
    MarksTargetOnly(s, k);
    ScoreFollowsTarget(s, k);
    SpliceMultiset(s.countries, s.idx);
  }

  lemma ContinueMarked(s: Round, k: nat, r: nat)
    requires Inv(s) && k < |s.features| && Continues(s, k)
    requires RngResult(|s.countries| - 1, r)
    ensures Marked(AfterClick(s, k, r)) && Anchored(AfterClick(s, k, r))
  {
    ContinueShape(s, k, r);
    ScoredKeepsMarks(s, k);
    MarksTargetOnly(s, k);
    var u := AfterClick(s, k, r);
    var c := s.countries[s.idx];
    var e := SelectById(s.features, ElementId(c)).value;
    assert forall l :: l in u.labels ==> l in s.labels || l == Label(c, e);
  }

  /** The round after the final guess: the scored round, finished. */
  lemma FinalShape(s: Round, k: nat, r: nat)
    requires Inv(s) && k < |s.features| && Listening(s, k) && !Continues(s, k)
    ensures s.idx < |s.countries|
    ensures AfterClick(s, k, r) == Scored(s, k).(finished := true)
  {
    TargetSelected(s, k);
  }

  /** The round after a non-final guess, written as an update of the scored round. */
  lemma ContinueShape(s: Round, k: nat, r: nat)
    requires Inv(s) && k < |s.features| && Continues(s, k)
    requires RngResult(|s.countries| - 1, r)
    ensures s.idx < |s.countries| && SelectById(s.features, ElementId(s.countries[s.idx])).Some?
    ensures r < |s.countries| - 1
    ensures var c := s.countries[s.idx];
      var rest := Splice(s.countries, s.idx);
      AfterClick(s, k, r) == Scored(s, k).(labels := s.labels + [Label(c, SelectById(s.features, ElementId(c)).value)],
                                           countries := rest, idx := r, instruction := rest[r])
  {
    TargetSelected(s, k);
    CoordsIsSelected(s.features, s.countries[s.idx]);
  }

  /**
   * A non-final guess removes exactly the target, keeps every other name in its order,
   * draws the new index inside the shrunk list, shows the new target and labels the old one.
   */
  lemma NonFinalMovesOn(s: Round, k: nat, r: nat)
    requires Inv(s) && k < |s.features| && Continues(s, k)
    requires RngResult(|s.countries| - 1, r)
    ensures s.idx < |s.countries| && SelectById(s.features, ElementId(s.countries[s.idx])).Some?
    ensures var t := AfterClick(s, k, r);
      var c := s.countries[s.idx];
      && !t.finished
      && |t.countries| == |s.countries| - 1
      && (forall j :: 0 <= j < s.idx ==> t.countries[j] == s.countries[j])
      && (forall j :: s.idx <= j < |t.countries| ==> t.countries[j] == s.countries[j + 1])
      && multiset(s.countries) == multiset(t.countries) + multiset{c}
      && t.idx == r < |t.countries|
      && t.instruction == t.countries[t.idx]
      && t.labels == s.labels + [Label(c, SelectById(s.features, ElementId(c)).value)]
  {
    TargetSelected(s, k);
    SpliceMultiset(s.countries, s.idx);
    CoordsIsSelected(s.features, s.countries[s.idx]);
  }

  /**
   * The final guess (`guesses >= total`) ends the round: no splice, no new target, no
   * label, every listener gone; from then on every click leaves the round as it is.
   */
  lemma FinalGuessIsTerminal(s: Round, k: nat, r: nat, k': nat, r': nat)
    requires Inv(s) && k < |s.features| && Listening(s, k) && !Continues(s, k)
    requires k' < |s.features|
    ensures var t := AfterClick(s, k, r);
      && t.finished && t.guesses == t.total
      && t.countries == s.countries && t.idx == s.idx
      && t.labels == s.labels && t.instruction == s.instruction
      && Inv(t) && AfterClick(t, k', r') == t
  {
    ClickKeepsInv(s, k, r);
    TargetSelected(s, k);
  }

  /**
   * With distinct ids, each handled click disables a new element, one per guess, and
   * the name just prompted is never prompted again.
   */
  lemma EachTargetOnce(s: Round, k: nat, r: nat)
    requires Inv(s) && k < |s.features| && Listening(s, k) && DistinctIds(s.features)
    requires Continues(s, k) ==> RngResult(|s.countries| - 1, r)
    ensures s.idx < |s.countries|
    ensures var t := AfterClick(s, k, r);
      && |t.disabled| == |s.disabled| + 1 == t.guesses
      && forall i :: 0 <= i < |t.countries| && !t.finished ==> t.countries[i] != s.countries[s.idx]
  {
    MarksTargetOnly(s, k);
    ClickKeepsInv(s, k, r);
    var t := AfterClick(s, k, r);
    var c := s.countries[s.idx];
    var e := SelectById(s.features, ElementId(c)).value;
    if !t.finished {
      assert e in t.disabled;
      forall i | 0 <= i < |t.countries| ensures t.countries[i] != c {
        assert ElementId(s.features[e]) != ElementId(t.countries[i]);
      }
    }
  }

  /**
   * The page's state: the parsed region, the round (the map, the remaining names and
   * the index of the target, the score cells, the instruction, the marks, listeners and
   * labels) and whether the finished message is shown.
   */
  class Quiz {
    var region: string
    var round: Round
    var finishedShown: bool

    ghost predicate Valid()
      reads this
    {
      Inv(round) && finishedShown == round.finished
    }

    /** Page load: parse the region, build the empty score cells, then initMap. */
    constructor Start(search: string, names: seq<string>, r: nat)
      requires RngResult(|names|, r)
      ensures Valid()
      ensures region == ParseRegion(search)
      ensures round == NewRound(names, r, Literal("0")) && !finishedShown
    {
      region := ParseRegion(search);
      round := Round([], [], 0, 0, 0, 0, 0, Literal("0%"), "", {}, {}, {}, false, []);
      finishedShown := false;
      new;
      ResetCounters();
      Draw(names, r);
      NewRoundInv(names, r);
    }

    /** resetCounters: every mark cleared, the five score cells set to "0". */
    method ResetCounters()
      modifies this
      ensures round == old(round).(correctMarked := {}, incorrectMarked := {},
                                   correct := 0, incorrect := 0, guesses := 0, total := 0, percent := Literal("0"))
      ensures region == old(region) && finishedShown == old(finishedShown)
    {
      round := round.(correctMarked := {}, incorrectMarked := {});
      round := round.(correct := 0, incorrect := 0, guesses := 0, total := 0);
      round := round.(percent := Literal("0"));
    }

    /**
     * drawMap for the loaded features `names`: the map is emptied and redrawn (fresh
     * elements with their listeners, no labels), `countries` is rebuilt, the target drawn.
     * Both callers run resetCounters first, so the counters are already zero.
     */
    method Draw(names: seq<string>, r: nat)
      requires RngResult(|names|, r)
      requires round.correct == 0 && round.incorrect == 0 && round.guesses == 0
      modifies this
      ensures round == NewRound(names, r, old(round.percent))
      ensures region == old(region) && finishedShown == old(finishedShown)
    {
      round := round.(features := names, correctMarked := {}, incorrectMarked := {}, disabled := {},
                      labels := [], finished := false);
      var built := [];
      var i := 0;
      while i < |names|
        invariant 0 <= i <= |names|
        invariant built == names[..i]
      {
        built := built + [names[i]];
        i := i + 1;
      }
      assert built == names;
      round := round.(countries := built, idx := r);
      round := round.(instruction := if built == [] then "" else built[r], total := |built|);
    }

    /** The click handler for a click on element `k`; `r` is the draw the handler would make. */
    method Click(k: nat, r: nat)
      requires Valid() && k < |round.features|
      requires Continues(round, k) ==> RngResult(|round.countries| - 1, r)
      modifies this
      ensures Valid()
      ensures round == AfterClick(old(round), k, r)
      ensures region == old(region)
    {
      if round.finished || k in round.disabled {
        return;
      }
      ghost var s := round;
      TargetSelected(s, k);
      Score(k);
      if round.guesses >= round.total {
        round := round.(finished := true);
        finishedShown := true;
        FinalShape(s, k, r);
      } else {
        ContinueShape(s, k, r);
        MoveOn(r);
      }
      ClickKeepsInv(s, k, r);
    }

    /** The rest of a non-final guess: label the old target, splice it out, draw the next one. */
    method MoveOn(r: nat)
      requires round.idx < |round.countries| && round.countries[round.idx] in round.features
      requires r < |round.countries| - 1
      modifies this
      ensures var c := old(round.countries[round.idx]);
        var rest := Splice(old(round.countries), old(round.idx));
        && SelectById(round.features, ElementId(c)).Some?
        && round == old(round).(labels := old(round.labels) + [Label(c, SelectById(round.features, ElementId(c)).value)],
                                countries := rest, idx := r, instruction := rest[r])
      ensures region == old(region) && finishedShown == old(finishedShown)
    {
      var c := round.countries[round.idx];
      var found := FindFeature(round.features, c);
      CoordsIsSelected(round.features, c);
      var anchor := SelectById(round.features, ElementId(round.features[found.value]));
      round := round.(labels := round.labels + [Label(c, anchor.value)]);
      var rest := round.countries[..round.idx] + round.countries[round.idx + 1..];
      round := round.(countries := rest, idx := r);
      round := round.(instruction := rest[r]);
    }

    /** The part of the handler both pages share: mark the target, update the score cells. */
    method Score(k: nat)
      requires k < |round.features| && round.idx < |round.countries|
      modifies this
      ensures round == Scored(old(round), k)
      ensures region == old(region) && finishedShown == old(finishedShown)
    {
      var c := round.countries[round.idx];
      var hit := round.features[k] == c;
      var target := SelectById(round.features, ElementId(c));
      if target.Some? {
        if hit {
          round := round.(correctMarked := round.correctMarked + {target.value});
        } else {
          round := round.(incorrectMarked := round.incorrectMarked + {target.value});
        }
        round := round.(disabled := round.disabled + {target.value});
      }
      if hit {
        round := round.(correct := round.correct + 1);
        round := round.(percent := Rounded(round.correct, round.total));
      } else {
        round := round.(incorrect := round.incorrect + 1);
      }
      round := round.(guesses := round.guesses + 1);
    }

    /** The Restart button: reset, hide the finished message, initMap (reset again, drawMap). */
    method Restart(names: seq<string>, r: nat)
      requires RngResult(|names|, r)
      modifies this
      ensures Valid()
      ensures round == NewRound(names, r, Literal("0")) && !finishedShown
      ensures region == old(region)
    {
      ResetCounters();
      finishedShown := false;
      ResetCounters();
      Draw(names, r);
      NewRoundInv(names, r);
    }
  }
}
