/**
 * scripts/main.js: the earlier single-page quiz. The region is chosen in a dropdown
 * whose option values are the region names with spaces underscored; choosing one (and
 * the first load, which selects Africa) loads and draws that region's map. Its click
 * handler differs from quiz.js: every click, the last one included, appends a label,
 * and after a non-final guess the instruction shows the target just asked for.
 */
module MainPage {
  import opened Wrappers
  import opened Text
  import opened Board
  import Common
  import QuizPage

  /** The regions of the dropdown. */
  const Regions: seq<string> := ["Africa", "Asia", "Europe", "North America", "Oceania", "South America"]

  /** The dropdown lists the continents of the navigation list of common.js, without "World". */
  lemma RegionsAreLinkedContinents()
    ensures Regions == Common.Regions[..6]
    ensures "World" !in Regions
  {
  }

  /** `regions[i].replaceAll(' ', '_')`: the value of the option for a region. */
  function OptionValue(name: string): string {
    ReplaceAll(name, ' ', "_")
  }

  /** `v` is the value of one of the dropdown's options. */
  ghost predicate IsOption(v: string) {
    exists i :: 0 <= i < |Regions| && OptionValue(Regions[i]) == v
  }

  /** The option values, one by one; the first one is what the first load selects. */
  lemma OptionValueAt(i: nat)
    requires i < |Regions|
    ensures OptionValue(Regions[i]) == ["Africa", "Asia", "Europe", "North_America", "Oceania", "South_America"][i]
  {
    if i == 3 {
      NorthAmericaOption();
    } else if i == 5 {
      SouthAmericaOption();
    } else {
      OptionValueOfPlain(Regions[i]);
    }
  }

  lemma NorthAmericaOption()
    ensures OptionValue("North America") == "North_America"
  {
    OptionValueOfSpaced("North America", "North", "America", "North_America");
  }

  lemma SouthAmericaOption()
    ensures OptionValue("South America") == "South_America"
  {
    OptionValueOfSpaced("South America", "South", "America", "South_America");
  }

  lemma OptionValueOfPlain(name: string)
    requires ' ' !in name
    ensures OptionValue(name) == name
  {
    ReplaceAllAbsent(name, ' ', "_");
  }

  lemma OptionValueOfSpaced(name: string, a: string, b: string, value: string)
    requires ' ' !in a && ' ' !in b && name == a + " " + b && value == a + "_" + b
    ensures OptionValue(name) == value
  {
    QuizPage.ReplaceSingleSpace(a, b, "_");
  }

  /** `data/continents/${selected}.geojson`: the file initMap loads for the selected value. */
  function DataPath(selected: string): string {
    "data/continents/" + selected + ".geojson"
  }

  /** For every region the two pages load the same file: this page's option value and quiz.js's path agree. */
  lemma SameDataFile(i: nat)
    requires i < |Regions|
    ensures DataPath(OptionValue(Regions[i])) == QuizPage.DataPath(Regions[i])
  {
    var name := Regions[i];
    assert forall a, b :: 0 <= a < b < |name| ==> !(name[a] == ' ' && name[b] == ' ');
    QuizPage.DataPathUnderscored(name);
  }

  /** getProjection: keyed by the option values; the precision is 0.1 for every region. */
  function Projection(continent: string): Option<ProjectionConfig> {
    if continent == "Africa" then Some(ProjectionConfig(Equirectangular, 0, 1))
    else if continent == "Asia" then Some(ProjectionConfig(Equirectangular, -12, 1))
    else if continent == "Europe" then Some(ProjectionConfig(Mercator, -12, 1))
    else if continent == "North_America" then Some(ProjectionConfig(NaturalEarth1, 14, 1))
    else if continent == "Oceania" then Some(ProjectionConfig(Equirectangular, 160, 1))
    else if continent == "South_America" then Some(ProjectionConfig(Equirectangular, 0, 1))
    else None
  }

  /** Exactly the option values have a projection; the spaced names fall back to `null`. */
  lemma ProjectionForOptions(continent: string)
    ensures Projection(continent).Some? <==> IsOption(continent)
    ensures Projection("North America") == None && Projection("South America") == None
  {
    if IsOption(continent) {
      var i :| 0 <= i < |Regions| && OptionValue(Regions[i]) == continent;
      ProjectionsAgree(i);
    }
    if Projection(continent).Some? {
      ProjectedIsOption(continent);
    }
  }

  lemma ProjectedIsOption(continent: string)
    requires Projection(continent).Some?
    ensures IsOption(continent)
  {
    var i: nat;
    if continent == "Africa" {
      i := 0;
    } else if continent == "Asia" {
      i := 1;
    } else if continent == "Europe" {
      i := 2;
    } else if continent == "North_America" {
      i := 3;
    } else if continent == "Oceania" {
      i := 4;
    } else {
      i := 5;
    }
    OptionValueAt(i);
  }

  /**
   * Against quiz.js, region by region: the same family and rotation; the precision
   * differs for Europe only (0.1 here, 1 there).
   */
  lemma ProjectionsAgree(i: nat)
    requires i < |Regions|
    ensures var m := Projection(OptionValue(Regions[i]));
      var q := QuizPage.Projection(Regions[i]);
      && m.Some? && q.Some?
      && m.value.kind == q.value.kind && m.value.rotation == q.value.rotation
      && (m.value.precisionTenths == q.value.precisionTenths <==> Regions[i] != "Europe")
  {
    OptionValueAt(i);
    var v := OptionValue(Regions[i]);
    if i == 0 {
      assert v == "Africa" && Regions[i] == "Africa";
    } else if i == 1 {
      assert v == "Asia" && Regions[i] == "Asia";
    } else if i == 2 {
      assert v == "Europe" && Regions[i] == "Europe";
    } else if i == 3 {
      assert v == "North_America" && Regions[i] == "North America";
    } else if i == 4 {
      assert v == "Oceania" && Regions[i] == "Oceania";
    } else {
      assert v == "South_America" && Regions[i] == "South America";
    }
  }

  /**
   * The main.js invariant: the shared one, one label per guess, and the percent cell of
   * the last correct guess. Before the first guess the instruction is the target;
   * after a guess that did not end the round it is the name of the last label.
   */
  ghost predicate Inv(s: Round) {
    && Consistent(s)
    && |s.labels| == s.guesses
    && (!s.finished && s.guesses == 0 ==> s.instruction == (if s.countries == [] then "" else s.countries[s.idx]))
    && (!s.finished && s.guesses > 0 ==> s.instruction == s.labels[|s.labels| - 1].text)
    && (s.correct > 0 ==> s.percent == Rounded(s.correct, s.total))
  }

  /** The click handler of drawMap, for a click on element `k`, with `r` the next `rng` draw. */
  function AfterClick(s: Round, k: nat, r: nat): (t: Round)
    requires Inv(s) && k < |s.features|
    requires Continues(s, k) ==> RngResult(|s.countries| - 1, r)
  {
    if !Listening(s, k) then s
    else
      TargetSelected(s, k);
      var c := s.countries[s.idx];
      CoordsIsSelected(s.features, c);
      var t := Scored(s, k);
      var labels := s.labels + [Label(c, CoordsElement(s.features, c).value)];
      if t.guesses >= t.total then t.(finished := true, labels := labels)
      else t.(countries := Splice(s.countries, s.idx), idx := r, instruction := c, labels := labels)
  }

  /** A freshly drawn map keeps the invariant whatever the percent cell shows. */
  lemma NewRoundInv(names: seq<string>, r: nat, percent: PercentCell)
    requires RngResult(|names|, r)
    ensures Inv(NewRound(names, r, percent))
  {
    NewRoundConsistent(names, r, percent);
  }

  /** Every click keeps the invariant. */
  lemma ClickKeepsInv(s: Round, k: nat, r: nat)
    requires Inv(s) && k < |s.features|
    requires Continues(s, k) ==> RngResult(|s.countries| - 1, r)
    ensures Inv(AfterClick(s, k, r))
  {
    if Listening(s, k) {
      TargetSelected(s, k);
      if Continues(s, k) {
        ContinueKeepsInv(s, k, r);
      } else {
        FinalKeepsInv(s, k);
      }
    }
  }

  lemma FinalKeepsInv(s: Round, k: nat)
    requires Inv(s) && k < |s.features| && Listening(s, k) && !Continues(s, k)
    ensures Inv(AfterClick(s, k, 0))
  {
    FinalShape(s, k, 0);
    FinalCounted(s, k);
    LabelledMarked(s, k, 0);
    ScoreFollowsTarget(s, k);
    MarksTargetOnly(s, k);
  }

  lemma FinalCounted(s: Round, k: nat)
    requires Inv(s) && k < |s.features| && Listening(s, k) && !Continues(s, k)
    ensures Counted(AfterClick(s, k, 0))
  {
    FinalShape(s, k, 0);
    MarksTargetOnly(s, k);
    ScoreFollowsTarget(s, k);
  }

  lemma ContinueKeepsInv(s: Round, k: nat, r: nat)
    requires Inv(s) && k < |s.features| && Continues(s, k)
    requires RngResult(|s.countries| - 1, r)
    ensures Inv(AfterClick(s, k, r))
  {
    ContinueShape(s, k, r);
    ContinueCounted(s, k, r);
    LabelledMarked(s, k, r);
    var u := AfterClick(s, k, r);
    if DistinctIds(s.features) {
      MarksTargetOnly(s, k);
      RemainingNotDisabled(s, k);
      assert OnceEach(u);
    }
    ScoreFollowsTarget(s, k);
  }

  lemma ContinueCounted(s: Round, k: nat, r: nat)
    requires Inv(s) && k < |s.features| && Continues(s, k)
    requires RngResult(|s.countries| - 1, r)
    ensures Counted(AfterClick(s, k, r))
  {
    ContinueShape(s, k, r);
    MarksTargetOnly(s, k);
    ScoreFollowsTarget(s, k);
    SpliceMultiset(s.countries, s.idx);
  }

  /** Both kinds of handled click keep the marks, and the new label sits on the target's element. */
  lemma LabelledMarked(s: Round, k: nat, r: nat)
    requires Inv(s) && k < |s.features| && Listening(s, k)
    requires Continues(s, k) ==> RngResult(|s.countries| - 1, r)
    ensures Marked(AfterClick(s, k, r)) && Anchored(AfterClick(s, k, r))
  {
    ScoredKeepsMarks(s, k);
    MarksTargetOnly(s, k);
    if Continues(s, k) {
      ContinueShape(s, k, r);
    } else {
      FinalShape(s, k, r);
    }
    var u := AfterClick(s, k, r);
    var c := s.countries[s.idx];
    var e := SelectById(s.features, ElementId(c)).value;
    assert forall l :: l in u.labels ==> l in s.labels || l == Label(c, e);
  }

  /** The round after the final guess: the scored round, finished, with the target labelled. */
  lemma FinalShape(s: Round, k: nat, r: nat)
    requires Inv(s) && k < |s.features| && Listening(s, k) && !Continues(s, k)
    ensures s.idx < |s.countries| && SelectById(s.features, ElementId(s.countries[s.idx])).Some?
    ensures var c := s.countries[s.idx];
      AfterClick(s, k, r) == Scored(s, k).(finished := true,
                                           labels := s.labels + [Label(c, SelectById(s.features, ElementId(c)).value)])
  {
    TargetSelected(s, k);
    CoordsIsSelected(s.features, s.countries[s.idx]);
  }

  /** The round after a non-final guess, written as an update of the scored round. */
  lemma ContinueShape(s: Round, k: nat, r: nat)
    requires Inv(s) && k < |s.features| && Continues(s, k)
    requires RngResult(|s.countries| - 1, r)
    ensures s.idx < |s.countries| && SelectById(s.features, ElementId(s.countries[s.idx])).Some?
    ensures r < |s.countries| - 1
    ensures var c := s.countries[s.idx];
      AfterClick(s, k, r) == Scored(s, k).(countries := Splice(s.countries, s.idx), idx := r, instruction := c,
                                           labels := s.labels + [Label(c, SelectById(s.features, ElementId(c)).value)])
  {
    TargetSelected(s, k);
    CoordsIsSelected(s.features, s.countries[s.idx]);
  }

  /** Every handled click labels the target it scored, the final one included: one label per guess. */
  lemma LabelOnEveryClick(s: Round, k: nat, r: nat)
    requires Inv(s) && k < |s.features| && Listening(s, k)
    requires Continues(s, k) ==> RngResult(|s.countries| - 1, r)
    ensures s.idx < |s.countries| && SelectById(s.features, ElementId(s.countries[s.idx])).Some?
    ensures var t := AfterClick(s, k, r);
      var c := s.countries[s.idx];
      && t.labels == s.labels + [Label(c, SelectById(s.features, ElementId(c)).value)]
      && |t.labels| == t.guesses
      && (t.finished <==> !Continues(s, k))
  {
    ClickKeepsInv(s, k, r);
    if Continues(s, k) {
      ContinueShape(s, k, r);
    } else {
      FinalShape(s, k, r);
    }
  }

  /**
   * After a non-final guess the instruction shows the target just asked for, which is no
   * longer among the remaining names when ids are distinct; the next click is scored
   * against `countries[r]`, which the page does not show.
   */
  lemma InstructionShowsRemovedTarget(s: Round, k: nat, r: nat)
    requires Inv(s) && k < |s.features| && Continues(s, k)
    requires RngResult(|s.countries| - 1, r)
    ensures s.idx < |s.countries|
    ensures var t := AfterClick(s, k, r);
      && t.instruction == s.countries[s.idx]
      && t.idx < |t.countries|
      && (DistinctIds(s.features) ==> t.instruction !in t.countries && t.instruction != t.countries[t.idx])
  {
    ContinueShape(s, k, r);
    ClickKeepsInv(s, k, r);
    var t := AfterClick(s, k, r);
    var c := s.countries[s.idx];
    if DistinctIds(s.features) {
      MarksTargetOnly(s, k);
      RemainingNotDisabled(s, k);
      var e := SelectById(s.features, ElementId(c)).value;
      assert e in t.disabled;
      forall i | 0 <= i < |t.countries| ensures t.countries[i] != c {
        assert ElementId(s.features[e]) != ElementId(t.countries[i]);
      }
    }
  }

  /**
   * The final guess ends the round: no splice, no new target, the instruction left as
   * it was, the target labelled; from then on every click leaves the round as it is.
   */
  lemma FinalGuessIsTerminal(s: Round, k: nat, r: nat, k': nat, r': nat)
    requires Inv(s) && k < |s.features| && Listening(s, k) && !Continues(s, k)
    requires k' < |s.features|
    ensures var t := AfterClick(s, k, r);
      && t.finished && t.guesses == t.total
      && t.countries == s.countries && t.idx == s.idx
      && |t.labels| == |s.labels| + 1 && t.instruction == s.instruction
      && Inv(t) && AfterClick(t, k', r') == t
  {
    ClickKeepsInv(s, k, r);
    FinalShape(s, k, r);
  }

  /**
   * The Restart button and a new selection clear the counters but not the percent cell:
   * after a round with a correct guess the new round shows zero correct guesses next
   * to the old round's percentage.
   */
  lemma StalePercentAfterRestart(s: Round, names: seq<string>, r: nat)
    requires Inv(s) && s.correct > 0
    requires RngResult(|names|, r)
    ensures var u := NewRound(names, r, s.percent);
      && Inv(u) && u.correct == 0
      && u.percent == Rounded(s.correct, s.total) && u.percent.correct > 0
  {
    NewRoundInv(names, r, s.percent);
  }

  /** The page's state: the selected option value and the round. */
  class Quiz {
    var selected: string
    var round: Round

    ghost predicate Valid()
      reads this
    {
      Inv(round) && IsOption(selected)
    }

    /**
     * init: the empty instruction and score cells ("0%" in the percent cell), then the
     * dispatched `input` event, which runs initMap on the first option, Africa.
     * `names` are the features loaded from `DataPath("Africa")`.
     */
    constructor Init(names: seq<string>, r: nat)
      requires RngResult(|names|, r)
      ensures Valid()
      ensures selected == "Africa"
      ensures round == NewRound(names, r, Literal("0%"))
    {
      round := Round([], [], 0, 0, 0, 0, 0, Literal("0%"), "", {}, {}, {}, false, []);
      OptionValueAt(0);
      selected := OptionValue(Regions[0]);
      new;
      InitMap(names, r);
      NewRoundInv(names, r, Literal("0%"));
    }

    /** The five reset lines of the Restart handler and of initMap: marks cleared, four counters "0". */
    method ClearScores()
      modifies this
      ensures round == old(round).(correctMarked := {}, incorrectMarked := {},
                                   correct := 0, incorrect := 0, guesses := 0, total := 0)
      ensures selected == old(selected)
    {
      round := round.(correctMarked := {}, incorrectMarked := {});
      round := round.(correct := 0, incorrect := 0, guesses := 0, total := 0);
    }

    /** initMap for the selected value, with `names` the features loaded from `DataPath(selected)`. */
    method InitMap(names: seq<string>, r: nat)
      requires RngResult(|names|, r)
      modifies this
      ensures round == NewRound(names, r, old(round.percent))
      ensures selected == old(selected)
    {
      ClearScores();
      Draw(names, r);
    }

    /** The dropdown's `input` event: option `i` is selected and initMap runs. */
    method Select(i: nat, names: seq<string>, r: nat)
      requires i < |Regions|
      requires RngResult(|names|, r)
      modifies this
      ensures Valid()
      ensures selected == OptionValue(Regions[i])
      ensures round == NewRound(names, r, old(round.percent))
    {
      selected := OptionValue(Regions[i]);
      InitMap(names, r);
      NewRoundInv(names, r, old(round.percent));
    }

    /** The Restart button: reset, then initMap on the same selection (which resets again). */
    method Restart(names: seq<string>, r: nat)
      requires Valid()
      requires RngResult(|names|, r)
      modifies this
      ensures Valid()
      ensures selected == old(selected)
      ensures round == NewRound(names, r, old(round.percent))
    {
      ClearScores();
      InitMap(names, r);
      NewRoundInv(names, r, old(round.percent));
    }

    /**
     * drawMap for the loaded features `names`: the map emptied and redrawn, `countries`
     * rebuilt, the target drawn, the total set. The counters are already zero.
     */
    method Draw(names: seq<string>, r: nat)
      requires RngResult(|names|, r)
      requires round.correct == 0 && round.incorrect == 0 && round.guesses == 0
      modifies this
      ensures round == NewRound(names, r, old(round.percent))
      ensures selected == old(selected)
    {
      round := round.(features := names, correctMarked := {}, incorrectMarked := {}, disabled := {},
                      labels := [], finished := false);
      var built := [];
      var i := 0;
      while i < |names|
        invariant 0 <= i <= |names|
        invariant built == names[..i]
      {
        built := built + [names[i]];
        i := i + 1;
      }
      assert built == names;
      round := round.(countries := built, idx := r);
      round := round.(instruction := if built == [] then "" else built[r], total := |built|);
    }

    /** The click handler for a click on element `k`; `r` is the draw the handler would make. */
    method Click(k: nat, r: nat)
      requires Valid() && k < |round.features|
      requires Continues(round, k) ==> RngResult(|round.countries| - 1, r)
      modifies this
      ensures Valid()
      ensures round == AfterClick(old(round), k, r)
      ensures selected == old(selected)
    {
      if round.finished || k in round.disabled {
        return;
      }
      ghost var s := round;
      TargetSelected(s, k);
      var c := round.countries[round.idx];
      Score(k);
      if round.guesses >= round.total {
        round := round.(finished := true);
        FinalShape(s, k, r);
      } else {
        ContinueShape(s, k, r);
        round := round.(countries := Splice(round.countries, round.idx), idx := r);
        round := round.(instruction := c);
      }
      AddLabel(c);
      ClickKeepsInv(s, k, r);
    }

    /** The label for `c`, anchored on the element getCoords measures. */
    method AddLabel(c: string)
      requires c in round.features
      modifies this
      ensures SelectById(round.features, ElementId(c)).Some?
      ensures round == old(round).(labels := old(round.labels) + [Label(c, SelectById(round.features, ElementId(c)).value)])
      ensures selected == old(selected)
    {
      var found := FindFeature(round.features, c);
      CoordsIsSelected(round.features, c);
      var anchor := SelectById(round.features, ElementId(round.features[found.value]));
      round := round.(labels := round.labels + [Label(c, anchor.value)]);
    }

    /** Mark the target, update the score cells: the same steps as in quiz.js. */
    method Score(k: nat)
      requires k < |round.features| && round.idx < |round.countries|
      modifies this
      ensures round == Scored(old(round), k)
      ensures selected == old(selected)
    {
      var c := round.countries[round.idx];
      var hit := round.features[k] == c;
      var target := SelectById(round.features, ElementId(c));
      if target.Some? {
        if hit {
          round := round.(correctMarked := round.correctMarked + {target.value});
        } else {
          round := round.(incorrectMarked := round.incorrectMarked + {target.value});
        }
        round := round.(disabled := round.disabled + {target.value});
      }
      if hit {
        round := round.(correct := round.correct + 1);
        round := round.(percent := Rounded(round.correct, round.total));
      } else {
        round := round.(incorrect := round.incorrect + 1);
      }
      round := round.(guesses := round.guesses + 1);
    }
  }
}
