/**
 * What quiz.js and main.js share: the drawn map (one path element per feature, in
 * feature order), the element-id sanitiser, first-match selection by id, the
 * getCoords search, `rng`, and the state of one round of the quiz.
 */
module Board {
  import opened Wrappers
  import opened Text

  /** `name.replaceAll(' ', '_').replaceAll('.', '')`: the id given to a territory's path. */
  function ElementId(name: string): (id: string)
    ensures ' ' !in id && '.' !in id
  {
    var underscored := ReplaceAll(name, ' ', "_");
    ReplaceAllRemoves(name, ' ', "_", ' ');
    ReplaceAllRemoves(underscored, '.', "", ' ');
    ReplaceAllRemoves(underscored, '.', "", '.');
    ReplaceAll(underscored, '.', "")
  }

  lemma ElementIdIdempotent(name: string)
    ensures ElementId(ElementId(name)) == ElementId(name)
  {
    var id := ElementId(name);
    ReplaceAllAbsent(id, ' ', "_");
    ReplaceAllAbsent(id, '.', "");
  }

  /** No two features of the map sanitise to the same element id. */
  ghost predicate DistinctIds(features: seq<string>) {
    forall i, j :: 0 <= i < j < |features| ==> ElementId(features[i]) != ElementId(features[j])
  }

  ghost predicate NoDup(s: seq<string>) {
    forall i, j :: 0 <= i < j < |s| ==> s[i] != s[j]
  }

  /** `d3.select('#' + id)` over the map: the first path, in document order, with that id. */
  function SelectFrom(features: seq<string>, id: string, from: nat): (e: Option<nat>)
    decreases |features| - from
    ensures e.Some? ==> from <= e.value < |features| && ElementId(features[e.value]) == id
    ensures e.Some? ==> forall j :: from <= j < e.value ==> ElementId(features[j]) != id
    ensures e.None? ==> forall j :: from <= j < |features| ==> ElementId(features[j]) != id
  {
    if from >= |features| then None
    else if ElementId(features[from]) == id then Some(from)
    else SelectFrom(features, id, from + 1)
  }

  function SelectById(features: seq<string>, id: string): (e: Option<nat>)
    ensures e.Some? ==> e.value < |features| && ElementId(features[e.value]) == id
    ensures e.Some? ==> forall j :: 0 <= j < e.value ==> ElementId(features[j]) != id
    ensures e.None? <==> forall j :: 0 <= j < |features| ==> ElementId(features[j]) != id
  {
    SelectFrom(features, id, 0)
  }

  /** The first feature index whose name is `name`: what the loop of getCoords looks for. */
  function FirstIndexOf(features: seq<string>, name: string, from: nat): (r: Option<nat>)
    decreases |features| - from
    ensures r.Some? ==> from <= r.value < |features| && features[r.value] == name
    ensures r.Some? ==> forall j :: from <= j < r.value ==> features[j] != name
    ensures r.None? ==> forall j :: from <= j < |features| ==> features[j] != name
  {
    if from >= |features| then None
    else if features[from] == name then Some(from)
    else FirstIndexOf(features, name, from + 1)
  }

  /** The search loop of getCoords, which stops at the first feature named `country`. */
  method FindFeature(features: seq<string>, country: string) returns (found: Option<nat>)
    ensures found == FirstIndexOf(features, country, 0)
    ensures found.Some? ==> found.value < |features| && features[found.value] == country
    ensures found.None? <==> country !in features
  {
    found := None;
    var i := 0;
    while i < |features|
      invariant 0 <= i <= |features|
      invariant forall j :: 0 <= j < i ==> features[j] != country
      invariant FirstIndexOf(features, country, 0) == FirstIndexOf(features, country, i)
    {
      if features[i] == country {
        found := Some(i);
        break;
      }
      i := i + 1;
    }
  }

  /**
   * The element whose bounding box getCoords measures: the first feature named `country`
   * is found, and then the element is selected again by that feature's id.
   */
  function CoordsElement(features: seq<string>, country: string): Option<nat> {
    match FirstIndexOf(features, country, 0)
    case None => None
    case Some(i) => SelectById(features, ElementId(features[i]))
  }

  lemma CoordsIsSelected(features: seq<string>, country: string)
    requires country in features
    ensures CoordsElement(features, country).Some?
    ensures CoordsElement(features, country) == SelectById(features, ElementId(country))
  {
    var i := FirstIndexOf(features, country, 0);
    assert i.Some?;
    assert SelectById(features, ElementId(features[i.value])).Some?;
  }

  /** `rng(min, max)` = `Math.floor(Math.random() * max) - min`, with `u` the value of `Math.random()`. */
  function Rng(min: int, max: nat, u: real): (r: int)
    requires 0.0 <= u < 1.0
    ensures max == 0 ==> r == -min
    ensures max > 0 ==> -min <= r < max - min
  {
    var m := max as real;
    var x := u * m;
    ScaledBelow(u, m);
    x.Floor - min
  }

  /** A fraction `0 <= u < 1` of `m` lies in `[0, m)`, and in `[0, m]` when `m` is 0. */
  lemma ScaledBelow(u: real, m: real)
    requires 0.0 <= u < 1.0 && 0.0 <= m
    ensures 0.0 <= u * m
    ensures 0.0 < m ==> u * m < m
  {
    if 0.0 < m {
      var rest := (1.0 - u) * m;
      assert 0.0 < rest;
      assert u * m == m - rest;
    }
  }

  /** The values `rng(0, max)` can return; every call in the scripts passes `min == 0`. */
  predicate RngResult(max: nat, r: nat) {
    if max == 0 then r == 0 else r < max
  }

  lemma RngCovers(max: nat, r: nat)
    requires RngResult(max, r)
    ensures exists u :: 0.0 <= u < 1.0 && Rng(0, max, u) == r
  {
    if max == 0 {
      assert Rng(0, max, 0.0) == r;
    } else {
      var u := r as real / max as real;
      assert u * max as real == r as real;
      assert Rng(0, max, u) == r;
    }
  }

  /** The text of the percent cell: a literal, or `correct / total * 100` rounded to two places. */
  datatype PercentCell = Literal(text: string) | Rounded(correct: nat, total: nat)

  /** A label placed in the `labels` group: its text and the element whose box centre anchors it. */
  datatype Label = Label(text: string, anchor: nat)

  /** The projection family getProjection chooses. */
  datatype ProjectionKind = Equirectangular | Mercator | NaturalEarth1

  /**
   * The configuration getProjection applies before fitting the map: the family, the
   * rotation's longitude in degrees (latitude is always 0) and the precision in tenths.
   */
  datatype ProjectionConfig = ProjectionConfig(kind: ProjectionKind, rotation: int, precisionTenths: nat)

  /**
   * One round of the quiz.
   * features              names of the drawn paths, in document order (`geojson.features`)
   * countries, idx        the remaining names and the index of the current target
   * correct ... total     the four counter cells, read back with unary `+`
   * percent               the "% Correct" cell
   * instruction           the "Click on:" text
   * correctMarked,
   * incorrectMarked       elements carrying the class `correct` / `incorrect`
   * disabled              elements whose click and hover listeners were removed
   * finished              every click listener was removed (in quiz.js also: the
   *                       finished message is visible)
   * labels                the texts appended to the `labels` group, in order
   */
  datatype Round = Round(
    features: seq<string>,
    countries: seq<string>,
    idx: nat,
    correct: nat,
    incorrect: nat,
    guesses: nat,
    total: nat,
    percent: PercentCell,
    instruction: string,
    correctMarked: set<nat>,
    incorrectMarked: set<nat>,
    disabled: set<nat>,
    finished: bool,
    labels: seq<Label>)

  /**
   * drawMap: the map is redrawn from the features, `countries` is rebuilt from all of
   * them, a target is drawn with `rng(0, countries.length)` (here `r`), and the total
   * cell is set. The percent cell is whatever the caller left in it.
   */
  function NewRound(names: seq<string>, r: nat, percent: PercentCell): (s: Round)
    requires RngResult(|names|, r)
  {
    Round(names, names, r, 0, 0, 0, |names|, percent,
          if names == [] then "" else names[r], {}, {}, {}, false, [])
  }

  /** The clicked element still has its click listener. */
  predicate Listening(s: Round, k: nat) {
    !s.finished && k !in s.disabled
  }

  /** A click on `k` is handled and is not the last guess, so a new target is drawn. */
  predicate Continues(s: Round, k: nat) {
    Listening(s, k) && s.guesses + 1 < s.total
  }

  /** `countries.splice(idx, 1)`. */
  function Splice(s: seq<string>, i: nat): (t: seq<string>)
    requires i < |s|
    ensures |t| == |s| - 1
    ensures forall j :: 0 <= j < i ==> t[j] == s[j]
    ensures forall j :: i <= j < |t| ==> t[j] == s[j + 1]
  {
    s[..i] + s[i + 1..]
  }

  lemma SpliceMultiset(s: seq<string>, i: nat)
    requires i < |s|
    ensures multiset(s) == multiset(Splice(s, i)) + multiset{s[i]}
  {
    assert s == s[..i] + [s[i]] + s[i + 1..];
  }

  /** The part of the click handler both scripts share: mark the target, count the guess. */
  function Scored(s: Round, k: nat): (t: Round)
    requires k < |s.features| && s.idx < |s.countries|
  {
    var c := s.countries[s.idx];
    var hit := s.features[k] == c;
    var target := SelectById(s.features, ElementId(c));
    s.(correctMarked := if target.Some? && hit then s.correctMarked + {target.value} else s.correctMarked,
       incorrectMarked := if target.Some? && !hit then s.incorrectMarked + {target.value} else s.incorrectMarked,
       disabled := if target.Some? then s.disabled + {target.value} else s.disabled,
       correct := if hit then s.correct + 1 else s.correct,
       incorrect := if hit then s.incorrect else s.incorrect + 1,
       percent := if hit then Rounded(s.correct + 1, s.total) else s.percent,
       guesses := s.guesses + 1)
  }

  /**
   * The invariant both scripts keep: counter arithmetic, the remaining list against the
   * guesses, a valid target index, marks exactly on the disabled elements, labels anchored
   * on disabled elements, and, when ids are distinct, every element disabled at most once.
   */
  ghost predicate Consistent(s: Round) {
    Counted(s) && Marked(s) && Anchored(s) && OnceEach(s)
  }

  /** The counters against the list of remaining names and the target index. */
  ghost predicate Counted(s: Round) {
    && s.total == |s.features|
    && s.guesses == s.correct + s.incorrect
    && s.guesses <= s.total
    && multiset(s.countries) <= multiset(s.features)
    && (if s.countries == [] then s.idx == 0 else s.idx < |s.countries|)
    && (!s.finished ==> |s.countries| + s.guesses == s.total && (s.guesses < s.total || s.total == 0))
    && (s.finished ==> s.guesses == s.total && |s.countries| == 1)
  }

  /** Marks sit exactly on the disabled elements, at most one element per guess. */
  ghost predicate Marked(s: Round) {
    && s.disabled == s.correctMarked + s.incorrectMarked
    && (forall e :: e in s.disabled ==> e < |s.features|)
    && |s.disabled| <= s.guesses
  }

  /** Each label is anchored on a disabled element carrying the label's id. */
  ghost predicate Anchored(s: Round) {
    forall l :: l in s.labels ==>
      l.anchor in s.disabled && l.anchor < |s.features| && ElementId(s.features[l.anchor]) == ElementId(l.text)
  }

  /** With distinct ids, each guess disables a new element and no remaining name's element is disabled. */
  ghost predicate OnceEach(s: Round)
    requires Marked(s)
  {
    DistinctIds(s.features) ==>
      && |s.disabled| == s.guesses
      && (!s.finished ==>
            && NoDup(s.countries)
            && forall e, i :: e in s.disabled && 0 <= i < |s.countries| ==>
                 ElementId(s.features[e]) != ElementId(s.countries[i]))
  }

  lemma NewRoundConsistent(names: seq<string>, r: nat, percent: PercentCell)
    requires RngResult(|names|, r)
    ensures Consistent(NewRound(names, r, percent))
  {
  }

  /** Under the invariant, a handled click finds a target, and the target has an element. */
  lemma TargetSelected(s: Round, k: nat)
    requires Consistent(s) && k < |s.features| && Listening(s, k)
    ensures s.idx < |s.countries|
    ensures s.countries[s.idx] in s.features
    ensures SelectById(s.features, ElementId(s.countries[s.idx])).Some?
  {
    var c := s.countries[s.idx];
    assert c in multiset(s.countries);
    assert c in multiset(s.features);
    var j :| 0 <= j < |s.features| && s.features[j] == c;
    assert ElementId(s.features[j]) == ElementId(c);
  }

  /** Two different names on a map with distinct ids have different ids. */
  lemma DistinctNamesDistinctIds(features: seq<string>, x: string, y: string)
    requires DistinctIds(features) && x in features && y in features && x != y
    ensures ElementId(x) != ElementId(y)
  {
    var a :| 0 <= a < |features| && features[a] == x;
    var b :| 0 <= b < |features| && features[b] == y;
    assert a != b;
    if a > b {
      assert ElementId(features[b]) != ElementId(features[a]);
    }
  }

  /**
   * The counters of a handled click: `correct` goes up exactly when the clicked name is
   * the target, `incorrect` exactly when it is not, and `guesses` always; the percent
   * cell is recomputed only on a correct guess.
   */
  lemma ScoreFollowsTarget(s: Round, k: nat)
    requires k < |s.features| && s.idx < |s.countries|
    ensures var t := Scored(s, k);
      && t.guesses == s.guesses + 1
      && (t.correct == s.correct + 1 <==> s.features[k] == s.countries[s.idx])
      && (t.correct == s.correct <==> s.features[k] != s.countries[s.idx])
      && (t.incorrect == s.incorrect + 1 <==> s.features[k] != s.countries[s.idx])
      && t.correct + t.incorrect == s.correct + s.incorrect + 1
      && t.percent == (if s.features[k] == s.countries[s.idx] then Rounded(t.correct, s.total) else s.percent)
  {
  }

  /**
   * The mark and the listener removal of a handled click fall on the target's element,
   * never on the clicked element unless it is the target; nothing else of the round
   * changes. With distinct ids that element was not disabled before.
   */
  lemma MarksTargetOnly(s: Round, k: nat)
    requires Consistent(s) && k < |s.features| && Listening(s, k)
    ensures s.idx < |s.countries| && SelectById(s.features, ElementId(s.countries[s.idx])).Some?
    ensures var e := SelectById(s.features, ElementId(s.countries[s.idx])).value;
      var hit := s.features[k] == s.countries[s.idx];
      var t := Scored(s, k);
      && ElementId(s.features[e]) == ElementId(s.countries[s.idx])
      && t.disabled == s.disabled + {e}
      && t.correctMarked == (if hit then s.correctMarked + {e} else s.correctMarked)
      && t.incorrectMarked == (if hit then s.incorrectMarked else s.incorrectMarked + {e})
      && (k != e ==> (k in t.disabled <==> k in s.disabled))
      && t.features == s.features && t.countries == s.countries && t.idx == s.idx
      && t.total == s.total && t.instruction == s.instruction && t.finished == s.finished
      && t.labels == s.labels
      && (DistinctIds(s.features) ==> e !in s.disabled && |t.disabled| == |s.disabled| + 1)
  {
    TargetSelected(s, k);
    var c := s.countries[s.idx];
    var e := SelectById(s.features, ElementId(c)).value;
    assert ElementId(s.features[e]) == ElementId(c);
  }

  /** A handled click keeps the marks on the disabled elements and every label on its anchor. */
  lemma ScoredKeepsMarks(s: Round, k: nat)
    requires Consistent(s) && k < |s.features| && Listening(s, k)
    ensures Marked(Scored(s, k)) && Anchored(Scored(s, k))
  {
    MarksTargetOnly(s, k);
    var t := Scored(s, k);
    assert |t.disabled| <= |s.disabled| + 1;
  }

  /**
   * After a handled, non-final click the spliced list still has no duplicates and none of
   * its names has an element among the disabled ones, the target's included.
   */
  lemma RemainingNotDisabled(s: Round, k: nat)
    requires Consistent(s) && k < |s.features| && Listening(s, k) && DistinctIds(s.features)
    ensures s.idx < |s.countries|
    ensures var rest := Splice(s.countries, s.idx);
      && NoDup(rest)
      && forall e, i :: e in Scored(s, k).disabled && 0 <= i < |rest| ==>
           ElementId(s.features[e]) != ElementId(rest[i])
  {
    MarksTargetOnly(s, k);
    var c := s.countries[s.idx];
    var e := SelectById(s.features, ElementId(c)).value;
    var rest := Splice(s.countries, s.idx);
    forall a, b | 0 <= a < b < |rest| ensures rest[a] != rest[b] {
      var a' := if a < s.idx then a else a + 1;
      var b' := if b < s.idx then b else b + 1;
      assert rest[a] == s.countries[a'] && rest[b] == s.countries[b'] && a' < b';
    }
    forall e', i | e' in Scored(s, k).disabled && 0 <= i < |rest|
      ensures ElementId(s.features[e']) != ElementId(rest[i])
    {
      var i' := if i < s.idx then i else i + 1;
      assert rest[i] == s.countries[i'] && i' != s.idx;
      if e' != e {
        assert e' in s.disabled;
      } else {
        assert rest[i] != c;
        assert rest[i] in multiset(s.countries);
        assert c in multiset(s.countries);
        DistinctNamesDistinctIds(s.features, rest[i], c);
      }
    }
  }
}
