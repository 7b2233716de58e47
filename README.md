# Geography quiz: a verified model of the quiz logic

The geography quiz draws the map of one region. It asks the player to click the
territory whose name it shows, scores each click, and stops once every territory
has been asked. This project models the logic behind those pages.

- **quiz.js** (`QuizPage`): the current quiz page.
  - The region comes from the query string of the navigation link.
  - The data file path and the map projection follow from the region.
  - Each click on a territory scores a guess against the current target, marks and disables the target's element, and moves on. On a non-final guess it labels the old target, splices it out of the remaining names and draws a new target. On the final guess it removes every click listener and shows the finished message.
  - Restart resets the five score cells and draws a new round.
- **main.js** (`MainPage`): the earlier single-page quiz.
  - The region is chosen in a dropdown whose option values are the region names with spaces underscored. The first load selects Africa.
  - Its click handler labels the target on every click, the last one included.
  - After a non-final guess it shows the target just asked for rather than the new target.
  - Its reset leaves the percent cell alone.
- **common.js** (`Common`): the `Utils` class.
  - Its region list, and the navigation links its constructor builds from it.
  - `chunkify`, which splits a list into chunks in one of three modes.

What the two pages share is in `Board`:

- the drawn map, as the feature names in document order;
- the element-id sanitiser;
- `d3.select('#' + id)` as a first match in document order;
- the `getCoords` search;
- `rng`;
- the state of one round, `Round`.

`Text` models the JavaScript string operations used: `indexOf`, `replace` with a string pattern (first occurrence only) and `replaceAll`.

Each page follows the same pattern:

- A pure function `AfterClick(s, k, r)` states what a click on element `k` does to the round `s`, where `r` is the value the handler's `rng` call returns.
- Each page's `Quiz` class holds the round in a field. Its `Click` method updates the round step by step, as the handler does. It is proved to end in `AfterClick(old(round), k, r)` and to keep the page's invariant `Inv`.
- The properties of the handler are lemmas about `AfterClick`.

Four behaviours of the code are easy to miss:

- The `correct`/`incorrect` class and the listener removal go on the element of the *target* (`d3.select('#' + c...)`), not on the clicked element.
- An empty query string gives the region `""` (no default region).
- The Europe projection of quiz.js has precision 1; every other entry has 0.1.
- main.js keys its projection table by the underscored option values, so `"North America"` gets no projection there.

## Model

| member | source | states |
|---|---|---|
| Text.IndexOf | scripts/quiz.js:69 | `indexOf` finds an occurrence of the pattern with none before it, or reports that there is none anywhere |
| Text.ReplaceFirst | scripts/quiz.js:69 | definition of `replace` with a string pattern: the text around the first `indexOf` match, with the match replaced; no match leaves the text as it is (properties: Text.ReplaceFirstAt) |
| Text.ReplaceFirstAt | scripts/quiz.js:69 | `replace` with a string pattern replaces the first occurrence only, leaving the text before and after it |
| Text.ReplaceAllRemoves | scripts/quiz.js:207 | after `replaceAll(c, rep)` the character `c` no longer occurs, when `rep` does not contain it |
| Text.ReplaceAll | scripts/quiz.js:207 | definition of `replaceAll` of one character: each occurrence replaced, every other character kept in order (properties: the three ReplaceAll lemmas) |
| Text.ReplaceAllAbsent | scripts/quiz.js:207 | `replaceAll` of a character that does not occur leaves the string unchanged |
| Text.ReplaceAllAppend | scripts/main.js:73 | `replaceAll` of a character distributes over concatenation |
| Board.ElementId | scripts/quiz.js:207 | a sanitised id contains no space and no dot |
| Board.ElementIdIdempotent | scripts/quiz.js:207 | sanitising an id again gives the same id |
| Board.SelectById | scripts/quiz.js:214 | `d3.select('#' + id)` gives the first element with that id, and none exactly when no element has it |
| Board.FindFeature | scripts/quiz.js:316-321 | the getCoords loop stops at the first feature with the name, and finds none exactly when the name is absent |
| Board.CoordsElement | scripts/quiz.js:313-321 | definition of the element getCoords measures: the first feature with the name, then `d3.select` of that feature's id; none for an absent name (properties: Board.CoordsIsSelected) |
| Board.CoordsIsSelected | scripts/quiz.js:313-321 | for a name on the map, getCoords measures the element that `d3.select` of the name's id gives |
| Board.Rng | scripts/quiz.js:309-311 | `floor(u * max) - min` lies in `[-min, max - min)` for `max > 0`, and is `-min` for `max == 0` |
| Board.RngCovers | scripts/quiz.js:309-311 | every index in `[0, max)` (0 when `max` is 0) is returned by `rng(0, max)` for some `Math.random()` value |
| Board.Splice | scripts/quiz.js:257 | `splice(idx, 1)` removes one element and keeps the others in order |
| Board.SpliceMultiset | scripts/quiz.js:257 | the removed name plus what remains is the old list, as a multiset |
| Board.NewRound | scripts/quiz.js:181-194 | definition of drawMap's round: all features drawn, `countries` all the names, target `countries[r]`, counters zero, total the feature count, no marks, listeners or labels removed or added (properties: Board.NewRoundConsistent) |
| Board.Scored | scripts/quiz.js:212-230 | definition of the scoring steps shared by both pages (properties: Board.ScoreFollowsTarget, Board.MarksTargetOnly, Board.ScoredKeepsMarks) |
| Board.NewRoundConsistent | scripts/quiz.js:186-194 | a freshly drawn round satisfies the shared invariant: counters, list length against guesses, a valid target index, marks and labels |
| Board.TargetSelected | scripts/quiz.js:212-214 | on a handled click the target index is valid, and the target's name has an element on the map |
| Board.DistinctNamesDistinctIds | scripts/quiz.js:207 | on a map with distinct ids, different names sanitise to different ids |
| Board.ScoreFollowsTarget | scripts/quiz.js:221-230 | correct goes up iff the clicked name is the target, incorrect iff it is not, and guesses always; percent is recomputed only on a correct guess |
| Board.MarksTargetOnly | scripts/quiz.js:214-219 | the mark and the listener removal fall on the target's element only; a clicked non-target element is untouched; nothing else changes; with distinct ids the element was not yet disabled |
| Board.ScoredKeepsMarks | scripts/quiz.js:214-230 | scoring keeps marks exactly on the disabled elements, and keeps every label on a disabled element with the label's id |
| Board.RemainingNotDisabled | scripts/quiz.js:256-257 | with distinct ids, the spliced list has no duplicates, and no remaining name has a disabled element |
| Common.RegionLinks | scripts/common.js:12-19 | one link per region, in region order, with `href == "quiz.html?" + name` and `text == name` |
| Common.Utils.constructor | scripts/common.js:12-19 | the loop builds exactly the region links of the seven regions |
| Common.Utils.Chunkify | scripts/common.js:118-149 | chunking the link list gives chunks whose concatenation is the list; `n < 2` gives the whole list as one chunk; the stored list is not changed |
| Common.ChunkifyList | scripts/common.js:118-149 | see the bullets after this table |
| Common.EqualChunks | scripts/common.js:128-132 | the list is split into `n` chunks of `len / n` items, none for an empty list, concatenating back to the list |
| Common.BalancedChunks | scripts/common.js:133-137 | the loop builds the balanced split: chunks of `ceil((len - i) / n)` items with `n` decreasing |
| Common.BalancedSplit | scripts/common.js:133-137 | definition of the balanced chunks: `ceil(len / n)` items, then the same for the rest with one chunk fewer (properties: Common.BalancedSplitConcat, Common.BalancedSplitShape) |
| Common.BalancedChunksShape | scripts/common.js:133-137 | the balanced split concatenates back to the list, has `min(n, len)` non-empty chunks, and its lengths are non-increasing and differ by at most one |
| Common.BalancedSplitConcat | scripts/common.js:134-136 | the balanced chunks laid end to end give back the list |
| Common.BalancedSplitShape | scripts/common.js:134-136 | every balanced chunk has `q` or `q + 1` items, longest first, when `m` chunks of `q` fit and `m` of `q + 1` do not |
| Common.BalancedStep | scripts/common.js:135 | one balanced step takes `q + 1` items while there is a remainder and `q` once there is none, and keeps the bounds for the rest |
| Common.CeilDiv | scripts/common.js:135 | `Math.ceil(a / b)` is the fewest slices of `b` covering `a` |
| Common.CeilUnique | scripts/common.js:135 | that count of slices is unique |
| Common.DivBounds | scripts/common.js:128-129 | `floor(len / d)` slices of `d` fit in `len` and one more does not; they fill it exactly iff `d` divides `len` |
| Common.UnbalancedSize | scripts/common.js:139-142 | the unbalanced chunk size times `n - 1` stays below `len`, so the last chunk is never empty |
| Common.UnbalancedChunks | scripts/common.js:138-147 | the unbalanced split has `n - 1` chunks of `size` and a non-empty last chunk; with `size` 0 it is one chunk; it concatenates back to the list |
| QuizPage.DropLeadingQuestionMark | scripts/quiz.js:69 | `replace('?', '')` drops the leading question mark |
| QuizPage.ParseRegion | scripts/quiz.js:69 | definition of the region parse: first `?` dropped, then first `%20` made a space (properties: the ParseRegion and SearchRoundTrip lemmas) |
| QuizPage.ParseRegionPlain | scripts/quiz.js:69 | a query without `%` parses to itself minus the `?` |
| QuizPage.ParseRegionFirstEscape | scripts/quiz.js:69 | only the first `%20` becomes a space; any later `%20` is kept |
| QuizPage.SearchRoundTrip | scripts/quiz.js:69 | a name with no `%` and at most one space survives the browser's space encoding and the parse |
| QuizPage.NavigationLinksParse | scripts/common.js:15 | every navigation link's query parses back to its region's name |
| QuizPage.DataPath | scripts/quiz.js:174 | definition of the data path, with only the first space underscored (properties: QuizPage.DataPathUnderscored, MainPage.SameDataFile) |
| QuizPage.DataPathUnderscored | scripts/quiz.js:174 | for a region with at most one space, the data path is the fully underscored file name |
| QuizPage.Projection | scripts/quiz.js:275-307 | definition of the getProjection table: family, rotation and precision per region name, `null` otherwise (properties: QuizPage.ProjectionForLinkedRegions, MainPage.ProjectionsAgree) |
| QuizPage.ProjectionForLinkedRegions | scripts/quiz.js:275-307 | exactly the six continents of the navigation list have a projection; "World" and any other name get `null` |
| QuizPage.NewRoundInv | scripts/quiz.js:333-340 | after the reset ("0" in every score cell) and the redraw, the page's invariant holds |
| QuizPage.AfterClick | scripts/quiz.js:211-263 | definition of the click handler: no change without a listener; otherwise score, then finish on the last guess, or label the old target, splice it out and show `countries[r]` (properties: the ClickKeepsInv, NonFinalMovesOn, FinalGuessIsTerminal and EachTargetOnce lemmas) |
| QuizPage.ClickKeepsInv | scripts/quiz.js:211-263 | every click keeps the invariant: the shared one, one label per non-final guess, the instruction showing the target, and a percent cell consistent with the counters |
| QuizPage.FinalKeepsInv | scripts/quiz.js:233-237 | the final guess keeps the invariant |
| QuizPage.ContinueKeepsInv | scripts/quiz.js:239-262 | a non-final guess keeps the invariant |
| QuizPage.NonFinalMovesOn | scripts/quiz.js:256-261 | a non-final guess removes exactly the target, keeps the other names in order, draws the new index inside the shrunk list, shows the new target, and labels the old one |
| QuizPage.FinalGuessIsTerminal | scripts/quiz.js:233-237 | the final guess brings guesses to total, with no splice, no new target and no label; every later click changes nothing |
| QuizPage.EachTargetOnce | scripts/quiz.js:214-219 | with distinct ids every handled click disables a new element, one per guess, and the name just asked is no longer among the remaining names (`OnceEach` in `Inv` carries this forward to later rounds of the handler) |
| QuizPage.Quiz.Start | scripts/quiz.js:64-160 | page load: the region parsed from the query, then reset and a fresh round, with the invariant established |
| QuizPage.Quiz.ResetCounters | scripts/quiz.js:333-340 | marks cleared; correct, incorrect, guesses, total and percent set to "0" |
| QuizPage.Quiz.Draw | scripts/quiz.js:181-194 | the map is redrawn, `countries` is rebuilt in order from all the features, the target is drawn and total is set to the feature count |
| QuizPage.Quiz.Click | scripts/quiz.js:211-263 | the handler's state change is `AfterClick`, and the invariant is kept |
| QuizPage.Quiz.MoveOn | scripts/quiz.js:239-262 | the old target is labelled on its element, spliced out, and replaced by `countries[r]` in the instruction |
| QuizPage.Quiz.Score | scripts/quiz.js:212-230 | the target is marked and disabled, and the counter cells are updated |
| QuizPage.Quiz.Restart | scripts/quiz.js:144-151 | reset, hide the finished message, reset again and redraw: a fresh round with percent "0" and the invariant |
| MainPage.RegionsAreLinkedContinents | scripts/main.js:23-26 | the dropdown's regions are the six continents of the navigation list, without "World" |
| MainPage.OptionValue | scripts/main.js:73 | definition of an option value, every space underscored (properties: MainPage.OptionValueAt) |
| MainPage.OptionValueAt | scripts/main.js:71-75 | the option values are the region names with the space underscored: Africa, Asia, Europe, North_America, Oceania, South_America |
| MainPage.DataPath | scripts/main.js:155 | definition of the data path from the selected value (properties: MainPage.SameDataFile) |
| MainPage.SameDataFile | scripts/main.js:155 | for every region main.js loads the same file as quiz.js does |
| MainPage.Projection | scripts/main.js:244-275 | definition of main.js's getProjection table, keyed by option values (properties: MainPage.ProjectionForOptions, MainPage.ProjectionsAgree) |
| MainPage.ProjectionForOptions | scripts/main.js:244-275 | a name has a projection iff it is an option value; the spaced names get `null` |
| MainPage.ProjectedIsOption | scripts/main.js:244-275 | every key of the projection table is an option value |
| MainPage.ProjectionsAgree | scripts/main.js:244-275 | per region, the same family and rotation as quiz.js; the precision differs for Europe only |
| MainPage.NewRoundInv | scripts/main.js:162-175 | a redrawn round satisfies the page's invariant, whatever the percent cell shows |
| MainPage.AfterClick | scripts/main.js:192-232 | definition of the click handler: no change without a listener; otherwise score, then finish on the last guess or splice and show the old target, and label the old target in both cases (properties: the ClickKeepsInv, LabelOnEveryClick, InstructionShowsRemovedTarget and FinalGuessIsTerminal lemmas) |
| MainPage.ClickKeepsInv | scripts/main.js:192-232 | every click keeps the invariant: the shared one, one label per guess, and the instruction showing the target before the first guess and the last label after it |
| MainPage.LabelOnEveryClick | scripts/main.js:225-231 | every handled click appends the target's label, the final one included, so labels equal guesses; the round finishes iff the guess was the last |
| MainPage.InstructionShowsRemovedTarget | scripts/main.js:222 | after a non-final guess the instruction shows the target just removed; with distinct ids, that name is no longer among the remaining names and is not the new target |
| MainPage.FinalGuessIsTerminal | scripts/main.js:214-216 | the final guess brings guesses to total, with no splice and the instruction kept; every later click changes nothing |
| MainPage.StalePercentAfterRestart | scripts/main.js:119-128 | after a round with a correct guess, the reset round shows zero correct next to the old percentage |
| MainPage.Quiz.Init | scripts/main.js:132-133 | the first load selects Africa and draws its round, with "0%" in the percent cell |
| MainPage.Quiz.ClearScores | scripts/main.js:138-142 | marks cleared; correct, incorrect, guesses and total set to "0"; percent untouched |
| MainPage.Quiz.InitMap | scripts/main.js:136-160 | reset, then a fresh round with the old percent cell |
| MainPage.Quiz.Select | scripts/main.js:132 | a dropdown choice selects that option's value and redraws |
| MainPage.Quiz.Restart | scripts/main.js:119-128 | the selection is unchanged; a fresh round keeps the old percent cell; the invariant holds |
| MainPage.Quiz.Draw | scripts/main.js:162-175 | the map is redrawn, `countries` is rebuilt from all the features, the target is drawn and total is set |
| MainPage.Quiz.Click | scripts/main.js:192-232 | the handler's state change is `AfterClick`, and the invariant is kept |
| MainPage.Quiz.AddLabel | scripts/main.js:225-231 | the label for `c` is appended on the element getCoords measures |
| MainPage.Quiz.Score | scripts/main.js:193-211 | the target is marked and disabled, and the counter cells are updated |

`Common.ChunkifyList` in detail:

- The chunks concatenate back to the list.
- `n < 2` gives the whole list as one chunk.
- When `n` divides the length, there are `n` equal chunks.
- Balanced mode gives `min(n, len)` non-empty chunks, non-increasing, differing by at most one.
- Unbalanced mode gives equal chunks and a non-empty last one.

## Left out

- Page construction and the DOM: the title, the score table, the navigation bar (`initNavbar`, `append`, `create`) and all of index.js. The counter cells are modelled as the numbers they hold.
- Hover highlighting (the mouseover and mouseout handlers): it is only presentational. Removing a target's listeners is modelled by the `disabled` set.
- Zoom, its reset button, transitions, `fitSize`, `geoPath` and `getBBox` midpoints: these are d3 floating-point geometry. A projection is modelled by its family, rotation and precision. A label is modelled by its text and the element whose bounding box would place it.
- Board.Rng: `Math.random()` is the real parameter `u`, not a double. Everywhere else the drawn index is the parameter `r`, constrained by `RngResult`.
- Percent formatting: `Math.round((val + Number.EPSILON) * 100) / 100` is floating point. The cell is `Rounded(correct, total)` for the number shown, or `Literal(text)` for a literal text.
- Loading the data (`Promise.all`, `d3.json`) is asynchronous I/O. The feature names are parameters of `Start`, `Init`, `Select`, `InitMap`, `Draw` and `Restart`. `DataPath` gives the file they come from.
- QuizPage.Quiz.Restart: the reset and the redraw are one step here. In the script, the counter cells are reset at once (scripts/quiz.js:146, 164), but the map is redrawn only when `d3.json` resolves (scripts/quiz.js:173-178). A click on the old map in that window does the following, none of which the model captures:
  - it scores against the old `countries[idx]`;
  - it makes guesses 1, which is at least the total cell's 0, so it removes every listener and shows the finished message;
  - on a hit, it sets the percent cell from 1 / 0.
  drawMap then resets only the total cell. So the new round starts with one guess already counted, ends one guess early, and shows the finished message from the start.
- MainPage.Quiz.Restart, MainPage.Quiz.Select, MainPage.Quiz.InitMap: the same load window exists after the reset lines of scripts/main.js:121-125 and 138-142. A click in it counts against the old map, removes every listener, and leaks into the new round's counters. The model does not capture this either. Two loads in flight, from quick dropdown changes, can also resolve and draw out of order. The model draws each selection at once and in order.
- `d3.select` of an id that is not a valid CSS selector (an apostrophe in the name, say) throws at scripts/quiz.js:214 and scripts/main.js:195, before any counter changes. Such a target can never be scored, and the round stalls until the next restart. The model compares element ids as strings and always finds the target.
- `regions.indexOf(region)` and `initNavbar` (scripts/quiz.js:70, 75) are used as page globals, while common.js defines them only as members of `Utils`. The model assumes the page provides them; otherwise `init` throws at line 70 and `Start` never happens. The index only feeds the navigation bar and is not part of this model.
- Common.Utils.Chunkify: its contract states concatenation, the `n < 2` case and the chunk counts of the equal and balanced modes only. The full per-mode shapes are stated on `Common.ChunkifyList`, which it calls.
- Common.ChunkifyList: for `n < 2` the script returns its private array itself as the one chunk, not a copy, so a caller that changes that chunk changes the link list; chunks are modelled as values, so this aliasing is not captured.
- Common.ChunkifyList: `n` is an integer here; the script accepts any number, and a fractional `n` (2.5, say) goes through fractional `%`, `/` and `n--` (scripts/common.js:128-135), which the model does not cover.
- MainPage.Quiz.Init: the dispatched `input` event is modelled as a direct call of `InitMap` on the first option.

## Findings

| source | as written | input that shows it | evidently intended | confidence | as-written member | corrected member |
|---|---|---|---|---|---|---|
| scripts/main.js:222 | after a non-final guess `instruction.text(c)` shows the target just removed, while the next click is scored against `countries[idx]` | features `["A", "B", "C"]`, first target `A` (r = 0), click on `A`, next r = 0: the page asks for `A` (already disabled) while the target is `B` | show the new target `countries[idx]`, as quiz.js:260-261 does | high, not executed | MainPage.InstructionShowsRemovedTarget | QuizPage.NonFinalMovesOn |
| scripts/main.js:119-128 | the Restart handler and initMap reset four counters but not the percent cell | features `["A", "B"]`, a correct first guess (percent shows 50%), then Restart: correct 0 next to 50% | reset the percent cell as well, as quiz.js:339 does | high, not executed | MainPage.StalePercentAfterRestart | QuizPage.Quiz.Restart |

main.js is modelled as written. The corrected behaviour is that of quiz.js, the later page, which the `QuizPage` model follows. There, `QuizPage.Inv` requires the instruction to show the current target and the percent cell to agree with the correct count. `QuizPage.NonFinalMovesOn` and `QuizPage.Quiz.Restart` prove these for a non-final guess and for a restart.
