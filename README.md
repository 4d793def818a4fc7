# Topic sunburst: selection, top-N weighting and corpus choice

This project models the part of `topicSunburst.js` that is logic rather than drawing. The
page shows a sunburst chart of the topics found in a corpus of texts. Three pieces are
modelled:

- **The slice click handler (`selectSlice`).** It runs over every slice of the chart.
  Each slice has a `prevClicked` flag and an opacity, full or washed out to 0.4. A click on
  a slice that is not flagged selects it:
  - the slice and its ancestors other than the root stay at full opacity;
  - the slice alone is flagged;
  - the `#topicName` label names the topic;
  - the sidebar lists the texts whose `found` object answers the topic.

  A second click on the same slice undoes all of this. A call with no slice throws, and
  the catch block puts every slice back at full opacity and empties the sidebar.
- **The "top N" weighting (`showTopTopics`, and the `sum` and `sort` calls of
  `drawSunburst`).** A record weighs its `size` when its `rank` is at most N, and 0
  otherwise. Under "all" it always weighs its `size`. A node's value is its own weight plus
  its children's values. Siblings are sorted by descending value once, when the chart is
  drawn. No node is ever removed.
- **The corpus buttons (`changeSelectedCorpus`).** The clicked button's id picks the
  corpus, corpus A by default. Exactly one button is highlighted afterwards.

Files:
- `options.dfy`: `Option`, the model of a JavaScript value that may be `undefined`.
- `hierarchy.dfy`: module `Hierarchy`, the topic records, d3's `hierarchy`, `sum` and
  `sort`, and the top-N rule.
- `texts.dfy`: module `Texts`, the text records and the sidebar filter.
- `corpus.dfy`: module `Corpus`, the corpus choice and the button highlight.
- `selection.dfy`: module `Selection`. It has the slice tree, the function `AfterClick`
  (what one handler call does to the page, as a value) with its lemmas, and the class
  `SunburstView`. The class holds the flags and opacities in arrays. Its `Click` method
  sweeps them in loops and is proved to produce exactly `AfterClick`.

Modelling decisions:
- The slices are indexed as `root.descendants()` lists them. Index 0 is the root, and
  every other slice's parent has a smaller index.
- An absent `rank` compares false against N, so it weighs 0 under top N. An absent `size`
  is read as 0, as d3's `sum` coerces it. Sizes are integers.
- `found[topic]` is defined exactly when the topic is a key of the map (JSON has no
  `undefined`) or one of the names every object inherits from `Object.prototype`, such as
  `toString` or `constructor`. A topic with such a name lists every text that has `found`.
- The `#sidebar` is modelled as the list of text records it shows, and clearing it as the
  empty list. The cards go into `<divs>` elements, while the clearing code removes `div`
  elements. The model's empty sidebar is the page's when every card's HTML is a `div`.
- A button id other than `corpusA`, `corpusB` or `corpusC` names no corpus. The empty id
  stands for the direct call at page load.

Behaviour of the code worth knowing:
- `showTopTopics` sums again but does not sort again. Under "top 5" or "top 10" the siblings
  keep the order of the full-size sort, which need not be descending in the new values
  (`TopFilterKeepsFullSizeOrder`).
- The sidebar filter looks `topic` up in each text's `found` object.
- The only thresholds are 5 and 10.
- The catch block keeps the `prevClicked` flags (their reset is commented out) and does not
  clear `#topicName`. `changeSelectedCorpus` clears the label right after the call.

## Model

| member | source | states |
|---|---|---|
| `Hierarchy.WeightSumMonotone` | topicSunburst.js:243-248 | the weight rule: with sizes that are not negative, a list of records weighs no more under top N than under top M for N ≤ M, and no more than its full size |
| `Hierarchy.UnrankedWeighNothing` | topicSunburst.js:244-246 | `d.rank <= n` is false for a record without a rank or with a rank above N, and such records weigh 0 |
| `Hierarchy.SizelessWeighNothing` | topicSunburst.js:53 | a record without a size weighs 0 under every rule, as `sum` reads an undefined size as 0 |
| `Hierarchy.FilterFor` | topicSunburst.js:243-249 | "top 5" is tested first, then "top 10"; with neither checked every record keeps its size |
| `Hierarchy.Build` | topicSunburst.js:52 | `d3.hierarchy` gives one node per record, with the topic file's own shape and child order |
| `Hierarchy.Sum` | topicSunburst.js:53 | `sum` keeps every node in place (same shape, same records, same order); every node's value is its own weight plus its children's values |
| `Hierarchy.SumIsSubtreeWeight` | topicSunburst.js:52-53 | a node's value is the total weight of every record in its subtree |
| `Hierarchy.Insert` | topicSunburst.js:54 | one insertion step under `b.value - a.value`: one sibling longer, a permutation of the list plus the new sibling, descending when the list was, headed by the new sibling or by the old head |
| `Hierarchy.InsertPlacement` | topicSunburst.js:54 | the inserted sibling lands after every larger sibling and before the first that is not larger; the others keep their order |
| `Hierarchy.SortByValue` | topicSunburst.js:54 | a sibling list comes out in descending order of value and as a permutation of the input |
| `Hierarchy.SortTree` | topicSunburst.js:54 | every sibling list of the tree is descending; the root's record and value are unchanged; the root's children are a permutation of its own children, each sorted |
| `Hierarchy.SortOnlyReorders` | topicSunburst.js:54 | with sibling order forgotten, the sorted tree is the tree it started from: sorting moves no node to another parent |
| `Hierarchy.SortKeepsMembers` | topicSunburst.js:54 | sorting keeps exactly the same records, as a multiset |
| `Hierarchy.SortKeepsSums` | topicSunburst.js:52-54 | after sorting, each value is still its own weight plus its children's values |
| `Hierarchy.Layout` | topicSunburst.js:52-54 | the drawn hierarchy wraps the file's root, is summed by full size, is sorted at every level, and is the file's summed tree up to sibling order |
| `Hierarchy.ShowTop` | topicSunburst.js:238-249 | re-summing under the checked rule removes and moves no node (same shape, same records in the same order); the values are the sums under that rule |
| `Hierarchy.TopValueMonotone` | topicSunburst.js:243-248 | with sizes that are not negative, a value under top N is at most its value under top M for N ≤ M, and that is at most its full-size value |
| `Hierarchy.ExcludedSubtreeIsEmpty` | topicSunburst.js:234-236 | a subtree with no record ranked within the top N gets value 0 but stays in the tree |
| `Hierarchy.FilterKeepsShape` | topicSunburst.js:234-249 | switching between any two rules keeps the same shape and the same records in the same order |
| `Hierarchy.TopFilterKeepsFullSizeOrder` | topicSunburst.js:238-249 | under top N, an unranked leaf sorted first by full size stays first with value 0, ahead of a ranked sibling with value above 0, so the order is no longer descending |
| `Texts.Matching` | topicSunburst.js:129-130 | every text that mentions the topic is kept, as often as in the file, and nothing else is kept |
| `Texts.ObjectMemberNamesMatchAll` | topicSunburst.js:130 | a topic named like a member every object inherits is found in every text, so the filter keeps the whole file in order |
| `Texts.TopicLabel` | topicSunburst.js:125 | the label is the topic between `Topic: '` and `'`, and the topic can be read back from it |
| `Texts.SelectTexts` | topicSunburst.js:123-141 | the filter fails exactly when the texts are not loaded or some text has no `found`; otherwise it yields exactly the texts whose `found` answers the topic |
| `Corpus.CorpusFor` | topicSunburst.js:169 | no id gives Hosea (corpus A); `corpusA`, `corpusB` and `corpusC` give Hosea, Jonah and Luke; any other id gives none |
| `Corpus.ButtonFor` | topicSunburst.js:181-187 | button B is chosen iff the id is `corpusB`, C iff it is `corpusC`, and A for every other id |
| `Corpus.Highlight` | topicSunburst.js:180-187 | after the click, a button is highlighted iff it is B for id `corpusB`, C for `corpusC`, and A otherwise |
| `Corpus.ExactlyOneHighlighted` | topicSunburst.js:180-187 | exactly one of the three corpus buttons is highlighted |
| `Corpus.HighlightNamesLoadedCorpus` | topicSunburst.js:169-187 | whenever a corpus is chosen, the highlighted button is the button labelled with it |
| `Selection.PathToRoot` | topicSunburst.js:105 | `path(root)` starts at the clicked slice, ends at the root, and each entry is the parent of the one before |
| `Selection.RootPathStep` | topicSunburst.js:105-106 | `rootPath` is empty for the root, and otherwise the parent's `rootPath` with the slice appended |
| `Selection.Baseline` | topicSunburst.js:65-68 | the freshly drawn slices: all unflagged, all at full opacity, no label, an empty sidebar |
| `Selection.RootPathMembers` | topicSunburst.js:105-106 | `rootPath` holds the clicked slice and its ancestors, and nothing else; the root is never on it |
| `Selection.RootPathIsChain` | topicSunburst.js:105-106 | `rootPath` runs from a child of the root down to the clicked slice, each entry the parent of the next; it is empty iff the root was clicked |
| `Selection.AfterClick` | topicSunburst.js:100-157 | a handler call keeps one flag and one opacity per slice; its effects are stated by the lemmas below |
| `Selection.FreshClickFlags` | topicSunburst.js:121-147 | a click on a slice that is not flagged leaves exactly that slice flagged |
| `Selection.FreshClickOpacity` | topicSunburst.js:109-149 | after such a click, a slice is at full opacity iff it is the clicked slice or one of its ancestors other than the root |
| `Selection.FreshClickSidebar` | topicSunburst.js:123-144 | such a click sets the topic label; the sidebar lists exactly the texts that mention the topic; if the filter throws, the sidebar is unchanged and the slice is still flagged and highlighted |
| `Selection.ToggleOff` | topicSunburst.js:113-119 | two clicks in a row on the same slice, the first a fresh selection, restore the state after drawing: nothing flagged, all at full opacity, no label, empty sidebar |
| `Selection.SwitchSlices` | topicSunburst.js:113-147 | after clicking n and then another slice m, n is unflagged and exactly m's path is bright; a later click on n is a fresh selection |
| `Selection.NoNodeFallback` | topicSunburst.js:150-155 | a call with no slice puts every slice at full opacity and empties the sidebar; it keeps the flags and the label |
| `Selection.SunburstView.constructor` | topicSunburst.js:40 | the page after the first corpus is chosen and drawn: corpus A, button A highlighted, nothing flagged, all at full opacity |
| `Selection.SunburstView.SetOpacity` | topicSunburst.js:109 | `newSlice.style("opacity", ...)` gives every slice the same opacity |
| `Selection.SunburstView.Click` | topicSunburst.js:100-157 | the sweep over the flag and opacity arrays leaves the page exactly as `AfterClick` describes; corpus and buttons are untouched |
| `Selection.SunburstView.ChangeCorpus` | topicSunburst.js:167-189 | sets the corpus from the id, runs the no-slice fallback, clears label and sidebar, and highlights the one button for the id; the flags are kept |

## Left out

- Partition geometry (`d3.partition`, `d3.arc`, centroids): floating-point results of library code.
- Transitions (`arcTweenPath`, `arcTweenText`, the 750 ms duration, the `x0s`/`x1s` history): float interpolation and animation time.
- Label placement (`computeTextRotation`, the 0.07-radian opacity threshold): floating-point angles.
- Loading (`getTopicsData`, `getTextsFile`): asynchronous I/O. The loaded data are constructor parameters of `SunburstView`. `ChangeCorpus` does not start or wait for a new load.
- Rendering in `drawSunburst`: the keyed data join, paths, labels and colour scale. The chart reaches the model as a list of parent indices and names. Replacing that tree when a new corpus arrives is not modelled.
- The CSS-class highlighting of verbatims in the text cards, at line 140: DOM styling.
- `showDate` (an alert stub) and `showFullText` (card expand and collapse): display only.
- The emptied `<divs>` wrappers the clearing code leaves behind in `#sidebar`, and card HTML that is not a single `div`: DOM structure. The model reads the sidebar as the list of texts shown.
- `SortByValue`: it does not state that ties keep their input order; `InsertPlacement` proves only that each insertion step puts the earlier sibling before equal ones.
- `Texts.Matching`: it states the matching texts with their multiplicities, not that they keep file order.
- `Selection.SunburstView.Click`: it requires the clicked index to be a slice of the current chart, because the handler is only bound to those slices.
