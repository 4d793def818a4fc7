/**
 * Clicking slices of the sunburst (`selectSlice`) and switching corpus
 * (`changeSelectedCorpus`).
 *
 * The slices are the nodes of `root.descendants()`: index 0 is the root and every other
 * node's parent comes before it. Each slice carries a `prevClicked` flag and an opacity,
 * full (1) or washed out (0.4). A click on a slice that is not flagged selects it: the
 * slice and its ancestors other than the root stay at full opacity, the topic label names
 * it and the sidebar lists the texts that mention it. A second click on the same slice
 * undoes all of this. A call with no slice at all lands in the handler's catch block.
 */
module Selection {
  import opened Options
  import opened Texts
  import Corpus

  /** The slices on screen: the parent index and the topic name of each. */
  datatype Chart = Chart(parent: seq<int>, names: seq<string>)

  predicate ValidChart(chart: Chart) {
    && |chart.parent| > 0
    && |chart.names| == |chart.parent|
    && forall i :: 0 < i < |chart.parent| ==> 0 <= chart.parent[i] < i
  }

  /** `a` is `c` or one of its ancestors. */
  predicate AncestorOrSelf(chart: Chart, a: nat, c: nat)
    requires ValidChart(chart) && c < |chart.parent|
    decreases c
  {
    a == c || (c > 0 && AncestorOrSelf(chart, a, chart.parent[c]))
  }

  /** `c.path(root)`: the slice, its parent, and so on up to the root. */
  function PathToRoot(chart: Chart, c: nat): (p: seq<nat>)
    requires ValidChart(chart) && c < |chart.parent|
    ensures |p| > 0 && p[0] == c && p[|p| - 1] == 0
    ensures forall k :: 0 <= k < |p| ==> p[k] <= c
    ensures forall k :: 0 <= k < |p| - 1 ==> p[k] != 0 && chart.parent[p[k]] == p[k + 1]
    decreases c
  {
    if c == 0 then [0] else [c] + PathToRoot(chart, chart.parent[c])
  }

  function Reverse<T>(s: seq<T>): (r: seq<T>)
    ensures |r| == |s|
  {
    if s == [] then [] else Reverse(s[1..]) + [s[0]]
  }

  /** `rootPath` in `selectSlice`: the path reversed, then the root shifted off its front. */
  function RootPath(chart: Chart, c: nat): (r: seq<nat>)
    requires ValidChart(chart) && c < |chart.parent|
  {
    Reverse(PathToRoot(chart, c))[1..]
  }

  // ---------------------------------------------------------------------------
  // What the page shows, and what one call of the handler does to it
  // ---------------------------------------------------------------------------

  /** What a handler argument can be: nothing, or one of the slices. */
  datatype Target = NoNode | Slice(index: nat)

  /** Per slice its `prevClicked` flag and whether it is at full opacity; the `#topicName`
      label; the texts listed in the sidebar. */
  datatype View = View(flagged: seq<bool>, full: seq<bool>, heading: string, sidebar: seq<TextRecord>)

  predicate Fits(chart: Chart, v: View) {
    |v.flagged| == |chart.parent| && |v.full| == |chart.parent|
  }

  predicate Targets(chart: Chart, t: Target) {
    t.Slice? ==> t.index < |chart.parent|
  }

  function Constant(n: nat, b: bool): (r: seq<bool>)
    ensures |r| == n && forall j :: 0 <= j < n ==> r[j] == b
  {
    seq(n, _ => b)
  }

  /** The page right after the chart is drawn: no slice flagged, all at full opacity, no
      label, no texts listed. */
  function Baseline(n: nat): (r: View)
    ensures |r.flagged| == n && |r.full| == n
    ensures forall j :: 0 <= j < n ==> !r.flagged[j] && r.full[j]
    ensures r.heading == "" && r.sidebar == []
  {
    View(Constant(n, false), Constant(n, true), "", [])
  }

  /** The page after one call of `selectSlice` with the given argument. */
  function AfterClick(chart: Chart, texts: Option<seq<TextRecord>>, v: View, t: Target): (r: View)
    requires ValidChart(chart) && Fits(chart, v) && Targets(chart, t)
    ensures Fits(chart, r)
  {
    var n := |chart.parent|;
    match t
    case NoNode =>
      // the catch block: every slice back to full opacity, the sidebar emptied
      v.(full := Constant(n, true), sidebar := [])
    case Slice(c) =>
      if v.flagged[c] then
        Baseline(n)
      else
        var onPath := RootPath(chart, c);
        var shown := SelectTexts(texts, chart.names[c]);
        View(seq(n, j => j == c), seq(n, j => j == c || j in onPath),
             TopicLabel(chart.names[c]), if shown.Some? then shown.value else v.sidebar)
  }

  // ---------------------------------------------------------------------------
  // Lemmas on paths
  // ---------------------------------------------------------------------------

  lemma RootPathStep(chart: Chart, c: nat)
    requires ValidChart(chart) && c < |chart.parent|
    ensures RootPath(chart, c) == if c == 0 then [] else RootPath(chart, chart.parent[c]) + [c]
  {
    if c != 0 {
      var up := PathToRoot(chart, chart.parent[c]);
      assert PathToRoot(chart, c) == [c] + up;
      assert ([c] + up)[1..] == up;
      assert Reverse(PathToRoot(chart, c)) == Reverse(up) + [c];
      assert |Reverse(up)| > 0 by { assert |up| > 0; }
      assert (Reverse(up) + [c])[1..] == Reverse(up)[1..] + [c];
    }
  }

  /** The slices on `rootPath` are exactly the clicked slice and its ancestors, root excepted. */
  lemma {:induction false} RootPathMembers(chart: Chart, c: nat)
    requires ValidChart(chart) && c < |chart.parent|
    ensures forall x: nat :: x in RootPath(chart, c) <==> x != 0 && AncestorOrSelf(chart, x, c)
    decreases c
  {
    RootPathStep(chart, c);
    if c != 0 {
      RootPathMembers(chart, chart.parent[c]);
    }
  }

  /** `rootPath` runs from a child of the root down to the clicked slice, parent to child. */
  lemma {:induction false} RootPathIsChain(chart: Chart, c: nat)
    requires ValidChart(chart) && c < |chart.parent|
    ensures var p := RootPath(chart, c);
      && (c == 0 <==> p == [])
      && (forall k :: 0 <= k < |p| ==> p[k] <= c)
      && (c != 0 ==> p[|p| - 1] == c && chart.parent[p[0]] == 0)
      && forall k :: 0 < k < |p| ==> chart.parent[p[k]] == p[k - 1]
    decreases c
  {
    RootPathStep(chart, c);
    if c != 0 {
      RootPathIsChain(chart, chart.parent[c]);
    }
  }

  // ---------------------------------------------------------------------------
  // Lemmas on clicks
  // ---------------------------------------------------------------------------

  /** A click on a slice that is not flagged leaves exactly that slice flagged. */
  lemma FreshClickFlags(chart: Chart, texts: Option<seq<TextRecord>>, v: View, c: nat)
    requires ValidChart(chart) && Fits(chart, v) && c < |chart.parent| && !v.flagged[c]
    ensures var r := AfterClick(chart, texts, v, Slice(c));
      forall j :: 0 <= j < |chart.parent| ==> (r.flagged[j] <==> j == c)
  {
  }

  /** After such a click a slice is at full opacity iff it is the clicked one or one of its
      ancestors other than the root; every other slice is washed out. */
  lemma FreshClickOpacity(chart: Chart, texts: Option<seq<TextRecord>>, v: View, c: nat)
    requires ValidChart(chart) && Fits(chart, v) && c < |chart.parent| && !v.flagged[c]
    ensures var r := AfterClick(chart, texts, v, Slice(c));
      forall j :: 0 <= j < |chart.parent| ==>
        (r.full[j] <==> j == c || (j != 0 && AncestorOrSelf(chart, j, c)))
  {
    RootPathMembers(chart, c);
  }

  /** Such a click names the topic in the label. The sidebar then lists exactly the texts
      that mention the topic; when the filter throws, the sidebar is left
      as it was and the slice is flagged and highlighted all the same. */
  lemma FreshClickSidebar(chart: Chart, texts: Option<seq<TextRecord>>, v: View, c: nat)
    requires ValidChart(chart) && Fits(chart, v) && c < |chart.parent| && !v.flagged[c]
    ensures var r := AfterClick(chart, texts, v, Slice(c));
      && r.heading == TopicLabel(chart.names[c])
      && (texts.Some? && AllHaveFound(texts.value) ==>
            forall x :: x in r.sidebar <==> x in texts.value && Mentions(x, chart.names[c]))
      && (texts.None? || !AllHaveFound(texts.value) ==>
            r.sidebar == v.sidebar && r.flagged[c] && r.full[c])
  {
  }

  /** Clicking the same slice twice in a row, the first click being a fresh selection,
      brings the page back to the state it had right after drawing. */
  lemma ToggleOff(chart: Chart, texts: Option<seq<TextRecord>>, v: View, c: nat)
    requires ValidChart(chart) && Fits(chart, v) && c < |chart.parent| && !v.flagged[c]
    ensures AfterClick(chart, texts, AfterClick(chart, texts, v, Slice(c)), Slice(c))
      == Baseline(|chart.parent|)
  {
  }

  /** Clicking `n` and then another slice `m` leaves `n` unflagged, selects exactly `m`'s
      path, and makes a later click on `n` a fresh selection rather than a toggle-off. */
  lemma SwitchSlices(chart: Chart, texts: Option<seq<TextRecord>>, v: View, n: nat, m: nat)
    requires ValidChart(chart) && Fits(chart, v) && n < |chart.parent| && m < |chart.parent|
    requires n != m
    ensures var w := AfterClick(chart, texts, AfterClick(chart, texts, v, Slice(n)), Slice(m));
      && !w.flagged[n]
      && (forall j :: 0 <= j < |chart.parent| ==>
            (w.full[j] <==> j == m || (j != 0 && AncestorOrSelf(chart, j, m))))
      && (forall j :: 0 <= j < |chart.parent| ==>
            (AfterClick(chart, texts, w, Slice(n)).flagged[j] <==> j == n))
  {
    var u := AfterClick(chart, texts, v, Slice(n));
    assert !u.flagged[m];
    FreshClickOpacity(chart, texts, u, m);
  }

  /** A call with no slice, as `changeSelectedCorpus` makes, puts every slice at full
      opacity and empties the sidebar; the flags and the label stay as they were. */
  lemma NoNodeFallback(chart: Chart, texts: Option<seq<TextRecord>>, v: View)
    requires ValidChart(chart) && Fits(chart, v)
    ensures var r := AfterClick(chart, texts, v, NoNode);
      && r.flagged == v.flagged && r.heading == v.heading && r.sidebar == []
      && forall j :: 0 <= j < |chart.parent| ==> r.full[j]
  {
  }

  // ---------------------------------------------------------------------------
  // The page itself, changed in place by the handlers
  // ---------------------------------------------------------------------------

  class SunburstView {
    const chart: Chart
    /** `allTextsData`: None until the texts file has arrived. */
    const texts: Option<seq<TextRecord>>
    /** The `prevClicked` flag of each slice. */
    const prevClicked: array<bool>
    /** Whether each slice is at full opacity (1) rather than washed out (0.4). */
    const fullOpacity: array<bool>
    var topicLabel: string
    var sidebar: seq<TextRecord>
    /** `currentCorpus`. */
    var corpus: Option<string>
    /** Which of the three corpus buttons carry `btn-primary`. */
    var primary: seq<bool>

    ghost predicate Valid()
      reads this
    {
      && ValidChart(chart)
      && prevClicked.Length == |chart.parent|
      && fullOpacity.Length == |chart.parent|
      && prevClicked != fullOpacity
      && |primary| == 3
    }

    /** The page as a value. */
    ghost function Shown(): View
      reads this, prevClicked, fullOpacity
    {
      View(prevClicked[..], fullOpacity[..], topicLabel, sidebar)
    }

    /** The page once the first corpus is chosen and its chart drawn. */
    constructor (chart: Chart, texts: Option<seq<TextRecord>>)
      requires ValidChart(chart)
      ensures Valid() && fresh(prevClicked) && fresh(fullOpacity)
      ensures this.chart == chart && this.texts == texts
      ensures Shown() == Baseline(|chart.parent|)
      ensures corpus == Corpus.CorpusFor("") && primary == Corpus.Highlight("")
    {
      this.chart := chart;
      this.texts := texts;
      prevClicked := new bool[|chart.parent|](_ => false);
      fullOpacity := new bool[|chart.parent|](_ => true);
      topicLabel := "";
      sidebar := [];
      corpus := Corpus.CorpusFor("");
      primary := Corpus.Highlight("");
    }

    /** `newSlice.style("opacity", ...)`: one opacity for every slice. */
    method SetOpacity(full: bool)
      requires Valid()
      modifies fullOpacity
      ensures fullOpacity[..] == Constant(fullOpacity.Length, full)
    {
      var i := 0;
      while i < fullOpacity.Length
        invariant 0 <= i <= fullOpacity.Length
        invariant forall j :: 0 <= j < i ==> fullOpacity[j] == full
      {
        fullOpacity[i] := full;
        i := i + 1;
      }
    }

    /** `selectSlice(target)`. */
    method Click(t: Target)
      requires Valid() && Targets(chart, t)
      modifies this, prevClicked, fullOpacity
      ensures Valid()
      ensures Shown() == AfterClick(chart, texts, old(Shown()), t)
      ensures corpus == old(corpus) && primary == old(primary)
    {
      if t.NoNode? {
        // `clicked.path(root)` throws on an undefined slice: the catch block runs
        SetOpacity(true);
        sidebar := [];
        return;
      }
      var c := t.index;
      var n := prevClicked.Length;
      var rootPath := RootPath(chart, c);
      ghost var was := Shown();
      ghost var after := AfterClick(chart, texts, was, t);
      SetOpacity(false);
      // the sweep of `newSlice.filter`: flags set, the slices to keep bright collected
      var keep: seq<bool> := [];
      var i := 0;
      while i < n
        invariant Valid() && corpus == old(corpus) && primary == old(primary)
        invariant 0 <= i <= n && |keep| == i
        invariant forall j :: 0 <= j < i ==> prevClicked[j] == (j == c && !was.flagged[c])
        invariant forall j :: i <= j < n ==> prevClicked[j] == was.flagged[j]
        invariant forall j :: 0 <= j < i ==> keep[j] == (j == c || j in rootPath)
        invariant forall j :: 0 <= j < n ==> fullOpacity[j] == (was.flagged[c] && c < i)
        invariant i <= c ==> topicLabel == was.heading && sidebar == was.sidebar
        invariant c < i ==> topicLabel == after.heading && sidebar == after.sidebar
      {
        if i == c && prevClicked[i] {
          // the last slice clicked, clicked again: undo the selection
          topicLabel := "";
          sidebar := [];
          prevClicked[i] := false;
          SetOpacity(true);
          keep := keep + [true];
        } else if i == c {
          topicLabel := TopicLabel(chart.names[c]);
          // a throw while filling the sidebar is swallowed and leaves it as it was
          var shown := SelectTexts(texts, chart.names[c]);
          if shown.Some? {
            sidebar := shown.value;
          }
          prevClicked[i] := true;
          keep := keep + [true];
        } else {
          prevClicked[i] := false;
          keep := keep + [i in rootPath];
        }
        i := i + 1;
      }
      // `.style("opacity", 1)` on the slices the filter kept
      i := 0;
      while i < n
        invariant Valid() && corpus == old(corpus) && primary == old(primary)
        invariant 0 <= i <= n
        invariant topicLabel == after.heading && sidebar == after.sidebar
        invariant forall j :: 0 <= j < i ==> fullOpacity[j] == (was.flagged[c] || keep[j])
        invariant forall j :: i <= j < n ==> fullOpacity[j] == was.flagged[c]
        invariant forall j :: 0 <= j < n ==> prevClicked[j] == (j == c && !was.flagged[c])
      {
        if keep[i] {
          fullOpacity[i] := true;
        }
        i := i + 1;
      }
      assert prevClicked[..] == after.flagged;
      assert fullOpacity[..] == after.full;
    }

    /** `changeSelectedCorpus` for a button with the given id ("" for none). */
    method ChangeCorpus(id: string)
      requires Valid()
      modifies this, prevClicked, fullOpacity
      ensures Valid()
      ensures corpus == Corpus.CorpusFor(id)
      ensures primary == Corpus.Highlight(id)
      ensures prevClicked[..] == old(prevClicked[..])
      ensures fullOpacity[..] == Constant(|chart.parent|, true)
      ensures topicLabel == "" && sidebar == []
    {
      corpus := Corpus.CorpusFor(id);
      Click(NoNode);
      topicLabel := "";
      sidebar := [];
      primary := Corpus.Highlight(id);
    }
  }
}
