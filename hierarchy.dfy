/**
 * The topic tree as d3 sees it in `drawSunburst` and `showTopTopics`: the records of the
 * topic file wrapped in hierarchy nodes, the node values aggregated bottom-up from a
 * per-record weight, and the children of every node sorted by descending value.
 *
 * The weighting rule of the "top N" radio buttons never removes a node: a record outside
 * the top N simply weighs 0, so its arc has zero width.
 */
module Hierarchy {
  import opened Options

  /** One record of the topic file: a topic or a sub-topic phrase. The corpus-level root
      record carries neither a rank nor a size. */
  datatype Topic = Topic(name: string, rank: Option<int>, size: Option<int>, children: seq<Topic>)

  /** A d3 hierarchy node: the record it wraps, its aggregated value and its children. */
  datatype Node = Node(data: Topic, value: int, children: seq<Node>)

  /** What a hierarchy looks like once its values are forgotten: which record sits where. */
  datatype Shape = Shape(data: Topic, children: seq<Shape>)

  /** The three positions of the "top N" radio buttons. */
  datatype Filter = All | Top(n: int)

  /** Which rule `showTopTopics` applies: "top 5" is tested first, then "top 10"; when
      neither is checked every record keeps its size. */
  function FilterFor(top5Checked: bool, top10Checked: bool): (f: Filter)
    ensures f == All <==> !top5Checked && !top10Checked
    ensures top5Checked ==> f == Top(5)
    ensures !top5Checked && top10Checked ==> f == Top(10)
  {
    if top5Checked then Top(5) else if top10Checked then Top(10) else All
  }

  /** The number d3's `sum` reads for a record's size: an absent size is coerced to 0. */
  function SizeOf(t: Topic): (s: int) {
    match t.size
    case Some(s) => s
    case None => 0
  }

  /** `d.rank <= n` in JavaScript: an absent rank compares as false. */
  predicate Ranked(t: Topic, n: int) {
    t.rank.Some? && t.rank.value <= n
  }

  /** The value the `sum` accessor returns for one record (the `topSize` it stashes). */
  function Weight(t: Topic, f: Filter): (w: int) {
    match f
    case All => SizeOf(t)
    case Top(n) => if Ranked(t, n) then SizeOf(t) else 0
  }

  /** The weights of a list of records, added up. */
  function WeightSum(ts: seq<Topic>, f: Filter): (w: int) {
    if ts == [] then 0 else Weight(ts[0], f) + WeightSum(ts[1..], f)
  }

  /** The values of a list of sibling nodes, added up. */
  function Total(cs: seq<Node>): (t: int) {
    if cs == [] then 0 else cs[0].value + Total(cs[1..])
  }

  // ---------------------------------------------------------------------------
  // Shapes and members: what "no node is ever removed or moved" means
  // ---------------------------------------------------------------------------

  /** The shape of the topic file itself. */
  function ShapeOf(t: Topic): (s: Shape)
    decreases t
  {
    Shape(t, ShapesOf(t.children))
  }

  function ShapesOf(ts: seq<Topic>): (ss: seq<Shape>)
    decreases ts
  {
    if ts == [] then [] else [ShapeOf(ts[0])] + ShapesOf(ts[1..])
  }

  /** The shape of a hierarchy, values forgotten. */
  function Strip(h: Node): (s: Shape)
    decreases h
  {
    Shape(h.data, StripAll(h.children))
  }

  function StripAll(cs: seq<Node>): (ss: seq<Shape>)
    decreases cs
  {
    if cs == [] then [] else [Strip(cs[0])] + StripAll(cs[1..])
  }

  /** Every record of a hierarchy, in pre-order. */
  function Members(h: Node): (ts: seq<Topic>)
    decreases h
  {
    [h.data] + MembersAll(h.children)
  }

  function MembersAll(cs: seq<Node>): (ts: seq<Topic>)
    decreases cs
  {
    if cs == [] then [] else Members(cs[0]) + MembersAll(cs[1..])
  }

  /** A hierarchy with the order of every sibling list forgotten. */
  datatype Unordered = Unordered(data: Topic, value: int, children: multiset<Unordered>)

  function Unorder(h: Node): (u: Unordered)
    decreases h
  {
    Unordered(h.data, h.value, UnorderAll(h.children))
  }

  function UnorderAll(cs: seq<Node>): (us: multiset<Unordered>)
    decreases cs
  {
    if cs == [] then multiset{} else multiset{Unorder(cs[0])} + UnorderAll(cs[1..])
  }

  // ---------------------------------------------------------------------------
  // d3.hierarchy(data) and node.sum(accessor)
  // ---------------------------------------------------------------------------

  /** `d3.hierarchy(data)`: one node per record, children in file order. d3 leaves the
      value undefined until `sum` runs; the model holds 0 there. */
  function Build(t: Topic): (h: Node)
    decreases t
    ensures Strip(h) == ShapeOf(t)
  {
    Node(t, 0, BuildAll(t.children))
  }

  function BuildAll(ts: seq<Topic>): (cs: seq<Node>)
    decreases ts
    ensures StripAll(cs) == ShapesOf(ts)
  {
    if ts == [] then [] else [Build(ts[0])] + BuildAll(ts[1..])
  }

  /** Every node's value is its own record's weight plus the values of its children. */
  predicate Summed(h: Node, f: Filter)
    decreases h
  {
    && h.value == Weight(h.data, f) + Total(h.children)
    && forall i :: 0 <= i < |h.children| ==> Summed(h.children[i], f)
  }

  /** `node.sum(accessor)`: a post-order pass that sets every value; nothing is added,
      removed or reordered. */
  function Sum(h: Node, f: Filter): (r: Node)
    decreases h
    ensures Strip(r) == Strip(h)
    ensures Summed(r, f)
  {
    var cs := SumAll(h.children, f);
    Node(h.data, Weight(h.data, f) + Total(cs), cs)
  }

  function SumAll(cs: seq<Node>, f: Filter): (r: seq<Node>)
    decreases cs
    ensures StripAll(r) == StripAll(cs)
    ensures |r| == |cs|
    ensures forall i :: 0 <= i < |r| ==> Summed(r[i], f)
  {
    if cs == [] then [] else [Sum(cs[0], f)] + SumAll(cs[1..], f)
  }

  // ---------------------------------------------------------------------------
  // node.sort(comparator): stable, by descending value
  // ---------------------------------------------------------------------------

  /** Consecutive siblings never increase in value. */
  predicate Descending(s: seq<Node>) {
    forall i :: 0 < i < |s| ==> s[i - 1].value >= s[i].value
  }

  /** Every sibling list of the hierarchy is in descending order. */
  predicate SortedTree(h: Node)
    decreases h
  {
    && Descending(h.children)
    && forall i :: 0 <= i < |h.children| ==> SortedTree(h.children[i])
  }

  /** `r` is `s` with `x` placed at index `p`: after every sibling of `s` that is larger,
      before every one that is not. */
  predicate PlacedAt(x: Node, s: seq<Node>, r: seq<Node>, p: int) {
    && 0 <= p <= |s|
    && r == s[..p] + [x] + s[p..]
    && (forall k :: 0 <= k < p ==> s[k].value > x.value)
    && (p < |s| ==> s[p].value <= x.value)
  }

  /** One step of a stable insertion sort under the comparator `b.value - a.value`:
      `x`, which came first in the input, goes before every sibling that is not larger. */
  function Insert(x: Node, s: seq<Node>): (r: seq<Node>)
    ensures |r| == |s| + 1
    ensures multiset(r) == multiset(s) + multiset{x}
    ensures r[0] == x || (s != [] && r[0] == s[0])
    ensures Descending(s) ==> Descending(r)
  {
    if s == [] || x.value >= s[0].value then [x] + s
    else
      var rest := Insert(x, s[1..]);
      assert Descending(s) ==> Descending(s[1..]) by {
        if Descending(s) {
          forall i | 0 < i < |s[1..]| ensures s[1..][i - 1].value >= s[1..][i].value {
            assert s[1..][i - 1] == s[i] && s[1..][i] == s[i + 1];
          }
        }
      }
      var r := [s[0]] + rest;
      assert s == [s[0]] + s[1..];
      assert Descending(s) ==> Descending(r) by {
        if Descending(s) {
          forall i | 0 < i < |r| ensures r[i - 1].value >= r[i].value {
            if i > 1 { assert r[i - 1] == rest[i - 2] && r[i] == rest[i - 1]; }
          }
        }
      }
      r
  }

  /** `Insert` is the stable step: `x` lands after the larger siblings and before the
      first one that is not larger, and the others keep their order. */
  lemma {:induction false} InsertPlacement(x: Node, s: seq<Node>)
    ensures exists p :: PlacedAt(x, s, Insert(x, s), p)
  {
    if s == [] || x.value >= s[0].value {
      assert PlacedAt(x, s, Insert(x, s), 0);
    } else {
      InsertPlacement(x, s[1..]);
      var q :| PlacedAt(x, s[1..], Insert(x, s[1..]), q);
      PlacedAfterFirst(x, s, Insert(x, s[1..]), q);
    }
  }

  /** Placing `x` in the tail of a list whose head is larger places it one further on. */
  lemma PlacedAfterFirst(x: Node, s: seq<Node>, rest: seq<Node>, q: int)
    requires s != [] && x.value < s[0].value && PlacedAt(x, s[1..], rest, q)
    ensures PlacedAt(x, s, [s[0]] + rest, q + 1)
  {
    assert s[..q + 1] == [s[0]] + s[1..][..q];
    assert s[q + 1..] == s[1..][q..];
    forall k | 0 < k < q + 1 ensures s[k].value > x.value {
      assert s[k] == s[1..][k - 1];
    }
    assert q + 1 < |s| ==> s[q + 1] == s[1..][q];
  }

  /** The sibling order d3 gives a list of children. */
  function SortByValue(s: seq<Node>): (r: seq<Node>)
    ensures Descending(r)
    ensures multiset(r) == multiset(s)
  {
    if s == [] then []
    else
      assert s == [s[0]] + s[1..];
      Insert(s[0], SortByValue(s[1..]))
  }

  /** `root.sort(comparator)`: every sibling list of the hierarchy sorted. */
  function SortTree(h: Node): (r: Node)
    decreases h
    ensures r.data == h.data && r.value == h.value
    ensures SortedTree(r)
    ensures multiset(r.children) == multiset(SortAll(h.children))
  {
    var sorted := SortAll(h.children);
    var cs := SortByValue(sorted);
    forall j | 0 <= j < |cs| ensures SortedTree(cs[j]) {
      assert cs[j] in multiset(sorted);
    }
    Node(h.data, h.value, cs)
  }

  function SortAll(cs: seq<Node>): (r: seq<Node>)
    decreases cs
    ensures |r| == |cs|
    ensures forall i :: 0 <= i < |r| ==> r[i] == SortTree(cs[i])
    ensures forall i :: 0 <= i < |r| ==> r[i].value == cs[i].value && SortedTree(r[i])
  {
    if cs == [] then [] else [SortTree(cs[0])] + SortAll(cs[1..])
  }

  // ---------------------------------------------------------------------------
  // The two callers: drawSunburst and showTopTopics
  // ---------------------------------------------------------------------------

  /** `drawSunburst`: build the hierarchy, sum by full size, sort by that value. */
  function Layout(t: Topic): (r: Node)
    ensures r.data == t
    ensures Summed(r, All) && SortedTree(r)
    ensures multiset(Members(r)) == multiset(Members(Build(t)))
    ensures Unorder(r) == Unorder(Sum(Build(t), All))
  {
    var h := Sum(Build(t), All);
    StripMembers(h, Build(t));
    SortKeepsMembers(h);
    SortOnlyReorders(h);
    SortKeepsSums(h, All);
    SortTree(h)
  }

  /** `showTopTopics`: re-sum the hierarchy already on screen under the checked rule.
      The siblings are not sorted again. */
  function ShowTop(h: Node, top5Checked: bool, top10Checked: bool): (r: Node)
    ensures Strip(r) == Strip(h)
    ensures Members(r) == Members(h)
    ensures Summed(r, FilterFor(top5Checked, top10Checked))
  {
    var r := Sum(h, FilterFor(top5Checked, top10Checked));
    StripMembers(r, h);
    r
  }

  // ---------------------------------------------------------------------------
  // Lemmas
  // ---------------------------------------------------------------------------

  lemma {:induction false} StripMembers(a: Node, b: Node)
    requires Strip(a) == Strip(b)
    ensures Members(a) == Members(b)
    decreases a
  {
    StripAllMembers(a.children, b.children);
  }

  lemma {:induction false} StripAllMembers(xs: seq<Node>, ys: seq<Node>)
    requires StripAll(xs) == StripAll(ys)
    ensures MembersAll(xs) == MembersAll(ys)
    decreases xs
  {
    if xs != [] {
      assert StripAll(xs) != [];
      assert Strip(xs[0]) == StripAll(xs)[0] == StripAll(ys)[0] == Strip(ys[0]);
      assert StripAll(xs[1..]) == StripAll(xs)[1..] == StripAll(ys)[1..] == StripAll(ys[1..]);
      StripMembers(xs[0], ys[0]);
      StripAllMembers(xs[1..], ys[1..]);
    }
  }

  lemma {:induction false} WeightSumConcat(a: seq<Topic>, b: seq<Topic>, f: Filter)
    ensures WeightSum(a + b, f) == WeightSum(a, f) + WeightSum(b, f)
  {
    if a != [] {
      assert (a + b)[1..] == a[1..] + b;
      WeightSumConcat(a[1..], b, f);
    } else {
      assert a + b == b;
    }
  }

  /** The value d3 gives a node is the total weight of every record in its subtree. */
  lemma {:induction false} SumIsSubtreeWeight(h: Node, f: Filter)
    ensures Sum(h, f).value == WeightSum(Members(h), f)
    decreases h
  {
    SumAllIsWeight(h.children, f);
    WeightSumConcat([h.data], MembersAll(h.children), f);
  }

  lemma {:induction false} SumAllIsWeight(cs: seq<Node>, f: Filter)
    ensures Total(SumAll(cs, f)) == WeightSum(MembersAll(cs), f)
    decreases cs
  {
    if cs != [] {
      var r := SumAll(cs, f);
      assert r[0] == Sum(cs[0], f) && r[1..] == SumAll(cs[1..], f);
      SumIsSubtreeWeight(cs[0], f);
      SumAllIsWeight(cs[1..], f);
      WeightSumConcat(Members(cs[0]), MembersAll(cs[1..]), f);
    }
  }

  /** Sizes in the topic file are counts, so never negative. */
  predicate NonNegativeSizes(ts: seq<Topic>) {
    forall i :: 0 <= i < |ts| ==> SizeOf(ts[i]) >= 0
  }

  lemma {:induction false} WeightSumMonotone(ts: seq<Topic>, n: int, m: int)
    requires n <= m && NonNegativeSizes(ts)
    ensures 0 <= WeightSum(ts, Top(n)) <= WeightSum(ts, Top(m)) <= WeightSum(ts, All)
  {
    if ts != [] {
      WeightSumMonotone(ts[1..], n, m);
    }
  }

  /** A record without a size weighs nothing under any rule: the accessor hands `sum` an
      undefined size, which it reads as 0. */
  lemma {:induction false} SizelessWeighNothing(ts: seq<Topic>, f: Filter)
    requires forall i :: 0 <= i < |ts| ==> ts[i].size.None?
    ensures WeightSum(ts, f) == 0
  {
    if ts != [] {
      SizelessWeighNothing(ts[1..], f);
    }
  }

  /** Widening the filter (top 5, then top 10, then all) never shrinks a node's value. */
  lemma TopValueMonotone(h: Node, n: int, m: int)
    requires n <= m && NonNegativeSizes(Members(h))
    ensures 0 <= Sum(h, Top(n)).value <= Sum(h, Top(m)).value <= Sum(h, All).value
  {
    SumIsSubtreeWeight(h, Top(n));
    SumIsSubtreeWeight(h, Top(m));
    SumIsSubtreeWeight(h, All);
    WeightSumMonotone(Members(h), n, m);
  }

  lemma {:induction false} UnrankedWeighNothing(ts: seq<Topic>, n: int)
    requires forall i :: 0 <= i < |ts| ==> !Ranked(ts[i], n)
    ensures WeightSum(ts, Top(n)) == 0
  {
    if ts != [] {
      UnrankedWeighNothing(ts[1..], n);
    }
  }

  /** A subtree none of whose records is within the top N gets value 0: a zero-width arc
      that stays in the tree. */
  lemma ExcludedSubtreeIsEmpty(h: Node, n: int)
    requires forall i :: 0 <= i < |Members(h)| ==> !Ranked(Members(h)[i], n)
    ensures Sum(h, Top(n)).value == 0
    ensures Strip(Sum(h, Top(n))) == Strip(h)
  {
    SumIsSubtreeWeight(h, Top(n));
    UnrankedWeighNothing(Members(h), n);
  }

  /** Switching between any two rules keeps every node at its place. */
  lemma FilterKeepsShape(h: Node, f: Filter, g: Filter)
    ensures Strip(Sum(h, f)) == Strip(Sum(h, g))
    ensures Members(Sum(h, f)) == Members(Sum(h, g))
  {
    StripMembers(Sum(h, f), Sum(h, g));
  }

  lemma {:induction false} InsertKeepsMembers(x: Node, s: seq<Node>)
    ensures multiset(MembersAll(Insert(x, s))) == multiset(Members(x)) + multiset(MembersAll(s))
  {
    var r := Insert(x, s);
    if s == [] || x.value >= s[0].value {
      assert r[0] == x && r[1..] == s;
    } else {
      assert r[0] == s[0] && r[1..] == Insert(x, s[1..]);
      InsertKeepsMembers(x, s[1..]);
    }
  }

  lemma {:induction false} SortByValueKeepsMembers(s: seq<Node>)
    ensures multiset(MembersAll(SortByValue(s))) == multiset(MembersAll(s))
  {
    if s != [] {
      SortByValueKeepsMembers(s[1..]);
      InsertKeepsMembers(s[0], SortByValue(s[1..]));
    }
  }

  /** Sorting reorders siblings but keeps every record of the tree. */
  lemma {:induction false} SortKeepsMembers(h: Node)
    ensures multiset(Members(SortTree(h))) == multiset(Members(h))
    decreases h
  {
    SortAllKeepsMembers(h.children);
    SortByValueKeepsMembers(SortAll(h.children));
  }

  lemma {:induction false} SortAllKeepsMembers(cs: seq<Node>)
    ensures multiset(MembersAll(SortAll(cs))) == multiset(MembersAll(cs))
    decreases cs
  {
    if cs != [] {
      var r := SortAll(cs);
      assert r[0] == SortTree(cs[0]) && r[1..] == SortAll(cs[1..]);
      SortKeepsMembers(cs[0]);
      SortAllKeepsMembers(cs[1..]);
    }
  }

  lemma {:induction false} InsertKeepsTotal(x: Node, s: seq<Node>)
    ensures Total(Insert(x, s)) == x.value + Total(s)
  {
    var r := Insert(x, s);
    if s == [] || x.value >= s[0].value {
      assert r[0] == x && r[1..] == s;
    } else {
      assert r[0] == s[0] && r[1..] == Insert(x, s[1..]);
      InsertKeepsTotal(x, s[1..]);
    }
  }

  lemma {:induction false} SortByValueKeepsTotal(s: seq<Node>)
    ensures Total(SortByValue(s)) == Total(s)
  {
    if s != [] {
      SortByValueKeepsTotal(s[1..]);
      InsertKeepsTotal(s[0], SortByValue(s[1..]));
    }
  }

  lemma {:induction false} SortAllKeepsTotal(cs: seq<Node>)
    ensures Total(SortAll(cs)) == Total(cs)
  {
    if cs != [] {
      var r := SortAll(cs);
      assert r[1..] == SortAll(cs[1..]);
      SortAllKeepsTotal(cs[1..]);
    }
  }

  /** Sorting does not disturb the sums: reordering siblings keeps their total. */
  lemma {:induction false} SortKeepsSums(h: Node, f: Filter)
    requires Summed(h, f)
    ensures Summed(SortTree(h), f)
    decreases h
  {
    var sorted := SortAll(h.children);
    var r := SortByValue(sorted);
    SortAllKeepsTotal(h.children);
    SortByValueKeepsTotal(sorted);
    forall i | 0 <= i < |sorted| ensures Summed(sorted[i], f) {
      SortAllKeepsSums(h.children, i, f);
    }
    forall j | 0 <= j < |r| ensures Summed(r[j], f) {
      assert r[j] in multiset(sorted);
      var i :| 0 <= i < |sorted| && sorted[i] == r[j];
    }
  }

  lemma {:induction false} SortAllKeepsSums(cs: seq<Node>, i: nat, f: Filter)
    requires i < |cs| && Summed(cs[i], f)
    ensures Summed(SortAll(cs)[i], f)
    decreases cs
  {
    if i == 0 {
      SortKeepsSums(cs[0], f);
    } else {
      assert SortAll(cs)[i] == SortAll(cs[1..])[i - 1];
      SortAllKeepsSums(cs[1..], i - 1, f);
    }
  }

  lemma {:induction false} InsertKeepsUnordered(x: Node, s: seq<Node>)
    ensures UnorderAll(Insert(x, s)) == multiset{Unorder(x)} + UnorderAll(s)
  {
    var r := Insert(x, s);
    if s == [] || x.value >= s[0].value {
      assert r[0] == x && r[1..] == s;
    } else {
      assert r[0] == s[0] && r[1..] == Insert(x, s[1..]);
      InsertKeepsUnordered(x, s[1..]);
    }
  }

  lemma {:induction false} SortByValueKeepsUnordered(s: seq<Node>)
    ensures UnorderAll(SortByValue(s)) == UnorderAll(s)
  {
    if s != [] {
      SortByValueKeepsUnordered(s[1..]);
      InsertKeepsUnordered(s[0], SortByValue(s[1..]));
    }
  }

  /** Sorting only reorders each node's own children: with sibling order forgotten, the
      sorted tree is the tree it started from. */
  lemma {:induction false} SortOnlyReorders(h: Node)
    ensures Unorder(SortTree(h)) == Unorder(h)
    decreases h
  {
    SortAllOnlyReorders(h.children);
    SortByValueKeepsUnordered(SortAll(h.children));
  }

  lemma {:induction false} SortAllOnlyReorders(cs: seq<Node>)
    ensures UnorderAll(SortAll(cs)) == UnorderAll(cs)
    decreases cs
  {
    if cs != [] {
      var r := SortAll(cs);
      assert r[0] == SortTree(cs[0]) && r[1..] == SortAll(cs[1..]);
      SortOnlyReorders(cs[0]);
      SortAllOnlyReorders(cs[1..]);
    }
  }

  /** The re-sum under "top N" keeps the order of the full-size sort, and that order need
      not be descending in the new values: a leaf outside the top N that the full-size
      sort put first stays first with value 0, ahead of a ranked sibling of positive size. */
  lemma TopFilterKeepsFullSizeOrder(h: Node, n: int)
    requires Summed(h, All) && SortedTree(h)
    requires |h.children| == 2 && h.children[0].children == [] && h.children[1].children == []
    requires !Ranked(h.children[0].data, n) && Ranked(h.children[1].data, n)
    requires SizeOf(h.children[1].data) > 0
    ensures Strip(Sum(h, Top(n))) == Strip(h)
    ensures Sum(h, Top(n)).children[0].value == 0 < Sum(h, Top(n)).children[1].value
    ensures !Descending(Sum(h, Top(n)).children)
  {
    var r := SumAll(h.children, Top(n));
    assert r == [Sum(h.children[0], Top(n))] + SumAll(h.children[1..], Top(n));
    assert h.children[1..] == [h.children[1]];
    assert r[1..] == [Sum(h.children[1], Top(n))];
  }
}
