/**
 orderRules (internal/rules/loader.go): a depth-first topological sort with temporary and permanent
 marks, against two descriptions that know nothing of marks: reference cycles, and the naive
 unfolding of every rule into its references followed by itself.
 */
module RuleOrder {
  import opened Results
  import opened RuleFiles

  type Graph = map<string, RawRule>

  datatype OrderError = CycleDetected(at: string) | UnknownReference(ref: string)

  // ----- Reference graphs -----

  /** byID of orderRules: of several rules with one id the last one counts. */
  function ById(raws: seq<RawRule>): (g: Graph)
    ensures forall id {:trigger g[id]} :: id in g ==> g[id].id == id && g[id] in raws
    ensures forall id :: id in g <==> id in Ids(raws)
  {
    if raws == [] then map[] else
      var last := raws[|raws| - 1];
      assert raws == raws[..|raws| - 1] + [last];
      assert Ids(raws) == Ids(raws[..|raws| - 1]) + [last.id];
      ById(raws[..|raws| - 1])[last.id := last]
  }

  ghost predicate IsEdge(g: Graph, from: string, to: string) {
    from in g && to in Refs(g[from])
  }

  /** Every rule of the walk refers to the next one. */
  ghost predicate IsWalk(g: Graph, walk: seq<string>) {
    forall i :: 0 <= i < |walk| - 1 ==> IsEdge(g, walk[i], walk[i + 1])
  }

  ghost predicate IsCycle(g: Graph, walk: seq<string>) {
    |walk| > 1 && IsWalk(g, walk) && walk[0] == walk[|walk| - 1]
  }

  ghost predicate HasCycle(g: Graph) {
    exists walk :: IsCycle(g, walk)
  }

  /** A cycle through a rule can be walked from that rule on. */
  ghost predicate OnCycle(g: Graph, id: string) {
    exists walk :: IsCycle(g, walk) && walk[0] == id
  }

  ghost predicate RefsKnown(g: Graph) {
    forall from, to :: IsEdge(g, from, to) ==> to in g
  }

  /** Every rule comes after the rules it refers to. */
  ghost predicate DependencyOrdered(raws: seq<RawRule>) {
    forall i, ref :: 0 <= i < |raws| && ref in Refs(raws[i]) ==> ref in Ids(raws[..i])
  }

  // ----- The naive unfolding -----

  /** xs followed by the elements of ys that have not come before. */
  function AppendNew(xs: seq<string>, ys: seq<string>): (r: seq<string>)
    ensures xs <= r
    ensures forall s :: s in r <==> s in xs || s in ys
    decreases |ys|
  {
    if ys == [] then xs
    else if ys[0] in xs then AppendNew(xs, ys[1..])
    else AppendNew(xs + [ys[0]], ys[1..])
  }

  /** The references of id, unfolded in turn, and then id itself; nothing is shared or remembered. */
  function Unfold(g: Graph, above: set<string>, id: string): seq<string>
    decreases g.Keys - above, 1, 0
  {
    if id !in g || id in above then [] else
      assert id in g.Keys - above;
      UnfoldAll(g, above + {id}, Refs(g[id])) + [id]
  }

  function UnfoldAll(g: Graph, above: set<string>, ids: seq<string>): seq<string>
    decreases g.Keys - above, 2, |ids|
  {
    if ids == [] then [] else
      UnfoldAll(g, above, ids[..|ids| - 1]) + Unfold(g, above, ids[|ids| - 1])
  }

  /** The order that loading gives to a list of rules: the unfolding without its repetitions. */
  function UnfoldedOrder(raws: seq<RawRule>): seq<string> {
    AppendNew([], UnfoldAll(ById(raws), {}, Ids(raws)))
  }

  lemma {:induction false} AppendNewConcat(xs: seq<string>, ys: seq<string>, zs: seq<string>)
    ensures AppendNew(xs, ys + zs) == AppendNew(AppendNew(xs, ys), zs)
    decreases |ys|
  {
    if ys == [] {
      assert ys + zs == zs;
    } else {
      assert (ys + zs)[0] == ys[0] && (ys + zs)[1..] == ys[1..] + zs;
      AppendNewConcat(if ys[0] in xs then xs else xs + [ys[0]], ys[1..], zs);
    }
  }

  lemma {:induction false} AppendNothingNew(xs: seq<string>, ys: seq<string>)
    requires forall s :: s in ys ==> s in xs
    ensures AppendNew(xs, ys) == xs
    decreases |ys|
  {
    if ys != [] {
      AppendNothingNew(xs, ys[1..]);
    }
  }

  /** A set of rules that contains what its members refer to. */
  ghost predicate IsClosed(g: Graph, ids: seq<string>) {
    forall from, to :: from in ids && IsEdge(g, from, to) ==> to in ids
  }

  /** The unfolding stays inside every closed set. */
  lemma {:induction false} UnfoldStaysInside(g: Graph, above: set<string>, id: string, ids: seq<string>)
    requires IsClosed(g, ids) && id in ids
    ensures forall s :: s in Unfold(g, above, id) ==> s in ids
    decreases g.Keys - above, 1, 0
  {
    if id in g && id !in above {
      assert id in g.Keys - above;
      forall ref | ref in Refs(g[id]) ensures ref in ids {
        assert IsEdge(g, id, ref);
      }
      UnfoldAllStaysInside(g, above + {id}, Refs(g[id]), ids);
    }
  }

  lemma {:induction false} UnfoldAllStaysInside(g: Graph, above: set<string>, todo: seq<string>, ids: seq<string>)
    requires IsClosed(g, ids) && forall id :: id in todo ==> id in ids
    ensures forall s :: s in UnfoldAll(g, above, todo) ==> s in ids
    decreases g.Keys - above, 2, |todo|
  {
    if todo != [] {
      UnfoldAllStaysInside(g, above, todo[..|todo| - 1], ids);
      UnfoldStaysInside(g, above, todo[|todo| - 1], ids);
    }
  }

  // ----- The sort -----

  /** A rule met again on the way down closes a cycle. */
  lemma CycleOnStack(g: Graph, stack: seq<string>, id: string)
    requires IsWalk(g, stack + [id]) && id in stack
    ensures OnCycle(g, id)
  {
    var k :| 0 <= k < |stack| && stack[k] == id;
    var walk := stack[k..] + [id];
    forall i | 0 <= i < |walk| - 1 ensures IsEdge(g, walk[i], walk[i + 1]) {
      assert walk[i] == (stack + [id])[k + i] && walk[i + 1] == (stack + [id])[k + i + 1];
    }
    assert IsCycle(g, walk);
  }

  lemma WalkGoesOn(g: Graph, stack: seq<string>, id: string, ref: string)
    requires IsWalk(g, stack + [id]) && IsEdge(g, id, ref)
    ensures IsWalk(g, stack + [id] + [ref])
  {
  }

  /** The permanent rules are the ordered ones, each after its references. */
  ghost predicate IsPartialOrder(g: Graph, ordered: seq<RawRule>, permanent: set<string>, temporary: set<string>) {
    && (forall id :: id in g ==> g[id].id == id)
    && (forall r :: r in ordered ==> r.id in g && g[r.id] == r)
    && Distinct(Ids(ordered))
    && (forall id :: id in permanent <==> id in Ids(ordered))
    && permanent !! temporary
    && DependencyOrdered(ordered)
  }

  lemma OrderIsClosed(g: Graph, ordered: seq<RawRule>, permanent: set<string>, temporary: set<string>)
    requires IsPartialOrder(g, ordered, permanent, temporary)
    ensures IsClosed(g, Ids(ordered))
  {
  }

  /** Placing a rule whose references have all been placed. */
  lemma PlaceRule(g: Graph, ordered: seq<RawRule>, permanent: set<string>, temporary: set<string>, id: string)
    requires IsPartialOrder(g, ordered, permanent, temporary)
    requires id in g && id !in permanent && forall ref :: ref in Refs(g[id]) ==> ref in permanent
    ensures Ids(ordered + [g[id]]) == Ids(ordered) + [id]
    ensures IsPartialOrder(g, ordered + [g[id]], permanent + {id}, temporary - {id})
  {
    var ordered' := ordered + [g[id]];
    assert Ids(ordered') == Ids(ordered) + [id];
    forall i, ref | 0 <= i < |ordered'| && ref in Refs(ordered'[i]) ensures ref in Ids(ordered'[..i]) {
      if i < |ordered| {
        assert ordered'[..i] == ordered[..i];
        assert ref in Refs(ordered[i]);
      } else {
        assert ordered'[..i] == ordered;
      }
    }
  }

  /** Visiting a rule that has been placed adds nothing to the unfolding. */
  lemma PlacedAddsNothing(g: Graph, ordered: seq<RawRule>, permanent: set<string>, temporary: set<string>, id: string)
    requires IsPartialOrder(g, ordered, permanent, temporary) && id in permanent
    ensures AppendNew(Ids(ordered), Unfold(g, temporary, id)) == Ids(ordered)
  {
    OrderIsClosed(g, ordered, permanent, temporary);
    UnfoldStaysInside(g, temporary, id, Ids(ordered));
    AppendNothingNew(Ids(ordered), Unfold(g, temporary, id));
  }

  lemma UnfoldNothing(g: Graph, above: set<string>, xs: seq<string>)
    ensures AppendNew(xs, UnfoldAll(g, above, [])) == xs
  {
  }

  lemma UnfoldNext(g: Graph, above: set<string>, xs: seq<string>, todo: seq<string>, i: nat)
    requires i < |todo|
    ensures AppendNew(xs, UnfoldAll(g, above, todo[..i + 1])) ==
            AppendNew(AppendNew(xs, UnfoldAll(g, above, todo[..i])), Unfold(g, above, todo[i]))
  {
    assert todo[..i + 1][..i] == todo[..i];
    AppendNewConcat(xs, UnfoldAll(g, above, todo[..i]), Unfold(g, above, todo[i]));
  }

  lemma UnfoldSelf(g: Graph, above: set<string>, xs: seq<string>, id: string)
    requires id in g && id !in above
    requires id !in AppendNew(xs, UnfoldAll(g, above + {id}, Refs(g[id])))
    ensures AppendNew(xs, Unfold(g, above, id)) == AppendNew(xs, UnfoldAll(g, above + {id}, Refs(g[id]))) + [id]
  {
    assert id in g.Keys - above;
    AppendNewConcat(xs, UnfoldAll(g, above + {id}, Refs(g[id])), [id]);
  }

  /** A list whose rules already come after their references is its own order. */
  lemma {:induction false} OrderedStaysPut(g: Graph, raws: seq<RawRule>, i: nat)
    requires forall r :: r in raws ==> r.id in g && g[r.id] == r
    requires DependencyOrdered(raws) && Distinct(Ids(raws))
    requires i <= |raws|
    ensures AppendNew([], UnfoldAll(g, {}, Ids(raws)[..i])) == Ids(raws)[..i]
    decreases i
  {
    hide AppendNew, Unfold, UnfoldAll;
    if i == 0 {
      UnfoldNothing(g, {}, []);
      assert Ids(raws)[..0] == [];
    } else {
      var placed, id := Ids(raws)[..i - 1], raws[i - 1].id;
      OrderedStaysPut(g, raws, i - 1);
      UnfoldNext(g, {}, [], Ids(raws), i - 1);
      assert raws[i - 1] in raws;
      PrefixIsClosed(g, raws, i - 1);
      hide DependencyOrdered, IsClosed;
      UnfoldAllStaysInside(g, {} + {id}, Refs(g[id]), placed);
      AppendNothingNew(placed, UnfoldAll(g, {} + {id}, Refs(g[id])));
      assert id !in placed;
      UnfoldSelf(g, {}, placed, id);
      assert Ids(raws)[..i] == placed + [id];
    }
  }

  lemma PrefixIsClosed(g: Graph, raws: seq<RawRule>, i: nat)
    requires forall r :: r in raws ==> r.id in g && g[r.id] == r
    requires DependencyOrdered(raws) && i < |raws|
    ensures IsClosed(g, Ids(raws)[..i])
    ensures raws[i] in raws && forall ref :: ref in Refs(g[raws[i].id]) ==> ref in Ids(raws)[..i]
  {
  }

  lemma {:induction false} DistinctCounts<T>(s: seq<T>, x: T)
    requires Distinct(s)
    ensures multiset(s)[x] == if x in s then 1 else 0
    decreases |s|
  {
    if s != [] {
      assert s == [s[0]] + s[1..];
      DistinctCounts(s[1..], x);
    }
  }

  /** Lists of distinct elements with the same members are permutations of each other. */
  lemma SameMembersPermute<T>(s: seq<T>, t: seq<T>)
    requires Distinct(s) && Distinct(t)
    requires forall x :: x in s <==> x in t
    ensures multiset(s) == multiset(t)
  {
    forall x ensures multiset(s)[x] == multiset(t)[x] {
      DistinctCounts(s, x);
      DistinctCounts(t, x);
    }
  }

  /** With distinct ids a graph is its list of rules. */
  lemma ByIdOfDistinct(raws: seq<RawRule>)
    requires Distinct(Ids(raws))
    ensures forall r :: r in raws ==> r.id in ById(raws) && ById(raws)[r.id] == r
  {
    hide ById;
    forall r | r in raws ensures r.id in ById(raws) && ById(raws)[r.id] == r {
      var i :| 0 <= i < |raws| && raws[i] == r;
      assert Ids(raws)[i] == r.id;
      var r' := ById(raws)[r.id];
      assert r'.id == r.id && r' in raws;
      var j :| 0 <= j < |raws| && raws[j] == r';
      assert Ids(raws)[j] == Ids(raws)[i];
    }
  }

  /** An order of distinctly named rules is a permutation of them, and leaves an ordered list alone. */
  lemma OrderPermutes(raws: seq<RawRule>, ordered: seq<RawRule>)
    requires Distinct(Ids(raws)) && Distinct(Ids(ordered))
    requires forall raw :: raw in ordered <==> raw.id in ById(raws) && ById(raws)[raw.id] == raw
    ensures multiset(ordered) == multiset(raws)
    ensures DependencyOrdered(raws) && Ids(ordered) == UnfoldedOrder(raws) ==> ordered == raws
  {
    hide ById, AppendNew, UnfoldAll, DependencyOrdered;
    ByIdOfDistinct(raws);
    DistinctIdsDistinctRules(raws);
    DistinctIdsDistinctRules(ordered);
    SameMembersPermute(ordered, raws);
    if DependencyOrdered(raws) && Ids(ordered) == UnfoldedOrder(raws) {
      OrderedStaysPut(ById(raws), raws, |raws|);
      assert Ids(raws)[..|raws|] == Ids(raws);
      SameIdsSameRules(ById(raws), ordered, raws);
    }
  }

  lemma SameIdsSameRules(g: Graph, raws: seq<RawRule>, raws': seq<RawRule>)
    requires forall r :: r in raws || r in raws' ==> r.id in g && g[r.id] == r
    requires Ids(raws) == Ids(raws')
    ensures raws == raws'
  {
  }

  lemma DistinctIdsDistinctRules(raws: seq<RawRule>)
    requires Distinct(Ids(raws))
    ensures Distinct(raws)
  {
  }

  /** Along a walk the positions in the order go down. */
  lemma {:induction false} WalkGoesDown(g: Graph, ordered: seq<RawRule>, walk: seq<string>, p0: nat, i: nat)
    returns (p: nat)
    requires forall r :: r in ordered ==> r.id in g && g[r.id] == r
    requires DependencyOrdered(ordered) && IsWalk(g, walk)
    requires i < |walk| && p0 < |ordered| && ordered[p0].id == walk[0]
    ensures p < |ordered| && ordered[p].id == walk[i] && p + i <= p0
    decreases i
  {
    if i == 0 {
      p := p0;
    } else {
      var q := WalkGoesDown(g, ordered, walk, p0, i - 1);
      assert IsEdge(g, walk[i - 1], walk[i]);
      assert ordered[q] in ordered && walk[i] in Refs(ordered[q]);
      assert walk[i] in Ids(ordered[..q]);
      p :| 0 <= p < q && ordered[..q][p].id == walk[i];
    }
  }

  /** Rules that can all be put after their references are free of cycles. */
  lemma OrderedHasNoCycle(g: Graph, ordered: seq<RawRule>)
    requires forall r :: r in ordered ==> r.id in g && g[r.id] == r
    requires forall id :: id in g ==> id in Ids(ordered)
    requires Distinct(Ids(ordered)) && DependencyOrdered(ordered)
    ensures RefsKnown(g) && !HasCycle(g)
  {
    forall from, to | IsEdge(g, from, to) ensures to in g {
      var i :| 0 <= i < |ordered| && ordered[i].id == from;
      assert ordered[i] in ordered && to in Refs(ordered[i]);
      assert to in Ids(ordered[..i]);
      var j :| 0 <= j < i && ordered[..i][j].id == to;
      assert ordered[j] in ordered;
    }
    if walk :| IsCycle(g, walk) {
      assert IsEdge(g, walk[0], walk[1]);
      var p0 :| 0 <= p0 < |ordered| && ordered[p0].id == walk[0];
      var p := WalkGoesDown(g, ordered, walk, p0, |walk| - 1);
      assert false;
    }
  }

  /** In particular a list that is already ordered is free of them. */
  lemma OrderedListHasNoCycle(raws: seq<RawRule>)
    requires Distinct(Ids(raws)) && DependencyOrdered(raws)
    ensures RefsKnown(ById(raws)) && !HasCycle(ById(raws))
  {
    ByIdOfDistinct(raws);
    OrderedHasNoCycle(ById(raws), raws);
  }

  class Sorter {
    const byID: Graph
    var ordered: seq<RawRule>
    var temporary: set<string>
    var permanent: set<string>

    constructor (byID: Graph)
      requires forall id :: id in byID ==> byID[id].id == id
      ensures this.byID == byID && Valid() && ordered == [] && temporary == {}
    {
      this.byID := byID;
      ordered, temporary, permanent := [], {}, {};
    }

    ghost predicate Valid()
      reads this
    {
      IsPartialOrder(byID, ordered, permanent, temporary)
    }

    /**
     visit. The rules on the way down, each referring to the next and the last one to id, are the
     temporary ones. The new rules are those of the naive unfolding of id that were missing.
     */
    method Visit(id: string, ghost stack: seq<string>) returns (r: Result<(), OrderError>)
      requires Valid()
      requires IsWalk(byID, stack + [id])
      requires (forall s :: s in stack <==> s in temporary) && temporary <= byID.Keys
      modifies this`ordered, this`temporary, this`permanent
      ensures r.Ok? ==> Valid() && temporary == old(temporary) && old(ordered) <= ordered
      ensures r.Ok? ==> old(permanent) <= permanent && id in permanent
      ensures r.Ok? ==> Ids(ordered) == AppendNew(old(Ids(ordered)), Unfold(byID, old(temporary), id))
      ensures r.Err? ==> ErrorJustified(byID, id, r.error)
      decreases byID.Keys - temporary, 0
    {
      if id in permanent {
        PlacedAddsNothing(byID, ordered, permanent, temporary, id);
        return Ok(());
      }
      if id in temporary {
        CycleOnStack(byID, stack, id);
        return Err(CycleDetected(id));
      }
      if id !in byID {
        return Err(UnknownReference(id));
      }
      var raw := byID[id];
      assert id in byID.Keys - temporary;
      temporary := temporary + {id};
      if raw.kind.CombinerType? {
        r := VisitRefs(id, raw.of, stack);
        if r.Err? {
          return;
        }
      }
      UnfoldSelf(byID, old(temporary), old(Ids(ordered)), id);
      PlaceRule(byID, ordered, permanent, temporary, id);
      temporary := temporary - {id};
      permanent := permanent + {id};
      ordered := ordered + [raw];
      return Ok(());
    }

    /** The loop of visit over the references of id, which is marked as temporary. */
    method VisitRefs(id: string, of: seq<string>, ghost stack: seq<string>) returns (r: Result<(), OrderError>)
      requires Valid()
      requires id in temporary && id in byID && of == Refs(byID[id])
      requires IsWalk(byID, stack + [id])
      requires (forall s :: s in stack + [id] <==> s in temporary) && temporary <= byID.Keys
      modifies this`ordered, this`temporary, this`permanent
      ensures r.Ok? ==> Valid() && temporary == old(temporary) && old(ordered) <= ordered
      ensures r.Ok? ==> old(permanent) <= permanent && forall ref :: ref in of ==> ref in permanent
      ensures r.Ok? ==> Ids(ordered) == AppendNew(old(Ids(ordered)), UnfoldAll(byID, temporary, of))
      ensures r.Err? ==> ErrorJustified(byID, id, r.error)
      decreases byID.Keys - temporary, 1
    {
      hide DependencyOrdered, Distinct, AppendNew, Unfold, UnfoldAll, IsWalk, HasCycle;
      assert of[..0] == [];
      assert AppendNew(Ids(ordered), UnfoldAll(byID, temporary, of[..0])) == Ids(ordered) by {
        UnfoldNothing(byID, temporary, Ids(ordered));
      }
      for i := 0 to |of|
        invariant Valid() && temporary == old(temporary) && old(ordered) <= ordered
        invariant old(permanent) <= permanent && forall j :: 0 <= j < i ==> of[j] in permanent
        invariant Ids(ordered) == AppendNew(old(Ids(ordered)), UnfoldAll(byID, temporary, of[..i]))
      {
        UnfoldNext(byID, temporary, old(Ids(ordered)), of, i);
        assert IsEdge(byID, id, of[i]);
        WalkGoesOn(byID, stack, id, of[i]);
        r := Visit(of[i], stack + [id]);
        if r.Err? {
          return;
        }
      }
      assert of[..|of|] == of;
      return Ok(());
    }
  }

  /** What the two errors of the sort say about the rules; id is the rule being visited. */
  ghost predicate ErrorJustified(g: Graph, id: string, error: OrderError) {
    match error
    case CycleDetected(at) => OnCycle(g, at)
    case UnknownReference(ref) => ref !in g && (ref == id || exists from :: IsEdge(g, from, ref))
  }

  lemma SortFailed(raws: seq<RawRule>, raw: RawRule, error: OrderError)
    requires raw in raws && ErrorJustified(ById(raws), raw.id, error)
    ensures error.CycleDetected? ==> OnCycle(ById(raws), error.at) && HasCycle(ById(raws))
    ensures error.UnknownReference? ==>
              error.ref !in ById(raws) && (exists from :: IsEdge(ById(raws), from, error.ref)) && !RefsKnown(ById(raws))
    ensures !(Distinct(Ids(raws)) && DependencyOrdered(raws))
  {
    hide ById, Distinct, DependencyOrdered;
    var i :| 0 <= i < |raws| && raws[i] == raw;
    assert Ids(raws)[i] == raw.id;
    if Distinct(Ids(raws)) && DependencyOrdered(raws) {
      OrderedListHasNoCycle(raws);
    }
  }

  lemma SortSucceeded(raws: seq<RawRule>, ordered: seq<RawRule>, permanent: set<string>)
    requires IsPartialOrder(ById(raws), ordered, permanent, {})
    requires forall j :: 0 <= j < |raws| ==> raws[j].id in permanent
    requires Ids(ordered) == UnfoldedOrder(raws)
    ensures RefsKnown(ById(raws)) && !HasCycle(ById(raws))
    ensures DependencyOrdered(ordered) && Distinct(Ids(ordered))
    ensures forall raw :: raw in ordered <==> raw.id in ById(raws) && ById(raws)[raw.id] == raw
    ensures Distinct(Ids(raws)) ==> multiset(ordered) == multiset(raws)
    ensures Distinct(Ids(raws)) && DependencyOrdered(raws) ==> ordered == raws
  {
    hide DependencyOrdered, Distinct, UnfoldedOrder, HasCycle, RefsKnown, ById;
    forall id | id in ById(raws) ensures id in Ids(ordered) {
      var j :| 0 <= j < |raws| && Ids(raws)[j] == id;
      assert raws[j].id in permanent;
    }
    OrderedHasNoCycle(ById(raws), ordered);
    forall raw: RawRule | raw.id in ById(raws) && ById(raws)[raw.id] == raw ensures raw in ordered {
      var j :| 0 <= j < |ordered| && Ids(ordered)[j] == raw.id;
      assert ordered[j] in ordered;
    }
    if Distinct(Ids(raws)) {
      OrderPermutes(raws, ordered);
    }
  }

  /**
   orderRules, on any list of rules. It succeeds exactly when every reference is known and no chain
   of references is a cycle. The order is then the naive unfolding of the rules, as they stand in the
   file, without its repetitions; every rule comes once and after the rules it refers to. The error names
   a rule that lies on a cycle, or a reference to a rule that is not there.
   */
  method OrderRules(raws: seq<RawRule>) returns (r: Result<seq<RawRule>, OrderError>)
    ensures r.Ok? <==> RefsKnown(ById(raws)) && !HasCycle(ById(raws))
    ensures r.Ok? ==> Ids(r.value) == UnfoldedOrder(raws)
    ensures r.Ok? ==> DependencyOrdered(r.value) && Distinct(Ids(r.value))
    ensures r.Ok? ==> forall raw :: raw in r.value <==> raw.id in ById(raws) && ById(raws)[raw.id] == raw
    ensures r.Ok? && Distinct(Ids(raws)) ==> multiset(r.value) == multiset(raws)
    ensures Distinct(Ids(raws)) && DependencyOrdered(raws) ==> r == Ok(raws)
    ensures r.Err? && r.error.CycleDetected? ==> OnCycle(ById(raws), r.error.at)
    ensures r.Err? && r.error.UnknownReference? ==>
              r.error.ref !in ById(raws) && exists from :: IsEdge(ById(raws), from, r.error.ref)
  {
    hide DependencyOrdered, Distinct, AppendNew, Unfold, UnfoldAll, HasCycle, RefsKnown;
    hide ById, IsPartialOrder, ErrorJustified;
    var g := ById(raws);
    var sorter := new Sorter(g);
    UnfoldNothing(g, {}, []);
    assert Ids(raws)[..0] == [];
    for i := 0 to |raws|
      invariant sorter.byID == g && sorter.Valid() && sorter.temporary == {}
      invariant forall j :: 0 <= j < i ==> raws[j].id in sorter.permanent
      invariant Ids(sorter.ordered) == AppendNew([], UnfoldAll(g, {}, Ids(raws)[..i]))
    {
      UnfoldNext(g, {}, [], Ids(raws), i);
      var v := sorter.Visit(raws[i].id, []);
      if v.Err? {
        SortFailed(raws, raws[i], v.error);
        return Err(v.error);
      }
    }
    assert Ids(raws)[..|raws|] == Ids(raws);
    SortSucceeded(raws, sorter.ordered, sorter.permanent);
    return Ok(sorter.ordered);
  }
}
