/**
 * The loop every per-leaf generator runs: walk `Array.from(nodes.keys()).sort()`, skip
 * nodes that have children, and append what the leaf contributes; an exception thrown
 * for one leaf ends the whole generator.
 */
module Emit {
  import opened Wrappers
  import opened SemanticTypes
  import Text

  /** What a generator has appended after walking `names`: the first failure, or one item per leaf. */
  function Emitted<T>(g: Graph, names: seq<string>, emit: (string, NodeDecl) -> Result<T>): (r: Result<seq<T>>)
    requires forall n <- names :: n in g.nodes
  {
    if names == [] then Success([])
    else
      var n := names[|names| - 1];
      match Emitted(g, names[..|names| - 1], emit)
      case Failure(e) => Failure(e)
      case Success(done) =>
        if g.nodes[n].children != [] then Success(done)
        else
          match emit(n, g.nodes[n])
          case Failure(e) => Failure(e)
          case Success(x) => Success(done + [x])
  }

  /** `items` holds, position by position, the item of each of `leaves`. */
  ghost predicate ItemsOf<T>(g: Graph, leaves: seq<string>, emit: (string, NodeDecl) -> Result<T>, items: seq<T>)
    requires forall n <- leaves :: n in g.nodes
  {
    |items| == |leaves| && forall i :: 0 <= i < |leaves| ==> emit(leaves[i], g.nodes[leaves[i]]) == Success(items[i])
  }

  /** Every one of `leaves` has an item. */
  ghost predicate AllEmit<T>(g: Graph, leaves: seq<string>, emit: (string, NodeDecl) -> Result<T>)
    requires forall n <- leaves :: n in g.nodes
  {
    forall i :: 0 <= i < |leaves| ==> emit(leaves[i], g.nodes[leaves[i]]).Success?
  }

  lemma ItemsOfSnoc<T>(g: Graph, leaves: seq<string>, n: string, emit: (string, NodeDecl) -> Result<T>, items: seq<T>, x: T)
    requires forall m <- leaves + [n] :: m in g.nodes
    requires ItemsOf(g, leaves, emit, items) && emit(n, g.nodes[n]) == Success(x)
    ensures ItemsOf(g, leaves + [n], emit, items + [x])
  {
  }

  /**
   * A generator succeeds exactly when every leaf's item can be made, and then holds the
   * leaves' items in leaf order.
   */
  lemma {:induction false} EmittedLeaves<T>(g: Graph, names: seq<string>, emit: (string, NodeDecl) -> Result<T>)
    requires forall n <- names :: n in g.nodes
    ensures Emitted(g, names, emit).Success? <==> AllEmit(g, LeavesAmong(g, names), emit)
    ensures Emitted(g, names, emit).Success? ==> ItemsOf(g, LeavesAmong(g, names), emit, Emitted(g, names, emit).value)
  {
    if names != [] {
      var init := names[..|names| - 1];
      var n := names[|names| - 1];
      EmittedLeaves(g, init, emit);
      var before := LeavesAmong(g, init);
      var leaves := LeavesAmong(g, names);
      if Emitted(g, init, emit).Failure? {
        var i :| 0 <= i < |before| && emit(before[i], g.nodes[before[i]]).Failure?;
        assert leaves[i] == before[i];
      } else if g.nodes[n].children == [] {
        assert leaves == before + [n];
        if emit(n, g.nodes[n]).Success? {
          ItemsOfSnoc(g, before, n, emit, Emitted(g, init, emit).value, emit(n, g.nodes[n]).value);
        } else {
          assert leaves[|before|] == n;
        }
      }
    }
  }

  /** `leaves[i]` is the first leaf whose item cannot be made, and it fails with `e`. */
  ghost predicate FirstFailing<T>(g: Graph, leaves: seq<string>, emit: (string, NodeDecl) -> Result<T>, i: int, e: string)
    requires forall n <- leaves :: n in g.nodes
  {
    0 <= i < |leaves| && emit(leaves[i], g.nodes[leaves[i]]) == Failure(e)
    && forall j :: 0 <= j < i ==> emit(leaves[j], g.nodes[leaves[j]]).Success?
  }

  lemma FirstFailingExtends<T>(g: Graph, before: seq<string>, after: seq<string>, emit: (string, NodeDecl) -> Result<T>, i: int, e: string)
    requires forall n <- after :: n in g.nodes
    requires |before| <= |after| && before == after[..|before|]
    requires FirstFailing(g, before, emit, i, e)
    ensures FirstFailing(g, after, emit, i, e)
  {
    assert forall j :: 0 <= j <= i ==> after[j] == before[j];
  }

  /** A failing generator fails with the error of the first leaf that could not be emitted. */
  lemma {:induction false} EmittedFirstFailure<T>(g: Graph, names: seq<string>, emit: (string, NodeDecl) -> Result<T>)
    requires forall n <- names :: n in g.nodes
    ensures Emitted(g, names, emit).Failure? ==>
      exists i :: FirstFailing(g, LeavesAmong(g, names), emit, i, Emitted(g, names, emit).error)
  {
    if names != [] {
      var init := names[..|names| - 1];
      var n := names[|names| - 1];
      var before := LeavesAmong(g, init);
      var leaves := LeavesAmong(g, names);
      assert before == leaves[..|before|];
      if Emitted(g, init, emit).Failure? {
        EmittedFirstFailure(g, init, emit);
        var i :| FirstFailing(g, before, emit, i, Emitted(g, init, emit).error);
        FirstFailingExtends(g, before, leaves, emit, i, Emitted(g, init, emit).error);
      } else if g.nodes[n].children == [] && emit(n, g.nodes[n]).Failure? {
        EmittedLeaves(g, init, emit);
        assert FirstFailing(g, leaves, emit, |before|, Emitted(g, names, emit).error);
      }
    }
  }

  /** Once the walk has failed, walking further names changes nothing. */
  lemma {:induction false} EmittedFailureStays<T>(g: Graph, names: seq<string>, k: int, emit: (string, NodeDecl) -> Result<T>)
    requires forall n <- names :: n in g.nodes
    requires 0 <= k <= |names| && Emitted(g, names[..k], emit).Failure?
    ensures Emitted(g, names, emit) == Emitted(g, names[..k], emit)
    decreases |names| - k
  {
    if k < |names| {
      var next := names[..k + 1];
      assert next[..k] == names[..k];
      assert Emitted(g, next, emit) == Emitted(g, names[..k], emit);
      EmittedFailureStays(g, names, k + 1, emit);
    } else {
      assert names[..k] == names;
    }
  }

  /** One more name: a node with children adds nothing, a leaf adds its item or fails. */
  lemma EmittedStep<T>(g: Graph, names: seq<string>, i: int, emit: (string, NodeDecl) -> Result<T>)
    requires forall n <- names :: n in g.nodes
    requires 0 <= i < |names| && Emitted(g, names[..i], emit).Success?
    ensures g.nodes[names[i]].children != [] ==> Emitted(g, names[..i + 1], emit) == Emitted(g, names[..i], emit)
    ensures g.nodes[names[i]].children == [] && emit(names[i], g.nodes[names[i]]).Failure? ==>
      Emitted(g, names[..i + 1], emit) == Failure(emit(names[i], g.nodes[names[i]]).error)
    ensures g.nodes[names[i]].children == [] && emit(names[i], g.nodes[names[i]]).Success? ==>
      Emitted(g, names[..i + 1], emit) == Success(Emitted(g, names[..i], emit).value + [emit(names[i], g.nodes[names[i]]).value])
  {
    assert names[..i + 1][..i] == names[..i] && names[..i + 1][i] == names[i];
  }

  /** The generator loop: sorted names, leaves only, stopping at the first failure. */
  method EmitLeaves<T>(g: Graph, emit: (string, NodeDecl) -> Result<T>) returns (r: Result<seq<T>>)
    requires WellFormed(g)
    ensures r == Emitted(g, Text.Sort(g.order), emit)
  {
    var names := Text.Sort(g.order);
    var items: seq<T> := [];
    var i := 0;
    while i < |names|
      invariant 0 <= i <= |names|
      invariant Emitted(g, names[..i], emit) == Success(items)
    {
      var n := names[i];
      EmittedStep(g, names, i, emit);
      if g.nodes[n].children == [] {
        var item := emit(n, g.nodes[n]);
        if item.Failure? {
          EmittedFailureStays(g, names, i + 1, emit);
          return Failure(item.error);
        }
        items := items + [item.value];
      }
      i := i + 1;
    }
    assert names[..i] == names;
    return Success(items);
  }
}
