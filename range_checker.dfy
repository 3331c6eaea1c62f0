/**
 * The `RangeCheckerReducer` a generator writes for the parser's tests: a monoidal
 * reducer whose state is the source range a subtree covers. `append` checks that the
 * first range ends before the second starts, and `accept` checks that a node's own span
 * encloses the range of its children. A failed check is a failed JUnit assertion, `None`
 * here.
 */
module RangeChecker {
  import opened Wrappers
  import Reducers

  /** `Integer.MAX_VALUE` and `Integer.MIN_VALUE`. */
  const IntMax: int := 0x7fff_ffff
  const IntMin: int := -0x8000_0000

  predicate IsInt(x: int)
  {
    IntMin <= x <= IntMax
  }

  /** `RangeChecker(start, end)`. */
  datatype Range = Range(start: int, end: int)

  /*
   * ---------- As written ----------
   */

  /** `MONOID.identity()`. */
  const Identity: Range := Range(IntMax, IntMin)

  /** `MONOID.append(a, b)`. */
  function Append(a: Range, b: Range): (r: Option<Range>)
    ensures r.Some? <==> a.end <= b.start
    ensures r.Some? ==> r.value.start == a.start && r.value.end == b.end
  {
    if a.end <= b.start then Some(Range(a.start, b.end)) else None
  }

  /** `append` with a failed assertion carried along. */
  function Then(a: Option<Range>, b: Option<Range>): Option<Range>
  {
    if a.None? || b.None? then None else Append(a.value, b.value)
  }

  /** `accept(node, inner)`: the node must have a span, and that span must be a range enclosing `inner`. */
  function Accept(span: Option<Range>, inner: Range): (r: Option<Range>)
    ensures r.Some? <==> (span.Some? && span.value.start <= span.value.end
      && span.value.start <= inner.start && inner.end <= span.value.end)
    ensures r.Some? ==> r == span
  {
    if span.None? then None
    else if span.value.start <= span.value.end && span.value.start <= inner.start && inner.end <= span.value.end then span
    else None
  }

  /** A node with no state is accepted by any well-formed span of its own. */
  lemma AcceptIdentity(span: Range)
    requires IsInt(span.start) && IsInt(span.end)
    ensures Accept(Some(span), Identity).Some? <==> span.start <= span.end
  {
  }

  /** The identity is neutral on neither side: it carries its own start or end into the result. */
  lemma IdentityNotNeutral()
    ensures Append(Identity, Range(0, 5)) == Some(Range(IntMax, 5))
    ensures Append(Range(0, 5), Identity) == Some(Range(0, IntMin))
  {
  }

  /**
   * An absent optional attribute between two others hides their overlap: `[0, 10)` and
   * `[5, 8)` are appended without complaint when the identity sits between them.
   */
  lemma OverlapUndetected()
    ensures Append(Range(0, 10), Range(5, 8)).None?
    ensures Then(Then(Some(Range(0, 10)), Some(Identity)), Some(Range(5, 8))) == Some(Range(0, 8))
  {
  }

  /**
   * An absent optional attribute in front of a child hides a child that starts before
   * its parent: the child `[0, 7)` is accepted inside the span `[5, 8)`.
   */
  lemma EscapeUndetected()
    ensures Accept(Some(Range(5, 8)), Range(0, 7)).None?
    ensures Then(Some(Identity), Some(Range(0, 7))) == Some(Range(IntMax, 7))
    ensures Accept(Some(Range(5, 8)), Range(IntMax, 7)) == Some(Range(5, 8))
  {
  }

  /*
   * ---------- With an empty range ----------
   */

  /** A range, or the empty range a subtree without states covers. */
  datatype Extent = Empty | Span(start: int, end: int)

  function AppendExtent(a: Extent, b: Extent): (r: Option<Extent>)
  {
    if a.Empty? then Some(b)
    else if b.Empty? then Some(a)
    else if a.end <= b.start then Some(Span(a.start, b.end))
    else None
  }

  function ThenExtent(a: Option<Extent>, b: Option<Extent>): Option<Extent>
  {
    if a.None? || b.None? then None else AppendExtent(a.value, b.value)
  }

  /** With the empty range as identity the checks form a monoid, so `MonoidalReducer` may regroup them. */
  lemma ExtentMonoid()
    ensures Reducers.IsMonoid(ThenExtent, Some(Empty))
  {
    forall a: Option<Extent>, b: Option<Extent>, c: Option<Extent>
      ensures ThenExtent(ThenExtent(a, b), c) == ThenExtent(a, ThenExtent(b, c))
    {
    }
  }

  /** An empty range between two others changes nothing: their order is still checked. */
  lemma EmptyTransparent(a: Extent, c: Extent)
    ensures ThenExtent(ThenExtent(Some(a), Some(Empty)), Some(c)) == AppendExtent(a, c)
  {
  }

  function AcceptExtent(span: Option<Range>, inner: Extent): (r: Option<Range>)
    ensures r.Some? <==> (span.Some? && span.value.start <= span.value.end
      && (inner.Span? ==> span.value.start <= inner.start && inner.end <= span.value.end))
    ensures r.Some? ==> r == span
  {
    match inner
    case Empty => if span.Some? && span.value.start <= span.value.end then span else None
    case Span(s, e) => Accept(span, Range(s, e))
  }

  /** The spans among the children's extents, in order. */
  function Spans(xs: seq<Extent>): (r: seq<Extent>)
    ensures forall i :: 0 <= i < |r| ==> r[i].Span?
    ensures |r| <= |xs|
  {
    if xs == [] then []
    else Spans(xs[..|xs| - 1]) + (if xs[|xs| - 1].Span? then [xs[|xs| - 1]] else [])
  }

  /** Each span ends before the next one starts. */
  predicate Chained(ss: seq<Extent>)
    requires forall i :: 0 <= i < |ss| ==> ss[i].Span?
  {
    forall k :: 0 <= k < |ss| - 1 ==> ss[k].end <= ss[k + 1].start
  }

  /** From the first span's start to the last span's end. */
  function Cover(ss: seq<Extent>): Extent
    requires forall i :: 0 <= i < |ss| ==> ss[i].Span?
  {
    if ss == [] then Empty else Span(ss[0].start, ss[|ss| - 1].end)
  }

  /** The children's extents appended left to right. */
  function Concat(xs: seq<Extent>): Option<Extent>
  {
    if xs == [] then Some(Empty) else ThenExtent(Concat(xs[..|xs| - 1]), Some(xs[|xs| - 1]))
  }

  lemma ChainedSnoc(ss: seq<Extent>, x: Extent)
    requires forall i :: 0 <= i < |ss| ==> ss[i].Span?
    requires x.Span? && ss != []
    ensures Chained(ss + [x]) <==> Chained(ss) && ss[|ss| - 1].end <= x.start
  {
    var t := ss + [x];
    assert forall k :: 0 <= k < |ss| ==> t[k] == ss[k];
    assert t[|ss|] == x;
  }

  /**
   * Appending the children's extents succeeds exactly when every span ends before the
   * next span starts, whatever empty extents lie between them, and then covers them all.
   */
  lemma {:induction false} ConcatChecksNeighbours(xs: seq<Extent>)
    ensures Concat(xs) == if Chained(Spans(xs)) then Some(Cover(Spans(xs))) else None
  {
    if xs != [] {
      var init := xs[..|xs| - 1];
      var x := xs[|xs| - 1];
      ConcatChecksNeighbours(init);
      var ss := Spans(init);
      assert Spans(xs) == ss + (if x.Span? then [x] else []);
      if x.Span? && ss != [] {
        ChainedSnoc(ss, x);
        var t := ss + [x];
        assert t[0] == ss[0] && t[|t| - 1] == x;
      } else if x.Span? {
        assert Chained(ss) && Concat(init) == Some(Empty);
        assert Spans(xs) == [x] && Chained([x]);
      } else {
        assert Spans(xs) == ss;
      }
    }
  }

  /**
   * What the leaf's `super.reduce…` hands to `accept`: the children's extents appended in
   * order, except on the ill-typed `fold1` shape, which has no value.
   */
  lemma LeafRange(reds: seq<Reducers.Red>, args: seq<Reducers.Arg<Option<Extent>>>)
    requires |args| == |reds| && forall i :: 0 <= i < |reds| ==> Reducers.Matches(reds[i].wrapping, args[i])
    ensures Reducers.Evaluate(Reducers.CombineAsWritten(reds), args, ThenExtent, Some(Empty))
      == if Reducers.Fold1OverMaybes(reds) then None else Some(Reducers.Total(args, ThenExtent, Some(Empty)))
  {
    ExtentMonoid();
    Reducers.MonoidalAsWrittenSound(reds, args, ThenExtent, Some(Empty));
  }
}
