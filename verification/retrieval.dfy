/** Reading traces back: one trace by its identifier, and the page of traces
    whose root spans a query returned. The query results are parameters:
    each is the sequence of series (one per span) the store answered. */
module Retrieval {
  import opened Types
  import opened Strings
  import opened Decode
  import opened TraceTree

  /** Every series of a result can be decoded without a run-time fault. */
  predicate AllDecodable(series: seq<Row>)
  {
    forall i :: 0 <= i < |series| ==> Decodable(series[i])
  }

  /** The outcome of decoding each series, in order. */
  function DecodeAll(series: seq<Row>): (ds: seq<Result<Span>>)
    requires AllDecodable(series)
    ensures |ds| == |series|
  {
    if |series| == 0 then []
    else
      assert forall i :: 0 <= i < |series| - 1 ==> series[1..][i] == series[i + 1];
      [NewSpanFromRow(series[0])] + DecodeAll(series[1..])
  }

  /** The outcome at each position is the decoding of that series. */
  lemma {:induction false} DecodeAllAt(series: seq<Row>, i: nat)
    requires AllDecodable(series) && i < |series|
    ensures DecodeAll(series)[i] == NewSpanFromRow(series[i])
    decreases i
  {
    if i > 0 {
      assert AllDecodable(series[1..]) by {
        assert forall k :: 0 <= k < |series| - 1 ==> series[1..][k] == series[k + 1];
      }
      DecodeAllAt(series[1..], i - 1);
      assert series[1..][i - 1] == series[i];
    }
  }

  /** Every series decoded into a span. */
  predicate AllOk(ds: seq<Result<Span>>)
  {
    forall i :: 0 <= i < |ds| ==> ds[i].Ok?
  }

  /** The decoded spans, in order. */
  function SpansOf(ds: seq<Result<Span>>): (spans: seq<Span>)
    requires AllOk(ds)
    ensures |spans| == |ds|
    ensures forall i :: 0 <= i < |ds| ==> spans[i] == ds[i].value
  {
    if |ds| == 0 then []
    else
      var n := |ds| - 1;
      assert forall i :: 0 <= i < n ==> ds[..n][i] == ds[i];
      SpansOf(ds[..n]) + [ds[n].value]
  }

  /** The error of some series that failed to decode. */
  predicate DecodeError(ds: seq<Result<Span>>, e: Error)
  {
    exists i :: 0 <= i < |ds| && ds[i] == Err(e)
  }

  /** What a pass over the series of one trace gathers: the root span, if
      one was seen, and a leaf trace for every other span, in order. */
  datatype Gathered = Gathered(root: Option<Span>, children: seq<Trace>)

  function GatheredLabels(g: Gathered): multiset<Span>
  {
    (if g.root.Some? then multiset{g.root.value} else multiset{}) + LabelsOf(g.children)
  }

  predicate ExistsTwoRoots(spans: seq<Span>)
  {
    exists i, j :: 0 <= i < j < |spans| && spans[i].id.IsRoot() && spans[j].id.IsRoot()
  }

  /** The traces of `cs` are leaves holding non-root spans. */
  predicate NonRootLeaves(cs: seq<Trace>)
  {
    forall i :: 0 <= i < |cs| ==> cs[i].sub == [] && !cs[i].span.id.IsRoot()
  }

  lemma LabelsOfSnoc(cs: seq<Trace>, s: Span)
    ensures LabelsOf(cs + [Types.Trace(s, [])]) == LabelsOf(cs) + multiset{s}
  {
    var leaf := Types.Trace(s, []);
    LabelsOfConcat(cs, [leaf]);
    assert [leaf][1..] == [];
    assert Labels(leaf) == multiset{s} + LabelsOf([]);
  }

  /** Sorting the decoded spans of one trace into its root and its children:
      the first decoding error, or a second root span, stops the pass. */
  function Partition(ds: seq<Result<Span>>): Result<Gathered>
  {
    if |ds| == 0 then Ok(Gathered(None, []))
    else
      var n := |ds| - 1;
      var init := Partition(ds[..n]);
      if init.Err? then init
      else if ds[n].Err? then Err(ds[n].error)
      else
        var s := ds[n].value;
        if s.id.IsRoot() then
          if init.value.root.Some? then Err(MultipleRootSpans)
          else Ok(Gathered(Some(s), init.value.children))
        else Ok(Gathered(init.value.root, init.value.children + [Types.Trace(s, [])]))
  }

  /** A successful pass has decoded every series, collects leaves of
      non-root spans as children, keeps a root span as the root, and misses
      a root only when no series held one. */
  lemma {:induction false} PartitionOk(ds: seq<Result<Span>>)
    requires Partition(ds).Ok?
    ensures AllOk(ds)
    ensures NonRootLeaves(Partition(ds).value.children)
    ensures Partition(ds).value.root.Some? ==> Partition(ds).value.root.value.id.IsRoot()
    ensures Partition(ds).value.root.None? <==> forall i :: 0 <= i < |ds| ==> !ds[i].value.id.IsRoot()
  {
    if |ds| > 0 {
      var n := |ds| - 1;
      PartitionOk(ds[..n]);
      assert forall i :: 0 <= i < n ==> ds[..n][i] == ds[i];
    }
  }

  /** Taking one more span into a gathered pass adds exactly that span. */
  lemma GatherOne(g: Gathered, s: Span)
    ensures g.root.None? ==> GatheredLabels(Gathered(Some(s), g.children)) == GatheredLabels(g) + multiset{s}
    ensures GatheredLabels(Gathered(g.root, g.children + [Types.Trace(s, [])])) == GatheredLabels(g) + multiset{s}
  {
    LabelsOfSnoc(g.children, s);
  }

  /** A successful pass holds each decoded span exactly once, as the root or
      as a child. */
  lemma {:induction false} PartitionLabels(ds: seq<Result<Span>>)
    requires Partition(ds).Ok?
    ensures AllOk(ds)
    ensures GatheredLabels(Partition(ds).value) == multiset(SpansOf(ds))
  {
    PartitionOk(ds);
    if |ds| > 0 {
      var n := |ds| - 1;
      PartitionLabels(ds[..n]);
      var g := Partition(ds[..n]).value;
      var s := ds[n].value;
      assert SpansOf(ds) == SpansOf(ds[..n]) + [s];
      assert multiset(SpansOf(ds)) == multiset(SpansOf(ds[..n])) + multiset{s};
      GatherOne(g, s);
    }
  }

  /** When every series decodes, a pass that fails has met two root spans. */
  lemma {:induction false} PartitionErrHasTwoRoots(ds: seq<Result<Span>>)
    requires AllOk(ds) && Partition(ds).Err?
    ensures ExistsTwoRoots(SpansOf(ds))
  {
    var n := |ds| - 1;
    var init := Partition(ds[..n]);
    assert forall i :: 0 <= i < n ==> ds[..n][i] == ds[i];
    var spans := SpansOf(ds);
    assert spans[..n] == SpansOf(ds[..n]);
    if init.Err? {
      PartitionErrHasTwoRoots(ds[..n]);
      var i, j :| 0 <= i < j < n && SpansOf(ds[..n])[i].id.IsRoot() && SpansOf(ds[..n])[j].id.IsRoot();
      assert spans[i] == SpansOf(ds[..n])[i] && spans[j] == SpansOf(ds[..n])[j];
    } else {
      PartitionOk(ds[..n]);
      var i :| 0 <= i < n && ds[..n][i].value.id.IsRoot();
      assert spans[i].id.IsRoot() && spans[n].id.IsRoot();
    }
  }

  /** When every series decodes and two spans are roots, the pass fails. */
  lemma {:induction false} TwoRootsFailPartition(ds: seq<Result<Span>>)
    requires AllOk(ds) && ExistsTwoRoots(SpansOf(ds))
    ensures Partition(ds).Err?
  {
    var spans := SpansOf(ds);
    var i, j :| 0 <= i < j < |spans| && spans[i].id.IsRoot() && spans[j].id.IsRoot();
    var pre := ds[..j];
    assert forall k :: 0 <= k < j ==> pre[k] == ds[k];
    if Partition(pre).Err? {
      PartitionErrSticks(ds, j);
    } else {
      PartitionOk(pre);
      assert pre[i].value.id.IsRoot();
      PartitionNext(ds, j, Partition(pre).value);
      PartitionErrSticks(ds, j + 1);
    }
  }

  /** A pass fails only on a second root span or with the error of a series
      that did not decode. */
  lemma {:induction false} PartitionErrKinds(ds: seq<Result<Span>>)
    requires Partition(ds).Err?
    ensures Partition(ds).error == MultipleRootSpans || DecodeError(ds, Partition(ds).error)
  {
    var n := |ds| - 1;
    var init := Partition(ds[..n]);
    if init.Err? {
      PartitionErrKinds(ds[..n]);
      if init.error != MultipleRootSpans {
        var i :| 0 <= i < n && ds[..n][i] == Err(init.error);
        assert ds[i] == Err(init.error);
      }
    }
  }

  /** The pass over one more series, in terms of the pass so far. */
  lemma PartitionNext(ds: seq<Result<Span>>, i: nat, g: Gathered)
    requires i < |ds| && Partition(ds[..i]) == Ok(g)
    ensures ds[i].Err? ==> Partition(ds[..i + 1]) == Err(ds[i].error)
    ensures ds[i].Ok? && ds[i].value.id.IsRoot() && g.root.Some? ==> Partition(ds[..i + 1]) == Err(MultipleRootSpans)
    ensures ds[i].Ok? && ds[i].value.id.IsRoot() && g.root.None? ==>
              Partition(ds[..i + 1]) == Ok(Gathered(Some(ds[i].value), g.children))
    ensures ds[i].Ok? && !ds[i].value.id.IsRoot() ==>
              Partition(ds[..i + 1]) == Ok(Gathered(g.root, g.children + [Types.Trace(ds[i].value, [])]))
  {
    assert ds[..i + 1][..i] == ds[..i];
    assert ds[..i + 1][i] == ds[i];
  }

  /** Once a prefix of the pass fails, the whole pass fails the same way. */
  lemma {:induction false} PartitionErrSticks(ds: seq<Result<Span>>, n: nat)
    requires n <= |ds| && Partition(ds[..n]).Err?
    ensures Partition(ds) == Partition(ds[..n])
    decreases |ds|
  {
    if n < |ds| {
      var m := |ds| - 1;
      assert ds[..m][..n] == ds[..n];
      PartitionErrSticks(ds[..m], n);
    } else {
      assert ds[..n] == ds;
    }
  }

  /** The root trace of a gathered pass: the root span, or the zero span
      when no root span was seen. */
  function RootTrace(g: Gathered): Trace
  {
    Types.Trace(if g.root.Some? then g.root.value else ZeroSpan, [])
  }

  /** The trace assembled from the decoded series of one trace identifier:
      no series is "trace not found", a decoding error or a second root
      span ends the pass, and the children are attached under the root by
      repeated passes. */
  function TraceOf(ds: seq<Result<Span>>): (r: Result<Trace>)
    ensures |ds| == 0 ==> r == Err(TraceNotFound)
  {
    if |ds| == 0 then Err(TraceNotFound)
    else
      match Partition(ds)
      case Err(e) => Err(e)
      case Ok(g) => AddChildrenSpec(RootTrace(g), g.children, |g.children|)
  }

  /** Two root spans among the decoded series are an error. */
  lemma TraceRejectsTwoRoots(ds: seq<Result<Span>>)
    requires AllOk(ds) && ExistsTwoRoots(SpansOf(ds))
    ensures TraceOf(ds) == Err(MultipleRootSpans)
  {
    TwoRootsFailPartition(ds);
    PartitionErrKinds(ds);
    assert !DecodeError(ds, Partition(ds).error);
  }

  /** Series that decode but hold no root span fail with the retry limit:
      the root stays the zero span, and no child hangs under it. */
  lemma TraceWithoutRootFails(ds: seq<Result<Span>>)
    requires |ds| > 0 && AllOk(ds)
    requires forall i :: 0 <= i < |ds| ==> !ds[i].value.id.IsRoot()
    ensures TraceOf(ds) == Err(MaxRetries)
  {
    if Partition(ds).Err? {
      PartitionErrHasTwoRoots(ds);
    } else {
      var g := Partition(ds).value;
      PartitionOk(ds);
      PartitionLabels(ds);
      HeadInMultiset(SpansOf(ds));
      assert LabelsOf(g.children) != multiset{};
      LeavesClosedUnderZero(g.children);
      AddChildrenFailsOnUnreachableParent(RootTrace(g), g.children, |g.children|, {ZeroID}, g.children[0]);
    }
  }

  lemma HeadInMultiset(s: seq<Span>)
    ensures |s| > 0 ==> s[0] in multiset(s)
  {
  }

  /** Leaves of non-root spans never attach under the zero span. */
  lemma LeavesClosedUnderZero(cs: seq<Trace>)
    requires NonRootLeaves(cs)
    ensures ClosedUnder({ZeroID}, cs)
    ensures |cs| > 0 ==> cs[0] in cs && cs[0].span.id.parent !in {ZeroID}
  {
    forall c | c in cs
      ensures c.span.id.parent != ZeroID
    {
      var k :| 0 <= k < |cs| && cs[k] == c;
    }
  }

  /** The trace of series that pass: the children attached under the root. */
  lemma TraceOfGathered(ds: seq<Result<Span>>, g: Gathered)
    requires |ds| > 0 && Partition(ds) == Ok(g)
    ensures TraceOf(ds) == AddChildrenSpec(RootTrace(g), g.children, |g.children|)
  {
  }

  /** Once the pass over a prefix of the series fails, so does the trace. */
  lemma TraceFailsAt(ds: seq<Result<Span>>, n: nat, e: Error)
    requires 0 < n <= |ds| && Partition(ds[..n]) == Err(e)
    ensures TraceOf(ds) == Err(e)
  {
    PartitionErrSticks(ds, n);
  }

  /** A trace that is assembled came from series that all decoded, one of
      them the root span. */
  lemma TraceOfOk(ds: seq<Result<Span>>)
    requires TraceOf(ds).Ok?
    ensures Partition(ds).Ok? && AllOk(ds)
    ensures Partition(ds).value.root.Some?
    ensures TraceOf(ds) == AddChildrenSpec(RootTrace(Partition(ds).value), Partition(ds).value.children,
                                           |Partition(ds).value.children|)
  {
    PartitionOk(ds);
    if Partition(ds).value.root.None? {
      TraceWithoutRootFails(ds);
    }
  }

  /** An assembled trace has a decoded root span at its root. */
  lemma TraceRootIsRootSpan(ds: seq<Result<Span>>)
    requires TraceOf(ds).Ok?
    ensures AllOk(ds)
    ensures TraceOf(ds).value.span.id.IsRoot()
    ensures TraceOf(ds).value.span in SpansOf(ds)
  {
    TraceOfOk(ds);
    var g := Partition(ds).value;
    PartitionOk(ds);
    PartitionLabels(ds);
    AddChildrenKeepsRoot(RootTrace(g), g.children, |g.children|);
    assert g.root.value in multiset(SpansOf(ds));
  }

  /** An assembled trace holds each decoded span exactly once. */
  lemma TraceHoldsEachSpan(ds: seq<Result<Span>>)
    requires TraceOf(ds).Ok?
    ensures AllOk(ds)
    ensures Labels(TraceOf(ds).value) == multiset(SpansOf(ds))
  {
    TraceOfOk(ds);
    var g := Partition(ds).value;
    PartitionLabels(ds);
    var root := RootTrace(g);
    assert Labels(root) == multiset{g.root.value} + LabelsOf([]);
    AddChildrenKeepsLabels(root, g.children, |g.children|, multiset(SpansOf(ds)));
  }

  /** In an assembled trace each span hangs under the span its parent id
      names. */
  lemma TraceIsWellLinked(ds: seq<Result<Span>>)
    requires TraceOf(ds).Ok?
    ensures WellLinked(TraceOf(ds).value)
  {
    TraceOfOk(ds);
    var g := Partition(ds).value;
    PartitionOk(ds);
    assert AllWellLinked(g.children);
    AddChildrenKeepsLinks(RootTrace(g), g.children, |g.children|);
  }

  /** Fetches one trace from the series its query returned: decodes each
      series in order, keeps the root span and collects the others as
      children, then attaches the children. */
  method LoadTrace(series: seq<Row>) returns (r: Result<Trace>)
    requires AllDecodable(series)
    ensures r == TraceOf(DecodeAll(series))
  {
    if |series| == 0 {
      return Err(TraceNotFound);
    }
    ghost var ds := DecodeAll(series);
    var rootSpan := ZeroSpan;
    var rootSpanSet := false;
    var children: seq<Trace> := [];
    ghost var g := Gathered(None, []);
    for i := 0 to |series|
      invariant g == Gathered(if rootSpanSet then Some(rootSpan) else None, children)
      invariant Partition(ds[..i]) == Ok(g)
      invariant !rootSpanSet ==> rootSpan == ZeroSpan
    {
      var span := NewSpanFromRow(series[i]);
      DecodeAllAt(series, i);
      PartitionNext(ds, i, g);
      if span.Err? {
        TraceFailsAt(ds, i + 1, span.error);
        return Err(span.error);
      }
      var isRootSpan := false;
      if span.value.id.IsRoot() && rootSpanSet {
        TraceFailsAt(ds, i + 1, MultipleRootSpans);
        return Err(MultipleRootSpans);
      }
      if span.value.id.IsRoot() && !rootSpanSet {
        isRootSpan := true;
      }
      if isRootSpan {
        rootSpan := span.value;
        rootSpanSet := true;
      } else {
        children := children + [Types.Trace(span.value, [])];
      }
      g := Gathered(if rootSpanSet then Some(rootSpan) else None, children);
    }
    assert ds[..|series|] == ds;
    TraceOfGathered(ds, g);
    r := AddChildren(Types.Trace(rootSpan, []), children);
  }
}
