/** Listing a page of traces: the root spans a query returned are cached by
    trace identifier, the child spans of those traces (the answer to a
    second query whose WHERE clause names every cached trace) are grouped
    under their trace, and each trace is assembled. Both query answers are
    parameters. */
module TraceListing {
  import opened Types
  import opened Strings
  import opened Decode
  import opened TraceTree
  import opened Retrieval

  /** The trace cache built from the decoded root series: each trace
      identifier mapped to its root span. A decoding error or a second root
      span for the same trace ends the pass. */
  function RootCache(ds: seq<Result<Span>>): Result<map<ID, Span>>
  {
    if |ds| == 0 then Ok(map[])
    else
      var n := |ds| - 1;
      var init := RootCache(ds[..n]);
      if init.Err? then init
      else if ds[n].Err? then Err(ds[n].error)
      else if ds[n].value.id.trace in init.value then Err(DuplicatedRootSpan)
      else Ok(init.value[ds[n].value.id.trace := ds[n].value])
  }

  /** The cache after one more series, in terms of the cache so far. */
  lemma RootCacheNext(ds: seq<Result<Span>>, i: nat, cache: map<ID, Span>)
    requires i < |ds| && RootCache(ds[..i]) == Ok(cache)
    ensures ds[i].Err? ==> RootCache(ds[..i + 1]) == Err(ds[i].error)
    ensures ds[i].Ok? && ds[i].value.id.trace in cache ==> RootCache(ds[..i + 1]) == Err(DuplicatedRootSpan)
    ensures ds[i].Ok? && ds[i].value.id.trace !in cache ==>
              RootCache(ds[..i + 1]) == Ok(cache[ds[i].value.id.trace := ds[i].value])
  {
    assert ds[..i + 1][..i] == ds[..i];
    assert ds[..i + 1][i] == ds[i];
  }

  /** Once the cache of a prefix fails, the whole pass fails the same way. */
  lemma {:induction false} RootCacheFailsAt(ds: seq<Result<Span>>, n: nat)
    requires n <= |ds| && RootCache(ds[..n]).Err?
    ensures RootCache(ds) == RootCache(ds[..n])
    decreases |ds|
  {
    if n < |ds| {
      var m := |ds| - 1;
      assert ds[..m][..n] == ds[..n];
      RootCacheFailsAt(ds[..m], n);
    } else {
      assert ds[..n] == ds;
    }
  }

  /** Two of the spans belong to the same trace. */
  predicate SharedTrace(spans: seq<Span>)
  {
    exists i, j :: 0 <= i < j < |spans| && spans[i].id.trace == spans[j].id.trace
  }

  /** A cache built from the root series has decoded every series, and its
      keys are exactly the trace identifiers of the decoded spans. */
  lemma {:induction false} RootCacheOk(ds: seq<Result<Span>>)
    requires RootCache(ds).Ok?
    ensures AllOk(ds)
    ensures forall t :: t in RootCache(ds).value <==> exists i :: 0 <= i < |ds| && ds[i].value.id.trace == t
  {
    if |ds| > 0 {
      var n := |ds| - 1;
      RootCacheOk(ds[..n]);
      assert forall i :: 0 <= i < n ==> ds[..n][i] == ds[i];
      var cache := RootCache(ds).value;
      forall t | t in cache
        ensures exists i :: 0 <= i < |ds| && ds[i].value.id.trace == t
      {
        if t != ds[n].value.id.trace {
          var i :| 0 <= i < n && ds[..n][i].value.id.trace == t;
          assert ds[i].value.id.trace == t;
        }
      }
    }
  }

  /** Each decoded root span sits in the cache under its trace identifier. */
  lemma {:induction false} RootCacheHoldsSpans(ds: seq<Result<Span>>)
    requires RootCache(ds).Ok?
    ensures AllOk(ds)
    ensures forall i :: 0 <= i < |ds| ==>
              ds[i].value.id.trace in RootCache(ds).value && RootCache(ds).value[ds[i].value.id.trace] == ds[i].value
  {
    RootCacheOk(ds);
    if |ds| > 0 {
      var n := |ds| - 1;
      RootCacheHoldsSpans(ds[..n]);
      var before := RootCache(ds[..n]).value;
      var s := ds[n].value;
      var after := RootCache(ds).value;
      assert s.id.trace !in before && after == before[s.id.trace := s];
      forall i | 0 <= i < |ds|
        ensures ds[i].value.id.trace in after && after[ds[i].value.id.trace] == ds[i].value
      {
        if i < n {
          assert ds[..n][i] == ds[i];
          assert ds[i].value.id.trace in before;
        }
      }
    }
  }

  /** When every root series decodes, the cache fails exactly when two
      spans share a trace; this direction: a failure has two such spans. */
  lemma {:induction false} RootCacheErrShares(ds: seq<Result<Span>>)
    requires AllOk(ds) && RootCache(ds).Err?
    ensures SharedTrace(SpansOf(ds))
  {
    var n := |ds| - 1;
    var spans := SpansOf(ds);
    assert forall i :: 0 <= i < n ==> ds[..n][i] == ds[i];
    assert spans[..n] == SpansOf(ds[..n]);
    if RootCache(ds[..n]).Err? {
      RootCacheErrShares(ds[..n]);
      var i, j :| 0 <= i < j < n && SpansOf(ds[..n])[i].id.trace == SpansOf(ds[..n])[j].id.trace;
      assert spans[i] == SpansOf(ds[..n])[i] && spans[j] == SpansOf(ds[..n])[j];
    } else {
      RootCacheOk(ds[..n]);
      var i :| 0 <= i < n && ds[..n][i].value.id.trace == ds[n].value.id.trace;
      assert spans[i].id.trace == spans[n].id.trace;
    }
  }

  /** The other direction: two root spans of one trace fail the cache with
      a duplicated root span. */
  lemma {:induction false} SharedTraceFailsCache(ds: seq<Result<Span>>)
    requires AllOk(ds) && SharedTrace(SpansOf(ds))
    ensures RootCache(ds) == Err(DuplicatedRootSpan)
  {
    var spans := SpansOf(ds);
    var i, j :| 0 <= i < j < |spans| && spans[i].id.trace == spans[j].id.trace;
    var pre := ds[..j];
    assert forall k :: 0 <= k < j ==> pre[k] == ds[k];
    if RootCache(pre).Err? {
      RootCacheFailsAt(ds, j);
      RootCacheErrKinds(pre);
    } else {
      RootCacheOk(pre);
      assert pre[i].value.id.trace == ds[j].value.id.trace;
      RootCacheNext(ds, j, RootCache(pre).value);
      RootCacheFailsAt(ds, j + 1);
    }
  }

  /** The cache fails only on a duplicated root span or with the error of a
      series that did not decode. */
  lemma {:induction false} RootCacheErrKinds(ds: seq<Result<Span>>)
    requires RootCache(ds).Err?
    ensures RootCache(ds).error == DuplicatedRootSpan || DecodeError(ds, RootCache(ds).error)
  {
    var n := |ds| - 1;
    var init := RootCache(ds[..n]);
    if init.Err? {
      RootCacheErrKinds(ds[..n]);
      if init.error != DuplicatedRootSpan {
        var i :| 0 <= i < n && ds[..n][i] == Err(init.error);
        assert ds[i] == Err(init.error);
      }
    }
  }

  /** The children gathered so far for a trace key; none when the key is
      absent. */
  function Group(groups: map<ID, seq<Trace>>, key: ID): seq<Trace>
  {
    if key in groups then groups[key] else []
  }

  /** Grouping the decoded child series: each child becomes a leaf appended
      to the group of its trace, keyed by the trace identifier of the cached
      root span. A decoding error, or a child whose trace is not cached,
      ends the pass. */
  function GroupChildren(ds: seq<Result<Span>>, cache: map<ID, Span>): Result<map<ID, seq<Trace>>>
  {
    if |ds| == 0 then Ok(map[])
    else
      var n := |ds| - 1;
      var init := GroupChildren(ds[..n], cache);
      if init.Err? then init
      else if ds[n].Err? then Err(ds[n].error)
      else if ds[n].value.id.trace !in cache then Err(ParentNotFound)
      else
        var key := cache[ds[n].value.id.trace].id.trace;
        Ok(init.value[key := Group(init.value, key) + [Types.Trace(ds[n].value, [])]])
  }

  /** The grouping after one more series, in terms of the grouping so far. */
  lemma GroupChildrenNext(ds: seq<Result<Span>>, i: nat, cache: map<ID, Span>, groups: map<ID, seq<Trace>>)
    requires i < |ds| && GroupChildren(ds[..i], cache) == Ok(groups)
    ensures ds[i].Err? ==> GroupChildren(ds[..i + 1], cache) == Err(ds[i].error)
    ensures ds[i].Ok? && ds[i].value.id.trace !in cache ==> GroupChildren(ds[..i + 1], cache) == Err(ParentNotFound)
    ensures ds[i].Ok? && ds[i].value.id.trace in cache ==>
              var key := cache[ds[i].value.id.trace].id.trace;
              GroupChildren(ds[..i + 1], cache) == Ok(groups[key := Group(groups, key) + [Types.Trace(ds[i].value, [])]])
  {
    assert ds[..i + 1][..i] == ds[..i];
    assert ds[..i + 1][i] == ds[i];
  }

  /** Once the grouping of a prefix fails, the whole pass fails the same
      way. */
  lemma {:induction false} GroupChildrenFailsAt(ds: seq<Result<Span>>, cache: map<ID, Span>, n: nat)
    requires n <= |ds| && GroupChildren(ds[..n], cache).Err?
    ensures GroupChildren(ds, cache) == GroupChildren(ds[..n], cache)
    decreases |ds|
  {
    if n < |ds| {
      var m := |ds| - 1;
      assert ds[..m][..n] == ds[..n];
      GroupChildrenFailsAt(ds[..m], cache, n);
    } else {
      assert ds[..n] == ds;
    }
  }

  /** Each cached root span sits under its own trace identifier. */
  ghost predicate KeyedByTrace(cache: map<ID, Span>)
  {
    forall t :: t in cache ==> cache[t].id.trace == t
  }

  /** The leaves of the spans of trace `t`, in order. */
  function LeavesOfTrace(spans: seq<Span>, t: ID): (leaves: seq<Trace>)
    ensures forall k :: 0 <= k < |leaves| ==> leaves[k].sub == [] && leaves[k].span.id.trace == t
  {
    if |spans| == 0 then []
    else
      var n := |spans| - 1;
      LeavesOfTrace(spans[..n], t) + (if spans[n].id.trace == t then [Types.Trace(spans[n], [])] else [])
  }

  /** A successful grouping has decoded every child series and found each
      child's trace in the cache. */
  lemma {:induction false} GroupChildrenOk(ds: seq<Result<Span>>, cache: map<ID, Span>)
    requires GroupChildren(ds, cache).Ok?
    ensures AllOk(ds)
    ensures forall i :: 0 <= i < |ds| ==> ds[i].value.id.trace in cache
  {
    if |ds| > 0 {
      var n := |ds| - 1;
      GroupChildrenOk(ds[..n], cache);
      assert forall i :: 0 <= i < n ==> ds[..n][i] == ds[i];
    }
  }

  /** A successful grouping holds for trace `t` exactly the leaves of that
      trace's child spans, in series order. */
  lemma {:induction false} GroupChildrenGroups(ds: seq<Result<Span>>, cache: map<ID, Span>, t: ID)
    requires KeyedByTrace(cache) && GroupChildren(ds, cache).Ok?
    ensures AllOk(ds) && Group(GroupChildren(ds, cache).value, t) == LeavesOfTrace(SpansOf(ds), t)
  {
    GroupChildrenOk(ds, cache);
    if |ds| > 0 {
      var n := |ds| - 1;
      GroupChildrenGroups(ds[..n], cache, t);
      assert SpansOf(ds)[..n] == SpansOf(ds[..n]);
      var s := ds[n].value;
      assert cache[s.id.trace].id.trace == s.id.trace;
    }
  }

  /** Every child series that decodes and belongs to a cached trace is
      grouped without error. */
  lemma {:induction false} GroupChildrenFindsParents(ds: seq<Result<Span>>, cache: map<ID, Span>)
    requires AllOk(ds)
    requires forall i :: 0 <= i < |ds| ==> ds[i].value.id.trace in cache
    ensures GroupChildren(ds, cache).Ok?
  {
    if |ds| > 0 {
      var n := |ds| - 1;
      assert forall i :: 0 <= i < n ==> ds[..n][i] == ds[i];
      GroupChildrenFindsParents(ds[..n], cache);
    }
  }

  /** The grouping fails only on a child of an uncached trace or with the
      error of a series that did not decode. */
  lemma {:induction false} GroupChildrenErrKinds(ds: seq<Result<Span>>, cache: map<ID, Span>)
    requires GroupChildren(ds, cache).Err?
    ensures GroupChildren(ds, cache).error == ParentNotFound || DecodeError(ds, GroupChildren(ds, cache).error)
  {
    var n := |ds| - 1;
    var init := GroupChildren(ds[..n], cache);
    if init.Err? {
      GroupChildrenErrKinds(ds[..n], cache);
      if init.error != ParentNotFound {
        var i :| 0 <= i < n && ds[..n][i] == Err(init.error);
        assert ds[i] == Err(init.error);
      }
    }
  }

  /** The trace listed for cached trace `t`: its root span with the grouped
      children attached, or the bare root span when none were grouped. */
  function Assembled(cache: map<ID, Span>, groups: map<ID, seq<Trace>>, t: ID): Result<Trace>
    requires t in cache
  {
    var root := Types.Trace(cache[t], []);
    var key := cache[t].id.trace;
    if key in groups then AddChildrenSpec(root, groups[key], |groups[key]|) else Ok(root)
  }

  /** An assembled trace keeps the cached root span; assembly fails only at
      the retry limit. */
  lemma AssembledKeepsRoot(cache: map<ID, Span>, groups: map<ID, seq<Trace>>, t: ID)
    requires t in cache
    ensures Assembled(cache, groups, t).Err? ==> Assembled(cache, groups, t).error == MaxRetries
    ensures Assembled(cache, groups, t).Ok? ==> Assembled(cache, groups, t).value.span == cache[t]
  {
    var key := cache[t].id.trace;
    AddChildrenKeepsRoot(Types.Trace(cache[t], []), Group(groups, key), |Group(groups, key)|);
  }

  /** An assembled trace holds its root span and each grouped child span,
      each exactly once. */
  lemma AssembledHoldsGroup(cache: map<ID, Span>, groups: map<ID, seq<Trace>>, t: ID)
    requires t in cache
    ensures Assembled(cache, groups, t).Ok? ==>
              Labels(Assembled(cache, groups, t).value) == multiset{cache[t]} + LabelsOf(Group(groups, cache[t].id.trace))
  {
    var key := cache[t].id.trace;
    var root := Types.Trace(cache[t], []);
    assert Labels(root) == multiset{cache[t]} + LabelsOf([]);
    AddChildrenKeepsLabels(root, Group(groups, key), |Group(groups, key)|, multiset{cache[t]} + LabelsOf(Group(groups, key)));
  }

  /** When the grouped children are leaves, each span of an assembled trace
      hangs under the span its parent id names. */
  lemma AssembledIsWellLinked(cache: map<ID, Span>, groups: map<ID, seq<Trace>>, t: ID)
    requires t in cache
    requires forall k :: 0 <= k < |Group(groups, cache[t].id.trace)| ==> Group(groups, cache[t].id.trace)[k].sub == []
    ensures Assembled(cache, groups, t).Ok? ==> WellLinked(Assembled(cache, groups, t).value)
  {
    var key := cache[t].id.trace;
    AddChildrenKeepsLinks(Types.Trace(cache[t], []), Group(groups, key), |Group(groups, key)|);
  }

  predicate DistinctIds(xs: seq<ID>)
  {
    forall i, j :: 0 <= i < j < |xs| ==> xs[i] != xs[j]
  }

  /** A visit of the set `keys` under way: `order` lists the keys visited,
      each once, and `rest` those still to visit. */
  ghost predicate Visiting(keys: set<ID>, order: seq<ID>, rest: set<ID>)
  {
    rest <= keys
    && (forall t :: t in keys ==> (t in order <==> t !in rest))
    && (forall t :: t in order ==> t in keys)
    && DistinctIds(order)
    && |order| + |rest| == |keys|
  }

  /** Visiting one more key of `rest`. */
  lemma VisitStep(keys: set<ID>, order: seq<ID>, rest: set<ID>, t: ID)
    requires Visiting(keys, order, rest) && t in rest
    ensures Visiting(keys, order + [t], rest - {t})
  {
  }

  /** The outcome of assembling every cached trace, visited in `order`:
      when all assemble, the listing is the assembled traces in that order,
      each cached trace once; otherwise it is the retry-limit error of one
      trace that did not assemble. */
  ghost predicate AssembledInOrder(cache: map<ID, Span>, groups: map<ID, seq<Trace>>, order: seq<ID>,
                                   r: Result<seq<Trace>>)
  {
    (r.Ok? ==> DistinctIds(order)
               && (forall t :: t in order <==> t in cache)
               && |r.value| == |order|
               && forall k :: 0 <= k < |order| ==> order[k] in cache && Assembled(cache, groups, order[k]) == Ok(r.value[k]))
    && (r.Err? ==> r.error == MaxRetries && exists t :: t in cache && Assembled(cache, groups, t).Err?)
  }

  /** The listing fails exactly when some cached trace does not assemble. */
  lemma ListingFailsIffSomeTraceFails(cache: map<ID, Span>, groups: map<ID, seq<Trace>>, order: seq<ID>,
                                      r: Result<seq<Trace>>)
    requires AssembledInOrder(cache, groups, order, r)
    ensures r.Err? <==> exists t :: t in cache && Assembled(cache, groups, t).Err?
  {
    if r.Ok? {
      forall t | t in cache
        ensures Assembled(cache, groups, t).Ok?
      {
        var k :| 0 <= k < |order| && order[k] == t;
      }
    }
  }

  /** The outcome of a listing, from the decoded root and child series. */
  ghost predicate ListingOutcome(rootDs: seq<Result<Span>>, childDs: seq<Result<Span>>, order: seq<ID>,
                                 r: Result<seq<Trace>>)
  {
    match RootCache(rootDs)
    case Err(e) => r == Err(e)
    case Ok(cache) =>
      match GroupChildren(childDs, cache)
      case Err(e) => r == Err(e)
      case Ok(groups) => AssembledInOrder(cache, groups, order, r)
  }

  /** Each cached root span sits under its own trace identifier. */
  lemma RootCacheKeyedByTrace(ds: seq<Result<Span>>)
    requires RootCache(ds).Ok?
    ensures KeyedByTrace(RootCache(ds).value)
  {
    RootCacheOk(ds);
    RootCacheHoldsSpans(ds);
    forall t | t in RootCache(ds).value
      ensures RootCache(ds).value[t].id.trace == t
    {
      var i :| 0 <= i < |ds| && ds[i].value.id.trace == t;
    }
  }

  /** Each trace of a successful listing is rooted at a decoded root span
      of its trace, holds that span and exactly the child spans of its
      trace, and hangs each child under the span its parent id names. */
  lemma ListedTraceHoldsItsSpans(rootDs: seq<Result<Span>>, childDs: seq<Result<Span>>, order: seq<ID>,
                                 r: Result<seq<Trace>>, k: int)
    requires ListingOutcome(rootDs, childDs, order, r) && r.Ok? && 0 <= k < |r.value|
    ensures AllOk(rootDs) && AllOk(childDs)
    ensures r.value[k].span in SpansOf(rootDs) && r.value[k].span.id.trace == order[k]
    ensures Labels(r.value[k]) == multiset{r.value[k].span} + LabelsOf(LeavesOfTrace(SpansOf(childDs), order[k]))
    ensures WellLinked(r.value[k])
  {
    var cache := RootCache(rootDs).value;
    var groups := GroupChildren(childDs, cache).value;
    var t := order[k];
    RootCacheOk(rootDs);
    RootCacheHoldsSpans(rootDs);
    RootCacheKeyedByTrace(rootDs);
    GroupChildrenGroups(childDs, cache, t);
    assert t in cache && Assembled(cache, groups, t) == Ok(r.value[k]);
    AssembledKeepsRoot(cache, groups, t);
    AssembledHoldsGroup(cache, groups, t);
    AssembledIsWellLinked(cache, groups, t);
    var i :| 0 <= i < |rootDs| && rootDs[i].value.id.trace == t;
    assert SpansOf(rootDs)[i] == cache[t];
  }

  /** The first loop of a listing: decodes each root series and caches its
      span under its trace identifier. */
  method CacheRoots(rootSeries: seq<Row>) returns (r: Result<map<ID, Span>>)
    requires AllDecodable(rootSeries)
    ensures r == RootCache(DecodeAll(rootSeries))
  {
    ghost var ds := DecodeAll(rootSeries);
    var cache: map<ID, Span> := map[];
    for i := 0 to |rootSeries|
      invariant RootCache(ds[..i]) == Ok(cache)
    {
      var span := NewSpanFromRow(rootSeries[i]);
      DecodeAllAt(rootSeries, i);
      RootCacheNext(ds, i, cache);
      if span.Err? {
        RootCacheFailsAt(ds, i + 1);
        return Err(span.error);
      }
      if span.value.id.trace !in cache {
        cache := cache[span.value.id.trace := span.value];
      } else {
        RootCacheFailsAt(ds, i + 1);
        return Err(DuplicatedRootSpan);
      }
    }
    assert ds[..|rootSeries|] == ds;
    r := Ok(cache);
  }

  /** The second loop of a listing: decodes each child series and appends
      its leaf to the group of its cached trace. */
  method GroupChildSpans(childSeries: seq<Row>, cache: map<ID, Span>) returns (r: Result<map<ID, seq<Trace>>>)
    requires AllDecodable(childSeries)
    ensures r == GroupChildren(DecodeAll(childSeries), cache)
  {
    ghost var ds := DecodeAll(childSeries);
    var children: map<ID, seq<Trace>> := map[];
    for i := 0 to |childSeries|
      invariant GroupChildren(ds[..i], cache) == Ok(children)
    {
      var span := NewSpanFromRow(childSeries[i]);
      DecodeAllAt(childSeries, i);
      GroupChildrenNext(ds, i, cache, children);
      if span.Err? {
        GroupChildrenFailsAt(ds, cache, i + 1);
        return Err(span.error);
      }
      if span.value.id.trace !in cache {
        GroupChildrenFailsAt(ds, cache, i + 1);
        return Err(ParentNotFound);
      }
      var key := cache[span.value.id.trace].id.trace;
      var child := Types.Trace(span.value, []);
      if key !in children {
        assert Group(children, key) + [child] == [child];
        children := children[key := [child]];
      } else {
        children := children[key := children[key] + [child]];
      }
    }
    assert ds[..|childSeries|] == ds;
    r := Ok(children);
  }

  /** The last loop of a listing: assembles each cached trace, visiting the
      cache in whatever order the map yields (returned as `order`), and
      stops at the first trace that does not assemble. */
  method AssembleAll(cache: map<ID, Span>, children: map<ID, seq<Trace>>)
    returns (r: Result<seq<Trace>>, ghost order: seq<ID>)
    ensures AssembledInOrder(cache, children, order, r)
  {
    order := [];
    var traces: seq<Trace> := [];
    var rest := cache.Keys;
    while rest != {}
      invariant Visiting(cache.Keys, order, rest)
      invariant |traces| == |order|
      invariant forall k :: 0 <= k < |order| ==> Assembled(cache, children, order[k]) == Ok(traces[k])
      decreases |rest|
    {
      var t :| t in rest;
      var trace := Types.Trace(cache[t], []);
      var key := cache[t].id.trace;
      if key in children {
        var assembled := AddChildren(trace, children[key]);
        if assembled.Err? {
          AddChildrenKeepsRoot(trace, children[key], |children[key]|);
          return Err(assembled.error), order;
        }
        trace := assembled.value;
      }
      traces := traces + [trace];
      VisitStep(cache.Keys, order, rest, t);
      order := order + [t];
      rest := rest - {t};
    }
    r := Ok(traces);
  }

  /** Lists the traces of a page from the root series and the child series
      the two queries returned: no root series is an empty listing. The
      child query's WHERE clause, built by WhereClause, is not issued here:
      its answer is the parameter `childSeries`. */
  method LoadTraces(rootSeries: seq<Row>, childSeries: seq<Row>) returns (r: Result<seq<Trace>>, ghost order: seq<ID>)
    requires AllDecodable(rootSeries) && AllDecodable(childSeries)
    ensures |rootSeries| == 0 ==> r == Ok([])
    ensures |rootSeries| > 0 ==> ListingOutcome(DecodeAll(rootSeries), DecodeAll(childSeries), order, r)
  {
    order := [];
    if |rootSeries| == 0 {
      return Ok([]), order;
    }
    var cache := CacheRoots(rootSeries);
    if cache.Err? {
      return Err(cache.error), order;
    }
    var children := GroupChildSpans(childSeries, cache.value);
    if children.Err? {
      return Err(children.error), order;
    }
    r, order := AssembleAll(cache.value, children.value);
  }

  /** The text of one child-span condition: spans of trace `t` that are
      not roots. */
  function ChildClause(t: ID, idText: ID -> string): string
  {
    "(trace_id='" + idText(t) + "' AND parent_id!='" + idText(ZeroID) + "')"
  }

  /** The conditions for the cached traces `ts`, each naming the trace of
      its cached root span. */
  function ChildClauses(cache: map<ID, Span>, ts: seq<ID>, idText: ID -> string): (cs: seq<string>)
    requires forall t :: t in ts ==> t in cache
    ensures |cs| == |ts|
    ensures forall k :: 0 <= k < |ts| ==> cs[k] == ChildClause(cache[ts[k]].id.trace, idText)
  {
    if |ts| == 0 then []
    else
      var n := |ts| - 1;
      ChildClauses(cache, ts[..n], idText) + [ChildClause(cache[ts[n]].id.trace, idText)]
  }

  const OrSeparator: string := " OR "

  /** The WHERE clause of the child-span query once the conditions
      `clauses` of `n` are written: joined by OR, with a trailing OR while
      more follow. */
  function PartialWhere(clauses: seq<string>, n: nat): string
  {
    "WHERE " + (if |clauses| == 0 then "" else Join(clauses, OrSeparator) + (if |clauses| < n then OrSeparator else ""))
  }

  /** Writing one more condition appends it, and an OR unless it is the
      last. */
  lemma PartialWhereStep(clauses: seq<string>, c: string, n: nat)
    requires |clauses| < n
    ensures PartialWhere(clauses + [c], n)
            == PartialWhere(clauses, n) + c + (if |clauses| + 1 != n && n > 1 then OrSeparator else "")
  {
    if |clauses| > 0 {
      JoinSnoc(clauses, c, OrSeparator);
    } else {
      assert [] + [c] == [c];
    }
  }

  /** Builds the WHERE clause of the child-span query: one condition per
      cached trace, in whatever order the cache is visited (returned as
      `order`), separated by OR. */
  method WhereClause(cache: map<ID, Span>, idText: ID -> string) returns (w: string, ghost order: seq<ID>)
    ensures DistinctIds(order) && forall t :: t in order <==> t in cache
    ensures w == "WHERE " + Join(ChildClauses(cache, order, idText), OrSeparator)
  {
    w := "WHERE ";
    order := [];
    ghost var clauses: seq<string> := [];
    var n := |cache.Keys|;
    var rest := cache.Keys;
    var i := 1;
    while rest != {}
      invariant Visiting(cache.Keys, order, rest)
      invariant i == |order| + 1
      invariant clauses == ChildClauses(cache, order, idText)
      invariant w == PartialWhere(clauses, n)
      decreases |rest|
    {
      var t :| t in rest;
      var c := ChildClause(cache[t].id.trace, idText);
      PartialWhereStep(clauses, c, n);
      // An OR follows every condition but the last.
      w := w + c + (if i != n && n > 1 then OrSeparator else "");
      i := i + 1;
      assert (order + [t])[..|order|] == order;
      VisitStep(cache.Keys, order, rest, t);
      order := order + [t];
      clauses := clauses + [c];
      rest := rest - {t};
    }
  }
}
