/** Trace tree assembly: finding a child's parent in a growing tree and the
    bounded, repeated passes that attach a flat list of child spans under
    their parents. A node of the tree is addressed by the path of sub-trace
    indices that leads to it from the root. */
module TraceTree {
  import opened Types

  type Path = seq<nat>

  predicate ValidPath(t: Trace, p: Path)
    decreases p
  {
    |p| == 0 || (p[0] < |t.sub| && ValidPath(t.sub[p[0]], p[1..]))
  }

  function NodeAt(t: Trace, p: Path): Trace
    requires ValidPath(t, p)
    decreases p
  {
    if |p| == 0 then t else NodeAt(t.sub[p[0]], p[1..])
  }

  /** The span identifiers of the nodes of a tree. */
  function Ids(t: Trace): set<ID>
    decreases t, 1
  {
    {t.span.id.span} + IdsOf(t.sub)
  }

  function IdsOf(ts: seq<Trace>): set<ID>
    decreases ts, 0
  {
    if |ts| == 0 then {} else Ids(ts[0]) + IdsOf(ts[1..])
  }

  /** The spans of the nodes of a tree, with multiplicity. */
  function Labels(t: Trace): multiset<Span>
    decreases t, 1
  {
    multiset{t.span} + LabelsOf(t.sub)
  }

  function LabelsOf(ts: seq<Trace>): multiset<Span>
    decreases ts, 0
  {
    if |ts| == 0 then multiset{} else Labels(ts[0]) + LabelsOf(ts[1..])
  }

  /** Every sub-trace hangs under a node whose span id is its parent id. */
  predicate WellLinked(t: Trace)
    decreases t
  {
    forall i :: 0 <= i < |t.sub| ==> t.sub[i].span.id.parent == t.span.id.span && WellLinked(t.sub[i])
  }

  predicate AllWellLinked(ts: seq<Trace>)
  {
    forall i :: 0 <= i < |ts| ==> WellLinked(ts[i])
  }

  lemma {:induction false} IdsOfConcat(a: seq<Trace>, b: seq<Trace>)
    ensures IdsOf(a + b) == IdsOf(a) + IdsOf(b)
    decreases |a|
  {
    if |a| == 0 {
      assert a + b == b;
    } else {
      IdsOfConcat(a[1..], b);
      assert (a + b)[0] == a[0];
      assert (a + b)[1..] == a[1..] + b;
    }
  }

  lemma UnionAssoc(x: multiset<Span>, y: multiset<Span>, z: multiset<Span>)
    ensures x + (y + z) == (x + y) + z
  {
  }

  /** The spans of a non-empty sequence of trees: those of the first tree
      and those of the rest. */
  lemma LabelsOfCons(a: seq<Trace>, b: seq<Trace>)
    requires |a| > 0
    ensures LabelsOf(a) == Labels(a[0]) + LabelsOf(a[1..])
    ensures LabelsOf(a + b) == Labels(a[0]) + LabelsOf(a[1..] + b)
  {
    assert (a + b)[0] == a[0];
    assert (a + b)[1..] == a[1..] + b;
  }

  lemma {:induction false} LabelsOfConcat(a: seq<Trace>, b: seq<Trace>)
    ensures LabelsOf(a + b) == LabelsOf(a) + LabelsOf(b)
    decreases |a|
  {
    if |a| == 0 {
      assert a + b == b;
    } else {
      LabelsOfConcat(a[1..], b);
      LabelsOfCons(a, b);
      UnionAssoc(Labels(a[0]), LabelsOf(a[1..]), LabelsOf(b));
    }
  }

  /** Replacing one sub-tree by one that has `extra` more ids adds exactly
      those to the whole sequence. */
  lemma {:induction false} IdsOfUpdate(ts: seq<Trace>, i: nat, x: Trace, extra: set<ID>)
    requires i < |ts|
    requires Ids(x) == Ids(ts[i]) + extra
    ensures IdsOf(ts[i := x]) == IdsOf(ts) + extra
    decreases |ts|
  {
    if i > 0 {
      IdsOfUpdate(ts[1..], i - 1, x, extra);
      assert ts[i := x][1..] == ts[1..][i - 1 := x];
    } else {
      assert ts[i := x][1..] == ts[1..];
    }
  }

  /** The same for spans. */
  lemma {:induction false} LabelsOfUpdate(ts: seq<Trace>, i: nat, x: Trace, more: multiset<Span>)
    requires i < |ts|
    requires Labels(x) == Labels(ts[i]) + more
    ensures LabelsOf(ts[i := x]) == LabelsOf(ts) + more
    decreases |ts|
  {
    if i > 0 {
      LabelsOfUpdate(ts[1..], i - 1, x, more);
      assert ts[i := x][1..] == ts[1..][i - 1 := x];
    } else {
      assert ts[i := x][1..] == ts[1..];
    }
  }

  /** The tree with `c` appended to the sub-traces of the node at `p`. */
  function Attach(t: Trace, p: Path, c: Trace): (r: Trace)
    requires ValidPath(t, p)
    ensures r.span == t.span
    ensures ValidPath(r, p)
    ensures NodeAt(r, p).span == NodeAt(t, p).span
    ensures NodeAt(r, p).sub == NodeAt(t, p).sub + [c]
    decreases p
  {
    if |p| == 0 then Trace(t.span, t.sub + [c])
    else Trace(t.span, t.sub[p[0] := Attach(t.sub[p[0]], p[1..], c)])
  }

  /** Attaching a child adds exactly its ids to the tree. */
  lemma {:induction false} AttachIds(t: Trace, p: Path, c: Trace)
    requires ValidPath(t, p)
    ensures Ids(Attach(t, p, c)) == Ids(t) + Ids(c)
    decreases p
  {
    if |p| == 0 {
      IdsOfConcat(t.sub, [c]);
      assert IdsOf([c]) == Ids(c) by { assert [c][1..] == []; }
    } else {
      var i := p[0];
      AttachIds(t.sub[i], p[1..], c);
      IdsOfUpdate(t.sub, i, Attach(t.sub[i], p[1..], c), Ids(c));
    }
  }

  /** Attaching a child adds exactly its spans to the tree. */
  lemma {:induction false} AttachLabels(t: Trace, p: Path, c: Trace)
    requires ValidPath(t, p)
    ensures Labels(Attach(t, p, c)) == Labels(t) + Labels(c)
    decreases p
  {
    var r := Attach(t, p, c);
    if |p| == 0 {
      LabelsOfConcat(t.sub, [c]);
      assert LabelsOf([c]) == Labels(c) by { assert [c][1..] == []; }
      calc {
        Labels(r);
        multiset{t.span} + LabelsOf(t.sub + [c]);
        multiset{t.span} + (LabelsOf(t.sub) + Labels(c));
        (multiset{t.span} + LabelsOf(t.sub)) + Labels(c);
      }
    } else {
      var i := p[0];
      AttachLabels(t.sub[i], p[1..], c);
      LabelsOfUpdate(t.sub, i, Attach(t.sub[i], p[1..], c), Labels(c));
      calc {
        Labels(r);
        multiset{t.span} + LabelsOf(t.sub[i := Attach(t.sub[i], p[1..], c)]);
        multiset{t.span} + (LabelsOf(t.sub) + Labels(c));
        (multiset{t.span} + LabelsOf(t.sub)) + Labels(c);
      }
    }
  }

  /** Attaching a well-linked child under the node its parent id names keeps
      the tree well linked. */
  lemma {:induction false} AttachWellLinked(t: Trace, p: Path, c: Trace)
    requires ValidPath(t, p)
    requires WellLinked(t) && WellLinked(c) && c.span.id.parent == NodeAt(t, p).span.id.span
    ensures WellLinked(Attach(t, p, c))
    decreases p
  {
    var r := Attach(t, p, c);
    if |p| == 0 {
      assert forall j :: 0 <= j < |r.sub| ==> r.sub[j] == if j < |t.sub| then t.sub[j] else c;
    } else {
      var i := p[0];
      AttachWellLinked(t.sub[i], p[1..], c);
      assert forall j :: 0 <= j < |r.sub| && j != i ==> r.sub[j] == t.sub[j];
    }
  }

  /** Attaching under the node at `p` leaves every node off that path as it
      was, at the same path. */
  lemma {:induction false} AttachKeepsNode(t: Trace, p: Path, c: Trace, q: Path)
    requires ValidPath(t, p) && ValidPath(t, q) && !(q <= p)
    ensures ValidPath(Attach(t, p, c), q) && NodeAt(Attach(t, p, c), q) == NodeAt(t, q)
    decreases p
  {
    var r := Attach(t, p, c);
    if |p| > 0 && q[0] == p[0] {
      assert !(q[1..] <= p[1..]);
      AttachKeepsNode(t.sub[p[0]], p[1..], c, q[1..]);
    } else {
      assert r.sub[q[0]] == t.sub[q[0]];
    }
  }

  lemma {:induction false} AttachKeepsOthers(t: Trace, p: Path, c: Trace)
    requires ValidPath(t, p)
    ensures forall q :: ValidPath(t, q) && !(q <= p) ==>
              ValidPath(Attach(t, p, c), q) && NodeAt(Attach(t, p, c), q) == NodeAt(t, q)
  {
    forall q | ValidPath(t, q) && !(q <= p)
      ensures ValidPath(Attach(t, p, c), q) && NodeAt(Attach(t, p, c), q) == NodeAt(t, q)
    {
      AttachKeepsNode(t, p, c, q);
    }
  }

  /** The ancestors of the node at `p` keep their spans. */
  lemma {:induction false} AttachKeepsAncestor(t: Trace, p: Path, c: Trace, q: Path)
    requires ValidPath(t, p) && q <= p
    ensures ValidPath(t, q) && ValidPath(Attach(t, p, c), q)
    ensures NodeAt(Attach(t, p, c), q).span == NodeAt(t, q).span
    decreases p
  {
    if |q| > 0 {
      assert q[1..] <= p[1..];
      AttachKeepsAncestor(t.sub[p[0]], p[1..], c, q[1..]);
    }
  }

  /** Path `q` comes before path `p` in pre-order: `q` leads to an
      ancestor of the node at `p`, or branches off to an earlier sub-trace. */
  predicate Before(q: Path, p: Path)
    decreases |q|
  {
    |p| > 0 && (|q| == 0 || q[0] < p[0] || (q[0] == p[0] && Before(q[1..], p[1..])))
  }

  /** Every node of a tree contributes its span id to the tree's ids. */
  lemma {:induction false} NodeInIds(t: Trace, q: Path)
    requires ValidPath(t, q)
    ensures NodeAt(t, q).span.id.span in Ids(t)
    decreases q
  {
    if |q| > 0 {
      NodeInIds(t.sub[q[0]], q[1..]);
      SubIdsInIds(t.sub, q[0]);
    }
  }

  lemma {:induction false} SubIdsInIds(ts: seq<Trace>, k: nat)
    requires k < |ts|
    ensures Ids(ts[k]) <= IdsOf(ts)
    decreases k
  {
    if k > 0 {
      SubIdsInIds(ts[1..], k - 1);
    }
  }

  /** The pre-order search for the node whose span id is `pid`: the node
      itself first, then each sub-trace in turn. */
  function WalkToParent(t: Trace, pid: ID): (r: Option<Path>)
    ensures t.span.id.span == pid ==> r == Some([])
    ensures r.Some? ==> ValidPath(t, r.value) && NodeAt(t, r.value).span.id.span == pid
    ensures r.None? <==> pid !in Ids(t)
    decreases t, 1
  {
    if t.span.id.span == pid then Some([]) else WalkSubs(t, pid, 0)
  }

  /** The loop of the search over the sub-traces of `t` from index `i` on. */
  function WalkSubs(t: Trace, pid: ID, i: nat): (r: Option<Path>)
    requires i <= |t.sub|
    ensures r.Some? ==> ValidPath(t, r.value) && |r.value| > 0 && i <= r.value[0]
                        && NodeAt(t, r.value).span.id.span == pid
    ensures r.None? <==> pid !in IdsOf(t.sub[i..])
    decreases t, 0, |t.sub| - i
  {
    if i == |t.sub| then None
    else
      var sub := t.sub[i];
      assert t.sub[i..][1..] == t.sub[i + 1..];
      if sub.span.id.span == pid then Some([i])
      else
        match WalkToParent(sub, pid)
        case Some(p) =>
          assert ([i] + p)[1..] == p;
          Some([i] + p)
        case None => WalkSubs(t, pid, i + 1)
  }

  /** The node of `root` under which `child` belongs: the first node in
      pre-order whose span id is the child's parent id, or none when no
      node of the tree has it. */
  function FindTraceParent(root: Trace, child: Trace): (r: Option<Path>)
    ensures root.span.id.span == child.span.id.parent ==> r == Some([])
    ensures r.Some? ==> ValidPath(root, r.value) && NodeAt(root, r.value).span.id.span == child.span.id.parent
    ensures r.None? <==> child.span.id.parent !in Ids(root)
  {
    WalkToParent(root, child.span.id.parent)
  }

  /** No node before the one `WalkToParent` finds, in pre-order, has span
      id `pid`. */
  lemma {:induction false} WalkToParentFirst(t: Trace, pid: ID, q: Path)
    requires WalkToParent(t, pid).Some?
    requires ValidPath(t, q) && Before(q, WalkToParent(t, pid).value)
    ensures NodeAt(t, q).span.id.span != pid
    decreases t, 1
  {
    if t.span.id.span != pid && |q| > 0 {
      WalkSubsFirst(t, pid, 0, q);
    }
  }

  /** No node of the sub-traces from index `i` on that comes before the one
      `WalkSubs` finds, in pre-order, has span id `pid`. */
  lemma {:induction false} WalkSubsFirst(t: Trace, pid: ID, i: nat, q: Path)
    requires i <= |t.sub| && WalkSubs(t, pid, i).Some?
    requires ValidPath(t, q) && |q| > 0 && i <= q[0] && Before(q, WalkSubs(t, pid, i).value)
    ensures NodeAt(t, q).span.id.span != pid
    decreases t, 0, |t.sub| - i
  {
    var sub := t.sub[i];
    if sub.span.id.span != pid {
      match WalkToParent(sub, pid)
      case Some(p) =>
        assert ([i] + p)[1..] == p;
        WalkToParentFirst(sub, pid, q[1..]);
      case None =>
        if q[0] == i {
          NodeInIds(sub, q[1..]);
        } else {
          WalkSubsFirst(t, pid, i + 1, q);
        }
    }
  }

  /** The node `FindTraceParent` returns is the first in pre-order whose
      span id is the child's parent id. */
  lemma FindTraceParentFirst(root: Trace, child: Trace, q: Path)
    requires FindTraceParent(root, child).Some?
    requires ValidPath(root, q) && Before(q, FindTraceParent(root, child).value)
    ensures NodeAt(root, q).span.id.span != child.span.id.parent
  {
    WalkToParentFirst(root, child.span.id.parent, q);
  }

  /** One pass over the pending children from index `i - 1` down to 0: a
      child whose parent is in the tree is appended under it and leaves the
      pending list. Returns the tree and the children still pending. */
  function AttachPass(root: Trace, cs: seq<Trace>, i: nat): (Trace, seq<Trace>)
    requires i <= |cs|
    decreases i
  {
    if i == 0 then (root, cs)
    else
      var c := cs[i - 1];
      match FindTraceParent(root, c)
      case Some(p) => AttachPass(Attach(root, p, c), cs[..i - 1] + cs[i..], i - 1)
      case None => AttachPass(root, cs, i - 1)
  }

  /** Repeated passes until no child is pending, allowing at most `left`
      more passes. */
  function AddChildrenSpec(root: Trace, cs: seq<Trace>, left: nat): Result<Trace>
    decreases left
  {
    if |cs| == 0 then Ok(root)
    else if left == 0 then Err(MaxRetries)
    else
      var next := AttachPass(root, cs, |cs|);
      AddChildrenSpec(next.0, next.1, left - 1)
  }

  /** Attaches `children` under `root`: passes over the pending children in
      reverse order, at most as many passes as there are children. */
  method AddChildren(root: Trace, children: seq<Trace>) returns (r: Result<Trace>)
    ensures children == [] ==> r == Ok(root)
    ensures r == AddChildrenSpec(root, children, |children|)
  {
    var retries := |children|;
    var try := 0;
    var t := root;
    var cs := children;
    while |cs| != 0
      invariant 0 <= try <= retries
      invariant AddChildrenSpec(t, cs, retries - try) == AddChildrenSpec(root, children, retries)
      decreases retries - try
    {
      if try == retries {
        return Err(MaxRetries);
      }
      ghost var t0, cs0 := t, cs;
      var i := |cs| - 1;
      while i >= 0
        invariant -1 <= i < |cs|
        invariant AttachPass(t, cs, i + 1) == AttachPass(t0, cs0, |cs0|)
        decreases i
      {
        var child := cs[i];
        var p := FindTraceParent(t, child);
        if p.Some? {
          t := Attach(t, p.value, child);
          cs := cs[..i] + cs[i + 1..];
        }
        i := i - 1;
      }
      try := try + 1;
    }
    r := Ok(t);
  }

  /** Removing the pending child at index `k` takes exactly its spans out
      of the pending list. */
  lemma RemoveOne(cs: seq<Trace>, k: nat)
    requires k < |cs|
    ensures LabelsOf(cs) == LabelsOf(cs[..k] + cs[k + 1..]) + Labels(cs[k])
  {
    var a, c, b := cs[..k], cs[k], cs[k + 1..];
    SplitAt(cs, k);
    LabelsOfConcat(a, [c] + b);
    LabelsOfPrepend(c, b);
    LabelsOfConcat(a, b);
    MultisetShift(LabelsOf(a), LabelsOf(b), Labels(c));
  }

  lemma SplitAt(cs: seq<Trace>, k: nat)
    requires k < |cs|
    ensures cs == cs[..k] + ([cs[k]] + cs[k + 1..])
  {
  }

  lemma LabelsOfPrepend(c: Trace, b: seq<Trace>)
    ensures LabelsOf([c] + b) == Labels(c) + LabelsOf(b)
  {
    assert ([c] + b)[1..] == b;
  }

  /** Removing a pending child keeps the rest well linked. */
  lemma RemoveOneLinks(cs: seq<Trace>, k: nat)
    requires k < |cs| && AllWellLinked(cs)
    ensures AllWellLinked(cs[..k] + cs[k + 1..])
  {
    RemoveOneMembers(cs, k);
    var rest := cs[..k] + cs[k + 1..];
    forall j | 0 <= j < |rest|
      ensures WellLinked(rest[j])
    {
      assert rest[j] in cs;
    }
  }

  /** Removing the pending child at index `k` keeps every other pending
      child and adds none. */
  lemma RemoveOneMembers(cs: seq<Trace>, k: nat)
    requires k < |cs|
    ensures forall x :: x in cs[..k] + cs[k + 1..] ==> x in cs
    ensures forall x :: x in cs && x != cs[k] ==> x in cs[..k] + cs[k + 1..]
  {
    assert cs == cs[..k] + [cs[k]] + cs[k + 1..];
  }

  lemma MultisetShift(a: multiset<Span>, b: multiset<Span>, c: multiset<Span>)
    ensures a + (c + b) == (a + b) + c
  {
  }

  lemma MultisetMove(x: multiset<Span>, r': multiset<Span>, t: multiset<Span>, r: multiset<Span>,
                     c: multiset<Span>, s: multiset<Span>)
    requires x == r' + t && r' == r + c && s == t + c
    ensures x == r + s
  {
  }

  /** One step of a pass: the child at index `i - 1` is attached, or left
      pending. */
  lemma PassStep(root: Trace, cs: seq<Trace>, i: nat)
    requires 0 < i <= |cs|
    ensures FindTraceParent(root, cs[i - 1]).Some? ==>
              AttachPass(root, cs, i)
              == AttachPass(Attach(root, FindTraceParent(root, cs[i - 1]).value, cs[i - 1]), cs[..i - 1] + cs[i..], i - 1)
    ensures FindTraceParent(root, cs[i - 1]).None? ==> AttachPass(root, cs, i) == AttachPass(root, cs, i - 1)
  {
  }

  /** A pass keeps the root's span. */
  lemma {:induction false} PassKeepsRoot(root: Trace, cs: seq<Trace>, i: nat)
    requires i <= |cs|
    ensures AttachPass(root, cs, i).0.span == root.span
    decreases i
  {
    if i > 0 {
      PassStep(root, cs, i);
      var c := cs[i - 1];
      match FindTraceParent(root, c)
      case Some(p) => PassKeepsRoot(Attach(root, p, c), cs[..i - 1] + cs[i..], i - 1);
      case None => PassKeepsRoot(root, cs, i - 1);
    }
  }

  /** A pass moves children from the pending list into the tree without
      losing or duplicating a span. */
  lemma {:induction false} PassKeepsLabels(root: Trace, cs: seq<Trace>, i: nat)
    requires i <= |cs|
    ensures Labels(AttachPass(root, cs, i).0) + LabelsOf(AttachPass(root, cs, i).1)
            == Labels(root) + LabelsOf(cs)
    decreases i
  {
    if i > 0 {
      PassStep(root, cs, i);
      var c := cs[i - 1];
      var rest := cs[..i - 1] + cs[i..];
      match FindTraceParent(root, c)
      case Some(p) =>
        var root' := Attach(root, p, c);
        PassKeepsLabels(root', rest, i - 1);
        AttachLabels(root, p, c);
        RemoveOne(cs, i - 1);
        var next := AttachPass(root', rest, i - 1);
        MultisetMove(Labels(next.0) + LabelsOf(next.1), Labels(root'), LabelsOf(rest),
                     Labels(root), Labels(c), LabelsOf(cs));
      case None =>
        PassKeepsLabels(root, cs, i - 1);
    }
  }

  /** A pass keeps the tree and the pending children well linked. */
  lemma {:induction false} PassKeepsLinks(root: Trace, cs: seq<Trace>, i: nat)
    requires i <= |cs|
    requires WellLinked(root) && AllWellLinked(cs)
    ensures WellLinked(AttachPass(root, cs, i).0) && AllWellLinked(AttachPass(root, cs, i).1)
    decreases i
  {
    if i > 0 {
      PassStep(root, cs, i);
      var c := cs[i - 1];
      match FindTraceParent(root, c)
      case Some(p) =>
        AttachWellLinked(root, p, c);
        RemoveOneLinks(cs, i - 1);
        PassKeepsLinks(Attach(root, p, c), cs[..i - 1] + cs[i..], i - 1);
      case None =>
        PassKeepsLinks(root, cs, i - 1);
    }
  }

  /** A pass only grows the tree's ids. */
  lemma {:induction false} PassGrows(root: Trace, cs: seq<Trace>, i: nat)
    requires i <= |cs|
    ensures Ids(root) <= Ids(AttachPass(root, cs, i).0)
    decreases i
  {
    if i > 0 {
      PassStep(root, cs, i);
      var c := cs[i - 1];
      match FindTraceParent(root, c)
      case Some(p) =>
        AttachIds(root, p, c);
        PassGrows(Attach(root, p, c), cs[..i - 1] + cs[i..], i - 1);
      case None =>
        PassGrows(root, cs, i - 1);
    }
  }

  /** A pass only shrinks the pending list. */
  lemma {:induction false} PassPendingFromList(root: Trace, cs: seq<Trace>, i: nat)
    requires i <= |cs|
    ensures forall x :: x in AttachPass(root, cs, i).1 ==> x in cs
    decreases i
  {
    if i > 0 {
      PassStep(root, cs, i);
      var c := cs[i - 1];
      match FindTraceParent(root, c)
      case Some(p) =>
        RemoveOneMembers(cs, i - 1);
        PassPendingFromList(Attach(root, p, c), cs[..i - 1] + cs[i..], i - 1);
      case None =>
        PassPendingFromList(root, cs, i - 1);
    }
  }

  /** Every child a pass takes off the pending list has its span id in the
      tree. */
  lemma {:induction false} PassAttachedOrPending(root: Trace, cs: seq<Trace>, i: nat)
    requires i <= |cs|
    ensures forall x :: x in cs ==> x in AttachPass(root, cs, i).1 || x.span.id.span in Ids(AttachPass(root, cs, i).0)
    decreases i
  {
    if i > 0 {
      PassStep(root, cs, i);
      var c := cs[i - 1];
      match FindTraceParent(root, c)
      case Some(p) =>
        var root' := Attach(root, p, c);
        var rest := cs[..i - 1] + cs[i..];
        AttachIds(root, p, c);
        RemoveOneMembers(cs, i - 1);
        PassGrows(root', rest, i - 1);
        PassAttachedOrPending(root', rest, i - 1);
        assert c.span.id.span in Ids(c);
      case None =>
        PassAttachedOrPending(root, cs, i - 1);
    }
  }

  /** Every child among the first `i` that a pass leaves pending has a
      parent id the tree did not hold when the pass began. */
  lemma {:induction false} PassLeftovers(root: Trace, cs: seq<Trace>, i: nat)
    requires i <= |cs|
    ensures |AttachPass(root, cs, i).1| >= |cs| - i
    ensures forall j :: 0 <= j < |AttachPass(root, cs, i).1| - (|cs| - i) ==>
              AttachPass(root, cs, i).1[j].span.id.parent !in Ids(root)
    decreases i
  {
    PassSuffix(root, cs, i);
    if i > 0 {
      PassStep(root, cs, i);
      var c := cs[i - 1];
      match FindTraceParent(root, c)
      case Some(p) =>
        AttachIds(root, p, c);
        PassLeftovers(Attach(root, p, c), cs[..i - 1] + cs[i..], i - 1);
      case None =>
        PassLeftovers(root, cs, i - 1);
        PassSuffix(root, cs, i - 1);
        var rest := AttachPass(root, cs, i - 1).1;
        assert rest[|rest| - (|cs| - (i - 1))] == cs[i - 1];
    }
  }

  /** A pass leaves the children after index `i` pending, at the end of the
      list. */
  lemma {:induction false} PassSuffix(root: Trace, cs: seq<Trace>, i: nat)
    requires i <= |cs|
    ensures |AttachPass(root, cs, i).1| >= |cs| - i
    ensures AttachPass(root, cs, i).1[|AttachPass(root, cs, i).1| - (|cs| - i)..] == cs[i..]
    decreases i
  {
    if i > 0 {
      PassStep(root, cs, i);
      var c := cs[i - 1];
      var smaller := cs[..i - 1] + cs[i..];
      match FindTraceParent(root, c)
      case Some(p) =>
        PassSuffix(Attach(root, p, c), smaller, i - 1);
        assert smaller[i - 1..] == cs[i..];
      case None =>
        PassSuffix(root, cs, i - 1);
        var rest := AttachPass(root, cs, i - 1).1;
        assert rest[|rest| - (|cs| - i)..] == rest[|rest| - (|cs| - (i - 1))..][1..];
    }
  }

  /** A successful assembly keeps the root's span, holds every span of the
      root and of the children exactly once, and is well linked when its
      inputs are: each child hangs under a node whose span id is its parent
      id. */
  lemma AddChildrenPreserves(root: Trace, cs: seq<Trace>, left: nat)
    ensures AddChildrenSpec(root, cs, left).Err? ==> AddChildrenSpec(root, cs, left).error == MaxRetries
    ensures AddChildrenSpec(root, cs, left).Ok? ==> AddChildrenSpec(root, cs, left).value.span == root.span
    ensures AddChildrenSpec(root, cs, left).Ok? ==>
              Labels(AddChildrenSpec(root, cs, left).value) == Labels(root) + LabelsOf(cs)
    ensures AddChildrenSpec(root, cs, left).Ok? && WellLinked(root) && AllWellLinked(cs) ==>
              WellLinked(AddChildrenSpec(root, cs, left).value)
  {
    AddChildrenKeepsRoot(root, cs, left);
    AddChildrenKeepsLabels(root, cs, left, Labels(root) + LabelsOf(cs));
    if WellLinked(root) && AllWellLinked(cs) {
      AddChildrenKeepsLinks(root, cs, left);
    }
  }

  lemma {:induction false} AddChildrenKeepsRoot(root: Trace, cs: seq<Trace>, left: nat)
    ensures AddChildrenSpec(root, cs, left).Err? ==> AddChildrenSpec(root, cs, left).error == MaxRetries
    ensures AddChildrenSpec(root, cs, left).Ok? ==> AddChildrenSpec(root, cs, left).value.span == root.span
    decreases left
  {
    if |cs| > 0 && left > 0 {
      PassKeepsRoot(root, cs, |cs|);
      var next := AttachPass(root, cs, |cs|);
      AddChildrenKeepsRoot(next.0, next.1, left - 1);
    }
  }

  lemma {:induction false} AddChildrenKeepsLabels(root: Trace, cs: seq<Trace>, left: nat, m: multiset<Span>)
    requires Labels(root) + LabelsOf(cs) == m
    ensures AddChildrenSpec(root, cs, left).Ok? ==> Labels(AddChildrenSpec(root, cs, left).value) == m
    decreases left
  {
    if |cs| == 0 {
      assert LabelsOf(cs) == multiset{};
    } else if left > 0 {
      var next := AttachPass(root, cs, |cs|);
      PassKeepsLabels(root, cs, |cs|);
      AddChildrenKeepsLabels(next.0, next.1, left - 1, m);
    }
  }

  lemma {:induction false} AddChildrenKeepsLinks(root: Trace, cs: seq<Trace>, left: nat)
    requires WellLinked(root) && AllWellLinked(cs)
    ensures AddChildrenSpec(root, cs, left).Ok? ==> WellLinked(AddChildrenSpec(root, cs, left).value)
    decreases left
  {
    if |cs| > 0 && left > 0 {
      PassKeepsLinks(root, cs, |cs|);
      var next := AttachPass(root, cs, |cs|);
      AddChildrenKeepsLinks(next.0, next.1, left - 1);
    }
  }

  /** One level more of the tree: the known ids plus those of the children
      whose parent id is already known. */
  ghost function Step(known: set<ID>, cs: seq<Trace>): set<ID>
  {
    known + (set i | 0 <= i < |cs| && cs[i].span.id.parent in known :: cs[i].span.id.span)
  }

  /** The ids reachable from `known` through at most `n` levels of children. */
  ghost function Closure(known: set<ID>, cs: seq<Trace>, n: nat): set<ID>
    decreases n
  {
    if n == 0 then known else Closure(Step(known, cs), cs, n - 1)
  }

  /** Reachability only grows with more known ids, and does not shrink when
      children whose span ids are already known leave the list. */
  lemma {:induction false} ClosureMonotone(a: set<ID>, b: set<ID>, cs: seq<Trace>, cs': seq<Trace>, n: nat)
    requires a <= b
    requires forall x :: x in cs ==> x in cs' || x.span.id.span in b
    ensures Closure(a, cs, n) <= Closure(b, cs', n)
    decreases n
  {
    if n > 0 {
      forall y | y in Step(a, cs)
        ensures y in Step(b, cs')
      {
        if y !in a {
          var i :| 0 <= i < |cs| && cs[i].span.id.parent in a && cs[i].span.id.span == y;
          var x := cs[i];
          if x in cs' {
            var j :| 0 <= j < |cs'| && cs'[j] == x;
            assert cs'[j].span.id.parent in b;
          }
        }
      }
      ClosureMonotone(Step(a, cs), Step(b, cs'), cs, cs', n - 1);
    }
  }

  /** Every pending child's parent id is reachable from the tree within `m`
      levels of the pending children. */
  ghost predicate ReachableWithin(root: Trace, cs: seq<Trace>, m: nat)
  {
    forall x :: x in cs ==> x.span.id.parent in Closure(Ids(root), cs, m)
  }

  /** Convergence: when every child's parent id is reachable from the
      root within `m` levels of the children and more than `m` passes are
      allowed, assembly succeeds. */
  lemma {:induction false} AddChildrenConverges(root: Trace, cs: seq<Trace>, left: nat, m: nat)
    requires m < left
    requires ReachableWithin(root, cs, m)
    ensures AddChildrenSpec(root, cs, left).Ok?
    decreases left
  {
    if |cs| > 0 {
      var next := AttachPass(root, cs, |cs|);
      if m == 0 {
        NothingLeftPending(root, cs);
      } else {
        PassShortensReach(root, cs, m);
        AddChildrenConverges(next.0, next.1, left - 1, m - 1);
      }
    }
  }

  /** After a pass, the children still pending reach the grown tree in
      one level fewer. */
  lemma PassShortensReach(root: Trace, cs: seq<Trace>, m: nat)
    requires m > 0
    requires ReachableWithin(root, cs, m)
    ensures ReachableWithin(AttachPass(root, cs, |cs|).0, AttachPass(root, cs, |cs|).1, m - 1)
  {
    var next := AttachPass(root, cs, |cs|);
    PassCoversStep(root, cs);
    ClosureMonotone(Step(Ids(root), cs), Ids(next.0), cs, next.1, m - 1);
  }

  /** A pass leaves nothing pending when the tree holds every child's
      parent id from the start. */
  lemma NothingLeftPending(root: Trace, cs: seq<Trace>)
    requires ReachableWithin(root, cs, 0)
    ensures AttachPass(root, cs, |cs|).1 == []
  {
    PassCoversStep(root, cs);
    HeadIsMember(AttachPass(root, cs, |cs|).1);
  }

  lemma HeadIsMember(s: seq<Trace>)
    ensures |s| > 0 ==> s[0] in s
  {
  }

  /** A full pass attaches every child whose parent id the tree held when
      the pass began; the children it leaves pending come from the list. */
  lemma PassCoversStep(root: Trace, cs: seq<Trace>)
    ensures Step(Ids(root), cs) <= Ids(AttachPass(root, cs, |cs|).0)
    ensures forall x :: x in AttachPass(root, cs, |cs|).1 ==> x in cs && x.span.id.parent !in Ids(root)
    ensures forall x :: x in cs ==> x in AttachPass(root, cs, |cs|).1 || x.span.id.span in Ids(AttachPass(root, cs, |cs|).0)
  {
    var next := AttachPass(root, cs, |cs|);
    PassGrows(root, cs, |cs|);
    PassPendingFromList(root, cs, |cs|);
    PassAttachedOrPending(root, cs, |cs|);
    PassLeftovers(root, cs, |cs|);
    forall x | x in next.1
      ensures x.span.id.parent !in Ids(root)
    {
      var j :| 0 <= j < |next.1| && next.1[j] == x;
    }
    forall y | y in Step(Ids(root), cs)
      ensures y in Ids(next.0)
    {
      if y !in Ids(root) {
        var i :| 0 <= i < |cs| && cs[i].span.id.parent in Ids(root) && cs[i].span.id.span == y;
        assert cs[i] in cs;
      }
    }
  }

  /** With one pass per child, every child list whose parents are all
      reachable from the root within the children themselves is assembled. */
  lemma AddChildrenSucceedsOnConnectedInput(root: Trace, cs: seq<Trace>)
    requires |cs| > 0 ==> forall x :: x in cs ==> x.span.id.parent in Closure(Ids(root), cs, |cs| - 1)
    ensures AddChildrenSpec(root, cs, |cs|).Ok?
  {
    if |cs| > 0 {
      var n := |cs|;
      AddChildrenConverges(root, cs, n, n - 1);
    }
  }

  /** A set of ids holding the tree and closed under attaching children. */
  ghost predicate ClosedUnder(s: set<ID>, cs: seq<Trace>)
  {
    forall c :: c in cs && c.span.id.parent in s ==> Ids(c) <= s
  }

  /** Within a pass, the tree never leaves a closed id set, and a child whose
      parent id lies outside it stays pending. */
  lemma {:induction false} PassStaysWithin(root: Trace, cs: seq<Trace>, i: nat, s: set<ID>)
    requires i <= |cs|
    requires Ids(root) <= s && ClosedUnder(s, cs)
    ensures Ids(AttachPass(root, cs, i).0) <= s
    ensures ClosedUnder(s, AttachPass(root, cs, i).1)
    ensures forall x :: x in cs && x.span.id.parent !in s ==> x in AttachPass(root, cs, i).1
    decreases i
  {
    if i > 0 {
      PassStep(root, cs, i);
      var c := cs[i - 1];
      match FindTraceParent(root, c)
      case Some(p) =>
        AttachIds(root, p, c);
        RemoveOneMembers(cs, i - 1);
        PassStaysWithin(Attach(root, p, c), cs[..i - 1] + cs[i..], i - 1, s);
      case None =>
        PassStaysWithin(root, cs, i - 1, s);
    }
  }

  /** Malformed input is reported: when some child's parent id lies outside
      an id set that holds the tree and is closed under attaching children
      (a reference to a span that is not there, or a cycle), assembly fails
      whatever the number of passes. */
  lemma {:induction false} AddChildrenFailsOnUnreachableParent(root: Trace, cs: seq<Trace>, left: nat,
                                                               s: set<ID>, orphan: Trace)
    requires Ids(root) <= s && ClosedUnder(s, cs)
    requires orphan in cs && orphan.span.id.parent !in s
    ensures AddChildrenSpec(root, cs, left) == Err(MaxRetries)
    decreases left
  {
    if left > 0 {
      var next := AttachPass(root, cs, |cs|);
      PassStaysWithin(root, cs, |cs|, s);
      AddChildrenFailsOnUnreachableParent(next.0, next.1, left - 1, s, orphan);
    }
  }

  /** A pass step whose child belongs directly under the root. */
  lemma PassUnderRoot(root: Trace, cs: seq<Trace>, i: nat)
    requires 0 < i <= |cs| && cs[i - 1].span.id.parent == root.span.id.span
    ensures AttachPass(root, cs, i)
            == AttachPass(Trace(root.span, root.sub + [cs[i - 1]]), cs[..i - 1] + cs[i..], i - 1)
  {
    assert FindTraceParent(root, cs[i - 1]) == Some([]);
  }

  /** Assembly depends on the order of the children: two children of the
      root come out as its sub-traces in reverse input order. */
  lemma SubTracesInReverseOrder(r: Trace, a: Trace, b: Trace)
    requires r == Trace(Span(SpanID(1, 1, 0), []), [])
    requires a == Trace(Span(SpanID(1, 2, 1), []), []) && b == Trace(Span(SpanID(1, 3, 1), []), [])
    ensures AddChildrenSpec(r, [a, b], 2) == Ok(Trace(r.span, [b, a]))
    ensures AddChildrenSpec(r, [b, a], 2) == Ok(Trace(r.span, [a, b]))
  {
    TwoUnderRoot(r, a, b);
    TwoUnderRoot(r, b, a);
  }

  lemma TwoUnderRoot(r: Trace, x: Trace, y: Trace)
    requires r.sub == [] && x.span.id.parent == r.span.id.span && y.span.id.parent == r.span.id.span
    ensures AddChildrenSpec(r, [x, y], 2) == Ok(Trace(r.span, [y, x]))
  {
    var t1 := Trace(r.span, [y]);
    var t2 := Trace(r.span, [y, x]);
    PassUnderRoot(r, [x, y], 2);
    assert r.sub + [y] == [y] && [x, y][..1] + [x, y][2..] == [x];
    PassUnderRoot(t1, [x], 1);
    assert t1.sub + [x] == [y, x] && [x][..0] + [x][1..] == [];
    assert AttachPass(t2, [], 0) == (t2, []);
  }

  /** With a span id held by two children, the shape itself depends on the
      order: a grandchild goes under whichever of the two comes first in
      the tree, and that is the one given last. */
  lemma SharedIdShapeDependsOnOrder(r: Trace, a: Trace, b: Trace, c: Trace)
    requires r == Trace(Span(SpanID(1, 1, 0), []), [])
    requires a == Trace(Span(SpanID(1, 2, 1), []), [])
    requires b == Trace(Span(SpanID(1, 2, 1), [Annotation("k", "v")]), [])
    requires c == Trace(Span(SpanID(1, 3, 2), []), [])
    ensures AddChildrenSpec(r, [a, b, c], 3) == Ok(Trace(r.span, [Trace(b.span, [c]), a]))
    ensures AddChildrenSpec(r, [b, a, c], 3) == Ok(Trace(r.span, [Trace(a.span, [c]), b]))
  {
    GrandchildUnderLast(r, a, b, c);
    GrandchildUnderLast(r, b, a, c);
  }

  lemma GrandchildUnderLast(r: Trace, x: Trace, y: Trace, c: Trace)
    requires r.sub == [] && x.sub == [] && y.sub == []
    requires x.span.id.parent == r.span.id.span && y.span.id.parent == r.span.id.span
    requires x.span.id.span == y.span.id.span == c.span.id.parent != r.span.id.span
    ensures AddChildrenSpec(r, [x, y, c], 3) == Ok(Trace(r.span, [Trace(y.span, [c]), x]))
  {
    var cs := [x, y, c];
    var t1 := Trace(r.span, [y]);
    var t2 := Trace(r.span, [y, x]);
    var t3 := Trace(r.span, [Trace(y.span, [c]), x]);
    assert Ids(r) == {r.span.id.span};
    assert AttachPass(r, cs, 3) == AttachPass(r, cs, 2);
    PassUnderRoot(r, cs, 2);
    assert r.sub + [y] == [y] && cs[..1] + cs[2..] == [x, c];
    PassUnderRoot(t1, [x, c], 1);
    assert t1.sub + [x] == [y, x] && [x, c][..0] + [x, c][1..] == [c];
    assert AttachPass(t2, [c], 0) == (t2, [c]);
    assert AddChildrenSpec(r, cs, 3) == AddChildrenSpec(t2, [c], 2);
    assert WalkSubs(t2, c.span.id.parent, 0) == Some([0]);
    assert FindTraceParent(t2, c) == Some([0]);
    assert Attach(t2, [0], c) == t3;
    assert [c][..0] + [c][1..] == [];
    assert AttachPass(t2, [c], 1) == AttachPass(t3, [], 0);
  }
}
