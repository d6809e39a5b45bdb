/** Properties of the trace `WalkFrom` computes: which calls the visitor receives,
    how many, in which order, and with which branch, path and field descriptor. */
module WalkerProofs {
  import opened Wrappers
  import opened Walker
  import opened Seqs

  // ---------------------------------------------------------------------------
  // Sequences
  // ---------------------------------------------------------------------------

  function Last<T>(s: seq<T>): T
    requires |s| > 0
  {
    s[|s| - 1]
  }

  function Init<T>(s: seq<T>): seq<T>
    requires |s| > 0
  {
    s[..|s| - 1]
  }

  ghost predicate IsPrefix<T>(a: seq<T>, c: seq<T>) {
    |a| <= |c| && c[..|a|] == a
  }

  lemma PrefixTrans<T>(a: seq<T>, b: seq<T>, c: seq<T>)
    requires IsPrefix(a, b) && IsPrefix(b, c)
    ensures IsPrefix(a, c)
  {
  }

  /** The number of pointers in a stretch of branch. */
  function PtrCount(s: seq<Value>): nat {
    if s == [] then 0 else (if s[0].Ptr? then 1 else 0) + PtrCount(s[1..])
  }

  /** Splitting off the entry at position `n` of a branch slice. */
  lemma PtrCountAt(s: seq<Value>, n: nat)
    requires n < |s|
    ensures PtrCount(s[n..]) == (if s[n].Ptr? then 1 else 0) + PtrCount(s[n + 1..])
  {
    assert s[n..][1..] == s[n + 1..];
  }

  // ---------------------------------------------------------------------------
  // Reference definitions
  // ---------------------------------------------------------------------------

  /** The number of struct fields, slice elements and map entries reachable
      from `v` through non-nil pointers and interfaces. */
  function Size(v: Value): nat
    decreases v, 1, 0
  {
    match v
    case Ptr(None) => 0
    case Ptr(Some(t)) => Size(t)
    case Iface(t) => Size(t)
    case _ => SizeFrom(v, 0)
  }

  function SizeFrom(v: Value, i: nat): nat
    requires i <= Arity(v)
    decreases v, 0, Arity(v) - i
  {
    if i == Arity(v) then 0 else 1 + Size(ChildAt(v, i)) + SizeFrom(v, i + 1)
  }

  /** The value `walk` is handed for `v`: `v` with its interface layers
      stripped. */
  function Concrete(v: Value): (c: Value)
    ensures !c.Iface?
    ensures !v.Iface? ==> c == v
  {
    if v.Iface? then Concrete(v.inner) else v
  }

  /** True when no non-nil pointer occurs anywhere in `v` (interfaces and nil
      pointers may: a nil pointer is reported but never entered). */
  predicate NoPointer(v: Value)
    decreases v
  {
    if v.Ptr? then v.target.None?
    else if v.Iface? then NoPointer(v.inner)
    else forall i :: 0 <= i < Arity(v) ==> NoPointer(ChildAt(v, i))
  }

  /** Where the i-th child's call stands in the trace of its container: after
      the calls of the children before it and of their subtrees. */
  function Offset(v: Value, i: nat): nat
    requires i <= Arity(v)
  {
    if i == 0 then 0 else Offset(v, i - 1) + 1 + Size(ChildAt(v, i - 1))
  }

  /** The visitor calls for the direct children of `v`, in iteration order. */
  function DirectEvents(v: Value, b: seq<Value>, p: seq<string>): (r: seq<Event>)
    ensures |r| == Arity(v)
  {
    seq(Arity(v), i requires 0 <= i < Arity(v) => ChildEvent(v, i, b, p))
  }

  /** The calls in `es` whose branch has length `d`. */
  function AtDepth(es: seq<Event>, d: nat): (r: seq<Event>)
    ensures |r| <= |es|
  {
    if es == [] then []
    else (if |es[0].branch| == d then [es[0]] else []) + AtDepth(es[1..], d)
  }

  lemma AtDepthConcat(a: seq<Event>, c: seq<Event>, d: nat)
    ensures AtDepth(a + c, d) == AtDepth(a, d) + AtDepth(c, d)
  {
    if a != [] {
      var head := if |a[0].branch| == d then [a[0]] else [];
      assert (a + c)[0] == a[0];
      assert (a + c)[1..] == a[1..] + c;
      assert AtDepth(a + c, d) == head + AtDepth(a[1..] + c, d);
      assert AtDepth(a, d) == head + AtDepth(a[1..], d);
      AtDepthConcat(a[1..], c, d);
    } else {
      assert a + c == c;
    }
  }

  lemma {:induction false} AtDepthNone(es: seq<Event>, d: nat)
    requires forall k :: 0 <= k < |es| ==> |es[k].branch| != d
    ensures AtDepth(es, d) == []
  {
    if es != [] {
      AtDepthNone(es[1..], d);
    }
  }

  /** The same calls made below the branch `b` and the path `p`. */
  function Shift(e: Event, b: seq<Value>, p: seq<string>): Event {
    Event(e.value, b + e.branch, p + e.path, e.field)
  }

  function Rebase(es: seq<Event>, b: seq<Value>, p: seq<string>): (r: seq<Event>)
    ensures |r| == |es|
  {
    seq(|es|, k requires 0 <= k < |es| => Shift(es[k], b, p))
  }

  lemma RebaseConcat(x: seq<Event>, y: seq<Event>, b: seq<Value>, p: seq<string>)
    ensures Rebase(x + y, b, p) == Rebase(x, b, p) + Rebase(y, b, p)
  {
  }

  /** A call without its branch: what it reports about the value and where it is. */
  function Located(es: seq<Event>): (r: seq<(Value, seq<string>, Option<FieldDesc>)>)
    ensures |r| == |es|
  {
    seq(|es|, k requires 0 <= k < |es| => (es[k].value, es[k].path, es[k].field))
  }

  // ---------------------------------------------------------------------------
  // Counting
  // ---------------------------------------------------------------------------

  /** One call per reachable field, element and entry: nothing more, nothing less. */
  lemma {:induction false} CallCount(v: Value, b: seq<Value>, p: seq<string>)
    ensures |WalkFrom(v, b, p)| == Size(v)
    decreases v, 1, 0
  {
    match v
    case Ptr(None) =>
    case Ptr(Some(t)) => CallCount(t, b + [v], p);
    case Iface(t) => CallCount(t, b, p);
    case _ => ChildrenCallCount(v, 0, b + [v], p);
  }

  lemma {:induction false} ChildrenCallCount(v: Value, i: nat, b: seq<Value>, p: seq<string>)
    requires i <= Arity(v)
    ensures |ChildrenFrom(v, i, b, p)| == SizeFrom(v, i)
    decreases v, 0, Arity(v) - i
  {
    if i < Arity(v) {
      var e := ChildEvent(v, i, b, p);
      CallCount(e.value, b, e.path);
      ChildrenCallCount(v, i + 1, b, p);
    }
  }

  /** `Walk` never reports its root: a root without children (a scalar, an
      array, an invalid value, a nil pointer, an empty struct, slice or map)
      produces no call at all. */
  lemma LeafRoot(root: Value)
    requires Size(root) == 0
    ensures WalkTrace(root) == []
  {
    CallCount(root, [], []);
  }

  // ---------------------------------------------------------------------------
  // Branch and path of every call
  // ---------------------------------------------------------------------------

  /** Every call made by `walk(v, b, p)` has a branch that extends `b` with the
      value `walk` is handed for `v`, and a path that extends `p` by at least
      the child's own segment. */
  lemma {:induction false} CallsExtendContext(v: Value, b: seq<Value>, p: seq<string>)
    ensures forall e :: e in WalkFrom(v, b, p) ==>
              IsPrefix(b + [Concrete(v)], e.branch) && IsPrefix(p, e.path) && |e.path| > |p|
    decreases v, 1, 0
  {
    var b' := b + [v];
    match v
    case Iface(t) => CallsExtendContext(t, b, p);
    case Ptr(None) =>
    case Ptr(Some(t)) =>
      CallsExtendContext(t, b', p);
      forall e | e in WalkFrom(v, b, p) ensures IsPrefix(b', e.branch) {
        PrefixTrans(b', b' + [Concrete(t)], e.branch);
      }
    case _ => ChildrenExtendContext(v, 0, b', p);
  }

  lemma {:induction false} ChildrenExtendContext(v: Value, i: nat, b: seq<Value>, p: seq<string>)
    requires i <= Arity(v)
    ensures forall e :: e in ChildrenFrom(v, i, b, p) ==>
              IsPrefix(b, e.branch) && IsPrefix(p, e.path) && |e.path| > |p|
    decreases v, 0, Arity(v) - i
  {
    if i < Arity(v) {
      var c := ChildEvent(v, i, b, p);
      CallsExtendContext(c.value, b, c.path);
      ChildrenExtendContext(v, i + 1, b, p);
      forall e | e in WalkFrom(c.value, b, c.path)
        ensures IsPrefix(b, e.branch) && IsPrefix(p, e.path)
      {
        PrefixTrans(b, b + [Concrete(c.value)], e.branch);
        PrefixTrans(p, c.path, e.path);
      }
    }
  }

  /** The root is never reported: every call of `Walk` has a non-empty path and
      a branch that starts at the root (at its dynamic value, for a root given
      as an interface). */
  lemma RootNeverReported(root: Value)
    ensures forall e :: e in WalkTrace(root) ==> |e.path| >= 1 && |e.branch| >= 1 && e.branch[0] == Concrete(root)
  {
    CallsExtendContext(root, [], []);
  }

  /** Each pointer unwrapped on the way adds a branch entry and no path
      segment; an interface adds neither; a container descent adds one of
      each. So below the starting point the branch is longer than the path by
      exactly the number of pointers it holds; with no non-nil pointer in `v`
      the two grow alike. */
  lemma {:induction false} BranchCoversPath(v: Value, b: seq<Value>, p: seq<string>)
    ensures forall e :: e in WalkFrom(v, b, p) ==>
              |b| <= |e.branch| && |e.branch| - |b| == |e.path| - |p| + PtrCount(e.branch[|b|..])
    ensures NoPointer(v) ==>
              forall e :: e in WalkFrom(v, b, p) ==> |e.branch| - |b| == |e.path| - |p|
    decreases v, 1, 0
  {
    var b' := b + [v];
    if v.Iface? {
      BranchCoversPath(v.inner, b, p);
    } else if v != Ptr(None) {
      if v.Ptr? {
        BranchCoversPath(v.target.value, b', p);
      } else {
        ChildrenBranchCoversPath(v, 0, b', p);
      }
      CallsExtendContext(v, b, p);
      forall e | e in WalkFrom(v, b, p)
        ensures |e.branch| - |b| == |e.path| - |p| + PtrCount(e.branch[|b|..])
      {
        assert e.branch[|b|] == b'[|b|] == v;
        PtrCountAt(e.branch, |b|);
      }
    }
  }

  lemma {:induction false} ChildrenBranchCoversPath(v: Value, i: nat, b: seq<Value>, p: seq<string>)
    requires i <= Arity(v)
    ensures forall e :: e in ChildrenFrom(v, i, b, p) ==>
              |b| <= |e.branch| && |e.branch| - |b| + 1 == |e.path| - |p| + PtrCount(e.branch[|b|..])
    ensures NoPointer(v) ==>
              forall e :: e in ChildrenFrom(v, i, b, p) ==> |e.branch| - |b| + 1 == |e.path| - |p|
    decreases v, 0, Arity(v) - i
  {
    if i < Arity(v) {
      var c := ChildEvent(v, i, b, p);
      assert c.branch[|b|..] == [];
      BranchCoversPath(c.value, b, c.path);
      ChildrenBranchCoversPath(v, i + 1, b, p);
    }
  }

  /** Every call of `Walk` has a branch exactly as long as its path plus the
      pointers on it; so with no pointer crossed, or no non-nil pointer in the
      root, branch and path are equally long. */
  lemma BranchMatchesPath(root: Value)
    ensures forall e :: e in WalkTrace(root) ==> |e.branch| == |e.path| + PtrCount(e.branch)
    ensures forall e :: e in WalkTrace(root) && PtrCount(e.branch) == 0 ==> |e.branch| == |e.path|
    ensures NoPointer(root) ==> forall e :: e in WalkTrace(root) ==> |e.branch| == |e.path|
  {
    BranchCoversPath(root, [], []);
    forall e | e in WalkTrace(root) ensures e.branch[0..] == e.branch {
    }
  }

  /** A struct with a scalar field and a nil-pointer field: the nil pointer is
      reported but never entered, so branch and path agree at every call. */
  lemma NilLeafBranchMatchesPath(f0: FieldDesc, f1: FieldDesc, x: string)
    ensures var root := Struct([(f0, Scalar(x)), (f1, Ptr(None))]);
            forall e :: e in WalkTrace(root) ==> |e.branch| == |e.path|
  {
    var root := Struct([(f0, Scalar(x)), (f1, Ptr(None))]);
    assert NoPointer(ChildAt(root, 0)) && NoPointer(ChildAt(root, 1));
    BranchMatchesPath(root);
  }

  /** The call `e` reports a child of the last node of its branch, with that
      child's segment appended to the container's path and that child's field
      descriptor. */
  ghost predicate FromParent(e: Event) {
    |e.branch| > 0 && |e.path| > 0 &&
    exists i :: 0 <= i < Arity(Last(e.branch)) && e == ChildEvent(Last(e.branch), i, e.branch, Init(e.path))
  }

  /** Every call of a walk reports a direct child of the last node of its branch. */
  lemma {:induction false} CallsComeFromParent(v: Value, b: seq<Value>, p: seq<string>)
    ensures forall e :: e in WalkFrom(v, b, p) ==> FromParent(e)
    decreases v, 1, 0
  {
    match v
    case Ptr(None) =>
    case Ptr(Some(t)) => CallsComeFromParent(t, b + [v], p);
    case Iface(t) => CallsComeFromParent(t, b, p);
    case _ => ChildrenComeFromParent(v, 0, b + [v], p);
  }

  lemma {:induction false} ChildrenComeFromParent(v: Value, i: nat, b: seq<Value>, p: seq<string>)
    requires i <= Arity(v) && |b| > 0 && b[|b| - 1] == v
    ensures forall e :: e in ChildrenFrom(v, i, b, p) ==> FromParent(e)
    decreases v, 0, Arity(v) - i
  {
    if i < Arity(v) {
      var c := ChildEvent(v, i, b, p);
      assert Init(c.path) == p && Last(c.branch) == v;
      assert c == ChildEvent(Last(c.branch), i, c.branch, Init(c.path));
      CallsComeFromParent(c.value, b, c.path);
      ChildrenComeFromParent(v, i + 1, b, p);
    }
  }

  // ---------------------------------------------------------------------------
  // Context independence and transparent unwrapping
  // ---------------------------------------------------------------------------

  /** Walking below a branch `b` and a path `p` makes the calls of a walk from
      scratch, each with `b` and `p` put in front of its own branch and path. */
  lemma {:induction false} WalkRebase(v: Value, b: seq<Value>, p: seq<string>, b2: seq<Value>, p2: seq<string>)
    ensures WalkFrom(v, b + b2, p + p2) == Rebase(WalkFrom(v, b2, p2), b, p)
    decreases v, 1, 0
  {
    assert b + b2 + [v] == b + (b2 + [v]);
    match v
    case Iface(t) => WalkRebase(t, b, p, b2, p2);
    case Ptr(None) =>
    case Ptr(Some(t)) => WalkRebase(t, b, p, b2 + [v], p2);
    case _ => ChildrenRebase(v, 0, b, p, b2 + [v], p2);
  }

  lemma {:induction false} ChildrenRebase(v: Value, i: nat, b: seq<Value>, p: seq<string>, b2: seq<Value>, p2: seq<string>)
    requires i <= Arity(v)
    ensures ChildrenFrom(v, i, b + b2, p + p2) == Rebase(ChildrenFrom(v, i, b2, p2), b, p)
    decreases v, 0, Arity(v) - i
  {
    if i < Arity(v) {
      var e2 := ChildEvent(v, i, b2, p2);
      var e := ChildEvent(v, i, b + b2, p + p2);
      var w2, r2 := WalkFrom(e2.value, b2, e2.path), ChildrenFrom(v, i + 1, b2, p2);
      assert e.path == p + e2.path;
      assert e == Shift(e2, b, p);
      assert ChildrenFrom(v, i, b2, p2) == [e2] + w2 + r2;
      assert ChildrenFrom(v, i, b + b2, p + p2) ==
             [e] + WalkFrom(e.value, b + b2, p + e2.path) + ChildrenFrom(v, i + 1, b + b2, p + p2);
      WalkRebase(e2.value, b, p, b2, e2.path);
      ChildrenRebase(v, i + 1, b, p, b2, p2);
      RebaseBlock(e2, w2, r2, b, p);
    }
  }

  lemma RebaseBlock(e: Event, w: seq<Event>, r: seq<Event>, b: seq<Value>, p: seq<string>)
    ensures Rebase([e] + w + r, b, p) == [Shift(e, b, p)] + Rebase(w, b, p) + Rebase(r, b, p)
  {
    RebaseConcat([e], w, b, p);
    RebaseConcat([e] + w, r, b, p);
  }

  lemma LocatedRebase(es: seq<Event>, b1: seq<Value>, b2: seq<Value>, p: seq<string>)
    ensures Located(Rebase(es, b1, p)) == Located(Rebase(es, b2, p))
  {
  }

  /** Unwrapping is transparent. An interface is invisible altogether: its
      walk is its dynamic value's walk. A non-nil pointer adds only its branch
      entry: the calls report the same values, paths and field descriptors as
      walking the pointee itself. */
  lemma UnwrapTransparent(t: Value, b: seq<Value>, p: seq<string>)
    ensures Located(WalkFrom(Ptr(Some(t)), b, p)) == Located(WalkFrom(t, b, p))
    ensures WalkFrom(Iface(t), b, p) == WalkFrom(t, b, p)
  {
    WalkRebase(t, b + [Ptr(Some(t))], p, [], []);
    WalkRebase(t, b, p, [], []);
    assert b + [Ptr(Some(t))] + [] == b + [Ptr(Some(t))];
    assert b + [] == b && p + [] == p;
    LocatedRebase(WalkFrom(t, [], []), b + [Ptr(Some(t))], b, p);
  }

  // ---------------------------------------------------------------------------
  // Order: pre-order, one contiguous block per child
  // ---------------------------------------------------------------------------

  /** The calls of the i-th child's block: its own call, then its walk. */
  function Block(v: Value, i: nat, b: seq<Value>, p: seq<string>): seq<Event>
    requires i < Arity(v)
  {
    [ChildEvent(v, i, b, p)] + WalkFrom(ChildAt(v, i), b, p + [SegmentAt(v, i)])
  }

  /** The blocks of the children before index i, in order. */
  function BlocksBefore(v: Value, i: nat, b: seq<Value>, p: seq<string>): seq<Event>
    requires i <= Arity(v)
  {
    if i == 0 then [] else BlocksBefore(v, i - 1, b, p) + Block(v, i - 1, b, p)
  }

  /** The blocks before the i-th child take up exactly `Offset(v, i)` calls. */
  lemma {:induction false} BlocksBeforeLength(v: Value, i: nat, b: seq<Value>, p: seq<string>)
    requires i <= Arity(v)
    ensures |BlocksBefore(v, i, b, p)| == Offset(v, i)
  {
    if i > 0 {
      BlocksBeforeLength(v, i - 1, b, p);
      CallCount(ChildAt(v, i - 1), b, p + [SegmentAt(v, i - 1)]);
    }
  }

  /** The loop over the children, split at index i. */
  lemma {:induction false} ChildrenSplit(v: Value, i: nat, b: seq<Value>, p: seq<string>)
    requires i <= Arity(v)
    ensures ChildrenFrom(v, 0, b, p) == BlocksBefore(v, i, b, p) + ChildrenFrom(v, i, b, p)
  {
    if i > 0 {
      ChildrenSplit(v, i - 1, b, p);
      assert ChildrenFrom(v, i - 1, b, p) == Block(v, i - 1, b, p) + ChildrenFrom(v, i, b, p);
      Assoc(BlocksBefore(v, i - 1, b, p), Block(v, i - 1, b, p), ChildrenFrom(v, i, b, p));
    } else {
      assert ChildrenFrom(v, 0, b, p) == [] + ChildrenFrom(v, 0, b, p);
    }
  }

  /** A struct, slice or map walks its children with itself appended to the branch. */
  lemma ContainerWalk(v: Value, b: seq<Value>, p: seq<string>)
    requires Arity(v) > 0
    ensures WalkFrom(v, b, p) == ChildrenFrom(v, 0, b + [v], p)
  {
  }

  /** Pre-order, one block per child: the trace of a container is the blocks
      of the children before the i-th, then the i-th child's call, then the
      calls of that child's own walk, then the blocks of the later children. */
  lemma PreOrderBlocks(v: Value, i: nat, b: seq<Value>, p: seq<string>)
    requires i < Arity(v)
    ensures WalkFrom(v, b, p) ==
            BlocksBefore(v, i, b + [v], p) + [ChildEvent(v, i, b + [v], p)] +
            WalkFrom(ChildAt(v, i), b + [v], p + [SegmentAt(v, i)]) + ChildrenFrom(v, i + 1, b + [v], p)
  {
    var b' := b + [v];
    var e, w, rest := ChildEvent(v, i, b', p), WalkFrom(ChildAt(v, i), b', p + [SegmentAt(v, i)]), ChildrenFrom(v, i + 1, b', p);
    ContainerWalk(v, b, p);
    ChildrenSplit(v, i, b', p);
    assert ChildrenFrom(v, i, b', p) == [e] + w + rest;
    AppendBlock(BlocksBefore(v, i, b', p), [e], w, rest);
  }

  /** The call for the i-th child stands at `Offset(v, i)` of the container's
      trace, after the calls for all earlier siblings and their subtrees, and is
      followed immediately by the contiguous block of calls of that child's own
      walk, of exactly `Size` of the child calls. */
  lemma PreOrder(v: Value, i: nat, b: seq<Value>, p: seq<string>)
    requires i < Arity(v)
    ensures Offset(v, i) + 1 + Size(ChildAt(v, i)) <= |WalkFrom(v, b, p)|
    ensures WalkFrom(v, b, p)[Offset(v, i)] == ChildEvent(v, i, b + [v], p)
    ensures WalkFrom(v, b, p)[Offset(v, i) + 1 .. Offset(v, i) + 1 + Size(ChildAt(v, i))]
            == WalkFrom(ChildAt(v, i), b + [v], p + [SegmentAt(v, i)])
  {
    var b' := b + [v];
    var sub := WalkFrom(ChildAt(v, i), b', p + [SegmentAt(v, i)]);
    PreOrderBlocks(v, i, b, p);
    BlocksBeforeLength(v, i, b', p);
    CallCount(ChildAt(v, i), b', p + [SegmentAt(v, i)]);
    BlockAt(WalkFrom(v, b, p), BlocksBefore(v, i, b', p), ChildEvent(v, i, b', p), sub, ChildrenFrom(v, i + 1, b', p));
  }

  /** The children's blocks fill the container's trace exactly. */
  lemma OffsetsCoverTrace(v: Value, b: seq<Value>, p: seq<string>)
    requires Arity(v) > 0
    ensures Offset(v, Arity(v)) == |WalkFrom(v, b, p)|
  {
    ContainerWalk(v, b, p);
    ChildrenSplit(v, Arity(v), b + [v], p);
    BlocksBeforeLength(v, Arity(v), b + [v], p);
  }

  /** A nil pointer in a field, element or entry is itself reported, nothing
      is reported beneath it, and the next sibling's call follows at once. */
  lemma NilPointerSibling(v: Value, i: nat, b: seq<Value>, p: seq<string>)
    requires i < Arity(v) && ChildAt(v, i) == Ptr(None)
    ensures var t := WalkFrom(v, b, p);
            Offset(v, i) < |t| &&
            t[Offset(v, i)].value == Ptr(None) &&
            Offset(v, i + 1) == Offset(v, i) + 1 &&
            (i + 1 < Arity(v) ==>
               Offset(v, i) + 1 < |t| && t[Offset(v, i) + 1] == ChildEvent(v, i + 1, b + [v], p))
  {
    PreOrder(v, i, b, p);
    assert Size(ChildAt(v, i)) == 0;
    if i + 1 < Arity(v) {
      PreOrder(v, i + 1, b, p);
    }
  }

  // ---------------------------------------------------------------------------
  // The direct children
  // ---------------------------------------------------------------------------

  /** The calls at depth |b| + 1 are exactly one call per direct child of `v`,
      in iteration order; all deeper calls have longer branches. */
  lemma DirectChildren(v: Value, b: seq<Value>, p: seq<string>)
    ensures AtDepth(WalkFrom(v, b, p), |b| + 1) == DirectEvents(Concrete(v), b + [Concrete(v)], p)
    decreases v
  {
    var b' := b + [v];
    if v.Iface? {
      DirectChildren(v.inner, b, p);
    } else if v == Ptr(None) {
    } else if v.Ptr? {
      CallsExtendContext(v.target.value, b', p);
      AtDepthNone(WalkFrom(v.target.value, b', p), |b| + 1);
    } else {
      ChildrenAtDepth(v, 0, b', p);
      assert DirectEvents(v, b', p)[0..] == DirectEvents(v, b', p);
    }
  }


  lemma DirectEventsStep(v: Value, i: nat, b: seq<Value>, p: seq<string>)
    requires i < Arity(v)
    ensures DirectEvents(v, b, p)[i..] == [ChildEvent(v, i, b, p)] + DirectEvents(v, b, p)[i + 1..]
  {
  }

  /** The calls of one child's block at the child's own depth: just its own. */
  lemma BlockAtDepth(e: Event, sub: seq<Event>, rest: seq<Event>, d: nat)
    requires |e.branch| == d
    requires forall k :: 0 <= k < |sub| ==> |sub[k].branch| != d
    ensures AtDepth([e] + sub + rest, d) == [e] + AtDepth(rest, d)
  {
    AtDepthNone(sub, d);
    assert [e][1..] == [];
    assert AtDepth([e], d) == [e] + AtDepth([], d);
    AtDepthConcat([e], sub, d);
    AtDepthConcat([e] + sub, rest, d);
  }

  lemma {:induction false} ChildrenAtDepth(v: Value, i: nat, b: seq<Value>, p: seq<string>)
    requires i <= Arity(v)
    ensures AtDepth(ChildrenFrom(v, i, b, p), |b|) == DirectEvents(v, b, p)[i..]
    decreases Arity(v) - i
  {
    if i < Arity(v) {
      var e := ChildEvent(v, i, b, p);
      var sub := WalkFrom(e.value, b, e.path);
      var rest := ChildrenFrom(v, i + 1, b, p);
      assert ChildrenFrom(v, i, b, p) == [e] + sub + rest;
      CallsExtendContext(e.value, b, e.path);
      assert forall k :: 0 <= k < |sub| ==> |sub[k].branch| != |b| by {
        forall k | 0 <= k < |sub| ensures |sub[k].branch| != |b| {
          assert sub[k] in sub;
        }
      }
      BlockAtDepth(e, sub, rest, |b|);
      ChildrenAtDepth(v, i + 1, b, p);
      DirectEventsStep(v, i, b, p);
    } else {
      assert DirectEvents(v, b, p)[i..] == [];
    }
  }

  /** Struct fields are reported once each, in declaration order, with the
      field key as the last path segment and the field descriptor present. */
  lemma StructFieldsInOrder(fs: seq<(FieldDesc, Value)>, b: seq<Value>, p: seq<string>)
    ensures var d := AtDepth(WalkFrom(Struct(fs), b, p), |b| + 1);
            |d| == |fs| &&
            forall i :: 0 <= i < |fs| ==>
              d[i].value == fs[i].1 && d[i].path == p + [FieldKey(fs[i].0)] &&
              d[i].field == Some(fs[i].0) && d[i].branch == b + [Struct(fs)]
  {
    DirectChildren(Struct(fs), b, p);
  }

  /** Slice elements are reported once each, in index order, with the decimal
      index as the last path segment and no field descriptor. */
  lemma SliceElementsInOrder(es: seq<Value>, b: seq<Value>, p: seq<string>)
    ensures var d := AtDepth(WalkFrom(Slice(es), b, p), |b| + 1);
            |d| == |es| &&
            forall i :: 0 <= i < |es| ==>
              d[i].value == es[i] && d[i].path == p + [Itoa(i)] &&
              d[i].field == None && d[i].branch == b + [Slice(es)]
  {
    DirectChildren(Slice(es), b, p);
  }

  /** What the calls for the direct map entries report: (segment, value). */
  function EntriesReported(d: seq<Event>): (r: seq<(string, Value)>)
    ensures |r| == |d|
  {
    seq(|d|, j requires 0 <= j < |d| => (if d[j].path == [] then "" else d[j].path[|d[j].path| - 1], d[j].value))
  }

  predicate KeysDistinct(ms: seq<(string, Value)>) {
    forall i, j :: 0 <= i < j < |ms| ==> ms[i].0 != ms[j].0
  }

  lemma DistinctOnce(ms: seq<(string, Value)>, i: nat)
    requires KeysDistinct(ms) && i < |ms|
    ensures multiset(ms)[ms[i]] == 1
  {
    var x := ms[i];
    assert ms == ms[..i] + [x] + ms[i + 1..];
    assert forall k :: 0 <= k < |ms| && k != i ==> ms[k] != x;
    assert x !in ms[..i];
    assert x !in ms[i + 1..];
    assert multiset(ms) == multiset(ms[..i]) + multiset{x} + multiset(ms[i + 1..]);
  }

  /** Map entries are reported without a field descriptor, and the (segment,
      value) pairs of the direct calls are the map's entries as a multiset, so
      that nothing depends on the enumeration order; with distinct keys, each
      entry is reported exactly once. */
  lemma MapEntriesOnce(ms: seq<(string, Value)>, b: seq<Value>, p: seq<string>)
    ensures var d := AtDepth(WalkFrom(Map(ms), b, p), |b| + 1);
            |d| == |ms| &&
            (forall j :: 0 <= j < |d| ==> d[j].field == None && |d[j].path| == |p| + 1) &&
            multiset(EntriesReported(d)) == multiset(ms) &&
            (KeysDistinct(ms) ==> forall i :: 0 <= i < |ms| ==> multiset(EntriesReported(d))[ms[i]] == 1)
  {
    var d := AtDepth(WalkFrom(Map(ms), b, p), |b| + 1);
    DirectChildren(Map(ms), b, p);
    assert EntriesReported(d) == ms;
    if KeysDistinct(ms) {
      forall i | 0 <= i < |ms| ensures multiset(EntriesReported(d))[ms[i]] == 1 {
        DistinctOnce(ms, i);
      }
    }
  }

  // ---------------------------------------------------------------------------
  // Map enumeration order
  // ---------------------------------------------------------------------------

  lemma LocatedConcat(x: seq<Event>, y: seq<Event>)
    ensures Located(x + y) == Located(x) + Located(y)
  {
  }

  /** What a walk reports about values and locations does not depend on the
      branch it starts below. */
  lemma LocatedIgnoresBranch(v: Value, b1: seq<Value>, b2: seq<Value>, p: seq<string>)
    ensures Located(WalkFrom(v, b1, p)) == Located(WalkFrom(v, b2, p))
  {
    assert b1 + [] == b1 && b2 + [] == b2 && [] + p == p;
    WalkRebase(v, b1, [], [], p);
    WalkRebase(v, b2, [], [], p);
    LocatedRebase(WalkFrom(v, [], p), b1, b2, []);
  }

  /** The calls for one map entry below the map's path `p`, without branches. */
  function EntryBlock(x: (string, Value), p: seq<string>): seq<(Value, seq<string>, Option<FieldDesc>)> {
    Located([Event(x.1, [], p + [x.0], None)] + WalkFrom(x.1, [], p + [x.0]))
  }

  function Blocks(s: seq<(string, Value)>, p: seq<string>): seq<(Value, seq<string>, Option<FieldDesc>)> {
    if s == [] then [] else EntryBlock(s[0], p) + Blocks(s[1..], p)
  }

  lemma {:induction false} BlocksConcat(s: seq<(string, Value)>, t: seq<(string, Value)>, p: seq<string>)
    ensures Blocks(s + t, p) == Blocks(s, p) + Blocks(t, p)
  {
    if s == [] {
      assert s + t == t;
    } else {
      assert (s + t)[0] == s[0];
      assert (s + t)[1..] == s[1..] + t;
      BlocksConcat(s[1..], t, p);
    }
  }

  lemma {:induction false} MapChildrenAreBlocks(ms: seq<(string, Value)>, i: nat, b: seq<Value>, p: seq<string>)
    requires i <= |ms|
    ensures Located(ChildrenFrom(Map(ms), i, b, p)) == Blocks(ms[i..], p)
    decreases |ms| - i
  {
    if i < |ms| {
      var v := Map(ms);
      var e := ChildEvent(v, i, b, p);
      var sub := WalkFrom(e.value, b, e.path);
      assert ms[i..][0] == ms[i] && ms[i..][1..] == ms[i + 1..];
      MapChildrenAreBlocks(ms, i + 1, b, p);
      LocatedIgnoresBranch(e.value, b, [], e.path);
      LocatedConcat([e], sub);
      LocatedConcat([e] + sub, ChildrenFrom(v, i + 1, b, p));
      LocatedConcat([Event(ms[i].1, [], p + [ms[i].0], None)], WalkFrom(ms[i].1, [], p + [ms[i].0]));
    } else {
      assert ms[i..] == [];
    }
  }

  lemma MultisetRemove(s: seq<(string, Value)>, t: seq<(string, Value)>, j: nat)
    requires multiset(s) == multiset(t) && s != [] && j < |t| && t[j] == s[0]
    ensures multiset(s[1..]) == multiset(t[..j] + t[j + 1..])
  {
    var x, rest := s[0], t[..j] + t[j + 1..];
    assert t == t[..j] + [x] + t[j + 1..];
    assert s == [x] + s[1..];
    assert multiset(t) == multiset(t[..j]) + multiset{x} + multiset(t[j + 1..]);
    assert multiset(rest) == multiset(t[..j]) + multiset(t[j + 1..]);
    forall y ensures multiset(s[1..])[y] == multiset(rest)[y] {
      assert multiset(s)[y] == multiset(t)[y];
    }
  }

  lemma BlocksRemove(t: seq<(string, Value)>, j: nat, p: seq<string>)
    requires j < |t|
    ensures multiset(Blocks(t, p)) == multiset(EntryBlock(t[j], p)) + multiset(Blocks(t[..j] + t[j + 1..], p))
  {
    assert t == (t[..j] + [t[j]]) + t[j + 1..];
    BlocksConcat(t[..j] + [t[j]], t[j + 1..], p);
    BlocksConcat(t[..j], [t[j]], p);
    BlocksConcat(t[..j], t[j + 1..], p);
    assert Blocks([t[j]], p) == EntryBlock(t[j], p) + Blocks([], p);
  }

  lemma {:induction false} BlocksPermutation(s: seq<(string, Value)>, t: seq<(string, Value)>, p: seq<string>)
    requires multiset(s) == multiset(t)
    ensures multiset(Blocks(s, p)) == multiset(Blocks(t, p))
    decreases |s|
  {
    if s == [] {
      assert |t| == |multiset(t)| == 0;
    } else {
      assert s[0] in multiset(t);
      var j :| 0 <= j < |t| && t[j] == s[0];
      MultisetRemove(s, t, j);
      BlocksPermutation(s[1..], t[..j] + t[j + 1..], p);
      BlocksRemove(t, j, p);
    }
  }

  /** Go enumerates a map in an unspecified order. Whatever that order, the
      walk reports the same multiset of (value, path, field) calls, and
      therefore the same number of calls. */
  lemma MapOrderIrrelevant(ms: seq<(string, Value)>, ms': seq<(string, Value)>, b: seq<Value>, p: seq<string>)
    requires multiset(ms) == multiset(ms')
    ensures multiset(Located(WalkFrom(Map(ms), b, p))) == multiset(Located(WalkFrom(Map(ms'), b, p)))
    ensures |WalkFrom(Map(ms), b, p)| == |WalkFrom(Map(ms'), b, p)|
  {
    MapChildrenAreBlocks(ms, 0, b + [Map(ms)], p);
    MapChildrenAreBlocks(ms', 0, b + [Map(ms')], p);
    BlocksPermutation(ms, ms', p);
    assert ms[0..] == ms && ms'[0..] == ms';
    var x, y := Located(WalkFrom(Map(ms), b, p)), Located(WalkFrom(Map(ms'), b, p));
    assert |multiset(x)| == |multiset(y)|;
  }

  // ---------------------------------------------------------------------------
  // Decimal index segments
  // ---------------------------------------------------------------------------

  function ParseDecimal(s: string): nat
    requires forall k :: 0 <= k < |s| ==> IsDigit(s[k])
  {
    if s == [] then 0
    else
      var last := s[|s| - 1];
      assert IsDigit(last);
      ParseDecimal(s[..|s| - 1]) * 10 + (last as int - '0' as int)
  }

  /** The index segment reads back as the index. */
  lemma {:induction false} ItoaRoundTrip(n: nat)
    ensures ParseDecimal(Itoa(n)) == n
    decreases n
  {
    if n >= 10 {
      ItoaRoundTrip(n / 10);
      var s := Itoa(n);
      assert s[..|s| - 1] == Itoa(n / 10);
    }
  }

  /** Distinct indices give distinct segments, so the elements of a slice are
      told apart by the last segment of their paths. */
  lemma ItoaInjective(i: nat, j: nat)
    requires i != j
    ensures Itoa(i) != Itoa(j)
  {
    ItoaRoundTrip(i);
    ItoaRoundTrip(j);
  }

  // ---------------------------------------------------------------------------
  // Field keys
  // ---------------------------------------------------------------------------

  /** The examples the naming policy is meant for: a name without a tag is
      lower-camel-cased, a tag is used whole with no option parsing, "-"
      counts as no tag, and an empty name falls back to the tag itself. */
  lemma FieldKeyExamples()
    ensures FieldKey(FieldDesc("UserName", "")) == "userName"
    ensures FieldKey(FieldDesc("UserName", "id")) == "id"
    ensures FieldKey(FieldDesc("ID", "id,omitempty")) == "id,omitempty"
    ensures FieldKey(FieldDesc("Name", "-")) == "name"
    ensures FieldKey(FieldDesc("", "-")) == "-"
    ensures FieldKey(FieldDesc("", "")) == ""
  {
  }

  /** Without a usable tag the derived key differs from the field name in its
      first character only, and it differs at all exactly when that character
      is an upper-case ASCII letter. */
  lemma FieldKeyLowerCamel(f: FieldDesc)
    requires f.jsonTag == "" || f.jsonTag == "-"
    requires f.name != ""
    ensures var key := FieldKey(f);
            |key| == |f.name| &&
            (forall k :: 1 <= k < |key| ==> key[k] == f.name[k]) &&
            (key == f.name <==> !('A' <= f.name[0] <= 'Z')) &&
            ('A' <= f.name[0] <= 'Z' ==> 'a' <= key[0] <= 'z')
  {
  }

  /** The policy is stable: a derived key, taken as an untagged field name,
      derives itself again. */
  lemma FieldKeyStable(f: FieldDesc)
    requires f.jsonTag == "" || f.jsonTag == "-"
    ensures FieldKey(FieldDesc(FieldKey(f), "")) == FieldKey(f)
  {
  }

  // ---------------------------------------------------------------------------
  // A worked scenario
  // ---------------------------------------------------------------------------

  /** A slice of two leaves: one call per element, paths ending in "0" and "1". */
  lemma TwoLeafSlice(x: Value, y: Value, b: seq<Value>, p: seq<string>)
    requires Size(x) == 0 && Size(y) == 0
    ensures var list := Slice([x, y]);
            WalkFrom(list, b, p) ==
              [Event(x, b + [list], p + ["0"], None), Event(y, b + [list], p + ["1"], None)]
  {
    var list := Slice([x, y]);
    var bl := b + [list];
    assert Itoa(0) == "0" && Itoa(1) == "1";
    CallCount(x, bl, p + ["0"]);
    CallCount(y, bl, p + ["1"]);
    assert ChildrenFrom(list, 2, bl, p) == [];
    assert ChildrenFrom(list, 1, bl, p) == [Event(y, bl, p + ["1"], None)] + [] + [];
    assert ChildrenFrom(list, 0, bl, p) == [Event(x, bl, p + ["0"], None)] + [] + ChildrenFrom(list, 1, bl, p);
  }

  /** A struct whose one field has interface type and holds a one-element
      slice: the field is reported as the interface value, but the interface
      never enters a branch, so the element's branch is the root and the slice. */
  lemma InterfaceFieldBranch(f: FieldDesc, leaf: Value)
    requires Size(leaf) == 0
    ensures var list := Slice([leaf]);
            var root := Struct([(f, Iface(list))]);
            var k := FieldKey(f);
            WalkTrace(root) ==
              [ Event(Iface(list), [root], [k], Some(f)),
                Event(leaf, [root, list], [k, "0"], None) ]
  {
    var list := Slice([leaf]);
    var root := Struct([(f, Iface(list))]);
    var k := FieldKey(f);
    assert [] + [root] == [root] && [] + [k] == [k];
    assert [root] + [list] == [root, list];
    assert Itoa(0) == "0" && [k] + ["0"] == [k, "0"];
    CallCount(leaf, [root, list], [k, "0"]);
    assert ChildrenFrom(list, 1, [root, list], [k]) == [];
    var ef, el := Event(Iface(list), [root], [k], Some(f)), Event(leaf, [root, list], [k, "0"], None);
    assert ChildEvent(list, 0, [root, list], [k]) == el;
    assert WalkFrom(leaf, [root, list], [k, "0"]) == [];
    assert ChildrenFrom(list, 0, [root, list], [k]) == [el] + [] + [];
    assert WalkFrom(Iface(list), [root], [k]) == WalkFrom(list, [root], [k]);
    assert WalkFrom(list, [root], [k]) == ChildrenFrom(list, 0, [root, list], [k]);
    assert ChildEvent(root, 0, [root], []) == ef;
    assert ChildrenFrom(root, 1, [root], []) == [];
    assert WalkTrace(root) == ChildrenFrom(root, 0, [root], []);
    assert WalkTrace(root) == [ef] + [el] + [];
  }

  /** A struct of three fields: each field's call, then that field's walk. */
  lemma ThreeFields(f0: FieldDesc, f1: FieldDesc, f2: FieldDesc, x: Value, y: Value, z: Value,
                    b: seq<Value>, p: seq<string>)
    ensures var v := Struct([(f0, x), (f1, y), (f2, z)]);
            var bv := b + [v];
            var p0, p1, p2 := p + [FieldKey(f0)], p + [FieldKey(f1)], p + [FieldKey(f2)];
            WalkFrom(v, b, p) ==
              [Event(x, bv, p0, Some(f0))] + WalkFrom(x, bv, p0) +
              ([Event(y, bv, p1, Some(f1))] + WalkFrom(y, bv, p1) +
               ([Event(z, bv, p2, Some(f2))] + WalkFrom(z, bv, p2) + []))
  {
    var v := Struct([(f0, x), (f1, y), (f2, z)]);
    var bv := b + [v];
    assert ChildEvent(v, 0, bv, p) == Event(x, bv, p + [FieldKey(f0)], Some(f0));
    assert ChildEvent(v, 1, bv, p) == Event(y, bv, p + [FieldKey(f1)], Some(f1));
    assert ChildEvent(v, 2, bv, p) == Event(z, bv, p + [FieldKey(f2)], Some(f2));
    var p0, p1, p2 := p + [FieldKey(f0)], p + [FieldKey(f1)], p + [FieldKey(f2)];
    assert Arity(v) == 3;
    assert ChildrenFrom(v, 3, bv, p) == [];
    var c2 := [Event(z, bv, p2, Some(f2))] + WalkFrom(z, bv, p2) + [];
    assert ChildrenFrom(v, 2, bv, p) == c2;
    var c1 := [Event(y, bv, p1, Some(f1))] + WalkFrom(y, bv, p1) + c2;
    assert ChildrenFrom(v, 1, bv, p) == c1;
    assert ChildrenFrom(v, 0, bv, p) == [Event(x, bv, p0, Some(f0))] + WalkFrom(x, bv, p0) + c1;
    assert WalkFrom(v, b, p) == ChildrenFrom(v, 0, bv, p);
  }

  /** The trace of a struct with a leaf field, a field holding a two-leaf
      slice and a field holding a nil pointer, as events. */
  lemma ScenarioTrace(f0: FieldDesc, f1: FieldDesc, f2: FieldDesc, x: Value, a: Value, c: Value)
    requires Size(x) == 0 && Size(a) == 0 && Size(c) == 0
    ensures var list := Slice([a, c]);
            var root := Struct([(f0, x), (f1, list), (f2, Ptr(None))]);
            var k0, k1, k2 := FieldKey(f0), FieldKey(f1), FieldKey(f2);
            WalkTrace(root) ==
              [ Event(x, [root], [k0], Some(f0)),
                Event(list, [root], [k1], Some(f1)),
                Event(a, [root, list], [k1, "0"], None),
                Event(c, [root, list], [k1, "1"], None),
                Event(Ptr(None), [root], [k2], Some(f2)) ]
  {
    var list := Slice([a, c]);
    var root := Struct([(f0, x), (f1, list), (f2, Ptr(None))]);
    var k0, k1, k2 := FieldKey(f0), FieldKey(f1), FieldKey(f2);
    var br := [root];
    assert [] + [root] == br;
    ThreeFields(f0, f1, f2, x, list, Ptr(None), [], []);
    assert [] + [k0] == [k0] && [] + [k1] == [k1] && [] + [k2] == [k2];
    var e0, e1, e2 := Event(x, br, [k0], Some(f0)), Event(list, br, [k1], Some(f1)),
                      Event(Ptr(None), br, [k2], Some(f2));
    CallCount(x, br, [k0]);
    assert WalkFrom(x, br, [k0]) == [];
    assert WalkFrom(Ptr(None), br, [k2]) == [];
    TwoLeafSlice(a, c, br, [k1]);
    assert [k1] + ["0"] == [k1, "0"] && [k1] + ["1"] == [k1, "1"];
    assert br + [list] == [root, list];
    var ea, ec := Event(a, [root, list], [k1, "0"], None), Event(c, [root, list], [k1, "1"], None);
    assert WalkFrom(list, br, [k1]) == [ea, ec];
    assert WalkTrace(root) == [e0] + [] + ([e1] + [ea, ec] + ([e2] + [] + []));
  }

  /** A struct { Name: x, Tags: [a, c], Meta: nil pointer } with leaves x, a
      and c, as (value, path, field) triples: five calls, in order name, tags,
      tags/0, tags/1 and meta, the nil pointer included and nothing beneath
      it. */
  lemma Scenario(x: Value, a: Value, c: Value)
    requires Size(x) == 0 && Size(a) == 0 && Size(c) == 0
    ensures var name, tags, meta := FieldDesc("Name", ""), FieldDesc("Tags", ""), FieldDesc("Meta", "");
            var list := Slice([a, c]);
            var root := Struct([(name, x), (tags, list), (meta, Ptr(None))]);
            Located(WalkTrace(root)) ==
              [ (x, ["name"], Some(name)),
                (list, ["tags"], Some(tags)),
                (a, ["tags", "0"], None),
                (c, ["tags", "1"], None),
                (Ptr(None), ["meta"], Some(meta)) ]
  {
    var name, tags, meta := FieldDesc("Name", ""), FieldDesc("Tags", ""), FieldDesc("Meta", "");
    assert FieldKey(name) == "name" && FieldKey(tags) == "tags" && FieldKey(meta) == "meta";
    ScenarioTrace(name, tags, meta, x, a, c);
  }

  // ---------------------------------------------------------------------------
  // The method agrees with the trace
  // ---------------------------------------------------------------------------

  /** `Walk` makes every call the trace predicts, in number `Size(root)`. */
  method WalkCount(root: Value) returns (n: nat)
    ensures n == Size(root)
  {
    var calls := Walk(root);
    CallCount(root, [], []);
    n := |calls|;
  }
}
