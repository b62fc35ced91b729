/** What follows from the clone relation: the output mirrors the input
    path by path, with the root replaced by `o2`; nothing reachable from
    `o2` is an input node; sharing inside the input is not kept; the
    traversal visits no cycle that avoids the root; and a TypeError is
    raised exactly when a `null` is in reach. */
module CloneProperties {
  import opened JsHeap
  import opened Util

  /** The boundaries of a chain do not decrease. */
  lemma {:induction false} ChainMonotone(b: seq<nat>, lo: nat, end: nat, n: nat, i: nat, j: nat)
    requires Chain(b, lo, end, n) && i <= j <= n
    ensures b[i] <= b[j]
    decreases j - i
  {
    if i < j {
      ChainMonotone(b, lo, end, n, i, j - 1);
    }
  }

  // ---------------------------------------------------------------------
  // The output mirrors the input.
  // ---------------------------------------------------------------------

  /** `w'` in `h` is the clone of the input value `w`, built in nodes
      above `o2` = |h0|. */
  ghost predicate Clones(h0: Heap, h: Heap, o1: Val, rank: map<Addr, nat>, w: Val, w': Val)
    requires Ranked(h0, o1, rank)
  {
    exists lo: nat, hi: nat :: |h0| < lo && IsCopy(h0, h, o1, |h0|, rank, w, w', lo, hi)
  }

  /** What a clone looks like: the root becomes `o2`, a primitive stays
      itself (and is never `null`), and an array or object becomes a node
      allocated after the input, of the same kind, length and keys. */
  lemma ClonesShape(h0: Heap, h: Heap, o1: Val, rank: map<Addr, nat>, w: Val, w': Val)
    requires Ranked(h0, o1, rank) && Clones(h0, h, o1, rank, w, w')
    ensures w == o1 ==> w' == Ref(|h0|)
    ensures !w.Ref? && w != o1 ==> w' == w && w != Null
    ensures w.Ref? && w != o1 ==>
      w.addr < |h0| && w'.Ref? && |h0| < w'.addr < |h| && SameShape(h0[w.addr], h[w'.addr])
    ensures w' == Ref(|h0|) <==> w == o1
  {
    var lo, hi :| |h0| < lo && IsCopy(h0, h, o1, |h0|, rank, w, w', lo, hi);
  }

  /** The values of an array or object root are cloned one after another
      into the consecutive ranges of a chain above `o2`, and `o2` holds the
      copies in order. */
  lemma RootChain(h0: Heap, h: Heap, o1: Val, rank: map<Addr, nat>) returns (b: seq<nat>)
    requires Ranked(h0, o1, rank) && IsRootCopy(h0, h, o1, rank) && o1.Ref?
    ensures |h0| < |h| && |Children(h[|h0|])| == |Children(h0[o1.addr])|
    ensures Chain(b, |h0|, |h|, |Children(h0[o1.addr])|)
    ensures forall i :: 0 <= i < |Children(h0[o1.addr])| ==>
      IsCopy(h0, h, o1, |h0|, rank, Children(h0[o1.addr])[i], Children(h[|h0|])[i], b[i], b[i + 1])
  {
    var es := OwnEntries(h0, o1).value;
    b :| Chain(b, |h0|, |h|, |es|) &&
      forall i :: 0 <= i < |es| ==>
        IsCopy(h0, h, o1, |h0|, rank, Values(es)[i], Children(h[|h0|])[i], b[i], b[i + 1]);
    assert |Children(h[|h0|])| == |Keys(h[|h0|].props)|;
  }

  /** The i-th value of `o1` is cloned into the i-th value of `o2`. */
  lemma RootChild(h0: Heap, h: Heap, o1: Val, rank: map<Addr, nat>, j: nat)
    requires Ranked(h0, o1, rank) && IsRootCopy(h0, h, o1, rank) && o1.Ref?
    requires j < |Children(h0[o1.addr])|
    ensures |h0| < |h| && j < |Children(h[|h0|])|
    ensures Clones(h0, h, o1, rank, Children(h0[o1.addr])[j], Children(h[|h0|])[j])
  {
    var b := RootChain(h0, h, o1, rank);
    assert IsCopy(h0, h, o1, |h0|, rank, Children(h0[o1.addr])[j], Children(h[|h0|])[j], b[j], b[j + 1]);
  }

  /** The i-th value of a cloned container other than the root is cloned
      into the i-th value of its copy. */
  lemma ContainerChild(h0: Heap, h: Heap, o1: Val, rank: map<Addr, nat>, w: Val, w': Val, j: nat)
    requires Ranked(h0, o1, rank) && Clones(h0, h, o1, rank, w, w')
    requires w.Ref? && w != o1 && w.addr < |h0| && j < |Children(h0[w.addr])|
    ensures w'.Ref? && w'.addr < |h| && j < |Children(h[w'.addr])|
    ensures Clones(h0, h, o1, rank, Children(h0[w.addr])[j], Children(h[w'.addr])[j])
  {
    var lo, hi :| |h0| < lo && IsCopy(h0, h, o1, |h0|, rank, w, w', lo, hi);
    var kids := Children(h0[w.addr]);
    var b :| Chain(b, lo, hi, |kids|) &&
      forall i :: 0 <= i < |kids| ==>
        IsCopy(h0, h, o1, |h0|, rank, kids[i], Children(h[lo])[i], b[i], b[i + 1]);
    assert IsCopy(h0, h, o1, |h0|, rank, kids[j], Children(h[lo])[j], b[j], b[j + 1]);
  }

  /** A descent by one position keeps the clone relation. */
  lemma CloneChild(h0: Heap, h: Heap, o1: Val, rank: map<Addr, nat>, w: Val, w': Val, j: nat)
    requires Ranked(h0, o1, rank) && IsRootCopy(h0, h, o1, rank) && o1.Ref?
    requires Clones(h0, h, o1, rank, w, w') && w.Ref? && w.addr < |h0|
    requires j < |Children(h0[w.addr])|
    ensures w'.Ref? && w'.addr < |h| && j < |Children(h[w'.addr])|
    ensures Clones(h0, h, o1, rank, Children(h0[w.addr])[j], Children(h[w'.addr])[j])
  {
    if w == o1 {
      ClonesShape(h0, h, o1, rank, w, w');
      RootChild(h0, h, o1, rank, j);
    } else {
      ContainerChild(h0, h, o1, rank, w, w', j);
    }
  }

  lemma {:induction false} FollowClones(h0: Heap, h: Heap, o1: Val, rank: map<Addr, nat>,
                                        w: Val, w': Val, p: seq<nat>)
    requires Ranked(h0, o1, rank) && IsRootCopy(h0, h, o1, rank) && o1.Ref?
    requires Clones(h0, h, o1, rank, w, w') && Follow(h0, w, p).Some?
    ensures Follow(h, w', p).Some?
    ensures Clones(h0, h, o1, rank, Follow(h0, w, p).value, Follow(h, w', p).value)
    decreases |p|
  {
    if p != [] {
      CloneChild(h0, h, o1, rank, w, w', p[0]);
      FollowClones(h0, h, o1, rank, Children(h0[w.addr])[p[0]], Children(h[w'.addr])[p[0]], p[1..]);
    }
  }

  /** Whatever a path of positions reaches from the input object `o1`, the
      same path reaches from `o2` its image: `o1` itself, at any depth,
      becomes `o2` and nothing else does; a primitive is the same value;
      an array or object is a freshly allocated node of the same kind,
      length and keys. */
  lemma CloneMirrors(h0: Heap, h: Heap, o1: Val, rank: map<Addr, nat>, p: seq<nat>)
    requires Ranked(h0, o1, rank) && IsRootCopy(h0, h, o1, rank) && o1.Ref?
    requires Follow(h0, o1, p).Some?
    ensures Follow(h, Ref(|h0|), p).Some?
    ensures var z, z' := Follow(h0, o1, p).value, Follow(h, Ref(|h0|), p).value;
      && (z' == Ref(|h0|) <==> z == o1)
      && (!z.Ref? ==> z' == z && z != Null)
      && (z.Ref? && z != o1 ==>
            z.addr < |h0| && z'.Ref? && |h0| < z'.addr < |h| && SameShape(h0[z.addr], h[z'.addr]))
  {
    assert IsCopy(h0, h, o1, |h0|, rank, o1, Ref(|h0|), |h0| + 1, |h0| + 1);
    FollowClones(h0, h, o1, rank, o1, Ref(|h0|), p);
    ClonesShape(h0, h, o1, rank, Follow(h0, o1, p).value, Follow(h, Ref(|h0|), p).value);
  }

  // ---------------------------------------------------------------------
  // Freshness and sharing.
  // ---------------------------------------------------------------------

  lemma {:induction false} FollowWithin(h: Heap, lo: nat, o2: Addr, v: Val, p: seq<nat>)
    requires Closed(h, lo, |h|, o2) && ValWithin(v, lo, |h|, o2) && lo <= o2 < |h|
    requires Follow(h, v, p).Some?
    ensures ValWithin(Follow(h, v, p).value, lo, |h|, o2)
    decreases |p|
  {
    if p != [] {
      assert ValWithin(Children(h[v.addr])[p[0]], lo, |h|, o2);
      FollowWithin(h, lo, o2, Children(h[v.addr])[p[0]], p[1..]);
    }
  }

  /** Every node reachable from `o2` after `clone` was allocated by it: no
      container of the input is reachable from the result. */
  lemma ReachableFresh(h0: Heap, h: Heap, p: seq<nat>)
    requires |h0| < |h| && Closed(h, |h0|, |h|, |h0|)
    requires Follow(h, Ref(|h0|), p).Some? && Follow(h, Ref(|h0|), p).value.Ref?
    ensures |h0| <= Follow(h, Ref(|h0|), p).value.addr < |h|
  {
    FollowWithin(h, |h0|, |h0|, Ref(|h0|), p);
  }

  /** Values cloned one after another into consecutive ranges: two of
      them that are arrays or objects other than the root get copies at
      two different addresses, the starts of their ranges. */
  lemma CopiesDistinct(h0: Heap, h: Heap, o1: Val, o2: Addr, rank: map<Addr, nat>,
                       kids: seq<Val>, outs: seq<Val>, b: seq<nat>, lo: nat, hi: nat, i: nat, j: nat)
    requires Ranked(h0, o1, rank) && Chain(b, lo, hi, |kids|) && |outs| == |kids|
    requires forall k :: 0 <= k < |kids| ==> IsCopy(h0, h, o1, o2, rank, kids[k], outs[k], b[k], b[k + 1])
    requires i < j < |kids| && kids[i].Ref? && kids[i] != o1 && kids[j].Ref? && kids[j] != o1
    ensures outs[i] != outs[j]
  {
    assert IsCopy(h0, h, o1, o2, rank, kids[i], outs[i], b[i], b[i + 1]);
    assert IsCopy(h0, h, o1, o2, rank, kids[j], outs[j], b[j], b[j + 1]);
    ChainMonotone(b, lo, hi, |kids|, i + 1, j);
  }

  /** Two values of a container that are arrays or objects other than the
      root get two distinct copies, even when they are the same input
      node: `deepClone` keeps no table of what it has already copied. */
  lemma SharingNotPreserved(h0: Heap, h: Heap, o1: Val, o2: Addr, rank: map<Addr, nat>,
                            v: Val, r: Val, lo: nat, hi: nat, i: nat, j: nat)
    requires Ranked(h0, o1, rank) && IsCopy(h0, h, o1, o2, rank, v, r, lo, hi)
    requires v.Ref? && v != o1 && i < j < |Children(h0[v.addr])|
    requires Children(h0[v.addr])[i].Ref? && Children(h0[v.addr])[i] != o1
    requires Children(h0[v.addr])[j].Ref? && Children(h0[v.addr])[j] != o1
    ensures r.Ref? && r.addr < |h| && j < |Children(h[r.addr])|
    ensures Children(h[r.addr])[i] != Children(h[r.addr])[j]
  {
    var kids := Children(h0[v.addr]);
    var b :| Chain(b, lo, hi, |kids|) &&
      forall k :: 0 <= k < |kids| ==>
        IsCopy(h0, h, o1, o2, rank, kids[k], Children(h[lo])[k], b[k], b[k + 1]);
    CopiesDistinct(h0, h, o1, o2, rank, kids, Children(h[lo]), b, lo, hi, i, j);
  }

  /** The same for two values of the root, which become two properties
      of `o2`. */
  lemma RootSharingNotPreserved(h0: Heap, h: Heap, o1: Val, rank: map<Addr, nat>, i: nat, j: nat)
    requires Ranked(h0, o1, rank) && IsRootCopy(h0, h, o1, rank) && o1.Ref?
    requires i < j < |Children(h0[o1.addr])|
    requires Children(h0[o1.addr])[i].Ref? && Children(h0[o1.addr])[i] != o1
    requires Children(h0[o1.addr])[j].Ref? && Children(h0[o1.addr])[j] != o1
    ensures |h0| < |h| && j < |Children(h[|h0|])|
    ensures Children(h[|h0|])[i] != Children(h[|h0|])[j]
  {
    var b := RootChain(h0, h, o1, rank);
    CopiesDistinct(h0, h, o1, |h0|, rank, Children(h0[o1.addr]), Children(h[|h0|]), b, |h0|, |h|, i, j);
  }

  /** The copy of an array or object other than the root: a new node at
      `lo` whose i-th value is the copy of the input's i-th value, built in
      the i-th range of a chain over (lo, hi). */
  lemma CopyChain(h0: Heap, h: Heap, o1: Val, o2: Addr, rank: map<Addr, nat>,
                  v: Val, r: Val, lo: nat, hi: nat) returns (b: seq<nat>)
    requires Ranked(h0, o1, rank) && IsCopy(h0, h, o1, o2, rank, v, r, lo, hi)
    requires v.Ref? && v != o1
    ensures v.addr < |h0| && r == Ref(lo) && lo < hi <= |h|
    ensures |Children(h[lo])| == |Children(h0[v.addr])|
    ensures Chain(b, lo, hi, |Children(h0[v.addr])|)
    ensures forall i :: 0 <= i < |Children(h0[v.addr])| ==>
      IsCopy(h0, h, o1, o2, rank, Children(h0[v.addr])[i], Children(h[lo])[i], b[i], b[i + 1])
  {
    var kids := Children(h0[v.addr]);
    b :| Chain(b, lo, hi, |kids|) &&
      forall i :: 0 <= i < |kids| ==>
        IsCopy(h0, h, o1, o2, rank, kids[i], Children(h[lo])[i], b[i], b[i + 1]);
  }

  /** Whatever a walk from `v` reaches has its copy at the end of the same
      path from `v`'s copy, built inside `v`'s range, and strictly above
      the node at `lo` when the walk descends at all. */
  lemma {:induction false} WalkCopy(h0: Heap, h: Heap, o1: Val, o2: Addr, rank: map<Addr, nat>,
                                    v: Val, r: Val, lo: nat, hi: nat, p: seq<nat>)
    returns (lo': nat, hi': nat)
    requires Ranked(h0, o1, rank) && IsCopy(h0, h, o1, o2, rank, v, r, lo, hi)
    requires Walk(h0, o1, v, p).Some?
    ensures Follow(h, r, p).Some?
    ensures lo <= lo' <= hi' <= hi && (p != [] ==> lo < lo')
    ensures IsCopy(h0, h, o1, o2, rank, Walk(h0, o1, v, p).value, Follow(h, r, p).value, lo', hi')
    decreases |p|
  {
    if p == [] {
      lo', hi' := lo, hi;
    } else {
      var b := CopyChain(h0, h, o1, o2, rank, v, r, lo, hi);
      var k := p[0];
      ChainMonotone(b, lo, hi, |Children(h0[v.addr])|, 0, k);
      ChainMonotone(b, lo, hi, |Children(h0[v.addr])|, k + 1, |Children(h0[v.addr])|);
      lo', hi' := WalkCopy(h0, h, o1, o2, rank, Children(h0[v.addr])[k], Children(h[lo])[k],
                           b[k], b[k + 1], p[1..]);
    }
  }

  /** Where a walk reaches an array or object other than the root, its
      copy lies in the range that walk's copy was built in. */
  lemma WalkCopyAt(h0: Heap, h: Heap, o1: Val, o2: Addr, rank: map<Addr, nat>,
                   v: Val, r: Val, lo: nat, hi: nat, p: seq<nat>)
    requires Ranked(h0, o1, rank) && IsCopy(h0, h, o1, o2, rank, v, r, lo, hi)
    requires Walk(h0, o1, v, p).Some? && Walk(h0, o1, v, p).value.Ref? && Walk(h0, o1, v, p).value != o1
    ensures Follow(h, r, p).Some? && Follow(h, r, p).value.Ref?
    ensures lo <= Follow(h, r, p).value.addr < hi
    ensures p != [] ==> lo < Follow(h, r, p).value.addr
  {
    var lo', hi' := WalkCopy(h0, h, o1, o2, rank, v, r, lo, hi, p);
    var _ := CopyChain(h0, h, o1, o2, rank, Walk(h0, o1, v, p).value, Follow(h, r, p).value, lo', hi');
  }

  /** Walks from two different values of one container, cloned into the
      ranges of a chain, reach arrays or objects whose copies differ. */
  lemma SiblingWalksDistinct(h0: Heap, h: Heap, o1: Val, o2: Addr, rank: map<Addr, nat>,
                             kids: seq<Val>, outs: seq<Val>, b: seq<nat>, lo: nat, hi: nat,
                             i: nat, j: nat, p: seq<nat>, q: seq<nat>)
    requires Ranked(h0, o1, rank) && Chain(b, lo, hi, |kids|) && |outs| == |kids|
    requires forall k :: 0 <= k < |kids| ==> IsCopy(h0, h, o1, o2, rank, kids[k], outs[k], b[k], b[k + 1])
    requires i < |kids| && j < |kids| && i != j
    requires Walk(h0, o1, kids[i], p).Some? && Walk(h0, o1, kids[i], p).value.Ref?
    requires Walk(h0, o1, kids[i], p).value != o1
    requires Walk(h0, o1, kids[j], q).Some? && Walk(h0, o1, kids[j], q).value.Ref?
    requires Walk(h0, o1, kids[j], q).value != o1
    ensures Follow(h, outs[i], p).Some? && Follow(h, outs[j], q).Some?
    ensures Follow(h, outs[i], p).value != Follow(h, outs[j], q).value
  {
    assert IsCopy(h0, h, o1, o2, rank, kids[i], outs[i], b[i], b[i + 1]);
    assert IsCopy(h0, h, o1, o2, rank, kids[j], outs[j], b[j], b[j + 1]);
    WalkCopyAt(h0, h, o1, o2, rank, kids[i], outs[i], b[i], b[i + 1], p);
    WalkCopyAt(h0, h, o1, o2, rank, kids[j], outs[j], b[j], b[j + 1], q);
    if i < j {
      ChainMonotone(b, lo, hi, |kids|, i + 1, j);
    } else {
      ChainMonotone(b, lo, hi, |kids|, j + 1, i);
    }
  }

  /** Two different walks from a cloned array or object that reach arrays
      or objects other than the root reach two different copies, whether
      or not they reach the same input node: in `{a: x, b: {c: x}}` the
      copies of `a` and `b.c` differ. */
  lemma {:induction false} WalksDistinct(h0: Heap, h: Heap, o1: Val, o2: Addr, rank: map<Addr, nat>,
                                         v: Val, r: Val, lo: nat, hi: nat, p: seq<nat>, q: seq<nat>)
    requires Ranked(h0, o1, rank) && IsCopy(h0, h, o1, o2, rank, v, r, lo, hi) && p != q
    requires Walk(h0, o1, v, p).Some? && Walk(h0, o1, v, p).value.Ref? && Walk(h0, o1, v, p).value != o1
    requires Walk(h0, o1, v, q).Some? && Walk(h0, o1, v, q).value.Ref? && Walk(h0, o1, v, q).value != o1
    ensures Follow(h, r, p).Some? && Follow(h, r, q).Some?
    ensures Follow(h, r, p).value != Follow(h, r, q).value
    decreases |p|, 1
  {
    WalkCopyAt(h0, h, o1, o2, rank, v, r, lo, hi, p);
    WalkCopyAt(h0, h, o1, o2, rank, v, r, lo, hi, q);
    if p != [] && q != [] {
      var b := CopyChain(h0, h, o1, o2, rank, v, r, lo, hi);
      ChainWalksDistinct(h0, h, o1, o2, rank, Children(h0[v.addr]), Children(h[lo]), b, lo, hi, p, q);
    }
  }

  /** Two different paths into the values of a container, cloned into the
      ranges of a chain, that walk on to arrays or objects other than the
      root, lead to two different copies. */
  lemma {:induction false} ChainWalksDistinct(h0: Heap, h: Heap, o1: Val, o2: Addr, rank: map<Addr, nat>,
                                              kids: seq<Val>, outs: seq<Val>, b: seq<nat>, lo: nat, hi: nat,
                                              p: seq<nat>, q: seq<nat>)
    requires Ranked(h0, o1, rank) && Chain(b, lo, hi, |kids|) && |outs| == |kids|
    requires forall k :: 0 <= k < |kids| ==> IsCopy(h0, h, o1, o2, rank, kids[k], outs[k], b[k], b[k + 1])
    requires p != [] && q != [] && p != q && p[0] < |kids| && q[0] < |kids|
    requires var z := Walk(h0, o1, kids[p[0]], p[1..]); z.Some? && z.value.Ref? && z.value != o1
    requires var z := Walk(h0, o1, kids[q[0]], q[1..]); z.Some? && z.value.Ref? && z.value != o1
    ensures Follow(h, outs[p[0]], p[1..]).Some? && Follow(h, outs[q[0]], q[1..]).Some?
    ensures Follow(h, outs[p[0]], p[1..]).value != Follow(h, outs[q[0]], q[1..]).value
    decreases |p|, 0
  {
    if p[0] == q[0] {
      assert p[1..] != q[1..] by { assert p == [p[0]] + p[1..] && q == [q[0]] + q[1..]; }
      assert IsCopy(h0, h, o1, o2, rank, kids[p[0]], outs[p[0]], b[p[0]], b[p[0] + 1]);
      WalksDistinct(h0, h, o1, o2, rank, kids[p[0]], outs[p[0]], b[p[0]], b[p[0] + 1], p[1..], q[1..]);
    } else {
      SiblingWalksDistinct(h0, h, o1, o2, rank, kids, outs, b, lo, hi, p[0], q[0], p[1..], q[1..]);
    }
  }

  /** The same from the root: two different paths that step into `o1`'s
      values and then walk to arrays or objects other than the root lead
      from `o2` to two different copies. */
  lemma RootWalksDistinct(h0: Heap, h: Heap, o1: Val, rank: map<Addr, nat>, p: seq<nat>, q: seq<nat>)
    requires Ranked(h0, o1, rank) && IsRootCopy(h0, h, o1, rank) && o1.Ref?
    requires p != [] && q != [] && p != q
    requires p[0] < |Children(h0[o1.addr])| && q[0] < |Children(h0[o1.addr])|
    requires var z := Walk(h0, o1, Children(h0[o1.addr])[p[0]], p[1..]); z.Some? && z.value.Ref? && z.value != o1
    requires var z := Walk(h0, o1, Children(h0[o1.addr])[q[0]], q[1..]); z.Some? && z.value.Ref? && z.value != o1
    ensures Follow(h, Ref(|h0|), p).Some? && Follow(h, Ref(|h0|), q).Some?
    ensures Follow(h, Ref(|h0|), p).value != Follow(h, Ref(|h0|), q).value
  {
    var b := RootChain(h0, h, o1, rank);
    ChainWalksDistinct(h0, h, o1, |h0|, rank, Children(h0[o1.addr]), Children(h[|h0|]), b, |h0|, |h|, p, q);
    FollowStep(h, |h0|, p);
    FollowStep(h, |h0|, q);
  }

  lemma FollowStep(h: Heap, a: Addr, p: seq<nat>)
    requires a < |h| && p != [] && p[0] < |Children(h[a])|
    ensures Follow(h, Ref(a), p) == Follow(h, Children(h[a])[p[0]], p[1..])
  {
  }

  // ---------------------------------------------------------------------
  // Termination and the TypeError.
  // ---------------------------------------------------------------------

  /** The value `deepClone` reaches from `v` by descending into the given
      positions; it does not descend into the root, which it returns as
      `o2`.  None when the positions leave the input. */
  ghost function Walk(h: Heap, o1: Val, v: Val, p: seq<nat>): Option<Val>
    decreases |p|
  {
    if p == [] then Some(v)
    else if v != o1 && v.Ref? && v.addr < |h| && p[0] < |Children(h[v.addr])| then
      Walk(h, o1, Children(h[v.addr])[p[0]], p[1..])
    else None
  }

  /** Along every walk the rank strictly decreases. */
  lemma {:induction false} RankDecreases(h: Heap, o1: Val, rank: map<Addr, nat>, v: Val, p: seq<nat>)
    requires Ranked(h, o1, rank) && v.Ref? && v != o1 && v.addr in rank
    requires p != [] && Walk(h, o1, v, p).Some?
    ensures InScope(o1, rank, Walk(h, o1, v, p).value)
    ensures Depth(o1, rank, Walk(h, o1, v, p).value) < Depth(o1, rank, v)
    decreases |p|
  {
    var w := Children(h[v.addr])[p[0]];
    ChildInScope(h, o1, rank, v, p[0]);
    if p[1..] != [] {
      RankDecreases(h, o1, rank, w, p[1..]);
    }
  }

  /** So `deepClone` never meets the same array or object twice on one
      descent: every cycle it could enter passes through the root. */
  lemma NoCycleAvoidsRoot(h: Heap, o1: Val, rank: map<Addr, nat>, v: Val, p: seq<nat>)
    requires Ranked(h, o1, rank) && v.Ref? && v != o1 && v.addr in rank && p != []
    ensures Walk(h, o1, v, p) != Some(v)
  {
    if Walk(h, o1, v, p).Some? {
      RankDecreases(h, o1, rank, v, p);
    }
  }

  /** A heap with a cycle that avoids the root has no rank: `o1 = {a: x}`
      with `x = [x]`, on which `deepClone` recurses without end. */
  lemma CycleHasNoRank(rank: map<Addr, nat>)
    ensures !Ranked([Obj([Prop("a", Ref(1))]), Arr([Ref(1)])], Ref(0), rank)
  {
    var h := [Obj([Prop("a", Ref(1))]), Arr([Ref(1)])];
    assert Children(h[0])[0] == Ref(1);
    assert Children(h[1])[0] == Ref(1);
  }

  /** The rank also excludes `o1 = {a: null, b: x}` with `x = [x]`, on
      which the source raises the TypeError for `a` before it reaches `b`. */
  lemma NullBeforeCycleHasNoRank(rank: map<Addr, nat>)
    ensures !Ranked([Obj([Prop("a", Null), Prop("b", Ref(1))]), Arr([Ref(1)])], Ref(0), rank)
  {
    var h := [Obj([Prop("a", Null), Prop("b", Ref(1))]), Arr([Ref(1)])];
    assert Children(h[0])[1] == Ref(1);
    assert Children(h[1])[0] == Ref(1);
  }

  lemma {:induction false} ThrowsReachesNull(h0: Heap, o1: Val, rank: map<Addr, nat>, v: Val)
    requires Ranked(h0, o1, rank) && InScope(o1, rank, v) && Throws(h0, o1, rank, v)
    ensures o1 != Null && exists p :: Walk(h0, o1, v, p) == Some(Null)
    decreases Depth(o1, rank, v)
  {
    if v == Null {
      assert Walk(h0, o1, v, []) == Some(Null);
    } else {
      var kids := Children(h0[v.addr]);
      var i :| 0 <= i < |kids| && Throws(h0, o1, rank, kids[i]);
      ChildInScope(h0, o1, rank, v, i);
      ThrowsReachesNull(h0, o1, rank, kids[i]);
      var p :| Walk(h0, o1, kids[i], p) == Some(Null);
      assert ([i] + p)[1..] == p;
      assert Walk(h0, o1, v, [i] + p) == Some(Null);
    }
  }

  lemma {:induction false} NullWalkThrows(h0: Heap, o1: Val, rank: map<Addr, nat>, v: Val, p: seq<nat>)
    requires Ranked(h0, o1, rank) && InScope(o1, rank, v) && o1 != Null
    requires Walk(h0, o1, v, p) == Some(Null)
    ensures Throws(h0, o1, rank, v)
    decreases |p|
  {
    if p != [] {
      var kids := Children(h0[v.addr]);
      ChildInScope(h0, o1, rank, v, p[0]);
      NullWalkThrows(h0, o1, rank, kids[p[0]], p[1..]);
    }
  }

  /** Cloning a value raises a TypeError exactly when a walk from it
      reaches a `null` that is not the root. */
  lemma ThrowsIffNull(h0: Heap, o1: Val, rank: map<Addr, nat>, v: Val)
    requires Ranked(h0, o1, rank) && InScope(o1, rank, v)
    ensures Throws(h0, o1, rank, v) <==> o1 != Null && exists p :: Walk(h0, o1, v, p) == Some(Null)
  {
    if Throws(h0, o1, rank, v) {
      ThrowsReachesNull(h0, o1, rank, v);
    }
    if o1 != Null && exists p :: Walk(h0, o1, v, p) == Some(Null) {
      var p :| Walk(h0, o1, v, p) == Some(Null);
      NullWalkThrows(h0, o1, rank, v, p);
    }
  }
}
