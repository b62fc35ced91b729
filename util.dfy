/** The structural cloner of game2/src/util.js: `clone(o1)` allocates a new
    plain object `o2` and fills it with the clones of `o1`'s own properties;
    the inner `deepClone(v)` replaces every occurrence of `o1` by `o2`,
    copies arrays and objects into freshly allocated ones and returns every
    other value unchanged.

    The heap is passed in and the updated heap returned, so each method
    states the whole heap it leaves behind.  The meaning of a clone is the
    relation IsCopy below: it fixes where in the heap each copy lies and
    what it holds, with the copies of a container's values in consecutive
    ranges in index order, the order in which the source allocates them. */
module Util {
  import opened JsHeap

  // ---------------------------------------------------------------------
  // Termination: the traversal stops because every cycle passes the root.
  // ---------------------------------------------------------------------

  /** `rank` covers every node the traversal can reach from the root's own
      properties without passing the root, and a child of a ranked node
      that is not the root is ranked lower than its parent.  Such a rank
      exists exactly when no cycle that avoids the root is reachable. */
  ghost predicate Ranked(h: Heap, o1: Val, rank: map<Addr, nat>)
  {
    && (forall a :: a in rank ==> a < |h|)
    && (forall a, j :: a in rank && Ref(a) != o1 && 0 <= j < |Children(h[a])| ==>
          var c := Children(h[a])[j];
          c.Ref? && c != o1 ==> c.addr in rank && rank[c.addr] < rank[a])
    && (o1.Ref? ==>
          o1.addr < |h| &&
          forall j :: 0 <= j < |Children(h[o1.addr])| ==>
            var c := Children(h[o1.addr])[j];
            c.Ref? && c != o1 ==> c.addr in rank)
  }

  /** The traversal may be asked to clone `v`. */
  ghost predicate InScope(o1: Val, rank: map<Addr, nat>, v: Val)
  {
    v.Ref? && v != o1 ==> v.addr in rank
  }

  /** How many more nested calls cloning `v` can make. */
  ghost function Depth(o1: Val, rank: map<Addr, nat>, v: Val): nat
  {
    if v.Ref? && v != o1 && v.addr in rank then rank[v.addr] + 1 else 0
  }

  lemma ChildInScope(h: Heap, o1: Val, rank: map<Addr, nat>, v: Val, i: nat)
    requires Ranked(h, o1, rank) && v.Ref? && v != o1 && v.addr in rank
    requires i < |Children(h[v.addr])|
    ensures InScope(o1, rank, Children(h[v.addr])[i])
    ensures Depth(o1, rank, Children(h[v.addr])[i]) < Depth(o1, rank, v)
  {
    var w := Children(h[v.addr])[i];
    if w.Ref? && w != o1 {
      assert Ref(w.addr) in Children(h[v.addr]);
    }
  }

  // ---------------------------------------------------------------------
  // What a clone is.
  // ---------------------------------------------------------------------

  /** `h'` leaves the first |h| nodes of `h` as they were. */
  ghost predicate Extends(h: Heap, h': Heap)
  {
    |h| <= |h'| && forall k :: 0 <= k < |h| ==> h'[k] == h[k]
  }

  /** The heap ranges [b[0], b[1]), ..., [b[n-1], b[n]) tile (lo, end). */
  ghost predicate Chain(b: seq<nat>, lo: nat, end: nat, n: nat)
  {
    |b| == n + 1 && b[0] == lo + 1 && b[n] == end &&
    (forall i :: 0 <= i <= n ==> lo + 1 <= b[i] <= end) &&
    (forall i :: 0 <= i < n ==> b[i] <= b[i + 1])
  }

  /** The copy of a node has the same kind, the same length and, for an
      object, the same keys in the same order. */
  ghost predicate SameShape(src: Node, dst: Node)
  {
    |Children(dst)| == |Children(src)| &&
    ((src.Arr? && dst.Arr?) || (src.Obj? && dst.Obj? && Keys(dst.props) == Keys(src.props)))
  }

  /** `r` is what cloning the input value `v` yields, and the nodes
      allocated for it are exactly those at [lo, hi) in `h`; the input
      nodes are read from `h0`.  The root becomes `o2` and allocates
      nothing; a primitive is itself; `null` has no clone; an array or
      object becomes a new node at `lo` of the same shape whose i-th value
      is the clone of the input's i-th value, built in the i-th of
      consecutive sub-ranges of (lo, hi). */
  ghost predicate IsCopy(h0: Heap, h: Heap, o1: Val, o2: Addr, rank: map<Addr, nat>,
                         v: Val, r: Val, lo: nat, hi: nat)
    requires Ranked(h0, o1, rank)
    decreases Depth(o1, rank, v)
  {
    lo <= hi <= |h| &&
    if v == o1 then r == Ref(o2) && lo == hi
    else if v.Ref? then
      v.addr in rank && lo < hi && r == Ref(lo) && SameShape(h0[v.addr], h[lo]) &&
      var kids := Children(h0[v.addr]);
      exists b: seq<nat> :: Chain(b, lo, hi, |kids|) &&
        forall i :: 0 <= i < |kids| ==>
          IsCopy(h0, h, o1, o2, rank, kids[i], Children(h[lo])[i], b[i], b[i + 1])
    else v != Null && r == v && lo == hi
  }

  /** Cloning `v` raises a TypeError: `v` is a `null` other than the root
      (`typeof null` is "object" and `Object.keys(null)` throws), or a
      container one of whose values raises it. */
  ghost predicate Throws(h0: Heap, o1: Val, rank: map<Addr, nat>, v: Val)
    requires Ranked(h0, o1, rank)
    decreases Depth(o1, rank, v)
  {
    v != o1 &&
    (v == Null ||
     (v.Ref? && v.addr in rank &&
      exists i :: 0 <= i < |Children(h0[v.addr])| && Throws(h0, o1, rank, Children(h0[v.addr])[i])))
  }

  /** The heap after `clone(o1)` holds at |h0| a plain object whose keys are
      `Object.keys(o1)` in order and whose values are the clones of `o1`'s
      values, built one after another in the nodes above it. */
  ghost predicate IsRootCopy(h0: Heap, h: Heap, o1: Val, rank: map<Addr, nat>)
    requires Ranked(h0, o1, rank)
  {
    var es := OwnEntries(h0, o1);
    var o2 := |h0|;
    es.Ok? && o2 < |h| && h[o2].Obj? && Keys(h[o2].props) == Keys(es.value) &&
    exists b: seq<nat> :: Chain(b, o2, |h|, |es.value|) &&
      forall i :: 0 <= i < |es.value| ==>
        IsCopy(h0, h, o1, o2, rank, Values(es.value)[i], Children(h[o2])[i], b[i], b[i + 1])
  }

  /** `clone(o1)` raises a TypeError: `Object.keys(o1)` does, or cloning one
      of `o1`'s values does. */
  ghost predicate RootThrows(h0: Heap, o1: Val, rank: map<Addr, nat>)
    requires Ranked(h0, o1, rank)
  {
    var es := OwnEntries(h0, o1);
    es.Err? || exists i :: 0 <= i < |es.value| && Throws(h0, o1, rank, es.value[i].value)
  }

  /** A reference held in the region [lo, hi) points back into it or to `o2`. */
  ghost predicate ValWithin(x: Val, lo: nat, hi: nat, o2: Addr)
  {
    x.Ref? ==> x.addr == o2 || lo <= x.addr < hi
  }

  /** No node in [lo, hi) refers outside [lo, hi) except to `o2`. */
  ghost predicate Closed(h: Heap, lo: nat, hi: nat, o2: Addr)
  {
    lo <= hi <= |h| &&
    forall k, j :: lo <= k < hi && 0 <= j < |Children(h[k])| ==> ValWithin(Children(h[k])[j], lo, hi, o2)
  }

  // ---------------------------------------------------------------------
  // Facts the methods use.
  // ---------------------------------------------------------------------

  /** A copy reads only the nodes it was built in. */
  lemma {:induction false} IsCopyFrame(h0: Heap, h: Heap, h': Heap, o1: Val, o2: Addr, rank: map<Addr, nat>,
                                       v: Val, r: Val, lo: nat, hi: nat)
    requires Ranked(h0, o1, rank)
    requires IsCopy(h0, h, o1, o2, rank, v, r, lo, hi)
    requires hi <= |h'| && forall k :: lo <= k < hi ==> h'[k] == h[k]
    ensures IsCopy(h0, h', o1, o2, rank, v, r, lo, hi)
    decreases Depth(o1, rank, v)
  {
    if v != o1 && v.Ref? {
      var kids := Children(h0[v.addr]);
      var b :| Chain(b, lo, hi, |kids|) &&
        forall i :: 0 <= i < |kids| ==>
          IsCopy(h0, h, o1, o2, rank, kids[i], Children(h[lo])[i], b[i], b[i + 1]);
      assert h'[lo] == h[lo];
      forall i | 0 <= i < |kids|
        ensures IsCopy(h0, h', o1, o2, rank, kids[i], Children(h'[lo])[i], b[i], b[i + 1])
      {
        assert b[0] <= b[i] && b[i + 1] <= b[|kids|];
        ChildInScope(h0, o1, rank, v, i);
        IsCopyFrame(h0, h, h', o1, o2, rank, kids[i], Children(h[lo])[i], b[i], b[i + 1]);
      }
      assert Chain(b, lo, hi, |kids|);
    }
  }

  /** The value a clone yields points only into its own nodes or at `o2`. */
  lemma CopyWithin(h0: Heap, h: Heap, o1: Val, o2: Addr, rank: map<Addr, nat>,
                   v: Val, r: Val, lo: nat, hi: nat)
    requires Ranked(h0, o1, rank)
    requires IsCopy(h0, h, o1, o2, rank, v, r, lo, hi)
    ensures ValWithin(r, lo, hi, o2)
  {
  }

  lemma ClosedJoin(h1: Heap, h2: Heap, lo: nat, o2: Addr)
    requires lo <= |h1| && Closed(h1, lo, |h1|, o2) && Extends(h1, h2) && Closed(h2, |h1|, |h2|, o2)
    ensures Closed(h2, lo, |h2|, o2)
  {
    forall k, j | lo <= k < |h2| && 0 <= j < |Children(h2[k])|
      ensures ValWithin(Children(h2[k])[j], lo, |h2|, o2)
    {
      if k < |h1| {
        assert h2[k] == h1[k];
        assert ValWithin(Children(h1[k])[j], lo, |h1|, o2);
      } else {
        assert ValWithin(Children(h2[k])[j], |h1|, |h2|, o2);
      }
    }
  }

  lemma ClosedUpdate(h: Heap, lo: nat, o2: Addr, k: nat, n: Node)
    requires Closed(h, lo, |h|, o2) && lo <= k < |h|
    requires forall j :: 0 <= j < |Children(n)| ==> ValWithin(Children(n)[j], lo, |h|, o2)
    ensures Closed(h[k := n], lo, |h|, o2)
  {
  }

  lemma EntryInScope(h0: Heap, o1: Val, rank: map<Addr, nat>, i: nat)
    requires Ranked(h0, o1, rank) && OwnEntries(h0, o1).Ok?
    requires i < |OwnEntries(h0, o1).value|
    ensures InScope(o1, rank, OwnEntries(h0, o1).value[i].value)
  {
    var es := OwnEntries(h0, o1).value;
    var w := es[i].value;
    assert w == Values(es)[i];
    if o1.Ref? {
      if w.Ref? && w != o1 {
        assert Ref(w.addr) in Children(h0[o1.addr]);
      }
    }
  }

  /** The first i values of `kids` have been cloned into `outs`, one after
      another in the ranges `b` tiles, above `lo`, up to the end of `h`. */
  ghost predicate CopiedSoFar(h0: Heap, h: Heap, o1: Val, o2: Addr, rank: map<Addr, nat>,
                              kids: seq<Val>, outs: seq<Val>, b: seq<nat>, lo: nat, i: nat)
    requires Ranked(h0, o1, rank)
  {
    i <= |kids| && i <= |outs| && Chain(b, lo, |h|, i) &&
    forall j :: 0 <= j < i ==> IsCopy(h0, h, o1, o2, rank, kids[j], outs[j], b[j], b[j + 1])
  }

  /** One more value cloned above the others and stored at position i of
      the node at `lo`, leaving the earlier positions as they were. */
  lemma CopiedStep(h0: Heap, h1: Heap, hc: Heap, o1: Val, o2: Addr, rank: map<Addr, nat>,
                   kids: seq<Val>, b: seq<nat>, lo: nat, i: nat, x: Val, n: Node)
    requires Ranked(h0, o1, rank)
    requires lo < |h1| && i < |kids|
    requires CopiedSoFar(h0, h1, o1, o2, rank, kids, Children(h1[lo]), b, lo, i)
    requires Extends(h1, hc)
    requires IsCopy(h0, hc, o1, o2, rank, kids[i], x, |h1|, |hc|)
    requires i < |Children(n)| && Children(n)[i] == x
    requires forall j :: 0 <= j < i ==> Children(n)[j] == Children(h1[lo])[j]
    ensures CopiedSoFar(h0, hc[lo := n], o1, o2, rank, kids, Children(n), b + [|hc|], lo, i + 1)
  {
    var h2 := hc[lo := n];
    var b2 := b + [|hc|];
    forall j | 0 <= j < i
      ensures IsCopy(h0, h2, o1, o2, rank, kids[j], Children(n)[j], b2[j], b2[j + 1])
    {
      assert b[0] <= b[j] && b[j + 1] <= b[i];
      IsCopyFrame(h0, h1, h2, o1, o2, rank, kids[j], Children(h1[lo])[j], b[j], b[j + 1]);
    }
    IsCopyFrame(h0, hc, h2, o1, o2, rank, kids[i], x, |h1|, |hc|);
  }

  /** One more step of the traversal keeps the allocated region closed. */
  lemma ClosedStep(h1: Heap, hc: Heap, lo: nat, o2: Addr, i: nat, x: Val, n: Node)
    requires lo < |h1| && Closed(h1, lo, |h1|, o2) && Extends(h1, hc) && Closed(hc, |h1|, |hc|, o2)
    requires ValWithin(x, |h1|, |hc|, o2)
    requires i < |Children(n)| && Children(n)[i] == x
    requires forall j :: 0 <= j < |Children(n)| && j != i ==> Children(n)[j] in Children(h1[lo])
    ensures Closed(hc[lo := n], lo, |hc|, o2)
  {
    ClosedJoin(h1, hc, lo, o2);
    assert hc[lo] == h1[lo];
    forall j | 0 <= j < |Children(n)| ensures ValWithin(Children(n)[j], lo, |hc|, o2) {
      if j != i {
        var k :| 0 <= k < |Children(h1[lo])| && Children(h1[lo])[k] == Children(n)[j];
        assert ValWithin(Children(hc[lo])[k], lo, |hc|, o2);
      }
    }
    ClosedUpdate(hc, lo, o2, lo, n);
  }

  /** The state of a traversal that is filling the node at `lo`, allocated
      just above `hb`, with the clones of `kids`: the first i are done, and
      none of them raised. */
  ghost predicate Filling(h0: Heap, hb: Heap, h: Heap, o1: Val, o2: Addr, rank: map<Addr, nat>,
                          kids: seq<Val>, b: seq<nat>, lo: nat, i: nat)
    requires Ranked(h0, o1, rank)
  {
    && Extends(h0, hb) && Extends(hb, h) && lo == |hb| < |h|
    && CopiedSoFar(h0, h, o1, o2, rank, kids, Children(h[lo]), b, lo, i)
    && (forall j :: 0 <= j < i ==> !Throws(h0, o1, rank, kids[j]))
    && Closed(h, lo, |h|, o2)
  }

  lemma FillingStart(h0: Heap, hb: Heap, o1: Val, o2: Addr, rank: map<Addr, nat>, kids: seq<Val>, n: Node)
    requires Ranked(h0, o1, rank) && Extends(h0, hb)
    requires forall j :: 0 <= j < |Children(n)| ==> Children(n)[j] == Undefined
    ensures Filling(h0, hb, hb + [n], o1, o2, rank, kids, [|hb| + 1], |hb|, 0)
  {
  }

  /** The traversal's step: the i-th value is cloned above the others into
      `hc` and stored as the i-th value of the node at `lo`. */
  lemma FillingStep(h0: Heap, hb: Heap, h: Heap, hc: Heap, o1: Val, o2: Addr, rank: map<Addr, nat>,
                    kids: seq<Val>, b: seq<nat>, lo: nat, i: nat, x: Val, n: Node)
    requires Ranked(h0, o1, rank) && i < |kids|
    requires Filling(h0, hb, h, o1, o2, rank, kids, b, lo, i)
    requires Extends(h, hc) && Closed(hc, |h|, |hc|, o2)
    requires IsCopy(h0, hc, o1, o2, rank, kids[i], x, |h|, |hc|) && !Throws(h0, o1, rank, kids[i])
    requires i < |Children(n)| && Children(n)[i] == x
    requires forall j :: 0 <= j < i ==> Children(n)[j] == Children(h[lo])[j]
    requires forall j :: 0 <= j < |Children(n)| && j != i ==> Children(n)[j] in Children(h[lo])
    ensures Filling(h0, hb, hc[lo := n], o1, o2, rank, kids, b + [|hc|], lo, i + 1)
  {
    assert ValWithin(x, |h|, |hc|, o2) by {
      CopyWithin(h0, hc, o1, o2, rank, kids[i], x, |h|, |hc|);
    }
    ClosedStep(h, hc, lo, o2, i, x, n);
    CopiedStep(h0, h, hc, o1, o2, rank, kids, b, lo, i, x, n);
  }

  /** All values of a container cloned into a node of its shape at `lo`:
      that node is the container's clone, and nothing raised. */
  lemma FillingDone(h0: Heap, hb: Heap, h: Heap, o1: Val, o2: Addr, rank: map<Addr, nat>,
                    v: Val, b: seq<nat>, lo: nat)
    requires Ranked(h0, o1, rank)
    requires v.Ref? && v != o1 && v.addr in rank
    requires Filling(h0, hb, h, o1, o2, rank, Children(h0[v.addr]), b, lo, |Children(h0[v.addr])|)
    requires SameShape(h0[v.addr], h[lo])
    ensures IsCopy(h0, h, o1, o2, rank, v, Ref(lo), lo, |h|)
    ensures !Throws(h0, o1, rank, v)
  {
    assert Chain(b, lo, |h|, |Children(h0[v.addr])|);
  }

  // ---------------------------------------------------------------------
  // The cloner.
  // ---------------------------------------------------------------------

  /** `deepClone(v)`, for the root `o1` and the new root `o2`.  The input
      nodes are those of `h0`; `h` is the heap so far.  It writes only the
      nodes it allocates; it raises a TypeError exactly when `v` has a
      nested `null`, and otherwise returns the clone of `v`, built in the
      nodes it allocated, which refer only to one another and to `o2`. */
  method DeepClone(h: Heap, ghost h0: Heap, o1: Val, o2: Addr, ghost rank: map<Addr, nat>, v: Val)
    returns (h': Heap, r: Result<Val>)
    requires Ranked(h0, o1, rank) && KeysDistinct(h0)
    requires o2 == |h0| < |h| && Extends(h0, h)
    requires InScope(o1, rank, v)
    ensures Extends(h, h')
    ensures r.Err? <==> Throws(h0, o1, rank, v)
    ensures r.Ok? ==> IsCopy(h0, h', o1, o2, rank, v, r.value, |h|, |h'|)
    ensures Closed(h', |h|, |h'|, o2)
    decreases Depth(o1, rank, v), 3
  {
    if v == o1 {
      h', r := h, Ok(Ref(o2));
    } else if v.Ref? {
      assert h[v.addr] == h0[v.addr];
      if h[v.addr].Arr? {
        h', r := CloneArray(h, h0, o1, o2, rank, v);
      } else {
        h', r := CloneObject(h, h0, o1, o2, rank, v);
      }
    } else if v == Null {
      h', r := h, Err(TypeError);
    } else {
      h', r := h, Ok(v);
    }
  }

  /** The array branch of `deepClone`: a new array of the same length,
      whose i-th element is set to the clone of the i-th input element. */
  method CloneArray(h: Heap, ghost h0: Heap, o1: Val, o2: Addr, ghost rank: map<Addr, nat>, v: Val)
    returns (h': Heap, r: Result<Val>)
    requires Ranked(h0, o1, rank) && KeysDistinct(h0)
    requires o2 == |h0| < |h| && Extends(h0, h)
    requires v.Ref? && v != o1 && v.addr in rank && h0[v.addr].Arr?
    ensures Extends(h, h')
    ensures r.Err? <==> Throws(h0, o1, rank, v)
    ensures r.Ok? ==> IsCopy(h0, h', o1, o2, rank, v, r.value, |h|, |h'|)
    ensures Closed(h', |h|, |h'|, o2)
    decreases Depth(o1, rank, v), 2
  {
    var es := h[v.addr].elems;
    ghost var kids := Children(h0[v.addr]);
    assert es == kids;
    var lo := |h|;
    var ar := Arr(seq(|es|, _ => Undefined));
    FillingStart(h0, h, o1, o2, rank, kids, ar);
    h' := h + [ar];
    ghost var b: seq<nat> := [lo + 1];
    var i := 0;
    while i < |es|
      invariant 0 <= i <= |es|
      invariant Filling(h0, h, h', o1, o2, rank, kids, b, lo, i)
      invariant h'[lo].Arr? && |h'[lo].elems| == |es|
    {
      ChildInScope(h0, o1, rank, v, i);
      var hc, rc := DeepClone(h', h0, o1, o2, rank, es[i]);
      if rc.Err? {
        ClosedJoin(h', hc, lo, o2);
        return hc, rc;
      }
      var n := Arr(hc[lo].elems[i := rc.value]);
      FillingStep(h0, h, h', hc, o1, o2, rank, kids, b, lo, i, rc.value, n);
      h', b, i := hc[lo := n], b + [|hc|], i + 1;
    }
    FillingDone(h0, h, h', o1, o2, rank, v, b, lo);
    r := Ok(Ref(lo));
  }

  /** The object branch of `deepClone`: a new plain object that receives,
      for each key of the input in `Object.keys` order, the clone of the
      input's value at that key. */
  method CloneObject(h: Heap, ghost h0: Heap, o1: Val, o2: Addr, ghost rank: map<Addr, nat>, v: Val)
    returns (h': Heap, r: Result<Val>)
    requires Ranked(h0, o1, rank) && KeysDistinct(h0)
    requires o2 == |h0| < |h| && Extends(h0, h)
    requires v.Ref? && v != o1 && v.addr in rank && h0[v.addr].Obj?
    ensures Extends(h, h')
    ensures r.Err? <==> Throws(h0, o1, rank, v)
    ensures r.Ok? ==> IsCopy(h0, h', o1, o2, rank, v, r.value, |h|, |h'|)
    ensures Closed(h', |h|, |h'|, o2)
    decreases Depth(o1, rank, v), 2
  {
    var ps := h[v.addr].props;
    assert ps == h0[v.addr].props && Values(ps) == Children(h0[v.addr]);
    var lo := |h|;
    FillingStart(h0, h, o1, o2, rank, Values(ps), Obj([]));
    forall j | 0 <= j < |ps|
      ensures InScope(o1, rank, ps[j].value) && Depth(o1, rank, ps[j].value) < Depth(o1, rank, v)
    {
      assert ps[j].value == Values(ps)[j];
      ChildInScope(h0, o1, rank, v, j);
    }
    var done;
    ghost var b;
    h', done, b := CopyEntries(h + [Obj([])], h, h0, o1, o2, rank, lo, ps, Depth(o1, rank, v));
    if done.Err? {
      return h', Err(done.error);
    }
    FillingDone(h0, h, h', o1, o2, rank, v, b, lo);
    r := Ok(Ref(lo));
  }

  /** `Object.keys(src).forEach(k => { dst[k] = deepClone(src[k]); })`, with
      `ps` the entries of `src` and `dst` the empty plain object allocated
      at `lo`: each property's clone is assigned in key order, and the
      first TypeError ends the loop. */
  method CopyEntries(h: Heap, ghost hb: Heap, ghost h0: Heap, o1: Val, o2: Addr, ghost rank: map<Addr, nat>,
                     lo: Addr, ps: seq<Prop>, ghost d: nat)
    returns (h': Heap, r: Result<()>, ghost b: seq<nat>)
    requires Ranked(h0, o1, rank) && KeysDistinct(h0) && o2 == |h0|
    requires DistinctKeys(ps)
    requires Filling(h0, hb, h, o1, o2, rank, Values(ps), [lo + 1], lo, 0) && h[lo] == Obj([])
    requires forall j :: 0 <= j < |ps| ==> InScope(o1, rank, ps[j].value) && Depth(o1, rank, ps[j].value) < d
    ensures r.Err? <==> exists j :: 0 <= j < |ps| && Throws(h0, o1, rank, ps[j].value)
    ensures Extends(hb, h') && lo < |h'| && h'[lo].Obj? && Closed(h', lo, |h'|, o2)
    ensures r.Ok? ==> Keys(h'[lo].props) == Keys(ps)
    ensures r.Ok? ==> Filling(h0, hb, h', o1, o2, rank, Values(ps), b, lo, |ps|)
    decreases d, 1
  {
    h', b := h, [lo + 1];
    var i := 0;
    while i < |ps|
      invariant 0 <= i <= |ps|
      invariant Filling(h0, hb, h', o1, o2, rank, Values(ps), b, lo, i)
      invariant h'[lo].Obj? && Keys(h'[lo].props) == Keys(ps)[..i]
    {
      var hc, rc := CopyProperty(h', hb, h0, o1, o2, rank, b, lo, ps, i, d);
      if rc.Err? {
        return hc, Err(rc.error), b;
      }
      h', b, i := hc, b + [|hc|], i + 1;
    }
    assert Keys(ps)[..i] == Keys(ps);
    forall j | 0 <= j < |ps| ensures !Throws(h0, o1, rank, ps[j].value) {
      assert ps[j].value == Values(ps)[j];
    }
    r := Ok(());
  }

  /** The `forEach` callback `k => { target[k] = deepClone(source[k]); }`
      for the i-th key of the source, with the target the plain object at
      `lo` that already holds the clones for the first i keys. */
  method CopyProperty(h: Heap, ghost hb: Heap, ghost h0: Heap, o1: Val, o2: Addr, ghost rank: map<Addr, nat>,
                      ghost b: seq<nat>, lo: Addr, ps: seq<Prop>, i: nat, ghost d: nat)
    returns (h': Heap, r: Result<Val>)
    requires Ranked(h0, o1, rank) && KeysDistinct(h0) && o2 == |h0|
    requires i < |ps| && DistinctKeys(ps)
    requires Filling(h0, hb, h, o1, o2, rank, Values(ps), b, lo, i)
    requires h[lo].Obj? && Keys(h[lo].props) == Keys(ps)[..i]
    requires InScope(o1, rank, ps[i].value) && Depth(o1, rank, ps[i].value) < d
    ensures r.Err? <==> Throws(h0, o1, rank, ps[i].value)
    ensures Extends(hb, h') && lo < |h'| && Closed(h', lo, |h'|, o2)
    ensures r.Err? ==> h'[lo] == h[lo]
    ensures r.Ok? ==> h'[lo] == Obj(h[lo].props + [Prop(ps[i].key, r.value)])
    ensures r.Ok? ==> Filling(h0, hb, h', o1, o2, rank, Values(ps), b + [|h'|], lo, i + 1)
    ensures r.Ok? ==> Keys(h'[lo].props) == Keys(ps)[..i + 1]
    decreases d, 0
  {
    assert ps[i].value == Values(ps)[i];
    var hc, rc := DeepClone(h, h0, o1, o2, rank, ps[i].value);
    if rc.Err? {
      ClosedJoin(h, hc, lo, o2);
      return hc, rc;
    }
    PropertyStep(h0, hb, h, hc, o1, o2, rank, b, lo, ps, i, rc.value);
    h', r := hc[lo := Obj(Put(hc[lo].props, ps[i].key, rc.value))], rc;
  }

  /** Assigning the clone `x` of the i-th value under the i-th key appends
      a property to the node at `lo` and extends the filled prefix. */
  lemma PropertyStep(h0: Heap, hb: Heap, h: Heap, hc: Heap, o1: Val, o2: Addr, rank: map<Addr, nat>,
                     b: seq<nat>, lo: nat, ps: seq<Prop>, i: nat, x: Val)
    requires Ranked(h0, o1, rank) && i < |ps| && DistinctKeys(ps)
    requires Filling(h0, hb, h, o1, o2, rank, Values(ps), b, lo, i)
    requires h[lo].Obj? && Keys(h[lo].props) == Keys(ps)[..i]
    requires Extends(h, hc) && Closed(hc, |h|, |hc|, o2)
    requires IsCopy(h0, hc, o1, o2, rank, ps[i].value, x, |h|, |hc|) && !Throws(h0, o1, rank, ps[i].value)
    ensures lo < |h| && hc[lo] == h[lo]
    ensures Put(h[lo].props, ps[i].key, x) == h[lo].props + [Prop(ps[i].key, x)]
    ensures Filling(h0, hb, hc[lo := Obj(h[lo].props + [Prop(ps[i].key, x)])], o1, o2, rank,
                    Values(ps), b + [|hc|], lo, i + 1)
    ensures Keys(h[lo].props + [Prop(ps[i].key, x)]) == Keys(ps)[..i + 1]
  {
    var cur := h[lo].props;
    assert hc[lo] == h[lo];
    assert ps[i].value == Values(ps)[i];
    PutNextKey(cur, ps, x);
    var n := Obj(cur + [Prop(ps[i].key, x)]);
    FillingStep(h0, hb, h, hc, o1, o2, rank, Values(ps), b, lo, i, x, n);
    assert Keys(n.props) == Keys(ps)[..i] + [Keys(ps)[i]];
    assert Keys(ps)[..i + 1] == Keys(ps)[..i] + [Keys(ps)[i]];
  }

  /** A bound on the depths of a list of values. */
  ghost function MaxDepth(o1: Val, rank: map<Addr, nat>, vs: seq<Val>): (m: nat)
    ensures forall j :: 0 <= j < |vs| ==> Depth(o1, rank, vs[j]) <= m
  {
    if vs == [] then 0
    else
      var m := MaxDepth(o1, rank, vs[1..]);
      assert forall j :: 1 <= j < |vs| ==> vs[j] == vs[1..][j - 1];
      if Depth(o1, rank, vs[0]) < m then m else Depth(o1, rank, vs[0])
  }

  /** `clone(o1)`: allocates `o2` at |h0|, then copies `o1`'s own properties
      into it.  The input nodes are never written; the result is `o2`, the
      root copy IsRootCopy describes, unless `Object.keys(o1)` or a nested
      `null` raises a TypeError; and every node allocated refers only to
      allocated nodes. */
  method Clone(h0: Heap, o1: Val, ghost rank: map<Addr, nat>) returns (h: Heap, r: Result<Val>)
    requires Ranked(h0, o1, rank) && KeysDistinct(h0)
    ensures Extends(h0, h) && |h0| < |h| && h[|h0|].Obj?
    ensures r.Err? <==> RootThrows(h0, o1, rank)
    ensures r.Ok? ==> r.value == Ref(|h0|) && IsRootCopy(h0, h, o1, rank)
    ensures r.Ok? ==> Keys(h[|h0|].props) == Keys(OwnEntries(h0, o1).value)
    ensures Closed(h, |h0|, |h|, |h0|)
  {
    var o2 := |h0|;
    h := h0 + [Obj([])];
    var entries := OwnEntries(h0, o1);
    if entries.Err? {
      return h, Err(entries.error);
    }
    var es := entries.value;
    FillingStart(h0, h0, o1, o2, rank, Values(es), Obj([]));
    ghost var d := MaxDepth(o1, rank, Values(es)) + 1;
    forall j | 0 <= j < |es| ensures InScope(o1, rank, es[j].value) && Depth(o1, rank, es[j].value) < d {
      assert es[j].value == Values(es)[j];
      EntryInScope(h0, o1, rank, j);
    }
    var done;
    ghost var b;
    h, done, b := CopyEntries(h, h0, h0, o1, o2, rank, o2, es, d);
    if done.Err? {
      return h, Err(done.error);
    }
    RootDone(h0, h, o1, rank, b);
    r := Ok(Ref(o2));
  }

  /** All of `o1`'s values cloned into `o2`: the heap holds the root copy. */
  lemma RootDone(h0: Heap, h: Heap, o1: Val, rank: map<Addr, nat>, b: seq<nat>)
    requires Ranked(h0, o1, rank) && OwnEntries(h0, o1).Ok?
    requires Filling(h0, h0, h, o1, |h0|, rank, Values(OwnEntries(h0, o1).value), b, |h0|,
                     |OwnEntries(h0, o1).value|)
    requires h[|h0|].Obj? && Keys(h[|h0|].props) == Keys(OwnEntries(h0, o1).value)
    ensures IsRootCopy(h0, h, o1, rank)
  {
    assert Chain(b, |h0|, |h|, |OwnEntries(h0, o1).value|);
  }
}
