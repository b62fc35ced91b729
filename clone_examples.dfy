/** Worked inputs for `clone`, each with the exact heap it leaves. */
module CloneExamples {
  import opened JsHeap
  import opened Util
  import opened CloneProperties

  /** The root and a primitive are cloned without allocating. */
  lemma LeafCopy(h0: Heap, h: Heap, o1: Val, o2: Addr, rank: map<Addr, nat>, v: Val, r: Val, lo: nat, hi: nat)
    requires Ranked(h0, o1, rank) && IsCopy(h0, h, o1, o2, rank, v, r, lo, hi)
    requires v == o1 || !v.Ref?
    ensures hi == lo && r == if v == o1 then Ref(o2) else v
  {
  }

  /** An empty array or object is cloned into one new empty node. */
  lemma EmptyCopy(h0: Heap, h: Heap, o1: Val, o2: Addr, rank: map<Addr, nat>, v: Val, r: Val, lo: nat, hi: nat)
    requires Ranked(h0, o1, rank) && IsCopy(h0, h, o1, o2, rank, v, r, lo, hi)
    requires v.Ref? && v != o1 && Children(h0[v.addr]) == []
    ensures hi == lo + 1 && r == Ref(lo) && h[lo] == if h0[v.addr].Arr? then Arr([]) else Obj([])
  {
    if h[lo].Obj? {
      assert |Keys(h[lo].props)| == 0;
    }
  }

  /** `o1 = {self: o1, n: 1}`. */
  const SelfHeap: Heap := [Obj([Prop("self", Ref(0)), Prop("n", Num(1))])]

  /** Its only reference is the root itself, so the empty rank suffices,
      and it holds no `null`. */
  lemma SelfInput()
    ensures Ranked(SelfHeap, Ref(0), map[]) && KeysDistinct(SelfHeap)
    ensures !RootThrows(SelfHeap, Ref(0), map[])
  {
    var es := OwnEntries(SelfHeap, Ref(0)).value;
    assert es[0].value == Ref(0) && es[1].value == Num(1);
  }

  /** The only heap holding its root copy is the one with `o2 = {self: o2, n: 1}`. */
  lemma SelfOutput(h: Heap)
    requires Ranked(SelfHeap, Ref(0), map[]) && IsRootCopy(SelfHeap, h, Ref(0), map[])
    requires Extends(SelfHeap, h)
    ensures h == SelfHeap + [Obj([Prop("self", Ref(1)), Prop("n", Num(1))])]
  {
    var b := RootChain(SelfHeap, h, Ref(0), map[]);
    assert Children(SelfHeap[0]) == [Ref(0), Num(1)];
    LeafCopy(SelfHeap, h, Ref(0), 1, map[], Ref(0), Children(h[1])[0], b[0], b[1]);
    LeafCopy(SelfHeap, h, Ref(0), 1, map[], Num(1), Children(h[1])[1], b[1], b[2]);
    assert Keys(h[1].props) == ["self", "n"];
    assert h[1].props == [Prop("self", Ref(1)), Prop("n", Num(1))];
  }

  /** `clone` on it yields `o2` and allocates nothing else. */
  method SelfReference() returns (h: Heap, r: Result<Val>)
    ensures r == Ok(Ref(1))
    ensures h == [Obj([Prop("self", Ref(0)), Prop("n", Num(1))]),
                  Obj([Prop("self", Ref(1)), Prop("n", Num(1))])]
  {
    SelfInput();
    h, r := Clone(SelfHeap, Ref(0), map[]);
    SelfOutput(h);
  }

  /** `o1 = {a: x, b: x}` with `x = []`: one array reached twice. */
  const SharedHeap: Heap := [Obj([Prop("a", Ref(1)), Prop("b", Ref(1))]), Arr([])]

  lemma SharedInput()
    ensures Ranked(SharedHeap, Ref(0), map[1 := 0]) && KeysDistinct(SharedHeap)
    ensures !RootThrows(SharedHeap, Ref(0), map[1 := 0])
  {
    assert Children(SharedHeap[0]) == [Ref(1), Ref(1)] && Children(SharedHeap[1]) == [];
    var es := OwnEntries(SharedHeap, Ref(0)).value;
    assert es[0].value == Ref(1) && es[1].value == Ref(1);
  }

  /** The only heap holding its root copy gives `a` and `b` two new arrays. */
  lemma SharedOutput(h: Heap)
    requires Ranked(SharedHeap, Ref(0), map[1 := 0]) && IsRootCopy(SharedHeap, h, Ref(0), map[1 := 0])
    requires Extends(SharedHeap, h)
    ensures h == SharedHeap + [Obj([Prop("a", Ref(3)), Prop("b", Ref(4))]), Arr([]), Arr([])]
  {
    var b := RootChain(SharedHeap, h, Ref(0), map[1 := 0]);
    assert Children(SharedHeap[0]) == [Ref(1), Ref(1)] && Children(SharedHeap[1]) == [];
    EmptyCopy(SharedHeap, h, Ref(0), 2, map[1 := 0], Ref(1), Children(h[2])[0], b[0], b[1]);
    EmptyCopy(SharedHeap, h, Ref(0), 2, map[1 := 0], Ref(1), Children(h[2])[1], b[1], b[2]);
    assert Keys(h[2].props) == ["a", "b"];
    assert h[2].props == [Prop("a", Ref(3)), Prop("b", Ref(4))];
  }

  /** `clone` on it copies `x` twice. */
  method SharedChild() returns (h: Heap, r: Result<Val>)
    ensures r == Ok(Ref(2))
    ensures h == [Obj([Prop("a", Ref(1)), Prop("b", Ref(1))]), Arr([]),
                  Obj([Prop("a", Ref(3)), Prop("b", Ref(4))]), Arr([]), Arr([])]
  {
    SharedInput();
    h, r := Clone(SharedHeap, Ref(0), map[1 := 0]);
    SharedOutput(h);
  }

  /** `o1 = [1, o1]`: an array root that holds itself. */
  const ArrayHeap: Heap := [Arr([Num(1), Ref(0)])]

  lemma ArrayInput()
    ensures Ranked(ArrayHeap, Ref(0), map[]) && KeysDistinct(ArrayHeap)
    ensures !RootThrows(ArrayHeap, Ref(0), map[])
  {
    var es := OwnEntries(ArrayHeap, Ref(0)).value;
    assert es[0].value == Num(1) && es[1].value == Ref(0);
  }

  /** The only heap holding its root copy has `o2 = {"0": 1, "1": o2}`, a
      plain object keyed by index. */
  lemma ArrayOutput(h: Heap)
    requires Ranked(ArrayHeap, Ref(0), map[]) && IsRootCopy(ArrayHeap, h, Ref(0), map[])
    requires Extends(ArrayHeap, h)
    ensures h == ArrayHeap + [Obj([Prop("0", Num(1)), Prop("1", Ref(1))])]
  {
    var b := RootChain(ArrayHeap, h, Ref(0), map[]);
    assert Children(ArrayHeap[0]) == [Num(1), Ref(0)];
    LeafCopy(ArrayHeap, h, Ref(0), 1, map[], Num(1), Children(h[1])[0], b[0], b[1]);
    LeafCopy(ArrayHeap, h, Ref(0), 1, map[], Ref(0), Children(h[1])[1], b[1], b[2]);
    var es := OwnEntries(ArrayHeap, Ref(0)).value;
    assert DecimalString(0) == "0" && DecimalString(1) == "1";
    assert Keys(h[1].props) == Keys(es) == ["0", "1"];
    assert h[1].props == [Prop("0", Num(1)), Prop("1", Ref(1))];
  }

  method ArrayRoot() returns (h: Heap, r: Result<Val>)
    ensures r == Ok(Ref(1))
    ensures h == [Arr([Num(1), Ref(0)]), Obj([Prop("0", Num(1)), Prop("1", Ref(1))])]
  {
    ArrayInput();
    h, r := Clone(ArrayHeap, Ref(0), map[]);
    ArrayOutput(h);
  }

  /** `o1 = {z: null}`. */
  const NullHeap: Heap := [Obj([Prop("z", Null)])]

  lemma NullInput()
    ensures Ranked(NullHeap, Ref(0), map[]) && KeysDistinct(NullHeap)
    ensures RootThrows(NullHeap, Ref(0), map[])
  {
    assert Throws(NullHeap, Ref(0), map[], OwnEntries(NullHeap, Ref(0)).value[0].value);
  }

  /** `clone` on it raises the TypeError of `Object.keys(null)`. */
  method NullProperty() returns (h: Heap, r: Result<Val>)
    ensures r == Err(TypeError)
  {
    NullInput();
    h, r := Clone(NullHeap, Ref(0), map[]);
  }

  /** `o1 = {a: x, b: {c: x}}` with `x = []`: one array reached from two
      different containers. */
  const NestedHeap: Heap := [Obj([Prop("a", Ref(1)), Prop("b", Ref(2))]), Arr([]), Obj([Prop("c", Ref(1))])]

  lemma NestedInput()
    ensures Ranked(NestedHeap, Ref(0), map[1 := 0, 2 := 1]) && KeysDistinct(NestedHeap)
    ensures !RootThrows(NestedHeap, Ref(0), map[1 := 0, 2 := 1])
  {
    assert Children(NestedHeap[0]) == [Ref(1), Ref(2)] && Children(NestedHeap[1]) == [];
    assert Children(NestedHeap[2]) == [Ref(1)];
    var es := OwnEntries(NestedHeap, Ref(0)).value;
    assert es[0].value == Ref(1) && es[1].value == Ref(2);
    assert !Throws(NestedHeap, Ref(0), map[1 := 0, 2 := 1], Ref(1));
  }

  /** `clone` on it gives `o2.a` and `o2.b.c` two different new arrays. */
  method NestedShared() returns (h: Heap, r: Result<Val>)
    ensures r == Ok(Ref(3))
    ensures Follow(h, Ref(3), [0]).Some? && Follow(h, Ref(3), [1, 0]).Some?
    ensures Follow(h, Ref(3), [0]).value != Follow(h, Ref(3), [1, 0]).value
  {
    var rank := map[1 := 0, 2 := 1];
    NestedInput();
    h, r := Clone(NestedHeap, Ref(0), rank);
    assert Children(NestedHeap[0]) == [Ref(1), Ref(2)] && Children(NestedHeap[2]) == [Ref(1)];
    assert [1, 0][1..] == [0];
    assert Walk(NestedHeap, Ref(0), Ref(2), [0]) == Some(Ref(1));
    RootWalksDistinct(NestedHeap, h, Ref(0), rank, [0], [1, 0]);
  }
}
