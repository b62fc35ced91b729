/** The part of a JavaScript heap that the structural cloner sees: plain
    objects with their own enumerable string keys, dense arrays, null and
    the primitive values.  A heap is a sequence of nodes; an address is an
    index into it, and allocating a node appends it, so an address at or
    beyond the length of an earlier heap is one that was allocated later. */
module JsHeap {

  type Addr = nat

  /** A JavaScript value.  Numbers are modelled as integers. */
  datatype Val =
    | Undefined
    | Null
    | Bool(b: bool)
    | Num(n: int)
    | Str(s: string)
    | Ref(addr: Addr)

  /** An own enumerable property of a plain object. */
  datatype Prop = Prop(key: string, value: Val)

  /** A heap node: an array with its elements, or a plain object with its
      properties in `Object.keys` order. */
  datatype Node = Arr(elems: seq<Val>) | Obj(props: seq<Prop>)

  type Heap = seq<Node>

  /** The exception `Object.keys` raises for `null` and `undefined`. */
  datatype Error = TypeError

  datatype Result<T> = Ok(value: T) | Err(error: Error)

  datatype Option<T> = None | Some(value: T)

  /** `Object.keys` of a property list. */
  function Keys(ps: seq<Prop>): (ks: seq<string>)
    ensures |ks| == |ps|
    ensures forall i :: 0 <= i < |ps| ==> ks[i] == ps[i].key
  {
    if ps == [] then [] else [ps[0].key] + Keys(ps[1..])
  }

  /** The property values of a property list, in key order. */
  function Values(ps: seq<Prop>): (vs: seq<Val>)
    ensures |vs| == |ps|
    ensures forall i :: 0 <= i < |ps| ==> vs[i] == ps[i].value
  {
    if ps == [] then [] else [ps[0].value] + Values(ps[1..])
  }

  /** The values a node holds, in enumeration order. */
  function Children(n: Node): seq<Val>
  {
    match n
    case Arr(es) => es
    case Obj(ps) => Values(ps)
  }

  ghost predicate DistinctKeys(ps: seq<Prop>)
  {
    forall i, j :: 0 <= i < j < |ps| ==> ps[i].key != ps[j].key
  }

  /** A JavaScript object never holds the same key twice. */
  ghost predicate KeysDistinct(h: Heap)
  {
    forall a :: 0 <= a < |h| && h[a].Obj? ==> DistinctKeys(h[a].props)
  }

  /** The property assignment `o[k] = x` on a plain object: an existing key
      keeps its place and takes the new value, a new key goes last. */
  function Put(ps: seq<Prop>, k: string, x: Val): (r: seq<Prop>)
    ensures Keys(r) == if k in Keys(ps) then Keys(ps) else Keys(ps) + [k]
    ensures forall i :: 0 <= i < |r| && r[i].key == k ==> r[i].value == x
    ensures forall i :: 0 <= i < |r| && r[i].key != k ==> i < |ps| && r[i] == ps[i]
  {
    if k in Keys(ps) then
      var r := seq(|ps|, i requires 0 <= i < |ps| => if ps[i].key == k then Prop(k, x) else ps[i]);
      assert Keys(r) == Keys(ps);
      r
    else ps + [Prop(k, x)]
  }

  /** Copying the properties of `order` one by one: the next key is new,
      so assigning it appends a property. */
  lemma PutNextKey(ps: seq<Prop>, order: seq<Prop>, x: Val)
    requires DistinctKeys(order) && |ps| < |order|
    requires Keys(ps) == Keys(order)[..|ps|]
    ensures Put(ps, order[|ps|].key, x) == ps + [Prop(order[|ps|].key, x)]
  {
    var k := order[|ps|].key;
    forall j | 0 <= j < |ps| ensures Keys(ps)[j] != k {
      assert Keys(order)[j] == order[j].key;
    }
  }

  function DigitChar(d: nat): (c: char)
    requires d < 10
    ensures '0' <= c <= '9'
  {
    ('0' as int + d) as char
  }

  /** The canonical decimal name of an array index, as `Object.keys`
      lists it. */
  function DecimalString(n: nat): (s: string)
    ensures 1 <= |s|
    ensures |s| == 1 <==> n < 10
    ensures forall i :: 0 <= i < |s| ==> '0' <= s[i] <= '9'
    decreases n
  {
    if n < 10 then [DigitChar(n)] else DecimalString(n / 10) + [DigitChar(n % 10)]
  }

  /** Distinct indices have distinct names. */
  lemma {:induction false} DecimalStringInjective(m: nat, n: nat)
    requires DecimalString(m) == DecimalString(n)
    ensures m == n
    decreases n
  {
    var sm, sn := DecimalString(m), DecimalString(n);
    if m < 10 && n < 10 {
      assert sm[0] == DigitChar(m) && sn[0] == DigitChar(n);
    } else if 10 <= m && 10 <= n {
      assert sm[|sm| - 1] == DigitChar(m % 10);
      assert sn[|sn| - 1] == DigitChar(n % 10);
      assert sm[..|sm| - 1] == DecimalString(m / 10);
      assert sn[..|sn| - 1] == DecimalString(n / 10);
      DecimalStringInjective(m / 10, n / 10);
    }
  }

  /** Index-named properties `"0"`, `"1"`, ... holding the given values. */
  function IndexProps(vs: seq<Val>): (ps: seq<Prop>)
    ensures Values(ps) == vs
    ensures forall i :: 0 <= i < |ps| ==> ps[i].key == DecimalString(i)
    ensures DistinctKeys(ps)
  {
    var ps := seq(|vs|, i requires 0 <= i < |vs| => Prop(DecimalString(i), vs[i]));
    forall i, j | 0 <= i < j < |ps| ensures ps[i].key != ps[j].key {
      if ps[i].key == ps[j].key { DecimalStringInjective(i, j); }
    }
    ps
  }

  /** The one-character strings of a string, as its indexed properties. */
  function Chars(s: string): (vs: seq<Val>)
    ensures |vs| == |s|
    ensures forall i :: 0 <= i < |s| ==> vs[i] == Str([s[i]])
  {
    seq(|s|, i requires 0 <= i < |s| => Str([s[i]]))
  }

  /** The pairs `(k, v[k])` for `k` in `Object.keys(v)`.  `Object.keys`
      raises a TypeError for `null` and `undefined`, lists the indices of
      an array or a string, and nothing for a boolean or a number. */
  function OwnEntries(h: Heap, v: Val): (r: Result<seq<Prop>>)
    requires v.Ref? ==> v.addr < |h|
    ensures r.Err? <==> v == Null || v == Undefined
    ensures r.Ok? && v.Ref? ==> Values(r.value) == Children(h[v.addr])
    ensures r.Ok? && v.Ref? && h[v.addr].Obj? ==> r.value == h[v.addr].props
    ensures r.Ok? && (v.Str? || (v.Ref? && h[v.addr].Arr?)) ==>
      forall i :: 0 <= i < |r.value| ==> r.value[i].key == DecimalString(i)
    ensures r.Ok? && v.Str? ==> Values(r.value) == Chars(v.s)
    ensures r.Ok? && (v.Bool? || v.Num?) ==> r.value == []
    ensures r.Ok? && KeysDistinct(h) ==> DistinctKeys(r.value)
  {
    match v
    case Null => Err(TypeError)
    case Undefined => Err(TypeError)
    case Bool(_) => Ok([])
    case Num(_) => Ok([])
    case Str(s) => Ok(IndexProps(Chars(s)))
    case Ref(a) =>
      match h[a]
      case Arr(es) => Ok(IndexProps(es))
      case Obj(ps) => Ok(ps)
  }

  /** The value reached from `v` by taking, at each step, the child at the
      given position; None when the path leaves the heap. */
  function Follow(h: Heap, v: Val, path: seq<nat>): Option<Val>
    decreases |path|
  {
    if path == [] then Some(v)
    else if v.Ref? && v.addr < |h| && path[0] < |Children(h[v.addr])| then
      Follow(h, Children(h[v.addr])[path[0]], path[1..])
    else None
  }
}
