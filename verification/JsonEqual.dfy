/** json_object_equal: what it says, and of which values. */
module JsonEqual {
  import opened Json

  /** What a value stands for: both kinds of integer are numbers, and an object is a map. */
  datatype Abstract =
    | Nothing
    | Truth(b: bool)
    | Number(i: int)
    | Real(text: Bytes)
    | Infinite(negative: bool)
    | NotANumber
    | Chars(s: Bytes)
    | List(items: seq<Abstract>)
    | Dict(members: map<Bytes, Abstract>)

  ghost function Keys(members: seq<Member>): set<Bytes> { set m | m in members :: m.key }

  ghost function AbstractOf(v: Json): Abstract
    decreases v
  {
    match v
    case Null => Nothing
    case Bool(b) => Truth(b)
    case Int(i) => Number(i)
    case UInt(u) => Number(u)
    case Double(text) => Real(text)
    case Infinity(negative) => Infinite(negative)
    case NaN => NotANumber
    case Str(s) => Chars(s)
    case Array(xs) => List(seq(|xs|, i requires 0 <= i < |xs| => AbstractOf(xs[i])))
    case Object(ms) =>
      Dict(map k | k in Keys(ms) :: (KeyStands(ms, k); AbstractOf(ms[IndexOf(ms, k)].value)))
  }

  lemma KeyStands(ms: seq<Member>, k: Bytes)
    ensures k in Keys(ms) <==> IndexOf(ms, k) < |ms|
    ensures IndexOf(ms, k) < |ms| ==> ms[IndexOf(ms, k)] in ms
  {
    if IndexOf(ms, k) < |ms| { assert ms[IndexOf(ms, k)].key in Keys(ms); }
    if k in Keys(ms) {
      var m :| m in ms && m.key == k;
      var i :| 0 <= i < |ms| && ms[i] == m;
    }
  }

  /** No object has a key twice, and no unsigned integer is negative. */
  ghost predicate Proper(v: Json)
    decreases v
  {
    match v
    case UInt(u) => u >= 0
    case Array(xs) => forall i :: 0 <= i < |xs| ==> Proper(xs[i])
    case Object(ms) => UniqueKeys(ms) && forall i :: 0 <= i < |ms| ==> Proper(ms[i].value)
    case _ => true
  }

  /** There is a NaN in the value, which is equal to nothing, not even to itself. */
  ghost predicate HasNaN(v: Json)
    decreases v
  {
    match v
    case NaN => true
    case Array(xs) => exists i :: 0 <= i < |xs| && HasNaN(xs[i])
    case Object(ms) => exists i :: 0 <= i < |ms| && HasNaN(ms[i].value)
    case _ => false
  }

  ghost predicate Same(a: Json, b: Json) { AbstractOf(a) == AbstractOf(b) && !HasNaN(a) }

  /** json_object_equal says yes exactly if both values stand for the same. */
  lemma {:induction false} EqualIsSame(a: Json, b: Json)
    requires Proper(a) && Proper(b)
    ensures Equal(a, b) <==> Same(a, b)
    decreases a, 1
  {
    if a.Array? && b.Array? {
      ItemsSame(a, b);
    } else if a.Object? && b.Object? {
      MembersSame(a, b);
    }
  }

  lemma {:induction false} ItemsSame(a: Json, b: Json)
    requires Proper(a) && Proper(b) && a.Array? && b.Array?
    ensures Equal(a, b) <==> Same(a, b)
    decreases a, 0
  {
    var xs, ys := a.items, b.items;
    forall i | 0 <= i < |xs| && i < |ys|
      ensures Equal(xs[i], ys[i]) <==> Same(xs[i], ys[i])
    {
      EqualIsSame(xs[i], ys[i]);
    }
    var s, t := AbstractOf(a).items, AbstractOf(b).items;
    assert forall i :: 0 <= i < |xs| ==> s[i] == AbstractOf(xs[i]);
    assert forall i :: 0 <= i < |ys| ==> t[i] == AbstractOf(ys[i]);
    if Equal(a, b) {
      assert forall i :: 0 <= i < |xs| ==> Equal(xs[i], ys[i]);
      assert s == t;
    }
    if Same(a, b) {
      assert |xs| == |s| == |t| == |ys|;
      assert forall i :: 0 <= i < |xs| ==> s[i] == t[i] && !HasNaN(xs[i]);
    }
  }

  lemma {:induction false} MembersSame(a: Json, b: Json)
    requires Proper(a) && Proper(b) && a.Object? && b.Object?
    ensures Equal(a, b) <==> Same(a, b)
    decreases a, 0
  {
    var ms, ns := a.members, b.members;
    var s, t := AbstractOf(a).members, AbstractOf(b).members;
    forall k | k in Keys(ms) && k in Keys(ns)
      ensures IndexOf(ms, k) < |ms| && IndexOf(ns, k) < |ns|
      ensures Equal(ms[IndexOf(ms, k)].value, ns[IndexOf(ns, k)].value) <==>
        s[k] == t[k] && !HasNaN(ms[IndexOf(ms, k)].value)
    {
      KeyStands(ms, k);
      KeyStands(ns, k);
      EqualIsSame(ms[IndexOf(ms, k)].value, ns[IndexOf(ns, k)].value);
    }
    if Equal(a, b) { EqualKeys(ms, ns); }
    if KeyByKey(ms, ns) { KeysEqual(ms, ns); }
    assert s.Keys == Keys(ms) && t.Keys == Keys(ns);
    if Equal(a, b) {
      assert s == t;
      forall i | 0 <= i < |ms|
        ensures !HasNaN(ms[i].value)
      {
        KeyStands(ms, ms[i].key);
        assert ms[i] in ms && ms[i].key in Keys(ms) && IndexOf(ms, ms[i].key) == i;
      }
    }
  }

  /** Both objects have the keys of the other, with equal values. */
  ghost predicate KeyByKey(ms: seq<Member>, ns: seq<Member>) {
    Keys(ms) == Keys(ns) && forall k :: k in Keys(ms) ==> EqualAt(ms, ns, k)
  }

  ghost predicate EqualAt(ms: seq<Member>, ns: seq<Member>, k: Bytes) {
    IndexOf(ms, k) < |ms| && IndexOf(ns, k) < |ns| && Equal(ms[IndexOf(ms, k)].value, ns[IndexOf(ns, k)].value)
  }

  lemma EqualKeys(ms: seq<Member>, ns: seq<Member>)
    requires Equal(Object(ms), Object(ns))
    ensures KeyByKey(ms, ns)
  {
    forall k
      ensures k in Keys(ms) ==> k in Keys(ns) && EqualAt(ms, ns, k)
      ensures k in Keys(ns) ==> k in Keys(ms)
    {
      KeyStands(ms, k);
      KeyStands(ns, k);
      if k in Keys(ms) { assert EqualIn(ms[IndexOf(ms, k)], ns); }
      if k in Keys(ns) { assert IndexOf(ms, ns[IndexOf(ns, k)].key) < |ms|; }
    }
  }

  lemma KeysEqual(ms: seq<Member>, ns: seq<Member>)
    requires UniqueKeys(ms) && KeyByKey(ms, ns)
    ensures Equal(Object(ms), Object(ns))
  {
    forall i | 0 <= i < |ms|
      ensures EqualIn(ms[i], ns)
    {
      KeyStands(ms, ms[i].key);
      assert ms[i] in ms && EqualAt(ms, ns, ms[i].key) && IndexOf(ms, ms[i].key) == i;
    }
    forall i | 0 <= i < |ns|
      ensures IndexOf(ms, ns[i].key) < |ms|
    {
      assert ns[i] in ns;
      KeyStands(ms, ns[i].key);
    }
  }
}
