/**
 * The slice of JavaScript object semantics the token issuer relies on: plain
 * objects whose values are strings, numbers, `undefined` or nested objects; reading
 * a property; creating one (`CreateDataProperty`, which replaces a value in place);
 * object spread `{...t, ...s}`; rest destructuring `{a, b, ...rest} = o`; and the
 * order in which own properties are enumerated (ECMA-262 `OrdinaryOwnPropertyKeys`:
 * array-index keys first in ascending numeric order, then the other keys in
 * insertion order).
 *
 * An object is its properties in insertion order.
 */
module JsObject {

  datatype Value = Undefined | Str(s: string) | Num(n: int) | Obj(props: seq<Property>)
  datatype Property = Property(key: string, value: Value)

  function KeySet(o: seq<Property>): set<string>
  {
    set p | p in o :: p.key
  }

  function Keys(o: seq<Property>): (ks: seq<string>)
    ensures |ks| == |o| && forall i :: 0 <= i < |o| ==> ks[i] == o[i].key
  {
    if o == [] then [] else [o[0].key] + Keys(o[1..])
  }

  /** No key occurs twice; every JavaScript object has this shape. */
  predicate Distinct(o: seq<Property>)
  {
    o == [] || (o[0].key !in KeySet(o[1..]) && Distinct(o[1..]))
  }

  /** `o[k]`: the value of property `k`, `undefined` when there is none. */
  function Get(o: seq<Property>, k: string): (v: Value)
    ensures k !in KeySet(o) ==> v == Undefined
    ensures k in KeySet(o) ==> Property(k, v) in o
  {
    if o == [] then Undefined
    else if o[0].key == k then o[0].value
    else Get(o[1..], k)
  }

  /** A sequence of keys without repetition. */
  predicate Unique(ks: seq<string>)
  {
    ks == [] || (ks[0] !in ks[1..] && Unique(ks[1..]))
  }

  /** Distinctness and the key set, read off the key sequence. */
  lemma {:induction false} DistinctKeys(o: seq<Property>)
    ensures Distinct(o) == Unique(Keys(o))
    ensures forall k :: k in KeySet(o) <==> k in Keys(o)
  {
    if o != [] {
      DistinctKeys(o[1..]);
      assert Keys(o)[1..] == Keys(o[1..]);
      KeySetCons(o[0], o[1..]);
      assert [o[0]] + o[1..] == o;
    }
  }

  /** In an object the value of a property is the one its key is paired with. */
  lemma {:induction false} GetMember(o: seq<Property>, p: Property)
    requires Distinct(o) && p in o
    ensures Get(o, p.key) == p.value
  {
    if o[0] != p {
      assert p in o[1..];
      assert p.key in KeySet(o[1..]);
      GetMember(o[1..], p);
    }
  }

  /** Two objects with the same properties answer every read alike. */
  lemma SameMembersSameGet(o: seq<Property>, r: seq<Property>, k: string)
    requires Distinct(o) && Distinct(r)
    requires forall p :: p in o <==> p in r
    ensures Get(o, k) == Get(r, k)
  {
    if k in KeySet(o) {
      GetMember(o, Property(k, Get(o, k)));
      GetMember(r, Property(k, Get(o, k)));
    } else {
      assert k !in KeySet(r);
    }
  }

  /** The position of key `k`. */
  function IndexOf(o: seq<Property>, k: string): (i: nat)
    requires k in KeySet(o)
    ensures i < |o| && o[i].key == k
    ensures forall j :: 0 <= j < i ==> o[j].key != k
  {
    if o[0].key == k then 0
    else
      assert k in KeySet(o[1..]) by { var p :| p in o && p.key == k; assert p in o[1..]; }
      1 + IndexOf(o[1..], k)
  }

  /**
   * `CreateDataProperty(o, k, v)` on a plain object: an existing key keeps its
   * position and takes the new value, a new key is appended.
   */
  function Set(o: seq<Property>, p: Property): (r: seq<Property>)
    ensures p.key in KeySet(o) ==>
      (var i := IndexOf(o, p.key);
       |r| == |o| && r[i] == p && forall j :: 0 <= j < |o| && j != i ==> r[j] == o[j])
    ensures p.key !in KeySet(o) ==> r == o + [p]
  {
    if p.key in KeySet(o) then o[IndexOf(o, p.key) := p] else o + [p]
  }

  lemma {:induction false} KeySetCons(p: Property, o: seq<Property>)
    ensures KeySet([p] + o) == {p.key} + KeySet(o)
  {
    assert forall q :: q in [p] + o <==> q == p || q in o;
  }

  lemma {:induction false} KeySetAppend(a: seq<Property>, b: seq<Property>)
    ensures KeySet(a + b) == KeySet(a) + KeySet(b)
  {
    assert forall q :: q in a + b <==> q in a || q in b;
  }

  lemma {:induction false} DistinctAppend(a: seq<Property>, b: seq<Property>)
    requires Distinct(a) && Distinct(b) && KeySet(a) !! KeySet(b)
    ensures Distinct(a + b)
    decreases |a|
  {
    if a != [] {
      assert (a + b)[1..] == a[1..] + b;
      KeySetAppend(a[1..], b);
      assert a[0] in a;
      DistinctAppend(a[1..], b);
    } else {
      assert a + b == b;
    }
  }

  /** Replacing a value in place keeps the keys where they were. */
  lemma SetKeys(o: seq<Property>, p: Property)
    requires Distinct(o)
    ensures Distinct(Set(o, p))
    ensures KeySet(Set(o, p)) == KeySet(o) + {p.key}
    ensures p.key in KeySet(o) ==> Keys(Set(o, p)) == Keys(o)
    ensures p.key !in KeySet(o) ==> Keys(Set(o, p)) == Keys(o) + [p.key]
  {
    var r := Set(o, p);
    if p.key in KeySet(o) {
      UpdateKeepsKeys(o, IndexOf(o, p.key), p);
    } else {
      KeySetAppend(o, [p]);
      DistinctAppend(o, [p]);
      assert Keys(r) == Keys(o) + [p.key];
    }
  }

  lemma {:induction false} UpdateKeepsKeys(o: seq<Property>, i: nat, p: Property)
    requires Distinct(o) && i < |o| && o[i].key == p.key
    ensures Distinct(o[i := p]) && KeySet(o[i := p]) == KeySet(o) && Keys(o[i := p]) == Keys(o)
    decreases |o|
  {
    var r := o[i := p];
    if i == 0 {
      assert r[1..] == o[1..];
    } else {
      assert r[1..] == o[1..][i - 1 := p];
      UpdateKeepsKeys(o[1..], i - 1, p);
      assert r == [o[0]] + r[1..];
      assert o == [o[0]] + o[1..];
      KeySetCons(o[0], r[1..]);
      KeySetCons(o[0], o[1..]);
    }
    assert Keys(r) == Keys(o);
  }

  /** Reading after a write sees the written value; other keys are untouched. */
  lemma GetSet(o: seq<Property>, p: Property, k: string)
    requires Distinct(o)
    ensures Get(Set(o, p), k) == if k == p.key then p.value else Get(o, k)
  {
    SetKeys(o, p);
    if k == p.key {
      GetMember(Set(o, p), p);
    } else if k in KeySet(o) {
      GetSetOther(o, p, k);
    } else {
      assert k !in KeySet(Set(o, p));
    }
  }

  lemma GetSetOther(o: seq<Property>, p: Property, k: string)
    requires Distinct(o) && Distinct(Set(o, p))
    requires k != p.key && k in KeySet(o)
    ensures Get(Set(o, p), k) == Get(o, k)
  {
    var r := Set(o, p);
    var j := IndexOf(o, k);
    GetMember(o, o[j]);
    assert r[j] == o[j];
    GetMember(r, r[j]);
  }

  // ---- Enumeration order -------------------------------------------------

  /** The number a string of decimal digits denotes (meaningful only for such strings). */
  function DecimalValue(k: string): int
  {
    if k == [] then 0 else DecimalValue(k[..|k| - 1]) * 10 + (k[|k| - 1] as int - '0' as int)
  }

  /**
   * ECMA-262 array index: the canonical decimal form of an integer from 0 to
   * 2^32 - 2 (no sign, no leading zero).
   */
  predicate IsArrayIndex(k: string)
  {
    && |k| > 0
    && (forall i :: 0 <= i < |k| ==> '0' <= k[i] <= '9')
    && (k[0] != '0' || |k| == 1)
    && DecimalValue(k) < 0x1_0000_0000 - 1
  }

  function IndexProps(o: seq<Property>): (r: seq<Property>)
    ensures forall p :: p in r <==> p in o && IsArrayIndex(p.key)
  {
    if o == [] then []
    else (if IsArrayIndex(o[0].key) then [o[0]] else []) + IndexProps(o[1..])
  }

  function NamedProps(o: seq<Property>): (r: seq<Property>)
    ensures forall p :: p in r <==> p in o && !IsArrayIndex(p.key)
  {
    if o == [] then []
    else (if IsArrayIndex(o[0].key) then [] else [o[0]]) + NamedProps(o[1..])
  }

  predicate SortedByIndex(o: seq<Property>)
  {
    forall i, j :: 0 <= i < j < |o| ==> DecimalValue(o[i].key) <= DecimalValue(o[j].key)
  }

  function InsertByIndex(p: Property, ys: seq<Property>): seq<Property>
  {
    if ys == [] then [p]
    else if DecimalValue(p.key) <= DecimalValue(ys[0].key) then [p] + ys
    else [ys[0]] + InsertByIndex(p, ys[1..])
  }

  lemma {:induction false} InsertByIndexMembers(p: Property, ys: seq<Property>)
    ensures multiset(InsertByIndex(p, ys)) == multiset([p] + ys)
    ensures forall q :: q in InsertByIndex(p, ys) <==> q == p || q in ys
  {
    if ys != [] && DecimalValue(p.key) > DecimalValue(ys[0].key) {
      InsertByIndexMembers(p, ys[1..]);
      assert ys == [ys[0]] + ys[1..];
    }
  }

  lemma {:induction false} InsertByIndexSorted(p: Property, ys: seq<Property>)
    requires SortedByIndex(ys)
    ensures SortedByIndex(InsertByIndex(p, ys))
  {
    if ys == [] {
    } else if DecimalValue(p.key) <= DecimalValue(ys[0].key) {
      ConsSorted(p, ys);
    } else {
      var t := InsertByIndex(p, ys[1..]);
      assert SortedByIndex(ys[1..]);
      InsertByIndexSorted(p, ys[1..]);
      InsertByIndexMembers(p, ys[1..]);
      forall q | q in t ensures DecimalValue(ys[0].key) <= DecimalValue(q.key) {
        if q != p {
          var j :| 0 <= j < |ys[1..]| && ys[1..][j] == q;
          assert ys[j + 1] == q;
        }
      }
      ConsSorted(ys[0], t);
    }
  }

  lemma ConsSorted(p: Property, t: seq<Property>)
    requires SortedByIndex(t)
    requires forall q :: q in t ==> DecimalValue(p.key) <= DecimalValue(q.key)
    ensures SortedByIndex([p] + t)
  {
    var r := [p] + t;
    forall i, j | 0 <= i < j < |r| ensures DecimalValue(r[i].key) <= DecimalValue(r[j].key) {
      assert r[j] == t[j - 1];
      if i > 0 { assert r[i] == t[i - 1]; } else { assert t[j - 1] in t; }
    }
  }

  function SortByIndex(xs: seq<Property>): (r: seq<Property>)
    ensures multiset(r) == multiset(xs)
    ensures SortedByIndex(r)
  {
    if xs == [] then []
    else
      var t := SortByIndex(xs[1..]);
      InsertByIndexMembers(xs[0], t);
      InsertByIndexSorted(xs[0], t);
      assert xs == [xs[0]] + xs[1..];
      InsertByIndex(xs[0], t)
  }

  /** Own properties in the order `JSON.stringify` and spread visit them. */
  function Enumerate(o: seq<Property>): (r: seq<Property>)
    ensures multiset(r) == multiset(o)
    ensures |IndexProps(o)| <= |r|
    ensures SortedByIndex(r[..|IndexProps(o)|])
    ensures forall i :: 0 <= i < |IndexProps(o)| ==> IsArrayIndex(r[i].key)
    ensures r[|IndexProps(o)|..] == NamedProps(o)
  {
    var idx := SortByIndex(IndexProps(o));
    NamedAfterIndex(o);
    assert multiset(idx) == multiset(IndexProps(o));
    assert |idx| == |multiset(idx)| == |multiset(IndexProps(o))| == |IndexProps(o)|;
    assert forall i :: 0 <= i < |idx| ==> idx[i] in multiset(IndexProps(o));
    assert (idx + NamedProps(o))[..|idx|] == idx;
    idx + NamedProps(o)
  }

  lemma {:induction false} NamedAfterIndex(o: seq<Property>)
    ensures multiset(IndexProps(o)) + multiset(NamedProps(o)) == multiset(o)
  {
    if o != [] {
      NamedAfterIndex(o[1..]);
      assert o == [o[0]] + o[1..];
    }
  }

  lemma MultisetKeySet(o: seq<Property>, r: seq<Property>)
    requires multiset(r) == multiset(o)
    ensures forall p :: p in o <==> p in r
    ensures KeySet(o) == KeySet(r)
  {
    assert forall p :: p in o <==> p in multiset(o);
    assert forall p :: p in r <==> p in multiset(r);
  }

  lemma {:induction false} DistinctByCount(o: seq<Property>)
    ensures Distinct(o) <==> forall p, q :: p in multiset(o) && q in multiset(o) && p.key == q.key ==>
                                      p == q && multiset(o)[p] == 1
    decreases |o|
  {
    if o != [] {
      DistinctByCount(o[1..]);
      assert o == [o[0]] + o[1..];
      assert multiset(o) == multiset{o[0]} + multiset(o[1..]);
      assert forall p :: p in o[1..] <==> p in multiset(o[1..]);
    }
  }

  /** A rearrangement of an object's properties is again an object. */
  lemma PermutationDistinct(o: seq<Property>, r: seq<Property>)
    requires Distinct(o) && multiset(r) == multiset(o)
    ensures Distinct(r)
  {
    DistinctByCount(o);
    DistinctByCount(r);
  }

  /** Enumeration keeps every property and its value. */
  lemma EnumerateGet(o: seq<Property>, k: string)
    requires Distinct(o)
    ensures Distinct(Enumerate(o))
    ensures KeySet(Enumerate(o)) == KeySet(o)
    ensures Get(Enumerate(o), k) == Get(o, k)
  {
    var r := Enumerate(o);
    PermutationDistinct(o, r);
    MultisetKeySet(o, r);
    SameMembersSameGet(o, r, k);
  }

  // ---- Rest destructuring and spread --------------------------------------

  /** `const {k1, k2, ...rest} = o`: the remaining properties, in enumeration order. */
  function Rest(o: seq<Property>, excluded: set<string>): (r: seq<Property>)
    ensures forall p :: p in r <==> p in o && p.key !in excluded
  {
    MultisetKeySet(o, Enumerate(o));
    Without(Enumerate(o), excluded)
  }

  function Without(o: seq<Property>, excluded: set<string>): (r: seq<Property>)
    ensures forall p :: p in r <==> p in o && p.key !in excluded
    ensures KeySet(r) == KeySet(o) - excluded
    ensures Distinct(o) ==> Distinct(r)
  {
    if o == [] then []
    else
      var t := Without(o[1..], excluded);
      if o[0].key in excluded then t
      else
        KeySetCons(o[0], t);
        KeySetCons(o[0], o[1..]);
        [o[0]] + t
  }

  /** Sets each property of `ps` in turn. */
  function SetAll(o: seq<Property>, ps: seq<Property>): seq<Property>
    decreases |ps|
  {
    if ps == [] then o else SetAll(Set(o, ps[0]), ps[1..])
  }

  /** `{...t, ...s}`: the properties of `s`, in enumeration order, set on `t`. */
  function Spread(t: seq<Property>, s: seq<Property>): (r: seq<Property>)
    ensures Distinct(t) && Distinct(s) ==> Distinct(r) && KeySet(r) == KeySet(t) + KeySet(s)
  {
    if Distinct(t) && Distinct(s) then
      EnumerateGet(s, "");
      SetAllGet(t, Enumerate(s), "");
      SetAll(t, Enumerate(s))
    else
      SetAll(t, Enumerate(s))
  }

  /** The keys of `ps` that `o` lacks, in the order of `ps`. */
  function NewKeys(ps: seq<Property>, o: seq<Property>): seq<string>
  {
    Keys(Without(ps, KeySet(o)))
  }

  lemma DistinctTail(ps: seq<Property>)
    requires Distinct(ps) && ps != []
    ensures Distinct(ps[1..]) && ps[0].key !in KeySet(ps[1..])
    ensures KeySet(ps) == {ps[0].key} + KeySet(ps[1..])
    ensures forall k :: k != ps[0].key ==> Get(ps, k) == Get(ps[1..], k)
  {
    assert ps == [ps[0]] + ps[1..];
    KeySetCons(ps[0], ps[1..]);
  }

  /** Setting properties one after another keeps an object, and reads see the last write. */
  lemma {:induction false} SetAllGet(o: seq<Property>, ps: seq<Property>, k: string)
    requires Distinct(o) && Distinct(ps)
    ensures Distinct(SetAll(o, ps))
    ensures KeySet(SetAll(o, ps)) == KeySet(o) + KeySet(ps)
    ensures Get(SetAll(o, ps), k) == if k in KeySet(ps) then Get(ps, k) else Get(o, k)
    decreases |ps|
  {
    if ps != [] {
      var p := ps[0];
      var o' := Set(o, p);
      SetKeys(o, p);
      GetSet(o, p, k);
      DistinctTail(ps);
      SetAllGet(o', ps[1..], k);
      assert SetAll(o, ps) == SetAll(o', ps[1..]);
      if k == p.key {
        assert Get(SetAll(o, ps), k) == p.value;
      } else {
        assert Get(SetAll(o, ps), k) == if k in KeySet(ps[1..]) then Get(ps[1..], k) else Get(o, k);
      }
    }
  }

  /** Setting properties one after another appends exactly the new keys, in order. */
  lemma {:induction false} SetAllKeys(o: seq<Property>, ps: seq<Property>)
    requires Distinct(o) && Distinct(ps)
    ensures Keys(SetAll(o, ps)) == Keys(o) + NewKeys(ps, o)
    decreases |ps|
  {
    if ps == [] {
      assert Without(ps, KeySet(o)) == [];
    } else {
      var p, rest := ps[0], ps[1..];
      SetKeys(o, p);
      DistinctTail(ps);
      SetAllKeys(Set(o, p), rest);
      assert SetAll(o, ps) == SetAll(Set(o, p), rest);
      NewKeysStep(o, ps);
    }
  }

  lemma NewKeysStep(o: seq<Property>, ps: seq<Property>)
    requires Distinct(o) && Distinct(ps) && ps != []
    ensures Keys(Set(o, ps[0])) + NewKeys(ps[1..], Set(o, ps[0])) == Keys(o) + NewKeys(ps, o)
  {
    SetKeys(o, ps[0]);
    DistinctTail(ps);
    WithoutOneMore(ps[1..], KeySet(o), ps[0].key);
    if ps[0].key in KeySet(o) {
      NewKeysStepOld(o, ps);
    } else {
      NewKeysStepNew(o, ps);
    }
  }

  lemma NewKeysStepOld(o: seq<Property>, ps: seq<Property>)
    requires ps != [] && ps[0].key in KeySet(o)
    requires Keys(Set(o, ps[0])) == Keys(o)
    requires NewKeys(ps[1..], Set(o, ps[0])) == Keys(Without(ps[1..], KeySet(o)))
    ensures Keys(Set(o, ps[0])) + NewKeys(ps[1..], Set(o, ps[0])) == Keys(o) + NewKeys(ps, o)
  {
    WithoutSkip(ps, KeySet(o));
  }

  lemma NewKeysStepNew(o: seq<Property>, ps: seq<Property>)
    requires ps != [] && ps[0].key !in KeySet(o)
    requires Keys(Set(o, ps[0])) == Keys(o) + [ps[0].key]
    requires NewKeys(ps[1..], Set(o, ps[0])) == Keys(Without(ps[1..], KeySet(o)))
    ensures Keys(Set(o, ps[0])) + NewKeys(ps[1..], Set(o, ps[0])) == Keys(o) + NewKeys(ps, o)
  {
    var x := Keys(Without(ps[1..], KeySet(o)));
    var a := Keys(o);
    var k := ps[0].key;
    WithoutKeep(ps, KeySet(o));
    assert NewKeys(ps, o) == [k] + x;
    assert Keys(Set(o, ps[0])) == a + [k];
    assert NewKeys(ps[1..], Set(o, ps[0])) == x;
    ConcatAssoc(a, [k], x);
  }

  /** Kept apart: stated inline, this step exhausts the solver among the facts above. */
  lemma ConcatAssoc(a: seq<string>, b: seq<string>, c: seq<string>)
    ensures (a + b) + c == a + (b + c)
  {
  }

  lemma WithoutSkip(ps: seq<Property>, ks: set<string>)
    requires ps != [] && ps[0].key in ks
    ensures Without(ps, ks) == Without(ps[1..], ks)
  {
  }

  lemma WithoutKeep(ps: seq<Property>, ks: set<string>)
    requires ps != [] && ps[0].key !in ks
    ensures Keys(Without(ps, ks)) == [ps[0].key] + Keys(Without(ps[1..], ks))
  {
    var w := Without(ps[1..], ks);
    assert Without(ps, ks) == [ps[0]] + w;
    assert Keys([ps[0]] + w) == [ps[0].key] + Keys(w);
  }

  lemma {:induction false} WithoutOneMore(ps: seq<Property>, ks: set<string>, k: string)
    requires k !in KeySet(ps)
    ensures Without(ps, ks + {k}) == Without(ps, ks)
    decreases |ps|
  {
    if ps != [] {
      assert ps[0] in ps;
      assert KeySet(ps[1..]) <= KeySet(ps) by { assert forall p :: p in ps[1..] ==> p in ps; }
      WithoutOneMore(ps[1..], ks, k);
    }
  }

  /**
   * Spreading `s` over `t`: a key of `s` takes the value from `s`, every other key
   * keeps its value from `t`; the keys of `t` keep their positions and the keys
   * only `s` has are appended behind them, in the enumeration order of `s`.
   */
  lemma SpreadShape(t: seq<Property>, s: seq<Property>, k: string)
    requires Distinct(t) && Distinct(s)
    ensures Distinct(Spread(t, s))
    ensures KeySet(Spread(t, s)) == KeySet(t) + KeySet(s)
    ensures Keys(Spread(t, s)) == Keys(t) + NewKeys(Enumerate(s), t)
    ensures Get(Spread(t, s), k) == if k in KeySet(s) then Get(s, k) else Get(t, k)
  {
    EnumerateGet(s, k);
    SetAllGet(t, Enumerate(s), k);
    SetAllKeys(t, Enumerate(s));
  }
}
