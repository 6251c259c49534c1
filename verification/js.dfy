/** JavaScript plain objects whose key order is observable through `Object.keys`,
    and the object spread `{ ...a, ...b }` that merges two of them. */
module Js {
  import opened Seqs

  /** An object as its own enumerable string keys, in insertion order, and their values. */
  datatype Obj<V> = Obj(keys: seq<string>, vals: map<string, V>) {
    /** Every key is listed once and the listing is exactly the key set. */
    predicate WellFormed() {
      NoDup(keys) && vals.Keys == set k | k in keys
    }
  }

  type Object<V> = o: Obj<V> | o.WellFormed() witness Obj([], map[])

  /** `{}` */
  function Empty<V>(): Object<V> {
    Obj([], map[])
  }

  /** `o[k] = v` on a plain data property: an existing key keeps its position and
      takes the new value; a new key is appended at the end. */
  function Put<V>(o: Object<V>, k: string, v: V): (r: Object<V>)
    ensures r.vals == o.vals[k := v]
    ensures r.keys == if k in o.keys then o.keys else o.keys + [k]
  {
    if k in o.keys then
      Obj(o.keys, o.vals[k := v])
    else
      NoDupSnoc(o.keys, k);
      Obj(o.keys + [k], o.vals[k := v])
  }

  /** `for (const k of ks) t[k] = vals[k]`: copies the listed properties into `t`, in
      order, without mutating `t`. */
  function CopyProperties<V>(t: Object<V>, ks: seq<string>, vals: map<string, V>): (r: Object<V>)
    requires NoDup(ks) && forall k :: k in ks ==> k in vals
    ensures r.keys == t.keys + Unseen(ks, t.keys)
    ensures forall k :: k in r.vals <==> k in t.vals || k in ks
    ensures forall k :: k in ks ==> r.vals[k] == vals[k]
    ensures forall k :: k in t.vals && k !in ks ==> r.vals[k] == t.vals[k]
    decreases |ks|
  {
    if ks == [] then t
    else
      var init, k := ks[..|ks| - 1], ks[|ks| - 1];
      assert ks == init + [k];
      NoDupSnoc(init, k);
      var prev := CopyProperties(t, init, vals);
      CopyOne(t, init, k, vals, prev);
      Put(prev, k, vals[k])
  }

  /** Copying one more property after those of `init`. */
  lemma CopyOne<V>(t: Object<V>, init: seq<string>, k: string, vals: map<string, V>, prev: Object<V>)
    requires k !in init && k in vals && forall x :: x in init ==> x in vals
    requires prev.keys == t.keys + Unseen(init, t.keys)
    requires forall x :: x in prev.vals <==> x in t.vals || x in init
    requires forall x :: x in init ==> prev.vals[x] == vals[x]
    requires forall x :: x in t.vals && x !in init ==> prev.vals[x] == t.vals[x]
    ensures var r, ks := Put(prev, k, vals[k]), init + [k];
      && r.keys == t.keys + Unseen(ks, t.keys)
      && (forall x :: x in r.vals <==> x in t.vals || x in ks)
      && (forall x :: x in ks ==> r.vals[x] == vals[x])
      && (forall x :: x in t.vals && x !in ks ==> r.vals[x] == t.vals[x])
  {
    var ks, u := init + [k], Unseen(init, t.keys);
    UnseenSnoc(init, k, t.keys);
    if k in t.keys {
      assert u + [] == u;
    } else {
      assert k !in prev.keys;
      assert (t.keys + u) + [k] == t.keys + (u + [k]);
    }
    assert forall x :: x in ks <==> x in init || x == k;
  }

  /** `{ ...a, ...b }`: the keys of `a` in order, then the keys of `b` that `a` lacks,
      in order; on a shared key the value from `b` wins. */
  function Spread<V>(a: Object<V>, b: Object<V>): (r: Object<V>)
    ensures r.keys == a.keys + Unseen(b.keys, a.keys)
    ensures forall k :: k in r.vals <==> k in a.vals || k in b.vals
    ensures forall k :: k in b.vals ==> r.vals[k] == b.vals[k]
    ensures forall k :: k in a.vals && k !in b.vals ==> r.vals[k] == a.vals[k]
  {
    var left := CopyProperties(Empty(), a.keys, a.vals);
    CopyAll(a);
    assert forall k :: k in b.vals <==> k in b.keys;
    CopyProperties(left, b.keys, b.vals)
  }

  /** `{ ...a }` is a copy of `a`: same keys in the same order, same values. */
  lemma CopyAll<V>(a: Object<V>)
    ensures CopyProperties(Empty(), a.keys, a.vals) == a
  {
    var r := CopyProperties(Empty(), a.keys, a.vals);
    UnseenNothing(a.keys);
    SameMap(r.vals, a.vals);
  }

  lemma SameMap<V>(m: map<string, V>, n: map<string, V>)
    requires forall k :: k in m <==> k in n
    requires forall k :: k in m ==> m[k] == n[k]
    ensures m == n
  {
  }
}
