/**
 * A JavaScript `Map` with string keys: the keys in insertion order and the value of each.
 * `set` on a present key replaces the value and keeps the key's place; on a
 * new key it appends; `delete` drops the key and keeps the order of the rest.
 */
module JsMaps {
  import opened Wrappers
  import Seqs

  datatype JsMap<V> = JsMap(keys: seq<string>, vals: map<string, V>)

  /** Distinct keys, and exactly the keys the value map has. */
  predicate WellFormed<V>(m: JsMap<V>) {
    && Seqs.Distinct(m.keys)
    && m.vals.Keys == set k | k in m.keys
  }

  function Empty<V>(): (r: JsMap<V>)
    ensures WellFormed(r) && Size(r) == 0
    ensures forall k :: Get(r, k).None?
  {
    JsMap([], map[])
  }

  /** `m.get(k)`, with undefined as None. */
  function Get<V>(m: JsMap<V>, k: string): Option<V> {
    if k in m.vals then Some(m.vals[k]) else None
  }

  /** `m.size` */
  function Size<V>(m: JsMap<V>): nat {
    |m.keys|
  }

  /** `m.set(k, v)` */
  function Set<V>(m: JsMap<V>, k: string, v: V): (r: JsMap<V>)
    ensures WellFormed(m) ==> WellFormed(r)
    ensures Get(r, k) == Some(v)
    ensures forall x :: x != k ==> Get(r, x) == Get(m, x)
    ensures WellFormed(m) ==> Size(r) == Size(m) + (if Get(m, k).Some? then 0 else 1)
    ensures |r.keys| >= |m.keys| && r.keys[..|m.keys|] == m.keys
  {
    if k in m.vals then JsMap(m.keys, m.vals[k := v]) else JsMap(m.keys + [k], m.vals[k := v])
  }

  function NotKey(k: string): string -> bool {
    x => x != k
  }

  /** `m.delete(k)` */
  function Delete<V>(m: JsMap<V>, k: string): (r: JsMap<V>)
    ensures WellFormed(m) ==> WellFormed(r)
    ensures Get(r, k).None?
    ensures forall x :: x != k ==> Get(r, x) == Get(m, x)
    ensures WellFormed(m) ==> Size(r) == Size(m) - (if Get(m, k).Some? then 1 else 0)
  {
    var ks := Seqs.Filter(m.keys, NotKey(k));
    Seqs.FilterMembers(m.keys, NotKey(k));
    DropFacts(m, k);
    JsMap(ks, m.vals - {k})
  }

  lemma DropFacts<V>(m: JsMap<V>, k: string)
    ensures WellFormed(m) ==>
              var ks := Seqs.Filter(m.keys, NotKey(k));
              && Seqs.Distinct(ks)
              && |ks| == |m.keys| - (if k in m.keys then 1 else 0)
  {
    if WellFormed(m) {
      Seqs.FilterDistinct(m.keys, NotKey(k));
      DropOne(m.keys, k);
    }
  }

  /** Dropping a key from distinct keys shortens them by one exactly when the key was there. */
  lemma {:induction false} DropOne(keys: seq<string>, k: string)
    requires Seqs.Distinct(keys)
    ensures |Seqs.Filter(keys, NotKey(k))| == |keys| - (if k in keys then 1 else 0)
  {
    if keys != [] {
      var n := |keys| - 1;
      DropOne(keys[..n], k);
      assert keys == keys[..n] + [keys[n]];
      if keys[n] == k {
        assert k !in keys[..n] by {
          forall i | 0 <= i < n ensures keys[..n][i] != k {
            assert keys[i] != keys[n];
          }
        }
      }
    }
  }

  /** `Array.from(m.values())` */
  function Values<V>(m: JsMap<V>): (r: seq<V>)
    requires WellFormed(m)
    ensures |r| == Size(m)
    ensures forall i :: 0 <= i < |r| ==> r[i] == m.vals[m.keys[i]]
  {
    seq(|m.keys|, i requires 0 <= i < |m.keys| => m.vals[m.keys[i]])
  }

  /** Every value of the map appears among its values, and nothing else does. */
  lemma ValuesMembers<V>(m: JsMap<V>, v: V)
    requires WellFormed(m)
    ensures v in Values(m) <==> exists k :: k in m.vals && m.vals[k] == v
  {
    if exists k :: k in m.vals && m.vals[k] == v {
      var k :| k in m.vals && m.vals[k] == v;
      var i :| 0 <= i < |m.keys| && m.keys[i] == k;
      assert Values(m)[i] == v;
    }
  }
}
