/**
 * `Array.prototype.filter` and `reverse` on sequences, with the facts the
 * services' queries rely on: membership, order and length.
 */
module Seqs {

  /** `s.filter(p)`: the elements satisfying p, in their original order. */
  function Filter<T>(s: seq<T>, p: T -> bool): (r: seq<T>)
    ensures |r| <= |s|
  {
    if s == [] then [] else Filter(s[..|s| - 1], p) + (if p(s[|s| - 1]) then [s[|s| - 1]] else [])
  }

  lemma {:induction false} FilterMembers<T>(s: seq<T>, p: T -> bool)
    ensures forall x :: x in Filter(s, p) <==> x in s && p(x)
  {
    if s != [] {
      FilterMembers(s[..|s| - 1], p);
      assert s == s[..|s| - 1] + [s[|s| - 1]];
    }
  }

  /** Filtering commutes with concatenation, so the kept elements stay in order. */
  lemma {:induction false} FilterAppend<T>(a: seq<T>, b: seq<T>, p: T -> bool)
    ensures Filter(a + b, p) == Filter(a, p) + Filter(b, p)
    decreases |b|
  {
    if b == [] {
      assert a + b == a;
    } else {
      var b' := b[..|b| - 1];
      assert (a + b)[..|a + b| - 1] == a + b';
      FilterAppend(a, b', p);
    }
  }

  /** A kept element sits at some position of the input. */
  lemma FilterIndex<T>(s: seq<T>, p: T -> bool, x: T)
    requires x in Filter(s, p)
    ensures exists j :: 0 <= j < |s| && s[j] == x
  {
    FilterMembers(s, p);
  }

  predicate Distinct<T(==)>(s: seq<T>) {
    forall i, j :: 0 <= i < j < |s| ==> s[i] != s[j]
  }

  /** Filtering keeps distinct elements distinct. */
  lemma {:induction false} FilterDistinct<T>(s: seq<T>, p: T -> bool)
    requires Distinct(s)
    ensures Distinct(Filter(s, p))
  {
    if s != [] {
      var n := |s| - 1;
      var init := s[..n];
      assert Distinct(init) by {
        forall i, j | 0 <= i < j < n ensures init[i] != init[j] {
          assert init[i] == s[i] && init[j] == s[j];
        }
      }
      FilterDistinct(init, p);
      var r := Filter(init, p);
      if p(s[n]) {
        forall i | 0 <= i < |r| ensures r[i] != s[n] {
          FilterIndex(init, p, r[i]);
          var j :| 0 <= j < n && init[j] == r[i];
          assert s[j] != s[n];
        }
        var r' := Filter(s, p);
        assert r' == r + [s[n]];
        forall i, j | 0 <= i < j < |r'| ensures r'[i] != r'[j] {
          if j < |r| {
            assert r'[i] == r[i] && r'[j] == r[j];
          } else {
            assert r'[i] == r[i] && r'[j] == s[n];
          }
        }
      } else {
        assert Filter(s, p) == r;
      }
    }
  }

  /** Replacing one element changes the filtered length by what the filter thinks of the old and new element. */
  lemma {:induction false} FilterUpdateCount<T>(s: seq<T>, i: nat, x: T, p: T -> bool)
    requires i < |s|
    ensures |Filter(s[i := x], p)| == |Filter(s, p)| - (if p(s[i]) then 1 else 0) + (if p(x) then 1 else 0)
  {
    var n := |s| - 1;
    var t := s[i := x];
    assert t[..n] == if i == n then s[..n] else s[..n][i := x];
    if i < n {
      FilterUpdateCount(s[..n], i, x, p);
    }
  }

  /** Two filters that agree on every element keep the same elements. */
  lemma FilterEquiv<T>(s: seq<T>, p: T -> bool, q: T -> bool)
    requires forall x :: x in s ==> p(x) == q(x)
    ensures Filter(s, p) == Filter(s, q)
  {
    assert forall i :: 0 <= i < |s| ==> p(s[i]) == q(s[i]) by {
      forall i | 0 <= i < |s| ensures p(s[i]) == q(s[i]) {
        assert s[i] in s;
      }
    }
    FilterEquivPrefix(s, p, q, |s|);
    assert s[..|s|] == s;
  }

  lemma {:induction false} FilterEquivPrefix<T>(s: seq<T>, p: T -> bool, q: T -> bool, k: nat)
    requires k <= |s| && forall i :: 0 <= i < |s| ==> p(s[i]) == q(s[i])
    ensures Filter(s[..k], p) == Filter(s[..k], q)
    decreases k
  {
    if k > 0 {
      FilterEquivPrefix(s, p, q, k - 1);
      assert s[..k][..k - 1] == s[..k - 1] && s[..k][k - 1] == s[k - 1];
    }
  }

  /** A filter for "p or q", with p and q never both true, keeps as many elements as the two together. */
  lemma FilterUnionCount<T>(s: seq<T>, p: T -> bool, q: T -> bool, r: T -> bool)
    requires forall x :: x in s ==> r(x) == (p(x) || q(x))
    requires forall x :: x in s ==> !(p(x) && q(x))
    ensures |Filter(s, r)| == |Filter(s, p)| + |Filter(s, q)|
  {
    assert forall i :: 0 <= i < |s| ==> r(s[i]) == (p(s[i]) || q(s[i])) && !(p(s[i]) && q(s[i])) by {
      forall i | 0 <= i < |s| ensures r(s[i]) == (p(s[i]) || q(s[i])) && !(p(s[i]) && q(s[i])) {
        assert s[i] in s;
      }
    }
    FilterUnionPrefix(s, p, q, r, |s|);
    assert s[..|s|] == s;
  }

  lemma {:induction false} FilterUnionPrefix<T>(s: seq<T>, p: T -> bool, q: T -> bool, r: T -> bool, k: nat)
    requires k <= |s|
    requires forall i :: 0 <= i < |s| ==> r(s[i]) == (p(s[i]) || q(s[i])) && !(p(s[i]) && q(s[i]))
    ensures |Filter(s[..k], r)| == |Filter(s[..k], p)| + |Filter(s[..k], q)|
    decreases k
  {
    if k > 0 {
      FilterUnionPrefix(s, p, q, r, k - 1);
      FilterSnoc(s, r, k);
      FilterSnoc(s, p, k);
      FilterSnoc(s, q, k);
    }
  }

  /** The filter of a prefix one longer adds the next element if it is kept. */
  lemma FilterSnoc<T>(s: seq<T>, p: T -> bool, k: nat)
    requires 0 < k <= |s|
    ensures Filter(s[..k], p) == Filter(s[..k - 1], p) + (if p(s[k - 1]) then [s[k - 1]] else [])
  {
    assert s[..k][..k - 1] == s[..k - 1];
  }

  /** A filter that keeps everything is the identity. */
  lemma FilterAll<T>(s: seq<T>, p: T -> bool)
    requires forall x :: x in s ==> p(x)
    ensures Filter(s, p) == s
  {
    assert forall i :: 0 <= i < |s| ==> p(s[i]) by {
      forall i | 0 <= i < |s| ensures p(s[i]) {
        assert s[i] in s;
      }
    }
    FilterAllPrefix(s, p, |s|);
    assert s[..|s|] == s;
  }

  lemma {:induction false} FilterAllPrefix<T>(s: seq<T>, p: T -> bool, k: nat)
    requires k <= |s| && forall i :: 0 <= i < |s| ==> p(s[i])
    ensures Filter(s[..k], p) == s[..k]
    decreases k
  {
    if k > 0 {
      FilterAllPrefix(s, p, k - 1);
      var t, u := s[..k], s[..k - 1];
      assert t[..k - 1] == u && t[k - 1] == s[k - 1];
      assert Filter(t, p) == Filter(u, p) + [s[k - 1]];
      assert t == u + [s[k - 1]];
    }
  }

  /** A filter that keeps nothing is empty. */
  lemma FilterNone<T>(s: seq<T>, p: T -> bool)
    requires forall x :: x in s ==> !p(x)
    ensures Filter(s, p) == []
  {
    assert forall i :: 0 <= i < |s| ==> !p(s[i]) by {
      forall i | 0 <= i < |s| ensures !p(s[i]) {
        assert s[i] in s;
      }
    }
    FilterNonePrefix(s, p, |s|);
    assert s[..|s|] == s;
  }

  lemma {:induction false} FilterNonePrefix<T>(s: seq<T>, p: T -> bool, k: nat)
    requires k <= |s| && forall i :: 0 <= i < |s| ==> !p(s[i])
    ensures Filter(s[..k], p) == []
    decreases k
  {
    if k > 0 {
      FilterNonePrefix(s, p, k - 1);
      assert s[..k][..k - 1] == s[..k - 1] && s[..k][k - 1] == s[k - 1];
    }
  }

  /** `[...s].reverse()` */
  function Reverse<T>(s: seq<T>): (r: seq<T>)
    ensures |r| == |s|
    ensures forall i :: 0 <= i < |s| ==> r[i] == s[|s| - 1 - i]
  {
    if s == [] then [] else [s[|s| - 1]] + Reverse(s[..|s| - 1])
  }

  lemma ReverseMembers<T>(s: seq<T>)
    ensures forall x :: x in Reverse(s) <==> x in s
  {
    forall x | x in s ensures x in Reverse(s) {
      var i :| 0 <= i < |s| && s[i] == x;
      assert Reverse(s)[|s| - 1 - i] == x;
    }
  }

  /** The positions of the elements satisfying p, ascending. */
  function Positions<T>(s: seq<T>, p: T -> bool): (r: seq<nat>)
    ensures |r| <= |s|
    ensures forall k :: 0 <= k < |r| ==> r[k] < |s|
  {
    if s == [] then [] else Positions(s[..|s| - 1], p) + (if p(s[|s| - 1]) then [|s| - 1] else [])
  }

  /** Positions lists every position whose element satisfies p, and only those, in ascending order. */
  lemma {:induction false} PositionsMeaning<T>(s: seq<T>, p: T -> bool)
    ensures forall k :: 0 <= k < |Positions(s, p)| ==> p(s[Positions(s, p)[k]])
    ensures forall k, l :: 0 <= k < l < |Positions(s, p)| ==> Positions(s, p)[k] < Positions(s, p)[l]
    ensures forall i :: 0 <= i < |s| && p(s[i]) ==> i in Positions(s, p)
  {
    if s != [] {
      var n := |s| - 1;
      var init := s[..n];
      PositionsMeaning(init, p);
      var prefix := Positions(init, p);
      forall k | 0 <= k < |prefix| ensures s[prefix[k]] == init[prefix[k]] {
      }
      forall i | 0 <= i < n && p(s[i]) ensures i in prefix {
        assert init[i] == s[i];
      }
    }
  }

  /** `s.map((x, i) => p(x) ? f(x, i) : null).filter(Boolean)`: f of each kept element and its position. */
  function Collect<T, U>(s: seq<T>, p: T -> bool, f: (T, nat) -> U): (r: seq<U>)
    ensures |r| <= |s|
  {
    if s == [] then [] else
      var n := |s| - 1;
      Collect(s[..n], p, f) + (if p(s[n]) then [f(s[n], n)] else [])
  }

  /** The k-th collected value is f of the k-th kept element and its position. */
  lemma {:induction false} CollectMeaning<T, U>(s: seq<T>, p: T -> bool, f: (T, nat) -> U)
    ensures |Collect(s, p, f)| == |Positions(s, p)|
    ensures forall k :: 0 <= k < |Positions(s, p)| ==>
              Collect(s, p, f)[k] == f(s[Positions(s, p)[k]], Positions(s, p)[k])
  {
    if s != [] {
      var n := |s| - 1;
      var init := s[..n];
      CollectMeaning(init, p, f);
      var prefix := Positions(init, p);
      forall k | 0 <= k < |prefix| ensures s[prefix[k]] == init[prefix[k]] {
      }
    }
  }
}
