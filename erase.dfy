/**
 * Deferred erasure: the instructions queued by position are removed once
 * both scans are over, and the rest keep their order.
 */
module Erase {
  predicate StrictlyIncreasing(s: seq<nat>) {
    forall j, k :: 0 <= j < k < |s| ==> s[j] < s[k]
  }

  predicate Below(s: seq<nat>, n: nat) {
    forall j :: 0 <= j < |s| ==> s[j] < n
  }

  /** `s` without the elements at the positions listed in `e`. */
  function Without<T>(s: seq<T>, e: seq<nat>): (r: seq<T>) {
    if s == [] then []
    else Without(s[..|s| - 1], e) + (if |s| - 1 in e then [] else [s[|s| - 1]])
  }

  /** The positions below `n` not listed in `e`, in increasing order. */
  function Kept(n: nat, e: seq<nat>): (k: seq<nat>) {
    if n == 0 then [] else Kept(n - 1, e) + (if n - 1 in e then [] else [n - 1])
  }

  /** `eraseFromParent` of the instruction at position `p`. */
  function RemoveAt<T>(s: seq<T>, p: nat): (r: seq<T>)
    requires p < |s|
    ensures |r| == |s| - 1
    ensures forall j :: 0 <= j < p ==> r[j] == s[j]
    ensures forall j :: p <= j < |r| ==> r[j] == s[j + 1]
  {
    s[..p] + s[p + 1..]
  }

  /** Erasing nothing keeps everything. */
  lemma {:induction false} WithoutNothing<T>(s: seq<T>)
    ensures Without(s, []) == s
  {
    if s != [] {
      WithoutNothing(s[..|s| - 1]);
    }
  }

  /** Only which positions of `s` are listed matters. */
  lemma {:induction false} WithoutSameMembers<T>(s: seq<T>, e1: seq<nat>, e2: seq<nat>)
    requires forall p :: 0 <= p < |s| ==> (p in e1 <==> p in e2)
    ensures Without(s, e1) == Without(s, e2)
  {
    if s != [] {
      WithoutSameMembers(s[..|s| - 1], e1, e2);
    }
  }

  /** Erasing `|e|` distinct positions of `s` leaves `|s| - |e|` elements. */
  lemma {:induction false} WithoutLength<T>(s: seq<T>, e: seq<nat>)
    requires StrictlyIncreasing(e) && Below(e, |s|)
    ensures |Without(s, e)| == |s| - |e|
  {
    if s != [] {
      var n := |s|;
      var s' := s[..n - 1];
      if n - 1 in e {
        var e' := e[..|e| - 1];
        DropLast(e, n - 1);
        WithoutSameMembers(s', e, e');
        WithoutLength(s', e');
      } else {
        assert Below(e, n - 1);
        WithoutLength(s', e);
      }
    } else if e != [] {
      BelowFirst(e, |s|);
      assert false;
    }
  }

  /** When the largest possible position `n` is listed, it is the last
      one, and the others lie below it. */
  lemma DropLast(e: seq<nat>, n: nat)
    requires StrictlyIncreasing(e) && Below(e, n + 1) && n in e
    ensures e != [] && e[|e| - 1] == n
    ensures StrictlyIncreasing(e[..|e| - 1]) && Below(e[..|e| - 1], n)
    ensures forall p :: 0 <= p < n ==> (p in e <==> p in e[..|e| - 1])
  {
    var k :| 0 <= k < |e| && e[k] == n;
    assert e[|e| - 1] >= e[k];
    var e' := e[..|e| - 1];
    assert e == e' + [n];
    forall j | 0 <= j < |e'| ensures e'[j] < n {
      assert e'[j] == e[j] < e[|e| - 1];
    }
  }

  lemma BelowFirst(e: seq<nat>, n: nat)
    requires e != [] && Below(e, n)
    ensures e[0] < n
  {
  }

  /** `Without` keeps exactly the elements at the `Kept` positions, in
      order. */
  lemma {:induction false} WithoutIsKept<T>(s: seq<T>, e: seq<nat>)
    ensures |Without(s, e)| == |Kept(|s|, e)|
    ensures forall j :: 0 <= j < |Kept(|s|, e)| ==> Kept(|s|, e)[j] < |s| && Without(s, e)[j] == s[Kept(|s|, e)[j]]
  {
    if s != [] {
      var s' := s[..|s| - 1];
      WithoutIsKept(s', e);
      KeptSpec(|s'|, e);
    }
  }

  /** The kept positions are increasing and are those not listed. */
  lemma {:induction false} KeptSpec(n: nat, e: seq<nat>)
    ensures StrictlyIncreasing(Kept(n, e))
    ensures forall p: nat :: p in Kept(n, e) <==> p < n && p !in e
  {
    if n > 0 {
      KeptSpec(n - 1, e);
      var k := Kept(n, e);
      forall i, j | 0 <= i < j < |k| ensures k[i] < k[j] {
        if j == |Kept(n - 1, e)| {
          assert k[i] in Kept(n - 1, e);
        }
      }
      forall p: nat ensures p in k <==> p < n && p !in e {
        assert p in k <==> p in Kept(n - 1, e) || (n - 1 !in e && p == n - 1);
      }
    }
  }

  /** Strictly increasing positions below `n` number at most `n`. */
  lemma {:induction false} IncreasingBelowLength(e: seq<nat>, n: nat)
    requires StrictlyIncreasing(e) && Below(e, n)
    ensures |e| <= n
  {
    if e != [] {
      var e' := e[..|e| - 1];
      var last := e[|e| - 1];
      assert StrictlyIncreasing(e') && Below(e', last);
      IncreasingBelowLength(e', last);
    }
  }

  /** Erasing one more, higher, position is removing the element that now
      sits `|f|` places lower. */
  lemma {:induction false} WithoutAppend<T>(s: seq<T>, f: seq<nat>, p: nat)
    requires StrictlyIncreasing(f + [p]) && Below(f + [p], |s|)
    ensures |f| <= p < |s| && p - |f| < |Without(s, f)|
    ensures Without(s, f + [p]) == RemoveAt(Without(s, f), p - |f|)
  {
    var n := |s|;
    assert p == (f + [p])[|f|] < n;
    var s' := s[..n - 1];
    forall j | 0 <= j < |f| ensures f[j] < p {
      assert f[j] == (f + [p])[j];
    }
    forall j, k | 0 <= j < k < |f| ensures f[j] < f[k] {
      assert f[j] == (f + [p])[j] && f[k] == (f + [p])[k];
    }
    IncreasingBelowLength(f, p);
    WithoutLength(s', f);
    assert n - 1 !in f;
    if p == n - 1 {
      WithoutSameMembers(s', f + [p], f);
    } else {
      assert n - 1 !in f + [p];
      WithoutAppend(s', f, p);
    }
  }
}
