/** The order Python compares strings by (code point by code point, a prefix first), and the
    sorted key list `json.dumps(sort_keys=True)` derives from it. */
module Ordering {

  predicate StringLeq(a: string, b: string) {
    |a| == 0 || (|b| > 0 && (a[0] < b[0] || (a[0] == b[0] && StringLeq(a[1..], b[1..]))))
  }

  predicate StringLess(a: string, b: string) {
    StringLeq(a, b) && a != b
  }

  lemma {:induction false} StringLeqReflexive(a: string)
    ensures StringLeq(a, a)
  {
    if |a| > 0 { StringLeqReflexive(a[1..]); }
  }

  lemma {:induction false} StringLeqTotal(a: string, b: string)
    ensures StringLeq(a, b) || StringLeq(b, a)
  {
    if |a| > 0 && |b| > 0 && a[0] == b[0] { StringLeqTotal(a[1..], b[1..]); }
  }

  lemma {:induction false} StringLeqAntisymmetric(a: string, b: string)
    requires StringLeq(a, b) && StringLeq(b, a)
    ensures a == b
  {
    if |a| > 0 {
      StringLeqAntisymmetric(a[1..], b[1..]);
      assert a == [a[0]] + a[1..] && b == [b[0]] + b[1..];
    }
  }

  lemma {:induction false} StringLeqTransitive(a: string, b: string, c: string)
    requires StringLeq(a, b) && StringLeq(b, c)
    ensures StringLeq(a, c)
  {
    if |a| > 0 && a[0] == b[0] == c[0] { StringLeqTransitive(a[1..], b[1..], c[1..]); }
  }

  /** Two strings that first differ at `i` are ordered by their characters there. */
  lemma {:induction false} StringLessAt(a: string, b: string, i: nat)
    requires i < |a| && i < |b| && a[..i] == b[..i] && a[i] < b[i]
    ensures StringLess(a, b)
  {
    if i > 0 {
      assert a[0] == a[..i][0] == b[..i][0] == b[0];
      assert a[1..][..i - 1] == a[..i][1..] == b[..i][1..] == b[1..][..i - 1];
      StringLessAt(a[1..], b[1..], i - 1);
    }
  }

  /** `a` and `b` first differ at `i`. */
  predicate DifferAt(a: string, b: string, i: nat) { i < |a| && i < |b| && a[..i] == b[..i] && a[i] != b[i] }

  /** A string comes no later than another exactly when it is a prefix of it or has the smaller character
      where they first differ. */
  lemma {:induction false} OrderExactly(a: string, b: string)
    ensures StringLeq(a, b) <==> a <= b || exists i: nat :: DifferAt(a, b, i) && a[i] < b[i]
  {
    if |a| > 0 && |b| > 0 {
      if a[0] != b[0] {
        assert a[0] < b[0] ==> DifferAt(a, b, 0);
        forall i: nat | 0 < i < |a| && i < |b| ensures a[..i] != b[..i] { assert a[..i][0] == a[0] && b[..i][0] == b[0]; }
      } else {
        OrderExactly(a[1..], b[1..]);
        forall i: nat ensures DifferAt(a[1..], b[1..], i) <==> DifferAt(a, b, i + 1) { DifferBehind(a, b, i); }
        if i: nat :| DifferAt(a[1..], b[1..], i) && a[1..][i] < b[1..][i] { assert DifferAt(a, b, i + 1) && a[i + 1] < b[i + 1]; }
        if i: nat :| DifferAt(a, b, i) && a[i] < b[i] { assert i > 0 && DifferAt(a[1..], b[1..], i - 1); }
        if a[1..] <= b[1..] { assert a == [a[0]] + a[1..] && b == [b[0]] + b[1..]; }
      }
    }
  }

  lemma DifferBehind(a: string, b: string, i: nat)
    requires |a| > 0 && |b| > 0 && a[0] == b[0]
    ensures DifferAt(a[1..], b[1..], i) <==> DifferAt(a, b, i + 1)
  {
    if i + 1 < |a| && i + 1 < |b| {
      assert a[..i + 1] == [a[0]] + a[1..][..i] && b[..i + 1] == [b[0]] + b[1..][..i];
      assert a[..i + 1][1..] == a[1..][..i] && b[..i + 1][1..] == b[1..][..i];
    }
  }

  predicate IsLeast(x: string, s: set<string>) {
    x in s && forall y :: y in s ==> StringLeq(x, y)
  }

  lemma {:induction false} LeastExists(s: set<string>) returns (x: string)
    requires s != {}
    ensures IsLeast(x, s)
    decreases |s|
  {
    var z :| z in s;
    StringLeqReflexive(z);
    if s == {z} {
      x := z;
    } else {
      var rest := s - {z};
      x := LeastExists(rest);
      StringLeqTotal(x, z);
      if !StringLeq(x, z) {
        forall y | y in rest ensures StringLeq(z, y) { StringLeqTransitive(z, x, y); }
        x := z;
      }
    }
  }

  lemma LeastUnique(s: set<string>, x: string, x': string)
    requires IsLeast(x, s) && IsLeast(x', s)
    ensures x == x'
  {
    StringLeqAntisymmetric(x, x');
  }

  /** The least key of a non-empty key set. */
  function LeastKey(s: set<string>): (x: string)
    requires s != {}
    ensures IsLeast(x, s)
  {
    assert exists x :: IsLeast(x, s) by { var x := LeastExists(s); }
    assert forall x, x' :: IsLeast(x, s) && IsLeast(x', s) ==> x == x' by {
      forall x, x' | IsLeast(x, s) && IsLeast(x', s) ensures x == x' { LeastUnique(s, x, x'); }
    }
    var x :| x in s && IsLeast(x, s);
    x
  }

  /** `sorted(keys)`. */
  function SortedKeys(s: set<string>): (r: seq<string>)
    ensures |r| == |s|
    ensures forall k :: k in s <==> k in r
    ensures StrictlySorted(r)
    decreases |s|
  {
    if s == {} then []
    else
      var x := LeastKey(s);
      [x] + SortedKeys(s - {x})
  }

  predicate StrictlySorted(r: seq<string>) {
    forall i, j :: 0 <= i < j < |r| ==> StringLess(r[i], r[j])
  }

  /** A strictly sorted list is the sorted key list of its own elements. */
  lemma {:induction false} SortedKeysUnique(r: seq<string>, s: set<string>)
    requires StrictlySorted(r)
    requires forall k :: k in s <==> k in r
    ensures SortedKeys(s) == r
  {
    if r == [] {
      assert s == {};
    } else {
      assert r[0] in s;
      assert IsLeast(r[0], s) by { StringLeqReflexive(r[0]); }
      LeastUnique(s, r[0], LeastKey(s));
      var tail := r[1..];
      forall k ensures k in s - {r[0]} <==> k in tail {
        if k in tail {
          var i :| 0 <= i < |tail| && tail[i] == k;
          assert r[i + 1] == k && StringLess(r[0], r[i + 1]);
        }
      }
      SortedKeysUnique(tail, s - {r[0]});
    }
  }
}
