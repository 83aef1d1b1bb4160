/** Sequence helpers shared by the encoders. */
module Seqs {

  function Min(a: int, b: int): int { if a <= b then a else b }

  /** `text[a:b]` for bounds that are not negative: both are clamped to the length. */
  function Slice(text: string, a: nat, b: nat): (r: string)
    ensures a <= b <= |text| ==> r == text[a..b]
    ensures a <= |text| <= b ==> r == text[a..]
    ensures b <= a || |text| <= a ==> r == ""
  {
    var n := |text|;
    if Min(a, n) <= Min(b, n) then text[Min(a, n)..Min(b, n)] else ""
  }

  /** The concatenation of `f` over the elements of `s`, as `"".join(map(f, s))`. */
  function FlatMap<T, U>(f: T -> seq<U>, s: seq<T>): seq<U> {
    if |s| == 0 then [] else f(s[0]) + FlatMap(f, s[1..])
  }

  lemma {:induction false} FlatMapAppend<T, U>(f: T -> seq<U>, s: seq<T>, t: seq<T>)
    ensures FlatMap(f, s + t) == FlatMap(f, s) + FlatMap(f, t)
  {
    if |s| == 0 {
      assert s + t == t;
    } else {
      FlatMapAppend(f, s[1..], t);
      assert (s + t)[0] == s[0] && (s + t)[1..] == s[1..] + t;
      assert FlatMap(f, s + t) == f(s[0]) + (FlatMap(f, s[1..]) + FlatMap(f, t));
    }
  }

  lemma FlatMapOne<T, U>(f: T -> seq<U>, x: T)
    ensures FlatMap(f, [x]) == f(x)
  {
    assert FlatMap(f, [x][1..]) == [];
  }

  lemma Regroup<T>(a: seq<T>, b: seq<T>, p: seq<T>, c: seq<T>, r: seq<T>)
    ensures a + b + p + c + r == a + (b + (p + c + r))
  {
  }

  lemma Shift<T>(a: seq<T>, b: seq<T>, c: seq<T>, d: seq<T>)
    ensures a + b + c + d == a + (b + c + d)
  {
  }

  lemma SliceOfSlice<T>(s: seq<T>, start: nat, size: nat, at: nat, n: nat)
    requires start + size <= |s| && at + n <= size
    ensures s[start..start + size][at..at + n] == s[start + at..start + at + n]
  {
    var t, u := s[start..start + size][at..at + n], s[start + at..start + at + n];
    forall j | 0 <= j < n ensures t[j] == u[j] {
      assert s[start..start + size][at + j] == s[start + (at + j)];
    }
  }

  lemma SliceOfSuffix<T>(s: seq<T>, from: nat, n: nat)
    requires from + n <= |s|
    ensures s[from..][..n] == s[from..from + n] && s[from..][n..] == s[from + n..]
  {
  }

  lemma Suffix<T>(s: seq<T>, k: nat)
    requires k <= |s|
    ensures forall j :: k <= j < |s| ==> s[j] == s[k..][j - k]
    ensures forall j :: 0 <= j < |s| - k ==> s[k..][j] == s[j + k]
  {
  }

  lemma Nest<T>(a: seq<T>, b: seq<T>, c: seq<T>, d: seq<T>, e: seq<T>, r: seq<T>)
    ensures a + (b + (c + d)) + e + r == a + (b + (c + (d + (e + r))))
    ensures (b + (c + d)) + e + r == b + (c + (d + (e + r)))
  {
  }
}
