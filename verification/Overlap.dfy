/** Overlap resolution: candidates in priority order, each kept unless it overlaps one already kept. */
module Overlap {
  import opened Wrappers
  import opened Ordering

  /** A detection; `confidence` takes no part in resolution. */
  datatype Span = Span(category: string, value: string, start: int, end: int, confidence: Option<real>)

  predicate IsValid(s: Span) { 0 <= s.start < s.end }

  const CATEGORY_PRECEDENCE: seq<string> := [
    "medical_data", "cnpj", "cpf", "employee_name", "email", "phone", "salary", "department"]

  function IndexIn(category: string, list: seq<string>): nat {
    if |list| == 0 || list[0] == category then 0 else 1 + IndexIn(category, list[1..])
  }

  /** The index of the category; the number of listed ones for any other. */
  function PrecedenceRank(category: string): nat {
    IndexIn(category, CATEGORY_PRECEDENCE)
  }

  // ----- the five-part sort key -----

  datatype Key = Key(negatedLength: int, rank: int, start: int, category: string, value: string)

  function SortKey(s: Span): Key {
    Key(-(s.end - s.start), PrecedenceRank(s.category), s.start, s.category, s.value)
  }

  /** Tuples compare by their first difference. */
  predicate KeyLeq(a: Key, b: Key) {
    a.negatedLength < b.negatedLength || (a.negatedLength == b.negatedLength && (
    a.rank < b.rank || (a.rank == b.rank && (
    a.start < b.start || (a.start == b.start && (
    StringLess(a.category, b.category) || (a.category == b.category && StringLeq(a.value, b.value))))))))
  }

  lemma KeyLeqTotal(a: Key, b: Key)
    ensures KeyLeq(a, b) || KeyLeq(b, a)
  {
    StringLeqTotal(a.category, b.category);
    StringLeqTotal(a.value, b.value);
  }

  lemma KeyLeqAntisymmetric(a: Key, b: Key)
    requires KeyLeq(a, b) && KeyLeq(b, a)
    ensures a == b
  {
    if a.category != b.category && StringLeq(a.category, b.category) && StringLeq(b.category, a.category) {
      StringLeqAntisymmetric(a.category, b.category);
    }
    if a.category == b.category { StringLeqAntisymmetric(a.value, b.value); }
  }

  lemma KeyLeqTransitive(a: Key, b: Key, c: Key)
    requires KeyLeq(a, b) && KeyLeq(b, c)
    ensures KeyLeq(a, c)
  {
    if a.negatedLength == b.negatedLength == c.negatedLength && a.rank == b.rank == c.rank && a.start == b.start == c.start {
      if a.category != b.category && b.category != c.category {
        StringLeqTransitive(a.category, b.category, c.category);
        if a.category == c.category { StringLeqAntisymmetric(a.category, b.category); }
      } else if a.category == b.category == c.category {
        StringLeqTransitive(a.value, b.value, c.value);
      }
    }
  }

  /** Everything about a span but its confidence. */
  datatype Core = Core(category: string, value: string, start: int, end: int)

  function CoreOf(s: Span): Core { Core(s.category, s.value, s.start, s.end) }

  // ----- stable sorting, as `sorted` does -----

  function Insert(s: Span, sorted: seq<Span>, leq: (Span, Span) -> bool): seq<Span> {
    if |sorted| == 0 || leq(s, sorted[0]) then [s] + sorted
    else [sorted[0]] + Insert(s, sorted[1..], leq)
  }

  /** Insertion from the right keeps equal elements in their order. */
  function Sorted(spans: seq<Span>, leq: (Span, Span) -> bool): seq<Span> {
    if |spans| == 0 then [] else Insert(spans[0], Sorted(spans[1..], leq), leq)
  }

  predicate ByPriority(s: Span, t: Span) { KeyLeq(SortKey(s), SortKey(t)) }

  predicate ByPosition(s: Span, t: Span) { s.start < t.start || (s.start == t.start && s.end <= t.end) }

  // ----- the greedy choice -----

  predicate Overlaps(a: Span, b: Span) { a.start < b.end && b.start < a.end }

  predicate Clashes(s: Span, kept: seq<Span>) {
    exists i :: 0 <= i < |kept| && Overlaps(s, kept[i])
  }

  function Greedy(ordered: seq<Span>, kept: seq<Span>): seq<Span>
    decreases |ordered|
  {
    if |ordered| == 0 then kept
    else Greedy(ordered[1..], if Clashes(ordered[0], kept) then kept else kept + [ordered[0]])
  }

  /** The first span with invalid offsets, which the error names. */
  function FirstInvalid(spans: seq<Span>): (r: Option<Span>)
    ensures r == None <==> forall i :: 0 <= i < |spans| ==> IsValid(spans[i])
  {
    if |spans| == 0 then None
    else if !IsValid(spans[0]) then Some(spans[0])
    else FirstInvalid(spans[1..])
  }

  /** `ValueError`, naming category and offsets and never the value. */
  datatype InvalidOffsets = InvalidOffsets(category: string, start: int, end: int)

  function Resolution(spans: seq<Span>): Result<seq<Span>, InvalidOffsets> {
    match FirstInvalid(spans)
    case Some(s) => Err(InvalidOffsets(s.category, s.start, s.end))
    case None => Ok(Sorted(Greedy(Sorted(spans, ByPriority), []), ByPosition))
  }

  method ResolveOverlaps(spans: seq<Span>) returns (r: Result<seq<Span>, InvalidOffsets>)
    ensures r == Resolution(spans)
  {
    for i := 0 to |spans|
      invariant FirstInvalid(spans[i..]) == FirstInvalid(spans)
    {
      if !IsValid(spans[i]) {
        return Err(InvalidOffsets(spans[i].category, spans[i].start, spans[i].end));
      }
      assert spans[i..][1..] == spans[i + 1..];
    }
    var ordered := Sorted(spans, ByPriority);
    var accepted: seq<Span> := [];
    for i := 0 to |ordered|
      invariant Greedy(ordered[i..], accepted) == Greedy(ordered, [])
    {
      assert ordered[i..][1..] == ordered[i + 1..];
      if !(exists k :: 0 <= k < |accepted| && Overlaps(ordered[i], accepted[k])) {
        accepted := accepted + [ordered[i]];
      }
    }
    r := Ok(Sorted(accepted, ByPosition));
  }

  // ----- facts about sorting -----

  ghost predicate IsOrder(leq: (Span, Span) -> bool) {
    && (forall a, b :: leq(a, b) || leq(b, a))
    && (forall a, b, c {:trigger leq(a, b), leq(b, c)} :: leq(a, b) && leq(b, c) ==> leq(a, c))
  }

  predicate IsSorted(s: seq<Span>, leq: (Span, Span) -> bool) {
    forall i, j :: 0 <= i < j < |s| ==> leq(s[i], s[j])
  }

  lemma PriorityIsOrder()
    ensures IsOrder(ByPriority)
  {
    forall a, b ensures ByPriority(a, b) || ByPriority(b, a) { KeyLeqTotal(SortKey(a), SortKey(b)); }
    forall a, b, c | ByPriority(a, b) && ByPriority(b, c) ensures ByPriority(a, c) {
      KeyLeqTransitive(SortKey(a), SortKey(b), SortKey(c));
    }
  }

  lemma {:induction false} InsertPermutes(s: Span, sorted: seq<Span>, leq: (Span, Span) -> bool)
    ensures multiset(Insert(s, sorted, leq)) == multiset{s} + multiset(sorted)
  {
    if |sorted| > 0 && !leq(s, sorted[0]) {
      InsertPermutes(s, sorted[1..], leq);
      assert sorted == [sorted[0]] + sorted[1..];
    }
  }

  lemma {:induction false} InsertSorts(s: Span, sorted: seq<Span>, leq: (Span, Span) -> bool)
    requires IsOrder(leq) && IsSorted(sorted, leq)
    ensures IsSorted(Insert(s, sorted, leq), leq)
  {
    if |sorted| > 0 && !leq(s, sorted[0]) {
      var head, tail := sorted[0], sorted[1..];
      InsertSorts(s, tail, leq);
      InsertPermutes(s, tail, leq);
      var rest := Insert(s, tail, leq);
      forall x | x in multiset(rest) ensures leq(head, x) {
        if x != s { assert x in tail; }
      }
      ConsSorted(head, rest, leq);
    } else {
      forall i | 0 <= i < |sorted| ensures leq(s, sorted[i]) {
        assert leq(sorted[0], sorted[i]) || i == 0;
      }
    }
  }

  lemma ConsSorted(head: Span, rest: seq<Span>, leq: (Span, Span) -> bool)
    requires IsSorted(rest, leq) && forall x :: x in multiset(rest) ==> leq(head, x)
    ensures IsSorted([head] + rest, leq)
  {
    forall i | 0 <= i < |rest| ensures leq(head, rest[i]) { assert rest[i] in multiset(rest); }
  }

  lemma {:induction false} SortedPermutes(spans: seq<Span>, leq: (Span, Span) -> bool)
    ensures multiset(Sorted(spans, leq)) == multiset(spans)
  {
    if |spans| > 0 {
      SortedPermutes(spans[1..], leq);
      InsertPermutes(spans[0], Sorted(spans[1..], leq), leq);
      assert spans == [spans[0]] + spans[1..];
    }
  }

  lemma {:induction false} SortedSorts(spans: seq<Span>, leq: (Span, Span) -> bool)
    requires IsOrder(leq)
    ensures IsSorted(Sorted(spans, leq), leq)
  {
    if |spans| > 0 {
      SortedSorts(spans[1..], leq);
      InsertSorts(spans[0], Sorted(spans[1..], leq), leq);
    }
  }

  // ----- the canonical result -----

  predicate CoresOverlap(a: Core, b: Core) { a.start < b.end && b.start < a.end }

  function CoreKey(c: Core): Key {
    Key(-(c.end - c.start), PrecedenceRank(c.category), c.start, c.category, c.value)
  }

  function CoreSet(spans: seq<Span>): set<Core> { set s | s in spans :: CoreOf(s) }

  /** Pairwise disjoint, and every candidate left out overlaps a kept one of smaller or equal key. */
  ghost predicate IsResolved(kept: set<Core>, all: set<Core>) {
    && kept <= all
    && (forall a, b :: a in kept && b in kept && a != b ==> !CoresOverlap(a, b))
    && (forall c :: c in all - kept ==> IsDominated(c, kept))
  }

  ghost predicate IsDominated(c: Core, kept: set<Core>) {
    exists k :: k in kept && CoresOverlap(c, k) && KeyLeq(CoreKey(k), CoreKey(c))
  }

  ghost function Smaller(c: Core, all: set<Core>): set<Core> {
    set d | d in all && d != c && KeyLeq(CoreKey(d), CoreKey(c))
  }

  lemma CoreKeyInjective(a: Core, b: Core)
    requires CoreKey(a) == CoreKey(b)
    ensures a == b
  {
  }

  lemma SmallerShrinks(k: Core, c: Core, all: set<Core>)
    requires k in Smaller(c, all)
    ensures |Smaller(k, all)| < |Smaller(c, all)|
  {
    var a, b := Smaller(k, all), Smaller(c, all);
    forall d | d in a ensures d in b - {k} {
      KeyLeqTransitive(CoreKey(d), CoreKey(k), CoreKey(c));
      if d == c { KeyLeqAntisymmetric(CoreKey(d), CoreKey(k)); CoreKeyInjective(d, k); }
    }
    assert b == (b - {k}) + {k};
    assert b - {k} == a + (b - {k} - a);
  }

  lemma {:induction false} ResolvedWithin(one: set<Core>, other: set<Core>, all: set<Core>, c: Core)
    requires IsResolved(one, all) && IsResolved(other, all) && c in one
    ensures c in other
    decreases |Smaller(c, all)|
  {
    if c !in other {
      assert IsDominated(c, other);
      var k :| k in other && CoresOverlap(c, k) && KeyLeq(CoreKey(k), CoreKey(c));
      SmallerShrinks(k, c, all);
      ResolvedWithin(other, one, all, k);
    }
  }

  /** There is only one such choice. */
  lemma ResolvedUnique(one: set<Core>, other: set<Core>, all: set<Core>)
    requires IsResolved(one, all) && IsResolved(other, all)
    ensures one == other
  {
    forall c | c in one ensures c in other { ResolvedWithin(one, other, all, c); }
    forall c | c in other ensures c in one { ResolvedWithin(other, one, all, c); }
  }

  // ----- the greedy loop makes that choice -----

  predicate AllValid(spans: seq<Span>) { forall i :: 0 <= i < |spans| ==> IsValid(spans[i]) }

  predicate Disjoint(kept: seq<Span>) {
    forall i, j :: 0 <= i < j < |kept| ==> !Overlaps(kept[i], kept[j])
  }

  predicate NoneLater(done: set<Core>, s: Span) {
    forall c :: c in done ==> KeyLeq(CoreKey(c), SortKey(s))
  }

  lemma {:induction false} GreedyResolves(ordered: seq<Span>, kept: seq<Span>, done: set<Core>)
    requires AllValid(ordered) && AllValid(kept) && Disjoint(kept) && IsResolved(CoreSet(kept), done)
    requires IsSorted(ordered, ByPriority) && (|ordered| > 0 ==> NoneLater(done, ordered[0]))
    ensures var g := Greedy(ordered, kept);
            && AllValid(g) && Disjoint(g) && IsResolved(CoreSet(g), done + CoreSet(ordered))
            && (forall s :: s in g ==> s in kept || s in ordered)
    decreases |ordered|
  {
    if |ordered| == 0 {
      assert done + CoreSet(ordered) == done;
    } else {
      var s, rest := ordered[0], ordered[1..];
      var more := done + {CoreOf(s)};
      assert ordered == [s] + rest;
      assert done + CoreSet(ordered) == more + CoreSet(rest);
      if |rest| > 0 { NoneLaterStep(done, s, rest[0]); }
      if Clashes(s, kept) {
        DropKeepsResolved(s, kept, done);
        GreedyResolves(rest, kept, more);
      } else {
        KeepKeepsResolved(s, kept, done);
        GreedyResolves(rest, kept + [s], more);
      }
    }
  }

  lemma NoneLaterStep(done: set<Core>, s: Span, t: Span)
    requires NoneLater(done, s) && ByPriority(s, t)
    ensures NoneLater(done + {CoreOf(s)}, t)
  {
    forall c | c in done + {CoreOf(s)} ensures KeyLeq(CoreKey(c), SortKey(t)) {
      if c in done { KeyLeqTransitive(CoreKey(c), SortKey(s), SortKey(t)); }
    }
  }

  lemma DropKeepsResolved(s: Span, kept: seq<Span>, done: set<Core>)
    requires IsResolved(CoreSet(kept), done) && NoneLater(done, s) && Clashes(s, kept)
    ensures IsResolved(CoreSet(kept), done + {CoreOf(s)})
  {
    var i :| 0 <= i < |kept| && Overlaps(s, kept[i]);
    assert CoreOf(kept[i]) in CoreSet(kept);
    assert IsDominated(CoreOf(s), CoreSet(kept));
  }

  lemma KeepKeepsResolved(s: Span, kept: seq<Span>, done: set<Core>)
    requires IsValid(s) && IsResolved(CoreSet(kept), done) && !Clashes(s, kept)
    ensures IsResolved(CoreSet(kept + [s]), done + {CoreOf(s)})
  {
    var k := CoreSet(kept);
    assert CoreSet(kept + [s]) == k + {CoreOf(s)};
    forall c | c in k ensures !CoresOverlap(c, CoreOf(s)) {
      var i :| 0 <= i < |kept| && CoreOf(kept[i]) == c;
      assert !Overlaps(s, kept[i]);
    }
    forall c | c in done + {CoreOf(s)} - (k + {CoreOf(s)}) ensures IsDominated(c, k + {CoreOf(s)}) {
      assert IsDominated(c, k);
    }
  }

  // ----- the resolved list -----

  /** In text order, each span ending before the next starts. */
  predicate Separated(r: seq<Span>) {
    forall i, j :: 0 <= i < j < |r| ==> r[i].end <= r[j].start
  }

  lemma SortedElements(spans: seq<Span>, leq: (Span, Span) -> bool)
    ensures forall s :: s in Sorted(spans, leq) <==> s in spans
    ensures CoreSet(Sorted(spans, leq)) == CoreSet(spans)
    ensures AllValid(spans) ==> AllValid(Sorted(spans, leq))
  {
    SortedPermutes(spans, leq);
    var t := Sorted(spans, leq);
    forall s ensures s in t <==> s in spans { assert s in multiset(t) <==> s in multiset(spans); }
    if AllValid(spans) {
      forall i | 0 <= i < |t| ensures IsValid(t[i]) {
        assert t[i] in spans;
        var j :| 0 <= j < |spans| && spans[j] == t[i];
      }
    }
  }

  lemma {:induction false} InsertDisjoint(s: Span, r: seq<Span>)
    requires IsValid(s) && AllValid(r) && Separated(r)
    requires forall i :: 0 <= i < |r| ==> !Overlaps(s, r[i])
    ensures Separated(Insert(s, r, ByPosition)) && AllValid(Insert(s, r, ByPosition))
    ensures forall x :: x in Insert(s, r, ByPosition) ==> x == s || x in r
  {
    if |r| > 0 && !ByPosition(s, r[0]) {
      InsertDisjoint(s, r[1..]);
      var q := Insert(s, r[1..], ByPosition);
      forall i | 0 <= i < |q| ensures r[0].end <= q[i].start {
        if q[i] != s {
          assert q[i] in r[1..];
          var j :| 0 <= j < |r[1..]| && r[1..][j] == q[i];
          assert r[j + 1] == q[i];
        }
      }
    }
  }

  lemma {:induction false} SortedDisjoint(kept: seq<Span>)
    requires AllValid(kept) && Disjoint(kept)
    ensures Separated(Sorted(kept, ByPosition)) && AllValid(Sorted(kept, ByPosition))
  {
    if |kept| > 0 {
      var tail := kept[1..];
      SortedDisjoint(tail);
      SortedElements(tail, ByPosition);
      var r := Sorted(tail, ByPosition);
      forall i | 0 <= i < |r| ensures !Overlaps(kept[0], r[i]) {
        assert r[i] in tail;
        var j :| 0 <= j < |tail| && tail[j] == r[i];
        assert kept[j + 1] == r[i];
      }
      InsertDisjoint(kept[0], r);
    }
  }

  /** The result is the unique choice, taken from the input, in text order without overlaps. */
  lemma ResolutionResolves(spans: seq<Span>)
    requires AllValid(spans)
    ensures Resolution(spans).Ok?
    ensures var r := Resolution(spans).value;
            && AllValid(r) && Separated(r) && IsResolved(CoreSet(r), CoreSet(spans))
            && (forall s :: s in r ==> s in spans)
  {
    PriorityIsOrder();
    var ordered := Sorted(spans, ByPriority);
    SortedSorts(spans, ByPriority);
    SortedElements(spans, ByPriority);
    assert CoreSet([]) == {};
    GreedyResolves(ordered, [], {});
    assert {} + CoreSet(ordered) == CoreSet(spans);
    var g := Greedy(ordered, []);
    SortedDisjoint(g);
    SortedElements(g, ByPosition);
  }

  // ----- which of several equal detections survives -----

  predicate HasCore(spans: seq<Span>, c: Core) { exists i :: 0 <= i < |spans| && CoreOf(spans[i]) == c }

  function First(spans: seq<Span>, c: Core): (s: Span)
    requires HasCore(spans, c)
    ensures CoreOf(s) == c && s in spans
  {
    if CoreOf(spans[0]) == c then spans[0]
    else HasCoreTail(spans, c); First(spans[1..], c)
  }

  lemma HasCoreTail(spans: seq<Span>, c: Core)
    requires |spans| > 0 && CoreOf(spans[0]) != c
    ensures HasCore(spans, c) <==> HasCore(spans[1..], c)
  {
    if HasCore(spans, c) {
      var i :| 0 <= i < |spans| && CoreOf(spans[i]) == c;
      assert spans[1..][i - 1] == spans[i];
    }
    if HasCore(spans[1..], c) {
      var i :| 0 <= i < |spans[1..]| && CoreOf(spans[1..][i]) == c;
      assert spans[i + 1] == spans[1..][i];
    }
  }

  lemma {:induction false} InsertFirst(s: Span, sorted: seq<Span>, c: Core)
    ensures HasCore(Insert(s, sorted, ByPriority), c) <==> CoreOf(s) == c || HasCore(sorted, c)
    ensures HasCore(Insert(s, sorted, ByPriority), c)
            ==> First(Insert(s, sorted, ByPriority), c) == if CoreOf(s) == c then s else First(sorted, c)
  {
    var q := Insert(s, sorted, ByPriority);
    if |sorted| == 0 || ByPriority(s, sorted[0]) {
      assert q[1..] == sorted;
      if CoreOf(s) == c { assert CoreOf(q[0]) == c; } else { HasCoreTail(q, c); }
    } else {
      InsertFirst(s, sorted[1..], c);
      assert q[1..] == Insert(s, sorted[1..], ByPriority);
      assert CoreOf(s) != CoreOf(sorted[0]) by {
        if CoreOf(s) == CoreOf(sorted[0]) { KeyLeqTotal(SortKey(s), SortKey(s)); }
      }
      if CoreOf(sorted[0]) == c { assert CoreOf(q[0]) == c; } else { HasCoreTail(q, c); HasCoreTail(sorted, c); }
    }
  }

  lemma {:induction false} SortedFirst(spans: seq<Span>, c: Core)
    ensures HasCore(Sorted(spans, ByPriority), c) <==> HasCore(spans, c)
    ensures HasCore(spans, c) ==> First(Sorted(spans, ByPriority), c) == First(spans, c)
  {
    if |spans| > 0 {
      SortedFirst(spans[1..], c);
      InsertFirst(spans[0], Sorted(spans[1..], ByPriority), c);
      if CoreOf(spans[0]) == c { assert HasCore(spans, c); } else { HasCoreTail(spans, c); }
    }
  }

  /** Every span already visited is kept or clashes with one that is. */
  predicate Settled(done: seq<Span>, kept: seq<Span>) {
    forall i :: 0 <= i < |done| ==> Clashes(done[i], kept)
  }

  lemma {:induction false} GreedyKeepsFirst(done: seq<Span>, ordered: seq<Span>, kept: seq<Span>)
    requires AllValid(ordered) && Settled(done, kept)
    requires forall s :: s in kept ==> HasCore(done, CoreOf(s)) && First(done, CoreOf(s)) == s
    ensures forall s :: s in Greedy(ordered, kept)
              ==> HasCore(done + ordered, CoreOf(s)) && First(done + ordered, CoreOf(s)) == s
    decreases |ordered|
  {
    if |ordered| == 0 {
      assert done + ordered == done;
    } else {
      var s, rest := ordered[0], ordered[1..];
      var next := if Clashes(s, kept) then kept else kept + [s];
      assert done + ordered == done + [s] + rest;
      assert Settled(done + [s], next) by {
        forall i | 0 <= i < |done + [s]| ensures Clashes((done + [s])[i], next) {
          SettledStep(done, s, kept, i);
        }
      }
      forall x | x in next ensures HasCore(done + [s], CoreOf(x)) && First(done + [s], CoreOf(x)) == x {
        if x in kept {
          FirstAppend(done, s, CoreOf(x));
        } else {
          if HasCore(done, CoreOf(s)) { KnownCoreClashes(done, s, kept); }
          FirstOfNew(done, s);
        }
      }
      GreedyKeepsFirst(done + [s], rest, next);
    }
  }

  lemma SettledStep(done: seq<Span>, s: Span, kept: seq<Span>, i: nat)
    requires IsValid(s) && Settled(done, kept) && i <= |done|
    ensures Clashes((done + [s])[i], if Clashes(s, kept) then kept else kept + [s])
  {
    var t := (done + [s])[i];
    var next := if Clashes(s, kept) then kept else kept + [s];
    if Clashes(t, kept) {
      var k :| 0 <= k < |kept| && Overlaps(t, kept[k]);
      assert next[k] == kept[k];
    } else {
      assert next[|kept|] == s && Overlaps(s, s);
    }
  }

  lemma KnownCoreClashes(done: seq<Span>, s: Span, kept: seq<Span>)
    requires Settled(done, kept) && HasCore(done, CoreOf(s))
    ensures Clashes(s, kept)
  {
    var i :| 0 <= i < |done| && CoreOf(done[i]) == CoreOf(s);
    SameCoreClashes(done[i], s, kept);
  }

  lemma SameCoreClashes(t: Span, s: Span, kept: seq<Span>)
    requires CoreOf(t) == CoreOf(s) && Clashes(t, kept)
    ensures Clashes(s, kept)
  {
    var k :| 0 <= k < |kept| && Overlaps(t, kept[k]);
    assert Overlaps(s, kept[k]);
  }

  lemma {:induction false} FirstAppend(done: seq<Span>, s: Span, c: Core)
    requires HasCore(done, c)
    ensures HasCore(done + [s], c) && First(done + [s], c) == First(done, c)
  {
    var all := done + [s];
    assert HasCore(all, c) by {
      var i :| 0 <= i < |done| && CoreOf(done[i]) == c;
      assert all[i] == done[i];
    }
    if CoreOf(done[0]) != c {
      HasCoreTail(done, c);
      HasCoreTail(all, c);
      FirstAppend(done[1..], s, c);
      assert all[1..] == done[1..] + [s];
    }
  }

  lemma {:induction false} FirstOfNew(done: seq<Span>, s: Span)
    requires !HasCore(done, CoreOf(s))
    ensures HasCore(done + [s], CoreOf(s)) && First(done + [s], CoreOf(s)) == s
  {
    var all := done + [s];
    assert CoreOf(all[|done|]) == CoreOf(s);
    if |done| > 0 {
      assert CoreOf(done[0]) != CoreOf(s);
      HasCoreTail(done, CoreOf(s));
      HasCoreTail(all, CoreOf(s));
      FirstOfNew(done[1..], s);
      assert all[1..] == done[1..] + [s];
    }
  }

  /** Of several detections equal up to confidence, the first one in the input is the one kept. */
  lemma SurvivorIsFirst(spans: seq<Span>, s: Span)
    requires AllValid(spans) && s in Resolution(spans).value
    ensures IsFirst(spans, s)
  {
    var ordered := Sorted(spans, ByPriority);
    SortedElements(spans, ByPriority);
    GreedyKeepsFirst([], ordered, []);
    assert [] + ordered == ordered;
    SortedElements(Greedy(ordered, []), ByPosition);
    SortedFirst(spans, CoreOf(s));
  }

  // ----- permutation, irrelevance, idempotence -----

  function Cores(spans: seq<Span>): (r: seq<Core>)
    ensures |r| == |spans| && forall i :: 0 <= i < |r| ==> r[i] == CoreOf(spans[i])
  {
    seq(|spans|, i requires 0 <= i < |spans| => CoreOf(spans[i]))
  }

  lemma {:induction false} SeparatedUnique(r: seq<Span>, q: seq<Span>)
    requires AllValid(r) && AllValid(q) && Separated(r) && Separated(q) && CoreSet(r) == CoreSet(q)
    ensures Cores(r) == Cores(q)
  {
    if |r| > 0 { SomeCore(r); }
    if |q| > 0 { SomeCore(q); }
    if |r| > 0 && |q| > 0 {
      HeadNotAfter(r, q);
      HeadNotAfter(q, r);
      HeadCore(r, q);
      TailCores(r);
      TailCores(q);
      SeparatedUnique(r[1..], q[1..]);
      CoresCons(r);
      CoresCons(q);
    }
  }

  lemma CoresCons(r: seq<Span>)
    requires |r| > 0
    ensures Cores(r) == [CoreOf(r[0])] + Cores(r[1..])
  {
  }

  lemma HeadNotAfter(r: seq<Span>, q: seq<Span>)
    requires |r| > 0 && |q| > 0 && AllValid(r) && Separated(r) && CoreSet(q) <= CoreSet(r)
    ensures r[0].start <= q[0].start
  {
    assert CoreOf(q[0]) in CoreSet(r);
    var i :| 0 <= i < |r| && CoreOf(r[i]) == CoreOf(q[0]);
  }

  lemma HeadCore(r: seq<Span>, q: seq<Span>)
    requires |r| > 0 && |q| > 0 && AllValid(q) && Separated(q) && CoreSet(r) <= CoreSet(q)
    requires r[0].start == q[0].start
    ensures CoreOf(r[0]) == CoreOf(q[0])
  {
    assert CoreOf(r[0]) in CoreSet(q);
    var j :| 0 <= j < |q| && CoreOf(q[j]) == CoreOf(r[0]);
    assert j == 0;
  }

  lemma SomeCore(q: seq<Span>)
    requires |q| > 0
    ensures CoreSet(q) != {}
  {
    assert CoreOf(q[0]) in CoreSet(q);
  }

  lemma TailCores(r: seq<Span>)
    requires |r| > 0 && AllValid(r) && Separated(r)
    ensures CoreSet(r[1..]) == CoreSet(r) - {CoreOf(r[0])}
  {
    assert r == [r[0]] + r[1..];
    forall s | s in r[1..] ensures CoreOf(s) != CoreOf(r[0]) {
      var i :| 0 <= i < |r[1..]| && r[1..][i] == s;
      assert r[i + 1] == s;
    }
  }

  /** Permuting the candidates, or repeating them, changes at most the confidence of survivors. */
  lemma OrderIrrelevant(a: seq<Span>, b: seq<Span>)
    requires CoreSet(a) == CoreSet(b)
    ensures Resolution(a).Ok? <==> Resolution(b).Ok?
    ensures Resolution(a).Ok? ==> Cores(Resolution(a).value) == Cores(Resolution(b).value)
  {
    if AllValid(a) { ValidByCores(b, a); }
    if AllValid(b) { ValidByCores(a, b); }
    if AllValid(a) {
      ResolutionResolves(a);
      ResolutionResolves(b);
      var r, q := Resolution(a).value, Resolution(b).value;
      ResolvedUnique(CoreSet(r), CoreSet(q), CoreSet(a));
      SeparatedUnique(r, q);
    }
  }

  lemma ValidByCores(a: seq<Span>, b: seq<Span>)
    requires CoreSet(a) <= CoreSet(b) && AllValid(b)
    ensures AllValid(a)
  {
    forall i | 0 <= i < |a| ensures IsValid(a[i]) {
      assert CoreOf(a[i]) in CoreSet(b);
      var j :| 0 <= j < |b| && CoreOf(b[j]) == CoreOf(a[i]);
    }
  }

  /** Two lists of candidates with the same resolved cores and the same first detections give the
      same list, confidences included. */
  lemma SameSurvivors(a: seq<Span>, b: seq<Span>)
    requires AllValid(a) && AllValid(b)
    requires CoreSet(Resolution(a).value) == CoreSet(Resolution(b).value)
    requires forall s :: s in Resolution(a).value ==> IsFirst(b, s)
    ensures Resolution(a) == Resolution(b)
  {
    ResolutionResolves(a);
    ResolutionResolves(b);
    var r, q := Resolution(a).value, Resolution(b).value;
    SeparatedUnique(r, q);
    forall i | 0 <= i < |r| ensures r[i] == q[i] {
      assert Cores(r)[i] == Cores(q)[i];
      SameSurvivor(b, r[i], q[i]);
    }
    assert r == q;
  }

  predicate IsFirst(spans: seq<Span>, s: Span) { HasCore(spans, CoreOf(s)) && First(spans, CoreOf(s)) == s }

  lemma SameSurvivor(b: seq<Span>, s: Span, t: Span)
    requires AllValid(b) && t in Resolution(b).value && CoreOf(s) == CoreOf(t) && IsFirst(b, s)
    ensures s == t
  {
    SurvivorIsFirst(b, t);
  }

  /** Resolving a resolved list returns it unchanged. */
  lemma Idempotent(spans: seq<Span>)
    requires AllValid(spans)
    ensures Resolution(Resolution(spans).value) == Resolution(spans)
  {
    ResolutionResolves(spans);
    var r := Resolution(spans).value;
    ResolutionResolves(r);
    ResolvedUnique(CoreSet(r), CoreSet(Resolution(r).value), CoreSet(r));
    forall s | s in r ensures IsFirst(r, s) {
      var i :| 0 <= i < |r| && r[i] == s;
      var t := First(r, CoreOf(s));
      var j :| 0 <= j < |r| && r[j] == t;
      assert i == j;
    }
    SameSurvivors(spans, r);
  }

  /** Removing a candidate that was not kept leaves the result as it is. */
  lemma DroppedIsIrrelevant(spans: seq<Span>, d: nat)
    requires AllValid(spans) && d < |spans| && spans[d] !in Resolution(spans).value
    ensures Resolution(spans[..d] + spans[d + 1..]) == Resolution(spans)
  {
    var less := spans[..d] + spans[d + 1..];
    Without(spans, d);
    ResolutionResolves(spans);
    ResolutionResolves(less);
    var r := Resolution(spans).value;
    forall s | s in r ensures IsFirst(less, s) && CoreOf(s) in CoreSet(less) {
      SurvivorIsFirst(spans, s);
      FirstWithout(spans, d, s);
    }
    assert CoreSet(r) <= CoreSet(less);
    ResolvedAmongFewer(CoreSet(r), CoreSet(spans), CoreSet(less));
    ResolvedUnique(CoreSet(r), CoreSet(Resolution(less).value), CoreSet(less));
    SameSurvivors(spans, less);
  }

  lemma Without(spans: seq<Span>, d: nat)
    requires AllValid(spans) && d < |spans|
    ensures var less := spans[..d] + spans[d + 1..]; AllValid(less) && CoreSet(less) <= CoreSet(spans)
  {
    var less := spans[..d] + spans[d + 1..];
    forall s | s in less ensures s in spans {
      assert s in spans[..d] || s in spans[d + 1..];
    }
  }

  lemma ResolvedAmongFewer(kept: set<Core>, all: set<Core>, fewer: set<Core>)
    requires IsResolved(kept, all) && kept <= fewer <= all
    ensures IsResolved(kept, fewer)
  {
  }

  lemma {:induction false} FirstWithout(spans: seq<Span>, d: nat, s: Span)
    requires d < |spans| && spans[d] != s && IsFirst(spans, s)
    ensures IsFirst(spans[..d] + spans[d + 1..], s)
  {
    var less, c := spans[..d] + spans[d + 1..], CoreOf(s);
    if CoreOf(spans[0]) == c {
      assert less[0] == spans[0];
    } else {
      HasCoreTail(spans, c);
      if d == 0 {
        assert less == spans[1..];
      } else {
        FirstWithout(spans[1..], d - 1, s);
        assert less[1..] == spans[1..][..d - 1] + spans[1..][d..];
        assert less[0] == spans[0];
        HasCoreTail(less, c);
      }
    }
  }

  // ----- who beats whom, without the key -----

  function Length(s: Span): int { s.end - s.start }

  /** The longer span wins; then the category earlier in the precedence list, then the leftmost start,
      then category name, then value. */
  predicate Beats(k: Span, d: Span) {
    Length(k) > Length(d) || (Length(k) == Length(d) && (
    PrecedenceRank(k.category) < PrecedenceRank(d.category) || (PrecedenceRank(k.category) == PrecedenceRank(d.category) && (
    k.start < d.start || (k.start == d.start && (
    StringLess(k.category, d.category) || (k.category == d.category && StringLeq(k.value, d.value))))))))
  }

  /** The rank is the place in the list; a category that is not listed ranks behind all that are. */
  lemma RankIsPlace(category: string, i: nat)
    requires i < 8
    ensures var list := ["medical_data", "cnpj", "cpf", "employee_name", "email", "phone", "salary", "department"];
            && (PrecedenceRank(category) == i <==> category == list[i])
            && (category !in list <==> PrecedenceRank(category) == 8)
  {
    PrecedenceDistinct();
    IndexIsPlace(category, CATEGORY_PRECEDENCE, i);
  }

  lemma PrecedenceDistinct()
    ensures forall i, j :: 0 <= i < j < |CATEGORY_PRECEDENCE| ==> CATEGORY_PRECEDENCE[i] != CATEGORY_PRECEDENCE[j]
  {
    var lengths := [12, 4, 3, 13, 5, 5, 6, 10];
    assert forall i :: 0 <= i < 8 ==> |CATEGORY_PRECEDENCE[i]| == lengths[i];
    assert CATEGORY_PRECEDENCE[4][0] == 'e' && CATEGORY_PRECEDENCE[5][0] == 'p';
  }

  /** The first span whose offsets are no range. */
  predicate IsFirstBad(spans: seq<Span>, i: nat) {
    && i < |spans| && (spans[i].start < 0 || spans[i].end <= spans[i].start)
    && forall j :: 0 <= j < i ==> 0 <= spans[j].start < spans[j].end
  }

  /** Resolution fails exactly when the offsets of some span are no range, and names the first such. */
  lemma {:induction false} FailsExactly(spans: seq<Span>)
    ensures match Resolution(spans)
            case Ok(_) => forall i :: 0 <= i < |spans| ==> 0 <= spans[i].start < spans[i].end
            case Err(e) =>
              exists i: nat :: IsFirstBad(spans, i) && e == InvalidOffsets(spans[i].category, spans[i].start, spans[i].end)
  {
    if |spans| > 0 {
      var rest := spans[1..];
      FailsExactly(rest);
      if !IsValid(spans[0]) {
        assert IsFirstBad(spans, 0);
      } else if Resolution(rest).Err? {
        var e := Resolution(rest).error;
        var i: nat :| IsFirstBad(rest, i) && e == InvalidOffsets(rest[i].category, rest[i].start, rest[i].end);
        BadBehind(spans, i);
        assert rest[i] == spans[i + 1];
      } else {
        assert spans == [spans[0]] + rest;
      }
    }
  }

  lemma BadBehind(spans: seq<Span>, i: nat)
    requires |spans| > 0 && 0 <= spans[0].start < spans[0].end && IsFirstBad(spans[1..], i)
    ensures IsFirstBad(spans, i + 1)
  {
    forall j | 0 <= j < i + 1 ensures 0 <= spans[j].start < spans[j].end { if j > 0 { assert spans[1..][j - 1] == spans[j]; } }
  }

  lemma {:induction false} IndexIsPlace(category: string, list: seq<string>, i: nat)
    requires i < |list| && forall k, l :: 0 <= k < l < |list| ==> list[k] != list[l]
    ensures IndexIn(category, list) == i <==> category == list[i]
    ensures IndexIn(category, list) <= |list|
    ensures category !in list <==> IndexIn(category, list) == |list|
  {
    if |list| > 1 {
      IndexIsPlace(category, list[1..], if i > 0 then i - 1 else 0);
      assert list == [list[0]] + list[1..];
    }
  }

  /** A candidate that was not kept overlaps a kept span that beats it. */
  lemma DroppedIsBeaten(spans: seq<Span>, d: Span)
    requires AllValid(spans) && d in spans && d !in Resolution(spans).value
    ensures exists k :: k in Resolution(spans).value && d.start < k.end && k.start < d.end && Beats(k, d)
  {
    ResolutionResolves(spans);
    var r := Resolution(spans).value;
    assert CoreOf(d) in CoreSet(spans);
    if CoreOf(d) in CoreSet(r) {
      var k :| k in r && CoreOf(k) == CoreOf(d);
      StringLeqReflexive(d.value);
      assert k in spans && IsValid(k) && Overlaps(d, k) && Beats(k, d);
    } else {
      assert IsDominated(CoreOf(d), CoreSet(r));
      var c :| c in CoreSet(r) && CoresOverlap(CoreOf(d), c) && KeyLeq(CoreKey(c), CoreKey(CoreOf(d)));
      var k :| k in r && CoreOf(k) == c;
      assert Overlaps(d, k) && Beats(k, d);
    }
  }
}
