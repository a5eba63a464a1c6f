/** Sequence helpers shared by the controllers: the JavaScript array operations
    they use (`filter`, `slice`, `new Set`) and the pagination arithmetic. */
module Seqs {
  import opened Wrappers

  function Min(a: int, b: int): int { if a <= b then a else b }

  function Max(a: int, b: int): int { if a <= b then b else a }

  /** No element occurs twice. */
  ghost predicate NoDup<T(!new)>(s: seq<T>) {
    forall x :: multiset(s)[x] <= 1
  }

  /** Without duplicates, different positions hold different elements. */
  lemma {:induction false} NoDupDistinct<T(!new)>(s: seq<T>, i: nat, j: nat)
    requires NoDup(s) && i < j < |s|
    ensures s[i] != s[j]
  {
    var x := s[j];
    assert s == s[..j] + [x] + s[j + 1..];
    assert multiset(s)[x] == multiset(s[..j])[x] + 1 + multiset(s[j + 1..])[x];
    assert s[..j][i] == s[i];
  }

  /** `s.filter(p)`: the elements satisfying `p`, in their original order. */
  function Filter<T(!new)>(s: seq<T>, p: T -> bool): (r: seq<T>)
    ensures |r| <= |s|
    ensures forall x :: x in r <==> x in s && p(x)
  {
    if s == [] then []
    else
      assert s == [s[0]] + s[1..];
      (if p(s[0]) then [s[0]] else []) + Filter(s[1..], p)
  }

  /** How often `Filter` keeps an element: every occurrence if it passes, none otherwise. */
  lemma {:induction false} FilterMultiset<T(!new)>(s: seq<T>, p: T -> bool)
    ensures forall x :: multiset(Filter(s, p))[x] == if p(x) then multiset(s)[x] else 0
  {
    if s != [] {
      FilterMultiset(s[1..], p);
      assert s == [s[0]] + s[1..];
    }
  }

  /** `Filter` keeps every occurrence of what passes, in order. */
  lemma FilterKeeps<T(!new)>(s: seq<T>, p: T -> bool)
    ensures forall x :: p(x) ==> multiset(Filter(s, p))[x] == multiset(s)[x]
    ensures IsSubsequence(Filter(s, p), s)
  {
    FilterMultiset(s, p);
    FilterIsSubsequence(s, p);
  }

  /** `a` is obtained from `b` by deleting elements (order is kept). */
  predicate IsSubsequence<T(==,!new)>(a: seq<T>, b: seq<T>)
    decreases |b|
  {
    if a == [] then true
    else if b == [] then false
    else if a[0] == b[0] then IsSubsequence(a[1..], b[1..])
    else IsSubsequence(a, b[1..])
  }

  lemma {:induction false} FilterIsSubsequence<T(!new)>(s: seq<T>, p: T -> bool)
    ensures IsSubsequence(Filter(s, p), s)
  {
    if s != [] {
      FilterIsSubsequence(s[1..], p);
      if p(s[0]) {
        assert Filter(s, p) == [s[0]] + Filter(s[1..], p);
        assert Filter(s, p)[1..] == Filter(s[1..], p);
      } else {
        assert Filter(s, p) == Filter(s[1..], p);
        SubsequenceSkip(Filter(s[1..], p), s);
      }
    }
  }

  lemma {:induction false} SubsequenceSkip<T(!new)>(a: seq<T>, b: seq<T>)
    requires b != [] && IsSubsequence(a, b[1..])
    ensures IsSubsequence(a, b)
    decreases |b|, 0
  {
    if a != [] && a[0] == b[0] {
      SubsequenceTail(a, b[1..]);
    }
  }

  lemma {:induction false} SubsequenceTail<T(!new)>(a: seq<T>, b: seq<T>)
    requires a != [] && IsSubsequence(a, b)
    ensures IsSubsequence(a[1..], b)
    decreases |b|, 1
  {
    if a[0] == b[0] {
      SubsequenceSkip(a[1..], b);
    } else {
      SubsequenceTail(a, b[1..]);
      SubsequenceSkip(a[1..], b);
    }
  }

  /** Filtering an element put in front. */
  lemma FilterCons<T(!new)>(x: T, s: seq<T>, p: T -> bool)
    ensures Filter([x] + s, p) == (if p(x) then [x] else []) + Filter(s, p)
  {
    assert ([x] + s)[0] == x && ([x] + s)[1..] == s;
  }

  /** Filtering distributes over concatenation. */
  lemma {:induction false} FilterAppend<T(!new)>(a: seq<T>, b: seq<T>, p: T -> bool)
    ensures Filter(a + b, p) == Filter(a, p) + Filter(b, p)
  {
    if a == [] {
      assert a + b == b;
    } else {
      var t := a[1..];
      var head := if p(a[0]) then [a[0]] else [];
      assert a == [a[0]] + t;
      assert a + b == [a[0]] + (t + b);
      calc {
        Filter(a + b, p);
        { FilterCons(a[0], t + b, p); }
        head + Filter(t + b, p);
        { FilterAppend(t, b, p); }
        head + (Filter(t, p) + Filter(b, p));
        (head + Filter(t, p)) + Filter(b, p);
        { FilterCons(a[0], t, p); }
        Filter(a, p) + Filter(b, p);
      }
    }
  }

  /** Filtering twice by the same test is filtering once. */
  lemma {:induction false} FilterIdempotent<T(!new)>(s: seq<T>, p: T -> bool)
    ensures Filter(Filter(s, p), p) == Filter(s, p)
  {
    if s != [] {
      var head := if p(s[0]) then [s[0]] else [];
      calc {
        Filter(Filter(s, p), p);
        Filter(head + Filter(s[1..], p), p);
        { FilterAppend(head, Filter(s[1..], p), p); }
        Filter(head, p) + Filter(Filter(s[1..], p), p);
        { FilterIdempotent(s[1..], p); }
        Filter(head, p) + Filter(s[1..], p);
        head + Filter(s[1..], p);
      }
    }
  }

  /** Filtering again after pushing elements the test refuses gives back the
      first filter's result. */
  lemma {:induction false} FilterAfterPush<T(!new)>(s: seq<T>, p: T -> bool, extra: seq<T>)
    requires forall x :: x in extra ==> !p(x)
    ensures Filter(Filter(s, p) + extra, p) == Filter(s, p)
    ensures forall x :: !p(x) ==> multiset(Filter(s, p) + extra)[x] == multiset(extra)[x]
  {
    FilterAppend(Filter(s, p), extra, p);
    FilterIdempotent(s, p);
    FilterNone(extra, p);
    FilterMultiset(s, p);
  }

  /** A test nothing passes filters everything out. */
  lemma {:induction false} FilterNone<T(!new)>(s: seq<T>, p: T -> bool)
    requires forall x :: x in s ==> !p(x)
    ensures Filter(s, p) == []
  {
    if s != [] {
      FilterNone(s[1..], p);
    }
  }

  /** Every pair of elements, in their order in `s`, is related by `R`. */
  ghost predicate Pairwise<T(!new)>(s: seq<T>, R: (T, T) -> bool) {
    forall i, j :: 0 <= i < j < |s| ==> R(s[i], s[j])
  }

  /** Filtering keeps a pairwise relation. */
  lemma {:induction false} FilterPairwise<T(!new)>(s: seq<T>, p: T -> bool, R: (T, T) -> bool)
    requires Pairwise(s, R)
    ensures Pairwise(Filter(s, p), R)
  {
    if s != [] {
      assert Pairwise(s[1..], R);
      FilterPairwise(s[1..], p, R);
      var rest := Filter(s[1..], p);
      if p(s[0]) {
        forall j | 0 <= j < |rest| ensures R(s[0], rest[j]) {
          assert rest[j] in s[1..];
          var k :| 0 <= k < |s[1..]| && s[1..][k] == rest[j];
          assert s[k + 1] == rest[j];
        }
        assert Filter(s, p) == [s[0]] + rest;
      }
    }
  }

  /** A filter that drops some element is strictly shorter. */
  lemma {:induction false} FilterDropsOne<T(!new)>(s: seq<T>, p: T -> bool, i: nat)
    requires i < |s| && !p(s[i])
    ensures |Filter(s, p)| < |s|
  {
    if i > 0 {
      FilterDropsOne(s[1..], p, i - 1);
    }
  }

  /** A sequence without duplicates that lies inside `b` is no longer than `b`. */
  lemma {:induction false} NoDupWithinIsShorter<T(!new)>(a: seq<T>, b: seq<T>)
    requires NoDup(a)
    requires forall x :: x in a ==> x in b
    ensures |a| <= |b|
    decreases |a|
  {
    if a != [] {
      var x := a[|a| - 1];
      var front := a[..|a| - 1];
      assert a == front + [x];
      assert NoDup(front) by {
        forall y ensures multiset(front)[y] <= 1 {
          assert multiset(a)[y] == multiset(front)[y] + multiset([x])[y];
        }
      }
      var rest := Filter(b, y => y != x);
      forall y | y in front ensures y in rest {
        assert multiset(a)[x] == multiset(front)[x] + 1;
        assert y != x;
      }
      NoDupWithinIsShorter(front, rest);
      assert x in b;
      var i :| 0 <= i < |b| && b[i] == x;
      FilterDropsOne(b, y => y != x, i);
    }
  }

  /** `s.map(f)`, built from the end. */
  function Map<T, U>(s: seq<T>, f: T -> U): seq<U> {
    if s == [] then [] else Map(s[..|s| - 1], f) + [f(s[|s| - 1])]
  }

  /** `Map` keeps the length and applies `f` at each position. */
  lemma {:induction false} MapAt<T, U>(s: seq<T>, f: T -> U, i: nat)
    requires i < |s|
    ensures |Map(s, f)| == |s| && Map(s, f)[i] == f(s[i])
  {
    var front := s[..|s| - 1];
    if i < |front| {
      MapAt(front, f, i);
    } else if front != [] {
      MapAt(front, f, 0);
    }
  }

  /** `s.map(f).filter(Boolean)` where `f` gives null for what it rejects:
      the values `f` produces, in order. */
  function Collect<T, U>(s: seq<T>, f: T -> Option<U>): seq<U> {
    if s == [] then []
    else
      var rest := Collect(s[..|s| - 1], f);
      match f(s[|s| - 1])
      case None => rest
      case Some(v) => rest + [v]
  }

  /** `Collect` is never longer than its input; when `f` accepts every
      element, it is the input mapped through `f`, position by position. */
  lemma {:induction false} CollectAllSome<T, U>(s: seq<T>, f: T -> Option<U>)
    ensures |Collect(s, f)| <= |s|
    ensures (forall i :: 0 <= i < |s| ==> f(s[i]).Some?) ==>
      |Collect(s, f)| == |s| && forall i :: 0 <= i < |s| ==> Some(Collect(s, f)[i]) == f(s[i])
  {
    if s != [] {
      var front := s[..|s| - 1];
      CollectAllSome(front, f);
      if forall i :: 0 <= i < |s| ==> f(s[i]).Some? {
        assert forall i :: 0 <= i < |front| ==> front[i] == s[i];
      }
    }
  }

  /** `Collect` holds exactly the values `f` produces on some element. */
  lemma {:induction false} CollectMembers<T, U>(s: seq<T>, f: T -> Option<U>, v: U)
    ensures v in Collect(s, f) <==> exists j :: 0 <= j < |s| && f(s[j]) == Some(v)
  {
    if s != [] {
      var front := s[..|s| - 1];
      CollectMembers(front, f, v);
      if v in Collect(s, f) && v !in Collect(front, f) {
        assert f(s[|s| - 1]) == Some(v);
      }
      if v !in Collect(s, f) {
        forall j | 0 <= j < |s| ensures f(s[j]) != Some(v) {
          if j < |front| {
            assert front[j] == s[j];
          }
        }
      } else if v in Collect(front, f) {
        var j :| 0 <= j < |front| && f(front[j]) == Some(v);
        assert front[j] == s[j];
      }
    }
  }

  /** `s.slice(skip, skip + limit)` for a non-negative `skip`, which is also
      MongoDB's `.skip(skip).limit(limit)` for a positive `limit`. */
  function Slice<T(!new)>(s: seq<T>, skip: nat, limit: nat): (r: seq<T>)
    ensures |r| == Min(limit, Max(0, |s| - skip))
    ensures forall i :: 0 <= i < |r| ==> r[i] == s[skip + i]
  {
    s[Min(skip, |s|)..Min(skip + limit, |s|)]
  }

  /** `Math.ceil(n / d)`. */
  function CeilDiv(n: nat, d: nat): (r: nat)
    requires d > 0
    ensures r * d >= n
    ensures r > 0 ==> (r - 1) * d < n
  {
    (n + d - 1) / d
  }

  /** `parseInt(req.query.page) || 1`, for a page that parses to a natural number:
      an unparseable page (`NaN`) or 0 becomes 1. */
  function PageNumber(param: Option<nat>): (page: nat)
    ensures page >= 1
    ensures param.Some? && param.value != 0 ==> page == param.value
    ensures param.None? || param.value == 0 ==> page == 1
  {
    if param.None? || param.value == 0 then 1 else param.value
  }

  /** The entries of page `page` (1-based) when a page holds `size` entries. */
  function PageOf<T(!new)>(s: seq<T>, page: nat, size: nat): seq<T>
    requires page >= 1
  {
    Slice(s, (page - 1) * size, size)
  }

  /** A page is non-empty exactly when its number is between 1 and the page count. */
  lemma {:induction false} PageNonEmptyIffInRange<T(!new)>(s: seq<T>, page: nat, size: nat)
    requires page >= 1 && size > 0
    ensures |PageOf(s, page, size)| > 0 <==> page <= CeilDiv(|s|, size)
  {
    var pages := CeilDiv(|s|, size);
    if page <= pages {
      assert (page - 1) * size <= (pages - 1) * size by {
        MulMono(page - 1, pages - 1, size);
      }
    } else {
      assert pages * size <= (page - 1) * size by {
        MulMono(pages, page - 1, size);
      }
    }
  }

  lemma MulMono(a: nat, b: nat, c: nat)
    requires a <= b
    ensures a * c <= b * c
  {
  }

  /** `[...new Set(s)]`: each element once, at the place of its first occurrence. */
  function Dedup<T(==,!new)>(s: seq<T>): (r: seq<T>)
    ensures NoDup(r)
    ensures forall x :: x in r <==> x in s
  {
    if s == [] then []
    else
      var d := Dedup(s[..|s| - 1]);
      var last := s[|s| - 1];
      assert s == s[..|s| - 1] + [last];
      if last in d then d else d + [last]
  }

  /** Index of the first occurrence of `x` in `s`. */
  function FirstIndex<T(==,!new)>(s: seq<T>, x: T): (i: nat)
    requires x in s
    ensures i < |s| && s[i] == x && x !in s[..i]
  {
    if s[0] == x then 0 else FirstIndex(s[1..], x) + 1
  }

  lemma {:induction false} FirstIndexAppend<T(!new)>(s: seq<T>, y: T, x: T)
    requires x in s
    ensures FirstIndex(s + [y], x) == FirstIndex(s, x)
  {
    if s[0] != x {
      assert (s + [y])[1..] == s[1..] + [y];
      FirstIndexAppend(s[1..], y, x);
    }
  }

  /** `Dedup` keeps the first occurrences, in the order in which they occur. */
  lemma {:induction false} DedupKeepsFirstOccurrenceOrder<T(!new)>(s: seq<T>)
    ensures forall i, j :: 0 <= i < j < |Dedup(s)| ==>
      FirstIndex(s, Dedup(s)[i]) < FirstIndex(s, Dedup(s)[j])
  {
    if s != [] {
      var front := s[..|s| - 1];
      var last := s[|s| - 1];
      assert s == front + [last];
      var d := Dedup(front);
      DedupKeepsFirstOccurrenceOrder(front);
      forall x | x in d ensures FirstIndex(s, x) == FirstIndex(front, x) {
        FirstIndexAppend(front, last, x);
      }
      if last !in d {
        assert last !in front;
        assert FirstIndex(s, last) == |s| - 1;
      }
    }
  }

  /** The deduplication of `a` is a prefix of the deduplication of `a + b`. */
  lemma {:induction false} DedupPrefix<T(!new)>(a: seq<T>, b: seq<T>)
    ensures |Dedup(a)| <= |Dedup(a + b)|
    ensures Dedup(a + b)[..|Dedup(a)|] == Dedup(a)
    decreases |b|
  {
    if b == [] {
      assert a + b == a;
    } else {
      var b' := b[..|b| - 1];
      assert (a + b)[..|a + b| - 1] == a + b';
      DedupPrefix(a, b');
    }
  }
}
