/** Shared vocabulary: options, results, sequence facts and the string order used by sort calls. */
module Prelude {

  datatype Option<+T> = None | Some(value: T)

  datatype Result<+T, +E> = Ok(value: T) | Err(error: E)

  /** What one write to a disk or keyring does: it happens, it reports an error, or the process dies first. */
  datatype Outcome = Done | Failed | Crashed

  predicate Distinct<T(==)>(s: seq<T>) {
    forall i, j :: 0 <= i < j < |s| ==> s[i] != s[j]
  }

  function Elems<T>(s: seq<T>): set<T> {
    set x | x in s
  }

  lemma {:induction false} DistinctCard<T>(s: seq<T>)
    ensures |Elems(s)| <= |s|
    ensures Distinct(s) <==> |Elems(s)| == |s|
  {
    if s == [] {
      assert Elems(s) == {};
    } else {
      var front, last := s[..|s| - 1], s[|s| - 1];
      DistinctCard(front);
      assert s == front + [last];
      assert Elems(s) == Elems(front) + {last};
      if last in front {
        var i :| 0 <= i < |front| && front[i] == last;
        assert s[i] == s[|s| - 1];
        assert Elems(s) == Elems(front);
      }
    }
  }

  lemma {:induction false} DistinctMultiset<T>(s: seq<T>)
    requires Distinct(s)
    ensures multiset(s) == multiset(Elems(s))
  {
    if s == [] {
      assert Elems(s) == {};
    } else {
      var front, last := s[..|s| - 1], s[|s| - 1];
      DistinctMultiset(front);
      assert s == front + [last];
      assert last !in front;
      assert Elems(s) == Elems(front) + {last};
    }
  }

  lemma {:induction false} PermutationOfDistinct<T>(a: seq<T>, b: seq<T>)
    requires Distinct(a) && multiset(a) == multiset(b)
    ensures Distinct(b)
  {
    DistinctCard(a);
    DistinctCard(b);
    assert Elems(a) == Elems(b) by {
      forall x ensures x in a <==> x in b { assert x in multiset(a) <==> x in multiset(b); }
    }
    assert |multiset(a)| == |multiset(b)|;
  }

  lemma {:induction false} SubsetCard<T>(a: set<T>, b: set<T>)
    requires a <= b
    ensures |a| <= |b|
    ensures |a| == |b| ==> a == b
  {
    assert b == a + (b - a);
    if |a| == |b| {
      assert |b - a| == 0;
    }
  }

  /** A sequence longer than the set its elements come from repeats an element. */
  lemma {:induction false} Pigeonhole<T>(s: seq<T>, universe: set<T>)
    requires forall i :: 0 <= i < |s| ==> s[i] in universe
    requires |s| > |universe|
    ensures exists i, j :: 0 <= i < j < |s| && s[i] == s[j]
  {
    DistinctCard(s);
    SubsetCard(Elems(s), universe);
    assert !Distinct(s);
  }

  function Flatten<T>(parts: seq<seq<T>>): seq<T> {
    if parts == [] then [] else parts[0] + Flatten(parts[1..])
  }

  lemma {:induction false} FlattenAppend<T>(a: seq<seq<T>>, b: seq<seq<T>>)
    ensures Flatten(a + b) == Flatten(a) + Flatten(b)
  {
    if a == [] {
      assert a + b == b;
    } else {
      var head, tail := a[0], Flatten(a[1..]);
      FlattenAppend(a[1..], b);
      assert (a + b)[0] == head && (a + b)[1..] == a[1..] + b;
      assert head + (tail + Flatten(b)) == head + tail + Flatten(b);
    }
  }

  lemma {:induction false} FlattenSnoc<T>(a: seq<seq<T>>, x: seq<T>)
    ensures Flatten(a + [x]) == Flatten(a) + x
  {
    FlattenAppend(a, [x]);
    assert Flatten([x]) == x + Flatten([]);
  }

  lemma {:induction false} ConsAppend<T>(a: seq<T>, b: seq<T>, more: seq<T>)
    requires a != [] && b != [] && a[0] == b[0] && b[1..] == a[1..] + more
    ensures b == a + more
  {
    assert |b| == |a + more|;
    forall i | 0 <= i < |b| ensures b[i] == (a + more)[i] {
      if i > 0 { assert b[i] == b[1..][i - 1]; }
    }
  }

  lemma {:induction false} FlattenTake<T>(a: seq<seq<T>>, i: nat)
    requires i < |a|
    ensures Flatten(a[..i + 1]) == Flatten(a[..i]) + a[i]
  {
    assert a[..i + 1] == a[..i] + [a[i]];
    FlattenSnoc(a[..i], a[i]);
  }

  /** Piece i of a flattened list lies right after the pieces before it. */
  lemma {:induction false} FlattenAt<T>(a: seq<seq<T>>, i: nat)
    requires i < |a|
    ensures |Flatten(a[..i])| + |a[i]| <= |Flatten(a)|
    ensures Flatten(a)[|Flatten(a[..i])|..|Flatten(a[..i])| + |a[i]|] == a[i]
  {
    assert a == a[..i + 1] + a[i + 1..];
    FlattenAppend(a[..i + 1], a[i + 1..]);
    FlattenTake(a, i);
  }

  lemma {:induction false} FlattenCons<T>(a: seq<seq<T>>, rest: seq<T>)
    requires a != []
    ensures Flatten(a) + rest == a[0] + (Flatten(a[1..]) + rest)
  {}

  function Filter<T(!new)>(s: seq<T>, p: T -> bool): (r: seq<T>)
    ensures |r| <= |s|
    ensures forall x :: x in r <==> x in s && p(x)
  {
    if s == [] then []
    else
      var last := s[|s| - 1];
      assert s == s[..|s| - 1] + [last];
      Filter(s[..|s| - 1], p) + if p(last) then [last] else []
  }

  lemma {:induction false} FilterTake<T(!new)>(s: seq<T>, p: T -> bool, i: nat)
    requires i < |s|
    ensures Filter(s[..i + 1], p) == Filter(s[..i], p) + if p(s[i]) then [s[i]] else []
  {
    assert s[..i + 1][..i] == s[..i];
  }

  lemma {:induction false} FilterCount<T(!new)>(s: seq<T>, p: T -> bool, x: T)
    ensures multiset(Filter(s, p))[x] == if p(x) then multiset(s)[x] else 0
  {
    if s != [] {
      FilterCount(s[..|s| - 1], p, x);
      assert s == s[..|s| - 1] + [s[|s| - 1]];
    }
  }

  lemma {:induction false} FilterDistinct<T(!new)>(s: seq<T>, p: T -> bool)
    requires Distinct(s)
    ensures Distinct(Filter(s, p))
  {
    if s != [] {
      var front, last := s[..|s| - 1], s[|s| - 1];
      FilterDistinct(front, p);
      assert last !in front;
    }
  }

  lemma {:induction false} FilterSame<T(!new)>(s: seq<T>, p: T -> bool, q: T -> bool)
    requires forall x :: x in s ==> p(x) == q(x)
    ensures Filter(s, p) == Filter(s, q)
  {
    if s != [] {
      assert s == s[..|s| - 1] + [s[|s| - 1]];
      FilterSame(s[..|s| - 1], p, q);
    }
  }

  lemma {:induction false} FilterAll<T(!new)>(s: seq<T>, p: T -> bool)
    requires forall x :: x in s ==> p(x)
    ensures Filter(s, p) == s
  {
    if s != [] {
      assert s == s[..|s| - 1] + [s[|s| - 1]];
      FilterAll(s[..|s| - 1], p);
    }
  }

  /** Changing elements so that fewer satisfy p does not lengthen the selection, and shortens it if index i is lost. */
  lemma {:induction false} FilterShrinks<T(!new)>(a: seq<T>, b: seq<T>, p: T -> bool, i: nat)
    requires |a| == |b| && forall k :: 0 <= k < |a| ==> (p(b[k]) ==> p(a[k]))
    ensures |Filter(b, p)| <= |Filter(a, p)|
    ensures i < |a| && p(a[i]) && !p(b[i]) ==> |Filter(b, p)| < |Filter(a, p)|
  {
    if a != [] { FilterShrinks(a[..|a| - 1], b[..|a| - 1], p, i); }
  }

  lemma {:induction false} FilterLosesOne<T(!new)>(a: seq<T>, b: seq<T>, p: T -> bool, i: nat)
    requires |a| == |b| && forall k :: 0 <= k < |a| && k != i ==> p(a[k]) == p(b[k])
    requires i < |a| ==> p(a[i]) && !p(b[i])
    ensures |Filter(b, p)| == |Filter(a, p)| - if i < |a| then 1 else 0
  {
    if a != [] { FilterLosesOne(a[..|a| - 1], b[..|a| - 1], p, i); }
  }

  lemma {:induction false} FilterSnoc<T(!new)>(s: seq<T>, x: T, p: T -> bool)
    ensures Filter(s + [x], p) == Filter(s, p) + if p(x) then [x] else []
  {
    assert (s + [x])[..|s|] == s;
  }

  lemma {:induction false} FilterAppend<T(!new)>(a: seq<T>, b: seq<T>, p: T -> bool)
    ensures Filter(a + b, p) == Filter(a, p) + Filter(b, p)
    decreases |b|
  {
    hide Filter;
    if b == [] {
      FilterNone(b, p);
      assert a + b == a;
    } else {
      var front, last := b[..|b| - 1], b[|b| - 1];
      var kept := if p(last) then [last] else [];
      FilterAppend(a, front, p);
      assert Filter(b, p) == Filter(front, p) + kept by {
        FilterSnoc(front, last, p);
        assert front + [last] == b;
      }
      assert Filter(a + b, p) == Filter(a + front, p) + kept by {
        FilterSnoc(a + front, last, p);
        assert a + front + [last] == a + b;
      }
    }
  }

  lemma {:induction false} FilterNone<T(!new)>(s: seq<T>, p: T -> bool)
    requires forall x :: x in s ==> !p(x)
    ensures Filter(s, p) == []
  {
    if s != [] {
      assert s == s[..|s| - 1] + [s[|s| - 1]];
      FilterNone(s[..|s| - 1], p);
    }
  }

  lemma {:induction false} FilterPermuted<T(!new)>(s: seq<T>, t: seq<T>, p: T -> bool)
    requires multiset(s) == multiset(t)
    ensures |Filter(s, p)| == |Filter(t, p)|
  {
    forall x ensures multiset(Filter(s, p))[x] == multiset(Filter(t, p))[x] {
      FilterCount(s, p, x);
      FilterCount(t, p, x);
    }
    assert multiset(Filter(s, p)) == multiset(Filter(t, p));
    assert |multiset(Filter(s, p))| == |multiset(Filter(t, p))|;
  }

  function Max(a: int, b: int): int { if a < b then b else a }

  function Min(a: int, b: int): int { if a < b then a else b }
}

/** Stable insertion sort over a caller-supplied order, standing for the sort calls of the source. */
module Sorting {
  import opened Prelude

  ghost predicate TotalPreorder<T(!new)>(leq: (T, T) -> bool) {
    && (forall x, y :: leq(x, y) || leq(y, x))
    && (forall x, y, z :: leq(x, y) && leq(y, z) ==> leq(x, z))
  }

  predicate SortedBy<T>(s: seq<T>, leq: (T, T) -> bool) {
    forall i, j :: 0 <= i < j < |s| ==> leq(s[i], s[j])
  }

  function Insert<T(==)>(x: T, s: seq<T>, leq: (T, T) -> bool): (r: seq<T>)
    ensures multiset(r) == multiset{x} + multiset(s)
  {
    if s == [] then [x]
    else if leq(x, s[0]) then [x] + s
    else
      assert s == [s[0]] + s[1..];
      [s[0]] + Insert(x, s[1..], leq)
  }

  function Sort<T(==)>(s: seq<T>, leq: (T, T) -> bool): (r: seq<T>)
    ensures multiset(r) == multiset(s)
  {
    if s == [] then []
    else
      assert s == [s[0]] + s[1..];
      Insert(s[0], Sort(s[1..], leq), leq)
  }

  lemma {:induction false} InsertSorted<T(!new)>(x: T, s: seq<T>, leq: (T, T) -> bool)
    requires TotalPreorder(leq) && SortedBy(s, leq)
    ensures SortedBy(Insert(x, s, leq), leq)
  {
    if s != [] && !leq(x, s[0]) {
      InsertSorted(x, s[1..], leq);
      var rest := Insert(x, s[1..], leq);
      forall y | y in rest
        ensures leq(s[0], y)
      {
        assert y in multiset(rest);
        assert y == x || y in multiset(s[1..]);
      }
    }
  }

  lemma {:induction false} SortSorts<T(!new)>(s: seq<T>, leq: (T, T) -> bool)
    requires TotalPreorder(leq)
    ensures SortedBy(Sort(s, leq), leq)
  {
    if s != [] {
      SortSorts(s[1..], leq);
      InsertSorted(s[0], Sort(s[1..], leq), leq);
    }
  }

  /** Under an antisymmetric order the sorted arrangement of a multiset is unique. */
  lemma {:induction false} SortedUnique<T(!new)>(a: seq<T>, b: seq<T>, leq: (T, T) -> bool)
    requires SortedBy(a, leq) && SortedBy(b, leq)
    requires forall x, y :: leq(x, y) && leq(y, x) ==> x == y
    requires multiset(a) == multiset(b)
    ensures a == b
  {
    if a == [] {
      assert |multiset(b)| == 0;
    } else {
      assert |multiset(a)| == |multiset(b)|;
      SmallestIsFirst(a, b, leq);
      SameTails(a, b);
      SortedUnique(a[1..], b[1..], leq);
      assert a == [a[0]] + a[1..] && b == [b[0]] + b[1..];
    }
  }

  lemma {:induction false} SmallestIsFirst<T(!new)>(a: seq<T>, b: seq<T>, leq: (T, T) -> bool)
    requires SortedBy(a, leq) && SortedBy(b, leq) && a != [] && b != []
    requires forall x, y :: leq(x, y) && leq(y, x) ==> x == y
    requires multiset(a) == multiset(b)
    ensures a[0] == b[0]
  {
    assert b[0] in multiset(a) && a[0] in multiset(b);
    var i :| 0 <= i < |a| && a[i] == b[0];
    var j :| 0 <= j < |b| && b[j] == a[0];
    if i > 0 && j > 0 { assert leq(a[0], a[i]) && leq(b[0], b[j]); }
  }

  lemma {:induction false} SameTails<T>(a: seq<T>, b: seq<T>)
    requires a != [] && b != [] && a[0] == b[0] && multiset(a) == multiset(b)
    ensures multiset(a[1..]) == multiset(b[1..])
  {
    assert a == [a[0]] + a[1..] && b == [b[0]] + b[1..];
    assert multiset(a[1..]) == multiset(a) - multiset{a[0]};
    assert multiset(b[1..]) == multiset(b) - multiset{b[0]};
  }

  /** Lexicographic order on strings, as used by sorted() and sort.Strings. */
  predicate LexLeq(a: string, b: string) {
    a == [] || (b != [] && (a[0] < b[0] || (a[0] == b[0] && LexLeq(a[1..], b[1..]))))
  }

  lemma {:induction false} LexTotal(a: string, b: string)
    ensures LexLeq(a, b) || LexLeq(b, a)
  {
    if a != [] && b != [] { LexTotal(a[1..], b[1..]); }
  }

  lemma {:induction false} LexAntisymmetric(a: string, b: string)
    requires LexLeq(a, b) && LexLeq(b, a)
    ensures a == b
  {
    if a != [] {
      LexAntisymmetric(a[1..], b[1..]);
      assert a == [a[0]] + a[1..] && b == [b[0]] + b[1..];
    }
  }

  lemma {:induction false} LexTransitive(a: string, b: string, c: string)
    requires LexLeq(a, b) && LexLeq(b, c)
    ensures LexLeq(a, c)
  {
    if a != [] && a[0] == c[0] { LexTransitive(a[1..], b[1..], c[1..]); }
  }

  /** One string comes before another when it is a prefix of it, or has the smaller character where they first differ. */
  lemma {:induction false} LexLeqIff(a: string, b: string)
    ensures LexLeq(a, b) <==> a <= b || exists i :: 0 <= i < |a| && i < |b| && a[..i] == b[..i] && a[i] < b[i]
  {
    if a != [] && b != [] {
      assert a == [a[0]] + a[1..] && b == [b[0]] + b[1..];
      if a[0] == b[0] {
        LexLeqIff(a[1..], b[1..]);
        if i :| 0 <= i < |a[1..]| && i < |b[1..]| && a[1..][..i] == b[1..][..i] && a[1..][i] < b[1..][i] {
          assert a[..i + 1] == [a[0]] + a[1..][..i] && b[..i + 1] == [b[0]] + b[1..][..i];
        }
        if i :| 0 <= i < |a| && i < |b| && a[..i] == b[..i] && a[i] < b[i] {
          assert i > 0;
          assert a[1..][..i - 1] == a[..i][1..] && b[1..][..i - 1] == b[..i][1..];
          assert a[1..][i - 1] < b[1..][i - 1];
        }
      } else if a[0] < b[0] {
        assert a[..0] == b[..0];
      } else {
        assert forall i :: 0 < i < |a| && i < |b| ==> a[..i][0] == a[0] && b[..i][0] == b[0];
      }
    }
  }

  lemma {:induction false} LexIsTotalOrder()
    ensures TotalPreorder(LexLeq)
    ensures forall x, y :: LexLeq(x, y) && LexLeq(y, x) ==> x == y
  {
    forall x, y ensures LexLeq(x, y) || LexLeq(y, x) { LexTotal(x, y); }
    forall x, y | LexLeq(x, y) && LexLeq(y, x) ensures x == y { LexAntisymmetric(x, y); }
    forall x, y, z | LexLeq(x, y) && LexLeq(y, z) ensures LexLeq(x, z) { LexTransitive(x, y, z); }
  }
}
