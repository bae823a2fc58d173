/** Vocabulary shared by every part of the model: document identifiers,
    optional request fields, handler responses, sequence helpers and the
    rounding used for every percentage the application shows. */
module Common {

  /** A document identifier (a MongoDB ObjectId). Only equality is used. */
  type Id = nat

  datatype Option<+T> = None | Some(value: T)

  /** What a request handler does with the response: send a JSON body with a
      status, send an error body `{message}` with a status, or pass an
      exception on to the application's error handler (`next(err)`). */
  datatype Response<+T> =
    | Success(status: nat, body: T)
    | Reject(status: nat, message: string)
    | Forwarded(error: string)

  /** JavaScript truthiness of an optional string field of a JSON body:
      a missing field, `null` and `""` are all falsy. */
  predicate Truthy(field: Option<string>) {
    field.Some? && field.value != ""
  }

  predicate NoDuplicates<T(==)>(s: seq<T>) {
    forall i, j :: 0 <= i < j < |s| ==> s[i] != s[j]
  }

  /** `s.filter(keep)`: the elements of `s` that satisfy `keep`, in order. */
  function Filter<T(!new)>(s: seq<T>, keep: T -> bool): (r: seq<T>)
    ensures |r| <= |s|
    ensures forall x :: x in r <==> x in s && keep(x)
    decreases |s|
  {
    if s == [] then []
    else
      var rest := Filter(s[..|s| - 1], keep);
      assert s == s[..|s| - 1] + [s[|s| - 1]];
      if keep(s[|s| - 1]) then rest + [s[|s| - 1]] else rest
  }

  /** Filtering distributes over concatenation, so filtering keeps order. */
  lemma {:induction false} FilterAppend<T(!new)>(a: seq<T>, b: seq<T>, keep: T -> bool)
    ensures Filter(a + b, keep) == Filter(a, keep) + Filter(b, keep)
    decreases |b|
  {
    if b == [] {
      assert a + b == a;
    } else {
      var b' := b[..|b| - 1];
      assert (a + b)[..|a + b| - 1] == a + b';
      assert (a + b)[|a + b| - 1] == b[|b| - 1];
      FilterAppend(a, b', keep);
    }
  }

  /** Filtering two elements keeps each that passes, in order; when both
      are kept the pair comes back unchanged. */
  lemma FilterPair<T(!new)>(s: seq<T>, keep: T -> bool)
    requires |s| == 2
    ensures Filter(s, keep) == (if keep(s[0]) then [s[0]] else []) + (if keep(s[1]) then [s[1]] else [])
    ensures |Filter(s, keep)| >= 2 ==> Filter(s, keep) == s
  {
    assert s[..1] == [s[0]];
    assert [s[0]][..0] == [];
  }

  /** Filtering out every element leaves nothing. */
  lemma {:induction false} FilterNone<T(!new)>(s: seq<T>, keep: T -> bool)
    requires forall x :: x in s ==> !keep(x)
    ensures Filter(s, keep) == []
    decreases |s|
  {
    if s != [] {
      FilterNone(s[..|s| - 1], keep);
    }
  }

  /** Filtering by a stricter condition after a weaker one is filtering by
      the stricter one alone. */
  lemma {:induction false} FilterFilter<T(!new)>(s: seq<T>, weaker: T -> bool, stricter: T -> bool)
    requires forall x :: stricter(x) ==> weaker(x)
    ensures Filter(Filter(s, weaker), stricter) == Filter(s, stricter)
    decreases |s|
  {
    if s != [] {
      var s' := s[..|s| - 1];
      var last := s[|s| - 1];
      FilterFilter(s', weaker, stricter);
      if weaker(last) {
        FilterAppend(Filter(s', weaker), [last], stricter);
        assert [last][..0] == [];
      }
    }
  }

  /** Two filters can be applied in either order. */
  lemma {:induction false} FilterCommute<T(!new)>(s: seq<T>, p: T -> bool, q: T -> bool)
    ensures Filter(Filter(s, p), q) == Filter(Filter(s, q), p)
    decreases |s|
  {
    if s != [] {
      var s' := s[..|s| - 1];
      var last := s[|s| - 1];
      FilterCommute(s', p, q);
      assert [last][..0] == [];
      if p(last) {
        FilterAppend(Filter(s', p), [last], q);
      }
      if q(last) {
        FilterAppend(Filter(s', q), [last], p);
      }
    }
  }

  /** An element that occurs in a duplicate-free sequence occurs exactly once. */
  lemma {:induction false} NoDuplicatesOccursOnce<T>(s: seq<T>, x: T)
    requires NoDuplicates(s) && x in s
    ensures multiset(s)[x] == 1
  {
    var k :| 0 <= k < |s| && s[k] == x;
    assert s == s[..k] + [x] + s[k + 1..];
    assert x !in s[..k] by {
      forall j | 0 <= j < k ensures s[..k][j] != x { assert s[j] != s[k]; }
    }
    assert x !in s[k + 1..] by {
      var tail := s[k + 1..];
      forall j | 0 <= j < |tail| ensures tail[j] != x { assert tail[j] == s[k + 1 + j]; }
    }
    assert multiset(s) == multiset(s[..k]) + multiset{x} + multiset(s[k + 1..]);
  }

  function Elements<T>(s: seq<T>): set<T> {
    set x | x in s
  }

  /** A sequence has at least as many positions as distinct elements, and
      exactly as many when it has no duplicates. */
  lemma {:induction false} ElementsSize<T>(s: seq<T>)
    ensures |Elements(s)| <= |s|
    ensures NoDuplicates(s) ==> |Elements(s)| == |s|
    decreases |s|
  {
    if s != [] {
      var s' := s[..|s| - 1];
      var last := s[|s| - 1];
      assert s == s' + [last];
      assert Elements(s) == Elements(s') + {last};
      ElementsSize(s');
      if NoDuplicates(s) {
        assert NoDuplicates(s');
        assert last !in Elements(s') by {
          forall j | 0 <= j < |s'| ensures s'[j] != last { assert s[j] != s[|s| - 1]; }
        }
      }
    }
  }

  /** A subset is no larger than the set that holds it. */
  lemma {:induction false} SubsetSize<T>(a: set<T>, b: set<T>)
    requires a <= b
    ensures |a| <= |b|
    decreases |a|
  {
    if a != {} {
      var x :| x in a;
      SubsetSize(a - {x}, b - {x});
    }
  }

  /** `Math.round(part / whole * 100)` for `whole > 0`, in exact integers:
      the whole number nearest to the exact percentage, with exact halves
      rounded up. `Math.round` on a floating-point quotient can differ at
      some exact halves (23 of 40 is 57.5 exactly, but the floating-point
      product falls just below it and rounds to 57). */
  function RoundPercent(part: nat, whole: nat): (r: nat)
    requires whole > 0
    ensures 2 * whole * r <= 200 * part + whole < 2 * whole * r + 2 * whole
  {
    var d := 2 * whole;
    var q := (200 * part + whole) / d;
    assert d * q <= 200 * part + whole < d * q + d;
    assert 2 * whole * q == d * q;
    q
  }

  /** Multiplying by a natural number keeps the order. */
  lemma MulMonotonic(k: nat, a: int, b: int)
    requires a <= b
    ensures k * a <= k * b
  {
    assert k * b - k * a == k * (b - a);
  }

  /** The percentage every guarded `total === 0 ? 0 : Math.round(...)` computes. */
  function Percent(part: nat, whole: nat): (r: nat)
    ensures whole == 0 ==> r == 0
    ensures part == 0 ==> r == 0
    ensures whole > 0 && part == whole ==> r == 100
  {
    if whole == 0 then 0
    else
      var r := RoundPercent(part, whole);
      assert part == 0 ==> r == 0 by {
        if part == 0 && r > 0 {
          MulMonotonic(2 * whole, 1, r);
        }
      }
      assert part == whole ==> r == 100 by {
        if part == whole {
          if r < 100 { MulMonotonic(2 * whole, r, 99); }
          if r > 100 { MulMonotonic(2 * whole, 101, r); }
        }
      }
      r
  }

  /** A part no larger than the whole is at most 100 percent. */
  lemma PercentAtMost100(part: nat, whole: nat)
    requires part <= whole
    ensures Percent(part, whole) <= 100
  {
    if whole > 0 {
      var r := RoundPercent(part, whole);
      if r > 100 {
        MulMonotonic(2 * whole, 101, r);
      }
    }
  }

  /** A rounded percentage of at least `mark` is the same as an exact
      percentage of at least `mark - 1/2`. */
  lemma PercentAtLeast(part: nat, whole: nat, mark: nat)
    requires whole > 0
    ensures Percent(part, whole) >= mark <==> 200 * part + whole >= 2 * whole * mark
  {
    var r := RoundPercent(part, whole);
    if r >= mark {
      MulMonotonic(2 * whole, mark, r);
    } else {
      MulMonotonic(2 * whole, r + 1, mark);
    }
  }
}
