/** Small value types and sequence helpers shared by the archive model. */
module Common {

  /** A value or its absence (JavaScript `null`/`undefined`). */
  datatype Option<+T> = None | Some(value: T) {
    function GetOr(default: T): T {
      match this
      case Some(v) => v
      case None => default
    }
  }

  /** The outcome of an operation that may throw. */
  datatype Result<+T, +E> = Ok(value: T) | Err(error: E)

  /** The outcome of an operation that returns nothing but may throw. */
  datatype Outcome<+E> = Pass | Fail(error: E)

  /** No element occurs twice. */
  ghost predicate NoDup<T>(xs: seq<T>) {
    forall i, j :: 0 <= i < j < |xs| ==> xs[i] != xs[j]
  }

  /** Number of occurrences of `x` in `xs` (`xs.filter(y => y === x).length`). */
  function Count<T(==)>(xs: seq<T>, x: T): nat
  {
    if xs == [] then 0
    else Count(xs[..|xs| - 1], x) + (if xs[|xs| - 1] == x then 1 else 0)
  }

  lemma {:induction false} CountAppend<T>(xs: seq<T>, y: T, x: T)
    ensures Count(xs + [y], x) == Count(xs, x) + (if y == x then 1 else 0)
  {
    assert (xs + [y])[..|xs + [y]| - 1] == xs;
  }

  lemma {:induction false} CountZero<T>(xs: seq<T>, x: T)
    ensures Count(xs, x) == 0 <==> x !in xs
  {
    if xs != [] {
      var init := xs[..|xs| - 1];
      assert xs == init + [xs[|xs| - 1]];
      CountZero(init, x);
    }
  }

  /** `xs.indexOf(x)`: the first position holding `x`, or None (JavaScript's -1). */
  function FirstIndex<T(==)>(xs: seq<T>, x: T): (r: Option<nat>)
    ensures r.Some? ==> r.value < |xs| && xs[r.value] == x
    ensures r.Some? ==> forall j :: 0 <= j < r.value ==> xs[j] != x
    ensures r.None? <==> x !in xs
  {
    if xs == [] then None
    else if xs[0] == x then Some(0)
    else match FirstIndex(xs[1..], x)
      case None => None
      case Some(k) => Some(k + 1)
  }

  /** `xs.splice(i, 1)`: drop the element at position `i`. */
  function RemoveAt<T>(xs: seq<T>, i: nat): (r: seq<T>)
    requires i < |xs|
    ensures |r| == |xs| - 1
    ensures forall j :: 0 <= j < i ==> r[j] == xs[j]
    ensures forall j :: i <= j < |r| ==> r[j] == xs[j + 1]
  {
    xs[..i] + xs[i + 1..]
  }

  lemma RemoveAtMultiset<T>(xs: seq<T>, i: nat)
    requires i < |xs|
    ensures multiset(RemoveAt(xs, i)) == multiset(xs) - multiset{xs[i]}
  {
    assert xs == xs[..i] + [xs[i]] + xs[i + 1..];
  }

  /** `a` is `b` with some elements left out, order kept. */
  ghost predicate IsSubsequence<T>(a: seq<T>, b: seq<T>)
    decreases |b|
  {
    a == [] || (b != [] && ((a[0] == b[0] && IsSubsequence(a[1..], b[1..])) || IsSubsequence(a, b[1..])))
  }

  /** The elements of a sequence, as a set. */
  function Elements<T>(xs: seq<T>): set<T> {
    set x | x in xs
  }

  /** A duplicate-free sequence has exactly as many elements as its set. */
  lemma {:induction false} NoDupCardinality<T>(xs: seq<T>)
    requires NoDup(xs)
    ensures |Elements(xs)| == |xs|
  {
    if xs != [] {
      var rest := xs[1..];
      assert NoDup(rest) by {
        forall i, j | 0 <= i < j < |rest| ensures rest[i] != rest[j] {
          assert rest[i] == xs[i + 1] && rest[j] == xs[j + 1];
        }
      }
      NoDupCardinality(rest);
      assert xs[0] !in rest by {
        forall j | 0 <= j < |rest| ensures rest[j] != xs[0] {
          assert rest[j] == xs[j + 1];
        }
      }
      assert Elements(xs) == Elements(rest) + {xs[0]} by {
        assert xs == [xs[0]] + rest;
      }
    }
  }

  /** The sum of a sequence of counts. */
  function Sum(ns: seq<nat>): nat {
    if ns == [] then 0 else ns[0] + Sum(ns[1..])
  }

  /** Number of entries of `xs` that belong to `s`. */
  function CountMembers<T>(xs: seq<T>, s: set<T>): nat {
    if xs == [] then 0
    else CountMembers(xs[..|xs| - 1], s) + (if xs[|xs| - 1] in s then 1 else 0)
  }

  lemma {:induction false} CountMembersEmpty<T>(xs: seq<T>)
    ensures CountMembers(xs, {}) == 0
  {
    if xs != [] {
      CountMembersEmpty(xs[..|xs| - 1]);
    }
  }

  /** Adding one id to the set adds that id's occurrences. */
  lemma {:induction false} CountMembersAdd<T>(xs: seq<T>, s: set<T>, a: T)
    requires a !in s
    ensures CountMembers(xs, s + {a}) == CountMembers(xs, s) + Count(xs, a)
  {
    if xs != [] {
      CountMembersAdd(xs[..|xs| - 1], s, a);
    }
  }

  /** Counts of distinct keys add up to the entries holding one of the keys: each
      entry is counted once, under its own key, and entries of other keys not at all. */
  lemma {:induction false} SumOfCounts<T>(ns: seq<nat>, ids: seq<T>, xs: seq<T>)
    requires |ns| == |ids| && NoDup(ids)
    requires forall i :: 0 <= i < |ids| ==> ns[i] == Count(xs, ids[i])
    ensures Sum(ns) == CountMembers(xs, Elements(ids))
  {
    if ids == [] {
      assert Elements(ids) == {};
      CountMembersEmpty(xs);
    } else {
      var rest := ids[1..];
      assert NoDup(rest) by {
        forall i, j | 0 <= i < j < |rest| ensures rest[i] != rest[j] {
          assert rest[i] == ids[i + 1] && rest[j] == ids[j + 1];
        }
      }
      assert forall i :: 0 <= i < |rest| ==> ns[1..][i] == Count(xs, rest[i]) by {
        forall i | 0 <= i < |rest| ensures ns[1..][i] == Count(xs, rest[i]) {
          assert ns[1..][i] == ns[i + 1] && rest[i] == ids[i + 1];
        }
      }
      SumOfCounts(ns[1..], rest, xs);
      assert ids[0] !in Elements(rest) by {
        forall j | 0 <= j < |rest| ensures rest[j] != ids[0] {
          assert rest[j] == ids[j + 1];
        }
      }
      assert Elements(ids) == Elements(rest) + {ids[0]} by {
        assert ids == [ids[0]] + rest;
      }
      CountMembersAdd(xs, Elements(rest), ids[0]);
    }
  }

  /** When every entry's key is in `s`, every entry is counted. */
  lemma {:induction false} CountMembersAll<T>(xs: seq<T>, s: set<T>)
    requires Elements(xs) <= s
    ensures CountMembers(xs, s) == |xs|
  {
    if xs != [] {
      var init := xs[..|xs| - 1];
      assert Elements(init) <= s by {
        forall x | x in init ensures x in s {
          var k :| 0 <= k < |init| && init[k] == x;
          assert xs[k] == x;
        }
      }
      CountMembersAll(init, s);
      assert xs[|xs| - 1] in Elements(xs);
    }
  }

  /** Counts of distinct keys that between them cover every entry add up to the
      number of entries. */
  lemma PartitionCounts<T>(ns: seq<nat>, ids: seq<T>, xs: seq<T>)
    requires |ns| == |ids| && NoDup(ids)
    requires forall i :: 0 <= i < |ids| ==> ns[i] == Count(xs, ids[i])
    requires forall i :: 0 <= i < |xs| ==> xs[i] in ids
    ensures Sum(ns) == |xs|
  {
    SumOfCounts(ns, ids, xs);
    assert Elements(xs) <= Elements(ids) by {
      forall x | x in Elements(xs) ensures x in Elements(ids) {
        var k :| 0 <= k < |xs| && xs[k] == x;
      }
    }
    CountMembersAll(xs, Elements(ids));
  }
}
