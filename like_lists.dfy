/** The like list of one video: a toggle flips one user's membership. */
module LikeLists {
  import opened Common
  import opened Records

  /** The like list after a toggle: the first occurrence of the user removed if
      there is one, otherwise the user appended. */
  function ToggleUser(likes: seq<Option<UserId>>, u: Option<UserId>): seq<Option<UserId>>
  {
    match FirstIndex(likes, u)
    case None => likes + [u]
    case Some(k) => RemoveAt(likes, k)
  }

  /** A toggle takes one occurrence of the user out when there is one, and
      otherwise appends the user. */
  lemma ToggleUserMeaning(likes: seq<Option<UserId>>, u: Option<UserId>)
    ensures u in likes ==>
      |ToggleUser(likes, u)| == |likes| - 1 && multiset(ToggleUser(likes, u)) == multiset(likes) - multiset{u}
    ensures u !in likes ==> ToggleUser(likes, u) == likes + [u]
  {
    match FirstIndex(likes, u)
    case None =>
    case Some(k) => RemoveAtMultiset(likes, k);
  }

  /** On a duplicate-free list, a toggle flips the user's membership, leaves every
      other user's membership alone, changes the count by one and keeps the list
      duplicate-free. */
  lemma ToggleUserFlips(likes: seq<Option<UserId>>, u: Option<UserId>)
    requires NoDup(likes)
    ensures var r := ToggleUser(likes, u);
      (u in r <==> u !in likes) &&
      (forall w :: w != u ==> (w in r <==> w in likes)) &&
      |r| == (if u in likes then |likes| - 1 else |likes| + 1) &&
      NoDup(r)
  {
    var r := ToggleUser(likes, u);
    ToggleUserMeaning(likes, u);
    if u in likes {
      var k := FirstIndex(likes, u).value;
      assert r == RemoveAt(likes, k);
      assert multiset(likes)[u] == 1 by {
        NoDupCount(likes, u);
      }
      assert u !in multiset(r);
      forall w | w != u ensures w in r <==> w in likes {
        assert w in multiset(r) <==> w in multiset(likes);
      }
      forall i, j | 0 <= i < j < |r| ensures r[i] != r[j] {
        if i < k {
          if j < k { assert r[i] == likes[i] && r[j] == likes[j]; }
          else { assert r[i] == likes[i] && r[j] == likes[j + 1]; }
        } else {
          assert r[i] == likes[i + 1] && r[j] == likes[j + 1];
        }
      }
    } else {
      assert forall w :: w in r <==> w in likes || w == u;
    }
  }

  lemma {:induction false} NoDupCount<T>(xs: seq<T>, x: T)
    requires NoDup(xs) && x in xs
    ensures multiset(xs)[x] == 1
    decreases |xs|
  {
    var init, last := xs[..|xs| - 1], xs[|xs| - 1];
    assert xs == init + [last];
    if last == x {
      assert x !in init by {
        forall j | 0 <= j < |init| ensures init[j] != x { assert init[j] == xs[j]; }
      }
    } else {
      assert x in init by {
        var k :| 0 <= k < |xs| && xs[k] == x;
        assert init[k] == x;
      }
      assert NoDup(init) by {
        forall i, j | 0 <= i < j < |init| ensures init[i] != init[j] {
          assert init[i] == xs[i] && init[j] == xs[j];
        }
      }
      NoDupCount(init, x);
    }
  }

  /** The like list after the toggles of `us`, one per entry, in order. */
  function ToggleEach(likes: seq<Option<UserId>>, us: seq<Option<UserId>>): seq<Option<UserId>>
    decreases |us|
  {
    if us == [] then likes else ToggleUser(ToggleEach(likes, us[..|us| - 1]), us[|us| - 1])
  }

  predicate Odd(n: nat) { n % 2 == 1 }

  /** Any sequence of toggles keeps a duplicate-free like list duplicate-free. */
  lemma {:induction false} ToggleEachNoDup(likes: seq<Option<UserId>>, us: seq<Option<UserId>>)
    requires NoDup(likes)
    ensures NoDup(ToggleEach(likes, us))
    decreases |us|
  {
    if us != [] {
      ToggleEachNoDup(likes, us[..|us| - 1]);
      ToggleUserFlips(ToggleEach(likes, us[..|us| - 1]), us[|us| - 1]);
    }
  }

  /** One more toggle flips the parity of `w` exactly when it is `w`'s toggle. */
  lemma ParityStep(start: bool, before: bool, after: bool, c: nat, flipped: bool)
    requires before == (start != Odd(c))
    requires after == (if flipped then !before else before)
    ensures after == (start != Odd(c + (if flipped then 1 else 0)))
  {
  }

  /** The last toggle of `us` carries the parity statement from the toggles before it. */
  lemma ToggleParityStep(likes: seq<Option<UserId>>, us: seq<Option<UserId>>, w: Option<UserId>)
    requires NoDup(likes) && us != []
    requires (w in ToggleEach(likes, us[..|us| - 1])) == ((w in likes) != Odd(Count(us[..|us| - 1], w)))
    ensures (w in ToggleEach(likes, us)) == ((w in likes) != Odd(Count(us, w)))
  {
    var init, v := us[..|us| - 1], us[|us| - 1];
    var before := ToggleEach(likes, init);
    ToggleEachNoDup(likes, init);
    ToggleUserFlips(before, v);
    assert (w in ToggleUser(before, v)) == (if v == w then w !in before else w in before);
    ParityStep(w in likes, w in before, w in ToggleUser(before, v), Count(init, w), v == w);
  }

  /** Like state is parity: after any sequence of toggles on a duplicate-free list,
      a user likes the video exactly when they did at the start with an even
      number of their own toggles, or did not with an odd number. */
  lemma {:induction false} ToggleParity(likes: seq<Option<UserId>>, us: seq<Option<UserId>>, w: Option<UserId>)
    requires NoDup(likes)
    ensures (w in ToggleEach(likes, us)) == ((w in likes) != Odd(Count(us, w)))
    decreases |us|
  {
    if us != [] {
      ToggleParity(likes, us[..|us| - 1], w);
      ToggleParityStep(likes, us, w);
    }
  }

  /** However many toggles happen, by however many users, the like count is the
      number of distinct likers. */
  lemma ToggleCountsLikers(likes: seq<Option<UserId>>, us: seq<Option<UserId>>)
    requires NoDup(likes)
    ensures |ToggleEach(likes, us)| == |Elements(ToggleEach(likes, us))|
  {
    ToggleEachNoDup(likes, us);
    NoDupCardinality(ToggleEach(likes, us));
  }
}
