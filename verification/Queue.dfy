/** The blocking queue of include/priority_queue.hpp over a std::priority_queue: a bag of
    items from which a best one is taken. Which of several equally good items comes first
    is not determined. */
module Queue {
  /** `y` is strictly preferred to `x` by a priority_queue ordered by `less`. A comparator
      that is not strict on ties prefers neither of two equal items. */
  predicate Beats<T>(less: (T, T) -> bool, y: T, x: T) {
    less(x, y) && !less(y, x)
  }

  ghost predicate IsTop<T>(less: (T, T) -> bool, q: multiset<T>, x: T) {
    x in q && forall y :: y in q ==> !Beats(less, y, x)
  }

  /** The comparator orders items by some integer rank. */
  ghost predicate Ranks<T(!new)>(less: (T, T) -> bool, rank: T -> int) {
    forall x, y :: Beats(less, y, x) <==> rank(x) < rank(y)
  }

  lemma {:induction false} TopExists<T(!new)>(less: (T, T) -> bool, rank: T -> int, q: multiset<T>)
    requires Ranks(less, rank) && q != multiset{}
    ensures exists x :: IsTop(less, q, x)
    decreases |q|
  {
    var x :| x in q;
    var rest := q - multiset{x};
    if rest == multiset{} {
      assert q == rest + multiset{x};
      assert IsTop(less, q, x);
    } else {
      TopExists(less, rank, rest);
      var t :| IsTop(less, rest, t);
      var best := if rank(x) > rank(t) then x else t;
      forall y | y in q
        ensures !Beats(less, y, best)
      {
        if y != x {
          assert y in rest;
        }
      }
      assert IsTop(less, q, best);
    }
  }

  class WaitableQueue<T(==, !new)> {
    const less: (T, T) -> bool
    ghost const rank: T -> int
    var items: multiset<T>

    ghost predicate Valid()
      reads this
    {
      Ranks(less, rank)
    }

    constructor (less: (T, T) -> bool, ghost rank: T -> int)
      requires Ranks(less, rank)
      ensures Valid() && items == multiset{} && this.less == less
    {
      this.less, this.rank, items := less, rank, multiset{};
    }

    method Push(item: T)
      requires Valid()
      modifies this
      ensures Valid() && items == old(items) + multiset{item}
    {
      items := items + multiset{item};
    }

    method IsEmpty() returns (empty: bool)
      ensures empty <==> items == multiset{}
    {
      empty := items == multiset{};
    }

    /** The blocking Pop, at the moment it stops waiting. */
    method Pop() returns (item: T)
      requires Valid() && items != multiset{}
      modifies this
      ensures Valid() && IsTop(less, old(items), item) && items == old(items) - multiset{item}
    {
      TopExists(less, rank, items);
      item :| item in items && forall y :: y in items ==> !Beats(less, y, item);
      items := items - multiset{item};
    }

    /** The Pop with a time limit: 0 with an item, -1 when nothing came in time, -2 when
        even the lock could not be taken in time. */
    method TryPop(locked: bool, last: T) returns (code: int, item: T)
      requires Valid()
      modifies this
      ensures Valid()
      ensures code == 0 <==> locked && old(items) != multiset{}
      ensures code == 0 ==> IsTop(less, old(items), item) && items == old(items) - multiset{item}
      ensures code != 0 ==> code == (if locked then -1 else -2) && item == last && items == old(items)
    {
      if !locked {
        return -2, last;
      }
      if items == multiset{} {
        return -1, last;
      }
      item := Pop();
      code := 0;
    }
  }
}
