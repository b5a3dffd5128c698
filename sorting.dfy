/** The stable sort `Array.prototype.sort` performs, modelled as an insertion sort under a
    caller-supplied "sorts no later than" relation. */
module Sorting {

  /** `le` is total and transitive, as a comparator must be for `sort` to be meaningful. */
  ghost predicate TotalPreorder<T(!new)>(le: (T, T) -> bool) {
    && (forall a, b :: le(a, b) || le(b, a))
    && (forall a, b, c :: le(a, b) && le(b, c) ==> le(a, c))
  }

  ghost predicate Sorted<T>(xs: seq<T>, le: (T, T) -> bool) {
    forall i, j :: 0 <= i < j < |xs| ==> le(xs[i], xs[j])
  }

  /** Inserts x in front of the first element it sorts no later than. */
  function Insert<T>(x: T, xs: seq<T>, le: (T, T) -> bool): (r: seq<T>)
    ensures multiset(r) == multiset(xs) + multiset{x}
    ensures |r| == |xs| + 1
  {
    if |xs| == 0 then [x]
    else if le(x, xs[0]) then [x] + xs
    else
      assert xs == [xs[0]] + xs[1..];
      [xs[0]] + Insert(x, xs[1..], le)
  }

  function InsertionSort<T>(xs: seq<T>, le: (T, T) -> bool): (r: seq<T>)
    ensures multiset(r) == multiset(xs)
    ensures |r| == |xs|
  {
    if |xs| == 0 then []
    else
      assert xs == [xs[0]] + xs[1..];
      Insert(xs[0], InsertionSort(xs[1..], le), le)
  }

  lemma {:induction false} InsertSorted<T(!new)>(x: T, xs: seq<T>, le: (T, T) -> bool)
    requires TotalPreorder(le) && Sorted(xs, le)
    ensures Sorted(Insert(x, xs, le), le)
  {
    if |xs| > 0 && !le(x, xs[0]) {
      InsertSorted(x, xs[1..], le);
      var r := Insert(x, xs[1..], le);
      assert le(xs[0], x);
      forall k | 0 <= k < |r|
        ensures le(xs[0], r[k])
      {
        assert r[k] in multiset(r);
        assert r[k] == x || r[k] in multiset(xs[1..]);
        if r[k] != x {
          var m :| 0 <= m < |xs[1..]| && xs[1..][m] == r[k];
          assert xs[m + 1] == r[k];
        }
      }
    }
  }

  /** The sort's result is ordered and is a rearrangement of its input. */
  lemma {:induction false} InsertionSortSorted<T(!new)>(xs: seq<T>, le: (T, T) -> bool)
    requires TotalPreorder(le)
    ensures Sorted(InsertionSort(xs, le), le)
    ensures multiset(InsertionSort(xs, le)) == multiset(xs)
  {
    if |xs| > 0 {
      InsertionSortSorted(xs[1..], le);
      InsertSorted(xs[0], InsertionSort(xs[1..], le), le);
    }
  }

  /** The elements of xs that `le` ranks equal to c, in their order in xs. */
  function Ties<T>(xs: seq<T>, le: (T, T) -> bool, c: T): seq<T> {
    if |xs| == 0 then []
    else (if le(xs[0], c) && le(c, xs[0]) then [xs[0]] else []) + Ties(xs[1..], le, c)
  }

  lemma TiesCons<T>(y: T, r: seq<T>, le: (T, T) -> bool, c: T)
    ensures Ties([y] + r, le, c) == (if le(y, c) && le(c, y) then [y] else []) + Ties(r, le, c)
  {
    assert ([y] + r)[1..] == r;
  }

  /** Inserting an element not tied with c leaves the elements tied with c as they were. */
  lemma {:induction false} InsertOtherTies<T>(x: T, ys: seq<T>, le: (T, T) -> bool, c: T)
    requires !(le(x, c) && le(c, x))
    ensures Ties(Insert(x, ys, le), le, c) == Ties(ys, le, c)
  {
    if |ys| == 0 {
      TiesCons(x, [], le, c);
    } else if le(x, ys[0]) {
      TiesCons(x, ys, le, c);
    } else {
      var r := Insert(x, ys[1..], le);
      InsertOtherTies(x, ys[1..], le, c);
      TiesCons(ys[0], r, le, c);
    }
  }

  /** Inserting an element tied with c passes no other element tied with c, so it comes
      first among them and the others keep their order. Of the comparator only
      transitivity through c is needed. */
  lemma {:induction false} InsertOwnTies<T>(x: T, ys: seq<T>, le: (T, T) -> bool, c: T)
    requires le(x, c) && le(c, x)
    requires forall y :: le(c, y) ==> le(x, y)
    ensures Ties(Insert(x, ys, le), le, c) == [x] + Ties(ys, le, c)
  {
    if |ys| == 0 {
      assert Insert(x, ys, le) == [x] + ys;
      TiesCons(x, ys, le, c);
    } else if le(x, ys[0]) {
      assert Insert(x, ys, le) == [x] + ys;
      TiesCons(x, ys, le, c);
    } else {
      var y, rest := ys[0], ys[1..];
      var r := Insert(x, rest, le);
      assert Insert(x, ys, le) == [y] + r;
      assert ys == [y] + rest;
      InsertOwnTies(x, rest, le, c);
      assert !le(c, y);
      TiesCons(y, r, le, c);
      TiesCons(y, rest, le, c);
      assert Ties([y] + r, le, c) == Ties(r, le, c);
      assert Ties(ys, le, c) == Ties(rest, le, c);
    }
  }

  /** The sort is stable: the elements ranked equal to any c come out in their input order. */
  lemma {:induction false} InsertionSortStable<T(!new)>(xs: seq<T>, le: (T, T) -> bool, c: T)
    requires TotalPreorder(le)
    ensures Ties(InsertionSort(xs, le), le, c) == Ties(xs, le, c)
  {
    if |xs| > 0 {
      InsertionSortStable(xs[1..], le, c);
      var x := xs[0];
      if le(x, c) && le(c, x) {
        InsertOwnTies(x, InsertionSort(xs[1..], le), le, c);
      } else {
        InsertOtherTies(x, InsertionSort(xs[1..], le), le, c);
      }
    }
  }

  /** In a list without repeated elements every value occurs at most once. */
  lemma {:induction false} AtMostOnce<T>(ys: seq<T>)
    requires forall a, b :: 0 <= a < b < |ys| ==> ys[a] != ys[b]
    ensures forall c :: multiset(ys)[c] <= 1
  {
    if |ys| > 0 {
      var n := |ys| - 1;
      var front := ys[..n];
      AtMostOnce(front);
      assert ys == front + [ys[n]];
      assert ys[n] !in front;
    }
  }

  /** A value that stands at two positions occurs at least twice. */
  lemma TwiceIfRepeated<T>(xs: seq<T>, a: nat, b: nat)
    requires a < b < |xs|
    ensures xs[a] == xs[b] ==> multiset(xs)[xs[a]] >= 2
  {
    assert xs == xs[..a] + [xs[a]] + xs[a + 1..b] + [xs[b]] + xs[b + 1..];
  }

  /** A rearrangement of a list without repeated elements has none either. */
  lemma NoRepeats<T>(xs: seq<T>, ys: seq<T>)
    requires multiset(xs) == multiset(ys)
    requires forall a, b :: 0 <= a < b < |ys| ==> ys[a] != ys[b]
    ensures forall a, b :: 0 <= a < b < |xs| ==> xs[a] != xs[b]
  {
    AtMostOnce(ys);
    forall a, b | 0 <= a < b < |xs|
      ensures xs[a] != xs[b]
    {
      TwiceIfRepeated(xs, a, b);
    }
  }
}
