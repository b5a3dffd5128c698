/** Values shared by every component: an optional value, a distance that may be
    infinite, and the three scans the engine repeats everywhere: a minimum that starts
    at `Infinity`, a maximum that starts at 0, and a count of the entries that pass a test. */
module Common {

  datatype Option<+T> = None | Some(value: T)

  /** A distance in meters, or the `Infinity` a minimum scan starts from. */
  datatype Ext = Fin(v: real) | Inf

  predicate Le(a: Ext, b: Ext) {
    b.Inf? || (a.Fin? && a.v <= b.v)
  }

  predicate Lt(a: Ext, b: Ext) {
    a.Fin? && (b.Inf? || a.v < b.v)
  }

  /** One step of the source's minimum scans: `if (d < minDist) minDist = d`. */
  function MinStep(acc: Ext, d: Ext): Ext {
    if Lt(d, acc) then d else acc
  }

  /** The value of a minimum scan over `ds` that starts at `Infinity`: the least entry,
      or `Inf` when no entry is finite. */
  function MinOf(ds: seq<Ext>): (m: Ext)
    ensures forall i :: 0 <= i < |ds| ==> Le(m, ds[i])
    ensures m.Inf? <==> forall i :: 0 <= i < |ds| ==> ds[i].Inf?
    ensures m.Fin? ==> exists i :: 0 <= i < |ds| && ds[i] == m
  {
    if |ds| == 0 then Inf
    else
      var rest := MinOf(ds[..|ds| - 1]);
      assert forall i :: 0 <= i < |ds| - 1 ==> ds[..|ds| - 1][i] == ds[i];
      MinStep(rest, ds[|ds| - 1])
  }

  /** `Math.max(a, b)`. */
  function Max(a: real, b: real): real {
    if b > a then b else a
  }

  /** The value of a maximum scan over `xs` that starts at 0 (`Math.max(acc, x)`). */
  function MaxOf(xs: seq<real>): (m: real)
    ensures m >= 0.0
    ensures forall i :: 0 <= i < |xs| ==> xs[i] <= m
    ensures m == 0.0 || exists i :: 0 <= i < |xs| && xs[i] == m
  {
    if |xs| == 0 then 0.0
    else
      var rest := MaxOf(xs[..|xs| - 1]);
      assert forall i :: 0 <= i < |xs| - 1 ==> xs[..|xs| - 1][i] == xs[i];
      if xs[|xs| - 1] > rest then xs[|xs| - 1] else rest
  }

  /** The value of a counter that is incremented for every `true` entry. */
  function CountTrue(bs: seq<bool>): (n: nat)
    ensures n <= |bs|
  {
    if |bs| == 0 then 0
    else CountTrue(bs[..|bs| - 1]) + (if bs[|bs| - 1] then 1 else 0)
  }

  /** The positions of the `true` entries, in increasing order. */
  function Positions(bs: seq<bool>): (idx: seq<nat>)
    ensures forall k :: 0 <= k < |idx| ==> idx[k] < |bs| && bs[idx[k]]
    ensures forall k, l :: 0 <= k < l < |idx| ==> idx[k] < idx[l]
    ensures forall i :: 0 <= i < |bs| && bs[i] ==> i in idx
  {
    if |bs| == 0 then []
    else
      var n := |bs| - 1;
      var rest := Positions(bs[..n]);
      var idx := rest + if bs[n] then [n] else [];
      assert forall k :: 0 <= k < |rest| ==> idx[k] == rest[k];
      idx
  }

  /** A dictionary filled by assigning `vs[i]` to `keys[i]` for i = 0, 1, ...: a later
      assignment to the same key overwrites an earlier one. */
  function Keyed<V>(keys: seq<string>, vs: seq<V>): map<string, V>
    requires |keys| == |vs|
  {
    if |keys| == 0 then map[]
    else
      var n := |keys| - 1;
      Keyed(keys[..n], vs[..n])[keys[n] := vs[n]]
  }

  /** The step of a loop that makes assignment i. */
  lemma KeyedStep<V>(keys: seq<string>, vs: seq<V>, i: nat)
    requires |keys| == |vs| && i < |keys|
    ensures Keyed(keys[..i + 1], vs[..i + 1]) == Keyed(keys[..i], vs[..i])[keys[i] := vs[i]]
  {
    assert keys[..i + 1][..i] == keys[..i];
    assert vs[..i + 1][..i] == vs[..i];
  }

  /** The dictionary has an entry for exactly the keys assigned. */
  lemma {:induction false} KeyedKeys<V>(keys: seq<string>, vs: seq<V>)
    requires |keys| == |vs|
    ensures forall k :: k in Keyed(keys, vs) <==> k in keys
  {
    if |keys| > 0 {
      var n := |keys| - 1;
      KeyedKeys(keys[..n], vs[..n]);
      assert keys == keys[..n] + [keys[n]];
    }
  }

  /** Each key holds the value of its last assignment. */
  lemma {:induction false} KeyedLastWins<V>(keys: seq<string>, vs: seq<V>, k: string)
    requires |keys| == |vs| && k in keys
    ensures k in Keyed(keys, vs)
    ensures exists i :: (0 <= i < |keys| && keys[i] == k && Keyed(keys, vs)[k] == vs[i] &&
      forall j :: 0 <= j < |keys| && keys[j] == k ==> j <= i)
  {
    KeyedKeys(keys, vs);
    var n := |keys| - 1;
    if keys[n] == k {
      assert forall j :: 0 <= j < |keys| && keys[j] == k ==> j <= n;
    } else {
      var front := keys[..n];
      assert keys == front + [keys[n]];
      assert k in front;
      KeyedLastWins(front, vs[..n], k);
      var i :| 0 <= i < |front| && front[i] == k && Keyed(front, vs[..n])[k] == vs[..n][i] &&
        forall j :: 0 <= j < |front| && front[j] == k ==> j <= i;
      forall j | 0 <= j < |keys| && keys[j] == k
        ensures j <= i
      {
        assert j < n && front[j] == keys[j];
      }
    }
  }

  /** A counter equals the number of positions whose entry is `true`. */
  lemma {:induction false} CountTrueIsCardinality(bs: seq<bool>)
    ensures CountTrue(bs) == |set i | 0 <= i < |bs| && bs[i]|
  {
    if |bs| > 0 {
      var n := |bs| - 1;
      var front := bs[..n];
      CountTrueIsCardinality(front);
      var before := set i | 0 <= i < n && front[i];
      var all := set i | 0 <= i < |bs| && bs[i];
      assert before == set i | 0 <= i < n && bs[i];
      if bs[n] {
        assert all == before + {n};
        assert n !in before;
      } else {
        assert all == before;
      }
    }
  }

  /** Two counters that split the `true` entries of a third between them add up to it. */
  lemma {:induction false} CountTrueSplit(whole: seq<bool>, left: seq<bool>, right: seq<bool>)
    requires |left| == |whole| && |right| == |whole|
    requires forall i :: 0 <= i < |whole| ==> (whole[i] <==> left[i] || right[i])
    requires forall i :: 0 <= i < |whole| ==> !(left[i] && right[i])
    ensures CountTrue(whole) == CountTrue(left) + CountTrue(right)
  {
    if |whole| > 0 {
      var n := |whole| - 1;
      CountTrueSplit(whole[..n], left[..n], right[..n]);
    }
  }

  /** A step of a minimum scan, as the loops of the source perform it. */
  lemma MinOfAppend(ds: seq<Ext>, d: Ext)
    ensures MinOf(ds + [d]) == MinStep(MinOf(ds), d)
  {
    assert (ds + [d])[..|ds|] == ds;
  }

  /** The step of a minimum scan that visits entry i. */
  lemma MinOfStep(ds: seq<Ext>, i: nat)
    requires i < |ds|
    ensures MinOf(ds[..i + 1]) == MinStep(MinOf(ds[..i]), ds[i])
  {
    assert ds[..i + 1] == ds[..i] + [ds[i]];
    MinOfAppend(ds[..i], ds[i]);
  }

  lemma MaxOfAppend(xs: seq<real>, x: real)
    ensures MaxOf(xs + [x]) == Max(MaxOf(xs), x)
  {
    assert (xs + [x])[..|xs|] == xs;
  }

  lemma CountTrueAppend(bs: seq<bool>, b: bool)
    ensures CountTrue(bs + [b]) == CountTrue(bs) + if b then 1 else 0
  {
    assert (bs + [b])[..|bs|] == bs;
  }

  /** The step of a counting loop that visits entry i. */
  lemma CountTrueStep(bs: seq<bool>, i: nat)
    requires i < |bs|
    ensures CountTrue(bs[..i + 1]) == CountTrue(bs[..i]) + if bs[i] then 1 else 0
  {
    assert bs[..i + 1][..i] == bs[..i];
  }

  /** Raising one entry of a maximum scan moves the maximum to `Math.max` of the old maximum
      and the new entry, whichever entry held the old maximum. */
  lemma {:induction false} MaxOfRaise(xs: seq<real>, i: nat, y: real)
    requires i < |xs| && xs[i] <= y
    ensures MaxOf(xs[i := y]) == Max(MaxOf(xs), y)
  {
    var n := |xs| - 1;
    var ys := xs[i := y];
    MaxOfLast(xs);
    MaxOfLast(ys);
    var rest := MaxOf(xs[..n]);
    if i < n {
      assert ys[..n] == xs[..n][i := y];
      MaxOfRaise(xs[..n], i, y);
      assert MaxOf(ys) == Max(Max(rest, y), xs[n]);
    } else {
      assert ys[..n] == xs[..n];
      assert MaxOf(ys) == Max(rest, y);
    }
  }

  /** The last step of a maximum scan. */
  lemma MaxOfLast(xs: seq<real>)
    requires |xs| > 0
    ensures MaxOf(xs) == Max(MaxOf(xs[..|xs| - 1]), xs[|xs| - 1])
  {
  }

  /** Changing the value of a key's last assignment changes that key's entry and no other. */
  lemma {:induction false} KeyedUpdate<V>(keys: seq<string>, vs: seq<V>, i: nat, v: V)
    requires |keys| == |vs| && i < |keys|
    requires forall j :: i < j < |keys| ==> keys[j] != keys[i]
    ensures Keyed(keys, vs[i := v]) == Keyed(keys, vs)[keys[i] := v]
  {
    var n := |keys| - 1;
    if i < n {
      assert vs[i := v][..n] == vs[..n][i := v];
      KeyedUpdate(keys[..n], vs[..n], i, v);
    } else {
      assert vs[i := v][..n] == vs[..n];
    }
  }

  // Small facts of real arithmetic the proofs below rely on; each isolates one
  // non-linear step so that the solver never has to find it on its own.

  lemma MulPos(x: real, y: real)
    requires x > 0.0 && y > 0.0
    ensures x * y > 0.0
  {
  }

  lemma MulNonNeg(x: real, y: real)
    requires x >= 0.0 && y >= 0.0
    ensures x * y >= 0.0
  {
  }

  /** The square of a real, kept behind a name so that facts about it are not lost
      among the solver's non-linear terms. */
  function Sq(x: real): real { x * x }

  lemma SquarePos(x: real)
    requires x != 0.0
    ensures Sq(x) > 0.0
  {
    if x > 0.0 {
      calc {
        Sq(x);
        x * x;
      >  { assert x * x > 0.0 * x; }
        0.0;
      }
    } else {
      calc {
        Sq(x);
        (-x) * (-x);
      >  { assert (-x) * (-x) > 0.0 * (-x); }
        0.0;
      }
    }
  }

  lemma SquareNonNeg(x: real)
    ensures Sq(x) >= 0.0
    ensures x != 0.0 ==> Sq(x) > 0.0
  {
    if x != 0.0 { SquarePos(x); } else { assert Sq(x) == 0.0; }
  }

  /** A sum of two squares is zero exactly when both terms are. */
  lemma SumOfSquares(x: real, y: real)
    ensures Sq(x) + Sq(y) >= 0.0
    ensures Sq(x) + Sq(y) == 0.0 <==> x == 0.0 && y == 0.0
  {
    SquareNonNeg(x);
    SquareNonNeg(y);
  }

  lemma MulMonoLe(a: real, b: real, c: real)
    requires a <= b && c >= 0.0
    ensures a * c <= b * c
  {
    MulNonNeg(b - a, c);
    assert (b - a) * c == b * c - a * c;
  }

  lemma MulMonoLt(a: real, b: real, c: real)
    requires a < b && c > 0.0
    ensures a * c < b * c
  {
    MulPos(b - a, c);
    assert (b - a) * c == b * c - a * c;
  }

  lemma DivUnique(x: real, z: real, q: real)
    requires z != 0.0 && q * z == x
    ensures x / z == q
  {
  }

  lemma MulDiv(x: real, y: real, z: real)
    requires z != 0.0
    ensures x * y / z == x * (y / z)
  {
    var q := y / z;
    assert q * z == y;
    DivUnique(x * y, z, x * q);
  }

  /** A quotient s / n with n > 0 lies between lo and hi when s lies between n * lo and n * hi. */
  lemma QuotientBetween(s: real, n: real, lo: real, hi: real)
    requires n > 0.0 && n * lo <= s <= n * hi
    ensures lo <= s / n <= hi
  {
    var q := s / n;
    assert q * n == s;
    if q < lo { MulMonoLt(q, lo, n); }
    if q > hi { MulMonoLt(hi, q, n); }
  }

  /** A quotient grows with its numerator. */
  lemma DivMonoNumerator(a: real, b: real, c: real)
    requires a <= b && c > 0.0
    ensures a / c <= b / c
  {
    var qa, qb := a / c, b / c;
    assert qa * c == a && qb * c == b;
    if qb < qa { MulMonoLt(qb, qa, c); }
  }

  /** A quotient of a non-negative numerator shrinks as its positive denominator grows. */
  lemma DivMonoDenominator(a: real, c: real, d: real)
    requires a >= 0.0 && 0.0 < c <= d
    ensures a / d <= a / c
  {
    var qc, qd := a / c, a / d;
    assert qc * c == a && qd * d == a;
    if qd > qc { MulMonoLt(qc, qd, c); }
  }
}
