/**
 Distributing the columns of the disk bar over its segments by the largest-remainder method
 (anduinos-installer-beta/src/pages.py, _manual_segment_spans), in exact arithmetic and for any
 positive, strictly increasing weight of a segment's size.
 */
module SegmentSpans {
  import opened Sequences

  ghost predicate Weighing(w: int -> real) {
    && (forall x :: x >= 1 ==> w(x) > 0.0)
    && (forall x, y :: 1 <= x < y ==> w(x) < w(y))
  }

  function Total(n: nat): int {
    Max(100, n * 6)
  }

  function Minimum(n: nat): int {
    Min(6, Total(n) / Max(1, n))
  }

  function Sum(s: seq<int>): int {
    if s == [] then 0 else Sum(s[..|s| - 1]) + s[|s| - 1]
  }

  function RealSum(s: seq<real>): real {
    if s == [] then 0.0 else RealSum(s[..|s| - 1]) + s[|s| - 1]
  }

  function Weights(sizes: seq<int>, w: int -> real): seq<real> {
    seq(|sizes|, i requires 0 <= i < |sizes| => w(Max(1, sizes[i])))
  }

  /** The exact shares of the columns that remain after every segment has its minimum. */
  function Shares(sizes: seq<int>, w: int -> real): seq<real>
    requires RealSum(Weights(sizes, w)) > 0.0
  {
    var weights := Weights(sizes, w);
    var remaining := (Total(|sizes|) - Minimum(|sizes|) * |sizes|) as real;
    seq(|sizes|, i requires 0 <= i < |sizes| => Share(remaining, weights[i], RealSum(weights)))
  }

  // ---------------------------------------------------------------- sums

  lemma {:induction false} WeightsPositive(sizes: seq<int>, w: int -> real)
    requires Weighing(w) && sizes != []
    ensures RealSum(Weights(sizes, w)) > 0.0
    decreases |sizes|
  {
    var ws, front := Weights(sizes, w), sizes[..|sizes| - 1];
    assert ws[..|ws| - 1] == Weights(front, w);
    assert ws[|ws| - 1] == w(Max(1, sizes[|sizes| - 1])) > 0.0;
    if front != [] {
      WeightsPositive(front, w);
    } else {
      assert RealSum(Weights(front, w)) == 0.0;
    }
  }

  /** The part of `r` that goes to a weight `x` out of a total `t`. */
  function Share(r: real, x: real, t: real): real
    requires t > 0.0
  {
    r * x / t
  }

  lemma ShareAdds(r: real, a: real, b: real, t: real)
    requires t > 0.0
    ensures Share(r, a, t) + Share(r, b, t) == Share(r, a + b, t)
  {
  }

  lemma ShareOfAll(r: real, t: real)
    requires t > 0.0
    ensures Share(r, t, t) == r
  {
  }

  lemma {:induction false} ShareSum(weights: seq<real>, shares: seq<real>, r: real, t: real)
    requires |shares| == |weights| && t > 0.0
    requires forall i :: 0 <= i < |weights| ==> shares[i] == Share(r, weights[i], t)
    ensures RealSum(shares) == Share(r, RealSum(weights), t)
    decreases |weights|
  {
    if weights != [] {
      var n := |weights| - 1;
      ShareSum(weights[..n], shares[..n], r, t);
      ShareAdds(r, RealSum(weights[..n]), weights[n], t);
    }
  }

  /** The exact shares add up to what remains. */
  lemma SharesSum(sizes: seq<int>, w: int -> real)
    requires RealSum(Weights(sizes, w)) > 0.0
    ensures RealSum(Shares(sizes, w)) == (Total(|sizes|) - Minimum(|sizes|) * |sizes|) as real
  {
    var weights, r := Weights(sizes, w), (Total(|sizes|) - Minimum(|sizes|) * |sizes|) as real;
    ShareSum(weights, Shares(sizes, w), r, RealSum(weights));
    ShareOfAll(r, RealSum(weights));
  }

  lemma {:induction false} SumUpdate(s: seq<int>, k: nat, x: int)
    requires k < |s|
    ensures Sum(s[k := x]) == Sum(s) - s[k] + x
    decreases |s|
  {
    var front := s[..|s| - 1];
    if k < |s| - 1 {
      SumUpdate(front, k, x);
      assert s[k := x][..|s| - 1] == front[k := x];
    } else {
      assert s[k := x][..|s| - 1] == front;
    }
  }

  lemma UnevenSnoc(e: seq<real>, n: nat)
    requires |e| == n + 1
    ensures |Uneven(e)| == |Uneven(e[..n])| + if Fraction(e[n]) > 0.0 then 1 else 0
  {
    var fewer := Uneven(e[..n]);
    assert n !in fewer;
    assert Uneven(e) == if Fraction(e[n]) > 0.0 then fewer + {n} else fewer;
  }

  /** Rounding every share down loses less than one column per segment. */
  lemma {:induction false} FloorsSum(e: seq<real>, base: int, f: seq<int>)
    requires |f| == |e| && forall i :: 0 <= i < |e| ==> f[i] == base + e[i].Floor
    ensures Sum(f) as real <= RealSum(e) + (base * |e|) as real
    ensures RealSum(e) - (Sum(f) - base * |e|) as real <= |Uneven(e)| as real
    decreases |e|
  {
    if e != [] {
      var n := |e| - 1;
      FloorsSum(e[..n], base, f[..n]);
      UnevenSnoc(e, n);
      FloorStep(RealSum(e[..n]), Sum(f[..n]), base * n, |Uneven(e[..n])|, base, e[n]);
      assert base * |e| == base * n + base;
    }
  }

  lemma FloorStep(r: real, s: int, m: int, u: nat, base: int, x: real)
    requires s as real <= r + m as real && r - (s - m) as real <= u as real
    ensures (s + (base + x.Floor)) as real <= r + x + (m + base) as real
    ensures r + x - (s + (base + x.Floor) - (m + base)) as real <= (u + if Fraction(x) > 0.0 then 1 else 0) as real
  {
  }

  function Fraction(x: real): real {
    x - x.Floor as real
  }

  /** The positions whose share is not a whole number. */
  ghost function Uneven(e: seq<real>): set<nat> {
    set i: nat | i < |e| && Fraction(e[i]) > 0.0
  }

  // ---------------------------------------------------------------- the order

  /** Position `a` comes before position `b`: a larger fraction, or the same and further left. */
  predicate Before(e: seq<real>, a: nat, b: nat)
    requires a < |e| && b < |e|
  {
    Fraction(e[a]) > Fraction(e[b]) || (Fraction(e[a]) == Fraction(e[b]) && a < b)
  }

  ghost predicate InOrder(e: seq<real>, order: seq<nat>) {
    && (forall k :: 0 <= k < |order| ==> order[k] < |e|)
    && (forall i, j :: 0 <= i < j < |order| ==> Before(e, order[i], order[j]))
  }

  lemma OrderDistinct(e: seq<real>, order: seq<nat>)
    requires InOrder(e, order)
    ensures Distinct(order)
  {
  }

  /** Positions by falling fraction; equal fractions keep their order, as a stable sort does. */
  method Sorted(e: seq<real>) returns (order: seq<nat>)
    ensures |order| == |e| && InOrder(e, order)
    ensures forall i: nat :: i < |e| ==> i in order
  {
    order := [];
    for i := 0 to |e|
      invariant |order| == i && InOrder(e, order)
      invariant forall k :: 0 <= k < |order| ==> order[k] < i
      invariant forall j: nat :: j < i ==> j in order
    {
      var at := 0;
      while at < |order| && Before(e, order[at], i)
        invariant 0 <= at <= |order|
        invariant forall k :: 0 <= k < at ==> Before(e, order[k], i)
      {
        at := at + 1;
      }
      ghost var was := order;
      order := order[..at] + [i] + order[at..];
      InsertKeepsOrder(e, was, at, i);
      assert order[at] == i;
      assert forall j: nat :: j in was ==> j in was[..at] || j in was[at..];
    }
  }

  lemma InsertKeepsOrder(e: seq<real>, order: seq<nat>, at: nat, i: nat)
    requires InOrder(e, order) && at <= |order| && i < |e| && i !in order
    requires forall k :: 0 <= k < at ==> Before(e, order[k], i)
    requires at < |order| ==> !Before(e, order[at], i)
    ensures InOrder(e, order[..at] + [i] + order[at..])
  {
  }

  // ---------------------------------------------------------------- the spans

  /** Every segment has its rounded share, and the first `extra` positions of the order one column more. */
  ghost predicate Apportioned(e: seq<real>, base: int, order: seq<nat>, extra: nat, spans: seq<int>) {
    && |spans| == |e| && extra <= |order|
    && forall i: nat :: i < |e| ==> spans[i] == base + e[i].Floor + if i in order[..extra] then 1 else 0
  }

  /** A whole share gets no extra column: there are never more of them than uneven shares. */
  lemma WholeSharesStay(e: seq<real>, order: seq<nat>, extra: nat, i: nat)
    requires InOrder(e, order) && (forall j: nat :: j < |e| ==> j in order)
    requires extra <= |order| && extra <= |Uneven(e)|
    requires i in order[..extra]
    ensures Fraction(e[i]) > 0.0
  {
    var k :| 0 <= k < extra && order[k] == i;
    if Fraction(e[i]) <= 0.0 {
      var early := order[..k];
      forall j | j in Uneven(e)
        ensures j in ToSet(early)
      {
        assert j in order;
        var m :| 0 <= m < |order| && order[m] == j;
        assert early[m] == j;
      }
      OrderDistinct(e, order);
      DistinctSize(early);
      SubsetSize(Uneven(e), ToSet(early));
    }
  }

  /** What the source promises of the spans, given the exact shares. */
  ghost predicate Fair(e: seq<real>, base: int, spans: seq<int>) {
    && |spans| == |e|
    && (forall i :: 0 <= i < |e| ==>
          && base <= spans[i]
          && -1.0 < spans[i] as real - (base as real + e[i]) < 1.0)
    && (forall i, j :: 0 <= i < |e| && 0 <= j < |e| && e[i] > e[j] ==> spans[i] >= spans[j])
    && (forall i, j :: 0 <= i < |e| && 0 <= j < |e| && e[i] == e[j] == 0.0 ==> spans[i] == spans[j])
  }

  /** The rounded-down shares, and one column more for the largest remainders, the first among equals. */
  ghost predicate LargestFirst(e: seq<real>, base: int, spans: seq<int>) {
    && |spans| == |e|
    && (forall i :: 0 <= i < |e| ==> spans[i] == base + e[i].Floor || spans[i] == base + e[i].Floor + 1)
    && (forall i, j :: 0 <= i < |e| && 0 <= j < |e| && spans[i] > base + e[i].Floor && spans[j] == base + e[j].Floor ==>
          || e[i] - e[i].Floor as real > e[j] - e[j].Floor as real
          || (e[i] - e[i].Floor as real == e[j] - e[j].Floor as real && i < j))
  }

  lemma ApportionedLargest(e: seq<real>, base: int, order: seq<nat>, extra: nat, spans: seq<int>)
    requires InOrder(e, order) && (forall j: nat :: j < |e| ==> j in order)
    requires Apportioned(e, base, order, extra, spans)
    ensures LargestFirst(e, base, spans)
  {
    forall i: nat, j: nat | i < |e| && j < |e| && i in order[..extra] && j !in order[..extra]
      ensures Before(e, i, j)
    {
      var a :| 0 <= a < extra && order[a] == i;
      assert j in order;
      var b :| 0 <= b < |order| && order[b] == j;
    }
  }

  lemma ApportionedFair(e: seq<real>, base: int, order: seq<nat>, extra: nat, spans: seq<int>)
    requires InOrder(e, order) && (forall j: nat :: j < |e| ==> j in order)
    requires Apportioned(e, base, order, extra, spans) && extra <= |Uneven(e)|
    requires forall i :: 0 <= i < |e| ==> e[i] >= 0.0
    ensures Fair(e, base, spans)
  {
    forall i: nat | i < |e|
      ensures base <= spans[i] && -1.0 < spans[i] as real - (base as real + e[i]) < 1.0
      ensures e[i] == 0.0 ==> spans[i] == base
    {
      if i in order[..extra] {
        WholeSharesStay(e, order, extra, i);
      }
    }
    forall i: nat, j: nat | i < |e| && j < |e| && e[i] > e[j]
      ensures spans[i] >= spans[j]
    {
      LargerNotSmaller(e, base, order, extra, spans, i, j);
    }
  }

  lemma LargerNotSmaller(e: seq<real>, base: int, order: seq<nat>, extra: nat, spans: seq<int>, i: nat, j: nat)
    requires InOrder(e, order) && (forall j: nat :: j < |e| ==> j in order)
    requires Apportioned(e, base, order, extra, spans)
    requires i < |e| && j < |e| && e[i] > e[j]
    ensures spans[i] >= spans[j]
  {
    assert e[i].Floor >= e[j].Floor;
    if e[i].Floor == e[j].Floor && j in order[..extra] {
      var m :| 0 <= m < extra && order[m] == j;
      assert i in order;
      var k :| 0 <= k < |order| && order[k] == i;
      assert k > m ==> Before(e, order[m], order[k]);
      assert order[..extra][k] == i;
    }
  }

  /** The loop that hands out the missing columns in the given order. */
  method HandOut(e: seq<real>, base: int, floors: seq<int>, order: seq<nat>, missing: nat) returns (spans: seq<int>)
    requires |floors| == |e| && forall i :: 0 <= i < |e| ==> floors[i] == base + e[i].Floor
    requires Distinct(order) && missing <= |order| && forall k :: 0 <= k < |order| ==> order[k] < |e|
    ensures Apportioned(e, base, order, missing, spans) && Sum(spans) == Sum(floors) + missing
  {
    spans := floors;
    for k := 0 to missing
      invariant Apportioned(e, base, order, k, spans)
      invariant Sum(spans) == Sum(floors) + k
    {
      SumUpdate(spans, order[k], spans[order[k]] + 1);
      assert order[..k + 1] == order[..k] + [order[k]];
      assert order[k] !in order[..k];
      spans := spans[order[k] := spans[order[k]] + 1];
    }
  }

  /** Lines 4533-4542: round down, then hand out what is missing. */
  method Apportion(e: seq<real>, base: int, total: int) returns (spans: seq<int>)
    requires forall i :: 0 <= i < |e| ==> e[i] >= 0.0
    requires RealSum(e) == (total - base * |e|) as real
    ensures Fair(e, base, spans) && Sum(spans) == total && LargestFirst(e, base, spans)
  {
    var floors := seq(|e|, i requires 0 <= i < |e| => base + e[i].Floor);
    var missing := total - Sum(floors);
    MissingFits(e, base, floors, total);
    var order := Sorted(e);
    UnevenFits(e);
    OrderDistinct(e, order);
    spans := HandOut(e, base, floors, order, missing);
    ApportionedFair(e, base, order, missing, spans);
    ApportionedLargest(e, base, order, missing, spans);
  }

  lemma MissingFits(e: seq<real>, base: int, floors: seq<int>, total: int)
    requires |floors| == |e| && forall i :: 0 <= i < |e| ==> floors[i] == base + e[i].Floor
    requires RealSum(e) == (total - base * |e|) as real
    ensures 0 <= total - Sum(floors) <= |Uneven(e)|
  {
    FloorsSum(e, base, floors);
    var most, sum, room := base * |e|, Sum(floors), |Uneven(e)|;
    assert sum as real <= (total - most) as real + most as real;
    assert (total - most) as real - (sum - most) as real <= room as real;
  }

  lemma {:induction false} UnevenFits(e: seq<real>)
    ensures |Uneven(e)| <= |e|
    decreases |e|
  {
    if e != [] {
      var n := |e| - 1;
      UnevenFits(e[..n]);
      assert Uneven(e) == if Fraction(e[n]) > 0.0 then Uneven(e[..n]) + {n} else Uneven(e[..n]);
    }
  }

  /** Sixteen segments fit a track of a hundred columns with six each; more make the track longer. */
  lemma TotalMeans(n: nat)
    ensures Total(n) == if n <= 16 then 100 else 6 * n
  {
  }

  /** A share is the part of the columns beyond six each that the weight is of all weights. */
  lemma ShareMeans(sizes: seq<int>, w: int -> real, total: int, i: nat)
    requires RealSum(Weights(sizes, w)) > 0.0 && i < |sizes| && total == Total(|sizes|)
    ensures Shares(sizes, w)[i] == Part(total - 6 * |sizes|, w(if sizes[i] < 1 then 1 else sizes[i]), Weights(sizes, w))
  {
    var n, weights := |sizes|, Weights(sizes, w);
    MinimumIsSix(n);
    assert Minimum(n) * n == 6 * n;
    assert Max(1, sizes[i]) == if sizes[i] < 1 then 1 else sizes[i];
    assert weights[i] == w(if sizes[i] < 1 then 1 else sizes[i]);
    assert Shares(sizes, w)[i] == Share((Total(n) - Minimum(n) * n) as real, weights[i], RealSum(weights));
  }

  function Part(columns: int, weight: real, weights: seq<real>): real
    requires RealSum(weights) > 0.0
  {
    columns as real * weight / RealSum(weights)
  }

  /**
   _manual_segment_spans: for every non-empty list the spans fill the track exactly, every segment
   has at least six columns and is within one column of its exact share, and a larger segment
   (sizes below 1 count as 1) never gets fewer columns.
   */
  method Spans(sizes: seq<int>, w: int -> real) returns (total: int, spans: seq<int>)
    requires Weighing(w)
    ensures total == (if |sizes| <= 16 then 100 else 6 * |sizes|) && |spans| == |sizes|
    ensures sizes != [] ==> Sum(spans) == total
    ensures sizes != [] ==> RealSum(Weights(sizes, w)) > 0.0
    ensures forall i :: 0 <= i < |sizes| ==> spans[i] >= 6
    ensures forall i :: 0 <= i < |sizes| ==>
              var share := Part(total - 6 * |sizes|, w(if sizes[i] < 1 then 1 else sizes[i]), Weights(sizes, w));
              -1.0 < spans[i] as real - (6.0 + share) < 1.0
    ensures forall i, j :: 0 <= i < |sizes| && 0 <= j < |sizes| && Max(1, sizes[i]) > Max(1, sizes[j]) ==>
              spans[i] >= spans[j]
  {
    total, spans := Distribute(sizes, w);
    TotalMeans(|sizes|);
    forall i | 0 <= i < |sizes|
      ensures Shares(sizes, w)[i] ==
              Part(total - 6 * |sizes|, w(if sizes[i] < 1 then 1 else sizes[i]), Weights(sizes, w))
    {
      ShareMeans(sizes, w, total, i);
    }
  }

  method Distribute(sizes: seq<int>, w: int -> real) returns (total: int, spans: seq<int>)
    requires Weighing(w)
    ensures total == Total(|sizes|) && |spans| == |sizes|
    ensures sizes != [] ==> Sum(spans) == total
    ensures sizes != [] ==> RealSum(Weights(sizes, w)) > 0.0
    ensures forall i :: 0 <= i < |sizes| ==>
              && spans[i] >= 6
              && -1.0 < spans[i] as real - (6.0 + Shares(sizes, w)[i]) < 1.0
    ensures forall i, j :: 0 <= i < |sizes| && 0 <= j < |sizes| && Max(1, sizes[i]) > Max(1, sizes[j]) ==>
              spans[i] >= spans[j]
  {
    total := Total(|sizes|);
    if sizes == [] {
      return total, [];
    }
    WeightsPositive(sizes, w);
    SharesSum(sizes, w);
    MinimumIsSix(|sizes|);
    var exact := Shares(sizes, w);
    SharesOrdered(sizes, w);
    spans := Apportion(exact, Minimum(|sizes|), total);
  }

  lemma MinimumIsSix(n: nat)
    requires n > 0
    ensures Minimum(n) == 6 && Total(n) >= 6 * n
  {
  }

  /** Shares are not negative; a heavier segment has the larger share, unless nothing remains to share. */
  lemma SharesOrdered(sizes: seq<int>, w: int -> real)
    requires Weighing(w) && sizes != [] && RealSum(Weights(sizes, w)) > 0.0
    ensures forall i :: 0 <= i < |sizes| ==> Shares(sizes, w)[i] >= 0.0
    ensures forall i, j :: 0 <= i < |sizes| && 0 <= j < |sizes| && Max(1, sizes[i]) > Max(1, sizes[j]) ==>
              || Shares(sizes, w)[i] > Shares(sizes, w)[j]
              || (Shares(sizes, w)[i] == 0.0 && Shares(sizes, w)[j] == 0.0)
  {
    MinimumIsSix(|sizes|);
    var weights := Weights(sizes, w);
    var remaining, total := (Total(|sizes|) - Minimum(|sizes|) * |sizes|) as real, RealSum(weights);
    forall i, j | 0 <= i < |sizes| && 0 <= j < |sizes|
      ensures Shares(sizes, w)[i] >= 0.0
      ensures Max(1, sizes[i]) > Max(1, sizes[j]) ==>
                Shares(sizes, w)[i] > Shares(sizes, w)[j] || (Shares(sizes, w)[i] == 0.0 && Shares(sizes, w)[j] == 0.0)
    {
      assert weights[i] == w(Max(1, sizes[i])) && weights[j] == w(Max(1, sizes[j]));
      ShareGrows(remaining, weights[i], weights[j], total);
    }
  }

  lemma ShareGrows(r: real, x: real, y: real, t: real)
    requires r >= 0.0 && x > 0.0 && y > 0.0 && t > 0.0
    ensures Share(r, x, t) >= 0.0
    ensures x > y ==> Share(r, x, t) > Share(r, y, t) || (Share(r, x, t) == 0.0 && Share(r, y, t) == 0.0)
  {
  }
}
