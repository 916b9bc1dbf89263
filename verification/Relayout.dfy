/**
 Re-placing the screens of a multi-monitor layout after one of them changed size
 (anduinos-oobe/assets/display_scaling.py, the geometry of build_config).
 */
module Relayout {
  import opened Sequences

  datatype Pos = Pos(x: int, y: int)

  /** A logical size; rounding has left at least one unit in each direction. */
  datatype Size = Size(w: int, h: int)

  datatype Rect = Rect(at: Pos, size: Size)

  /** On which side of one screen another one is attached. */
  datatype Side = RightOf | LeftOf | Below | Above | Apart

  predicate RowsOverlap(a: Rect, b: Rect) {
    Max(a.at.y, b.at.y) < Min(a.at.y + a.size.h, b.at.y + b.size.h)
  }

  predicate ColumnsOverlap(a: Rect, b: Rect) {
    Max(a.at.x, b.at.x) < Min(a.at.x + a.size.w, b.at.x + b.size.w)
  }

  /** Two screens share a piece of an edge at least one unit long. */
  function Touch(a: Rect, b: Rect): Side {
    if RowsOverlap(a, b) && b.at.x == a.at.x + a.size.w then RightOf
    else if RowsOverlap(a, b) && b.at.x + b.size.w == a.at.x then LeftOf
    else if ColumnsOverlap(a, b) && b.at.y == a.at.y + a.size.h then Below
    else if ColumnsOverlap(a, b) && b.at.y + b.size.h == a.at.y then Above
    else Apart
  }

  predicate Proper(s: Size) {
    s.w >= 1 && s.h >= 1
  }

  /** The offset along a shared edge, clamped so that one unit of overlap remains. */
  function Clamp(offset: int, other: int, room: int): int {
    Min(Max(offset, 1 - other), room - 1)
  }

  /** Where screen `b` goes, next to the new place of the screen `a` it is attached to. */
  function Attach(side: Side, a: Rect, b: Rect, a': Rect, size: Size): Pos {
    var dx := Clamp(b.at.x - a.at.x, size.w, a'.size.w);
    var dy := Clamp(b.at.y - a.at.y, size.h, a'.size.h);
    match side
    case RightOf => Pos(a'.at.x + a'.size.w, a'.at.y + dy)
    case LeftOf => Pos(a'.at.x - size.w, a'.at.y + dy)
    case Below => Pos(a'.at.x + dx, a'.at.y + a'.size.h)
    case Above => Pos(a'.at.x + dx, a'.at.y - size.h)
    case Apart => b.at
  }

  /** Attached screens stay attached, on the same side. */
  lemma AttachTouches(side: Side, a: Rect, b: Rect, a': Rect, size: Size)
    requires side != Apart && Proper(a'.size) && Proper(size)
    ensures Touch(a', Rect(Attach(side, a, b, a', size), size)) == side
  {
  }

  /** How far along their common edge screen `b` starts after screen `a`. */
  function Offset(side: Side, a: Rect, b: Rect): int {
    if side == RightOf || side == LeftOf then b.at.y - a.at.y else b.at.x - a.at.x
  }

  /** The place on that side of `a` with offset `d`. */
  function Beside(side: Side, a: Rect, size: Size, d: int): Pos {
    match side
    case RightOf => Pos(a.at.x + a.size.w, a.at.y + d)
    case LeftOf => Pos(a.at.x - size.w, a.at.y + d)
    case Below => Pos(a.at.x + d, a.at.y + a.size.h)
    case Above => Pos(a.at.x + d, a.at.y - size.h)
    case Apart => a.at
  }

  function Distance(a: int, b: int): nat {
    if a < b then b - a else a - b
  }

  /** Of all places on its side of `a'` where `b'` would touch it, none comes closer to the old offset. */
  ghost predicate Nearest(side: Side, a: Rect, b: Rect, a': Rect, b': Rect) {
    forall d :: Touch(a', Rect(Beside(side, a', b'.size, d), b'.size)) == side ==>
      Distance(Offset(side, a', b'), Offset(side, a, b)) <= Distance(d, Offset(side, a, b))
  }

  lemma AttachNearest(side: Side, a: Rect, b: Rect, a': Rect, size: Size)
    requires side != Apart && Proper(a'.size) && Proper(size)
    ensures Nearest(side, a, b, a', Rect(Attach(side, a, b, a', size), size))
  {
  }

  predicate HasRow(a: Rect, y: int) {
    a.at.y <= y < a.at.y + a.size.h
  }

  predicate HasColumn(a: Rect, x: int) {
    a.at.x <= x < a.at.x + a.size.w
  }

  /** The overlap of rows or columns is a row or column that both screens have. */
  lemma OverlapMeans(a: Rect, b: Rect)
    ensures RowsOverlap(a, b) <==> exists y :: HasRow(a, y) && HasRow(b, y)
    ensures ColumnsOverlap(a, b) <==> exists x :: HasColumn(a, x) && HasColumn(b, x)
  {
    var x, y := Max(a.at.x, b.at.x), Max(a.at.y, b.at.y);
    assert RowsOverlap(a, b) ==> HasRow(a, y) && HasRow(b, y);
    assert ColumnsOverlap(a, b) ==> HasColumn(a, x) && HasColumn(b, x);
  }

  /** If no size changes, the clamps do not bind, and a screen keeps its place relative to its neighbour. */
  lemma AttachKeeps(a: Rect, b: Rect)
    requires Touch(a, b) != Apart
    ensures Attach(Touch(a, b), a, b, a, b.size) == b.at
  {
  }

  /** Whether two screens share an edge does not depend on which is asked. */
  lemma TouchSymmetric(a: Rect, b: Rect)
    ensures Touch(a, b) != Apart <==> Touch(b, a) != Apart
  {
  }

  // ---------------------------------------------------------------- layouts

  ghost predicate Joined(rs: seq<Rect>, i: nat, j: nat) {
    i < |rs| && j < |rs| && Touch(rs[i], rs[j]) != Apart
  }

  /** Screen `t` can be reached from screen `f` across shared edges. */
  ghost predicate Linked(rs: seq<Rect>, f: nat, t: nat) {
    exists p :: Route(rs, p, f, t)
  }

  ghost predicate Route(rs: seq<Rect>, p: seq<nat>, f: nat, t: nat) {
    && |p| > 0 && p[0] == f && p[|p| - 1] == t
    && (forall i :: 0 <= i < |p| ==> p[i] < |rs|)
    && (forall i :: 0 <= i < |p| - 1 ==> Joined(rs, p[i], p[i + 1]))
  }

  ghost predicate Connected(rs: seq<Rect>, f: nat) {
    forall t: nat :: t < |rs| ==> Linked(rs, f, t)
  }

  lemma LinkedStep(rs: seq<Rect>, f: nat, i: nat, j: nat)
    requires Linked(rs, f, i) && Joined(rs, i, j)
    ensures Linked(rs, f, j)
  {
    var p :| Route(rs, p, f, i);
    var q := p + [j];
    forall k | 0 <= k < |q| - 1
      ensures Joined(rs, q[k], q[k + 1])
    {
      if k < |p| - 1 {
        assert q[k] == p[k] && q[k + 1] == p[k + 1];
      }
    }
    assert Route(rs, q, f, j);
  }

  lemma {:induction false} LinkedVia(rs: seq<Rect>, f: nat, m: nat, p: seq<nat>, t: nat)
    requires Linked(rs, f, m) && Route(rs, p, m, t)
    ensures Linked(rs, f, t)
    decreases |p|
  {
    if |p| > 1 {
      var k := |p| - 2;
      var front := p[..k + 1];
      assert forall i :: 0 <= i < |front| - 1 ==> Joined(rs, p[i], p[i + 1]);
      LinkedVia(rs, f, m, front, p[k]);
      assert Joined(rs, p[k], p[k + 1]);
      LinkedStep(rs, f, p[k], t);
    }
  }

  lemma {:induction false} LinkedBack(rs: seq<Rect>, f: nat, p: seq<nat>, t: nat)
    requires Route(rs, p, f, t)
    ensures Linked(rs, t, f)
    decreases |p|
  {
    if |p| > 1 {
      var k := |p| - 2;
      var front := p[..k + 1];
      assert forall i :: 0 <= i < |front| - 1 ==> Joined(rs, p[i], p[i + 1]);
      LinkedBack(rs, f, front, p[k]);
      assert Joined(rs, p[k], p[k + 1]);
      TouchSymmetric(rs[p[k]], rs[t]);
      assert Route(rs, [t, p[k]], t, p[k]);
      var q :| Route(rs, q, p[k], f);
      LinkedVia(rs, t, p[k], q, f);
    }
  }

  /** Being connected does not depend on the screen one starts from. */
  lemma ConnectedAnywhere(rs: seq<Rect>, f: nat, g: nat)
    requires f < |rs| && g < |rs| && Connected(rs, f)
    ensures Connected(rs, g)
  {
    assert Linked(rs, f, g);
    var p :| Route(rs, p, f, g);
    LinkedBack(rs, f, p, g);
    forall t: nat | t < |rs|
      ensures Linked(rs, g, t)
    {
      assert Linked(rs, f, t);
      var q :| Route(rs, q, f, t);
      LinkedVia(rs, g, f, q, t);
    }
  }

  /** A set of screens that contains `f` and all neighbours of its members contains all that is linked to `f`. */
  lemma {:induction false} ClosedHolds(rs: seq<Rect>, placed: set<nat>, p: seq<nat>, f: nat, t: nat)
    requires f in placed && Route(rs, p, f, t)
    requires forall i, j :: i in placed && Joined(rs, i, j) ==> j in placed
    ensures t in placed
    decreases |p|
  {
    if |p| > 1 {
      var front := p[..|p| - 1];
      assert forall k :: 0 <= k < |front| - 1 ==> Joined(rs, p[k], p[k + 1]);
      ClosedHolds(rs, placed, front, f, p[|p| - 2]);
      assert Joined(rs, p[|p| - 2], p[|p| - 2 + 1]);
    }
  }

  // ---------------------------------------------------------------- the spanning tree

  function Shape(pos: seq<Pos>, sizes: seq<Size>): seq<Rect>
    requires |pos| == |sizes|
  {
    seq(|pos|, i requires 0 <= i < |pos| => Rect(pos[i], sizes[i]))
  }

  /** In the new layout, `j` hangs on the same side of `i` as before, as near to its old offset as can be. */
  ghost predicate Hangs(rs: seq<Rect>, rs': seq<Rect>, i: nat, j: nat) {
    && i < |rs| == |rs'| && j < |rs|
    && Touch(rs[i], rs[j]) != Apart
    && Touch(rs'[i], rs'[j]) == Touch(rs[i], rs[j])
    && Nearest(Touch(rs[i], rs[j]), rs[i], rs[j], rs'[i], rs'[j])
  }

  /** The screen hangs on the first of its old neighbours in `order`. */
  ghost predicate HangsOnEarlier(rs: seq<Rect>, rs': seq<Rect>, order: seq<nat>, k: nat)
    requires k < |order|
  {
    exists m :: 0 <= m < k && Hangs(rs, rs', order[m], order[k]) && NoneBefore(rs, order, m, order[k])
  }

  ghost predicate NoneBefore(rs: seq<Rect>, order: seq<nat>, m: nat, j: nat) {
    forall e :: 0 <= e < m && e < |order| ==> !Joined(rs, order[e], j)
  }

  /** `order` starts at the primary screen, and every further screen hangs on an earlier one: breadth-first. */
  ghost predicate Tree(rs: seq<Rect>, rs': seq<Rect>, order: seq<nat>, primary: nat) {
    && |rs| == |rs'|
    && |order| > 0 && order[0] == primary && Distinct(order)
    && (forall k :: 0 <= k < |order| ==> order[k] < |rs|)
    && (forall k :: 0 < k < |order| ==> HangsOnEarlier(rs, rs', order, k))
  }

  lemma {:induction false} TreeLinked(rs: seq<Rect>, rs': seq<Rect>, order: seq<nat>, primary: nat, k: nat)
    requires Tree(rs, rs', order, primary) && k < |order|
    ensures Linked(rs, primary, order[k]) && Linked(rs', primary, order[k])
    decreases k
  {
    if k == 0 {
      assert Route(rs, [primary], primary, primary);
      assert Route(rs', [primary], primary, primary);
    } else {
      assert HangsOnEarlier(rs, rs', order, k);
      var m :| 0 <= m < k && Hangs(rs, rs', order[m], order[k]);
      TreeLinked(rs, rs', order, primary, m);
      LinkedStep(rs, primary, order[m], order[k]);
      LinkedStep(rs', primary, order[m], order[k]);
    }
  }

  /** Hanging one more screen leaves the screens already placed where they are. */
  lemma TreeGrows(rs: seq<Rect>, pos: seq<Pos>, sizes: seq<Size>, order: seq<nat>, primary: nat, m: nat, j: nat)
    requires |pos| == |sizes| == |rs|
    requires forall i :: 0 <= i < |sizes| ==> Proper(sizes[i])
    requires Tree(rs, Shape(pos, sizes), order, primary)
    requires m < |order| && j < |rs| && j !in order && Touch(rs[order[m]], rs[j]) != Apart
    requires NoneBefore(rs, order, m, j)
    ensures var i := order[m];
            var at := Attach(Touch(rs[i], rs[j]), rs[i], rs[j], Rect(pos[i], sizes[i]), sizes[j]);
            Tree(rs, Shape(pos[j := at], sizes), order + [j], primary)
  {
    var i := order[m];
    var side := Touch(rs[i], rs[j]);
    var at := Attach(side, rs[i], rs[j], Rect(pos[i], sizes[i]), sizes[j]);
    var before, after, order' := Shape(pos, sizes), Shape(pos[j := at], sizes), order + [j];
    DistinctSnoc(order, j);
    forall k | 0 < k < |order'|
      ensures HangsOnEarlier(rs, after, order', k)
    {
      if k < |order| {
        assert HangsOnEarlier(rs, before, order, k);
        var e :| 0 <= e < k && Hangs(rs, before, order[e], order[k]) && NoneBefore(rs, order, e, order[k]);
        assert Hangs(rs, after, order'[e], order'[k]) && NoneBefore(rs, order', e, order'[k]);
      } else {
        AttachTouches(side, rs[i], rs[j], Rect(pos[i], sizes[i]), sizes[j]);
        AttachNearest(side, rs[i], rs[j], Rect(pos[i], sizes[i]), sizes[j]);
        assert Hangs(rs, after, order'[m], order'[k]) && NoneBefore(rs, order', m, order'[k]);
      }
    }
  }

  // ---------------------------------------------------------------- the breadth-first placement

  /** One screen after another is hung on a placed neighbour, breadth-first from the primary screen. */
  method PlaceAll(rs: seq<Rect>, sizes: seq<Size>, primary: nat) returns (pos: seq<Pos>, queue: seq<nat>)
    requires |rs| == |sizes| && primary < |rs|
    requires forall i :: 0 <= i < |sizes| ==> Proper(sizes[i])
    ensures |pos| == |rs| && Tree(rs, Shape(pos, sizes), queue, primary)
    ensures forall i, j :: i in queue && Joined(rs, i, j) ==> j in queue
    ensures pos[primary] == rs[primary].at
    ensures (forall i :: 0 <= i < |rs| ==> sizes[i] == rs[i].size) ==> forall i :: 0 <= i < |rs| ==> pos[i] == rs[i].at
  {
    pos := seq(|rs|, i requires 0 <= i < |rs| => rs[i].at);
    queue := [primary];
    var k := 0;
    while k < |queue|
      invariant 0 <= k <= |queue|
      invariant |pos| == |rs| && Tree(rs, Shape(pos, sizes), queue, primary)
      invariant forall m, j :: 0 <= m < k && Joined(rs, queue[m], j) ==> j in queue
      invariant pos[primary] == rs[primary].at
      invariant (forall i :: 0 <= i < |rs| ==> sizes[i] == rs[i].size) ==>
                  forall i :: 0 <= i < |rs| ==> pos[i] == rs[i].at
      decreases |rs| - k
    {
      QueueFits(queue, |rs|);
      var i := queue[k];
      for j := 0 to |rs|
        invariant k < |queue| && queue[k] == i
        invariant |pos| == |rs| && Tree(rs, Shape(pos, sizes), queue, primary)
        invariant forall m, j' :: 0 <= m < k && Joined(rs, queue[m], j') ==> j' in queue
        invariant forall j' :: 0 <= j' < j && Joined(rs, i, j') ==> j' in queue
        invariant pos[primary] == rs[primary].at
        invariant (forall i :: 0 <= i < |rs| ==> sizes[i] == rs[i].size) ==>
                    forall i :: 0 <= i < |rs| ==> pos[i] == rs[i].at
      {
        var side := Touch(rs[i], rs[j]);
        if j !in queue && side != Apart {
          TreeGrows(rs, pos, sizes, queue, primary, k, j);
          if sizes[i] == rs[i].size && sizes[j] == rs[j].size {
            AttachKeeps(rs[i], rs[j]);
          }
          pos := pos[j := Attach(side, rs[i], rs[j], Rect(pos[i], sizes[i]), sizes[j])];
          queue := queue + [j];
        }
      }
      k := k + 1;
    }
  }

  ghost function Range(n: nat): set<nat> {
    if n == 0 then {} else Range(n - 1) + {n - 1}
  }

  lemma {:induction false} RangeHolds(n: nat)
    ensures |Range(n)| == n && forall t: nat :: t in Range(n) <==> t < n
  {
    if n > 0 {
      RangeHolds(n - 1);
    }
  }

  lemma QueueFits(queue: seq<nat>, n: nat)
    requires Distinct(queue) && forall k :: 0 <= k < |queue| ==> queue[k] < n
    ensures |queue| <= n
    ensures |queue| == n <==> forall t: nat :: t < n ==> t in queue
  {
    RangeHolds(n);
    DistinctFits(queue, Range(n));
    if forall t: nat :: t < n ==> t in queue {
      DistinctSize(queue);
      assert ToSet(queue) == Range(n);
    }
  }

  // ---------------------------------------------------------------- the whole operation

  function Shifted(pos: seq<Pos>, d: Pos): seq<Pos> {
    seq(|pos|, i requires 0 <= i < |pos| => Pos(pos[i].x - d.x, pos[i].y - d.y))
  }

  /** Every screen has moved by the same distance. */
  ghost predicate MovedBy(rs: seq<Rect>, pos: seq<Pos>, d: Pos) {
    |pos| == |rs| && forall i :: 0 <= i < |rs| ==> pos[i] == Pos(rs[i].at.x - d.x, rs[i].at.y - d.y)
  }

  /** The least x and the least y of all screens. */
  method Corner(pos: seq<Pos>) returns (d: Pos)
    requires |pos| > 0
    ensures forall i :: 0 <= i < |pos| ==> d.x <= pos[i].x && d.y <= pos[i].y
    ensures (exists i :: 0 <= i < |pos| && pos[i].x == d.x) && exists i :: 0 <= i < |pos| && pos[i].y == d.y
  {
    d := pos[0];
    for k := 1 to |pos|
      invariant forall i :: 0 <= i < k ==> d.x <= pos[i].x && d.y <= pos[i].y
      invariant (exists i :: 0 <= i < k && pos[i].x == d.x) && exists i :: 0 <= i < k && pos[i].y == d.y
    {
      d := Pos(Min(d.x, pos[k].x), Min(d.y, pos[k].y));
    }
  }

  lemma ShiftKeepsTree(rs: seq<Rect>, pos: seq<Pos>, sizes: seq<Size>, order: seq<nat>, primary: nat, d: Pos)
    requires |pos| == |sizes| && Tree(rs, Shape(pos, sizes), order, primary)
    ensures Tree(rs, Shape(Shifted(pos, d), sizes), order, primary)
  {
    var before, after := Shape(pos, sizes), Shape(Shifted(pos, d), sizes);
    forall k | 0 < k < |order|
      ensures HangsOnEarlier(rs, after, order, k)
    {
      assert HangsOnEarlier(rs, before, order, k);
      var e :| 0 <= e < k && Hangs(rs, before, order[e], order[k]) && NoneBefore(rs, order, e, order[k]);
      ShiftKeepsHang(rs, before, after, order[e], order[k], d);
    }
  }

  lemma ShiftKeepsHang(rs: seq<Rect>, before: seq<Rect>, after: seq<Rect>, i: nat, j: nat, d: Pos)
    requires Hangs(rs, before, i, j) && |after| == |before|
    requires after[i] == Moved(before[i], d) && after[j] == Moved(before[j], d)
    ensures Hangs(rs, after, i, j)
  {
    ShiftKeepsTouch(before[i], before[j], d);
    ShiftKeepsNearest(rs[i], rs[j], before[i], before[j], d);
  }

  lemma ShiftKeepsNearest(a: Rect, b: Rect, a': Rect, b': Rect, d: Pos)
    requires Nearest(Touch(a, b), a, b, a', b')
    ensures Nearest(Touch(a, b), a, b, Moved(a', d), Moved(b', d))
  {
    var side := Touch(a, b);
    forall o | Touch(Moved(a', d), Rect(Beside(side, Moved(a', d), b'.size, o), b'.size)) == side
      ensures Touch(a', Rect(Beside(side, a', b'.size, o), b'.size)) == side
    {
      ShiftKeepsTouch(a', Rect(Beside(side, a', b'.size, o), b'.size), d);
    }
  }

  function Moved(a: Rect, d: Pos): Rect {
    Rect(Pos(a.at.x - d.x, a.at.y - d.y), a.size)
  }

  lemma ShiftKeepsTouch(a: Rect, b: Rect, d: Pos)
    ensures Touch(Moved(a, d), Moved(b, d)) == Touch(a, b)
  {
  }

  /**
   build_config's geometry. It succeeds exactly when the old screens are connected across shared
   edges; then every screen hangs on the same side of a screen placed before it as in the old
   layout, the new layout is connected and its least x and y are 0; and if no size changes, the
   layout only moves as a whole.
   */
  method Relayout(rs: seq<Rect>, sizes: seq<Size>, primary: nat) returns (r: Option<seq<Pos>>, ghost order: seq<nat>)
    requires |rs| == |sizes| && primary < |rs|
    requires forall i :: 0 <= i < |sizes| ==> Proper(sizes[i])
    ensures r.Some? <==> Connected(rs, primary)
    ensures r.Some? ==> |r.value| == |rs| && |order| == |rs| && Tree(rs, Shape(r.value, sizes), order, primary)
    ensures r.Some? ==> Connected(Shape(r.value, sizes), primary)
    ensures r.Some? ==> forall i :: 0 <= i < |rs| ==> r.value[i].x >= 0 && r.value[i].y >= 0
    ensures r.Some? ==> exists i :: 0 <= i < |rs| && r.value[i].x == 0
    ensures r.Some? ==> exists i :: 0 <= i < |rs| && r.value[i].y == 0
    ensures r.Some? && (forall i :: 0 <= i < |rs| ==> sizes[i] == rs[i].size) ==>
              exists d :: MovedBy(rs, r.value, d)
  {
    var pos, queue := PlaceAll(rs, sizes, primary);
    order := queue;
    QueueFits(queue, |rs|);
    Completeness(rs, Shape(pos, sizes), queue, primary);
    if |queue| != |rs| {
      return None, order;
    }
    var d := Corner(pos);
    var out := Shifted(pos, d);
    ShiftKeepsTree(rs, pos, sizes, queue, primary, d);
    AllHung(rs, Shape(out, sizes), queue, primary);
    assert (forall i :: 0 <= i < |rs| ==> pos[i] == rs[i].at) ==> MovedBy(rs, out, d);
    ghost var i :| 0 <= i < |pos| && pos[i].x == d.x;
    ghost var j :| 0 <= j < |pos| && pos[j].y == d.y;
    assert out[i].x == 0 && out[j].y == 0;
    r := Some(out);
  }

  /** The queue holds exactly the screens that are linked to the primary one. */
  lemma Completeness(rs: seq<Rect>, rs': seq<Rect>, queue: seq<nat>, primary: nat)
    requires Tree(rs, rs', queue, primary)
    requires forall i, j :: i in queue && Joined(rs, i, j) ==> j in queue
    ensures |queue| == |rs| <==> Connected(rs, primary)
  {
    QueueFits(queue, |rs|);
    if |queue| == |rs| {
      AllHung(rs, rs', queue, primary);
    }
    if Connected(rs, primary) {
      forall t: nat | t < |rs|
        ensures t in queue
      {
        assert Linked(rs, primary, t);
        var p :| Route(rs, p, primary, t);
        ClosedHolds(rs, ToSet(queue), p, primary, t);
      }
    }
  }

  lemma AllHung(rs: seq<Rect>, rs': seq<Rect>, queue: seq<nat>, primary: nat)
    requires Tree(rs, rs', queue, primary) && |queue| == |rs|
    ensures Connected(rs, primary) && Connected(rs', primary)
  {
    QueueFits(queue, |rs|);
    forall t: nat | t < |rs|
      ensures Linked(rs, primary, t) && Linked(rs', primary, t)
    {
      assert t in queue;
      var k :| 0 <= k < |queue| && queue[k] == t;
      TreeLinked(rs, rs', queue, primary, k);
    }
  }
}
