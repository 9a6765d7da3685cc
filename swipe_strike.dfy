/**
 * The 3x3 swipe-pattern mini-game: a stroke over a grid of nine nodes in a
 * 300x300 coordinate space collects, in order of first contact, every node
 * whose centre lies within the hit radius of a sampled pointer position;
 * releasing the pointer awards ten points per collected node, and a deferred
 * timer empties the path afterwards.
 */
module SwipeStrike {
  import opened Options

  /** A pointer position, already converted to the 300x300 grid space. */
  datatype Point = Point(x: real, y: real)

  /** One entry of the node table. */
  datatype Node = Node(id: nat, x: real, y: real)

  /** The live segment from the last collected node to the pointer. */
  datatype Segment = Segment(from: Point, to: Point)

  /** The nine grid nodes, in id order. */
  const Nodes: seq<Node> := [
    Node(0, 50.0, 50.0),  Node(1, 150.0, 50.0),  Node(2, 250.0, 50.0),
    Node(3, 50.0, 150.0), Node(4, 150.0, 150.0), Node(5, 250.0, 150.0),
    Node(6, 50.0, 250.0), Node(7, 150.0, 250.0), Node(8, 250.0, 250.0)
  ]

  const HitRadius: real := 35.0

  /** Points awarded per collected node when a stroke is released. */
  const PointsPerNode: nat := 10

  /** Node `i` sits on row `i / 3`, column `i % 3`, 100 units apart. */
  lemma NodeLayout(i: nat)
    requires i < |Nodes|
    ensures |Nodes| == 9
    ensures Nodes[i].id == i
    ensures Nodes[i].x == 50.0 + 100.0 * ((i % 3) as real)
    ensures Nodes[i].y == 50.0 + 100.0 * ((i / 3) as real)
  {
  }

  /** Where node `id` is drawn (`nodes[id]` in the render code). */
  function Centre(id: nat): (p: Point)
    requires id < |Nodes|
    ensures p.x == 50.0 + 100.0 * ((id % 3) as real)
    ensures p.y == 50.0 + 100.0 * ((id / 3) as real)
  {
    NodeLayout(id);
    Point(Nodes[id].x, Nodes[id].y)
  }

  /**
   * `Math.hypot(node.x - p.x, node.y - p.y) < HIT_RADIUS`, squared on both
   * sides. A node in range is less than 35 units away along each axis, and a
   * pointer on the centre is in range.
   */
  predicate Near(node: Node, p: Point): (near: bool)
    ensures near ==> -HitRadius < node.x - p.x < HitRadius
    ensures near ==> -HitRadius < node.y - p.y < HitRadius
    ensures node.x == p.x && node.y == p.y ==> near
  {
    var dx, dy := node.x - p.x, node.y - p.y;
    dx * dx + dy * dy < HitRadius * HitRadius
  }

  /** The pointer at `p` is within the hit radius of node `id`. */
  predicate Hits(id: nat, p: Point) {
    id < |Nodes| && Near(Nodes[id], p)
  }

  /** A stroke's path: distinct node ids, each naming a node of the grid. */
  predicate WellFormed(path: seq<nat>) {
    && (forall i, j :: 0 <= i < j < |path| ==> path[i] != path[j])
    && (forall i :: 0 <= i < |path| ==> path[i] < |Nodes|)
  }

  // ---------------------------------------------------------------------------
  // Geometry: one sample can hit at most one node.

  /** Two distinct grid nodes are at least 100 units apart along some axis. */
  lemma NodesApart(i: nat, j: nat)
    requires i < |Nodes| && j < |Nodes| && i != j
    ensures Nodes[i].x - Nodes[j].x >= 100.0 || Nodes[j].x - Nodes[i].x >= 100.0
         || Nodes[i].y - Nodes[j].y >= 100.0 || Nodes[j].y - Nodes[i].y >= 100.0
  {
  }

  /** Since 2 * 35 < 100, no pointer position is within range of two nodes. */
  lemma AtMostOneHit(p: Point, i: nat, j: nat)
    ensures Hits(i, p) && Hits(j, p) ==> i == j
  {
    if i < |Nodes| && j < |Nodes| && i != j {
      NodesApart(i, j);
    }
  }

  // ---------------------------------------------------------------------------
  // The collision check as a function of the old path.

  /**
   * The path after the `forEach` over the first `k` nodes: each node in range
   * and not yet in the path is appended.
   */
  function Scan(path: seq<nat>, p: Point, k: nat): (r: seq<nat>)
    requires k <= |Nodes|
    ensures path <= r && |r| <= |path| + k
    ensures forall j :: |path| <= j < |r| ==> r[j] < k && Hits(r[j], p)
  {
    if k == 0 then path
    else
      var prev := Scan(path, p, k - 1);
      var node := Nodes[k - 1];
      if Near(node, p) && node.id !in prev then prev + [node.id] else prev
  }

  /**
   * The scan over the first `k` nodes appends the one node in range when it is
   * new, and otherwise leaves the path as it was.
   */
  lemma {:induction false} ScanAppendsHit(path: seq<nat>, p: Point, k: nat)
    requires k <= |Nodes|
    ensures forall i :: 0 <= i < k && Hits(i, p) && i !in path ==> Scan(path, p, k) == path + [i]
    ensures (forall i :: 0 <= i < k && Hits(i, p) ==> i in path) ==> Scan(path, p, k) == path
  {
    if k > 0 {
      ScanAppendsHit(path, p, k - 1);
      NodeLayout(k - 1);
      if Hits(k - 1, p) {
        forall i | 0 <= i < k - 1 ensures !Hits(i, p) {
          AtMostOneHit(p, i, k - 1);
        }
      }
    }
  }

  /** `checkNodeCollision(coords)`: a missing position leaves the path alone. */
  function Collide(path: seq<nat>, coords: Option<Point>): (r: seq<nat>)
    ensures path <= r
    ensures coords.None? ==> r == path
    ensures coords.Some? ==> forall j :: |path| <= j < |r| ==> Hits(r[j], coords.value)
  {
    match coords
    case None => path
    case Some(p) => Scan(path, p, |Nodes|)
  }

  /**
   * One collision check is append-only and adds at most one id: the node in
   * range if it is new, and nothing otherwise.
   */
  lemma CollideAppendsAtMostOne(path: seq<nat>, coords: Option<Point>)
    ensures coords.None? ==> Collide(path, coords) == path
    ensures coords.Some? ==>
      forall i :: Hits(i, coords.value) && i !in path ==> Collide(path, coords) == path + [i]
    ensures coords.Some? && (forall i :: Hits(i, coords.value) ==> i in path) ==>
      Collide(path, coords) == path
    ensures path <= Collide(path, coords) && |Collide(path, coords)| <= |path| + 1
  {
    if coords.Some? {
      var p := coords.value;
      ScanAppendsHit(path, p, |Nodes|);
      if exists i :: Hits(i, p) && i !in path {
        var i :| Hits(i, p) && i !in path;
        assert Collide(path, coords) == path + [i];
      }
    }
  }

  /** Checking the same position twice collects the same as checking it once. */
  lemma CollideIdempotent(path: seq<nat>, coords: Option<Point>)
    ensures Collide(Collide(path, coords), coords) == Collide(path, coords)
  {
    var once := Collide(path, coords);
    CollideAppendsAtMostOne(path, coords);
    CollideAppendsAtMostOne(once, coords);
    if coords.Some? {
      var p := coords.value;
      forall i | Hits(i, p) ensures i in once {
        if i !in path {
          assert once == path + [i];
        }
      }
    }
  }

  /** The collision check keeps the path free of duplicates and of unknown ids. */
  lemma CollidePreservesWellFormed(path: seq<nat>, coords: Option<Point>)
    requires WellFormed(path)
    ensures WellFormed(Collide(path, coords))
  {
    CollideAppendsAtMostOne(path, coords);
    if coords.Some? {
      var p := coords.value;
      if exists i :: Hits(i, p) && i !in path {
        var i :| Hits(i, p) && i !in path;
        var r := path + [i];
        assert Collide(path, coords) == r;
        forall a, b | 0 <= a < b < |r| ensures r[a] != r[b] {
          if b == |path| {
            assert r[a] == path[a];
          }
        }
      }
    }
  }

  // ---------------------------------------------------------------------------
  // A well-formed path names at most nine nodes.

  /** The ids 0 to n - 1. */
  function Below(n: nat): set<nat> {
    if n == 0 then {} else Below(n - 1) + {n - 1}
  }

  lemma {:induction false} BelowSize(n: nat)
    ensures forall x: nat :: x in Below(n) <==> x < n
    ensures |Below(n)| == n
  {
    if n > 0 {
      BelowSize(n - 1);
      assert n - 1 !in Below(n - 1);
    }
  }

  function Elements(s: seq<nat>): set<nat> {
    set x | x in s
  }

  lemma {:induction false} DistinctElements(s: seq<nat>)
    requires forall i, j :: 0 <= i < j < |s| ==> s[i] != s[j]
    ensures |Elements(s)| == |s|
  {
    if s != [] {
      var init := s[..|s| - 1];
      DistinctElements(init);
      assert Elements(s) == Elements(init) + {s[|s| - 1]};
      assert s[|s| - 1] !in Elements(init);
    }
  }

  lemma SubsetSize(a: set<nat>, b: set<nat>)
    requires a <= b
    ensures |a| <= |b|
  {
    assert b == a + (b - a);
  }

  /** No duplicates and ids below 9 together bound the path length by 9. */
  lemma PathLengthBound(path: seq<nat>)
    requires WellFormed(path)
    ensures |path| <= |Nodes|
  {
    DistinctElements(path);
    BelowSize(|Nodes|);
    assert Elements(path) <= Below(|Nodes|);
    SubsetSize(Elements(path), Below(|Nodes|));
  }

  // ---------------------------------------------------------------------------
  // Rendering.

  /** Per node of the table, whether it is drawn highlighted (`path.includes(node.id)`). */
  function Highlights(path: seq<nat>): (flags: seq<bool>)
    ensures |flags| == |Nodes|
    ensures forall k :: 0 <= k < |Nodes| ==> (flags[k] <==> k in path)
  {
    var flags := seq(|Nodes|, k requires 0 <= k < |Nodes| => Nodes[k].id in path);
    assert forall k :: 0 <= k < |Nodes| ==> (flags[k] <==> k in path) by {
      forall k | 0 <= k < |Nodes| ensures flags[k] <==> k in path { NodeLayout(k); }
    }
    flags
  }

  /** The confirmed polyline, drawn only once two nodes are collected. */
  function Polyline(path: seq<nat>): (points: Option<seq<Point>>)
    requires WellFormed(path)
    ensures points.Some? <==> |path| >= 2
    ensures points.Some? ==> |points.value| == |path|
    ensures points.Some? ==> forall k :: 0 <= k < |path| ==> points.value[k] == Centre(path[k])
  {
    if |path| > 1 then Some(seq(|path|, k requires 0 <= k < |path| => Centre(path[k]))) else None
  }

  /** Distinct ids are drawn at distinct centres. */
  lemma CentresDistinct(i: nat, j: nat)
    requires i < |Nodes| && j < |Nodes| && i != j
    ensures Centre(i) != Centre(j)
  {
  }

  /** The polyline never passes through the same node twice. */
  lemma PolylineVisitsOnce(path: seq<nat>)
    requires WellFormed(path) && |path| >= 2
    ensures forall a, b :: 0 <= a < b < |path| ==> Polyline(path).value[a] != Polyline(path).value[b]
  {
  }

  /** The live segment from the last collected node to the pointer. */
  function LiveLine(isDrawing: bool, path: seq<nat>, pointer: Option<Point>): (line: Option<Segment>)
    requires WellFormed(path)
    ensures line.Some? <==> isDrawing && path != [] && pointer.Some?
    ensures line.Some? ==> line.value == Segment(Centre(path[|path| - 1]), pointer.value)
  {
    if isDrawing && |path| > 0 && pointer.Some? then
      Some(Segment(Centre(path[|path| - 1]), pointer.value))
    else None
  }

  /** Once a sample in range of a node is collected, nothing highlighted goes dark. */
  lemma HighlightsGrow(path: seq<nat>, coords: Option<Point>)
    ensures forall k :: 0 <= k < |Nodes| && Highlights(path)[k] ==> Highlights(Collide(path, coords))[k]
    ensures coords.Some? ==>
      forall k: nat :: Hits(k, coords.value) ==> Highlights(Collide(path, coords))[k]
  {
    CollideAppendsAtMostOne(path, coords);
    if coords.Some? {
      forall k: nat | Hits(k, coords.value) ensures k in Collide(path, coords) {
        if k !in path {
          assert Collide(path, coords) == path + [k];
        }
      }
    }
  }

  /**
   * While drawing, a sample that collects a new node anchors the live segment
   * at that node, less than the hit radius from the pointer.
   */
  lemma LiveLineFollowsHit(path: seq<nat>, p: Point, id: nat)
    requires WellFormed(path) && Hits(id, p) && id !in path
    ensures WellFormed(Collide(path, Some(p)))
    ensures LiveLine(true, Collide(path, Some(p)), Some(p)) == Some(Segment(Centre(id), p))
  {
    CollidePreservesWellFormed(path, Some(p));
    CollideAppendsAtMostOne(path, Some(p));
  }

  class Game {
    var score: nat
    var path: seq<nat>
    var isDrawing: bool
    var pointer: Option<Point>
    /** Deferred path clears scheduled by released strokes and not yet run. */
    var pendingClears: nat

    ghost predicate Valid()
      reads this
    {
      && WellFormed(path)
      && score % PointsPerNode == 0
      && (!isDrawing ==> pointer.None?)
    }

    /** The widget as mounted. */
    constructor ()
      ensures Valid()
      ensures score == 0 && path == [] && !isDrawing && pointer.None? && pendingClears == 0
    {
      score := 0;
      path := [];
      isDrawing := false;
      pointer := None;
      pendingClears := 0;
    }

    /** `checkNodeCollision`: the `forEach` over the node table. */
    method CheckNodeCollision(coords: Option<Point>)
      requires Valid()
      modifies this`path
      ensures Valid()
      ensures path == Collide(old(path), coords)
    {
      CollidePreservesWellFormed(path, coords);
      if coords.None? {
        return;
      }
      var p := coords.value;
      for k := 0 to |Nodes|
        invariant path == Scan(old(path), p, k)
      {
        var node := Nodes[k];
        if Near(node, p) {
          if node.id !in path {
            path := path + [node.id];
          }
        }
      }
    }

    /** `handlePointerDown`: starts drawing without clearing a leftover path. */
    method PointerDown(coords: Option<Point>)
      requires Valid()
      modifies this
      ensures Valid()
      ensures isDrawing && pointer == coords
      ensures path == Collide(old(path), coords)
      ensures score == old(score) && pendingClears == old(pendingClears)
    {
      isDrawing := true;
      pointer := coords;
      CheckNodeCollision(coords);
    }

    /** `handlePointerMove`: ignored unless drawing. */
    method PointerMove(coords: Option<Point>)
      requires Valid()
      modifies this
      ensures Valid()
      ensures !old(isDrawing) ==> unchanged(this)
      ensures old(isDrawing) ==> isDrawing && pointer == coords && path == Collide(old(path), coords)
      ensures score == old(score) && pendingClears == old(pendingClears)
    {
      if !isDrawing {
        return;
      }
      pointer := coords;
      CheckNodeCollision(coords);
    }

    /**
     * `handlePointerUp` (also pointer-leave and pointer-cancel): ends the stroke,
     * awards ten points per collected node and schedules the path clear.
     */
    method PointerUp()
      requires Valid()
      modifies this
      ensures Valid()
      ensures !old(isDrawing) ==> unchanged(this)
      ensures old(isDrawing) ==> !isDrawing && pointer.None?
      ensures path == old(path)
      ensures score == old(score) + (if old(isDrawing) then PointsPerNode * |old(path)| else 0)
      ensures pendingClears == old(pendingClears) + (if old(isDrawing) && old(path) != [] then 1 else 0)
    {
      if !isDrawing {
        return;
      }
      isDrawing := false;
      pointer := None;
      if |path| > 0 {
        score := score + |path| * PointsPerNode;
        pendingClears := pendingClears + 1;
      }
    }

    /** The deferred `setPath([])` scheduled by a released stroke. */
    method ClearTimerFires()
      requires Valid() && pendingClears > 0
      modifies this
      ensures Valid()
      ensures path == [] && pendingClears == old(pendingClears) - 1
      ensures score == old(score) && isDrawing == old(isDrawing) && pointer == old(pointer)
    {
      path := [];
      pendingClears := pendingClears - 1;
    }
  }

  /** A sample at a node's centre hits that node and no other. */
  lemma CentreHitsOnly(id: nat)
    requires id < |Nodes|
    ensures forall i :: Hits(i, Centre(id)) <==> i == id
  {
  }

  /** A sample in range of node `id` collects that node unless the path holds it. */
  lemma CollideInRange(path: seq<nat>, p: Point, id: nat)
    requires Hits(id, p)
    ensures Collide(path, Some(p)) == if id in path then path else path + [id]
  {
    CollideAppendsAtMostOne(path, Some(p));
    forall i | Hits(i, p) ensures i == id {
      AtMostOneHit(p, i, id);
    }
  }

  /**
   * A stroke sampled within range of nodes 0, 4 and 8, then of node 0 again,
   * collects exactly [0, 4, 8].
   */
  lemma DiagonalStroke(p0: Point, p4: Point, p8: Point)
    requires Hits(0, p0) && Hits(4, p4) && Hits(8, p8)
    ensures Collide(Collide(Collide(Collide([], Some(p0)), Some(p4)), Some(p8)), Some(p0)) == [0, 4, 8]
  {
    CollideInRange([], p0, 0);
    var first := Collide([], Some(p0));
    assert first == [0];
    CollideInRange(first, p4, 4);
    var second := Collide(first, Some(p4));
    assert second == [0, 4];
    CollideInRange(second, p8, 8);
    var third := Collide(second, Some(p8));
    assert third == [0, 4, 8];
    CollideInRange(third, p0, 0);
  }

  /** A stroke that never comes within range of a node scores nothing. */
  method EmptyStroke() {
    var game := new Game();
    var corner := Point(0.0, 0.0);
    forall i: nat ensures !Hits(i, corner) {
      if i < |Nodes| {
        NodeLayout(i);
      }
    }
    CollideAppendsAtMostOne([], Some(corner));
    game.PointerDown(Some(corner));
    game.PointerUp();
    assert game.path == [] && game.score == 0 && game.pendingClears == 0;
  }

  /**
   * A stroke begun before the previous stroke's clear has run starts from the
   * previous path: its nodes are not collected again, and releasing scores
   * them a second time.
   */
  method StrokeBeforeClear(p0: Point, p8: Point)
    requires Hits(0, p0) && Hits(8, p8)
  {
    CollideInRange([], p0, 0);
    CollideInRange([0], p8, 8);
    ghost var first := Collide([], Some(p0));
    ghost var second := Collide([0], Some(p8));
    assert first == [0] && second == [0, 8];
    var game := new Game();
    game.PointerDown(Some(p0));
    game.PointerUp();
    assert game.path == [0] && game.score == 10;
    game.PointerDown(Some(p8));
    assert game.path == [0, 8];
    game.PointerUp();
    assert game.score == 30 && game.pendingClears == 2;
  }
}
