/** The tree records and the per-frame harvest / respawn rules of `handleTreeInteraction`,
    as functions of one tree and of the whole list. The class `Game` runs the loop itself
    and is proved to produce exactly what these functions describe. */
module Trees {
  import opened Options
  import opened Collision

  /** Health of a freshly spawned or respawned tree. */
  const MaxHealth: int := 5
  /** Seconds a destroyed tree waits before it grows back. */
  const RespawnSeconds: real := 20.0
  /** Largest player-to-trunk distance at which a tree can be chopped. */
  const ChopRange: real := 2.5

  /** A tree record: its spawn point (the trunk's x and z), its collision box, and the
      harvest state the game updates in place. */
  datatype Tree = Tree(x: int, z: int, box: Box, health: int, destroyed: bool, respawnTimer: real)

  /** The record `createTree` pushes. */
  function NewTree(x: int, z: int, box: Box): Tree {
    Tree(x, z, box, MaxHealth, false, 0.0)
  }

  /** The seed coordinates `spawnTrees` plants, in order. */
  const SpawnPoints: seq<(int, int)> := [(5, 0), (-5, 5), (8, -3), (-8, -6), (0, -8)]

  /** The trees planted at the given points, in order, with boxes first, first + 1, ... */
  function Plant(points: seq<(int, int)>, first: Box): (r: seq<Tree>)
    ensures |r| == |points|
    ensures forall i {:trigger r[i]} :: 0 <= i < |points| ==>
      r[i] == NewTree(points[i].0, points[i].1, first + i)
  {
    if points == [] then []
    else
      var last := |points| - 1;
      Plant(points[..last], first) + [NewTree(points[last].0, points[last].1, first + last)]
  }

  /** The trees `spawnTrees` plants, one per seed point. */
  function Grove(first: Box): seq<Tree> {
    Plant(SpawnPoints, first)
  }

  /** A planted grove stands at the seed points, each tree at full health with its own box. */
  lemma GroveStands(first: Box)
    ensures forall i :: 0 <= i < |Grove(first)| ==>
      var t := Grove(first)[i];
      (t.x, t.z) == SpawnPoints[i] && !t.destroyed && t.health == MaxHealth && t.box == first + i
  {
  }

  /** What every tree record satisfies between frames: a live tree has health in 1..5,
      a destroyed one has health 0 and time still to wait. */
  predicate Valid(t: Tree) {
    if t.destroyed then t.health == 0 && t.respawnTimer > 0.0
    else 1 <= t.health <= MaxHealth
  }

  /** One chop of a live tree: one point of health off; at 0 the tree falls and starts
      its respawn countdown. */
  function Chop(t: Tree): Tree {
    var h := t.health - 1;
    if h <= 0 then t.(health := h, destroyed := true, respawnTimer := RespawnSeconds)
    else t.(health := h)
  }

  /** The countdown step of a destroyed tree: `delta` seconds off its timer, and when the
      timer has run out it stands again at full health (the timer keeps what is left). */
  function Respawn(t: Tree, delta: real): Tree {
    var left := t.respawnTimer - delta;
    if left <= 0.0 then t.(respawnTimer := left, destroyed := false, health := MaxHealth)
    else t.(respawnTimer := left)
  }

  /** What one pass of the frame loop does to one tree: a destroyed tree only counts down;
      a live tree is chopped when it is the pass's target, and otherwise left alone. */
  function TreeAfter(t: Tree, chopped: bool, delta: real): Tree {
    if t.destroyed then Respawn(t, delta)
    else if chopped then Chop(t)
    else t
  }

  /** Tree i can take a chop this frame if it stands and the player is within range. */
  predicate Choppable(trees: seq<Tree>, dist: seq<real>, i: nat)
    requires |dist| == |trees| && i < |trees|
  {
    !trees[i].destroyed && dist[i] <= ChopRange
  }

  /** The first choppable tree at position k or later. */
  function FirstChoppable(trees: seq<Tree>, dist: seq<real>, k: nat): (r: Option<nat>)
    requires |dist| == |trees| && k <= |trees|
    ensures r.Some? ==> k <= r.value < |trees| && Choppable(trees, dist, r.value)
    ensures r.Some? ==> forall j :: k <= j < r.value ==> !Choppable(trees, dist, j)
    ensures r.None? ==> forall j :: k <= j < |trees| ==> !Choppable(trees, dist, j)
    decreases |trees| - k
  {
    if k == |trees| then None
    else if Choppable(trees, dist, k) then Some(k)
    else FirstChoppable(trees, dist, k + 1)
  }

  /** The one tree a pass chops: while the cooldown flag is up, the first choppable tree in
      list order; the chop lowers the flag, which turns every later tree of the pass away. */
  function ChopTarget(trees: seq<Tree>, dist: seq<real>, canChop: bool): (r: Option<nat>)
    requires |dist| == |trees|
    ensures r.Some? ==> canChop && r.value < |trees| && Choppable(trees, dist, r.value)
  {
    if canChop then FirstChoppable(trees, dist, 0) else None
  }

  /** Every tree of the list after its step of the pass, where `target` is the one tree
      that takes a chop (if any). */
  function After(trees: seq<Tree>, target: Option<nat>, delta: real): (r: seq<Tree>)
    ensures |r| == |trees|
    ensures forall j {:trigger r[j]} :: 0 <= j < |trees| ==>
      r[j] == TreeAfter(trees[j], target == Some(j), delta)
  {
    if trees == [] then []
    else
      var last := |trees| - 1;
      After(trees[..last], target, delta) + [TreeAfter(trees[last], target == Some(last), delta)]
  }

  /** The list after one pass of `handleTreeInteraction`. */
  function Pass(trees: seq<Tree>, dist: seq<real>, canChop: bool, delta: real): seq<Tree>
    requires |dist| == |trees|
  {
    After(trees, ChopTarget(trees, dist, canChop), delta)
  }

  /** Wood the pass yields: one log when the chopped tree was on its last point of health. */
  function WoodFrom(trees: seq<Tree>, dist: seq<real>, canChop: bool): nat
    requires |dist| == |trees|
  {
    var target := ChopTarget(trees, dist, canChop);
    if target.Some? && trees[target.value].health <= 1 then 1 else 0
  }

  /** The collision boxes that belong to trees. */
  function TreeBoxes(trees: seq<Tree>): set<Box> {
    set i | 0 <= i < |trees| :: trees[i].box
  }

  /** The chop target is exactly the first choppable tree, and only while chopping is allowed. */
  lemma ChopTargetIsFirst(trees: seq<Tree>, dist: seq<real>, canChop: bool, i: nat)
    requires |dist| == |trees|
    ensures ChopTarget(trees, dist, canChop) == Some(i) <==>
      canChop && i < |trees| && Choppable(trees, dist, i) &&
      forall j :: 0 <= j < i ==> !Choppable(trees, dist, j)
  {
  }

  /** Step i of the pass, with chopping still allowed exactly while the target has not been
      passed: tree i takes the chop exactly when it is choppable and chopping is allowed. */
  lemma TargetStep(trees: seq<Tree>, dist: seq<real>, canChop: bool, i: nat)
    requires |dist| == |trees| && i < |trees|
    ensures var target := ChopTarget(trees, dist, canChop);
      target == Some(i) <==>
        canChop && (target.None? || i <= target.value) && Choppable(trees, dist, i)
  {
  }

  /** Nothing is chopped exactly when chopping is on cooldown or no standing tree is in range. */
  lemma NoTargetWhenNoneInRange(trees: seq<Tree>, dist: seq<real>, canChop: bool)
    requires |dist| == |trees|
    ensures ChopTarget(trees, dist, canChop).None? <==>
      !canChop || forall j :: 0 <= j < |trees| ==> !Choppable(trees, dist, j)
  {
  }

  /** At most one tree loses health in a pass: only the target, and by exactly one point. */
  lemma AtMostOneLosesHealth(trees: seq<Tree>, dist: seq<real>, canChop: bool, delta: real)
    requires |dist| == |trees|
    requires forall i :: 0 <= i < |trees| ==> Valid(trees[i])
    ensures var r := Pass(trees, dist, canChop, delta);
      forall i :: 0 <= i < |trees| && r[i].health < trees[i].health ==>
        ChopTarget(trees, dist, canChop) == Some(i) && r[i].health == trees[i].health - 1
    ensures var r := Pass(trees, dist, canChop, delta);
      forall i, j ::
        (0 <= i < |trees| && 0 <= j < |trees| &&
         r[i].health < trees[i].health && r[j].health < trees[j].health) ==> i == j
  {
  }

  /** A chop lowers a standing tree's health by exactly one; the tree falls exactly when that
      was its last point, and then waits the full respawn time. */
  lemma ChopEffect(t: Tree)
    requires Valid(t) && !t.destroyed
    ensures Chop(t).health == t.health - 1 && Chop(t).box == t.box
    ensures Chop(t).destroyed <==> t.health == 1
    ensures Chop(t).destroyed ==> Chop(t).respawnTimer == RespawnSeconds
    ensures Valid(Chop(t))
  {
  }

  /** A destroyed tree's timer runs down by `delta`; it stands again exactly when the timer
      reaches 0, and then always at full health. */
  lemma RespawnEffect(t: Tree, delta: real)
    requires Valid(t) && t.destroyed
    ensures Respawn(t, delta).respawnTimer == t.respawnTimer - delta
    ensures !Respawn(t, delta).destroyed <==> t.respawnTimer - delta <= 0.0
    ensures !Respawn(t, delta).destroyed ==> Respawn(t, delta).health == MaxHealth
    ensures Respawn(t, delta).destroyed ==> Respawn(t, delta).health == 0
    ensures Valid(Respawn(t, delta)) && Respawn(t, delta).box == t.box
  {
  }

  /** Health stays within 0..5 (and every other record invariant holds) after any pass. */
  lemma PassKeepsValid(trees: seq<Tree>, dist: seq<real>, canChop: bool, delta: real)
    requires |dist| == |trees|
    requires forall i :: 0 <= i < |trees| ==> Valid(trees[i])
    ensures var r := Pass(trees, dist, canChop, delta);
      forall i :: 0 <= i < |trees| ==> Valid(r[i]) && 0 <= r[i].health <= MaxHealth
  {
  }

  /** A frame with no time elapsed and nothing to chop changes no tree: the pass is idle. */
  lemma IdleFrame(trees: seq<Tree>, dist: seq<real>, canChop: bool)
    requires |dist| == |trees|
    requires forall i :: 0 <= i < |trees| ==> Valid(trees[i])
    requires ChopTarget(trees, dist, canChop).None?
    ensures Pass(trees, dist, canChop, 0.0) == trees
  {
  }

  /** `n` successive chops of one tree. */
  function Chops(t: Tree, n: nat): Tree {
    if n == 0 then t else Chop(Chops(t, n - 1))
  }

  /** A standing tree survives fewer chops than its health and falls at exactly that many,
      with the full respawn wait; a fresh tree falls at the fifth chop. */
  lemma {:induction false} FallsAfterHealthChops(t: Tree, k: nat)
    requires Valid(t) && !t.destroyed && k <= t.health
    ensures k < t.health ==> !Chops(t, k).destroyed && Chops(t, k).health == t.health - k
    ensures k == t.health ==>
      (Chops(t, k).destroyed && Chops(t, k).health == 0 && Chops(t, k).respawnTimer == RespawnSeconds)
    ensures Chops(t, k).box == t.box
  {
    if k > 0 {
      FallsAfterHealthChops(t, k - 1);
    }
  }

  /** Lists whose trees own the same boxes, position by position, own the same set of boxes. */
  lemma SameBoxes(a: seq<Tree>, b: seq<Tree>)
    requires |a| == |b| && forall i :: 0 <= i < |a| ==> a[i].box == b[i].box
    ensures TreeBoxes(a) == TreeBoxes(b)
  {
  }

  /** Planting one more tree adds exactly its box to the trees' boxes. */
  lemma PlantedBoxes(trees: seq<Tree>, t: Tree)
    ensures TreeBoxes(trees + [t]) == TreeBoxes(trees) + {t.box}
  {
    var r := trees + [t];
    assert r[|trees|].box == t.box;
    assert forall i :: 0 <= i < |trees| ==> r[i] == trees[i];
    assert forall x :: x in TreeBoxes(r) ==> x in TreeBoxes(trees) + {t.box};
  }
}
