/** The box bookkeeping the tree code keeps in the shared solid list, stated on plain values:
    every tree record valid, identities handed out below a counter, trees owning distinct
    boxes, and a tree's box in the list exactly once while it stands and absent while it is
    down. Each operation that
    touches the list is shown to keep it, and to leave the boxes no tree owns untouched. */
module BoxBook {
  import opened JsArray
  import opened Collision
  import opened Trees

  ghost predicate Book(trees: seq<Tree>, solid: seq<Box>, next: Box) {
    && (forall i :: 0 <= i < |trees| ==> Trees.Valid(trees[i]))
    && (forall i :: 0 <= i < |trees| ==> trees[i].box < next)
    && (forall i :: 0 <= i < |solid| ==> solid[i] < next)
    && (forall i, j :: 0 <= i < j < |trees| ==> trees[i].box != trees[j].box)
    && (forall i :: 0 <= i < |trees| ==>
          multiset(solid)[trees[i].box] == if trees[i].destroyed then 0 else 1)
  }

  /** `createTree` keeps the book: the new tree's box is fresh and enters the list once. */
  lemma PlantKeepsBook(trees: seq<Tree>, solid: seq<Box>, next: Box, x: int, z: int)
    requires Book(trees, solid, next)
    ensures next !in solid
    ensures Book(trees + [NewTree(x, z, next)], solid + [next], next + 1)
  {
  }

  /** A planted tree's box, absent from the list before, is one the trees now own, so the
      boxes no tree owns are those of before. */
  lemma PlantKeepsOthers(trees: seq<Tree>, solid: seq<Box>, t: Tree)
    requires t.box !in solid
    ensures Without(solid + [t.box], TreeBoxes(trees + [t])) == Without(solid, TreeBoxes(trees))
  {
    PlantedBoxes(trees, t);
    PushMineKeepsOthers(solid, t.box, TreeBoxes(trees) + {t.box});
    ClaimAbsentKeepsOthers(solid, t.box, TreeBoxes(trees));
  }

  /** Pushing a fresh box no tree owns (workbench, wall) keeps the book and appends that box
      to the boxes no tree owns. */
  lemma PushOtherKeepsBook(trees: seq<Tree>, solid: seq<Box>, next: Box)
    requires Book(trees, solid, next)
    ensures Book(trees, solid + [next], next + 1)
    ensures next !in solid && next !in TreeBoxes(trees)
    ensures Without(solid + [next], TreeBoxes(trees)) == Without(solid, TreeBoxes(trees)) + [next]
  {
    assert next !in solid;
    assert next !in TreeBoxes(trees);
    PushOtherAppends(solid, next, TreeBoxes(trees));
  }

  /** Replacing tree i by a record with the same box, where only that box's count in the
      list changed and now matches the new record, keeps the book. */
  lemma ReplaceKeepsBook(trees: seq<Tree>, solid: seq<Box>, next: Box, i: nat, t: Tree, solid': seq<Box>)
    requires Book(trees, solid, next) && i < |trees| && t.box == trees[i].box && Trees.Valid(t)
    requires forall k :: 0 <= k < |solid'| ==> solid'[k] < next
    requires multiset(solid')[t.box] == if t.destroyed then 0 else 1
    requires forall b :: b != t.box ==> multiset(solid')[b] == multiset(solid)[b]
    ensures Book(trees[i := t], solid', next)
    ensures TreeBoxes(trees[i := t]) == TreeBoxes(trees)
  {
    var trees' := trees[i := t];
    forall j | 0 <= j < |trees'|
      ensures multiset(solid')[trees'[j].box] == if trees'[j].destroyed then 0 else 1
    {
      if j != i {
        assert trees'[j] == trees[j] && trees[j].box != t.box;
      }
    }
    SameBoxes(trees', trees);
  }

  /** A tree coming back pushes its box, which was absent, so it is now there exactly once. */
  lemma RespawnPushKeepsBook(trees: seq<Tree>, solid: seq<Box>, next: Box, i: nat, t: Tree)
    requires Book(trees, solid, next) && i < |trees| && trees[i].destroyed
    requires t.box == trees[i].box && !t.destroyed && Trees.Valid(t)
    ensures trees[i].box !in solid
    ensures Book(trees[i := t], solid + [t.box], next)
    ensures TreeBoxes(trees[i := t]) == TreeBoxes(trees)
    ensures Without(solid + [t.box], TreeBoxes(trees)) == Without(solid, TreeBoxes(trees))
  {
    ReplaceKeepsBook(trees, solid, next, i, t, solid + [t.box]);
    assert t.box in TreeBoxes(trees);
    PushMineKeepsOthers(solid, t.box, TreeBoxes(trees));
  }

  /** A falling tree's box is found by `indexOf` and spliced out, so it is now absent. */
  lemma FellSpliceKeepsBook(trees: seq<Tree>, solid: seq<Box>, next: Box, i: nat, t: Tree)
    requires Book(trees, solid, next) && i < |trees| && !trees[i].destroyed
    requires t.box == trees[i].box && t.destroyed && Trees.Valid(t)
    ensures IndexOf(solid, t.box) != -1
    ensures Book(trees[i := t], Splice1(solid, IndexOf(solid, t.box)), next)
    ensures TreeBoxes(trees[i := t]) == TreeBoxes(trees)
  {
    assert multiset(solid)[trees[i].box] == 1;
    var k := IndexOf(solid, t.box);
    RemovedOnce(solid, k);
    ReplaceKeepsBook(trees, solid, next, i, t, Splice1(solid, k));
  }

  /** Splicing out a tree's box leaves the boxes no tree owns as they were. */
  lemma FellSpliceKeepsOthers(trees: seq<Tree>, solid: seq<Box>, i: nat)
    requires i < |trees| && trees[i].box in solid
    ensures Without(Splice1(solid, IndexOf(solid, trees[i].box)), TreeBoxes(trees)) ==
      Without(solid, TreeBoxes(trees))
  {
    var b, mine := trees[i].box, TreeBoxes(trees);
    assert b in mine;
    var k := IndexOf(solid, b);
    RemovedOnce(solid, k);
    RemoveMineKeepsOthers(solid, k, mine);
  }

  /** A record update that does not change whether the tree stands keeps the book. */
  lemma SameStandingKeepsBook(trees: seq<Tree>, solid: seq<Box>, next: Box, i: nat, t: Tree)
    requires Book(trees, solid, next) && i < |trees|
    requires t.box == trees[i].box && t.destroyed == trees[i].destroyed && Trees.Valid(t)
    ensures Book(trees[i := t], solid, next)
    ensures TreeBoxes(trees[i := t]) == TreeBoxes(trees)
  {
    ReplaceKeepsBook(trees, solid, next, i, t, solid);
  }

  /** While the book holds, a tree's box is in the solid list exactly when the tree stands. */
  lemma BoxPresentIffStanding(trees: seq<Tree>, solid: seq<Box>, next: Box, i: nat)
    requires Book(trees, solid, next) && i < |trees|
    ensures trees[i].box in solid <==> !trees[i].destroyed
  {
  }

  /** The whole chop branch keeps the book: the tree loses a point and, if it falls, its box
      (which `indexOf` finds) is spliced out; the boxes no tree owns are untouched. */
  lemma ChopKeepsBook(trees: seq<Tree>, solid: seq<Box>, next: Box, i: nat)
      returns (t: Tree, solid': seq<Box>)
    requires Book(trees, solid, next) && i < |trees| && !trees[i].destroyed
    ensures t == Chop(trees[i]) && (t.destroyed <==> trees[i].health == 1)
    ensures t.destroyed ==> IndexOf(solid, t.box) != -1
    ensures solid' == if t.destroyed then Splice1(solid, IndexOf(solid, t.box)) else solid
    ensures t.destroyed ==> multiset(solid') == multiset(solid) - multiset{trees[i].box}
    ensures Book(trees[i := t], solid', next)
    ensures TreeBoxes(trees[i := t]) == TreeBoxes(trees)
    ensures Without(solid', TreeBoxes(trees[i := t])) == Without(solid, TreeBoxes(trees))
  {
    t := Chop(trees[i]);
    if t.destroyed {
      FellSpliceKeepsBook(trees, solid, next, i, t);
      FellSpliceKeepsOthers(trees, solid, i);
      RemovedOnce(solid, IndexOf(solid, t.box));
      solid' := Splice1(solid, IndexOf(solid, t.box));
    } else {
      SameStandingKeepsBook(trees, solid, next, i, t);
      solid' := solid;
    }
  }

  /** The whole countdown branch keeps the book: the timer runs down and, if the tree comes
      back, its box (absent until then) is pushed; the boxes no tree owns are untouched. */
  lemma CountDownKeepsBook(trees: seq<Tree>, solid: seq<Box>, next: Box, i: nat, delta: real)
      returns (t: Tree, solid': seq<Box>)
    requires Book(trees, solid, next) && i < |trees| && trees[i].destroyed
    ensures t == Respawn(trees[i], delta)
    ensures solid' == if !t.destroyed && t.box !in solid then solid + [t.box] else solid
    ensures Book(trees[i := t], solid', next)
    ensures TreeBoxes(trees[i := t]) == TreeBoxes(trees)
    ensures Without(solid', TreeBoxes(trees[i := t])) == Without(solid, TreeBoxes(trees))
  {
    t := Respawn(trees[i], delta);
    if t.destroyed {
      SameStandingKeepsBook(trees, solid, next, i, t);
      solid' := solid;
    } else {
      RespawnPushKeepsBook(trees, solid, next, i, t);
      solid' := if t.box !in solid then solid + [t.box] else solid;
    }
  }
}
