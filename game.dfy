/** The game state kept at module level by the browser script: the trees, the shared list
    of solid boxes, the wood counter and inventory, the chop cooldown flag, the building
    mode and the player's position, updated in place by the per-frame handlers. */
module Sandbox {
  import opened Options
  import opened JsArray
  import opened Collision
  import opened Trees
  import opened Inventory
  import opened Grid
  import opened BoxBook

  /** A world position. */
  datatype Vec3 = Vec3(x: real, y: real, z: real)

  /** A ground cell on the even grid: where a wall or the placement preview stands. */
  datatype Cell = Cell(gx: int, gz: int)

  /** The point where the aim ray from the screen centre meets the ground. */
  datatype GroundHit = GroundHit(x: real, z: real)

  class Game {
    var trees: seq<Tree>
    var solidBoxes: seq<Box>
    /** The identity the next allocated box receives; every box in use is below it. */
    var nextBox: Box
    var woodCount: int
    var inventory: seq<Item>
    var canChop: bool
    /** A `setTimeout` that will raise `canChop` again is waiting to fire. */
    var cooldownPending: bool
    var placementMode: bool
    var placementGhost: Option<Cell>
    var placementType: Option<Item>
    var playerPos: Vec3

    /** The trees and the solid list keep the box book. */
    ghost predicate TreesValid()
      reads this`trees, this`solidBoxes, this`nextBox
    {
      Book(trees, solidBoxes, nextBox)
    }

    /** A chop's re-enable timer is pending exactly while chopping is blocked. */
    ghost predicate CooldownValid()
      reads this`canChop, this`cooldownPending
    {
      canChop != cooldownPending
    }

    /** Building mode has a preview and an item that is held (one `indexOf` finds). */
    ghost predicate PlacementValid()
      reads this`inventory, this`placementMode, this`placementGhost, this`placementType
    {
      && placementMode == placementGhost.Some?
      && (placementMode ==> placementType.Some? && IndexOf(inventory, placementType.value) != -1)
    }

    ghost predicate Valid()
      reads this`trees, this`solidBoxes, this`nextBox, this`canChop, this`cooldownPending
      reads this`inventory, this`placementMode, this`placementGhost, this`placementType
      reads this`woodCount
    {
      TreesValid() && CooldownValid() && PlacementValid() && woodCount >= 0
    }

    /** The solid boxes no tree owns (the workbench and the walls), in list order. */
    ghost function OtherBoxes(): seq<Box>
      reads this`solidBoxes, this`trees
    {
      Without(solidBoxes, TreeBoxes(trees))
    }

    /** The script's declarations: no trees, no solid boxes, no wood, nothing held, chopping
        allowed, not building, the player at (0, 1, 0). */
    constructor ()
      ensures Valid()
      ensures trees == [] && solidBoxes == [] && nextBox == 0
      ensures woodCount == 0 && inventory == [] && canChop && !cooldownPending
      ensures !placementMode && placementGhost == None && placementType == None
      ensures playerPos == Vec3(0.0, 1.0, 0.0)
    {
      playerPos := Vec3(0.0, 1.0, 0.0);
      woodCount, inventory := 0, [];
      solidBoxes, trees, nextBox := [], [], 0;
      canChop, cooldownPending := true, false;
      placementMode, placementGhost, placementType := false, None, None;
    }

    /** The script's top-level statements run at load: `spawnTrees()`, then the workbench's
        box pushed after the trees' boxes. */
    method Start()
      requires Valid() && trees == [] && solidBoxes == [] && nextBox == 0
      modifies this`trees, this`solidBoxes, this`nextBox
      ensures Valid()
      ensures trees == Grove(0)
      ensures solidBoxes == seq(|SpawnPoints| + 1, i => i) && OtherBoxes() == [|SpawnPoints|]
    {
      assert OtherBoxes() == [];
      SpawnTrees();
      assert trees == Grove(0) && nextBox == |SpawnPoints| && OtherBoxes() == [];
      var workbench := AddSolidBox();
    }

    /** `createTree`: a standing tree with full health, and its box pushed onto the list. */
    method CreateTree(x: int, z: int)
      requires Valid()
      modifies this`trees, this`solidBoxes, this`nextBox
      ensures Valid()
      ensures trees == old(trees) + [NewTree(x, z, old(nextBox))]
      ensures solidBoxes == old(solidBoxes) + [old(nextBox)]
      ensures nextBox == old(nextBox) + 1
      ensures OtherBoxes() == old(OtherBoxes())
    {
      var before, solid, box := trees, solidBoxes, nextBox;
      var tree := NewTree(x, z, box);
      PlantKeepsBook(before, solid, box, x, z);
      PlantKeepsOthers(before, solid, tree);
      trees, solidBoxes, nextBox := before + [tree], solid + [box], box + 1;
    }

    /** `spawnTrees`: one tree per seed point, in order. */
    method SpawnTrees()
      requires Valid()
      modifies this`trees, this`solidBoxes, this`nextBox
      ensures Valid()
      ensures trees == old(trees) + Grove(old(nextBox))
      ensures nextBox == old(nextBox) + |SpawnPoints|
      ensures solidBoxes == old(solidBoxes) + seq(|SpawnPoints|, i => old(nextBox) + i)
      ensures OtherBoxes() == old(OtherBoxes())
    {
      var i := 0;
      while i < |SpawnPoints|
        invariant 0 <= i <= |SpawnPoints|
        invariant Valid()
        invariant nextBox == old(nextBox) + i
        invariant trees == old(trees) + Grove(old(nextBox))[..i]
        invariant solidBoxes == old(solidBoxes) + seq(i, j => old(nextBox) + j)
        invariant OtherBoxes() == old(OtherBoxes())
      {
        CreateTree(SpawnPoints[i].0, SpawnPoints[i].1);
        assert Grove(old(nextBox))[..i + 1] == Grove(old(nextBox))[..i] + [Grove(old(nextBox))[i]];
        i := i + 1;
      }
      assert Grove(old(nextBox))[..i] == Grove(old(nextBox));
    }

    /** Pushes a box no tree owns: the workbench's at start-up, or a placed wall's. */
    method AddSolidBox() returns (box: Box)
      requires Valid()
      modifies this`solidBoxes, this`nextBox
      ensures Valid()
      ensures box == old(nextBox) && nextBox == old(nextBox) + 1
      ensures box !in old(solidBoxes) && box !in TreeBoxes(trees)
      ensures solidBoxes == old(solidBoxes) + [box]
      ensures OtherBoxes() == old(OtherBoxes()) + [box]
    {
      var solid := solidBoxes;
      box := nextBox;
      PushOtherKeepsBook(trees, solid, box);
      nextBox, solidBoxes := box + 1, solid + [box];
    }
  
    /** `handleTreeInteraction(delta)`, given the player's distance to each tree: the whole
        list becomes its one-pass successor, at most the first choppable tree is chopped
        (which lowers `canChop` and arms the re-enable timer), the wood gained is that tree's
        log if it fell, and the boxes no tree owns stay put. */
    method HandleTreeInteraction(delta: real, dist: seq<real>)
      requires Valid() && |dist| == |trees|
      modifies this`trees, this`solidBoxes, this`woodCount, this`canChop, this`cooldownPending
      ensures Valid()
      ensures trees == Pass(old(trees), dist, old(canChop), delta)
      ensures canChop == (old(canChop) && ChopTarget(old(trees), dist, old(canChop)).None?)
      ensures cooldownPending == (old(cooldownPending) || ChopTarget(old(trees), dist, old(canChop)).Some?)
      ensures woodCount == old(woodCount) + WoodFrom(old(trees), dist, old(canChop))
      ensures OtherBoxes() == old(OtherBoxes())
    {
      var ts, solid, wood, can := TreePass(trees, solidBoxes, nextBox, woodCount, canChop, dist, delta);
      var armed := canChop && !can;
      trees, solidBoxes, woodCount, canChop := ts, solid, wood, can;
      if armed {
        cooldownPending := true;
      }
    }

    /** The `setTimeout` callback of a chop firing: chopping is allowed again. It is the only
        place `canChop` is raised. */
    method CooldownElapsed()
      requires Valid()
      modifies this`canChop, this`cooldownPending
      ensures Valid()
      ensures canChop && !cooldownPending
      ensures old(canChop) ==> canChop == old(canChop) && cooldownPending == old(cooldownPending)
    {
      if cooldownPending {
        canChop := true;
        cooldownPending := false;
      }
    }

    /** `craftItem(item, cost)`: when the wood covers the cost it is paid and the item is
        added to the inventory; otherwise nothing changes. `crafted` is which message shows. */
    method CraftItem(item: Item, cost: int) returns (crafted: bool)
      requires Valid()
      modifies this`woodCount, this`inventory
      ensures Valid()
      ensures crafted == (old(woodCount) >= cost)
      ensures crafted ==> woodCount == old(woodCount) - cost && inventory == old(inventory) + [item]
      ensures !crafted ==> woodCount == old(woodCount) && inventory == old(inventory)
    {
      crafted := woodCount >= cost;
      if crafted {
        woodCount := woodCount - cost;
        inventory := inventory + [item];
      }
    }

    /** `startBuilding(type)`: only an item held can be placed; then building mode is on,
        for that item, with a preview at the origin. */
    method StartBuilding(kind: Item)
      requires Valid()
      modifies this`placementMode, this`placementType, this`placementGhost
      ensures Valid()
      ensures kind !in inventory ==>
        placementMode == old(placementMode) && placementType == old(placementType) &&
        placementGhost == old(placementGhost)
      ensures kind in inventory ==>
        placementMode && placementType == Some(kind) && placementGhost == Some(Cell(0, 0))
    {
      if kind !in inventory {
        return;
      }
      placementMode := true;
      placementType := Some(kind);
      placementGhost := Some(Cell(0, 0));
    }

    /** `exitPlacementMode`: building mode off and the preview gone; the chosen item is kept. */
    method ExitPlacementMode()
      requires TreesValid() && CooldownValid() && woodCount >= 0
      modifies this`placementMode, this`placementGhost
      ensures Valid() && !placementMode && placementGhost == None
    {
      placementMode := false;
      placementGhost := None;
    }

    /** The left-click branch of `handlePlacement`: the wall's box is pushed onto the solid
        list under a fresh identity no tree owns, the first copy of the chosen item is spliced
        out of the inventory (it is there, by the placement invariant), and building mode ends. */
    method PlaceWall()
      requires Valid() && placementMode
      modifies this`solidBoxes, this`nextBox, this`inventory, this`placementMode, this`placementGhost
      ensures Valid() && !placementMode && placementGhost == None
      ensures solidBoxes == old(solidBoxes) + [old(nextBox)]
      ensures OtherBoxes() == old(OtherBoxes()) + [old(nextBox)]
      ensures inventory == Splice1(old(inventory), IndexOf(old(inventory), old(placementType).value))
      ensures multiset(inventory) == multiset(old(inventory)) - multiset{old(placementType).value}
      ensures |inventory| == |old(inventory)| - 1
    {
      var box := AddSolidBox();
      PresentRemovesOne(inventory, placementType.value);
      inventory := Splice1(inventory, IndexOf(inventory, placementType.value));
      ExitPlacementMode();
    }

    /** `handlePlacement` for one frame, given where the aim ray meets the ground (if it does)
        and the mouse buttons. In building mode the preview moves to the snapped cell; a left
        click there builds a wall: one new box no tree owns is pushed, one copy of the chosen
        item leaves the inventory, and building mode ends. A right click ends it too. */
    method HandlePlacement(hit: Option<GroundHit>, leftDown: bool, rightDown: bool) returns (wall: Option<Cell>)
      requires Valid()
      modifies this`solidBoxes, this`nextBox, this`inventory, this`placementMode, this`placementGhost
      ensures Valid()
      ensures wall == if old(placementMode) && hit.Some? && leftDown
                      then Some(Cell(Snap(hit.value.x), Snap(hit.value.z))) else None
      ensures placementMode == (old(placementMode) && wall.None? && !rightDown)
      ensures placementGhost ==
        if !placementMode then None
        else if hit.Some? then Some(Cell(Snap(hit.value.x), Snap(hit.value.z)))
        else old(placementGhost)
      ensures wall.Some? ==>
        && solidBoxes == old(solidBoxes) + [old(nextBox)]
        && OtherBoxes() == old(OtherBoxes()) + [old(nextBox)]
        && inventory == Splice1(old(inventory), IndexOf(old(inventory), old(placementType).value))
        && multiset(inventory) == multiset(old(inventory)) - multiset{old(placementType).value}
        && |inventory| == |old(inventory)| - 1
      ensures wall.None? ==>
        && solidBoxes == old(solidBoxes) && nextBox == old(nextBox)
        && OtherBoxes() == old(OtherBoxes()) && inventory == old(inventory)
      ensures old(placementMode) && hit.None? && !rightDown ==>
        placementMode && placementGhost == old(placementGhost)
    {
      wall := None;
      if !placementMode || placementGhost.None? {
        return;
      }
      if hit.Some? {
        var gx := Snap(hit.value.x);
        var gz := Snap(hit.value.z);
        placementGhost := Some(Cell(gx, gz));
        if leftDown {
          wall := Some(Cell(gx, gz));
          PlaceWall();
        }
      }
      if rightDown {
        ExitPlacementMode();
      }
    }

    /** `handleMovement`: with W/S and A/D as the four keys, a move is attempted unless the
        pressed keys cancel out; the player then steps to `nextPos` (the caller's rotated,
        scaled direction) exactly when `willCollide(nextPos)` is false, where `overlaps` is
        the intersection test against the player's box at `nextPos`. */
    method HandleMovement(w: bool, s: bool, a: bool, d: bool, nextPos: Vec3, overlaps: Box -> bool)
      modifies this`playerPos
      ensures var moving := w != s || a != d;
        playerPos == if moving && !WillCollide(old(solidBoxes), overlaps) then nextPos else old(playerPos)
    {
      var dx, dz := 0, 0;
      if w { dz := dz - 1; }
      if s { dz := dz + 1; }
      if a { dx := dx - 1; }
      if d { dx := dx + 1; }
      if dx == 0 && dz == 0 {
        return;
      }
      if !WillCollide(solidBoxes, overlaps) {
        playerPos := nextPos;
      }
    }

    /** One frame of `animate`, with the elapsed seconds, the keys and buttons held, the
        aim ray's ground hit and the geometry supplied: movement, then placement, then the
        tree pass. The camera, the workbench prompt and the per-frame box refresh touch none
        of this state. */
    method Frame(delta: real, w: bool, s: bool, a: bool, d: bool, nextPos: Vec3,
                 overlaps: Box -> bool, hit: Option<GroundHit>, leftDown: bool, rightDown: bool,
                 dist: seq<real>) returns (wall: Option<Cell>)
      requires Valid() && |dist| == |trees|
      modifies this`playerPos, this`trees, this`solidBoxes, this`nextBox, this`woodCount
      modifies this`canChop, this`cooldownPending, this`inventory, this`placementMode
      modifies this`placementGhost
      ensures Valid()
      ensures trees == Pass(old(trees), dist, old(canChop), delta)
      ensures canChop == (old(canChop) && ChopTarget(old(trees), dist, old(canChop)).None?)
      ensures cooldownPending == (old(cooldownPending) || ChopTarget(old(trees), dist, old(canChop)).Some?)
      ensures woodCount == old(woodCount) + WoodFrom(old(trees), dist, old(canChop))
      ensures playerPos ==
        if (w != s || a != d) && !WillCollide(old(solidBoxes), overlaps) then nextPos else old(playerPos)
      ensures wall == if old(placementMode) && hit.Some? && leftDown
                      then Some(Cell(Snap(hit.value.x), Snap(hit.value.z))) else None
      ensures placementMode == (old(placementMode) && wall.None? && !rightDown)
      ensures wall.Some? ==>
        && OtherBoxes() == old(OtherBoxes()) + [old(nextBox)]
        && inventory == Splice1(old(inventory), IndexOf(old(inventory), old(placementType).value))
      ensures wall.None? ==> OtherBoxes() == old(OtherBoxes()) && inventory == old(inventory)
    {
      HandleMovement(w, s, a, d, nextPos, overlaps);
      wall := HandlePlacement(hit, leftDown, rightDown);
      HandleTreeInteraction(delta, dist);
    }
  }

  /** The countdown branch of the loop in `handleTreeInteraction` for a destroyed tree i:
      `delta` seconds off its timer, and when that runs out it stands again at full health
      and its box, absent while it was down, is pushed back onto the solid list. */
  method CountDown(trees: seq<Tree>, solid: seq<Box>, next: Box, i: nat, delta: real)
      returns (trees': seq<Tree>, solid': seq<Box>)
    requires Book(trees, solid, next) && i < |trees| && trees[i].destroyed
    ensures trees' == trees[i := Respawn(trees[i], delta)]
    ensures trees'[i].destroyed ==> solid' == solid
    ensures !trees'[i].destroyed ==> trees[i].box !in solid && solid' == solid + [trees[i].box]
    ensures Book(trees', solid', next)
    ensures Without(solid', TreeBoxes(trees')) == Without(solid, TreeBoxes(trees))
  {
    ghost var t, s := CountDownKeepsBook(trees, solid, next, i, delta);
    var tree := trees[i].(respawnTimer := trees[i].respawnTimer - delta);
    if tree.respawnTimer <= 0.0 {
      tree := tree.(destroyed := false, health := MaxHealth);
    }
    solid' := if !tree.destroyed && tree.box !in solid then solid + [tree.box] else solid;
    assert tree == t && solid' == s;
    trees' := trees[i := tree];
  }

  /** The chop branch of the loop in `handleTreeInteraction` for a standing tree i: one
      point of health off; at 0 the tree falls, its box is found with `indexOf` and spliced
      out of the solid list, and `fell` reports the log gained. */
  method ChopTree(trees: seq<Tree>, solid: seq<Box>, next: Box, i: nat)
      returns (trees': seq<Tree>, solid': seq<Box>, fell: bool)
    requires Book(trees, solid, next) && i < |trees| && !trees[i].destroyed
    ensures trees' == trees[i := Chop(trees[i])]
    ensures fell == trees'[i].destroyed && fell == (trees[i].health == 1)
    ensures !fell ==> solid' == solid
    ensures fell ==> multiset(solid') == multiset(solid) - multiset{trees[i].box}
    ensures Book(trees', solid', next)
    ensures Without(solid', TreeBoxes(trees')) == Without(solid, TreeBoxes(trees))
  {
    ghost var t, s := ChopKeepsBook(trees, solid, next, i);
    var tree := trees[i].(health := trees[i].health - 1);
    fell := tree.health <= 0;
    var index := -1;
    if fell {
      tree := tree.(destroyed := true, respawnTimer := RespawnSeconds);
      index := IndexOf(solid, tree.box);
    }
    solid' := if index != -1 then Splice1(solid, index) else solid;
    assert tree == t && solid' == s;
    trees' := trees[i := tree];
  }

  /** One iteration of the loop of `handleTreeInteraction`, for tree i: a destroyed tree
      counts down; a standing one in range while chopping is allowed takes a chop, which
      lowers the flag; any other tree is left alone. `fell` reports the log gained. */
  method VisitTree(trees: seq<Tree>, solid: seq<Box>, next: Box, i: nat, inRange: bool,
                   canChop: bool, delta: real)
      returns (trees': seq<Tree>, solid': seq<Box>, canChop': bool, fell: bool)
    requires Book(trees, solid, next) && i < |trees|
    ensures trees' ==
      trees[i := TreeAfter(trees[i], !trees[i].destroyed && inRange && canChop, delta)]
    ensures canChop' == (canChop && (trees[i].destroyed || !inRange))
    ensures fell == (!trees[i].destroyed && inRange && canChop && trees[i].health == 1)
    ensures Book(trees', solid', next)
    ensures Without(solid', TreeBoxes(trees')) == Without(solid, TreeBoxes(trees))
  {
    if trees[i].destroyed {
      trees', solid' := CountDown(trees, solid, next, i, delta);
      canChop', fell := canChop, false;
    } else if inRange && canChop {
      trees', solid', fell := ChopTree(trees, solid, next, i);
      canChop' := false;
    } else {
      trees', solid', canChop', fell := trees, solid, canChop, false;
      assert trees[i := trees[i]] == trees;
    }
  }

  /** The loop of `handleTreeInteraction` over the tree list, the solid list, the wood count
      and the cooldown flag: the first standing tree in range while chopping is allowed
      takes the pass's one chop, every destroyed tree counts down, and the boxes no tree
      owns stay as they were. */
  method TreePass(trees: seq<Tree>, solid: seq<Box>, next: Box, wood: int, canChop: bool,
                  dist: seq<real>, delta: real)
      returns (trees': seq<Tree>, solid': seq<Box>, wood': int, canChop': bool)
    requires Book(trees, solid, next) && |dist| == |trees|
    ensures trees' == Pass(trees, dist, canChop, delta)
    ensures canChop' == (canChop && ChopTarget(trees, dist, canChop).None?)
    ensures wood' == wood + WoodFrom(trees, dist, canChop)
    ensures Book(trees', solid', next)
    ensures Without(solid', TreeBoxes(trees')) == Without(solid, TreeBoxes(trees))
  {
    ghost var target := ChopTarget(trees, dist, canChop);
    trees', solid', wood', canChop' := trees, solid, wood, canChop;
    var i := 0;
    while i < |trees'|
      invariant 0 <= i <= |trees'| == |trees|
      invariant Book(trees', solid', next)
      invariant forall j :: 0 <= j < i ==> trees'[j] == TreeAfter(trees[j], target == Some(j), delta)
      invariant forall j :: i <= j < |trees| ==> trees'[j] == trees[j]
      invariant canChop' == (canChop && (target.None? || i <= target.value))
      invariant wood' == wood +
        (if target.Some? && target.value < i && trees[target.value].health <= 1 then 1 else 0)
      invariant Without(solid', TreeBoxes(trees')) == Without(solid, TreeBoxes(trees))
    {
      TargetStep(trees, dist, canChop, i);
      var fell;
      trees', solid', canChop', fell := VisitTree(trees', solid', next, i, dist[i] <= ChopRange, canChop', delta);
      wood' := wood' + if fell then 1 else 0;
      i := i + 1;
    }
  }
}
