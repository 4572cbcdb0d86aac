/** The shared list of solid boxes (`solidBoxes`) and the movement guard that consults it.
    A box is a handle compared only by identity, as the game compares its Box3 objects;
    the geometry of a box and the overlap test itself are supplied by the caller. */
module Collision {

  type Box = nat

  /** `willCollide`: true when some entry of the list overlaps the player's box at the
      candidate position (`overlaps` is the intersection test against that player box),
      scanning the list the way `Array.prototype.some` does. */
  function WillCollide(solid: seq<Box>, overlaps: Box -> bool): (r: bool)
    ensures r <==> exists i :: 0 <= i < |solid| && overlaps(solid[i])
  {
    if |solid| == 0 then false
    else if overlaps(solid[0]) then true
    else
      var rest := WillCollide(solid[1..], overlaps);
      assert forall i :: 1 <= i < |solid| ==> solid[i] == solid[1..][i - 1];
      rest
  }

  /** The entries of `solid` that do not belong to the owner of `mine`, in their order:
      what a component that only contributes the boxes in `mine` must leave alone. */
  function Without(solid: seq<Box>, mine: set<Box>): seq<Box> {
    if solid == [] then []
    else (if solid[0] in mine then [] else [solid[0]]) + Without(solid[1..], mine)
  }

  /** The kept entries are exactly the entries outside the owner's set, and no more of them. */
  lemma {:induction false} WithoutMembers(solid: seq<Box>, mine: set<Box>)
    ensures forall b :: b in Without(solid, mine) <==> b in solid && b !in mine
    ensures |Without(solid, mine)| <= |solid|
  {
    if solid != [] {
      WithoutMembers(solid[1..], mine);
      assert forall b :: b in solid <==> b == solid[0] || b in solid[1..];
    }
  }

  lemma {:induction false} WithoutAppend(s: seq<Box>, t: seq<Box>, mine: set<Box>)
    ensures Without(s + t, mine) == Without(s, mine) + Without(t, mine)
  {
    if s != [] {
      assert (s + t)[1..] == s[1..] + t;
      WithoutAppend(s[1..], t, mine);
    } else {
      assert s + t == t;
    }
  }

  /** Pushing one of the owner's boxes leaves every other entry as it was. */
  lemma PushMineKeepsOthers(s: seq<Box>, b: Box, mine: set<Box>)
    requires b in mine
    ensures Without(s + [b], mine) == Without(s, mine)
  {
    WithoutAppend(s, [b], mine);
    assert Without([b], mine) == [] + Without([], mine);
  }

  /** Pushing a box the owner does not own appends exactly that box to the other entries. */
  lemma PushOtherAppends(s: seq<Box>, b: Box, mine: set<Box>)
    requires b !in mine
    ensures Without(s + [b], mine) == Without(s, mine) + [b]
  {
    WithoutAppend(s, [b], mine);
    assert Without([b], mine) == [b] + Without([], mine);
  }

  /** Splicing out one of the owner's boxes leaves every other entry as it was, in order. */
  lemma RemoveMineKeepsOthers(s: seq<Box>, k: nat, mine: set<Box>)
    requires k < |s| && s[k] in mine
    ensures Without(s[..k] + s[k + 1..], mine) == Without(s, mine)
  {
    var pre, post := s[..k], s[k + 1..];
    assert s == pre + ([s[k]] + post);
    WithoutAppend(pre, [s[k]] + post, mine);
    DropMineHead(s[k], post, mine);
    WithoutAppend(pre, post, mine);
  }

  lemma DropMineHead(b: Box, post: seq<Box>, mine: set<Box>)
    requires b in mine
    ensures Without([b] + post, mine) == Without(post, mine)
  {
  }

  /** Claiming a box that is not in the list as the owner's changes nothing in the others. */
  lemma {:induction false} ClaimAbsentKeepsOthers(s: seq<Box>, b: Box, mine: set<Box>)
    requires b !in s
    ensures Without(s, mine + {b}) == Without(s, mine)
  {
    if s != [] {
      ClaimAbsentKeepsOthers(s[1..], b, mine);
    }
  }
}
