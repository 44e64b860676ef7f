/**
 * ShootAction: the player's laser gun picks its target once, when the action
 * is created, by walking the locations nearest first from the shooter's
 * location and taking the first other actor within the shooting range.
 */
module Shooting {
  import opened Wrappers
  import opened Locations

  /** SHOOTING_RANGE of acquireTarget. */
  const ShootingRange := 20

  /** Location l is short of the shooting range from here. */
  predicate Near(locs: seq<Loc>, here: nat, l: nat)
    requires here < |locs| && l < |locs|
  {
    Dist(locs[here], locs[l]) < ShootingRange
  }

  /** An actor other than the shooter stands on l (an actor is known by the location it stands on). */
  predicate Shootable(locs: seq<Loc>, here: nat, l: nat)
    requires l < |locs|
  {
    locs[l].actor.Some? && l != here
  }

  /** The first k locations of the order are in range and hold no one to shoot. */
  predicate PassedOver(locs: seq<Loc>, here: nat, order: seq<nat>, k: nat)
    requires here < |locs| && InRange(locs, order) && k <= |order|
  {
    forall j :: 0 <= j < k ==> Near(locs, here, order[j]) && !Shootable(locs, here, order[j])
  }

  /** order[k] is the first location of the order the shooter may target. */
  predicate FirstTarget(locs: seq<Loc>, here: nat, order: seq<nat>, k: nat)
    requires here < |locs| && InRange(locs, order) && k < |order|
  {
    PassedOver(locs, here, order, k) && Near(locs, here, order[k]) && Shootable(locs, here, order[k])
  }

  /**
   * The loop of acquireTarget over the given order: the search breaks with
   * no target at the first location out of range, and otherwise returns the
   * first location holding another actor.
   */
  function Aim(locs: seq<Loc>, here: nat, order: seq<nat>): (r: Option<nat>)
    requires here < |locs| && InRange(locs, order)
    ensures r.Some? ==> exists k :: 0 <= k < |order| && order[k] == r.value && FirstTarget(locs, here, order, k)
    ensures r.None? <==> forall k :: 0 <= k < |order| ==> !FirstTarget(locs, here, order, k)
    decreases |order|
  {
    if order == [] then None
    else if !Near(locs, here, order[0]) then None
    else if Shootable(locs, here, order[0]) then Some(order[0])
    else
      var r := Aim(locs, here, order[1..]);
      assert forall k :: 1 <= k <= |order| ==>
        (PassedOver(locs, here, order, k) <==> PassedOver(locs, here, order[1..], k - 1)) by {
        forall k | 1 <= k <= |order|
          ensures PassedOver(locs, here, order, k) <==> PassedOver(locs, here, order[1..], k - 1)
        {
          assert forall j :: 0 <= j < k - 1 ==> order[1..][j] == order[j + 1];
        }
      }
      assert r.Some? ==> exists k :: 1 <= k < |order| && order[k] == r.value && FirstTarget(locs, here, order, k) by {
        if r.Some? {
          var k :| 0 <= k < |order[1..]| && order[1..][k] == r.value && FirstTarget(locs, here, order[1..], k);
          assert order[k + 1] == order[1..][k];
        }
      }
      assert !FirstTarget(locs, here, order, 0);
      assert r.None? ==> forall k :: 1 <= k < |order| ==> !FirstTarget(locs, here, order, k) by {
        if r.None? {
          forall k | 1 <= k < |order| ensures !FirstTarget(locs, here, order, k) {
            assert order[1..][k - 1] == order[k];
            assert !FirstTarget(locs, here, order[1..], k - 1);
          }
        }
      }
      r
  }

  /**
   * The search stops at the first location out of range: nothing beyond it
   * is ever targeted, however close.
   */
  lemma {:induction false} AimStopsAtRange(locs: seq<Loc>, here: nat, order: seq<nat>, k: nat)
    requires here < |locs| && InRange(locs, order) && k < |order|
    requires PassedOver(locs, here, order, k) && !Near(locs, here, order[k])
    ensures Aim(locs, here, order) == None
    decreases k
  {
    if k > 0 {
      assert Near(locs, here, order[0]) && !Shootable(locs, here, order[0]);
      assert forall j :: 0 <= j < k - 1 ==> order[1..][j] == order[j + 1];
      AimStopsAtRange(locs, here, order[1..], k - 1);
    }
  }

  /** The location acquireTarget picks: Aim over the shooter's own nearest-first search. */
  function Target(locs: seq<Loc>, here: nat): (r: Option<nat>)
    requires ValidLocs(locs) && here < |locs|
  {
    SearchTrace(locs, here);
    Aim(locs, here, Search(locs, here))
  }

  /**
   * The target is another actor, within range, reached along the search
   * order with no other actor before it; the shooter itself, first in the
   * order, is never the target.
   */
  lemma TargetFacts(locs: seq<Loc>, here: nat)
    requires ValidLocs(locs) && here < |locs|
    ensures InRange(locs, Search(locs, here))
    ensures Target(locs, here).Some? ==>
      var t := Target(locs, here).value;
      t != here && t < |locs| && locs[t].actor.Some? && Dist(locs[here], locs[t]) < ShootingRange
      && t in Search(locs, here)
    ensures Target(locs, here).None? <==> forall k :: 0 <= k < |Search(locs, here)| ==> !FirstTarget(locs, here, Search(locs, here), k)
  {
    SearchTrace(locs, here);
    SearchStartsHere(locs, here);
  }

  /**
   * acquireTarget: the locations are taken from the iterator one by one;
   * the loop breaks at the first one out of range and returns the first
   * holding another actor.
   */
  method AcquireTarget(locs: seq<Loc>, here: nat) returns (t: Option<nat>)
    requires ValidLocs(locs) && here < |locs|
    ensures t == Target(locs, here)
  {
    SearchTrace(locs, here);
    var it := new LocationIterator(locs, here);
    while it.HasNext()
      invariant it.Valid() && it.locs == locs
      invariant InRange(locs, it.Remaining())
      invariant Aim(locs, here, it.Remaining()) == Target(locs, here)
      decreases |Indices(|locs|) - it.visited|, |it.queue|
    {
      ghost var before := it.Remaining();
      var next := it.Next();
      var location := next.value;
      assert before == [location] + it.Remaining();
      assert before[1..] == it.Remaining();
      if Dist(locs[here], locs[location]) >= ShootingRange {
        return None;
      } else if locs[location].actor.Some? && location != here {
        return Some(location);
      }
    }
    return None;
  }

  /**
   * A ShootAction: the shooter's location and the target fixed when it was
   * created (the location of the target actor, if any).
   */
  class ShootAction {
    const shooter: nat
    const target: Option<nat>

    /** new ShootAction(shooter, weapon, map): the target is acquired once, here. */
    constructor (locs: seq<Loc>, here: nat)
      requires ValidLocs(locs) && here < |locs|
      ensures shooter == here && target == Target(locs, here)
    {
      var t := AcquireTarget(locs, here);
      shooter := here;
      target := t;
    }

    /**
     * The branch of execute with no target: only a message that the shooter
     * shot the air; no actor and no location is touched.
     */
    function MissMessage(shooterName: string, verb: string): (r: Option<string>)
      ensures r.Some? <==> target.None?
      ensures r.Some? ==> r.value == shooterName + " " + verb + " the air"
    {
      if target.None? then Some(shooterName + " " + verb + " the air") else None
    }

    /** menuDescription: the air, or the target by name, after the shooter and the weapon's verb. */
    function MenuDescription(shooterName: string, verb: string, targetName: string): (r: string)
      ensures target.None? ==> r == shooterName + " " + verb + " the air."
      ensures target.Some? ==> r == shooterName + " " + verb + " " + targetName + "."
    {
      if target.None? then shooterName + " " + verb + " the air."
      else shooterName + " " + verb + " " + targetName + "."
    }
  }

  /** The laser gun's verb, "zaps". */
  const LaserGunVerb := "zaps"
}
