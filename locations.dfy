/**
 * The map as a graph of locations, and GameLocation: its nearest-first
 * (breadth-first) iterator, the per-turn ground update and the neighbour count.
 *
 * A map is a sequence of locations; a location is named by its index and each
 * exit names its destination by index. Several game maps joined by
 * DinosaurMap.connectMaps are one sequence here.
 */
module Locations {
  import opened Tags
  import opened Wrappers
  import opened Items
  import opened Grounds
  import opened Dinosaurs
  import Distances
  import Collections

  datatype Exit = Exit(name: string, hotKey: string, dest: nat)

  /** The actors of the game: the player and the dinosaurs. */
  datatype Actor = PlayerActor | DinoActor(dino: Dino)

  /** The player has no capabilities. */
  function ActorCaps(a: Actor): set<ActorCap>
  {
    match a
    case PlayerActor => {}
    case DinoActor(d) => d.caps
  }

  datatype Loc = Loc(x: int, y: int, ground: Ground, actor: Option<Actor>, items: seq<Item>, exits: seq<Exit>)

  /** Every exit leads to a location of the map. */
  predicate ValidLocs(locs: seq<Loc>)
  {
    forall i, j :: 0 <= i < |locs| && 0 <= j < |locs[i].exits| ==> locs[i].exits[j].dest < |locs|
  }

  predicate InRange(locs: seq<Loc>, q: seq<nat>)
  {
    forall k :: 0 <= k < |q| ==> q[k] < |locs|
  }

  predicate ExitsInRange(locs: seq<Loc>, exits: seq<Exit>)
  {
    forall j :: 0 <= j < |exits| ==> exits[j].dest < |locs|
  }

  /** The location indices below n. */
  function Indices(n: nat): (r: set<nat>)
    ensures forall i: nat :: i in r <==> i < n
  {
    if n == 0 then {} else Indices(n - 1) + {n - 1}
  }

  /** distanceBetween on two locations: only their coordinates are read. */
  function Dist(a: Loc, b: Loc): nat
  {
    Distances.Between(a.x, a.y, b.x, b.y)
  }

  /** Location b is the destination of one of a's exits. */
  predicate Adjacent(locs: seq<Loc>, a: nat, b: nat)
    requires a < |locs|
  {
    exists j :: 0 <= j < |locs[a].exits| && locs[a].exits[j].dest == b
  }

  // ----- the nearest-first search -----

  /** The observer of a search started at `start`: the capabilities of the actor standing there, if any. */
  function Observer(locs: seq<Loc>, start: nat): Option<set<ActorCap>>
    requires start < |locs|
  {
    match locs[start].actor
    case None => None
    case Some(a) => Some(ActorCaps(a))
  }

  /** With no observer every destination is taken; otherwise only those whose ground admits it. */
  predicate Admits(locs: seq<Loc>, obs: Option<set<ActorCap>>, d: nat)
    requires d < |locs|
  {
    obs.None? || CanActorEnter(locs[d].ground, obs.value)
  }

  /**
   * The exit loop of GameLocationIterator.next: each destination, in exit order,
   * that is not yet visited and that the observer may enter is appended to the
   * queue and marked visited at once.
   */
  function Expand(locs: seq<Loc>, obs: Option<set<ActorCap>>, exits: seq<Exit>, queue: seq<nat>, visited: set<nat>): (seq<nat>, set<nat>)
    requires ExitsInRange(locs, exits)
    decreases |exits|
  {
    if exits == [] then (queue, visited)
    else if exits[0].dest !in visited && Admits(locs, obs, exits[0].dest) then
      Expand(locs, obs, exits[1..], queue + [exits[0].dest], visited + {exits[0].dest})
    else
      Expand(locs, obs, exits[1..], queue, visited)
  }

  /** Expanding only appends to the queue and only adds to the visited set. */
  lemma {:induction false} ExpandGrows(locs: seq<Loc>, obs: Option<set<ActorCap>>, exits: seq<Exit>, queue: seq<nat>, visited: set<nat>, r: (seq<nat>, set<nat>))
    requires ExitsInRange(locs, exits) && r == Expand(locs, obs, exits, queue, visited)
    ensures |r.0| >= |queue| && r.0[..|queue|] == queue && visited <= r.1
    decreases |exits|
  {
    if exits != [] {
      var d := exits[0].dest;
      if d !in visited && Admits(locs, obs, d) {
        ExpandGrows(locs, obs, exits[1..], queue + [d], visited + {d}, r);
        assert r.0[..|queue|] == r.0[..|queue| + 1][..|queue|];
      } else {
        ExpandGrows(locs, obs, exits[1..], queue, visited, r);
      }
    }
  }

  /**
   * Each newly enqueued location is an exit destination the observer may enter,
   * was not visited before and is visited now; the new part has no repeats.
   */
  lemma {:induction false} ExpandNew(locs: seq<Loc>, obs: Option<set<ActorCap>>, exits: seq<Exit>, queue: seq<nat>, visited: set<nat>, r: (seq<nat>, set<nat>))
    requires ExitsInRange(locs, exits) && r == Expand(locs, obs, exits, queue, visited)
    ensures forall k :: |queue| <= k < |r.0| ==>
        r.0[k] < |locs| && r.0[k] in r.1 && r.0[k] !in visited && Admits(locs, obs, r.0[k])
        && exists j :: 0 <= j < |exits| && exits[j].dest == r.0[k]
    ensures forall k1, k2 :: |queue| <= k1 < k2 < |r.0| ==> r.0[k1] != r.0[k2]
    decreases |exits|
  {
    if exits != [] {
      var d := exits[0].dest;
      if d !in visited && Admits(locs, obs, d) {
        ExpandNew(locs, obs, exits[1..], queue + [d], visited + {d}, r);
        ExpandGrows(locs, obs, exits[1..], queue + [d], visited + {d}, r);
        assert r.0[|queue|] == r.0[..|queue| + 1][|queue|] == d;
        forall k | |queue| < k < |r.0|
          ensures exists j :: 0 <= j < |exits| && exits[j].dest == r.0[k]
        {
          var j :| 0 <= j < |exits[1..]| && exits[1..][j].dest == r.0[k];
          assert exits[j + 1].dest == r.0[k];
        }
        assert exits[0].dest == r.0[|queue|];
      } else {
        ExpandNew(locs, obs, exits[1..], queue, visited, r);
        forall k | |queue| <= k < |r.0|
          ensures exists j :: 0 <= j < |exits| && exits[j].dest == r.0[k]
        {
          var j :| 0 <= j < |exits[1..]| && exits[1..][j].dest == r.0[k];
          assert exits[j + 1].dest == r.0[k];
        }
      }
    }
  }

  /** The visited set grows only by the locations enqueued. */
  lemma {:induction false} ExpandMarks(locs: seq<Loc>, obs: Option<set<ActorCap>>, exits: seq<Exit>, queue: seq<nat>, visited: set<nat>, r: (seq<nat>, set<nat>))
    requires ExitsInRange(locs, exits) && r == Expand(locs, obs, exits, queue, visited)
    ensures |queue| <= |r.0| && forall x :: x in r.1 && x !in visited ==> x in r.0[|queue|..]
    decreases |exits|
  {
    ExpandGrows(locs, obs, exits, queue, visited, r);
    if exits != [] {
      var d := exits[0].dest;
      if d !in visited && Admits(locs, obs, d) {
        ExpandMarks(locs, obs, exits[1..], queue + [d], visited + {d}, r);
        ExpandGrows(locs, obs, exits[1..], queue + [d], visited + {d}, r);
        assert r.0[|queue|] == r.0[..|queue| + 1][|queue|] == d;
        assert r.0[|queue|..] == [d] + r.0[|queue| + 1..];
      } else {
        ExpandMarks(locs, obs, exits[1..], queue, visited, r);
      }
    }
  }

  /** One step of the search: dequeue the head, mark it visited, expand its exits. */
  function Step(locs: seq<Loc>, obs: Option<set<ActorCap>>, queue: seq<nat>, visited: set<nat>): (r: (seq<nat>, set<nat>))
    requires ValidLocs(locs) && InRange(locs, queue) && queue != []
    ensures InRange(locs, r.0) && |r.0| >= |queue| - 1
  {
    var r := Expand(locs, obs, locs[queue[0]].exits, queue[1..], visited + {queue[0]});
    ExpandGrows(locs, obs, locs[queue[0]].exits, queue[1..], visited + {queue[0]}, r);
    ExpandNew(locs, obs, locs[queue[0]].exits, queue[1..], visited + {queue[0]}, r);
    r
  }

  /** A step either marks a new location or shortens the queue, so the search ends. */
  lemma StepProgress(locs: seq<Loc>, obs: Option<set<ActorCap>>, queue: seq<nat>, visited: set<nat>)
    requires ValidLocs(locs) && InRange(locs, queue) && queue != []
    ensures var (q', v') := Step(locs, obs, queue, visited);
      var u := Indices(|locs|);
      |u - v'| < |u - visited| || (v' == visited && |q'| < |queue|)
  {
    var (q', v') := Step(locs, obs, queue, visited);
    StepQueue(locs, obs, queue, visited);
    var u := Indices(|locs|);
    if queue[0] !in visited {
      Collections.FewerLeft(u, visited, v', queue[0]);
    } else if |q'| > |queue| - 1 {
      Collections.FewerLeft(u, visited, v', q'[|queue| - 1]);
    } else {
      StepShortens(locs, obs, queue, visited);
    }
  }

  lemma StepShortens(locs: seq<Loc>, obs: Option<set<ActorCap>>, queue: seq<nat>, visited: set<nat>)
    requires ValidLocs(locs) && InRange(locs, queue) && queue != []
    requires queue[0] in visited && |Step(locs, obs, queue, visited).0| <= |queue| - 1
    ensures Step(locs, obs, queue, visited).1 == visited
  {
    var (q', v') := Step(locs, obs, queue, visited);
    StepQueue(locs, obs, queue, visited);
    assert q'[|queue| - 1..] == [];
  }

  /** The queue after a step: the rest of the old queue, then the newly enqueued destinations. */
  lemma StepQueue(locs: seq<Loc>, obs: Option<set<ActorCap>>, queue: seq<nat>, visited: set<nat>)
    requires ValidLocs(locs) && InRange(locs, queue) && queue != []
    ensures var (q', v') := Step(locs, obs, queue, visited);
      |q'| >= |queue| - 1
      && (forall k :: 0 <= k < |queue| - 1 ==> q'[k] == queue[k + 1])
      && (forall k :: |queue| - 1 <= k < |q'| ==>
            q'[k] in v' && q'[k] !in visited && q'[k] != queue[0] && Admits(locs, obs, q'[k])
            && Adjacent(locs, queue[0], q'[k]))
      && (forall k1, k2 :: |queue| - 1 <= k1 < k2 < |q'| ==> q'[k1] != q'[k2])
      && visited + {queue[0]} <= v'
      && (forall x :: x in v' && x !in visited + {queue[0]} ==> x in q'[|queue| - 1..])
  {
    var (q', v') := Step(locs, obs, queue, visited);
    var exits := locs[queue[0]].exits;
    ExpandGrows(locs, obs, exits, queue[1..], visited + {queue[0]}, (q', v'));
    ExpandNew(locs, obs, exits, queue[1..], visited + {queue[0]}, (q', v'));
    ExpandMarks(locs, obs, exits, queue[1..], visited + {queue[0]}, (q', v'));
    forall k | |queue| - 1 <= k < |q'|
      ensures Adjacent(locs, queue[0], q'[k])
    {
      var j :| 0 <= j < |exits| && exits[j].dest == q'[k];
    }
    assert forall k :: 0 <= k < |queue| - 1 ==> q'[k] == q'[..|queue| - 1][k];
  }

  /**
   * The locations a GameLocationIterator has still to yield, in order, from the
   * given queue and visited set.
   */
  function Bfs(locs: seq<Loc>, obs: Option<set<ActorCap>>, queue: seq<nat>, visited: set<nat>): (r: seq<nat>)
    requires ValidLocs(locs) && InRange(locs, queue)
    ensures InRange(locs, r)
    ensures r != [] <==> queue != []
    ensures r != [] ==> r[0] == queue[0]
    decreases |Indices(|locs|) - visited|, |queue|
  {
    if queue == [] then []
    else
      StepProgress(locs, obs, queue, visited);
      var (q', v') := Step(locs, obs, queue, visited);
      [queue[0]] + Bfs(locs, obs, q', v')
  }

  lemma BfsUnfold(locs: seq<Loc>, obs: Option<set<ActorCap>>, queue: seq<nat>, visited: set<nat>)
    requires ValidLocs(locs) && InRange(locs, queue) && queue != []
    ensures var (q', v') := Step(locs, obs, queue, visited);
      Bfs(locs, obs, queue, visited) == [queue[0]] + Bfs(locs, obs, q', v')
  {
  }

  /** The locations `for (Location l : here)` visits from location `start`, nearest first. */
  function Search(locs: seq<Loc>, start: nat): seq<nat>
    requires ValidLocs(locs) && start < |locs|
  {
    Bfs(locs, Observer(locs, start), [start], {})
  }

  /** Nothing is yielded twice: a location is marked visited when it is enqueued. */
  lemma {:induction false} BfsDistinct(locs: seq<Loc>, obs: Option<set<ActorCap>>, queue: seq<nat>, visited: set<nat>)
    requires ValidLocs(locs) && InRange(locs, queue)
    requires Collections.Distinct(queue) && forall k :: 1 <= k < |queue| ==> queue[k] in visited
    ensures Collections.Distinct(Bfs(locs, obs, queue, visited))
    ensures forall x :: x in Bfs(locs, obs, queue, visited) ==> x in queue || x !in visited
    decreases |Indices(|locs|) - visited|, |queue|
  {
    if queue != [] {
      StepProgress(locs, obs, queue, visited);
      var (q', v') := Step(locs, obs, queue, visited);
      StepQueue(locs, obs, queue, visited);
      var here := queue[0];
      assert Collections.Distinct(q') by {
        forall k1, k2 | 0 <= k1 < k2 < |q'|
          ensures q'[k1] != q'[k2]
        {
          if k2 < |queue| - 1 {
            assert queue[k1 + 1] != queue[k2 + 1];
          } else if k1 < |queue| - 1 {
            assert queue[k1 + 1] in visited;
          }
        }
      }
      assert forall k :: 0 <= k < |q'| ==> q'[k] in v' by {
        forall k | 0 <= k < |q'|
          ensures q'[k] in v'
        {
          if k < |queue| - 1 {
            assert queue[k + 1] in visited;
          }
        }
      }
      assert here !in q' by {
        forall k | 0 <= k < |q'|
          ensures q'[k] != here
        {
          if k < |queue| - 1 {
            assert queue[k + 1] != queue[0];
          }
        }
      }
      BfsDistinct(locs, obs, q', v');
      BfsUnfold(locs, obs, queue, visited);
      var rest := Bfs(locs, obs, q', v');
      assert here !in rest;
      forall x | x in Bfs(locs, obs, queue, visited)
        ensures x in queue || x !in visited
      {
        if x != here {
          assert x in rest;
          if x in q' {
            var k :| 0 <= k < |q'| && q'[k] == x;
            if k < |queue| - 1 {
              assert queue[k + 1] == x;
            }
          }
        }
      }
    }
  }

  /** With an observer, every location taken into the queue has a ground the observer may enter. */
  lemma {:induction false} BfsAdmits(locs: seq<Loc>, obs: Option<set<ActorCap>>, queue: seq<nat>, visited: set<nat>)
    requires ValidLocs(locs) && InRange(locs, queue)
    requires forall k :: 0 <= k < |queue| ==> Admits(locs, obs, queue[k])
    ensures forall k :: 0 <= k < |Bfs(locs, obs, queue, visited)| ==> Admits(locs, obs, Bfs(locs, obs, queue, visited)[k])
    decreases |Indices(|locs|) - visited|, |queue|
  {
    if queue != [] {
      StepProgress(locs, obs, queue, visited);
      var (q', v') := Step(locs, obs, queue, visited);
      StepQueue(locs, obs, queue, visited);
      BfsAdmits(locs, obs, q', v');
      BfsUnfold(locs, obs, queue, visited);
    }
  }

  /**
   * The annotations of the queue after a step: the head's is dropped and each of
   * the newly enqueued locations (up to length n) gets x.
   */
  function Shift(s: seq<nat>, x: nat, n: nat): (r: seq<nat>)
    requires 1 <= |s| <= n + 1
    ensures |r| == n
    ensures forall k :: 0 <= k < |s| - 1 ==> r[k] == s[k + 1]
    ensures forall k :: |s| - 1 <= k < n ==> r[k] == x
  {
    s[1..] + seq(n - (|s| - 1), _ => x)
  }

  /**
   * The hop depth of each location Bfs yields: a queued location carries its
   * depth, and a location enqueued while expanding one of depth n has depth n + 1.
   */
  ghost function BfsDepths(locs: seq<Loc>, obs: Option<set<ActorCap>>, queue: seq<nat>, depths: seq<nat>, visited: set<nat>): (r: seq<nat>)
    requires ValidLocs(locs) && InRange(locs, queue) && |depths| == |queue|
    ensures |r| == |Bfs(locs, obs, queue, visited)|
    decreases |Indices(|locs|) - visited|, |queue|
  {
    if queue == [] then []
    else
      StepProgress(locs, obs, queue, visited);
      var (q', v') := Step(locs, obs, queue, visited);
      [depths[0]] + BfsDepths(locs, obs, q', Shift(depths, depths[0] + 1, |q'|), v')
  }

  /**
   * For each location Bfs yields, the position in the whole yielded sequence of
   * the location whose exit loop enqueued it; `pos` is the position of the head.
   */
  ghost function BfsParents(locs: seq<Loc>, obs: Option<set<ActorCap>>, queue: seq<nat>, parents: seq<nat>, pos: nat, visited: set<nat>): (r: seq<nat>)
    requires ValidLocs(locs) && InRange(locs, queue) && |parents| == |queue|
    ensures |r| == |Bfs(locs, obs, queue, visited)|
    decreases |Indices(|locs|) - visited|, |queue|
  {
    if queue == [] then []
    else
      StepProgress(locs, obs, queue, visited);
      var (q', v') := Step(locs, obs, queue, visited);
      [parents[0]] + BfsParents(locs, obs, q', Shift(parents, pos, |q'|), pos + 1, v')
  }

  ghost function SearchDepths(locs: seq<Loc>, start: nat): seq<nat>
    requires ValidLocs(locs) && start < |locs|
  {
    BfsDepths(locs, Observer(locs, start), [start], [0], {})
  }

  ghost function SearchParents(locs: seq<Loc>, start: nat): seq<nat>
    requires ValidLocs(locs) && start < |locs|
  {
    BfsParents(locs, Observer(locs, start), [start], [0], 0, {})
  }

  predicate NonDecreasing(s: seq<nat>)
  {
    forall i, j :: 0 <= i <= j < |s| ==> s[i] <= s[j]
  }

  /** Every depth lies in lo..lo + 1. */
  predicate WithinOne(s: seq<nat>, lo: nat)
  {
    forall k :: 0 <= k < |s| ==> lo <= s[k] <= lo + 1
  }

  lemma ShiftDepths(depths: seq<nat>, n: nat)
    requires 1 <= |depths| <= n + 1 && NonDecreasing(depths) && WithinOne(depths, depths[0])
    ensures NonDecreasing(Shift(depths, depths[0] + 1, n))
    ensures n > 0 ==> WithinOne(Shift(depths, depths[0] + 1, n), Shift(depths, depths[0] + 1, n)[0])
    ensures WithinOne(Shift(depths, depths[0] + 1, n), depths[0])
  {
  }

  lemma DepthsUnfold(locs: seq<Loc>, obs: Option<set<ActorCap>>, queue: seq<nat>, depths: seq<nat>, visited: set<nat>, q': seq<nat>, v': set<nat>)
    requires ValidLocs(locs) && InRange(locs, queue) && |depths| == |queue| && queue != []
    requires (q', v') == Step(locs, obs, queue, visited)
    ensures InRange(locs, q') && |q'| >= |queue| - 1
    ensures BfsDepths(locs, obs, queue, depths, visited) == [depths[0]] + BfsDepths(locs, obs, q', Shift(depths, depths[0] + 1, |q'|), v')
  {
  }

  /** The queue is FIFO, so depths never decrease along the yielded sequence. */
  lemma {:induction false} BfsDepthsSorted(locs: seq<Loc>, obs: Option<set<ActorCap>>, queue: seq<nat>, depths: seq<nat>, visited: set<nat>)
    requires ValidLocs(locs) && InRange(locs, queue) && |depths| == |queue|
    requires NonDecreasing(depths) && (queue != [] ==> WithinOne(depths, depths[0]))
    ensures NonDecreasing(BfsDepths(locs, obs, queue, depths, visited))
    ensures queue != [] ==> forall k :: 0 <= k < |BfsDepths(locs, obs, queue, depths, visited)| ==>
      depths[0] <= BfsDepths(locs, obs, queue, depths, visited)[k]
    decreases |Indices(|locs|) - visited|, |queue|
  {
    if queue != [] {
      StepProgress(locs, obs, queue, visited);
      var st := Step(locs, obs, queue, visited);
      var dq' := Shift(depths, depths[0] + 1, |st.0|);
      DepthsUnfold(locs, obs, queue, depths, visited, st.0, st.1);
      ShiftDepths(depths, |st.0|);
      BfsDepthsSorted(locs, obs, st.0, dq', st.1);
      var rest := BfsDepths(locs, obs, st.0, dq', st.1);
      assert forall k :: 0 <= k < |rest| ==> depths[0] <= rest[k] by {
        if st.0 != [] {
          assert depths[0] <= dq'[0];
        }
      }
      ConsSorted(depths[0], rest);
    }
  }

  /** A non-decreasing sequence stays so with a smaller element in front. */
  lemma ConsSorted(d: nat, rest: seq<nat>)
    requires NonDecreasing(rest) && forall k :: 0 <= k < |rest| ==> d <= rest[k]
    ensures NonDecreasing([d] + rest) && forall k :: 0 <= k < |[d] + rest| ==> d <= ([d] + rest)[k]
  {
    assert forall k :: 0 < k < |[d] + rest| ==> ([d] + rest)[k] == rest[k - 1];
  }

  /** Bfs, BfsDepths and BfsParents after one step of the search. */
  lemma TraceUnfold(locs: seq<Loc>, obs: Option<set<ActorCap>>, queue: seq<nat>, depths: seq<nat>, parents: seq<nat>,
                    pos: nat, visited: set<nat>, q': seq<nat>, v': set<nat>)
    requires ValidLocs(locs) && InRange(locs, queue) && |depths| == |queue| && |parents| == |queue| && queue != []
    requires (q', v') == Step(locs, obs, queue, visited)
    ensures InRange(locs, q') && |q'| >= |queue| - 1
    ensures Bfs(locs, obs, queue, visited) == [queue[0]] + Bfs(locs, obs, q', v')
    ensures BfsDepths(locs, obs, queue, depths, visited) == [depths[0]] + BfsDepths(locs, obs, q', Shift(depths, depths[0] + 1, |q'|), v')
    ensures BfsParents(locs, obs, queue, parents, pos, visited) == [parents[0]] + BfsParents(locs, obs, q', Shift(parents, pos, |q'|), pos + 1, v')
  {
  }

  /**
   * The j-th yielded location hangs off an earlier one: its recorded parent is
   * a position either in the history h or in out before j, the location is an
   * exit destination of that parent, and it lies one level deeper.
   */
  predicate TreeAt(locs: seq<Loc>, h: seq<nat>, hd: seq<nat>, out: seq<nat>, od: seq<nat>, op: seq<nat>, j: nat)
    requires InRange(locs, h) && InRange(locs, out) && |hd| == |h| && |od| == |out| && |op| == |out| && j < |out|
  {
    op[j] < |h| + j &&
    if op[j] < |h| then Adjacent(locs, h[op[j]], out[j]) && od[j] == hd[op[j]] + 1
    else Adjacent(locs, out[op[j] - |h|], out[j]) && od[j] == od[op[j] - |h|] + 1
  }

  predicate Tree(locs: seq<Loc>, h: seq<nat>, hd: seq<nat>, out: seq<nat>, od: seq<nat>, op: seq<nat>)
    requires InRange(locs, h) && InRange(locs, out) && |hd| == |h| && |od| == |out| && |op| == |out|
  {
    forall j :: 0 <= j < |out| ==> TreeAt(locs, h, hd, out, od, op, j)
  }

  /** Every queued location hangs off a location of the history h, one level deeper. */
  predicate Hangs(locs: seq<Loc>, h: seq<nat>, hd: seq<nat>, queue: seq<nat>, depths: seq<nat>, parents: seq<nat>)
    requires InRange(locs, h) && |hd| == |h| && |depths| == |queue| && |parents| == |queue|
  {
    forall k :: 0 <= k < |queue| ==>
      parents[k] < |h| && Adjacent(locs, h[parents[k]], queue[k]) && depths[k] == hd[parents[k]] + 1
  }

  /** Dequeuing the head into the history keeps every queued location hanging off it. */
  lemma HangsStep(locs: seq<Loc>, h: seq<nat>, hd: seq<nat>, queue: seq<nat>, depths: seq<nat>, parents: seq<nat>, q': seq<nat>)
    requires InRange(locs, h) && InRange(locs, queue) && |hd| == |h| && |depths| == |queue| && |parents| == |queue|
    requires queue != [] && Hangs(locs, h, hd, queue, depths, parents)
    requires |q'| >= |queue| - 1 && forall k :: 0 <= k < |queue| - 1 ==> q'[k] == queue[k + 1]
    requires forall k :: |queue| - 1 <= k < |q'| ==> Adjacent(locs, queue[0], q'[k])
    ensures Hangs(locs, h + [queue[0]], hd + [depths[0]], q', Shift(depths, depths[0] + 1, |q'|), Shift(parents, |h|, |q'|))
  {
    var h', hd' := h + [queue[0]], hd + [depths[0]];
    var dq', pq' := Shift(depths, depths[0] + 1, |q'|), Shift(parents, |h|, |q'|);
    forall k | 0 <= k < |q'|
      ensures pq'[k] < |h'| && Adjacent(locs, h'[pq'[k]], q'[k]) && dq'[k] == hd'[pq'[k]] + 1
    {
      if k < |queue| - 1 {
        assert q'[k] == queue[k + 1] && pq'[k] == parents[k + 1];
      }
    }
  }

  lemma StepHangs(locs: seq<Loc>, obs: Option<set<ActorCap>>, h: seq<nat>, hd: seq<nat>,
                  queue: seq<nat>, depths: seq<nat>, parents: seq<nat>, visited: set<nat>)
    requires ValidLocs(locs) && InRange(locs, queue) && InRange(locs, h) && |hd| == |h|
    requires |depths| == |queue| && |parents| == |queue| && queue != []
    requires Hangs(locs, h, hd, queue, depths, parents)
    ensures var q' := Step(locs, obs, queue, visited).0;
      Hangs(locs, h + [queue[0]], hd + [depths[0]], q', Shift(depths, depths[0] + 1, |q'|), Shift(parents, |h|, |q'|))
  {
    StepQueue(locs, obs, queue, visited);
    HangsStep(locs, h, hd, queue, depths, parents, Step(locs, obs, queue, visited).0);
  }

  /** A tree hanging off the history h + [x] is, with x put in front, a tree hanging off h. */
  lemma TreeShift(locs: seq<Loc>, h: seq<nat>, hd: seq<nat>, x: nat, d: nat, p: nat, rest: seq<nat>, rd: seq<nat>, rp: seq<nat>,
                  out: seq<nat>, od: seq<nat>, op: seq<nat>)
    requires InRange(locs, h) && InRange(locs, rest) && x < |locs| && |hd| == |h| && |rd| == |rest| && |rp| == |rest|
    requires Tree(locs, h + [x], hd + [d], rest, rd, rp)
    requires out == [x] + rest && od == [d] + rd && op == [p] + rp
    ensures InRange(locs, out)
    ensures forall j :: 1 <= j < |out| ==> TreeAt(locs, h, hd, out, od, op, j)
  {
    forall j | 1 <= j < |out|
      ensures TreeAt(locs, h, hd, out, od, op, j)
    {
      assert TreeAt(locs, h + [x], hd + [d], rest, rd, rp, j - 1);
      assert out[j] == rest[j - 1] && od[j] == rd[j - 1] && op[j] == rp[j - 1];
      var q := rp[j - 1];
      if q < |h| {
        assert (h + [x])[q] == h[q] && (hd + [d])[q] == hd[q];
      } else if q == |h| {
        assert (h + [x])[q] == out[0] && (hd + [d])[q] == od[0];
      } else {
        assert rest[q - |h| - 1] == out[q - |h|] && rd[q - |h| - 1] == od[q - |h|];
      }
    }
  }

  /** Locations hanging off the history h are yielded as a tree hanging off h. */
  lemma {:induction false} BfsTree(locs: seq<Loc>, obs: Option<set<ActorCap>>, h: seq<nat>, hd: seq<nat>,
                                   queue: seq<nat>, depths: seq<nat>, parents: seq<nat>, visited: set<nat>)
    requires ValidLocs(locs) && InRange(locs, queue) && InRange(locs, h) && |hd| == |h|
    requires |depths| == |queue| && |parents| == |queue|
    requires Hangs(locs, h, hd, queue, depths, parents)
    ensures Tree(locs, h, hd, Bfs(locs, obs, queue, visited), BfsDepths(locs, obs, queue, depths, visited),
                 BfsParents(locs, obs, queue, parents, |h|, visited))
    decreases |Indices(|locs|) - visited|, |queue|
  {
    if queue != [] {
      StepProgress(locs, obs, queue, visited);
      var st := Step(locs, obs, queue, visited);
      var q', v' := st.0, st.1;
      TraceUnfold(locs, obs, queue, depths, parents, |h|, visited, q', v');
      StepHangs(locs, obs, h, hd, queue, depths, parents, visited);
      var dq', pq' := Shift(depths, depths[0] + 1, |q'|), Shift(parents, |h|, |q'|);
      BfsTree(locs, obs, h + [queue[0]], hd + [depths[0]], q', dq', pq', v');
      TreeShift(locs, h, hd, queue[0], depths[0], parents[0], Bfs(locs, obs, q', v'),
                BfsDepths(locs, obs, q', dq', v'), BfsParents(locs, obs, q', pq', |h| + 1, v'),
                Bfs(locs, obs, queue, visited), BfsDepths(locs, obs, queue, depths, visited),
                BfsParents(locs, obs, queue, parents, |h|, visited));
    }
  }

  /** The first location yielded is the start location itself. */
  lemma SearchStartsHere(locs: seq<Loc>, start: nat)
    requires ValidLocs(locs) && start < |locs|
    ensures Search(locs, start) != [] && Search(locs, start)[0] == start
  {
  }

  /** Each location is yielded at most once. */
  lemma SearchOnce(locs: seq<Loc>, start: nat)
    requires ValidLocs(locs) && start < |locs|
    ensures Collections.Distinct(Search(locs, start))
  {
    BfsDistinct(locs, Observer(locs, start), [start], {});
  }

  /** Every yielded location after the start has a ground the observer may enter. */
  lemma SearchAdmits(locs: seq<Loc>, start: nat)
    requires ValidLocs(locs) && start < |locs|
    ensures forall j :: 1 <= j < |Search(locs, start)| ==> Admits(locs, Observer(locs, start), Search(locs, start)[j])
  {
    var obs := Observer(locs, start);
    StepProgress(locs, obs, [start], {});
    var st := Step(locs, obs, [start], {});
    StepQueue(locs, obs, [start], {});
    BfsAdmits(locs, obs, st.0, st.1);
    BfsUnfold(locs, obs, [start], {});
  }

  /** Yielded depths start at 0 and never decrease. */
  lemma SearchDepthsSorted(locs: seq<Loc>, start: nat)
    requires ValidLocs(locs) && start < |locs|
    ensures var od := SearchDepths(locs, start);
      |od| == |Search(locs, start)| && od[0] == 0 && NonDecreasing(od)
  {
    BfsDepthsSorted(locs, Observer(locs, start), [start], [0], {});
  }

  /** The search from `start` is a tree hanging off its first element. */
  lemma SearchTrace(locs: seq<Loc>, start: nat)
    requires ValidLocs(locs) && start < |locs|
    ensures InRange(locs, Search(locs, start))
    ensures |SearchDepths(locs, start)| == |SearchParents(locs, start)| == |Search(locs, start)|
    ensures forall j :: 1 <= j < |Search(locs, start)| ==>
      TreeAt(locs, [], [], Search(locs, start), SearchDepths(locs, start), SearchParents(locs, start), j)
  {
    var obs := Observer(locs, start);
    StepProgress(locs, obs, [start], {});
    var st := Step(locs, obs, [start], {});
    var q', v' := st.0, st.1;
    TraceUnfold(locs, obs, [start], [0], [0], 0, {}, q', v');
    var dq', pq' := Shift([0], 1, |q'|), Shift([0], 0, |q'|);
    StepQueue(locs, obs, [start], {});
    assert Hangs(locs, [start], [0], q', dq', pq');
    BfsTree(locs, obs, [start], [0], q', dq', pq', v');
    assert [] + [start] == [start] && [] + [0] == [0];
    TreeShift(locs, [], [], start, 0, 0, Bfs(locs, obs, q', v'), BfsDepths(locs, obs, q', dq', v'), BfsParents(locs, obs, q', pq', 1, v'),
              Search(locs, start), SearchDepths(locs, start), SearchParents(locs, start));
  }

  /**
   * Each yielded location after the start is an exit destination of a location
   * yielded before it, and exactly one level deeper than that location.
   */
  lemma SearchTree(locs: seq<Loc>, start: nat)
    requires ValidLocs(locs) && start < |locs|
    ensures var out := Search(locs, start); var od := SearchDepths(locs, start); var op := SearchParents(locs, start);
      forall j {:trigger op[j]} :: 1 <= j < |out| ==>
        op[j] < j && Adjacent(locs, out[op[j]], out[j]) && od[j] == od[op[j]] + 1
  {
    SearchTrace(locs, start);
    var out, od, op := Search(locs, start), SearchDepths(locs, start), SearchParents(locs, start);
    forall j | 1 <= j < |out|
      ensures op[j] < j && Adjacent(locs, out[op[j]], out[j]) && od[j] == od[op[j]] + 1
    {
      assert TreeAt(locs, [], [], out, od, op, j);
    }
  }

  /** Expanding a location's exits enqueues or has already visited every destination the observer may enter. */
  lemma {:induction false} ExpandCovers(locs: seq<Loc>, obs: Option<set<ActorCap>>, exits: seq<Exit>, queue: seq<nat>, visited: set<nat>)
    requires ExitsInRange(locs, exits)
    ensures forall j :: 0 <= j < |exits| && Admits(locs, obs, exits[j].dest) ==>
      exits[j].dest in Expand(locs, obs, exits, queue, visited).1
    decreases |exits|
  {
    if exits != [] {
      var d := exits[0].dest;
      var r := Expand(locs, obs, exits, queue, visited);
      if d !in visited && Admits(locs, obs, d) {
        ExpandCovers(locs, obs, exits[1..], queue + [d], visited + {d});
        ExpandGrows(locs, obs, exits[1..], queue + [d], visited + {d}, r);
      } else {
        ExpandCovers(locs, obs, exits[1..], queue, visited);
        ExpandGrows(locs, obs, exits[1..], queue, visited, r);
      }
      assert forall j :: 1 <= j < |exits| ==> exits[j] == exits[1..][j - 1];
    }
  }

  /** Every destination the observer may enter from a location of h lies in the set s. */
  predicate ExitsWithin(locs: seq<Loc>, obs: Option<set<ActorCap>>, h: seq<nat>, s: set<nat>)
    requires ValidLocs(locs) && InRange(locs, h)
  {
    forall i, j :: 0 <= i < |h| && 0 <= j < |locs[h[i]].exits| && Admits(locs, obs, locs[h[i]].exits[j].dest) ==>
      locs[h[i]].exits[j].dest in s
  }

  /** Every destination the observer may enter from a location of h is one of the locations of t. */
  predicate ExitsInto(locs: seq<Loc>, obs: Option<set<ActorCap>>, h: seq<nat>, t: seq<nat>)
    requires ValidLocs(locs) && InRange(locs, h)
  {
    forall i, j :: 0 <= i < |h| && 0 <= j < |locs[h[i]].exits| && Admits(locs, obs, locs[h[i]].exits[j].dest) ==>
      locs[h[i]].exits[j].dest in t
  }

  lemma ExitsIntoFromWithin(locs: seq<Loc>, obs: Option<set<ActorCap>>, h: seq<nat>, s: set<nat>)
    requires ValidLocs(locs) && InRange(locs, h) && ExitsWithin(locs, obs, h, s)
    requires forall x :: x in s ==> x in h
    ensures ExitsInto(locs, obs, h, h)
  {
  }

  /** After a step, every visited location has been yielded or is still queued. */
  lemma StepVisitedCovered(locs: seq<Loc>, obs: Option<set<ActorCap>>, h: seq<nat>, queue: seq<nat>, visited: set<nat>)
    requires ValidLocs(locs) && InRange(locs, queue) && queue != []
    requires forall x :: x in visited ==> x in h || x in queue
    ensures var (q', v') := Step(locs, obs, queue, visited);
      forall x :: x in v' ==> x in h + [queue[0]] || x in q'
  {
    StepQueue(locs, obs, queue, visited);
    var (q', v') := Step(locs, obs, queue, visited);
    forall x | x in v'
      ensures x in h + [queue[0]] || x in q'
    {
      if x in visited && x !in h && x != queue[0] {
        var k :| 0 <= k < |queue| && queue[k] == x;
        assert q'[k - 1] == x;
      } else if x !in visited + {queue[0]} {
        var k :| 0 <= k < |q'[|queue| - 1..]| && q'[|queue| - 1..][k] == x;
        assert q'[k + |queue| - 1] == x;
      }
    }
  }

  /** After a step, the exits of the dequeued location lead only to visited locations. */
  lemma StepExitsWithin(locs: seq<Loc>, obs: Option<set<ActorCap>>, h: seq<nat>, queue: seq<nat>, visited: set<nat>)
    requires ValidLocs(locs) && InRange(locs, h) && InRange(locs, queue) && queue != []
    requires ExitsWithin(locs, obs, h, visited)
    ensures ExitsWithin(locs, obs, h + [queue[0]], Step(locs, obs, queue, visited).1)
  {
    StepQueue(locs, obs, queue, visited);
    var (q', v') := Step(locs, obs, queue, visited);
    var h' := h + [queue[0]];
    ExpandCovers(locs, obs, locs[queue[0]].exits, queue[1..], visited + {queue[0]});
    forall i, j | 0 <= i < |h'| && 0 <= j < |locs[h'[i]].exits| && Admits(locs, obs, locs[h'[i]].exits[j].dest)
      ensures locs[h'[i]].exits[j].dest in v'
    {
      if i < |h| {
        assert h'[i] == h[i];
      }
    }
  }

  /**
   * Once the queue runs dry, the locations yielded (h, then the rest of the
   * search) are closed under the exits the observer may take.
   */
  lemma {:induction false} BfsClosed(locs: seq<Loc>, obs: Option<set<ActorCap>>, h: seq<nat>, queue: seq<nat>, visited: set<nat>)
    requires ValidLocs(locs) && InRange(locs, h) && InRange(locs, queue)
    requires forall x :: x in visited ==> x in h || x in queue
    requires ExitsWithin(locs, obs, h, visited)
    ensures var t := h + Bfs(locs, obs, queue, visited); ExitsInto(locs, obs, t, t)
    decreases |Indices(|locs|) - visited|, |queue|
  {
    if queue == [] {
      assert h + Bfs(locs, obs, queue, visited) == h;
      ExitsIntoFromWithin(locs, obs, h, visited);
    } else {
      StepProgress(locs, obs, queue, visited);
      var r := Step(locs, obs, queue, visited);
      StepVisitedCovered(locs, obs, h, queue, visited);
      StepExitsWithin(locs, obs, h, queue, visited);
      BfsClosed(locs, obs, h + [queue[0]], r.0, r.1);
      BfsShift(locs, obs, h, queue, visited);
    }
  }

  /** Moving the head of the queue onto the locations already yielded. */
  lemma BfsShift(locs: seq<Loc>, obs: Option<set<ActorCap>>, h: seq<nat>, queue: seq<nat>, visited: set<nat>)
    requires ValidLocs(locs) && InRange(locs, queue) && queue != []
    ensures var r := Step(locs, obs, queue, visited);
      h + Bfs(locs, obs, queue, visited) == (h + [queue[0]]) + Bfs(locs, obs, r.0, r.1)
  {
    var r := Step(locs, obs, queue, visited);
    var rest := Bfs(locs, obs, r.0, r.1);
    BfsUnfold(locs, obs, queue, visited);
    assert h + ([queue[0]] + rest) == (h + [queue[0]]) + rest;
  }

  /**
   * The search reaches everything it can: every destination the observer may
   * enter from a yielded location is yielded too.
   */
  lemma SearchReachesAll(locs: seq<Loc>, start: nat)
    requires ValidLocs(locs) && start < |locs|
    ensures var out := Search(locs, start);
      forall i, j :: (0 <= i < |out| && 0 <= j < |locs[out[i]].exits|
                      && Admits(locs, Observer(locs, start), locs[out[i]].exits[j].dest)) ==>
        locs[out[i]].exits[j].dest in out
  {
    BfsClosed(locs, Observer(locs, start), [], [start], {});
    assert [] + Search(locs, start) == Search(locs, start);
  }

  // ----- GameLocationIterator -----

  /**
   * The iterator GameLocation.iterator() returns: a FIFO queue of locations
   * still to be yielded, the set of locations already dequeued or enqueued,
   * and the observing actor's capabilities (None when nobody stands at the start).
   */
  class LocationIterator {
    const locs: seq<Loc>
    const observer: Option<set<ActorCap>>
    var queue: seq<nat>
    var visited: set<nat>

    ghost predicate Valid()
      reads this
    {
      ValidLocs(locs) && InRange(locs, queue)
    }

    /** The locations this iterator has still to yield, in order. */
    ghost function Remaining(): seq<nat>
      reads this
      requires Valid()
    {
      Bfs(locs, observer, queue, visited)
    }

    /** GameLocation.iterator(): the start alone in the queue, nothing visited, observed by the actor standing there. */
    constructor (locs: seq<Loc>, start: nat)
      requires ValidLocs(locs) && start < |locs|
      ensures Valid() && this.locs == locs
      ensures queue == [start] && visited == {} && observer == Observer(locs, start)
      ensures Remaining() == Search(locs, start)
    {
      this.locs := locs;
      observer := Observer(locs, start);
      queue := [start];
      visited := {};
    }

    /** hasNext: something is left exactly when the queue is non-empty. */
    function HasNext(): (b: bool)
      reads this
      requires Valid()
      ensures b <==> Remaining() != []
    {
      queue != []
    }

    /**
     * next: on an empty queue nothing changes and None (null) comes back;
     * otherwise the head is dequeued and marked visited, every unvisited
     * destination of its exits that the observer may enter is enqueued and
     * marked, and the head is returned.
     */
    method Next() returns (r: Option<nat>)
      requires Valid()
      modifies this
      ensures Valid()
      ensures old(queue) == [] ==> r == None && queue == old(queue) && visited == old(visited)
      ensures old(queue) != [] ==> r == Some(old(queue)[0]) && (queue, visited) == Step(locs, observer, old(queue), old(visited))
      ensures old(Remaining()) == (if r.Some? then [r.value] + Remaining() else [])
      ensures old(queue) != [] ==>
        |Indices(|locs|) - visited| < |Indices(|locs|) - old(visited)|
        || (visited == old(visited) && |queue| < |old(queue)|)
    {
      if queue == [] {
        return None;
      }
      ghost var q0, v0 := queue, visited;
      var here := queue[0];
      queue := queue[1..];
      visited := visited + {here};
      var exits := locs[here].exits;
      var i := 0;
      while i < |exits|
        invariant 0 <= i <= |exits| && InRange(locs, queue)
        invariant Expand(locs, observer, exits[i..], queue, visited) == Step(locs, observer, q0, v0)
      {
        assert exits[i..][1..] == exits[i + 1..];
        var d := exits[i].dest;
        if d !in visited && (observer.None? || CanActorEnter(locs[d].ground, observer.value)) {
          queue := queue + [d];
          visited := visited + {d};
        }
        i := i + 1;
      }
      assert exits[i..] == [];
      StepProgress(locs, observer, q0, v0);
      BfsUnfold(locs, observer, q0, v0);
      return Some(here);
    }
  }

  // ----- the per-turn ground update -----

  /** countNeighbour: how many exits lead to a ground that has the capability. */
  function CountNeighbour(locs: seq<Loc>, exits: seq<Exit>, cap: GroundCap): (n: nat)
    requires ExitsInRange(locs, exits)
    ensures n <= |exits|
    decreases |exits|
  {
    if exits == [] then 0
    else (if cap in Caps(locs[exits[0].dest].ground) then 1 else 0) + CountNeighbour(locs, exits[1..], cap)
  }

  /** The count is at most the number of exits, 0 exactly when no exit has the capability, and all of them exactly when every exit has it. */
  lemma {:induction false} CountNeighbourSpec(locs: seq<Loc>, exits: seq<Exit>, cap: GroundCap)
    requires ExitsInRange(locs, exits)
    ensures CountNeighbour(locs, exits, cap) <= |exits|
    ensures CountNeighbour(locs, exits, cap) == 0 <==> forall j :: 0 <= j < |exits| ==> cap !in Caps(locs[exits[j].dest].ground)
    ensures CountNeighbour(locs, exits, cap) == |exits| <==> forall j :: 0 <= j < |exits| ==> cap in Caps(locs[exits[j].dest].ground)
    decreases |exits|
  {
    if exits != [] {
      CountNeighbourSpec(locs, exits[1..], cap);
      assert forall j :: 1 <= j < |exits| ==> exits[j] == exits[1..][j - 1];
    }
  }

  /** Counting over a concatenation of exit lists adds the counts. */
  lemma {:induction false} CountNeighbourAppend(locs: seq<Loc>, a: seq<Exit>, b: seq<Exit>, cap: GroundCap)
    requires ExitsInRange(locs, a) && ExitsInRange(locs, b)
    ensures ExitsInRange(locs, a + b)
    ensures CountNeighbour(locs, a + b, cap) == CountNeighbour(locs, a, cap) + CountNeighbour(locs, b, cap)
    decreases |a|
  {
    if a == [] {
      assert a + b == b;
    } else {
      assert (a + b)[0] == a[0] && (a + b)[1..] == a[1..] + b;
      CountNeighbourAppend(locs, a[1..], b, cap);
    }
  }

  /**
   * The random draws of updateLocation, as outcomes: `nearBushes` is
   * nextDouble() <= 0.1 (drawn only when at least two neighbours are short
   * plants), `anywhere` is nextDouble() <= 0.01 and `crush` is nextBoolean().
   */
  datatype Draws = Draws(nearBushes: bool, anywhere: bool, crush: bool)

  /** Fertile ground with no growth-blocking neighbour: the first test of updateLocation. */
  predicate CanSprout(locs: seq<Loc>, i: nat)
    requires ValidLocs(locs) && i < |locs|
  {
    Fertile in Caps(locs[i].ground) && CountNeighbour(locs, locs[i].exits, BlocksShortPlantGrowth) == 0
  }

  predicate IsCrushedBy(locs: seq<Loc>, i: nat)
    requires i < |locs|
  {
    locs[i].actor.Some? && CrushGround in ActorCaps(locs[i].actor.value) && Crushable in Caps(locs[i].ground)
  }

  /** The ground updateLocation leaves at location i. */
  function UpdatedGround(locs: seq<Loc>, i: nat, dr: Draws): (g: Ground)
    requires ValidLocs(locs) && i < |locs|
    ensures g == locs[i].ground || g == NewBush() || g == Dirt
  {
    var g := locs[i].ground;
    if CanSprout(locs, i) then
      if (CountNeighbour(locs, locs[i].exits, ShortPlant) >= 2 && dr.nearBushes) || dr.anywhere then NewBush() else g
    else if IsCrushedBy(locs, i) && dr.crush then Dirt
    else g
  }

  /**
   * A bush sprouts only on fertile ground with no growth-blocking neighbour, and ground is
   * crushed to dirt only when it cannot sprout, a ground-crushing actor stands
   * on it, it is crushable and the coin says so; otherwise it stays.
   */
  lemma UpdatedGroundCases(locs: seq<Loc>, i: nat, dr: Draws)
    requires ValidLocs(locs) && i < |locs|
    ensures var g, r := locs[i].ground, UpdatedGround(locs, i, dr);
      (r == g)
      || (r == NewBush() && CanSprout(locs, i)
          && ((CountNeighbour(locs, locs[i].exits, ShortPlant) >= 2 && dr.nearBushes) || dr.anywhere))
      || (r == Dirt && g != Dirt && !CanSprout(locs, i) && IsCrushedBy(locs, i) && dr.crush)
    ensures CanSprout(locs, i) ==> UpdatedGround(locs, i, dr) != Dirt || locs[i].ground == Dirt
    ensures !CanSprout(locs, i) && !(IsCrushedBy(locs, i) && dr.crush) ==> UpdatedGround(locs, i, dr) == locs[i].ground
  {
  }
}
