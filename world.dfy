/**
 * GameWorld: the game loop's own bookkeeping. It holds the turn counter, the
 * optional challenge-mode limits, the termination test and the end message,
 * and, once per round, the rain that may fall every tenth turn. The
 * engine's actor processing and map tick are not part of this model.
 */
module GameWorlds {
  import opened Wrappers
  import opened Grounds
  import opened Dinosaurs
  import opened Locations
  import opened Actions
  import Players

  /** The random draws of one round: whether the 20% rain roll succeeds, and Math.floor(rainfall * 20). */
  datatype Weather = Weather(raining: bool, rainfall: nat)

  /**
   * The (sipsAdded, rainDrops) of one round. Rain can only fall when the turn
   * count is a multiple of 10 and the roll succeeds; it then adds the
   * rainfall to every lake and 10 water points to every dinosaur.
   */
  function Rain(turns: nat, w: Weather): (r: (nat, int))
    ensures turns % 10 != 0 || !w.raining ==> r == (0, 0)
    ensures turns % 10 == 0 && w.raining ==> r.0 == w.rainfall && r.1 == 10
  {
    if turns % 10 == 0 && w.raining then (w.rainfall, 10) else (0, 0)
  }

  /** Two turns fewer than ten apart cannot both bring rain. */
  lemma RainAtMostOncePerTen(t1: nat, t2: nat, w1: Weather, w2: Weather)
    requires t1 < t2 < t1 + 10
    ensures Rain(t1, w1) == (0, 0) || Rain(t2, w2) == (0, 0)
  {
  }

  /**
   * What the tick loop does to one location: a water body gets the sips
   * (addSips accepts them, as they are never negative), and an actor other
   * than the player, always a dinosaur, quenches its thirst by the drops.
   */
  function RainedLoc(l: Loc, sips: nat, drops: int): (r: Loc)
    ensures r.x == l.x && r.y == l.y && r.items == l.items && r.exits == l.exits
    ensures l.ground.Lake? ==> AddSips(l.ground, sips) == Ok(r.ground)
    ensures !l.ground.Lake? ==> r.ground == l.ground
    ensures (l.actor.None? || l.actor.value.PlayerActor?) ==> r.actor == l.actor
    ensures l.actor.Some? && l.actor.value.DinoActor? ==>
      r.actor == Some(DinoActor(QuenchThirst(l.actor.value.dino, drops)))
  {
    l.(ground := if l.ground.Lake? then AddSips(l.ground, sips).value else l.ground,
       actor := if l.actor.Some? && l.actor.value.DinoActor?
         then Some(DinoActor(QuenchThirst(l.actor.value.dino, drops))) else l.actor)
  }

  /** The tick loop over every location of every map. */
  function Rained(locs: seq<Loc>, sips: nat, drops: int): (r: seq<Loc>)
    ensures |r| == |locs| && forall i :: 0 <= i < |locs| ==> r[i] == RainedLoc(locs[i], sips, drops)
    ensures ValidLocs(locs) ==> ValidLocs(r)
  {
    seq(|locs|, i requires 0 <= i < |locs| => RainedLoc(locs[i], sips, drops))
  }

  /** No dinosaur holds more water than its maximum. */
  predicate WaterWithinMax(locs: seq<Loc>)
  {
    forall i :: 0 <= i < |locs| && HasDino(locs, i) ==> DinoAt(locs, i).water <= MaxWater(DinoAt(locs, i))
  }

  /**
   * A round without rain changes no location, as long as no dinosaur is
   * above its maximum water level (quenchThirst(0) caps the level).
   */
  lemma DryRoundChangesNothing(locs: seq<Loc>)
    requires WaterWithinMax(locs)
    ensures Rained(locs, 0, 0) == locs
  {
    forall i | 0 <= i < |locs| ensures RainedLoc(locs[i], 0, 0) == locs[i] {
      var l := locs[i];
      if l.ground.Lake? {
        assert AddSips(l.ground, 0).value == l.ground;
      }
      if HasDino(locs, i) {
        assert QuenchThirst(DinoAt(locs, i), 0) == DinoAt(locs, i);
      }
    }
  }

  /** Rain keeps every dinosaur's water within its maximum and never lowers it; lakes gain exactly the sips. */
  lemma RainKeepsWaterWithinMax(locs: seq<Loc>, sips: nat, drops: nat)
    requires WaterWithinMax(locs)
    ensures WaterWithinMax(Rained(locs, sips, drops))
    ensures forall i :: 0 <= i < |locs| && HasDino(locs, i) ==>
      HasDino(Rained(locs, sips, drops), i) && DinoAt(locs, i).water <= DinoAt(Rained(locs, sips, drops), i).water
    ensures forall i :: 0 <= i < |locs| && locs[i].ground.Lake? ==>
      Rained(locs, sips, drops)[i].ground == locs[i].ground.(sips := locs[i].ground.sips + sips)
  {
    var r := Rained(locs, sips, drops);
    forall i | 0 <= i < |locs| && HasDino(locs, i)
      ensures HasDino(r, i) && DinoAt(locs, i).water <= DinoAt(r, i).water <= MaxWater(DinoAt(r, i))
    {
      QuenchThirstSpec(DinoAt(locs, i), drops, 0);
    }
  }

  /** The locations after the first n rounds, the first of them played on turn t0. */
  function Rounds(locs: seq<Loc>, t0: nat, weather: seq<Weather>, n: nat): (r: seq<Loc>)
    requires n <= |weather|
    ensures |r| == |locs|
    ensures ValidLocs(locs) ==> ValidLocs(r)
  {
    if n == 0 then locs
    else
      var (sips, drops) := Rain(t0 + n - 1, weather[n - 1]);
      Rained(Rounds(locs, t0, weather, n - 1), sips, drops)
  }

  /** Rounds that bring no rain leave the world as it was (water within the maxima). */
  lemma {:induction false} DryRoundsChangeNothing(locs: seq<Loc>, t0: nat, weather: seq<Weather>, n: nat)
    requires n <= |weather| && WaterWithinMax(locs)
    requires forall k :: 0 <= k < n ==> Rain(t0 + k, weather[k]) == (0, 0)
    ensures Rounds(locs, t0, weather, n) == locs
  {
    if n > 0 {
      DryRoundsChangeNothing(locs, t0, weather, n - 1);
      assert Rain(t0 + (n - 1), weather[n - 1]) == (0, 0);
      DryRoundChangesNothing(locs);
    }
  }

  /** Rounds keep every dinosaur's water within its maximum. */
  lemma {:induction false} RoundsKeepWaterWithinMax(locs: seq<Loc>, t0: nat, weather: seq<Weather>, n: nat)
    requires n <= |weather| && WaterWithinMax(locs)
    ensures WaterWithinMax(Rounds(locs, t0, weather, n))
  {
    if n > 0 {
      RoundsKeepWaterWithinMax(locs, t0, weather, n - 1);
      var (sips, drops) := Rain(t0 + n - 1, weather[n - 1]);
      RainKeepsWaterWithinMax(Rounds(locs, t0, weather, n - 1), sips, drops);
    }
  }

  /** The tick loop of one round: every location of every map, rain applied to each. */
  method RainTick(board: Board, sips: nat, drops: int)
    modifies board
    ensures board.locs == Rained(old(board.locs), sips, drops)
  {
    ghost var l0 := board.locs;
    var i := 0;
    while i < |board.locs|
      invariant 0 <= i <= |board.locs| && |board.locs| == |l0|
      invariant forall j :: 0 <= j < i ==> board.locs[j] == RainedLoc(l0[j], sips, drops)
      invariant forall j :: i <= j < |l0| ==> board.locs[j] == l0[j]
    {
      var here := board.locs[i];
      if here.ground.Lake? {
        var g := AddSips(here.ground, sips);
        board.SetGround(i, g.value);
      }
      if here.actor.Some? && here.actor.value.DinoActor? {
        board.SetDino(i, QuenchThirst(here.actor.value.dino, drops));
      }
      i := i + 1;
    }
  }

  const WonMessage := "###   Player won!   ###"
  const LostMessage := "###   Player lost.   ###"

  /** The world: the turn counter, the optional limits of challenge mode, and the one player. */
  class World {
    const maxTurns: Option<int>
    const winningPoints: Option<int>
    var turns: nat
    var player: Players.Player?

    /** A new world starts at turn 0, with no player yet. */
    constructor (maxTurns: Option<int>, winningPoints: Option<int>)
      ensures this.maxTurns == maxTurns && this.winningPoints == winningPoints
      ensures turns == 0 && player == null
    {
      this.maxTurns := maxTurns;
      this.winningPoints := winningPoints;
      turns := 0;
      player := null;
    }

    /** addPlayer: the player is remembered, to be found by getPlayer. */
    method AddPlayer(p: Players.Player)
      modifies this
      ensures player == p && turns == old(turns)
    {
      player := p;
    }

    /** isChallengeMode: both limits are given. */
    predicate IsChallengeMode()
    {
      maxTurns.Some? && winningPoints.Some?
    }

    /**
     * stillRunning: the player is on the map (the engine's test, given as
     * present) and, in challenge mode, has not yet reached the winning
     * points and has turns left.
     */
    predicate StillRunning(present: bool)
      reads this, player
      requires player != null
    {
      if IsChallengeMode() then present && !player.CanAfford(winningPoints.value) && turns < maxTurns.value
      else present
    }

    /** endGameMessage: won or lost in challenge mode; otherwise the engine's own message, None here. */
    function EndGameMessage(): (r: Option<string>)
      reads this, player
      requires player != null
      ensures r.None? <==> !IsChallengeMode()
      ensures r.Some? ==> (r.value == WonMessage <==> player.CanAfford(winningPoints.value))
      ensures r.Some? ==> (r.value == LostMessage <==> !player.CanAfford(winningPoints.value))
    {
      if IsChallengeMode() then
        if player.CanAfford(winningPoints.value) then Some(WonMessage) else Some(LostMessage)
      else None
    }

    /**
     * The termination test in both modes: without the player the game is
     * over; in sandbox mode it runs exactly while the player is there; in
     * challenge mode it is over once the points are reached or the turns
     * used up, and a challenge that ends early with the player present is won.
     */
    lemma StillRunningFacts(present: bool)
      requires player != null
      ensures !present ==> !StillRunning(present)
      ensures !IsChallengeMode() ==> (StillRunning(present) <==> present)
      ensures IsChallengeMode() && turns >= maxTurns.value ==> !StillRunning(present)
      ensures IsChallengeMode() && player.CanAfford(winningPoints.value) ==> !StillRunning(present)
      ensures IsChallengeMode() && present && turns < maxTurns.value && !StillRunning(present) ==>
        EndGameMessage() == Some(WonMessage)
      ensures IsChallengeMode() && StillRunning(present) ==> EndGameMessage() == Some(LostMessage)
    {
    }

    /** One round of the loop: rain is drawn, the maps are ticked with it, and the turn counter goes up by one. */
    method Round(board: Board, w: Weather)
      modifies this, board
      ensures turns == old(turns) + 1 && player == old(player)
      ensures board.locs == Rained(old(board.locs), Rain(old(turns), w).0, Rain(old(turns), w).1)
    {
      var (sipsAdded, rainDrops) := Rain(turns, w);
      RainTick(board, sipsAdded, rainDrops);
      turns := turns + 1;
    }

    /**
     * run: an IllegalStateException without a player; otherwise rounds are
     * played while the game is still running, one per weather draw at most,
     * and the end message is returned with the number of rounds played.
     */
    method Run(board: Board, present: bool, weather: seq<Weather>) returns (r: Result<Option<string>>, rounds: nat)
      modifies this, board
      ensures player == old(player)
      ensures r.Err? <==> old(player) == null
      ensures r.Err? ==> r.error == IllegalState && turns == old(turns) && board.locs == old(board.locs)
      ensures r.Ok? ==> rounds <= |weather| && turns == old(turns) + rounds
      ensures r.Ok? ==> board.locs == Rounds(old(board.locs), old(turns), weather, rounds)
      ensures r.Ok? ==> r.value == EndGameMessage()
      ensures r.Ok? && rounds < |weather| ==> !StillRunning(present)
      ensures r.Ok? && rounds > 0 ==> present
      ensures r.Ok? && IsChallengeMode() && old(turns) <= maxTurns.value ==> turns <= maxTurns.value
    {
      if player == null {
        return Err(IllegalState), 0;
      }
      ghost var l0, t0 := board.locs, turns;
      rounds := 0;
      while rounds < |weather| && StillRunning(present)
        invariant rounds <= |weather| && turns == t0 + rounds && player == old(player)
        invariant board.locs == Rounds(l0, t0, weather, rounds)
        invariant rounds > 0 ==> present
        invariant IsChallengeMode() && t0 <= maxTurns.value ==> turns <= maxTurns.value
        decreases |weather| - rounds
      {
        Round(board, weather[rounds]);
        rounds := rounds + 1;
      }
      r := Ok(EndGameMessage());
    }
  }
}
