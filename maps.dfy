/**
 * DinosaurMap: a map is a rectangle of the world's locations, held as the
 * columns of its location array (cells[x][y] is the location at (x, y)).
 * connectMaps wires two maps together along an edge, and
 * updateInitialGround runs GameLocation.updateLocation over every location.
 */
module Maps {
  import opened Tags
  import opened Wrappers
  import opened Locations
  import opened Actions
  import Collections

  /** The location array of one map: column x, row y. */
  datatype Grid = Grid(cells: seq<seq<nat>>)

  function Width(m: Grid): nat { |m.cells| }

  function Height(m: Grid): nat { if m.cells == [] then 0 else |m.cells[0]| }

  /**
   * A well-formed map of the world: a non-empty rectangle whose location at
   * (x, y) is a location of the world with those coordinates.
   */
  predicate GridOk(locs: seq<Loc>, m: Grid)
  {
    Width(m) >= 1 && Height(m) >= 1
    && (forall x :: 0 <= x < Width(m) ==> |m.cells[x]| == Height(m))
    && (forall x, y :: 0 <= x < Width(m) && 0 <= y < |m.cells[x]| ==>
          m.cells[x][y] < |locs| && locs[m.cells[x][y]].x == x && locs[m.cells[x][y]].y == y)
  }

  /** Every location of the map. */
  function Cells(m: Grid): set<nat>
  {
    set x, y | 0 <= x < |m.cells| && 0 <= y < |m.cells[x]| :: m.cells[x][y]
  }

  /** Row y of the map, from x = 0 to the largest x. */
  function Row(m: Grid, y: nat): (r: seq<nat>)
    requires forall x :: 0 <= x < Width(m) ==> y < |m.cells[x]|
    ensures |r| == Width(m) && forall x :: 0 <= x < Width(m) ==> r[x] == m.cells[x][y]
  {
    seq(Width(m), x requires 0 <= x < Width(m) => m.cells[x][y])
  }

  /** Two maps share no location. */
  predicate Disjoint(m1: Grid, m2: Grid)
  {
    Cells(m1) !! Cells(m2)
  }

  /** Only the exits of the locations may differ. */
  predicate SameButExits(a: seq<Loc>, b: seq<Loc>)
  {
    |a| == |b| && forall i :: 0 <= i < |a| ==> a[i].(exits := b[i].exits) == b[i]
  }

  /** The locations along a row or column of a well-formed map are pairwise different, since their coordinates are. */
  lemma RowDistinct(locs: seq<Loc>, m: Grid, y: nat)
    requires GridOk(locs, m) && y < Height(m)
    ensures Collections.Distinct(Row(m, y))
  {
    var r := Row(m, y);
    forall i, j | 0 <= i < j < |r| ensures r[i] != r[j] {
      assert locs[r[i]].x == i && locs[r[j]].x == j;
    }
  }

  lemma ColumnDistinct(locs: seq<Loc>, m: Grid, x: nat)
    requires GridOk(locs, m) && x < Width(m)
    ensures Collections.Distinct(m.cells[x])
  {
    var c := m.cells[x];
    forall i, j | 0 <= i < j < |c| ensures c[i] != c[j] {
      assert locs[c[i]].y == i && locs[c[j]].y == j;
    }
  }

  /**
   * One of the loops of connectMaps: location from[k] gets an exit with the
   * given name and hot key to location to[k], for every k; nothing else changes.
   */
  method LinkAll(board: Board, from: seq<nat>, to: seq<nat>, name: string, hotKey: string)
    requires |from| == |to| && Collections.Distinct(from)
    requires forall k :: 0 <= k < |from| ==> from[k] < |board.locs| && to[k] < |board.locs|
    modifies board
    ensures SameButExits(board.locs, old(board.locs))
    ensures forall k :: 0 <= k < |from| ==>
      board.locs[from[k]].exits == old(board.locs)[from[k]].exits + [Exit(name, hotKey, to[k])]
    ensures forall i :: 0 <= i < |board.locs| && i !in from ==> board.locs[i] == old(board.locs)[i]
    ensures ValidLocs(old(board.locs)) ==> ValidLocs(board.locs)
  {
    var i := 0;
    while i < |from|
      invariant 0 <= i <= |from| && SameButExits(board.locs, old(board.locs))
      invariant forall k :: 0 <= k < i ==>
        board.locs[from[k]].exits == old(board.locs)[from[k]].exits + [Exit(name, hotKey, to[k])]
      invariant forall j :: 0 <= j < |board.locs| && j !in from[..i] ==> board.locs[j] == old(board.locs)[j]
      invariant ValidLocs(old(board.locs)) ==> ValidLocs(board.locs)
    {
      var l := board.locs[from[i]];
      board.locs := board.locs[from[i] := l.(exits := l.exits + [Exit(name, hotKey, to[i])])];
      assert from[..i + 1] == from[..i] + [from[i]];
      i := i + 1;
    }
    assert from[..i] == from;
  }

  /**
   * The two loops of one connectMaps case: from[k] gets an exit to to[k] and
   * to[k] one back to from[k]; the two runs of locations share none.
   */
  method LinkBoth(board: Board, from: seq<nat>, to: seq<nat>, there: string, thereKey: string, back: string, backKey: string)
    requires |from| == |to| && Collections.Distinct(from) && Collections.Distinct(to)
    requires forall k :: 0 <= k < |from| ==> from[k] < |board.locs| && to[k] < |board.locs|
    requires forall k, j :: 0 <= k < |from| && 0 <= j < |to| ==> from[k] != to[j]
    modifies board
    ensures SameButExits(board.locs, old(board.locs))
    ensures ValidLocs(old(board.locs)) ==> ValidLocs(board.locs)
    ensures forall k :: 0 <= k < |from| ==>
      board.locs[from[k]].exits == old(board.locs)[from[k]].exits + [Exit(there, thereKey, to[k])]
    ensures forall k :: 0 <= k < |to| ==>
      board.locs[to[k]].exits == old(board.locs)[to[k]].exits + [Exit(back, backKey, from[k])]
    ensures forall i :: 0 <= i < |board.locs| && i !in from && i !in to ==> board.locs[i] == old(board.locs)[i]
  {
    LinkAll(board, from, to, there, thereKey);
    ghost var mid := board.locs;
    forall k | 0 <= k < |to| ensures mid[to[k]] == old(board.locs)[to[k]] {
      assert to[k] !in from;
    }
    LinkAll(board, to, from, back, backKey);
    forall k | 0 <= k < |from| ensures board.locs[from[k]] == mid[from[k]] {
      assert from[k] !in to;
    }
  }

  /** The 'x' case of connectMaps: m1's bottom row and m2's top row are linked both ways, column by column. */
  method ConnectNorthSouth(board: Board, m1: Grid, m2: Grid)
    requires GridOk(board.locs, m1) && GridOk(board.locs, m2) && Disjoint(m1, m2) && Width(m1) == Width(m2)
    modifies board
    ensures SameButExits(board.locs, old(board.locs))
    ensures ValidLocs(old(board.locs)) ==> ValidLocs(board.locs)
    ensures var south, north := Row(m1, Height(m1) - 1), Row(m2, 0);
      (forall x :: 0 <= x < Width(m1) ==>
        board.locs[south[x]].exits == old(board.locs)[south[x]].exits + [Exit("South", "2", north[x])])
      && (forall x :: 0 <= x < Width(m2) ==>
        board.locs[north[x]].exits == old(board.locs)[north[x]].exits + [Exit("North", "8", south[x])])
      && (forall i :: 0 <= i < |board.locs| && i !in south && i !in north ==> board.locs[i] == old(board.locs)[i])
  {
    var south, north := Row(m1, Height(m1) - 1), Row(m2, 0);
    RowDistinct(board.locs, m1, Height(m1) - 1);
    RowDistinct(board.locs, m2, 0);
    forall k, j | 0 <= k < |south| && 0 <= j < |north| ensures south[k] != north[j] {
      assert south[k] in Cells(m1) && north[j] in Cells(m2);
    }
    LinkBoth(board, south, north, "South", "2", "North", "8");
  }

  /** The 'y' case of connectMaps: m1's rightmost column and m2's leftmost column are linked both ways, row by row. */
  method ConnectEastWest(board: Board, m1: Grid, m2: Grid)
    requires GridOk(board.locs, m1) && GridOk(board.locs, m2) && Disjoint(m1, m2) && Height(m1) == Height(m2)
    modifies board
    ensures SameButExits(board.locs, old(board.locs))
    ensures ValidLocs(old(board.locs)) ==> ValidLocs(board.locs)
    ensures var east, west := m1.cells[Width(m1) - 1], m2.cells[0];
      (forall y :: 0 <= y < Height(m1) ==>
        board.locs[east[y]].exits == old(board.locs)[east[y]].exits + [Exit("East", "6", west[y])])
      && (forall y :: 0 <= y < Height(m2) ==>
        board.locs[west[y]].exits == old(board.locs)[west[y]].exits + [Exit("West", "4", east[y])])
      && (forall i :: 0 <= i < |board.locs| && i !in east && i !in west ==> board.locs[i] == old(board.locs)[i])
  {
    var east, west := m1.cells[Width(m1) - 1], m2.cells[0];
    ColumnDistinct(board.locs, m1, Width(m1) - 1);
    ColumnDistinct(board.locs, m2, 0);
    forall k, j | 0 <= k < |east| && 0 <= j < |west| ensures east[k] != west[j] {
      assert east[k] in Cells(m1) && west[j] in Cells(m2);
    }
    LinkBoth(board, east, west, "East", "6", "West", "4");
  }

  /**
   * connectMaps(m1, m2, axis): with 'x', m1 lies north of m2 and needs the
   * same width; with 'y', m1 lies west of m2 and needs the same height. A size
   * mismatch raises a RuntimeException and any other axis an
   * IllegalArgumentException, before any exit is added.
   */
  method ConnectMaps(board: Board, m1: Grid, m2: Grid, axis: char) returns (r: Result<()>)
    requires GridOk(board.locs, m1) && GridOk(board.locs, m2) && Disjoint(m1, m2)
    modifies board
    ensures axis != 'x' && axis != 'y' ==> r == Err(IllegalArgument) && board.locs == old(board.locs)
    ensures axis == 'x' && Width(m1) != Width(m2) ==> r == Err(Runtime) && board.locs == old(board.locs)
    ensures axis == 'y' && Height(m1) != Height(m2) ==> r == Err(Runtime) && board.locs == old(board.locs)
    ensures r.Ok? <==> (axis == 'x' && Width(m1) == Width(m2)) || (axis == 'y' && Height(m1) == Height(m2))
    ensures SameButExits(board.locs, old(board.locs))
    ensures ValidLocs(old(board.locs)) ==> ValidLocs(board.locs)
    ensures r.Ok? && axis == 'x' ==> var south, north := Row(m1, Height(m1) - 1), Row(m2, 0);
      (forall x :: 0 <= x < Width(m1) ==>
        board.locs[south[x]].exits == old(board.locs)[south[x]].exits + [Exit("South", "2", north[x])])
      && (forall x :: 0 <= x < Width(m2) ==>
        board.locs[north[x]].exits == old(board.locs)[north[x]].exits + [Exit("North", "8", south[x])])
      && (forall i :: 0 <= i < |board.locs| && i !in south && i !in north ==> board.locs[i] == old(board.locs)[i])
    ensures r.Ok? && axis == 'y' ==> var east, west := m1.cells[Width(m1) - 1], m2.cells[0];
      (forall y :: 0 <= y < Height(m1) ==>
        board.locs[east[y]].exits == old(board.locs)[east[y]].exits + [Exit("East", "6", west[y])])
      && (forall y :: 0 <= y < Height(m2) ==>
        board.locs[west[y]].exits == old(board.locs)[west[y]].exits + [Exit("West", "4", east[y])])
      && (forall i :: 0 <= i < |board.locs| && i !in east && i !in west ==> board.locs[i] == old(board.locs)[i])
  {
    if axis == 'x' {
      if Width(m1) != Width(m2) {
        return Err(Runtime);
      }
      ConnectNorthSouth(board, m1, m2);
      r := Ok(());
    } else if axis == 'y' {
      if Height(m1) != Height(m2) {
        return Err(Runtime);
      }
      ConnectEastWest(board, m1, m2);
      r := Ok(());
    } else {
      r := Err(IllegalArgument);
    }
  }

  // ----- updateInitialGround -----

  /** GameLocation.updateLocation on location i: its ground becomes the one the rules and the draws give. */
  method UpdateLocation(board: Board, i: nat, dr: Draws)
    requires ValidLocs(board.locs) && i < |board.locs|
    modifies board
    ensures board.locs == WithGround(old(board.locs), i, UpdatedGround(old(board.locs), i, dr))
  {
    board.SetGround(i, UpdatedGround(board.locs, i, dr));
  }

  /** The locations of the map in the order of updateInitialGround's loops: x outer, y inner. */
  function Flatten(cells: seq<seq<nat>>): (r: seq<nat>)
    ensures forall e :: e in r <==> exists x, y :: 0 <= x < |cells| && 0 <= y < |cells[x]| && cells[x][y] == e
    decreases |cells|
  {
    if cells == [] then []
    else
      var rest := Flatten(cells[1..]);
      assert forall e :: e in rest ==> exists x, y :: 0 <= x < |cells| && 0 <= y < |cells[x]| && cells[x][y] == e by {
        forall e | e in rest ensures exists x, y :: 0 <= x < |cells| && 0 <= y < |cells[x]| && cells[x][y] == e {
          var x, y :| 0 <= x < |cells[1..]| && 0 <= y < |cells[1..][x]| && cells[1..][x][y] == e;
          assert cells[x + 1][y] == e;
        }
      }
      assert forall x, y :: 1 <= x < |cells| && 0 <= y < |cells[x]| ==> cells[x][y] in rest by {
        forall x, y | 1 <= x < |cells| && 0 <= y < |cells[x]| ensures cells[x][y] in rest {
          assert cells[1..][x - 1][y] == cells[x][y];
        }
      }
      cells[0] + rest
  }

  /** The draws of updateLocation for each location, in the same order. */
  function FlattenDraws(draws: seq<seq<Draws>>): seq<Draws>
    decreases |draws|
  {
    if draws == [] then [] else draws[0] + FlattenDraws(draws[1..])
  }

  /** updateLocation applied to the locations in order, each on the map the earlier updates left. */
  function Sweep(locs: seq<Loc>, order: seq<nat>, draws: seq<Draws>): (r: seq<Loc>)
    requires ValidLocs(locs) && |draws| == |order| && InRange(locs, order)
    ensures ValidLocs(r) && |r| == |locs|
    ensures forall i :: 0 <= i < |locs| ==> r[i].(ground := locs[i].ground) == locs[i]
    ensures forall i :: 0 <= i < |locs| && i !in order ==> r[i] == locs[i]
    decreases |order|
  {
    if order == [] then locs
    else Sweep(WithGround(locs, order[0], UpdatedGround(locs, order[0], draws[0])), order[1..], draws[1..])
  }

  /** Sweeping two runs of locations one after the other is sweeping their concatenation. */
  lemma {:induction false} SweepAppend(locs: seq<Loc>, a: seq<nat>, da: seq<Draws>, b: seq<nat>, db: seq<Draws>)
    requires ValidLocs(locs) && |da| == |a| && |db| == |b| && InRange(locs, a) && InRange(locs, b)
    ensures InRange(locs, a + b)
    ensures Sweep(locs, a + b, da + db) == Sweep(Sweep(locs, a, da), b, db)
    decreases |a|
  {
    if a != [] {
      var l1 := WithGround(locs, a[0], UpdatedGround(locs, a[0], da[0]));
      assert (a + b)[0] == a[0] && (a + b)[1..] == a[1..] + b;
      assert (da + db)[0] == da[0] && (da + db)[1..] == da[1..] + db;
      SweepAppend(l1, a[1..], da[1..], b, db);
    } else {
      assert a + b == b && da + db == db;
    }
  }

  /**
   * When the locations are pairwise different, each is updated exactly once:
   * its ground is the one updateLocation gives on the map as the earlier
   * updates left it.
   */
  lemma {:induction false} SweepOnce(locs: seq<Loc>, order: seq<nat>, draws: seq<Draws>, k: nat)
    requires ValidLocs(locs) && |draws| == |order| && InRange(locs, order)
    requires Collections.Distinct(order) && k < |order|
    ensures InRange(locs, order[..k])
    ensures Sweep(locs, order, draws)[order[k]].ground
      == UpdatedGround(Sweep(locs, order[..k], draws[..k]), order[k], draws[k])
    decreases |order|
  {
    var l1 := WithGround(locs, order[0], UpdatedGround(locs, order[0], draws[0]));
    if k == 0 {
      assert order[0] !in order[1..];
      assert order[..0] == [] && draws[..0] == [];
    } else {
      SweepOnce(l1, order[1..], draws[1..], k - 1);
      assert order[1..][..k - 1] == order[..k][1..] && draws[1..][..k - 1] == draws[..k][1..];
    }
  }

  /** Distinct coordinates make every location of a well-formed map appear once in the sweep order. */
  lemma {:induction false} FlattenDistinct(locs: seq<Loc>, cells: seq<seq<nat>>, x0: nat)
    requires forall x, y :: 0 <= x < |cells| && 0 <= y < |cells[x]| ==>
      cells[x][y] < |locs| && locs[cells[x][y]].x == x0 + x && locs[cells[x][y]].y == y
    ensures Collections.Distinct(Flatten(cells))
    ensures forall e :: e in Flatten(cells) ==> locs[e].x >= x0
    decreases |cells|
  {
    if cells != [] {
      FlattenDistinct(locs, cells[1..], x0 + 1);
      var c, rest := cells[0], Flatten(cells[1..]);
      assert forall x, y :: 0 <= x < |cells[1..]| && 0 <= y < |cells[1..][x]| ==> cells[1..][x][y] == cells[x + 1][y];
      forall e | e in rest ensures locs[e].x >= x0 + 1 { }
      forall i, j | 0 <= i < j < |c + rest| ensures (c + rest)[i] != (c + rest)[j] {
        if j < |c| {
          assert locs[c[i]].y == i && locs[c[j]].y == j;
        } else if i < |c| {
          assert locs[c[i]].x == x0 && (c + rest)[j] in rest;
        } else {
          assert (c + rest)[i] == rest[i - |c|] && (c + rest)[j] == rest[j - |c|];
        }
      }
    }
  }

  lemma {:induction false} FlattenDrawsLength(cells: seq<seq<nat>>, draws: seq<seq<Draws>>)
    requires |draws| == |cells| && forall x :: 0 <= x < |cells| ==> |draws[x]| == |cells[x]|
    ensures |FlattenDraws(draws)| == |Flatten(cells)|
    decreases |cells|
  {
    if cells != [] {
      FlattenDrawsLength(cells[1..], draws[1..]);
    }
  }

  /** The locations of a well-formed map are locations of the world. */
  lemma FlattenInRange(locs: seq<Loc>, m: Grid)
    requires GridOk(locs, m)
    ensures InRange(locs, Flatten(m.cells))
  {
    var f := Flatten(m.cells);
    forall k | 0 <= k < |f| ensures f[k] < |locs| {
      assert f[k] in f;
    }
  }

  /** The inner loop of updateInitialGround: updateLocation down one column. */
  method UpdateColumn(board: Board, column: seq<nat>, draws: seq<Draws>)
    requires ValidLocs(board.locs) && InRange(board.locs, column) && |draws| == |column|
    modifies board
    ensures board.locs == Sweep(old(board.locs), column, draws)
  {
    ghost var target := Sweep(board.locs, column, draws);
    var y := 0;
    while y < |column|
      invariant 0 <= y <= |column| && ValidLocs(board.locs) && |board.locs| == |old(board.locs)|
      invariant target == Sweep(board.locs, column[y..], draws[y..])
    {
      assert column[y..][1..] == column[y + 1..] && draws[y..][1..] == draws[y + 1..];
      UpdateLocation(board, column[y], draws[y]);
      y := y + 1;
    }
  }

  /**
   * updateInitialGround: updateLocation on every location of the map, column
   * by column, with the draws given for each location.
   */
  method UpdateInitialGround(board: Board, m: Grid, draws: seq<seq<Draws>>)
    requires ValidLocs(board.locs) && GridOk(board.locs, m)
    requires |draws| == Width(m) && forall x :: 0 <= x < Width(m) ==> |draws[x]| == Height(m)
    modifies board
    ensures |FlattenDraws(draws)| == |Flatten(m.cells)| && InRange(old(board.locs), Flatten(m.cells))
    ensures board.locs == Sweep(old(board.locs), Flatten(m.cells), FlattenDraws(draws))
  {
    FlattenDrawsLength(m.cells, draws);
    FlattenInRange(board.locs, m);
    ghost var target := Sweep(board.locs, Flatten(m.cells), FlattenDraws(draws));
    ghost var n := |board.locs|;
    assert m.cells[0..] == m.cells && draws[0..] == draws;
    var x := 0;
    while x < Width(m)
      invariant 0 <= x <= Width(m) && ValidLocs(board.locs) && |board.locs| == n
      invariant |FlattenDraws(draws[x..])| == |Flatten(m.cells[x..])| && InRange(board.locs, Flatten(m.cells[x..]))
      invariant target == Sweep(board.locs, Flatten(m.cells[x..]), FlattenDraws(draws[x..]))
    {
      assert m.cells[x..][0] == m.cells[x] && m.cells[x..][1..] == m.cells[x + 1..];
      assert draws[x..][0] == draws[x] && draws[x..][1..] == draws[x + 1..];
      ghost var rest, restDraws := Flatten(m.cells[x + 1..]), FlattenDraws(draws[x + 1..]);
      assert Flatten(m.cells[x..]) == m.cells[x] + rest;
      assert InRange(board.locs, m.cells[x]) && InRange(board.locs, rest) by {
        assert forall k :: 0 <= k < |m.cells[x]| ==> m.cells[x][k] == (m.cells[x] + rest)[k];
        assert forall k :: 0 <= k < |rest| ==> rest[k] == (m.cells[x] + rest)[k + |m.cells[x]|];
      }
      SweepAppend(board.locs, m.cells[x], draws[x], rest, restDraws);
      UpdateColumn(board, m.cells[x], draws[x]);
      x := x + 1;
    }
  }

  /**
   * updateInitialGround touches each location of a well-formed map exactly
   * once, and no location outside it.
   */
  lemma UpdateInitialGroundOnce(locs: seq<Loc>, m: Grid, draws: seq<seq<Draws>>)
    requires ValidLocs(locs) && GridOk(locs, m)
    requires |draws| == Width(m) && forall x :: 0 <= x < Width(m) ==> |draws[x]| == Height(m)
    ensures Collections.Distinct(Flatten(m.cells))
    ensures forall e :: e in Flatten(m.cells) <==> e in Cells(m)
  {
    FlattenDistinct(locs, m.cells, 0);
  }
}
