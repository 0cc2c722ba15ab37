/**
  The labyrinth: a `height` by `width` grid of rooms, carved by a randomised
  depth-first search, then sprinkled with special rooms and an exit.
*/
module Maze {
  import opened Wrappers
  import opened Positions
  import opened RoomCore
  import opened RoomFactory
  import Entities

  /** Where the player starts. */
  const Origin: Position := Position(0, 0)

  predicate InGrid(p: Position, width: int, height: int)
  {
    0 <= p.x < width && 0 <= p.y < height
  }

  /** Row `y` of the grid, up to column `w`. */
  function Row(w: nat, y: int): set<Position>
  {
    if w == 0 then {} else Row(w - 1, y) + {Position(w - 1, y)}
  }

  /** The first `h` rows of a grid `w` wide: every cell of it. */
  function Rect(w: nat, h: nat): set<Position>
  {
    if h == 0 then {} else Rect(w, h - 1) + Row(w, h - 1)
  }

  lemma {:induction false} RowFacts(w: nat, y: int)
    ensures forall p :: p in Row(w, y) <==> p.y == y && 0 <= p.x < w
    ensures |Row(w, y)| == w
  {
    if w > 0 {
      RowFacts(w - 1, y);
      assert Position(w - 1, y) !in Row(w - 1, y);
    }
  }

  lemma {:induction false} RectMembers(w: nat, h: nat)
    ensures forall p :: p in Rect(w, h) <==> InGrid(p, w, h)
  {
    if h > 0 {
      RectMembers(w, h - 1);
      RowFacts(w, h - 1);
    }
  }

  /** The grid has `w * h` cells. */
  lemma {:induction false} RectSize(w: nat, h: nat)
    ensures |Rect(w, h)| == w * h
  {
    if h > 0 {
      RectSize(w, h - 1);
      RectLastRow(w, h);
      RowSize(w, h - 1);
      DisjointSize(Rect(w, h - 1), Row(w, h - 1));
      MulStep(w, h);
    }
  }

  lemma RowSize(w: nat, y: int)
    ensures |Row(w, y)| == w
  {
    RowFacts(w, y);
  }

  lemma DisjointSize(a: set<Position>, b: set<Position>)
    requires a !! b
    ensures |a + b| == |a| + |b|
  {
    assert a * b == {};
  }

  lemma MulStep(w: nat, h: nat)
    requires h > 0
    ensures w * (h - 1) + w == w * h
  {
  }

  /** The order in which the search probes the neighbours of a cell. */
  const SearchOrder: seq<Direction> := [North, East, South, West]

  /** The in-grid, unvisited neighbours of `p` in the directions `ds`, in that order. */
  function Unvisited(p: Position, visited: set<Position>, width: int, height: int, ds: seq<Direction>): seq<Position>
  {
    if ds == [] then []
    else
      var q := p.Adjacent(ds[|ds| - 1]);
      Unvisited(p, visited, width, height, ds[..|ds| - 1]) + (if InGrid(q, width, height) && q !in visited then [q] else [])
  }

  /** A position is listed exactly when it is an in-grid, unvisited neighbour in one of the directions. */
  lemma {:induction false} UnvisitedMembers(p: Position, visited: set<Position>, width: int, height: int, ds: seq<Direction>)
    ensures forall q :: q in Unvisited(p, visited, width, height, ds) <==>
              InGrid(q, width, height) && q !in visited && exists i :: 0 <= i < |ds| && q == p.Adjacent(ds[i])
  {
    if ds != [] {
      var init := ds[..|ds| - 1];
      UnvisitedMembers(p, visited, width, height, init);
      forall q | InGrid(q, width, height) && q !in visited && (exists i :: 0 <= i < |ds| && q == p.Adjacent(ds[i]))
        ensures q in Unvisited(p, visited, width, height, ds)
      {
        var i :| 0 <= i < |ds| && q == p.Adjacent(ds[i]);
        if i < |ds| - 1 {
          assert init[i] == ds[i];
        }
      }
      forall q | q in Unvisited(p, visited, width, height, init)
        ensures exists i :: 0 <= i < |ds| && q == p.Adjacent(ds[i])
      {
        var i :| 0 <= i < |init| && q == p.Adjacent(init[i]);
        assert ds[i] == init[i];
      }
    }
  }

  /**
    The bookkeeping of the depth-first search: the start is visited, every
    visited cell is in the grid, the stack holds visited cells, and a
    visited cell off the stack has no unvisited neighbour.
  */
  predicate Explored(start: Position, visited: set<Position>, stack: seq<Position>, width: int, height: int)
  {
    start in visited
    && (forall c :: c in visited ==> InGrid(c, width, height))
    && (forall c :: c in stack ==> c in visited)
    && (forall c :: c in visited && c !in stack ==> Closed(c, visited, width, height))
  }

  /** Pushing an unvisited neighbour of the top cell keeps the bookkeeping and visits one more grid cell. */
  lemma PushStep(start: Position, visited: set<Position>, stack: seq<Position>, next: Position, width: nat, height: nat)
    requires Explored(start, visited, stack, width, height) && stack != []
    requires next in Unvisited(stack[|stack| - 1], visited, width, height, SearchOrder)
    ensures Explored(start, visited + {next}, stack + [next], width, height)
    ensures InGrid(next, width, height) && next !in visited
    ensures Rect(width, height) - (visited + {next}) < Rect(width, height) - visited
  {
    UnvisitedMembers(stack[|stack| - 1], visited, width, height, SearchOrder);
    RectMembers(width, height);
    assert next in Rect(width, height) - visited;
  }

  /** Popping a cell with no unvisited neighbour keeps the bookkeeping. */
  lemma PopStep(start: Position, visited: set<Position>, stack: seq<Position>, width: nat, height: nat)
    requires Explored(start, visited, stack, width, height) && stack != []
    requires Unvisited(stack[|stack| - 1], visited, width, height, SearchOrder) == []
    ensures Explored(start, visited, stack[..|stack| - 1], width, height)
  {
    NoUnvisitedMeansClosed(stack[|stack| - 1], visited, width, height);
    forall c | c in visited && c !in stack[..|stack| - 1]
      ensures Closed(c, visited, width, height)
    {
      if c !in stack {
      } else {
        assert c == stack[|stack| - 1];
      }
    }
  }

  /** Every in-grid neighbour of `c` is in `s`. */
  predicate Closed(c: Position, s: set<Position>, width: int, height: int)
  {
    forall d: Direction :: InGrid(c.Adjacent(d), width, height) ==> c.Adjacent(d) in s
  }

  /** A cell with no unvisited neighbour in search order has all its neighbours visited. */
  lemma NoUnvisitedMeansClosed(c: Position, visited: set<Position>, width: int, height: int)
    requires Unvisited(c, visited, width, height, SearchOrder) == []
    ensures Closed(c, visited, width, height)
  {
    UnvisitedMembers(c, visited, width, height, SearchOrder);
    forall d: Direction | InGrid(c.Adjacent(d), width, height)
      ensures c.Adjacent(d) in visited
    {
      var i := match d case North => 0 case East => 1 case South => 2 case West => 3;
      assert SearchOrder[i] == d;
    }
  }

  /**
    The grid is connected: a set of cells that holds one cell and every
    in-grid neighbour of each of its cells holds the whole grid.
  */
  lemma {:induction false} Reach(s: set<Position>, width: int, height: int, a: Position, b: Position)
    requires a in s && InGrid(a, width, height) && InGrid(b, width, height)
    requires forall c :: c in s ==> Closed(c, s, width, height)
    ensures b in s
    decreases Abs(a.x - b.x) + Abs(a.y - b.y)
  {
    if a != b {
      assert Closed(a, s, width, height);
      var d := if a.x < b.x then East else if a.x > b.x then West else if a.y < b.y then South else North;
      Reach(s, width, height, a.Adjacent(d), b);
    }
  }

  /** The type of room in each cell of a grid (`None` for a wall). */
  type Layout = map<Position, Option<RoomType>>

  /** The cells of a layout holding a room of type `t`. */
  function CellsOf(layout: Layout, t: RoomType): set<Position>
  {
    set p | p in layout && layout[p] == Some(t)
  }

  /** The regular cells other than the start. */
  function Eligible(layout: Layout): set<Position>
  {
    set p | p in CellsOf(layout, Regular) && p != Origin
  }

  /** Putting a room of type `t` in a cell moves that cell from its old type's cells to `t`'s. */
  lemma UpdateCells(layout: Layout, p: Position, t: RoomType, u: RoomType)
    requires p in layout
    ensures u == t ==> CellsOf(layout[p := Some(t)], u) == CellsOf(layout, u) + {p}
    ensures u != t ==> CellsOf(layout[p := Some(t)], u) == CellsOf(layout, u) - {p}
  {
  }

  /** Replacing an eligible cell by a special room takes exactly that cell out of the eligible ones. */
  lemma UpdateEligible(layout: Layout, p: Position, t: RoomType)
    requires p in Eligible(layout) && t != Regular
    ensures Eligible(layout[p := Some(t)]) == Eligible(layout) - {p}
  {
    UpdateCells(layout, p, t, Regular);
  }

  /**
    `after` is `before` with k eligible cells turned into rooms of type `t`
    (for a special `t`): the eligible cells shrink by exactly k, `t`'s cells
    grow by exactly k, the cells that left the eligible set now hold `t`,
    and every other cell is as it was.
  */
  predicate Placed(before: Layout, after: Layout, t: RoomType, k: nat)
  {
    after.Keys == before.Keys
    && (t != Regular ==>
          Eligible(after) <= Eligible(before) && |Eligible(after)| == |Eligible(before)| - k
          && |CellsOf(after, t)| == |CellsOf(before, t)| + k)
    && (t == Regular ==> Eligible(after) == Eligible(before))
    && (forall q :: q in Eligible(before) && q !in Eligible(after) ==> after[q] == Some(t))
    && (forall q :: q in before && q !in Eligible(before) ==> after[q] == before[q])
    && (forall u :: u != t && u != Regular ==> CellsOf(after, u) == CellsOf(before, u))
  }

  lemma PlacedNone(layout: Layout, t: RoomType)
    ensures Placed(layout, layout, t, 0)
  {
  }

  /** One more placement on an eligible cell. */
  lemma PlaceStep(start: Layout, layout: Layout, p: Position, t: RoomType, i: nat)
    requires Placed(start, layout, t, i)
    requires p in Eligible(layout)
    ensures Placed(start, layout[p := Some(t)], t, i + 1)
  {
    var next := layout[p := Some(t)];
    assert p in Eligible(start);
    PlaceStepCells(layout, p, t);
    if t != Regular {
      PlaceStepCount(start, layout, p, t, i);
    } else {
      assert Eligible(next) == Eligible(layout);
    }
    assert forall q :: q in Eligible(start) && q !in Eligible(next) ==> next[q] == Some(t);
    assert forall q :: q in start && q !in Eligible(start) ==> next[q] == start[q];
  }

  /** A placement leaves the cells of every other special type alone. */
  lemma PlaceStepCells(layout: Layout, p: Position, t: RoomType)
    requires p in Eligible(layout)
    ensures forall u :: u != t && u != Regular ==> CellsOf(layout[p := Some(t)], u) == CellsOf(layout, u)
  {
    forall u | u != t && u != Regular
      ensures CellsOf(layout[p := Some(t)], u) == CellsOf(layout, u)
    {
      UpdateCells(layout, p, t, u);
    }
  }

  /** The counts after one more placement of a special type. */
  lemma PlaceStepCount(start: Layout, layout: Layout, p: Position, t: RoomType, i: nat)
    requires t != Regular && p in Eligible(layout) && p in layout
    requires Eligible(layout) <= Eligible(start) && |Eligible(layout)| == |Eligible(start)| - i
    requires |CellsOf(layout, t)| == |CellsOf(start, t)| + i
    ensures Eligible(layout[p := Some(t)]) <= Eligible(start)
    ensures |Eligible(layout[p := Some(t)])| == |Eligible(start)| - (i + 1)
    ensures |CellsOf(layout[p := Some(t)], t)| == |CellsOf(start, t)| + (i + 1)
  {
    UpdateEligible(layout, p, t);
    UpdateCells(layout, p, t, t);
    assert p !in CellsOf(layout, t);
  }

  /** In a grid of regular rooms, every cell but the start may be replaced, and no cell has another type. */
  lemma AllRegular(layout: Layout)
    requires forall p :: p in layout ==> layout[p] == Some(Regular)
    ensures CellsOf(layout, Regular) == layout.Keys
    ensures Eligible(layout) == layout.Keys - {Origin}
    ensures forall u :: u != Regular ==> CellsOf(layout, u) == {}
  {
  }

  /** The special rooms never use up the cells other than the start (and leave one over from two cells on). */
  lemma SpecialBudget(n: nat)
    ensures n >= 1 ==> n / 10 + n / 8 + n / 6 + n / 8 <= n - 1
    ensures n >= 2 ==> n / 10 + n / 8 + n / 6 + n / 8 <= n - 2
  {
    assert n / 10 * 10 <= n && n / 8 * 8 <= n && n / 6 * 6 <= n;
    if n < 6 {
      assert n / 10 == 0 && n / 8 == 0 && n / 6 == 0;
    }
  }

  /** No cell of the layout is a wall. */
  predicate FullMap(layout: Layout)
  {
    forall p :: p in layout ==> layout[p].Some?
  }

  /**
    The type counts after `assignRoomTypes` on n cells: n/10 puzzle, n/8
    treasure, n/6 monster and n/8 trap rooms, no exit yet, the start still
    regular, and every other cell eligible for the exit.
  */
  predicate Assigned(layout: Layout, n: int)
  {
    FullMap(layout)
    && |CellsOf(layout, Puzzle)| == n / 10 && |CellsOf(layout, Treasure)| == n / 8
    && |CellsOf(layout, Monster)| == n / 6 && |CellsOf(layout, RoomType.Trap)| == n / 8
    && CellsOf(layout, Exit) == {}
    && |Eligible(layout)| == n - 1 - (n / 10 + n / 8 + n / 6 + n / 8)
    && Origin in layout && layout[Origin] == Some(Regular)
  }

  /** The four placements of `assignRoomTypes`, one after the other, starting from all-regular cells. */
  lemma AssignedAfter(l0: Layout, l1: Layout, l2: Layout, l3: Layout, l4: Layout, n: int)
    requires n >= 1 && FullMap(l0) && Origin in l0 && l0[Origin] == Some(Regular)
    requires |Eligible(l0)| == n - 1 && forall u :: u != Regular ==> CellsOf(l0, u) == {}
    requires n / 10 + n / 8 + n / 6 + n / 8 <= n - 1
    requires Placed(l0, l1, Puzzle, n / 10)
    requires Placed(l1, l2, Treasure, n / 8)
    requires Placed(l2, l3, Monster, n / 6)
    requires Placed(l3, l4, RoomType.Trap, n / 8)
    ensures Assigned(l4, n)
  {
    PlacedKeeps(l0, l1, Puzzle, n / 10);
    PlacedKeeps(l1, l2, Treasure, n / 8);
    PlacedKeeps(l2, l3, Monster, n / 6);
    PlacedKeeps(l3, l4, RoomType.Trap, n / 8);
    AfterType(l0, l1, l2, l3, l4, n / 10, n / 8, n / 6, n / 8, Puzzle);
    AfterType(l0, l1, l2, l3, l4, n / 10, n / 8, n / 6, n / 8, Treasure);
    AfterType(l0, l1, l2, l3, l4, n / 10, n / 8, n / 6, n / 8, Monster);
    AfterType(l0, l1, l2, l3, l4, n / 10, n / 8, n / 6, n / 8, RoomType.Trap);
    AfterType(l0, l1, l2, l3, l4, n / 10, n / 8, n / 6, n / 8, Exit);
  }

  /** The count of one special type through the four placements. */
  lemma AfterType(l0: Layout, l1: Layout, l2: Layout, l3: Layout, l4: Layout, k1: nat, k2: nat, k3: nat, k4: nat, u: RoomType)
    requires u != Regular && CellsOf(l0, u) == {}
    requires Placed(l0, l1, Puzzle, k1)
    requires Placed(l1, l2, Treasure, k2)
    requires Placed(l2, l3, Monster, k3)
    requires Placed(l3, l4, RoomType.Trap, k4)
    ensures |CellsOf(l4, u)| == (if u == Puzzle then k1 else if u == Treasure then k2
                                 else if u == Monster then k3 else if u == RoomType.Trap then k4 else 0)
    ensures |Eligible(l4)| == |Eligible(l0)| - (k1 + k2 + k3 + k4)
  {
    PlacedCount(l0, l1, Puzzle, k1, u);
    PlacedCount(l1, l2, Treasure, k2, u);
    PlacedCount(l2, l3, Monster, k3, u);
    PlacedCount(l3, l4, RoomType.Trap, k4, u);
  }

  /** One placement of a special type: its count grows by k, every other special count stays, k cells stop being eligible. */
  lemma PlacedCount(before: Layout, after: Layout, t: RoomType, k: nat, u: RoomType)
    requires Placed(before, after, t, k) && t != Regular && u != Regular
    ensures |CellsOf(after, u)| == |CellsOf(before, u)| + (if u == t then k else 0)
    ensures |Eligible(after)| == |Eligible(before)| - k
  {
  }

  /** A placement makes no wall and leaves the start as it was. */
  lemma PlacedKeeps(before: Layout, after: Layout, t: RoomType, k: nat)
    requires Placed(before, after, t, k)
    ensures FullMap(before) ==> FullMap(after)
    ensures Origin in before && before[Origin] == Some(Regular) ==> Origin in after && after[Origin] == Some(Regular)
  {
    assert Origin !in Eligible(before);
    forall q | q in after && q in Eligible(before) && q in Eligible(after)
      ensures after[q].Some?
    {
      assert q in CellsOf(after, Regular);
    }
  }

  /**
    The exit replaces a regular cell: the special counts stay, the exit is
    the one exit cell, no cell becomes a wall, and the cells a later exit
    could have gone to only shrink.
  */
  lemma ExitPlaced(before: Layout, e: Position, n: int)
    requires Assigned(before, n) && e in before && before[e] == Some(Regular)
    ensures var after := before[e := Some(Exit)];
            FullMap(after)
            && |CellsOf(after, Puzzle)| == n / 10 && |CellsOf(after, Treasure)| == n / 8
            && |CellsOf(after, Monster)| == n / 6 && |CellsOf(after, RoomType.Trap)| == n / 8
            && CellsOf(after, Exit) == {e}
            && Eligible(after) <= Eligible(before)
  {
    var after := before[e := Some(Exit)];
    UpdateCells(before, e, Exit, Exit);
    UpdateCells(before, e, Exit, Regular);
    forall u | u != Exit && u != Regular
      ensures CellsOf(after, u) == CellsOf(before, u)
    {
      UpdateCells(before, e, Exit, u);
      assert e !in CellsOf(before, u);
    }
  }

  /**
    Where the exit goes after `assignRoomTypes`: from two cells on some
    cell is eligible, so the exit takes a regular cell other than the start;
    on a single cell the far corner is the start itself, still regular.
  */
  lemma ExitSite(typed: Layout, e: Position, n: int, corner: Position)
    requires n >= 1 && Assigned(typed, n)
    requires Eligible(typed) == {} ==> e == corner
    requires Eligible(typed) != {} ==> e in Eligible(typed)
    requires n == 1 ==> corner == Origin
    ensures e in typed && typed[e] == Some(Regular)
    ensures n >= 2 ==> e != Origin
  {
    SpecialBudget(n);
    if n >= 2 {
      assert |Eligible(typed)| >= 1;
      assert Eligible(typed) != {};
    } else {
      assert Eligible(typed) == {};
    }
  }

  /** A grid of one cell is 1 by 1; any other has at least two cells. */
  lemma GridArea(width: int, height: int)
    requires width > 0 && height > 0
    ensures width * height >= 1
    ensures width * height == 1 ==> width == 1 && height == 1
  {
    if width > 1 {
      assert width * height >= 2 * height;
    } else if height > 1 {
      assert width * height == height;
    }
  }

  /** The grid grows by its last row, which shares no cell with the rows above. */
  lemma RectLastRow(w: nat, h: nat)
    requires h > 0
    ensures Rect(w, h) == Rect(w, h - 1) + Row(w, h - 1)
    ensures Rect(w, h - 1) !! Row(w, h - 1)
  {
    RectMembers(w, h - 1);
    RowFacts(w, h - 1);
  }

  /** A cell that holds a monster room. */
  predicate IsMonster(c: Option<RoomRef>)
  {
    c.Some? && c.value.MonsterRef?
  }

  /** The enemies of the monster rooms of a row, left to right. */
  function RowEnemies(row: seq<Option<RoomRef>>): seq<Entities.Enemy>
  {
    if row == [] then []
    else
      var last := row[|row| - 1];
      RowEnemies(row[..|row| - 1]) + (if IsMonster(last) then [last.value.monster.enemy] else [])
  }

  /** The enemies of the monster rooms of a grid, in row-major order. */
  function EnemiesOf(g: seq<seq<Option<RoomRef>>>): seq<Entities.Enemy>
  {
    if g == [] then [] else EnemiesOf(g[..|g| - 1]) + RowEnemies(g[|g| - 1])
  }

  /** The positions of the monster rooms of row `y`. */
  function RowMonsters(row: seq<Option<RoomRef>>, y: int): set<Position>
  {
    if row == [] then {}
    else RowMonsters(row[..|row| - 1], y) + (if IsMonster(row[|row| - 1]) then {Position(|row| - 1, y)} else {})
  }

  /** The positions of the monster rooms of a grid. */
  function MonstersOf(g: seq<seq<Option<RoomRef>>>): set<Position>
  {
    if g == [] then {} else MonstersOf(g[..|g| - 1]) + RowMonsters(g[|g| - 1], |g| - 1)
  }

  /** A row's monster positions are its cells that hold a monster room. */
  lemma {:induction false} RowMonstersMembers(row: seq<Option<RoomRef>>, y: int)
    ensures forall p :: p in RowMonsters(row, y) <==> p.y == y && 0 <= p.x < |row| && IsMonster(row[p.x])
  {
    if row != [] {
      var init := row[..|row| - 1];
      RowMonstersMembers(init, y);
      assert forall x :: 0 <= x < |init| ==> init[x] == row[x];
    }
  }

  /** A grid's monster positions are its cells that hold a monster room. */
  lemma {:induction false} MonstersMembers(g: seq<seq<Option<RoomRef>>>)
    ensures forall p :: p in MonstersOf(g) <==>
              0 <= p.y < |g| && 0 <= p.x < |g[p.y]| && IsMonster(g[p.y][p.x])
  {
    if g != [] {
      var init := g[..|g| - 1];
      MonstersMembers(init);
      RowMonstersMembers(g[|g| - 1], |g| - 1);
      assert forall y :: 0 <= y < |init| ==> init[y] == g[y];
    }
  }

  /** A row lists one enemy per monster room. */
  lemma {:induction false} RowEnemiesCount(row: seq<Option<RoomRef>>, y: int)
    ensures |RowEnemies(row)| == |RowMonsters(row, y)|
  {
    if row != [] {
      var init := row[..|row| - 1];
      RowEnemiesCount(init, y);
      RowMonstersMembers(init, y);
      if IsMonster(row[|row| - 1]) {
        AddFresh(RowMonsters(init, y), Position(|row| - 1, y));
      }
    }
  }

  /** A grid lists one enemy per monster room. */
  lemma {:induction false} EnemiesCount(g: seq<seq<Option<RoomRef>>>)
    ensures |EnemiesOf(g)| == |MonstersOf(g)|
  {
    if g != [] {
      var init := g[..|g| - 1];
      EnemiesCount(init);
      RowEnemiesCount(g[|g| - 1], |g| - 1);
      MonstersMembers(init);
      RowMonstersMembers(g[|g| - 1], |g| - 1);
      AddRow(MonstersOf(init), RowMonsters(g[|g| - 1], |g| - 1), |g| - 1);
    }
  }

  /** Cell `p` of the grid holds a monster room whose enemy is `e`. */
  predicate HoldsEnemy(g: seq<seq<Option<RoomRef>>>, p: Position, e: Entities.Enemy)
  {
    0 <= p.y < |g| && 0 <= p.x < |g[p.y]| && IsMonster(g[p.y][p.x]) && g[p.y][p.x].value.monster.enemy == e
  }

  /** An enemy is in a row's list exactly when one of the row's monster rooms holds it. */
  lemma {:induction false} RowEnemiesMembers(row: seq<Option<RoomRef>>, e: Entities.Enemy)
    ensures e in RowEnemies(row) <==>
              exists x :: 0 <= x < |row| && IsMonster(row[x]) && row[x].value.monster.enemy == e
  {
    if row != [] {
      var init := row[..|row| - 1];
      RowEnemiesMembers(init, e);
      if exists x :: 0 <= x < |init| && IsMonster(init[x]) && init[x].value.monster.enemy == e {
        var x :| 0 <= x < |init| && IsMonster(init[x]) && init[x].value.monster.enemy == e;
        assert row[x] == init[x];
      }
      if exists x :: 0 <= x < |row| && IsMonster(row[x]) && row[x].value.monster.enemy == e {
        var x :| 0 <= x < |row| && IsMonster(row[x]) && row[x].value.monster.enemy == e;
        if x < |init| {
          assert init[x] == row[x];
        }
      }
    }
  }

  /** An enemy is in a grid's list exactly when one of its monster rooms holds it. */
  lemma {:induction false} EnemiesMembers(g: seq<seq<Option<RoomRef>>>, e: Entities.Enemy)
    ensures e in EnemiesOf(g) <==> exists p :: HoldsEnemy(g, p, e)
  {
    if g != [] {
      var init := g[..|g| - 1];
      var y := |g| - 1;
      EnemiesMembers(init, e);
      RowEnemiesMembers(g[y], e);
      if exists p :: HoldsEnemy(init, p, e) {
        var p :| HoldsEnemy(init, p, e);
        assert init[p.y] == g[p.y];
        assert HoldsEnemy(g, p, e);
      }
      if exists x :: 0 <= x < |g[y]| && IsMonster(g[y][x]) && g[y][x].value.monster.enemy == e {
        var x :| 0 <= x < |g[y]| && IsMonster(g[y][x]) && g[y][x].value.monster.enemy == e;
        assert HoldsEnemy(g, Position(x, y), e);
      }
      if exists p :: HoldsEnemy(g, p, e) {
        var p :| HoldsEnemy(g, p, e);
        if p.y < y {
          assert init[p.y] == g[p.y];
          assert HoldsEnemy(init, p, e);
        } else {
          assert 0 <= p.x < |g[y]| && IsMonster(g[y][p.x]) && g[y][p.x].value.monster.enemy == e;
        }
      }
    }
  }

  /** A new cell adds one to a set's size. */
  lemma AddFresh(a: set<Position>, c: Position)
    requires c !in a
    ensures |a + {c}| == |a| + 1
  {
  }

  /** Cells above row `y` and cells of row `y` are distinct, so their counts add up. */
  lemma AddRow(a: set<Position>, b: set<Position>, y: int)
    requires forall p :: p in a ==> p.y < y
    requires forall p :: p in b ==> p.y == y
    ensures |a + b| == |a| + |b|
  {
    assert a !! b;
  }

  /** Row-major order: earlier row, or same row and not a later column. */
  predicate RowMajorLeq(a: Position, b: Position)
  {
    a.y < b.y || (a.y == b.y && a.x <= b.x)
  }

  /** `q` comes before cell (x, y) in a row-major scan. */
  predicate Scanned(q: Position, y: int, x: int)
  {
    q.y < y || (q.y == y && q.x < x)
  }

  /**
    What the exit scan knows after the cells before (x, y): `best` is the
    first scanned candidate at the largest distance `m` so far, and there is
    none when `m` is still 0.
  */
  predicate ScanInv(candidates: set<Position>, best: Option<Position>, m: int, y: int, x: int)
  {
    (best.None? ==> m == 0 && forall q :: q in candidates ==> !Scanned(q, y, x))
    && (best.Some? ==>
          best.value in candidates && m == best.value.x + best.value.y && Scanned(best.value, y, x)
          && forall q :: q in candidates && Scanned(q, y, x) ==>
               q.x + q.y < m || (q.x + q.y == m && RowMajorLeq(best.value, q)))
  }

  /** Before the scan nothing is found. */
  lemma ScanStart(candidates: set<Position>, width: int, height: int)
    requires forall q :: q in candidates ==> InGrid(q, width, height)
    ensures ScanInv(candidates, None, 0, 0, 0)
  {
  }

  /**
    Cell (x, y) is a candidate exactly when it is regular and not the start;
    the scan takes it when it is regular and strictly farther than the best
    so far.
  */
  lemma ScanStep(candidates: set<Position>, best: Option<Position>, m: int, y: nat, x: nat, regular: bool)
    requires ScanInv(candidates, best, m, y, x)
    requires forall q :: q in candidates ==> q.x + q.y > 0
    requires Position(x, y) in candidates <==> regular && (x != 0 || y != 0)
    ensures regular && x + y > m ==> ScanInv(candidates, Some(Position(x, y)), x + y, y, x + 1)
    ensures !(regular && x + y > m) ==> ScanInv(candidates, best, m, y, x + 1)
  {
    assert m >= 0 by {
      if best.Some? {
        assert best.value in candidates;
      }
    }
  }

  /** The end of a row is the start of the next. */
  lemma ScanRowEnd(candidates: set<Position>, best: Option<Position>, m: int, y: int, width: int, height: int)
    requires forall q :: q in candidates ==> InGrid(q, width, height)
    requires ScanInv(candidates, best, m, y, width)
    ensures ScanInv(candidates, best, m, y + 1, 0)
  {
    assert forall q :: q in candidates ==> (Scanned(q, y, width) <==> Scanned(q, y + 1, 0));
  }

  /** After the last row every candidate has been scanned. */
  lemma ScanEnd(candidates: set<Position>, best: Option<Position>, m: int, width: int, height: int)
    requires forall q :: q in candidates ==> InGrid(q, width, height)
    requires ScanInv(candidates, best, m, height, 0)
    ensures best.None? <==> candidates == {}
    ensures best.Some? ==>
              best.value in candidates
              && forall q :: q in candidates ==>
                   q.x + q.y < best.value.x + best.value.y
                   || (q.x + q.y == best.value.x + best.value.y && RowMajorLeq(best.value, q))
  {
    assert forall q :: q in candidates ==> Scanned(q, height, 0);
  }

  /** The draws the generation makes: the start cell, each neighbour choice, and each room's own draws. */
  datatype LabyrinthDraws = LabyrinthDraws(
    startX: nat,
    startY: nat,
    pick: nat -> nat,
    cell: Position -> RoomDraws)

  class Labyrinth {
    const width: nat
    const height: nat
    /** `rooms[y, x]`, `None` for a wall. */
    const rooms: array2<Option<RoomRef>>
    var exitPosition: Option<Position>

    predicate InBounds(p: Position)
    {
      InGrid(p, width, height)
    }

    predicate Dims()
    {
      rooms.Length0 == height && rooms.Length1 == width
    }

    /** The type of the room at `p`; `None` for a wall or a position outside the grid. */
    function KindAt(p: Position): Option<RoomType>
      reads rooms
      requires Dims()
    {
      if InBounds(p) && rooms[p.y, p.x].Some? then Some(rooms[p.y, p.x].value.Kind()) else None
    }

    /** The cell at `p` holds a room of type `t`. */
    predicate IsCell(p: Position, t: RoomType)
      reads rooms
      requires Dims()
    {
      KindAt(p) == Some(t)
    }

    /** No cell is a wall. */
    ghost predicate Full()
      reads rooms
      requires Dims()
    {
      FullMap(Layout())
    }

    lemma FullCell(p: Position)
      requires Dims() && Full() && InBounds(p)
      ensures KindAt(p).Some?
    {
      RectMembers(width, height);
      assert p in Layout();
    }

    /** Every room stands at its own cell and reports its own variant. */
    ghost predicate WellPlaced()
      reads rooms
      requires Dims()
    {
      forall y, x :: 0 <= y < height && 0 <= x < width && rooms[y, x].Some? ==>
        rooms[y, x].value.WellFormed() && rooms[y, x].value.Base().position == Position(x, y)
    }

    ghost predicate Valid()
      reads this, rooms
    {
      Dims() && WellPlaced() && (exitPosition.Some? ==> IsCell(exitPosition.value, Exit))
    }

    /** Every cell holds a room and the exit is placed: the state after construction. */
    ghost predicate Complete()
      reads this, rooms
    {
      Valid() && exitPosition.Some? && Full()
    }

    /**
      A labyrinth `width` by `height` (both positive: the search draws a
      start column below `width` and a start row below `height`), generated
      as `generateLabyrinth` does: maze, room types, exit. Every cell holds a
      room; of the n = width * height rooms n/10 are puzzle, n/8 treasure,
      n/6 monster and n/8 trap rooms and exactly one is the exit; the exit
      is the regular cell farthest from the start (first in row-major order
      among equals), and from two cells on it is not the start, which stays
      regular.
    */
    constructor(width: nat, height: nat, draws: LabyrinthDraws)
      requires width > 0 && height > 0
      ensures this.width == width && this.height == height
      ensures Complete()
      ensures |TypedCells(Puzzle)| == width * height / 10 && |TypedCells(Treasure)| == width * height / 8
      ensures |TypedCells(Monster)| == width * height / 6 && |TypedCells(RoomType.Trap)| == width * height / 8
      ensures TypedCells(Exit) == {exitPosition.value}
      ensures var e := exitPosition.value;
              forall q :: q in EligibleSet() ==>
                q.x + q.y < e.x + e.y || (q.x + q.y == e.x + e.y && RowMajorLeq(e, q))
      ensures width * height >= 2 ==> exitPosition.value != Origin && IsCell(Origin, Regular)
      ensures width * height == 1 ==> exitPosition == Some(Origin)
    {
      this.width := width;
      this.height := height;
      rooms := new Option<RoomRef>[height, width]((y, x) => None);
      exitPosition := None;
      new;
      GenerateLabyrinth(draws);
    }

    /** `generateLabyrinth`: the maze, then the room types, then the exit. */
    method GenerateLabyrinth(draws: LabyrinthDraws)
      requires Dims() && width > 0 && height > 0
      modifies this, rooms
      ensures Complete()
      ensures |TypedCells(Puzzle)| == width * height / 10 && |TypedCells(Treasure)| == width * height / 8
      ensures |TypedCells(Monster)| == width * height / 6 && |TypedCells(RoomType.Trap)| == width * height / 8
      ensures TypedCells(Exit) == {exitPosition.value}
      ensures var e := exitPosition.value;
              forall q :: q in EligibleSet() ==>
                q.x + q.y < e.x + e.y || (q.x + q.y == e.x + e.y && RowMajorLeq(e, q))
      ensures width * height >= 2 ==> exitPosition.value != Origin && IsCell(Origin, Regular)
      ensures width * height == 1 ==> exitPosition == Some(Origin)
    {
      CreateMazeStructure(draws.startX, draws.startY, draws.pick, draws.cell);
      AssignRoomTypes(draws.cell);
      ghost var typed := Layout();
      ghost var n := width * height;
      GridArea(width, height);
      PlaceExitRoom(draws.cell);
      ExitSite(typed, exitPosition.value, n, Position(width - 1, height - 1));
      ExitPlaced(typed, exitPosition.value, n);
    }

    /** The type of room in every cell. */
    function Layout(): Layout
      reads rooms
      requires Dims()
    {
      map p | p in Rect(width, height) :: KindAt(p)
    }

    /** The cells of type `t`. */
    function TypedCells(t: RoomType): set<Position>
      reads rooms
      requires Dims()
    {
      CellsOf(Layout(), t)
    }

    /** The regular cells a special room may replace: every one but the start. */
    function EligibleSet(): set<Position>
      reads rooms
      requires Dims()
    {
      Eligible(Layout())
    }

    /** `getUnvisitedNeighbors`: the neighbours probed in the fixed order, kept when in the grid and unvisited. */
    method GetUnvisitedNeighbors(pos: Position, visited: set<Position>) returns (neighbors: seq<Position>)
      ensures neighbors == Unvisited(pos, visited, width, height, SearchOrder)
    {
      var dx := [0, 1, 0, -1];
      var dy := [-1, 0, 1, 0];
      neighbors := [];
      for i := 0 to 4
        invariant neighbors == Unvisited(pos, visited, width, height, SearchOrder[..i])
      {
        var nx := pos.x + dx[i];
        var ny := pos.y + dy[i];
        assert Position(nx, ny) == pos.Adjacent(SearchOrder[i]);
        assert SearchOrder[..i + 1][..i] == SearchOrder[..i];
        if nx >= 0 && nx < width && ny >= 0 && ny < height && Position(nx, ny) !in visited {
          neighbors := neighbors + [Position(nx, ny)];
        }
      }
      assert SearchOrder[..4] == SearchOrder;
    }

    /** `rooms[y][x] = createRoom(t, p)`: the one cell changes, every other stays as it was. */
    method SetCell(p: Position, t: RoomType, d: RoomDraws)
      requires Dims() && WellPlaced() && InBounds(p)
      modifies rooms
      ensures WellPlaced()
      ensures IsCell(p, t) && !rooms[p.y, p.x].value.Base().visited
      ensures forall q :: q != p ==> KindAt(q) == old(KindAt(q))
      ensures Layout() == old(Layout())[p := Some(t)]
    {
      var room := CreateRoom(t, p, d);
      rooms[p.y, p.x] := Some(room);
      RectMembers(width, height);
    }

    /** The first step of `createMazeStructure`: every cell becomes a wall. */
    method ClearGrid()
      requires Dims()
      modifies rooms
      ensures forall y, x :: 0 <= y < height && 0 <= x < width ==> rooms[y, x].None?
    {
      for y := 0 to height
        invariant forall yy, xx :: 0 <= yy < y && 0 <= xx < width ==> rooms[yy, xx].None?
      {
        for x := 0 to width
          invariant forall yy, xx :: 0 <= yy < y && 0 <= xx < width ==> rooms[yy, xx].None?
          invariant forall xx :: 0 <= xx < x ==> rooms[y, xx].None?
        {
          rooms[y, x] := None;
        }
      }
    }

    /**
      `createMazeStructure`: clears the grid, then searches depth first from
      the drawn start cell with an explicit stack, creating a regular room at
      each cell it reaches. Turn `step` of the search picks the neighbour
      `pick(step)` (modulo the number of candidates). The search records no
      walls, and a grid is connected, so every cell ends up holding a regular
      room.
    */
    method CreateMazeStructure(startX: nat, startY: nat, pick: nat -> nat, draws: Position -> RoomDraws)
      requires Dims() && width > 0 && height > 0
      modifies rooms
      ensures WellPlaced()
      ensures forall p :: InBounds(p) ==> IsCell(p, Regular)
    {
      ClearGrid();
      assert WellPlaced();
      var start := Position(startX % width, startY % height);
      var visited := {start};
      var stack := [start];
      SetCell(start, Regular, draws(start));
      RectMembers(width, height);
      var step := 0;
      while stack != []
        invariant WellPlaced() && Searching(start, visited, stack)
        decreases Rect(width, height) - visited, |stack|
      {
        visited, stack := SearchStep(start, visited, stack, pick(step), draws);
        step := step + 1;
      }
      forall p | InBounds(p)
        ensures IsCell(p, Regular)
      {
        Reach(visited, width, height, start, p);
      }
    }

    /**
      What the search keeps true: besides `Explored`, every visited cell
      holds a regular room.
    */
    ghost predicate Searching(start: Position, visited: set<Position>, stack: seq<Position>)
      reads rooms
      requires Dims()
    {
      Explored(start, visited, stack, width, height)
      && forall c :: c in visited ==> IsCell(c, Regular)
    }

    /**
      One turn of the search: from the cell on top of the stack, visit the
      unvisited neighbour the draw `choice` picks (modulo their number) and
      push it, or pop the cell when it has none.
    */
    method SearchStep(ghost start: Position, visited: set<Position>, stack: seq<Position>, choice: nat,
                      draws: Position -> RoomDraws)
      returns (visited': set<Position>, stack': seq<Position>)
      requires Dims() && WellPlaced() && stack != [] && Searching(start, visited, stack)
      modifies rooms
      ensures WellPlaced() && Searching(start, visited', stack')
      ensures Rect(width, height) - visited' < Rect(width, height) - visited
              || (visited' == visited && |stack'| < |stack|)
    {
      var current := stack[|stack| - 1];
      var neighbors := GetUnvisitedNeighbors(current, visited);
      if neighbors != [] {
        var next := neighbors[choice % |neighbors|];
        PushStep(start, visited, stack, next, width, height);
        visited' := visited + {next};
        SetCell(next, Regular, draws(next));
        stack' := stack + [next];
      } else {
        PopStep(start, visited, stack, width, height);
        visited' := visited;
        stack' := stack[..|stack| - 1];
      }
    }

    /** The number of rooms (cells that are not walls) among the first `n` cells of row `y`. */
    function RowCount(y: int, n: int): nat
      reads rooms
      requires Dims() && 0 <= y < height && 0 <= n <= width
    {
      if n == 0 then 0 else RowCount(y, n - 1) + (if rooms[y, n - 1].Some? then 1 else 0)
    }

    /** The number of rooms in the first `m` rows. */
    function GridCount(m: int): nat
      reads rooms
      requires Dims() && 0 <= m <= height
    {
      if m == 0 then 0 else GridCount(m - 1) + RowCount(m - 1, width)
    }

    /** The counting loop that opens `assignRoomTypes`. */
    method CountRooms() returns (count: int)
      requires Dims()
      ensures count == GridCount(height)
    {
      count := 0;
      for y := 0 to height
        invariant count == GridCount(y)
      {
        for x := 0 to width
          invariant count == GridCount(y) + RowCount(y, x)
        {
          if rooms[y, x].Some? {
            count := count + 1;
          }
        }
      }
    }

    /** When every cell holds a room, the count is the number of cells. */
    lemma {:induction false} FullGridCount(m: int)
      requires Dims() && 0 <= m <= height
      requires Full()
      ensures GridCount(m) == m * width
    {
      if m > 0 {
        FullGridCount(m - 1);
        FullRowCount(m - 1, width);
      }
    }

    lemma {:induction false} FullRowCount(y: int, n: int)
      requires Dims() && 0 <= y < height && 0 <= n <= width
      requires Full()
      ensures RowCount(y, n) == n
    {
      if n > 0 {
        FullRowCount(y, n - 1);
        FullCell(Position(n - 1, y));
      }
    }

    /**
      `placeRooms(t, k)`: k times, a regular cell other than the start is
      replaced by a new room of type `t`. The source draws cells until one
      qualifies; here the cell is chosen among the qualifying ones directly,
      which needs at least k of them (with fewer, the source's draw loop
      would never end). For a special type, exactly k cells change, each from
      regular to `t`, and no other cell changes.
    */
    method PlaceRooms(t: RoomType, k: nat, draws: Position -> RoomDraws)
      requires Dims() && WellPlaced()
      requires k <= |EligibleSet()|
      modifies rooms
      ensures WellPlaced()
      ensures Placed(old(Layout()), Layout(), t, k)
    {
      ghost var start := Layout();
      ghost var layout := start;
      PlacedNone(start, t);
      RectMembers(width, height);
      var i := 0;
      while i < k
        invariant 0 <= i <= k
        invariant WellPlaced() && Layout() == layout
        invariant Placed(start, layout, t, i)
      {
        assert EligibleSet() == Eligible(layout) != {};
        var p :| p in EligibleSet();
        assert p in CellsOf(layout, Regular);
        SetCell(p, t, draws(p));
        PlaceStep(start, layout, p, t, i);
        layout := layout[p := Some(t)];
        i := i + 1;
      }
    }

    /**
      `assignRoomTypes`: counts the rooms (n, every cell after the search),
      then places n/10 puzzle, n/8 treasure, n/6 monster and n/8 trap rooms,
      each on a distinct regular cell other than the start.
    */
    method AssignRoomTypes(draws: Position -> RoomDraws)
      requires Dims() && WellPlaced() && width > 0 && height > 0
      requires forall p :: InBounds(p) ==> IsCell(p, Regular)
      modifies rooms
      ensures WellPlaced() && Full()
      ensures Assigned(Layout(), width * height)
    {
      InitialLayout();
      var roomCount := CountRooms();
      FullGridCount(height);
      PlaceSpecialRooms(roomCount, draws);
    }

    /** The four placements of `assignRoomTypes` on a grid of n regular rooms. */
    method PlaceSpecialRooms(roomCount: int, draws: Position -> RoomDraws)
      requires Dims() && WellPlaced() && roomCount >= 1
      requires FullMap(Layout()) && Origin in Layout() && Layout()[Origin] == Some(Regular)
      requires |EligibleSet()| == roomCount - 1 && forall u :: u != Regular ==> CellsOf(Layout(), u) == {}
      modifies rooms
      ensures WellPlaced() && Assigned(Layout(), roomCount)
    {
      SpecialBudget(roomCount);
      var puzzleCount := roomCount / 10;
      var treasureCount := roomCount / 8;
      var monsterCount := roomCount / 6;
      var trapCount := roomCount / 8;
      ghost var l0 := Layout();
      PlaceRooms(Puzzle, puzzleCount, draws);
      ghost var l1 := Layout();
      assert Placed(l0, l1, Puzzle, puzzleCount);
      PlaceRooms(Treasure, treasureCount, draws);
      ghost var l2 := Layout();
      assert Placed(l1, l2, Treasure, treasureCount);
      PlaceRooms(Monster, monsterCount, draws);
      ghost var l3 := Layout();
      assert Placed(l2, l3, Monster, monsterCount);
      PlaceRooms(RoomType.Trap, trapCount, draws);
      ghost var l4 := Layout();
      assert Placed(l3, l4, RoomType.Trap, trapCount);
      AssignedAfter(l0, l1, l2, l3, l4, roomCount);
    }

    /** A grid of regular rooms: full, every cell but the start eligible, no special room. */
    lemma InitialLayout()
      requires Dims() && width > 0 && height > 0
      requires forall p :: InBounds(p) ==> IsCell(p, Regular)
      ensures Full() && Origin in Layout() && Layout()[Origin] == Some(Regular)
      ensures |EligibleSet()| == width * height - 1
      ensures forall u :: u != Regular ==> CellsOf(Layout(), u) == {}
    {
      RectMembers(width, height);
      RectSize(width, height);
      assert Layout().Keys == Rect(width, height);
      forall p | p in Layout()
        ensures Layout()[p] == Some(Regular)
      {
        assert InBounds(p);
      }
      AllRegular(Layout());
      assert Origin in Layout();
    }

    /** Which cells the exit scan may choose, read off the array. */
    lemma EligibleAt(x: int, y: int)
      requires Dims() && WellPlaced() && 0 <= x < width && 0 <= y < height
      ensures Position(x, y) in EligibleSet() <==>
                rooms[y, x].Some? && rooms[y, x].value.Base().roomType == Regular && (x != 0 || y != 0)
    {
      RectMembers(width, height);
      assert Position(x, y) in Layout();
    }

    /**
      The scan of `placeExitRoom`: row by row, the regular cell with the
      largest x + y above 0, the first one found at that distance; none when
      every regular cell is the start.
    */
    method FindFarthest() returns (farthest: Option<Position>)
      requires Dims() && WellPlaced()
      ensures farthest.None? <==> EligibleSet() == {}
      ensures farthest.Some? ==>
                farthest.value in EligibleSet()
                && forall q :: q in EligibleSet() ==>
                     q.x + q.y < farthest.value.x + farthest.value.y
                     || (q.x + q.y == farthest.value.x + farthest.value.y && RowMajorLeq(farthest.value, q))
    {
      ghost var candidates := EligibleSet();
      RectMembers(width, height);
      assert forall q :: q in candidates ==> InGrid(q, width, height) && q.x + q.y > 0;
      var maxDistance := 0;
      farthest := None;
      ScanStart(candidates, width, height);
      for y := 0 to height
        invariant ScanInv(candidates, farthest, maxDistance, y, 0)
      {
        for x := 0 to width
          invariant ScanInv(candidates, farthest, maxDistance, y, x)
        {
          EligibleAt(x, y);
          var regular := rooms[y, x].Some? && rooms[y, x].value.Base().roomType == Regular;
          ScanStep(candidates, farthest, maxDistance, y, x, regular);
          if regular {
            var distance := x + y;
            if distance > maxDistance {
              maxDistance := distance;
              farthest := Some(Position(x, y));
            }
          }
        }
        ScanRowEnd(candidates, farthest, maxDistance, y, width, height);
      }
      ScanEnd(candidates, farthest, maxDistance, width, height);
    }

    /**
      `placeExitRoom`: the cell the scan finds becomes the exit; with none,
      the exit goes to the far corner (width - 1, height - 1) whatever is
      there.
    */
    method PlaceExitRoom(draws: Position -> RoomDraws)
      requires Dims() && WellPlaced() && width > 0 && height > 0
      modifies this, rooms
      ensures WellPlaced()
      ensures exitPosition.Some? && IsCell(exitPosition.value, Exit)
      ensures var e := exitPosition.value;
              if old(EligibleSet()) == {} then e == Position(width - 1, height - 1)
              else e in old(EligibleSet())
                   && forall q :: q in old(EligibleSet()) ==>
                        q.x + q.y < e.x + e.y || (q.x + q.y == e.x + e.y && RowMajorLeq(e, q))
      ensures Layout() == old(Layout())[exitPosition.value := Some(Exit)]
    {
      var farthest := FindFarthest();
      if farthest.Some? {
        exitPosition := farthest;
      } else {
        exitPosition := Some(Position(width - 1, height - 1));
      }
      RectMembers(width, height);
      SetCell(exitPosition.value, Exit, draws(exitPosition.value));
    }

    /**
      `getRoomAt`: nothing outside the grid or on a wall; otherwise the room
      of that cell, which stands at `p`.
    */
    function GetRoomAt(p: Position): (r: Option<RoomRef>)
      reads rooms
      requires Dims() && WellPlaced()
      ensures r.None? <==> KindAt(p).None?
      ensures r.Some? ==> InBounds(p) && r.value.Base().position == p && KindAt(p) == Some(r.value.Kind())
    {
      if p.x < 0 || p.x >= width || p.y < 0 || p.y >= height then None
      else rooms[p.y, p.x]
    }

    /** `isValidMove`: a move is valid onto a room, never onto a wall or off the grid. */
    predicate IsValidMove(p: Position)
      reads rooms
      requires Dims() && WellPlaced()
    {
      GetRoomAt(p).Some?
    }

    /** In a generated labyrinth the valid moves are exactly the cells of the grid. */
    lemma ValidMoveInGrid(p: Position)
      requires Complete()
      ensures IsValidMove(p) <==> InBounds(p)
    {
      if InBounds(p) {
        FullCell(p);
      }
    }

    /** `isAtExit`: the player stands on the exit position. */
    predicate IsAtExit(p: Position)
      reads this
    {
      exitPosition == Some(p)
    }

    /** The exit position holds the exit room, which the player can move onto. */
    lemma AtExitIsExitRoom(p: Position)
      requires Valid() && IsAtExit(p)
      ensures IsValidMove(p)
      ensures GetRoomAt(p).value.Kind() == Exit && GetRoomAt(p).value.Base().position == p
    {
    }

    /** Row `y` of the grid, left to right. */
    ghost function RowCells(y: int): (row: seq<Option<RoomRef>>)
      reads rooms
      requires Dims() && 0 <= y < height
      ensures |row| == width && forall x :: 0 <= x < width ==> row[x] == rooms[y, x]
    {
      seq(width, x requires 0 <= x < width reads rooms => rooms[y, x])
    }

    /** The grid as its rows, top to bottom. */
    ghost function Grid(): (g: seq<seq<Option<RoomRef>>>)
      reads rooms
      requires Dims()
      ensures |g| == height && forall y :: 0 <= y < height ==> g[y] == RowCells(y)
    {
      seq(height, y requires 0 <= y < height reads rooms => RowCells(y))
    }

    /** `getAllEnemies`: the enemy of every monster room, scanning row by row. */
    method GetAllEnemies() returns (enemies: seq<Entities.Enemy>)
      requires Dims()
      ensures enemies == EnemiesOf(Grid())
    {
      ghost var g := Grid();
      enemies := [];
      for y := 0 to height
        invariant enemies == EnemiesOf(g[..y])
      {
        ghost var row := g[y];
        for x := 0 to width
          invariant enemies == EnemiesOf(g[..y]) + RowEnemies(row[..x])
        {
          assert row[..x + 1][..x] == row[..x];
          if rooms[y, x].Some? && rooms[y, x].value.MonsterRef? {
            enemies := enemies + [rooms[y, x].value.monster.enemy];
          }
        }
        assert row[..width] == row;
        assert g[..y + 1][..y] == g[..y];
      }
      assert g[..height] == g;
    }

    /** The monster positions of the grid are the cells of type Monster. */
    lemma MonsterCells()
      requires Dims()
      ensures MonstersOf(Grid()) == TypedCells(Monster)
    {
      var g := Grid();
      var monsters := TypedCells(Monster);
      MonstersMembers(g);
      TypedAt(Monster);
      forall p
        ensures p in MonstersOf(g) <==> p in monsters
      {
        if InBounds(p) {
          assert g[p.y][p.x] == rooms[p.y, p.x];
        }
      }
    }

    /** `getAllEnemies` lists as many enemies as there are monster rooms. */
    lemma EnemyTotal()
      requires Dims()
      ensures |EnemiesOf(Grid())| == |TypedCells(Monster)|
    {
      EnemiesCount(Grid());
      MonsterCells();
    }

    /** The enemies `getAllEnemies` lists are exactly those the monster rooms hold. */
    lemma EnemiesListed(e: Entities.Enemy)
      requires Dims()
      ensures e in EnemiesOf(Grid()) <==>
                exists p :: InBounds(p) && rooms[p.y, p.x].Some? && rooms[p.y, p.x].value.MonsterRef?
                            && rooms[p.y, p.x].value.monster.enemy == e
    {
      var g := Grid();
      EnemiesMembers(g, e);
      if e in EnemiesOf(g) {
        var p :| HoldsEnemy(g, p, e);
        assert InBounds(p) && g[p.y][p.x] == rooms[p.y, p.x];
      }
      if exists p :: InBounds(p) && rooms[p.y, p.x].Some? && rooms[p.y, p.x].value.MonsterRef?
                     && rooms[p.y, p.x].value.monster.enemy == e {
        var p :| InBounds(p) && rooms[p.y, p.x].Some? && rooms[p.y, p.x].value.MonsterRef?
                 && rooms[p.y, p.x].value.monster.enemy == e;
        assert g[p.y][p.x] == rooms[p.y, p.x];
        assert HoldsEnemy(g, p, e);
      }
    }

    /** The cells of type `t`, read off the array. */
    lemma TypedAt(t: RoomType)
      requires Dims()
      ensures forall p :: p in TypedCells(t) <==> IsCell(p, t)
    {
      RectMembers(width, height);
    }
  }
}
