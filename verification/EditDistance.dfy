/**
 The edit script behind the unified diff of two string lists: a cost table filled row by row,
 a best move for every cell, and the path read back from the last cell.
 */
module EditDistance {

  datatype EditType = Match | Add | Remove | Replace

  // Replacing costs a little more than adding or removing, to lower its priority.
  const REPLACE_COST := 1.00001

  // --------------------------------------------------------------------------
  // Edit scripts
  // --------------------------------------------------------------------------

  // `edits` turns the first i elements of left into the first j elements of right: Match joins
  // equal elements and Replace unequal ones.
  ghost predicate Transforms<T>(edits: seq<EditType>, left: seq<T>, right: seq<T>, i: nat, j: nat)
    requires i <= |left| && j <= |right|
  {
    if edits == [] then i == 0 && j == 0
    else
      var rest := edits[..|edits| - 1];
      match edits[|edits| - 1]
      case Match => i > 0 && j > 0 && left[i - 1] == right[j - 1] && Transforms(rest, left, right, i - 1, j - 1)
      case Add => j > 0 && Transforms(rest, left, right, i, j - 1)
      case Remove => i > 0 && Transforms(rest, left, right, i - 1, j)
      case Replace => i > 0 && j > 0 && left[i - 1] != right[j - 1] && Transforms(rest, left, right, i - 1, j - 1)
  }

  function Weight(edit: EditType): real {
    match edit
    case Match => 0.0
    case Add => 1.0
    case Remove => 1.0
    case Replace => REPLACE_COST
  }

  function ScriptCost(edits: seq<EditType>): real {
    if edits == [] then 0.0 else ScriptCost(edits[..|edits| - 1]) + Weight(edits[|edits| - 1])
  }

  // --------------------------------------------------------------------------
  // The two tables, as functions of the cell
  // --------------------------------------------------------------------------

  function Cost<T(==)>(left: seq<T>, right: seq<T>, i: nat, j: nat): real
    requires i <= |left| && j <= |right|
    decreases i + j
  {
    if j == 0 then i as real
    else if i == 0 then j as real
    else if left[i - 1] == right[j - 1] then Cost(left, right, i - 1, j - 1)
    else PickCost(Cost(left, right, i, j - 1), Cost(left, right, i - 1, j), Cost(left, right, i - 1, j - 1))
  }

  function BestMove<T(==)>(left: seq<T>, right: seq<T>, i: nat, j: nat): EditType
    requires i <= |left| && j <= |right|
  {
    if j == 0 then Remove
    else if i == 0 then Add
    else if left[i - 1] == right[j - 1] then Match
    else PickMove(Cost(left, right, i, j - 1), Cost(left, right, i - 1, j), Cost(left, right, i - 1, j - 1))
  }

  // Adding or removing is chosen only when strictly cheaper than both alternatives.
  function PickMove(add: real, remove: real, replace: real): EditType {
    if add < remove && add < replace then Add
    else if remove < add && remove < replace then Remove
    else Replace
  }

  function PickCost(add: real, remove: real, replace: real): real {
    match PickMove(add, remove, replace)
    case Add => add + 1.0
    case Remove => remove + 1.0
    case _ => replace + REPLACE_COST
  }

  // The moves along the path that leads to cell (i, j).
  function Path<T(==)>(left: seq<T>, right: seq<T>, i: nat, j: nat): seq<EditType>
    requires i <= |left| && j <= |right|
    decreases i + j
  {
    if i == 0 && j == 0 then []
    else
      var move := BestMove(left, right, i, j);
      Path(left, right, if move != Add then i - 1 else i, if move != Remove then j - 1 else j) + [move]
  }

  // One step of the recurrences, for proofs that keep the recursion itself out of sight.
  lemma InnerCell<T>(left: seq<T>, right: seq<T>, i: nat, j: nat)
    requires 0 < i <= |left| && 0 < j <= |right|
    ensures var add, remove, replace :=
              Cost(left, right, i, j - 1), Cost(left, right, i - 1, j), Cost(left, right, i - 1, j - 1);
            if left[i - 1] == right[j - 1]
            then Cost(left, right, i, j) == replace && BestMove(left, right, i, j) == Match
            else && Cost(left, right, i, j) == PickCost(add, remove, replace)
                 && BestMove(left, right, i, j) == PickMove(add, remove, replace)
  {}

  // The rule for unequal elements: adding or removing only where that cell is strictly the cheapest.
  lemma UnequalCell<T>(left: seq<T>, right: seq<T>, i: nat, j: nat)
    requires 0 < i <= |left| && 0 < j <= |right| && left[i - 1] != right[j - 1]
    ensures var add, remove, replace :=
              Cost(left, right, i, j - 1), Cost(left, right, i - 1, j), Cost(left, right, i - 1, j - 1);
            && BestMove(left, right, i, j) != Match
            && (BestMove(left, right, i, j) == Add <==> add < remove && add < replace)
            && (BestMove(left, right, i, j) == Remove <==> remove < add && remove < replace)
            && (BestMove(left, right, i, j) == Add ==> Cost(left, right, i, j) == add + 1.0)
            && (BestMove(left, right, i, j) == Remove ==> Cost(left, right, i, j) == remove + 1.0)
            && (BestMove(left, right, i, j) == Replace ==> Cost(left, right, i, j) == replace + 1.00001)
  {
    hide Cost, BestMove;
    InnerCell(left, right, i, j);
  }

  lemma BorderCell<T>(left: seq<T>, right: seq<T>, k: nat)
    ensures k <= |left| ==> Cost(left, right, k, 0) == k as real && BestMove(left, right, k, 0) == Remove
    ensures k <= |right| ==> Cost(left, right, 0, k) == k as real
    ensures 0 < k <= |right| ==> BestMove(left, right, 0, k) == Add
  {}

  // The cell that the best move comes from.
  function Before<T(==)>(left: seq<T>, right: seq<T>, i: nat, j: nat): (cell: (nat, nat))
    requires i <= |left| && j <= |right| && i + j > 0
    ensures cell.0 <= i && cell.1 <= j && cell.0 + cell.1 < i + j
  {
    var move := BestMove(left, right, i, j);
    (if move != Add then i - 1 else i, if move != Remove then j - 1 else j)
  }

  lemma LastMove<T>(left: seq<T>, right: seq<T>, i: nat, j: nat)
    requires i <= |left| && j <= |right| && i + j > 0
    ensures var (i', j'), move := Before(left, right, i, j), BestMove(left, right, i, j);
            && Path(left, right, i, j) == Path(left, right, i', j') + [move]
            && Cost(left, right, i, j) == Cost(left, right, i', j') + Weight(move)
            && (move == Match || move == Replace ==> i > 0 && j > 0 && (move == Match <==> left[i - 1] == right[j - 1]))
  {}

  // --------------------------------------------------------------------------
  // The path is a script, and the table its price
  // --------------------------------------------------------------------------

  // One more edit at the end of a script.
  lemma Extend<T>(edits: seq<EditType>, move: EditType, left: seq<T>, right: seq<T>, i: nat, j: nat)
    requires i <= |left| && j <= |right| && Transforms(edits, left, right, i, j)
    ensures move == Match && i < |left| && j < |right| && left[i] == right[j] ==>
              Transforms(edits + [move], left, right, i + 1, j + 1)
    ensures move == Add && j < |right| ==> Transforms(edits + [move], left, right, i, j + 1)
    ensures move == Remove && i < |left| ==> Transforms(edits + [move], left, right, i + 1, j)
    ensures move == Replace && i < |left| && j < |right| && left[i] != right[j] ==>
              Transforms(edits + [move], left, right, i + 1, j + 1)
    ensures ScriptCost(edits + [move]) == ScriptCost(edits) + Weight(move)
  {
    assert (edits + [move])[..|edits + [move]| - 1] == edits;
  }

  lemma {:induction false} PathTransforms<T>(left: seq<T>, right: seq<T>, i: nat, j: nat)
    requires i <= |left| && j <= |right|
    ensures Transforms(Path(left, right, i, j), left, right, i, j)
    ensures ScriptCost(Path(left, right, i, j)) == Cost(left, right, i, j)
    decreases i + j
  {
    hide Transforms, ScriptCost, Cost, BestMove, Path, Before;
    if i + j > 0 {
      var (i', j') := Before(left, right, i, j);
      LastMove(left, right, i, j);
      BeforeIs(left, right, i, j);
      PathTransforms(left, right, i', j');
      Extend(Path(left, right, i', j'), BestMove(left, right, i, j), left, right, i', j');
    } else {
      EmptyScript(left, right);
      EmptyPath(left, right);
    }
  }

  lemma BeforeIs<T>(left: seq<T>, right: seq<T>, i: nat, j: nat)
    requires i <= |left| && j <= |right| && i + j > 0
    ensures var move := BestMove(left, right, i, j);
            && Before(left, right, i, j) == (if move != Add then i - 1 else i, if move != Remove then j - 1 else j)
            && (move != Add ==> i > 0) && (move != Remove ==> j > 0)
  {}

  lemma EmptyPath<T>(left: seq<T>, right: seq<T>)
    ensures Path(left, right, 0, 0) == [] && Cost(left, right, 0, 0) == 0.0
  {}

  lemma EmptyScript<T>(left: seq<T>, right: seq<T>)
    ensures Transforms([], left, right, 0, 0) && ScriptCost([]) == 0.0
  {
  }

  lemma {:induction false} CostBound<T>(left: seq<T>, right: seq<T>, i: nat, j: nat)
    requires i <= |left| && j <= |right|
    ensures i <= j ==> Cost(left, right, i, j) <= (j - i) as real + REPLACE_COST * i as real
    ensures j <= i ==> Cost(left, right, i, j) <= (i - j) as real + REPLACE_COST * j as real
    decreases i + j
  {
    if i > 0 && j > 0 {
      CostBound(left, right, i - 1, j - 1);
    }
  }

  // --------------------------------------------------------------------------
  // Is the path optimal?
  // --------------------------------------------------------------------------

  ghost predicate OptimalAt<T(!new)>(left: seq<T>, right: seq<T>, i: nat, j: nat)
    requires i <= |left| && j <= |right|
  {
    forall edits | Transforms(edits, left, right, i, j) :: Cost(left, right, i, j) <= ScriptCost(edits)
  }

  ghost predicate IsOptimalScript<T(!new)>(edits: seq<EditType>, left: seq<T>, right: seq<T>) {
    && Transforms(edits, left, right, |left|, |right|)
    && forall other | Transforms(other, left, right, |left|, |right|) :: ScriptCost(edits) <= ScriptCost(other)
  }

  // The cheapest price of a script for the cell: the plain minimum over the last edit.
  function Best<T(==)>(left: seq<T>, right: seq<T>, i: nat, j: nat): real
    requires i <= |left| && j <= |right|
    decreases i + j
  {
    if j == 0 then i as real
    else if i == 0 then j as real
    else
      var last := if left[i - 1] == right[j - 1] then Match else Replace;
      Least(Best(left, right, i, j - 1) + Weight(Add),
            Least(Best(left, right, i - 1, j) + Weight(Remove), Best(left, right, i - 1, j - 1) + Weight(last)))
  }

  function Least(a: real, b: real): real { if a <= b then a else b }

  lemma InnerBest<T>(left: seq<T>, right: seq<T>, i: nat, j: nat)
    requires 0 < i <= |left| && 0 < j <= |right|
    ensures var best, last := Best(left, right, i, j), if left[i - 1] == right[j - 1] then Match else Replace;
            var add, remove, join :=
              Best(left, right, i, j - 1) + Weight(Add), Best(left, right, i - 1, j) + Weight(Remove),
              Best(left, right, i - 1, j - 1) + Weight(last);
            best <= add && best <= remove && best <= join && (best == add || best == remove || best == join)
  {}

  lemma BorderBest<T>(left: seq<T>, right: seq<T>, k: nat)
    ensures k <= |left| ==> Best(left, right, k, 0) == k as real
    ensures k <= |right| ==> Best(left, right, 0, k) == k as real
  {}

  // No script is cheaper ...
  lemma {:induction false} NoScriptIsCheaper<T>(edits: seq<EditType>, left: seq<T>, right: seq<T>, i: nat, j: nat)
    requires i <= |left| && j <= |right| && Transforms(edits, left, right, i, j)
    ensures Best(left, right, i, j) <= ScriptCost(edits)
    decreases |edits|
  {
    hide Best;
    if edits == [] {
      BorderBest(left, right, 0);
    } else {
      var rest, move := edits[..|edits| - 1], edits[|edits| - 1];
      NoScriptIsCheaper(rest, left, right, if move != Add then i - 1 else i, if move != Remove then j - 1 else j);
      if i > 0 && j > 0 {
        InnerBest(left, right, i, j);
      } else {
        BorderBest(left, right, i + j);
        BorderBest(left, right, i + j - 1);
      }
    }
  }

  // ... and some script costs just that.
  lemma {:induction false} SomeScriptIsBest<T>(left: seq<T>, right: seq<T>, i: nat, j: nat) returns (edits: seq<EditType>)
    requires i <= |left| && j <= |right|
    ensures Transforms(edits, left, right, i, j) && ScriptCost(edits) == Best(left, right, i, j)
    decreases i + j
  {
    hide Best, Transforms, ScriptCost;
    if i + j == 0 {
      EmptyScript(left, right);
      BorderBest(left, right, 0);
      return [];
    }
    var move;
    if i == 0 || j == 0 {
      BorderBest(left, right, i + j);
      BorderBest(left, right, i + j - 1);
      move := if j > 0 then Add else Remove;
    } else {
      InnerBest(left, right, i, j);
      var best := Best(left, right, i, j);
      move := if best == Best(left, right, i, j - 1) + Weight(Add) then Add
              else if best == Best(left, right, i - 1, j) + Weight(Remove) then Remove
              else if left[i - 1] == right[j - 1] then Match else Replace;
    }
    var i', j' := if move != Add then i - 1 else i, if move != Remove then j - 1 else j;
    edits := SomeScriptIsBest(left, right, i', j');
    Extend(edits, move, left, right, i', j');
    edits := edits + [move];
  }

  // One more element changes the cheapest price by at most one.
  lemma {:induction false} BestNeighbours<T>(left: seq<T>, right: seq<T>, i: nat, j: nat)
    requires i <= |left| && j <= |right|
    ensures i > 0 ==> Best(left, right, i - 1, j) <= Best(left, right, i, j) + 1.0
    ensures j > 0 ==> Best(left, right, i, j - 1) <= Best(left, right, i, j) + 1.0
    decreases i + j
  {
    hide Best;
    if i > 0 && j > 0 {
      BestNeighbours(left, right, i - 1, j);
      BestNeighbours(left, right, i, j - 1);
      InnerBest(left, right, i, j);
      if i > 1 {
        InnerBest(left, right, i - 1, j);
      }
      if j > 1 {
        InnerBest(left, right, i, j - 1);
      }
    }
    BorderBest(left, right, i);
    BorderBest(left, right, j);
    if i > 0 {
      BorderBest(left, right, i - 1);
    }
    if j > 0 {
      BorderBest(left, right, j - 1);
    }
  }

  // Joining equal elements is never a mistake.
  lemma MatchIsTight<T>(left: seq<T>, right: seq<T>, i: nat, j: nat)
    requires 0 < i <= |left| && 0 < j <= |right| && left[i - 1] == right[j - 1]
    ensures Best(left, right, i, j) == Best(left, right, i - 1, j - 1)
  {
    hide Best;
    InnerBest(left, right, i, j);
    BestNeighbours(left, right, i - 1, j);
    BestNeighbours(left, right, i, j - 1);
  }

  // The move into this cell is a cheapest way there.  A match always is.
  predicate IsTight<T(==)>(left: seq<T>, right: seq<T>, i: nat, j: nat)
    requires i <= |left| && j <= |right| && i + j > 0
  {
    var (i', j'), move := Before(left, right, i, j), BestMove(left, right, i, j);
    move == Match || Best(left, right, i', j') + Weight(move) == Best(left, right, i, j)
  }

  // So is every addition, removal and replacement along the path.
  predicate PathTight<T(==)>(left: seq<T>, right: seq<T>, i: nat, j: nat)
    requires i <= |left| && j <= |right|
    decreases i + j
  {
    i + j == 0 ||
    (IsTight(left, right, i, j) && var (i', j') := Before(left, right, i, j); PathTight(left, right, i', j'))
  }

  lemma {:induction false} CostIsBestIff<T>(left: seq<T>, right: seq<T>, i: nat, j: nat)
    requires i <= |left| && j <= |right|
    ensures Cost(left, right, i, j) >= Best(left, right, i, j)
    ensures Cost(left, right, i, j) == Best(left, right, i, j) <==> PathTight(left, right, i, j)
    decreases i + j
  {
    hide Cost, Best, BestMove, Path, Before, Transforms, ScriptCost;
    PathTransforms(left, right, i, j);
    NoScriptIsCheaper(Path(left, right, i, j), left, right, i, j);
    if i + j == 0 {
      BorderBest(left, right, 0);
      BorderCell(left, right, 0);
    } else {
      var (i', j') := Before(left, right, i, j);
      LastMove(left, right, i, j);
      BeforeIs(left, right, i, j);
      CostIsBestIff(left, right, i', j');
      if BestMove(left, right, i, j) == Match {
        MatchIsTight(left, right, i, j);
      }
      BestOfMove(left, right, i, j);
    }
  }

  lemma BestOfMove<T>(left: seq<T>, right: seq<T>, i: nat, j: nat)
    requires i <= |left| && j <= |right| && i + j > 0
    ensures var (i', j') := Before(left, right, i, j);
            Best(left, right, i, j) <= Best(left, right, i', j') + Weight(BestMove(left, right, i, j))
  {
    hide Best, BestMove, Path, Before;
    BeforeIs(left, right, i, j);
    LastMove(left, right, i, j);
    if i > 0 && j > 0 {
      InnerBest(left, right, i, j);
    } else {
      BorderBest(left, right, i + j);
      BorderBest(left, right, i + j - 1);
    }
  }

  // Exactly when the promise of optimal edits is kept for two lists: when the path makes no loose move.
  lemma OptimalIffPathTight<T(!new)>(left: seq<T>, right: seq<T>)
    ensures IsOptimalScript(Path(left, right, |left|, |right|), left, right) <==> PathTight(left, right, |left|, |right|)
  {
    hide Path, PathTight, Transforms, ScriptCost, Cost;
    PathTransforms(left, right, |left|, |right|);
    OptimalAtIffPathTight(left, right, |left|, |right|);
  }

  lemma OptimalAtIffPathTight<T(!new)>(left: seq<T>, right: seq<T>, i: nat, j: nat)
    requires i <= |left| && j <= |right|
    ensures OptimalAt(left, right, i, j) <==> PathTight(left, right, i, j)
  {
    hide Cost, Best, BestMove, Path, PathTight, Transforms, ScriptCost;
    CostIsBestIff(left, right, i, j);
    var best := SomeScriptIsBest(left, right, i, j);
    forall edits | Transforms(edits, left, right, i, j)
      ensures Best(left, right, i, j) <= ScriptCost(edits)
    {
      NoScriptIsCheaper(edits, left, right, i, j);
    }
  }

  // One way into the cell is clearly the cheapest: adding or removing by any margin, replacing by
  // the little that it costs more.
  predicate ClearCell<T(==)>(left: seq<T>, right: seq<T>, i: nat, j: nat)
    requires 0 < i <= |left| && 0 < j <= |right|
  {
    var add, remove, replace :=
      Best(left, right, i, j - 1), Best(left, right, i - 1, j), Best(left, right, i - 1, j - 1);
    || left[i - 1] == right[j - 1]
    || (add < remove && add < replace) || (remove < add && remove < replace)
    || (replace + 0.00001 <= add && replace + 0.00001 <= remove)
  }

  ghost predicate Clear<T>(left: seq<T>, right: seq<T>, i: nat, j: nat)
    requires i <= |left| && j <= |right|
  {
    forall i', j' | 0 < i' <= i && 0 < j' <= j :: ClearCell(left, right, i', j')
  }

  // Where every cell is clear, the table holds the cheapest prices.
  lemma {:induction false} ClearIsBest<T>(left: seq<T>, right: seq<T>, i: nat, j: nat)
    requires i <= |left| && j <= |right| && Clear(left, right, i, j)
    ensures Cost(left, right, i, j) == Best(left, right, i, j)
    decreases i + j
  {
    hide Cost, Best, BestMove;
    if i == 0 || j == 0 {
      BorderCell(left, right, i + j);
      BorderBest(left, right, i + j);
    } else {
      ClearIsBest(left, right, i, j - 1);
      ClearIsBest(left, right, i - 1, j);
      ClearIsBest(left, right, i - 1, j - 1);
      InnerCell(left, right, i, j);
      InnerBest(left, right, i, j);
      assert ClearCell(left, right, i, j);
      if left[i - 1] == right[j - 1] {
        MatchIsTight(left, right, i, j);
      }
    }
  }

  lemma ClearIsOptimal<T(!new)>(left: seq<T>, right: seq<T>)
    requires Clear(left, right, |left|, |right|)
    ensures IsOptimalScript(Path(left, right, |left|, |right|), left, right)
  {
    hide Path, Transforms, ScriptCost, Cost, Best, PathTight, Clear;
    ClearIsBest(left, right, |left|, |right|);
    CostIsBestIff(left, right, |left|, |right|);
    OptimalIffPathTight(left, right);
  }

  // --------------------------------------------------------------------------
  // Is every prefix optimal, too?
  // --------------------------------------------------------------------------

  // The table replaces in this cell although adding or removing is cheaper: the two tie with each
  // other (or with the replaced cell), so neither is strictly the cheapest.
  predicate MispricedTie<T(==)>(left: seq<T>, right: seq<T>, i: nat, j: nat)
    requires i <= |left| && j <= |right|
  {
    && i > 0 && j > 0 && left[i - 1] != right[j - 1]
    && var add, remove, replace :=
         Cost(left, right, i, j - 1), Cost(left, right, i - 1, j), Cost(left, right, i - 1, j - 1);
       PickMove(add, remove, replace) == Replace &&
           (add + 1.0 < replace + REPLACE_COST || remove + 1.0 < replace + REPLACE_COST)
  }

  ghost predicate NoTieUpTo<T>(left: seq<T>, right: seq<T>, i: nat, j: nat)
    requires i <= |left| && j <= |right|
  {
    forall i', j' | 0 <= i' <= i && 0 <= j' <= j :: !MispricedTie(left, right, i', j')
  }

  // Without such cells, one more element changes the cost by at most one either way.
  lemma {:induction false} NeighboursDifferByOne<T>(left: seq<T>, right: seq<T>, i: nat, j: nat)
    requires i <= |left| && j <= |right| && NoTieUpTo(left, right, i, j)
    ensures i > 0 ==> Cost(left, right, i, j) <= Cost(left, right, i - 1, j) + 1.0
    ensures j > 0 ==> Cost(left, right, i, j) <= Cost(left, right, i, j - 1) + 1.0
    ensures i > 0 ==> Cost(left, right, i - 1, j) <= Cost(left, right, i, j) + 1.0
    ensures j > 0 ==> Cost(left, right, i, j - 1) <= Cost(left, right, i, j) + 1.0
    decreases i + j
  {
    hide Cost, BestMove;
    BorderCell(left, right, i);
    BorderCell(left, right, j);
    if i > 0 {
      BorderCell(left, right, i - 1);
    }
    if j > 0 {
      BorderCell(left, right, j - 1);
    }
    if i > 0 && j > 0 {
      NeighboursDifferByOne(left, right, i - 1, j);
      NeighboursDifferByOne(left, right, i, j - 1);
      NeighboursDifferByOne(left, right, i - 1, j - 1);
      assert !MispricedTie(left, right, i, j);
      InnerCell(left, right, i, j);
    }
  }

  lemma {:induction false} OptimalWithoutTies<T>(edits: seq<EditType>, left: seq<T>, right: seq<T>, i: nat, j: nat)
    requires i <= |left| && j <= |right| && NoTieUpTo(left, right, i, j)
    requires Transforms(edits, left, right, i, j)
    ensures Cost(left, right, i, j) <= ScriptCost(edits)
    decreases |edits|
  {
    if edits != [] {
      var rest, move := edits[..|edits| - 1], edits[|edits| - 1];
      NeighboursDifferByOne(left, right, i, j);
      OptimalWithoutTies(rest, left, right, if move != Add then i - 1 else i, if move != Remove then j - 1 else j);
      assert !MispricedTie(left, right, i, j);
    }
  }

  // A mispriced tie is beaten by the script that adds or removes instead.
  lemma TieIsNotOptimal<T(!new)>(left: seq<T>, right: seq<T>, i: nat, j: nat)
    requires i <= |left| && j <= |right| && MispricedTie(left, right, i, j)
    ensures !OptimalAt(left, right, i, j)
  {
    hide Transforms, ScriptCost;
    if Cost(left, right, i, j - 1) + 1.0 < Cost(left, right, i, j) {
      PathTransforms(left, right, i, j - 1);
      Extend(Path(left, right, i, j - 1), Add, left, right, i, j - 1);
    } else {
      PathTransforms(left, right, i - 1, j);
      Extend(Path(left, right, i - 1, j), Remove, left, right, i - 1, j);
    }
  }

  // Exactly when the paths of all pairs of prefixes are optimal.
  lemma OptimalIffNoMispricedTie<T(!new)>(left: seq<T>, right: seq<T>)
    ensures (forall i, j | 0 <= i <= |left| && 0 <= j <= |right| :: OptimalAt(left, right, i, j))
            <==> NoTieUpTo(left, right, |left|, |right|)
  {
    if NoTieUpTo(left, right, |left|, |right|) {
      forall i, j | 0 <= i <= |left| && 0 <= j <= |right|
        ensures OptimalAt(left, right, i, j)
      {
        forall edits | Transforms(edits, left, right, i, j)
          ensures Cost(left, right, i, j) <= ScriptCost(edits)
        {
          OptimalWithoutTies(edits, left, right, i, j);
        }
      }
    } else {
      var i, j :| 0 <= i <= |left| && 0 <= j <= |right| && MispricedTie(left, right, i, j);
      TieIsNotOptimal(left, right, i, j);
    }
  }

  // The promise is broken for a,b,a against b,a,b: three replacements instead of a removal and an
  // addition.
  lemma NotAlwaysOptimal()
    ensures var left, right := ['a', 'b', 'a'], ['b', 'a', 'b'];
            && Path(left, right, 3, 3) == [Replace, Replace, Replace]
            && Transforms([Remove, Match, Match, Add], left, right, 3, 3)
            && ScriptCost([Remove, Match, Match, Add]) < Cost(left, right, 3, 3)
  {
    var left, right := ['a', 'b', 'a'], ['b', 'a', 'b'];
    assert Cost(left, right, 1, 1) == REPLACE_COST;
    assert Cost(left, right, 1, 2) == 1.0;
    assert Cost(left, right, 2, 1) == 1.0;
    assert Cost(left, right, 2, 2) == 2.0 * REPLACE_COST;
    assert Cost(left, right, 1, 3) == 2.0;
    assert Cost(left, right, 3, 1) == 2.0;
    assert Cost(left, right, 2, 3) == 1.0;
    assert Cost(left, right, 3, 2) == 1.0;
    assert Path(left, right, 1, 1) == [Replace];
    assert Path(left, right, 2, 2) == [Replace, Replace];
    EmptyScript(left, right);
    Extend([], Remove, left, right, 0, 0);
    Extend([] + [Remove], Match, left, right, 1, 0);
    Extend([] + [Remove] + [Match], Match, left, right, 2, 1);
    Extend([] + [Remove] + [Match] + [Match], Add, left, right, 3, 2);
    assert [] + [Remove] + [Match] + [Match] + [Add] == [Remove, Match, Match, Add];
  }

  // A text that moved on by one line: the lines that stayed are matched.
  lemma MovedByOne()
    ensures var left, right := ['a', 'b', 'c'], ['b', 'c', 'd'];
            Path(left, right, 3, 3) == [Remove, Match, Match, Add] && Cost(left, right, 3, 3) == 2.0
  {
    var left, right := ['a', 'b', 'c'], ['b', 'c', 'd'];
    assert Cost(left, right, 1, 1) == REPLACE_COST;
    assert Cost(left, right, 1, 2) == 1.0 + REPLACE_COST;
    assert Cost(left, right, 2, 1) == 1.0;
    assert Cost(left, right, 3, 2) == 1.0;
    assert Path(left, right, 1, 0) == [Remove];
    assert Path(left, right, 2, 1) == [Remove] + [Match];
    assert Path(left, right, 3, 2) == [Remove] + [Match] + [Match];
    assert BestMove(left, right, 3, 3) == Add;
    assert [Remove] + [Match] + [Match] + [Add] == [Remove, Match, Match, Add];
  }

  // A mispriced tie off the path does no harm: one more b in front of the right text above.
  lemma TieOffThePath()
    ensures var left, right := ['a', 'b', 'a'], ['b', 'a', 'b', 'a'];
            MispricedTie(left, right, 3, 3) && OptimalAt(left, right, 3, 4)
  {
    var left, right := ['a', 'b', 'a'], ['b', 'a', 'b', 'a'];
    assert Cost(left, right, 1, 1) == REPLACE_COST;
    assert Cost(left, right, 1, 2) == 1.0;
    assert Cost(left, right, 2, 1) == 1.0;
    assert Cost(left, right, 2, 2) == 2.0 * REPLACE_COST;
    assert Cost(left, right, 2, 3) == 1.0;
    assert Cost(left, right, 3, 2) == 1.0;
    assert PathTight(left, right, 0, 1);
    assert PathTight(left, right, 1, 2);
    assert PathTight(left, right, 2, 3);
    assert PathTight(left, right, 3, 4);
    OptimalAtIffPathTight(left, right, 3, 4);
  }

  // --------------------------------------------------------------------------
  // Only equality matters
  // --------------------------------------------------------------------------

  ghost predicate SameEqualities<T, U>(left: seq<T>, right: seq<T>, left': seq<U>, right': seq<U>) {
    && |left| == |left'| && |right| == |right'|
    && forall i, j | 0 <= i < |left| && 0 <= j < |right| :: left[i] == right[j] <==> left'[i] == right'[j]
  }

  lemma {:induction false} CostDependsOnEqualities<T, U>(left: seq<T>, right: seq<T>, left': seq<U>, right': seq<U>,
                                                        i: nat, j: nat)
    requires SameEqualities(left, right, left', right') && i <= |left| && j <= |right|
    ensures Cost(left, right, i, j) == Cost(left', right', i, j)
    ensures BestMove(left, right, i, j) == BestMove(left', right', i, j)
    decreases i + j
  {
    hide Cost, BestMove, PickCost, PickMove;
    if i > 0 && j > 0 {
      CostDependsOnEqualities(left, right, left', right', i - 1, j);
      CostDependsOnEqualities(left, right, left', right', i, j - 1);
      CostDependsOnEqualities(left, right, left', right', i - 1, j - 1);
      InnerCell(left, right, i, j);
      InnerCell(left', right', i, j);
    } else {
      BorderCell(left, right, i + j);
      BorderCell(left', right', i + j);
    }
  }

  lemma {:induction false} PathDependsOnEqualities<T, U>(left: seq<T>, right: seq<T>, left': seq<U>, right': seq<U>,
                                                        i: nat, j: nat)
    requires SameEqualities(left, right, left', right') && i <= |left| && j <= |right|
    ensures Cost(left, right, i, j) == Cost(left', right', i, j)
    ensures Path(left, right, i, j) == Path(left', right', i, j)
    decreases i + j
  {
    hide Cost, BestMove, Path, Before;
    CostDependsOnEqualities(left, right, left', right', i, j);
    if i + j == 0 {
      EmptyPath(left, right);
      EmptyPath(left', right');
    } else {
      var (i', j') := Before(left, right, i, j);
      PathDependsOnEqualities(left, right, left', right', i', j');
      BeforeIs(left, right, i, j);
      BeforeIs(left', right', i, j);
      LastMove(left, right, i, j);
      LastMove(left', right', i, j);
    }
  }

  // --------------------------------------------------------------------------
  // The algorithm
  // --------------------------------------------------------------------------

  function Reversed<T>(s: seq<T>): (r: seq<T>) {
    if s == [] then [] else [s[|s| - 1]] + Reversed(s[..|s| - 1])
  }

  // The right entries of both tables for the cell (i, j).
  ghost predicate Filled<T>(cost: real, move: EditType, left: seq<T>, right: seq<T>, i: int, j: int)
    requires 0 <= i <= |left| && 0 <= j <= |right|
  {
    cost == Cost(left, right, i, j) && move == BestMove(left, right, i, j)
  }

  lemma FilledMeans<T>(cost: real, move: EditType, left: seq<T>, right: seq<T>, i: nat, j: nat)
    requires i <= |left| && j <= |right| && Filled(cost, move, left, right, i, j)
    ensures move == BestMove(left, right, i, j)
  {}

  lemma BorderCells<T>(left: seq<T>, right: seq<T>, k: nat)
    ensures k <= |left| ==> Filled(k as real, Remove, left, right, k, 0)
    ensures 0 < k <= |right| ==> Filled(k as real, Add, left, right, 0, k)
  {
  }

  method FillCell<T(==)>(costs: array2<real>, bestMove: array2<EditType>, left: seq<T>, right: seq<T>, l: nat, r: nat)
    requires costs.Length0 == bestMove.Length0 == |left| + 1 && costs.Length1 == bestMove.Length1 == |right| + 1
    requires l < |left| && r < |right|
    requires Filled(costs[l, r], bestMove[l, r], left, right, l, r)
    requires Filled(costs[l + 1, r], bestMove[l + 1, r], left, right, l + 1, r)
    requires Filled(costs[l, r + 1], bestMove[l, r + 1], left, right, l, r + 1)
    modifies costs, bestMove
    ensures Filled(costs[l + 1, r + 1], bestMove[l + 1, r + 1], left, right, l + 1, r + 1)
    ensures forall i, j | 0 <= i <= |left| && 0 <= j <= |right| && (i, j) != (l + 1, r + 1) ::
              costs[i, j] == old(costs[i, j]) && bestMove[i, j] == old(bestMove[i, j])
  {
    if left[l] == right[r] {
      // Found a match. Consume it.
      costs[l + 1, r + 1] := costs[l, r];
      bestMove[l + 1, r + 1] := Match;
      return;
    }
    var add, remove, replace := costs[l + 1, r], costs[l, r + 1], costs[l, r];
    if add < remove && add < replace {
      costs[l + 1, r + 1] := add + 1.0;
      bestMove[l + 1, r + 1] := Add;
    } else if remove < add && remove < replace {
      costs[l + 1, r + 1] := remove + 1.0;
      bestMove[l + 1, r + 1] := Remove;
    } else {
      costs[l + 1, r + 1] := replace + REPLACE_COST;
      bestMove[l + 1, r + 1] := Replace;
    }
  }

  // Both tables hold the right entries everywhere.
  ghost predicate Tables<T>(costs: array2<real>, bestMove: array2<EditType>, left: seq<T>, right: seq<T>)
    reads costs, bestMove
  {
    && costs.Length0 == bestMove.Length0 == |left| + 1 && costs.Length1 == bestMove.Length1 == |right| + 1
    && forall i, j | 0 <= i <= |left| && 0 <= j <= |right| :: Filled(costs[i, j], bestMove[i, j], left, right, i, j)
  }

  lemma TablesMean<T>(costs: array2<real>, bestMove: array2<EditType>, left: seq<T>, right: seq<T>, i: nat, j: nat)
    requires Tables(costs, bestMove, left, right) && i <= |left| && j <= |right|
    ensures i < bestMove.Length0 && j < bestMove.Length1 && bestMove[i, j] == BestMove(left, right, i, j)
  {
    hide Filled;
    FilledMeans(costs[i, j], bestMove[i, j], left, right, i, j);
  }

  method FillTables<T(==)>(left: seq<T>, right: seq<T>) returns (costs: array2<real>, bestMove: array2<EditType>)
    ensures Tables(costs, bestMove, left, right)
  {
    hide Filled;
    costs := new real[|left| + 1, |right| + 1];
    bestMove := new EditType[|left| + 1, |right| + 1];
    // Populate for empty right.
    for l := 0 to |left| + 1
      invariant forall i | 0 <= i < l :: Filled(costs[i, 0], bestMove[i, 0], left, right, i, 0)
    {
      BorderCells(left, right, l);
      costs[l, 0] := l as real;
      bestMove[l, 0] := Remove;
    }
    // Populate for empty left.
    for r := 1 to |right| + 1
      invariant forall i | 0 <= i <= |left| :: Filled(costs[i, 0], bestMove[i, 0], left, right, i, 0)
      invariant forall j | 0 <= j < r :: Filled(costs[0, j], bestMove[0, j], left, right, 0, j)
    {
      BorderCells(left, right, r);
      costs[0, r] := r as real;
      bestMove[0, r] := Add;
    }
    for l := 0 to |left|
      invariant forall i, j | 0 <= i <= |left| && 0 <= j <= |right| && (i <= l || j == 0) ::
                  Filled(costs[i, j], bestMove[i, j], left, right, i, j)
    {
      for r := 0 to |right|
        invariant forall i, j | 0 <= i <= |left| && 0 <= j <= |right| && (i <= l || j == 0 || (i == l + 1 && j <= r)) ::
                    Filled(costs[i, j], bestMove[i, j], left, right, i, j)
      {
        FillCell(costs, bestMove, left, right, l, r);
      }
    }
  }

  // `tail`, reversed, is the rest of the path from the cell (i, j) on.
  ghost predicate LeadsBack<T>(left: seq<T>, right: seq<T>, i: nat, j: nat, tail: seq<EditType>) {
    && i <= |left| && j <= |right|
    && Path(left, right, i, j) + Reversed(tail) == Path(left, right, |left|, |right|)
  }

  lemma StepBack<T>(left: seq<T>, right: seq<T>, i: nat, j: nat, tail: seq<EditType>)
    requires LeadsBack(left, right, i, j, tail) && i + j > 0
    ensures var move := BestMove(left, right, i, j);
            && (move != Add ==> i > 0) && (move != Remove ==> j > 0)
            && LeadsBack(left, right, if move != Add then i - 1 else i, if move != Remove then j - 1 else j, tail + [move])
  {
    hide Path, BestMove, Cost, Before;
    LastMove(left, right, i, j);
    BeforeIs(left, right, i, j);
    var move := BestMove(left, right, i, j);
    var (i', j') := Before(left, right, i, j);
    assert (tail + [move])[..|tail|] == tail;
    assert Path(left, right, i', j') + [move] + Reversed(tail) == Path(left, right, i', j') + ([move] + Reversed(tail));
  }

  lemma LeadsBackEnds<T>(left: seq<T>, right: seq<T>, tail: seq<EditType>)
    ensures LeadsBack(left, right, |left|, |right|, [])
    ensures LeadsBack(left, right, 0, 0, tail) ==> Reversed(tail) == Path(left, right, |left|, |right|)
  {
    hide Path;
    EmptyPath(left, right);
    assert Path(left, right, |left|, |right|) + [] == Path(left, right, |left|, |right|);
    assert [] + Reversed(tail) == Reversed(tail);
  }

  method CalculateOptimalEdits(left: seq<nat>, right: seq<nat>) returns (bestPath: seq<EditType>)
    ensures bestPath == Path(left, right, |left|, |right|)
  {
    hide BestMove, Path, Tables, LeadsBack;
    var costs, bestMove := FillTables(left, right);
    // Reconstruct the best path, in reverse order.
    var l, r := |left|, |right|;
    bestPath := [];
    LeadsBackEnds(left, right, bestPath);
    while l > 0 || r > 0
      invariant 0 <= l <= |left| && 0 <= r <= |right|
      invariant Tables(costs, bestMove, left, right) && LeadsBack(left, right, l, r, bestPath)
      decreases l + r
    {
      TablesMean(costs, bestMove, left, right, l, r);
      StepBack(left, right, l, r, bestPath);
      var move := bestMove[l, r];
      bestPath := bestPath + [move];
      l := if move != Add then l - 1 else l;
      r := if move != Remove then r - 1 else r;
    }
    LeadsBackEnds(left, right, bestPath);
    bestPath := Reversed(bestPath);
  }

  // Gives every distinct string its own number.
  class InternalStrings {
    var ids: map<string, nat>

    ghost predicate Valid()
      reads this
    {
      && (forall s | s in ids :: ids[s] < |ids|)
      && (forall s, t | s in ids && t in ids && ids[s] == ids[t] :: s == t)
    }

    constructor ()
      ensures Valid() && ids == map[]
    {
      ids := map[];
    }

    method GetId(str: string) returns (id: nat)
      requires Valid()
      modifies this
      ensures Valid() && str in ids && id == ids[str]
      ensures forall s | s in old(ids) :: s in ids && ids[s] == old(ids)[s]
    {
      if str in ids {
        return ids[str];
      }
      id := |ids|;
      ids := ids[str := id];
    }

    method GetIds(strs: seq<string>) returns (numbers: seq<nat>)
      requires Valid()
      modifies this
      ensures Valid() && |numbers| == |strs|
      ensures forall s | s in old(ids) :: s in ids && ids[s] == old(ids)[s]
      ensures forall i | 0 <= i < |strs| :: strs[i] in ids && numbers[i] == ids[strs[i]]
    {
      numbers := [];
      for i := 0 to |strs|
        invariant Valid() && |numbers| == i
        invariant forall s | s in old(ids) :: s in ids && ids[s] == old(ids)[s]
        invariant forall k | 0 <= k < i :: strs[k] in ids && numbers[k] == ids[strs[k]]
      {
        var id := GetId(strs[i]);
        numbers := numbers + [id];
      }
    }
  }

  method CalculateStringEdits(left: seq<string>, right: seq<string>) returns (edits: seq<EditType>)
    ensures edits == Path(left, right, |left|, |right|)
    ensures Transforms(edits, left, right, |left|, |right|)
    ensures IsOptimalScript(edits, left, right) <==> PathTight(left, right, |left|, |right|)
    ensures Clear(left, right, |left|, |right|) ==> IsOptimalScript(edits, left, right)
  {
    hide Path, Cost, BestMove, Transforms, PathTight, IsOptimalScript, Clear;
    var table := new InternalStrings();
    var leftIds := table.GetIds(left);
    var rightIds := table.GetIds(right);
    PathDependsOnEqualities(left, right, leftIds, rightIds, |left|, |right|);
    edits := CalculateOptimalEdits(leftIds, rightIds);
    PathTransforms(left, right, |left|, |right|);
    OptimalIffPathTight(left, right);
    if Clear(left, right, |left|, |right|) {
      ClearIsOptimal(left, right);
    }
  }
}
