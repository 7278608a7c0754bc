/** Edit scripts between two sequences: edit_distance::CalculateOptimalEdits of
    utils/googletest/src/gtest.cc.

    A cost of 1 is `Unit` here and the cost 1.00001 of a replacement is `Unit + 1`, so the sums
    the source approximates in floating point are exact.  A script depends on the two sides
    only through which positions hold equal elements, so that relation is what most of the
    definitions take. */
module EditDistance {

  datatype EditType = Match | Add | Remove | Replace

  const Unit: nat := 100000

  function MoveCost(m: EditType): nat {
    match m
    case Match => 0
    case Add => Unit
    case Remove => Unit
    case Replace => Unit + 1
  }

  /** The pairs of positions that hold equal elements. */
  function Matches<T(==)>(left: seq<T>, right: seq<T>): set<(nat, nat)> {
    set i: nat, j: nat | i < |left| && j < |right| && left[i] == right[j] :: (i, j)
  }

  // ----- scripts -----

  /** How many elements of the left (right) side a script consumes. */
  function LeftLen(edits: seq<EditType>): nat {
    if edits == [] then 0 else LeftLen(edits[..|edits| - 1]) + if edits[|edits| - 1].Add? then 0 else 1
  }

  function RightLen(edits: seq<EditType>): nat {
    if edits == [] then 0 else RightLen(edits[..|edits| - 1]) + if edits[|edits| - 1].Remove? then 0 else 1
  }

  function ScriptCost(edits: seq<EditType>): nat {
    if edits == [] then 0 else ScriptCost(edits[..|edits| - 1]) + MoveCost(edits[|edits| - 1])
  }

  /** How often a move occurs. */
  function Moves(edits: seq<EditType>, m: EditType): nat {
    if edits == [] then 0 else Moves(edits[..|edits| - 1], m) + if edits[|edits| - 1] == m then 1 else 0
  }

  /** Every move that is not a match. */
  function Edits(edits: seq<EditType>): nat {
    Moves(edits, Add) + Moves(edits, Remove) + Moves(edits, Replace)
  }

  lemma {:induction false} CostOfMoves(edits: seq<EditType>)
    ensures ScriptCost(edits) == Edits(edits) * Unit + Moves(edits, Replace)
    ensures Moves(edits, Replace) <= |edits|
  {
    if edits != [] {
      CostOfMoves(edits[..|edits| - 1]);
    }
  }

  /** What the costs 1 and 1.00001 are for: of two scripts with fewer than 100000 moves the one with
      fewer edits is cheaper, and of two with as many edits the one with fewer replacements. */
  lemma CheaperIffFewerEdits(a: seq<EditType>, b: seq<EditType>)
    requires |a| < 100000 && |b| < 100000
    ensures ScriptCost(a) < ScriptCost(b)
       <==> Edits(a) < Edits(b) || (Edits(a) == Edits(b) && Moves(a, Replace) < Moves(b, Replace))
  {
    CostOfMoves(a);
    CostOfMoves(b);
  }

  /** Only equal elements are kept. */
  ghost predicate MatchesOnly(edits: seq<EditType>, same: set<(nat, nat)>) {
    forall i :: 0 <= i < |edits| && edits[i].Match? ==> (LeftLen(edits[..i]), RightLen(edits[..i])) in same
  }

  /** The script uses up both sides and keeps only equal elements. */
  ghost predicate ValidScript(edits: seq<EditType>, same: set<(nat, nat)>, l: nat, r: nat) {
    LeftLen(edits) == l && RightLen(edits) == r && MatchesOnly(edits, same)
  }

  // ----- what the tables hold -----

  /** The move for a cell, given the costs of the three cells before it. */
  function Choice(same: bool, add: nat, remove: nat, replace: nat): EditType {
    if same then Match
    else if add < remove && add < replace then Add
    else if remove < add && remove < replace then Remove
    else Replace
  }

  function ChoiceCost(same: bool, add: nat, remove: nat, replace: nat): nat {
    var m := Choice(same, add, remove, replace);
    MoveCost(m) + if m.Add? then add else if m.Remove? then remove else replace
  }

  /** The cost and the move for the first `l` elements of the left and `r` of the right. */
  function Cost(same: set<(nat, nat)>, l: nat, r: nat): nat
    decreases l + r
  {
    if r == 0 then l * Unit
    else if l == 0 then r * Unit
    else ChoiceCost((l - 1, r - 1) in same, Cost(same, l, r - 1), Cost(same, l - 1, r), Cost(same, l - 1, r - 1))
  }

  function Move(same: set<(nat, nat)>, l: nat, r: nat): EditType {
    if r == 0 then Remove
    else if l == 0 then Add
    else Choice((l - 1, r - 1) in same, Cost(same, l, r - 1), Cost(same, l - 1, r), Cost(same, l - 1, r - 1))
  }

  /** Where the traceback goes from a cell other than the first; no index underflows. */
  function Back(same: set<(nat, nat)>, l: nat, r: nat): (p: (nat, nat))
    requires l + r > 0
    ensures p.0 <= l && p.1 <= r && p.0 + p.1 < l + r
  {
    var m := Move(same, l, r);
    (if m.Add? then l else l - 1, if m.Remove? then r else r - 1)
  }

  /** The path the traceback follows, front to back. */
  function Script(same: set<(nat, nat)>, l: nat, r: nat): seq<EditType>
    decreases l + r
  {
    if l + r == 0 then []
    else Script(same, Back(same, l, r).0, Back(same, l, r).1) + [Move(same, l, r)]
  }

  lemma AppendMove(edits: seq<EditType>, m: EditType)
    ensures LeftLen(edits + [m]) == LeftLen(edits) + if m.Add? then 0 else 1
    ensures RightLen(edits + [m]) == RightLen(edits) + if m.Remove? then 0 else 1
    ensures ScriptCost(edits + [m]) == ScriptCost(edits) + MoveCost(m)
  {
    assert (edits + [m])[..|edits|] == edits;
  }

  lemma AppendMatches(edits: seq<EditType>, m: EditType, same: set<(nat, nat)>)
    ensures MatchesOnly(edits + [m], same)
       <==> MatchesOnly(edits, same) && (m.Match? ==> (LeftLen(edits), RightLen(edits)) in same)
  {
    var all := edits + [m];
    assert all[..|edits|] == edits;
    assert forall i :: 0 <= i < |edits| ==> all[..i] == edits[..i] && all[i] == edits[i];
    if MatchesOnly(all, same) {
      assert m.Match? ==> all[|edits|].Match?;
      forall i | 0 <= i < |edits| && edits[i].Match? ensures (LeftLen(edits[..i]), RightLen(edits[..i])) in same {
        assert all[i].Match?;
      }
    }
  }

  lemma CellCost(same: set<(nat, nat)>, l: nat, r: nat)
    requires l + r > 0
    ensures var p := Back(same, l, r);
      Cost(same, l, r) == Cost(same, p.0, p.1) + MoveCost(Move(same, l, r))
    ensures Move(same, l, r).Match? ==> l > 0 && r > 0 && (l - 1, r - 1) in same
  {
  }

  /** The script is a valid one and costs what the last table cell says. */
  lemma {:induction false} ScriptIsValid(same: set<(nat, nat)>, l: nat, r: nat)
    ensures ValidScript(Script(same, l, r), same, l, r)
    ensures ScriptCost(Script(same, l, r)) == Cost(same, l, r)
    decreases l + r
  {
    if l + r > 0 {
      var p := Back(same, l, r);
      ScriptIsValid(same, p.0, p.1);
      CellCost(same, l, r);
      AppendMove(Script(same, p.0, p.1), Move(same, l, r));
      AppendMatches(Script(same, p.0, p.1), Move(same, l, r), same);
    }
  }

  // ----- the tables -----

  /** The cells filled once row `l` is done and the next row is done up to column `r`. */
  predicate Done(l: nat, r: nat, i: int, j: int) {
    i <= l || j == 0 || (i == l + 1 && j <= r)
  }

  ghost predicate Filled<T>(table: array2<T>, want: (nat, nat) -> T, l: nat, r: nat)
    reads table
  {
    forall i: nat, j: nat {:trigger table[i, j]} :: i < table.Length0 && j < table.Length1 && Done(l, r, i, j) ==>
      table[i, j] == want(i, j)
  }

  ghost function CostOf(same: set<(nat, nat)>): (nat, nat) -> nat {
    (i: nat, j: nat) => Cost(same, i, j)
  }

  ghost function MoveOf(same: set<(nat, nat)>): (nat, nat) -> EditType {
    (i: nat, j: nat) => Move(same, i, j)
  }

  /** Filling the tables and tracing the moves back. */
  method CalculateOptimalEdits(left: seq<nat>, right: seq<nat>) returns (edits: seq<EditType>)
    ensures edits == Script(Matches(left, right), |left|, |right|)
    ensures ValidScript(edits, Matches(left, right), |left|, |right|)
    ensures ScriptCost(edits) == Cost(Matches(left, right), |left|, |right|)
    ensures (forall other :: ValidScript(other, Matches(left, right), |left|, |right|) ==> ScriptCost(edits) <= ScriptCost(other))
       <==> PathIsBest(Matches(left, right), |left|, |right|)
  {
    ghost var same := Matches(left, right);
    var costs := new nat[|left| + 1, |right| + 1];
    var bestMove := new EditType[|left| + 1, |right| + 1];
    FillBorders(same, costs, bestMove);
    var l := 0;
    while l < |left|
      invariant l <= |left| && Filled(costs, CostOf(same), l, 0) && Filled(bestMove, MoveOf(same), l, 0)
    {
      FillRow(left, right, costs, bestMove, l);
      l := l + 1;
    }
    edits := TraceBack(same, |left|, |right|, bestMove);
    ScriptIsValid(same, |left|, |right|);
    ScriptIsOptimalIff(same, |left|, |right|);
  }

  method FillBorders(ghost same: set<(nat, nat)>, costs: array2<nat>, bestMove: array2<EditType>)
    requires costs.Length0 == bestMove.Length0 > 0 && costs.Length1 == bestMove.Length1 > 0
    modifies costs, bestMove
    ensures Filled(costs, CostOf(same), 0, 0) && Filled(bestMove, MoveOf(same), 0, 0)
  {
    var l := 0;
    while l < costs.Length0
      invariant l <= costs.Length0
      invariant forall i :: 0 <= i < l ==> costs[i, 0] == i * Unit && bestMove[i, 0] == Remove
    {
      costs[l, 0] := l * Unit;
      bestMove[l, 0] := Remove;
      l := l + 1;
    }
    var r := 1;
    while r < costs.Length1
      invariant 1 <= r <= costs.Length1
      invariant forall i :: 0 <= i < costs.Length0 ==> costs[i, 0] == i * Unit && bestMove[i, 0] == Remove
      invariant forall j :: 1 <= j < r ==> costs[0, j] == j * Unit && bestMove[0, j] == Add
    {
      costs[0, r] := r * Unit;
      bestMove[0, r] := Add;
      r := r + 1;
    }
  }

  method FillRow(left: seq<nat>, right: seq<nat>, costs: array2<nat>, bestMove: array2<EditType>, l: nat)
    requires l < |left|
    requires costs.Length0 == bestMove.Length0 == |left| + 1 && costs.Length1 == bestMove.Length1 == |right| + 1
    requires Filled(costs, CostOf(Matches(left, right)), l, 0) && Filled(bestMove, MoveOf(Matches(left, right)), l, 0)
    modifies costs, bestMove
    ensures Filled(costs, CostOf(Matches(left, right)), l + 1, 0) && Filled(bestMove, MoveOf(Matches(left, right)), l + 1, 0)
  {
    ghost var same := Matches(left, right);
    var r: nat := 0;
    while r < |right|
      invariant r <= |right|
      invariant Filled(costs, CostOf(same), l, r)
      invariant Filled(bestMove, MoveOf(same), l, r)
    {
      assert left[l] == right[r] <==> (l, r) in same;
      FillCell(same, left[l] == right[r], costs, bestMove, l, r);
      r := r + 1;
    }
  }

  method FillCell(ghost same: set<(nat, nat)>, equal: bool, costs: array2<nat>, bestMove: array2<EditType>, l: nat, r: nat)
    requires l + 1 < costs.Length0 == bestMove.Length0 && r + 1 < costs.Length1 == bestMove.Length1
    requires equal <==> (l, r) in same
    requires Filled(costs, CostOf(same), l, r) && Filled(bestMove, MoveOf(same), l, r)
    modifies costs, bestMove
    ensures Filled(costs, CostOf(same), l, r + 1) && Filled(bestMove, MoveOf(same), l, r + 1)
  {
    var cost, move := NextCell(equal, costs[l + 1, r], costs[l, r + 1], costs[l, r]);
    CellIsNext(same, l, r);
    Put(costs, cost, CostOf(same), l, r);
    Put(bestMove, move, MoveOf(same), l, r);
  }

  method Put<T>(table: array2<T>, value: T, ghost want: (nat, nat) -> T, l: nat, r: nat)
    requires l + 1 < table.Length0 && r + 1 < table.Length1
    requires Filled(table, want, l, r) && value == want(l + 1, r + 1)
    modifies table
    ensures Filled(table, want, l, r + 1)
  {
    table[l + 1, r + 1] := value;
  }

  /** The choice made for one cell; a tie below the replacement still takes the replacement. */
  method NextCell(same: bool, add: nat, remove: nat, replace: nat) returns (cost: nat, move: EditType)
    ensures move == Choice(same, add, remove, replace)
    ensures cost == ChoiceCost(same, add, remove, replace)
  {
    if same {
      return replace, Match;
    }
    if add < remove && add < replace {
      return add + Unit, Add;
    } else if remove < add && remove < replace {
      return remove + Unit, Remove;
    }
    return replace + Unit + 1, Replace;
  }

  lemma CellIsNext(same: set<(nat, nat)>, l: nat, r: nat)
    ensures Move(same, l + 1, r + 1)
         == Choice((l, r) in same, Cost(same, l + 1, r), Cost(same, l, r + 1), Cost(same, l, r))
    ensures Cost(same, l + 1, r + 1)
         == ChoiceCost((l, r) in same, Cost(same, l + 1, r), Cost(same, l, r + 1), Cost(same, l, r))
  {
  }

  function Reverse<T>(s: seq<T>): seq<T> {
    if s == [] then [] else [s[|s| - 1]] + Reverse(s[..|s| - 1])
  }

  lemma StepBack(same: set<(nat, nat)>, l: nat, r: nat, rest: seq<EditType>)
    requires l + r > 0
    ensures Script(same, l, r) + rest
         == Script(same, Back(same, l, r).0, Back(same, l, r).1) + ([Move(same, l, r)] + rest)
  {
  }

  /** From the last cell to the first. */
  method TraceBack(ghost same: set<(nat, nat)>, left: nat, right: nat, bestMove: array2<EditType>)
    returns (edits: seq<EditType>)
    requires bestMove.Length0 == left + 1 && bestMove.Length1 == right + 1
    requires Filled(bestMove, MoveOf(same), left, 0)
    ensures edits == Script(same, left, right)
  {
    var bestPath: seq<EditType> := [];
    var l: nat, r: nat := left, right;
    while l > 0 || r > 0
      invariant l <= left && r <= right
      invariant Script(same, l, r) + Reverse(bestPath) == Script(same, left, right)
      decreases l + r
    {
      var move := bestMove[l, r];
      assert move == Move(same, l, r);
      ghost var path := bestPath;
      bestPath := bestPath + [move];
      assert bestPath[..|bestPath| - 1] == path;
      assert Reverse(bestPath) == [move] + Reverse(path);
      StepBack(same, l, r, Reverse(path));
      l, r := if move.Add? then l else l - 1, if move.Remove? then r else r - 1;
    }
    edits := Reverse(bestPath);
    assert Script(same, 0, 0) + edits == edits;
  }

  // ----- how good the script is -----

  function Min(a: nat, b: nat): nat {
    if a < b then a else b
  }

  /** The least cost of turning the first `l` elements into the first `r`. */
  function Best(same: set<(nat, nat)>, l: nat, r: nat): nat
    decreases l + r
  {
    if l == 0 then r * Unit
    else if r == 0 then l * Unit
    else
      var sides := Min(Best(same, l - 1, r), Best(same, l, r - 1)) + Unit;
      Min(sides, Best(same, l - 1, r - 1) + if (l - 1, r - 1) in same then 0 else Unit + 1)
  }

  lemma BestStep(same: set<(nat, nat)>, l: nat, r: nat, m: EditType)
    requires m.Match? ==> (l, r) in same
    ensures Best(same, if m.Add? then l else l + 1, if m.Remove? then r else r + 1) <= Best(same, l, r) + MoveCost(m)
  {
    if !m.Add? && !m.Remove? {
      BestIsNext(same, l, r);
    }
  }

  /** `Best` is a lower bound: no valid script is cheaper. */
  lemma {:induction false} NoScriptIsCheaper(edits: seq<EditType>, same: set<(nat, nat)>)
    requires MatchesOnly(edits, same)
    ensures ScriptCost(edits) >= Best(same, LeftLen(edits), RightLen(edits))
    decreases |edits|
  {
    if edits != [] {
      var s, m := edits[..|edits| - 1], edits[|edits| - 1];
      assert edits == s + [m];
      AppendMove(s, m);
      AppendMatches(s, m, same);
      NoScriptIsCheaper(s, same);
      BestStep(same, LeftLen(s), RightLen(s), m);
    }
  }

  /** The last move of a cheapest script. */
  ghost function BestMove(same: set<(nat, nat)>, l: nat, r: nat): EditType {
    if r == 0 then Remove
    else if l == 0 then Add
    else if Best(same, l, r) == Best(same, l - 1, r) + Unit then Remove
    else if Best(same, l, r) == Best(same, l, r - 1) + Unit then Add
    else if (l - 1, r - 1) in same then Match
    else Replace
  }

  /** `Best` is attained, so it is the least cost of a valid script. */
  lemma {:induction false} BestIsAttained(same: set<(nat, nat)>, l: nat, r: nat) returns (edits: seq<EditType>)
    ensures ValidScript(edits, same, l, r) && ScriptCost(edits) == Best(same, l, r)
    decreases l + r
  {
    if l + r == 0 {
      return [];
    }
    var m := BestMove(same, l, r);
    var before := BestIsAttained(same, if m.Add? then l else l - 1, if m.Remove? then r else r - 1);
    AppendMove(before, m);
    AppendMatches(before, m, same);
    edits := before + [m];
  }

  /** Dropping the last element of one side saves at most its own removal or addition. */
  lemma {:induction false} BestIsSmooth(same: set<(nat, nat)>, l: nat, r: nat)
    ensures l > 0 ==> Best(same, l - 1, r) <= Best(same, l, r) + Unit
    ensures r > 0 ==> Best(same, l, r - 1) <= Best(same, l, r) + Unit
    decreases l + r
  {
    if l > 0 && r > 0 {
      BestIsNext(same, l - 1, r - 1);
      BestStep(same, l - 1, r - 1, Add);
      BestStep(same, l - 1, r - 1, Remove);
      hide Best;
      BestIsSmooth(same, l - 1, r);
      BestIsSmooth(same, l, r - 1);
    }
  }

  /** One of three neighbours is strictly the cheapest. */
  predicate StrictlyCheapest(add: nat, remove: nat, replace: nat) {
    || (add < remove && add < replace)
    || (remove < add && remove < replace)
    || (replace < add && replace < remove)
  }

  ghost predicate CellOptimal(same: set<(nat, nat)>, l: nat, r: nat) {
    Cost(same, l, r) == Best(same, l, r)
  }

  ghost predicate CellDecided(same: set<(nat, nat)>, l: nat, r: nat) {
    (l, r) in same || StrictlyCheapest(Cost(same, l + 1, r), Cost(same, l, r + 1), Cost(same, l, r))
  }

  lemma ChoiceIsBestIffDecided(same: bool, add: nat, remove: nat, replace: nat)
    requires same ==> replace <= add + Unit && replace <= remove + Unit
    ensures ChoiceCost(same, add, remove, replace)
         == Min(Min(remove, add) + Unit, replace + if same then 0 else Unit + 1)
       <==> same || StrictlyCheapest(add, remove, replace)
  {
  }

  lemma BestIsNext(same: set<(nat, nat)>, l: nat, r: nat)
    ensures Best(same, l + 1, r + 1)
         == Min(Min(Best(same, l, r + 1), Best(same, l + 1, r)) + Unit,
                Best(same, l, r) + if (l, r) in same then 0 else Unit + 1)
  {
  }

  /** A cell computed from optimal neighbours is optimal iff it is decided: where no neighbour is
      strictly the cheapest the code takes the replacement, which is then too dear. */
  lemma CellOptimalIffDecided(same: set<(nat, nat)>, l: nat, r: nat)
    requires CellOptimal(same, l, r) && CellOptimal(same, l + 1, r) && CellOptimal(same, l, r + 1)
    ensures CellOptimal(same, l + 1, r + 1) <==> CellDecided(same, l, r)
  {
    CellIsNext(same, l, r);
    BestIsNext(same, l, r);
    ghost var add: nat, remove: nat, replace: nat := Best(same, l + 1, r), Best(same, l, r + 1), Best(same, l, r);
    assert replace <= add + Unit && replace <= remove + Unit by {
      BestIsSmooth(same, l + 1, r);
      BestIsSmooth(same, l, r + 1);
    }
    ChoiceIsBestIffDecided((l, r) in same, add, remove, replace);
  }

  lemma BorderIsOptimal(same: set<(nat, nat)>, l: nat, r: nat)
    requires l == 0 || r == 0
    ensures CellOptimal(same, l, r)
  {
  }

  lemma {:induction false} DecidedIsOptimal(same: set<(nat, nat)>, l: nat, r: nat)
    requires forall i, j :: 0 <= i < l && 0 <= j < r ==> CellDecided(same, i, j)
    ensures CellOptimal(same, l, r)
    decreases l + r
  {
    hide Best, Cost, CellDecided;
    if l == 0 || r == 0 {
      BorderIsOptimal(same, l, r);
    } else {
      DecidedIsOptimal(same, l - 1, r - 1);
      DecidedIsOptimal(same, l - 1, r);
      DecidedIsOptimal(same, l, r - 1);
      CellOptimalIffDecided(same, l - 1, r - 1);
    }
  }

  /** The whole table is optimal iff every mismatched cell has a strictly cheapest neighbour. */
  lemma TableOptimalIffDecided(same: set<(nat, nat)>, left: nat, right: nat)
    ensures (forall l, r :: 0 <= l <= left && 0 <= r <= right ==> CellOptimal(same, l, r))
       <==> (forall l, r :: 0 <= l < left && 0 <= r < right ==> CellDecided(same, l, r))
  {
    if forall l, r :: 0 <= l <= left && 0 <= r <= right ==> CellOptimal(same, l, r) {
      forall l, r | 0 <= l < left && 0 <= r < right ensures CellDecided(same, l, r) {
        assert CellOptimal(same, l, r) && CellOptimal(same, l + 1, r) && CellOptimal(same, l, r + 1);
        assert CellOptimal(same, l + 1, r + 1);
        CellOptimalIffDecided(same, l, r);
      }
    }
    if forall l, r :: 0 <= l < left && 0 <= r < right ==> CellDecided(same, l, r) {
      forall l, r | 0 <= l <= left && 0 <= r <= right ensures CellOptimal(same, l, r) {
        DecidedIsOptimal(same, l, r);
      }
    }
  }

  /** Then no valid script is cheaper than the one returned. */
  lemma ScriptIsOptimalWhenDecided(same: set<(nat, nat)>, l: nat, r: nat, edits: seq<EditType>)
    requires forall i, j :: 0 <= i < l && 0 <= j < r ==> CellDecided(same, i, j)
    requires ValidScript(edits, same, l, r)
    ensures ScriptCost(Script(same, l, r)) <= ScriptCost(edits)
  {
    DecidedIsOptimal(same, l, r);
    ScriptIsValid(same, l, r);
    NoScriptIsCheaper(edits, same);
  }

  // ----- exactly when the returned script is a cheapest one -----

  /** A move is the last one of a cheapest script, judged by the least costs of the three neighbours:
      a replacement has to be strictly cheaper than both others, a match always is. */
  predicate StepIsBest(m: EditType, add: nat, remove: nat, replace: nat) {
    match m
    case Match => true
    case Add => add <= remove && add <= replace + 1
    case Remove => remove <= add && remove <= replace + 1
    case Replace => replace < add && replace < remove
  }

  /** The move recorded for a cell is; along a border there is no other. */
  ghost predicate MoveIsBest(same: set<(nat, nat)>, l: nat, r: nat)
    requires l + r > 0
  {
    l == 0 || r == 0
    || StepIsBest(Move(same, l, r), Best(same, l, r - 1), Best(same, l - 1, r), Best(same, l - 1, r - 1))
  }

  /** So is every move the traceback follows. */
  ghost predicate PathIsBest(same: set<(nat, nat)>, l: nat, r: nat)
    decreases l + r
  {
    l + r == 0 || (MoveIsBest(same, l, r) && PathIsBest(same, Back(same, l, r).0, Back(same, l, r).1))
  }

  lemma StepIsBestIffTight(m: EditType, add: nat, remove: nat, replace: nat, least: nat)
    requires least == Min(Min(remove, add) + Unit, replace + if m.Match? then 0 else Unit + 1)
    requires m.Match? ==> replace <= add + Unit && replace <= remove + Unit
    ensures var from := if m.Add? then add else if m.Remove? then remove else replace;
      least <= from + MoveCost(m) && (StepIsBest(m, add, remove, replace) <==> least == from + MoveCost(m))
  {
  }

  lemma BorderIsTight(same: set<(nat, nat)>, l: nat, r: nat)
    requires l + r > 0 && (l == 0 || r == 0)
    ensures var p := Back(same, l, r); Best(same, l, r) == Best(same, p.0, p.1) + MoveCost(Move(same, l, r))
  {
  }

  lemma MatchIsSame(same: set<(nat, nat)>, l: nat, r: nat)
    requires l > 0 && r > 0
    ensures Move(same, l, r).Match? <==> (l - 1, r - 1) in same
  {
    hide Cost;
  }

  lemma MoveIsBestIffTight(same: set<(nat, nat)>, l: nat, r: nat)
    requires l + r > 0
    ensures var p := Back(same, l, r);
      && Best(same, l, r) <= Best(same, p.0, p.1) + MoveCost(Move(same, l, r))
      && (MoveIsBest(same, l, r) <==> Best(same, l, r) == Best(same, p.0, p.1) + MoveCost(Move(same, l, r)))
  {
    hide Best, Cost, Move, MoveCost, StepIsBest;
    if l == 0 || r == 0 {
      BorderIsTight(same, l, r);
    } else {
      BestIsNext(same, l - 1, r - 1);
      BestIsSmooth(same, l, r - 1);
      BestIsSmooth(same, l - 1, r);
      MatchIsSame(same, l, r);
      StepIsBestIffTight(Move(same, l, r), Best(same, l, r - 1), Best(same, l - 1, r), Best(same, l - 1, r - 1),
                         Best(same, l, r));
    }
  }

  /** A cell holds the least cost iff its move is best and leads to a cell that does. */
  lemma {:induction false} CellOptimalIffPathIsBest(same: set<(nat, nat)>, l: nat, r: nat)
    ensures Best(same, l, r) <= Cost(same, l, r)
    ensures CellOptimal(same, l, r) <==> PathIsBest(same, l, r)
    decreases l + r
  {
    if l + r > 0 {
      hide Best, Cost, Move, MoveIsBest, Back;
      var p := Back(same, l, r);
      CellOptimalIffPathIsBest(same, p.0, p.1);
      CellCost(same, l, r);
      MoveIsBestIffTight(same, l, r);
    }
  }

  /** The returned script is a cheapest one iff every move on its path is best. */
  lemma ScriptIsOptimalIff(same: set<(nat, nat)>, l: nat, r: nat)
    ensures (forall edits :: ValidScript(edits, same, l, r) ==> ScriptCost(Script(same, l, r)) <= ScriptCost(edits))
       <==> PathIsBest(same, l, r)
  {
    ScriptIsValid(same, l, r);
    CellOptimalIffPathIsBest(same, l, r);
    var best := BestIsAttained(same, l, r);
    if PathIsBest(same, l, r) {
      forall edits | ValidScript(edits, same, l, r) ensures ScriptCost(Script(same, l, r)) <= ScriptCost(edits) {
        NoScriptIsCheaper(edits, same);
      }
    }
  }

  lemma BorderCost(same: set<(nat, nat)>, n: nat)
    ensures Cost(same, n, 0) == n * Unit == Cost(same, 0, n)
  {
  }

  lemma SwapCosts(same: set<(nat, nat)>)
    requires forall i: nat, j: nat :: i < 3 && j < 3 ==> ((i, j) in same <==> (i + j) % 2 == 1)
    ensures Cost(same, 3, 3) == 3 * (Unit + 1)
  {
    hide Cost;
    BorderCost(same, 0);
    BorderCost(same, 1);
    BorderCost(same, 2);
    CellIsNext(same, 0, 0);
    CellIsNext(same, 0, 1);
    CellIsNext(same, 1, 0);
    CellIsNext(same, 1, 1);
    CellIsNext(same, 1, 2);
    CellIsNext(same, 2, 1);
    CellIsNext(same, 2, 2);
  }

  /** Removing the first element, keeping two, adding one. */
  lemma ShiftScript(same: set<(nat, nat)>)
    requires (1, 0) in same && (2, 1) in same
    ensures ValidScript([Remove, Match, Match, Add], same, 3, 3)
    ensures ScriptCost([Remove, Match, Match, Add]) == 2 * Unit
  {
    hide LeftLen, RightLen, ScriptCost, MatchesOnly;
    var one := [] + [Remove];
    var two := one + [Match];
    var three := two + [Match];
    NoMoves(same);
    AppendMove([], Remove);
    AppendMatches([], Remove, same);
    AppendMove(one, Match);
    AppendMatches(one, Match, same);
    AppendMove(two, Match);
    AppendMatches(two, Match, same);
    AppendMove(three, Add);
    AppendMatches(three, Add, same);
    assert three + [Add] == [Remove, Match, Match, Add];
  }

  lemma NoMoves(same: set<(nat, nat)>)
    ensures LeftLen([]) == 0 && RightLen([]) == 0 && ScriptCost([]) == 0 && MatchesOnly([], same)
  {
  }

  lemma SwapMatches()
    ensures var same := Matches([0, 1, 0], [1, 0, 1]);
      forall i: nat, j: nat :: i < 3 && j < 3 ==> ((i, j) in same <==> (i + j) % 2 == 1)
  {
    var left, right := [0, 1, 0], [1, 0, 1];
    assert left[0] == 0 && left[1] == 1 && left[2] == 0 && right[0] == 1 && right[1] == 0 && right[2] == 1;
  }

  /** Despite its name the function can return a dearer script than necessary: from 0 1 0 to 1 0 1
      it replaces all three elements, where removing the first and adding one at the end would do. */
  lemma EditsNeedNotBeOptimal()
    ensures var same := Matches([0, 1, 0], [1, 0, 1]);
      && ScriptCost(Script(same, 3, 3)) == 3 * (Unit + 1)
      && ValidScript([Remove, Match, Match, Add], same, 3, 3)
      && ScriptCost([Remove, Match, Match, Add]) == 2 * Unit
  {
    hide Matches, Script, ScriptCost, Cost, ValidScript;
    var same := Matches([0, 1, 0], [1, 0, 1]);
    SwapMatches();
    ScriptIsValid(same, 3, 3);
    SwapCosts(same);
    ShiftScript(same);
  }

  // ----- interning -----

  /** Strings to ids, equal strings to equal ids. */
  class InternalStrings {
    var ids: map<string, nat>

    ghost predicate Valid()
      reads this
    {
      && (forall s :: s in ids ==> ids[s] < |ids|)
      && forall s, t :: s in ids && t in ids && ids[s] == ids[t] ==> s == t
    }

    constructor ()
      ensures Valid() && ids == map[]
    {
      ids := map[];
    }

    method GetId(str: string) returns (id: nat)
      requires Valid()
      modifies this
      ensures Valid() && str in ids && ids[str] == id
      ensures forall s :: s in old(ids) ==> s in ids && ids[s] == old(ids)[s]
    {
      if str in ids {
        return ids[str];
      }
      id := |ids|;
      ids := ids[str := id];
    }

    method GetIds(strs: seq<string>) returns (r: seq<nat>)
      requires Valid()
      modifies this
      ensures Valid() && |r| == |strs|
      ensures forall i :: 0 <= i < |strs| ==> strs[i] in ids && ids[strs[i]] == r[i]
      ensures forall s :: s in old(ids) ==> s in ids && ids[s] == old(ids)[s]
    {
      r := [];
      while |r| < |strs|
        invariant Valid() && |r| <= |strs|
        invariant forall i :: 0 <= i < |r| ==> strs[i] in ids && ids[strs[i]] == r[i]
        invariant forall s :: s in old(ids) ==> s in ids && ids[s] == old(ids)[s]
      {
        var id := GetId(strs[|r|]);
        r := r + [id];
      }
    }
  }

  /** The entry point for strings: comparing lines by their ids is comparing the lines. */
  method CalculateOptimalEditsOfLines(left: seq<string>, right: seq<string>) returns (edits: seq<EditType>)
    ensures edits == Script(Matches(left, right), |left|, |right|)
    ensures ValidScript(edits, Matches(left, right), |left|, |right|)
  {
    var internTable := new InternalStrings();
    var leftIds := internTable.GetIds(left);
    var rightIds := internTable.GetIds(right);
    edits := CalculateOptimalEdits(leftIds, rightIds);
    assert Matches(left, right) == Matches(leftIds, rightIds);
  }
}
