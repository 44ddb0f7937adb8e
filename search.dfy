/** The computer opponent's search: plain minimax as a specification,
    minimax with alpha-beta pruning as an in-place method on the shared
    board array, and the root choice of aiMove. O is always the maximizing
    mark and X the minimizing one. */
module Search {
  import opened Board

  datatype Option<T> = None | Some(value: T)

  /** Integer stand-ins for -Infinity and +Infinity; every score is in
      [-10, 10] (ValueBounds), so neither is ever reached by a real score. */
  const NegInf: int := -1000
  const PosInf: int := 1000

  function Max(x: int, y: int): int { if x >= y then x else y }
  function Min(x: int, y: int): int { if x <= y then x else y }

  /** The unpruned minimax value of `b`, `depth` moves below the root, with
      the maximizer (O) to move when `isMaximizing`. The terminal tests come
      in the source's order: an O win, then an X win, then a full board. */
  ghost function MinimaxValue(b: seq<Cell>, depth: int, isMaximizing: bool): int
    requires |b| == 9
    decreases Count(b, Empty), 10
  {
    if Wins(b, O) then 10 - depth
    else if Wins(b, X) then depth - 10
    else if Empty !in b then 0
    else if isMaximizing then MaxPrefix(b, depth, |b|)
    else MinPrefix(b, depth, |b|)
  }

  /** The best value for O over the empty cells among the first `n`, each
      filled with O and valued with X to move; NegInf when there are none. */
  ghost function MaxPrefix(b: seq<Cell>, depth: int, n: nat): int
    requires |b| == 9 && n <= 9
    decreases Count(b, Empty), n
  {
    if n == 0 then NegInf
    else if b[n - 1] == Empty then
      PlacingUsesEmptyCell(b, n - 1, O);
      Max(MaxPrefix(b, depth, n - 1), MinimaxValue(b[n - 1 := O], depth + 1, false))
    else MaxPrefix(b, depth, n - 1)
  }

  /** The best value for X over the empty cells among the first `n`, each
      filled with X and valued with O to move; PosInf when there are none. */
  ghost function MinPrefix(b: seq<Cell>, depth: int, n: nat): int
    requires |b| == 9 && n <= 9
    decreases Count(b, Empty), n
  {
    if n == 0 then PosInf
    else if b[n - 1] == Empty then
      PlacingUsesEmptyCell(b, n - 1, X);
      Min(MinPrefix(b, depth, n - 1), MinimaxValue(b[n - 1 := X], depth + 1, true))
    else MinPrefix(b, depth, n - 1)
  }

  // Facts about the specification.

  /** Scores are bounded: on a board with at most 10 - depth empty cells the
      value lies in [depth - 10, 10 - depth], so in [-10, 10] at the root. */
  lemma {:induction false} ValueBounds(b: seq<Cell>, depth: int, isMaximizing: bool)
    requires |b| == 9 && 0 <= depth && depth + Count(b, Empty) <= 10
    ensures depth - 10 <= MinimaxValue(b, depth, isMaximizing) <= 10 - depth
    decreases Count(b, Empty), 10
  {
    if !Wins(b, O) && !Wins(b, X) && Empty in b {
      CountZeroIff(b, Empty);
      var j :| 0 <= j < 9 && b[j] == Empty;
      if isMaximizing {
        MaxPrefixIsAttained(b, depth, 9);
      } else {
        MinPrefixIsAttained(b, depth, 9);
      }
    }
  }

  /** MaxPrefix bounds from above every child it covers. */
  lemma {:induction false} MaxPrefixIsUpperBound(b: seq<Cell>, depth: int, n: nat, j: int)
    requires |b| == 9 && n <= 9 && 0 <= j < n && b[j] == Empty
    ensures MinimaxValue(b[j := O], depth + 1, false) <= MaxPrefix(b, depth, n)
    decreases n
  {
    if b[n - 1] == Empty {
      assert MaxPrefix(b, depth, n) ==
             Max(MaxPrefix(b, depth, n - 1), MinimaxValue(b[n - 1 := O], depth + 1, false));
    } else {
      assert MaxPrefix(b, depth, n) == MaxPrefix(b, depth, n - 1);
    }
    if j < n - 1 {
      MaxPrefixIsUpperBound(b, depth, n - 1, j);
    }
  }

  /** MinPrefix bounds from below every child it covers. */
  lemma {:induction false} MinPrefixIsLowerBound(b: seq<Cell>, depth: int, n: nat, j: int)
    requires |b| == 9 && n <= 9 && 0 <= j < n && b[j] == Empty
    ensures MinPrefix(b, depth, n) <= MinimaxValue(b[j := X], depth + 1, true)
    decreases n
  {
    if b[n - 1] == Empty {
      assert MinPrefix(b, depth, n) ==
             Min(MinPrefix(b, depth, n - 1), MinimaxValue(b[n - 1 := X], depth + 1, true));
    } else {
      assert MinPrefix(b, depth, n) == MinPrefix(b, depth, n - 1);
    }
    if j < n - 1 {
      MinPrefixIsLowerBound(b, depth, n - 1, j);
    }
  }

  /** MaxPrefix is NegInf when it covers no empty cell, and otherwise the
      value of one of the children it covers, inside the score range. */
  lemma {:induction false} MaxPrefixIsAttained(b: seq<Cell>, depth: int, n: nat)
    requires |b| == 9 && n <= 9 && 0 <= depth && depth + Count(b, Empty) <= 10
    ensures (forall j :: 0 <= j < n ==> b[j] != Empty) ==> MaxPrefix(b, depth, n) == NegInf
    ensures (exists j :: 0 <= j < n && b[j] == Empty) ==>
              (exists j :: 0 <= j < n && b[j] == Empty &&
                 MinimaxValue(b[j := O], depth + 1, false) == MaxPrefix(b, depth, n)) &&
              depth - 9 <= MaxPrefix(b, depth, n) <= 9 - depth
    decreases Count(b, Empty), n
  {
    if n > 0 {
      MaxPrefixIsAttained(b, depth, n - 1);
      var m := MaxPrefix(b, depth, n - 1);
      if b[n - 1] == Empty {
        PlacingUsesEmptyCell(b, n - 1, O);
        var c := MinimaxValue(b[n - 1 := O], depth + 1, false);
        ValueBounds(b[n - 1 := O], depth + 1, false);
        assert MaxPrefix(b, depth, n) == Max(m, c);
        if m <= c {
          assert MinimaxValue(b[n - 1 := O], depth + 1, false) == MaxPrefix(b, depth, n);
        } else {
          var j :| 0 <= j < n - 1 && b[j] == Empty &&
                   MinimaxValue(b[j := O], depth + 1, false) == m;
          assert MinimaxValue(b[j := O], depth + 1, false) == MaxPrefix(b, depth, n);
        }
      } else {
        assert MaxPrefix(b, depth, n) == m;
        if exists j :: 0 <= j < n && b[j] == Empty {
          var j :| 0 <= j < n && b[j] == Empty;
          assert j < n - 1;
        }
      }
    }
  }

  /** MinPrefix is PosInf when it covers no empty cell, and otherwise the
      value of one of the children it covers, inside the score range. */
  lemma {:induction false} MinPrefixIsAttained(b: seq<Cell>, depth: int, n: nat)
    requires |b| == 9 && n <= 9 && 0 <= depth && depth + Count(b, Empty) <= 10
    ensures (forall j :: 0 <= j < n ==> b[j] != Empty) ==> MinPrefix(b, depth, n) == PosInf
    ensures (exists j :: 0 <= j < n && b[j] == Empty) ==>
              (exists j :: 0 <= j < n && b[j] == Empty &&
                 MinimaxValue(b[j := X], depth + 1, true) == MinPrefix(b, depth, n)) &&
              depth - 9 <= MinPrefix(b, depth, n) <= 9 - depth
    decreases Count(b, Empty), n
  {
    if n > 0 {
      MinPrefixIsAttained(b, depth, n - 1);
      var m := MinPrefix(b, depth, n - 1);
      if b[n - 1] == Empty {
        PlacingUsesEmptyCell(b, n - 1, X);
        var c := MinimaxValue(b[n - 1 := X], depth + 1, true);
        ValueBounds(b[n - 1 := X], depth + 1, true);
        assert MinPrefix(b, depth, n) == Min(m, c);
        if c <= m {
          assert MinimaxValue(b[n - 1 := X], depth + 1, true) == MinPrefix(b, depth, n);
        } else {
          var j :| 0 <= j < n - 1 && b[j] == Empty &&
                   MinimaxValue(b[j := X], depth + 1, true) == m;
          assert MinimaxValue(b[j := X], depth + 1, true) == MinPrefix(b, depth, n);
        }
      } else {
        assert MinPrefix(b, depth, n) == m;
        if exists j :: 0 <= j < n && b[j] == Empty {
          var j :| 0 <= j < n && b[j] == Empty;
          assert j < n - 1;
        }
      }
    }
  }

  /** On a board that is not over, the maximizer's value is the value of
      its best move and the minimizer's the value of its best reply. */
  lemma MinimaxIsBestMove(b: seq<Cell>, depth: int)
    requires |b| == 9 && 0 <= depth && depth + Count(b, Empty) <= 10
    requires !Wins(b, O) && !Wins(b, X) && Empty in b
    ensures exists j :: 0 <= j < 9 && b[j] == Empty &&
              MinimaxValue(b[j := O], depth + 1, false) == MinimaxValue(b, depth, true)
    ensures forall j :: 0 <= j < 9 && b[j] == Empty ==>
              MinimaxValue(b[j := O], depth + 1, false) <= MinimaxValue(b, depth, true)
    ensures exists j :: 0 <= j < 9 && b[j] == Empty &&
              MinimaxValue(b[j := X], depth + 1, true) == MinimaxValue(b, depth, false)
    ensures forall j :: 0 <= j < 9 && b[j] == Empty ==>
              MinimaxValue(b, depth, false) <= MinimaxValue(b[j := X], depth + 1, true)
  {
    var j :| 0 <= j < 9 && b[j] == Empty;
    MaxPrefixIsAttained(b, depth, 9);
    MinPrefixIsAttained(b, depth, 9);
    forall j | 0 <= j < 9 && b[j] == Empty
      ensures MinimaxValue(b[j := O], depth + 1, false) <= MinimaxValue(b, depth, true)
      ensures MinimaxValue(b, depth, false) <= MinimaxValue(b[j := X], depth + 1, true)
    {
      MaxPrefixIsUpperBound(b, depth, 9, j);
      MinPrefixIsLowerBound(b, depth, 9, j);
    }
  }

  lemma {:induction false} MaxPrefixGrows(b: seq<Cell>, depth: int, m: nat, n: nat)
    requires |b| == 9 && m <= n <= 9
    ensures MaxPrefix(b, depth, m) <= MaxPrefix(b, depth, n)
    decreases n
  {
    if m < n {
      MaxPrefixGrows(b, depth, m, n - 1);
    }
  }

  lemma {:induction false} MinPrefixShrinks(b: seq<Cell>, depth: int, m: nat, n: nat)
    requires |b| == 9 && m <= n <= 9
    ensures MinPrefix(b, depth, n) <= MinPrefix(b, depth, m)
    decreases n
  {
    if m < n {
      MinPrefixShrinks(b, depth, m, n - 1);
    }
  }

  /** What alpha-beta returns for the window (alpha, beta) when the exact
      value is v: an upper bound of v when it fails low, a lower bound when
      it fails high, and v itself inside the window. */
  ghost predicate FailSoft(r: int, v: int, alpha: int, beta: int)
  {
    (r <= alpha ==> v <= r) &&
    (r >= beta ==> v >= r) &&
    (alpha < r < beta ==> r == v)
  }

  /** With the full window used at the root, alpha-beta's answer is the
      exact minimax value, which lies in [-10, 10] at depth 0. */
  lemma FullWindowExact(b: seq<Cell>, depth: int, isMaximizing: bool, r: int)
    requires |b| == 9 && 0 <= depth && depth + Count(b, Empty) <= 10
    requires FailSoft(r, MinimaxValue(b, depth, isMaximizing), NegInf, PosInf)
    ensures r == MinimaxValue(b, depth, isMaximizing)
    ensures depth - 10 <= r <= 10 - depth
  {
    ValueBounds(b, depth, isMaximizing);
  }

  /** What the maximizer's loop knows after the cells below `i`: `a` is
      the raised alpha, no cutoff has happened, and `bestScore` relates to
      the exact best value of those cells as FailSoft requires. */
  ghost predicate MaxLoopInv(s: seq<Cell>, depth: int, i: int, alpha: int, beta: int, bestScore: int, a: int)
  {
    |s| == 9 && 0 <= i <= 9 &&
    a == Max(alpha, bestScore) && bestScore < beta &&
    MaxPrefix(s, depth, i) <= bestScore &&
    (alpha < bestScore ==> MaxPrefix(s, depth, i) == bestScore)
  }

  /** The minimizer's counterpart of MaxLoopInv, with `bt` the lowered beta. */
  ghost predicate MinLoopInv(s: seq<Cell>, depth: int, i: int, alpha: int, beta: int, bestScore: int, bt: int)
  {
    |s| == 9 && 0 <= i <= 9 &&
    bt == Min(beta, bestScore) && alpha < bestScore &&
    bestScore <= MinPrefix(s, depth, i) &&
    (bestScore < beta ==> MinPrefix(s, depth, i) == bestScore)
  }

  /** The loops' score range: on a board within the depth budget the running
      best is still `start` only while no empty cell has been probed, and is
      otherwise a score in the range of the children. */
  ghost predicate Scored(s: seq<Cell>, depth: int, i: int, bestScore: int, start: int)
    requires |s| == 9 && 0 <= i <= 9
  {
    0 <= depth && depth + Count(s, Empty) <= 10 ==>
      (bestScore == start ==> forall j :: 0 <= j < i ==> s[j] != Empty) &&
      (bestScore != start ==> depth - 9 <= bestScore <= 9 - depth)
  }

  /** One probe of the maximizer's loop: either the cutoff fires and the
      answer is already FailSoft for the whole node, or the loop's knowledge
      extends to one more cell. This is why pruning loses nothing. */
  lemma MaxStep(s: seq<Cell>, depth: int, i: int, alpha: int, beta: int, bestScore: int, a: int, score: int)
    requires alpha < beta && i < 9 && MaxLoopInv(s, depth, i, alpha, beta, bestScore, a) && s[i] == Empty
    requires FailSoft(score, MinimaxValue(s[i := O], depth + 1, false), a, beta)
    ensures beta <= Max(a, score) ==> FailSoft(Max(score, bestScore), MaxPrefix(s, depth, 9), alpha, beta)
    ensures Max(a, score) < beta ==> MaxLoopInv(s, depth, i + 1, alpha, beta, Max(score, bestScore), Max(a, score))
  {
    assert MaxPrefix(s, depth, i + 1) == Max(MaxPrefix(s, depth, i), MinimaxValue(s[i := O], depth + 1, false));
    MaxPrefixGrows(s, depth, i + 1, 9);
  }

  /** One probe of the minimizer's loop; see MaxStep. */
  lemma MinStep(s: seq<Cell>, depth: int, i: int, alpha: int, beta: int, bestScore: int, bt: int, score: int)
    requires alpha < beta && i < 9 && MinLoopInv(s, depth, i, alpha, beta, bestScore, bt) && s[i] == Empty
    requires FailSoft(score, MinimaxValue(s[i := X], depth + 1, true), alpha, bt)
    ensures Min(bt, score) <= alpha ==> FailSoft(Min(score, bestScore), MinPrefix(s, depth, 9), alpha, beta)
    ensures alpha < Min(bt, score) ==> MinLoopInv(s, depth, i + 1, alpha, beta, Min(score, bestScore), Min(bt, score))
  {
    assert MinPrefix(s, depth, i + 1) == Min(MinPrefix(s, depth, i), MinimaxValue(s[i := X], depth + 1, true));
    MinPrefixShrinks(s, depth, i + 1, 9);
  }

  /** minimax(boardState, depth, isMaximizing, alpha, beta): every trial
      mark is undone, so `b` ends as it began, and the answer relates to the
      unpruned value as FailSoft says. The win tests read `b`, the array
      being searched. The two branches of the source's body are Maximize
      and Minimize. */
  method Minimax(b: array<Cell>, depth: int, isMaximizing: bool, alpha: int, beta: int)
    returns (r: int)
    requires b.Length == 9 && NegInf <= alpha < beta <= PosInf
    modifies b
    ensures b[..] == old(b[..])
    ensures Wins(old(b[..]), O) ==> r == 10 - depth
    ensures !Wins(old(b[..]), O) && Wins(old(b[..]), X) ==> r == depth - 10
    ensures !Wins(old(b[..]), O) && !Wins(old(b[..]), X) && Empty !in old(b[..]) ==> r == 0
    ensures 0 <= depth && depth + Count(old(b[..]), Empty) <= 10 ==> depth - 10 <= r <= 10 - depth
    ensures FailSoft(r, MinimaxValue(old(b[..]), depth, isMaximizing), alpha, beta)
    decreases Count(b[..], Empty), 2
  {
    var s := b[..];
    if Wins(s, O) {
      return 10 - depth;
    }
    if Wins(s, X) {
      return depth - 10;
    }
    if Empty !in s {
      return 0;
    }
    if isMaximizing {
      assert MinimaxValue(s, depth, true) == MaxPrefix(s, depth, 9);
      r := Maximize(b, depth, alpha, beta);
    } else {
      assert MinimaxValue(s, depth, false) == MinPrefix(s, depth, 9);
      r := Minimize(b, depth, alpha, beta);
    }
  }

  /** One probe of either loop: `mark` placed in the empty cell i, the
      position searched one level deeper with the other side to move, and the
      cell emptied again. */
  method Probe(b: array<Cell>, i: int, mark: Cell, depth: int, alpha: int, beta: int) returns (score: int)
    requires b.Length == 9 && 0 <= i < 9 && b[i] == Empty && mark != Empty
    requires NegInf <= alpha < beta <= PosInf
    modifies b
    ensures b[..] == old(b[..])
    ensures FailSoft(score, MinimaxValue(old(b[..])[i := mark], depth + 1, mark == X), alpha, beta)
    ensures 0 <= depth && depth + Count(old(b[..]), Empty) <= 10 ==> depth - 9 <= score <= 9 - depth
    decreases Count(b[..], Empty), 0
  {
    ghost var s := b[..];
    b[i] := mark;
    PlacingUsesEmptyCell(s, i, mark);
    score := Minimax(b, depth + 1, mark == X, alpha, beta);
    b[i] := Empty;
    assert b[..] == s;
  }

  /** The maximizer's loop: O tried in each empty cell in index order, the
      mark undone after each probe, alpha raised, and the loop left once
      beta <= alpha. */
  method Maximize(b: array<Cell>, depth: int, alpha: int, beta: int) returns (bestScore: int)
    requires b.Length == 9 && NegInf <= alpha < beta <= PosInf
    modifies b
    ensures b[..] == old(b[..])
    ensures FailSoft(bestScore, MaxPrefix(old(b[..]), depth, 9), alpha, beta)
    ensures 0 <= depth && depth + Count(old(b[..]), Empty) <= 10 && Empty in old(b[..]) ==>
              depth - 9 <= bestScore <= 9 - depth
    decreases Count(b[..], Empty), 1
  {
    ghost var s := b[..];
    bestScore := NegInf;
    var a := alpha;
    var i := 0;
    while i < 9
      invariant b[..] == s
      invariant MaxLoopInv(s, depth, i, alpha, beta, bestScore, a)
      invariant Scored(s, depth, i, bestScore, NegInf)
    {
      if b[i] == Empty {
        var score := Probe(b, i, O, depth, a, beta);
        MaxStep(s, depth, i, alpha, beta, bestScore, a, score);
        bestScore := Max(score, bestScore);
        a := Max(a, score);
        if beta <= a {
          break;
        }
      }
      i := i + 1;
    }
  }

  /** The minimizer's loop: X tried in each empty cell in index order, the
      mark undone after each probe, beta lowered, and the loop left once
      beta <= alpha. */
  method Minimize(b: array<Cell>, depth: int, alpha: int, beta: int) returns (bestScore: int)
    requires b.Length == 9 && NegInf <= alpha < beta <= PosInf
    modifies b
    ensures b[..] == old(b[..])
    ensures FailSoft(bestScore, MinPrefix(old(b[..]), depth, 9), alpha, beta)
    ensures 0 <= depth && depth + Count(old(b[..]), Empty) <= 10 && Empty in old(b[..]) ==>
              depth - 9 <= bestScore <= 9 - depth
    decreases Count(b[..], Empty), 1
  {
    ghost var s := b[..];
    bestScore := PosInf;
    var bt := beta;
    var i := 0;
    while i < 9
      invariant b[..] == s
      invariant MinLoopInv(s, depth, i, alpha, beta, bestScore, bt)
      invariant Scored(s, depth, i, bestScore, PosInf)
    {
      if b[i] == Empty {
        var score := Probe(b, i, X, depth, alpha, bt);
        MinStep(s, depth, i, alpha, beta, bestScore, bt, score);
        bestScore := Min(score, bestScore);
        bt := Min(bt, score);
        if bt <= alpha {
          break;
        }
      }
      i := i + 1;
    }
  }

  // The root choice of aiMove.

  /** The score aiMove's probe of cell i yields: O placed at i, X to move,
      depth 0. */
  ghost function ProbeScore(b: seq<Cell>, i: int): int
    requires |b| == 9 && 0 <= i < 9
  {
    MinimaxValue(b[i := O], 0, false)
  }

  /** aiMove's probe scores, cell by cell (occupied cells are never probed,
      so their entries are not used). */
  ghost function Probes(b: seq<Cell>): seq<int>
    requires |b| == 9
  {
    seq(9, i requires 0 <= i < 9 => ProbeScore(b, i))
  }

  /** The (bestScore, move) pair aiMove's loop holds after the cells below
      `n`, given the probe scores: a probe replaces the pair only when it is
      strictly better. */
  function BestPrefix(b: seq<Cell>, scores: seq<int>, n: nat): (r: (int, Option<nat>))
    requires |b| == 9 && |scores| == 9 && n <= 9
    ensures r.1.Some? ==> r.1.value < n && b[r.1.value] == Empty && r.0 == scores[r.1.value]
    ensures r.1.None? ==> r.0 == NegInf
  {
    if n == 0 then (NegInf, None)
    else
      var prev := BestPrefix(b, scores, n - 1);
      if b[n - 1] == Empty && scores[n - 1] > prev.0 then (scores[n - 1], Some(n - 1))
      else prev
  }

  /** The cell aiMove picks; None when no cell is empty. */
  ghost function BestMove(b: seq<Cell>): (r: Option<nat>)
    requires |b| == 9
    ensures r.Some? ==> r.value < 9 && b[r.value] == Empty
  {
    BestPrefix(b, Probes(b), 9).1
  }

  /** The loop of aiMove: every empty cell probed with O and a full window,
      the mark undone after each probe, the first strictly best cell kept.
      Pruning inside the probes does not change the choice. */
  method ChooseMove(b: array<Cell>) returns (move: Option<nat>)
    requires b.Length == 9
    modifies b
    ensures b[..] == old(b[..])
    ensures move == BestMove(old(b[..]))
  {
    ghost var s := b[..];
    var bestScore := NegInf;
    move := None;
    for i := 0 to 9
      invariant b[..] == s
      invariant (bestScore, move) == BestPrefix(s, Probes(s), i)
    {
      if b[i] == Empty {
        b[i] := O;
        var score := Minimax(b, 0, false, NegInf, PosInf);
        b[i] := Empty;
        assert b[..] == s;
        CountBound(s, Empty);
        PlacingUsesEmptyCell(s, i, O);
        FullWindowExact(s[i := O], 0, false, score);
        if score > bestScore {
          bestScore := score;
          move := Some(i);
        }
      }
    }
  }

  lemma ProbeScoreBounds(b: seq<Cell>, i: int)
    requires |b| == 9 && 0 <= i < 9 && b[i] == Empty
    ensures -10 <= ProbeScore(b, i) <= 10
  {
    CountBound(b, Empty);
    PlacingUsesEmptyCell(b, i, O);
    ValueBounds(b[i := O], 0, false);
  }

  /** With every score of an empty cell above NegInf, the pair holds the
      first cell of maximal score below `n`, and None only if there is no
      empty cell there. */
  lemma {:induction false} BestPrefixIsFirstMaximum(b: seq<Cell>, scores: seq<int>, n: nat)
    requires |b| == 9 && |scores| == 9 && n <= 9
    requires forall j :: 0 <= j < 9 && b[j] == Empty ==> NegInf < scores[j]
    ensures BestPrefix(b, scores, n).1.None? <==> forall j :: 0 <= j < n ==> b[j] != Empty
    ensures BestPrefix(b, scores, n).1.Some? ==>
              var m := BestPrefix(b, scores, n).1.value;
              (forall j :: 0 <= j < n && b[j] == Empty ==> scores[j] <= scores[m]) &&
              (forall j :: 0 <= j < m && b[j] == Empty ==> scores[j] < scores[m])
    decreases n
  {
    if n > 0 {
      BestPrefixIsFirstMaximum(b, scores, n - 1);
    }
  }

  /** aiMove's choice: on a board with an empty cell it is an empty cell
      whose probe score is maximal, and the lowest such index, because a
      later probe replaces the choice only when strictly better. */
  lemma BestMoveIsFirstMaximum(b: seq<Cell>)
    requires |b| == 9
    ensures BestMove(b).None? <==> Empty !in b
    ensures BestMove(b).Some? ==>
              var m := BestMove(b).value;
              m < 9 && b[m] == Empty &&
              (forall j :: 0 <= j < 9 && b[j] == Empty ==> ProbeScore(b, j) <= ProbeScore(b, m)) &&
              (forall j :: 0 <= j < m && b[j] == Empty ==> ProbeScore(b, j) < ProbeScore(b, m))
  {
    forall j | 0 <= j < 9 && b[j] == Empty
      ensures NegInf < Probes(b)[j]
    {
      ProbeScoreBounds(b, j);
    }
    BestPrefixIsFirstMaximum(b, Probes(b), 9);
  }
}
