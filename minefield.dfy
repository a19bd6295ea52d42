/**
 * The rules inside src/components/Minefield/Minefield.tsx: the schema of bomb
 * counts, which cells take clicks and marks, how a mark cycles, and how a
 * click ends.
 */
module Minefield {
  import opened Utils
  import opened Geometry
  import opened Types
  import opened MinesweeperUtils

  /** `indexes.filter(index => bombs.has(index)).length` */
  function CountIn(s: seq<int>, bombs: set<int>): (n: nat)
    ensures n <= |s|
  {
    if s == [] then 0 else (if s[0] in bombs then 1 else 0) + CountIn(s[1..], bombs)
  }

  /** Counting a list without repeats counts the bombs of its set. */
  lemma {:induction false} CountInDistinct(s: seq<int>, bombs: set<int>)
    requires Distinct(s)
    ensures CountIn(s, bombs) == |Elements(s) * bombs|
  {
    if s != [] {
      var t := s[1..];
      assert Distinct(t);
      CountInDistinct(t, bombs);
      var st := Elements(t);
      ElementsCons(s);
      assert s[0] !in st;
      if s[0] in bombs {
        assert Elements(s) * bombs == {s[0]} + st * bombs;
        assert |{s[0]} + st * bombs| == 1 + |st * bombs|;
      } else {
        assert Elements(s) * bombs == st * bombs;
      }
    }
  }

  lemma ElementsCons(s: seq<int>)
    requires s != []
    ensures Elements(s) == {s[0]} + Elements(s[1..])
  {
    assert s == [s[0]] + s[1..];
  }

  /** `bombsAroundCount`: how many in-grid neighbours of a point hold a bomb, from 0 to 8. */
  function BombsAroundCount(p: Point, bombs: set<int>, m: Matrix): (n: nat)
    ensures n <= 8
  {
    CountIn(IndexesOf(PointsAroundInMatrix(p, m), m), bombs)
  }

  /** One entry of the schema: "bomb" on a bomb, otherwise the count of bombs around the cell. */
  function SchemaEntryOf(index: int, bombs: set<int>, m: Matrix): SchemaEntry
    requires m.width > 0
  {
    if index in bombs then Bomb else Count(BombsAroundCount(IndexToPoint(index, m), bombs, m))
  }

  /** `indexes.map(...)` with the entry above. */
  function SchemaOf(indexes: seq<nat>, bombs: set<int>, m: Matrix): (schema: seq<SchemaEntry>)
    requires m.width > 0
    ensures |schema| == |indexes|
    ensures forall k {:trigger schema[k]} :: 0 <= k < |indexes| ==> (schema[k] == Bomb <==> indexes[k] in bombs)
  {
    if indexes == [] then [] else [SchemaEntryOf(indexes[0], bombs, m)] + SchemaOf(indexes[1..], bombs, m)
  }

  lemma {:induction false} SchemaOfAt(indexes: seq<nat>, bombs: set<int>, m: Matrix, k: int)
    requires m.width > 0 && 0 <= k < |indexes|
    ensures SchemaOf(indexes, bombs, m)[k] == SchemaEntryOf(indexes[k], bombs, m)
  {
    if k > 0 {
      SchemaOfAt(indexes[1..], bombs, m, k - 1);
    }
  }

  /** The schema memo: `range(width * height)` mapped to one entry per cell. */
  function Schema(bombs: set<int>, m: Matrix): (schema: seq<SchemaEntry>)
    requires ValidMatrix(m)
    ensures |schema| == CellCount(m)
    ensures forall i {:trigger schema[i]} :: 0 <= i < |schema| ==> (schema[i] == Bomb <==> i in bombs)
  {
    assert CellCount(m) > 0 by {
      MulAtLeast(m.height, m.width);
    }
    SchemaOf(Range(CellCount(m)), bombs, m)
  }

  /** Each entry of the schema is the entry of its own cell. */
  lemma SchemaAt(bombs: set<int>, m: Matrix, i: int)
    requires ValidMatrix(m) && 0 <= i < CellCount(m)
    ensures Schema(bombs, m)[i] == SchemaEntryOf(i, bombs, m)
  {
    assert CellCount(m) > 0 by {
      MulAtLeast(m.height, m.width);
    }
    SchemaOfAt(Range(CellCount(m)), bombs, m, i);
  }

  /** A safe cell's count is the number of its neighbours that hold bombs, at most eight. */
  lemma SchemaCount(bombs: set<int>, m: Matrix, i: int)
    requires ValidMatrix(m) && 0 <= i < CellCount(m) && i !in bombs
    ensures Schema(bombs, m)[i] == Count(|IndexesAroundInMatrix(i, m) * bombs|)
    ensures |IndexesAroundInMatrix(i, m) * bombs| <= 8
  {
    var ix := IndexesOf(PointsAroundInMatrix(IndexToPoint(i, m), m), m);
    SchemaAt(bombs, m, i);
    IndexesAroundDistinct(i, m);
    CountInDistinct(ix, bombs);
    assert IndexesAroundInMatrix(i, m) == Elements(ix);
    DistinctCardinality(ix);
    SubsetCardinality(IndexesAroundInMatrix(i, m) * bombs, IndexesAroundInMatrix(i, m));
  }

  /** A cell whose count is zero has no bomb among its neighbours. */
  lemma ZeroHasNoBombAround(bombs: set<int>, m: Matrix, i: int)
    requires ValidMatrix(m) && IsZero(Schema(bombs, m), i)
    ensures IndexesAroundInMatrix(i, m) !! bombs
  {
    var schema := Schema(bombs, m);
    assert schema[i] == Count(0);
    assert i !in bombs;
    SchemaCount(bombs, m, i);
    DisjointWhenNoneShared(IndexesAroundInMatrix(i, m), bombs);
  }

  lemma DisjointWhenNoneShared(a: set<int>, b: set<int>)
    requires |a * b| == 0
    ensures a !! b
  {
    assert a * b == {};
    forall x | x in a ensures x !in b {
      assert x !in a * b;
    }
  }

  /** A click on a safe cell uncovers no bomb: the fill only spreads around cells with no bomb near. */
  lemma RevealFromSafeCellIsSafe(r: set<int>, start: int, bombs: set<int>, revealed: set<int>,
                                 marks: map<int, Mark>, m: Matrix)
    requires ValidMatrix(m) && start !in bombs
    requires IsRevealResult(r, start, Schema(bombs, m), revealed, marks, m)
    ensures r !! bombs
  {
    var schema := Schema(bombs, m);
    RevealSpreadsFromZeros(r, start, schema, revealed, marks, Around(m));
    forall x | x in r ensures x !in bombs {
      if x != start {
        var c :| c in r && IsZero(schema, c) && x in Around(m)(c);
        ZeroHasNoBombAround(bombs, m, c);
      }
    }
  }

  /** `isFieldMarkable`: the game is not over and the cell is still hidden. */
  predicate IsFieldMarkable(index: int, status: GameStatus, revealed: set<int>)
    ensures status == Won || status == Lost ==> !IsFieldMarkable(index, status, revealed)
    ensures index in revealed ==> !IsFieldMarkable(index, status, revealed)
  {
    (status == Awaiting || status == Playing) && index !in revealed
  }

  /** `isFieldClickable`: markable, and not flagged. */
  predicate IsFieldClickable(index: int, status: GameStatus, revealed: set<int>, marks: map<int, Mark>)
    ensures IsFieldClickable(index, status, revealed, marks) ==> IsFieldMarkable(index, status, revealed)
    ensures IsFlagged(marks, index) ==> !IsFieldClickable(index, status, revealed, marks)
    ensures IsMaybe(marks, index) ==> IsFieldClickable(index, status, revealed, marks) == IsFieldMarkable(index, status, revealed)
  {
    IsFieldMarkable(index, status, revealed) && !IsFlagged(marks, index)
  }

  /** The lookup map of `onMarkNext`: none, then a flag, then a question mark if those are on, then none. */
  function NextMark(previous: Option<Mark>, questionMarks: bool): (next: Option<Mark>)
    ensures next != previous
    ensures next == Some(Maybe) ==> questionMarks
  {
    match previous
    case None => Some(Flag)
    case Some(Flag) => if questionMarks then Some(Maybe) else None
    case Some(Maybe) => None
  }

  /**
   * The marks visited from none: a flag, then a question mark when those are on
   * (otherwise none again), then none. So the marks cycle back to none after
   * three right-clicks with question marks on, after two without.
   */
  lemma MarkCycle(questionMarks: bool)
    ensures NextMark(None, questionMarks) == Some(Flag)
    ensures NextMark(Some(Flag), questionMarks) == if questionMarks then Some(Maybe) else None
    ensures NextMark(Some(Maybe), questionMarks) == None
    ensures questionMarks ==> NextMark(NextMark(NextMark(None, true), true), true) == None
    ensures !questionMarks ==> NextMark(NextMark(None, false), false) == None
  {
  }

  /** `RevealAftermath` */
  datatype RevealAftermath = Continue | Win | Explosion

  /**
   * The aftermath of a reveal: a bomb under the click explodes; otherwise the
   * game is won when the newly uncovered cells are all the safe cells not
   * uncovered before.
   */
  function Aftermath(field: int, newRevealed: set<int>, bombs: set<int>, revealed: set<int>, m: Matrix): (a: RevealAftermath)
    ensures a == Explosion <==> field in bombs
    ensures a == Win <==> field !in bombs && |newRevealed| == (CellCount(m) - |bombs|) - |revealed|
  {
    if field in bombs then Explosion
    else if |newRevealed| == (CellCount(m) - |bombs|) - |revealed| then Win
    else Continue
  }

  /** There are as many cells as the grid's width times its height. */
  lemma CellsCardinality(m: Matrix)
    requires ValidMatrix(m)
    ensures |Cells(m)| == CellCount(m)
  {
    assert CellCount(m) > 0 by {
      MulAtLeast(m.height, m.width);
    }
    var n := CellCount(m);
    var r := Range(n);
    RangeStrictlyIncreasing(n);
    DistinctCardinality(r);
    assert Elements(r) == Cells(m) by {
      forall x | x in Cells(m) ensures x in Range(n) {
        assert r[x] == x;
      }
      forall x | x in r ensures x in Cells(m) {
        var k :| 0 <= k < n && r[k] == x;
      }
    }
  }

  /**
   * When the uncovered cells and the new ones are disjoint safe cells of the
   * grid, the count test of `Aftermath` says exactly that every safe cell is
   * now uncovered.
   */
  lemma WinIffAllSafeRevealed(field: int, newRevealed: set<int>, bombs: set<int>, revealed: set<int>, m: Matrix)
    requires ValidMatrix(m) && field !in bombs && bombs <= Cells(m)
    requires revealed <= Cells(m) - bombs && newRevealed <= Cells(m) - bombs && revealed !! newRevealed
    ensures Aftermath(field, newRevealed, bombs, revealed, m) == Win <==> revealed + newRevealed == Cells(m) - bombs
  {
    CellsCardinality(m);
    var safe := Cells(m) - bombs;
    assert |safe| == CellCount(m) - |bombs| by {
      assert Cells(m) == safe + bombs;
    }
    assert |revealed + newRevealed| == |revealed| + |newRevealed|;
    if |newRevealed| == |safe| - |revealed| {
      SubsetSameCardinality(revealed + newRevealed, safe);
    }
  }

  /** Every safe cell of the grid is among `revealed`. */
  ghost predicate AllSafeUncovered(revealed: set<int>, bombs: set<int>, m: Matrix)
  {
    forall i :: IsCell(i, m) && i !in bombs ==> i in revealed
  }

  /** For safe cells of the grid, holding every safe cell means being exactly the safe cells. */
  lemma AllSafeUncoveredMeans(revealed: set<int>, bombs: set<int>, m: Matrix)
    requires revealed <= Cells(m) && revealed !! bombs
    ensures AllSafeUncovered(revealed, bombs, m) <==> revealed == Cells(m) - bombs
  {
    if AllSafeUncovered(revealed, bombs, m) {
      forall i | i in Cells(m) - bombs ensures i in revealed {
        assert IsCell(i, m);
      }
    }
  }

  /** The cells of `cells` that carry a question mark. */
  function MaybeMarked(cells: set<int>, marks: map<int, Mark>): set<int>
  {
    set i | i in cells && IsMaybe(marks, i)
  }

  /** `fieldsToUnmark`: the newly uncovered cells that carry a question mark. */
  method FieldsToUnmark(newRevealed: set<int>, marks: map<int, Mark>) returns (unmark: set<int>)
    ensures unmark == MaybeMarked(newRevealed, marks)
    ensures forall i :: i in unmark <==> i in newRevealed && IsMaybe(marks, i)
  {
    unmark := {};
    var rest := newRevealed;
    while rest != {}
      invariant rest <= newRevealed
      invariant unmark == MaybeMarked(newRevealed - rest, marks)
      decreases rest
    {
      ghost var some := Member(rest);
      var f :| f in rest;
      if IsMaybe(marks, f) {
        unmark := unmark + {f};
      }
      rest := rest - {f};
    }
  }
}
