/**
 * The game state of src/components/Minesweeper/Minesweeper.tsx together with
 * the click and mark handlers of src/components/Minefield/Minefield.tsx: bomb
 * placement, the reset, the reveal and its aftermath, marking, the mine
 * counter and the smiley.
 */
module Game {
  import opened Utils
  import opened Decimal
  import opened Geometry
  import opened Types
  import opened MinesweeperUtils
  import opened Minefield
  import opened JsValues
  import opened Leaderboard

  // ---------------------------------------------------------------------------
  // createBombs

  /** `filter(index => index !== x)` */
  function Without(s: seq<nat>, x: int): (r: seq<nat>)
    ensures forall y :: y in r <==> y in s && y != x
  {
    if s == [] then []
    else (if s[0] == x then [] else [s[0]]) + Without(s[1..], x)
  }

  lemma {:induction false} WithoutDistinct(s: seq<nat>, x: int)
    requires Distinct(s)
    ensures Distinct(Without(s, x))
  {
    if s != [] {
      var rest := Without(s[1..], x);
      WithoutDistinct(s[1..], x);
      assert s[0] !in s[1..] by {
        forall k | 0 <= k < |s[1..]| ensures s[1..][k] != s[0] {
          assert s[1..][k] == s[k + 1];
        }
      }
      assert s[0] !in rest;
    }
  }

  /** The cells a bomb may go to: every index of the grid but the first-clicked one. */
  function FieldIndexes(m: Matrix, startIndex: int): seq<nat>
    requires ValidMatrix(m)
  {
    assert CellCount(m) > 0 by {
      MulAtLeast(m.height, m.width);
    }
    Without(Range(CellCount(m)), startIndex)
  }

  /** The candidate cells are distinct, and number the cells of the grid less the clicked one. */
  lemma FieldIndexesShape(m: Matrix, startIndex: int)
    requires ValidMatrix(m)
    ensures Distinct(FieldIndexes(m, startIndex))
    ensures Elements(FieldIndexes(m, startIndex)) == Cells(m) - {startIndex}
    ensures |FieldIndexes(m, startIndex)| == if IsCell(startIndex, m) then CellCount(m) - 1 else CellCount(m)
  {
    var r := FieldIndexes(m, startIndex);
    var n := CellCount(m);
    RangeStrictlyIncreasing(n);
    WithoutDistinct(Range(n), startIndex);
    assert Elements(r) == Cells(m) - {startIndex} by {
      forall x | x in Cells(m) - {startIndex} ensures x in r {
        assert Range(n)[x] == x;
      }
    }
    DistinctCardinality(r);
    CellsCardinality(m);
  }

  /** Where `slice(0, end)` stops in a list of `len` items: a negative end counts from the back. */
  function SliceEnd(len: nat, end: int): (r: nat)
    ensures r <= len
    ensures end >= 0 ==> r == if end < len then end else len
  {
    if end < 0 then (if len + end > 0 then len + end else 0)
    else if end < len then end
    else len
  }

  /**
   * `createBombs`: the first `bombsCount` cells of a shuffle of every cell but
   * the first-clicked one. `choices` stands for the random draws of `shuffled`.
   */
  function CreateBombs(m: Matrix, bombsCount: int, startIndex: int, choices: seq<nat>): (bombs: set<int>)
    requires ValidMatrix(m) && ValidChoices(choices, |FieldIndexes(m, startIndex)|)
    ensures bombs <= Cells(m) - {startIndex}
  {
    var indexes := FieldIndexes(m, startIndex);
    var shuffledIndexes := Shuffled(indexes, choices);
    FieldIndexesShape(m, startIndex);
    ShuffledMembers(indexes, choices);
    assert forall x :: x in shuffledIndexes ==> x in Elements(indexes);
    set i | i in shuffledIndexes[..SliceEnd(|shuffledIndexes|, bombsCount)]
  }

  /**
   * As many bombs as asked for are placed, as long as the grid has room for
   * them beside the first-clicked cell; otherwise every other cell gets one.
   */
  lemma CreateBombsCount(m: Matrix, bombsCount: int, startIndex: int, choices: seq<nat>)
    requires ValidMatrix(m) && IsCell(startIndex, m) && bombsCount >= 0
    requires ValidChoices(choices, |FieldIndexes(m, startIndex)|)
    ensures |CreateBombs(m, bombsCount, startIndex, choices)| ==
              if bombsCount <= CellCount(m) - 1 then bombsCount else CellCount(m) - 1
  {
    var indexes := FieldIndexes(m, startIndex);
    FieldIndexesShape(m, startIndex);
    ShuffledDistinct(indexes, choices);
    var shuffledIndexes := Shuffled(indexes, choices);
    var n := SliceEnd(|shuffledIndexes|, bombsCount);
    DistinctPrefix(shuffledIndexes, n);
    DistinctCardinality(shuffledIndexes[..n]);
    assert CreateBombs(m, bombsCount, startIndex, choices) == Elements(shuffledIndexes[..n]);
  }

  // ---------------------------------------------------------------------------
  // The smiley and the mine counter

  /** `SmileySpriteItemType` */
  datatype Smiley = Smile | Wow | Cool | Dead

  /**
   * `statusToSmiley`: pressing the smiley shows it smiling; pressing the field
   * during a game shows surprise; otherwise the status decides.
   */
  function StatusToSmiley(isSmileyDown: bool, isPointerDown: bool, status: GameStatus): (s: Smiley)
    ensures s == Dead <==> !isSmileyDown && status == Lost
    ensures s == Cool <==> !isSmileyDown && status == Won
    ensures s == Wow <==> !isSmileyDown && isPointerDown && status in {Awaiting, Playing}
  {
    if isSmileyDown then Smile
    else if isPointerDown && status in {Awaiting, Playing} then Wow
    else match status
      case Awaiting => Smile
      case Playing => Smile
      case Won => Cool
      case Lost => Dead
  }

  /** The cells that carry a flag. */
  function Flags(marks: map<int, Mark>): set<int>
  {
    set i | i in marks && marks[i] == Flag
  }

  /** `flagsCount`: how many cells carry a flag; never more than there are marks. */
  function FlagsCount(marks: map<int, Mark>): (n: nat)
    ensures n <= |marks|
  {
    assert Flags(marks) <= marks.Keys;
    SubsetCardinality(Flags(marks), marks.Keys);
    |Flags(marks)|
  }

  /** Flagging an unflagged cell adds one to the count; taking a flag off takes one away. */
  lemma FlagsCountAfterMark(marks: map<int, Mark>, index: int, mark: Option<Mark>)
    ensures var after := if mark.Some? then marks[index := mark.value] else marks - {index};
            FlagsCount(after) ==
              FlagsCount(marks) + (if mark == Some(Flag) then 1 else 0) - (if IsFlagged(marks, index) then 1 else 0)
  {
    var after := if mark.Some? then marks[index := mark.value] else marks - {index};
    var others := Flags(marks) - {index};
    assert Flags(after) - {index} == others;
    FlagsSplit(after, index, others);
    FlagsSplit(marks, index, others);
  }

  /** The flags of a marks map are those of the other cells, plus `index` when it is flagged. */
  lemma FlagsSplit(marks: map<int, Mark>, index: int, others: set<int>)
    requires others == Flags(marks) - {index}
    ensures |Flags(marks)| == |others| + if IsFlagged(marks, index) then 1 else 0
  {
    if IsFlagged(marks, index) {
      assert Flags(marks) == others + {index};
    } else {
      assert Flags(marks) == others;
    }
  }

  /** `digitalScreenLength` */
  const DigitalScreenLength: nat := 3

  /**
   * The mine counter, on three characters: while no more flags than bombs are
   * placed it reads the bombs left, capped at 999; with more flags it shows '-'
   * and the excess modulo 100.
   */
  function MineCounter(bombsTotal: int, marks: map<int, Mark>): (r: string)
    ensures |r| == 3
    ensures bombsTotal >= FlagsCount(marks) ==>
              AllDigits(r) && DecimalValue(r) == if bombsTotal - FlagsCount(marks) < 999 then bombsTotal - FlagsCount(marks) else 999
    ensures bombsTotal < FlagsCount(marks) ==>
              r[0] == '-' && AllDigits(r[1..]) && DecimalValue(r[1..]) == (FlagsCount(marks) - bombsTotal) % 100
  {
    var left := bombsTotal - FlagsCount(marks);
    if left >= 0 then
      DigitalScreenNonNegative(left, DigitalScreenLength);
      NumberToDigitalScreen(left, DigitalScreenLength)
    else
      DigitalScreenNegative(left, DigitalScreenLength);
      NumberToDigitalScreen(left, DigitalScreenLength)
  }

  // ---------------------------------------------------------------------------
  // The game

  /** `BestTimeContext`: what the best-time prompt is opened with. */
  datatype BestTimeContext = BestTimeContext(group: string, time: int)

  /** The status `onAfterReveal` sets for each aftermath; `continue` keeps the game going. */
  function AftermathStatus(a: RevealAftermath): GameStatus
  {
    match a
    case Continue => Playing
    case Win => Won
    case Explosion => Lost
  }

  /**
   * What every reachable game state satisfies: cells and bombs lie in the
   * grid; nothing is uncovered exactly while the game awaits its first click;
   * no uncovered cell carries a mark; an explosion is recorded exactly when the
   * game is lost, at an uncovered bomb; until then no bomb is uncovered; and a
   * won game has every safe cell uncovered.
   */
  ghost predicate ValidState(m: Matrix, status: GameStatus, revealed: set<int>, bombs: set<int>,
                             marks: map<int, Mark>, explosion: Option<int>, timer: int)
  {
    && ValidMatrix(m)
    && bombs <= Cells(m) && revealed <= Cells(m)
    && (status == Awaiting <==> revealed == {})
    && (status == Awaiting ==> bombs == {} && timer == 0)
    && (forall i :: i in revealed ==> i !in marks)
    && (explosion.Some? <==> status == Lost)
    && (explosion.Some? ==> explosion.value in bombs && explosion.value in revealed)
    && (status != Lost ==> revealed !! bombs)
    && (status == Won ==> AllSafeUncovered(revealed, bombs, m))
  }

  /**
   * The state of one game: the active mode's grid, bomb count and id, the
   * question-mark setting, the stored leaderboard entries, and the slots the
   * game updates.
   */
  class Game {
    var m: Matrix
    var bombsTotal: int
    var modeId: string
    var questionMarks: bool
    var leaderboard: seq<Entry>
    var status: GameStatus
    var revealed: set<int>
    var bombs: set<int>
    var marks: map<int, Mark>
    var explosion: Option<int>
    var timer: int
    var bestTime: Option<BestTimeContext>

    /** The invariant `ValidState` over the current slots. */
    ghost predicate Valid()
      reads this
    {
      ValidState(m, status, revealed, bombs, marks, explosion, timer)
    }

    /** A new game in the given mode. */
    constructor(m: Matrix, bombsTotal: int, modeId: string, questionMarks: bool, leaderboard: seq<Entry>)
      requires ValidMatrix(m)
      ensures Valid()
      ensures this.m == m && this.bombsTotal == bombsTotal && this.modeId == modeId
      ensures this.questionMarks == questionMarks && this.leaderboard == leaderboard
      ensures status == Awaiting && revealed == {} && bombs == {} && marks == map[]
      ensures explosion == None && timer == 0 && bestTime == None
    {
      this.m := m;
      this.bombsTotal := bombsTotal;
      this.modeId := modeId;
      this.questionMarks := questionMarks;
      this.leaderboard := leaderboard;
      status := Awaiting;
      revealed := {};
      bombs := {};
      marks := map[];
      explosion := None;
      timer := 0;
      bestTime := None;
    }

    /** The reset on restart or on a change of mode: a fresh game with the given grid, bomb count and mode. */
    method Reset(m': Matrix, bombsTotal': int, modeId': string)
      requires ValidMatrix(m')
      modifies this
      ensures Valid()
      ensures m == m' && bombsTotal == bombsTotal' && modeId == modeId'
      ensures status == Awaiting && revealed == {} && bombs == {} && marks == map[]
      ensures explosion == None && timer == 0
      ensures questionMarks == old(questionMarks) && leaderboard == old(leaderboard) && bestTime == old(bestTime)
    {
      m, bombsTotal, modeId := m', bombsTotal', modeId';
      timer := 0;
      status := Awaiting;
      revealed := {};
      bombs := {};
      marks := map[];
      explosion := None;
    }

    /** One tick of the running timer (the interval itself is outside this model). */
    method TimerTick()
      requires Valid() && status == Playing
      modifies this`timer
      ensures timer == old(timer) + 1
      ensures Valid()
    {
      timer := timer + 1;
    }

    /** `onReveal`: the game is under way and the new cells join the uncovered ones. */
    method OnReveal(indexes: set<int>)
      modifies this`status, this`revealed
      ensures status == Playing && revealed == old(revealed) + indexes
    {
      status := Playing;
      revealed := revealed + indexes;
    }

    /**
     * `onAfterReveal`: a win ends the game won and, in a leaderboard mode with
     * a best time, opens the best-time prompt; an explosion ends it lost at
     * the clicked cell; `continue` changes nothing.
     */
    method OnAfterReveal(aftermath: RevealAftermath, index: int)
      modifies this`status, this`explosion, this`bestTime
      ensures aftermath == Continue ==> status == old(status)
      ensures aftermath != Continue ==> status == AftermathStatus(aftermath)
      ensures explosion == if aftermath == Explosion then Some(index) else old(explosion)
      ensures bestTime ==
                if aftermath == Win && IsLeaderboardGroupId(JsString(modeId)) && IsBestLeaderboardTimeAsWritten(leaderboard, modeId, timer)
                then Some(BestTimeContext(modeId, timer)) else old(bestTime)
    {
      if aftermath == Continue {
        return;
      }
      status := if aftermath == Win then Won else Lost;
      if aftermath == Explosion {
        explosion := Some(index);
      }
      if aftermath == Win && IsLeaderboardGroupId(JsString(modeId)) && IsBestLeaderboardTimeAsWritten(leaderboard, modeId, timer) {
        bestTime := Some(BestTimeContext(modeId, timer));
      }
    }

    /** `onMark(index, mark)`: sets the cell's mark, or removes it for none; other cells keep theirs. */
    method OnMark(index: int, mark: Option<Mark>)
      modifies this`marks
      ensures mark.Some? ==> marks == old(marks)[index := mark.value]
      ensures mark.None? ==> marks == old(marks) - {index}
    {
      if mark.Some? {
        marks := marks[index := mark.value];
      } else {
        marks := marks - {index};
      }
    }

    /** `onAutoUnmark(indexes)`: removes the marks of exactly those cells. */
    method OnAutoUnmark(indexes: set<int>)
      modifies this`marks
      ensures marks == old(marks) - indexes
    {
      marks := marks - indexes;
    }

    /**
     * A right-click (`onMarkNext`): on a markable cell the mark moves one step
     * along its cycle; elsewhere nothing changes.
     */
    method MarkNext(index: int)
      requires Valid()
      modifies this`marks
      ensures Valid()
      ensures !IsFieldMarkable(index, status, revealed) ==> marks == old(marks)
      ensures IsFieldMarkable(index, status, revealed) ==>
                var next := NextMark(if index in old(marks) then Some(old(marks)[index]) else None, questionMarks);
                marks == if next.Some? then old(marks)[index := next.value] else old(marks) - {index}
    {
      if !IsFieldMarkable(index, status, revealed) {
        return;
      }
      var previous := if index in marks then Some(marks[index]) else None;
      OnMark(index, NextMark(previous, questionMarks));
    }

    /**
     * A click on a cell (`onFieldClick`), with the queued reveal of the first
     * click carried out at once. A cell that is not clickable is ignored. The
     * first click places the bombs away from the clicked cell, using the
     * random draws `choices`, and starts the timer; then the cell is revealed.
     */
    method Click(field: int, choices: seq<nat>) returns (newRevealed: set<int>)
      requires Valid() && IsCell(field, m)
      requires revealed == {} ==> ValidChoices(choices, |FieldIndexes(m, field)|)
      modifies this
      ensures Valid()
      ensures m == old(m) && bombsTotal == old(bombsTotal) && modeId == old(modeId)
      ensures questionMarks == old(questionMarks) && leaderboard == old(leaderboard)
      ensures !old(IsFieldClickable(field, status, revealed, marks)) ==>
                newRevealed == {} && status == old(status) && revealed == old(revealed) && bombs == old(bombs)
                && marks == old(marks) && explosion == old(explosion) && timer == old(timer) && bestTime == old(bestTime)
      ensures old(IsFieldClickable(field, status, revealed, marks)) ==>
                && bombs == (if old(revealed) == {} then CreateBombs(m, bombsTotal, field, choices) else old(bombs))
                && timer == (if old(revealed) == {} then old(timer) + 1 else old(timer))
                && RevealOutcome(field, newRevealed, m, bombs, old(revealed), old(marks), old(explosion),
                                 status, revealed, marks, explosion)
      ensures old(IsFieldClickable(field, status, revealed, marks)) ==>
                bestTime == if status == Won && IsLeaderboardGroupId(JsString(modeId))
                                && IsBestLeaderboardTimeAsWritten(leaderboard, modeId, timer)
                            then Some(BestTimeContext(modeId, timer)) else old(bestTime)
      ensures old(revealed) == {} && old(IsFieldClickable(field, status, revealed, marks)) ==> status != Lost
    {
      if !IsFieldClickable(field, status, revealed, marks) {
        newRevealed := {};
        return;
      }
      if revealed == {} {
        bombs := CreateBombs(m, bombsTotal, field, choices);
        timer := timer + 1;
      }
      newRevealed := Reveal(field);
    }

    /**
     * The reveal of `onFieldClick` once the bombs are in place: the cells the
     * fill uncovers join the uncovered ones, the aftermath is applied (opening
     * the best-time prompt on a best win), and question marks on the newly
     * uncovered cells are removed.
     */
    method Reveal(field: int) returns (newRevealed: set<int>)
      requires ValidMatrix(m) && IsCell(field, m) && bombs <= Cells(m) && revealed <= Cells(m)
      requires status == Awaiting || status == Playing
      requires status == Awaiting <==> revealed == {}
      requires forall i :: i in revealed ==> i !in marks
      requires explosion == None && revealed !! bombs
      requires IsFieldClickable(field, status, revealed, marks)
      modifies this`status, this`revealed, this`marks, this`explosion, this`bestTime
      ensures Valid()
      ensures m == old(m) && bombs == old(bombs)
      ensures RevealOutcome(field, newRevealed, old(m), old(bombs), old(revealed), old(marks), old(explosion),
                            status, revealed, marks, explosion)
      ensures bestTime == if status == Won && IsLeaderboardGroupId(JsString(modeId)) && IsBestLeaderboardTimeAsWritten(leaderboard, modeId, timer)
                          then Some(BestTimeContext(modeId, timer)) else old(bestTime)
    {
      var aftermath, unmark;
      newRevealed, aftermath, unmark := RevealStep(field, m, bombs, revealed, marks, status, explosion, timer);
      OnReveal(newRevealed);
      OnAfterReveal(aftermath, field);
      if |unmark| > 0 {
        OnAutoUnmark(unmark);
      } else {
        RemoveNone(marks, unmark);
      }
      assert revealed == old(revealed) + newRevealed && marks == old(marks) - unmark;
      assert status == AftermathStatus(aftermath);
      assert explosion == if aftermath == Explosion then Some(field) else old(explosion);
    }
  }

  /**
   * What one reveal from `field` does, from the uncovered cells `revealed0`,
   * marks `marks0` and explosion `explosion0` before it to the slots after it:
   * `newRevealed` is the fill from the clicked cell, which is among them; they
   * join the uncovered cells; a bomb under the clicked cell loses the game
   * with the explosion recorded there, otherwise the game is won exactly when
   * every safe cell is uncovered; and the question marks on the new cells are
   * removed.
   */
  ghost predicate RevealOutcome(field: int, newRevealed: set<int>, m: Matrix, bombs: set<int>,
                                revealed0: set<int>, marks0: map<int, Mark>, explosion0: Option<int>,
                                status: GameStatus, revealed: set<int>, marks: map<int, Mark>, explosion: Option<int>)
  {
    && ValidMatrix(m)
    && IsRevealResult(newRevealed, field, Schema(bombs, m), revealed0, marks0, m)
    && field in newRevealed
    && revealed == revealed0 + newRevealed
    && status == (if field in bombs then Lost else if AllSafeUncovered(revealed, bombs, m) then Won else Playing)
    && explosion == (if field in bombs then Some(field) else explosion0)
    && marks == marks0 - MaybeMarked(newRevealed, marks0)
  }

  /**
   * The computation of `onFieldClick` between the gate and the callbacks: the
   * fill from the clicked cell (`indexesToReveal`), the aftermath by the count
   * test, and the question-marked cells among the new ones (`fieldsToUnmark`).
   * Applying them gives the outcome above and keeps the game's invariant.
   */
  method RevealStep(field: int, m: Matrix, bombs: set<int>, revealed: set<int>, marks: map<int, Mark>,
                    status: GameStatus, explosion: Option<int>, timer: int)
    returns (newRevealed: set<int>, aftermath: RevealAftermath, unmark: set<int>)
    requires ValidMatrix(m) && IsCell(field, m) && bombs <= Cells(m) && revealed <= Cells(m)
    requires status == Awaiting || status == Playing
    requires status == Awaiting <==> revealed == {}
    requires forall i :: i in revealed ==> i !in marks
    requires explosion == None && revealed !! bombs
    requires IsFieldClickable(field, status, revealed, marks)
    ensures unmark == MaybeMarked(newRevealed, marks)
    ensures RevealOutcome(field, newRevealed, m, bombs, revealed, marks, explosion,
                          AftermathStatus(aftermath), revealed + newRevealed, marks - unmark,
                          if aftermath == Explosion then Some(field) else explosion)
    ensures ValidState(m, AftermathStatus(aftermath), revealed + newRevealed, bombs, marks - unmark,
                       if aftermath == Explosion then Some(field) else explosion, timer)
  {
    var schema := Schema(bombs, m);
    newRevealed := IndexesToReveal(field, schema, revealed, marks, m);
    aftermath := Aftermath(field, newRevealed, bombs, revealed, m);
    unmark := FieldsToUnmark(newRevealed, marks);
    ClickFacts(field, newRevealed, bombs, revealed, marks, status, m);
    RevealKeepsValid(field, newRevealed, m, status, revealed, bombs, marks, explosion, timer);
  }

  /** Removing no keys leaves a map as it is. */
  lemma RemoveNone(marks: map<int, Mark>, keys: set<int>)
    requires |keys| == 0
    ensures marks - keys == marks
  {
    assert keys == {};
  }

  /**
   * A reveal from a clickable cell keeps the invariant: starting from a state
   * that holds it (apart from the bombs and timer the first click has just
   * set), uncovering fresh unflagged cells of the grid as the fill does,
   * applying the aftermath and removing the question marks on the new cells
   * gives a state that holds it again.
   */
  lemma RevealKeepsValid(field: int, newRevealed: set<int>, m: Matrix, status: GameStatus, revealed: set<int>,
                         bombs: set<int>, marks: map<int, Mark>, explosion: Option<int>, timer: int)
    requires ValidMatrix(m) && bombs <= Cells(m) && revealed <= Cells(m)
    requires status == Awaiting || status == Playing
    requires status == Awaiting <==> revealed == {}
    requires forall i :: i in revealed ==> i !in marks
    requires explosion == None && revealed !! bombs
    requires field in newRevealed && newRevealed <= Cells(m) && newRevealed !! revealed
    requires forall i :: i in newRevealed ==> !IsFlagged(marks, i)
    requires field !in bombs ==> newRevealed !! bombs
    requires field !in bombs ==>
               (Aftermath(field, newRevealed, bombs, revealed, m) == Win <==> AllSafeUncovered(revealed + newRevealed, bombs, m))
    ensures var a := Aftermath(field, newRevealed, bombs, revealed, m);
            ValidState(m, AftermathStatus(a), revealed + newRevealed, bombs,
                       marks - MaybeMarked(newRevealed, marks),
                       if a == Explosion then Some(field) else explosion, timer)
    ensures var a := Aftermath(field, newRevealed, bombs, revealed, m);
            AftermathStatus(a) ==
              if field in bombs then Lost else if AllSafeUncovered(revealed + newRevealed, bombs, m) then Won else Playing
  {
    var unmarked := marks - MaybeMarked(newRevealed, marks);
    forall i | i in revealed + newRevealed
      ensures i !in unmarked
    {
      if i in newRevealed {
        assert !IsFlagged(marks, i);
      }
    }
  }

  /**
   * What one reveal on a clickable cell does to the game's invariant: the
   * clicked cell is uncovered; the new cells are fresh cells of the grid with no
   * flag; they hold a bomb only if the clicked cell is one; and a win leaves
   * every safe cell uncovered.
   */
  lemma ClickFacts(field: int, newRevealed: set<int>, bombs: set<int>, revealed: set<int>, marks: map<int, Mark>,
                   status: GameStatus, m: Matrix)
    requires ValidMatrix(m) && IsCell(field, m) && bombs <= Cells(m) && revealed <= Cells(m)
    requires status != Lost ==> revealed !! bombs
    requires IsFieldClickable(field, status, revealed, marks)
    requires IsRevealResult(newRevealed, field, Schema(bombs, m), revealed, marks, m)
    ensures field in newRevealed && newRevealed <= Cells(m) && newRevealed !! revealed
    ensures forall i :: i in newRevealed ==> !IsFlagged(marks, i)
    ensures field !in bombs ==> newRevealed !! bombs
    ensures field !in bombs ==>
              (Aftermath(field, newRevealed, bombs, revealed, m) == Win <==> AllSafeUncovered(revealed + newRevealed, bombs, m))
  {
    var schema := Schema(bombs, m);
    RevealAvoidsBlocked(newRevealed, field, schema, revealed, marks, Around(m));
    RevealContainsStart(newRevealed, field, schema, revealed, marks, Around(m));
    RevealInGrid(newRevealed, field, schema, revealed, marks, m);
    if field !in bombs {
      RevealFromSafeCellIsSafe(newRevealed, field, bombs, revealed, marks, m);
      WinIffAllSafeRevealed(field, newRevealed, bombs, revealed, m);
      AllSafeUncoveredMeans(revealed + newRevealed, bombs, m);
    }
  }
}
