/**
 * src/utils/minesweeper.ts: the three-digit counter text and the flood fill
 * that decides which cells one click uncovers.
 */
module MinesweeperUtils {
  import opened Decimal
  import opened Geometry
  import opened Types
  import opened Utils

  // ---------------------------------------------------------------------------
  // numberToDigitalScreen

  /**
   * A non-negative number is capped at the largest `length`-digit number and
   * zero-padded; a negative one keeps its last `length - 1` digits after a '-'.
   * A negative number with `length` 0 would take a remainder modulo 0.1 in the
   * source and is not modelled. The screen is never shorter than `length`: a
   * row of digits, or '-' and then digits.
   */
  function NumberToDigitalScreen(number: int, length: nat): (r: string)
    requires number >= 0 || length >= 1
    ensures |r| >= length
    ensures number >= 0 ==> AllDigits(r)
    ensures number < 0 ==> r[0] == '-' && AllDigits(r[1..])
  {
    if number >= 0 then
      var max := Pow10(length) - 1;
      var numericValue := if number < max then number else max;
      PadStartDigits(DecimalString(numericValue), length);
      PadStart(DecimalString(numericValue), length, '0')
    else
      var mod := Pow10(length - 1);
      var numericValue := (-number) % mod;
      PadStartDigits(DecimalString(numericValue), length - 1);
      var digits := PadStart(DecimalString(numericValue), length - 1, '0');
      assert ("-" + digits)[1..] == digits;
      "-" + digits
  }

  /** The text of a digit string padded with zeros to `length` still reads as its value. */
  lemma ZeroPadded(v: nat, length: nat)
    requires 1 <= length && v < Pow10(length)
    ensures |PadStart(DecimalString(v), length, '0')| == length
    ensures AllDigits(PadStart(DecimalString(v), length, '0'))
    ensures DecimalValue(PadStart(DecimalString(v), length, '0')) == v
  {
    var s := DecimalString(v);
    DecimalStringLength(v, length);
    DecimalStringRoundTrip(v);
    if |s| < length {
      LeadingZerosValue(length - |s|, s);
    }
  }

  /** A non-negative number shows as exactly `length` digits whose value is the number, capped at 10^length - 1. */
  lemma DigitalScreenNonNegative(number: int, length: nat)
    requires number >= 0 && length >= 1
    ensures |NumberToDigitalScreen(number, length)| == length
    ensures AllDigits(NumberToDigitalScreen(number, length))
    ensures DecimalValue(NumberToDigitalScreen(number, length)) ==
              if number < Pow10(length) - 1 then number else Pow10(length) - 1
  {
    var max := Pow10(length) - 1;
    ZeroPadded(if number < max then number else max, length);
  }

  /**
   * A negative number shows as '-' and then `length - 1` digits whose value is
   * |number| mod 10^(length - 1): `length` characters in all.
   */
  lemma DigitalScreenNegative(number: int, length: nat)
    requires number < 0 && length >= 2
    ensures |NumberToDigitalScreen(number, length)| == length
    ensures NumberToDigitalScreen(number, length)[0] == '-'
    ensures AllDigits(NumberToDigitalScreen(number, length)[1..])
    ensures DecimalValue(NumberToDigitalScreen(number, length)[1..]) == (-number) % Pow10(length - 1)
  {
    var r := NumberToDigitalScreen(number, length);
    var v := (-number) % Pow10(length - 1);
    ZeroPadded(v, length - 1);
    assert r[1..] == PadStart(DecimalString(v), length - 1, '0');
  }

  // ---------------------------------------------------------------------------
  // indexesToReveal

  /** A cell the fill stops at: already uncovered, or flagged. */
  predicate Blocked(i: int, revealed: set<int>, marks: map<int, Mark>)
  {
    i in revealed || IsFlagged(marks, i)
  }

  /** `minefieldSchema[i] === 0`: false for an index outside the schema. */
  predicate IsZero(schema: seq<SchemaEntry>, i: int)
  {
    0 <= i < |schema| && schema[i] == Count(0)
  }

  /** The neighbour relation of a grid, as a function value. */
  function Around(m: Matrix): int -> set<int>
  {
    i => IndexesAroundInMatrix(i, m)
  }

  /**
   * A set of cells the fill cannot leave: it holds the clicked cell unless that
   * cell is blocked, and it holds every unblocked neighbour of each of its
   * zero cells.
   */
  ghost predicate Closed(s: set<int>, start: int, schema: seq<SchemaEntry>, revealed: set<int>,
                         marks: map<int, Mark>, around: int -> set<int>)
  {
    && (!Blocked(start, revealed, marks) ==> start in s)
    && forall c, n {:trigger n in around(c)} :: c in s && IsZero(schema, c) && n in around(c) ==> n in s || Blocked(n, revealed, marks)
  }

  /** The smallest closed set: it is closed, and every closed set contains it. */
  ghost predicate IsLeastClosed(r: set<int>, start: int, schema: seq<SchemaEntry>, revealed: set<int>,
                                marks: map<int, Mark>, around: int -> set<int>)
  {
    && Closed(r, start, schema, revealed, marks, around)
    && forall s :: Closed(s, start, schema, revealed, marks, around) ==> r <= s
  }

  /** What one click on `start` uncovers in grid `m`. */
  ghost predicate IsRevealResult(r: set<int>, start: int, schema: seq<SchemaEntry>, revealed: set<int>,
                                 marks: map<int, Mark>, m: Matrix)
  {
    IsLeastClosed(r, start, schema, revealed, marks, Around(m))
  }

  /**
   * An order in which cells can be uncovered from `start`: each cell is the
   * start or a neighbour of a zero cell uncovered before it.
   */
  ghost predicate Grounded(order: seq<int>, start: int, schema: seq<SchemaEntry>, around: int -> set<int>)
  {
    forall k :: 0 <= k < |order| ==> GroundedAt(order, k, start, schema, around)
  }

  /** Position `k` of `order` holds the start or a neighbour of an earlier zero cell. */
  ghost predicate GroundedAt(order: seq<int>, k: nat, start: int, schema: seq<SchemaEntry>, around: int -> set<int>)
    requires k < |order|
  {
    order[k] == start ||
    exists j :: 0 <= j < k && IsZero(schema, order[j]) && order[k] in around(order[j])
  }

  /** The cells of a grounded order of unblocked cells lie in every closed set. */
  lemma {:induction false} GroundedInClosed(order: seq<int>, n: nat, s: set<int>, start: int,
                                            schema: seq<SchemaEntry>, revealed: set<int>,
                                            marks: map<int, Mark>, around: int -> set<int>)
    requires n <= |order|
    requires Grounded(order, start, schema, around)
    requires forall k :: 0 <= k < |order| ==> !Blocked(order[k], revealed, marks)
    requires Closed(s, start, schema, revealed, marks, around)
    ensures forall k :: 0 <= k < n ==> order[k] in s
  {
    if n > 0 {
      GroundedInClosed(order, n - 1, s, start, schema, revealed, marks, around);
      var c := order[n - 1];
      assert !Blocked(c, revealed, marks);
      assert GroundedAt(order, n - 1, start, schema, around);
      if c != start {
        var j :| 0 <= j < n - 1 && IsZero(schema, order[j]) && c in around(order[j]);
        assert order[j] in s;
      }
      assert c in s;
    }
  }

  /** Every cell still to visit is the start, or a neighbour of a zero cell of `order`. */
  ghost predicate PendingGrounded(pending: set<int>, order: seq<int>, start: int, schema: seq<SchemaEntry>,
                                  around: int -> set<int>)
  {
    forall t :: t in pending ==>
      t == start ||
      exists j :: 0 <= j < |order| && IsZero(schema, order[j]) && t in around(order[j])
  }

  /** Each unblocked neighbour of a zero cell found so far is found or still to visit. */
  ghost predicate ClosedUpTo(result: set<int>, pending: set<int>, schema: seq<SchemaEntry>, revealed: set<int>,
                             marks: map<int, Mark>, around: int -> set<int>)
  {
    forall c, n :: c in result && IsZero(schema, c) && n in around(c) ==>
      n in result || n in pending || Blocked(n, revealed, marks)
  }

  /** The loop invariant of the fill: `order` lists `result` in the order the cells were found. */
  ghost predicate FillInvariant(result: set<int>, pending: set<int>, order: seq<int>, start: int,
                                schema: seq<SchemaEntry>, revealed: set<int>, marks: map<int, Mark>,
                                around: int -> set<int>)
  {
    && (forall c :: c in result <==> c in order)
    && Grounded(order, start, schema, around)
    && (forall k :: 0 <= k < |order| ==> !Blocked(order[k], revealed, marks))
    && PendingGrounded(pending, order, start, schema, around)
    && (!Blocked(start, revealed, marks) ==> start in result || start in pending)
    && ClosedUpTo(result, pending, schema, revealed, marks, around)
  }

  /** Visiting a cell that is already found or blocked keeps the invariant. */
  lemma FillSkip(result: set<int>, pending: set<int>, order: seq<int>, c: int, start: int,
                 schema: seq<SchemaEntry>, revealed: set<int>, marks: map<int, Mark>, around: int -> set<int>)
    requires FillInvariant(result, pending, order, start, schema, revealed, marks, around)
    requires c in pending && (c in result || Blocked(c, revealed, marks))
    ensures FillInvariant(result, pending - {c}, order, start, schema, revealed, marks, around)
  {
    var pending' := pending - {c};
    assert PendingGrounded(pending', order, start, schema, around);
    assert ClosedUpTo(result, pending', schema, revealed, marks, around) by {
      forall x, n | x in result && IsZero(schema, x) && n in around(x)
        ensures n in result || n in pending' || Blocked(n, revealed, marks)
      {
      }
    }
  }

  /** Finding an unblocked cell, and queueing its neighbours when it is a zero cell, keeps the invariant. */
  lemma FillAdd(result: set<int>, pending: set<int>, order: seq<int>, c: int, queued: set<int>, start: int,
                schema: seq<SchemaEntry>, revealed: set<int>, marks: map<int, Mark>, around: int -> set<int>)
    requires FillInvariant(result, pending, order, start, schema, revealed, marks, around)
    requires c in pending && c !in result && !Blocked(c, revealed, marks)
    requires queued == if IsZero(schema, c) then around(c) else {}
    ensures FillInvariant(result + {c}, (pending - {c}) + queued, order + [c], start, schema, revealed, marks, around)
  {
    var result', order' := result + {c}, order + [c];
    var pending' := (pending - {c}) + queued;
    assert Grounded(order', start, schema, around) by {
      forall k | 0 <= k < |order'| ensures GroundedAt(order', k, start, schema, around) {
        if k < |order| {
          assert GroundedAt(order, k, start, schema, around);
          if order[k] != start {
            var j :| 0 <= j < k && IsZero(schema, order[j]) && order[k] in around(order[j]);
            assert order'[j] == order[j] && order'[k] == order[k];
          }
        } else if c != start {
          var j :| 0 <= j < |order| && IsZero(schema, order[j]) && c in around(order[j]);
          assert order'[j] == order[j] && order'[k] == c;
        }
      }
    }
    assert PendingGrounded(pending', order', start, schema, around) by {
      forall t | t in pending' && t != start
        ensures exists j :: 0 <= j < |order'| && IsZero(schema, order'[j]) && t in around(order'[j])
      {
        if t in queued {
          assert order'[|order|] == c;
        } else {
          var j :| 0 <= j < |order| && IsZero(schema, order[j]) && t in around(order[j]);
          assert order'[j] == order[j];
        }
      }
    }
    assert ClosedUpTo(result', pending', schema, revealed, marks, around) by {
      forall x, n | x in result' && IsZero(schema, x) && n in around(x)
        ensures n in result' || n in pending' || Blocked(n, revealed, marks)
      {
        if x == c {
          assert n in queued;
        } else {
          assert x in result;
          if n in pending && n != c {
            assert n in pending';
          }
        }
      }
    }
    assert forall k :: 0 <= k < |order'| ==> !Blocked(order'[k], revealed, marks) by {
      forall k | 0 <= k < |order'| ensures !Blocked(order'[k], revealed, marks) {
        if k < |order| {
          assert order'[k] == order[k];
        }
      }
    }
  }

  /** With nothing left to visit, the cells found are the least closed set. */
  lemma FillDone(result: set<int>, order: seq<int>, start: int, schema: seq<SchemaEntry>,
                 revealed: set<int>, marks: map<int, Mark>, around: int -> set<int>)
    requires FillInvariant(result, {}, order, start, schema, revealed, marks, around)
    ensures IsLeastClosed(result, start, schema, revealed, marks, around)
  {
    forall s | Closed(s, start, schema, revealed, marks, around) ensures result <= s {
      GroundedInClosed(order, |order|, s, start, schema, revealed, marks, around);
      forall x | x in result ensures x in s {
        var k :| 0 <= k < |order| && order[k] == x;
      }
    }
  }

  /**
   * `indexesToReveal`: the recursive `revealField` of the source, run with an
   * explicit set of cells still to visit.
   */
  method IndexesToReveal(index: int, schema: seq<SchemaEntry>, revealed: set<int>,
                         marks: map<int, Mark>, m: Matrix) returns (result: set<int>)
    requires ValidMatrix(m)
    ensures IsRevealResult(result, index, schema, revealed, marks, m)
  {
    ghost var around := Around(m);
    result := {};
    var pending := {index};
    ghost var order: seq<int> := [];
    ghost var universe := {index} + Cells(m);
    while pending != {}
      invariant result <= universe && pending <= universe
      invariant FillInvariant(result, pending, order, index, schema, revealed, marks, around)
      decreases universe - result, pending
    {
      ghost var some := Member(pending);
      var c :| c in pending;
      if c !in result && !Blocked(c, revealed, marks) {
        var queued := {};
        if IsZero(schema, c) {
          queued := IndexesAroundInMatrix(c, m);
          IndexesAroundInMatrixInGrid(c, m);
        }
        assert FillInvariant(result + {c}, (pending - {c}) + queued, order + [c], index, schema, revealed, marks, around) by {
          FillAdd(result, pending, order, c, queued, index, schema, revealed, marks, around);
        }
        assert result + {c} <= universe && (pending - {c}) + queued <= universe;
        pending := (pending - {c}) + queued;
        result := result + {c};
        order := order + [c];
      } else {
        assert FillInvariant(result, pending - {c}, order, index, schema, revealed, marks, around) by {
          FillSkip(result, pending, order, c, index, schema, revealed, marks, around);
        }
        pending := pending - {c};
      }
    }
    FillDone(result, order, index, schema, revealed, marks, around);
  }

  // ---------------------------------------------------------------------------
  // What one click uncovers

  /** Only one set of cells is the result of a click. */
  lemma RevealResultUnique(r1: set<int>, r2: set<int>, start: int, schema: seq<SchemaEntry>, revealed: set<int>,
                           marks: map<int, Mark>, around: int -> set<int>)
    requires IsLeastClosed(r1, start, schema, revealed, marks, around)
    requires IsLeastClosed(r2, start, schema, revealed, marks, around)
    ensures r1 == r2
  {
    assert r1 <= r2 && r2 <= r1;
  }

  /** The fill never uncovers a cell that is already uncovered or flagged. */
  lemma RevealAvoidsBlocked(r: set<int>, start: int, schema: seq<SchemaEntry>, revealed: set<int>,
                            marks: map<int, Mark>, around: int -> set<int>)
    requires IsLeastClosed(r, start, schema, revealed, marks, around)
    ensures forall x :: x in r ==> !Blocked(x, revealed, marks)
  {
    var s := set x | x in r && !Blocked(x, revealed, marks);
    assert Closed(s, start, schema, revealed, marks, around);
    assert r <= s;
  }

  /** The clicked cell is uncovered exactly when it is neither uncovered nor flagged. */
  lemma RevealContainsStart(r: set<int>, start: int, schema: seq<SchemaEntry>, revealed: set<int>,
                            marks: map<int, Mark>, around: int -> set<int>)
    requires IsLeastClosed(r, start, schema, revealed, marks, around)
    ensures start in r <==> !Blocked(start, revealed, marks)
  {
    RevealAvoidsBlocked(r, start, schema, revealed, marks, around);
  }

  /** Clicking an uncovered or flagged cell uncovers nothing. */
  lemma RevealBlockedStart(r: set<int>, start: int, schema: seq<SchemaEntry>, revealed: set<int>,
                           marks: map<int, Mark>, around: int -> set<int>)
    requires IsLeastClosed(r, start, schema, revealed, marks, around)
    requires Blocked(start, revealed, marks)
    ensures r == {}
  {
    assert Closed({}, start, schema, revealed, marks, around);
  }

  /** A hidden cell with bombs around it (or a bomb) uncovers only itself. */
  lemma RevealNonZeroStart(r: set<int>, start: int, schema: seq<SchemaEntry>, revealed: set<int>,
                           marks: map<int, Mark>, around: int -> set<int>)
    requires IsLeastClosed(r, start, schema, revealed, marks, around)
    requires !Blocked(start, revealed, marks) && !IsZero(schema, start)
    ensures r == {start}
  {
    assert Closed({start}, start, schema, revealed, marks, around);
  }

  /**
   * Every uncovered cell other than the clicked one is a neighbour of an
   * uncovered zero cell: the fill spreads only through cells with no bomb around.
   */
  lemma RevealSpreadsFromZeros(r: set<int>, start: int, schema: seq<SchemaEntry>, revealed: set<int>,
                               marks: map<int, Mark>, around: int -> set<int>)
    requires IsLeastClosed(r, start, schema, revealed, marks, around)
    ensures forall x :: x in r && x != start ==>
              exists c :: c in r && IsZero(schema, c) && x in around(c)
  {
    var s := set x | x in r && (x == start || exists c :: c in r && IsZero(schema, c) && x in around(c));
    assert Closed(s, start, schema, revealed, marks, around) by {
      forall c, n | c in s && IsZero(schema, c) && n in around(c)
        ensures n in s || Blocked(n, revealed, marks)
      {
        if n in r {
          assert c in r && IsZero(schema, c) && n in around(c);
        }
      }
    }
    assert r <= s;
  }

  /** A click uncovers cells of the grid only, apart from the clicked index itself. */
  lemma RevealInGrid(r: set<int>, start: int, schema: seq<SchemaEntry>, revealed: set<int>,
                     marks: map<int, Mark>, m: Matrix)
    requires ValidMatrix(m)
    requires IsRevealResult(r, start, schema, revealed, marks, m)
    ensures r <= {start} + Cells(m)
  {
    var s := set x | x in r && (x == start || x in Cells(m));
    assert Closed(s, start, schema, revealed, marks, Around(m)) by {
      forall c, n | c in s && IsZero(schema, c) && n in Around(m)(c)
        ensures n in s || Blocked(n, revealed, marks)
      {
        IndexesAroundInMatrixInGrid(c, m);
      }
    }
    assert r <= s;
  }

  /** Clicking the same cell again, once its result is uncovered, uncovers nothing. */
  lemma RevealIdempotent(r: set<int>, r': set<int>, start: int, schema: seq<SchemaEntry>, revealed: set<int>,
                         marks: map<int, Mark>, around: int -> set<int>)
    requires IsLeastClosed(r, start, schema, revealed, marks, around)
    requires IsLeastClosed(r', start, schema, revealed + r, marks, around)
    ensures r' == {}
  {
    RevealContainsStart(r, start, schema, revealed, marks, around);
    RevealBlockedStart(r', start, schema, revealed + r, marks, around);
  }
}
