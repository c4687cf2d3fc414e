/**
 * The motion history: a hit counter per grid cell, updated once per
 * analysed frame pair. These functions are the specification the
 * detector's in-place map updates are proved against.
 */
module Persistence {
  import opened Frames
  import opened Grid

  /** A cell is reported once its counter reaches this value. */
  const MotionPersistenceThreshold: int := 2

  /** motionHistoryMap, keyed by the cell instead of its "gx_gy" string. */
  type History = map<Cell, int>

  /** Counters are never negative and keys are grid cells. */
  predicate WellFormed(m: History)
  {
    forall k :: k in m ==> IsGridCell(k) && m[k] >= 0
  }

  /** motionHistoryMap[key] ?: 0 */
  function CountOf(m: History, k: Cell): int
  {
    if k in m then m[k] else 0
  }

  /** The entry for k is present in r exactly when in m, with the same count. */
  predicate SameAt(m: History, r: History, k: Cell)
  {
    (k in r <==> k in m) && (k in m ==> r[k] == m[k])
  }

  function Decremented(count: int): int
  {
    if count > 0 then count - 1 else count
  }

  /** What decrementMotionHistory leaves: every counter lowered with floor
      zero, then the entries that are zero removed. */
  function Decay(m: History): History
  {
    map k | k in m && Decremented(m[k]) != 0 :: Decremented(m[k])
  }

  /** Decay lowers every counter by one; an entry survives iff its counter
      was at least 2; no key is added. */
  lemma DecayEffect(m: History)
    requires WellFormed(m)
    ensures WellFormed(Decay(m))
    ensures Decay(m).Keys <= m.Keys
    ensures forall k :: k in m ==> (k in Decay(m) <==> m[k] >= 2)
    ensures forall k :: k in Decay(m) ==> Decay(m)[k] == m[k] - 1
  {
  }

  /** The update of one cell in the grid pass: a qualifying cell gains one
      (an absent key counting as 0); otherwise a positive counter loses one
      and a zero or absent one is left alone. */
  function CellStep(m: History, c: Cell, qualifies: bool): History
  {
    if qualifies then m[c := CountOf(m, c) + 1]
    else if CountOf(m, c) > 0 then m[c := CountOf(m, c) - 1]
    else m
  }

  /** The history after the first n cells of the row-major grid pass. */
  function GridPass(m: History, mask: seq<bool>, width: int, height: int, n: int): History
    requires 0 <= n <= CellTotal
    decreases n
  {
    if n == 0 then m
    else
      var c := CellAt(n - 1);
      CellStep(GridPass(m, mask, width, height, n - 1), c, CellQualifies(mask, width, height, c))
  }

  /** The history after the whole grid pass. */
  function GridUpdate(m: History, mask: seq<bool>, width: int, height: int): History
  {
    GridPass(m, mask, width, height, CellTotal)
  }

  /** The effect of CellStep on the entry of k, comparing r with m. */
  predicate PassedCell(m: History, r: History, k: Cell, qualifies: bool)
  {
    && (qualifies ==> k in r && r[k] == CountOf(m, k) + 1)
    && (!qualifies && CountOf(m, k) > 0 ==> k in r && r[k] == CountOf(m, k) - 1)
    && (!qualifies && CountOf(m, k) <= 0 ==> SameAt(m, r, k))
  }

  lemma {:induction false} GridPassAt(m: History, mask: seq<bool>, width: int, height: int, n: int, k: Cell)
    requires 0 <= n <= CellTotal
    ensures IsGridCell(k) && CellIndex(k) < n
        ==> PassedCell(m, GridPass(m, mask, width, height, n), k, CellQualifies(mask, width, height, k))
    ensures !(IsGridCell(k) && CellIndex(k) < n) ==> SameAt(m, GridPass(m, mask, width, height, n), k)
    decreases n
  {
    if n > 0 {
      GridPassAt(m, mask, width, height, n - 1, k);
      var c := CellAt(n - 1);
      if k == c {
        assert IsGridCell(k) && CellIndex(k) == n - 1;
      } else if IsGridCell(k) {
        CellIndexInjective(k);
      }
    }
  }

  /** The grid pass in full: every grid cell gets exactly its CellStep and
      no other key changes; keys stay grid cells and counters stay >= 0. */
  lemma GridUpdateEffect(m: History, mask: seq<bool>, width: int, height: int)
    requires WellFormed(m)
    ensures WellFormed(GridUpdate(m, mask, width, height))
    ensures forall k :: IsGridCell(k) ==>
      PassedCell(m, GridUpdate(m, mask, width, height), k, CellQualifies(mask, width, height, k))
    ensures forall k :: !IsGridCell(k) ==> SameAt(m, GridUpdate(m, mask, width, height), k)
  {
    var r := GridUpdate(m, mask, width, height);
    forall k
      ensures IsGridCell(k) ==> PassedCell(m, r, k, CellQualifies(mask, width, height, k))
      ensures !IsGridCell(k) ==> SameAt(m, r, k)
      ensures k in r ==> IsGridCell(k) && r[k] >= 0
    {
      GridPassAt(m, mask, width, height, CellTotal, k);
      if IsGridCell(k) {
        CellIndexInjective(k);
      }
    }
  }

  /** A zero counter left by an earlier pass can stay in the map: a cell at 1
      that does not qualify drops to 0 and is not removed. */
  lemma ZeroEntryKept(m: History, mask: seq<bool>, width: int, height: int, c: Cell)
    requires WellFormed(m) && IsGridCell(c) && c in m && m[c] <= 1
    requires !CellQualifies(mask, width, height, c)
    ensures c in GridUpdate(m, mask, width, height) && GridUpdate(m, mask, width, height)[c] == 0
  {
    GridUpdateEffect(m, mask, width, height);
  }

  /** The cells reported as active: counter at least the persistence threshold. */
  function ActiveCells(m: History): set<Cell>
  {
    set k | k in m && m[k] >= MotionPersistenceThreshold
  }

  /** The history after one analysed tick: the grid pass when there is
      basic motion, the global decay otherwise. */
  function Tick(m: History, basic: bool, mask: seq<bool>, width: int, height: int): History
  {
    if basic then GridUpdate(m, mask, width, height) else Decay(m)
  }

  /** What detectAdvancedMotion returns after its update: false without basic
      motion, otherwise whether some counter reached the threshold. */
  predicate Reported(m: History, basic: bool)
  {
    basic && ActiveCells(m) != {}
  }

  /** A counter that was at least 3 is still active after a tick without
      basic motion; that tick nevertheless reports no motion, since
      DetectAdvancedMotion returns Reported(history, false). */
  lemma DecayKeepsHighCounters(m: History, k: Cell)
    requires WellFormed(m) && k in m && m[k] >= MotionPersistenceThreshold + 1
    ensures k in ActiveCells(Decay(m))
  {
    DecayEffect(m);
  }

  lemma TickPreservesWellFormed(m: History, basic: bool, mask: seq<bool>, width: int, height: int)
    requires WellFormed(m)
    ensures WellFormed(Tick(m, basic, mask, width, height))
  {
    if basic {
      GridUpdateEffect(m, mask, width, height);
    } else {
      DecayEffect(m);
    }
  }

  /** A counter grows by at most one per tick. */
  lemma TickGrowsByAtMostOne(m: History, basic: bool, mask: seq<bool>, width: int, height: int, k: Cell)
    requires WellFormed(m)
    ensures CountOf(Tick(m, basic, mask, width, height), k) <= CountOf(m, k) + 1
  {
    if basic {
      GridUpdateEffect(m, mask, width, height);
      if IsGridCell(k) {
        assert PassedCell(m, GridUpdate(m, mask, width, height), k, CellQualifies(mask, width, height, k));
      } else {
        assert SameAt(m, GridUpdate(m, mask, width, height), k);
      }
    } else {
      DecayEffect(m);
    }
  }

  /** From an empty history nothing is reported after one tick, and a cell
      is active after two ticks iff both ticks had basic motion and the cell
      qualified in both. */
  lemma TwoTicksFromEmpty(b1: bool, mask1: seq<bool>, b2: bool, mask2: seq<bool>,
                          width: int, height: int, c: Cell)
    ensures ActiveCells(Tick(map[], b1, mask1, width, height)) == {}
    ensures c in ActiveCells(Tick(Tick(map[], b1, mask1, width, height), b2, mask2, width, height))
        <==> b1 && b2 && IsGridCell(c)
             && CellQualifies(mask1, width, height, c) && CellQualifies(mask2, width, height, c)
  {
    var empty: History := map[];
    var m1 := Tick(empty, b1, mask1, width, height);
    var m2 := Tick(m1, b2, mask2, width, height);
    var q1, q2 := CellQualifies(mask1, width, height, c), CellQualifies(mask2, width, height, c);
    TickPreservesWellFormed(empty, b1, mask1, width, height);
    if b1 {
      GridUpdateEffect(empty, mask1, width, height);
    }
    // after one tick every counter is 1, held by a cell that qualified
    forall k | k in m1
      ensures m1[k] == 1 && b1 && CellQualifies(mask1, width, height, k)
    {
      assert IsGridCell(k);
    }
    assert b1 && IsGridCell(c) && q1 ==> c in m1;
    if b2 {
      GridUpdateEffect(m1, mask2, width, height);
      if IsGridCell(c) {
        assert PassedCell(m1, m2, c, q2);
      } else {
        assert SameAt(m1, m2, c);
      }
    } else {
      DecayEffect(m1);
    }
  }

  /** The history after j ticks without basic motion. */
  function DecayTimes(m: History, j: nat): History
  {
    if j == 0 then m else Decay(DecayTimes(m, j - 1))
  }

  /** A cell with counter n > 0 survives exactly n - 1 ticks without basic
      motion, losing one each time, and is pruned at the n-th. */
  lemma {:induction false} RepeatedDecay(m: History, k: Cell, j: nat)
    requires WellFormed(m) && k in m && m[k] >= 1
    ensures WellFormed(DecayTimes(m, j))
    ensures k in DecayTimes(m, j) <==> j < m[k]
    ensures j < m[k] ==> DecayTimes(m, j)[k] == m[k] - j
  {
    if j > 0 {
      RepeatedDecay(m, k, j - 1);
      DecayEffect(DecayTimes(m, j - 1));
      if k !in DecayTimes(m, j - 1) {
        assert k !in DecayTimes(m, j);
      }
    }
  }
}
