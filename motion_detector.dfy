/**
 * The motion-detection state of the camera view and its per-frame
 * pipeline: change mask, whole-frame test, grid pass over the history
 * map, decay, and the persistent regions handed to the overlay.
 */
module MotionDetection {
  import opened Wrappers
  import opened Frames
  import opened Grid
  import opened RegionKey
  import opened Persistence

  /** What one processFrame call amounts to. */
  datatype TickOutcome =
    | Ignored                                     // detection off or view detached
    | BaselineStored                              // first frame: nothing to compare
    | BaselineReplaced                            // frame size changed
    | Analyzed(motion: bool, overlay: seq<Rect>)  // "Motion: Yes!"/"No" and the overlay regions

  /** cells lists the members of s, each once. */
  ghost predicate Enumerates(cells: seq<Cell>, s: set<Cell>)
  {
    && (forall i, j :: 0 <= i < j < |cells| ==> cells[i] != cells[j])
    && (forall k :: k in cells <==> k in s)
  }

  /** The change mask of two pixel arrays and the number of changed pixels
      (diffPixels and totalDiffPixels). */
  method ComputeDiff(pixels1: seq<int>, pixels2: seq<int>) returns (diffPixels: array<bool>, totalDiffPixels: nat)
    requires |pixels1| == |pixels2|
    ensures fresh(diffPixels)
    ensures diffPixels[..] == DiffMask(pixels1, pixels2)
    ensures totalDiffPixels == ChangedCount(pixels1, pixels2)
  {
    diffPixels := new bool[|pixels1|];
    totalDiffPixels := 0;
    var i := 0;
    while i < |pixels1|
      invariant 0 <= i <= |pixels1|
      invariant diffPixels[..i] == DiffMask(pixels1, pixels2)[..i]
      invariant totalDiffPixels == CountTrue(diffPixels[..i])
    {
      if Abs(pixels1[i] - pixels2[i]) > PixelDifferenceThreshold {
        diffPixels[i] := true;
        totalDiffPixels := totalDiffPixels + 1;
      } else {
        diffPixels[i] := false;
      }
      assert diffPixels[..i + 1][..i] == diffPixels[..i];
      i := i + 1;
    }
    assert diffPixels[..] == diffPixels[..i];
  }

  /** cellMotionPixels: the changed pixels of [startX, endX) x [startY, endY),
      each index checked against the size of the mask. */
  method CountCellMotion(diffPixels: array<bool>, width: int, startX: int, endX: int, startY: int, endY: int)
    returns (cellMotionPixels: nat)
    requires 0 <= startX && 0 <= startY && 0 <= width
    ensures cellMotionPixels == RectCount(diffPixels[..], width, startX, endX, startY, endY)
  {
    cellMotionPixels := 0;
    var y := startY;
    while y < endY
      invariant startY <= y && (y <= endY || y == startY)
      invariant cellMotionPixels == RectCount(diffPixels[..], width, startX, endX, startY, y)
    {
      var x := startX;
      while x < endX
        invariant startX <= x && (x <= endX || x == startX)
        invariant cellMotionPixels == RectCount(diffPixels[..], width, startX, endX, startY, y)
                                      + RowCount(diffPixels[..], width, y, startX, x)
      {
        var index := y * width + x;
        assert 0 <= index by {
          MulMonotone(0, y, width);
        }
        if index < diffPixels.Length && diffPixels[index] {
          cellMotionPixels := cellMotionPixels + 1;
        }
        x := x + 1;
      }
      y := y + 1;
    }
  }

  class MotionDetector {
    /** isMotionDetectionActive */
    var active: bool
    /** previousBitmap: the downscaled grayscale baseline */
    var previous: Option<Frame>
    /** motionHistoryMap */
    var history: History
    /** motionRegions: the qualifying cells of the last grid pass */
    var regions: seq<Rect>

    ghost predicate Valid()
      reads this
    {
      && WellFormed(history)
      && (previous.Some? ==> previous.value.Valid())
      && (!active ==> previous == None && history == map[] && regions == [])
    }

    /** The state of a freshly created view: detection off, nothing held. */
    constructor ()
      ensures Valid()
      ensures !active && previous == None && history == map[] && regions == []
    {
      active := false;
      previous := None;
      history := map[];
      regions := [];
    }

    /** startMotionDetection: acts only when off and the view is attached. */
    method Start(attached: bool)
      requires Valid()
      modifies this
      ensures Valid()
      ensures if !old(active) && attached
              then active && previous == None && history == map[] && regions == []
              else unchanged(this)
    {
      if !active && attached {
        active := true;
        previous := None;
        history := map[];
        regions := [];
      }
    }

    /** stopMotionDetection: acts only when on; afterwards detection is off and
        nothing is held, so a second call changes nothing. */
    method Stop()
      requires Valid()
      modifies this
      ensures Valid()
      ensures !active && previous == None && history == map[] && regions == []
      ensures !old(active) ==> unchanged(this)
    {
      if active {
        active := false;
        previous := None;
        history := map[];
        regions := [];
      }
    }

    /** decrementMotionHistory: lower every counter (floor 0) while collecting
        the keys that reach zero, then remove them. */
    method DecrementMotionHistory()
      modifies this
      ensures history == Decay(old(history))
      ensures active == old(active) && previous == old(previous) && regions == old(regions)
    {
      ghost var before := history;
      var keysToRemove: seq<Cell> := [];
      var remaining := history.Keys;
      while remaining != {}
        invariant remaining <= before.Keys
        invariant history.Keys == before.Keys
        invariant forall k :: k in remaining ==> history[k] == before[k]
        invariant forall k :: k in before && k !in remaining ==> history[k] == Decremented(before[k])
        invariant forall k :: k in keysToRemove <==> k in before && k !in remaining && Decremented(before[k]) == 0
        invariant active == old(active) && previous == old(previous) && regions == old(regions)
        decreases remaining
      {
        var key :| key in remaining;
        var count := history[key];
        if count > 0 {
          history := history[key := count - 1];
        }
        if history[key] == 0 {
          keysToRemove := keysToRemove + [key];
        }
        remaining := remaining - {key};
      }
      ghost var decremented := history;
      var i := 0;
      while i < |keysToRemove|
        invariant 0 <= i <= |keysToRemove|
        invariant history == decremented - (set j | 0 <= j < i :: keysToRemove[j])
        invariant active == old(active) && previous == old(previous) && regions == old(regions)
      {
        history := history - {keysToRemove[i]};
        assert (set j | 0 <= j < i + 1 :: keysToRemove[j])
            == (set j | 0 <= j < i :: keysToRemove[j]) + {keysToRemove[i]};
        i := i + 1;
      }
      assert (set j | 0 <= j < i :: keysToRemove[j]) == (set k | k in keysToRemove);
      assert history.Keys == Decay(before).Keys;
    }

    /** Step 3 of detectAdvancedMotion: walk the history map, note whether some
        counter reaches the persistence threshold, and for each such key parse
        "gx_gy" back and add that cell's rectangle. */
    method CollectActiveRegions(width: int, height: int)
      returns (persistentMotionDetected: bool, activeMotionRegions: seq<Rect>, ghost cells: seq<Cell>)
      requires WellFormed(history)
      ensures persistentMotionDetected <==> ActiveCells(history) != {}
      ensures Enumerates(cells, ActiveCells(history))
      ensures activeMotionRegions == RectsOf(cells, width, height)
    {
      persistentMotionDetected := false;
      activeMotionRegions := [];
      cells := [];
      var remaining := history.Keys;
      while remaining != {}
        invariant remaining <= history.Keys
        invariant persistentMotionDetected <==> |cells| > 0
        invariant forall k :: k in cells <==> k in history && k !in remaining && history[k] >= MotionPersistenceThreshold
        invariant forall i, j :: 0 <= i < j < |cells| ==> cells[i] != cells[j]
        invariant activeMotionRegions == RectsOf(cells, width, height)
        decreases remaining
      {
        var regionKey :| regionKey in remaining;
        var count := history[regionKey];
        if count >= MotionPersistenceThreshold {
          persistentMotionDetected := true;
          KeyRoundTrip(regionKey.0, regionKey.1);
          var parts := Split(KeyString(regionKey.0, regionKey.1), '_');
          if |parts| == 2 {
            var gridX, gridY := ParseInt(parts[0]), ParseInt(parts[1]);
            if gridX.Some? && gridY.Some? {
              RectsOfAppend(cells, regionKey, width, height);
              activeMotionRegions := activeMotionRegions + [CellRect((gridX.value, gridY.value), width, height)];
              cells := cells + [regionKey];
            }
          }
        }
        remaining := remaining - {regionKey};
      }
      if ActiveCells(history) != {} {
        var k :| k in ActiveCells(history);
        assert k in cells;
      }
      if |cells| > 0 {
        assert cells[0] in ActiveCells(history);
      }
    }

    /** detectAdvancedMotion. bmp1 is the baseline, bmp2 the current frame.
        The overlay is left alone (None) on a size mismatch, cleared (Some of
        an empty list) without basic motion, and otherwise given the rectangles
        of the cells whose counters reached the threshold. */
    method DetectAdvancedMotion(bmp1: Frame, bmp2: Frame)
      returns (detected: bool, overlay: Option<seq<Rect>>, ghost cells: seq<Cell>)
      requires WellFormed(history) && bmp1.Valid() && bmp2.Valid()
      modifies this
      ensures WellFormed(history)
      ensures active == old(active) && previous == old(previous)
      ensures !bmp1.SameSize(bmp2) ==>
        !detected && overlay == None && history == old(history) && regions == old(regions)
      ensures bmp1.SameSize(bmp2) ==>
        var width, height := bmp1.width, bmp1.height;
        var basic := BasicMotion(bmp1.pixels, bmp2.pixels, width, height);
        var mask := DiffMask(bmp1.pixels, bmp2.pixels);
        && history == Tick(old(history), basic, mask, width, height)
        && detected == Reported(history, basic)
        && Enumerates(cells, if basic then ActiveCells(history) else {})
        && overlay == Some(RectsOf(cells, width, height))
        && regions == (if basic then QualifyingRects(mask, width, height, CellTotal) else old(regions))
    {
      if bmp1.width != bmp2.width || bmp1.height != bmp2.height {
        return false, None, [];
      }
      var width := bmp1.width;
      var height := bmp1.height;
      var diffPixels, totalDiffPixels := ComputeDiff(bmp1.pixels, bmp2.pixels);
      var totalPixels := width * height;
      var basicMotionDetected := AtLeastPermille(totalDiffPixels, totalPixels, MotionAreaThresholdPermille);
      if !basicMotionDetected {
        DecrementMotionHistory();
        DecayEffect(old(history));
        return false, Some([]), [];
      }

      ghost var before := history;
      ghost var mask := diffPixels[..];
      IdentifyMotionRegions(diffPixels, width, height);
      GridUpdateEffect(before, mask, width, height);
      var activeMotionRegions;
      detected, activeMotionRegions, cells := CollectActiveRegions(width, height);
      overlay := Some(activeMotionRegions);
    }

    /** Step 2 of detectAdvancedMotion: the grid pass, cells visited row by
        row; motionRegions is rebuilt from the qualifying cells. */
    method IdentifyMotionRegions(diffPixels: array<bool>, width: int, height: int)
      requires width >= 0 && height >= 0
      modifies this
      ensures history == GridUpdate(old(history), diffPixels[..], width, height)
      ensures regions == QualifyingRects(diffPixels[..], width, height, CellTotal)
      ensures active == old(active) && previous == old(previous)
    {
      var cellWidth := width / GridCellsX;
      var cellHeight := height / GridCellsY;
      regions := [];
      ghost var before := history;
      ghost var mask := diffPixels[..];
      var gridY := 0;
      while gridY < GridCellsY
        invariant 0 <= gridY <= GridCellsY
        invariant history == GridPass(before, mask, width, height, gridY * GridCellsX)
        invariant regions == QualifyingRects(mask, width, height, gridY * GridCellsX)
        invariant active == old(active) && previous == old(previous)
      {
        var gridX := 0;
        while gridX < GridCellsX
          invariant 0 <= gridX <= GridCellsX
          invariant history == GridPass(before, mask, width, height, gridY * GridCellsX + gridX)
          invariant regions == QualifyingRects(mask, width, height, gridY * GridCellsX + gridX)
          invariant active == old(active) && previous == old(previous)
        {
          CellIndexInjective((gridX, gridY));
          UpdateCell(diffPixels, width, height, cellWidth, cellHeight, gridX, gridY);
          gridX := gridX + 1;
        }
        gridY := gridY + 1;
      }
    }

    /** The body of the grid loop for cell (gridX, gridY): count its changed
        pixels, and either record it as a motion region and raise its counter
        (absent counts as 0) or lower a positive counter. */
    method UpdateCell(diffPixels: array<bool>, width: int, height: int, cellWidth: int, cellHeight: int,
                      gridX: int, gridY: int)
      requires IsGridCell((gridX, gridY)) && width >= 0 && height >= 0
      requires cellWidth == CellWidth(width) && cellHeight == CellHeight(height)
      modifies this
      ensures history == CellStep(old(history), (gridX, gridY),
                                  CellQualifies(diffPixels[..], width, height, (gridX, gridY)))
      ensures regions == old(regions)
        + (if CellQualifies(diffPixels[..], width, height, (gridX, gridY))
           then [CellRect((gridX, gridY), width, height)] else [])
      ensures active == old(active) && previous == old(previous)
    {
      var startX := gridX * cellWidth;
      var startY := gridY * cellHeight;
      var endX := Min((gridX + 1) * cellWidth, width);
      var endY := Min((gridY + 1) * cellHeight, height);
      MulMonotone(0, gridX, cellWidth);
      MulMonotone(0, gridY, cellHeight);
      var cellMotionPixels := CountCellMotion(diffPixels, width, startX, endX, startY, endY);
      var cellTotalPixels := (endX - startX) * (endY - startY);
      if AtLeastPermille(cellMotionPixels, cellTotalPixels, 2 * MotionAreaThresholdPermille) {
        regions := regions + [Rect(startX, startY, endX, endY)];
        var currentCount := if (gridX, gridY) in history then history[(gridX, gridY)] else 0;
        history := history[(gridX, gridY) := currentCount + 1];
      } else {
        var currentCount := if (gridX, gridY) in history then history[(gridX, gridY)] else 0;
        if currentCount > 0 {
          history := history[(gridX, gridY) := currentCount - 1];
        }
      }
    }

    /** processFrame, given the size of the captured frame and the downscaled
        grayscale pixels of it (the resampling itself is a library call). */
    method ProcessFrame(attached: bool, fullWidth: int, fullHeight: int, scaledPixels: seq<int>)
      returns (outcome: TickOutcome, ghost reportedCells: seq<Cell>)
      requires Valid()
      requires fullWidth >= 1 && fullHeight >= 1
      requires Frame(ScaledDimension(fullWidth), ScaledDimension(fullHeight), scaledPixels).Valid()
      modifies this
      ensures Valid()
      ensures
        var current := Frame(ScaledDimension(fullWidth), ScaledDimension(fullHeight), scaledPixels);
        if !old(active) || !attached then
          outcome == Ignored && unchanged(this)
        else if old(previous).None? then
          && outcome == BaselineStored && active && previous == Some(current)
          && history == old(history) && regions == old(regions)
        else if !old(previous).value.SameSize(current) then
          && outcome == BaselineReplaced && active && previous == Some(current)
          && history == old(history) && regions == old(regions)
        else
          var baseline := old(previous).value;
          var basic := BasicMotion(baseline.pixels, current.pixels, current.width, current.height);
          var mask := DiffMask(baseline.pixels, current.pixels);
          && active && previous == Some(current)
          && history == Tick(old(history), basic, mask, current.width, current.height)
          && Enumerates(reportedCells, if basic then ActiveCells(history) else {})
          && outcome == Analyzed(Reported(history, basic), RectsOf(reportedCells, current.width, current.height))
          && regions == (if basic then QualifyingRects(mask, current.width, current.height, CellTotal)
                         else old(regions))
    {
      reportedCells := [];
      if !active || !attached {
        return Ignored, reportedCells;
      }
      var currentBitmap := Frame(ScaledDimension(fullWidth), ScaledDimension(fullHeight), scaledPixels);
      if previous.None? {
        previous := Some(currentBitmap);
        return BaselineStored, reportedCells;
      }
      var prevBmp := previous.value;
      if prevBmp.width != currentBitmap.width || prevBmp.height != currentBitmap.height {
        previous := Some(currentBitmap);
        return BaselineReplaced, reportedCells;
      }
      var motionDetected, overlay;
      motionDetected, overlay, reportedCells := DetectAdvancedMotion(prevBmp, currentBitmap);
      previous := Some(currentBitmap);
      outcome := Analyzed(motionDetected, overlay.value);
    }
  }

  lemma RectsOfAppend(cells: seq<Cell>, c: Cell, width: int, height: int)
    ensures RectsOf(cells + [c], width, height) == RectsOf(cells, width, height) + [CellRect(c, width, height)]
  {
  }
}
