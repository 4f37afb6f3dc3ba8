/** The tidy controller (`tidy_monitor` and its three persisted globals): repeated
    invocations on an unchanged window set first rotate which window sits in which grid
    slot and, once the rotations are used up, move on to the next grid alternative; any
    change of the window set starts over at grid 0, rotation 0. */
module Controller {
  import opened Wrappers
  import opened Windows
  import opened Layouts

  /** The grid configuration: for a window count, its alternative grids. */
  type Grids = map<int, seq<Grid>>

  /** The lookups of the configuration that fail in the source (a missing key, a modulo by
      an empty list, an index past the end of the list). */
  datatype ConfigError =
    | NoGridsFor(count: int)
    | NoAlternatives(count: int)
    | NoSuchAlternative(count: int, index: nat)

  /** `_grid_index` and `_rotate_index`. */
  datatype Counters = Counters(grid: nat, rotate: nat)

  /** What one invocation does: nothing; or it leaves the counters at `counters`, shifts
      the captured order by `shift` (0 when it does not rotate) and then either applies
      `grid` or stops at a configuration error. */
  datatype Decision =
    | Skip
    | Apply(counters: Counters, shift: nat, grid: Grid)
    | Abort(counters: Counters, shift: nat, error: ConfigError)

  /** The window count trimmed to the number of configured window counts. */
  function TrimmedCount(count: nat, grids: Grids): (w: nat)
    ensures w <= count && w <= |grids|
    ensures w == count || w == |grids|
  {
    if count > |grids| then |grids| else count
  }

  /** `conf.GRIDS[wnd_count][_grid_index]`, or the error that lookup raises. */
  function Select(c: Counters, shift: nat, w: nat, grids: Grids): (d: Decision)
    ensures d.Apply? <==> w in grids && c.grid < |grids[w]|
    ensures d.Apply? ==> d.grid == grids[w][c.grid]
    ensures !d.Skip? && d.counters == c && d.shift == shift
  {
    if w !in grids then Abort(c, shift, NoGridsFor(w))
    else if c.grid >= |grids[w]| then Abort(c, shift, NoSuchAlternative(w, c.grid))
    else Apply(c, shift, grids[w][c.grid])
  }

  /** One invocation of `tidy_monitor`, given the counters before it, whether the captured
      layout equals the previous one, the number of windows captured, whether the foreground
      window is maximized, and the grid configuration. */
  function Decide(c: Counters, same: bool, count: nat, foregroundMaximized: bool, grids: Grids): (d: Decision)
    ensures d.Skip? <==> count < 1 || (count == 1 && foregroundMaximized)
    ensures d.Apply? ==> TrimmedCount(count, grids) in grids &&
                         d.counters.grid < |grids[TrimmedCount(count, grids)]|
    ensures !d.Skip? && !same ==> d.counters == Counters(0, 0) && d.shift == 0
    ensures !d.Skip? && same && c.rotate + 1 != count ==>
              d.counters == Counters(c.grid, c.rotate + 1) && d.shift == c.rotate + 1
    ensures !d.Skip? && same && c.rotate + 1 == count ==>
              d.counters.rotate == 0 && d.shift == 0 &&
              (TrimmedCount(count, grids) in grids && |grids[TrimmedCount(count, grids)]| > 0 ==>
                 d.Apply? && d.counters.grid == (c.grid + 1) % |grids[TrimmedCount(count, grids)]|)
    ensures !d.Skip? ==> (d.Apply? <==> TrimmedCount(count, grids) in grids &&
                                         d.counters.grid < |grids[TrimmedCount(count, grids)]|)
    ensures !d.Skip? && same && c.rotate + 1 == count && d.Abort? ==> d.counters.grid == c.grid
    ensures d.Apply? ==> d.grid == grids[TrimmedCount(count, grids)][d.counters.grid]
  {
    if count < 1 || (count == 1 && foregroundMaximized) then Skip
    else
      var w := TrimmedCount(count, grids);
      if !same then Select(Counters(0, 0), 0, w, grids)
      else if c.rotate + 1 != count then Select(Counters(c.grid, c.rotate + 1), c.rotate + 1, w, grids)
      else if w !in grids then Abort(Counters(c.grid, 0), 0, NoGridsFor(w))
      else if |grids[w]| == 0 then Abort(Counters(c.grid, 0), 0, NoAlternatives(w))
      else Select(Counters((c.grid + 1) % |grids[w]|, 0), 0, w, grids)
  }

  /** The counters after one more invocation on an unchanged layout of `count` windows
      whose foreground window is not maximized. */
  function Press(c: Counters, count: nat, grids: Grids): Counters {
    match Decide(c, true, count, false, grids)
    case Skip => c
    case Apply(c', _, _) => c'
    case Abort(c', _, _) => c'
  }

  /** The counters after `k` such invocations. */
  function Presses(c: Counters, count: nat, grids: Grids, k: nat): Counters
    decreases k
  {
    if k == 0 then c else Press(Presses(c, count, grids, k - 1), count, grids)
  }

  /** The configuration has `alts` alternatives for `count` windows (after trimming). */
  predicate Configured(count: nat, grids: Grids, alts: nat) {
    TrimmedCount(count, grids) in grids && |grids[TrimmedCount(count, grids)]| == alts
  }

  /** Starting at rotation 0 of grid `g`, an unchanged window set of `count` windows is
      shown with shift `k` after the `k`-th further invocation for every `k < count`;
      the `count`-th invocation moves on to the next grid alternative at rotation 0. */
  lemma {:induction false} RotationsThenNextGrid(g: nat, count: nat, grids: Grids, alts: nat, k: nat)
    requires 1 <= count && 0 < alts && g < alts && Configured(count, grids, alts)
    requires k <= count
    ensures k < count ==> Presses(Counters(g, 0), count, grids, k) == Counters(g, k)
    ensures k < count && 0 < k ==>
              Decide(Counters(g, k - 1), true, count, false, grids) ==
              Apply(Counters(g, k), k, grids[TrimmedCount(count, grids)][g])
    ensures k == count ==> Presses(Counters(g, 0), count, grids, k) == Counters((g + 1) % alts, 0)
    ensures k == count ==>
              Decide(Counters(g, count - 1), true, count, false, grids) ==
              Apply(Counters((g + 1) % alts, 0), 0, grids[TrimmedCount(count, grids)][(g + 1) % alts])
    decreases k
  {
    if k > 0 {
      RotationsThenNextGrid(g, count, grids, alts, k - 1);
    }
  }

  /** The first press after the window set changed (or on the very first call) starts
      over: grid 0 of the configured alternatives, rotation 0, the order as enumerated. */
  lemma ChangedLayoutAppliesFirstGrid(c: Counters, count: nat, foregroundMaximized: bool, grids: Grids, alts: nat)
    requires 1 <= count && !(count == 1 && foregroundMaximized)
    requires 0 < alts && Configured(count, grids, alts)
    ensures Decide(c, false, count, foregroundMaximized, grids) ==
            Apply(Counters(0, 0), 0, grids[TrimmedCount(count, grids)][0])
  {
  }

  /** `Presses` composes. */
  lemma {:induction false} PressesAdd(c: Counters, count: nat, grids: Grids, a: nat, b: nat)
    ensures Presses(c, count, grids, a + b) == Presses(Presses(c, count, grids, a), count, grids, b)
    decreases b
  {
    if b > 0 {
      PressesAdd(c, count, grids, a, b - 1);
    }
  }

  /** `(g + 1) mod alts` for a valid alternative `g`: the next one, wrapping to 0 after the last. */
  lemma NextAlternative(g: nat, alts: nat)
    requires g < alts
    ensures (g + 1) % alts == if g + 1 == alts then 0 else g + 1
  {
  }

  /** On an unchanged window set, every `count` invocations advance to the next grid
      alternative: after `j * count` of them the controller is at alternative `g + j`,
      rotation 0, and after the last alternative it wraps round to alternative 0. */
  lemma {:induction false} GridsComeRound(g: nat, count: nat, grids: Grids, alts: nat, j: nat)
    requires 1 <= count && g + j <= alts && g < alts && Configured(count, grids, alts)
    ensures Presses(Counters(g, 0), count, grids, j * count) ==
            Counters(if g + j == alts then 0 else g + j, 0)
    decreases j
  {
    if j > 0 {
      GridsComeRound(g, count, grids, alts, j - 1);
      assert (j - 1) * count + count == j * count;
      PressesAdd(Counters(g, 0), count, grids, (j - 1) * count, count);
      RotationsThenNextGrid(g + j - 1, count, grids, alts, count);
      NextAlternative(g + j - 1, alts);
    }
  }

  class TidyController {
    var gridIndex: nat
    var rotateIndex: nat
    /** `_prev_layout`: the window map of the layout captured after the last tidy (all that
        layout equality reads), or `None`. */
    var prevLayout: Option<map<Handle, Window>>

    /** The module's initial values. */
    constructor ()
      ensures gridIndex == 0 && rotateIndex == 0 && prevLayout == None
    {
      gridIndex, rotateIndex, prevLayout := 0, 0, None;
    }

    /** The counter update of `tidy_monitor` on a layout it does not skip: rotate on an
        unchanged layout (moving to the next grid alternative once the rotations are used
        up), start over on a changed one. An error is a lookup that fails before the
        grid is selected. */
    method Advance(cur: WindowLayout, same: bool, count: nat, foregroundMaximized: bool, w: nat, grids: Grids)
      returns (shift: nat, error: Option<ConfigError>)
      requires cur.Valid() && count == |cur.windows|
      requires 1 <= count && !(count == 1 && foregroundMaximized) && w == TrimmedCount(count, grids)
      modifies this, cur`order
      ensures cur.Valid() && cur.windows == old(cur.windows)
      ensures cur.order == Rotated(old(cur.order), shift)
      ensures prevLayout == if same then old(prevLayout) else None
      ensures var before := Decide(Counters(old(gridIndex), old(rotateIndex)), same, count, foregroundMaximized, grids);
              if error.Some? then before == Abort(Counters(gridIndex, rotateIndex), shift, error.value)
              else before == Select(Counters(gridIndex, rotateIndex), shift, w, grids)
    {
      shift := 0;
      error := None;
      if same {
        rotateIndex := rotateIndex + 1;
        var noMoreRotations := cur.Rotate(rotateIndex);
        if noMoreRotations {
          rotateIndex := 0;
          RotatedByNothing(old(cur.order));
          if w !in grids {
            error := Some(NoGridsFor(w));
            return;
          }
          if |grids[w]| == 0 {
            error := Some(NoAlternatives(w));
            return;
          }
          gridIndex := (gridIndex + 1) % |grids[w]|;
        } else {
          shift := rotateIndex;
        }
      } else {
        gridIndex := 0;
        rotateIndex := 0;
        prevLayout := None;
        RotatedByNothing(old(cur.order));
      }
    }

    /** `tidy_monitor`, on the layout captured for the focused monitor (`cur`), the placement
        of the foreground window, the grid configuration, and the layout the host captures
        again once the commands have been carried out (`recaptured`). */
    method TidyMonitor(cur: WindowLayout, foreground: Placement, grids: Grids, recaptured: WindowLayout)
      returns (d: Decision, effects: seq<Effect>)
      requires cur.Valid()
      modifies this, cur`order
      ensures cur.Valid() && cur.windows == old(cur.windows)
      ensures var same := old(prevLayout).Some? && SameWindows(old(prevLayout).value, cur.windows);
              d == Decide(Counters(old(gridIndex), old(rotateIndex)), same, |cur.windows|,
                          foreground == Maximized, grids)
      ensures d.Skip? ==> && gridIndex == old(gridIndex) && rotateIndex == old(rotateIndex)
                          && prevLayout == old(prevLayout) && cur.order == old(cur.order) && effects == []
      ensures !d.Skip? ==> Counters(gridIndex, rotateIndex) == d.counters
                           && cur.order == Rotated(old(cur.order), d.shift)
      ensures d.Apply? ==> && effects == PlacementCommands(cur.order, d.grid, cur.monitor.working)
                           && prevLayout == Some(recaptured.windows)
      ensures d.Abort? ==> && effects == []
                           && prevLayout == if old(prevLayout).Some? && SameWindows(old(prevLayout).value, cur.windows)
                                            then old(prevLayout) else None
    {
      effects := [];
      var count := cur.WindowCount();
      var same := prevLayout.Some? && SameWindows(prevLayout.value, cur.windows);
      if count < 1 {
        return Skip, effects;
      }
      if count == 1 && foreground == Maximized {
        return Skip, effects;
      }
      var wndCount := count;
      if count > |grids| {
        wndCount := |grids|;
      }
      var shift, error := Advance(cur, same, count, foreground == Maximized, wndCount, grids);
      if error.Some? {
        return Abort(Counters(gridIndex, rotateIndex), shift, error.value), effects;
      }
      if wndCount !in grids {
        return Abort(Counters(gridIndex, rotateIndex), shift, NoGridsFor(wndCount)), effects;
      }
      if gridIndex >= |grids[wndCount]| {
        return Abort(Counters(gridIndex, rotateIndex), shift, NoSuchAlternative(wndCount, gridIndex)), effects;
      }
      var gridConf := grids[wndCount][gridIndex];
      effects := cur.Tidy(gridConf);
      prevLayout := Some(recaptured.windows);
      d := Apply(Counters(gridIndex, rotateIndex), shift, gridConf);
    }
  }
}
