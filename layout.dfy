/** The window layout of one monitor (`MyWindowLayout`): the eligible windows on it, kept
    both as a handle-to-window map and as an ordered handle list, with equality, rotation
    of the order and application of a grid. */
module Layouts {
  import opened Geometry
  import opened Monitors
  import opened Windows

  /** Titles the enumeration skips. */
  const ExcludedTitles: seq<string> := ["Start", "Program Manager", ""]

  /** One grid slot, `(x, y, width, height)` relative to the working area's top-left. */
  datatype Cell = Cell(x: int, y: int, w: int, h: int)

  type Grid = seq<Cell>

  predicate DistinctHandles(s: seq<Handle>) {
    forall i, j :: 0 <= i < j < |s| ==> s[i] != s[j]
  }

  /** Every window is stored under its own handle. */
  predicate Keyed(m: map<Handle, Window>) {
    forall h :: h in m ==> m[h].handle == h
  }

  function Handles(ws: seq<Window>): (hs: seq<Handle>)
    ensures |hs| == |ws| && forall i :: 0 <= i < |ws| ==> hs[i] == ws[i].handle
  {
    seq(|ws|, i requires 0 <= i < |ws| => ws[i].handle)
  }

  // ---------------------------------------------------------------------------
  // Enumeration filter

  /** The filter of `enum_wnd`: not minimized, visible, title not excluded, resizable, and
      resolved to the layout's monitor (compared as `Monitor.__eq__` does, by working area). */
  predicate Eligible(c: WindowFacts, ring: MonitorLayout, monitor: Monitor): (r: bool)
    requires ring.WellFormed()
    ensures r ==> c.wnd.title != "" && c.visible && !c.iconic
    ensures r ==> monitor.working == ring.Primary().working ||
                  Score(monitor.working, c.wnd.rect) > 0
  {
    ResolveMeaning(ring.Works(), ring.primaryIndex, c.wnd.rect);
    && !c.iconic && c.visible
    && c.wnd.title !in ExcludedTitles
    && c.resizable
    && ring.monitors[Resolve(ring.Works(), ring.primaryIndex, c.wnd.rect)].Equals(monitor)
  }

  /** The snapshots the enumeration keeps, in enumeration order. */
  function Captured(cs: seq<WindowFacts>, ring: MonitorLayout, monitor: Monitor): (ws: seq<Window>)
    requires ring.WellFormed()
    ensures |ws| <= |cs|
  {
    if cs == [] then []
    else
      var c := cs[|cs| - 1];
      Captured(cs[..|cs| - 1], ring, monitor) + (if Eligible(c, ring, monitor) then [c.wnd] else [])
  }

  /** The filter over one more candidate keeps what it kept and adds that candidate when
      it is eligible. */
  lemma CapturedStep(cs: seq<WindowFacts>, k: nat, ring: MonitorLayout, monitor: Monitor)
    requires k < |cs| && ring.WellFormed()
    ensures Captured(cs[..k + 1], ring, monitor) ==
            Captured(cs[..k], ring, monitor) + (if Eligible(cs[k], ring, monitor) then [cs[k].wnd] else [])
  {
    assert cs[..k + 1][..k] == cs[..k];
  }

  /** With distinct handles, no candidate from position `k` on has its handle among the
      windows kept from the first `k`. */
  lemma {:induction false} LaterHandleNotCaptured(cs: seq<WindowFacts>, k: nat, m: nat, ring: MonitorLayout, monitor: Monitor)
    requires k <= m < |cs| && ring.WellFormed()
    requires forall i, j :: 0 <= i < j < |cs| ==> cs[i].wnd.handle != cs[j].wnd.handle
    ensures cs[m].wnd.handle !in Handles(Captured(cs[..k], ring, monitor))
    decreases k
  {
    if k > 0 {
      LaterHandleNotCaptured(cs, k - 1, m, ring, monitor);
      CapturedStep(cs, k - 1, ring, monitor);
      var prev := Captured(cs[..k - 1], ring, monitor);
      var now := Captured(cs[..k], ring, monitor);
      forall i | 0 <= i < |now| ensures now[i].handle != cs[m].wnd.handle {
        if i < |prev| {
          assert now[i] == prev[i] && Handles(prev)[i] == prev[i].handle;
        }
      }
    }
  }

  /** A window is captured exactly when it belongs to an enumerated window that passes the
      filter. */
  lemma {:induction false} CapturedMeaning(cs: seq<WindowFacts>, ring: MonitorLayout, monitor: Monitor)
    requires ring.WellFormed()
    ensures forall w :: w in Captured(cs, ring, monitor) <==>
              exists j :: 0 <= j < |cs| && cs[j].wnd == w && Eligible(cs[j], ring, monitor)
    decreases |cs|
  {
    if cs != [] {
      var init := cs[..|cs| - 1];
      CapturedMeaning(init, ring, monitor);
      forall w ensures w in Captured(cs, ring, monitor) <==>
              exists j :: 0 <= j < |cs| && cs[j].wnd == w && Eligible(cs[j], ring, monitor)
      {
        if exists j :: 0 <= j < |cs| && cs[j].wnd == w && Eligible(cs[j], ring, monitor) {
          var j :| 0 <= j < |cs| && cs[j].wnd == w && Eligible(cs[j], ring, monitor);
          if j < |cs| - 1 {
            assert init[j] == cs[j];
          }
        }
        if w in Captured(init, ring, monitor) {
          var j :| 0 <= j < |init| && init[j].wnd == w && Eligible(init[j], ring, monitor);
          assert cs[j] == init[j];
        }
      }
    }
  }

  /** A distinct sequence of handles has as many elements as the set it enumerates. */
  lemma {:induction false} DistinctCardinality(s: seq<Handle>)
    requires DistinctHandles(s)
    ensures |set h | h in s| == |s|
    decreases |s|
  {
    if s != [] {
      var init := s[..|s| - 1];
      DistinctCardinality(init);
      assert (set h | h in s) == (set h | h in init) + {s[|s| - 1]};
      assert s[|s| - 1] !in init;
    }
  }

  // ---------------------------------------------------------------------------
  // Rotation

  /** Where Python's slice bound `i` falls in a sequence of length `n`: a negative bound
      counts from the end, and both are clamped into `0..n`. */
  function SliceBound(n: nat, i: int): (b: nat)
    ensures b <= n
  {
    if i < 0 then (if n + i < 0 then 0 else n + i) else if i > n then n else i
  }

  /** The module-level `rotate(l, n)`, that is `l[-n:] + l[:-n]`. */
  function Rotated<T>(l: seq<T>, n: int): (r: seq<T>)
    ensures |r| == |l|
  {
    var c := SliceBound(|l|, -n);
    l[c..] + l[..c]
  }

  /** Rotating never loses, duplicates or invents an element. */
  lemma RotatedIsPermutation<T>(l: seq<T>, n: int)
    ensures |Rotated(l, n)| == |l|
    ensures multiset(Rotated(l, n)) == multiset(l)
  {
    var c := SliceBound(|l|, -n);
    assert l == l[..c] + l[c..];
  }

  /** A shift by `n` in `0..|l|` moves the last `n` elements to the front: slot `i` holds
      what slot `i - n` held, counted cyclically. */
  lemma RotatedAt<T>(l: seq<T>, n: int, i: int)
    requires 0 <= n <= |l| && 0 <= i < |l|
    ensures |Rotated(l, n)| == |l|
    ensures Rotated(l, n)[i] == if i >= n then l[i - n] else l[i + |l| - n]
  {
  }

  /** Shifts 0 and `|l|` leave the order as it is. */
  lemma RotatedByNothing<T>(l: seq<T>)
    ensures Rotated(l, 0) == l && Rotated(l, |l|) == l
  {
  }

  /** The shift that brings the element at index `j` into slot `s`. */
  function ShiftFor(s: nat, j: nat, n: nat): nat
    requires s < n && j < n
  {
    if j <= s then s - j else s + n - j
  }

  /** Over the shifts `0..n-1` of a list of `n` distinct handles, each handle occupies each
      slot exactly once: element `j` is in slot `s` after shift `k` exactly when `k` is
      `ShiftFor(s, j, n)`. */
  lemma RotationsCoverSlots(l: seq<Handle>, s: nat, j: nat)
    requires DistinctHandles(l) && s < |l| && j < |l|
    ensures forall k :: 0 <= k < |l| ==> (Rotated(l, k)[s] == l[j] <==> k == ShiftFor(s, j, |l|))
  {
    forall k | 0 <= k < |l|
      ensures Rotated(l, k)[s] == l[j] <==> k == ShiftFor(s, j, |l|)
    {
      RotatedAt(l, k, s);
    }
  }

  // ---------------------------------------------------------------------------
  // Grid application

  /** A grid cell translated by the working area's top-left corner. */
  function Placed(cell: Cell, work: Rect): (r: Rect)
    ensures r.left - work.left == cell.x && r.top - work.top == cell.y
    ensures Width(r) == cell.w && Height(r) == cell.h
  {
    Rect(cell.x + work.left, cell.y + work.top, cell.x + cell.w + work.left, cell.y + cell.h + work.top)
  }

  /** The commands issued for the first `k` windows of `order`. */
  function PlacedPrefix(order: seq<Handle>, grid: Grid, work: Rect, k: nat): seq<Effect>
    requires k <= |order| && k <= |grid|
    decreases k
  {
    if k == 0 then []
    else PlacedPrefix(order, grid, work, k - 1) + SetRect(order[k - 1], Placed(grid[k - 1], work))
  }

  /** The commands `tidy` issues: one `set_rect` per window that has a grid cell. */
  function PlacementCommands(order: seq<Handle>, grid: Grid, work: Rect): (es: seq<Effect>)
    ensures |es| == 2 * Min(|order|, |grid|)
  {
    PlacedPrefixAt(order, grid, work, Min(|order|, |grid|));
    PlacedPrefix(order, grid, work, Min(|order|, |grid|))
  }

  /** The `i`-th window gets a restore followed by a move to the `i`-th cell, and nothing
      else is issued. */
  lemma {:induction false} PlacedPrefixAt(order: seq<Handle>, grid: Grid, work: Rect, k: nat)
    requires k <= |order| && k <= |grid|
    ensures var es := PlacedPrefix(order, grid, work, k);
      && |es| == 2 * k
      && forall i :: 0 <= i < k ==>
           es[2 * i] == Restore(order[i]) && es[2 * i + 1] == MoveTo(order[i], Placed(grid[i], work))
    decreases k
  {
    if k > 0 {
      PlacedPrefixAt(order, grid, work, k - 1);
    }
  }

  /** The moves of one more window are those before it plus, for that window, its cell. */
  lemma PlacedPrefixMovesStep(order: seq<Handle>, grid: Grid, work: Rect, k: nat)
    requires 0 < k <= |order| && k <= |grid|
    ensures forall h :: MovesOf(PlacedPrefix(order, grid, work, k), h) ==
                        MovesOf(PlacedPrefix(order, grid, work, k - 1), h) +
                        (if h == order[k - 1] then [Placed(grid[k - 1], work)] else [])
  {
    var prev := PlacedPrefix(order, grid, work, k - 1);
    var last := SetRect(order[k - 1], Placed(grid[k - 1], work));
    forall h ensures MovesOf(prev + last, h) == MovesOf(prev, h) + MovesOf(last, h) {
      MovesOfAppend(prev, last, h);
    }
  }

  /** Only the first `k` windows are moved by their commands. */
  lemma {:induction false} PlacedPrefixMovesNoOther(order: seq<Handle>, grid: Grid, work: Rect, k: nat)
    requires k <= |order| && k <= |grid|
    ensures forall h :: h !in order[..k] ==> MovesOf(PlacedPrefix(order, grid, work, k), h) == []
    decreases k
  {
    if k > 0 {
      PlacedPrefixMovesNoOther(order, grid, work, k - 1);
      PlacedPrefixMovesStep(order, grid, work, k);
      assert order[..k] == order[..k - 1] + [order[k - 1]];
    }
  }

  /** With distinct handles, each of the first `k` windows is moved exactly once, to its
      own cell, and no other handle is moved. */
  lemma {:induction false} PlacedPrefixMoves(order: seq<Handle>, grid: Grid, work: Rect, k: nat)
    requires k <= |order| && k <= |grid| && DistinctHandles(order)
    ensures forall i :: 0 <= i < k ==>
              MovesOf(PlacedPrefix(order, grid, work, k), order[i]) == [Placed(grid[i], work)]
    ensures forall h :: h !in order[..k] ==> MovesOf(PlacedPrefix(order, grid, work, k), h) == []
    decreases k
  {
    PlacedPrefixMovesNoOther(order, grid, work, k);
    if k > 0 {
      PlacedPrefixMoves(order, grid, work, k - 1);
      PlacedPrefixMovesStep(order, grid, work, k);
      forall i | 0 <= i < k - 1 ensures order[i] != order[k - 1] {
      }
      PlacedPrefixMovesNoOther(order, grid, work, k - 1);
      assert order[k - 1] !in order[..k - 1];
    }
  }

  /** `tidy` moves each of the first `min(|grid|, |order|)` windows exactly once, to its
      cell translated by the working area's origin, and sends no command at all to a
      window past the end of the grid. */
  lemma TidyMovesEachWindowOnce(order: seq<Handle>, grid: Grid, work: Rect)
    requires DistinctHandles(order)
    ensures forall i :: 0 <= i < |order| ==>
              MovesOf(PlacementCommands(order, grid, work), order[i]) ==
              if i < |grid| then [Placed(grid[i], work)] else []
    ensures forall e :: e in PlacementCommands(order, grid, work) ==>
              e.target in order[..Min(|order|, |grid|)]
  {
    var k := Min(|order|, |grid|);
    PlacedPrefixMoves(order, grid, work, k);
    forall i | k <= i < |order| ensures order[i] !in order[..k] {
    }
    PlacedPrefixTargets(order, grid, work, k);
  }

  /** Every command for the first `k` windows targets one of them. */
  lemma {:induction false} PlacedPrefixTargets(order: seq<Handle>, grid: Grid, work: Rect, k: nat)
    requires k <= |order| && k <= |grid|
    ensures forall e :: e in PlacedPrefix(order, grid, work, k) ==> e.target in order[..k]
    decreases k
  {
    if k > 0 {
      PlacedPrefixTargets(order, grid, work, k - 1);
      assert order[..k] == order[..k - 1] + [order[k - 1]];
    }
  }

  // ---------------------------------------------------------------------------
  // Equality

  /** `MyWindowLayout.__eq__` of a layout holding `mine` against a non-`None` layout
      holding `other`: the same number of windows, and every handle of `mine` maps in
      `other` to the same window in the same place. The order of the handle list plays no
      part. */
  predicate SameWindows(mine: map<Handle, Window>, other: map<Handle, Window>): (r: bool)
    ensures r ==> mine.Keys == other.Keys
  {
    SameSizeSubsetKeys(mine, other);
    && |mine| == |other|
    && (forall k :: k in mine ==> k in other && SameWindow(other[k], mine[k]))
  }

  /** Two maps of the same size whose keys are included one in the other have the same keys. */
  lemma SameSizeSubsetKeys(a: map<Handle, Window>, b: map<Handle, Window>)
    ensures |a| == |b| && (forall k :: k in a ==> k in b) ==> a.Keys == b.Keys
  {
    if |a| == |b| && (forall k :: k in a ==> k in b) {
      assert a.Keys <= b.Keys by {
        forall h | h in a.Keys ensures h in b.Keys {
          assert h in a;
        }
      }
      var extra := b.Keys - a.Keys;
      assert b.Keys == a.Keys + extra && a.Keys !! extra;
      assert |a.Keys| == |a| && |b.Keys| == |b|;
      assert |extra| == 0;
      assert b.Keys <= a.Keys by {
        forall h | h in b.Keys ensures h in a.Keys {
          assert h !in extra;
        }
      }
    }
  }

  /** The (handle, rectangle) pairs of a layout. */
  function Pairs(m: map<Handle, Window>): set<(Handle, Rect)> {
    set h | h in m :: (h, m[h].rect)
  }

  /** For layouts that store every window under its own handle, equality is equality of
      the (handle, rectangle) pairs; in particular it is symmetric, and moving a single
      window breaks it. */
  lemma SameWindowsIffSamePairs(a: map<Handle, Window>, b: map<Handle, Window>)
    requires Keyed(a) && Keyed(b)
    ensures SameWindows(a, b) <==> Pairs(a) == Pairs(b)
  {
    if SameWindows(a, b) {
      forall p | p in Pairs(b) ensures p in Pairs(a) {
        var h :| h in b && p == (h, b[h].rect);
      }
    }
    if Pairs(a) == Pairs(b) {
      assert forall h :: h in a ==> (h, a[h].rect) in Pairs(b);
      assert a.Keys == b.Keys by {
        forall h | h in b ensures h in a {
          assert (h, b[h].rect) in Pairs(a);
        }
      }
    }
  }

  // ---------------------------------------------------------------------------
  // The layout object

  class WindowLayout {
    const monitor: Monitor
    var windows: map<Handle, Window>
    var order: seq<Handle>

    /** The map and the list hold the same handles, each once, and each window is stored
        under its own handle. */
    ghost predicate Valid()
      reads this
    {
      && Keyed(windows)
      && (forall i :: 0 <= i < |order| ==> order[i] in windows)
      && (forall h :: h in windows ==> h in order)
      && DistinctHandles(order)
    }

    /** `window_count`: the size of the map. */
    function WindowCount(): (n: nat)
      reads this
      requires Valid()
      ensures n == |order|
    {
      assert windows.Keys == set h | h in order by {
        forall h | h in windows.Keys ensures h in order {
          assert h in windows;
        }
      }
      DistinctCardinality(order);
      |windows|
    }

    /** `MyWindowLayout.__init__`: enumerate the top-level windows and add the ones the
        filter keeps, in enumeration order. */
    constructor (monitor: Monitor, ring: MonitorLayout, candidates: seq<WindowFacts>)
      requires ring.WellFormed()
      requires forall i, j :: 0 <= i < j < |candidates| ==> candidates[i].wnd.handle != candidates[j].wnd.handle
      ensures this.monitor == monitor && Valid()
      ensures order == Handles(Captured(candidates, ring, monitor))
      ensures forall i :: 0 <= i < |order| ==> windows[order[i]] == Captured(candidates, ring, monitor)[i]
    {
      this.monitor := monitor;
      windows := map[];
      order := [];
      new;
      var k := 0;
      while k < |candidates|
        invariant 0 <= k <= |candidates| && this.monitor == monitor && Valid()
        invariant order == Handles(Captured(candidates[..k], ring, monitor))
        invariant forall i :: 0 <= i < |order| ==> windows[order[i]] == Captured(candidates[..k], ring, monitor)[i]
      {
        CapturedStep(candidates, k, ring, monitor);
        LaterHandleNotCaptured(candidates, k, k, ring, monitor);
        EnumWindow(candidates[k], ring);
        k := k + 1;
      }
      assert candidates[..k] == candidates;
    }

    /** `enum_wnd`: the callback `EnumWindows` calls for each top-level window; it adds the
        window when the filter keeps it. */
    method EnumWindow(c: WindowFacts, ring: MonitorLayout)
      requires Valid() && ring.WellFormed() && c.wnd.handle !in order
      modifies this`windows, this`order
      ensures Valid()
      ensures Eligible(c, ring, monitor) ==> windows == old(windows)[c.wnd.handle := c.wnd] &&
                                              order == old(order) + [c.wnd.handle]
      ensures !Eligible(c, ring, monitor) ==> windows == old(windows) && order == old(order)
    {
      if !c.iconic && c.visible && c.wnd.title !in ExcludedTitles && c.resizable {
        var m := ring.MonitorFromRect(c.wnd.rect);
        if m.Equals(monitor) {
          AddWindow(c.wnd);
        }
      }
    }

    /** `add_window`: store the window under its handle and append the handle to the order.
        A handle not yet present keeps the layout valid. */
    method AddWindow(w: Window)
      modifies this`windows, this`order
      ensures windows == old(windows)[w.handle := w] && order == old(order) + [w.handle]
      ensures old(Valid()) && w.handle !in old(windows) ==> Valid()
    {
      windows := windows[w.handle := w];
      order := order + [w.handle];
    }

    /** `rotate`: signal that the rotations are used up when `val` is the window count;
        otherwise shift the order by `val`. The map does not change. */
    method Rotate(val: int) returns (noMoreRotations: bool)
      requires Valid() && |windows| > 0
      modifies this`order
      ensures Valid()
      ensures noMoreRotations <==> val == |windows|
      ensures order == if noMoreRotations then old(order) else Rotated(old(order), val)
    {
      if val == WindowCount() {
        return true;
      }
      RotatedValid(order, val);
      order := Rotated(order, val);
      noMoreRotations := false;
    }

    /** `tidy`: the `i`-th window of the order gets `set_rect` to the `i`-th grid cell
        translated by the working area's top-left, for every `i` below both lengths. */
    method Tidy(grid: Grid) returns (effects: seq<Effect>)
      requires Valid() && |windows| > 0
      ensures effects == PlacementCommands(order, grid, monitor.working)
    {
      var work := monitor.working;
      var todo := order[..SliceBound(|order|, |grid|)];
      effects := [];
      for i := 0 to |todo|
        invariant effects == PlacedPrefix(order, grid, work, i)
      {
        var hwnd := todo[i];
        var w := windows[hwnd];
        var rt := grid[i];
        var wndRect := Rect(rt.x + work.left, rt.y + work.top, rt.x + rt.w + work.left, rt.y + rt.h + work.top);
        effects := effects + SetRect(w.handle, wndRect);
      }
    }
  }

  /** A rotated list of distinct handles is still distinct and holds the same handles. */
  lemma RotatedValid(l: seq<Handle>, n: int)
    requires DistinctHandles(l)
    ensures DistinctHandles(Rotated(l, n))
    ensures forall h :: h in Rotated(l, n) <==> h in l
  {
    var rotated := Rotated(l, n);
    RotatedIsPermutation(l, n);
    assert forall h :: h in rotated <==> h in multiset(rotated);
    assert forall h :: h in l <==> h in multiset(l);
    forall i, j | 0 <= i < j < |rotated| ensures rotated[i] != rotated[j] {
      RotatedDistinct(l, n, i, j);
    }
  }

  lemma RotatedDistinct(l: seq<Handle>, n: int, i: int, j: int)
    requires DistinctHandles(l) && 0 <= i < j < |Rotated(l, n)|
    ensures Rotated(l, n)[i] != Rotated(l, n)[j]
  {
    var c := SliceBound(|l|, -n);
    var r := Rotated(l, n);
    assert |r| == |l|;
    var ii := if i < |l| - c then c + i else i - (|l| - c);
    var jj := if j < |l| - c then c + j else j - (|l| - c);
    assert r[i] == l[ii] && r[j] == l[jj];
    assert ii != jj;
  }
}
