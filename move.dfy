/** Moving a window to the next monitor of the ring (`move_window_to_next_mon`). */
module MonitorMove {
  import opened Geometry
  import opened Monitors
  import opened Windows

  /** The window's offset inside the current working area, carried over to the next
      working area and then shifted (never shrunk) so that it does not run past the
      right or bottom edge nor start left of or above the top-left corner. */
  function MovedRect(from: Rect, to: Rect, w: Rect): (r: Rect)
    ensures Width(r) == Width(w) && Height(r) == Height(w)
    ensures r.left >= to.left && r.top >= to.top
    ensures Width(w) <= Width(to) ==> r.right <= to.right
    ensures Height(w) <= Height(to) ==> r.bottom <= to.bottom
    ensures var l := to.left + (w.left - from.left);
            to.left <= l && l + Width(w) <= to.right ==> r.left == l
    ensures var t := to.top + (w.top - from.top);
            to.top <= t && t + Height(w) <= to.bottom ==> r.top == t
  {
    var newLeft := to.left + (w.left - from.left);
    var newTop := to.top + (w.top - from.top);
    var newLeft' := Max(Min(newLeft, to.right - Width(w)), to.left);
    var newTop' := Max(Min(newTop, to.bottom - Height(w)), to.top);
    Rect(newLeft', newTop', newLeft' + Width(w), newTop' + Height(w))
  }

  /** A window that fits the next working area in both directions lands inside it. */
  lemma MovedRectInside(from: Rect, to: Rect, w: Rect)
    requires Proper(w) && Width(w) <= Width(to) && Height(w) <= Height(to)
    ensures Inside(MovedRect(from, to, w), to)
  {
  }

  /** A window wider than the next working area is pinned to its left edge and overhangs
      on the right: the clamp shifts, it does not shrink. */
  lemma WideWindowOverhangs(from: Rect, to: Rect, w: Rect)
    requires Width(w) > Width(to)
    ensures MovedRect(from, to, w).left == to.left
    ensures MovedRect(from, to, w).right > to.right
  {
  }

  /** `move_window_to_next_mon`: a maximized window is restored first; the window moves
      from the monitor its rectangle resolves to onto that monitor's ring successor; a
      window that was maximized is maximized again afterwards. */
  method MoveWindowToNextMonitor(ring: MonitorLayout, w: Window, placement: Placement)
    returns (effects: seq<Effect>)
    requires ring.Valid()
    ensures var cur := Resolve(ring.Works(), ring.primaryIndex, w.rect);
            var next := RingNext(cur, |ring.monitors|);
            var maximized := placement == Maximized;
            effects == (if maximized then [Restore(w.handle)] else [])
                       + SetRect(w.handle, MovedRect(ring.Works()[cur], ring.Works()[next], w.rect))
                       + (if maximized then [Maximize(w.handle)] else [])
  {
    effects := [];
    var maximizedBefore := false;
    if placement == Maximized {
      effects := effects + [Restore(w.handle)];
      maximizedBefore := true;
    }
    var curMon := ring.MonitorFromRect(w.rect);
    var nextMon := curMon.next;
    var newRect := MovedRect(curMon.working, nextMon.working, w.rect);
    effects := effects + SetRect(w.handle, newRect);
    if maximizedBefore {
      effects := effects + [Maximize(w.handle)];
    }
  }
}
