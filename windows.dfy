/** Window snapshots (`MyWindow`) and the commands the engine issues to the window
    mutator, recorded as an effect log instead of being executed. */
module Windows {
  import opened Geometry

  /** An opaque OS window handle. */
  type Handle = int

  /** `MyWindow`: handle, title and the bounds captured when the snapshot was taken. */
  datatype Window = Window(handle: Handle, title: string, rect: Rect)

  /** The show state `GetWindowPlacement` reports; `Other` stands for a show command the
      source maps to none of its three states. */
  datatype Placement = Normal | Minimized | Maximized | Other

  /** What the window enumerator reports about one top-level window besides its snapshot. */
  datatype WindowFacts = WindowFacts(wnd: Window, iconic: bool, visible: bool, resizable: bool)

  /** A command to the window mutator. */
  datatype Effect =
    | Restore(target: Handle)            // ShowWindow(SW_NORMAL)
    | MoveTo(target: Handle, to: Rect)   // MoveWindow to the rectangle's left/top/width/height
    | Maximize(target: Handle)           // ShowWindow(SW_MAXIMIZE)

  /** `MyWindow.__eq__`: the same window in the same place; the title plays no part. */
  predicate SameWindow(a: Window, b: Window): (r: bool)
    ensures r <==> a == b.(title := a.title)
  {
    a.handle == b.handle && a.rect == b.rect
  }

  /** `set_rect`: restore the window, then move and resize it. In the log, the window is
      moved exactly once, to `r`, no other window is moved, and it is restored first. */
  function SetRect(h: Handle, r: Rect): (es: seq<Effect>)
    ensures MovesOf(es, h) == [r]
    ensures forall other :: other != h ==> MovesOf(es, other) == []
    ensures forall e :: e in es ==> e.target == h
    ensures es[0] == Restore(h)
  {
    var es := [Restore(h), MoveTo(h, r)];
    assert es[..1][..0] == [] && es[..1] == [Restore(h)];
    es
  }

  /** The targets of the moves a log issues to window `h`, in order. */
  function MovesOf(es: seq<Effect>, h: Handle): (rs: seq<Rect>)
    ensures |rs| <= |es|
  {
    if es == [] then []
    else
      var e := es[|es| - 1];
      MovesOf(es[..|es| - 1], h) + (if e.MoveTo? && e.target == h then [e.to] else [])
  }

  lemma {:induction false} MovesOfAppend(a: seq<Effect>, b: seq<Effect>, h: Handle)
    ensures MovesOf(a + b, h) == MovesOf(a, h) + MovesOf(b, h)
    decreases |b|
  {
    if b == [] {
      assert a + b == a;
    } else {
      assert (a + b)[..|a + b| - 1] == a + b[..|b| - 1];
      MovesOfAppend(a, b[..|b| - 1], h);
    }
  }
}
