/** Monitors (`Monitor`), the ring they are wired into (`MyMonitorLayout`) and the
    resolver that picks the monitor a rectangle belongs to (`get_monitor_from_rect`). */
module Monitors {
  import opened Wrappers
  import opened Geometry

  /** What the monitor enumerator reports for one display: its full bounds, its
      working area (without the taskbar) and whether it is the primary display. */
  datatype MonitorInfo = MonitorInfo(bounds: Rect, work: Rect, primary: bool)

  class Monitor {
    const rect: Rect
    const working: Rect
    var next: Monitor?

    /** A new monitor is its own successor. */
    constructor (rect: Rect, working: Rect)
      ensures this.rect == rect && this.working == working && next == this
    {
      this.rect := rect;
      this.working := working;
      new;
      next := this;
    }

    /** `set_next` */
    method SetNext(m: Monitor)
      modifies this`next
      ensures next == m
    {
      next := m;
    }

    /** `Monitor.__eq__`: two monitors are the same when their working areas are equal. */
    predicate Equals(other: Monitor?): (r: bool)
      ensures other == this ==> r
      ensures r ==> other != null
    {
      other != null && working == other.working
    }
  }

  /** The successor index the ring wiring gives monitor `i` of `n`: a single monitor is
      its own successor; otherwise monitor 0 points to monitor 1 and every other monitor
      to its predecessor. */
  function RingNext(i: nat, n: nat): (j: nat)
    requires i < n
    ensures j < n
    ensures n == 1 ==> j == i
    ensures n > 1 ==> j != i
  {
    if n == 1 then 0 else if i == 0 then 1 else i - 1
  }

  /** The monitor reached after `k` hops along the ring from monitor `i`. */
  function Hop(i: nat, n: nat, k: nat): (j: nat)
    requires i < n
    ensures j < n
    decreases k
  {
    if k == 0 then i else Hop(RingNext(i, n), n, k - 1)
  }

  /** As wired, the ring does not cycle through all monitors when there are three or
      more: starting at monitor 0 or 1, moving along `next` only ever visits 0 and 1. */
  lemma {:induction false} HopsStayOnFirstTwo(i: nat, n: nat, k: nat)
    requires i < 2 <= n
    ensures Hop(i, n, k) < 2
    decreases k
  {
    if k > 0 {
      HopsStayOnFirstTwo(RingNext(i, n), n, k - 1);
    }
  }

  /** The score the resolver compares: an absent overlap is never better than 0. */
  function Score(work: Rect, r: Rect): (s: int)
    ensures s >= 0
  {
    match IntersectionArea(work, r)
    case None => 0
    case Some(a) => a
  }

  /** The running maximum after the first `k` monitors: the index chosen so far and the
      largest overlap seen, starting from the primary monitor and 0. */
  function Scan(works: seq<Rect>, primary: nat, r: Rect, k: nat): (p: (nat, int))
    requires k <= |works|
    ensures p.0 == primary || p.0 < k
    decreases k
  {
    if k == 0 then (primary, 0)
    else
      var prev := Scan(works, primary, r, k - 1);
      var area := IntersectionArea(works[k - 1], r);
      if area.Some? && area.value > prev.1 then (k - 1, area.value) else prev
  }

  /** The index of the monitor `get_monitor_from_rect` returns. */
  function Resolve(works: seq<Rect>, primary: nat, r: Rect): (i: nat)
    ensures i == primary || i < |works|
  {
    Scan(works, primary, r, |works|).0
  }

  /** What the scan of the first `k` monitors means: if none of them overlaps with
      positive area the primary is kept; otherwise the chosen one is the earliest
      with the strictly largest overlap, and the maximum recorded is its overlap. */
  lemma {:induction false} ScanMeaning(works: seq<Rect>, primary: nat, r: Rect, k: nat)
    requires k <= |works|
    ensures var p := Scan(works, primary, r, k);
      && p.1 >= 0
      && ((forall j :: 0 <= j < k ==> Score(works[j], r) == 0) ==> p == (primary, 0))
      && ((exists j :: 0 <= j < k && Score(works[j], r) > 0) ==>
            && p.0 < k && p.1 == Score(works[p.0], r) > 0
            && (forall j :: 0 <= j < p.0 ==> Score(works[j], r) < p.1)
            && (forall j :: p.0 <= j < k ==> Score(works[j], r) <= p.1))
  {
    if k > 0 {
      ScanMeaning(works, primary, r, k - 1);
      var prev := Scan(works, primary, r, k - 1);
      if exists j :: 0 <= j < k - 1 && Score(works[j], r) > 0 {
      } else {
        assert forall j :: 0 <= j < k - 1 ==> Score(works[j], r) == 0;
      }
    }
  }

  /** `get_monitor_from_rect`, stated declaratively: a rectangle that overlaps no working
      area with positive area resolves to the primary monitor; otherwise to the earliest
      monitor whose overlap is strictly larger than every earlier one and no smaller than
      any later one. */
  lemma ResolveMeaning(works: seq<Rect>, primary: nat, r: Rect)
    ensures (forall j :: 0 <= j < |works| ==> Score(works[j], r) == 0) ==>
            Resolve(works, primary, r) == primary
    ensures (exists j :: 0 <= j < |works| && Score(works[j], r) > 0) ==>
            var i := Resolve(works, primary, r);
            && i < |works| && Score(works[i], r) > 0
            && (forall j :: 0 <= j < i ==> Score(works[j], r) < Score(works[i], r))
            && (forall j :: i <= j < |works| ==> Score(works[j], r) <= Score(works[i], r))
  {
    ScanMeaning(works, primary, r, |works|);
  }

  /** A rectangle that overlaps exactly one working area with positive area resolves to
      that monitor, wherever it sits in the enumeration. */
  lemma ResolveUniqueOverlap(works: seq<Rect>, primary: nat, r: Rect, m: nat)
    requires m < |works| && Score(works[m], r) > 0
    requires forall j :: 0 <= j < |works| && j != m ==> Score(works[j], r) == 0
    ensures Resolve(works, primary, r) == m
  {
    ResolveMeaning(works, primary, r);
  }

  /** The last monitor flagged primary (the enumeration loop overwrites `_primary`). */
  function LastPrimary(infos: seq<MonitorInfo>): (i: nat)
    requires exists j :: 0 <= j < |infos| && infos[j].primary
    ensures i < |infos| && infos[i].primary
    ensures forall j :: i < j < |infos| ==> !infos[j].primary
  {
    if infos[|infos| - 1].primary then |infos| - 1
    else LastPrimary(infos[..|infos| - 1])
  }

  /** `MyMonitorLayout`: the monitors in enumeration order, wired into a ring. */
  class MonitorLayout {
    const monitors: seq<Monitor>
    const primaryIndex: nat

    /** The working areas, in enumeration order. */
    function Works(): (ws: seq<Rect>)
      ensures |ws| == |monitors|
      ensures forall i :: 0 <= i < |monitors| ==> ws[i] == monitors[i].working
    {
      seq(|monitors|, i requires 0 <= i < |monitors| => monitors[i].working)
    }

    /** The parts fixed at construction: there is a monitor and the primary is one of them. */
    predicate WellFormed() {
      0 < |monitors| && primaryIndex < |monitors|
    }

    /** The ring is wired as `MyMonitorLayout.__init__` leaves it. */
    ghost predicate Valid()
      reads monitors
    {
      && WellFormed()
      && (forall i, j :: 0 <= i < j < |monitors| ==> monitors[i] != monitors[j])
      && (forall i :: 0 <= i < |monitors| ==> monitors[i].next == monitors[RingNext(i, |monitors|)])
    }

    /** The primary monitor (`primary`). */
    function Primary(): (m: Monitor)
      requires WellFormed()
      ensures m in monitors
    {
      monitors[primaryIndex]
    }

    /** `MyMonitorLayout.__init__`: one monitor per enumerated display, each new one pointing
        to the one enumerated before it, and finally the first pointing to the second. */
    constructor (infos: seq<MonitorInfo>)
      requires exists j :: 0 <= j < |infos| && infos[j].primary
      ensures Valid()
      ensures |monitors| == |infos| && primaryIndex == LastPrimary(infos)
      ensures forall i :: 0 <= i < |infos| ==>
                monitors[i].rect == infos[i].bounds && monitors[i].working == infos[i].work
      ensures forall i :: 0 <= i < |monitors| ==> fresh(monitors[i])
    {
      var ms, p := ChainMonitors(infos);
      CloseRing(ms);
      monitors := ms;
      primaryIndex := p;
    }

    /** `get_monitor_from_rect`: the running maximum over the working areas, starting from
        the primary monitor and an area of 0. */
    method MonitorFromRect(r: Rect) returns (m: Monitor)
      requires WellFormed()
      ensures m == monitors[Resolve(Works(), primaryIndex, r)]
    {
      var maxAreaSoFar := 0;
      var best := primaryIndex;
      m := monitors[primaryIndex];
      for k := 0 to |monitors|
        invariant (best, maxAreaSoFar) == Scan(Works(), primaryIndex, r, k)
        invariant best < |monitors| && m == monitors[best]
      {
        var iarea := IntersectionArea(monitors[k].working, r);
        if iarea.Some? && iarea.value > maxAreaSoFar {
          maxAreaSoFar := iarea.value;
          best := k;
          m := monitors[k];
        }
      }
    }
  }

  /** Monitor `i` points to its predecessor, and the first to itself. */
  ghost predicate Chained(ms: seq<Monitor>)
    reads ms
  {
    && (0 < |ms| ==> ms[0].next == ms[0])
    && (forall i :: 0 < i < |ms| ==> ms[i].next == ms[i - 1])
  }

  ghost predicate Distinct(ms: seq<Monitor>) {
    forall i, j :: 0 <= i < j < |ms| ==> ms[i] != ms[j]
  }

  /** The enumeration loop of `MyMonitorLayout.__init__`: a new monitor per display,
      linked to the one before it; the last display flagged primary is remembered. */
  method ChainMonitors(infos: seq<MonitorInfo>) returns (ms: seq<Monitor>, p: nat)
    requires exists j :: 0 <= j < |infos| && infos[j].primary
    ensures |ms| == |infos| && p == LastPrimary(infos)
    ensures forall i :: 0 <= i < |ms| ==> fresh(ms[i])
    ensures Distinct(ms) && Chained(ms)
    ensures forall i :: 0 <= i < |infos| ==>
              ms[i].rect == infos[i].bounds && ms[i].working == infos[i].work
  {
    ms, p := [], 0;
    var k := 0;
    while k < |infos|
      invariant 0 <= k <= |infos| && |ms| == k
      invariant forall i :: 0 <= i < k ==> fresh(ms[i])
      invariant Distinct(ms) && Chained(ms)
      invariant forall i :: 0 <= i < k ==>
                  ms[i].rect == infos[i].bounds && ms[i].working == infos[i].work
      invariant (exists j :: 0 <= j < k && infos[j].primary) ==>
                  p < k && infos[p].primary && forall j :: p < j < k ==> !infos[j].primary
    {
      var mon := new Monitor(infos[k].bounds, infos[k].work);
      if infos[k].primary {
        p := k;
      }
      if |ms| > 0 {
        mon.SetNext(ms[|ms| - 1]);
      }
      ms := ms + [mon];
      k := k + 1;
    }
  }

  /** The last step of `MyMonitorLayout.__init__`: with more than one monitor, the first
      one's successor becomes the second. */
  method CloseRing(ms: seq<Monitor>)
    requires Distinct(ms) && Chained(ms)
    modifies set m | m in ms
    ensures forall i :: 0 <= i < |ms| ==> ms[i].next == ms[RingNext(i, |ms|)]
  {
    if |ms| > 1 {
      ms[0].SetNext(ms[1]);
    }
  }
}
