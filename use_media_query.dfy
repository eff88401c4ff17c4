/** useMediaQuery.ts: the breakpoint table and a flag that follows whether
    the viewport matches one breakpoint. Viewport widths are whole CSS
    pixels; `matchMedia` and its change events are inputs. */
module UseMediaQuery {

  datatype Breakpoint = Xs | Sm | Md | Lg | Xl | Xxl

  /** The two forms of media query the table uses. */
  datatype MediaQuery = MaxWidth(px: int) | MinWidth(px: int)

  /** The `breakpoints` table. xs is the only max-width query and ends one
      pixel below sm; the others are min-width queries. */
  function QueryOf(b: Breakpoint): (q: MediaQuery)
    ensures q.MaxWidth? <==> b == Xs
    ensures b == Xs ==> q.px == 639
    ensures b != Xs ==> 640 <= q.px <= 1536
  {
    match b
    case Xs => MaxWidth(639)
    case Sm => MinWidth(640)
    case Md => MinWidth(768)
    case Lg => MinWidth(1024)
    case Xl => MinWidth(1280)
    case Xxl => MinWidth(1536)
  }

  /** Whether a viewport of the given width matches a query. */
  predicate QueryMatches(q: MediaQuery, width: int) {
    match q
    case MaxWidth(px) => width <= px
    case MinWidth(px) => width >= px
  }

  predicate BreakpointMatches(b: Breakpoint, width: int) {
    QueryMatches(QueryOf(b), width)
  }

  /** Each breakpoint as a condition on the width. */
  lemma BreakpointPredicates(width: int)
    ensures BreakpointMatches(Xs, width) <==> width <= 639
    ensures BreakpointMatches(Sm, width) <==> width >= 640
    ensures BreakpointMatches(Md, width) <==> width >= 768
    ensures BreakpointMatches(Lg, width) <==> width >= 1024
    ensures BreakpointMatches(Xl, width) <==> width >= 1280
    ensures BreakpointMatches(Xxl, width) <==> width >= 1536
  {
  }

  /** Every width matches exactly one of xs and sm. */
  lemma XsSmComplementary(width: int)
    ensures BreakpointMatches(Xs, width) != BreakpointMatches(Sm, width)
  {
  }

  /** The min-width breakpoints nest: each implies the next smaller one. */
  lemma MinWidthBreakpointsNest(width: int)
    ensures BreakpointMatches(Xxl, width) ==> BreakpointMatches(Xl, width)
    ensures BreakpointMatches(Xl, width) ==> BreakpointMatches(Lg, width)
    ensures BreakpointMatches(Lg, width) ==> BreakpointMatches(Md, width)
    ensures BreakpointMatches(Md, width) ==> BreakpointMatches(Sm, width)
  {
  }

  /** Widening the viewport can only switch a min-width breakpoint on, and
      only switch xs off. */
  lemma BreakpointsMonotone(b: Breakpoint, narrow: int, wide: int)
    requires narrow <= wide
    ensures b != Xs && BreakpointMatches(b, narrow) ==> BreakpointMatches(b, wide)
    ensures b == Xs && BreakpointMatches(b, wide) ==> BreakpointMatches(b, narrow)
  {
  }

  /** The hook's state for one breakpoint. */
  class ResponsiveFlag {
    const breakpoint: Breakpoint
    var matches: bool
    /** Whether the `change` listener is installed on the query list. */
    var listening: bool

    /** Before its effect runs, the hook reports false. */
    constructor (breakpoint: Breakpoint)
      ensures this.breakpoint == breakpoint && !matches && !listening
    {
      this.breakpoint := breakpoint;
      matches := false;
      listening := false;
    }

    /** The effect: read the query at the current width, then install the
        change listener. */
    method Mount(width: int)
      modifies this
      ensures matches == BreakpointMatches(breakpoint, width) && listening
    {
      var query := QueryOf(breakpoint);
      matches := QueryMatches(query, width);
      listening := true;
    }

    /** A change event reaches the listener only while it is installed, and
        sets the flag to the event's value. */
    method OnChange(eventMatches: bool)
      modifies this
      ensures listening == old(listening)
      ensures matches == if listening then eventMatches else old(matches)
    {
      if listening {
        matches := eventMatches;
      }
    }

    /** The effect's cleanup: the listener is removed; the flag keeps its
        last value. */
    method Unmount()
      modifies this
      ensures !listening && matches == old(matches)
    {
      listening := false;
    }
  }
}
