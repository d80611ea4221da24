/** The portfolio's cursor trail (assets/js/script.js): on wide screens every
    mouse move appends a mark 5 pixels up and left of the pointer to the
    module-level `cursorTrail` list, and once the list holds more than ten
    marks the oldest is taken off and faded out. */
module CursorTrail {
  import opened Strings

  /** `CONFIG.cursorTrailLength`. */
  const TrailLength := 10

  /** The trail is only wired up when the window is wider than this. */
  const MobileWidth := 968

  /** A trail element: its `left` and `top` in pixels. */
  datatype Mark = Mark(left: int, top: int)

  /** The mark for a pointer at (`clientX`, `clientY`). */
  function MarkAt(clientX: int, clientY: int): (m: Mark)
    ensures m.left + 5 == clientX && m.top + 5 == clientY
  {
    Mark(clientX - 5, clientY - 5)
  }

  /** The last (at most ten) marks of a history of mouse moves, oldest first. */
  function Recent(history: seq<Mark>): (r: seq<Mark>)
    ensures |r| <= TrailLength
  {
    if |history| <= TrailLength then history else history[|history| - TrailLength..]
  }

  /** One call of `createCursorTrail` on the list: push the new mark, then shift
      the oldest one off when there are more than ten. */
  function Admit(marks: seq<Mark>, m: Mark): (r: seq<Mark>)
    ensures |marks| <= TrailLength ==> |r| <= TrailLength
    ensures |r| >= 1 && r[|r| - 1] == m
    ensures |marks| < TrailLength ==> r == marks + [m]
    ensures |marks| == TrailLength ==> r == marks[1..] + [m]
  {
    var pushed := marks + [m];
    if |pushed| > TrailLength then pushed[1..] else pushed
  }

  /** The list is always the last ten marks: admitting a mark to the last ten
      of a history gives the last ten of the longer history. */
  lemma AdmitKeepsRecent(history: seq<Mark>, m: Mark)
    ensures Admit(Recent(history), m) == Recent(history + [m])
  {
    var h := history + [m];
    if |history| >= TrailLength {
      assert Recent(history) + [m] == h[|h| - TrailLength - 1..];
      assert (Recent(history) + [m])[1..] == h[|h| - TrailLength..];
    }
  }

  /** The trail of the page. */
  class Trail {
    /** Whether `initCursorTrail` registered the listener (the window was wide enough). */
    const listening: bool
    /** `cursorTrail`: the marks still kept, oldest first. */
    var marks: seq<Mark>
    /** Every mark created so far. */
    ghost var history: seq<Mark>

    ghost predicate Valid()
      reads this
    {
      marks == Recent(history)
    }

    /** `initCursorTrail` with the window's inner width. */
    constructor (innerWidth: int)
      ensures Valid() && marks == [] && history == []
      ensures listening <==> innerWidth > MobileWidth
    {
      listening := innerWidth > MobileWidth;
      marks := [];
      history := [];
    }

    /** `createCursorTrail`: the new mark goes last; when the list grows past ten,
        the oldest mark is taken off and returned (it is faded out and removed). */
    method Push(m: Mark) returns (evicted: Option<Mark>)
      requires Valid()
      modifies this
      ensures Valid() && history == old(history) + [m]
      ensures marks == Admit(old(marks), m)
      ensures evicted == if |old(marks)| == TrailLength then Some(old(marks)[0]) else None
    {
      AdmitKeepsRecent(history, m);
      marks := marks + [m];
      evicted := None;
      if |marks| > TrailLength {
        evicted := Some(marks[0]);
        marks := marks[1..];
      }
      history := history + [m];
    }

    /** A `mousemove` event, which reaches `createCursorTrail` only when the listener was registered. */
    method OnMouseMove(clientX: int, clientY: int) returns (evicted: Option<Mark>)
      requires Valid()
      modifies this
      ensures Valid()
      ensures listening ==> history == old(history) + [MarkAt(clientX, clientY)]
      ensures listening ==> marks == Admit(old(marks), MarkAt(clientX, clientY))
      ensures listening ==> evicted == if |old(marks)| == TrailLength then Some(old(marks)[0]) else None
      ensures !listening ==> history == old(history) && marks == old(marks) && evicted == None
    {
      if listening {
        evicted := Push(MarkAt(clientX, clientY));
      } else {
        evicted := None;
      }
    }
  }
}
