/** The focus timer and its session log (components/PomodoroClock.tsx), as
    pure transitions over an immutable timer record. The once-a-second
    interval and the effect that reacts to the counter reaching zero are one
    discrete `Step`; the wall-clock label of a finished session is passed in. */
module Pomodoro {
  import opened Types
  import ClockFormat

  /** Length of a focus interval, in seconds (25 minutes). */
  const WorkDuration: nat := 25 * 60
  /** Length of a break interval, in seconds (5 minutes). */
  const BreakDuration: nat := 5 * 60

  datatype Mode = Work | Break

  /** The `type` field of a logged session: `'Focus'` or `'Break'`. */
  datatype EntryType = FocusEntry | BreakEntry

  datatype SessionEntry = SessionEntry(kind: EntryType, duration: string, completedAt: string)

  /** Component state: mode, seconds left, whether the countdown runs, and
      the session log, newest entry first. */
  datatype Timer = Timer(mode: Mode, remaining: int, active: bool, history: seq<SessionEntry>)

  function Duration(m: Mode): nat {
    match m
    case Work => WorkDuration
    case Break => BreakDuration
  }

  function Flip(m: Mode): Mode {
    match m
    case Work => Break
    case Break => Work
  }

  /** The counter never leaves [0, full length of the current mode]. */
  predicate Valid(t: Timer) {
    0 <= t.remaining <= Duration(t.mode)
  }

  /** The log as restored at start-up: the stored text, if any, goes through
      `parse` (standing in for `JSON.parse`); an absent or empty slot, or text
      that fails to parse, leaves the log empty. */
  function LoadHistory(saved: Option<string>, parse: string -> Option<seq<SessionEntry>>)
    : (h: seq<SessionEntry>)
    ensures saved.None? || saved == Some("") ==> h == []
    ensures saved.Some? && parse(saved.value).None? ==> h == []
    ensures saved.Some? && saved.value != "" && parse(saved.value).Some? ==> h == parse(saved.value).value
    ensures h != [] ==> saved.Some? && parse(saved.value) == Some(h)
  {
    match saved
    case None => []
    case Some(text) =>
      if text == "" then []
      else match parse(text)
        case None => []
        case Some(entries) => entries
  }

  /** Whatever log was stored is what comes back, when the stored text is
      non-empty and parses to it (JSON text of an array is never empty). */
  lemma LoadAfterSave(h: seq<SessionEntry>, serialize: seq<SessionEntry> -> string,
                      parse: string -> Option<seq<SessionEntry>>)
    requires serialize(h) != "" && parse(serialize(h)) == Some(h)
    ensures LoadHistory(Some(serialize(h)), parse) == h
  {
  }

  /** The state on mount: a stopped focus interval at full length, with the
      restored log. */
  function Initial(saved: Option<string>, parse: string -> Option<seq<SessionEntry>>): (t: Timer)
    ensures Valid(t)
    ensures t.mode == Work && t.remaining == WorkDuration && !t.active
    ensures t.history == LoadHistory(saved, parse)
    ensures saved.None? ==> t.history == []
  {
    Timer(Work, WorkDuration, false, LoadHistory(saved, parse))
  }

  /** One elapsed second of a running, unfinished countdown. */
  function Tick(t: Timer): (r: Timer)
    requires t.active && t.remaining > 0
    ensures r.remaining == t.remaining - 1
    ensures r.mode == t.mode && r.active == t.active && r.history == t.history
  {
    t.(remaining := t.remaining - 1)
  }

  /** The log entry for a finished interval of mode `m`. */
  function EntryFor(m: Mode, completedAt: string): SessionEntry {
    SessionEntry(if m == Work then FocusEntry else BreakEntry,
                 ClockFormat.FormatTime(Duration(m)), completedAt)
  }

  /** A running countdown that reached zero: log the interval, switch mode,
      refill the counter for the new mode and stop. */
  function Complete(t: Timer, completedAt: string): (r: Timer)
    requires t.active && t.remaining == 0
    ensures |r.history| == |t.history| + 1 && r.history[1..] == t.history
    ensures r.history[0].kind == FocusEntry <==> t.mode == Work
    ensures r.history[0].duration == ClockFormat.FormatTime(Duration(t.mode))
    ensures r.history[0].completedAt == completedAt
    ensures r.mode != t.mode
    ensures r.remaining == Duration(r.mode)
    ensures !r.active
  {
    var m := Flip(t.mode);
    Timer(m, Duration(m), false, [EntryFor(t.mode, completedAt)] + t.history)
  }

  /** One run of the countdown effect: tick while running with time left,
      complete when running at zero, otherwise nothing happens. */
  function Step(t: Timer, completedAt: string): (r: Timer)
    ensures t.active && t.remaining > 0 ==> r == Tick(t)
    ensures t.active && t.remaining == 0 ==> r == Complete(t, completedAt)
    ensures !t.active || t.remaining < 0 ==> r == t
  {
    if t.active && t.remaining > 0 then Tick(t)
    else if t.remaining == 0 && t.active then Complete(t, completedAt)
    else t
  }

  /** Start/Pause: flips the running flag and nothing else. */
  function Toggle(t: Timer): (r: Timer)
    ensures r.active == !t.active
    ensures r.mode == t.mode && r.remaining == t.remaining && r.history == t.history
  {
    t.(active := !t.active)
  }

  /** Pressing Start/Pause twice gives back the same timer. */
  lemma ToggleTwice(t: Timer)
    ensures Toggle(Toggle(t)) == t
  {
  }

  /** Reset: a stopped focus interval at full length; the log is kept. */
  function Reset(t: Timer): (r: Timer)
    ensures r.mode == Work && !r.active && r.remaining == 1500
    ensures r.history == t.history
    ensures Valid(r)
  {
    Timer(Work, WorkDuration, false, t.history)
  }

  /** Clear: empties the log and touches nothing else. */
  function ClearHistory(t: Timer): (r: Timer)
    ensures r.history == []
    ensures r.mode == t.mode && r.remaining == t.remaining && r.active == t.active
  {
    t.(history := [])
  }

  /** Clearing an empty log, or resetting a reset timer, changes nothing. */
  lemma ResetAndClearIdempotent(t: Timer)
    ensures Reset(Reset(t)) == Reset(t)
    ensures ClearHistory(ClearHistory(t)) == ClearHistory(t)
  {
  }

  /** Seconds already spent in the current interval: the numerator of the
      progress ring's fraction. */
  function Elapsed(t: Timer): (e: int)
    requires Valid(t)
    ensures 0 <= e <= Duration(t.mode)
    ensures e == 0 <==> t.remaining == Duration(t.mode)
  {
    Duration(t.mode) - t.remaining
  }

  /** What the user can do to the timer, and the passing of one second. */
  datatype Event = Second(completedAt: string) | Press | ResetPress | ClearPress

  function Apply(t: Timer, e: Event): Timer {
    match e
    case Second(at) => Step(t, at)
    case Press => Toggle(t)
    case ResetPress => Reset(t)
    case ClearPress => ClearHistory(t)
  }

  function Run(t: Timer, events: seq<Event>): Timer
    decreases |events|
  {
    if events == [] then t else Run(Apply(t, events[0]), events[1..])
  }

  /** Every single transition keeps the counter within its mode's length. */
  lemma ApplyPreservesValid(t: Timer, e: Event)
    requires Valid(t)
    ensures Valid(Apply(t, e))
  {
  }

  /** Hence so does every sequence of them, from any valid state. */
  lemma {:induction false} RunPreservesValid(t: Timer, events: seq<Event>)
    requires Valid(t)
    ensures Valid(Run(t, events))
    decreases |events|
  {
    if events != [] {
      ApplyPreservesValid(t, events[0]);
      RunPreservesValid(Apply(t, events[0]), events[1..]);
    }
  }

  /** Every state reachable from mount satisfies the counter bound. */
  lemma ReachableValid(saved: Option<string>, parse: string -> Option<seq<SessionEntry>>,
                       events: seq<Event>)
    ensures Valid(Run(Initial(saved, parse), events))
  {
    RunPreservesValid(Initial(saved, parse), events);
  }

  /** The log only ever grows at the front, except when cleared: after any
      event, the old log is a suffix of the new one, or the new one is empty. */
  lemma ApplyKeepsHistorySuffix(t: Timer, e: Event)
    ensures var h := Apply(t, e).history;
      h == [] || (|h| >= |t.history| && h[|h| - |t.history|..] == t.history)
    ensures !e.ClearPress? ==> |Apply(t, e).history| - |t.history| in {0, 1}
  {
    var r := Apply(t, e);
    if e.Second? && t.active && t.remaining == 0 {
      assert r.history[1..] == t.history;
    } else if !e.ClearPress? {
      assert r.history[|r.history| - |t.history|..] == r.history;
    }
  }

  /** `n` seconds of a running countdown with at least `n` seconds left only
      lower the counter by `n`. */
  function Seconds(t: Timer, n: nat, completedAt: string): Timer
    decreases n
  {
    if n == 0 then t else Seconds(Step(t, completedAt), n - 1, completedAt)
  }

  lemma {:induction false} SecondsCountDown(t: Timer, n: nat, completedAt: string)
    requires t.active && n <= t.remaining
    ensures Seconds(t, n, completedAt) == t.(remaining := t.remaining - n)
    decreases n
  {
    if n > 0 {
      SecondsCountDown(Step(t, completedAt), n - 1, completedAt);
    }
  }

  /** A stopped timer ignores the passing of time. */
  lemma {:induction false} StoppedIgnoresSeconds(t: Timer, n: nat, completedAt: string)
    requires !t.active
    ensures Seconds(t, n, completedAt) == t
    decreases n
  {
    if n > 0 {
      StoppedIgnoresSeconds(t, n - 1, completedAt);
    }
  }

  /** The focus length renders as "25:00". */
  lemma WorkLabel()
    ensures ClockFormat.FormatTime(Duration(Work)) == "25:00"
  {
    assert ClockFormat.FormatTime(1500)
        == ClockFormat.PadStart2(ClockFormat.Decimal(25)) + ":" + ClockFormat.PadStart2(ClockFormat.Decimal(0)) by {
      ClockFormat.FormatOfParts(25, 0);
    }
    WorkFields();
  }

  // WorkFields, BreakFields and Joined model nothing of their own: they
  // evaluate the padded fields away from any `FormatTime` term, whose
  // evaluation on a literal argument is too costly for the solver.
  lemma WorkFields()
    ensures ClockFormat.PadStart2(ClockFormat.Decimal(25)) + ":" + ClockFormat.PadStart2(ClockFormat.Decimal(0)) == "25:00"
  {
    var mm, ss := ClockFormat.PadStart2(ClockFormat.Decimal(25)), ClockFormat.PadStart2(ClockFormat.Decimal(0));
    assert mm == "25";
    assert ss == "00";
    Joined(mm, ss, "25:00");
  }

  /** The break length renders as "05:00". */
  lemma BreakLabel()
    ensures ClockFormat.FormatTime(Duration(Break)) == "05:00"
  {
    assert ClockFormat.FormatTime(300)
        == ClockFormat.PadStart2(ClockFormat.Decimal(5)) + ":" + ClockFormat.PadStart2(ClockFormat.Decimal(0)) by {
      ClockFormat.FormatOfParts(5, 0);
    }
    BreakFields();
  }

  lemma BreakFields()
    ensures ClockFormat.PadStart2(ClockFormat.Decimal(5)) + ":" + ClockFormat.PadStart2(ClockFormat.Decimal(0)) == "05:00"
  {
    var mm, ss := ClockFormat.PadStart2(ClockFormat.Decimal(5)), ClockFormat.PadStart2(ClockFormat.Decimal(0));
    assert mm == "05";
    assert ss == "00";
    Joined(mm, ss, "05:00");
  }

  lemma Joined(mm: string, ss: string, text: string)
    requires |text| == 5 && text[2] == ':' && text[..2] == mm && text[3..] == ss
    ensures mm + ":" + ss == text
  {
    assert text == text[..2] + ":" + text[3..];
  }

  /** A full focus interval: started with 1500 seconds and left running, the
      first 1500 seconds count down, the next run of the effect logs exactly
      one Focus entry of "25:00" and leaves a stopped break of 300 seconds;
      after that, further seconds change nothing. */
  lemma FullFocusInterval(history: seq<SessionEntry>, completedAt: string, more: nat)
    ensures var t := Seconds(Timer(Work, 1500, true, history), 1501 + more, completedAt);
      && t.history == [SessionEntry(FocusEntry, "25:00", completedAt)] + history
      && t.mode == Break && !t.active && t.remaining == 300
  {
    var start := Timer(Work, 1500, true, history);
    SecondsCountDown(start, 1500, completedAt);
    var done := Step(start.(remaining := 0), completedAt);
    WorkLabel();
    SecondsSplit(start, 1500, 1 + more, completedAt);
    SecondsSplit(start.(remaining := 0), 1, more, completedAt);
    StoppedIgnoresSeconds(done, more, completedAt);
  }

  /** Running `a` then `b` seconds is running `a + b` seconds. */
  lemma {:induction false} SecondsSplit(t: Timer, a: nat, b: nat, completedAt: string)
    ensures Seconds(t, a + b, completedAt) == Seconds(Seconds(t, a, completedAt), b, completedAt)
    decreases a
  {
    if a > 0 {
      SecondsSplit(Step(t, completedAt), a - 1, b, completedAt);
    }
  }
}
