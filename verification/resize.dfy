/** The debounce of handleResize as a discrete-time machine. Time is an integer number of
    milliseconds; the two callbacks are represented by the events they produce. */
module Resize {
  import opened Common

  /** `delta`: the quiet period, in milliseconds, before the end callback runs. */
  const Delta: int := 200

  /** The closure state: `rtime`, the time of the latest resize event, and the due time of the
      pending `resizeEnd` timer (None while `timeout` is undefined). */
  datatype Debounce = Debounce(rtime: int, timer: Option<int>)

  datatype Callback = Start | End

  /** A window resize event (with the value of AutoResizeEnabled at that moment), or the
      moment the pending timer runs. */
  datatype Event = Resized(now: int, enabled: bool) | TimerDue(now: int)

  const Idle: Debounce := Debounce(0, None)

  /** resizeStart: a disabled viewer ignores the event; otherwise the time is recorded, and the
      start callback runs only when no timer is pending. */
  function ResizeStart(d: Debounce, now: int): (r: (Debounce, seq<Callback>))
    ensures r.0.rtime == now && r.0.timer.Some?
    ensures d.timer.None? ==> r.1 == [Start] && r.0.timer == Some(now + Delta)
    ensures d.timer.Some? ==> r.1 == [] && r.0.timer == d.timer
  {
    if d.timer.None? then (Debounce(now, Some(now + Delta)), [Start])
    else (d.(rtime := now), [])
  }

  /** resizeEnd: if a resize came less than delta ago the timer is set again, otherwise the
      end callback runs and no timer is left. */
  function ResizeEnd(d: Debounce, now: int): (r: (Debounce, seq<Callback>))
    ensures r.0.rtime == d.rtime
    ensures r.1 == [End] <==> now - d.rtime >= Delta
    ensures r.1 == [End] ==> r.0.timer.None?
    ensures r.1 != [End] ==> r.1 == [] && r.0.timer == Some(now + Delta)
  {
    if now - d.rtime < Delta then (Debounce(d.rtime, Some(now + Delta)), [])
    else (Debounce(d.rtime, None), [End])
  }

  /** One event. A timer only runs when one is pending and due; any other TimerDue is not a
      real event and changes nothing. Each event produces at most one callback, always the
      expected one, and producing it flips whether a timer is pending. An end callback only
      runs at least delta after the latest resize; a disabled resize changes nothing. */
  function Step(d: Debounce, ev: Event): (r: (Debounce, seq<Callback>))
    ensures r.1 == [] ==> r.0.timer.Some? == d.timer.Some?
    ensures r.1 != [] ==> r.1 == [Next(d)] && r.0.timer.Some? != d.timer.Some?
    ensures r.1 == [End] ==> ev.TimerDue? && ev.now - d.rtime >= Delta
    ensures ev.Resized? && ev.enabled ==> r.0.rtime == ev.now && r.0.timer.Some?
    ensures ev.Resized? && !ev.enabled ==> r == (d, [])
  {
    match ev
    case Resized(now, enabled) => if enabled then ResizeStart(d, now) else (d, [])
    case TimerDue(now) =>
      if d.timer.Some? && now >= d.timer.value then ResizeEnd(d, now) else (d, [])
  }

  function Run(d: Debounce, evs: seq<Event>): (r: (Debounce, seq<Callback>))
    decreases |evs|
  {
    if evs == [] then (d, [])
    else
      var (d1, out1) := Step(d, evs[0]);
      var (d2, out2) := Run(d1, evs[1..]);
      (d2, out1 + out2)
  }

  function Other(c: Callback): Callback {
    if c == Start then End else Start
  }

  /** The callback the machine produces next: Start when idle, End while a timer is pending. */
  function Next(d: Debounce): Callback {
    if d.timer.None? then Start else End
  }

  predicate Alternates(out: seq<Callback>, first: Callback) {
    forall i :: 0 <= i < |out| ==> out[i] == if i % 2 == 0 then first else Other(first)
  }

  /** Over any run the callbacks alternate, beginning with the one the start state expects,
      and a timer is pending at the end exactly when it was pending at the start and an even
      number of callbacks ran, or was not and an odd number ran. From Idle: Start, End, Start,
      End, ... and a pending timer means the last callback was Start. */
  lemma {:induction false} RunAlternates(d: Debounce, evs: seq<Event>)
    ensures Alternates(Run(d, evs).1, Next(d))
    ensures Run(d, evs).0.timer.Some? <==> (d.timer.Some? != (|Run(d, evs).1| % 2 == 1))
    decreases |evs|
  {
    if evs != [] {
      var s := Step(d, evs[0]);
      var rest := Run(s.0, evs[1..]);
      RunAlternates(s.0, evs[1..]);
      assert Run(d, evs) == (rest.0, s.1 + rest.1);
      if s.1 == [] {
        assert s.1 + rest.1 == rest.1;
        assert Next(s.0) == Next(d);
      } else {
        assert s.1 == [Next(d)] && Next(s.0) == Other(Next(d));
        AlternatesCons(Next(d), rest.1);
        OneMoreParity(|rest.1|);
      }
    }
  }

  /** One callback in front of a run that alternates from the other one. */
  lemma AlternatesCons(c: Callback, out: seq<Callback>)
    requires Alternates(out, Other(c))
    ensures Alternates([c] + out, c)
  {
    var r := [c] + out;
    forall i | 0 <= i < |r|
      ensures r[i] == if i % 2 == 0 then c else Other(c)
    {
      if i > 0 {
        assert r[i] == out[i - 1];
        OneMoreParity(i - 1);
      }
    }
  }

  lemma OneMoreParity(n: nat)
    ensures (n + 1) % 2 == 1 <==> n % 2 == 0
  {
  }

  /** From the idle state, the pending timer marks a start without its end. */
  lemma FromIdle(evs: seq<Event>)
    ensures Alternates(Run(Idle, evs).1, Start)
    ensures Run(Idle, evs).0.timer.Some? <==> |Run(Idle, evs).1| % 2 == 1
    ensures |Run(Idle, evs).1| > 0 ==>
      (Run(Idle, evs).0.timer.Some? <==> Run(Idle, evs).1[|Run(Idle, evs).1| - 1] == Start)
  {
    RunAlternates(Idle, evs);
  }
}
