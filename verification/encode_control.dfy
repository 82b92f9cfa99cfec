/** The start/stop toggle around encode jobs. The controller keeps two
    pieces of state: whether an encode job is live, and the stop flag the
    live job polls after every chunk. */
module EncodeControl {
  import opened Base
  import EncodeStream

  datatype Control = Control(active: bool, stopFlag: bool)

  /** Before any job: no job, and the flag unset. */
  const Initial: Control := Control(false, false)

  /** The effect of pressing the start/stop button: the next state and
      whether a new encode job was launched. */
  datatype Pressed = Pressed(next: Control, launched: bool)

  function Press(c: Control): Pressed {
    if c.active then Pressed(c.(stopFlag := true), false)
    else Pressed(c.(active := true), true)
  }

  /** The job's stream ended normally or at the stop flag: the job
      finishes, clearing the flag on its way out. */
  function JobFinished(c: Control): Control {
    Control(false, false)
  }

  /** The job's thread died on an exception from the stream or the pipe,
      as the source has it: the flag reset is skipped. */
  function JobDiedAsWritten(c: Control): Control {
    c.(active := false)
  }

  /** The job's thread died on an exception, with the flag cleared on
      every exit path. */
  function JobDied(c: Control): Control {
    Control(false, false)
  }

  /** The user confirmed quitting while a job was live: the flag is set so
      the job stops at its next chunk boundary. */
  function QuitConfirmed(c: Control): Control {
    c.(stopFlag := true)
  }

  /** Whether the window may close at once; otherwise a confirmation is
      asked for. */
  function WindowShouldClose(c: Control): bool {
    !c.active
  }

  /** The controller at rest never holds a raised flag. */
  predicate Settled(c: Control) {
    !c.active ==> !c.stopFlag
  }

  datatype Event = ButtonPressed | StreamEnded | StreamFailed

  /** One event, with the corrected failure path. Job endings are only
      possible while a job is live. */
  function Apply(c: Control, e: Event): Control {
    match e
    case ButtonPressed => Press(c).next
    case StreamEnded => if c.active then JobFinished(c) else c
    case StreamFailed => if c.active then JobDied(c) else c
  }

  /** One event, with the failure path as the source has it. */
  function ApplyAsWritten(c: Control, e: Event): Control {
    match e
    case ButtonPressed => Press(c).next
    case StreamEnded => if c.active then JobFinished(c) else c
    case StreamFailed => if c.active then JobDiedAsWritten(c) else c
  }

  function Run(c: Control, events: seq<Event>): Control
    decreases |events|
  {
    if |events| == 0 then c else Run(Apply(c, events[0]), events[1..])
  }

  function RunAsWritten(c: Control, events: seq<Event>): Control
    decreases |events|
  {
    if |events| == 0 then c else RunAsWritten(ApplyAsWritten(c, events[0]), events[1..])
  }

  /** Pressing while a job is live starts nothing and raises the flag;
      pressing while idle launches a job and leaves the flag as it was. */
  lemma PressToggles(c: Control)
    ensures Press(c).launched <==> !c.active
    ensures Press(c).next.active
    ensures c.active ==> Press(c).next.stopFlag
    ensures !c.active ==> Press(c).next.stopFlag == c.stopFlag
  {
  }

  /** However a job ends, the controller returns to idle; a normal end
      always leaves the flag cleared. */
  lemma JobEndClearsFlag(c: Control)
    requires c.active
    ensures !JobFinished(c).active && !JobFinished(c).stopFlag
    ensures !JobDied(c).active && !JobDied(c).stopFlag
    ensures !JobDiedAsWritten(c).active
    ensures JobDiedAsWritten(c).stopFlag == c.stopFlag
  {
  }

  /** A job is live after a history of events exactly when the latest
      event is a button press: a press either launches a job or asks a
      live one to stop, and a job only goes away when its stream ends or
      fails. */
  predicate JobLive(events: seq<Event>) {
    |events| > 0 && events[|events| - 1] == ButtonPressed
  }

  /** The controller's `active` field tracks the history: it is set by the
      latest press and cleared by any later job ending, under either
      failure path. */
  lemma {:induction false} ActiveTracksHistory(c: Control, events: seq<Event>)
    ensures Run(c, events).active == (if |events| == 0 then c.active else JobLive(events))
    ensures RunAsWritten(c, events).active == (if |events| == 0 then c.active else JobLive(events))
    decreases |events|
  {
    if |events| > 0 {
      var rest := events[1..];
      ActiveTracksHistory(Apply(c, events[0]), rest);
      ActiveTracksHistory(ApplyAsWritten(c, events[0]), rest);
      if |rest| > 0 {
        assert events[|events| - 1] == rest[|rest| - 1];
      }
    }
  }

  /** From start-up, the window closes without asking exactly when no job
      is live, and the quit dialog is shown exactly while one is. */
  lemma WindowCloseGuard(events: seq<Event>)
    ensures WindowShouldClose(Run(Initial, events)) <==> !JobLive(events)
    ensures WindowShouldClose(RunAsWritten(Initial, events)) <==> !JobLive(events)
  {
    ActiveTracksHistory(Initial, events);
  }

  /** Quitting while a job is live. The index `i` of the chunk the job is
      writing when the dialog is confirmed is an input: it is fixed by how
      the two threads interleave. Confirming raises the flag, so the poll
      after chunk `i` is the first to see it and the job writes nothing
      more. This assumes the job reaches that poll within the two-second
      join; the join's time-out, and the backend and window closes that
      follow it, are not modelled. */
  method QuitStopsStream(c: Control, chunks: seq<EncodeStream.Chunk>, i: nat)
    returns (next: Control, written: seq<EncodeStream.Chunk>)
    requires !WindowShouldClose(c)
    requires i < |chunks|
    ensures next.active && next.stopFlag
    ensures written == chunks[..i + 1]
  {
    next := QuitConfirmed(c);
    var total, totals;
    written, total, totals := EncodeStream.Stream(chunks, Some(i));
  }

  lemma ApplyKeepsSettled(c: Control, e: Event)
    requires Settled(c)
    ensures Settled(Apply(c, e))
  {
  }

  /** Under the corrected failure path, every job is launched with the
      flag cleared, whatever happened before. */
  lemma {:induction false} RunKeepsSettled(c: Control, events: seq<Event>)
    requires Settled(c)
    ensures Settled(Run(c, events))
    ensures Press(Run(c, events)).launched ==> !Press(Run(c, events)).next.stopFlag
    decreases |events|
  {
    if |events| > 0 {
      ApplyKeepsSettled(c, events[0]);
      RunKeepsSettled(Apply(c, events[0]), events[1..]);
    }
  }

  /** As written: start a job, press stop, the stream then fails before
      the flag is checked, and the next start launches a job whose flag is
      already raised. */
  lemma StaleFlagAsWritten()
    ensures var c := RunAsWritten(Initial, [ButtonPressed, ButtonPressed, StreamFailed]);
      Press(c).launched && Press(c).next.stopFlag
  {
    var c1 := ApplyAsWritten(Initial, ButtonPressed);
    var c2 := ApplyAsWritten(c1, ButtonPressed);
    var c3 := ApplyAsWritten(c2, StreamFailed);
    assert c3 == Control(false, true);
    assert [ButtonPressed, ButtonPressed, StreamFailed][1..] == [ButtonPressed, StreamFailed];
    assert [ButtonPressed, StreamFailed][1..] == [StreamFailed];
  }

  /** A job launched with the flag already raised sees it at its first
      check, so only the first chunk of the recording reaches the
      encoder. */
  method StaleFlagTruncates(chunks: seq<EncodeStream.Chunk>)
    returns (written: seq<EncodeStream.Chunk>)
    ensures |chunks| >= 1 ==> written == chunks[..1]
    ensures |chunks| == 0 ==> written == []
  {
    var c := RunAsWritten(Initial, [ButtonPressed, ButtonPressed, StreamFailed]);
    StaleFlagAsWritten();
    var stopAt: Option<nat> := if Press(c).next.stopFlag then Some(0) else None;
    var total, totals;
    written, total, totals := EncodeStream.Stream(chunks, stopAt);
  }
}
