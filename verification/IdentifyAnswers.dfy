/**
 Which IDENTIFY an IDENTIFIED answers. Neither carries an id, so the client takes the first IDENTIFIED in its queue
 for the answer to the IDENTIFY it sent last. The peer answers IDENTIFYs in order, each at most once.
 */
module IdentifyAnswers {
  import opened AxtpTypes

  /**
   One core: the seeds of the IDENTIFYs that left on it, the first of them that can still be answered, and, for each
   IDENTIFIED in the queue, which of them it answers.
   */
  datatype Line = Line(frames: seq<uint32>, next: nat, queued: seq<nat>)

  const NEW_LINE: Line := Line([], 0, [])

  /** Queued answers are answers to IDENTIFYs that left, and none of these can be answered again. */
  ghost predicate Valid(l: Line) {
    l.next <= |l.frames| && forall tag | tag in l.queued :: tag < l.next
  }

  function Sent(l: Line, seed: uint32): Line {
    l.(frames := l.frames + [seed])
  }

  /** The peer may answer any IDENTIFY that left after the last one it answered. */
  predicate CanArrive(l: Line, tag: nat) {
    l.next <= tag < |l.frames|
  }

  function Arrived(l: Line, tag: nat): Line {
    l.(next := tag + 1, queued := l.queued + [tag])
  }

  function Taken(l: Line): Line
    requires l.queued != []
  {
    l.(queued := l.queued[1..])
  }

  /** Taking a HELLO turns the queue by the answers in front of it. */
  function Turned(l: Line, n: nat): Line
    requires n <= |l.queued|
  {
    l.(queued := l.queued[n..] + l.queued[..n])
  }

  function ArriveAll(l: Line, tags: seq<nat>): Line {
    if tags == [] then l else Arrived(ArriveAll(l, tags[..|tags| - 1]), tags[|tags| - 1])
  }

  ghost predicate Honest(l: Line, tags: seq<nat>) {
    tags == [] ||
    (Honest(l, tags[..|tags| - 1]) && CanArrive(ArriveAll(l, tags[..|tags| - 1]), tags[|tags| - 1]))
  }

  /** Nothing sent before can still be answered, and no answer waits. */
  predicate Quiet(l: Line) {
    l.queued == [] && l.next == |l.frames|
  }

  /** Only the latest IDENTIFY can still be answered, and every answer in the queue is one to it. */
  ghost predicate Settled(l: Line) {
    l.frames != [] && l.next >= |l.frames| - 1 && forall tag | tag in l.queued :: tag == |l.frames| - 1
  }

  /** At most the latest IDENTIFY is open: it can still be answered, or its answer is queued, or that was taken. */
  predicate Tight(l: Line) {
    && l.frames != []
    && (|| (l.next == |l.frames| - 1 && l.queued == [])
        || (l.next == |l.frames| && l.queued <= [|l.frames| - 1]))
  }

  lemma SendingTightens(l: Line, seed: uint32)
    ensures Quiet(l) ==> Tight(Sent(l, seed))
  {
  }

  /** No honest answer can arrive on a quiet line, and on a tight one only that to the latest IDENTIFY. */
  lemma {:induction false} ArrivalsStayTight(l: Line, tags: seq<nat>)
    requires Honest(l, tags)
    ensures Quiet(l) ==> Quiet(ArriveAll(l, tags))
    ensures Tight(l) ==> Tight(ArriveAll(l, tags))
  {
    if tags != [] {
      ArrivalsStayTight(l, tags[..|tags| - 1]);
    }
  }

  lemma TakingQuiets(l: Line)
    requires l.queued != []
    ensures Tight(l) ==> l.queued[0] == |l.frames| - 1 && Quiet(Taken(l)) && Tight(Taken(l))
  {
  }

  lemma SendingSettles(l: Line, seed: uint32)
    requires Valid(l)
    ensures Valid(Sent(l, seed)) && (Quiet(l) ==> Settled(Sent(l, seed)))
  {
  }

  lemma ArrivalKeeps(l: Line, tag: nat)
    requires Valid(l) && CanArrive(l, tag)
    ensures Valid(Arrived(l, tag)) && Arrived(l, tag).frames == l.frames
    ensures Settled(l) ==> Settled(Arrived(l, tag))
  {
  }

  lemma {:induction false} ArrivalsSendNothing(l: Line, tags: seq<nat>)
    ensures ArriveAll(l, tags).frames == l.frames
  {
    if tags != [] {
      ArrivalsSendNothing(l, tags[..|tags| - 1]);
    }
  }

  lemma {:induction false} ArrivalsKeep(l: Line, tags: seq<nat>)
    requires Valid(l) && Honest(l, tags)
    ensures Valid(ArriveAll(l, tags)) && ArriveAll(l, tags).frames == l.frames
    ensures Settled(l) ==> Settled(ArriveAll(l, tags))
    ensures l.queued <= ArriveAll(l, tags).queued
  {
    if tags != [] {
      ArrivalsKeep(l, tags[..|tags| - 1]);
      ArrivalKeeps(ArriveAll(l, tags[..|tags| - 1]), tags[|tags| - 1]);
    }
  }

  lemma TurningKeeps(l: Line, n: nat)
    requires n <= |l.queued|
    ensures Valid(l) ==> Valid(Turned(l, n))
    ensures Settled(l) ==> Settled(Turned(l, n))
    ensures Quiet(l) ==> Quiet(Turned(l, n))
  {
    assert forall tag :: tag in Turned(l, n).queued ==> tag in l.queued;
  }

  lemma TakingKeeps(l: Line)
    requires l.queued != []
    ensures Valid(l) ==> Valid(Taken(l))
    ensures Settled(l) ==> l.queued[0] == |l.frames| - 1 && Settled(Taken(l))
  {
    assert l.queued[0] in l.queued;
    assert forall tag :: tag in Taken(l).queued ==> tag in l.queued;
  }

  /** Whatever the peer then sends, the first IDENTIFIED in the queue answers the latest IDENTIFY. */
  ghost predicate AlwaysAnswersLatest(l: Line) {
    forall tags | Honest(l, tags) && ArriveAll(l, tags).queued != [] :: ArriveAll(l, tags).queued[0] == |l.frames| - 1
  }

  /**
   The IDENTIFIED the client takes is sure to answer the IDENTIFY just sent if and only if, when it was sent, no
   earlier IDENTIFY could still be answered and no IDENTIFIED was queued.
   */
  lemma AnswersLatestIff(l: Line, seed: uint32)
    requires Valid(l)
    ensures AlwaysAnswersLatest(Sent(l, seed)) <==> Quiet(l)
  {
    var s := Sent(l, seed);
    SendingSettles(l, seed);
    if Quiet(l) {
      forall tags | Honest(s, tags) && ArriveAll(s, tags).queued != []
        ensures ArriveAll(s, tags).queued[0] == |s.frames| - 1
      {
        ArrivalsKeep(s, tags);
        TakingKeeps(ArriveAll(s, tags));
      }
    } else if l.queued != [] {
      assert Honest(s, []) && ArriveAll(s, []) == s;
      assert s.queued[0] in l.queued;
    } else {
      var late := [l.next];
      assert late[..0] == [];
      assert ArriveAll(s, late[..0]) == s && Honest(s, late);
      assert ArriveAll(s, late).queued[0] == l.next;
    }
  }

  /**
   A send that throws after its IDENTIFY has left (SendIdentify of the client with `threw` and `left`): the next
   handshake sends a second one, and the late answer to the first is taken for the answer to the second, whose seed is
   reported.
   */
  lemma ThrownSendIsAnsweredLate(l: Line, first: uint32, second: uint32)
    requires Valid(l) && Quiet(l) && first != second
    ensures var s := Sent(Sent(l, first), second);
            var tag := |l.frames|;
            && CanArrive(s, tag) && Arrived(s, tag).queued == [tag]
            && s.frames[tag] == first && s.frames[|s.frames| - 1] == second
  {
  }

  /**
   A session closed with its IDENTIFIED in the queue (Close of the client leaves the line of the core as it is): that
   answer completes the next handshake on the same core.
   */
  lemma ClosedSessionAnswersNext(l: Line, first: uint32, second: uint32)
    requires Valid(l) && Quiet(l) && first != second
    ensures var closed := Arrived(Sent(l, first), |l.frames|);
            var s := Sent(closed, second);
            && Valid(closed) && !Quiet(closed)
            && s.queued == [|l.frames|] && s.frames[s.queued[0]] == first && s.frames[|s.frames| - 1] == second
  {
  }

  // What a caller can check before a handshake.

  /** What a caller sees of a core: an IDENTIFY was sent or its send threw, an answer was taken, a session closed. */
  datatype Event = Sends | Throws | Takes | Closes

  /** What happens to a core: the same, with what a caller does not see. */
  datatype Step =
    | Send(seed: uint32)
    | ThrowingSend(seed: uint32, left: bool)
    | Take
    | Close
    | Arrive(tag: nat)
    | Turn(n: nat)

  datatype State = State(line: Line, waiting: bool)

  predicate Enabled(s: State, step: Step) {
    match step
    case Send(_) => !s.waiting
    case ThrowingSend(_, _) => !s.waiting
    case Take => s.waiting && s.line.queued != []
    case Close => true
    case Arrive(tag) => CanArrive(s.line, tag)
    case Turn(n) => !s.waiting && n <= |s.line.queued|
  }

  function Next(s: State, step: Step): State
    requires Enabled(s, step)
  {
    match step
    case Send(seed) => State(Sent(s.line, seed), true)
    case ThrowingSend(seed, left) => if left then s.(line := Sent(s.line, seed)) else s
    case Take => State(Taken(s.line), false)
    case Close => s.(waiting := false)
    case Arrive(tag) => s.(line := Arrived(s.line, tag))
    case Turn(n) => s.(line := Turned(s.line, n))
  }

  /** The state after a run, if every step of it can happen. */
  function Run(steps: seq<Step>): Option<State> {
    if steps == [] then Some(State(NEW_LINE, false))
    else
      var before, step := Run(steps[..|steps| - 1]), steps[|steps| - 1];
      if before.Some? && Enabled(before.value, step) then Some(Next(before.value, step)) else None
  }

  function Seen(step: Step): seq<Event> {
    match step
    case Send(_) => [Sends]
    case ThrowingSend(_, _) => [Throws]
    case Take => [Takes]
    case Close => [Closes]
    case _ => []
  }

  function View(steps: seq<Step>): seq<Event> {
    if steps == [] then [] else View(steps[..|steps| - 1]) + Seen(steps[|steps| - 1])
  }

  predicate Waiting(view: seq<Event>) {
    view != [] && view[|view| - 1] == Sends
  }

  /** No send threw, and every IDENTIFY was answered before anything else happened. */
  ghost predicate Orderly(view: seq<Event>) {
    forall i | 0 <= i < |view| :: view[i] != Throws && (view[i] == Sends && i + 1 < |view| ==> view[i + 1] == Takes)
  }

  lemma OrderlyExtends(view: seq<Event>, e: Event)
    ensures Orderly(view + [e]) <==> Orderly(view) && e != Throws && (Waiting(view) ==> e == Takes)
  {
    var longer := view + [e];
    assert forall i | 0 <= i < |view| :: longer[i] == view[i];
    if Orderly(longer) {
      assert longer[|view|] != Throws;
      assert Waiting(view) ==> longer[|view| - 1] == Sends;
    }
  }

  /** An orderly view leaves at most the IDENTIFY waited for open. */
  ghost predicate Fits(s: State, view: seq<Event>) {
    && Valid(s.line) && s.waiting == Waiting(view)
    && (Orderly(view) ==> if s.waiting then Tight(s.line) else Quiet(s.line))
  }

  lemma StepFits(s: State, view: seq<Event>, step: Step)
    requires Fits(s, view) && Enabled(s, step)
    ensures Fits(Next(s, step), view + Seen(step))
  {
    hide Orderly;
    if Seen(step) != [] {
      OrderlyExtends(view, Seen(step)[0]);
    } else {
      assert view + Seen(step) == view;
    }
    if step.Turn? {
      TurningKeeps(s.line, step.n);
    } else if step.Take? {
      TakingKeeps(s.line);
    }
  }

  lemma {:induction false} RunFits(steps: seq<Step>)
    requires Run(steps).Some?
    ensures Fits(Run(steps).value, View(steps))
  {
    hide Fits;
    if steps == [] {
      StartFits();
    } else {
      var before := steps[..|steps| - 1];
      RunFits(before);
      StepFits(Run(before).value, View(before), steps[|steps| - 1]);
    }
  }

  lemma StartFits()
    ensures Fits(State(NEW_LINE, false), [])
  {
  }

  lemma RunExtends(steps: seq<Step>, step: Step)
    requires Run(steps).Some? && Enabled(Run(steps).value, step)
    ensures Run(steps + [step]) == Some(Next(Run(steps).value, step))
    ensures View(steps + [step]) == View(steps) + Seen(step)
  {
    assert (steps + [step])[..|steps|] == steps;
  }

  /** No answer waits, and those of all IDENTIFYs that were not answered are still to come. */
  ghost predicate Lags(s: State, view: seq<Event>) {
    && s.waiting == Waiting(view) && s.line.queued == []
    && |s.line.frames| >= s.line.next + (if s.waiting then 1 else 0) + (if Orderly(view) then 0 else 1)
  }

  function Leaving(step: Step): Step {
    match step
    case ThrowingSend(seed, _) => ThrowingSend(seed, true)
    case _ => step
  }

  /** A throwing send that left, or a session closed while it waited, adds one to the lag. */
  lemma SlowStep(s: State, view: seq<Event>, step: Step)
    requires Lags(s, view) && Enabled(s, step) && !step.Arrive? && !step.Turn? && (step.ThrowingSend? ==> step.left)
    ensures Lags(Next(s, step), view + Seen(step))
  {
    hide Orderly;
    OrderlyExtends(view, Seen(step)[0]);
  }

  /** An answer to the oldest open IDENTIFY arrives and is taken. */
  lemma SlowTake(s: State, view: seq<Event>)
    requires Lags(s, view) && s.waiting
    ensures var oldest := Arrive(s.line.next);
            && Enabled(s, oldest) && Enabled(Next(s, oldest), Take)
            && Lags(Next(Next(s, oldest), Take), view + [Takes])
  {
    hide Orderly;
    OrderlyExtends(view, Takes);
  }

  /**
   The run of a slow peer that a caller cannot tell from `steps`: every throwing send left, and an answer, always to
   the oldest open IDENTIFY, arrives only when one is taken.
   */
  lemma {:induction false} SlowPeer(steps: seq<Step>) returns (slow: seq<Step>)
    requires Run(steps).Some?
    ensures Run(slow).Some? && View(slow) == View(steps) && Lags(Run(slow).value, View(steps))
  {
    if steps == [] {
      return [];
    }
    var before, step := steps[..|steps| - 1], steps[|steps| - 1];
    RunFits(before);
    slow := SlowPeer(before);
    var s, view := Run(slow).value, View(before);
    assert Enabled(Run(before).value, step) && Run(before).value.waiting == s.waiting;
    assert View(steps) == view + Seen(step);
    hide Run, View, Lags, Next;
    match step
    case Take =>
      SlowTakes(slow, view);
      slow := slow + [Arrive(s.line.next)] + [Take];
    case Arrive(_) =>
    case Turn(_) =>
    case _ =>
      var taken := Leaving(step);
      RunExtends(slow, taken);
      SlowStep(s, view, taken);
      slow := slow + [taken];
  }

  lemma SlowTakes(slow: seq<Step>, view: seq<Event>)
    requires Run(slow).Some? && Lags(Run(slow).value, view) && Run(slow).value.waiting
    ensures var longer := slow + [Arrive(Run(slow).value.line.next)] + [Take];
            && Run(longer).Some? && View(longer) == View(slow) + [Takes]
            && Lags(Run(longer).value, view + [Takes])
  {
    hide Run, View, Lags, Next;
    var oldest := Arrive(Run(slow).value.line.next);
    SlowTake(Run(slow).value, view);
    RunExtends(slow, oldest);
    RunExtends(slow + [oldest], Take);
  }

  /**
   The condition a caller can check. Before a handshake on a core, its next answer is sure to be that of the IDENTIFY
   about to be sent, whatever the peer does and whichever throwing sends have left, if and only if no earlier send
   threw and no session was closed while it waited.
   */
  lemma AnswersLatestExactly(steps: seq<Step>, seed: uint32)
    requires Run(steps).Some? && !Run(steps).value.waiting
    ensures Orderly(View(steps)) <==>
            forall others | Run(others).Some? && View(others) == View(steps) ::
              AlwaysAnswersLatest(Sent(Run(others).value.line, seed))
  {
    hide Run, View, AlwaysAnswersLatest, Orderly;
    RunFits(steps);
    forall others | Run(others).Some? && View(others) == View(steps)
      ensures Orderly(View(steps)) ==> AlwaysAnswersLatest(Sent(Run(others).value.line, seed))
    {
      RunFits(others);
      AnswersLatestIff(Run(others).value.line, seed);
    }
    if !Orderly(View(steps)) {
      var slow := SlowPeer(steps);
      RunFits(slow);
      AnswersLatestIff(Run(slow).value.line, seed);
    }
  }
}
