/**
 The JSON-RPC client as a transition system: any number of callers and one reader
 thread share the identifier counter and the table of pending requests. Sections under
 the lock are single steps; everything between them can interleave.
 */
module RpcClient {
  import opened Sequences

  type Caller = int
  type BoxName = int
  type Payload = string

  /** A reply's identifier as a dictionary key; booleans and floats that equal a number are that number. */
  datatype ReplyId = Number(n: int) | Text(s: string) | Unhashable

  datatype Message = Message(id: ReplyId, result: Option<Payload>, error: Option<Payload>)

  /** A line from the worker; a fatal one is JSON, but no object the loop can handle. */
  datatype Line = Skipped | Fatal | Response(message: Message)

  /** `None` as a timeout, a number of seconds, or one that no lock can wait for: too large, infinite or not a
      number. */
  datatype Timeout = Forever | Seconds(seconds: real) | Unwaitable

  datatype Outcome =
    | Returned(message: Message)
    | Raised(message: Message)
    | TimedOut
    | SendFailed
    | EncodingFailed
    | TimeoutRefused

  datatype Stage = Registered | Waiting | Expired | Ended(outcome: Outcome)

  datatype Call = Call(id: int, box: BoxName, timeout: Timeout, stage: Stage)

  /** A queue of capacity one, with all it ever received and how much of that was taken. */
  datatype Box = Box(owner: int, received: seq<Message>, taken: nat)

  datatype Reader = Reading | Holding(message: Message, box: BoxName) | Stopped

  /** `registrants` only records who got which identifier. */
  datatype Client = Client(
    nextId: nat, pending: map<int, BoxName>, boxes: map<BoxName, Box>, calls: map<Caller, Call>, reader: Reader,
    registrants: map<int, Caller>)

  datatype Step =
    | Register(caller: Caller, box: BoxName, timeout: Timeout)
    | EncodeFails(caller: Caller)
    | Send(caller: Caller)
    | SendFails(caller: Caller)
    | Take(caller: Caller)
    | Expire(caller: Caller)
    | Refuse(caller: Caller)
    | Forget(caller: Caller)
    | Receive(line: Line)
    | Put
    | EndOfFile

  const START := Client(0, map[], map[], map[], Reading, map[])

  // ---------------------------------------------------------------- steps

  predicate InStage(s: Client, c: Caller, stage: Stage) {
    c in s.calls && s.calls[c].stage == stage && s.calls[c].box in s.boxes
  }

  predicate HasMessage(b: Box) {
    b.taken < |b.received|
  }

  /** The queue looks at the sign first, and at the rest of the value only when it has to wait. */
  predicate Negative(t: Timeout) {
    t.Seconds? && t.seconds < 0.0
  }

  predicate Refusable(t: Timeout) {
    Negative(t) || t.Unwaitable?
  }

  predicate Enabled(s: Client, step: Step) {
    match step
    case Register(c, b, _) => c !in s.calls && b !in s.boxes
    case EncodeFails(c) => InStage(s, c, Registered)
    case Send(c) => InStage(s, c, Registered)
    case SendFails(c) => InStage(s, c, Registered)
    case Take(c) => InStage(s, c, Waiting) && HasMessage(s.boxes[s.calls[c].box]) && !Negative(s.calls[c].timeout)
    case Expire(c) =>
      InStage(s, c, Waiting) && !HasMessage(s.boxes[s.calls[c].box])
      && s.calls[c].timeout.Seconds? && !Negative(s.calls[c].timeout)
    case Refuse(c) =>
      InStage(s, c, Waiting) && Refusable(s.calls[c].timeout)
      && (HasMessage(s.boxes[s.calls[c].box]) ==> Negative(s.calls[c].timeout))
    case Forget(c) => InStage(s, c, Expired)
    case Receive(_) => s.reader.Reading?
    case Put => s.reader.Holding? && s.reader.box in s.boxes
    case EndOfFile => s.reader.Reading?
  }

  function OutcomeOf(m: Message): Outcome {
    if m.error.Some? then Raised(m) else Returned(m)
  }

  function Staged(s: Client, c: Caller, stage: Stage): Client
    requires c in s.calls
  {
    s.(calls := s.calls[c := s.calls[c].(stage := stage)])
  }

  /** The reader takes the waiter out of the table before it hands the message over. */
  function Received(s: Client, line: Line): Client {
    match line
    case Skipped => s
    case Fatal => s.(reader := Stopped)
    case Response(m) =>
      if m.result.None? && m.error.None? then s
      else
        match m.id
        case Unhashable => s.(reader := Stopped)
        case Text(_) => s
        case Number(i) =>
          if i in s.pending then s.(pending := s.pending - {i}, reader := Holding(m, s.pending[i])) else s
  }

  /** A full queue refuses the message, and the refusal is swallowed. */
  function Delivered(b: Box, m: Message): Box {
    if HasMessage(b) then b else b.(received := b.received + [m])
  }

  function Next(s: Client, step: Step): Client
    requires Enabled(s, step)
  {
    match step
    case Register(c, b, timeout) =>
      var i := s.nextId + 1;
      s.(nextId := i, pending := s.pending[i := b], boxes := s.boxes[b := Box(i, [], 0)],
         calls := s.calls[c := Call(i, b, timeout, Registered)], registrants := s.registrants[i := c])
    case EncodeFails(c) => Staged(s, c, Ended(EncodingFailed))
    case Send(c) => Staged(s, c, Waiting)
    case SendFails(c) => Staged(s, c, Ended(SendFailed)).(pending := s.pending - {s.calls[c].id})
    case Take(c) =>
      var box := s.boxes[s.calls[c].box];
      Staged(s, c, Ended(OutcomeOf(box.received[box.taken])))
        .(boxes := s.boxes[s.calls[c].box := box.(taken := box.taken + 1)])
    case Expire(c) => Staged(s, c, Expired)
    case Refuse(c) => Staged(s, c, Ended(TimeoutRefused))
    case Forget(c) => Staged(s, c, Ended(TimedOut)).(pending := s.pending - {s.calls[c].id})
    case Receive(line) => Received(s, line)
    case Put =>
      s.(boxes := s.boxes[s.reader.box := Delivered(s.boxes[s.reader.box], s.reader.message)], reader := Reading)
    case EndOfFile => s.(reader := Stopped)
  }

  // ---------------------------------------------------------------- what every state satisfies

  predicate Held(s: Client, b: BoxName) {
    s.reader.Holding? && s.reader.box == b
  }

  /** At most one message, for its owner, and then the owner is no longer in the table. */
  predicate BoxOk(s: Client, b: BoxName)
    requires b in s.boxes
  {
    var box := s.boxes[b];
    && box.taken <= |box.received| <= 1
    && (box.received != [] ==> box.received[0].id == Number(box.owner) && box.owner !in s.pending && !Held(s, b))
    && (Held(s, b) ==> s.reader.message.id == Number(box.owner) && box.owner !in s.pending)
  }

  /** Where the call's identifier, its box and its message can be at each stage. */
  predicate StageOk(s: Client, call: Call)
    requires call.box in s.boxes
  {
    var box := s.boxes[call.box];
    match call.stage
    case Registered => box.taken == 0 && (call.id in s.pending || Held(s, call.box) || box.received != [])
    case Waiting => box.taken == 0 && (call.id in s.pending || Held(s, call.box) || box.received != [])
    case Expired => box.taken == 0 && !Refusable(call.timeout)
    case Ended(Returned(m)) => box.received == [m] && box.taken == 1 && m.error.None? && !Negative(call.timeout)
    case Ended(Raised(m)) => box.received == [m] && box.taken == 1 && m.error.Some? && !Negative(call.timeout)
    case Ended(TimedOut) => box.taken == 0 && call.id !in s.pending && !Refusable(call.timeout)
    case Ended(SendFailed) => box.taken == 0 && call.id !in s.pending
    case Ended(EncodingFailed) => box.taken == 0
    case Ended(TimeoutRefused) => box.taken == 0 && Refusable(call.timeout)
  }

  predicate CallOk(s: Client, c: Caller)
    requires c in s.calls
  {
    var call := s.calls[c];
    && 1 <= call.id <= s.nextId
    && call.id in s.registrants && s.registrants[call.id] == c
    && call.box in s.boxes && s.boxes[call.box].owner == call.id
    && StageOk(s, call)
  }

  predicate PendingOk(s: Client, i: int)
    requires i in s.pending
  {
    && 1 <= i <= s.nextId && i in s.registrants && s.registrants[i] in s.calls
    && s.calls[s.registrants[i]].id == i && s.calls[s.registrants[i]].box == s.pending[i]
  }

  ghost predicate Sound(s: Client) {
    && (forall c | c in s.calls :: CallOk(s, c))
    && (forall b | b in s.boxes :: BoxOk(s, b) && 1 <= s.boxes[b].owner <= s.nextId)
    && (forall i | i in s.pending :: PendingOk(s, i))
    && (forall i | i in s.registrants :: 1 <= i <= s.nextId)
    && (s.reader.Holding? ==> s.reader.box in s.boxes)
  }

  lemma StartSound()
    ensures Sound(START)
  {
  }

  lemma OwnBox(s: Client, c: Caller, d: Caller)
    requires Sound(s) && c in s.calls && d in s.calls && c != d
    ensures s.calls[c].id != s.calls[d].id && s.calls[c].box != s.calls[d].box
  {
    assert CallOk(s, c) && CallOk(s, d);
  }

  lemma RegisterKeeps(s: Client, c: Caller, b: BoxName, timeout: Timeout)
    requires Sound(s) && Enabled(s, Register(c, b, timeout))
    ensures Sound(Next(s, Register(c, b, timeout)))
  {
    var t := Next(s, Register(c, b, timeout));
    forall d | d in t.calls ensures CallOk(t, d) {
      if d != c {
        assert CallOk(s, d);
      }
    }
    forall x | x in t.boxes ensures BoxOk(t, x) && 1 <= t.boxes[x].owner <= t.nextId {
      if x != b {
        assert BoxOk(s, x);
      }
    }
    forall i | i in t.pending ensures PendingOk(t, i) {
      if i != t.nextId {
        assert PendingOk(s, i);
      }
    }
  }

  lemma StageKeeps(s: Client, c: Caller, stage: Stage)
    requires Sound(s) && c in s.calls && StageOk(s, s.calls[c].(stage := stage))
    ensures Sound(Staged(s, c, stage))
  {
    var t := Staged(s, c, stage);
    assert CallOk(s, c);
    forall d | d in t.calls ensures CallOk(t, d) {
      assert CallOk(s, d);
    }
    forall x | x in t.boxes ensures BoxOk(t, x) {
      assert BoxOk(s, x);
    }
    forall i | i in t.pending ensures PendingOk(t, i) {
      assert PendingOk(s, i);
    }
  }

  /** Ending a call that took no message and leaves the table. */
  lemma LeaveKeeps(s: Client, c: Caller, outcome: Outcome)
    requires Sound(s) && c in s.calls && (outcome.SendFailed? || outcome.TimedOut?)
    requires if outcome.SendFailed? then s.calls[c].stage.Registered? else s.calls[c].stage.Expired?
    ensures Sound(Staged(s, c, Ended(outcome)).(pending := s.pending - {s.calls[c].id}))
  {
    var t := Staged(s, c, Ended(outcome)).(pending := s.pending - {s.calls[c].id});
    assert CallOk(s, c);
    forall d | d in t.calls ensures CallOk(t, d) {
      assert CallOk(s, d);
      if d != c {
        OwnBox(s, c, d);
        assert t.calls[d] == s.calls[d];
        assert t.calls[d].id in t.pending <==> s.calls[d].id in s.pending;
      }
    }
    forall x | x in t.boxes ensures BoxOk(t, x) {
      assert BoxOk(s, x);
    }
    forall i | i in t.pending ensures PendingOk(t, i) {
      assert PendingOk(s, i);
    }
  }

  lemma TakeKeeps(s: Client, c: Caller)
    requires Sound(s) && Enabled(s, Take(c))
    ensures Sound(Next(s, Take(c)))
  {
    var t := Next(s, Take(c));
    var b := s.calls[c].box;
    assert CallOk(s, c) && BoxOk(s, b);
    assert s.boxes[b].received == [s.boxes[b].received[0]];
    forall d | d in t.calls ensures CallOk(t, d) {
      assert CallOk(s, d);
      if d != c {
        OwnBox(s, c, d);
        assert t.calls[d] == s.calls[d] && t.boxes[t.calls[d].box] == s.boxes[s.calls[d].box];
      }
    }
    forall x | x in t.boxes ensures BoxOk(t, x) && 1 <= t.boxes[x].owner <= t.nextId {
      assert BoxOk(s, x);
    }
    forall i | i in t.pending ensures PendingOk(t, i) {
      assert PendingOk(s, i);
    }
  }

  /** The reader picks up the waiter of a pending identifier. */
  lemma PickKeeps(s: Client, m: Message, i: int)
    requires Sound(s) && s.reader.Reading? && m.id == Number(i) && i in s.pending
    ensures Sound(s.(pending := s.pending - {i}, reader := Holding(m, s.pending[i])))
  {
    var b := s.pending[i];
    var t := s.(pending := s.pending - {i}, reader := Holding(m, b));
    assert PendingOk(s, i);
    var c := s.registrants[i];
    assert CallOk(s, c);
    forall d | d in t.calls ensures CallOk(t, d) {
      assert CallOk(s, d);
      if d != c {
        OwnBox(s, c, d);
        assert t.calls[d].id in t.pending <==> s.calls[d].id in s.pending;
      }
    }
    forall x | x in t.boxes ensures BoxOk(t, x) {
      assert BoxOk(s, x);
    }
    forall j | j in t.pending ensures PendingOk(t, j) {
      assert PendingOk(s, j);
    }
  }

  lemma StopKeeps(s: Client)
    requires Sound(s) && s.reader.Reading?
    ensures Sound(s.(reader := Stopped))
  {
    var t := s.(reader := Stopped);
    forall d | d in t.calls ensures CallOk(t, d) {
      assert CallOk(s, d);
    }
    forall x | x in t.boxes ensures BoxOk(t, x) {
      assert BoxOk(s, x);
    }
    forall i | i in t.pending ensures PendingOk(t, i) {
      assert PendingOk(s, i);
    }
  }

  lemma PutKeeps(s: Client)
    requires Sound(s) && Enabled(s, Put)
    ensures Sound(Next(s, Put))
    ensures !HasMessage(s.boxes[s.reader.box])
  {
    var t, b := Next(s, Put), s.reader.box;
    assert BoxOk(s, b);
    assert t.boxes[b].received == [s.reader.message];
    forall d | d in t.calls ensures CallOk(t, d) {
      assert CallOk(s, d);
      if s.calls[d].box != b {
        assert t.boxes[t.calls[d].box] == s.boxes[s.calls[d].box];
      }
    }
    forall x | x in t.boxes ensures BoxOk(t, x) && 1 <= t.boxes[x].owner <= t.nextId {
      assert BoxOk(s, x);
    }
    forall i | i in t.pending ensures PendingOk(t, i) {
      assert PendingOk(s, i);
    }
  }

  lemma StepKeeps(s: Client, step: Step)
    requires Sound(s) && Enabled(s, step)
    ensures Sound(Next(s, step))
  {
    match step
    case Register(c, b, timeout) => RegisterKeeps(s, c, b, timeout);
    case EncodeFails(c) => CallIsOk(s, c); StageKeeps(s, c, Ended(EncodingFailed));
    case Send(c) => CallIsOk(s, c); StageKeeps(s, c, Waiting);
    case SendFails(c) => LeaveKeeps(s, c, SendFailed);
    case Take(c) => TakeKeeps(s, c);
    case Expire(c) => CallIsOk(s, c); StageKeeps(s, c, Expired);
    case Refuse(c) => CallIsOk(s, c); StageKeeps(s, c, Ended(TimeoutRefused));
    case Forget(c) => LeaveKeeps(s, c, TimedOut);
    case Put => PutKeeps(s);
    case EndOfFile => StopKeeps(s);
    case Receive(line) =>
      if Received(s, line).reader.Stopped? {
        StopKeeps(s);
      } else if Received(s, line) != s {
        PickKeeps(s, line.message, line.message.id.n);
      }
  }

  lemma CallIsOk(s: Client, c: Caller)
    requires Sound(s) && c in s.calls
    ensures CallOk(s, c)
  {
  }

  // ---------------------------------------------------------------- runs

  ghost predicate Legal(s: Client, steps: seq<Step>)
    decreases |steps|
  {
    steps == [] || (Enabled(s, steps[0]) && Legal(Next(s, steps[0]), steps[1..]))
  }

  ghost function Run(s: Client, steps: seq<Step>): Client
    requires Legal(s, steps)
    decreases |steps|
  {
    if steps == [] then s else Run(Next(s, steps[0]), steps[1..])
  }

  lemma {:induction false} EveryRun(s: Client, steps: seq<Step>)
    requires Sound(s) && Legal(s, steps)
    ensures Sound(Run(s, steps))
    decreases |steps|
  {
    if steps != [] {
      StepKeeps(s, steps[0]);
      EveryRun(Next(s, steps[0]), steps[1..]);
    }
  }

  /**
   However callers, reader and worker interleave: a call that ended got its own message or
   none; its timeout was refused only if it is one that can be, and never got a message if it
   is negative; and the call left the table unless its request could not be encoded or its
   timeout was refused.
   */
  lemma EveryCall(steps: seq<Step>, c: Caller)
    requires Legal(START, steps) && c in Run(START, steps).calls && Run(START, steps).calls[c].stage.Ended?
    ensures
      var s := Run(START, steps);
      var call := s.calls[c];
      && call.box in s.boxes
      && (match call.stage.outcome
          case Returned(m) =>
            m.id == Number(call.id) && m.error.None? && s.boxes[call.box].received == [m] && !Negative(call.timeout)
          case Raised(m) =>
            m.id == Number(call.id) && m.error.Some? && s.boxes[call.box].received == [m] && !Negative(call.timeout)
          case TimedOut => s.boxes[call.box].taken == 0 && !Refusable(call.timeout)
          case TimeoutRefused => s.boxes[call.box].taken == 0 && Refusable(call.timeout)
          case _ => s.boxes[call.box].taken == 0)
      && (call.id in s.pending ==> call.stage.outcome.EncodingFailed? || call.stage.outcome.TimeoutRefused?)
  {
    StartSound();
    EveryRun(START, steps);
    var s := Run(START, steps);
    assert CallOk(s, c) && BoxOk(s, s.calls[c].box);
  }

  /** No box ever receives a second message or one that is not its owner's. */
  lemma EveryBox(steps: seq<Step>, b: BoxName)
    requires Legal(START, steps) && b in Run(START, steps).boxes
    ensures var box := Run(START, steps).boxes[b];
      |box.received| <= 1 && (box.received != [] ==> box.received[0].id == Number(box.owner))
  {
    StartSound();
    EveryRun(START, steps);
    assert BoxOk(Run(START, steps), b);
  }

  /** Two calls never share an identifier or a box. */
  lemma IdsNeverReused(steps: seq<Step>, c: Caller, d: Caller)
    requires Legal(START, steps) && c in Run(START, steps).calls && d in Run(START, steps).calls && c != d
    ensures var s := Run(START, steps);
      s.calls[c].id != s.calls[d].id && s.calls[c].box != s.calls[d].box
  {
    StartSound();
    EveryRun(START, steps);
    OwnBox(Run(START, steps), c, d);
  }

  /** An identifier that left the table never comes back, so later replies to it are dropped. */
  lemma {:induction false} NeverPendingAgain(s: Client, steps: seq<Step>, i: int)
    requires Sound(s) && Legal(s, steps) && i <= s.nextId && i !in s.pending
    ensures i !in Run(s, steps).pending && i <= Run(s, steps).nextId
    decreases |steps|
  {
    hide Sound;
    if steps != [] {
      StepKeeps(s, steps[0]);
      NeverPendingAgain(Next(s, steps[0]), steps[1..], i);
    }
  }

  lemma LateRepliesDropped(s: Client, steps: seq<Step>, i: int, m: Message)
    requires Sound(s) && Legal(s, steps) && i <= s.nextId && i !in s.pending
    requires m.id == Number(i)
    ensures Received(Run(s, steps), Response(m)) == Run(s, steps)
  {
    NeverPendingAgain(s, steps, i);
  }

  /** A reply is never lost to a waiting caller: it is expected, in the reader's hand or in the box. */
  lemma NothingLost(steps: seq<Step>, c: Caller)
    requires Legal(START, steps) && c in Run(START, steps).calls && Run(START, steps).calls[c].stage.Waiting?
    ensures var s := Run(START, steps);
      var call := s.calls[c];
      call.box in s.boxes && (call.id in s.pending || Held(s, call.box) || HasMessage(s.boxes[call.box]))
  {
    StartSound();
    EveryRun(START, steps);
    assert CallOk(Run(START, steps), c);
  }

  /** The end of the stream, a line the loop cannot handle, or an answer whose identifier is no dictionary key. */
  predicate StopsReader(step: Step) {
    match step
    case EndOfFile => true
    case Receive(Fatal) => true
    case Receive(Response(m)) => m.id.Unhashable? && (m.result.Some? || m.error.Some?)
    case _ => false
  }

  lemma StoppedStep(s: Client, step: Step)
    requires Enabled(s, step)
    ensures Next(s, step).reader.Stopped? <==> s.reader.Stopped? || StopsReader(step)
  {
  }

  lemma {:induction false} StoppedRun(s: Client, steps: seq<Step>)
    requires Legal(s, steps)
    ensures Run(s, steps).reader.Stopped? <==>
      s.reader.Stopped? || exists k :: 0 <= k < |steps| && StopsReader(steps[k])
    decreases |steps|
  {
    hide Enabled, Next, StopsReader;
    if steps != [] {
      StoppedStep(s, steps[0]);
      StoppedRun(Next(s, steps[0]), steps[1..]);
      assert forall k | 0 < k < |steps| :: steps[k] == steps[1..][k - 1];
      if k :| 0 <= k < |steps[1..]| && StopsReader(steps[1..][k]) {
        assert StopsReader(steps[k + 1]);
      }
    }
  }

  /** The reader goes on reading exactly until one of these steps: blank lines, notifications and answers do not
      end it. */
  lemma ReaderStopsExactly(steps: seq<Step>)
    requires Legal(START, steps)
    ensures Run(START, steps).reader.Stopped? <==> exists k :: 0 <= k < |steps| && StopsReader(steps[k])
  {
    StoppedRun(START, steps);
  }

  /** What the reader still has in hand is handed over first. */
  function Unload(s: Client): seq<Step> {
    if s.reader.Holding? then [Put] else []
  }

  lemma {:induction false} RunAppends(s: Client, steps: seq<Step>, step: Step)
    requires Legal(s, steps) && Enabled(Run(s, steps), step)
    ensures Legal(s, steps + [step]) && Run(s, steps + [step]) == Next(Run(s, steps), step)
    decreases |steps|
  {
    hide Enabled, Next;
    if steps == [] {
      assert (steps + [step])[1..] == [];
      assert Run(Next(s, step), []) == Next(s, step);
    } else {
      assert (steps + [step])[1..] == steps[1..] + [step];
      RunAppends(Next(s, steps[0]), steps[1..], step);
    }
  }

  lemma ReplyReceived(s: Client, c: Caller, m: Message)
    requires Sound(s) && s.reader.Reading? && InStage(s, c, Waiting) && s.calls[c].id in s.pending
    requires m.id == Number(s.calls[c].id) && (m.result.Some? || m.error.Some?)
    ensures Enabled(s, Receive(Response(m)))
    ensures var t := Next(s, Receive(Response(m)));
      Sound(t) && t.reader == Holding(m, s.calls[c].box) && t.calls == s.calls && t.boxes == s.boxes
  {
    assert CallOk(s, c) && PendingOk(s, s.calls[c].id);
    StepKeeps(s, Receive(Response(m)));
  }

  lemma ReplyPut(s: Client, c: Caller, m: Message)
    requires Sound(s) && InStage(s, c, Waiting) && s.reader == Holding(m, s.calls[c].box)
    requires !Negative(s.calls[c].timeout)
    ensures Enabled(s, Put)
    ensures var t := Next(s, Put);
      && t.calls == s.calls && s.calls[c].box in t.boxes && t.boxes[s.calls[c].box].received == [m]
      && Enabled(t, Take(c)) && (forall step | OwnStep(c, step) && Enabled(t, step) :: step == Take(c))
      && Next(t, Take(c)).calls[c].stage == Ended(if m.error.Some? then Raised(m) else Returned(m))
  {
    assert CallOk(s, c) && BoxOk(s, s.calls[c].box);
    PutKeeps(s);
    StepKeeps(s, Put);
    assert CallOk(Next(s, Put), c);
  }

  lemma UnloadedStill(s: Client, c: Caller)
    requires Sound(s) && !s.reader.Stopped? && InStage(s, c, Waiting) && s.calls[c].id in s.pending
    ensures Legal(s, Unload(s))
    ensures var t := Run(s, Unload(s));
      Sound(t) && t.reader.Reading? && t.calls == s.calls && t.pending == s.pending && InStage(t, c, Waiting)
  {
    if s.reader.Holding? {
      StepKeeps(s, Put);
      assert Unload(s)[1..] == [];
      assert Run(s, Unload(s)) == Next(s, Put);
    }
  }

  /**
   As long as the reader has not stopped, an answer to a waiting call reaches it: once the reader
   has handed over what it holds, it can read the answer and put it into the call's box, and then
   the call can only end, with exactly this message, raised if it carries an error.
   */
  lemma ReplyReachesCaller(past: seq<Step>, c: Caller, m: Message)
    requires Legal(START, past)
    requires var s := Run(START, past);
      && !s.reader.Stopped? && InStage(s, c, Waiting) && s.calls[c].id in s.pending && !Negative(s.calls[c].timeout)
      && m.id == Number(s.calls[c].id) && (m.result.Some? || m.error.Some?)
    ensures
      var s := Run(START, past);
      var delivery := Unload(s) + [Receive(Response(m))] + [Put];
      && Legal(s, delivery) && s.calls[c].box in Run(s, delivery).boxes
      && Run(s, delivery).boxes[s.calls[c].box].received == [m]
      && (forall step | OwnStep(c, step) :: Enabled(Run(s, delivery), step) <==> step == Take(c))
      && Next(Run(s, delivery), Take(c)).calls[c].stage == Ended(if m.error.Some? then Raised(m) else Returned(m))
  {
    hide Enabled, Next, Sound, Negative, Legal, Run, Unload;
    StartSound();
    EveryRun(START, past);
    var s := Run(START, past);
    UnloadedStill(s, c);
    var t := Run(s, Unload(s));
    ReplyReceived(t, c, m);
    RunAppends(s, Unload(s), Receive(Response(m)));
    ReplyPut(Next(t, Receive(Response(m))), c, m);
    RunAppends(s, Unload(s) + [Receive(Response(m))], Put);
  }

  function Remaining(stage: Stage): nat {
    match stage
    case Registered => 3
    case Waiting => 2
    case Expired => 1
    case Ended(_) => 0
  }

  predicate OwnStep(c: Caller, step: Step) {
    match step
    case EncodeFails(d) => c == d
    case Send(d) => c == d
    case SendFails(d) => c == d
    case Take(d) => c == d
    case Expire(d) => c == d
    case Refuse(d) => c == d
    case Forget(d) => c == d
    case _ => false
  }

  /** A call that waits without a timeout and has no message. */
  predicate WaitsForReply(s: Client, c: Caller) {
    InStage(s, c, Waiting) && s.calls[c].timeout.Forever? && !HasMessage(s.boxes[s.calls[c].box])
  }

  /**
   Whatever the others do, a call that has not ended can take a step of its own, exactly
   unless it waits for a reply without a timeout; and at most three of them end it.
   */
  lemma NeverStuck(s: Client, c: Caller)
    requires Sound(s) && c in s.calls && !s.calls[c].stage.Ended?
    ensures (exists step :: OwnStep(c, step) && Enabled(s, step)) <==> !WaitsForReply(s, c)
    ensures forall step | OwnStep(c, step) && Enabled(s, step) ::
      Remaining(Next(s, step).calls[c].stage) < Remaining(s.calls[c].stage) <= 3
  {
    assert CallOk(s, c);
    if !WaitsForReply(s, c) {
      var step := match s.calls[c].stage
        case Registered => Send(c)
        case Waiting =>
          if Negative(s.calls[c].timeout) then Refuse(c)
          else if HasMessage(s.boxes[s.calls[c].box]) then Take(c)
          else if s.calls[c].timeout.Unwaitable? then Refuse(c)
          else Expire(c)
        case _ => Forget(c);
      assert OwnStep(c, step) && Enabled(s, step);
    }
  }

  /** Steps of others never set a call back. */
  lemma OthersLeaveIt(s: Client, step: Step, c: Caller)
    requires Sound(s) && Enabled(s, step) && c in s.calls
    ensures c in Next(s, step).calls && Remaining(Next(s, step).calls[c].stage) <= Remaining(s.calls[c].stage)
    ensures s.calls[c].stage.Ended? ==> Next(s, step).calls[c] == s.calls[c]
  {
  }

  /** The queue is never full when the reader delivers, so the swallowed refusal never happens. */
  lemma DeliveryNeverRefused(steps: seq<Step>)
    requires Legal(START, steps) && Run(START, steps).reader.Holding?
    ensures var s := Run(START, steps);
      s.reader.box in s.boxes && !HasMessage(s.boxes[s.reader.box])
  {
    StartSound();
    EveryRun(START, steps);
    PutKeeps(Run(START, steps));
  }

  /** A request that cannot be encoded has ended and is still in the table. */
  lemma UnencodableStays(s: Client, c: Caller, b: BoxName, timeout: Timeout)
    requires Sound(s) && Enabled(s, Register(c, b, timeout))
    ensures Enabled(Next(s, Register(c, b, timeout)), EncodeFails(c))
    ensures var t := Next(Next(s, Register(c, b, timeout)), EncodeFails(c));
      t.calls[c].stage == Ended(EncodingFailed) && t.calls[c].id in t.pending
  {
  }

  /**
   A request that was sent and not answered yet is refused its timeout exactly if that is
   negative or cannot be waited for; then it has ended and is still in the table.
   */
  lemma RefusedStays(s: Client, c: Caller, b: BoxName, timeout: Timeout)
    requires Sound(s) && Enabled(s, Register(c, b, timeout))
    ensures Enabled(Next(s, Register(c, b, timeout)), Send(c))
    ensures var sent := Next(Next(s, Register(c, b, timeout)), Send(c));
      && (Enabled(sent, Refuse(c)) <==> Refusable(timeout))
      && (Enabled(sent, Refuse(c)) ==>
            var t := Next(sent, Refuse(c));
            t.calls[c].stage == Ended(TimeoutRefused) && t.calls[c].id in t.pending)
  {
  }

  /** The worker's reply to an identifier reaches the reading loop. */
  predicate Replies(step: Step, i: int) {
    step.Receive? && step.line.Response? && step.line.message.id == Number(i)
    && (step.line.message.result.Some? || step.line.message.error.Some?)
  }

  predicate LeftBehind(s: Client, c: Caller) {
    c in s.calls && s.calls[c].id in s.pending
    && (s.calls[c].stage == Ended(EncodingFailed) || s.calls[c].stage == Ended(TimeoutRefused))
  }

  /** Such a request stays in the table exactly until a reply to its identifier arrives. */
  lemma {:induction false} LeftUntilReply(s: Client, steps: seq<Step>, c: Caller)
    requires Sound(s) && Legal(s, steps) && LeftBehind(s, c)
    ensures s.calls[c].id in Run(s, steps).pending <==> forall k | 0 <= k < |steps| :: !Replies(steps[k], s.calls[c].id)
    decreases |steps|
  {
    hide Sound, Next;
    if steps != [] {
      var i, step, rest := s.calls[c].id, steps[0], steps[1..];
      StepKeeps(s, step);
      LeftBehindStep(s, step, c);
      assert forall k | 0 < k < |steps| :: steps[k] == rest[k - 1];
      if Replies(step, i) {
        NeverPendingAgain(Next(s, step), rest, i);
      } else {
        LeftUntilReply(Next(s, step), rest, c);
      }
    }
  }

  lemma LeftBehindStep(s: Client, step: Step, c: Caller)
    requires Sound(s) && Enabled(s, step) && LeftBehind(s, c)
    ensures s.calls[c].id <= Next(s, step).nextId
    ensures if Replies(step, s.calls[c].id) then s.calls[c].id !in Next(s, step).pending
      else LeftBehind(Next(s, step), c) && Next(s, step).calls[c].id == s.calls[c].id
  {
    assert CallOk(s, c);
    OthersLeaveIt(s, step, c);
    if (step.SendFails? || step.Forget?) && step.caller != c {
      OwnBox(s, step.caller, c);
    }
  }
}
