/**
 Tasks sharing the serial line through the lock semaphore of bsp_ser. Every received byte, every
 transmitted byte and every semaphore operation is a step of its own; a script picks task and
 step, so a theorem over all scripts is a theorem over all interleavings.

 A wait that returns has normally acquired the semaphore. When the wait reports failure, the
 string calls return at once, but the byte calls ignore the report and carry on (step Proceed).
 */
module SerLock {
  import opened Wrappers
  import opened Sequences
  import opened BspSer

  datatype Call = RdByte | RdStr(len: nat) | WrByte(c: nat) | WrStr(text: seq<nat>)

  /** `rx` is what the call received so far, `owed` what it sends before it receives again. */
  datatype Task = Idle | Waiting(call: Call) | Working(call: Call, rx: seq<nat>, owed: seq<nat>)

  datatype Action = Begin(call: Call) | Acquire | Fail | Proceed | Send | Receive(c: nat) | Release

  /** A completed call and what it received. */
  datatype Done = Done(call: Call, rx: seq<nat>)

  datatype System = System(
    count: nat,               // BSP_SerLock
    tasks: map<nat, Task>,
    tx: seq<nat>,             // bytes transmitted
    log: seq<Done>)           // completed calls, in the order they released the lock

  const START: System := System(1, map[], [], [])

  function Blank(len: nat): (start: seq<nat>)
    ensures |start| == Reach(len) + 1
  {
    Repeat(0, Reach(len) + 1)
  }

  /** The whole output of a call that has received `rx`. */
  function Output(call: Call, rx: seq<nat>): seq<nat> {
    match call
    case RdByte => []
    case WrByte(c) => [c]
    case WrStr(text) => Expand(text)
    case RdStr(len) =>
      if rx != [] && IsEnd(rx[|rx| - 1])
      then Echo(len, Blank(len), rx[..|rx| - 1]) + [LINE_FEED, CARRIAGE_RETURN]
      else Echo(len, Blank(len), rx)
  }

  /** What the call owes after receiving `c` on top of `rx`. */
  function Answer(call: Call, rx: seq<nat>, c: nat): seq<nat> {
    match call
    case RdStr(len) =>
      if IsEnd(c) then [LINE_FEED, CARRIAGE_RETURN] else Echo1(Edit(len, Blank(len), rx).ix, c)
    case _ => []
  }

  predicate Complete(call: Call, rx: seq<nat>) {
    match call
    case RdByte => |rx| == 1
    case RdStr(_) => rx != [] && IsEnd(rx[|rx| - 1])
    case _ => rx == []
  }

  function TaskOf(s: System, t: nat): Task {
    if t in s.tasks then s.tasks[t] else Idle
  }

  /** One step of task `t`; None when the task cannot take it. */
  function Do(s: System, t: nat, action: Action): Option<System> {
    match (TaskOf(s, t), action)
    case (Idle, Begin(call)) => Some(s.(tasks := s.tasks[t := Waiting(call)]))
    case (Waiting(call), Acquire) =>
      if s.count == 0 then None
      else Some(s.(count := s.count - 1, tasks := s.tasks[t := Working(call, [], Output(call, []))]))
    case (Waiting(call), Fail) =>
      if call.RdByte? || call.WrByte? then None else Some(s.(tasks := s.tasks[t := Idle]))
    case (Waiting(call), Proceed) =>
      if call.RdByte? || call.WrByte?
      then Some(s.(tasks := s.tasks[t := Working(call, [], Output(call, []))])) else None
    case (Working(call, rx, owed), Send) =>
      if owed == [] then None
      else Some(s.(tx := s.tx + [owed[0]], tasks := s.tasks[t := Working(call, rx, owed[1..])]))
    case (Working(call, rx, owed), Receive(c)) =>
      if owed != [] || Complete(call, rx) then None
      else Some(s.(tasks := s.tasks[t := Working(call, rx + [c], Answer(call, rx, c))]))
    case (Working(call, rx, owed), Release) =>
      if owed != [] || !Complete(call, rx) then None
      else Some(s.(count := s.count + 1, tasks := s.tasks[t := Idle], log := s.log + [Done(call, rx)]))
    case _ => None
  }

  function Run(s: System, script: seq<(nat, Action)>): Option<System>
    decreases script
  {
    if script == [] then Some(s) else
    match Do(s, script[0].0, script[0].1)
    case Some(s') => Run(s', script[1..])
    case None => None
  }

  // The lock

  /** The tasks between acquiring and releasing the lock. */
  function Holders(s: System): set<nat> {
    set t | t in s.tasks && s.tasks[t].Working?
  }

  /** The byte calls that carried on after a failed wait. */
  function Proceeds(script: seq<(nat, Action)>): nat
    decreases script
  {
    if script == [] then 0 else (if script[0].1.Proceed? then 1 else 0) + Proceeds(script[1..])
  }

  lemma StepCount(s: System, t: nat, action: Action)
    requires Do(s, t, action).Some?
    ensures var s' := Do(s, t, action).value;
            s'.count + |Holders(s')| == s.count + |Holders(s)| + (if action.Proceed? then 1 else 0)
  {
    hide Output, Answer, Holders;
    HoldersAfter(s, Do(s, t, action).value, t);
  }

  lemma HoldersAfter(s: System, s': System, t: nat)
    requires s'.tasks == s.tasks[t := TaskOf(s', t)]
    ensures |Holders(s')| + (if TaskOf(s, t).Working? then 1 else 0)
         == |Holders(s)| + (if TaskOf(s', t).Working? then 1 else 0)
  {
    hide Holders, TaskOf;
    HoldersChange(s, s', t);
  }

  lemma HoldersChange(s: System, s': System, t: nat)
    requires s'.tasks == s.tasks[t := TaskOf(s', t)]
    ensures t in Holders(s) <==> TaskOf(s, t).Working?
    ensures Holders(s') == if TaskOf(s', t).Working? then Holders(s) + {t} else Holders(s) - {t}
  {
    assert forall u: nat | u != t :: u in Holders(s') <==> u in Holders(s);
  }

  lemma {:induction false} RunCount(s: System, script: seq<(nat, Action)>)
    requires Run(s, script).Some?
    ensures var s' := Run(s, script).value;
            s'.count + |Holders(s')| == s.count + |Holders(s)| + Proceeds(script)
    decreases script
  {
    if script != [] {
      hide Do, Holders;
      StepCount(s, script[0].0, script[0].1);
      RunCount(Do(s, script[0].0, script[0].1).value, script[1..]);
    }
  }

  /**
   In every interleaving the lock count plus the number of holders is one more than the number
   of byte calls that carried on after a failed wait: always 1 exactly when there are none.
   */
  lemma LockCount(script: seq<(nat, Action)>)
    requires Run(START, script).Some?
    ensures var s := Run(START, script).value;
            s.count + |Holders(s)| == 1 + Proceeds(script)
  {
    RunCount(START, script);
    assert Holders(START) == {};
  }

  // The transmitted stream

  function Sent(log: seq<Done>): seq<nat> {
    if log == [] then [] else
    Sent(log[..|log| - 1]) + Output(log[|log| - 1].call, log[|log| - 1].rx)
  }

  /** What the working task has sent so far. */
  ghost predicate InProgress(s: System, t: nat) {
    match TaskOf(s, t)
    case Working(call, rx, owed) =>
      && Sent(s.log) <= s.tx
      && s.tx[|Sent(s.log)|..] + owed == Output(call, rx)
      && Receivable(call, rx)
    case _ => false
  }

  /** Input a call can have received: a string call stops at the first line end. */
  ghost predicate Receivable(call: Call, rx: seq<nat>) {
    match call
    case RdByte => |rx| <= 1
    case RdStr(_) => rx != [] ==> IsBody(rx[..|rx| - 1])
    case _ => rx == []
  }

  ghost predicate Inv(s: System) {
    && (forall i | 0 <= i < |s.log| ::
          Complete(s.log[i].call, s.log[i].rx) && Receivable(s.log[i].call, s.log[i].rx))
    && if s.count == 1
       then s.tx == Sent(s.log) && forall t: nat :: !TaskOf(s, t).Working?
       else s.count == 0 && exists h: nat :: InProgress(s, h) && forall t: nat | t != h :: !TaskOf(s, t).Working?
  }

  lemma AnswerExtends(call: Call, rx: seq<nat>, c: nat)
    requires Receivable(call, rx) && !Complete(call, rx) && (call.RdByte? || call.RdStr?)
    ensures Output(call, rx + [c]) == Output(call, rx) + Answer(call, rx, c)
    ensures Receivable(call, rx + [c])
  {
    hide Echo, Edit, Blank;
    assert (rx + [c])[..|rx|] == rx;
    if call.RdStr? {
      EditSnoc(call.len, Blank(call.len), rx, c);
      StillBody(rx);
    }
  }

  lemma StillBody(rx: seq<nat>)
    requires rx != [] ==> IsBody(rx[..|rx| - 1]) && !IsEnd(rx[|rx| - 1])
    ensures IsBody(rx)
  {
    if rx != [] {
      assert rx == rx[..|rx| - 1] + [rx[|rx| - 1]];
    }
  }

  lemma OthersStay(s: System, t: nat, action: Action)
    requires Do(s, t, action).Some?
    ensures forall u: nat | u != t :: TaskOf(Do(s, t, action).value, u) == TaskOf(s, u)
  {
  }

  lemma SendOne(before: seq<nat>, tx: seq<nat>, owed: seq<nat>)
    requires before <= tx && owed != []
    ensures before <= tx + [owed[0]]
    ensures (tx + [owed[0]])[|before|..] + owed[1..] == tx[|before|..] + owed
  {
    assert (tx + [owed[0]])[|before|..] == tx[|before|..] + [owed[0]];
    assert owed == [owed[0]] + owed[1..];
  }

  lemma SendKeepsInv(s: System, t: nat)
    requires Inv(s) && Do(s, t, Send).Some?
    ensures Inv(Do(s, t, Send).value)
  {
    hide Output, Answer, Sent, Receivable;
    OthersStay(s, t, Send);
    SendOne(Sent(s.log), s.tx, TaskOf(s, t).owed);
    assert InProgress(Do(s, t, Send).value, t);
  }

  lemma ReceiveKeepsInv(s: System, t: nat, c: nat)
    requires Inv(s) && Do(s, t, Receive(c)).Some?
    ensures Inv(Do(s, t, Receive(c)).value)
  {
    hide Output, Answer, Sent;
    OthersStay(s, t, Receive(c));
    AnswerExtends(TaskOf(s, t).call, TaskOf(s, t).rx, c);
    assert InProgress(Do(s, t, Receive(c)).value, t);
  }

  lemma ReleaseKeepsInv(s: System, t: nat)
    requires Inv(s) && Do(s, t, Release).Some?
    ensures Inv(Do(s, t, Release).value)
  {
    hide Output, Answer;
    var s' := Do(s, t, Release).value;
    OthersStay(s, t, Release);
    assert s'.log[..|s.log|] == s.log;
  }

  lemma AcquireKeepsInv(s: System, t: nat)
    requires Inv(s) && Do(s, t, Acquire).Some?
    ensures Inv(Do(s, t, Acquire).value)
  {
    hide Output, Answer, Sent;
    OthersStay(s, t, Acquire);
    assert InProgress(Do(s, t, Acquire).value, t);
  }

  /** Beginning a call and giving up after a failed wait leave the line alone. */
  lemma IdleStepKeepsInv(s: System, t: nat, action: Action)
    requires Inv(s) && Do(s, t, action).Some? && (action.Begin? || action.Fail?)
    ensures Inv(Do(s, t, action).value)
  {
    hide Output, Answer, Sent;
    var s' := Do(s, t, action).value;
    OthersStay(s, t, action);
    if s.count == 0 {
      var h: nat :| InProgress(s, h) && forall u: nat | u != h :: !TaskOf(s, u).Working?;
      assert InProgress(s', h);
    }
  }

  lemma StepKeepsInv(s: System, t: nat, action: Action)
    requires Inv(s) && Do(s, t, action).Some? && !action.Proceed?
    ensures Inv(Do(s, t, action).value)
  {
    hide Inv, Output, Answer, Sent;
    match action
    case Acquire => AcquireKeepsInv(s, t);
    case Release => ReleaseKeepsInv(s, t);
    case Send => SendKeepsInv(s, t);
    case Receive(c) => ReceiveKeepsInv(s, t, c);
    case _ => IdleStepKeepsInv(s, t, action);
  }

  lemma {:induction false} RunKeepsInv(s: System, script: seq<(nat, Action)>)
    requires Inv(s) && Run(s, script).Some? && Proceeds(script) == 0
    ensures Inv(Run(s, script).value)
    decreases script
  {
    if script != [] {
      hide Do, Inv;
      StepKeepsInv(s, script[0].0, script[0].1);
      RunKeepsInv(Do(s, script[0].0, script[0].1).value, script[1..]);
    }
  }

  /**
   The transmitted stream is the whole outputs of the completed calls in lock order, followed by
   a prefix of the holder's output; with no holder there is no such rest, so no bytes are mixed.
   */
  ghost predicate WholeCalls(s: System) {
    && (forall i | 0 <= i < |s.log| ::
          Complete(s.log[i].call, s.log[i].rx) && Receivable(s.log[i].call, s.log[i].rx))
    && Sent(s.log) <= s.tx
    && (|| (Holders(s) == {} && s.tx == Sent(s.log))
        || (exists h: nat ::
              Holders(s) == {h} && s.tx[|Sent(s.log)|..] <= Output(s.tasks[h].call, s.tasks[h].rx)))
  }

  /** While no byte call carries on after a failed wait, no two calls' bytes ever mix. */
  lemma StreamIsWholeCalls(script: seq<(nat, Action)>)
    requires Run(START, script).Some? && Proceeds(script) == 0
    ensures WholeCalls(Run(START, script).value)
  {
    hide Output, Sent, Run;
    assert Sent([]) == [] by { SentNothing(); }
    RunKeepsInv(START, script);
    var s := Run(START, script).value;
    if s.count == 0 {
      var h: nat :| InProgress(s, h) && forall t: nat | t != h :: !TaskOf(s, t).Working?;
      OnlyHolder(s, h);
    } else {
      NoHolder(s);
    }
  }

  lemma NoHolder(s: System)
    requires forall t: nat :: !TaskOf(s, t).Working?
    ensures Holders(s) == {}
  {
    assert forall t | t in Holders(s) :: TaskOf(s, t).Working?;
  }

  lemma SentNothing()
    ensures Sent([]) == []
  {
  }

  lemma OnlyHolder(s: System, h: nat)
    requires TaskOf(s, h).Working? && forall t: nat | t != h :: !TaskOf(s, t).Working?
    ensures Holders(s) == {h}
  {
    assert forall t | t in Holders(s) :: TaskOf(s, t).Working?;
  }

  /** The echo does not depend on what the caller's buffer held. */
  lemma {:induction false} EchoIgnoresBuffer(len: nat, start: seq<nat>, start': seq<nat>, body: seq<nat>)
    requires Reach(len) < |start| && Reach(len) < |start'|
    ensures Edit(len, start, body).ix == Edit(len, start', body).ix
    ensures Echo(len, start, body) == Echo(len, start', body)
  {
    if body != [] {
      EchoIgnoresBuffer(len, start, start', body[..|body| - 1]);
    }
  }

  /** A completed string read contributes exactly what BSP_Ser_RdStr echoes for its input. */
  lemma CompletedRead(len: nat, start: seq<nat>, rx: seq<nat>)
    requires Reach(len) < |start| && Complete(RdStr(len), rx) && Receivable(RdStr(len), rx)
    ensures IsBody(rx[..|rx| - 1]) && IsEnd(rx[|rx| - 1])
    ensures Output(RdStr(len), rx) == Echo(len, start, rx[..|rx| - 1]) + [0x0A, 0x0D]
  {
    hide Blank, Edit, Echo;
    EchoIgnoresBuffer(len, Blank(len), start, rx[..|rx| - 1]);
  }

  /** A string write contributes its text with every LF expanded, a byte write its byte, a byte read nothing. */
  lemma CompletedWrite(text: seq<nat>, c: nat, rx: seq<nat>)
    ensures Collapse(Output(WrStr(text), [])) == text && AllNewlinesExpanded(Output(WrStr(text), []))
    ensures Output(WrByte(c), []) == [c] && Output(RdByte, rx) == []
  {
    CollapseExpand(text);
    ExpandedNewlines(text);
  }

  // What a call takes from the input

  /** A byte read takes one byte, a string read the bytes up to the first line end, a write nothing. */
  ghost predicate TakesItsInput(done: Done) {
    match done.call
    case RdByte => |done.rx| == 1
    case RdStr(_) =>
      && done.rx != []
      && (forall i | 0 <= i < |done.rx| ::
            (done.rx[i] == 0x0D || done.rx[i] == 0x0A) <==> i == |done.rx| - 1)
    case _ => done.rx == []
  }

  ghost predicate InputInv(s: System) {
    && (forall i | 0 <= i < |s.log| :: TakesItsInput(s.log[i]))
    && (forall t: nat | TaskOf(s, t).Working? :: Receivable(TaskOf(s, t).call, TaskOf(s, t).rx))
  }

  lemma CompleteTakes(call: Call, rx: seq<nat>)
    requires Receivable(call, rx) && Complete(call, rx)
    ensures TakesItsInput(Done(call, rx))
  {
    if call.RdStr? {
      var body := rx[..|rx| - 1];
      assert forall i | 0 <= i < |rx| - 1 :: rx[i] == body[i];
    }
  }

  lemma StepTakes(s: System, t: nat, action: Action)
    requires InputInv(s) && Do(s, t, action).Some?
    ensures InputInv(Do(s, t, action).value)
  {
    hide Output, Answer, TakesItsInput, Complete, Receivable, TaskOf;
    OthersStay(s, t, action);
    StepReceivable(s, t, action);
  }

  /** What one step does to the input of its own call. */
  lemma StepReceivable(s: System, t: nat, action: Action)
    requires Do(s, t, action).Some?
    requires TaskOf(s, t).Working? ==> Receivable(TaskOf(s, t).call, TaskOf(s, t).rx)
    ensures var s' := Do(s, t, action).value;
            && (TaskOf(s', t).Working? ==> Receivable(TaskOf(s', t).call, TaskOf(s', t).rx))
            && (s'.log == s.log
                || exists done | TakesItsInput(done) :: s'.log == s.log + [done])
  {
    hide Output, Answer, TakesItsInput, Complete, Receivable;
    match (TaskOf(s, t), action) {
      case (Waiting(call), _) =>
        NothingReceived(call);
      case (Working(call, rx, _), Receive(c)) =>
        ReceivableStep(call, rx, c);
      case (Working(call, rx, _), Release) =>
        CompleteTakes(call, rx);
      case _ =>
    }
  }

  lemma NothingReceived(call: Call)
    ensures Receivable(call, [])
  {
  }

  lemma ReceivableStep(call: Call, rx: seq<nat>, c: nat)
    requires Receivable(call, rx) && !Complete(call, rx)
    ensures Receivable(call, rx + [c])
  {
    if call.RdStr? {
      StillBody(rx);
      assert (rx + [c])[..|rx|] == rx;
    }
  }

  lemma {:induction false} RunTakes(s: System, script: seq<(nat, Action)>)
    requires InputInv(s) && Run(s, script).Some?
    ensures InputInv(Run(s, script).value)
    decreases script
  {
    if script != [] {
      hide InputInv, Do;
      StepTakes(s, script[0].0, script[0].1);
      RunTakes(Do(s, script[0].0, script[0].1).value, script[1..]);
    }
  }

  /** In every interleaving, ignored waits or not, every completed call has taken exactly its input. */
  lemma CallsTakeTheirInput(script: seq<(nat, Action)>)
    requires Run(START, script).Some?
    ensures forall i | 0 <= i < |Run(START, script).value.log| :: TakesItsInput(Run(START, script).value.log[i])
  {
    hide Run;
    RunTakes(START, script);
  }

  // The calls of a script, noted by an observer who knows nothing of the lock

  /** A call, what it has received, and the positions in the stream of the bytes that it has sent. */
  datatype Entry = Entry(done: Done, sends: seq<nat>)

  /** The calls begun and not yet over, the calls released, and how many bytes all calls have sent. */
  datatype Notes = Notes(open: map<nat, Entry>, released: seq<Entry>, sent: nat)

  const NO_NOTES: Notes := Notes(map[], [], 0)

  function NoteReceived(e: Entry, c: nat): Entry {
    e.(done := Done(e.done.call, e.done.rx + [c]))
  }

  /** A string call is over when its wait fails, a byte call only when it releases the lock. */
  function Note(n: Notes, t: nat, action: Action): Notes {
    match action
    case Begin(call) => n.(open := n.open[t := Entry(Done(call, []), [])])
    case Acquire => n
    case Proceed => n
    case Fail =>
      if t in n.open && (n.open[t].done.call.RdByte? || n.open[t].done.call.WrByte?) then n
      else n.(open := n.open - {t})
    case Receive(c) =>
      if t in n.open then n.(open := n.open[t := NoteReceived(n.open[t], c)]) else n
    case Send =>
      if t in n.open
      then Notes(n.open[t := n.open[t].(sends := n.open[t].sends + [n.sent])], n.released, n.sent + 1)
      else n
    case Release =>
      if t in n.open then Notes(n.open - {t}, n.released + [n.open[t]], n.sent) else n
  }

  function Noted(n: Notes, script: seq<(nat, Action)>): Notes
    decreases script
  {
    if script == [] then n else Noted(Note(n, script[0].0, script[0].1), script[1..])
  }

  predicate Within(sends: seq<nat>, tx: seq<nat>) {
    forall i | 0 <= i < |sends| :: sends[i] < |tx|
  }

  /** The bytes of the stream at the given positions. */
  function Picked(tx: seq<nat>, sends: seq<nat>): seq<nat>
    requires Within(sends, tx)
  {
    seq(|sends|, i requires 0 <= i < |sends| => tx[sends[i]])
  }

  /** The call released has sent its whole output. */
  predicate SentWhole(e: Entry, tx: seq<nat>) {
    Within(e.sends, tx) && Picked(tx, e.sends) == Output(e.done.call, e.done.rx)
  }

  /** The task is where the notes say: at which call, with what input, and with what it still owes. */
  predicate IsNoted(task: Task, open: map<nat, Entry>, t: nat, tx: seq<nat>) {
    match task
    case Idle => t !in open
    case Waiting(call) => t in open && open[t] == Entry(Done(call, []), [])
    case Working(call, rx, owed) =>
      && t in open && open[t].done == Done(call, rx)
      && Within(open[t].sends, tx) && Picked(tx, open[t].sends) + owed == Output(call, rx)
  }

  ghost predicate Agrees(s: System, n: Notes) {
    && |s.tx| == n.sent && |s.log| == |n.released|
    && (forall i | 0 <= i < |s.log| :: s.log[i] == n.released[i].done && SentWhole(n.released[i], s.tx))
    && (forall t: nat :: IsNoted(TaskOf(s, t), n.open, t, s.tx))
  }

  lemma PickedNext(tx: seq<nat>, b: nat, sends: seq<nat>)
    requires Within(sends, tx)
    ensures Within(sends, tx + [b]) && Picked(tx + [b], sends) == Picked(tx, sends)
    ensures Within(sends + [|tx|], tx + [b]) && Picked(tx + [b], sends + [|tx|]) == Picked(tx, sends) + [b]
  {
  }

  /** A byte sent by task `t` changes nothing for the other tasks and the released calls. */
  lemma OthersSent(s: System, n: Notes, t: nat, b: nat)
    requires Agrees(s, n)
    ensures forall i | 0 <= i < |s.log| :: SentWhole(n.released[i], s.tx + [b])
    ensures forall u: nat | u != t :: IsNoted(TaskOf(s, u), n.open, u, s.tx + [b])
  {
    hide Output, Picked, TaskOf;
    forall i | 0 <= i < |s.log| ensures SentWhole(n.released[i], s.tx + [b]) {
      PickedNext(s.tx, b, n.released[i].sends);
    }
    forall u: nat | u != t ensures IsNoted(TaskOf(s, u), n.open, u, s.tx + [b]) {
      assert IsNoted(TaskOf(s, u), n.open, u, s.tx);
      if TaskOf(s, u).Working? {
        PickedNext(s.tx, b, n.open[u].sends);
      }
    }
  }

  lemma SendAgrees(s: System, n: Notes, t: nat)
    requires Agrees(s, n) && Do(s, t, Send).Some?
    ensures Agrees(Do(s, t, Send).value, Note(n, t, Send))
  {
    hide Output, Answer, Complete, Picked;
    var s', n', owed := Do(s, t, Send).value, Note(n, t, Send), TaskOf(s, t).owed;
    OthersStay(s, t, Send);
    OthersSent(s, n, t, owed[0]);
    assert IsNoted(TaskOf(s, t), n.open, t, s.tx);
    PickedNext(s.tx, owed[0], n.open[t].sends);
    Reassociate(Picked(s.tx, n.open[t].sends), [owed[0]], owed[1..]);
    assert [owed[0]] + owed[1..] == owed;
    assert forall u: nat | u != t :: IsNoted(TaskOf(s', u), n'.open, u, s'.tx);
  }

  lemma ReceiveAgrees(s: System, n: Notes, t: nat, c: nat)
    requires Agrees(s, n) && InputInv(s) && Do(s, t, Receive(c)).Some?
    ensures Agrees(Do(s, t, Receive(c)).value, Note(n, t, Receive(c)))
  {
    hide Output, Answer, Picked;
    var s', n' := Do(s, t, Receive(c)).value, Note(n, t, Receive(c));
    OthersStay(s, t, Receive(c));
    assert IsNoted(TaskOf(s, t), n.open, t, s.tx);
    AnswerExtends(TaskOf(s, t).call, TaskOf(s, t).rx, c);
    assert forall u: nat | u != t :: IsNoted(TaskOf(s, u), n.open, u, s.tx);
  }

  /** All other steps send nothing and bring nothing in. */
  lemma QuietStepAgrees(s: System, n: Notes, t: nat, action: Action)
    requires Agrees(s, n) && Do(s, t, action).Some? && !action.Send? && !action.Receive?
    ensures Agrees(Do(s, t, action).value, Note(n, t, action))
  {
    hide Output, Answer, Complete;
    OthersStay(s, t, action);
    assert IsNoted(TaskOf(s, t), n.open, t, s.tx);
    assert forall u: nat | u != t :: IsNoted(TaskOf(s, u), n.open, u, s.tx);
  }

  lemma {:induction false} RunAgrees(s: System, n: Notes, script: seq<(nat, Action)>)
    requires Agrees(s, n) && InputInv(s) && Run(s, script).Some?
    ensures Agrees(Run(s, script).value, Noted(n, script))
    decreases script
  {
    if script != [] {
      hide Agrees, InputInv, Do, Note;
      var (t, action) := script[0];
      match action {
        case Send => SendAgrees(s, n, t);
        case Receive(c) => ReceiveAgrees(s, n, t, c);
        case _ => QuietStepAgrees(s, n, t, action);
      }
      StepTakes(s, t, action);
      RunAgrees(Do(s, t, action).value, Note(n, t, action), script[1..]);
    }
  }

  /**
   In every interleaving, ignored waits or not, the completed calls are those the script began,
   in the order it releases them, each with exactly the bytes the script brought it; and the
   bytes of the stream that its own Send steps transmitted are, in order, its whole output. A
   task is idle exactly when its call was released or was a string call whose wait failed.
   */
  lemma EveryCallIsServed(script: seq<(nat, Action)>)
    requires Run(START, script).Some?
    ensures var s, n := Run(START, script).value, Noted(NO_NOTES, script);
            && |s.tx| == n.sent && |s.log| == |n.released|
            && (forall i | 0 <= i < |s.log| :: s.log[i] == n.released[i].done && SentWhole(n.released[i], s.tx))
            && (forall t: nat :: IsNoted(TaskOf(s, t), n.open, t, s.tx))
  {
    RunAgrees(START, NO_NOTES, script);
  }

  /**
   No task is ever stuck but for the lock and for input. An idle task can begin any call; a
   waiting one can acquire the lock exactly when its count is not 0, and when its wait fails a
   string call gives up and a byte call carries on; a working one has one kind of step: to send
   what it owes, to receive whatever comes, or to release the lock.
   */
  lemma NeverStuck(s: System, t: nat, call: Call, c: nat)
    ensures match TaskOf(s, t)
            case Idle => Do(s, t, Begin(call)).Some?
            case Waiting(own) =>
              && (Do(s, t, Acquire).Some? <==> s.count > 0)
              && (Do(s, t, Fail).Some? <==> own.RdStr? || own.WrStr?)
              && (Do(s, t, Proceed).Some? <==> own.RdByte? || own.WrByte?)
            case Working(own, rx, owed) =>
              && (Do(s, t, Send).Some? <==> owed != [])
              && (Do(s, t, Receive(c)).Some? <==> owed == [] && !Complete(own, rx))
              && (Do(s, t, Release).Some? <==> owed == [] && Complete(own, rx))
  {
  }

  // One call with no other task stepping

  function At(s: System, t: nat, call: Call, rx: seq<nat>, owed: seq<nat>, tx: seq<nat>): System
    requires s.count > 0
  {
    s.(count := s.count - 1, tasks := s.tasks[t := Working(call, rx, owed)], tx := tx)
  }

  lemma OneStep(s: System, t: nat, action: Action, s': System, rest: seq<(nat, Action)>)
    requires Do(s, t, action).Some? && Do(s, t, action).value == s'
    ensures Run(s, [(t, action)] + rest) == Run(s', rest)
    ensures Proceeds([(t, action)] + rest) == (if action.Proceed? then 1 else 0) + Proceeds(rest)
  {
    hide Do;
    assert ([(t, action)] + rest)[1..] == rest;
  }

  lemma {:induction false} SendsOwed(s: System, t: nat, call: Call, rx: seq<nat>, owed: seq<nat>, tx: seq<nat>,
                                     rest: seq<(nat, Action)>) returns (script: seq<(nat, Action)>)
    requires s.count > 0
    ensures Run(At(s, t, call, rx, owed, tx), script) == Run(At(s, t, call, rx, [], tx + owed), rest)
    ensures Proceeds(script) == Proceeds(rest)
    decreases owed
  {
    if owed == [] {
      assert tx + [] == tx;
      return rest;
    }
    hide Run, Proceeds;
    script := SendsOwed(s, t, call, rx, owed[1..], tx + [owed[0]], rest);
    assert tx + [owed[0]] + owed[1..] == tx + owed;
    var s', s'' := At(s, t, call, rx, owed, tx), At(s, t, call, rx, owed[1..], tx + [owed[0]]);
    assert s''.tasks == s'.tasks[t := Working(call, rx, owed[1..])];
    OneStep(s', t, Send, s'', script);
    script := [(t, Send)] + script;
  }

  lemma ReceivablePrefix(call: Call, rx: seq<nat>, i: nat)
    requires Receivable(call, rx) && Complete(call, rx) && i < |rx|
    ensures call.RdByte? || call.RdStr?
    ensures Receivable(call, rx[..i]) && !Complete(call, rx[..i])
  {
    if call.RdStr? {
      var body := rx[..|rx| - 1];
      assert forall k | 0 <= k < i :: rx[..i][k] == body[k];
      assert i > 0 ==> rx[..i][..i - 1] == body[..i - 1];
    }
  }

  /** One byte arrives and is answered. */
  lemma ReceivesOne(s: System, t: nat, call: Call, got: seq<nat>, c: nat, tx: seq<nat>, rest: seq<(nat, Action)>)
      returns (script: seq<(nat, Action)>)
    requires s.count > 0 && !Complete(call, got)
    ensures Run(At(s, t, call, got, [], tx), script)
         == Run(At(s, t, call, got + [c], [], tx + Answer(call, got, c)), rest)
    ensures Proceeds(script) == Proceeds(rest)
  {
    hide Run, Proceeds, Output, Answer, Complete;
    var answer := Answer(call, got, c);
    script := SendsOwed(s, t, call, got + [c], answer, tx, rest);
    var s', s'' := At(s, t, call, got, [], tx), At(s, t, call, got + [c], answer, tx);
    assert s''.tasks == s'.tasks[t := Working(call, got + [c], answer)];
    OneStep(s', t, Receive(c), s'', script);
    script := [(t, Receive(c))] + script;
  }

  lemma OneMore(call: Call, rx: seq<nat>, i: nat, tx: seq<nat>)
    requires Receivable(call, rx) && Complete(call, rx) && i < |rx|
    ensures !Complete(call, rx[..i]) && rx[..i + 1] == rx[..i] + [rx[i]]
    ensures tx + Output(call, rx[..i]) + Answer(call, rx[..i], rx[i]) == tx + Output(call, rx[..i + 1])
  {
    hide *;
    ReceivablePrefix(call, rx, i);
    AnswerExtends(call, rx[..i], rx[i]);
    TakeNext(rx, i);
    Reassociate(tx, Output(call, rx[..i]), Answer(call, rx[..i], rx[i]));
  }

  lemma TakeNext(s: seq<nat>, i: nat)
    requires i < |s|
    ensures s[..i + 1] == s[..i] + [s[i]]
  {
  }

  lemma Reassociate(a: seq<nat>, b: seq<nat>, c: seq<nat>)
    ensures a + b + c == a + (b + c)
  {
  }

  /** From the first `i` received bytes on, with `sent` transmitted, the rest arrives and is answered. */
  lemma {:induction false} ReceivesRest(s: System, t: nat, call: Call, rx: seq<nat>, i: nat, tx: seq<nat>, sent: seq<nat>,
                                        rest: seq<(nat, Action)>) returns (script: seq<(nat, Action)>)
    requires s.count > 0 && Receivable(call, rx) && Complete(call, rx) && i <= |rx|
    requires sent == tx + Output(call, rx[..i])
    ensures Run(At(s, t, call, rx[..i], [], sent), script) == Run(At(s, t, call, rx, [], tx + Output(call, rx)), rest)
    ensures Proceeds(script) == Proceeds(rest)
    decreases |rx| - i
  {
    if i == |rx| {
      assert rx[..i] == rx;
      return rest;
    }
    hide *;
    OneMore(call, rx, i, tx);
    var more := sent + Answer(call, rx[..i], rx[i]);
    script := ReceivesRest(s, t, call, rx, i + 1, tx, more, rest);
    script := ReceivesOne(s, t, call, rx[..i], rx[i], sent, script);
  }

  /**
   With the lock free, any idle task can make any call with any input the call can receive: it
   completes, adds its whole output to the stream and leaves the lock free again.
   */
  lemma AloneCompletes(s: System, t: nat, call: Call, rx: seq<nat>)
    requires s.count > 0 && TaskOf(s, t) == Idle && Receivable(call, rx) && Complete(call, rx)
    ensures exists script :: Proceeds(script) == 0
              && Run(s, script)
                 == Some(System(s.count, s.tasks[t := Idle], s.tx + Output(call, rx), s.log + [Done(call, rx)]))
  {
    hide *;
    var end := System(s.count, s.tasks[t := Idle], s.tx + Output(call, rx), s.log + [Done(call, rx)]);
    var script := Releases(s, t, call, rx, s.tx + Output(call, rx));
    assert rx[..0] == [];
    script := ReceivesRest(s, t, call, rx, 0, s.tx, s.tx + Output(call, []), script);
    script := SendsOwed(s, t, call, [], Output(call, []), s.tx, script);
    script := Acquires(s, t, call, script);
    assert Run(s, script) == Some(end);
  }

  lemma Releases(s: System, t: nat, call: Call, rx: seq<nat>, tx: seq<nat>) returns (script: seq<(nat, Action)>)
    requires s.count > 0 && Complete(call, rx)
    ensures Proceeds(script) == 0
    ensures Run(At(s, t, call, rx, [], tx), script)
         == Some(System(s.count, s.tasks[t := Idle], tx, s.log + [Done(call, rx)]))
  {
    hide Output, Answer, Complete;
    var at, end := At(s, t, call, rx, [], tx), System(s.count, s.tasks[t := Idle], tx, s.log + [Done(call, rx)]);
    assert at.tasks[t := Idle] == end.tasks;
    assert Run(end, []) == Some(end) && Proceeds([]) == 0;
    hide Run, Proceeds;
    OneStep(at, t, Release, end, []);
    script := [(t, Release)] + [];
  }

  lemma Acquires(s: System, t: nat, call: Call, rest: seq<(nat, Action)>) returns (script: seq<(nat, Action)>)
    requires s.count > 0 && TaskOf(s, t) == Idle
    ensures Proceeds(script) == Proceeds(rest)
    ensures Run(s, script) == Run(At(s, t, call, [], Output(call, []), s.tx), rest)
  {
    hide Run, Proceeds, Output, Answer, Complete;
    var s1, s2 := s.(tasks := s.tasks[t := Waiting(call)]), At(s, t, call, [], Output(call, []), s.tx);
    assert s2.tasks == s1.tasks[t := Working(call, [], Output(call, []))];
    OneStep(s1, t, Acquire, s2, rest);
    script := [(t, Acquire)] + rest;
    OneStep(s, t, Begin(call), s1, script);
    script := [(t, Begin(call))] + script;
  }

  // Failed waits that are ignored: task 0 writes "ab" under the lock, task 1 writes "x" without it.

  const AB: Call := WrStr([0x61, 0x62])
  const X: Call := WrByte(0x78)

  function Two(count: nat, first: Task, second: Task, tx: seq<nat>, log: seq<Done>): System {
    System(count, map[0 := first, 1 := second], tx, log)
  }

  lemma Then(s: System, t: nat, action: Action, s': System, rest: seq<(nat, Action)>)
    requires t <= 1 && s.tasks.Keys == s'.tasks.Keys == {0, 1} && s'.tasks[1 - t] == s.tasks[1 - t]
    requires Do(s, t, action) == Some(s'.(tasks := s.tasks[t := s'.tasks[t]]))
    ensures Run(s, [(t, action)] + rest) == Run(s', rest)
    ensures Proceeds([(t, action)] + rest) == (if action.Proceed? then 1 else 0) + Proceeds(rest)
  {
    hide Do;
    assert ([(t, action)] + rest)[1..] == rest;
    assert s.tasks[t := s'.tasks[t]] == s'.tasks;
  }

  lemma Outputs()
    ensures Output(AB, []) == [0x61, 0x62] && Output(X, []) == [0x78]
    ensures [0x61, 0x62][1..] == [0x62] && [0x62][1..] == [] && [0x78][1..] == []
  {
    var text := [0x61, 0x62];
    assert text[1..] == [0x62] && [0x62][1..] == [] && Expand([]) == [] && Expand([0x62]) == [0x62];
  }

  /** Task 1, waiting, carries on without the lock, whatever task 0 is doing. */
  lemma Ignores(count: nat, first: Task, tx: seq<nat>, log: seq<Done>, rest: seq<(nat, Action)>)
      returns (script: seq<(nat, Action)>)
    ensures Proceeds(script) == 1 + Proceeds(rest)
    ensures Run(Two(count, first, Waiting(X), tx, log), script)
         == Run(Two(count + 1, first, Idle, tx + [0x78], log + [Done(X, [])]), rest)
  {
    hide Output, Answer, Run, Proceeds;
    Outputs();
    var s1 := Two(count, first, Waiting(X), tx, log);
    var s2 := Two(count, first, Working(X, [], [0x78]), tx, log);
    var s3 := Two(count, first, Working(X, [], []), tx + [0x78], log);
    var s4 := Two(count + 1, first, Idle, tx + [0x78], log + [Done(X, [])]);
    Then(s3, 1, Release, s4, rest);
    script := [(1, Release)] + rest;
    Then(s2, 1, Send, s3, script);
    script := [(1, Send)] + script;
    Then(s1, 1, Proceed, s2, script);
    script := [(1, Proceed)] + script;
  }

  /** `n` more calls of task 1 that ignore a failed wait. */
  lemma {:induction false} IgnoresAgain(n: nat, count: nat, tx: seq<nat>, log: seq<Done>)
      returns (script: seq<(nat, Action)>)
    ensures Proceeds(script) == n
    ensures Run(Two(count, Idle, Idle, tx, log), script)
         == Some(Two(count + n, Idle, Idle, tx + Repeat(0x78, n), log + Repeat(Done(X, []), n)))
  {
    if n == 0 {
      assert tx + Repeat(0x78, 0) == tx && log + Repeat(Done(X, []), 0) == log;
      return [];
    }
    hide Output, Answer, Run, Proceeds, Repeat;
    script := IgnoresAgain(n - 1, count + 1, tx + [0x78], log + [Done(X, [])]);
    assert tx + [0x78] + Repeat(0x78, n - 1) == tx + Repeat(0x78, n);
    assert log + [Done(X, [])] + Repeat(Done(X, []), n - 1) == log + Repeat(Done(X, []), n);
    script := Ignores(count, Idle, tx, log, script);
    Then(Two(count, Idle, Idle, tx, log), 1, Begin(X), Two(count, Idle, Waiting(X), tx, log), script);
    script := [(1, Begin(X))] + script;
  }

  lemma MixedStart(rest: seq<(nat, Action)>) returns (script: seq<(nat, Action)>)
    ensures Proceeds(script) == Proceeds(rest)
    ensures Run(START, script) == Run(Two(0, Working(AB, [], [0x62]), Waiting(X), [0x61], []), rest)
  {
    hide Output, Answer, Run, Proceeds;
    Outputs();
    var s2 := Two(1, Waiting(AB), Waiting(X), [], []);
    var s3 := Two(0, Working(AB, [], [0x61, 0x62]), Waiting(X), [], []);
    var s4 := Two(0, Working(AB, [], [0x62]), Waiting(X), [0x61], []);
    assert [] + [0x61] == [0x61];
    Then(s3, 0, Send, s4, rest);
    script := [(0, Send)] + rest;
    Then(s2, 0, Acquire, s3, script);
    script := [(0, Acquire)] + script;
    BothBegin(script);
    script := [(0, Begin(AB)), (1, Begin(X))] + script;
  }

  lemma BothBegin(rest: seq<(nat, Action)>)
    ensures var script := [(0, Begin(AB)), (1, Begin(X))] + rest;
            && Proceeds(script) == Proceeds(rest)
            && Run(START, script) == Run(Two(1, Waiting(AB), Waiting(X), [], []), rest)
  {
    var script := [(0, Begin(AB)), (1, Begin(X))] + rest;
    assert script[1..] == [(1, Begin(X))] + rest && script[1..][1..] == rest;
    var s1 := START.(tasks := map[0 := Waiting(AB)]);
    assert Do(START, 0, Begin(AB)) == Some(s1);
    assert Do(s1, 1, Begin(X)) == Some(Two(1, Waiting(AB), Waiting(X), [], []));
  }

  /** The interrupted call of task 0 runs to its end. */
  lemma MixedEnd(count: nat, tx: seq<nat>, log: seq<Done>, rest: seq<(nat, Action)>)
      returns (script: seq<(nat, Action)>)
    ensures Proceeds(script) == Proceeds(rest)
    ensures Run(Two(count, Working(AB, [], [0x62]), Idle, tx, log), script)
         == Run(Two(count + 1, Idle, Idle, tx + [0x62], log + [Done(AB, [])]), rest)
  {
    hide Output, Answer, Run, Proceeds;
    Outputs();
    var s1 := Two(count, Working(AB, [], [0x62]), Idle, tx, log);
    var s2 := Two(count, Working(AB, [], []), Idle, tx + [0x62], log);
    var s3 := Two(count + 1, Idle, Idle, tx + [0x62], log + [Done(AB, [])]);
    Then(s2, 0, Release, s3, rest);
    script := [(0, Release)] + rest;
    Then(s1, 0, Send, s2, script);
    script := [(0, Send)] + script;
  }

  /** Every 'a' has its 'b' right behind it, as in any sequence of whole outputs of AB and X. */
  ghost predicate Paired(tx: seq<nat>) {
    forall i | 0 <= i < |tx| && tx[i] == 0x61 :: i + 1 < |tx| && tx[i + 1] == 0x62
  }

  lemma {:induction false} WholeOutputsPaired(log: seq<Done>)
    requires forall i | 0 <= i < |log| :: log[i] == Done(AB, []) || log[i] == Done(X, [])
    ensures Paired(Sent(log))
  {
    if log != [] {
      WholeOutputsPaired(log[..|log| - 1]);
      Outputs();
      hide Output;
    }
  }

  /** All calls are completed and the stream is not made of their whole outputs, in any order. */
  ghost predicate Mixed(s: System) {
    Holders(s) == {} && forall order | multiset(order) == multiset(s.log) :: s.tx != Sent(order)
  }

  /**
   For every number of ignored waits but none: an interleaving in which all calls complete and the
   stream is mixed.
   */
  lemma IgnoredWaitsMixBytes(n: nat)
    requires n >= 1
    ensures exists script :: Proceeds(script) == n && Run(START, script).Some? && Mixed(Run(START, script).value)
  {
    hide Output, Run, Proceeds, Repeat, Sent;
    var tx, log := [0x61, 0x78, 0x62], [Done(X, []), Done(AB, [])];
    var more := IgnoresAgain(n - 1, 2, tx, log);
    assert [0x61] + [0x78] + [0x62] == tx && [] + [Done(X, [])] + [Done(AB, [])] == log;
    var end := MixedEnd(1, [0x61] + [0x78], [] + [Done(X, [])], more);
    var middle := Ignores(0, Working(AB, [], [0x62]), [0x61], [], end);
    var script := MixedStart(middle);
    var s := Two(n + 1, Idle, Idle, tx + Repeat(0x78, n - 1), log + Repeat(Done(X, []), n - 1));
    assert Run(START, script) == Some(s);
    NoHolder(s);
    forall order | multiset(order) == multiset(s.log) ensures s.tx != Sent(order) {
      forall i | 0 <= i < |order| ensures order[i] == Done(AB, []) || order[i] == Done(X, []) {
        assert order[i] in multiset(order);
        assert order[i] in s.log;
      }
      WholeOutputsPaired(order);
      assert s.tx[0] == 0x61 && s.tx[1] == 0x78;
    }
  }

  lemma MixedNotWhole(s: System)
    requires Mixed(s)
    ensures !WholeCalls(s)
  {
    hide Holders, Sent, Output;
    assert s.tx != Sent(s.log);
  }

  /** The stream is whole in every interleaving with `n` ignored waits exactly when `n` is 0. */
  lemma WholeCallsExactly(n: nat)
    ensures n == 0 <==>
              forall script | Run(START, script).Some? && Proceeds(script) == n ::
                WholeCalls(Run(START, script).value)
  {
    hide Run, Proceeds, WholeCalls, Mixed;
    if n == 0 {
      forall script | Run(START, script).Some? && Proceeds(script) == n
        ensures WholeCalls(Run(START, script).value)
      {
        StreamIsWholeCalls(script);
      }
    } else {
      IgnoredWaitsMixBytes(n);
      var script :| Proceeds(script) == n && Run(START, script).Some?
        && Mixed(Run(START, script).value);
      MixedNotWhole(Run(START, script).value);
      assert !(Run(START, script).Some? && Proceeds(script) == n ==> WholeCalls(Run(START, script).value));
    }
  }
}
