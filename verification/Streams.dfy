/** The debug container streamer: internal/app/debug/container_streams.go, as a transition
    system over the interleavings of stream, sendLoop, recvLoop, the container and the client. */
module Streams {
  import opened Wrappers

  type Bytes = seq<bv8>
  type uint32 = n: int | 0 <= n < 0x1_0000_0000

  /** What goes to the client over srv.Send. */
  datatype Message = Stdout(data: Bytes) | ExitCode(code: int)

  datatype Status = Exited(code: uint32) | StatusFailed

  /** The conversion of the exit code wraps. */
  function ToInt32(code: uint32): int {
    if code < 0x8000_0000 then code else code - 0x1_0000_0000
  }

  datatype Result = Success | StatusError | ExitSendError | SendLoopError | RecvLoopError | ContextError

  /** Where stream is; InExitSend is inside srv.Send. */
  datatype Main =
    | Select
    | AwaitSend(code: uint32)
    | ReadyToSendExit(code: uint32)
    | InExitSend(code: uint32)
    | AwaitRecvAfterExit
    | AwaitRecvCancelled
    | AwaitSendCancelled
    | Returned(result: Result)

  /** Where sendLoop is; Sending is inside srv.Send, Reporting blocks on the unbuffered channel. */
  datatype Sender = Reading | Sending(chunk: Bytes) | SendReporting(failed: bool) | SendDone

  datatype Receiver = Receiving | WritingStdin(rest: Bytes) | RecvReporting(failed: bool) | RecvDone

  /** What the container wrote is what sendLoop accepted and what is pending. */
  datatype StdoutPipe = StdoutPipe(written: Bytes, accepted: Bytes, pending: Bytes)

  /** What the client sent, and what of it the container consumed. */
  datatype StdinPipe = StdinPipe(received: Bytes, consumed: Bytes)

  /** The messages sent, and whether sending some output failed. */
  datatype Wire = Wire(sent: seq<Message>, failed: bool)

  /** Whether stream has cancelled its context, or the client has by leaving. */
  datatype Context = Live | Cancelled | ClientGone

  function Cancel(c: Context): Context {
    if c.Live? then Cancelled else c
  }

  datatype State = State(
    main: Main,
    sender: Sender,
    receiver: Receiver,
    sendChNil: bool,
    recvChNil: bool,
    status: Option<Status>,
    context: Context,
    stdoutClosed: bool,
    stdinClosed: bool,
    stdout: StdoutPipe,
    stdin: StdinPipe,
    wire: Wire)

  datatype Action =
    // the container, its runtime and the client
    | ContainerWrite(data: Bytes) | ContainerReadStdin(n: nat) | TaskEnds(status: Status) | ClientLeaves
    // sendLoop
    | ReadStdout(n: nat) | StdoutEof | StdoutError | SendSucceeds | SendCanceled | SendFails
    // recvLoop
    | RecvStdin(data: Bytes) | RecvControl | RecvEnds(failed: bool) | StdinWriteFails
    // stream
    | SelectStatus | SelectSend | SelectRecv | SelectDone
    | SendLoopExits | BeginExitSend | ExitSendSucceeds | ExitSendFails | RecvLoopExits

  const BUFFER: nat := 512

  const INIT :=
    State(Select, Reading, Receiving, false, false, None, Live, false, false, StdoutPipe([], [], []), StdinPipe([], []), Wire([], false))

  function ContainerStep(s: State, a: Action): Option<State> {
    match a
    case ContainerWrite(data) =>
      if s.stdout.pending != [] || s.stdoutClosed || data == [] then None
      else Some(s.(stdout := s.stdout.(pending := data, written := s.stdout.written + data)))
    case ContainerReadStdin(n) =>
      if !s.receiver.WritingStdin? || s.stdinClosed || n > |s.receiver.rest| then None
      else
        var rest := s.receiver.rest[n..];
        Some(s.(stdin := s.stdin.(consumed := s.stdin.consumed + s.receiver.rest[..n]),
                receiver := if rest == [] then Receiving else WritingStdin(rest)))
    case TaskEnds(status) => if s.status.Some? then None else Some(s.(status := Some(status)))
    case ClientLeaves => Some(s.(context := ClientGone))
    case _ => None
  }

  function SenderStep(s: State, a: Action): Option<State> {
    match a
    case ReadStdout(n) =>
      if !s.sender.Reading? || s.stdoutClosed || n == 0 || n > BUFFER || n > |s.stdout.pending| then None
      else Some(s.(stdout := s.stdout.(accepted := s.stdout.accepted + s.stdout.pending[..n], pending := s.stdout.pending[n..]),
                   sender := Sending(s.stdout.pending[..n])))
    case StdoutEof =>
      if s.sender.Reading? && s.stdoutClosed then Some(s.(sender := SendReporting(false))) else None
    case StdoutError =>
      if s.sender.Reading? then Some(s.(sender := SendReporting(true), stdoutClosed := true)) else None
    case SendSucceeds =>
      if s.sender.Sending? then Some(s.(wire := s.wire.(sent := s.wire.sent + [Stdout(s.sender.chunk)]), sender := Reading)) else None
    // a cancelled Send ends the loop quietly, any other failure with an error
    case SendCanceled =>
      if s.sender.Sending? then Some(s.(sender := SendReporting(false), stdoutClosed := true, wire := s.wire.(failed := true))) else None
    case SendFails =>
      if s.sender.Sending? then Some(s.(sender := SendReporting(true), stdoutClosed := true, wire := s.wire.(failed := true))) else None
    case _ => None
  }

  function ReceiverStep(s: State, a: Action): Option<State> {
    match a
    case RecvStdin(data) =>
      if !s.receiver.Receiving? then None
      else Some(s.(stdin := s.stdin.(received := s.stdin.received + data), receiver := if data == [] then Receiving else WritingStdin(data)))
    case RecvControl => if s.receiver.Receiving? then Some(s) else None
    case RecvEnds(failed) =>
      if s.receiver.Receiving? then Some(s.(receiver := RecvReporting(failed), stdinClosed := true)) else None
    case StdinWriteFails =>
      if s.receiver.WritingStdin? && s.stdinClosed then Some(s.(receiver := RecvReporting(true))) else None
    case _ => None
  }

  function CloseBoth(s: State): State {
    s.(stdoutClosed := true, stdinClosed := true)
  }

  /** Returning also runs the deferred cancel. */
  function Return(s: State, r: Result): State {
    s.(main := Returned(r), context := Cancel(s.context))
  }

  /** After the receive loop is out of the way on the cancelled path. */
  function AfterRecvCancelled(s: State): State {
    if s.sendChNil then Return(s, ContextError) else s.(main := AwaitSendCancelled)
  }

  /** The select of stream. */
  function SelectStep(s: State, a: Action): Option<State> {
    match a
    case SelectStatus =>
      if !s.main.Select? || s.status.None? then None
      else
        var stopped := CloseBoth(s).(context := Cancel(s.context));
        (match s.status.value
         case StatusFailed => Some(Return(stopped, StatusError))
         case Exited(code) => Some(stopped.(main := if s.sendChNil then ReadyToSendExit(code) else AwaitSend(code))))
    case SelectSend =>
      if !s.main.Select? || s.sendChNil || !s.sender.SendReporting? then None
      else
        var exited := s.(sender := SendDone);
        if !s.sender.failed then Some(exited.(sendChNil := true))
        else Some(Return(exited.(stdinClosed := true), SendLoopError))
    case SelectRecv =>
      if !s.main.Select? || s.recvChNil || !s.receiver.RecvReporting? then None
      else
        var exited := s.(receiver := RecvDone);
        if !s.receiver.failed then Some(exited.(recvChNil := true))
        else Some(Return(exited.(stdoutClosed := true), RecvLoopError))
    case SelectDone =>
      if !s.main.Select? || s.context.Live? then None
      else if s.recvChNil then Some(AfterRecvCancelled(CloseBoth(s)))
      else Some(CloseBoth(s).(main := AwaitRecvCancelled))
    case _ => None
  }

  /** The waits for the loops, and the exit code. */
  function WaitStep(s: State, a: Action): Option<State> {
    match a
    case SendLoopExits =>
      if !s.sender.SendReporting? then None
      else if s.main.AwaitSend? then Some(s.(sender := SendDone, main := ReadyToSendExit(s.main.code)))
      else if s.main.AwaitSendCancelled? then Some(Return(s.(sender := SendDone), ContextError))
      else None
    case BeginExitSend =>
      if s.main.ReadyToSendExit? then Some(s.(main := InExitSend(s.main.code))) else None
    case ExitSendSucceeds =>
      if !s.main.InExitSend? then None
      else
        var exited := s.(wire := s.wire.(sent := s.wire.sent + [ExitCode(ToInt32(s.main.code))]));
        Some(if s.recvChNil then Return(exited, Success) else exited.(main := AwaitRecvAfterExit))
    case ExitSendFails =>
      if s.main.InExitSend? then Some(Return(s, ExitSendError)) else None
    case RecvLoopExits =>
      if !s.receiver.RecvReporting? then None
      else if s.main.AwaitRecvAfterExit? then Some(Return(s.(receiver := RecvDone), Success))
      else if s.main.AwaitRecvCancelled? then Some(AfterRecvCancelled(s.(receiver := RecvDone)))
      else None
    case _ => None
  }

  function MainStep(s: State, a: Action): Option<State> {
    var t := SelectStep(s, a);
    if t.Some? then t else WaitStep(s, a)
  }

  /** At most one of the four is enabled for a given action. */
  function Next(s: State, a: Action): Option<State> {
    var c := ContainerStep(s, a);
    var sn := SenderStep(s, a);
    var rc := ReceiverStep(s, a);
    if c.Some? then c else if sn.Some? then sn else if rc.Some? then rc else MainStep(s, a)
  }

  function Run(s: State, actions: seq<Action>): Option<State>
    decreases |actions|
  {
    if actions == [] then Some(s)
    else
      var t := Next(s, actions[0]);
      if t.None? then None else Run(t.value, actions[1..])
  }

  // ---------------------------------------------------------------- invariant

  /** The stdout bytes among the messages. */
  function Output(sent: seq<Message>): Bytes {
    if sent == [] then []
    else
      var last := sent[|sent| - 1];
      Output(sent[..|sent| - 1]) + if last.Stdout? then last.data else []
  }

  lemma OutputAppend(sent: seq<Message>, m: Message)
    ensures Output(sent + [m]) == Output(sent) + if m.Stdout? then m.data else []
  {
    assert (sent + [m])[..|sent|] == sent;
  }

  /** Inside srv.Send. */
  predicate MainSends(s: State) {
    s.main.InExitSend?
  }

  predicate SenderSends(s: State) {
    s.sender.Sending?
  }

  function InFlight(s: State): Bytes {
    if s.sender.Sending? then s.sender.chunk else []
  }

  /** Past the wait for the send loop. */
  predicate ExitPhase(s: State) {
    s.main.ReadyToSendExit? || s.main.InExitSend? || s.main.AwaitRecvAfterExit?
    || (s.main.Returned? && (s.main.result.Success? || s.main.result.ExitSendError?))
  }

  predicate ExitWasSent(s: State) {
    s.main.AwaitRecvAfterExit? || (s.main.Returned? && s.main.result.Success?)
  }

  predicate Control(s: State) {
    && (s.sendChNil ==> s.sender.SendDone?)
    && (s.recvChNil ==> s.receiver.RecvDone?)
    && (ExitPhase(s) ==> s.sender.SendDone?)
    && (s.main.AwaitSendCancelled? ==> s.receiver.RecvDone?)
    && (s.main.Returned? && s.main.result.Success? ==> s.receiver.RecvDone?)
    && (s.main.Returned? && s.main.result.ContextError? ==> s.sender.SendDone? && s.receiver.RecvDone?)
  }

  predicate Messages(s: State) {
    && (forall i :: 0 <= i < |s.wire.sent| && s.wire.sent[i].ExitCode? ==> i == |s.wire.sent| - 1 && ExitWasSent(s))
    && (ExitWasSent(s) ==> s.wire.sent != [] && s.wire.sent[|s.wire.sent| - 1].ExitCode?)
  }

  /** The code on its way, and the code sent, are the container's. */
  predicate CodeIsStatus(s: State) {
    && (s.main.AwaitSend? || s.main.ReadyToSendExit? || s.main.InExitSend? ==> s.status == Some(Exited(s.main.code)))
    && (forall i :: 0 <= i < |s.wire.sent| && s.wire.sent[i].ExitCode? ==>
      s.status.Some? && s.status.value.Exited? && s.wire.sent[i].code == ToInt32(s.status.value.code))
  }

  predicate StdoutFlow(s: State) {
    && s.stdout.written == s.stdout.accepted + s.stdout.pending
    && (s.wire.failed ==> !s.sender.Sending? && !s.sender.Reading? && Output(s.wire.sent) <= s.stdout.accepted)
    && (!s.wire.failed ==> s.stdout.accepted == Output(s.wire.sent) + InFlight(s))
  }

  predicate StdinFlow(s: State) {
    if s.receiver.WritingStdin? then s.stdin.received == s.stdin.consumed + s.receiver.rest
    else s.stdin.consumed <= s.stdin.received && (s.receiver.Receiving? ==> s.stdin.consumed == s.stdin.received)
  }

  predicate Inv(s: State) {
    Control(s) && Messages(s) && CodeIsStatus(s) && StdoutFlow(s) && StdinFlow(s)
  }

  lemma ContainerKeepsInv(s: State, a: Action)
    requires Inv(s) && ContainerStep(s, a).Some?
    ensures Inv(ContainerStep(s, a).value)
  {
    hide Output;
  }

  lemma SenderKeepsInv(s: State, a: Action)
    requires Inv(s) && SenderStep(s, a).Some?
    ensures Inv(SenderStep(s, a).value)
  {
    hide StdoutFlow;
    SenderKeepsFlow(s, a);
  }

  lemma SenderKeepsFlow(s: State, a: Action)
    requires StdoutFlow(s) && SenderStep(s, a).Some?
    ensures StdoutFlow(SenderStep(s, a).value)
  {
    if a.SendSucceeds? {
      OutputAppend(s.wire.sent, Stdout(s.sender.chunk));
    } else if a.ReadStdout? {
      assert s.stdout.pending == s.stdout.pending[..a.n] + s.stdout.pending[a.n..];
    }
    hide Output;
  }

  lemma ReceiverKeepsInv(s: State, a: Action)
    requires Inv(s) && ReceiverStep(s, a).Some?
    ensures Inv(ReceiverStep(s, a).value)
  {
  }

  lemma MainKeepsControl(s: State, a: Action)
    requires Control(s) && MainStep(s, a).Some?
    ensures Control(MainStep(s, a).value)
  {
  }

  /** stream leaves the pipes alone, and moves a loop only from its report to its end. */
  predicate LoopsMove(s: State, t: State) {
    && t.stdout == s.stdout && t.stdin == s.stdin
    && (t.sender == s.sender || (s.sender.SendReporting? && t.sender.SendDone?))
    && (t.receiver == s.receiver || (s.receiver.RecvReporting? && t.receiver.RecvDone?))
  }

  lemma SelectMovesLoops(s: State, a: Action)
    requires SelectStep(s, a).Some?
    ensures LoopsMove(s, SelectStep(s, a).value)
  {
  }

  lemma WaitMovesLoops(s: State, a: Action)
    requires WaitStep(s, a).Some?
    ensures LoopsMove(s, WaitStep(s, a).value)
  {
  }

  lemma MainMovesLoops(s: State, a: Action)
    requires MainStep(s, a).Some?
    ensures LoopsMove(s, MainStep(s, a).value)
  {
    hide SelectStep, WaitStep, LoopsMove;
    if SelectStep(s, a).Some? {
      SelectMovesLoops(s, a);
    } else {
      WaitMovesLoops(s, a);
    }
  }

  /** Only the exit code goes out, and only when none went before. */
  lemma MainWire(s: State, a: Action)
    requires MainStep(s, a).Some?
    ensures var t := MainStep(s, a).value;
      if a.ExitSendSucceeds? then
        s.main.InExitSend? && !ExitWasSent(s) && ExitWasSent(t) && t.wire == s.wire.(sent := s.wire.sent + [ExitCode(ToInt32(s.main.code))])
      else (ExitWasSent(s) <==> ExitWasSent(t)) && t.wire == s.wire
  {
  }

  lemma MainKeepsMessages(s: State, a: Action)
    requires Messages(s) && MainStep(s, a).Some?
    ensures Messages(MainStep(s, a).value)
  {
    hide MainStep, ExitWasSent;
    MainWire(s, a);
    var t := MainStep(s, a).value;
    assert forall i :: 0 <= i < |s.wire.sent| ==> t.wire.sent[i] == s.wire.sent[i];
  }

  lemma MainKeepsCode(s: State, a: Action)
    requires CodeIsStatus(s) && MainStep(s, a).Some?
    ensures CodeIsStatus(MainStep(s, a).value)
  {
    MainWire(s, a);
  }

  lemma MainKeepsFlow(s: State, a: Action)
    requires StdoutFlow(s) && StdinFlow(s) && MainStep(s, a).Some?
    ensures StdoutFlow(MainStep(s, a).value) && StdinFlow(MainStep(s, a).value)
  {
    hide MainStep, StdoutFlow, Output, StdinFlow, ExitWasSent;
    MainMovesLoops(s, a);
    MainWire(s, a);
    if a.ExitSendSucceeds? {
      OutputAppend(s.wire.sent, ExitCode(ToInt32(s.main.code)));
    }
    SameFlow(s, MainStep(s, a).value);
  }

  lemma SameFlow(s: State, t: State)
    requires StdoutFlow(s) && StdinFlow(s)
    requires LoopsMove(s, t) && t.wire.failed == s.wire.failed && Output(t.wire.sent) == Output(s.wire.sent)
    ensures StdoutFlow(t) && StdinFlow(t)
  {
  }

  lemma MainKeepsInv(s: State, a: Action)
    requires Inv(s) && MainStep(s, a).Some?
    ensures Inv(MainStep(s, a).value)
  {
    hide MainStep, Control, Messages, CodeIsStatus, StdoutFlow, StdinFlow;
    MainKeepsControl(s, a);
    MainKeepsMessages(s, a);
    MainKeepsCode(s, a);
    MainKeepsFlow(s, a);
  }

  lemma StepKeepsInv(s: State, a: Action)
    requires Inv(s) && Next(s, a).Some?
    ensures Inv(Next(s, a).value)
  {
    hide ContainerStep, SenderStep, ReceiverStep, MainStep, Inv;
    if ContainerStep(s, a).Some? {
      ContainerKeepsInv(s, a);
    } else if SenderStep(s, a).Some? {
      SenderKeepsInv(s, a);
    } else if ReceiverStep(s, a).Some? {
      ReceiverKeepsInv(s, a);
    } else {
      MainKeepsInv(s, a);
    }
  }

  lemma {:induction false} RunKeepsInv(s: State, actions: seq<Action>)
    requires Inv(s) && Run(s, actions).Some?
    ensures Inv(Run(s, actions).value)
    decreases |actions|
  {
    if actions != [] {
      StepKeepsInv(s, actions[0]);
      RunKeepsInv(Next(s, actions[0]).value, actions[1..]);
    }
  }

  // ---------------------------------------------------------------- main results

  predicate Reachable(actions: seq<Action>) {
    Run(INIT, actions).Some?
  }

  function After(actions: seq<Action>): State
    requires Reachable(actions)
  {
    Run(INIT, actions).value
  }

  /** srv.Send is never called by two goroutines at once. */
  lemma ExclusiveSend(actions: seq<Action>)
    requires Reachable(actions)
    ensures !(MainSends(After(actions)) && SenderSends(After(actions)))
  {
    RunKeepsInv(INIT, actions);
  }

  /** At most one exit code is sent, it is the container's as a signed 32-bit number, and nothing
      is sent after it. */
  lemma ExitCodeIsLast(actions: seq<Action>)
    requires Reachable(actions)
    ensures var sent, status := After(actions).wire.sent, After(actions).status;
      && (forall i :: 0 <= i < |sent| - 1 ==> sent[i].Stdout?)
      && (sent != [] && sent[|sent| - 1].ExitCode? ==>
          && status.Some? && status.value.Exited?
          && var code, told := status.value.code, sent[|sent| - 1].code;
             && -0x8000_0000 <= told <= 0x7FFF_FFFF && (code - told) % 0x1_0000_0000 == 0
             && (code < 0x8000_0000 ==> told == code))
  {
    RunKeepsInv(INIT, actions);
  }

  /** What the client gets is a prefix of what the container wrote. When an exit code was
      sent and no Send failed, it is everything the pipe accepted from the container. */
  lemma OutputIsPrefix(actions: seq<Action>)
    requires Reachable(actions)
    ensures var s := After(actions);
      && Output(s.wire.sent) <= s.stdout.accepted <= s.stdout.written
      && (ExitWasSent(s) && !s.wire.failed ==> Output(s.wire.sent) == s.stdout.accepted)
  {
    RunKeepsInv(INIT, actions);
  }

  /** What the container read from stdin is a prefix of what the client sent, in order. */
  lemma InputIsPrefix(actions: seq<Action>)
    requires Reachable(actions)
    ensures After(actions).stdin.consumed <= After(actions).stdin.received
  {
    RunKeepsInv(INIT, actions);
  }

  /** A success sent the exit code of the container, and no goroutine outlives a success or a
      cancellation. */
  lemma CleanReturn(actions: seq<Action>)
    requires Reachable(actions) && After(actions).main.Returned?
    ensures var s := After(actions);
      && (s.main.result.Success? ==> s.wire.sent != [] && s.wire.sent[|s.wire.sent| - 1].ExitCode?)
      && (s.main.result.Success? || s.main.result.ContextError? ==> s.sender.SendDone? && s.receiver.RecvDone?)
  {
    RunKeepsInv(INIT, actions);
  }

  // ---------------------------------------------------------------- what the steps mean

  /** A loop that has finished has closed its pipe; a return has a reason, closes both pipes and
      cancels the context; the output goes out in pieces of at most 512 bytes. */
  predicate Sensible(s: State) {
    && (s.sender.SendReporting? || s.sender.SendDone? ==> s.stdoutClosed)
    && (s.receiver.RecvReporting? || s.receiver.RecvDone? ==> s.stdinClosed)
    && (s.sender.Sending? ==> 1 <= |s.sender.chunk| <= 512)
    && (forall m :: m in s.wire.sent && m.Stdout? ==> 1 <= |m.data| <= 512)
    && (!s.main.Select? ==> s.stdoutClosed && s.stdinClosed)
    && (s.main.Select? ==> !s.context.Cancelled?)
    && (s.main.AwaitRecvCancelled? || s.main.AwaitSendCancelled? ==> s.context.ClientGone?)
    && (s.main.AwaitSend? || s.main.ReadyToSendExit? || s.main.InExitSend? || s.main.AwaitRecvAfterExit? ==>
        !s.context.Live? && s.status.Some? && s.status.value.Exited?)
    && (s.main.Returned? ==>
        && !s.context.Live?
        && match s.main.result
           case StatusError => s.status == Some(StatusFailed)
           case Success => s.status.Some? && s.status.value.Exited?
           case ExitSendError => s.status.Some? && s.status.value.Exited?
           case ContextError => s.context.ClientGone?
           case _ => true)
  }

  lemma ContainerKeepsSensible(s: State, a: Action)
    requires Sensible(s) && ContainerStep(s, a).Some?
    ensures Sensible(ContainerStep(s, a).value)
  {
  }

  lemma SenderKeepsSensible(s: State, a: Action)
    requires Sensible(s) && SenderStep(s, a).Some?
    ensures Sensible(SenderStep(s, a).value)
  {
  }

  lemma ReceiverKeepsSensible(s: State, a: Action)
    requires Sensible(s) && ReceiverStep(s, a).Some?
    ensures Sensible(ReceiverStep(s, a).value)
  {
  }

  lemma SelectKeepsSensible(s: State, a: Action)
    requires Sensible(s) && SelectStep(s, a).Some?
    ensures Sensible(SelectStep(s, a).value)
  {
  }

  lemma WaitKeepsSensible(s: State, a: Action)
    requires Sensible(s) && WaitStep(s, a).Some?
    ensures Sensible(WaitStep(s, a).value)
  {
  }

  lemma StepKeepsSensible(s: State, a: Action)
    requires Sensible(s) && Next(s, a).Some?
    ensures Sensible(Next(s, a).value)
  {
    hide ContainerStep, SenderStep, ReceiverStep, SelectStep, WaitStep, Sensible;
    if ContainerStep(s, a).Some? {
      ContainerKeepsSensible(s, a);
    } else if SenderStep(s, a).Some? {
      SenderKeepsSensible(s, a);
    } else if ReceiverStep(s, a).Some? {
      ReceiverKeepsSensible(s, a);
    } else if SelectStep(s, a).Some? {
      SelectKeepsSensible(s, a);
    } else {
      WaitKeepsSensible(s, a);
    }
  }

  lemma {:induction false} RunKeepsSensible(s: State, actions: seq<Action>)
    requires Sensible(s) && Run(s, actions).Some?
    ensures Sensible(Run(s, actions).value)
    decreases |actions|
  {
    if actions != [] {
      hide Next, Sensible;
      StepKeepsSensible(s, actions[0]);
      RunKeepsSensible(Next(s, actions[0]).value, actions[1..]);
    }
  }

  /** However stream returns, both pipes are closed and its context is cancelled; and the result
      says what happened: a failed exit status, an exit with a code, or the client's leaving. */
  lemma ReturnMeans(actions: seq<Action>)
    requires Reachable(actions) && After(actions).main.Returned?
    ensures var s, r := After(actions), After(actions).main.result;
      && s.stdoutClosed && s.stdinClosed && !s.context.Live?
      && (r.StatusError? ==> s.status == Some(StatusFailed))
      && (r.Success? || r.ExitSendError? ==> s.status.Some? && s.status.value.Exited?)
      && (r.ContextError? ==> s.context.ClientGone?)
  {
    RunKeepsSensible(INIT, actions);
  }

  /** No message is empty or longer than 512 bytes. */
  lemma OutputInPieces(actions: seq<Action>)
    requires Reachable(actions)
    ensures forall m :: m in After(actions).wire.sent && m.Stdout? ==> 1 <= |m.data| <= 512
  {
    RunKeepsSensible(INIT, actions);
  }

  /** Without a read error and a failed Send (a cancelled one does not count) the send loop ends
      quietly, and its end is not an error of stream. */
  predicate SendUnharmed(s: State) {
    s.sender != SendReporting(true) && s.main != Returned(SendLoopError)
  }

  lemma StepSendUnharmed(s: State, a: Action)
    requires SendUnharmed(s) && a != SendFails && a != StdoutError && Next(s, a).Some?
    ensures SendUnharmed(Next(s, a).value)
  {
  }

  lemma {:induction false} SendErrorHasCause(s: State, actions: seq<Action>)
    requires SendUnharmed(s) && SendFails !in actions && StdoutError !in actions && Run(s, actions).Some?
    ensures SendUnharmed(Run(s, actions).value)
    decreases |actions|
  {
    if actions != [] {
      hide Next, SendUnharmed;
      assert actions[0] in actions;
      StepSendUnharmed(s, actions[0]);
      SendErrorHasCause(Next(s, actions[0]).value, actions[1..]);
    }
  }

  /** Likewise for the receive loop, without a failed receive and a write to a closed stdin. */
  predicate RecvUnharmed(s: State) {
    s.receiver != RecvReporting(true) && s.main != Returned(RecvLoopError)
  }

  lemma StepRecvUnharmed(s: State, a: Action)
    requires RecvUnharmed(s) && a != RecvEnds(true) && a != StdinWriteFails && Next(s, a).Some?
    ensures RecvUnharmed(Next(s, a).value)
  {
  }

  lemma {:induction false} RecvErrorHasCause(s: State, actions: seq<Action>)
    requires RecvUnharmed(s) && RecvEnds(true) !in actions && StdinWriteFails !in actions && Run(s, actions).Some?
    ensures RecvUnharmed(Run(s, actions).value)
    decreases |actions|
  {
    if actions != [] {
      hide Next, RecvUnharmed;
      assert actions[0] in actions;
      StepRecvUnharmed(s, actions[0]);
      RecvErrorHasCause(Next(s, actions[0]).value, actions[1..]);
    }
  }

  /** The select serves whatever is ready: the exit status, a report not yet taken, the client's
      leaving. A quiet report leaves it selecting, with that channel gone; an error returns. */
  lemma SelectServes(s: State)
    requires s.main.Select?
    ensures s.status.Some? ==> Next(s, SelectStatus).Some?
    ensures !s.context.Live? ==> Next(s, SelectDone).Some?
    ensures !s.sendChNil && s.sender.SendReporting? ==>
      && Next(s, SelectSend).Some?
      && var t := Next(s, SelectSend).value;
         t.sender.SendDone? && if s.sender.failed then t.main == Returned(SendLoopError) else t.main.Select? && t.sendChNil
    ensures !s.recvChNil && s.receiver.RecvReporting? ==>
      && Next(s, SelectRecv).Some?
      && var t := Next(s, SelectRecv).value;
         t.receiver.RecvDone? && if s.receiver.failed then t.main == Returned(RecvLoopError) else t.main.Select? && t.recvChNil
  {
  }

  /** The send loop takes any piece of the pending output that fits its buffer, sends it on, and
      reports without an error at the end of the pipe and after a cancelled Send. */
  lemma SendLoopServes(s: State, n: nat)
    ensures s.sender.Reading? && !s.stdoutClosed ==>
      (Next(s, ReadStdout(n)).Some? <==> 1 <= n <= 512 && n <= |s.stdout.pending|)
    ensures s.sender.Reading? && s.stdoutClosed ==> Next(s, StdoutEof).Some? && Next(s, StdoutEof).value.sender == SendReporting(false)
    ensures s.sender.Sending? ==>
      && Next(s, SendSucceeds).Some? && Next(s, SendSucceeds).value.sender.Reading?
      && Next(s, SendCanceled).Some? && Next(s, SendCanceled).value.sender == SendReporting(false)
      && Next(s, SendFails).Some? && Next(s, SendFails).value.sender == SendReporting(true)
  {
  }

  /** What the receive loop does in each of its states. Data are written to stdin whole, in pieces
      that the container chooses; a control message changes nothing; when the loop ends, stdin is
      closed. */
  lemma ReceiveLoopServes(s: State, data: Bytes, n: nat, failed: bool)
    ensures s.receiver.Receiving? ==>
      && Next(s, RecvControl) == Some(s)
      && Next(s, RecvStdin(data)).Some?
      && Next(s, RecvStdin(data)).value.stdin.received == s.stdin.received + data
      && Next(s, RecvStdin(data)).value.receiver == (if data == [] then Receiving else WritingStdin(data))
      && Next(s, RecvEnds(failed)).Some?
      && Next(s, RecvEnds(failed)).value.receiver == RecvReporting(failed) && Next(s, RecvEnds(failed)).value.stdinClosed
    ensures s.receiver.WritingStdin? && !s.stdinClosed && n <= |s.receiver.rest| ==>
      && Next(s, ContainerReadStdin(n)).Some?
      && var t := Next(s, ContainerReadStdin(n)).value;
         && t.stdin.consumed == s.stdin.consumed + s.receiver.rest[..n]
         && t.receiver == (if n == |s.receiver.rest| then Receiving else WritingStdin(s.receiver.rest[n..]))
    ensures s.receiver.WritingStdin? && s.stdinClosed ==>
      Next(s, StdinWriteFails).Some? && Next(s, StdinWriteFails).value.receiver == RecvReporting(true)
  {
  }

  /** Each wait ends as soon as the loop it waits for reports, and goes on to the next wait that
      is due: the send loop before the exit code, the receive loop after it, and both, the receive
      loop first, when the client has left. */
  lemma WaitsServe(s: State)
    ensures s.main.AwaitSend? && s.sender.SendReporting? ==>
      Next(s, SendLoopExits).Some? && Next(s, SendLoopExits).value.main == ReadyToSendExit(s.main.code)
    ensures s.main.ReadyToSendExit? ==> Next(s, BeginExitSend).Some? && Next(s, BeginExitSend).value.main == InExitSend(s.main.code)
    ensures s.main.InExitSend? ==>
      && Next(s, ExitSendSucceeds).Some? && |Next(s, ExitSendSucceeds).value.wire.sent| == |s.wire.sent| + 1
      && Next(s, ExitSendSucceeds).value.main == (if s.recvChNil then Returned(Success) else AwaitRecvAfterExit)
      && Next(s, ExitSendFails).Some? && Next(s, ExitSendFails).value.main == Returned(ExitSendError)
    ensures s.main.AwaitRecvAfterExit? && s.receiver.RecvReporting? ==>
      Next(s, RecvLoopExits).Some? && Next(s, RecvLoopExits).value.main == Returned(Success)
    ensures s.main.AwaitRecvCancelled? && s.receiver.RecvReporting? ==>
      && Next(s, RecvLoopExits).Some?
      && Next(s, RecvLoopExits).value.main == (if s.sendChNil then Returned(ContextError) else AwaitSendCancelled)
    ensures s.main.AwaitSendCancelled? && s.sender.SendReporting? ==>
      Next(s, SendLoopExits).Some? && Next(s, SendLoopExits).value.main == Returned(ContextError)
  {
  }

  // ---------------------------------------------------------------- which loops outlive stream

  /** Whether stream has waited for the send loop when it returns. */
  predicate SendJoined(r: Result, sendChNil: bool) {
    sendChNil || !(r.StatusError? || r.RecvLoopError?)
  }

  predicate RecvJoined(r: Result, recvChNil: bool) {
    recvChNil || r.Success? || r.ContextError? || r.RecvLoopError?
  }

  /** A loop has ended exactly when stream has taken its report. */
  predicate Joining(s: State) {
    && (s.main.Select? || s.main.AwaitRecvCancelled? ==> (s.sender.SendDone? <==> s.sendChNil))
    && (s.main.AwaitSend? || s.main.AwaitSendCancelled? ==> !s.sender.SendDone?)
    && (s.main.Select? || s.main.AwaitSend? || s.main.ReadyToSendExit? || s.main.InExitSend? ==>
        (s.receiver.RecvDone? <==> s.recvChNil))
    && (s.main.AwaitRecvAfterExit? || s.main.AwaitRecvCancelled? ==> !s.receiver.RecvDone?)
    && (s.main.Returned? ==>
        && (s.sender.SendDone? <==> SendJoined(s.main.result, s.sendChNil))
        && (s.receiver.RecvDone? <==> RecvJoined(s.main.result, s.recvChNil)))
  }

  /** Past the select both pipes are closed, and only the client can have cancelled it. */
  predicate Closing(s: State) {
    && (!s.main.Select? && !s.main.Returned? ==> s.stdoutClosed && s.stdinClosed)
    && (s.main.Select? ==> !s.context.Cancelled?)
    && (s.main.AwaitRecvCancelled? || s.main.AwaitSendCancelled? ==> s.context.ClientGone?)
  }

  /** The loops themselves never leave the program: only stream ends them. */
  predicate SameJoins(s: State, t: State) {
    && t.main == s.main && t.sendChNil == s.sendChNil && t.recvChNil == s.recvChNil
    && (t.sender.SendDone? <==> s.sender.SendDone?) && (t.receiver.RecvDone? <==> s.receiver.RecvDone?)
    && (s.sender.SendReporting? ==> t.sender == s.sender) && (s.receiver.RecvReporting? ==> t.receiver == s.receiver)
    && (s.stdoutClosed ==> t.stdoutClosed) && (s.stdinClosed ==> t.stdinClosed)
    && (t.context == s.context || t.context.ClientGone?)
  }

  lemma ContainerJoinsNothing(s: State, a: Action)
    requires ContainerStep(s, a).Some?
    ensures SameJoins(s, ContainerStep(s, a).value)
  {
  }

  lemma SenderJoinsNothing(s: State, a: Action)
    requires SenderStep(s, a).Some?
    ensures SameJoins(s, SenderStep(s, a).value)
  {
  }

  lemma ReceiverJoinsNothing(s: State, a: Action)
    requires ReceiverStep(s, a).Some?
    ensures SameJoins(s, ReceiverStep(s, a).value)
  {
  }

  lemma SelectKeepsJoining(s: State, a: Action)
    requires Joining(s) && Closing(s) && Control(s) && SelectStep(s, a).Some?
    ensures Joining(SelectStep(s, a).value) && Closing(SelectStep(s, a).value)
  {
  }

  lemma WaitKeepsJoining(s: State, a: Action)
    requires Joining(s) && Closing(s) && Control(s) && WaitStep(s, a).Some?
    ensures Joining(WaitStep(s, a).value) && Closing(WaitStep(s, a).value)
  {
  }

  lemma StepKeepsJoining(s: State, a: Action)
    requires Joining(s) && Closing(s) && Control(s) && Next(s, a).Some?
    ensures Joining(Next(s, a).value) && Closing(Next(s, a).value)
  {
    hide ContainerStep, SenderStep, ReceiverStep, SelectStep, WaitStep, Control;
    if ContainerStep(s, a).Some? {
      ContainerJoinsNothing(s, a);
    } else if SenderStep(s, a).Some? {
      SenderJoinsNothing(s, a);
    } else if ReceiverStep(s, a).Some? {
      ReceiverJoinsNothing(s, a);
    } else if SelectStep(s, a).Some? {
      SelectKeepsJoining(s, a);
    } else {
      WaitKeepsJoining(s, a);
    }
  }

  lemma {:induction false} RunKeepsJoining(s: State, actions: seq<Action>)
    requires Inv(s) && Joining(s) && Closing(s) && Run(s, actions).Some?
    ensures var t := Run(s, actions).value; Joining(t) && Closing(t)
    decreases |actions|
  {
    if actions != [] {
      hide Inv, Next, Joining, Closing;
      InvControls(s);
      StepKeepsInv(s, actions[0]);
      StepKeepsJoining(s, actions[0]);
      RunKeepsJoining(Next(s, actions[0]).value, actions[1..]);
    }
  }

  lemma InvControls(s: State)
    requires Inv(s)
    ensures Control(s)
  {
  }

  /** Once stream has returned nobody reads the unbuffered channels: a loop that has not been
      waited for never ends, and whatever it still does it ends up stuck in its report. */
  lemma {:induction false} StuckForEver(s: State, actions: seq<Action>)
    requires s.main.Returned? && Run(s, actions).Some?
    ensures var t := Run(s, actions).value;
      && t.main == s.main
      && (t.sender.SendDone? <==> s.sender.SendDone?) && (t.receiver.RecvDone? <==> s.receiver.RecvDone?)
      && (s.sender.SendReporting? ==> t.sender == s.sender) && (s.receiver.RecvReporting? ==> t.receiver == s.receiver)
    decreases |actions|
  {
    if actions != [] {
      hide Next;
      StuckStep(s, actions[0]);
      StuckForEver(Next(s, actions[0]).value, actions[1..]);
    }
  }

  lemma StuckStep(s: State, a: Action)
    requires s.main.Returned? && Next(s, a).Some?
    ensures SameJoins(s, Next(s, a).value)
  {
    hide ContainerStep, SenderStep, ReceiverStep, MainStep, SameJoins;
    NothingAfterReturn(s, a);
    if ContainerStep(s, a).Some? {
      ContainerJoinsNothing(s, a);
    } else if SenderStep(s, a).Some? {
      SenderJoinsNothing(s, a);
    } else {
      ReceiverJoinsNothing(s, a);
    }
  }

  lemma NothingAfterReturn(s: State, a: Action)
    requires s.main.Returned?
    ensures MainStep(s, a).None?
  {
  }

  /** Exactly which loops outlive stream, for every result and every continuation: the send loop
      after a failed exit status or a failed receive loop, unless its report had been taken; the
      receive loop after a failed exit status, exit code or send loop, unless its had been. */
  lemma OutlivesExactly(actions: seq<Action>, later: seq<Action>)
    requires Reachable(actions) && After(actions).main.Returned? && Run(After(actions), later).Some?
    ensures var s, t := After(actions), Run(After(actions), later).value;
      && (t.sender.SendDone? <==> SendJoined(s.main.result, s.sendChNil))
      && (t.receiver.RecvDone? <==> RecvJoined(s.main.result, s.recvChNil))
  {
    RunKeepsJoining(INIT, actions);
    StuckForEver(After(actions), later);
  }

  /** ... which a failed exit status is enough to cause. */
  lemma StatusErrorLeaks() returns (actions: seq<Action>)
    ensures Reachable(actions)
    ensures After(actions).main == Returned(StatusError) && After(actions).sender.SendReporting?
  {
    hide Run;
    var s1 := Next(INIT, TaskEnds(StatusFailed)).value;
    var s2 := Next(s1, SelectStatus).value;
    var s3 := Next(s2, StdoutEof).value;
    actions := [];
    RunNone(s3);
    RunOne(s2, StdoutEof, actions);
    actions := [StdoutEof] + actions;
    RunOne(s1, SelectStatus, actions);
    actions := [SelectStatus] + actions;
    RunOne(INIT, TaskEnds(StatusFailed), actions);
    actions := [TaskEnds(StatusFailed)] + actions;
  }

  // ---------------------------------------------------------------- progress

  /** Steps of the container and of the client. Recv returns when the client sends something,
      closes its side, or has left. */
  predicate OfOthers(s: State, a: Action) {
    || a.ContainerWrite? || a.ContainerReadStdin? || a.TaskEnds? || a.ClientLeaves?
    || (!s.context.ClientGone? && (a.RecvStdin? || a.RecvControl? || a.RecvEnds?))
  }

  /** A run in which stream and its loops are on their own. */
  ghost predicate Alone(s: State, actions: seq<Action>)
    decreases |actions|
  {
    actions != [] ==> !OfOthers(s, actions[0]) && Next(s, actions[0]).Some? && Alone(Next(s, actions[0]).value, actions[1..])
  }

  /** The exit code is out, and the receive loop waits for the client. */
  predicate AwaitsClient(s: State) {
    s.main.AwaitRecvAfterExit? && s.receiver.Receiving? && !s.context.ClientGone?
  }

  /** What stream and its loops do next to finish. */
  function Pick(s: State): Action
    requires !s.main.Returned?
  {
    match s.main
    case Select => if s.status.Some? then SelectStatus else SelectDone
    case AwaitSend(_) => PickSender(s)
    case AwaitSendCancelled => PickSender(s)
    case ReadyToSendExit(_) => BeginExitSend
    case InExitSend(_) => ExitSendSucceeds
    case _ => PickReceiver(s)
  }

  function PickSender(s: State): Action {
    if s.sender.Reading? then StdoutEof else if s.sender.Sending? then SendSucceeds else SendLoopExits
  }

  function PickReceiver(s: State): Action {
    if s.receiver.Receiving? then RecvEnds(false) else if s.receiver.WritingStdin? then StdinWriteFails else RecvLoopExits
  }

  function Remaining(s: State): nat {
    match s.main
    case Select => 18
    case AwaitSend(_) => 15 + SenderRemaining(s)
    case ReadyToSendExit(_) => 14
    case InExitSend(_) => 13
    case AwaitRecvAfterExit => 10 + ReceiverRemaining(s)
    case AwaitRecvCancelled => 10 + ReceiverRemaining(s)
    case AwaitSendCancelled => 5 + SenderRemaining(s)
    case Returned(_) => 0
  }

  function SenderRemaining(s: State): (n: nat)
    ensures n <= 2
  {
    if s.sender.Sending? then 2 else if s.sender.Reading? then 1 else 0
  }

  function ReceiverRemaining(s: State): (n: nat)
    ensures n <= 1
  {
    if s.receiver.Receiving? || s.receiver.WritingStdin? then 1 else 0
  }

  predicate Due(s: State) {
    s.main.Select? ==> s.status.Some? || !s.context.Live?
  }

  /** One of their steps brings them nearer to the end. */
  predicate Advances(s: State, a: Action) {
    && !OfOthers(s, a) && Next(s, a).Some?
    && var t := Next(s, a).value; Due(t) && (t.context.ClientGone? <==> s.context.ClientGone?) && Remaining(t) < Remaining(s)
  }

  lemma PickAdvances(s: State)
    requires Joining(s) && Closing(s) && Due(s) && !s.main.Returned? && !AwaitsClient(s)
    ensures Advances(s, Pick(s))
  {
    if s.main.AwaitSend? || s.main.AwaitSendCancelled? {
      PickSenderAdvances(s);
    } else if s.main.AwaitRecvAfterExit? || s.main.AwaitRecvCancelled? {
      PickReceiverAdvances(s);
    } else {
      hide Joining;
    }
  }

  lemma PickSenderAdvances(s: State)
    requires Joining(s) && Closing(s) && (s.main.AwaitSend? || s.main.AwaitSendCancelled?)
    ensures Advances(s, PickSender(s))
  {
  }

  lemma PickReceiverAdvances(s: State)
    requires Joining(s) && Closing(s) && (s.main.AwaitRecvAfterExit? || s.main.AwaitRecvCancelled?) && !AwaitsClient(s)
    ensures Advances(s, PickReceiver(s))
  {
  }

  lemma AloneNone(s: State)
    ensures Alone(s, [])
  {
  }

  lemma AloneOne(s: State, a: Action, rest: seq<Action>)
    requires !OfOthers(s, a) && Next(s, a).Some? && Alone(Next(s, a).value, rest)
    ensures Alone(s, [a] + rest)
  {
    assert ([a] + rest)[1..] == rest;
  }

  /** From every state in which the container has ended or the client has left, stream and its
      loops get on their own to the return, or to where the exit code is out and the receive loop
      waits for the client; when the client has left, to the return. */
  lemma {:induction false} Finishes(s: State) returns (actions: seq<Action>)
    requires Inv(s) && Joining(s) && Closing(s) && Due(s)
    ensures Alone(s, actions) && Run(s, actions).Some?
    ensures var t := Run(s, actions).value;
      (t.main.Returned? || AwaitsClient(t)) && (s.context.ClientGone? ==> t.main.Returned?)
    decreases Remaining(s)
  {
    hide Inv, Next, Run, Alone, OfOthers, Joining, Closing, Due, Pick, Remaining;
    if s.main.Returned? || AwaitsClient(s) {
      RunNone(s);
      AloneNone(s);
      actions := [];
    } else {
      var a := Pick(s);
      PickAdvances(s);
      InvControls(s);
      StepKeepsInv(s, a);
      StepKeepsJoining(s, a);
      var rest := Finishes(Next(s, a).value);
      RunOne(s, a, rest);
      AloneOne(s, a, rest);
      actions := [a] + rest;
    }
  }

  lemma CanReturn(actions: seq<Action>) returns (later: seq<Action>)
    requires Reachable(actions) && (After(actions).status.Some? || !After(actions).context.Live?)
    ensures var s := After(actions);
      && Alone(s, later) && Run(s, later).Some?
      && var t := Run(s, later).value;
         (t.main.Returned? || AwaitsClient(t)) && (s.context.ClientGone? ==> t.main.Returned?)
  {
    RunKeepsInv(INIT, actions);
    RunKeepsJoining(INIT, actions);
    later := Finishes(After(actions));
  }

  /** The client leaves, closes its side, or sends input that no longer has a reader. */
  predicate ClientActs(a: Action) {
    a.ClientLeaves? || a.RecvEnds? || (a.RecvStdin? && a.data != [])
  }

  lemma WaitsOn(s: State, a: Action)
    requires AwaitsClient(s) && !ClientActs(a) && Next(s, a).Some?
    ensures AwaitsClient(Next(s, a).value)
  {
  }

  /** There stream waits as long as the client does nothing of that, whatever else happens ... */
  lemma {:induction false} WaitsForClient(s: State, actions: seq<Action>)
    requires AwaitsClient(s) && Run(s, actions).Some? && forall a :: a in actions ==> !ClientActs(a)
    ensures AwaitsClient(Run(s, actions).value)
    decreases |actions|
  {
    if actions != [] {
      hide Next, AwaitsClient, ClientActs;
      WaitsOn(s, actions[0]);
      WaitsForClient(Next(s, actions[0]).value, actions[1..]);
    }
  }

  lemma ActEndsWait(s: State, a: Action)
    requires AwaitsClient(s) && ClientActs(a)
    ensures Next(s, a).Some? && !AwaitsClient(Next(s, a).value) && Next(s, a).value.main == s.main
  {
  }

  /** Past the exit code stream can only succeed. */
  lemma {:induction false} AfterExitCode(s: State, actions: seq<Action>)
    requires s.main.AwaitRecvAfterExit? || s.main == Returned(Success)
    requires Run(s, actions).Some?
    ensures Run(s, actions).value.main in {AwaitRecvAfterExit, Returned(Success)}
    decreases |actions|
  {
    if actions != [] {
      hide Next;
      AfterExitCodeStep(s, actions[0]);
      AfterExitCode(Next(s, actions[0]).value, actions[1..]);
    }
  }

  lemma AfterExitCodeStep(s: State, a: Action)
    requires (s.main.AwaitRecvAfterExit? || s.main == Returned(Success)) && Next(s, a).Some?
    ensures Next(s, a).value.main in {AwaitRecvAfterExit, Returned(Success)}
  {
    hide ContainerStep, SenderStep, ReceiverStep;
    if ContainerStep(s, a).Some? {
      ContainerJoinsNothing(s, a);
    } else if SenderStep(s, a).Some? {
      SenderJoinsNothing(s, a);
    } else if ReceiverStep(s, a).Some? {
      ReceiverJoinsNothing(s, a);
    }
  }

  /** ... and as soon as the client does, stream can return on its own, with success. */
  lemma ClientActReturns(actions: seq<Action>, a: Action) returns (later: seq<Action>)
    requires Reachable(actions) && AwaitsClient(After(actions)) && ClientActs(a)
    ensures var s := After(actions);
      && Next(s, a).Some? && Alone(Next(s, a).value, later)
      && Run(Next(s, a).value, later).Some? && Run(Next(s, a).value, later).value.main == Returned(Success)
  {
    var s := After(actions);
    RunKeepsInv(INIT, actions);
    RunKeepsJoining(INIT, actions);
    InvControls(s);
    hide Inv, Control, Joining, Closing, OfOthers, Alone, Next, Run;
    ActEndsWait(s, a);
    var t := Next(s, a).value;
    StepKeepsInv(s, a);
    StepKeepsJoining(s, a);
    later := EndedWaitReturns(t);
    AfterExitCode(t, later);
  }

  lemma EndedWaitReturns(s: State) returns (actions: seq<Action>)
    requires Inv(s) && Joining(s) && Closing(s) && s.main.AwaitRecvAfterExit? && !AwaitsClient(s)
    ensures Alone(s, actions) && Run(s, actions).Some? && Run(s, actions).value.main.Returned?
    decreases Remaining(s)
  {
    hide Inv, Next, Run, Alone, OfOthers, Joining, Closing, Due, Remaining;
    var a := PickReceiver(s);
    PickReceiverAdvances(s);
    InvControls(s);
    StepKeepsInv(s, a);
    StepKeepsJoining(s, a);
    var t := Next(s, a).value;
    ReceiverPicked(s);
    if t.main.Returned? {
      RunNone(t);
      AloneNone(t);
      actions := [];
    } else {
      actions := EndedWaitReturns(t);
    }
    RunOne(s, a, actions);
    AloneOne(s, a, actions);
    actions := [a] + actions;
  }

  lemma ReceiverPicked(s: State)
    requires Joining(s) && Closing(s) && s.main.AwaitRecvAfterExit? && !AwaitsClient(s) && Next(s, PickReceiver(s)).Some?
    ensures var t := Next(s, PickReceiver(s)).value;
      t.main.Returned? || (t.main.AwaitRecvAfterExit? && !AwaitsClient(t))
  {
  }

  lemma RunNone(s: State)
    ensures Run(s, []) == Some(s)
  {
  }

  lemma RunOne(s: State, a: Action, rest: seq<Action>)
    requires Next(s, a).Some?
    ensures Run(s, [a] + rest) == Run(Next(s, a).value, rest)
  {
    assert ([a] + rest)[1..] == rest;
  }
}
