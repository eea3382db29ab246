/** The file follower: pkg/follow/follow.go, as a transition system over all the
    interleavings of a writer, the notifier goroutine, the reading goroutine and Close. */
module Follow {
  import opened Wrappers

  type Bytes = seq<bv8>

  /** What the one-slot channel carries: nil, or one of two errors. */
  datatype Msg = Wake | Removed | WatchFailed

  /** Events in the kernel queue; Other stands for other names and other operations. */
  datatype Event = WroteEvent | RemovedEvent | OtherEvent

  /** `want` is the length of the caller's buffer. */
  datatype Reader = Idle | Entered(want: nat) | Reading(want: nat) | Waiting(want: nat)

  datatype Reason = AfterRemoval | AfterFailure | AfterCancel

  datatype Notifier = NotStarted | Installing | Watching | Sending(msg: Msg) | Stopped(reason: Reason)

  /** How a call of Read returned. */
  datatype Outcome = GotData | EndOfFile | ErrRemoved | ErrWatch | ErrClosedPipe | ErrSource

  datatype State = State(
    file: Bytes,
    start: nat,
    offset: nat,
    delivered: Bytes,
    removedAt: Option<nat>,
    watchedFrom: Option<nat>,
    queue: seq<Event>,
    slot: Option<Msg>,
    reader: Reader,
    notifier: Notifier,
    cancelled: bool,
    closed: bool,
    outcomes: seq<Outcome>)

  datatype Action =
    // the environment
    | Append(data: Bytes, coalesced: bool)
    | Remove
    | Noise
    | Cancel
    | Close
    // the reading goroutine
    | CallRead(size: nat)
    | CheckContext
    | ReadSome(n: nat)
    | ReadEnd
    | ReadError
    | Receive
    | SeeCancelled
    // the notifier goroutine
    | Install
    | InstallFails
    | HandleEvent
    | WatcherError
    | SendError
    | Stop

  function Init(file: Bytes, start: nat): State {
    State(file, start, start, [], None, None, [], None, Idle, NotStarted, false, false, [])
  }

  function Return(s: State, o: Outcome): State {
    s.(reader := Idle, outcomes := s.outcomes + [o])
  }

  /** The watch ends with the notifier, and with it the queue. */
  predicate Watched(s: State) {
    s.watchedFrom.Some? && !s.notifier.Stopped?
  }

  /** Kernel events reach the queue while the directory is watched and the name exists. */
  predicate Notified(s: State) {
    Watched(s) && s.removedAt.None?
  }

  /** A step of the writer or of Close; None when it is not enabled. */
  function Environment(s: State, a: Action): Option<State> {
    match a
    case Append(data, coalesced) =>
      var grown := s.(file := s.file + data);
      if data == [] then None
      else if !Notified(s) || (coalesced && s.queue != [] && s.queue[|s.queue| - 1] == WroteEvent) then Some(grown)
      else Some(grown.(queue := s.queue + [WroteEvent]))
    case Remove =>
      if s.removedAt.Some? then None
      else Some(s.(removedAt := Some(|s.file|), queue := if Notified(s) then s.queue + [RemovedEvent] else s.queue))
    case Noise => if !Watched(s) then None else Some(s.(queue := s.queue + [OtherEvent]))
    case Cancel => Some(s.(cancelled := true))
    case Close => Some(s.(closed := true))
    case _ => None
  }

  /** A step of the goroutine that calls Read. */
  function ReaderStep(s: State, a: Action): Option<State> {
    match a
    case CallRead(size) =>
      if !s.reader.Idle? then None
      else if s.closed then Some(Return(s, ErrClosedPipe))
      else Some(s.(reader := Entered(size), notifier := if s.notifier.NotStarted? then Installing else s.notifier))
    case CheckContext =>
      if !s.reader.Entered? then None
      else if s.cancelled then Some(Return(s, EndOfFile))
      else Some(s.(reader := Reading(s.reader.want)))
    case ReadSome(n) =>
      if !s.reader.Reading? || n > s.reader.want || s.offset + n > |s.file| || (n == 0 && s.reader.want > 0) then None
      else Some(Return(s.(offset := s.offset + n, delivered := s.delivered + s.file[s.offset..s.offset + n]), GotData))
    case ReadEnd =>
      if !s.reader.Reading? || s.reader.want == 0 || s.offset < |s.file| then None
      else Some(s.(reader := Waiting(s.reader.want)))
    case ReadError => if s.reader.Reading? then Some(Return(s, ErrSource)) else None
    case Receive =>
      if !s.reader.Waiting? || s.slot.None? then None
      else
        var emptied := s.(slot := None);
        (match s.slot.value
         case Wake => Some(emptied.(reader := Reading(s.reader.want)))
         case Removed => Some(Return(emptied, ErrRemoved))
         case WatchFailed => Some(Return(emptied, ErrWatch)))
    case SeeCancelled =>
      if s.reader.Waiting? && s.cancelled then Some(Return(s, EndOfFile)) else None
    case _ => None
  }

  /** A step of the notifier goroutine. */
  function NotifierStep(s: State, a: Action): Option<State> {
    match a
    case Install =>
      if s.notifier.Installing? then Some(s.(notifier := Watching, watchedFrom := Some(|s.file|))) else None
    case InstallFails =>
      if s.notifier.Installing? then Some(s.(notifier := Sending(WatchFailed))) else None
    case HandleEvent =>
      if !s.notifier.Watching? || s.queue == [] then None
      else
        var taken := s.(queue := s.queue[1..]);
        (match s.queue[0]
         case OtherEvent => Some(taken)
         // a send that does not block: dropped when the slot is full
         case WroteEvent => Some(if s.slot.None? then taken.(slot := Some(Wake)) else taken)
         case RemovedEvent => Some(taken.(notifier := Sending(Removed))))
    case WatcherError =>
      if s.notifier.Watching? then Some(s.(notifier := Sending(WatchFailed))) else None
    case SendError =>
      if !s.notifier.Sending? || s.slot.Some? then None
      else
        var reason := if s.notifier.msg == Removed then AfterRemoval else AfterFailure;
        Some(s.(slot := Some(s.notifier.msg), notifier := Stopped(reason), queue := []))
    case Stop =>
      if s.cancelled && (s.notifier.Watching? || s.notifier.Sending?) then Some(s.(notifier := Stopped(AfterCancel), queue := []))
      else None
    case _ => None
  }

  function Next(s: State, a: Action): Option<State> {
    match a
    case Append(_, _) => Environment(s, a)
    case Remove => Environment(s, a)
    case Noise => Environment(s, a)
    case Cancel => Environment(s, a)
    case Close => Environment(s, a)
    case Install => NotifierStep(s, a)
    case InstallFails => NotifierStep(s, a)
    case HandleEvent => NotifierStep(s, a)
    case WatcherError => NotifierStep(s, a)
    case SendError => NotifierStep(s, a)
    case Stop => NotifierStep(s, a)
    case _ => ReaderStep(s, a)
  }

  /** The state after a sequence of actions, if all are enabled in turn. */
  function Run(s: State, actions: seq<Action>): Option<State>
    decreases |actions|
  {
    if actions == [] then Some(s)
    else
      var t := Next(s, actions[0]);
      if t.None? then None else Run(t.value, actions[1..])
  }

  // ---------------------------------------------------------------- invariant

  /** The file length up to which appends were announced. */
  function Announced(s: State): nat {
    if s.removedAt.Some? then s.removedAt.value else |s.file|
  }

  /** Something was appended after the watch was installed and before the removal. */
  predicate Fresh(s: State) {
    s.watchedFrom.Some? && Announced(s) > s.watchedFrom.value
  }

  /** The notifier has failed or was cancelled. */
  predicate GaveUp(s: State) {
    (s.notifier.Sending? && s.notifier.msg.WatchFailed?) || (s.notifier.Stopped? && !s.notifier.reason.AfterRemoval?)
  }

  predicate Behind(s: State) {
    s.reader.Waiting? && s.offset < Announced(s)
  }

  predicate Positions(s: State) {
    && s.start <= s.offset <= |s.file|
    && (s.reader.Waiting? ==> s.reader.want > 0)
    && (s.watchedFrom.Some? ==> s.watchedFrom.value <= |s.file|)
    && (s.removedAt.Some? ==> s.removedAt.value <= |s.file|)
  }

  /** Everything up to the offset has been delivered, in order. */
  predicate InOrder(s: State)
    requires Positions(s)
  {
    s.delivered == s.file[s.start..s.offset]
  }

  predicate SeenRemoval(s: State) {
    (s.notifier.Sending? && s.notifier.msg.Removed?) || (s.notifier.Stopped? && s.notifier.reason.AfterRemoval?)
  }

  predicate Channel(s: State) {
    && (s.notifier.NotStarted? || s.notifier.Installing? ==> s.watchedFrom.None? && s.queue == [] && s.slot.None?)
    && (s.notifier.Watching? ==> s.watchedFrom.Some?)
    && (s.notifier.Sending? ==> !s.notifier.msg.Wake?)
    && (s.slot.Some? && s.slot.value.Removed? ==> s.notifier == Stopped(AfterRemoval))
    && (s.slot.Some? && s.slot.value.WatchFailed? ==> s.notifier == Stopped(AfterFailure))
    && (s.notifier == Stopped(AfterRemoval) ==> s.slot != Some(Wake))
  }

  /** A removal is announced once, after every append it follows. */
  predicate RemovalComesLast(q: seq<Event>) {
    forall i, j :: 0 <= i < j < |q| && q[i] == RemovedEvent ==> q[j] == OtherEvent
  }

  predicate EventOrder(s: State) {
    && RemovalComesLast(s.queue)
    && (RemovedEvent in s.queue || SeenRemoval(s) ==> AnnouncedRemoval(s))
    && (SeenRemoval(s) ==> forall e :: e in s.queue ==> e == OtherEvent)
  }

  predicate AnnouncedRemoval(s: State) {
    s.removedAt.Some? && s.watchedFrom.Some? && s.watchedFrom.value <= s.removedAt.value
  }

  /** No lost wakeup. */
  predicate Signalled(s: State) {
    Fresh(s) && Behind(s) ==> GaveUp(s) || s.slot == Some(Wake) || (WroteEvent in s.queue && s.notifier.Watching?)
  }

  /** What an outcome that was returned says. */
  predicate Truthful(s: State) {
    && (EndOfFile in s.outcomes ==> s.cancelled)
    && (ErrRemoved in s.outcomes ==> AnnouncedRemoval(s) && (Fresh(s) ==> s.offset >= s.removedAt.value))
  }

  predicate Inv(s: State) {
    Positions(s) && InOrder(s) && Channel(s) && EventOrder(s) && Signalled(s) && Truthful(s)
  }

  lemma AppendKeepsInv(s: State, data: Bytes, coalesced: bool)
    requires Inv(s) && Environment(s, Append(data, coalesced)).Some?
    ensures Inv(Environment(s, Append(data, coalesced)).value)
  {
    hide EventOrder;
    var t := Environment(s, Append(data, coalesced)).value;
    AppendKeepsOrder(s, data, coalesced);
    assert forall e :: e in s.queue ==> e in t.queue;
    assert t.file[s.start..s.offset] == s.file[s.start..s.offset];
    SeenIsAnnounced(s);
    if Notified(s) {
      assert t.queue[|t.queue| - 1] == WroteEvent;
    }
  }

  lemma AppendKeepsOrder(s: State, data: Bytes, coalesced: bool)
    requires EventOrder(s) && Environment(s, Append(data, coalesced)).Some?
    ensures EventOrder(Environment(s, Append(data, coalesced)).value)
  {
  }

  lemma EnvironmentKeepsInv(s: State, a: Action)
    requires Inv(s) && Environment(s, a).Some?
    ensures Inv(Environment(s, a).value)
  {
    if a.Append? {
      AppendKeepsInv(s, a.data, a.coalesced);
    } else {
      var t := Environment(s, a).value;
      assert forall e :: e in s.queue ==> e in t.queue;
      assert Behind(t) <==> Behind(s);
      assert Fresh(t) <==> Fresh(s);
    }
  }

  lemma ReadSomeKeepsInv(s: State, n: nat)
    requires Inv(s) && ReaderStep(s, ReadSome(n)).Some?
    ensures Inv(ReaderStep(s, ReadSome(n)).value)
  {
    var t := ReaderStep(s, ReadSome(n)).value;
    assert s.file[s.start..s.offset] + s.file[s.offset..t.offset] == s.file[s.start..t.offset];
  }

  lemma ReaderKeepsInv(s: State, a: Action)
    requires Inv(s) && ReaderStep(s, a).Some?
    ensures Inv(ReaderStep(s, a).value)
  {
    if a.ReadSome? {
      ReadSomeKeepsInv(s, a.n);
    } else if a.Receive? {
      ReceiveKeepsInv(s);
    } else {
      hide EventOrder, AnnouncedRemoval;
      EventOrderKept(s, ReaderStep(s, a).value);
    }
  }

  lemma ReceiveKeepsInv(s: State)
    requires Inv(s) && ReaderStep(s, Receive).Some?
    ensures Inv(ReaderStep(s, Receive).value)
  {
    hide EventOrder;
    EventOrderKept(s, ReaderStep(s, Receive).value);
    SeenIsAnnounced(s);
  }

  lemma SeenIsAnnounced(s: State)
    requires EventOrder(s)
    ensures SeenRemoval(s) ==> AnnouncedRemoval(s) && WroteEvent !in s.queue
  {
  }

  lemma EventOrderKept(s: State, t: State)
    requires EventOrder(s) && (t.queue == s.queue || t.queue == []) && t.removedAt == s.removedAt
    requires SeenRemoval(t) ==> SeenRemoval(s)
    requires t.watchedFrom == s.watchedFrom || (t.queue == [] && !SeenRemoval(t))
    ensures EventOrder(t)
  {
  }

  lemma NotifierKeepsInv(s: State, a: Action)
    requires Inv(s) && NotifierStep(s, a).Some?
    ensures Inv(NotifierStep(s, a).value)
  {
    if a.HandleEvent? {
      HandleKeepsInv(s);
    } else {
      hide EventOrder, AnnouncedRemoval;
      EventOrderKept(s, NotifierStep(s, a).value);
    }
  }

  lemma HandleKeepsInv(s: State)
    requires Inv(s) && NotifierStep(s, HandleEvent).Some?
    ensures Inv(NotifierStep(s, HandleEvent).value)
  {
    hide EventOrder;
    FirstOfQueue(s);
    HandleKeepsOrder(s);
  }

  lemma TailOfQueue(q: seq<Event>)
    requires q != [] && RemovalComesLast(q)
    ensures RemovalComesLast(q[1..])
    ensures q[0] == RemovedEvent ==> forall e :: e in q[1..] ==> e == OtherEvent
    ensures forall e :: e in q <==> e == q[0] || e in q[1..]
  {
    assert q == [q[0]] + q[1..];
    forall e | q[0] == RemovedEvent && e in q[1..]
      ensures e == OtherEvent
    {
      var j :| 0 < j < |q| && q[j] == e;
    }
  }

  lemma FirstOfQueue(s: State)
    requires EventOrder(s) && s.queue != []
    ensures forall e :: e in s.queue <==> e == s.queue[0] || e in s.queue[1..]
    ensures s.queue[0] == RemovedEvent ==> WroteEvent !in s.queue && AnnouncedRemoval(s)
  {
    hide RemovalComesLast;
    TailOfQueue(s.queue);
  }

  lemma HandleKeepsOrder(s: State)
    requires EventOrder(s) && NotifierStep(s, HandleEvent).Some?
    ensures EventOrder(NotifierStep(s, HandleEvent).value)
  {
    hide RemovalComesLast;
    TailOfQueue(s.queue);
  }

  lemma StepKeepsInv(s: State, a: Action)
    requires Inv(s) && Next(s, a).Some?
    ensures Inv(Next(s, a).value)
  {
    hide Environment, ReaderStep, NotifierStep, Inv;
    if Environment(s, a).Some? && Next(s, a) == Environment(s, a) {
      EnvironmentKeepsInv(s, a);
    } else if NotifierStep(s, a).Some? && Next(s, a) == NotifierStep(s, a) {
      NotifierKeepsInv(s, a);
    } else {
      ReaderKeepsInv(s, a);
    }
  }

  lemma {:induction false} RunKeepsInv(s: State, actions: seq<Action>)
    requires Inv(s) && Run(s, actions).Some?
    ensures Inv(Run(s, actions).value)
    decreases |actions|
  {
    if actions != [] {
      StepKeepsInv(s, actions[0]);
      RunKeepsInv(Next(s, actions[0]).value, actions[1..]);
    }
  }

  // ---------------------------------------------------------------- main results

  predicate Reachable(file: Bytes, start: nat, actions: seq<Action>) {
    start <= |file| && Run(Init(file, start), actions).Some?
  }

  function After(file: Bytes, start: nat, actions: seq<Action>): State
    requires Reachable(file, start, actions)
  {
    Run(Init(file, start), actions).value
  }

  /** What was delivered is always the file from the start on, without gap or repetition;
      end of file is only ever returned after a cancellation. */
  lemma DeliveredInOrder(file: Bytes, start: nat, actions: seq<Action>)
    requires Reachable(file, start, actions)
    ensures var s := After(file, start, actions);
      && start <= s.offset <= |s.file| && s.delivered == s.file[start..s.offset]
      && (EndOfFile in s.outcomes ==> s.cancelled)
  {
    RunKeepsInv(Init(file, start), actions);
    RunKeepsStart(Init(file, start), actions);
  }

  lemma {:induction false} RunKeepsStart(s: State, actions: seq<Action>)
    requires Run(s, actions).Some?
    ensures Run(s, actions).value.start == s.start
    decreases |actions|
  {
    if actions != [] {
      RunKeepsStart(Next(s, actions[0]).value, actions[1..]);
    }
  }

  /** Once Read has returned the removal error, everything appended between the watch and
      the removal has been delivered, in every interleaving. */
  lemma RemovalAfterDelivery(file: Bytes, start: nat, actions: seq<Action>)
    requires Reachable(file, start, actions) && ErrRemoved in After(file, start, actions).outcomes
    ensures var s := After(file, start, actions);
      && s.removedAt.Some? && s.watchedFrom.Some? && s.watchedFrom.value <= s.removedAt.value
      && (s.removedAt.value > s.watchedFrom.value ==> s.offset >= s.removedAt.value)
  {
    RunKeepsInv(Init(file, start), actions);
  }

  /** A reader that was waiting, with bytes unread, when the watch was installed. */
  predicate Asleep(s: State) {
    s.reader.Waiting? && s.offset < |s.file|
  }

  /** No removal error is in the channel or still to come. */
  predicate Over(s: State) {
    GaveUp(s) || (s.notifier == Stopped(AfterRemoval) && s.slot != Some(Removed))
  }

  /** What becomes of the bytes before the watch: a reader that was not asleep has read them
      before it waits again; one that was sleeps on until something fresh is appended. */
  predicate History(asleep: bool, s: State) {
    && s.watchedFrom.Some?
    && if asleep then Fresh(s) || StillAsleep(s) || Over(s) else s.reader.Waiting? ==> s.offset >= s.watchedFrom.value
  }

  predicate StillAsleep(s: State)
    requires s.watchedFrom.Some?
  {
    && s.offset < s.watchedFrom.value && WroteEvent !in s.queue && s.slot != Some(Wake)
    && (s.reader.Waiting? || (s.cancelled && (s.reader.Idle? || s.reader.Entered?)))
  }

  lemma InstallStartsHistory(s: State)
    requires Inv(s) && Next(s, Install).Some?
    ensures History(Asleep(s), Next(s, Install).value)
  {
  }

  lemma HistoryKept(asleep: bool, s: State, a: Action)
    requires Inv(s) && History(asleep, s) && Next(s, a).Some?
    ensures History(asleep, Next(s, a).value)
  {
    hide Environment, ReaderStep, NotifierStep, History, InOrder, EventOrder, Signalled, Truthful;
    if Environment(s, a).Some? && Next(s, a) == Environment(s, a) {
      EnvironmentKeepsHistory(asleep, s, a);
    } else if NotifierStep(s, a).Some? && Next(s, a) == NotifierStep(s, a) {
      NotifierKeepsHistory(asleep, s, a);
    } else {
      ReaderKeepsHistory(asleep, s, a);
    }
  }

  lemma EnvironmentKeepsHistory(asleep: bool, s: State, a: Action)
    requires Positions(s) && History(asleep, s) && Environment(s, a).Some?
    ensures History(asleep, Environment(s, a).value)
  {
  }

  lemma ReaderKeepsHistory(asleep: bool, s: State, a: Action)
    requires Positions(s) && Channel(s) && History(asleep, s) && ReaderStep(s, a).Some?
    ensures History(asleep, ReaderStep(s, a).value)
  {
  }

  lemma NotifierKeepsHistory(asleep: bool, s: State, a: Action)
    requires Positions(s) && Channel(s) && History(asleep, s) && NotifierStep(s, a).Some?
    ensures History(asleep, NotifierStep(s, a).value)
  {
    if a.HandleEvent? {
      assert forall e :: e in s.queue[1..] ==> e in s.queue;
    }
  }

  lemma {:induction false} RunKeepsHistory(asleep: bool, s: State, actions: seq<Action>)
    requires Inv(s) && History(asleep, s) && Run(s, actions).Some?
    ensures History(asleep, Run(s, actions).value)
    decreases |actions|
  {
    if actions != [] {
      hide Inv, History, Next;
      StepKeepsInv(s, actions[0]);
      HistoryKept(asleep, s, actions[0]);
      RunKeepsHistory(asleep, Next(s, actions[0]).value, actions[1..]);
    }
  }

  /** Whether the removal error skips anything is decided when the watch is installed: whatever
      happens `later`, when the error is about to be returned nothing at all is missing exactly
      when something was appended in between, or the reader was not asleep on unread bytes. */
  lemma RemovalCompleteIff(file: Bytes, start: nat, earlier: seq<Action>, later: seq<Action>)
    requires Reachable(file, start, earlier)
    requires var s0 := After(file, start, earlier);
      && s0.notifier.Installing? && Run(Next(s0, Install).value, later).Some?
      && var s := Run(Next(s0, Install).value, later).value; s.reader.Waiting? && s.slot == Some(Removed)
    ensures var s0 := After(file, start, earlier);
      var s := Run(Next(s0, Install).value, later).value;
      && s.removedAt.Some? && s.watchedFrom.Some?
      && (s.offset >= s.removedAt.value <==> s.removedAt.value > s.watchedFrom.value || !Asleep(s0))
  {
    var s0 := After(file, start, earlier);
    var s1 := Next(s0, Install).value;
    RunKeepsInv(Init(file, start), earlier);
    StepKeepsInv(s0, Install);
    InstallStartsHistory(s0);
    RunKeepsHistory(Asleep(s0), s1, later);
    RunKeepsInv(s1, later);
  }

  /** Such a loss exists: an append that falls between the first end of file and the
      installation of the watch is never signalled, and the removal error skips it. */
  lemma LostBeforeWatch() returns (actions: seq<Action>)
    ensures Reachable([], 0, actions)
    ensures var s := After([], 0, actions); s.outcomes == [ErrRemoved] && s.offset == 0 && s.removedAt == Some(1)
  {
    hide Run, Next;
    var s;
    actions, s := WaitUnwatched();
    actions, s := AppendThenWatch(actions, s);
    actions, s := RemoveUnread(actions, s);
    ReachableFromEmpty(actions);
  }

  lemma ReachableFromEmpty(actions: seq<Action>)
    requires Run(Init([], 0), actions).Some?
    ensures Reachable([], 0, actions) && After([], 0, actions) == Run(Init([], 0), actions).value
  {
  }

  lemma WaitUnwatched() returns (actions: seq<Action>, s: State)
    ensures Run(Init([], 0), actions) == Some(s)
    ensures s == Init([], 0).(reader := Waiting(1), notifier := Installing)
  {
    hide Run;
    RunNone(Init([], 0));
    actions, s := Do([], Init([], 0), CallRead(1));
    actions, s := Do(actions, s, CheckContext);
    actions, s := Do(actions, s, ReadEnd);
  }

  lemma AppendThenWatch(before: seq<Action>, r: State) returns (actions: seq<Action>, s: State)
    requires Run(Init([], 0), before) == Some(r) && r == Init([], 0).(reader := Waiting(1), notifier := Installing)
    ensures Run(Init([], 0), actions) == Some(s)
    ensures s == r.(file := [7], watchedFrom := Some(1), notifier := Watching)
  {
    hide Run;
    actions, s := Do(before, r, Append([7], false));
    actions, s := Do(actions, s, Install);
  }

  lemma RemoveUnread(before: seq<Action>, r: State) returns (actions: seq<Action>, s: State)
    requires Run(Init([], 0), before) == Some(r) && r.file == [7] && r.watchedFrom == Some(1) && r.removedAt.None?
    requires r.notifier.Watching? && r.reader.Waiting? && r.queue == [] && r.slot.None? && r.outcomes == []
    ensures Run(Init([], 0), actions) == Some(s)
    ensures s.outcomes == [ErrRemoved] && s.offset == r.offset && s.removedAt == Some(1)
  {
    hide Run;
    actions, s := Do(before, r, Remove);
    actions, s := Do(actions, s, HandleEvent);
    actions, s := Do(actions, s, SendError);
    actions, s := Do(actions, s, Receive);
  }

  /** One more step of a run from the empty file. */
  lemma Do(actions: seq<Action>, s: State, a: Action) returns (longer: seq<Action>, t: State)
    requires Run(Init([], 0), actions) == Some(s) && Next(s, a).Some?
    ensures Run(Init([], 0), longer) == Some(t) && Next(s, a) == Some(t)
  {
    RunOneMore(Init([], 0), actions, a);
    longer, t := actions + [a], Next(s, a).value;
  }

  lemma {:induction false} RunOneMore(s: State, actions: seq<Action>, a: Action)
    requires Run(s, actions).Some?
    ensures Run(s, actions + [a]) == Next(Run(s, actions).value, a)
    decreases |actions|
  {
    hide Next;
    if actions == [] {
      assert [] + [a] == [a] && [a][1..] == [];
    } else {
      RunOneMore(Next(s, actions[0]).value, actions[1..], a);
      assert (actions + [a])[1..] == actions[1..] + [a];
    }
  }

  lemma RunNone(s: State)
    ensures Run(s, []) == Some(s)
  {
  }

  lemma RunOne(s: State, a: Action, rest: seq<Action>)
    requires Next(s, a).Some?
    ensures Run(s, [a] + rest) == Run(Next(s, a).value, rest)
  {
    assert ([a] + rest)[1..] == rest;
  }

  /** How the notifier ended: a failure leaves its error in the slot until Read returns it, and
      that happens once. */
  predicate Ending(s: State) {
    && (s.notifier == Stopped(AfterFailure) ==> s.slot == Some(WatchFailed) || ErrWatch in s.outcomes)
    && (s.notifier == Stopped(AfterCancel) ==> s.cancelled)
    && (ErrWatch in s.outcomes ==> s.notifier == Stopped(AfterFailure) && s.slot.None?)
  }

  lemma EnvironmentKeepsEnding(s: State, a: Action)
    requires Ending(s) && Environment(s, a).Some?
    ensures Ending(Environment(s, a).value)
  {
  }

  lemma ReaderKeepsEnding(s: State, a: Action)
    requires Channel(s) && Ending(s) && ReaderStep(s, a).Some?
    ensures Ending(ReaderStep(s, a).value)
  {
  }

  lemma NotifierKeepsEnding(s: State, a: Action)
    requires Channel(s) && Ending(s) && NotifierStep(s, a).Some?
    ensures Ending(NotifierStep(s, a).value)
  {
  }

  lemma StepKeepsEnding(s: State, a: Action)
    requires Inv(s) && Ending(s) && Next(s, a).Some?
    ensures Ending(Next(s, a).value)
  {
    hide Environment, ReaderStep, NotifierStep, Ending, Positions, InOrder, Channel, EventOrder, Signalled, Truthful;
    if Environment(s, a).Some? && Next(s, a) == Environment(s, a) {
      EnvironmentKeepsEnding(s, a);
    } else if NotifierStep(s, a).Some? && Next(s, a) == NotifierStep(s, a) {
      NotifierKeepsEnding(s, a);
    } else {
      ReaderKeepsEnding(s, a);
    }
  }

  lemma {:induction false} RunKeepsEnding(s: State, actions: seq<Action>)
    requires Inv(s) && Ending(s) && Run(s, actions).Some?
    ensures Ending(Run(s, actions).value)
    decreases |actions|
  {
    if actions != [] {
      hide Inv, Ending, Next;
      StepKeepsInv(s, actions[0]);
      StepKeepsEnding(s, actions[0]);
      RunKeepsEnding(Next(s, actions[0]).value, actions[1..]);
    }
  }

  /** A write event, a signal or an error is on its way to the reader. */
  predicate Due(s: State) {
    s.slot.Some? || s.notifier == Sending(WatchFailed) || (WroteEvent in s.queue && s.notifier.Watching?)
  }

  /** No lost wakeup, although the notifier drops signals when the slot is full: unless it was
      cancelled, something is due to a reader that waits with fresh bytes unread, exactly until
      the watch has failed and Read has returned that error. */
  lemma NoLostWakeup(file: Bytes, start: nat, actions: seq<Action>)
    requires Reachable(file, start, actions)
    requires var s := After(file, start, actions); Fresh(s) && Behind(s) && !s.cancelled
    ensures var s := After(file, start, actions); Due(s) <==> ErrWatch !in s.outcomes
  {
    RunKeepsInv(Init(file, start), actions);
    RunKeepsEnding(Init(file, start), actions);
  }

  lemma SleepsOn(s: State, a: Action)
    requires s.reader.Waiting? && s.slot.None? && s.notifier.Stopped? && !s.cancelled && a != Cancel && Next(s, a).Some?
    ensures var t := Next(s, a).value;
      t.reader == s.reader && t.slot.None? && t.notifier.Stopped? && !t.cancelled && t.delivered == s.delivered
  {
  }

  /** From then on the notifier is not started again: a reader that waits sleeps, whatever is
      appended, until it is cancelled. */
  lemma {:induction false} SleepsForEver(s: State, actions: seq<Action>)
    requires s.reader.Waiting? && s.slot.None? && s.notifier.Stopped? && !s.cancelled
    requires Run(s, actions).Some? && Cancel !in actions
    ensures Run(s, actions).value.reader == s.reader && Run(s, actions).value.delivered == s.delivered
    decreases |actions|
  {
    if actions != [] {
      hide Next;
      assert actions[0] in actions;
      SleepsOn(s, actions[0]);
      SleepsForEver(Next(s, actions[0]).value, actions[1..]);
    }
  }

  /** That state exists: the watch fails, Read returns the error and is called again, and the
      data appended then wakes nobody. */
  lemma AsleepAfterFailure() returns (actions: seq<Action>)
    ensures Reachable([], 0, actions)
    ensures var s := After([], 0, actions);
      && Fresh(s) && Behind(s) && !s.cancelled && !Due(s)
      && s.reader.Waiting? && s.slot.None? && s.notifier.Stopped?
  {
    hide Run, Next;
    var s;
    actions, s := WaitUnwatched();
    actions, s := FailWatch(actions, s);
    actions, s := ReadAgain(actions, s);
    ReachableFromEmpty(actions);
  }

  lemma FailWatch(before: seq<Action>, r: State) returns (actions: seq<Action>, s: State)
    requires Run(Init([], 0), before) == Some(r) && r == Init([], 0).(reader := Waiting(1), notifier := Installing)
    ensures Run(Init([], 0), actions) == Some(s)
    ensures s == Init([], 0).(watchedFrom := Some(0), notifier := Stopped(AfterFailure), outcomes := [ErrWatch])
  {
    hide Run;
    actions, s := Do(before, r, Install);
    actions, s := Do(actions, s, WatcherError);
    actions, s := Do(actions, s, SendError);
    actions, s := Do(actions, s, Receive);
  }

  lemma ReadAgain(before: seq<Action>, r: State) returns (actions: seq<Action>, s: State)
    requires Run(Init([], 0), before) == Some(r)
    requires r == Init([], 0).(watchedFrom := Some(0), notifier := Stopped(AfterFailure), outcomes := [ErrWatch])
    ensures Run(Init([], 0), actions) == Some(s)
    ensures s == r.(file := [7], reader := Waiting(1))
  {
    hide Run;
    actions, s := Do(before, r, CallRead(1));
    actions, s := Do(actions, s, CheckContext);
    actions, s := Do(actions, s, ReadEnd);
    actions, s := Do(actions, s, Append([7], false));
  }

  /** What is due also arrives: the notifier and the reader alone can take it to new data, or
      to the error of a watch that has failed. */
  lemma {:induction false} Wakeup(s: State) returns (actions: seq<Action>)
    requires Inv(s) && Fresh(s) && Behind(s) && Due(s)
    ensures forall a :: a in actions ==> a in {HandleEvent, SendError, Receive, ReadSome(1)}
    ensures Run(s, actions).Some?
    ensures var t := Run(s, actions).value;
      |t.delivered| > |s.delivered| || (GaveUp(s) && t.outcomes == s.outcomes + [ErrWatch])
    decreases |s.queue|
  {
    hide Inv, Run, Next;
    if s.slot == Some(Wake) {
      WakeIsReadable(s);
      actions := [Receive] + [ReadSome(1)];
    } else if s.slot.Some? || s.notifier == Sending(WatchFailed) {
      actions := ErrorArrives(s);
    } else {
      PendingWrite(s);
      StepKeepsInv(s, HandleEvent);
      var rest := Wakeup(Next(s, HandleEvent).value);
      RunOne(s, HandleEvent, rest);
      actions := [HandleEvent] + rest;
    }
  }

  lemma ErrorArrives(s: State) returns (actions: seq<Action>)
    requires Inv(s) && Fresh(s) && Behind(s) && s.slot != Some(Wake)
    requires s.slot.Some? || s.notifier == Sending(WatchFailed)
    ensures forall a :: a in actions ==> a in {SendError, Receive}
    ensures Run(s, actions).Some? && GaveUp(s) && Run(s, actions).value.outcomes == s.outcomes + [ErrWatch]
  {
    hide Run, EventOrder, InOrder;
    assert s.slot != Some(Removed);
    var t := if s.slot.Some? then s else Next(s, SendError).value;
    RunNone(Next(t, Receive).value);
    RunOne(t, Receive, []);
    actions := [Receive] + [];
    if s.slot.None? {
      RunOne(s, SendError, actions);
      actions := [SendError] + actions;
    }
  }

  lemma WakeIsReadable(s: State)
    requires Inv(s) && Fresh(s) && Behind(s) && s.slot == Some(Wake)
    ensures var r := Run(s, [Receive] + [ReadSome(1)]); r.Some? && |r.value.delivered| == |s.delivered| + 1
  {
    hide Run, Channel, EventOrder, Signalled, Truthful;
    var t := Next(s, Receive).value;
    RunOne(s, Receive, [ReadSome(1)]);
    RunOne(t, ReadSome(1), []);
    RunNone(Next(t, ReadSome(1)).value);
    assert [ReadSome(1)] + [] == [ReadSome(1)];
  }

  /** An unsignalled append is announced by an event that the notifier will reach. */
  lemma PendingWrite(s: State)
    requires Inv(s) && Fresh(s) && Behind(s) && Due(s) && s.slot.None? && s.notifier != Sending(WatchFailed)
    ensures Next(s, HandleEvent).Some?
    ensures var t := Next(s, HandleEvent).value;
      && Fresh(t) && Behind(t) && Due(t) && !GaveUp(t)
      && t.delivered == s.delivered && |t.queue| < |s.queue|
  {
    hide EventOrder;
    FirstOfQueue(s);
  }

  // ---------------------------------------------------------------- what each call returns

  /** What a call that returns has seen: the data it hands over, or the reason it has none. */
  predicate Justified(s: State, a: Action, t: State, o: Outcome) {
    match o
    case GotData =>
      && a.ReadSome? && s.reader.Reading? && |t.delivered| == |s.delivered| + a.n
      && s.delivered <= t.delivered && a.n <= s.reader.want
    case EndOfFile => s.cancelled && (s.reader.Entered? || s.reader.Waiting?)
    case ErrRemoved => s.reader.Waiting? && s.slot == Some(Removed) && t.slot.None?
    case ErrWatch => s.reader.Waiting? && s.slot == Some(WatchFailed) && t.slot.None?
    case ErrClosedPipe => a.CallRead? && s.reader.Idle? && s.closed
    case ErrSource => s.reader.Reading?
  }

  /** A step ends at most one call, with the reader idle again, and no other step delivers. */
  lemma ReturnMeans(s: State, a: Action)
    requires Next(s, a).Some?
    ensures var t := Next(s, a).value;
      && (t.outcomes != s.outcomes ==>
            && t.reader.Idle? && |t.outcomes| == |s.outcomes| + 1 && s.outcomes <= t.outcomes
            && Justified(s, a, t, t.outcomes[|s.outcomes|]))
      && (t.delivered != s.delivered ==> t.outcomes == s.outcomes + [GotData])
  {
  }

  /** What each step may touch. */
  lemma StepTouches(s: State, a: Action)
    requires Next(s, a).Some?
    ensures var t := Next(s, a).value;
      && t.file == (if a.Append? then s.file + a.data else s.file)
      && (t.removedAt != s.removedAt ==> a.Remove?)
      && (t.cancelled != s.cancelled ==> a.Cancel?) && (t.closed != s.closed ==> a.Close?)
      && (!t.reader.Idle? && !s.reader.Idle? ==> t.reader.want == s.reader.want)
      && (!t.reader.Idle? && s.reader.Idle? ==> a.CallRead? && !s.closed && t.reader.want == a.size)
  {
  }

  /** What can happen next to a call, in every state. */
  lemma ReaderChoices(s: State, n: nat)
    ensures s.reader.Idle? <==> Next(s, CallRead(n)).Some?
    ensures s.reader.Idle? && s.closed ==> Next(s, CallRead(n)).value.outcomes == s.outcomes + [ErrClosedPipe]
    ensures s.reader.Entered? <==> Next(s, CheckContext).Some?
    ensures s.reader.Entered? && s.cancelled ==> Next(s, CheckContext).value.outcomes == s.outcomes + [EndOfFile]
    ensures s.reader.Entered? && !s.cancelled ==> Next(s, CheckContext).value.reader == Reading(s.reader.want)
    ensures Next(s, ReadSome(n)).Some? <==>
      && s.reader.Reading? && n <= s.reader.want && s.offset + n <= |s.file|
      && (n == 0 ==> s.reader.want == 0)
    // it waits exactly at the end of the file
    ensures Next(s, ReadEnd).Some? <==> s.reader.Reading? && s.reader.want > 0 && s.offset >= |s.file|
    ensures Next(s, Receive).Some? <==> s.reader.Waiting? && s.slot.Some?
    ensures Next(s, SeeCancelled).Some? <==> s.reader.Waiting? && s.cancelled
    ensures s.reader.Waiting? && s.slot == Some(Wake) ==> Next(s, Receive).value.reader == Reading(s.reader.want)
  {
  }

  /** The notifier never blocks on a signal: it takes each event as it comes, and a signal that
      finds the slot full is dropped. Only an error waits for the slot. */
  lemma NotifierNeverBlocks(s: State)
    requires s.notifier.Watching? && s.queue != []
    ensures Next(s, HandleEvent).Some?
    ensures var t := Next(s, HandleEvent).value;
      && t.queue == s.queue[1..]
      && (s.slot.Some? ==> t.slot == s.slot)
      && (s.slot.None? ==> t.slot == if s.queue[0] == WroteEvent then Some(Wake) else None)
      && t.notifier == if s.queue[0] == RemovedEvent then Sending(Removed) else Watching
  {
  }

  predicate OnlyFrom(longer: seq<Outcome>, shorter: seq<Outcome>, allowed: set<Outcome>) {
    shorter <= longer && forall i :: |shorter| <= i < |longer| ==> longer[i] in allowed
  }

  /** Once it is closed and no call is under way, every call returns the closed-pipe error and
      nothing is delivered any more. */
  lemma {:induction false} ClosedForEver(s: State, actions: seq<Action>)
    requires s.closed && s.reader.Idle? && Run(s, actions).Some?
    ensures var t := Run(s, actions).value;
      t.closed && t.reader.Idle? && t.delivered == s.delivered && OnlyFrom(t.outcomes, s.outcomes, {ErrClosedPipe})
    decreases |actions|
  {
    hide Next;
    if actions != [] {
      ClosedStep(s, actions[0]);
      ClosedForEver(Next(s, actions[0]).value, actions[1..]);
    }
  }

  lemma ClosedStep(s: State, a: Action)
    requires s.closed && s.reader.Idle? && Next(s, a).Some?
    ensures var t := Next(s, a).value;
      t.closed && t.reader.Idle? && t.delivered == s.delivered && OnlyFrom(t.outcomes, s.outcomes, {ErrClosedPipe})
  {
  }

  /** Once it is cancelled, a call that starts, or that has not read yet, returns without data. */
  lemma {:induction false} CancelledForEver(s: State, actions: seq<Action>)
    requires s.cancelled && (s.reader.Idle? || s.reader.Entered?) && Run(s, actions).Some?
    ensures var t := Run(s, actions).value;
      && t.cancelled && (t.reader.Idle? || t.reader.Entered?)
      && t.delivered == s.delivered && OnlyFrom(t.outcomes, s.outcomes, {EndOfFile, ErrClosedPipe})
    decreases |actions|
  {
    hide Next;
    if actions != [] {
      CancelledStep(s, actions[0]);
      CancelledForEver(Next(s, actions[0]).value, actions[1..]);
    }
  }

  lemma CancelledStep(s: State, a: Action)
    requires s.cancelled && (s.reader.Idle? || s.reader.Entered?) && Next(s, a).Some?
    ensures var t := Next(s, a).value;
      && t.cancelled && (t.reader.Idle? || t.reader.Entered?)
      && t.delivered == s.delivered && OnlyFrom(t.outcomes, s.outcomes, {EndOfFile, ErrClosedPipe})
  {
  }
}
