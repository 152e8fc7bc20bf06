/** The batching audit writer: request handlers submit entries to a bounded channel,
    one loop moves them to a pending batch and writes batches out, and Close cancels
    the loop, waits for it to drain the channel and writes what is left. Every step
    below may interleave with every other. */
module AuditWriter {

  datatype Option<T> = None | Some(value: T)

  datatype LoopPc = Selecting | Appending | LoopFlushing | Draining | Exited

  datatype CloserPc = Waiting | Locking | CloserFlushing | ReturnedNil | TimedOut

  datatype Mutex = Free | ByLoop | ByCloser(c: int)

  /** `batch` is the part of a flush not written yet; `written` the rows whose insert
      was attempted. `accepted` and `late` are history: the entries the channel took,
      and those it took after the loop had ended its drain. */
  datatype State<E> = State(
    capacity: nat,
    batchSize: nat,
    channel: seq<E>,
    hand: Option<E>,
    pending: seq<E>,
    batch: seq<E>,
    written: seq<E>,
    loop: LoopPc,
    cancelled: bool,
    mutex: Mutex,
    closers: map<int, CloserPc>,
    accepted: seq<E>,
    late: seq<E>)

  datatype Step<E> =
    | Submit(entry: E)
    | Receive
    | Append
    | Tick
    | LoopWrite
    | LoopFlushed
    | StartDrain
    | DrainOne
    | DrainEnd
    | CallClose(c: int)
    | TimeOut(c: int)
    | SeeDone(c: int)
    | FinalFlush(c: int)
    | CloserWrite(c: int)
    | CloserFlushed(c: int)

  predicate At<E>(s: State<E>, c: int, pc: CloserPc) { c in s.closers && s.closers[c] == pc }

  predicate Enabled<E>(s: State<E>, step: Step<E>) {
    match step
    case Submit(_) => true
    case Receive => s.loop.Selecting? && s.channel != []
    case Append => s.loop.Appending? && s.hand.Some? && s.mutex.Free?
    case Tick => s.loop.Selecting? && s.mutex.Free?
    case LoopWrite => s.loop.LoopFlushing? && s.batch != []
    case LoopFlushed => s.loop.LoopFlushing? && s.batch == []
    case StartDrain => s.loop.Selecting? && s.cancelled && s.mutex.Free?
    case DrainOne => s.loop.Draining? && s.channel != []
    case DrainEnd => s.loop.Draining? && s.channel == []
    case CallClose(c) => c !in s.closers
    case TimeOut(c) => At(s, c, Waiting)
    case SeeDone(c) => At(s, c, Waiting) && s.loop.Exited?
    case FinalFlush(c) => At(s, c, Locking) && s.mutex.Free?
    case CloserWrite(c) => At(s, c, CloserFlushing) && s.batch != []
    case CloserFlushed(c) => At(s, c, CloserFlushing) && s.batch == []
  }

  /** Takes the pending entries as a batch, with the mutex held by the loop. */
  function LoopFlush<E>(s: State<E>): State<E> {
    s.(loop := LoopFlushing, mutex := ByLoop, batch := s.pending, pending := [])
  }

  function Apply<E>(s: State<E>, step: Step<E>): State<E>
    requires Enabled(s, step)
  {
    match step
    case Submit(e) =>
      // A full channel drops the entry.
      if |s.channel| < s.capacity then
        s.(channel := s.channel + [e], accepted := s.accepted + [e],
           late := if s.loop.Exited? then s.late + [e] else s.late)
      else s
    case Receive => s.(hand := Some(s.channel[0]), channel := s.channel[1..], loop := Appending)
    case Append =>
      var s' := s.(pending := s.pending + [s.hand.value], hand := None, loop := Selecting);
      if |s'.pending| >= s.batchSize && !s.cancelled then LoopFlush(s') else s'
    case Tick => if |s.pending| > 0 && !s.cancelled then LoopFlush(s) else s
    case LoopWrite => s.(written := s.written + [s.batch[0]], batch := s.batch[1..])
    case LoopFlushed => s.(loop := Selecting, mutex := Free)
    case StartDrain => s.(loop := Draining, mutex := ByLoop)
    case DrainOne => s.(pending := s.pending + [s.channel[0]], channel := s.channel[1..])
    case DrainEnd => s.(loop := Exited, mutex := Free)
    case CallClose(c) => s.(cancelled := true, closers := s.closers[c := Waiting])
    case TimeOut(c) => s.(closers := s.closers[c := TimedOut])
    case SeeDone(c) => s.(closers := s.closers[c := Locking])
    case FinalFlush(c) =>
      if |s.pending| > 0 then
        s.(closers := s.closers[c := CloserFlushing], mutex := ByCloser(c), batch := s.pending, pending := [])
      else s.(closers := s.closers[c := ReturnedNil])
    case CloserWrite(c) => s.(written := s.written + [s.batch[0]], batch := s.batch[1..])
    case CloserFlushed(c) => s.(closers := s.closers[c := ReturnedNil], mutex := Free)
  }

  predicate Initial<E>(s: State<E>) {
    && s.channel == [] && s.hand.None? && s.pending == [] && s.batch == [] && s.written == []
    && s.loop.Selecting? && !s.cancelled && s.mutex.Free? && s.closers == map[]
    && s.accepted == [] && s.late == []
  }

  predicate LegalRun<E>(s: State<E>, steps: seq<Step<E>>)
    decreases |steps|
  {
    steps != [] ==> Enabled(s, steps[0]) && LegalRun(Apply(s, steps[0]), steps[1..])
  }

  function Run<E>(s: State<E>, steps: seq<Step<E>>): State<E>
    requires LegalRun(s, steps)
    decreases |steps|
  {
    if steps == [] then s else Run(Apply(s, steps[0]), steps[1..])
  }

  // ------------------------------------------------------ conservation

  function InHand<E>(s: State<E>): seq<E> { if s.hand.Some? then [s.hand.value] else [] }

  /** Everything accepted, in order, wherever it is now. */
  function Everything<E>(s: State<E>): seq<E> {
    s.written + s.batch + s.pending + InHand(s) + s.channel
  }

  ghost predicate Conserved<E>(s: State<E>) {
    && Everything(s) == s.accepted
    && (s.hand.Some? <==> s.loop.Appending?)
    && (s.mutex.Free? ==> s.batch == [])
    && (s.loop.Draining? ==> s.batch == [])
    && (s.loop.LoopFlushing? || s.loop.Draining? <==> s.mutex.ByLoop?)
  }

  /** A step moves entries along; only an accepted submission adds one, at the end. */
  lemma StepMovesAlong<E>(s: State<E>, step: Step<E>)
    requires Conserved(s) && Owned(s) && Enabled(s, step)
    ensures Everything(Apply(s, step)) ==
      Everything(s) + if step.Submit? && |s.channel| < s.capacity then [step.entry] else []
  {
    assert Everything(s) + [] == Everything(s);
    match step
    case Submit(e) => Regroup(s.written + s.batch + s.pending + InHand(s), s.channel, [e]);
    case Receive => Receives(s);
    case Append => Appends(s);
    case LoopWrite => Writes(s);
    case DrainOne => Drains(s);
    case CloserWrite(c) => Writes(s);
    case Tick => Flushes(s);
    case FinalFlush(c) => Flushes(s);
    case _ =>
  }

  lemma Receives<E>(s: State<E>)
    requires s.channel != [] && s.hand.None?
    ensures Everything(s.(hand := Some(s.channel[0]), channel := s.channel[1..])) == Everything(s)
  {
    Shift(s.written + s.batch + s.pending, s.channel);
  }

  lemma Appends<E>(s: State<E>)
    requires s.hand.Some? && s.batch == []
    ensures var s' := s.(pending := s.pending + [s.hand.value], hand := None);
      Everything(s') == Everything(s) && Everything(s'.(batch := s'.pending, pending := [])) == Everything(s)
  {
    Regroup(s.written + s.batch, s.pending, [s.hand.value]);
    Flushes(s.(pending := s.pending + [s.hand.value], hand := None));
  }

  /** Taking the pending entries as a batch. */
  lemma Flushes<E>(s: State<E>)
    requires s.batch == []
    ensures Everything(s.(batch := s.pending, pending := [])) == Everything(s)
  {
  }

  lemma Writes<E>(s: State<E>)
    requires s.batch != []
    ensures Everything(s.(written := s.written + [s.batch[0]], batch := s.batch[1..])) == Everything(s)
  {
    Shift(s.written, s.batch);
  }

  lemma Drains<E>(s: State<E>)
    requires s.channel != [] && s.hand.None?
    ensures Everything(s.(pending := s.pending + [s.channel[0]], channel := s.channel[1..])) == Everything(s)
  {
    Shift(s.written + s.batch + s.pending, s.channel);
    Regroup(s.written + s.batch, s.pending, [s.channel[0]]);
  }

  lemma Regroup<E>(a: seq<E>, b: seq<E>, c: seq<E>)
    ensures a + (b + c) == a + b + c
  {
  }

  lemma Shift<E>(a: seq<E>, b: seq<E>)
    requires b != []
    ensures a + [b[0]] + b[1..] == a + b
  {
    assert b == [b[0]] + b[1..];
  }

  lemma StepConserves<E>(s: State<E>, step: Step<E>)
    requires Conserved(s) && Owned(s) && Enabled(s, step)
    ensures Conserved(Apply(s, step))
  {
    StepMovesAlong(s, step);
  }

  // ---------------------------------------------------------- shutdown

  /** The mutex is held by whoever is inside its critical section, and a closer gets
      past waiting only after the loop has exited. */
  ghost predicate Owned<E>(s: State<E>) {
    && (forall c :: c in s.closers && s.closers[c].CloserFlushing? ==> s.mutex == ByCloser(c))
    && (s.mutex.ByCloser? ==> s.mutex.c in s.closers && s.closers[s.mutex.c].CloserFlushing?)
    && (forall c :: c in s.closers && (s.closers[c].Locking? || s.closers[c].CloserFlushing? || s.closers[c].ReturnedNil?)
          ==> s.loop.Exited?)
  }

  /** After the drain nothing leaves the channel, so it holds exactly the late entries;
      once a Close has returned nil nothing is left to write. */
  ghost predicate Settled<E>(s: State<E>) {
    && (if s.loop.Exited? then s.channel == s.late else s.late == [])
    && (forall c :: c in s.closers && s.closers[c].CloserFlushing? ==> s.pending == [])
    && (forall c :: c in s.closers && s.closers[c].ReturnedNil? ==> s.pending == [] && s.batch == [])
  }

  ghost predicate Inv<E>(s: State<E>) { Conserved(s) && Owned(s) && Settled(s) }

  lemma StepOwns<E>(s: State<E>, step: Step<E>)
    requires Inv(s) && Enabled(s, step)
    ensures Owned(Apply(s, step))
  {
  }

  lemma StepSettles<E>(s: State<E>, step: Step<E>)
    requires Inv(s) && Enabled(s, step)
    ensures Settled(Apply(s, step))
  {
  }

  lemma {:induction false} RunKeeps<E>(s: State<E>, steps: seq<Step<E>>)
    requires Inv(s) && LegalRun(s, steps)
    ensures Inv(Run(s, steps))
    decreases |steps|
  {
    if steps != [] {
      StepConserves(s, steps[0]);
      StepOwns(s, steps[0]);
      StepSettles(s, steps[0]);
      RunKeeps(Apply(s, steps[0]), steps[1..]);
    }
  }

  /** In every interleaving the accepted entries are, in order, the written ones, the
      batch being written, the pending ones, the one in hand and the channel's. */
  lemma NothingLostOrReordered<E>(s: State<E>, steps: seq<Step<E>>)
    requires Initial(s) && LegalRun(s, steps)
    ensures var end := Run(s, steps);
      end.accepted == end.written + end.batch + end.pending + InHand(end) + end.channel
  {
    RunKeeps(s, steps);
  }

  /** In every interleaving, once some Close has returned nil every accepted entry was
      attempted exactly once and in order, except those accepted after the drain had
      ended; those are never attempted. */
  lemma CloseFlushesAll<E>(s: State<E>, steps: seq<Step<E>>, c: int)
    requires Initial(s) && LegalRun(s, steps) && At(Run(s, steps), c, ReturnedNil)
    ensures var end := Run(s, steps);
      && end.accepted == end.written + end.late
      && (end.written == end.accepted <==> end.late == [])
  {
    RunKeeps(s, steps);
    var end := Run(s, steps);
    assert end.loop.Exited?;
    assert Everything(end) == end.written + end.late;
  }

  // ----------------------------------------------------- before Close

  /** Until Close is called no full batch stays pending, and no batch is over size. */
  ghost predicate Prompt<E>(s: State<E>) {
    && s.batchSize >= 1
    && (s.loop.Draining? || s.loop.Exited? ==> s.cancelled)
    && (!s.cancelled ==> |s.pending| < s.batchSize && |s.batch| <= s.batchSize)
  }

  lemma StepPrompt<E>(s: State<E>, step: Step<E>)
    requires Inv(s) && Prompt(s) && Enabled(s, step)
    ensures Prompt(Apply(s, step))
  {
  }

  lemma {:induction false} RunPrompt<E>(s: State<E>, steps: seq<Step<E>>)
    requires Inv(s) && Prompt(s) && LegalRun(s, steps)
    ensures Prompt(Run(s, steps))
    decreases |steps|
  {
    if steps != [] {
      StepPrompt(s, steps[0]);
      StepConserves(s, steps[0]);
      StepOwns(s, steps[0]);
      StepSettles(s, steps[0]);
      RunPrompt(Apply(s, steps[0]), steps[1..]);
    }
  }

  /** In every interleaving, as long as Close has not been called, fewer entries are
      pending than make a batch. */
  lemma FullBatchIsTaken<E>(s: State<E>, steps: seq<Step<E>>)
    requires Initial(s) && s.batchSize >= 1 && LegalRun(s, steps)
    ensures var end := Run(s, steps); !end.cancelled ==> |end.pending| < end.batchSize && |end.batch| <= end.batchSize
  {
    RunPrompt(s, steps);
  }

  /** The loop begins to write only before Close is called, and only a full batch or, at a
      tick, what there is. */
  lemma FlushesWhenDue<E>(s: State<E>, step: Step<E>)
    requires Inv(s) && Enabled(s, step) && !s.loop.LoopFlushing? && Apply(s, step).loop.LoopFlushing?
    ensures !s.cancelled && Apply(s, step).batch != []
    ensures step.Tick? || |Apply(s, step).batch| >= s.batchSize
  {
  }

  /** The entries are written, or the loop is writing the last of them. */
  ghost predicate Underway<E>(s: State<E>, goal: seq<E>) {
    goal <= s.written || (s.loop.LoopFlushing? && s.written + s.batch == goal)
  }

  lemma StepUnderway<E>(s: State<E>, step: Step<E>, goal: seq<E>)
    requires Inv(s) && Underway(s, goal) && Enabled(s, step)
    ensures Underway(Apply(s, step), goal)
  {
    if s.batch != [] { Shift(s.written, s.batch); }
  }

  lemma {:induction false} RunUnderway<E>(s: State<E>, steps: seq<Step<E>>, goal: seq<E>)
    requires Inv(s) && Underway(s, goal) && LegalRun(s, steps)
    ensures Underway(Run(s, steps), goal)
    decreases |steps|
  {
    if steps != [] {
      StepUnderway(s, steps[0], goal);
      StepConserves(s, steps[0]);
      StepOwns(s, steps[0]);
      StepSettles(s, steps[0]);
      RunUnderway(Apply(s, steps[0]), steps[1..], goal);
    }
  }

  /** A tick before Close has all that is pending written out, whatever else happens
      meanwhile: once the loop is through with its flush it is written, and until then the
      loop can go on. An entry that fills a batch does the same. */
  lemma FlushReachesDatabase<E>(s: State<E>, step: Step<E>, steps: seq<Step<E>>)
    requires Inv(s) && !s.cancelled && Enabled(s, step) && LegalRun(Apply(s, step), steps)
    requires step.Tick? || (step.Append? && |s.pending| + 1 >= s.batchSize)
    ensures var end := Run(Apply(s, step), steps);
      && (end.loop.LoopFlushing? ==> Enabled(end, LoopWrite) || Enabled(end, LoopFlushed))
      && (!end.loop.LoopFlushing? ==> s.written + s.pending + (if step.Append? then [s.hand.value] else []) <= end.written)
  {
    var goal := s.written + s.pending + if step.Append? then [s.hand.value] else [];
    StepConserves(s, step);
    StepOwns(s, step);
    StepSettles(s, step);
    assert Apply(s, step).written + Apply(s, step).batch == goal;
    RunUnderway(Apply(s, step), steps, goal);
  }

  lemma Then<E>(s: State<E>, step: Step<E>, rest: seq<Step<E>>)
    requires Enabled(s, step) && LegalRun(Apply(s, step), rest)
    ensures LegalRun(s, [step] + rest) && Run(s, [step] + rest) == Run(Apply(s, step), rest)
  {
    assert ([step] + rest)[1..] == rest;
  }

  /** One entry submitted when the loop has drained an empty channel and a Close waits. */
  function Drained<E>(accepted: seq<E>): State<E> {
    State(1, 1, accepted, None, [], [], [], Exited, true, Free, map[0 := Waiting], accepted, accepted)
  }

  function Started<E>(): State<E> {
    State(1, 1, [], None, [], [], [], Selecting, false, Free, map[], [], [])
  }

  lemma DrainsNothing<E>(rest: seq<Step<E>>)
    requires LegalRun(Drained<E>([]), rest)
    ensures var steps := [CallClose(0)] + ([StartDrain] + ([DrainEnd] + rest));
      LegalRun(Started<E>(), steps) && Run(Started<E>(), steps) == Run(Drained<E>([]), rest)
  {
    var s1 := Apply(Started<E>(), CallClose(0));
    var s2 := Apply(s1, StartDrain);
    Then(s2, DrainEnd, rest);
    Then(s1, StartDrain, [DrainEnd] + rest);
    Then(Started<E>(), CallClose(0), [StartDrain] + ([DrainEnd] + rest));
  }

  lemma ReturnsAtOnce<E>(e: E)
    ensures var steps := [Submit(e)] + ([SeeDone(0)] + ([FinalFlush(0)] + []));
      && LegalRun(Drained<E>([]), steps)
      && Run(Drained<E>([]), steps) == Drained([e]).(closers := map[0 := ReturnedNil])
  {
    var s1 := Apply(Drained<E>([]), Submit(e));
    assert s1 == Drained([e]);
    var s2 := Apply(s1, SeeDone(0));
    assert At(s2, 0, Locking);
    Then(s2, FinalFlush(0), []);
    Then(s1, SeeDone(0), [FinalFlush(0)] + []);
    Then(Drained<E>([]), Submit(e), [SeeDone(0)] + ([FinalFlush(0)] + []));
  }

  /** An entry can be accepted too late: submitted after the drain and before Close has
      returned, it is accepted and never written. */
  lemma SubmitAfterDrain<E>(e: E) returns (s: State<E>, steps: seq<Step<E>>)
    ensures Initial(s) && LegalRun(s, steps) && At(Run(s, steps), 0, ReturnedNil)
    ensures Run(s, steps).accepted == [e] && Run(s, steps).written == [] && Run(s, steps).late == [e]
  {
    s := Started();
    var rest := [Submit(e)] + ([SeeDone(0)] + ([FinalFlush(0)] + []));
    ReturnsAtOnce(e);
    DrainsNothing(rest);
    steps := [CallClose(0)] + ([StartDrain] + ([DrainEnd] + rest));
  }
}
