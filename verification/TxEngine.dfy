/** The transmit engine of an SJA1000 channel: any number of writers put frames into the write FIFO and
    then look at the engine state under isr_lock; the interrupt handler refills the chip under the same
    lock and stops the engine when the FIFO is empty. Every FIFO call, chip register access and access
    to the engine state is one atomic step, so a put may fall anywhere inside a locked section. */
module TxEngine {
  import opened Common

  /** Progress of the holder of isr_lock. */
  datatype Phase<F> =
    | Entered       // lock taken
    | SawStopped    // a writer found the engine stopped
    | Ready         // a writer found the transmit buffer free
    | Taken(frame: F)
    | Empty         // the FIFO had nothing
    | Loaded        // transmission requested, engine state not yet set

  datatype Section<F> = Free | Writer(w: nat, ph: Phase<F>) | Handler(ph: Phase<F>)

  datatype State<F> = State(
    capacity: nat,
    fifo: seq<F>,
    engine: Engine,
    section: Section<F>,
    waiting: set<nat>,      // writers between their put and their engine check
    chip: Option<F>,        // frame in the transmit buffer: TBS is clear exactly while there is one
    irq: bool,              // transmit interrupt flag of the chip
    noticed: bool,          // the handler has read that flag and waits for the lock
    accepted: seq<F>,       // frames put, in put order
    sent: seq<F>,           // frames transmitted, in order
    overwritten: bool,      // a frame was loaded over another one
    ioError: bool)          // sja1000_write returned -EIO

  datatype Step<F> =
    | Put(w: nat, frame: F) // pcan_fifo_put by a writer
    | Lock(w: nat)          // a writer takes isr_lock for its engine check
    | Advance               // the holder of isr_lock makes its next move
    | Complete              // the chip has sent its frame and raises the interrupt
    | Notice                // the handler reads, and thereby clears, the interrupt register
    | HandlerLock           // the handler takes isr_lock

  function Init<F>(capacity: nat): State<F> {
    State(capacity, [], Stopped, Free, {}, None, false, false, [], [], false, false)
  }

  predicate Enabled<F>(s: State<F>, step: Step<F>) {
    match step
    case Put(w, _) => |s.fifo| < s.capacity && !(s.section.Writer? && s.section.w == w)
    case Lock(w) => w in s.waiting && s.section.Free?
    case Advance => !s.section.Free?
    case Complete => s.chip.Some?
    case Notice => s.irq && !s.noticed && !s.section.Handler?
    case HandlerLock => s.noticed && s.section.Free?
  }

  /** __sja1000_write: get a frame from the FIFO. */
  function Fetch<F>(s: State<F>, hold: Phase<F> -> Section<F>): State<F> {
    if s.fifo == [] then s.(section := hold(Empty))
    else s.(fifo := s.fifo[1..], section := hold(Taken(s.fifo[0])))
  }

  /** sja1000_write_msg up to the transmission request; it loads whether or not TBS is set. */
  function Load<F>(s: State<F>, frame: F, next: Section<F>): State<F> {
    s.(chip := Some(frame), overwritten := s.overwritten || s.chip.Some?, section := next)
  }

  /** The next move of a writer in its engine check (pcan_netdev_tx, sja1000_write). */
  function AdvanceWriter<F>(s: State<F>): State<F>
    requires s.section.Writer?
  {
    var w := s.section.w;
    match s.section.ph
    case Entered => s.(section := if s.engine.Stopped? then Writer(w, SawStopped) else Free)
    case SawStopped => if s.chip.None? then s.(section := Writer(w, Ready)) else s.(section := Free, ioError := true)
    case Ready => Fetch(s, ph => Writer(w, ph))
    case Taken(frame) => Load(s, frame, Writer(w, Loaded))
    case Empty => s.(section := Free)
    case Loaded => s.(engine := Started, section := Free)
  }

  /** The next move of the handler in its transmit branch. */
  function AdvanceHandler<F>(s: State<F>): State<F>
    requires s.section.Handler?
  {
    match s.section.ph
    case Taken(frame) => Load(s, frame, Handler(Loaded))
    case Empty => s.(engine := Stopped, section := Free)
    case Loaded => s.(engine := Started, section := Free)
    case _ => Fetch(s, ph => Handler(ph))
  }

  function Next<F>(s: State<F>, step: Step<F>): State<F>
    requires Enabled(s, step)
  {
    match step
    case Put(w, frame) =>
      s.(fifo := s.fifo + [frame], accepted := s.accepted + [frame], waiting := s.waiting + {w})
    case Lock(w) => s.(waiting := s.waiting - {w}, section := Writer(w, Entered))
    case Advance => if s.section.Writer? then AdvanceWriter(s) else AdvanceHandler(s)
    case Complete => s.(chip := None, irq := true, sent := s.sent + [s.chip.value])
    case Notice => s.(irq := false, noticed := true)
    case HandlerLock => s.(noticed := false, section := Handler(Entered))
  }

  predicate Runs<F>(s: State<F>, steps: seq<Step<F>>)
    decreases |steps|
  {
    steps == [] || (Enabled(s, steps[0]) && Runs(Next(s, steps[0]), steps[1..]))
  }

  function After<F>(s: State<F>, steps: seq<Step<F>>): State<F>
    requires Runs(s, steps)
    decreases |steps|
  {
    if steps == [] then s else After(Next(s, steps[0]), steps[1..])
  }

  // ---------------------------------------------------------------- the invariant

  function One(b: bool): nat { if b then 1 else 0 }

  /** Frame in the chip, interrupt raised by it, or that interrupt noticed. */
  function InFlight<F>(s: State<F>): nat {
    One(s.chip.Some?) + One(s.irq) + One(s.noticed)
  }

  /** The handler is in its section and has not yet decided what becomes of the engine. */
  predicate HandlerAhead<F>(s: State<F>) {
    s.section.Handler? && !s.section.ph.Loaded?
  }

  function Held<F>(s: State<F>): seq<F> {
    if !s.section.Free? && s.section.ph.Taken? then [s.section.ph.frame] else []
  }

  function InChip<F>(s: State<F>): seq<F> {
    if s.chip.Some? then [s.chip.value] else []
  }

  /** Every accepted frame is in exactly one place, in put order. */
  ghost predicate Conserved<F>(s: State<F>) {
    s.sent + InChip(s) + Held(s) + s.fifo == s.accepted
  }

  /** What the engine state means at each point of the two locked sections. */
  predicate EngineAgrees<F>(s: State<F>) {
    match s.section
    case Free => InFlight(s) == One(s.engine.Started?)
    case Writer(_, ph) =>
      if ph.Entered? then InFlight(s) == One(s.engine.Started?)
      else s.engine.Stopped? && InFlight(s) == One(ph.Loaded?)
    case Handler(ph) =>
      s.engine.Started? && InFlight(s) == One(ph.Loaded?) && !ph.SawStopped? && !ph.Ready?
  }

  /** A frame in the FIFO always has somebody who will see it. */
  predicate Seen<F>(s: State<F>) {
    s.fifo != [] && s.waiting == {} ==> if s.section.Free? then s.engine.Started? else !s.section.ph.Empty?
  }

  ghost predicate Orderly<F>(s: State<F>) {
    |s.fifo| <= s.capacity && !s.overwritten && !s.ioError && EngineAgrees(s) && Seen(s)
  }

  ghost predicate Inv<F>(s: State<F>) {
    Conserved(s) && Orderly(s)
  }

  /** A locked section moves the frame at the head of the FIFO to the hand, and from there to the chip. */
  lemma AdvanceMoves<F>(s: State<F>)
    requires EngineAgrees(s) && !s.section.Free?
    ensures var s' := Next(s, Advance);
            && s'.sent == s.sent && s'.accepted == s.accepted
            && if s.section.ph.Taken? then
                 InChip(s) == [] && InChip(s') == Held(s) && Held(s') == [] && s'.fifo == s.fifo
               else
                 && InChip(s') == InChip(s) && Held(s) == []
                 && ((Held(s') == [] && s'.fifo == s.fifo)
                     || (s.fifo != [] && Held(s') == [s.fifo[0]] && s'.fifo == s.fifo[1..]))
  {
  }

  lemma AdvanceConserves<F>(s: State<F>)
    requires EngineAgrees(s) && !s.section.Free?
    ensures var s' := Next(s, Advance);
            && s'.sent == s.sent && s'.accepted == s.accepted
            && InChip(s') + Held(s') + s'.fifo == InChip(s) + Held(s) + s.fifo
  {
    AdvanceMoves(s);
    hide Next, InChip, Held, EngineAgrees;
    var s' := Next(s, Step<F>.Advance);
    if s'.fifo != s.fifo {
      assert s.fifo == Held(s') + s'.fifo;
    }
  }

  lemma OtherStepConserves<F>(s: State<F>, step: Step<F>)
    requires Enabled(s, step) && !step.Advance?
    ensures var s' := Next(s, step);
            && Held(s') == Held(s)
            && (if step.Put? then
                  s'.fifo == s.fifo + [step.frame] && s'.accepted == s.accepted + [step.frame]
                else
                  s'.fifo == s.fifo && s'.accepted == s.accepted)
            && s'.sent + InChip(s') == s.sent + InChip(s)
  {
  }

  lemma StepConserves<F>(s: State<F>, step: Step<F>)
    requires Conserved(s) && EngineAgrees(s) && Enabled(s, step)
    ensures Conserved(Next(s, step))
  {
    hide InChip, Held, Next, Enabled, EngineAgrees;
    if step.Advance? {
      assert Enabled(s, step) ==> !s.section.Free? by { LockedWhenAdvancing(s); }
      AdvanceConserves(s);
      Associate(s.sent, InChip(s), Held(s), s.fifo);
      var s' := Next(s, step);
      Associate(s'.sent, InChip(s'), Held(s'), s'.fifo);
    } else {
      OtherStepConserves(s, step);
      if step.Put? {
        assert s.sent + InChip(s) + Held(s) + (s.fifo + [step.frame])
            == s.sent + InChip(s) + Held(s) + s.fifo + [step.frame];
      }
    }
  }

  lemma LockedWhenAdvancing<F>(s: State<F>)
    ensures Enabled(s, Advance) ==> !s.section.Free?
  {
  }

  lemma Associate<T>(a: seq<T>, b: seq<T>, c: seq<T>, d: seq<T>)
    ensures a + b + c + d == a + (b + c + d)
  {
  }

  lemma WriterKeepsOrder<F>(s: State<F>)
    requires Orderly(s) && s.section.Writer?
    ensures Orderly(AdvanceWriter(s)) && AdvanceWriter(s).capacity == s.capacity
  {
  }

  lemma HandlerKeepsOrder<F>(s: State<F>)
    requires Orderly(s) && s.section.Handler?
    ensures Orderly(AdvanceHandler(s)) && AdvanceHandler(s).capacity == s.capacity
  {
  }

  lemma AdvanceKeepsOrder<F>(s: State<F>)
    requires Orderly(s) && !s.section.Free?
    ensures Orderly(Next(s, Advance)) && Next(s, Step<F>.Advance).capacity == s.capacity
  {
    if s.section.Writer? {
      WriterKeepsOrder(s);
    } else {
      HandlerKeepsOrder(s);
    }
  }

  lemma StepKeepsInv<F>(s: State<F>, step: Step<F>)
    requires Inv(s) && Enabled(s, step)
    ensures Inv(Next(s, step)) && Next(s, step).capacity == s.capacity
  {
    StepConserves(s, step);
    hide Conserved;
    if step.Advance? {
      AdvanceKeepsOrder(s);
    } else if step.Put? {
      assert step.w in Next(s, step).waiting;
    }
  }

  /** The invariant holds in every reachable state, for any number of writers and any interleaving. */
  lemma {:induction false} RunKeepsInv<F>(s: State<F>, steps: seq<Step<F>>)
    requires Inv(s) && Runs(s, steps)
    ensures Inv(After(s, steps)) && After(s, steps).capacity == s.capacity
    decreases |steps|
  {
    hide Inv, Next;
    if steps != [] {
      StepKeepsInv(s, steps[0]);
      RunKeepsInv(Next(s, steps[0]), steps[1..]);
    }
  }

  // ---------------------------------------------------------------- what it gives

  /** No lost wake-up: a frame waiting in the FIFO while no writer is between its put and the end of its
      engine check finds the engine started, and exactly one thing that will fetch it: a frame in the
      chip, its interrupt, or the handler. */
  lemma NoLostWakeup<F>(capacity: nat, steps: seq<Step<F>>)
    requires Runs(Init(capacity), steps)
    ensures var s := After(Init(capacity), steps);
            s.fifo != [] && s.waiting == {} && !s.section.Writer? ==>
              s.engine.Started? && InFlight(s) + One(HandlerAhead(s)) == 1
  {
    RunKeepsInv(Init<F>(capacity), steps);
  }

  /** The two flags tell of nothing else: one of a frame loaded over another, one of a writer that found the
      transmit buffer in use although the engine was stopped. */
  lemma FlagsTell<F>(s: State<F>, step: Step<F>)
    requires Enabled(s, step)
    ensures var s' := Next(s, step);
            var load := step.Advance? && s.section.ph.Taken?;
            && (s'.overwritten <==> s.overwritten || (load && s.chip.Some?))
            && (load ==> s'.chip == Some(s.section.ph.frame))
            && (s'.ioError <==> s.ioError || (step.Advance? && BufferInUse(s)))
  {
    if step.Advance? && s.section.Writer? {
      WriterFlags(s);
    } else if step.Advance? {
      HandlerFlags(s);
    }
    hide AdvanceWriter, AdvanceHandler;
  }

  predicate BufferInUse<F>(s: State<F>) { s.section.Writer? && s.section.ph.SawStopped? && s.chip.Some? }

  lemma WriterFlags<F>(s: State<F>)
    requires s.section.Writer?
    ensures var (s', load) := (AdvanceWriter(s), s.section.ph.Taken?);
            && (s'.overwritten <==> s.overwritten || (load && s.chip.Some?))
            && (load ==> s'.chip == Some(s.section.ph.frame))
            && (s'.ioError <==> s.ioError || BufferInUse(s))
  {
  }

  lemma HandlerFlags<F>(s: State<F>)
    requires s.section.Handler?
    ensures var (s', load) := (AdvanceHandler(s), s.section.ph.Taken?);
            && (s'.overwritten <==> s.overwritten || (load && s.chip.Some?))
            && (load ==> s'.chip == Some(s.section.ph.frame)) && s'.ioError == s.ioError
  {
  }

  /** Transmission order is put order, and no frame is lost or duplicated, in every reachable state. */
  lemma OrderAndConservation<F>(capacity: nat, steps: seq<Step<F>>)
    requires Runs(Init(capacity), steps)
    ensures var s := After(Init(capacity), steps);
            s.sent + InChip(s) + Held(s) + s.fifo == s.accepted && |s.fifo| <= capacity && !s.overwritten
  {
    RunKeepsInv(Init<F>(capacity), steps);
  }

  /** The -EIO path of sja1000_write is unreachable, and a frame is never loaded over another one. */
  lemma NeverIoError<F>(capacity: nat, steps: seq<Step<F>>)
    requires Runs(Init(capacity), steps)
    ensures var s := After(Init(capacity), steps);
            && !s.ioError
            && (s.section.Writer? && s.section.ph.SawStopped? ==> s.chip.None?)
            && (!s.section.Free? && s.section.ph.Taken? ==> s.chip.None?)
  {
    RunKeepsInv(Init<F>(capacity), steps);
  }

  // ---------------------------------------------------------------- the FIFO drains

  /** Moves still possible without a further put. */
  function PhaseWeight<F>(section: Section<F>): nat {
    match section
    case Free => 0
    case Writer(_, ph) =>
      (match ph case Entered => 4 case SawStopped => 3 case Ready => 2 case Taken(_) => 7 case Empty => 1 case Loaded => 1)
    case Handler(ph) =>
      (match ph case Taken(_) => 7 case Empty => 1 case Loaded => 1 case _ => 2)
  }

  function Remaining<F>(s: State<F>): nat {
    6 * |s.fifo| + 5 * |s.waiting| + PhaseWeight(s.section)
    + 5 * One(s.chip.Some?) + 4 * One(s.irq) + 3 * One(s.noticed)
  }

  lemma AdvanceDecreases<F>(s: State<F>)
    requires EngineAgrees(s) && !s.section.Free?
    ensures Remaining(Next(s, Advance)) < Remaining(s)
  {
  }

  lemma StepDecreases<F>(s: State<F>, step: Step<F>)
    requires EngineAgrees(s) && Enabled(s, step) && !step.Put?
    ensures Remaining(Next(s, step)) < Remaining(s)
  {
    match step
    case Advance => AdvanceDecreases(s);
    case Lock(w) => assert |s.waiting - {w}| == |s.waiting| - 1;
    case _ =>
  }

  /** Without further puts every schedule ends, after a number of steps known in advance. */
  lemma {:induction false} RunsWithoutPutsEnd<F>(s: State<F>, steps: seq<Step<F>>)
    requires Inv(s) && Runs(s, steps) && (forall i :: 0 <= i < |steps| ==> !steps[i].Put?)
    ensures |steps| + Remaining(After(s, steps)) <= Remaining(s)
    decreases |steps|
  {
    hide Conserved, EngineAgrees, Seen, Next, Remaining;
    if steps != [] {
      StepKeepsInv(s, steps[0]);
      StepDecreases(s, steps[0]);
      RunsWithoutPutsEnd(Next(s, steps[0]), steps[1..]);
    }
  }

  /** And where it ends, every accepted frame has been sent. */
  lemma StuckMeansSent<F>(capacity: nat, steps: seq<Step<F>>)
    requires Runs(Init(capacity), steps)
    requires forall step: Step<F> :: Enabled(After(Init(capacity), steps), step) ==> step.Put?
    ensures var s := After(Init(capacity), steps); s.sent == s.accepted && s.fifo == [] && s.engine.Stopped?
  {
    hide Next, After, Runs;
    var s := After(Init<F>(capacity), steps);
    RunKeepsInv(Init<F>(capacity), steps);
    assert !Enabled(s, Step<F>.Advance) && !Enabled(s, Step<F>.Complete);
    assert !Enabled(s, Step<F>.Notice) && !Enabled(s, Step<F>.HandlerLock);
    forall w: nat
      ensures w !in s.waiting
    {
      assert Enabled(s, Step<F>.Lock(w)) <==> w in s.waiting;
    }
  }

  // ---------------------------------------------------------------- runs that send

  lemma {:induction false} OneMore<F>(s: State<F>, steps: seq<Step<F>>, step: Step<F>)
    requires Runs(s, steps) && Enabled(After(s, steps), step)
    ensures Runs(s, steps + [step]) && After(s, steps + [step]) == Next(After(s, steps), step)
    decreases |steps|
  {
    hide Next, Enabled;
    if steps == [] {
      assert steps + [step] == [step] && [step][1..] == [];
    } else {
      OneMore(Next(s, steps[0]), steps[1..], step);
      assert (steps + [step])[1..] == steps[1..] + [step];
    }
  }

  /** Nothing that happens outside waits for a locked section: at every point of every run any writer that is
      not itself in its section can put a frame as long as there is room, the chip can complete its frame, and
      the handler can read a pending interrupt unless it is already on its way; with the lock free, whoever
      waits for it can take it, and otherwise its holder can go on. */
  lemma AnyMoment<F>(capacity: nat, steps: seq<Step<F>>, w: nat, frame: F)
    requires Runs(Init(capacity), steps)
    ensures var s := After(Init(capacity), steps);
            && (|s.fifo| < capacity && !(s.section.Writer? && s.section.w == w) ==>
                  Runs(Init(capacity), steps + [Put(w, frame)])
                  && After(Init(capacity), steps + [Put(w, frame)]).fifo == s.fifo + [frame]
                  && w in After(Init(capacity), steps + [Put(w, frame)]).waiting)
            && (s.chip.Some? ==> Runs(Init(capacity), steps + [Complete]))
            && (s.irq && !s.noticed && !s.section.Handler? ==> Runs(Init(capacity), steps + [Notice]))
            && (w in s.waiting && s.section.Free? ==> Runs(Init(capacity), steps + [Step<F>.Lock(w)]))
            && (s.noticed && s.section.Free? ==> Runs(Init(capacity), steps + [HandlerLock]))
            && (!s.section.Free? ==> Runs(Init(capacity), steps + [Advance]))
  {
    hide Runs, After;
    var init := Init<F>(capacity);
    RunKeepsInv(init, steps);
    forall step: Step<F> | Enabled(After(init, steps), step)
      ensures Runs(init, steps + [step]) && After(init, steps + [step]) == Next(After(init, steps), step)
    {
      OneMore(init, steps, step);
    }
  }

  /** Nothing under way, and these frames sent. */
  function Idle<F>(capacity: nat, frames: seq<F>): State<F> {
    Init(capacity).(accepted := frames, sent := frames)
  }

  /** A writer with its frame in the FIFO has found engine and chip free. */
  function FoundFree<F>(capacity: nat, frames: seq<F>, frame: F): State<F> {
    Idle(capacity, frames).(fifo := [frame], accepted := frames + [frame], section := Writer(0, Ready))
  }

  /** The frame is in the chip. */
  function Sending<F>(capacity: nat, frames: seq<F>, frame: F): State<F> {
    Idle(capacity, frames).(accepted := frames + [frame], chip := Some(frame), engine := Started)
  }

  /** The handler has come for the next one. */
  function HandlerCame<F>(capacity: nat, frames: seq<F>): State<F> {
    Idle(capacity, frames).(engine := Started, section := Handler(Entered))
  }

  lemma PutOne<F>(capacity: nat, steps: seq<Step<F>>, frames: seq<F>, frame: F) returns (more: seq<Step<F>>)
    requires capacity > 0 && Runs(Init(capacity), steps) && After(Init(capacity), steps) == Idle(capacity, frames)
    ensures Runs(Init(capacity), more) && After(Init(capacity), more) == FoundFree(capacity, frames, frame)
  {
    hide Runs, After;
    more := steps;
    OneMore(Init(capacity), more, Put(0, frame));
    more := more + [Put(0, frame)];
    OneMore(Init(capacity), more, Step<F>.Lock(0));
    more := more + [Step<F>.Lock(0)];
    OneMore(Init(capacity), more, Step<F>.Advance);
    more := more + [Step<F>.Advance];
    OneMore(Init(capacity), more, Step<F>.Advance);
    more := more + [Step<F>.Advance];
  }

  lemma LoadOne<F>(capacity: nat, steps: seq<Step<F>>, frames: seq<F>, frame: F) returns (more: seq<Step<F>>)
    requires capacity > 0 && Runs(Init(capacity), steps) && After(Init(capacity), steps) == FoundFree(capacity, frames, frame)
    ensures Runs(Init(capacity), more) && After(Init(capacity), more) == Sending(capacity, frames, frame)
  {
    hide Runs, After;
    more := steps;
    OneMore(Init(capacity), more, Step<F>.Advance);
    more := more + [Step<F>.Advance];
    OneMore(Init(capacity), more, Step<F>.Advance);
    more := more + [Step<F>.Advance];
    OneMore(Init(capacity), more, Step<F>.Advance);
    more := more + [Step<F>.Advance];
  }

  lemma CompleteOne<F>(capacity: nat, steps: seq<Step<F>>, frames: seq<F>, frame: F) returns (more: seq<Step<F>>)
    requires capacity > 0 && Runs(Init(capacity), steps) && After(Init(capacity), steps) == Sending(capacity, frames, frame)
    ensures Runs(Init(capacity), more) && After(Init(capacity), more) == HandlerCame(capacity, frames + [frame])
  {
    hide Runs, After;
    more := steps;
    OneMore(Init(capacity), more, Step<F>.Complete);
    more := more + [Step<F>.Complete];
    OneMore(Init(capacity), more, Step<F>.Notice);
    more := more + [Step<F>.Notice];
    OneMore(Init(capacity), more, Step<F>.HandlerLock);
    more := more + [Step<F>.HandlerLock];
  }

  lemma StopAgain<F>(capacity: nat, steps: seq<Step<F>>, frames: seq<F>, frame: F) returns (more: seq<Step<F>>)
    requires capacity > 0 && Runs(Init(capacity), steps) && After(Init(capacity), steps) == HandlerCame(capacity, frames + [frame])
    ensures Runs(Init(capacity), more) && After(Init(capacity), more) == Idle(capacity, frames + [frame])
  {
    hide Runs, After;
    more := steps;
    OneMore(Init(capacity), more, Step<F>.Advance);
    more := more + [Step<F>.Advance];
    OneMore(Init(capacity), more, Step<F>.Advance);
    more := more + [Step<F>.Advance];
  }

  /** One more frame put into an idle engine is sent: by the writer that finds the engine stopped, and the
      interrupt that follows finds the FIFO empty. */
  lemma SendOne<F>(capacity: nat, steps: seq<Step<F>>, frames: seq<F>, frame: F) returns (more: seq<Step<F>>)
    requires capacity > 0 && Runs(Init(capacity), steps) && After(Init(capacity), steps) == Idle(capacity, frames)
    ensures Runs(Init(capacity), more) && After(Init(capacity), more) == Idle(capacity, frames + [frame])
  {
    hide Runs, After;
    more := PutOne(capacity, steps, frames, frame);
    more := LoadOne(capacity, more, frames, frame);
    more := CompleteOne(capacity, more, frames, frame);
    more := StopAgain(capacity, more, frames, frame);
  }

  /** For every sequence of frames there is a run that sends exactly these and stops. */
  lemma {:induction false} EverythingCanBeSent<F>(capacity: nat, frames: seq<F>) returns (steps: seq<Step<F>>)
    requires capacity > 0
    ensures Runs(Init(capacity), steps) && After(Init(capacity), steps).sent == frames
    ensures After(Init(capacity), steps) == Idle(capacity, frames)
    decreases |frames|
  {
    if frames == [] {
      steps := [];
    } else {
      var front, last := frames[..|frames| - 1], frames[|frames| - 1];
      steps := EverythingCanBeSent(capacity, front);
      steps := SendOne(capacity, steps, front, last);
      assert front + [last] == frames;
    }
  }
}
