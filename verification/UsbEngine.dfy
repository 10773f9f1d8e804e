/** Transmit engine of a USB channel: writers put frames and check the engine under isr_lock, as in
    TxEngine, but a start encodes as many frames as fit into one USB request (pcan_usb_write), and the
    completion of that request (pcan_usb_write_notify) encodes the next one. Requests may fail. */
module UsbEngine {
  import opened Common
  import opened TxEngine

  /** How a request ends. */
  datatype Status =
    | Sent          // status 0
    | Killed        // -ENOENT, or a status the driver calls abnormal
    | CableLost     // -EPROTO, -ECONNRESET, -ESHUTDOWN

  /** Answer of the USB stack to a submission; Busy means that the request block is still in use. */
  datatype Answer = Accepted | Refused | Busy

  /** Progress of the holder of isr_lock; a batch holds the frames encoded so far. */
  datatype Stage<F> =
    | Checking              // a writer before its test of the engine state
    | Encoding(batch: seq<F>)
    | Encoded(batch: seq<F>)

  datatype Turn<F> = Nobody | Task(w: nat, st: Stage<F>) | Notify(st: Stage<F>)

  /** What became of a frame that has left the FIFO. */
  datatype Fate<F> = Fate(frame: F, sent: bool)

  datatype Usb<F> = Usb(
    capacity: nat,
    fifo: seq<F>,
    engine: Engine,
    turn: Turn<F>,
    waiting: set<nat>,          // writers between their put and their engine check
    urb: Option<seq<F>>,        // frames of the outstanding request
    done: Option<Status>,       // a request has ended and its notification waits for the lock
    isPlugged: bool,
    accepted: seq<F>,
    fates: seq<Fate<F>>,
    faults: nat)                // requests refused or not completed

  datatype Event<F> =
    | Enqueue(w: nat, frame: F)     // pcan_fifo_put by a writer
    | TaskLock(w: nat)              // a writer takes isr_lock
    | Check                         // it tests the engine state
    | Encode                        // the holder gets a frame from the FIFO, or finds it empty
    | BufferFull                    // the holder stops encoding
    | Submit(answer: Answer)        // the holder submits, or gives up for want of frames
    | End(status: Status)           // the outstanding request ends
    | NotifyLock                    // its notification takes isr_lock

  function Begin<F>(capacity: nat): Usb<F> {
    Usb(capacity, [], Stopped, Nobody, {}, None, None, true, [], [], 0)
  }

  function Batch<F>(s: Usb<F>): seq<F> {
    if s.turn.Nobody? || s.turn.st.Checking? then [] else s.turn.st.batch
  }

  predicate Possible<F>(s: Usb<F>, e: Event<F>) {
    match e
    case Enqueue(w, _) => |s.fifo| < s.capacity && !(s.turn.Task? && s.turn.w == w)
    case TaskLock(w) => w in s.waiting && s.turn.Nobody?
    case Check => s.turn.Task? && s.turn.st.Checking?
    case Encode => !s.turn.Nobody? && s.turn.st.Encoding?
    case BufferFull => !s.turn.Nobody? && s.turn.st.Encoding? && s.turn.st.batch != []
    case Submit(answer) => !s.turn.Nobody? && s.turn.st.Encoded? && (answer.Busy? ==> s.urb.Some?)
    case End(_) => s.urb.Some?
    case NotifyLock => s.done.Some? && s.turn.Nobody?
  }

  function At<F>(turn: Turn<F>, st: Stage<F>): Turn<F>
    requires !turn.Nobody?
  {
    if turn.Task? then Task(turn.w, st) else Notify(st)
  }

  function Marked<F>(frames: seq<F>, sent: bool): (r: seq<Fate<F>>)
    ensures |r| == |frames| && forall i :: 0 <= i < |r| ==> r[i] == Fate(frames[i], sent)
  {
    seq(|frames|, i requires 0 <= i < |frames| => Fate(frames[i], sent))
  }

  /** The end of pcan_usb_write. */
  function Submitted<F>(s: Usb<F>, answer: Answer): Usb<F>
    requires !s.turn.Nobody? && s.turn.st.Encoded?
  {
    var batch := s.turn.st.batch;
    if batch == [] then s.(engine := Stopped, turn := Nobody)
    else if answer.Accepted? then s.(engine := Started, turn := Nobody, urb := Some(batch))
    else s.(engine := if answer.Busy? then Started else Stopped, turn := Nobody,
            fates := s.fates + Marked(batch, false), faults := s.faults + 1)
  }

  /** pcan_usb_write_notify up to the point where it calls pcan_usb_write. */
  function Notified<F>(s: Usb<F>): Usb<F>
    requires s.done.Some?
  {
    var s' := s.(done := None);
    match s.done.value
    case Sent => if s.isPlugged then s'.(turn := Notify(Encoding([]))) else s'
    case Killed => s'.(engine := Stopped)
    case CableLost => s'.(isPlugged := false)
  }

  function Step<F>(s: Usb<F>, e: Event<F>): Usb<F>
    requires Possible(s, e)
  {
    match e
    case Enqueue(w, frame) =>
      s.(fifo := s.fifo + [frame], accepted := s.accepted + [frame], waiting := s.waiting + {w})
    case TaskLock(w) => s.(waiting := s.waiting - {w}, turn := Task(w, Checking))
    case Check =>
      if s.engine.Stopped? && s.isPlugged then s.(turn := Task(s.turn.w, Encoding([]))) else s.(turn := Nobody)
    case Encode =>
      var batch := s.turn.st.batch;
      if s.fifo == [] then s.(turn := At(s.turn, Encoded(batch)))
      else s.(fifo := s.fifo[1..], turn := At(s.turn, Encoding(batch + [s.fifo[0]])))
    case BufferFull => s.(turn := At(s.turn, Encoded(s.turn.st.batch)))
    case Submit(answer) => Submitted(s, answer)
    case End(status) =>
      s.(urb := None, done := Some(status), fates := s.fates + Marked(s.urb.value, status.Sent?),
         faults := s.faults + if status.Sent? then 0 else 1)
    case NotifyLock => Notified(s)
  }

  predicate Happens<F>(s: Usb<F>, es: seq<Event<F>>)
    decreases |es|
  {
    es == [] || (Possible(s, es[0]) && Happens(Step(s, es[0]), es[1..]))
  }

  function Reached<F>(s: Usb<F>, es: seq<Event<F>>): Usb<F>
    requires Happens(s, es)
    decreases |es|
  {
    if es == [] then s else Reached(Step(s, es[0]), es[1..])
  }

  // ---------------------------------------------------------------- the invariant

  function Pending<F>(s: Usb<F>): nat { One(s.urb.Some?) + One(s.done.Some?) }

  /** The engine counts as started exactly while a request, or its notification, is under way; the
      section that encodes is entered only when nothing is. */
  predicate Agrees<F>(s: Usb<F>) {
    && Pending(s) <= 1
    && (s.turn.Nobody? || (s.turn.Task? && s.turn.st.Checking?) ==>
          (s.isPlugged ==> Pending(s) == One(s.engine.Started?)) && (Pending(s) == 1 ==> s.engine.Started?))
    && (!s.turn.Nobody? && !s.turn.st.Checking? ==>
          s.isPlugged && Pending(s) == 0 && (s.engine.Started? <==> s.turn.Notify?))
    && !(s.turn.Notify? && s.turn.st.Checking?)
  }

  function InUrb<F>(s: Usb<F>): seq<F> { if s.urb.Some? then s.urb.value else [] }

  function Frames<F>(fates: seq<Fate<F>>): (fs: seq<F>)
    ensures |fs| == |fates| && forall i :: 0 <= i < |fs| ==> fs[i] == fates[i].frame
  {
    seq(|fates|, i requires 0 <= i < |fates| => fates[i].frame)
  }

  /** Every accepted frame is in exactly one place, in put order. */
  ghost predicate Accounted<F>(s: Usb<F>) {
    && Frames(s.fates) + InUrb(s) + Batch(s) + s.fifo == s.accepted
    && (s.faults == 0 ==> forall i :: 0 <= i < |s.fates| ==> s.fates[i].sent)
  }

  /** A failure that stops the engine: a killed request, or a submission refused. A check that starts
      encoding makes good for it. */
  predicate CutAfter<F>(cut: bool, s: Usb<F>, e: Event<F>) {
    match e
    case Check => cut && !(s.turn.Task? && s.engine.Stopped? && s.isPlugged)
    case NotifyLock => cut || (s.done.Some? && s.done.value.Killed?)
    case Submit(answer) => cut || (answer.Refused? && Batch(s) != [])
    case _ => cut
  }

  /** Has the last such failure come after the last check that started encoding? */
  predicate CutOff<F>(cut: bool, s: Usb<F>, es: seq<Event<F>>)
    requires Happens(s, es)
    decreases |es|
  {
    if es == [] then cut else CutOff(CutAfter(cut, s, es[0]), Step(s, es[0]), es[1..])
  }

  /** A frame in the FIFO of a plugged device has somebody who will see it, unless the engine has been cut
      off; then it is stopped and nothing is under way. */
  predicate Attended<F>(s: Usb<F>, cut: bool) {
    && (s.faults == 0 ==> s.isPlugged && !cut && (s.done.Some? ==> s.done.value.Sent?))
    && (cut ==> s.engine.Stopped? && (s.turn.Nobody? || s.turn.st.Checking?))
    && (s.isPlugged && !cut && s.fifo != [] && s.waiting == {} ==>
          if s.turn.Nobody? then s.engine.Started? else !(s.turn.st.Encoded? && s.turn.st.batch == []))
  }

  ghost predicate Sound<F>(s: Usb<F>, cut: bool) {
    |s.fifo| <= s.capacity && Agrees(s) && Attended(s, cut) && Accounted(s)
  }

  lemma FramesAppend<F>(a: seq<Fate<F>>, frames: seq<F>, sent: bool)
    ensures Frames(a + Marked(frames, sent)) == Frames(a) + frames
  {
  }

  lemma EventAgrees<F>(s: Usb<F>, cut: bool, e: Event<F>)
    requires Agrees(s) && Attended(s, cut) && Possible(s, e) && |s.fifo| <= s.capacity
    ensures Agrees(Step(s, e)) && Attended(Step(s, e), CutAfter(cut, s, e))
    ensures |Step(s, e).fifo| <= Step(s, e).capacity == s.capacity
  {
    if e.Enqueue? {
      assert e.w in Step(s, e).waiting;
    }
  }

  /** What has become of a frame never changes. A request that ends decides for its own frames, by its status; a
      submission that fails loses those encoded for it; nothing else does, and each failure is counted. */
  lemma FateDecided<F>(s: Usb<F>, e: Event<F>)
    requires Possible(s, e)
    ensures var s' := Step(s, e);
            var failed := e.Submit? && !e.answer.Accepted? && Batch(s) != [];
            var decided := if e.End? then s.urb.value else if failed then Batch(s) else [];
            && |s'.fates| == |s.fates| + |decided|
            && (forall i :: 0 <= i < |s.fates| ==> s'.fates[i] == s.fates[i])
            && (forall i :: 0 <= i < |decided| ==> s'.fates[|s.fates| + i] == Fate(decided[i], e.End? && e.status.Sent?))
            && s'.faults == s.faults + One(failed || (e.End? && !e.status.Sent?))
  {
    hide Frames;
  }

  lemma EndAccounts<F>(s: Usb<F>, status: Status)
    requires Agrees(s) && Accounted(s) && s.urb.Some?
    ensures Accounted(Step(s, End(status)))
  {
    hide Frames;
    FramesAppend(s.fates, s.urb.value, status.Sent?);
    var s' := Step(s, End(status));
    assert Batch(s) == Batch(s') == [];
    assert Frames(s.fates) + s.urb.value + [] + s.fifo == Frames(s'.fates) + [] + [] + s'.fifo;
  }

  lemma SubmitAccounts<F>(s: Usb<F>, answer: Answer)
    requires Agrees(s) && Accounted(s) && Possible(s, Submit(answer))
    ensures Accounted(Step(s, Submit(answer)))
  {
    hide Frames;
    FramesAppend(s.fates, Batch(s), false);
    var s' := Step(s, Submit(answer));
    assert InUrb(s) == [] && Batch(s') == [];
    assert Frames(s.fates) + [] + Batch(s) + s.fifo == Frames(s.fates) + Batch(s) + [] + s.fifo;
    assert Frames(s.fates) + Batch(s) + [] + s.fifo == Frames(s.fates) + Batch(s) + s.fifo;
    assert Batch(s) == [] ==> Frames(s.fates) + Batch(s) + [] == Frames(s.fates) + [] + [];
    assert (Frames(s.fates) + Batch(s)) + [] + [] + s.fifo == Frames(s.fates) + Batch(s) + s.fifo;
  }

  lemma EncodeAccounts<F>(s: Usb<F>)
    requires Agrees(s) && Accounted(s) && Possible(s, Encode)
    ensures Accounted(Step(s, Event<F>.Encode))
  {
    hide Frames;
    if s.fifo != [] {
      var front, x, rest := Frames(s.fates) + InUrb(s), s.fifo[0], s.fifo[1..];
      assert s.fifo == [x] + rest;
      assert front + (Batch(s) + [x]) + rest == front + Batch(s) + ([x] + rest);
    }
  }

  lemma EventAccounts<F>(s: Usb<F>, e: Event<F>)
    requires Agrees(s) && Accounted(s) && Possible(s, e)
    ensures Accounted(Step(s, e))
  {
    match e
    case End(status) => EndAccounts(s, status);
    case Submit(answer) => SubmitAccounts(s, answer);
    case Encode => EncodeAccounts(s);
    case Enqueue(w, frame) =>
      hide Frames;
      assert Frames(s.fates) + InUrb(s) + Batch(s) + (s.fifo + [frame]) == s.accepted + [frame];
    case _ =>
      hide Frames;
  }

  lemma EventKeepsSound<F>(s: Usb<F>, cut: bool, e: Event<F>)
    requires Sound(s, cut) && Possible(s, e)
    ensures Sound(Step(s, e), CutAfter(cut, s, e)) && Step(s, e).capacity == s.capacity
  {
    hide Step, Agrees, Attended, Accounted, CutAfter;
    EventAgrees(s, cut, e);
    EventAccounts(s, e);
  }

  lemma {:induction false} RunKeepsSound<F>(s: Usb<F>, cut: bool, es: seq<Event<F>>)
    requires Sound(s, cut) && Happens(s, es)
    ensures Sound(Reached(s, es), CutOff(cut, s, es)) && Reached(s, es).capacity == s.capacity
    decreases |es|
  {
    hide Sound, Step, CutAfter;
    if es != [] {
      EventKeepsSound(s, cut, es[0]);
      RunKeepsSound(Step(s, es[0]), CutAfter(cut, s, es[0]), es[1..]);
    }
  }

  /** Every reachable state is sound. */
  lemma ReachedIsSound<F>(capacity: nat, es: seq<Event<F>>)
    requires Happens(Begin(capacity), es)
    ensures var s := Reached(Begin(capacity), es); Sound(s, CutOff(false, Begin(capacity), es)) && s.capacity == capacity
  {
    RunKeepsSound(Begin<F>(capacity), false, es);
  }

  // ---------------------------------------------------------------- what it gives

  /** In every reachable state, failed requests or not, the frames that have left, those in the request,
      those being encoded and those in the FIFO are the accepted ones in put order; without a failure all
      that have left were sent. A request block in use is never submitted again. */
  lemma UsbOrderAndConservation<F>(capacity: nat, es: seq<Event<F>>)
    requires Happens(Begin(capacity), es)
    ensures var s := Reached(Begin(capacity), es);
            && Frames(s.fates) + InUrb(s) + Batch(s) + s.fifo == s.accepted && |s.fifo| <= capacity
            && (s.faults == 0 ==> forall i :: 0 <= i < |s.fates| ==> s.fates[i].sent)
            && !Possible(s, Submit(Busy))
  {
    ReachedIsSound<F>(capacity, es);
  }

  /** No lost wake-up, exactly: in every reachable state with a plugged device and nobody in the section,
      frames waiting without a writer on its way find the engine started and one request or notification
      under way if and only if no failure has cut the engine off since a check last started it. */
  lemma UsbWakeupExactly<F>(capacity: nat, es: seq<Event<F>>)
    requires Happens(Begin(capacity), es)
    ensures var s := Reached(Begin(capacity), es);
            s.isPlugged && s.turn.Nobody? && s.fifo != [] && s.waiting == {} ==>
              (s.engine.Started? && Pending(s) == 1 <==> !CutOff(false, Begin(capacity), es))
  {
    ReachedIsSound<F>(capacity, es);
  }

  /** In particular while no request has failed, and with the refill of a notification counted. */
  lemma UsbNoLostWakeup<F>(capacity: nat, es: seq<Event<F>>)
    requires Happens(Begin(capacity), es)
    ensures var s := Reached(Begin(capacity), es);
            s.isPlugged && !CutOff(false, Begin(capacity), es) && s.fifo != [] && s.waiting == {} && !s.turn.Task? ==>
              s.engine.Started? && Pending(s) + One(s.turn.Notify?) == 1
    ensures Reached(Begin(capacity), es).faults == 0 ==>
              Reached(Begin(capacity), es).isPlugged && !CutOff(false, Begin(capacity), es)
  {
    ReachedIsSound<F>(capacity, es);
  }

  /** Whatever has failed, a plugged device never keeps its engine started with nothing under way: the
      next writer that looks finds either a request to wait for or a stopped engine to start. */
  lemma NeverStuckStarted<F>(capacity: nat, es: seq<Event<F>>)
    requires Happens(Begin(capacity), es)
    ensures var s := Reached(Begin(capacity), es);
            s.isPlugged && s.turn.Nobody? ==> (s.engine.Started? <==> Pending(s) == 1)
  {
    ReachedIsSound<F>(capacity, es);
  }

  /** Frames cut off stay in the FIFO: nothing at all can happen until another put. */
  lemma CutOffStrands<F>(capacity: nat, es: seq<Event<F>>)
    requires Happens(Begin(capacity), es) && CutOff(false, Begin(capacity), es)
    ensures var s := Reached(Begin(capacity), es);
            s.isPlugged && s.turn.Nobody? && s.waiting == {} ==> forall e: Event<F> :: Possible(s, e) ==> e.Enqueue?
  {
    ReachedIsSound<F>(capacity, es);
  }

  /** Where nothing but a further put can happen and the engine has not been cut off, every accepted frame
      has left; without a failure every one was sent. */
  lemma UsbDrained<F>(capacity: nat, es: seq<Event<F>>)
    requires Happens(Begin(capacity), es)
    requires forall e: Event<F> :: Possible(Reached(Begin(capacity), es), e) ==> e.Enqueue?
    requires Reached(Begin(capacity), es).isPlugged && !CutOff(false, Begin(capacity), es)
    ensures var s := Reached(Begin(capacity), es);
            && Frames(s.fates) == s.accepted && s.engine.Stopped?
            && (s.faults == 0 ==> forall i :: 0 <= i < |s.fates| ==> s.fates[i].sent)
  {
    hide Step, Frames, Begin, CutOff;
    var s := Reached(Begin<F>(capacity), es);
    ReachedIsSound<F>(capacity, es);
    assert !Possible(s, Event<F>.Check) && !Possible(s, Event<F>.Encode) && !Possible(s, Event<F>.NotifyLock);
    assert !Possible(s, Event<F>.Submit(Accepted)) && !Possible(s, Event<F>.End(Sent));
    forall w: nat
      ensures w !in s.waiting
    {
      assert Possible(s, Event<F>.TaskLock(w)) <==> w in s.waiting;
    }
    assert Frames(s.fates) + [] + [] + [] == Frames(s.fates);
  }

  /** Both failures do strand frames: a request killed while frames wait behind it, and a refusal while
      the FIFO still holds some. */
  lemma FailuresStrand<F>(s: Usb<F>, cut: bool)
    requires Sound(s, cut) && s.isPlugged && s.fifo != [] && s.waiting == {}
    ensures s.turn.Nobody? && s.urb.Some? ==>
              && Happens(s, [End(Killed), NotifyLock])
              && var s' := Reached(s, [End(Killed), NotifyLock]);
                 s'.fifo == s.fifo && s'.engine.Stopped? && CutOff(cut, s, [End(Killed), NotifyLock])
    ensures !s.turn.Nobody? && s.turn.st.Encoded? && s.turn.st.batch != [] ==>
              && Happens(s, [Submit(Refused)])
              && var s' := Reached(s, [Submit(Refused)]);
                 s'.fifo == s.fifo && s'.engine.Stopped? && CutOff(cut, s, [Submit(Refused)])
  {
    if s.turn.Nobody? && s.urb.Some? {
      var es := [Event<F>.End(Killed), Event<F>.NotifyLock];
      assert es[1..] == [Event<F>.NotifyLock] && es[1..][1..] == [];
    }
    if !s.turn.Nobody? && s.turn.st.Encoded? && s.turn.st.batch != [] {
      assert [Event<F>.Submit(Refused)][1..] == [];
    }
  }

  // ---------------------------------------------------------------- runs that cut the engine off

  /** One more event at the end of a run. */
  lemma {:induction false} OneMore<F>(s: Usb<F>, cut: bool, es: seq<Event<F>>, e: Event<F>)
    requires Happens(s, es) && Possible(Reached(s, es), e)
    ensures Happens(s, es + [e]) && Reached(s, es + [e]) == Step(Reached(s, es), e)
    ensures CutOff(cut, s, es + [e]) == CutAfter(CutOff(cut, s, es), Reached(s, es), e)
    decreases |es|
  {
    hide Step, Possible, CutAfter;
    if es == [] {
      assert es + [e] == [e] && [e][1..] == [];
    } else {
      OneMore(Step(s, es[0]), CutAfter(cut, s, es[0]), es[1..], e);
      assert (es + [e])[1..] == es[1..] + [e];
    }
  }

  /** Nothing that happens outside waits for a locked section: at every point of every run any writer that is
      not itself in its section can put a frame as long as there is room, and the outstanding request can end
      in any way; with the lock free, whoever waits for it can take it, and otherwise its holder can go on:
      check, encode as many frames as it likes, submit. */
  lemma AnyMoment<F>(capacity: nat, es: seq<Event<F>>, w: nat, frame: F, status: Status)
    requires Happens(Begin(capacity), es)
    ensures var s := Reached(Begin(capacity), es);
            && (|s.fifo| < capacity && !(s.turn.Task? && s.turn.w == w) ==>
                  Happens(Begin(capacity), es + [Enqueue(w, frame)])
                  && Reached(Begin(capacity), es + [Enqueue(w, frame)]).fifo == s.fifo + [frame]
                  && w in Reached(Begin(capacity), es + [Enqueue(w, frame)]).waiting)
            && (s.urb.Some? ==> Happens(Begin(capacity), es + [Event<F>.End(status)]))
            && (w in s.waiting && s.turn.Nobody? ==> Happens(Begin(capacity), es + [Event<F>.TaskLock(w)]))
            && (s.done.Some? && s.turn.Nobody? ==> Happens(Begin(capacity), es + [NotifyLock]))
            && (!s.turn.Nobody? ==>
                  match s.turn.st
                  case Checking => Happens(Begin(capacity), es + [Check])
                  case Encoding(batch) =>
                    && Happens(Begin(capacity), es + [Encode])
                    && (batch != [] ==> Happens(Begin(capacity), es + [BufferFull]))
                  case Encoded(_) =>
                    Happens(Begin(capacity), es + [Submit(Accepted)]) && Happens(Begin(capacity), es + [Submit(Refused)]))
  {
    hide Happens, Reached, Sound, CutOff;
    var init := Begin<F>(capacity);
    ReachedIsSound<F>(capacity, es);
    OnlyTasksCheck(Reached(init, es), CutOff(false, init, es));
    forall e: Event<F> | Possible(Reached(init, es), e)
      ensures Happens(init, es + [e]) && Reached(init, es + [e]) == Step(Reached(init, es), e)
    {
      OneMore(init, false, es, e);
    }
  }

  lemma OnlyTasksCheck<F>(s: Usb<F>, cut: bool)
    requires Sound(s, cut)
    ensures s.turn.Notify? ==> !s.turn.st.Checking?
  {
  }

  /** A frame is put and sent off on its own, another one waits behind it, and the request is killed. */
  lemma KilledRun<F>(capacity: nat, a: F, b: F) returns (es: seq<Event<F>>)
    requires capacity > 0
    ensures Happens(Begin(capacity), es) && CutOff(false, Begin(capacity), es)
    ensures var s := Reached(Begin(capacity), es);
            s.isPlugged && s.turn.Nobody? && s.waiting == {} && s.fifo == [b] && s.engine.Stopped?
  {
    hide Happens, Reached, CutOff;
    var init := Begin<F>(capacity);
    es := Sending(capacity, a);
    var s := Reached(init, es);
    OneMore(init, false, es, Event<F>.Enqueue(0, b));
    es := es + [Event<F>.Enqueue(0, b)];
    OneMore(init, false, es, Event<F>.TaskLock(0));
    es := es + [Event<F>.TaskLock(0)];
    OneMore(init, false, es, Event<F>.Check);
    es := es + [Event<F>.Check];
    OneMore(init, false, es, Event<F>.End(Killed));
    es := es + [Event<F>.End(Killed)];
    OneMore(init, false, es, Event<F>.NotifyLock);
    es := es + [Event<F>.NotifyLock];
  }

  /** A run that ends with one frame in an outstanding request. */
  lemma Sending<F>(capacity: nat, a: F) returns (es: seq<Event<F>>)
    requires capacity > 0
    ensures Happens(Begin(capacity), es)
    ensures var s := Reached(Begin(capacity), es);
            && s.isPlugged && s.turn.Nobody? && s.waiting == {} && s.fifo == [] && s.engine.Started?
            && s.urb == Some([a]) && s.done.None? && s.capacity == capacity
  {
    hide Happens, Reached, CutOff;
    var init := Begin<F>(capacity);
    es := ReadyToSubmit(capacity, [a]);
    OneMore(init, false, es, Event<F>.Submit(Accepted));
    es := es + [Event<F>.Submit(Accepted)];
  }

  /** A run that puts some frames and ends when a request with the first of them is about to be submitted. */
  lemma ReadyToSubmit<F>(capacity: nat, frames: seq<F>) returns (es: seq<Event<F>>)
    requires 0 < |frames| <= capacity
    ensures Happens(Begin(capacity), es)
    ensures var s := Reached(Begin(capacity), es);
            && s.isPlugged && s.turn == Task(0, Encoded([frames[0]])) && s.waiting == {} && s.fifo == frames[1..]
            && s.urb.None? && s.done.None? && s.capacity == capacity && s.engine.Stopped?
  {
    hide Happens, Reached, CutOff;
    var init := Begin<F>(capacity);
    es := Putting(capacity, frames);
    OneMore(init, false, es, Event<F>.TaskLock(0));
    es := es + [Event<F>.TaskLock(0)];
    OneMore(init, false, es, Event<F>.Check);
    es := es + [Event<F>.Check];
    OneMore(init, false, es, Event<F>.Encode);
    es := es + [Event<F>.Encode];
    OneMore(init, false, es, Event<F>.BufferFull);
    es := es + [Event<F>.BufferFull];
    assert [] + [frames[0]] == [frames[0]];
  }

  lemma {:induction false} Putting<F>(capacity: nat, frames: seq<F>) returns (es: seq<Event<F>>)
    requires 0 < |frames| <= capacity
    ensures Happens(Begin(capacity), es)
    ensures Reached(Begin(capacity), es) == Begin<F>(capacity).(fifo := frames, accepted := frames, waiting := {0})
    decreases |frames|
  {
    var init := Begin<F>(capacity);
    var front, last := frames[..|frames| - 1], frames[|frames| - 1];
    assert front + [last] == frames;
    if front == [] {
      es := [];
      assert Happens(init, es) && Reached(init, es) == init;
    } else {
      es := Putting(capacity, front);
    }
    hide Happens, Reached;
    OneMore(init, false, es, Event<F>.Enqueue(0, last));
    es := es + [Event<F>.Enqueue(0, last)];
    assert {} + {0} == {0 as nat} && {0 as nat} + {0} == {0};
  }

  /** Two frames are put, and the submission of the first one is refused. */
  lemma RefusedRun<F>(capacity: nat, a: F, b: F) returns (es: seq<Event<F>>)
    requires capacity > 1
    ensures Happens(Begin(capacity), es) && CutOff(false, Begin(capacity), es)
    ensures var s := Reached(Begin(capacity), es);
            s.isPlugged && s.turn.Nobody? && s.waiting == {} && s.fifo == [b] && s.engine.Stopped?
  {
    hide Happens, Reached, CutOff;
    var init := Begin<F>(capacity);
    es := ReadyToSubmit(capacity, [a, b]);
    OneMore(init, false, es, Event<F>.Submit(Refused));
    es := es + [Event<F>.Submit(Refused)];
  }

  // ---------------------------------------------------------------- schedules without puts end

  function StageWeight<F>(st: Stage<F>): nat {
    match st
    case Checking => 3
    case Encoding(batch) => if batch == [] then 2 else 6
    case Encoded(batch) => if batch == [] then 1 else 5
  }

  /** Moves still possible without a further put. */
  function MovesLeft<F>(s: Usb<F>): nat {
    5 * |s.fifo| + 4 * |s.waiting| + 4 * One(s.urb.Some?) + 3 * One(s.done.Some?)
    + if s.turn.Nobody? then 0 else StageWeight(s.turn.st)
  }

  lemma UsbStepDecreases<F>(s: Usb<F>, e: Event<F>)
    requires Possible(s, e) && !e.Enqueue?
    ensures MovesLeft(Step(s, e)) < MovesLeft(s)
  {
    match e
    case TaskLock(w) => assert |s.waiting - {w}| == |s.waiting| - 1;
    case Encode => EncodeDecreases(s);
    case Submit(answer) => SubmitDecreases(s, answer);
    case _ =>
  }

  lemma EncodeDecreases<F>(s: Usb<F>)
    requires Possible(s, Encode)
    ensures MovesLeft(Step(s, Event<F>.Encode)) < MovesLeft(s)
  {
  }

  lemma SubmitDecreases<F>(s: Usb<F>, answer: Answer)
    requires Possible(s, Submit(answer))
    ensures MovesLeft(Step(s, Submit(answer))) < MovesLeft(s)
  {
  }

  /** Without further puts every schedule ends after a number of events known in advance, whatever fails. */
  lemma {:induction false} UsbRunsEnd<F>(s: Usb<F>, es: seq<Event<F>>)
    requires Happens(s, es) && forall i :: 0 <= i < |es| ==> !es[i].Enqueue?
    ensures |es| + MovesLeft(Reached(s, es)) <= MovesLeft(s)
    decreases |es|
  {
    hide Step, MovesLeft, Possible;
    if es != [] {
      assert !es[0].Enqueue? && Possible(s, es[0]);
      UsbStepDecreases(s, es[0]);
      UsbRunsEnd(Step(s, es[0]), es[1..]);
    }
  }
}
