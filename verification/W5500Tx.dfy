/**
 Transmission in the W5500 driver as a machine over the steps two threads and the chip take:
 the network thread inside `emac_w5500_transmit`, the driver task, and the chip. Frames go
 either straight to the chip or through a pool of four buffers and a queue; a semaphore is
 free when no SEND is in flight.
 */
module W5500Tx {
  import opened Words
  import opened Wrappers

  const DEPTH: int := 4
  const INLINE_MAX: int := 128

  /** A queued frame: the buffer it lies in, its length, and which transmit call it came from. */
  datatype Item = Item(buf: nat, len: nat, call: nat)

  /** A frame handed to the chip. */
  datatype Frame = Frame(call: nat, bytes: seq<u8>)

  /** Where the network thread is. Except at `Rest` it works on the latest call. */
  datatype Sender = Rest | Try | GetBuf | Copy(buf: nat) | Enqueue(buf: nat)

  /** What the driver task does after giving the semaphore. */
  datatype After = ToCheck | ToStart | ToWait

  /** Where the driver task is. */
  datatype Task =
    | Wait                  // before the interrupt register is read
    | Return(after: After)  // to return the active buffer
    | Give(after: After)    // to give the semaphore
    | Check                 // before the timeout check
    | Start                 // before the semaphore is taken for the next queued frame
    | Took                  // the semaphore is taken
    | Got(item: Item)       // a frame is off the queue
    | Drop(buf: nat)        // the chip refused the frame

  datatype State = State(
    pool: seq<nat>, mem: seq<seq<u8>>, queue: seq<Item>, active: Option<nat>, idle: bool,
    sender: Sender, task: Task,
    inflight: bool,         // the chip is sending
    flag: bool,             // SIR_SEND
    pending: bool,          // the last SEND was neither seen complete nor timed out
    calls: seq<seq<u8>>, sent: seq<Frame>, lost: set<nat>)

  datatype Step =
    | Call(frame: seq<u8>) | Inline(ok: bool) | NoInline | TakeBuf | PoolDry | CopyIn | Send
    // the chip completes; its socket is reopened: does that stop it, and take SIR_SEND down?
    | ChipDone | Reset(cleared: bool, stopped: bool)
    // SIR_SEND was read as up, rightly or not: did clearing it work?
    | Seen(cleared: bool) | NotSeen | PutBack | GiveIdle | Timeout(cleared: bool, stopped: bool) | NoTimeout
    | TakeIdle | Dequeue | StartTx(ok: bool) | DropBuf

  /** `max` is the largest frame, and the size of every pool buffer. */
  function Initial(max: nat): State {
    State([0, 1, 2, 3], seq(DEPTH, _ => seq(max, _ => 0)), [], None, true, Rest, Wait,
          false, false, false, [], [], {})
  }

  function Last<T>(s: seq<T>): T
    requires s != []
  {
    s[|s| - 1]
  }

  /** `xQueueSend` without waiting, its result ignored: a full queue loses the item. */
  function QueueSend<T>(q: seq<T>, x: T): seq<T> {
    if |q| < DEPTH then q + [x] else q
  }

  /** The first bytes of a buffer overwritten. */
  function Overwrite(b: seq<u8>, f: seq<u8>): seq<u8> {
    if |f| <= |b| then f + b[|f|..] else f
  }

  predicate Enabled(s: State, e: Step) {
    match e
    case Call(_) => s.sender == Rest
    case Inline(_) => s.sender == Try && s.calls != [] && |Last(s.calls)| <= INLINE_MAX && s.idle && s.queue == []
    case NoInline => s.sender == Try
    case TakeBuf => s.sender == GetBuf && s.pool != []
    case PoolDry => s.sender == GetBuf && s.pool == [] && s.calls != []
    case CopyIn => s.sender.Copy? && s.calls != [] && s.sender.buf < |s.mem|
    case Send => s.sender.Enqueue? && s.calls != []
    case ChipDone => s.inflight
    case Reset(_, _) => true
    case Seen(_) => s.task == Wait
    case NotSeen => s.task == Wait
    case PutBack => s.task.Return?
    case GiveIdle => s.task.Give?
    case Timeout(_, _) => s.task == Check && !s.idle
    case NoTimeout => s.task == Check
    case TakeIdle => s.task == Start
    case Dequeue => s.task == Took
    case StartTx(_) => s.task.Got? && s.task.item.buf < |s.mem| && s.task.item.len <= |s.mem[s.task.item.buf]|
    case DropBuf => s.task.Drop?
  }

  /** The chip accepts SEND for a frame. */
  function Issue(s: State, f: Frame): State {
    s.(sent := s.sent + [f], inflight := true, pending := true)
  }

  /** The steps of `emac_w5500_transmit`. */
  predicate BySender(e: Step) {
    e.Call? || e.Inline? || e in {NoInline, TakeBuf, PoolDry, CopyIn, Send}
  }

  function SenderNext(s: State, e: Step, max: nat): State
    requires Enabled(s, e)
  {
    match e
    case Call(f) =>
      var s1 := s.(calls := s.calls + [f]);
      if |f| <= max then s1.(sender := Try) else s1.(lost := s.lost + {|s.calls|})
    case Inline(ok) =>
      if ok then Issue(s, Frame(|s.calls| - 1, Last(s.calls))).(idle := false, sender := Rest)
      else s.(sender := GetBuf)
    case NoInline => s.(sender := GetBuf)
    case TakeBuf => s.(pool := s.pool[1..], sender := Copy(s.pool[0]))
    case PoolDry => s.(sender := Rest, lost := s.lost + {|s.calls| - 1})
    case CopyIn =>
      var b := s.sender.buf;
      s.(mem := s.mem[b := Overwrite(s.mem[b], Last(s.calls))], sender := Enqueue(b))
    case Send =>
      s.(queue := QueueSend(s.queue, Item(s.sender.buf, |Last(s.calls)|, |s.calls| - 1)), sender := Rest)
    case _ => s
  }

  /** The steps of the chip and of `emac_w5500_task`. */
  function TaskNext(s: State, e: Step): State
    requires Enabled(s, e)
  {
    match e
    case ChipDone => s.(inflight := false, flag := true)
    case Reset(cleared, stopped) => s.(inflight := s.inflight && !stopped, flag := s.flag && !cleared)
    case Seen(cleared) => s.(flag := s.flag && !cleared, pending := false, task := Return(ToCheck))
    case NotSeen => s.(task := Check)
    case PutBack =>
      var s1 := s.(task := Give(s.task.after));
      (match s.active
       case Some(b) => s1.(pool := QueueSend(s.pool, b), active := None)
       case None => s1)
    case GiveIdle => s.(idle := true, task := Then(s.task.after))
    case Timeout(cleared, stopped) =>
      s.(inflight := s.inflight && !stopped, flag := s.flag && !cleared, pending := false, task := Return(ToStart))
    case NoTimeout => s.(task := Start)
    case TakeIdle => if s.idle then s.(idle := false, task := Took) else s.(task := Wait)
    case Dequeue =>
      if s.queue != [] then s.(queue := s.queue[1..], task := Got(s.queue[0])) else s.(task := Give(ToWait))
    case StartTx(ok) =>
      var q := s.task.item;
      if ok then Issue(s, Frame(q.call, s.mem[q.buf][..q.len])).(active := Some(q.buf), task := Wait)
      else s.(task := Drop(q.buf), lost := s.lost + {q.call})
    case DropBuf => s.(pool := QueueSend(s.pool, s.task.buf), task := Give(ToWait))
    case _ => s
  }

  function Then(after: After): Task {
    match after case ToCheck => Check case ToStart => Start case ToWait => Wait
  }

  function Next(s: State, e: Step, max: nat): State
    requires Enabled(s, e)
  {
    if BySender(e) then SenderNext(s, e, max) else TaskNext(s, e)
  }

  /** The network thread leaves the task and what it holds alone, and the others leave the network thread alone. */
  lemma NextFrame(s: State, e: Step, max: nat)
    requires Enabled(s, e)
    ensures BySender(e) ==> Next(s, e, max).task == s.task && Next(s, e, max).active == s.active
    ensures !BySender(e) ==>
      Next(s, e, max).sender == s.sender && Next(s, e, max).calls == s.calls && Next(s, e, max).mem == s.mem
  {
    if BySender(e) {
      SenderFrame(s, e, max);
    } else {
      TaskFrame(s, e);
    }
    hide SenderNext, TaskNext, Enabled, BySender;
  }

  lemma SenderFrame(s: State, e: Step, max: nat)
    requires Enabled(s, e)
    ensures SenderNext(s, e, max).task == s.task && SenderNext(s, e, max).active == s.active
  {
    hide Overwrite, Enabled, BySender;
  }

  lemma TaskFrame(s: State, e: Step)
    requires Enabled(s, e)
    ensures var s' := TaskNext(s, e); s'.sender == s.sender && s'.calls == s.calls && s'.mem == s.mem
  {
    hide BySender, Enabled, QueueSend, Then;
    match e
    case StartTx(ok) => hide Last;
    case PutBack => hide Issue;
    case _ => hide Issue;
  }

  // ----- buffers -----

  function InPool(p: seq<nat>, b: nat): nat {
    multiset(p)[b]
  }

  function InQueue(q: seq<Item>, b: nat): nat {
    if q == [] then 0 else InQueue(q[1..], b) + if q[0].buf == b then 1 else 0
  }

  function InSender(s: State, b: nat): nat {
    if (s.sender.Copy? || s.sender.Enqueue?) && s.sender.buf == b then 1 else 0
  }

  function InTask(s: State, b: nat): nat {
    match s.task
    case Got(item) => if item.buf == b then 1 else 0
    case Drop(d) => if d == b then 1 else 0
    case _ => 0
  }

  /** How many places hold a buffer. */
  function Holders(s: State, b: nat): nat {
    InPool(s.pool, b) + InQueue(s.queue, b) + (if s.active == Some(b) then 1 else 0) + InSender(s, b) + InTask(s, b)
  }

  /** What holds of the semaphore and the active buffer. */
  ghost predicate Semaphore(s: State) {
    && (s.active != None ==> !s.idle)
    && (s.task.Took? || s.task.Got? || s.task.Drop? ==> !s.idle && s.active == None)
    && (s.task.Give? ==> s.active == None)
  }

  /** Each of the four buffers is in exactly one place, and an active one means a taken semaphore. */
  ghost predicate Conserved(s: State) {
    Semaphore(s) && forall b: nat :: Holders(s, b) == if b < DEPTH then 1 else 0
  }

  lemma {:induction false} QueueSnoc(q: seq<Item>, x: Item, b: nat)
    ensures InQueue(q + [x], b) == InQueue(q, b) + if x.buf == b then 1 else 0
  {
    if q == [] {
      assert q + [x] == [x];
    } else {
      assert (q + [x])[1..] == q[1..] + [x];
      QueueSnoc(q[1..], x, b);
    }
  }

  /** The buffers of a queue, as a multiset. */
  function Bufs(q: seq<Item>): multiset<nat> {
    if q == [] then multiset{} else Bufs(q[1..]) + multiset{q[0].buf}
  }

  lemma {:induction false} BufsCount(q: seq<Item>, b: nat)
    ensures Bufs(q)[b] == InQueue(q, b) && |Bufs(q)| == |q|
  {
    if q != [] {
      BufsCount(q[1..], b);
    }
  }

  /** A multiset that holds no more than each buffer once has at most four elements. */
  lemma AtMostFour(m: multiset<nat>)
    requires forall b: nat :: m[b] <= if b < DEPTH then 1 else 0
    ensures |m| <= DEPTH
    ensures (exists b: nat :: b < DEPTH && m[b] == 0) ==> |m| < DEPTH
  {
    var all := multiset{0, 1, 2, 3};
    forall b: nat ensures m[b] <= all[b] {
    }
    assert m <= all;
    assert |all - m| == |all| - |m|;
    if b: nat :| b < DEPTH && m[b] == 0 {
      assert (all - m)[b] == 1;
    }
  }

  /** A buffer held elsewhere leaves room in the pool and in the queue. */
  lemma Room(s: State, b: nat)
    requires Conserved(s) && b < DEPTH
    ensures InPool(s.pool, b) == 0 ==> |s.pool| < DEPTH
    ensures InQueue(s.queue, b) == 0 ==> |s.queue| < DEPTH
  {
    hide InSender, InTask, Semaphore, InQueue, Bufs;
    forall d: nat
      ensures Bufs(s.queue)[d] <= if d < DEPTH then 1 else 0
      ensures multiset(s.pool)[d] <= if d < DEPTH then 1 else 0
    {
      BufsCount(s.queue, d);
      assert InQueue(s.queue, d) + InPool(s.pool, d) <= Holders(s, d);
    }
    BufsCount(s.queue, b);
    AtMostFour(multiset(s.pool));
    AtMostFour(Bufs(s.queue));
  }

  /** Every queue a step sends to has room for the buffer it returns. */
  predicate Fits(s: State, e: Step) {
    && (e == Send ==> |s.queue| < DEPTH)
    && (e == PutBack && s.active.Some? ==> |s.pool| < DEPTH)
    && (e == DropBuf ==> |s.pool| < DEPTH)
  }

  lemma StepFits(s: State, e: Step)
    requires Conserved(s) && Enabled(s, e)
    ensures Fits(s, e)
  {
    if e == Send {
      assert Holders(s, s.sender.buf) == 1;
      Room(s, s.sender.buf);
    } else if e == PutBack && s.active.Some? {
      assert Holders(s, s.active.value) == 1;
      Room(s, s.active.value);
    } else if e == DropBuf {
      assert Holders(s, s.task.buf) == 1;
      Room(s, s.task.buf);
    }
  }

  /** Steps that touch no buffer's place. */
  predicate Still(e: Step) {
    e !in {TakeBuf, Send, PutBack, Dequeue, DropBuf} && !e.StartTx?
  }

  lemma StillHolds(s: State, e: Step, max: nat, b: nat)
    requires Enabled(s, e) && Still(e)
    ensures Holders(Next(s, e, max), b) == Holders(s, b)
  {
    NextFrame(s, e, max);
    if BySender(e) {
      StillSender(s, e, max, b);
    } else {
      StillTask(s, e, max, b);
    }
    hide Next, Enabled, InPool, InQueue, InSender, InTask;
  }

  lemma StillSender(s: State, e: Step, max: nat, b: nat)
    requires Enabled(s, e) && Still(e) && BySender(e)
    ensures var s' := Next(s, e, max);
      s'.pool == s.pool && s'.queue == s.queue && InSender(s', b) == InSender(s, b)
  {
    hide TaskNext, Overwrite;
  }

  lemma StillTask(s: State, e: Step, max: nat, b: nat)
    requires Enabled(s, e) && Still(e) && !BySender(e)
    ensures var s' := Next(s, e, max);
      s'.pool == s.pool && s'.queue == s.queue && s'.active == s.active && InTask(s', b) == InTask(s, b)
  {
    hide SenderNext;
  }

  lemma SenderHolds(s: State, e: Step, max: nat, b: nat)
    requires Enabled(s, e) && Fits(s, e) && (e == TakeBuf || e == Send)
    ensures Holders(Next(s, e, max), b) == Holders(s, b)
  {
    NextFrame(s, e, max);
    hide TaskNext, InTask;
    if e == Send {
      QueueSnoc(s.queue, Item(s.sender.buf, |Last(s.calls)|, |s.calls| - 1), b);
    } else {
      var p := s.pool;
      assert p == [p[0]] + p[1..];
    }
    hide InQueue;
  }

  lemma TaskHolds(s: State, e: Step, max: nat, b: nat)
    requires Enabled(s, e) && Fits(s, e) && Semaphore(s) && (e == Dequeue || e.StartTx?)
    ensures Holders(Next(s, e, max), b) == Holders(s, b)
  {
    NextFrame(s, e, max);
    var s' := Next(s, e, max);
    assert s'.pool == s.pool;
    hide SenderNext, InPool, InSender, Fits;
    if e == Dequeue {
      assert s'.active == s.active;
    } else {
      assert s'.queue == s.queue;
      hide InQueue;
    }
  }

  lemma PoolSnoc(p: seq<nat>, x: nat, b: nat)
    ensures InPool(p + [x], b) == InPool(p, b) + if x == b then 1 else 0
  {
  }

  lemma PutBackHolds(s: State, max: nat, b: nat)
    requires Enabled(s, PutBack) && Fits(s, PutBack)
    ensures Holders(Next(s, PutBack, max), b) == Holders(s, b)
  {
    NextFrame(s, PutBack, max);
    if s.active.Some? {
      PoolSnoc(s.pool, s.active.value, b);
    }
    hide SenderNext, InQueue, InSender, InPool;
  }

  lemma DropBufHolds(s: State, max: nat, b: nat)
    requires Enabled(s, DropBuf) && Fits(s, DropBuf)
    ensures Holders(Next(s, DropBuf, max), b) == Holders(s, b)
  {
    NextFrame(s, DropBuf, max);
    PoolSnoc(s.pool, s.task.buf, b);
    hide SenderNext, InQueue, InSender, InPool;
  }

  /** No step creates or loses a buffer. */
  lemma HoldersStep(s: State, e: Step, max: nat, b: nat)
    requires Enabled(s, e) && Fits(s, e) && Semaphore(s)
    ensures Holders(Next(s, e, max), b) == Holders(s, b)
  {
    hide Next, Enabled, Holders, Fits, Semaphore;
    match e
    case TakeBuf => SenderHolds(s, e, max, b);
    case Send => SenderHolds(s, e, max, b);
    case Dequeue => TaskHolds(s, e, max, b);
    case StartTx(_) => TaskHolds(s, e, max, b);
    case PutBack => PutBackHolds(s, max, b);
    case DropBuf => DropBufHolds(s, max, b);
    case _ => StillHolds(s, e, max, b);
  }

  lemma SemaphoreStep(s: State, e: Step, max: nat)
    requires Semaphore(s) && Enabled(s, e)
    ensures Semaphore(Next(s, e, max))
  {
    if BySender(e) {
      hide TaskNext, Overwrite;
    } else {
      hide SenderNext;
    }
  }

  lemma ConservedStep(s: State, e: Step, max: nat)
    requires Conserved(s) && Enabled(s, e)
    ensures Conserved(Next(s, e, max))
  {
    hide Next, Enabled, Holders, Semaphore, Fits;
    SemaphoreStep(s, e, max);
    StepFits(s, e);
    forall b: nat ensures Holders(Next(s, e, max), b) == Holders(s, b) {
      HoldersStep(s, e, max, b);
    }
  }

  // ----- runs -----

  ghost predicate Run(ss: seq<State>, es: seq<Step>, max: nat) {
    && |ss| == |es| + 1 && ss[0] == Initial(max)
    && forall i :: 0 <= i < |es| ==> Enabled(ss[i], es[i]) && ss[i + 1] == Next(ss[i], es[i], max)
  }

  lemma {:induction false} RunConserves(ss: seq<State>, es: seq<Step>, max: nat, k: nat)
    requires Run(ss, es, max) && k < |ss|
    ensures Conserved(ss[k])
  {
    if k > 0 {
      RunConserves(ss, es, max, k - 1);
      ConservedStep(ss[k - 1], es[k - 1], max);
    }
  }

  /** Whenever something is sent to a queue, the queue has room for it. */
  lemma QueueSendsFit(ss: seq<State>, es: seq<Step>, max: nat, k: nat)
    requires Run(ss, es, max) && k < |es|
    ensures Fits(ss[k], es[k])
  {
    RunConserves(ss, es, max, k);
    StepFits(ss[k], es[k]);
  }
}
