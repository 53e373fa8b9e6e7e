/**
 What the chip is sent: every frame whole, in call order, and one SEND at a time.
 */
module W5500TxOrder {
  import opened Words
  import opened Wrappers
  import opened W5500Tx

  // ----- order -----

  function SentCalls(f: seq<Frame>): (r: seq<nat>)
    ensures |r| == |f|
  {
    seq(|f|, i requires 0 <= i < |f| => f[i].call)
  }

  function QueueCalls(q: seq<Item>): (r: seq<nat>)
    ensures |r| == |q|
  {
    seq(|q|, i requires 0 <= i < |q| => q[i].call)
  }

  function TaskCalls(s: State): seq<nat> {
    if s.task.Got? then [s.task.item.call] else []
  }

  function SenderCalls(s: State): seq<nat> {
    if s.sender == Rest || s.calls == [] then [] else [|s.calls| - 1]
  }

  /** The calls whose frames are sent, with the driver task, queued, or with the network thread, front first. */
  function Line(s: State): seq<nat> {
    SentCalls(s.sent) + TaskCalls(s) + QueueCalls(s.queue) + SenderCalls(s)
  }

  function Without(l: seq<nat>, k: nat): seq<nat>
    requires k < |l|
  {
    l[..k] + l[k + 1..]
  }

  /** What a step does to the line. */
  ghost predicate LineMoves(l: seq<nat>, l': seq<nat>, s: State, e: Step, max: nat) {
    match e
    case Call(f) => l' == if |f| <= max then l + [|s.calls|] else l
    case PoolDry => l != [] && l' == Without(l, |l| - 1) && l[|l| - 1] == |s.calls| - 1
    case StartTx(ok) =>
      if ok then l' == l
      else |s.sent| < |l| && l' == Without(l, |s.sent|) && s.task.Got? && l[|s.sent|] == s.task.item.call
    case _ => l' == l
  }

  lemma LineCall(s: State, e: Step, max: nat)
    requires Enabled(s, e) && (e.Call? || e == PoolDry)
    ensures LineMoves(Line(s), Line(Next(s, e, max)), s, e, max)
  {
    var l := SentCalls(s.sent) + TaskCalls(s) + QueueCalls(s.queue);
    var s' := Next(s, e, max);
    assert SentCalls(s'.sent) + TaskCalls(s') + QueueCalls(s'.queue) == l;
    hide SentCalls, QueueCalls, TaskCalls;
    if e == PoolDry {
      assert Line(s) == l + [|s.calls| - 1];
      assert Without(Line(s), |Line(s)| - 1) == l;
    }
  }

  lemma LineInline(s: State, e: Step, max: nat)
    requires Enabled(s, e) && e.Inline? && Semaphore(s)
    ensures Line(Next(s, e, max)) == Line(s)
  {
    var s' := Next(s, e, max);
    if e.ok {
      assert SentCalls(s'.sent) == SentCalls(s.sent) + [|s.calls| - 1];
    }
  }

  lemma LineSend(s: State, e: Step, max: nat)
    requires Enabled(s, e) && e == Send && Fits(s, e)
    ensures Line(Next(s, e, max)) == Line(s)
  {
    var s' := Next(s, e, max);
    assert QueueCalls(s'.queue) == QueueCalls(s.queue) + [|s.calls| - 1];
  }

  lemma LineDequeue(s: State, e: Step, max: nat)
    requires Enabled(s, e) && e == Dequeue
    ensures Line(Next(s, e, max)) == Line(s)
  {
    if s.queue != [] {
      assert QueueCalls(s.queue) == [s.queue[0].call] + QueueCalls(s.queue[1..]);
    }
  }

  lemma LineStart(s: State, e: Step, max: nat)
    requires Enabled(s, e) && e.StartTx?
    ensures LineMoves(Line(s), Line(Next(s, e, max)), s, e, max)
  {
    var s', call := Next(s, e, max), s.task.item.call;
    StartMoves(s, e, max);
    hide Next, Enabled, SentCalls, QueueCalls, SenderCalls, TaskCalls, Without;
    var (a, q, c) := (SentCalls(s.sent), QueueCalls(s.queue), SenderCalls(s));
    assert Line(s) == a + [call] + q + c;
    if e.ok {
      assert a + [call] + [] == a + [call];
    } else {
      DropMiddle(a, call, q, c);
    }
  }

  lemma StartMoves(s: State, e: Step, max: nat)
    requires Enabled(s, e) && e.StartTx?
    ensures var s' := Next(s, e, max);
      && QueueCalls(s'.queue) == QueueCalls(s.queue) && SenderCalls(s') == SenderCalls(s)
      && TaskCalls(s') == [] && TaskCalls(s) == [s.task.item.call]
      && SentCalls(s'.sent) == if e.ok then SentCalls(s.sent) + [s.task.item.call] else SentCalls(s.sent)
  {
    hide QueueCalls, SenderNext;
  }

  lemma DropMiddle(a: seq<nat>, x: nat, b: seq<nat>, c: seq<nat>)
    ensures var l := a + [x] + b + c; l[|a|] == x && Without(l, |a|) == a + [] + b + c
  {
  }

  /** Steps that leave the frames sent, queued and held, and the calls, as they are. */
  predicate OffLine(e: Step) {
    !e.Call? && !e.Inline? && !e.StartTx? && e !in {PoolDry, Send, Dequeue}
  }

  lemma LineStill(s: State, e: Step, max: nat)
    requires Enabled(s, e) && OffLine(e)
    ensures Line(Next(s, e, max)) == Line(s)
  {
    if BySender(e) {
      LineSender(s, e, max);
    } else {
      LineTask(s, e, max);
    }
  }

  lemma LineSender(s: State, e: Step, max: nat)
    requires Enabled(s, e) && OffLine(e) && BySender(e)
    ensures Line(Next(s, e, max)) == Line(s)
  {
    var s' := Next(s, e, max);
    assert s'.sent == s.sent && s'.queue == s.queue && s'.calls == s.calls && s'.task == s.task;
    assert SenderCalls(s') == SenderCalls(s);
    hide Next, SenderNext, TaskNext, Enabled, SenderCalls;
  }

  lemma LineTask(s: State, e: Step, max: nat)
    requires Enabled(s, e) && OffLine(e) && !BySender(e)
    ensures Line(Next(s, e, max)) == Line(s)
  {
    NextFrame(s, e, max);
    var s' := Next(s, e, max);
    hide SenderNext;
    assert s'.sent == s.sent && s'.queue == s.queue && TaskCalls(s') == TaskCalls(s);
    hide Next, TaskNext, Enabled, TaskCalls;
  }

  lemma LineStep(s: State, e: Step, max: nat)
    requires Enabled(s, e) && Fits(s, e) && Semaphore(s)
    ensures LineMoves(Line(s), Line(Next(s, e, max)), s, e, max)
  {
    hide Line, Next, Enabled, Fits, Semaphore;
    match e
    case Call(_) => LineCall(s, e, max);
    case PoolDry => LineCall(s, e, max);
    case Inline(_) => LineInline(s, e, max);
    case Send => LineSend(s, e, max);
    case Dequeue => LineDequeue(s, e, max);
    case StartTx(_) => LineStart(s, e, max);
    case _ => LineStill(s, e, max);
  }

  ghost predicate Increasing(l: seq<nat>) {
    forall i, j :: 0 <= i < j < |l| ==> l[i] < l[j]
  }

  /** Every call is in the line once, in call order, or lost for good. */
  ghost predicate Ordered(l: seq<nat>, lost: set<nat>, n: nat) {
    && Increasing(l)
    && (forall i :: 0 <= i < |l| ==> l[i] < n && l[i] !in lost)
    && (forall c :: c in lost ==> c < n)
    && (forall c: nat :: c < n ==> c in l || c in lost)
  }

  lemma OrderedGrows(l: seq<nat>, lost: set<nat>, n: nat, kept: bool)
    requires Ordered(l, lost, n)
    ensures kept ==> Ordered(l + [n], lost, n + 1)
    ensures !kept ==> Ordered(l, lost + {n}, n + 1)
  {
    forall c: nat | c < n ensures c in l || c in lost {
    }
  }

  lemma OrderedLoses(l: seq<nat>, lost: set<nat>, n: nat, k: nat)
    requires Ordered(l, lost, n) && k < |l|
    ensures Ordered(Without(l, k), lost + {l[k]}, n)
  {
    var l', x := Without(l, k), l[k];
    assert |l'| == |l| - 1;
    forall i | 0 <= i < |l'|
      ensures l'[i] == l[if i < k then i else i + 1] && l'[i] < n && l'[i] !in lost && l'[i] != x {
    }
    forall i, j | 0 <= i < j < |l'| ensures l'[i] < l'[j] {
    }
    forall c: nat | c < n && c !in lost && c != x ensures c in l' {
      var i :| 0 <= i < |l| && l[i] == c;
      assert l'[if i < k then i else i - 1] == c;
    }
    assert x < n;
    hide Without;
  }

  predicate Losing(e: Step, max: nat) {
    e == PoolDry || e == StartTx(false) || (e.Call? && |e.frame| > max)
  }

  lemma BooksSame(s: State, e: Step, max: nat)
    requires Enabled(s, e) && !Losing(e, max) && !e.Call?
    ensures Next(s, e, max).lost == s.lost && Next(s, e, max).calls == s.calls
  {
    if BySender(e) {
      hide TaskNext, Overwrite;
    } else {
      hide SenderNext, QueueSend;
    }
  }

  lemma LineSame(s: State, e: Step, max: nat)
    requires Enabled(s, e) && Fits(s, e) && Semaphore(s) && !Losing(e, max) && !e.Call?
    ensures Line(Next(s, e, max)) == Line(s)
  {
    hide Line, Next, Enabled, Fits, Semaphore;
    LineStep(s, e, max);
  }

  lemma DryStep(s: State, e: Step, max: nat)
    requires Enabled(s, e) && Ordered(Line(s), s.lost, |s.calls|) && e == PoolDry
    ensures Ordered(Line(Next(s, e, max)), Next(s, e, max).lost, |Next(s, e, max).calls|)
  {
    var l, s' := Line(s), Next(s, e, max);
    assert s'.lost == s.lost + {|s.calls| - 1} && s'.calls == s.calls;
    hide Line, Without, Ordered, Next, Enabled;
    LineCall(s, e, max);
    OrderedLoses(l, s.lost, |s.calls|, |l| - 1);
  }

  lemma RefusedStep(s: State, e: Step, max: nat)
    requires Enabled(s, e) && Ordered(Line(s), s.lost, |s.calls|) && e == StartTx(false)
    ensures Ordered(Line(Next(s, e, max)), Next(s, e, max).lost, |Next(s, e, max).calls|)
  {
    var l, s' := Line(s), Next(s, e, max);
    assert s'.lost == s.lost + {s.task.item.call} && s'.calls == s.calls;
    hide Line, Without, Ordered, Next, Enabled;
    LineStart(s, e, max);
    OrderedLoses(l, s.lost, |s.calls|, |s.sent|);
  }

  lemma CallStep(s: State, e: Step, max: nat)
    requires Enabled(s, e) && Fits(s, e) && Semaphore(s) && Ordered(Line(s), s.lost, |s.calls|)
    requires e.Call?
    ensures Ordered(Line(Next(s, e, max)), Next(s, e, max).lost, |Next(s, e, max).calls|)
  {
    var l, s' := Line(s), Next(s, e, max);
    LineStep(s, e, max);
    assert |s'.calls| == |s.calls| + 1;
    assert s'.lost == if |e.frame| <= max then s.lost else s.lost + {|s.calls|};
    hide Line, Fits, Semaphore, Without, Ordered, Next, Enabled;
    OrderedGrows(l, s.lost, |s.calls|, |e.frame| <= max);
  }

  lemma OrderedStep(s: State, e: Step, max: nat)
    requires Conserved(s) && Enabled(s, e) && Ordered(Line(s), s.lost, |s.calls|)
    ensures Ordered(Line(Next(s, e, max)), Next(s, e, max).lost, |Next(s, e, max).calls|)
  {
    StepFits(s, e);
    hide Line, Next, Enabled, Holders, Semaphore, Fits, Ordered;
    if e.Call? {
      CallStep(s, e, max);
    } else if e == PoolDry {
      DryStep(s, e, max);
    } else if e == StartTx(false) {
      RefusedStep(s, e, max);
    } else {
      BooksSame(s, e, max);
      LineSame(s, e, max);
    }
  }

  lemma {:induction false} RunOrdered(ss: seq<State>, es: seq<Step>, max: nat, k: nat)
    requires Run(ss, es, max) && k < |ss|
    ensures Ordered(Line(ss[k]), ss[k].lost, |ss[k].calls|)
  {
    if k == 0 {
      assert Line(ss[0]) == [];
    } else {
      RunOrdered(ss, es, max, k - 1);
      RunConserves(ss, es, max, k - 1);
      OrderedStep(ss[k - 1], es[k - 1], max);
    }
  }

  // ----- content -----

  /** The buffer of a queued frame holds what its call passed. */
  predicate Carries(s: State, q: Item) {
    && q.buf < |s.mem| && q.call < |s.calls| && q.len <= |s.mem[q.buf]|
    && s.mem[q.buf][..q.len] == s.calls[q.call]
  }

  /** Every frame the chip was sent is the frame of its call, and every frame on its way still is. */
  ghost predicate Faithful(s: State, max: nat) {
    && |s.mem| == DEPTH
    && (forall b :: 0 <= b < DEPTH ==> |s.mem[b]| == max)
    && (forall i :: 0 <= i < |s.sent| ==> s.sent[i].call < |s.calls| && s.sent[i].bytes == s.calls[s.sent[i].call])
    && (forall i :: 0 <= i < |s.queue| ==> Carries(s, s.queue[i]))
    && (s.task.Got? ==> Carries(s, s.task.item))
    && (s.sender != Rest ==> s.calls != [] && |Last(s.calls)| <= max)
    && (s.sender.Enqueue? ==> Carries(s, Item(s.sender.buf, |Last(s.calls)|, |s.calls| - 1)))
  }

  lemma {:induction false} QueuedHolds(q: seq<Item>, i: nat)
    requires i < |q|
    ensures InQueue(q, q[i].buf) >= 1
  {
    if i > 0 {
      QueuedHolds(q[1..], i - 1);
    }
  }

  /** A new call only adds to the calls. */
  lemma FaithfulCall(s: State, e: Step, max: nat)
    requires Faithful(s, max) && Enabled(s, e) && e.Call?
    ensures Faithful(Next(s, e, max), max)
  {
    var s' := Next(s, e, max);
    assert s'.calls == s.calls + [e.frame] && s'.mem == s.mem && s'.queue == s.queue;
    assert s'.sent == s.sent && s'.task == s.task && (s'.sender == Rest || (s'.sender == Try && |e.frame| <= max));
    hide Next, Enabled;
    forall i | 0 <= i < |s'.queue| ensures Carries(s', s'.queue[i]) {
      assert Carries(s, s.queue[i]);
    }
  }

  /** The copy overwrites a buffer that no frame on its way lies in. */
  lemma FaithfulCopy(s: State, e: Step, max: nat)
    requires Conserved(s) && Faithful(s, max) && Enabled(s, e) && e == CopyIn
    ensures Faithful(Next(s, e, max), max)
  {
    var s' := Next(s, e, max);
    var b := s.sender.buf;
    assert Holders(s, b) == 1;
    forall i | 0 <= i < |s'.queue| ensures Carries(s', s'.queue[i]) {
      assert Carries(s, s.queue[i]);
      QueuedHolds(s.queue, i);
    }
    assert s'.mem[b][..|Last(s.calls)|] == Last(s.calls);
  }

  lemma FaithfulQueue(s: State, e: Step, max: nat)
    requires Faithful(s, max) && Enabled(s, e) && (e == Send || e == Dequeue)
    ensures Faithful(Next(s, e, max), max)
  {
    var s' := Next(s, e, max);
    assert s'.mem == s.mem && s'.calls == s.calls && s'.sent == s.sent;
    forall i | 0 <= i < |s'.queue| ensures Carries(s', s'.queue[i]) {
      assert Carries(s, if e == Dequeue then s.queue[i + 1]
        else if i < |s.queue| then s.queue[i] else Item(s.sender.buf, |Last(s.calls)|, |s.calls| - 1));
    }
  }

  lemma FaithfulInline(s: State, e: Step, max: nat)
    requires Faithful(s, max) && Enabled(s, e) && e.Inline?
    ensures Faithful(Next(s, e, max), max)
  {
    FaithfulSame(s, Next(s, e, max), max);
  }

  lemma FaithfulStart(s: State, e: Step, max: nat)
    requires Faithful(s, max) && Enabled(s, e) && e.StartTx?
    ensures Faithful(Next(s, e, max), max)
  {
    FaithfulSame(s, Next(s, e, max), max);
  }

  /** What does not touch buffers, calls and queue is faithful when it sends the frame of its call. */
  lemma FaithfulSame(s: State, s': State, max: nat)
    requires Faithful(s, max) && s'.mem == s.mem && s'.calls == s.calls && s'.queue == s.queue
    requires s'.sent != s.sent ==> s'.sent != [] && s'.sent[..|s'.sent| - 1] == s.sent
    requires s'.sent != s.sent ==> Last(s'.sent).call < |s.calls| && Last(s'.sent).bytes == s.calls[Last(s'.sent).call]
    requires s'.sender.Enqueue? ==> s'.sender == s.sender
    requires s'.sender != Rest ==> s.sender != Rest
    requires s'.task.Got? ==> s'.task == s.task
    ensures Faithful(s', max)
  {
    forall i | 0 <= i < |s'.queue| ensures Carries(s', s'.queue[i]) {
      assert Carries(s, s.queue[i]);
    }
    forall i | 0 <= i < |s'.sent|
      ensures s'.sent[i].call < |s'.calls| && s'.sent[i].bytes == s'.calls[s'.sent[i].call] {
      if i < |s.sent| {
        assert s'.sent[i] == s.sent[i];
      }
    }
  }

  lemma FaithfulOther(s: State, e: Step, max: nat)
    requires Faithful(s, max) && Enabled(s, e)
    requires !e.Call? && !e.Inline? && !e.StartTx? && e !in {CopyIn, Send, Dequeue}
    ensures Faithful(Next(s, e, max), max)
  {
    var s' := Next(s, e, max);
    NextFrame(s, e, max);
    if BySender(e) {
      OtherSender(s, e, max);
    } else {
      OtherTask(s, e, max);
    }
    hide Next, Enabled, Faithful;
    FaithfulSame(s, s', max);
  }

  lemma OtherSender(s: State, e: Step, max: nat)
    requires Enabled(s, e) && e in {NoInline, TakeBuf, PoolDry}
    ensures var s' := Next(s, e, max);
      && s'.mem == s.mem && s'.calls == s.calls && s'.queue == s.queue && s'.sent == s.sent
      && !s'.sender.Enqueue? && s.sender != Rest
  {
    hide TaskNext;
  }

  lemma OtherTask(s: State, e: Step, max: nat)
    requires Enabled(s, e) && !BySender(e) && !e.StartTx? && e != Dequeue
    ensures var s' := Next(s, e, max);
      s'.queue == s.queue && s'.sent == s.sent && (s'.task.Got? ==> s'.task == s.task)
  {
    hide SenderNext, QueueSend;
  }

  lemma FaithfulStep(s: State, e: Step, max: nat)
    requires Conserved(s) && Faithful(s, max) && Enabled(s, e)
    ensures Faithful(Next(s, e, max), max)
  {
    hide Next, Enabled, Faithful, Conserved;
    match e
    case Call(_) => FaithfulCall(s, e, max);
    case CopyIn => FaithfulCopy(s, e, max);
    case Send => FaithfulQueue(s, e, max);
    case Dequeue => FaithfulQueue(s, e, max);
    case Inline(_) => FaithfulInline(s, e, max);
    case StartTx(_) => FaithfulStart(s, e, max);
    case _ => FaithfulOther(s, e, max);
  }

  lemma {:induction false} RunFaithful(ss: seq<State>, es: seq<Step>, max: nat, k: nat)
    requires Run(ss, es, max) && k < |ss|
    ensures Faithful(ss[k], max)
  {
    if k > 0 {
      RunFaithful(ss, es, max, k - 1);
      RunConserves(ss, es, max, k - 1);
      FaithfulStep(ss[k - 1], es[k - 1], max);
    }
  }

  /** The chip is sent a subsequence of the frames passed, in call order, on both paths together. */
  lemma SentIsSubsequence(ss: seq<State>, es: seq<Step>, max: nat, k: nat, i: nat)
    requires Run(ss, es, max) && k < |ss| && i < |ss[k].sent|
    ensures ss[k].sent[i].call < |ss[k].calls|
    ensures ss[k].sent[i].bytes == ss[k].calls[ss[k].sent[i].call]
    ensures forall j :: 0 <= j < i ==> ss[k].sent[j].call < ss[k].sent[i].call
  {
    var s := ss[k];
    RunFaithful(ss, es, max, k);
    RunOrdered(ss, es, max, k);
    hide Run;
    assert forall j :: 0 <= j < |s.sent| ==> Line(s)[j] == s.sent[j].call;
  }

  /** No thread is ever stuck: wherever it is past a wait, its next step is enabled. */
  lemma NeverStuck(ss: seq<State>, es: seq<Step>, max: nat, k: nat, ok: bool)
    requires Run(ss, es, max) && k < |ss|
    ensures ss[k].sender == GetBuf ==> Enabled(ss[k], TakeBuf) || Enabled(ss[k], PoolDry)
    ensures ss[k].sender.Copy? ==> Enabled(ss[k], CopyIn)
    ensures ss[k].sender.Enqueue? ==> Enabled(ss[k], Send)
    ensures ss[k].task.Got? ==> Enabled(ss[k], StartTx(ok))
  {
    RunFaithful(ss, es, max, k);
    RunConserves(ss, es, max, k);
    hide Run;
    if ss[k].sender.Copy? {
      assert Holders(ss[k], ss[k].sender.buf) >= 1;
    }
  }

  // ----- one SEND at a time -----

  /** No SEND is open while the semaphore is free or a thread that holds it may issue one. */
  ghost predicate OneSend(s: State) {
    && (s.inflight || s.flag ==> s.pending)
    && !(s.inflight && s.flag)
    && (s.pending ==> !s.idle && s.task in {Wait, Check, Start})
    && (s.task.Return? || s.task.Give? || s.task.Took? || s.task.Got? || s.task.Drop? ==> !s.idle)
  }

  /**
   The steps after which the driver believes what is not so: a timeout that leaves the chip
   sending, or SIR_SEND up; and SIR_SEND taken while the chip still sends or nothing is open,
   or without coming down.
   */
  predicate Mistaken(s: State, e: Step) {
    match e
    case Timeout(cleared, stopped) => (s.flag && !cleared) || (s.inflight && !stopped)
    case Seen(cleared) => (s.flag && !cleared) || s.inflight || s.idle
    case _ => false
  }

  /** Exactly those steps break the discipline. */
  lemma OneSendStepIff(s: State, e: Step, max: nat)
    requires OneSend(s) && Enabled(s, e)
    ensures OneSend(Next(s, e, max)) <==> !Mistaken(s, e)
  {
    if BySender(e) {
      hide TaskNext, Overwrite;
    } else {
      hide SenderNext, QueueSend;
    }
  }

  lemma {:induction false} RunOneSend(ss: seq<State>, es: seq<Step>, max: nat, k: nat)
    requires Run(ss, es, max) && k < |ss|
    requires forall i :: 0 <= i < k ==> !Mistaken(ss[i], es[i])
    ensures OneSend(ss[k])
  {
    if k > 0 {
      RunOneSend(ss, es, max, k - 1);
      OneSendStepIff(ss[k - 1], es[k - 1], max);
    }
  }

  /**
   A SEND is issued only when the last one was seen complete or timed out, the chip is not
   sending, and no old completion is waiting to be taken for the new one's.
   */
  lemma SendWaitsForLast(ss: seq<State>, es: seq<Step>, max: nat, k: nat)
    requires Run(ss, es, max) && k < |es|
    requires forall i :: 0 <= i < k ==> !Mistaken(ss[i], es[i])
    requires es[k] == Inline(true) || es[k] == StartTx(true)
    ensures !ss[k].pending && !ss[k].inflight && !ss[k].flag
  {
    RunOneSend(ss, es, max, k);
  }

  /** The semaphore is taken only for an open SEND, or while the task is about to give it or to send. */
  predicate Accounted(s: State) {
    s.idle || s.pending || s.task.Return? || s.task.Give? || s.task.Took? || s.task.Got? || s.task.Drop?
  }

  lemma AccountedStep(s: State, e: Step, max: nat)
    requires Accounted(s) && Enabled(s, e)
    ensures Accounted(Next(s, e, max))
  {
    if BySender(e) {
      hide TaskNext, Overwrite;
    } else {
      hide SenderNext, QueueSend;
    }
  }

  /** In every run, mistaken steps or not, the semaphore is never lost: whoever took it still has to give it. */
  lemma {:induction false} RunAccounted(ss: seq<State>, es: seq<Step>, max: nat, k: nat)
    requires Run(ss, es, max) && k < |ss|
    ensures Accounted(ss[k])
  {
    if k > 0 {
      RunAccounted(ss, es, max, k - 1);
      hide Next, Enabled, Accounted;
      AccountedStep(ss[k - 1], es[k - 1], max);
    }
  }

  /** In runs without mistaken steps it is free exactly when no SEND is open and the task does not hold it. */
  lemma FreeIff(ss: seq<State>, es: seq<Step>, max: nat, k: nat)
    requires Run(ss, es, max) && k < |ss|
    requires forall i :: 0 <= i < k ==> !Mistaken(ss[i], es[i])
    ensures ss[k].idle <==> !ss[k].pending && ss[k].task in {Wait, Check, Start}
  {
    RunOneSend(ss, es, max, k);
    RunAccounted(ss, es, max, k);
  }

  /** One more step of a run. */
  lemma Extend(ss: seq<State>, es: seq<Step>, max: nat, e: Step) returns (ss': seq<State>, es': seq<Step>)
    requires Run(ss, es, max) && Enabled(Last(ss), e)
    ensures Run(ss', es', max) && ss' == ss + [Next(Last(ss), e, max)] && es' == es + [e]
  {
    ss', es' := ss + [Next(Last(ss), e, max)], es + [e];
    hide Next, Enabled;
  }

  /** The start of the runs below: a short frame is handed to the chip. */
  lemma OneOut(f: seq<u8>, max: nat) returns (ss: seq<State>, es: seq<Step>)
    requires |f| <= INLINE_MAX && |f| <= max
    ensures Run(ss, es, max) && es == [Call(f), Inline(true)]
    ensures Last(ss) ==
      Initial(max).(inflight := true, pending := true, idle := false, calls := [f], sent := [Frame(0, f)])
  {
    ss, es := [Initial(max)], [];
    ss, es := Extend(ss, es, max, Call(f));
    ss, es := Extend(ss, es, max, Inline(true));
  }

  /** The driver gives the semaphore and comes round, with the chip and SIR_SEND as they are. */
  lemma GiveAway(ss: seq<State>, es: seq<Step>, max: nat, after: After) returns (ss': seq<State>, es': seq<Step>)
    requires Run(ss, es, max) && Last(ss).task == Return(after) && Last(ss).active == None && Last(ss).queue == []
    requires after != ToWait
    ensures Run(ss', es', max) && Last(ss') == Last(ss).(idle := true, task := Then(after))
    ensures es' == es + [PutBack, GiveIdle]
  {
    ss', es' := Extend(ss, es, max, PutBack);
    ss', es' := Extend(ss', es', max, GiveIdle);
  }

  /** A SEND completes between the reading of the interrupt register and the timeout check. */
  lemma StaleTimeout(f: seq<u8>, max: nat) returns (ss: seq<State>, es: seq<Step>)
    requires |f| <= INLINE_MAX && |f| <= max
    ensures Run(ss, es, max)
    ensures Last(ss) == Initial(max).(flag := true, calls := [f], sent := [Frame(0, f)])
  {
    ss, es := OneOut(f, max);
    ss, es := Extend(ss, es, max, NotSeen);
    ss, es := Extend(ss, es, max, ChipDone);
    ss, es := Extend(ss, es, max, Timeout(false, true));
    ss, es := GiveAway(ss, es, max, ToStart);
    ss, es := Extend(ss, es, max, TakeIdle);
    ss, es := Extend(ss, es, max, Dequeue);
    ss, es := Extend(ss, es, max, GiveIdle);
  }

  /**
   Its SIR_SEND is then taken for that of the second SEND, and a third can be issued while
   the chip still sends the second.
   */
  lemma StaleTimeoutOverlaps(f: seq<u8>, max: nat) returns (ss: seq<State>, es: seq<Step>)
    requires |f| <= INLINE_MAX && |f| <= max
    ensures Run(ss, es, max) && Enabled(Last(ss), Inline(true))
    ensures Last(ss).inflight && |Last(ss).sent| == 2
  {
    ss, es := StaleTimeout(f, max);
    ss, es := Extend(ss, es, max, Call(f));
    ss, es := Extend(ss, es, max, Inline(true));
    ss, es := Extend(ss, es, max, Seen(true));
    ss, es := GiveAway(ss, es, max, ToCheck);
    ss, es := Extend(ss, es, max, Call(f));
  }

  /** The reopening of a timeout fails, which the code ignores: a SEND can be issued while the chip still sends. */
  lemma FailedReopenOverlaps(f: seq<u8>, max: nat) returns (ss: seq<State>, es: seq<Step>)
    requires |f| <= INLINE_MAX && |f| <= max
    ensures Run(ss, es, max) && Enabled(Last(ss), Inline(true)) && Last(ss).inflight
    ensures es == [Call(f), Inline(true), NotSeen, Timeout(false, false), PutBack, GiveIdle, Call(f)]
  {
    ss, es := OneOut(f, max);
    ss, es := Extend(ss, es, max, NotSeen);
    ss, es := Extend(ss, es, max, Timeout(false, false));
    ss, es := GiveAway(ss, es, max, ToStart);
    ss, es := Extend(ss, es, max, Call(f));
  }

  /** So it can when the interrupt register is misread, as after a failed read that leaves the last value. */
  lemma MisreadOverlaps(f: seq<u8>, max: nat) returns (ss: seq<State>, es: seq<Step>)
    requires |f| <= INLINE_MAX && |f| <= max
    ensures Run(ss, es, max) && Enabled(Last(ss), Inline(true)) && Last(ss).inflight
    ensures es == [Call(f), Inline(true), Seen(true), PutBack, GiveIdle, Call(f)]
  {
    ss, es := OneOut(f, max);
    ss, es := Extend(ss, es, max, Seen(true));
    ss, es := GiveAway(ss, es, max, ToCheck);
    ss, es := Extend(ss, es, max, Call(f));
  }
}
