/**
 The transmit side of `esp_eth_mac_w5500.c` as code that changes the driver's fields: each
 part, run without interruption, takes exactly the steps listed for it in the machine of
 `W5500Tx`, so what holds of every run of the machine holds of it.
 */
module W5500TxDriver {
  import opened Words
  import opened Wrappers
  import opened W5500Tx
  import opened W5500TxOrder
  import opened W5500TxChip

  /** The state after a list of steps; a step that is not enabled is not taken. */
  function Apply(s: State, es: seq<Step>, max: nat): State
    decreases |es|
  {
    if es == [] then s else Apply(if Enabled(s, es[0]) then Next(s, es[0], max) else s, es[1..], max)
  }

  lemma {:induction false} ApplyThen(s: State, es: seq<Step>, fs: seq<Step>, max: nat)
    ensures Apply(s, es + fs, max) == Apply(Apply(s, es, max), fs, max)
    decreases |es|
  {
    if es == [] {
      assert es + fs == fs;
    } else {
      assert (es + fs)[1..] == es[1..] + fs && (es + fs)[0] == es[0];
      hide Next, Enabled;
      ApplyThen(if Enabled(s, es[0]) then Next(s, es[0], max) else s, es[1..], fs, max);
    }
  }

  /** Steps applied to a state some run reaches reach a state some run reaches. */
  lemma {:induction false} ApplyReaches(ss: seq<State>, es: seq<Step>, fs: seq<Step>, max: nat)
    returns (ss': seq<State>, es': seq<Step>)
    requires Run(ss, es, max)
    ensures Run(ss', es', max) && Last(ss') == Apply(Last(ss), fs, max)
    decreases |fs|
  {
    ss', es' := ss, es;
    if fs != [] {
      hide Next, Enabled;
      if Enabled(Last(ss), fs[0]) {
        ss', es' := Extend(ss, es, max, fs[0]);
      }
      ss', es' := ApplyReaches(ss', es', fs[1..], max);
    }
  }

  /** A turn of either thread on a reachable state leaves every buffer held once and all frames whole. */
  lemma PartsKeep(ss: seq<State>, es: seq<Step>, fs: seq<Step>, max: nat)
    requires Run(ss, es, max)
    ensures Conserved(Apply(Last(ss), fs, max)) && Faithful(Apply(Last(ss), fs, max), max)
  {
    var ss', es' := ApplyReaches(ss, es, fs, max);
    RunConserves(ss', es', max, |es'|);
    RunFaithful(ss', es', max, |es'|);
    hide Conserved, Faithful;
  }

  // ----- the steps of each part -----

  /** The queued path of `emac_w5500_transmit`. */
  function QueuedSteps(s: State): seq<Step> {
    if s.pool == [] then [PoolDry] else [TakeBuf, CopyIn, Send]
  }

  /** Does the inline path get as far as the chip? */
  predicate Tries(s: State, f: seq<u8>, aligned: bool) {
    |f| <= INLINE_MAX && aligned && s.idle && s.queue == []
  }

  /** How `w5500_start_tx` went: did it send, did it reopen the socket on the way, and what did that do? */
  datatype How = How(started: bool, again: bool, cleared: bool, stopped: bool)

  const Untried: How := How(false, false, false, false)

  /** The socket was reopened before the frame was sent or refused. */
  function Before(how: How): seq<Step> {
    if how.again then [Reset(how.cleared, how.stopped)] else []
  }

  function InlineSteps(how: How): seq<Step> {
    Before(how) + [Inline(how.started)]
  }

  function EnteredSteps(s: State, f: seq<u8>, aligned: bool, how: How): seq<Step> {
    if Tries(s, f, aligned) then InlineSteps(how) + (if how.started then [] else QueuedSteps(s))
    else [NoInline] + QueuedSteps(s)
  }

  function TransmitSteps(s: State, f: seq<u8>, aligned: bool, how: How, max: nat): seq<Step> {
    if |f| > max then [Call(f)] else [Call(f)] + EnteredSteps(s, f, aligned, how)
  }

  /** What `emac_w5500_task` does for SIR_SEND, as it was `read`. */
  function DoneSteps(check: bool, read: bool, cleared: bool): seq<Step> {
    if check && read then [Seen(cleared), PutBack, GiveIdle] else [NotSeen]
  }

  function TimeoutSteps(s: State, late: bool, r: Reopening): seq<Step> {
    if !s.idle && late then [Timeout(r.cleared, r.stopped), PutBack, GiveIdle] else [NoTimeout]
  }

  function ItemSteps(how: How): seq<Step> {
    Before(how) + if how.started then [StartTx(true)] else [StartTx(false), DropBuf, GiveIdle]
  }

  function StartSteps(s: State, how: How): seq<Step> {
    if !s.idle then [TakeIdle]
    else if s.queue == [] then [TakeIdle, Dequeue, GiveIdle]
    else [TakeIdle, Dequeue] + ItemSteps(how)
  }

  // ----- and what they come to -----

  lemma One(s: State, e: Step, es: seq<Step>, max: nat)
    requires Enabled(s, e)
    ensures Apply(s, [e] + es, max) == Apply(Next(s, e, max), es, max)
  {
    assert ([e] + es)[1..] == es;
    hide Next, Enabled;
  }

  lemma Three(s: State, a: Step, b: Step, c: Step, max: nat)
    requires Enabled(s, a) && Enabled(Next(s, a, max), b) && Enabled(Next(Next(s, a, max), b, max), c)
    ensures Apply(s, [a, b, c], max) == Next(Next(Next(s, a, max), b, max), c, max)
  {
    var s1 := Next(s, a, max);
    var s2 := Next(s1, b, max);
    hide Next, Enabled;
    One(s, a, [b, c], max);
    One(s1, b, [c], max);
    One(s2, c, [], max);
    assert [a] + [b, c] == [a, b, c] && [b] + [c] == [b, c] && [c] + [] == [c];
  }

  lemma Only(s: State, e: Step, max: nat)
    requires Enabled(s, e)
    ensures Apply(s, [e], max) == Next(s, e, max)
  {
    assert [e] + [] == [e];
    hide Next, Enabled;
    One(s, e, [], max);
  }

  /** A frame copied into the first free buffer and queued, or given up. */
  function Queued(s: State): State
    requires s.calls != [] && (s.pool != [] ==> s.pool[0] < |s.mem|)
  {
    if s.pool == [] then s.(sender := Rest, lost := s.lost + {|s.calls| - 1})
    else
      var (b, f) := (s.pool[0], Last(s.calls));
      s.(pool := s.pool[1..], mem := s.mem[b := Overwrite(s.mem[b], f)],
         queue := QueueSend(s.queue, Item(b, |f|, |s.calls| - 1)), sender := Rest)
  }

  lemma QueuedIs(s: State, max: nat)
    requires s.sender == GetBuf && s.calls != [] && (s.pool != [] ==> s.pool[0] < |s.mem|)
    ensures Apply(s, QueuedSteps(s), max) == Queued(s)
  {
    hide Apply, TaskNext, Overwrite, QueueSend;
    if s.pool == [] {
      Only(s, PoolDry, max);
    } else {
      Three(s, TakeBuf, CopyIn, Send, max);
    }
  }

  /** The active buffer and the semaphore go back, and the task goes on. */
  function GivenBack(s: State, task: Task): State {
    s.(pool := if s.active.Some? then QueueSend(s.pool, s.active.value) else s.pool,
       active := None, idle := true, task := task)
  }

  lemma GivesBack(s: State, e: Step, after: After, max: nat)
    requires Enabled(s, e) && Next(s, e, max).task == Return(after)
    ensures Apply(s, [e, PutBack, GiveIdle], max) == GivenBack(Next(s, e, max), Then(after))
  {
    hide Apply, Next, Enabled, GivenBack;
    BackIs(Next(s, e, max), after, max);
    Three(s, e, PutBack, GiveIdle, max);
  }

  lemma BackIs(t: State, after: After, max: nat)
    requires t.task == Return(after)
    ensures Enabled(t, PutBack) && Enabled(Next(t, PutBack, max), GiveIdle)
    ensures Next(Next(t, PutBack, max), GiveIdle, max) == GivenBack(t, Then(after))
  {
    hide SenderNext, QueueSend;
  }

  lemma DoneIs(s: State, cleared: bool, max: nat)
    requires s.task == Wait
    ensures Apply(s, DoneSteps(true, true, cleared), max) ==
      GivenBack(s.(flag := s.flag && !cleared, pending := false), Check)
  {
    hide Apply, SenderNext, QueueSend;
    GivesBack(s, Seen(cleared), ToCheck, max);
  }

  lemma NotDoneIs(s: State, max: nat)
    requires s.task == Wait
    ensures Apply(s, [NotSeen], max) == s.(task := Check)
  {
    hide Apply, SenderNext;
    Only(s, NotSeen, max);
  }

  lemma TimeoutIs(s: State, r: Reopening, max: nat)
    requires s.task == Check && !s.idle
    ensures Apply(s, TimeoutSteps(s, true, r), max) ==
      GivenBack(s.(inflight := s.inflight && !r.stopped, flag := s.flag && !r.cleared, pending := false), Start)
  {
    hide Apply, SenderNext, QueueSend;
    GivesBack(s, Timeout(r.cleared, r.stopped), ToStart, max);
  }

  lemma NoTimeoutIs(s: State, max: nat)
    requires s.task == Check
    ensures Apply(s, [NoTimeout], max) == s.(task := Start)
  {
    hide Apply, SenderNext;
    Only(s, NoTimeout, max);
  }

  lemma CallIs(s: State, f: seq<u8>, max: nat)
    requires s.sender == Rest
    ensures Apply(s, [Call(f)], max) ==
      if |f| <= max then s.(calls := s.calls + [f], sender := Try)
      else s.(calls := s.calls + [f], lost := s.lost + {|s.calls|})
  {
    hide Apply, TaskNext;
    Only(s, Call(f), max);
  }

  /** The state a frame is sent or refused in. */
  function Reopened(s: State, how: How): State {
    if how.again then s.(inflight := s.inflight && !how.stopped, flag := s.flag && !how.cleared) else s
  }

  lemma ResetIs(s: State, how: How, es: seq<Step>, max: nat)
    ensures Apply(s, Before(how) + es, max) == Apply(Reopened(s, how), es, max)
  {
    if how.again {
      One(s, Reset(how.cleared, how.stopped), es, max);
    } else {
      assert Before(how) + es == es;
    }
    hide Apply, SenderNext;
  }

  /** The driver's record after it handed a frame to the chip. */
  function Followed(s: State, how: How, f: Frame): State {
    var t := Reopened(s, how);
    if how.started then Issue(t, f) else t
  }

  /** The inline path's frame sent, or the semaphore given back. */
  function InlineDone(s: State, how: How): State
    requires s.calls != []
  {
    var t := Followed(s.(idle := false), how, Frame(|s.calls| - 1, Last(s.calls)));
    if how.started then t.(sender := Rest) else t.(idle := true, sender := GetBuf)
  }

  lemma InlineIs(s: State, how: How, max: nat)
    requires Enabled(s, Inline(true))
    ensures Apply(s, InlineSteps(how), max) == InlineDone(s, how)
  {
    hide Apply, TaskNext;
    ResetIs(s, how, [Inline(how.started)], max);
    Only(Reopened(s, how), Inline(how.started), max);
  }

  /** A frame off the queue sent, or its buffer and the semaphore given back. */
  function ItemDone(s: State, item: Item, how: How): State
    requires item.buf < |s.mem| && item.len <= |s.mem[item.buf]|
  {
    var t := Followed(s, how, Frame(item.call, s.mem[item.buf][..item.len]));
    if how.started then t.(active := Some(item.buf), task := Wait)
    else t.(pool := QueueSend(t.pool, item.buf), idle := true, task := Wait, lost := t.lost + {item.call})
  }

  lemma SentIs(t: State, item: Item, max: nat)
    requires t.task == Got(item) && item.buf < |t.mem| && item.len <= |t.mem[item.buf]|
    ensures Apply(t, [StartTx(true)], max) ==
      Issue(t, Frame(item.call, t.mem[item.buf][..item.len])).(active := Some(item.buf), task := Wait)
  {
    hide Apply, SenderNext;
    Only(t, StartTx(true), max);
  }

  lemma RefusedIs(t: State, item: Item, max: nat)
    requires t.task == Got(item) && item.buf < |t.mem| && item.len <= |t.mem[item.buf]|
    ensures Apply(t, [StartTx(false), DropBuf, GiveIdle], max) ==
      t.(pool := QueueSend(t.pool, item.buf), idle := true, task := Wait, lost := t.lost + {item.call})
  {
    hide Apply, SenderNext, QueueSend;
    Three(t, StartTx(false), DropBuf, GiveIdle, max);
  }

  lemma ItemIs(s: State, item: Item, how: How, max: nat)
    requires s.task == Got(item) && item.buf < |s.mem| && item.len <= |s.mem[item.buf]|
    ensures Apply(s, ItemSteps(how), max) == ItemDone(s, item, how)
  {
    hide Apply, Next, Enabled, QueueSend;
    var t := Reopened(s, how);
    if how.started {
      ResetIs(s, how, [StartTx(true)], max);
      SentIs(t, item, max);
    } else {
      ResetIs(s, how, [StartTx(false), DropBuf, GiveIdle], max);
      RefusedIs(t, item, max);
    }
  }

  /** The driver's state after its part for the next queued frame. */
  function NextDone(s: State, how: How): State
    requires s.queue != [] ==> s.queue[0].buf < |s.mem| && s.queue[0].len <= |s.mem[s.queue[0].buf]|
  {
    if !s.idle || s.queue == [] then s.(task := Wait)
    else ItemDone(s.(idle := false, queue := s.queue[1..], task := Got(s.queue[0])), s.queue[0], how)
  }

  lemma NextIs(s: State, how: How, max: nat)
    requires s.task == Start
    requires s.queue != [] ==> s.queue[0].buf < |s.mem| && s.queue[0].len <= |s.mem[s.queue[0].buf]|
    ensures Apply(s, StartSteps(s, how), max) == NextDone(s, how)
  {
    hide Apply, SenderNext, QueueSend, ItemDone, ItemSteps;
    if !s.idle {
      Only(s, TakeIdle, max);
    } else if s.queue == [] {
      Three(s, TakeIdle, Dequeue, GiveIdle, max);
    } else {
      var s1 := s.(idle := false, task := Took);
      var s2 := s1.(queue := s.queue[1..], task := Got(s.queue[0]));
      assert [TakeIdle, Dequeue] + ItemSteps(how) == [TakeIdle] + ([Dequeue] + ItemSteps(how));
      One(s, TakeIdle, [Dequeue] + ItemSteps(how), max);
      One(s1, Dequeue, ItemSteps(how), max);
      ItemIs(s2, s.queue[0], how, max);
    }
  }

  /** The frames handed to the chip, as bytes. */
  function Contents(sent: seq<Frame>): seq<seq<u8>> {
    seq(|sent|, i requires 0 <= i < |sent| => sent[i].bytes)
  }

  lemma ContentsSnoc(sent: seq<Frame>, f: Frame)
    ensures Contents(sent + [f]) == Contents(sent) + [f.bytes]
  {
  }

  /** `emac_w5500_t`, its queues and the chip. */
  class Emac {
    const max: nat
    const chip: TxChip
    var pool: seq<nat>
    var mem: seq<seq<u8>>
    var queue: seq<Item>
    var active: Option<nat>
    var idle: bool
    var inflight: bool
    var flag: bool
    // the record of what went in and came out
    var calls: seq<seq<u8>>
    var sent: seq<Frame>
    ghost var lost: set<nat>
    // where the two threads are
    ghost var sender: Sender
    ghost var task: Task
    ghost var pending: bool

    ghost function State(): State
      reads this
    {
      W5500Tx.State(pool, mem, queue, active, idle, sender, task, inflight, flag, pending, calls, sent, lost)
    }

    constructor (max: nat, chip: TxChip)
      ensures State() == Initial(max) && this.max == max && this.chip == chip
    {
      this.max := max;
      this.chip := chip;
      pool, mem, queue, active, idle := [0, 1, 2, 3], seq(DEPTH, _ => seq(max, _ => 0)), [], None, true;
      sender, task, inflight, flag, pending := Rest, Wait, false, false, false;
      calls, sent, lost := [], [], {};
    }

    // ----- w5500_start_tx -----

    /** What a start does to the chip, and how it went. */
    ghost predicate Outcome(how: How, before: Memory, bytes: seq<u8>, spi: Spi)
      reads chip, chip.mem
    {
      && chip.Valid() && chip.Value() == Started(before, bytes, spi)
      && how.started == Sends(|bytes|, |before.left|, spi) && how.again == Reopens(|bytes|, |before.left|, spi)
      && how.cleared == spi.reopening.cleared && how.stopped == spi.reopening.stopped
    }

    /** A frame goes to the chip, and the driver's record follows what the chip did. */
    method StartFrame(call: nat, bytes: seq<u8>, spi: Spi) returns (how: How)
      requires chip.Valid()
      modifies this`inflight, this`flag, this`pending, this`sent, chip, chip.mem
      ensures Outcome(how, old(chip.Value()), bytes, spi)
      ensures State() == Followed(old(State()), how, Frame(call, bytes))
    {
      hide Started, Followed, Sends, Reopens, State;
      var ok, again := chip.StartTx(bytes, spi);
      how := How(ok, again, spi.reopening.cleared, spi.reopening.stopped);
      Record(how, Frame(call, bytes));
    }

    method Record(how: How, f: Frame)
      modifies this`inflight, this`flag, this`pending, this`sent
      ensures State() == Followed(old(State()), how, f)
    {
      if how.again {
        inflight := inflight && !how.stopped;
        flag := flag && !how.cleared;
      }
      if how.started {
        inflight := true;
        pending := true;
        sent := sent + [f];
      }
    }

    /** The chip has sent and raises SIR_SEND. */
    method Complete()
      requires Enabled(State(), ChipDone) && chip.Valid()
      modifies this`inflight, this`flag, chip
      ensures State() == Next(old(State()), ChipDone, max)
      ensures chip.Valid() && chip.Value() == old(chip.Value()).(left := [])
    {
      hide SenderNext;
      chip.Complete();
      inflight := false;
      flag := true;
    }

    // ----- emac_w5500_transmit -----

    /** The part of `emac_w5500_transmit` behind the inline path. */
    method TransmitQueued(f: seq<u8>) returns (ok: bool)
      requires sender == GetBuf && calls != [] && Last(calls) == f
      requires pool != [] ==> pool[0] < |mem|
      modifies this`pool, this`mem, this`queue, this`sender, this`lost
      ensures State() == Apply(old(State()), QueuedSteps(old(State())), max)
      ensures ok <==> old(pool) != []
    {
      QueuedIs(State(), max);
      hide Apply, Next, QueuedSteps, Overwrite, QueueSend;
      if pool == [] {
        sender := Rest;
        lost := lost + {|calls| - 1};
        return false;
      }
      var buf := pool[0];
      pool := pool[1..];
      mem := mem[buf := Overwrite(mem[buf], f)];
      queue := QueueSend(queue, Item(buf, |f|, |calls| - 1));
      sender := Rest;
      return true;
    }

    /** The inline path: the semaphore is taken, and given back if the frame was not sent. */
    method TransmitInline(f: seq<u8>, spi: Spi) returns (how: How)
      requires Enabled(State(), Inline(true)) && f == Last(calls) && chip.Valid()
      modifies this`idle, this`inflight, this`flag, this`pending, this`sent, this`sender, chip, chip.mem
      ensures Outcome(how, old(chip.Value()), f, spi)
      ensures State() == Apply(old(State()), InlineSteps(how), max)
      ensures !how.started ==> sender == GetBuf
    {
      ghost var s := State();
      hide Apply, Next, InlineSteps, Outcome, Followed, TxChip.Valid, TxChip.Left, TxChip.Value;
      idle := false;
      how := StartFrame(|calls| - 1, f, spi);
      if how.started {
        sender := Rest;
      } else {
        idle := true;
        sender := GetBuf;
      }
      InlineIs(s, how, max);
    }

    /** The inline path if it is open, and the queued path unless that sent the frame. */
    method TransmitEntered(f: seq<u8>, aligned: bool, spi: Spi) returns (ok: bool, how: How)
      requires sender == Try && calls != [] && Last(calls) == f && (pool != [] ==> pool[0] < |mem|) && chip.Valid()
      modifies this, chip, chip.mem
      ensures State() == Apply(old(State()), EnteredSteps(old(State()), f, aligned, how), max)
      ensures if Tries(old(State()), f, aligned)
        then Outcome(how, old(chip.Value()), f, spi)
        else chip.Valid() && chip.Value() == old(chip.Value())
    {
      hide Apply, Next, Outcome, InlineSteps, QueuedSteps, TxChip.Valid, TxChip.Left, TxChip.Value;
      ghost var s := State();
      how := Untried;
      if |f| <= INLINE_MAX && aligned && idle && queue == [] {
        how := TransmitInline(f, spi);
        if how.started {
          assert InlineSteps(how) + [] == InlineSteps(how);
          return true, how;
        }
        ThenQueued(s, InlineSteps(how), State(), max);
      } else {
        sender := GetBuf;
        SkipIs(s, max);
        ThenQueued(s, [NoInline], State(), max);
      }
      ok := TransmitQueued(f);
    }

    /** `emac_w5500_transmit`; `aligned` is what the buffer's address says. */
    method Transmit(f: seq<u8>, aligned: bool, spi: Spi) returns (ok: bool, how: How)
      requires sender == Rest && (pool != [] ==> pool[0] < |mem|) && chip.Valid()
      modifies this, chip, chip.mem
      ensures State() == Apply(old(State()), TransmitSteps(old(State()), f, aligned, how, max), max)
      ensures if |f| <= max && Tries(old(State()), f, aligned)
        then Outcome(how, old(chip.Value()), f, spi)
        else chip.Valid() && chip.Value() == old(chip.Value())
    {
      hide Apply, Next, Outcome, EnteredSteps, TxChip.Valid, TxChip.Left, TxChip.Value;
      ghost var s := State();
      CallIs(s, f, max);
      calls := calls + [f];
      if |f| > max {
        lost := lost + {|calls| - 1};
        return false, Untried;
      }
      sender := Try;
      ghost var s1 := State();
      ok, how := TransmitEntered(f, aligned, spi);
      SameEntry(s1, s, f, aligned, how);
      ApplyThen(s, [Call(f)], EnteredSteps(s1, f, aligned, how), max);
    }

    // ----- emac_w5500_task -----

    /** The active buffer goes back to the pool and the semaphore is given. */
    method GiveBack(next: Task)
      modifies this`pool, this`active, this`idle, this`task
      ensures State() == GivenBack(old(State()), next) && task == next
    {
      hide QueueSend;
      if active.Some? {
        pool := QueueSend(pool, active.value);
        active := None;
      }
      idle := true;
      task := next;
    }

    /** The part of the driver's loop that takes SIR_SEND, `read` as the register said; `cleared` when clearing it worked. */
    method SendDone(check: bool, read: bool, cleared: bool)
      requires task == Wait
      modifies this`flag, this`pending, this`pool, this`active, this`idle, this`task
      ensures State() == Apply(old(State()), DoneSteps(check, read, cleared), max) && task == Check
    {
      ghost var s := State();
      hide Apply, Next, Enabled, GivenBack;
      if check && read {
        DoneIs(s, cleared, max);
        if cleared {
          flag := false;
        }
        pending := false;
        GiveBack(Check);
      } else {
        NotDoneIs(s, max);
        task := Check;
      }
    }

    /** The timeout check; `late` says whether ten milliseconds have passed. The result of the reopening is ignored. */
    method CheckTimeout(late: bool, r: Reopening)
      requires task == Check && chip.Valid()
      modifies this`inflight, this`flag, this`pending, this`pool, this`active, this`idle, this`task, chip
      ensures State() == Apply(old(State()), TimeoutSteps(old(State()), late, r), max) && task == Start
      ensures chip.Valid() && chip.Value() ==
        if !old(idle) && late && r.emptied then old(chip.Value()).(left := []) else old(chip.Value())
    {
      ghost var s := State();
      hide Apply, Next, Enabled, GivenBack, TxChip.Valid, TxChip.Left, TxChip.Value;
      if !idle && late {
        TimeoutIs(s, r, max);
        chip.Reopen(r);
        inflight := inflight && !r.stopped;
        flag := flag && !r.cleared;
        pending := false;
        GiveBack(Start);
      } else {
        NoTimeoutIs(s, max);
        task := Start;
      }
    }

    /** A frame off the queue is sent, or its buffer and the semaphore go back. */
    method SendItem(item: Item, spi: Spi) returns (how: How)
      requires item.buf < |mem| && item.len <= |mem[item.buf]| && chip.Valid()
      modifies this`inflight, this`flag, this`pending, this`sent, this`active, this`task, this`lost,
        this`pool, this`idle, chip, chip.mem
      ensures Outcome(how, old(chip.Value()), old(mem[item.buf])[..item.len], spi)
      ensures State() == ItemDone(old(State()), item, how)
    {
      hide Outcome, Followed, QueueSend, TxChip.Valid, TxChip.Left, TxChip.Value;
      how := StartFrame(item.call, mem[item.buf][..item.len], spi);
      task := Wait;
      if how.started {
        active := Some(item.buf);
      } else {
        pool := QueueSend(pool, item.buf);
        idle := true;
        lost := lost + {item.call};
      }
    }

    /** The part of the driver's loop that starts the next queued frame. */
    method StartNext(spi: Spi) returns (how: How)
      requires task == Start && chip.Valid()
      requires queue != [] ==> queue[0].buf < |mem| && queue[0].len <= |mem[queue[0].buf]|
      modifies this, chip, chip.mem
      ensures State() == Apply(old(State()), StartSteps(old(State()), how), max) && task == Wait
      ensures if old(idle && queue != [])
        then Outcome(how, old(chip.Value()), old(mem[queue[0].buf])[..old(queue[0].len)], spi)
        else chip.Valid() && chip.Value() == old(chip.Value()) && !how.started
    {
      ghost var s := State();
      hide Apply, StartSteps, Outcome, Reopened;
      how := Untried;
      if idle {
        idle := false;
        if queue != [] {
          var item := queue[0];
          queue := queue[1..];
          task := Got(item);
          how := SendItem(item, spi);
        } else {
          idle := true;
        }
      }
      NextIs(s, how, max);
      NextWaits(s, how);
      if !s.idle || s.queue == [] {
        task := Wait;
      }
    }

    /** One turn of the driver's loop as far as it transmits. */
    method TaskTurn(check: bool, read: bool, cleared: bool, late: bool, r: Reopening, spi: Spi)
      returns (how: How, ghost timeout: seq<Step>, ghost next: seq<Step>)
      requires task == Wait && chip.Valid()
      requires queue != [] ==> queue[0].buf < |mem| && queue[0].len <= |mem[queue[0].buf]|
      modifies this, chip, chip.mem
      ensures chip.Valid() && task == Wait
      ensures var s1 := Apply(old(State()), DoneSteps(check, read, cleared), max);
        timeout == TimeoutSteps(s1, late, r) && next == StartSteps(Apply(s1, timeout, max), how)
      ensures State() == Apply(old(State()), DoneSteps(check, read, cleared) + timeout + next, max)
      ensures how.started ==> old(queue) != []
      ensures chip.aired == old(chip.aired) + if !how.started then [] else
        var left := if timeout != [NoTimeout] && r.emptied then [] else old(chip.Left());
        var f := old(mem[queue[0].buf])[..old(queue[0].len)];
        [Ahead(left, f, spi) + f]
    {
      ghost var s := State();
      SendDone(check, read, cleared);
      ghost var s1 := State();
      timeout := TimeoutSteps(s1, late, r);
      CheckTimeout(late, r);
      ghost var s2, m := State(), chip.Value();
      assert m.left == if timeout != [NoTimeout] && r.emptied then [] else old(chip.Left());
      hide Apply, DoneSteps, TimeoutSteps, StartSteps, Ahead, Sends, Started, TxChip.Valid, TxChip.Left;
      how := StartNext(spi);
      if s.queue != [] {
        StartAirs(m, s.mem[s.queue[0].buf][..s.queue[0].len], spi);
      }
      assert m.aired + [] == m.aired;
      next := StartSteps(s2, how);
      ApplyThen(s, DoneSteps(check, read, cleared), timeout, max);
      ApplyThen(s, DoneSteps(check, read, cleared) + timeout, next, max);
    }
  }

  lemma StartAirs(m: Memory, bytes: seq<u8>, spi: Spi)
    ensures Started(m, bytes, spi).aired ==
      m.aired + if Sends(|bytes|, |m.left|, spi) then [Ahead(m.left, bytes, spi) + bytes] else []
  {
  }

  lemma SkipIs(s: State, max: nat)
    requires s.sender == Try
    ensures Apply(s, [NoInline], max) == s.(sender := GetBuf)
  {
    Only(s, NoInline, max);
    hide Apply, TaskNext;
  }

  lemma SameEntry(a: State, b: State, f: seq<u8>, aligned: bool, how: How)
    requires a.pool == b.pool && a.idle == b.idle && a.queue == b.queue
    ensures EnteredSteps(a, f, aligned, how) == EnteredSteps(b, f, aligned, how)
  {
  }

  lemma ThenQueued(s: State, es: seq<Step>, t: State, max: nat)
    requires t == Apply(s, es, max) && t.pool == s.pool
    ensures Apply(s, es + QueuedSteps(s), max) == Apply(t, QueuedSteps(t), max)
  {
    assert QueuedSteps(s) == QueuedSteps(t);
    hide Apply;
    ApplyThen(s, es, QueuedSteps(s), max);
  }

  lemma NextWaits(s: State, how: How)
    requires s.queue != [] ==> s.queue[0].buf < |s.mem| && s.queue[0].len <= |s.mem[s.queue[0].buf]|
    ensures NextDone(s, how).task == Wait
  {
  }

  // ----- what becomes of a frame -----

  /**
   A frame passed to the driver is given up if it is too long; it is sent at once if it is
   short and aligned, nothing is being sent or queued, and the chip accepts it; else it is
   queued, whole, in a free buffer, and given up if there is none.
   */
  lemma FrameOutcome(s: State, f: seq<u8>, aligned: bool, how: How, max: nat)
    requires s.sender == Rest && !how.again && |s.queue| < DEPTH
    requires s.pool != [] ==> s.pool[0] < |s.mem| && |f| <= |s.mem[s.pool[0]]|
    ensures var t := Apply(s, TransmitSteps(s, f, aligned, how, max), max);
      var n := |s.calls|;
      && t.calls == s.calls + [f]
      && if |f| > max then t.sent == s.sent && t.queue == s.queue && t.lost == s.lost + {n}
         else if |f| <= 128 && aligned && s.idle && s.queue == [] && how.started then
           t.sent == s.sent + [Frame(n, f)] && t.queue == s.queue && t.lost == s.lost && !t.idle
         else if s.pool == [] then t.sent == s.sent && t.queue == s.queue && t.lost == s.lost + {n}
         else
           && t.sent == s.sent && t.lost == s.lost
           && t.queue == s.queue + [Item(s.pool[0], |f|, n)]
           && |t.mem| == |s.mem| && f <= t.mem[s.pool[0]]
  {
    var s1 := s.(calls := s.calls + [f], sender := Try);
    CallIs(s, f, max);
    if |f| <= max {
      SameEntry(s1, s, f, aligned, how);
      hide Apply, EnteredSteps, Next;
      ApplyThen(s, [Call(f)], EnteredSteps(s1, f, aligned, how), max);
      EnteredIs(s1, f, aligned, how, max);
    }
  }

  lemma EnteredIs(s: State, f: seq<u8>, aligned: bool, how: How, max: nat)
    requires s.sender == Try && s.calls != [] && Last(s.calls) == f && !how.again
    requires s.pool != [] ==> s.pool[0] < |s.mem|
    ensures Apply(s, EnteredSteps(s, f, aligned, how), max) ==
      if Tries(s, f, aligned) && how.started then InlineDone(s, how) else Queued(s.(sender := GetBuf))
  {
    hide Apply, QueuedSteps, InlineSteps, Next, Queued;
    var s1 := s.(sender := GetBuf);
    if Tries(s, f, aligned) {
      InlineIs(s, how, max);
      if how.started {
        assert InlineSteps(how) + [] == InlineSteps(how);
      } else {
        assert InlineDone(s, how) == s1;
        ThenQueued(s, InlineSteps(how), s1, max);
        QueuedIs(s1, max);
      }
    } else {
      SkipIs(s, max);
      ThenQueued(s, [NoInline], s1, max);
      QueuedIs(s1, max);
    }
  }

  // ----- the queue moves on -----

  /** A turn in which SIR_SEND is taken and the chip accepts the next frame sends the front of the queue. */
  lemma TurnSends(s: State, cleared: bool, how: How, max: nat)
    requires s.task == Wait && s.queue != [] && how.started
    requires s.queue[0].buf < |s.mem| && s.queue[0].len <= |s.mem[s.queue[0].buf]|
    ensures var s1 := Apply(s, DoneSteps(true, true, cleared) + [NoTimeout], max);
      var t := Apply(s1, StartSteps(s1, how), max);
      var front := s.queue[0];
      && t.sent == s.sent + [Frame(front.call, s.mem[front.buf][..front.len])]
      && t.queue == s.queue[1..] && t.active == Some(front.buf) && t.task == Wait && !t.idle
  {
    hide Apply, DoneSteps, StartSteps, QueueSend;
    DoneIs(s, cleared, max);
    ApplyThen(s, DoneSteps(true, true, cleared), [NoTimeout], max);
    NoTimeoutIs(Apply(s, DoneSteps(true, true, cleared), max), max);
    NextIs(Apply(s, DoneSteps(true, true, cleared) + [NoTimeout], max), how, max);
  }

  // ----- what is on the air -----

  /**
   One more frame: what is on the air stays the frames recorded as sent if and only if
   nothing was left in the chip's memory, or reopening its socket emptied it.
   */
  lemma RecordKeptIff(before: Memory, sent: seq<Frame>, f: Frame, spi: Spi)
    requires before.aired == Contents(sent) && Sends(|f.bytes|, |before.left|, spi)
    ensures Started(before, f.bytes, spi).aired == Contents(sent + [f]) <==>
      before.left == [] || Empties(|f.bytes|, |before.left|, spi)
  {
    ContentsSnoc(sent, f);
    var a := Air(before, Contents(sent));
    StartIff(a, Hand(f.bytes, spi));
    hide Contents;
  }
}
