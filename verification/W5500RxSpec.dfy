/**
 Reception in the W5500 driver as values: the chip's queue of received frames, what one pass
 of the drain loop does with its front, and the loop while frames keep arriving.
 */
module W5500RxSpec {
  import opened Words
  import opened W5500Mem

  /** The shortest frame the driver accepts, and the longest it passes on. */
  const MIN_FRAME: int := 60
  const MAX_FRAME: int := 1522

  /**
   Frames `heard` were accepted by the chip, in order; the driver has taken as many as there
   are `fates`, each true for a frame passed `up`. `sir` is SIR_RECV, `remain` is `packets_remain`.
   */
  datatype Chip = Chip(heard: seq<seq<u8>>, fates: seq<bool>, up: seq<seq<u8>>, sir: bool, remain: bool)

  /** The frames still in the chip. */
  function Pending(c: Chip): seq<seq<u8>> {
    if |c.fates| <= |c.heard| then c.heard[|c.fates|..] else []
  }

  /** The room frames take, each behind its two length bytes. */
  function Size(fs: seq<seq<u8>>): nat {
    if fs == [] then 0 else Size(fs[..|fs| - 1]) + |fs[|fs| - 1]| + 2
  }

  /** A frame arrives: it is stored whole and SIR_RECV raised, or there is no room. */
  function Arrive(c: Chip, f: seq<u8>): Chip {
    if Size(Pending(c)) + |f| + 2 <= MEM then c.(heard := c.heard + [f], sir := true) else c
  }

  function ArriveAll(c: Chip, fs: seq<seq<u8>>): Chip {
    if fs == [] then c else Arrive(ArriveAll(c, fs[..|fs| - 1]), fs[|fs| - 1])
  }

  /** What happens around one pass of the loop: frames arriving at three moments, and `malloc`. */
  datatype Weather = Weather(first: seq<seq<u8>>, second: seq<seq<u8>>, third: seq<seq<u8>>, granted: bool)

  const Quiet: Weather := Weather([], [], [], true)

  /** The front frame leaves the chip. */
  function Take(c: Chip, deliver: bool, remain: bool): Chip
    requires Pending(c) != []
  {
    c.(fates := c.fates + [deliver], up := if deliver then c.up + [Pending(c)[0]] else c.up, remain := remain)
  }

  predicate Sized(fs: seq<seq<u8>>) {
    forall i :: 0 <= i < |fs| ==> MIN_FRAME <= |fs[i]|
  }

  predicate Mild(w: Weather) {
    Sized(w.first) && Sized(w.second) && Sized(w.third)
  }

  /** One pass of the loop. */
  function Turn(c: Chip, w: Weather): Chip {
    var c1 := ArriveAll(c, w.first);
    var c2 := ArriveAll(c1, w.second);
    var c3 := ArriveAll(c2, w.third);
    if Pending(c1) == [] || Pending(c3) == [] then c3
    else
      Take(c3, w.granted && |Pending(c1)[0]| <= MAX_FRAME,
           if w.granted then |Pending(c1)| > 1 else |Pending(c2)| > 1)
  }

  // ----- what every state keeps -----

  /** The frames whose fate was to be passed up. */
  function Picked(heard: seq<seq<u8>>, fates: seq<bool>): seq<seq<u8>>
    requires |fates| <= |heard|
  {
    if fates == [] then []
    else
      var n := |fates| - 1;
      Picked(heard, fates[..n]) + if fates[n] then [heard[n]] else []
  }

  /**
   The frames passed up are frames heard, whole and in order, each once; those missing among
   the taken ones were dropped whole.
   */
  ghost predicate Whole(c: Chip) {
    && |c.fates| <= |c.heard|
    && c.up == Picked(c.heard, c.fates)
    && (forall i :: 0 <= i < |c.fates| && c.fates[i] ==> |c.heard[i]| <= MAX_FRAME)
    && Sized(c.heard)
    && Size(Pending(c)) <= MEM
    && (c.remain ==> Pending(c) != [])
  }

  lemma {:induction false} PickedGrows(heard: seq<seq<u8>>, f: seq<u8>, fates: seq<bool>)
    requires |fates| <= |heard|
    ensures Picked(heard + [f], fates) == Picked(heard, fates)
  {
    if fates != [] {
      PickedGrows(heard, f, fates[..|fates| - 1]);
    }
  }

  lemma SizeSnoc(fs: seq<seq<u8>>, f: seq<u8>)
    ensures Size(fs + [f]) == Size(fs) + |f| + 2
  {
    assert (fs + [f])[..|fs|] == fs;
  }

  lemma {:induction false} SizeCons(fs: seq<seq<u8>>)
    requires fs != []
    ensures Size(fs) == |fs[0]| + 2 + Size(fs[1..])
  {
    if |fs| > 1 {
      var n := |fs| - 1;
      SizeCons(fs[..n]);
      assert fs[..n][1..] == fs[1..][..n - 1];
    } else {
      assert fs[..0] == [] && fs[1..] == [];
    }
  }

  lemma ArriveKeeps(c: Chip, f: seq<u8>)
    requires Whole(c) && MIN_FRAME <= |f|
    ensures Whole(Arrive(c, f))
    ensures Pending(Arrive(c, f)) == Pending(c) || (Pending(Arrive(c, f)) == Pending(c) + [f] && Arrive(c, f).sir)
    ensures c.sir ==> Arrive(c, f).sir
  {
    PickedGrows(c.heard, f, c.fates);
    SizeSnoc(Pending(c), f);
    var c' := Arrive(c, f);
    if c'.heard != c.heard {
      assert Pending(c') == Pending(c) + [f];
    }
  }

  /** Frames only arrived: they are added at the end, and any of them leaves SIR_RECV raised. */
  ghost predicate Grew(c: Chip, c': Chip) {
    && c.heard <= c'.heard && Pending(c) <= Pending(c')
    && (Pending(c') != Pending(c) ==> c'.sir)
    && (c.sir ==> c'.sir)
    && c'.fates == c.fates && c'.remain == c.remain
  }

  lemma {:induction false} ArriveAllKeeps(c: Chip, fs: seq<seq<u8>>)
    requires Whole(c) && Sized(fs)
    ensures Whole(ArriveAll(c, fs)) && Grew(c, ArriveAll(c, fs))
  {
    if fs != [] {
      var n := |fs| - 1;
      var c1 := ArriveAll(c, fs[..n]);
      ArriveAllKeeps(c, fs[..n]);
      hide Whole, Pending, Arrive;
      ArriveGrows(c1, fs[n]);
      GrewOn(c, c1, Arrive(c1, fs[n]));
    }
  }

  lemma ArriveGrows(c: Chip, f: seq<u8>)
    requires Whole(c) && MIN_FRAME <= |f|
    ensures Whole(Arrive(c, f)) && Grew(c, Arrive(c, f))
  {
    ArriveKeeps(c, f);
    hide Whole, Pending;
  }

  lemma GrewOn(c: Chip, c1: Chip, c2: Chip)
    requires Grew(c, c1) && Grew(c1, c2)
    ensures Grew(c, c2)
  {
    hide Pending;
  }

  lemma TakeKeeps(c: Chip, deliver: bool, remain: bool)
    requires Whole(c) && Pending(c) != [] && (deliver ==> |Pending(c)[0]| <= MAX_FRAME)
    requires remain ==> |Pending(c)| > 1
    ensures Whole(Take(c, deliver, remain))
    ensures Pending(Take(c, deliver, remain)) == Pending(c)[1..]
  {
    var c' := Take(c, deliver, remain);
    SizeCons(Pending(c));
    assert Pending(c') == Pending(c)[1..];
    assert c'.fates[..|c.fates|] == c.fates;
  }

  /** One pass: nothing torn, and if it is the last, frames left behind have SIR_RECV up. */
  lemma TurnKeeps(c: Chip, w: Weather)
    requires Whole(c) && Mild(w)
    ensures Whole(Turn(c, w))
    ensures !Turn(c, w).remain && Pending(Turn(c, w)) != [] ==> Turn(c, w).sir
    ensures c.heard <= Turn(c, w).heard
    ensures !Turn(c, w).remain ==> |Turn(c, w).fates| >= |c.heard|
    ensures |Turn(c, w).fates| == |c.fates| + if Pending(ArriveAll(c, w.first)) == [] then 0 else 1
  {
    var c1 := ArriveAll(c, w.first);
    var c2 := ArriveAll(c1, w.second);
    var c3 := ArriveAll(c2, w.third);
    ArriveAllKeeps(c, w.first);
    ArriveAllKeeps(c1, w.second);
    ArriveAllKeeps(c2, w.third);
    hide ArriveAll, Whole, Pending, Take;
    if Pending(c1) == [] {
      NothingTaken(c, c1, c2, c3);
    } else {
      FrontTaken(c, c1, c2, c3, w.granted);
    }
  }

  lemma NothingTaken(c: Chip, c1: Chip, c2: Chip, c3: Chip)
    requires Whole(c) && Grew(c, c1) && Grew(c1, c2) && Grew(c2, c3) && Pending(c1) == []
    ensures !c3.remain && (Pending(c3) != [] ==> c3.sir) && c.heard <= c3.heard
    ensures |c3.fates| == |c.fates| >= |c.heard|
  {
  }

  lemma FrontTaken(c: Chip, c1: Chip, c2: Chip, c3: Chip, granted: bool)
    requires Whole(c) && Whole(c1) && Whole(c2) && Whole(c3)
    requires Grew(c, c1) && Grew(c1, c2) && Grew(c2, c3) && Pending(c1) != []
    ensures Pending(c3) != []
    ensures var remain := if granted then |Pending(c1)| > 1 else |Pending(c2)| > 1;
      var c' := Take(c3, granted && |Pending(c1)[0]| <= MAX_FRAME, remain);
      && Whole(c') && |c'.fates| == |c.fates| + 1 && c.heard <= c'.heard && c'.remain == remain
      && (!remain ==> |c'.fates| >= |c.heard| && (Pending(c') != [] ==> c'.sir))
  {
    assert |c.heard| == |c.fates| + |Pending(c)|;
    GrewTwice(c2, c3, c1);
    assert c.heard <= c3.heard && c3.fates == c.fates && |Pending(c)| <= |Pending(c1)|;
    hide Whole, Pending, Grew;
    var few := if granted then |Pending(c1)| else |Pending(c2)|;
    TakeKeeps(c3, granted && |Pending(c1)[0]| <= MAX_FRAME, few > 1);
  }

  lemma GrewTwice(c2: Chip, c3: Chip, c1: Chip)
    requires Grew(c1, c2) && Grew(c2, c3) && Pending(c1) != []
    ensures |Pending(c1)| <= |Pending(c2)| <= |Pending(c3)|
    ensures Pending(c1)[0] == Pending(c3)[0]
    ensures |Pending(c3)| > |Pending(c1)| ==> c3.sir
  {
    hide Pending;
  }

  // ----- the loop -----

  function Head(ws: seq<Weather>): Weather {
    if ws == [] then Quiet else ws[0]
  }

  function Tail(ws: seq<Weather>): seq<Weather> {
    if ws == [] then [] else ws[1..]
  }

  ghost predicate AllMild(ws: seq<Weather>) {
    forall i :: 0 <= i < |ws| ==> Mild(ws[i])
  }

  lemma TurnShrinks(c: Chip)
    requires Whole(c)
    ensures Turn(c, Quiet).remain ==> |Pending(Turn(c, Quiet))| < |Pending(c)|
  {
    TurnKeeps(c, Quiet);
    if Pending(c) != [] {
      TakeKeeps(c, |Pending(c)[0]| <= MAX_FRAME, |Pending(c)| > 1);
    }
  }

  /** The loop, with what happens around each pass, and in the end nothing. */
  ghost function Loop(c: Chip, ws: seq<Weather>): Chip
    requires Whole(c) && AllMild(ws)
    decreases |ws|, |Pending(c)|
  {
    TurnKeeps(c, Head(ws));
    TurnShrinks(c);
    var c' := Turn(c, Head(ws));
    if c'.remain then Loop(c', Tail(ws)) else c'
  }

  /** Taking the interrupt: SIR_RECV is cleared and the loop run. */
  ghost function Drain(c: Chip, ws: seq<Weather>): Chip
    requires Whole(c) && AllMild(ws)
  {
    Loop(c.(sir := false), ws)
  }

  /** Between interrupts: nothing torn, and SIR_RECV is up whenever frames wait. */
  ghost predicate Resting(c: Chip) {
    Whole(c) && !c.remain && (Pending(c) != [] ==> c.sir)
  }

  /** The loop ends at rest and has taken at least every frame that was there when it began. */
  lemma {:induction false} LoopRests(c: Chip, ws: seq<Weather>)
    requires Whole(c) && AllMild(ws)
    ensures Resting(Loop(c, ws)) && c.heard <= Loop(c, ws).heard
    ensures |Loop(c, ws).fates| >= |c.heard|
    decreases |ws|, |Pending(c)|
  {
    var c' := Turn(c, Head(ws));
    TurnKeeps(c, Head(ws));
    hide Turn, Whole, Pending;
    if c'.remain {
      TurnShrinks(c);
      LoopRests(c', Tail(ws));
    }
  }

  // ----- whole runs -----

  datatype Event = Hear(frame: seq<u8>) | Interrupt(around: seq<Weather>)

  ghost predicate WellFormed(e: Event) {
    match e
    case Hear(f) => MIN_FRAME <= |f|
    case Interrupt(ws) => AllMild(ws)
  }

  ghost function After(c: Chip, e: Event): Chip
    requires Whole(c) && WellFormed(e)
  {
    match e
    case Hear(f) => Arrive(c, f)
    case Interrupt(ws) => Drain(c, ws)
  }

  ghost predicate Run(cs: seq<Chip>, es: seq<Event>) {
    && |cs| == |es| + 1 && cs[0] == Chip([], [], [], false, false)
    && (forall i :: 0 <= i < |es| ==> WellFormed(es[i]))
    && (forall i :: 0 <= i < |es| && Whole(cs[i]) ==> cs[i + 1] == After(cs[i], es[i]))
  }

  /**
   In every run, whenever the driver waits: frames passed up are frames heard, whole, once and
   in order, and no frame is left in the chip without its interrupt.
   */
  lemma {:induction false} RunRests(cs: seq<Chip>, es: seq<Event>, k: nat)
    requires Run(cs, es) && k < |cs|
    ensures Resting(cs[k])
  {
    if k > 0 {
      RunRests(cs, es, k - 1);
      hide Whole, Loop;
      match es[k - 1]
      case Hear(f) => HearRests(cs[k - 1], f);
      case Interrupt(ws) => DrainRests(cs[k - 1], ws);
    }
  }

  lemma HearRests(c: Chip, f: seq<u8>)
    requires Resting(c) && MIN_FRAME <= |f|
    ensures Resting(Arrive(c, f))
  {
    ArriveKeeps(c, f);
  }

  lemma DrainRests(c: Chip, ws: seq<Weather>)
    requires Resting(c) && AllMild(ws)
    ensures Resting(Drain(c, ws)) && |Drain(c, ws).fates| >= |c.heard|
  {
    LoopRests(c.(sir := false), ws);
  }

  // ----- SIR_RECV -----

  /** SIR_RECV is up now if it was up before or a frame was stored since. */
  ghost predicate Raised(c: Chip, c': Chip) {
    |c.heard| <= |c'.heard| && (c'.sir <==> c.sir || |c'.heard| > |c.heard|)
  }

  lemma {:induction false} ArriveAllRaises(c: Chip, fs: seq<seq<u8>>)
    ensures Raised(c, ArriveAll(c, fs))
  {
    if fs != [] {
      ArriveAllRaises(c, fs[..|fs| - 1]);
      hide Pending, Size;
    }
  }

  lemma TurnRaises(c: Chip, w: Weather)
    ensures Raised(c, Turn(c, w))
  {
    var c1 := ArriveAll(c, w.first);
    var c2 := ArriveAll(c1, w.second);
    ArriveAllRaises(c, w.first);
    ArriveAllRaises(c1, w.second);
    ArriveAllRaises(c2, w.third);
    hide ArriveAll, Pending;
  }

  lemma {:induction false} LoopRaises(c: Chip, ws: seq<Weather>)
    requires Whole(c) && AllMild(ws)
    ensures Raised(c, Loop(c, ws))
    decreases |ws|, |Pending(c)|
  {
    var c' := Turn(c, Head(ws));
    hide Turn, Whole, Pending;
    TurnRaises(c, Head(ws));
    TurnKeeps(c, Head(ws));
    if c'.remain {
      TurnShrinks(c);
      LoopRaises(c', Tail(ws));
    }
  }

  /** Taking the interrupt takes SIR_RECV down: afterwards it is up exactly when a frame was stored meanwhile. */
  lemma DrainSirIff(c: Chip, ws: seq<Weather>)
    requires Whole(c) && AllMild(ws)
    ensures Drain(c, ws).sir <==> |Drain(c, ws).heard| > |c.heard|
    ensures c.heard <= Drain(c, ws).heard
  {
    LoopRaises(c.(sir := false), ws);
    LoopRests(c.(sir := false), ws);
    hide Loop;
  }

  /** The last of the first `k` events that is an interrupt; the first event if none is. */
  function LastTaken(es: seq<Event>, k: nat): (r: nat)
    requires k <= |es|
    ensures r <= k
  {
    if k == 0 then 0 else if es[k - 1].Interrupt? then k - 1 else LastTaken(es, k - 1)
  }

  /** In every run SIR_RECV is up exactly when a frame was stored since the last interrupt was taken. */
  lemma {:induction false} RunSirIff(cs: seq<Chip>, es: seq<Event>, k: nat)
    requires Run(cs, es) && k < |cs|
    ensures cs[k].sir <==> |cs[k].heard| > |cs[LastTaken(es, k)].heard|
    ensures |cs[LastTaken(es, k)].heard| <= |cs[k].heard|
  {
    if k > 0 {
      RunSirIff(cs, es, k - 1);
      RunRests(cs, es, k - 1);
      hide Whole, Loop, Pending, Size;
      match es[k - 1]
      case Hear(f) =>
      case Interrupt(ws) => DrainSirIff(cs[k - 1], ws);
    }
  }

  // ----- while memory lasts -----

  /** Only frames that are too long were dropped. */
  ghost predicate OnlyLongDropped(c: Chip) {
    |c.fates| <= |c.heard| && forall i :: 0 <= i < |c.fates| ==> c.fates[i] == (|c.heard[i]| <= MAX_FRAME)
  }

  lemma {:induction false} LoopDropsOnlyLong(c: Chip, ws: seq<Weather>)
    requires Whole(c) && AllMild(ws) && OnlyLongDropped(c)
    requires forall i :: 0 <= i < |ws| ==> ws[i].granted
    ensures OnlyLongDropped(Loop(c, ws))
    decreases |ws|, |Pending(c)|
  {
    var w := Head(ws);
    var c' := Turn(c, w);
    hide Turn, Whole, Pending, OnlyLongDropped;
    TurnKeeps(c, w);
    TurnDropsOnlyLong(c, w);
    if c'.remain {
      TurnShrinks(c);
      LoopDropsOnlyLong(c', Tail(ws));
    }
  }

  lemma TurnDropsOnlyLong(c: Chip, w: Weather)
    requires Whole(c) && Mild(w) && OnlyLongDropped(c) && w.granted
    ensures OnlyLongDropped(Turn(c, w))
  {
    var c1 := ArriveAll(c, w.first);
    var c2 := ArriveAll(c1, w.second);
    var c3 := ArriveAll(c2, w.third);
    ArriveAllKeeps(c, w.first);
    ArriveAllKeeps(c1, w.second);
    ArriveAllKeeps(c2, w.third);
    assert |c.fates| <= |c.heard|;
    hide ArriveAll, Whole, Take;
    assert OnlyLongDropped(c3);
    if Pending(c1) != [] {
      assert Pending(c1)[0] == Pending(c3)[0];
      FrontDropsOnlyLong(c3, |Pending(c1)| > 1);
    }
  }

  lemma FrontDropsOnlyLong(c: Chip, remain: bool)
    requires OnlyLongDropped(c) && Pending(c) != []
    ensures OnlyLongDropped(Take(c, |Pending(c)[0]| <= MAX_FRAME, remain))
  {
  }
}
