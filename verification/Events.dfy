/**
 The event bus: one bounded queue per subscriber (crates/whirld/src/events.rs:21-25, 129-224).

 A subscriber is a channel: its sender sits in the bus until a send to it fails, its receiver reads
 the queue. The broadcast log exists only to state what subscribers are owed.
 */
module Events {
  import opened Basics

  const QUEUE := 256
  const HEARTBEAT_QUIET := 30

  /** One channel: what it was owed, what it has taken, what waits, and which ends are alive. */
  datatype Channel = Channel(
    joined: nat, received: seq<string>, queue: seq<string>, attached: bool, until: nat, open: bool)

  datatype State = State(log: seq<string>, channels: seq<Channel>)

  datatype Op =
    | Subscribe
    | Broadcast(line: string)
    | Receive(id: nat)
    | DropReceiver(id: nat)

  /** `try_send` to one subscriber: a full or disconnected channel is let go of. */
  function Offer(c: Channel, line: string, sent: nat): Channel
  {
    if !c.attached then c
    else if !c.open || |c.queue| >= QUEUE then c.(attached := false, until := sent)
    else c.(queue := c.queue + [line])
  }

  /** Offer a line to the channels from `k` on. */
  function OfferFrom(channels: seq<Channel>, k: nat, line: string, sent: nat): (r: seq<Channel>)
    ensures |r| == |channels|
  {
    seq(|channels|, i requires 0 <= i < |channels| => if i < k then channels[i] else Offer(channels[i], line, sent))
  }

  function Take(c: Channel): Channel
  {
    if c.open && |c.queue| > 0 then c.(received := c.received + [c.queue[0]], queue := c.queue[1..]) else c
  }

  function TakeAt(channels: seq<Channel>, id: nat): (r: seq<Channel>)
    ensures |r| == |channels|
  {
    if id < |channels| then channels[id := Take(channels[id])] else channels
  }

  /** The connection ends: the receiver is dropped with whatever waits in it. */
  function Drop(c: Channel): Channel { c.(open := false, queue := []) }

  function DropAt(channels: seq<Channel>, id: nat): (r: seq<Channel>)
    ensures |r| == |channels|
  {
    if id < |channels| then channels[id := Drop(channels[id])] else channels
  }

  function Step(s: State, op: Op): State
  {
    match op
    case Subscribe => s.(channels := s.channels + [Channel(|s.log|, [], [], true, |s.log|, true)])
    case Broadcast(line) => State(s.log + [line], OfferFrom(s.channels, 0, line, |s.log|))
    case Receive(id) => s.(channels := TakeAt(s.channels, id))
    case DropReceiver(id) => s.(channels := DropAt(s.channels, id))
  }

  function Run(ops: seq<Op>): State
  {
    if |ops| == 0 then State([], []) else Step(Run(ops[..|ops| - 1]), ops[|ops| - 1])
  }

  // --- Gap-free delivery ----------------------------------------------------------

  /** Where the channel's share of the log ends: now, or where the bus let go of it. */
  function End(s: State, c: Channel): nat { if c.attached then |s.log| else c.until }

  /** What a subscriber took, followed by what waits for it, is a contiguous stretch of the log from its join on. */
  ghost predicate GapFree(s: State, c: Channel)
  {
    && c.joined <= End(s, c) <= |s.log|
    && |c.queue| <= QUEUE
    && (c.open ==> c.received + c.queue == s.log[c.joined..End(s, c)])
    && (!c.open ==> c.queue == [] && c.received <= s.log[c.joined..])
  }

  lemma OfferKeeps(s: State, c: Channel, line: string)
    requires GapFree(s, c)
    ensures GapFree(s.(log := s.log + [line]), Offer(c, line, |s.log|))
  {
    var log := s.log + [line];
    assert log[c.joined..|s.log|] == s.log[c.joined..|s.log|];
    assert log[c.joined..|log|] == s.log[c.joined..|s.log|] + [line];
    if !c.attached {
      assert log[c.joined..c.until] == s.log[c.joined..c.until];
    }
    assert s.log[c.joined..] <= log[c.joined..];
    if c.open {
      assert (c.received + c.queue) + [line] == c.received + (c.queue + [line]);
    }
  }

  lemma StepKeeps(s: State, op: Op, i: nat)
    requires forall k :: 0 <= k < |s.channels| ==> GapFree(s, s.channels[k])
    requires i < |Step(s, op).channels|
    ensures GapFree(Step(s, op), Step(s, op).channels[i])
  {
    match op
    case Subscribe =>
      assert i < |s.channels| ==> GapFree(s, s.channels[i]);
    case Broadcast(line) =>
      OfferKeeps(s, s.channels[i], line);
    case Receive(id) =>
      assert GapFree(s, s.channels[i]);
      if i == id { TakeKeeps(s, s.channels[i]); }
    case DropReceiver(id) =>
      var c := s.channels[i];
      assert GapFree(s, c);
      assert c.open ==> c.received <= s.log[c.joined..End(s, c)] <= s.log[c.joined..];
  }

  lemma TakeKeeps(s: State, c: Channel)
    requires GapFree(s, c)
    ensures GapFree(s, Take(c))
  {
    if c.open && |c.queue| > 0 {
      assert (c.received + [c.queue[0]]) + c.queue[1..] == c.received + c.queue;
    }
  }

  /** Main result: over every interleaving, every subscriber's delivery is gap-free and its queue bounded. */
  lemma {:induction false} DeliveryIsGapFree(ops: seq<Op>, i: nat)
    requires i < |Run(ops).channels|
    ensures GapFree(Run(ops), Run(ops).channels[i])
  {
    if |ops| > 0 {
      var front := ops[..|ops| - 1];
      forall k: nat | k < |Run(front).channels|
        ensures GapFree(Run(front), Run(front).channels[k])
      {
        DeliveryIsGapFree(front, k);
      }
      StepKeeps(Run(front), ops[|ops| - 1], i);
    }
  }

  /** A channel is let go of only when a line found its queue full or its receiver gone. */
  lemma LetGoOnlyWhenStuck(s: State, op: Op, i: nat)
    requires i < |s.channels| && s.channels[i].attached && !Step(s, op).channels[i].attached
    ensures op.Broadcast? && (!s.channels[i].open || |s.channels[i].queue| >= QUEUE)
  {
  }

  // --- Confinement ------------------------------------------------------------------

  /** An operation of some other subscriber's own connection. */
  predicate OthersOwn(op: Op, i: nat)
  {
    (op.Receive? || op.DropReceiver?) && op.id != i
  }

  /** The schedule without what the other subscribers did with their connections. */
  function Without(ops: seq<Op>, i: nat): seq<Op>
  {
    if |ops| == 0 then []
    else Without(ops[..|ops| - 1], i) + if OthersOwn(ops[|ops| - 1], i) then [] else [ops[|ops| - 1]]
  }

  /**
   Main result: what a subscriber gets does not depend on what any other one does. However slow,
   stuck or gone the others are, subscriber `i` has the channel it would have had if they had done
   nothing.
   */
  lemma {:induction false} OthersCannotInterfere(ops: seq<Op>, i: nat)
    ensures Run(Without(ops, i)).log == Run(ops).log
    ensures |Run(Without(ops, i)).channels| == |Run(ops).channels|
    ensures i < |Run(ops).channels| ==> Run(Without(ops, i)).channels[i] == Run(ops).channels[i]
  {
    if |ops| > 0 {
      hide Step, OthersOwn;
      var front, op := ops[..|ops| - 1], ops[|ops| - 1];
      OthersCannotInterfere(front, i);
      if OthersOwn(op, i) {
        assert Without(ops, i) == Without(front, i);
        OthersStep(Run(front), op, i);
      } else {
        var kept := Without(ops, i);
        assert kept[..|kept| - 1] == Without(front, i) && kept[|kept| - 1] == op;
        StepAgrees(Run(front), Run(Without(front, i)), op, i);
      }
    }
  }

  /** Two states that agree on the log and on channel `i`. */
  predicate AgreeOn(s: State, t: State, i: nat)
  {
    s.log == t.log && |s.channels| == |t.channels| && (i < |s.channels| ==> s.channels[i] == t.channels[i])
  }

  lemma OthersStep(s: State, op: Op, i: nat)
    requires OthersOwn(op, i)
    ensures AgreeOn(s, Step(s, op), i)
  {
  }

  lemma StepAgrees(s: State, t: State, op: Op, i: nat)
    requires AgreeOn(s, t, i) && !OthersOwn(op, i)
    ensures AgreeOn(Step(s, op), Step(t, op), i)
  {
  }

  // --- From the join on -----------------------------------------------------------

  /** Operation k subscribes channel i. */
  predicate JoinsAt(ops: seq<Op>, k: nat, i: nat)
  {
    k < |ops| && ops[k].Subscribe? && i == |Run(ops[..k]).channels|
  }

  /** Operation j is a line that finds channel i with 256 lines waiting, or without its receiver. */
  predicate FindsStuck(ops: seq<Op>, j: nat, i: nat)
  {
    && j < |ops| && ops[j].Broadcast? && i < |Run(ops[..j]).channels|
    && (|Run(ops[..j]).channels[i].queue| >= 256 || !Run(ops[..j]).channels[i].open)
  }

  lemma RunStep(ops: seq<Op>, n: nat)
    requires n < |ops|
    ensures Run(ops[..n + 1]) == Step(Run(ops[..n]), ops[n])
  {
    assert ops[..n + 1][..n] == ops[..n];
  }

  /** What one operation does to a channel that is there. */
  lemma ChannelStep(s: State, op: Op, i: nat)
    requires i < |s.channels|
    ensures i < |Step(s, op).channels|
    ensures
      var c, d := s.channels[i], Step(s, op).channels[i];
      && d.joined == c.joined
      && (d.open <==> c.open && op != DropReceiver(i))
      && (c.attached ==> (!d.attached <==> op.Broadcast? && (|c.queue| >= 256 || !c.open)))
      && (!c.attached ==> !d.attached)
    ensures
      var c, d := s.channels[i], Step(s, op).channels[i];
      && (op == Receive(i) && c.open && |c.queue| > 0 ==> d.received == c.received + [c.queue[0]] && d.queue == c.queue[1..])
      && (op == Receive(i) && |c.queue| == 0 ==> d.received == c.received && d.queue == [])
      && (op != Receive(i) ==> d.received == c.received)
    ensures !op.Broadcast? ==> Step(s, op).log == s.log
  {
  }

  /** A channel joins attached, open and empty, with the log of the moment behind it. */
  lemma JoinStands(ops: seq<Op>, k: nat, i: nat)
    requires JoinsAt(ops, k, i)
    ensures
      var s := Run(ops[..k + 1]);
      i < |s.channels| && s.channels[i].attached && s.channels[i].open && s.channels[i].joined == |Run(ops[..k]).log|
  {
    RunStep(ops, k);
  }

  /**
   Main result: a subscriber stays attached from its join on exactly as long as no line finds 256 lines
   waiting for it, or its receiver gone.
   */
  lemma {:induction false} AttachedUntilStuck(ops: seq<Op>, k: nat, i: nat, n: nat)
    requires JoinsAt(ops, k, i) && k < n <= |ops|
    ensures i < |Run(ops[..n]).channels| && Run(ops[..n]).channels[i].joined == |Run(ops[..k]).log|
    ensures Run(ops[..n]).channels[i].attached <==> forall j :: k < j < n ==> !FindsStuck(ops, j, i)
    ensures Run(ops[..n]).channels[i].open <==> forall j :: k < j < n ==> ops[j] != DropReceiver(i)
    decreases n
  {
    hide Run, Step;
    if n == k + 1 {
      JoinStands(ops, k, i);
    } else {
      AttachedUntilStuck(ops, k, i, n - 1);
      RunStep(ops, n - 1);
      ChannelStep(Run(ops[..n - 1]), ops[n - 1], i);
      assert FindsStuck(ops, n - 1, i) <==>
          ops[n - 1].Broadcast? && (|Run(ops[..n - 1]).channels[i].queue| >= 256 || !Run(ops[..n - 1]).channels[i].open);
    }
  }

  /**
   Main result: as long as a subscriber's receiver is not dropped and no line finds 256 waiting, what it took
   followed by what waits for it is everything that was broadcast since it joined.
   */
  lemma EverythingSinceTheJoin(ops: seq<Op>, k: nat, i: nat, n: nat)
    requires JoinsAt(ops, k, i) && k < n <= |ops|
    requires forall j :: k < j < n ==> ops[j] != DropReceiver(i) && !FindsStuck(ops, j, i)
    ensures
      var s, from := Run(ops[..n]), |Run(ops[..k]).log|;
      i < |s.channels| && from <= |s.log| && s.channels[i].received + s.channels[i].queue == s.log[from..]
  {
    hide Run, FindsStuck;
    AttachedUntilStuck(ops, k, i, n);
    DeliveryIsGapFree(ops[..n], i);
  }

  /** A subscriber that receives a number of times. */
  function Receives(i: nat, m: nat): (ops: seq<Op>)
    ensures |ops| == m
  {
    if m == 0 then [] else Receives(i, m - 1) + [Receive(i)]
  }

  /** Each of them takes the oldest line that waits, as long as one does. */
  lemma {:induction false} TakesInTurn(ops: seq<Op>, i: nat, m: nat)
    requires i < |Run(ops).channels| && Run(ops).channels[i].open
    requires m <= |Run(ops).channels[i].queue|
    ensures
      var s, t := Run(ops), Run(ops + Receives(i, m));
      && t.log == s.log && i < |t.channels| && t.channels[i].open
      && t.channels[i].received == s.channels[i].received + s.channels[i].queue[..m]
      && t.channels[i].queue == s.channels[i].queue[m..]
  {
    hide Run;
    if m == 0 {
      assert ops + Receives(i, 0) == ops;
    } else {
      var before, all := ops + Receives(i, m - 1), ops + Receives(i, m);
      TakesInTurn(ops, i, m - 1);
      assert all == before + [Receive(i)];
      assert all[..|before|] == before && all[..|before| + 1] == all;
      RunStep(all, |before|);
      ChannelStep(Run(before), Receive(i), i);
      var queue := Run(ops).channels[i].queue;
      assert queue[..m] == queue[..m - 1] + [queue[m - 1]];
    }
  }

  /**
   Main result: such a subscriber that goes on to receive as many times as lines wait for it has taken everything that
   was broadcast since it joined.
   */
  lemma EverythingArrives(ops: seq<Op>, k: nat, i: nat)
    requires JoinsAt(ops, k, i)
    requires forall j :: k < j < |ops| ==> ops[j] != DropReceiver(i) && !FindsStuck(ops, j, i)
    ensures
      var s, from := Run(ops), |Run(ops[..k]).log|;
      && i < |s.channels| && from <= |s.log|
      && var t := Run(ops + Receives(i, |s.channels[i].queue|));
         i < |t.channels| && t.channels[i].received == s.log[from..] && t.channels[i].queue == []
  {
    hide Run, FindsStuck;
    assert ops[..|ops|] == ops;
    EverythingSinceTheJoin(ops, k, i, |ops|);
    AttachedUntilStuck(ops, k, i, |ops|);
    TakesInTurn(ops, i, |Run(ops).channels[i].queue|);
  }

  // --- A broadcast is one step ------------------------------------------------------

  /** What happens while a broadcast goes through the channels: the next offer, or a subscriber's own operation. */
  datatype Micro = OfferNext | Own(op: Op)

  /** A subscriber's own operation; a new one, or another line, waits for the bus's lock. */
  predicate IsOwn(m: Micro) { m.Own? ==> m.op.Receive? || m.op.DropReceiver? }

  predicate AllOwn(ops: seq<Op>) { forall op :: op in ops ==> op.Receive? || op.DropReceiver? }

  function OwnAt(channels: seq<Channel>, op: Op): (r: seq<Channel>)
    requires op.Receive? || op.DropReceiver?
    ensures |r| == |channels|
  {
    if op.Receive? then TakeAt(channels, op.id) else DropAt(channels, op.id)
  }

  /** The channels and the number already offered the line. */
  function MicroRun(channels: seq<Channel>, ms: seq<Micro>, line: string, sent: nat): (r: (seq<Channel>, nat))
    requires forall m :: m in ms ==> IsOwn(m)
    ensures |r.0| == |channels| && r.1 <= |channels|
  {
    if |ms| == 0 then (channels, 0)
    else
      var (cs, k) := MicroRun(channels, ms[..|ms| - 1], line, sent);
      var m := ms[|ms| - 1];
      assert IsOwn(m) by { assert m in ms; }
      match m
      case OfferNext => if k < |cs| then (cs[k := Offer(cs[k], line, sent)], k + 1) else (cs, k)
      case Own(op) => (OwnAt(cs, op), k)
  }

  function OwnAll(channels: seq<Channel>, ops: seq<Op>): (r: seq<Channel>)
    requires AllOwn(ops)
    ensures |r| == |channels|
  {
    if |ops| == 0 then channels else OwnAt(OwnAll(channels, ops[..|ops| - 1]), ops[|ops| - 1])
  }

  function OfferUpTo(channels: seq<Channel>, k: nat, line: string, sent: nat): (r: seq<Channel>)
    ensures |r| == |channels|
  {
    seq(|channels|, i requires 0 <= i < |channels| => if i < k then Offer(channels[i], line, sent) else channels[i])
  }

  /** Operations on channels other than k leave k alone, and do not notice it. */
  lemma {:induction false} OthersSkip(channels: seq<Channel>, ops: seq<Op>, k: nat, c: Channel)
    requires k < |channels| && forall op :: op in ops ==> (op.Receive? || op.DropReceiver?) && op.id != k
    ensures OwnAll(channels, ops)[k] == channels[k]
    ensures OwnAll(channels[k := c], ops) == OwnAll(channels, ops)[k := c]
  {
    hide Take, Drop;
    if |ops| > 0 {
      OthersSkip(channels, ops[..|ops| - 1], k, c);
    }
  }

  /** One more offer, behind the late operations. */
  lemma OfferStep(channels: seq<Channel>, late: seq<Op>, k: nat, line: string, sent: nat)
    requires k < |channels| && forall op :: op in late ==> (op.Receive? || op.DropReceiver?) && op.id < k
    ensures
      var cs := OwnAll(OfferUpTo(channels, k, line, sent), late);
      cs[k := Offer(cs[k], line, sent)] == OwnAll(OfferUpTo(channels, k + 1, line, sent), late)
  {
    hide Offer, OwnAll;
    var offered := OfferUpTo(channels, k, line, sent);
    OthersSkip(offered, late, k, Offer(channels[k], line, sent));
    assert OfferUpTo(channels, k + 1, line, sent) == offered[k := Offer(channels[k], line, sent)];
  }

  /** One more operation on a channel not yet offered the line goes in front of the broadcast. */
  lemma EarlyStep(channels: seq<Channel>, late: seq<Op>, k: nat, op: Op, line: string, sent: nat)
    requires forall o :: o in late ==> (o.Receive? || o.DropReceiver?) && o.id < k
    requires (op.Receive? || op.DropReceiver?) && op.id >= k
    ensures
      OwnAt(OwnAll(OfferUpTo(channels, k, line, sent), late), op)
      == OwnAll(OfferUpTo(OwnAt(channels, op), k, line, sent), late)
  {
    hide Offer, OwnAll, Take, Drop;
    var offered := OfferUpTo(channels, k, line, sent);
    if op.id < |channels| {
      var c := if op.Receive? then Take(channels[op.id]) else Drop(channels[op.id]);
      OthersSkip(offered, late, op.id, c);
      assert OfferUpTo(OwnAt(channels, op), k, line, sent) == offered[op.id := c];
    } else {
      assert OwnAt(channels, op) == channels;
    }
  }

  /** The receives and hang-ups among the small steps, in their order. */
  function OwnOps(ms: seq<Micro>): (ops: seq<Op>)
    requires forall m :: m in ms ==> IsOwn(m)
    ensures AllOwn(ops)
  {
    if |ms| == 0 then []
    else
      var m := ms[|ms| - 1];
      assert IsOwn(m) by { assert m in ms; }
      OwnOps(ms[..|ms| - 1]) + if m.Own? then [m.op] else []
  }

  /** The list `all` is the two others, each in its own order, shuffled together. */
  predicate Shuffled(all: seq<Op>, first: seq<Op>, second: seq<Op>)
    decreases |all|
  {
    if |all| == 0 then first == [] && second == []
    else
      var front, last := all[..|all| - 1], all[|all| - 1];
      || (|first| > 0 && first[|first| - 1] == last && Shuffled(front, first[..|first| - 1], second))
      || (|second| > 0 && second[|second| - 1] == last && Shuffled(front, first, second[..|second| - 1]))
  }

  lemma LastCounted(ops: seq<Op>)
    requires |ops| > 0
    ensures multiset(ops) == multiset(ops[..|ops| - 1]) + multiset{ops[|ops| - 1]}
  {
    assert ops == ops[..|ops| - 1] + [ops[|ops| - 1]];
  }

  lemma {:induction false} ShuffledCounts(all: seq<Op>, first: seq<Op>, second: seq<Op>)
    requires Shuffled(all, first, second)
    ensures multiset(first) + multiset(second) == multiset(all)
    decreases |all|
  {
    if |all| > 0 {
      var front, last := all[..|all| - 1], all[|all| - 1];
      LastCounted(all);
      if |first| > 0 && first[|first| - 1] == last && Shuffled(front, first[..|first| - 1], second) {
        LastCounted(first);
        ShuffledCounts(front, first[..|first| - 1], second);
      } else {
        LastCounted(second);
        ShuffledCounts(front, first, second[..|second| - 1]);
      }
    }
  }

  lemma OneMoreShuffled(all: seq<Op>, first: seq<Op>, second: seq<Op>, op: Op)
    requires Shuffled(all, first, second)
    ensures Shuffled(all + [op], first + [op], second) && Shuffled(all + [op], first, second + [op])
  {
    assert (all + [op])[..|all|] == all && (first + [op])[..|first|] == first && (second + [op])[..|second|] == second;
  }

  /** The small steps end as the early operations, the offers made so far in one step, and the late operations. */
  ghost predicate AsOneStep(channels: seq<Channel>, ms: seq<Micro>, line: string, sent: nat, early: seq<Op>, late: seq<Op>)
    requires forall m :: m in ms ==> IsOwn(m)
  {
    && AllOwn(early) && AllOwn(late)
    && var r := MicroRun(channels, ms, line, sent);
       && (forall op :: op in late ==> op.id < r.1)
       && r.0 == OwnAll(OfferUpTo(OwnAll(channels, early), r.1, line, sent), late)
  }

  lemma OneMoreOffer(channels: seq<Channel>, ms: seq<Micro>, line: string, sent: nat, early: seq<Op>, late: seq<Op>)
    requires |ms| > 0 && ms[|ms| - 1].OfferNext? && forall m :: m in ms ==> IsOwn(m)
    requires AsOneStep(channels, ms[..|ms| - 1], line, sent, early, late)
    ensures AsOneStep(channels, ms, line, sent, early, late)
  {
    hide Offer, OwnAll, OwnAt, OfferUpTo;
    var (cs, k) := MicroRun(channels, ms[..|ms| - 1], line, sent);
    if k < |cs| { OfferStep(OwnAll(channels, early), late, k, line, sent); }
  }

  lemma OneMoreLate(channels: seq<Channel>, ms: seq<Micro>, line: string, sent: nat, early: seq<Op>, late: seq<Op>, op: Op)
    requires |ms| > 0 && ms[|ms| - 1] == Own(op) && forall m :: m in ms ==> IsOwn(m)
    requires AsOneStep(channels, ms[..|ms| - 1], line, sent, early, late)
    requires (op.Receive? || op.DropReceiver?) && op.id < MicroRun(channels, ms[..|ms| - 1], line, sent).1
    ensures AsOneStep(channels, ms, line, sent, early, late + [op])
  {
    hide Offer, OwnAt, OfferUpTo;
    assert IsOwn(ms[|ms| - 1]);
    assert (late + [op])[..|late|] == late;
  }

  lemma OneMoreEarly(channels: seq<Channel>, ms: seq<Micro>, line: string, sent: nat, early: seq<Op>, late: seq<Op>, op: Op)
    requires |ms| > 0 && ms[|ms| - 1] == Own(op) && forall m :: m in ms ==> IsOwn(m)
    requires AsOneStep(channels, ms[..|ms| - 1], line, sent, early, late)
    requires (op.Receive? || op.DropReceiver?) && op.id >= MicroRun(channels, ms[..|ms| - 1], line, sent).1
    ensures AsOneStep(channels, ms, line, sent, early + [op], late)
  {
    hide Offer, OwnAt, OfferUpTo;
    var (cs, k) := MicroRun(channels, ms[..|ms| - 1], line, sent);
    assert IsOwn(ms[|ms| - 1]);
    assert (early + [op])[..|early|] == early;
    EarlyStep(OwnAll(channels, early), late, k, op, line, sent);
  }

  lemma {:induction false} SplitBroadcast(channels: seq<Channel>, ms: seq<Micro>, line: string, sent: nat)
    returns (early: seq<Op>, late: seq<Op>)
    requires forall m :: m in ms ==> IsOwn(m)
    ensures Shuffled(OwnOps(ms), early, late) && AsOneStep(channels, ms, line, sent, early, late)
  {
    early, late := [], [];
    if |ms| == 0 {
      NothingOffered(channels, line, sent);
    } else {
      hide AsOneStep, MicroRun, Shuffled;
      var front, m := ms[..|ms| - 1], ms[|ms| - 1];
      early, late := SplitBroadcast(channels, front, line, sent);
      match m
      case OfferNext =>
        assert OwnOps(ms) == OwnOps(front) + [] == OwnOps(front);
        OneMoreOffer(channels, ms, line, sent, early, late);
      case Own(op) =>
        assert OwnOps(ms) == OwnOps(front) + [op];
        OneMoreShuffled(OwnOps(front), early, late, op);
        if op.id < MicroRun(channels, front, line, sent).1 {
          OneMoreLate(channels, ms, line, sent, early, late, op);
          late := late + [op];
        } else {
          OneMoreEarly(channels, ms, line, sent, early, late, op);
          early := early + [op];
        }
    }
  }

  /**
   Main result: whatever receives and hang-ups land in the middle of a broadcast, the outcome is that of
   some of them, then the whole broadcast in one step, then the others; each of them happens once, and
   neither part changes their order.
   */
  lemma BroadcastIsOneStep(channels: seq<Channel>, ms: seq<Micro>, line: string, sent: nat)
    returns (early: seq<Op>, late: seq<Op>)
    requires forall m :: m in ms ==> IsOwn(m)
    ensures Shuffled(OwnOps(ms), early, late) && multiset(early) + multiset(late) == multiset(OwnOps(ms))
    ensures AllOwn(early) && AllOwn(late)
    ensures
      var r := MicroRun(channels, ms, line, sent);
      && (forall op :: op in late ==> op.id < r.1)
      && r.0 == OwnAll(OfferUpTo(OwnAll(channels, early), r.1, line, sent), late)
      && (r.1 == |channels| ==> r.0 == OwnAll(OfferFrom(OwnAll(channels, early), 0, line, sent), late))
  {
    hide Shuffled, OwnAll, OfferUpTo, OfferFrom, MicroRun, OwnOps;
    early, late := SplitBroadcast(channels, ms, line, sent);
    ShuffledCounts(OwnOps(ms), early, late);
    AllOffered(OwnAll(channels, early), line, sent);
  }

  lemma NothingOffered(channels: seq<Channel>, line: string, sent: nat)
    ensures OfferUpTo(channels, 0, line, sent) == channels && Shuffled([], [], [])
  {
  }

  lemma AllOffered(channels: seq<Channel>, line: string, sent: nat)
    ensures OfferUpTo(channels, |channels|, line, sent) == OfferFrom(channels, 0, line, sent)
  {
    assert forall i :: 0 <= i < |channels| ==>
             OfferUpTo(channels, |channels|, line, sent)[i] == OfferFrom(channels, 0, line, sent)[i];
  }

  // --- The bus itself ---------------------------------------------------------------

  /** The two ends of a bounded channel: what waits in it and whether the receiver is alive. */
  datatype Pipe = Pipe(queue: seq<string>, open: bool)

  /** `Bus`: the senders it still knows, over the channels ever opened; `view` is the model's account of it. */
  class Bus {
    var senders: seq<nat>
    var pipes: seq<Pipe>
    var quietSince: int
    ghost var view: State
    /** When the bus was made, and the lines and heartbeat claims since. */
    ghost const start: int
    ghost var ticks: seq<Tick>

    ghost predicate Valid()
      reads this
    {
      && |view.channels| == |pipes|
      && (forall i :: 0 <= i < |pipes| ==> view.channels[i].queue == pipes[i].queue && view.channels[i].open == pipes[i].open)
      && (forall k :: 0 <= k < |senders| ==> senders[k] < |pipes|)
      && (forall k, l :: 0 <= k < l < |senders| ==> senders[k] != senders[l])
      && (forall i: nat :: i < |pipes| ==> (view.channels[i].attached <==> i in senders))
      && quietSince == QuietAfter(start, ticks)
    }

    constructor (now: int)
      ensures Valid() && view == Run([]) && start == now && ticks == []
    {
      senders, pipes, quietSince, view, start, ticks := [], [], now, State([], []), now, [];
    }

    /** `subscribe`. */
    method Join() returns (id: nat)
      requires Valid()
      modifies this`senders, this`pipes, this`view
      ensures Valid() && view == Step(old(view), Op.Subscribe) && id == |old(view).channels|
      ensures senders == old(senders) + [id] && pipes == old(pipes) + [Pipe([], true)]
    {
      id := |pipes|;
      assert forall i: nat :: i in senders + [id] <==> i in senders || i == id;
      assert id !in senders;
      senders := senders + [id];
      pipes := pipes + [Pipe([], true)];
      view := Step(view, Op.Subscribe);
    }

    /** `broadcast`: offer the line to every sender, keep those that took it, restart the quiet period. */
    method Send(line: string, now: int)
      requires Valid()
      modifies this
      ensures Valid() && view == Step(old(view), Op.Broadcast(line))
      ensures ticks == old(ticks) + [Tick(now, false)] && quietSince == now
    {
      var kept: seq<nat>, k := [], 0;
      ghost var sent := |view.log|;
      while k < |senders|
        invariant k <= |senders| && senders == old(senders) && |pipes| == |old(pipes)| && view == old(view)
        invariant quietSince == old(quietSince) && ticks == old(ticks)
        invariant forall a :: 0 <= a < |kept| ==> kept[a] < |pipes|
        invariant forall i: nat :: i < |pipes| && i !in senders[..k] ==> pipes[i] == old(pipes)[i]
        invariant forall i: nat :: i < |pipes| && i in senders[..k] ==>
                    pipes[i] == TrySend(old(pipes)[i], line)
                    && (i in kept <==> old(pipes)[i].open && |old(pipes)[i].queue| < QUEUE)
        invariant forall i: nat :: i in kept ==> i in senders[..k]
        invariant forall a, b :: 0 <= a < b < |kept| ==> kept[a] != kept[b]
      {
        var id := senders[k];
        assert id !in senders[..k];
        assert senders[..k + 1] == senders[..k] + [id];
        if pipes[id].open && |pipes[id].queue| < QUEUE {
          kept := kept + [id];
        }
        pipes := pipes[id := TrySend(pipes[id], line)];
        k := k + 1;
      }
      assert senders[..k] == senders;
      senders := kept;
      quietSince := now;
      OneMoreTick(start, ticks, Tick(now, false));
      ticks := ticks + [Tick(now, false)];
      view := Step(view, Op.Broadcast(line));
      AfterSend(old(view), old(senders), old(pipes), kept, pipes, line, view);
    }

    /** The receiver's end: take the oldest waiting line. */
    method Recv(id: nat) returns (line: Option<string>)
      requires Valid() && id < |pipes|
      modifies this`pipes, this`view
      ensures Valid() && view == Step(old(view), Op.Receive(id))
      ensures line == if old(pipes)[id].open && |old(pipes)[id].queue| > 0 then Some(old(pipes)[id].queue[0]) else None
    {
      line := None;
      if pipes[id].open && |pipes[id].queue| > 0 {
        line := Some(pipes[id].queue[0]);
        pipes := pipes[id := pipes[id].(queue := pipes[id].queue[1..])];
      }
      view := Step(view, Op.Receive(id));
    }

    /** The connection ends: the receiver is dropped with whatever waits in it. */
    method Hangup(id: nat)
      requires Valid() && id < |pipes|
      modifies this`pipes, this`view
      ensures Valid() && view == Step(old(view), Op.DropReceiver(id))
    {
      pipes := pipes[id := Pipe([], false)];
      view := Step(view, Op.DropReceiver(id));
    }

    /** `claim_heartbeat`: it succeeds exactly when the claim wins among all the ticks since the start. */
    method ClaimHeartbeat(now: int) returns (claimed: bool)
      requires Valid()
      modifies this`quietSince, this`ticks
      ensures Valid() && ticks == old(ticks) + [Tick(now, true)]
      ensures claimed == Wins(start, ticks, |old(ticks)|)
      ensures quietSince == if claimed then now else old(quietSince)
    {
      OneMoreTick(start, ticks, Tick(now, true));
      ticks := ticks + [Tick(now, true)];
      if now - quietSince < HEARTBEAT_QUIET {
        return false;
      }
      quietSince := now;
      claimed := true;
    }
  }

  /** `try_send` on the pipe itself. */
  function TrySend(p: Pipe, line: string): Pipe
  {
    if p.open && |p.queue| < QUEUE then p.(queue := p.queue + [line]) else p
  }

  lemma AfterSend(before: State, senders: seq<nat>, pipes: seq<Pipe>, kept: seq<nat>, after: seq<Pipe>, line: string, view: State)
    requires view == Step(before, Op.Broadcast(line))
    requires |before.channels| == |pipes| == |after|
    requires forall i :: 0 <= i < |pipes| ==> before.channels[i].queue == pipes[i].queue && before.channels[i].open == pipes[i].open
    requires forall i: nat :: i < |pipes| ==> (before.channels[i].attached <==> i in senders)
    requires forall i: nat :: i < |pipes| && i !in senders ==> after[i] == pipes[i] && i !in kept
    requires forall i: nat :: i < |pipes| && i in senders ==>
               after[i] == TrySend(pipes[i], line) && (i in kept <==> pipes[i].open && |pipes[i].queue| < QUEUE)
    ensures |view.channels| == |after|
    ensures forall i :: 0 <= i < |after| ==> view.channels[i].queue == after[i].queue && view.channels[i].open == after[i].open
    ensures forall i: nat :: i < |after| ==> (view.channels[i].attached <==> i in kept)
  {
    forall i: nat | i < |after|
      ensures view.channels[i].queue == after[i].queue && view.channels[i].open == after[i].open
      ensures view.channels[i].attached <==> i in kept
    {
      assert view.channels[i] == Offer(before.channels[i], line, |before.log|);
    }
  }

  // --- Heartbeats ---------------------------------------------------------------------

  /** A moment at which a heartbeat is claimed, or a line is sent. */
  datatype Tick = Tick(now: int, claim: bool)

  /** The quiet clock after a tick, and whether the tick was a claim that won. */
  function Beat(quiet: int, tick: Tick): (int, bool)
  {
    if !tick.claim then (tick.now, false)
    else if tick.now - quiet < HEARTBEAT_QUIET then (quiet, false)
    else (tick.now, true)
  }

  function QuietAfter(start: int, ticks: seq<Tick>): int
  {
    if |ticks| == 0 then start else Beat(QuietAfter(start, ticks[..|ticks| - 1]), ticks[|ticks| - 1]).0
  }

  lemma OneMoreTick(start: int, ticks: seq<Tick>, tick: Tick)
    ensures QuietAfter(start, ticks + [tick]) == Beat(QuietAfter(start, ticks), tick).0
    ensures Wins(start, ticks + [tick], |ticks|) == Beat(QuietAfter(start, ticks), tick).1
  {
    assert (ticks + [tick])[..|ticks|] == ticks;
  }

  predicate Wins(start: int, ticks: seq<Tick>, k: nat)
    requires k < |ticks|
  {
    Beat(QuietAfter(start, ticks[..k]), ticks[k]).1
  }

  /**
   Main result: a claim that wins is at least 30 s after every earlier winning claim and every
   earlier line, however many connections are asking.
   */
  lemma HeartbeatsAreSpaced(start: int, ticks: seq<Tick>, i: nat, j: nat)
    requires i < j < |ticks| && forall a, b :: 0 <= a < b < |ticks| ==> ticks[a].now <= ticks[b].now
    requires Wins(start, ticks, j) && (Wins(start, ticks, i) || !ticks[i].claim)
    ensures ticks[j].now - ticks[i].now >= 30
  {
    assert ticks[..i + 1][..i] == ticks[..i];
    QuietMovesOn(start, ticks, i + 1, j);
  }

  lemma {:induction false} QuietMovesOn(start: int, ticks: seq<Tick>, i: nat, j: nat)
    requires 0 < i <= j <= |ticks| && forall a, b :: 0 <= a < b < |ticks| ==> ticks[a].now <= ticks[b].now
    requires QuietAfter(start, ticks[..i]) <= ticks[i - 1].now
    ensures QuietAfter(start, ticks[..i]) <= QuietAfter(start, ticks[..j]) <= ticks[j - 1].now
    decreases j
  {
    if i < j {
      assert ticks[..j][..j - 1] == ticks[..j - 1];
      QuietMovesOn(start, ticks, i, j - 1);
    }
  }
}
