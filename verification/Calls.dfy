/** dbus.go's method calls: any number of goroutines that send messages under the write lock, the
    table of pending replies, and the dispatcher. */
module Calls {
  import opened Bytes
  import opened RoundTrip
  import opened MessageModule

  /** A reply from the peer: the serial it carries, and the call it answers. */
  datatype Reply = Reply(serial: nat, to: nat)

  /** A reply on its way into the channel of a call. */
  datatype Delivery = Delivery(channel: nat, reply: Reply)

  /** Locked: holding the write lock. Half: the header is written. Whole: the body too, but WriteTo
      has not returned. Waiting: lock released, reading from the reply channel. Broken: a write
      failed, the lock is released. Failed: the error is returned. Sent: Send is done. */
  datatype Stage =
    | Issued | Registered | Locked | Half | Whole | Waiting | Broken | Failed | Answered(reply: Reply) | Sent

  /** A call of Send or SendWithReply; inbox is its reply channel. */
  datatype Call = Call(msg: Msg, wantsReply: bool, stage: Stage, inbox: seq<Reply>)

  /** hand: the reply the dispatcher took out of the table and is about to pass on. order: the
      calls whose message was written, in that order. torn: a failed write left something on the
      wire. answered: the calls the peer answered. */
  datatype State = State(
    lastSerial: nat, pending: map<nat, nat>, calls: seq<Call>, lock: Option<nat>,
    queue: seq<Reply>, hand: Option<Delivery>,
    wire: seq<byte>, order: seq<nat>, torn: bool, answered: set<nat>)

  const INITIAL: State := State(0, map[], [], None, [], None, [], [], false, {})

  /** The critical sections and the single writes of all these goroutines. */
  datatype Step =
    | Issue(msg: Msg, wantsReply: bool)
    | Register(k: nat)
    | Lock(k: nat)
    | WriteHeader(k: nat)
    | WriteBody(k: nat)
    | Release(k: nat)
    | FailWrite(k: nat, n: nat)
    | Unregister(k: nat)
    | PeerAnswers(k: nat)
    | TakeReply
    | Deliver
    | Collect(k: nat)

  /** nextSerial. */
  function NextSerial(last: nat): nat {
    (last + 1) % WORD
  }

  /** WriteTo is running, under the write lock. */
  predicate Writing(c: Call) {
    c.stage == Locked || c.stage == Half || c.stage == Whole
  }

  /** What a write still has to put on the wire. */
  ghost function Chunk(c: Call): seq<byte> {
    if c.stage == Locked && HasSerials(c.msg) then HeaderBytes(c.msg) else if c.stage == Half then c.msg.body else []
  }

  /** The peer may have read the message: all of it was written, or a write failed somewhere. An
      empty body leaves nothing to write after the header. */
  predicate OnWire(c: Call) {
    || (c.stage == Half && c.msg.body == [])
    || c.stage == Whole || c.stage == Waiting || c.stage == Broken || c.stage == Failed || c.stage == Sent
  }

  ghost predicate Enabled(s: State, step: Step) {
    match step
    case Issue(msg, wantsReply) =>
      Sendable(msg.(serial := NextSerial(s.lastSerial))) && (wantsReply ==> msg.kind == TYPE_METHOD_CALL)
    case Register(k) => k < |s.calls| && s.calls[k].stage == Issued && s.calls[k].wantsReply
    case Lock(k) =>
      && k < |s.calls| && s.lock == None
      && s.calls[k].stage == (if s.calls[k].wantsReply then Registered else Issued)
    case WriteHeader(k) => k < |s.calls| && s.calls[k].stage == Locked && HasSerials(s.calls[k].msg)
    case WriteBody(k) => k < |s.calls| && s.calls[k].stage == Half
    case Release(k) => k < |s.calls| && s.calls[k].stage == Whole
    case FailWrite(k, n) => k < |s.calls| && Writing(s.calls[k]) && n <= |Chunk(s.calls[k])|
    case Unregister(k) => k < |s.calls| && s.calls[k].stage == Broken
    case PeerAnswers(k) => k < |s.calls| && k !in s.answered && OnWire(s.calls[k])
    case TakeReply => s.queue != [] && s.hand == None
    case Deliver => s.hand.Some? && s.hand.value.channel < |s.calls|
    case Collect(k) => k < |s.calls| && s.calls[k].stage == Waiting && s.calls[k].inbox != []
  }

  function Moved(s: State, k: nat, stage: Stage): State
    requires k < |s.calls|
  {
    s.(calls := s.calls[k := s.calls[k].(stage := stage)])
  }

  ghost function Take(s: State, step: Step): State
    requires Enabled(s, step)
  {
    match step
    case Issue(msg, wantsReply) =>
      var serial := NextSerial(s.lastSerial);
      s.(lastSerial := serial, calls := s.calls + [Call(msg.(serial := serial), wantsReply, Issued, [])])
    case Register(k) => Moved(s, k, Registered).(pending := s.pending[s.calls[k].msg.serial := k])
    case Lock(k) => Moved(s, k, Locked).(lock := Some(k))
    case WriteHeader(k) => Moved(s, k, Half).(wire := s.wire + HeaderBytes(s.calls[k].msg))
    case WriteBody(k) => Moved(s, k, Whole).(wire := s.wire + s.calls[k].msg.body, order := s.order + [k])
    case Release(k) => Moved(s, k, if s.calls[k].wantsReply then Waiting else Sent).(lock := None)
    case FailWrite(k, n) =>
      Moved(s, k, if s.calls[k].wantsReply then Broken else Failed)
        .(wire := s.wire + Chunk(s.calls[k])[..n], lock := None,
          torn := s.torn || s.calls[k].stage == Half || n > 0)
    case Unregister(k) => Moved(s, k, Failed).(pending := s.pending - {s.calls[k].msg.serial})
    case PeerAnswers(k) =>
      s.(queue := s.queue + [Reply(s.calls[k].msg.serial, k)], answered := s.answered + {k})
    case TakeReply =>
      var r, rest := s.queue[0], s.(queue := s.queue[1..]);
      if r.serial in s.pending
      then rest.(pending := s.pending - {r.serial}, hand := Some(Delivery(s.pending[r.serial], r)))
      else rest
    case Deliver =>
      var k := s.hand.value.channel;
      s.(hand := None, calls := s.calls[k := s.calls[k].(inbox := s.calls[k].inbox + [s.hand.value.reply])])
    case Collect(k) =>
      s.(calls := s.calls[k := s.calls[k].(stage := Answered(s.calls[k].inbox[0]), inbox := s.calls[k].inbox[1..])])
  }

  ghost predicate Run(s: State, steps: seq<Step>, t: State)
    decreases |steps|
  {
    if steps == [] then s == t else Enabled(s, steps[0]) && Run(Take(s, steps[0]), steps[1..], t)
  }

  // ---------------------------------------------------------------- correlation

  /** How many replies to a call a queue holds. */
  ghost function Queued(q: seq<Reply>, k: nat): nat {
    if q == [] then 0 else (if q[0].to == k then 1 else 0) + Queued(q[1..], k)
  }

  lemma {:induction false} QueuedAppended(q: seq<Reply>, r: Reply, k: nat)
    ensures Queued(q + [r], k) == Queued(q, k) + if r.to == k then 1 else 0
    decreases |q|
  {
    if q == [] {
      assert (q + [r])[1..] == [];
    } else {
      assert (q + [r])[1..] == q[1..] + [r];
      QueuedAppended(q[1..], r, k);
    }
  }

  ghost predicate InHand(s: State, k: nat) {
    s.hand.Some? && s.hand.value.channel == k
  }

  /** How many replies to a call there are between the peer and the caller's hands. */
  ghost function Copies(s: State, k: nat): nat
    requires k < |s.calls|
  {
    Queued(s.queue, k) + (if InHand(s, k) then 1 else 0) + |s.calls[k].inbox|
      + if s.calls[k].stage.Answered? then 1 else 0
  }

  /** The call will read its channel, unless a write fails. */
  predicate Committed(c: Call) {
    c.stage == Half || c.stage == Whole || c.stage == Waiting
  }

  predicate Listening(c: Call) {
    c.stage == Registered || c.stage == Locked || c.stage == Broken || Committed(c)
  }

  ghost predicate CallOk(s: State, k: nat)
    requires k < |s.calls|
  {
    var c := s.calls[k];
    && c.msg.serial == k + 1
    && (c.stage == Sent ==> !c.wantsReply)
    && (c.stage == Registered || c.stage == Waiting || c.stage == Broken || c.stage.Answered? ==> c.wantsReply)
    && (k in s.answered ==> OnWire(c) || c.stage.Answered?)
    && Copies(s, k) <= (if k in s.answered then 1 else 0)
    && (k in s.answered && c.wantsReply && (Committed(c) || c.stage.Answered?) ==> Copies(s, k) == 1)
    && (k + 1 in s.pending <==> c.wantsReply && Listening(c) && !InHand(s, k) && c.inbox == [])
    && (!c.wantsReply ==> !InHand(s, k) && c.inbox == [])
    && (forall r :: r in c.inbox ==> r == Reply(k + 1, k))
    && (c.stage.Answered? ==> c.stage.reply == Reply(k + 1, k))
  }

  ghost predicate Inv(s: State) {
    && s.lastSerial == |s.calls|
    && (forall k :: 0 <= k < |s.calls| ==> CallOk(s, k))
    && (forall p :: p in s.pending ==> 1 <= p <= |s.calls| && s.pending[p] == p - 1)
    && (forall r :: r in s.queue ==> r.serial == r.to + 1 && r.to < |s.calls|)
    && (s.hand.Some? ==>
          s.hand.value.channel < |s.calls|
            && s.hand.value.reply == Reply(s.hand.value.channel + 1, s.hand.value.channel))
    && (forall k :: k in s.answered ==> k < |s.calls|)
  }

  lemma NotQueued(s: State, k: nat)
    requires (forall r :: r in s.queue ==> r.to < k)
    ensures Queued(s.queue, k) == 0
    decreases |s.queue|
  {
    if s.queue != [] {
      NotQueued(s.(queue := s.queue[1..]), k);
    }
  }

  lemma IssueKeeps(s: State, msg: Msg, wantsReply: bool)
    requires Inv(s) && Enabled(s, Issue(msg, wantsReply)) && |s.calls| + 1 < WORD
    ensures Inv(Take(s, Issue(msg, wantsReply)))
  {
    hide Queued, Sendable;
    var t := Take(s, Issue(msg, wantsReply));
    NotQueued(s, |s.calls|);
    forall k | 0 <= k < |t.calls| ensures CallOk(t, k) {
      if k < |s.calls| { assert CallOk(s, k); }
    }
  }

  /** A call changes stage while queue, hand, inbox and table stay: it goes on listening or not
      listening, and never goes back to where the peer could not have answered. */
  lemma StageKeeps(s: State, t: State, k: nat)
    requires Inv(s) && k < |s.calls| && |t.calls| == |s.calls|
    requires t.calls == s.calls[k := s.calls[k].(stage := t.calls[k].stage)]
    requires t.lastSerial == s.lastSerial && t.pending == s.pending && t.queue == s.queue && t.hand == s.hand
    requires t.answered == s.answered
    requires var c, d := s.calls[k], t.calls[k];
      && !c.stage.Answered? && !d.stage.Answered? && (d.stage == Sent ==> !c.wantsReply)
      && (c.wantsReply ==> Listening(c) == Listening(d))
      && (d.stage == Registered || d.stage == Waiting || d.stage == Broken ==> c.wantsReply)
      && (OnWire(c) ==> OnWire(d) && (c.wantsReply && Committed(d) ==> Committed(c)))
    ensures Inv(t)
  {
    hide Queued, OnWire, Committed, Listening;
    assert CallOk(s, k);
    forall j | 0 <= j < |t.calls| ensures CallOk(t, j) {
      assert CallOk(s, j);
    }
  }

  lemma CallKeeps(s: State, step: Step, k: nat)
    requires Inv(s) && Enabled(s, step)
    requires step == Lock(k) || step == WriteHeader(k) || step == WriteBody(k)
          || step == Release(k) || (step.FailWrite? && step.k == k)
    ensures Inv(Take(s, step))
  {
    hide Inv, HeaderBytes, Chunk;
    StageKeeps(s, Take(s, step), k);
  }

  lemma RegisterKeeps(s: State, k: nat)
    requires Inv(s) && Enabled(s, Register(k))
    ensures Inv(Take(s, Register(k)))
  {
    hide Queued, HeaderBytes, Chunk, Sendable;
    var t := Take(s, Register(k));
    assert CallOk(s, k);
    forall j | 0 <= j < |t.calls| ensures CallOk(t, j) {
      assert CallOk(s, j);
    }
  }

  lemma UnregisterKeeps(s: State, k: nat)
    requires Inv(s) && Enabled(s, Unregister(k))
    ensures Inv(Take(s, Unregister(k)))
  {
    hide Queued, HeaderBytes, Chunk, Sendable;
    var t := Take(s, Unregister(k));
    assert CallOk(s, k);
    forall j | 0 <= j < |t.calls| ensures CallOk(t, j) {
      assert CallOk(s, j);
    }
  }

  lemma AnswerKeeps(s: State, k: nat)
    requires Inv(s) && Enabled(s, PeerAnswers(k))
    ensures Inv(Take(s, PeerAnswers(k)))
  {
    hide Queued;
    var t := Take(s, PeerAnswers(k));
    assert CallOk(s, k);
    forall j | 0 <= j < |t.calls| ensures CallOk(t, j) {
      assert CallOk(s, j);
      QueuedAppended(s.queue, Reply(s.calls[k].msg.serial, k), j);
    }
  }

  lemma TakeReplyKeeps(s: State)
    requires Inv(s) && Enabled(s, TakeReply)
    ensures Inv(Take(s, TakeReply))
  {
    hide Queued, OnWire, Committed, HeaderBytes, Sendable;
    var t := Take(s, TakeReply);
    var r := s.queue[0];
    assert CallOk(s, r.to);
    forall j | 0 <= j < |t.calls| ensures CallOk(t, j) {
      assert CallOk(s, j);
      QueuedHead(s.queue, j);
    }
    assert forall x :: x in t.queue ==> x in s.queue;
  }

  lemma QueuedHead(q: seq<Reply>, k: nat)
    requires q != []
    ensures Queued(q, k) == (if q[0].to == k then 1 else 0) + Queued(q[1..], k)
  {
  }

  lemma DeliverKeeps(s: State)
    requires Inv(s) && Enabled(s, Deliver)
    ensures Inv(Take(s, Deliver))
  {
    hide Queued;
    var t := Take(s, Deliver);
    assert CallOk(s, s.hand.value.channel);
    forall j | 0 <= j < |t.calls| ensures CallOk(t, j) {
      assert CallOk(s, j);
    }
  }

  lemma CollectKeeps(s: State, k: nat)
    requires Inv(s) && Enabled(s, Collect(k))
    ensures Inv(Take(s, Collect(k)))
  {
    hide Queued;
    var t := Take(s, Collect(k));
    assert CallOk(s, k);
    assert s.calls[k].inbox[0] in s.calls[k].inbox;
    forall j | 0 <= j < |t.calls| ensures CallOk(t, j) {
      assert CallOk(s, j);
    }
  }

  lemma StepKeeps(s: State, step: Step)
    requires Inv(s) && Enabled(s, step) && |Take(s, step).calls| < WORD
    ensures Inv(Take(s, step))
  {
    hide Inv, Sendable, HeaderBytes;
    match step
    case Issue(msg, wantsReply) => IssueKeeps(s, msg, wantsReply);
    case PeerAnswers(k) => AnswerKeeps(s, k);
    case TakeReply => TakeReplyKeeps(s);
    case Deliver => DeliverKeeps(s);
    case Collect(k) => CollectKeeps(s, k);
    case Register(k) => RegisterKeeps(s, k);
    case Lock(k) => CallKeeps(s, step, k);
    case WriteHeader(k) => CallKeeps(s, step, k);
    case WriteBody(k) => CallKeeps(s, step, k);
    case Release(k) => CallKeeps(s, step, k);
    case FailWrite(k, n) => CallKeeps(s, step, k);
    case Unregister(k) => UnregisterKeeps(s, k);
  }

  lemma CallsGrow(s: State, step: Step)
    requires Enabled(s, step)
    ensures |s.calls| <= |Take(s, step).calls|
  {
    hide Sendable, HeaderBytes;
  }

  lemma {:induction false} RunKeeps(s: State, steps: seq<Step>, t: State)
    requires Inv(s) && Run(s, steps, t) && |t.calls| < WORD
    ensures Inv(t)
    decreases |steps|
  {
    hide Inv, Enabled, Take;
    if steps != [] {
      RunGrows(Take(s, steps[0]), steps[1..], t);
      StepKeeps(s, steps[0]);
      RunKeeps(Take(s, steps[0]), steps[1..], t);
    }
  }

  lemma {:induction false} RunGrows(s: State, steps: seq<Step>, t: State)
    requires Run(s, steps, t)
    ensures |s.calls| <= |t.calls|
    decreases |steps|
  {
    hide Enabled, Take;
    if steps != [] {
      RunGrows(Take(s, steps[0]), steps[1..], t);
      CallsGrow(s, steps[0]);
    }
  }

  /** In every run with fewer than 2^32 serials issued: a caller that got a reply got the reply to
      its own call, and its serial is nobody else's. */
  lemma RepliesCorrelated(steps: seq<Step>, t: State, k: nat, l: nat)
    requires Run(INITIAL, steps, t) && |t.calls| < WORD && k < |t.calls| && l < |t.calls|
    ensures t.calls[k].msg.serial != 0
    ensures t.calls[k].msg.serial == t.calls[l].msg.serial <==> k == l
    ensures t.calls[k].stage.Answered? ==> k in t.answered && t.calls[k].stage.reply == Reply(t.calls[k].msg.serial, k)
  {
    hide Run, Queued;
    RunKeeps(INITIAL, steps, t);
    assert CallOk(t, k) && CallOk(t, l);
    if t.calls[k].stage.Answered? { assert Copies(t, k) >= 1; }
  }

  /** No reply is lost. From the moment the peer can answer, even before the write returns, the one
      reply to an answered call is in the queue, in the dispatcher's hands or in the channel, until
      the caller has it; when the dispatcher has nothing left to do it is in the channel. Only the
      reply to a call whose write failed may be dropped. */
  lemma NoReplyLost(steps: seq<Step>, t: State, k: nat)
    requires Run(INITIAL, steps, t) && |t.calls| < WORD && k < |t.calls| && k in t.answered && t.calls[k].wantsReply
    ensures Committed(t.calls[k]) || t.calls[k].stage.Answered? || t.calls[k].stage == Broken
        || t.calls[k].stage == Failed
    ensures Committed(t.calls[k]) ==>
      Queued(t.queue, k) + (if InHand(t, k) then 1 else 0) + |t.calls[k].inbox| == 1
    ensures Committed(t.calls[k]) && t.queue == [] && t.hand == None ==>
      t.calls[k].inbox == [Reply(t.calls[k].msg.serial, k)]
    ensures t.calls[k].stage == Waiting && t.queue == [] && t.hand == None ==> Enabled(t, Collect(k))
    ensures t.calls[k].stage.Answered? ==> Queued(t.queue, k) == 0 && !InHand(t, k) && t.calls[k].inbox == []
  {
    hide Run;
    RunKeeps(INITIAL, steps, t);
    assert CallOk(t, k);
    if Committed(t.calls[k]) && t.queue == [] && t.hand == None {
      assert t.calls[k].inbox[0] in t.calls[k].inbox;
    }
  }

  /** A reply to a message that was sent without waiting for one finds no channel: it is dropped,
      and reaches no other caller, whose channel only ever holds the reply to its own call. */
  lemma StrayReplyDropped(steps: seq<Step>, t: State, k: nat, l: nat)
    requires Run(INITIAL, steps, t) && |t.calls| < WORD && k in t.answered && l < |t.calls|
    ensures k < |t.calls|
    ensures !t.calls[k].wantsReply ==>
      !InHand(t, k) && t.calls[k].inbox == [] && !t.calls[k].stage.Answered? && t.calls[k].msg.serial !in t.pending
    ensures forall r :: r in t.calls[l].inbox ==> r == Reply(t.calls[l].msg.serial, l) && t.calls[l].wantsReply
    ensures InHand(t, l) ==> t.hand.value.reply == Reply(t.calls[l].msg.serial, l) && t.calls[l].wantsReply
  {
    hide Run, Queued;
    RunKeeps(INITIAL, steps, t);
    assert CallOk(t, k) && CallOk(t, l);
  }

  /** No channel ever holds more than the one message it has room for, and the dispatcher never
      waits for room: what it is about to deliver finds the channel empty. */
  lemma DispatcherNeverBlocks(steps: seq<Step>, t: State, k: nat)
    requires Run(INITIAL, steps, t) && |t.calls| < WORD && k < |t.calls|
    ensures |t.calls[k].inbox| <= 1
    ensures InHand(t, k) ==> t.calls[k].inbox == [] && Enabled(t, Deliver)
  {
    hide Run;
    RunKeeps(INITIAL, steps, t);
    assert CallOk(t, k);
  }

  /** Nothing gets stuck: in every run a call that is not over can take its next step, succeed or
      fail, unless it waits for its reply or for the holder of the lock; and the dispatcher can take
      its next step while there are replies. */
  lemma NothingStuck(steps: seq<Step>, t: State, k: nat)
    requires Run(INITIAL, steps, t) && |t.calls| < WORD && k < |t.calls|
    ensures var c := t.calls[k];
      && (c.stage == Issued && c.wantsReply ==> Enabled(t, Register(k)))
      && ((if c.wantsReply then c.stage == Registered else c.stage == Issued) && t.lock == None ==> Enabled(t, Lock(k)))
      && (c.stage == Locked ==> Enabled(t, WriteHeader(k)) && Enabled(t, FailWrite(k, 0)))
      && (c.stage == Half ==> Enabled(t, WriteBody(k)) && Enabled(t, FailWrite(k, |c.msg.body|)))
      && (c.stage == Whole ==> Enabled(t, Release(k)) && Enabled(t, FailWrite(k, 0)))
      && (c.stage == Broken ==> Enabled(t, Unregister(k)))
    ensures t.lock.Some? ==>
      var h := t.lock.value;
      h < |t.calls| && (Enabled(t, WriteHeader(h)) || Enabled(t, WriteBody(h)) || Enabled(t, Release(h)))
    ensures t.hand.Some? ==> Enabled(t, Deliver)
    ensures t.hand == None && t.queue != [] ==> Enabled(t, TakeReply)
  {
    hide Run, Queued, HeaderBytes, Stream, Messages, Written, Partial, CallOk, Sendable;
    InitialWire();
    RunWire(INITIAL, steps, t);
    RunKeeps(INITIAL, steps, t);
    Serials(t);
  }

  lemma Serials(t: State)
    requires LockInv(t)
    ensures forall k :: 0 <= k < |t.calls| ==> HasSerials(t.calls[k].msg)
  {
    hide HeaderBytes;
  }

  // ---------------------------------------------------------------- serials

  ghost predicate Numbered(s: State) {
    s.lastSerial == |s.calls| % WORD && forall k :: 0 <= k < |s.calls| ==> s.calls[k].msg.serial == (k + 1) % WORD
  }

  lemma StepNumbers(s: State, step: Step)
    requires Numbered(s) && Enabled(s, step)
    ensures Numbered(Take(s, step))
  {
    hide Sendable, HeaderBytes;
  }

  lemma {:induction false} RunNumbers(s: State, steps: seq<Step>, t: State)
    requires Numbered(s) && Run(s, steps, t)
    ensures Numbered(t)
    decreases |steps|
  {
    hide Numbered, Enabled, Take;
    if steps != [] {
      StepNumbers(s, steps[0]);
      RunNumbers(Take(s, steps[0]), steps[1..], t);
    }
  }

  ghost predicate SerialsGood(s: State) {
    && (forall k :: 0 <= k < |s.calls| ==> s.calls[k].msg.serial != 0)
    && (forall k, l :: 0 <= k < l < |s.calls| ==> s.calls[k].msg.serial != s.calls[l].msg.serial)
  }

  /** The bound on the number of serials is exact: the counter wraps to 0. */
  lemma SerialsGoodExactly(steps: seq<Step>, t: State)
    requires Run(INITIAL, steps, t)
    ensures SerialsGood(t) <==> |t.calls| < WORD
  {
    hide Run;
    RunNumbers(INITIAL, steps, t);
    if |t.calls| >= WORD {
      assert t.calls[WORD - 1].msg.serial == 0;
    }
  }

  // ---------------------------------------------------------------- the wire

  ghost function Messages(s: State, order: seq<nat>): (r: seq<Msg>)
    requires forall i :: 0 <= i < |order| ==> order[i] < |s.calls|
    ensures |r| == |order| && forall i :: 0 <= i < |r| ==> r[i] == s.calls[order[i]].msg
  {
    seq(|order|, i requires 0 <= i < |order| => s.calls[order[i]].msg)
  }

  ghost predicate Unfinished(c: Call) {
    c.stage == Issued || c.stage == Registered || c.stage == Locked || c.stage == Half
  }

  ghost predicate WrittenWhole(c: Call) {
    c.stage == Whole || c.stage == Waiting || c.stage == Sent || c.stage.Answered?
  }

  /** Only the holder of the lock is writing, and only whole messages are listed. */
  ghost predicate LockInv(s: State) {
    && (forall k :: 0 <= k < |s.calls| ==> Sendable(s.calls[k].msg))
    && (forall k :: 0 <= k < |s.calls| ==> (Writing(s.calls[k]) <==> s.lock == Some(k)))
    && (s.lock.Some? ==> s.lock.value < |s.calls|)
    && (s.calls == [] ==> s.order == [])
    && (forall i :: 0 <= i < |s.order| ==> s.order[i] < |s.calls|)
    && (forall i :: 0 <= i < |s.order| ==> !Unfinished(s.calls[s.order[i]]))
    && (forall i, j :: 0 <= i < j < |s.order| ==> s.order[i] != s.order[j])
    && (forall k :: 0 <= k < |s.calls| && WrittenWhole(s.calls[k]) ==> k in s.order)
  }

  /** What the holder of the lock has written so far. */
  ghost function Partial(s: State): seq<byte>
    requires LockInv(s)
  {
    if s.lock.Some? && s.calls[s.lock.value].stage == Half then HeaderBytes(s.calls[s.lock.value].msg) else []
  }

  ghost predicate WireInv(s: State) {
    LockInv(s) && (!s.torn ==> s.wire == Stream(Messages(s, s.order)) + Partial(s))
  }

  lemma {:induction false} StreamAppended(ms: seq<Msg>, m: Msg)
    requires Sendable(m) && forall i :: 0 <= i < |ms| ==> Sendable(ms[i])
    ensures Stream(ms + [m]) == Stream(ms) + Written(m)
  {
    hide Sendable, Written;
    if ms == [] {
      assert Stream([m][1..]) == [];
      assert ms + [m] == [m];
    } else {
      assert (ms + [m])[1..] == ms[1..] + [m];
      StreamAppended(ms[1..], m);
    }
  }

  lemma LockTaken(s: State, k: nat)
    requires LockInv(s) && Enabled(s, Lock(k))
    ensures LockInv(Take(s, Lock(k)))
  {
    hide Sendable, HeaderBytes, Chunk;
    assert Take(s, Lock(k)).calls == s.calls[k := s.calls[k].(stage := Locked)];
  }

  lemma ReleaseLock(s: State, k: nat)
    requires LockInv(s) && Enabled(s, Release(k))
    ensures LockInv(Take(s, Release(k)))
  {
    hide Sendable, HeaderBytes, Chunk;
    var t := Take(s, Release(k));
    assert t.calls == s.calls[k := s.calls[k].(stage := t.calls[k].stage)];
  }

  lemma FailLock(s: State, k: nat, n: nat)
    requires LockInv(s) && Enabled(s, FailWrite(k, n))
    ensures LockInv(Take(s, FailWrite(k, n)))
  {
    hide Sendable, HeaderBytes, Chunk;
    var t := Take(s, FailWrite(k, n));
    assert t.calls == s.calls[k := s.calls[k].(stage := t.calls[k].stage)];
  }

  lemma BodyLock(s: State, k: nat)
    requires LockInv(s) && Enabled(s, WriteBody(k))
    ensures LockInv(Take(s, WriteBody(k)))
  {
    hide Sendable, HeaderBytes, Chunk;
    var t := Take(s, WriteBody(k));
    assert t.calls == s.calls[k := s.calls[k].(stage := Whole)];
  }

  lemma IssueLock(s: State, step: Step)
    requires LockInv(s) && Enabled(s, step) && step.Issue?
    ensures LockInv(Take(s, step))
  {
    hide Sendable, HeaderBytes, Chunk;
  }

  /** Steps that do not touch the calls. */
  lemma QuietKept(s: State, step: Step)
    requires LockInv(s) && Enabled(s, step) && (step.PeerAnswers? || step.TakeReply?)
    ensures LockInv(Take(s, step))
  {
    hide OnWire, Sendable, HeaderBytes, Chunk;
  }

  /** Steps of one call that do not matter to the lock. */
  lemma StageCarried(s: State, step: Step)
    requires LockInv(s) && Enabled(s, step) && (step.Register? || step.WriteHeader? || step.Unregister?)
    ensures LockInv(Take(s, step))
  {
    hide LockInv, Sendable, HeaderBytes, Chunk;
    LockCarried(s, Take(s, step), step.k);
  }

  lemma InboxCarried(s: State, step: Step)
    requires LockInv(s) && Enabled(s, step) && (step.Deliver? || step.Collect?)
    ensures LockInv(Take(s, step))
  {
    hide LockInv, Sendable, HeaderBytes, Chunk;
    LockCarried(s, Take(s, step), if step.Deliver? then s.hand.value.channel else step.k);
  }

  lemma LockCarried(s: State, t: State, i: nat)
    requires LockInv(s) && i < |s.calls| && t.order == s.order && t.lock == s.lock
    requires |t.calls| == |s.calls| && t.calls == s.calls[i := t.calls[i]]
    requires t.calls[i].msg == s.calls[i].msg && Writing(t.calls[i]) == Writing(s.calls[i])
    requires Unfinished(t.calls[i]) == Unfinished(s.calls[i]) && WrittenWhole(t.calls[i]) == WrittenWhole(s.calls[i])
    ensures LockInv(t)
  {
    hide Writing, Unfinished, WrittenWhole, Sendable;
  }

  lemma LockKept(s: State, step: Step)
    requires LockInv(s) && Enabled(s, step)
    ensures LockInv(Take(s, step))
  {
    hide LockInv, Enabled, Take;
    match step
    case Issue(_, _) => IssueLock(s, step);
    case Lock(k) => LockTaken(s, k);
    case WriteBody(k) => BodyLock(s, k);
    case Release(k) => ReleaseLock(s, k);
    case FailWrite(k, n) => FailLock(s, k, n);
    case PeerAnswers(_) => QuietKept(s, step);
    case TakeReply => QuietKept(s, step);
    case Deliver => InboxCarried(s, step);
    case Collect(_) => InboxCarried(s, step);
    case _ => StageCarried(s, step);
  }

  lemma Framed(m: Msg)
    requires Sendable(m)
    ensures HasSerials(m) && Written(m) == HeaderBytes(m) + m.body && |Written(m)| >= 16
  {
    hide HeaderBytes, Header, FieldBytes;
    FieldBytesBound(m);
    assert |HeaderBytes(m)| >= |Header(m)| by { HeaderFirst(m); }
  }

  lemma HeaderFirst(m: Msg)
    requires HasSerials(m)
    ensures |HeaderBytes(m)| >= |Header(m)|
  {
    hide Header;
  }

  /** No step changes the message of a call that was issued. */
  lemma MessagesKept(s: State, step: Step)
    requires Enabled(s, step)
    ensures |s.calls| <= |Take(s, step).calls|
    ensures forall k :: 0 <= k < |s.calls| ==> Take(s, step).calls[k].msg == s.calls[k].msg
  {
    hide Sendable, HeaderBytes;
  }

  lemma BodyKept(s: State, k: nat)
    requires WireInv(s) && Enabled(s, WriteBody(k))
    ensures WireInv(Take(s, WriteBody(k)))
  {
    hide Sendable, HeaderBytes, Stream, Written;
    var t := Take(s, WriteBody(k));
    var m := s.calls[k].msg;
    LockKept(s, WriteBody(k));
    Framed(m);
    StreamAppended(Messages(s, s.order), m);
    assert Messages(t, t.order) == Messages(s, s.order) + [m];
  }

  lemma WireKept(s: State, step: Step)
    requires WireInv(s) && Enabled(s, step)
    ensures WireInv(Take(s, step))
  {
    hide Sendable, HeaderBytes, Stream, LockInv;
    if step.WriteBody? {
      BodyKept(s, step.k);
    } else {
      LockKept(s, step);
      MessagesKept(s, step);
      var t := Take(s, step);
      OrderKept(s, t);
      if !t.torn { PartialKept(s, step); }
    }
  }

  lemma OrderKept(s: State, t: State)
    requires LockInv(s) && t.order == s.order && |s.calls| <= |t.calls|
    requires forall k :: 0 <= k < |s.calls| ==> t.calls[k].msg == s.calls[k].msg
    ensures Messages(t, t.order) == Messages(s, s.order)
  {
  }

  /** Outside WriteBody the wire grows by what Partial grows by, unless a failed write tears it. */
  lemma PartialKept(s: State, step: Step)
    requires LockInv(s) && Enabled(s, step) && !step.WriteBody? && LockInv(Take(s, step)) && !Take(s, step).torn
    ensures (Take(s, step).wire == s.wire && Partial(Take(s, step)) == Partial(s))
         || (Partial(s) == [] && Take(s, step).wire == s.wire + Partial(Take(s, step)))
  {
    hide Sendable, HeaderBytes;
  }

  lemma {:induction false} RunWire(s: State, steps: seq<Step>, t: State)
    requires WireInv(s) && Run(s, steps, t)
    ensures WireInv(t)
    decreases |steps|
  {
    hide WireInv, Enabled, Take;
    if steps != [] {
      WireKept(s, steps[0]);
      RunWire(Take(s, steps[0]), steps[1..], t);
    }
  }

  /** The calls whose message is on the wire: those written, and that of the holder of the lock
      if its header is all there is to it. */
  ghost function Complete(s: State): seq<nat> {
    if s.lock.Some? && s.lock.value < |s.calls| && s.calls[s.lock.value].stage == Half
        && s.calls[s.lock.value].msg.body == []
    then s.order + [s.lock.value] else s.order
  }

  /** Every call the peer can read and has not answered, it can answer at that moment. */
  lemma ReadableIsAnswerable(steps: seq<Step>, t: State, k: nat)
    requires Run(INITIAL, steps, t) && |t.calls| < WORD && k in Complete(t)
    ensures k < |t.calls|
    ensures k !in t.answered ==> Enabled(t, PeerAnswers(k))
  {
    hide Run, Sendable, HeaderBytes, Stream, Queued, Messages, Written, Partial, Listening, Writing;
    InitialWire();
    RunWire(INITIAL, steps, t);
    RunKeeps(INITIAL, steps, t);
    assert CallOk(t, k);
  }

  /** At every moment of every run in which no write failed half way, the peer reads exactly the
      messages written, whole, in the order in which the lock was held, and then waits for the
      rest of the holder's message; no call is there twice. */
  lemma WireIntact(steps: seq<Step>, t: State)
    requires Run(INITIAL, steps, t) && !t.torn
    ensures forall i :: 0 <= i < |Complete(t)| ==> Complete(t)[i] < |t.calls|
    ensures forall i, j :: 0 <= i < j < |Complete(t)| ==> Complete(t)[i] != Complete(t)[j]
    ensures Receive(t.wire) == (Messages(t, Complete(t)), Short)
    ensures forall k :: 0 <= k < |t.calls| && WrittenWhole(t.calls[k]) ==> k in Complete(t)
  {
    hide Run, Sendable, HeaderBytes, Stream, Receive;
    InitialWire();
    RunWire(INITIAL, steps, t);
    EndOfWire(t);
  }

  lemma InitialWire()
    ensures WireInv(INITIAL)
  {
    assert Messages(INITIAL, []) == [];
  }

  lemma NothingReceived()
    ensures Stream([]) == [] && Receive([]) == ([], Short)
  {
  }

  lemma EndOfWire(t: State)
    requires WireInv(t) && !t.torn
    ensures forall i :: 0 <= i < |Complete(t)| ==> Complete(t)[i] < |t.calls|
    ensures Receive(t.wire) == (Messages(t, Complete(t)), Short)
  {
    hide Sendable, HeaderBytes, Stream, Receive, Written;
    var ms := Messages(t, t.order);
    if t.lock.Some? && t.calls[t.lock.value].stage == Half {
      var m := t.calls[t.lock.value].msg;
      Framed(m);
      if m.body == [] {
        StreamAppended(ms, m);
        assert Messages(t, Complete(t)) == ms + [m];
        StreamReceived(ms + [m], m, 0);
        assert Stream(ms + [m]) + Written(m)[..0] == t.wire;
      } else {
        StreamReceived(ms, m, |HeaderBytes(m)|);
        assert Written(m)[..|HeaderBytes(m)|] == HeaderBytes(m);
      }
    } else if t.calls == [] {
      assert ms == [];
      NothingReceived();
    } else {
      var m := t.calls[0].msg;
      Framed(m);
      StreamReceived(ms, m, 0);
      assert Stream(ms) + Written(m)[..0] == t.wire;
    }
  }
}
