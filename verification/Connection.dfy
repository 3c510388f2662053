/** dbus.go's Connection as far as calls and replies go: its fields and the critical sections that
    update them. Each method is one step of Calls. */
module ConnectionModule {
  import opened Bytes
  import opened RoundTrip
  import opened MessageModule
  import opened Calls

  /** A channel with room for one message. */
  class ReplyChan {
    var buffer: seq<Reply>

    constructor ()
      ensures buffer == []
    {
      buffer := [];
    }
  }

  class Connection {
    var lastSerial: nat
    var methodCallReplies: map<nat, ReplyChan>
    /** The whole system, of which the fields above are a part. */
    ghost var state: State
    /** The reply channels, by call. */
    ghost var chans: map<nat, ReplyChan>

    ghost predicate Valid()
      reads this, chans.Values
    {
      && lastSerial == state.lastSerial
      && methodCallReplies.Keys == state.pending.Keys
      && (forall p :: p in methodCallReplies ==>
            state.pending[p] in chans && methodCallReplies[p] == chans[state.pending[p]])
      && (forall k :: k in chans ==>
            k < |state.calls| && state.calls[k].stage != Issued && chans[k].buffer == state.calls[k].inbox)
      && (forall k, l :: k in chans && l in chans && k != l ==> chans[k] != chans[l])
      && (state.hand.Some? ==> state.hand.value.channel in chans)
    }

    constructor ()
      ensures Valid() && state == INITIAL
    {
      lastSerial, methodCallReplies, state, chans := 0, map[], INITIAL, map[];
    }

    method NextSerial(ghost msg: Msg, ghost wantsReply: bool) returns (serial: nat)
      requires Valid() && Enabled(state, Issue(msg, wantsReply))
      modifies this
      ensures Valid() && state == Take(old(state), Issue(msg, wantsReply))
      ensures serial == state.calls[|state.calls| - 1].msg.serial && serial == (old(lastSerial) + 1) % 4294967296
    {
      hide Sendable;
      lastSerial := (lastSerial + 1) % WORD;
      state := Take(state, Issue(msg, wantsReply));
      serial := lastSerial;
    }

    /** SendWithReply, before the message is written. */
    method Register(ghost k: nat, serial: nat) returns (replyChan: ReplyChan)
      requires Valid() && Inv(state) && Enabled(state, Step.Register(k)) && serial == state.calls[k].msg.serial
      modifies this
      ensures Valid() && state == Take(old(state), Step.Register(k)) && k in chans && chans[k] == replyChan
    {
      hide Take, Enabled, Inv;
      RegisterEffect(state, k);
      replyChan := new ReplyChan();
      methodCallReplies := methodCallReplies[serial := replyChan];
      state := Take(state, Step.Register(k));
      chans := chans[k := replyChan];
    }

    /** SendWithReply, after a failed write. */
    method Unregister(ghost k: nat, serial: nat)
      requires Valid() && Enabled(state, Step.Unregister(k)) && serial == state.calls[k].msg.serial
      modifies this
      ensures Valid() && state == Take(old(state), Step.Unregister(k))
    {
      hide Take, Enabled;
      UnregisterEffect(state, k);
      methodCallReplies := methodCallReplies - {serial};
      state := Take(state, Step.Unregister(k));
    }

    /** dispatchMessage, the critical section for a reply. */
    method TakeReply(replySerial: nat) returns (replyChan: ReplyChan?)
      requires Valid() && Enabled(state, Step.TakeReply) && replySerial == state.queue[0].serial
      modifies this
      ensures Valid() && state == Take(old(state), Step.TakeReply)
      ensures replyChan != null <==> state.hand.Some?
      ensures replyChan != null ==> replyChan == chans[state.hand.value.channel]
    {
      hide Take, Enabled;
      TakeReplyEffect(state);
      replyChan := null;
      state := Take(state, Step.TakeReply);
      if replySerial in methodCallReplies {
        replyChan := methodCallReplies[replySerial];
        methodCallReplies := methodCallReplies - {replySerial};
      }
    }

    /** dispatchMessage, the send on the channel; it finds the channel empty. */
    method Deliver(replyChan: ReplyChan, reply: Reply)
      requires Valid() && Inv(state) && Enabled(state, Step.Deliver)
      requires replyChan == chans[state.hand.value.channel] && reply == state.hand.value.reply
      modifies this, replyChan
      ensures Valid() && state == Take(old(state), Step.Deliver)
      ensures old(replyChan.buffer) == [] && replyChan.buffer == [reply]
    {
      hide Sendable, HeaderBytes, Chunk;
      assert CallOk(state, state.hand.value.channel);
      replyChan.buffer := replyChan.buffer + [reply];
      state := Take(state, Step.Deliver);
    }

    /** SendWithReply, the receive from the channel: what arrives is the reply to this call. */
    method Await(ghost k: nat, replyChan: ReplyChan) returns (reply: Reply)
      requires Valid() && Inv(state) && Enabled(state, Collect(k)) && k in chans && replyChan == chans[k]
      modifies this, replyChan
      ensures Valid() && state == Take(old(state), Collect(k)) && state.calls[k].stage == Answered(reply)
      ensures reply.to == k && reply.serial == state.calls[k].msg.serial && replyChan.buffer == []
    {
      hide Take, Enabled, Inv;
      CollectEffect(state, k);
      reply := replyChan.buffer[0];
      replyChan.buffer := replyChan.buffer[1..];
      state := Take(state, Collect(k));
    }
  }

  /** What the steps above change of what the fields stand for. */
  lemma RegisterEffect(s: State, k: nat)
    requires Inv(s) && Enabled(s, Step.Register(k))
    ensures k < |s.calls| && s.calls[k].stage == Issued && s.calls[k].inbox == []
    ensures Take(s, Step.Register(k))
         == Moved(s, k, Registered).(pending := s.pending[s.calls[k].msg.serial := k])
  {
    hide Sendable, HeaderBytes, Chunk, Queued;
    assert CallOk(s, k);
  }

  lemma UnregisterEffect(s: State, k: nat)
    requires Enabled(s, Step.Unregister(k))
    ensures k < |s.calls| && s.calls[k].stage == Broken
    ensures Take(s, Step.Unregister(k)) == Moved(s, k, Failed).(pending := s.pending - {s.calls[k].msg.serial})
  {
    hide Sendable, HeaderBytes, Chunk;
  }

  lemma CollectEffect(s: State, k: nat)
    requires Inv(s) && Enabled(s, Collect(k))
    ensures k < |s.calls| && s.calls[k].stage == Waiting && s.calls[k].inbox == [Reply(s.calls[k].msg.serial, k)]
    ensures Take(s, Collect(k))
         == s.(calls := s.calls[k := s.calls[k].(stage := Answered(s.calls[k].inbox[0]),
                                                  inbox := s.calls[k].inbox[1..])])
  {
    hide Sendable, HeaderBytes, Chunk, Queued;
    assert CallOk(s, k);
    assert s.calls[k].inbox[0] in s.calls[k].inbox;
  }

  lemma TakeReplyEffect(s: State)
    requires Enabled(s, Step.TakeReply)
    ensures s.queue != [] && s.hand == None
    ensures
      var r, rest := s.queue[0], s.(queue := s.queue[1..]);
      Take(s, Step.TakeReply) ==
        if r.serial in s.pending
        then rest.(pending := s.pending - {r.serial}, hand := Some(Delivery(s.pending[r.serial], r)))
        else rest
  {
    hide Sendable, HeaderBytes, Chunk;
  }
}
