/** names.go's race between the first GetNameOwner lookup and NameOwnerChanged signals, for one
    name. */
module NameOwner {
  import opened Bytes
  import opened SignalIndex

  /** What GetNameOwner comes back with. */
  datatype Answer = Owner(name: Text) | NoOwner | Unexpected

  /** The string checkCurrentOwner goes on with: every error leaves it empty. */
  function Looked(a: Answer): Text {
    if a.Owner? then a.name else []
  }

  /** A message to the client; `at` is the place in the history of owners it was sent at. */
  datatype Item = Change(owner: Text, at: nat) | Reply(answer: Answer, at: nat)

  datatype Lookup = Unsent | Sent | Queued | InHand(answer: Answer, at: nat) | Done

  /** history: every owner the name had, empty when it had none; the last one is current.
      matched: the daemon has the rule this nameInfo installed. covered: another rule of the same
      client makes the daemon send it these signals too. told: the owners handleOwnerChange was
      called with; heard: their places in the history. guessed: the first of told came from an
      unexpected error and has no place. sent: the place of the last change sent to the client.
      gap: the place of a change that was not sent although one before it was. disturbed: the
      client removed such another rule before the daemon had this one. */
  datatype State = State(
    history: seq<Text>, matched: bool, covered: bool, queue: seq<Item>,
    lookup: Lookup, current: Option<Text>,
    told: seq<Text>, heard: seq<nat>, guessed: bool,
    sent: Option<nat>, gap: Option<nat>, disturbed: bool)

  ghost predicate Init(s: State) {
    && |s.history| == 1 && !s.matched && s.queue == [] && s.lookup == Unsent && s.current == None
    && s.told == [] && s.heard == [] && !s.guessed && s.sent == None && s.gap == None && !s.disturbed
  }

  function Now(s: State): Text
    requires s.history != []
  {
    s.history[|s.history| - 1]
  }

  /** The daemon's messages to the client are a queue. The goroutine that asked for the owner applies
      the answer at any moment after the dispatcher handed it over, or an error of its own at any
      moment at all. */
  datatype Step =
    | OwnerChanges(owner: Text)
    | CoverAdded
    | CoverRemoved
    | AddMatch
    | SendLookup
    | AnswerLookup(unexpected: bool)
    | LookupFails
    | Dispatch
    | ApplyLookup

  ghost predicate Enabled(s: State, step: Step) {
    match step
    case OwnerChanges(owner) => s.history != [] && owner != Now(s)
    case CoverAdded => !s.covered
    case CoverRemoved => s.covered
    case AddMatch => !s.matched
    case SendLookup => s.matched && s.lookup == Unsent
    case AnswerLookup(_) => s.history != [] && s.lookup == Sent
    case LookupFails => s.matched && (s.lookup == Unsent || s.lookup == Sent || s.lookup == Queued)
    case Dispatch => s.queue != []
    case ApplyLookup => s.lookup.InHand?
  }

  /** handleOwnerChange. */
  function Told(s: State, owner: Text): State {
    s.(current := Some(owner), told := s.told + [owner])
  }

  /** The daemon tells the client of a change if any of the client's rules asks for it. */
  function Changed(s: State, owner: Text): State {
    var next := s.(history := s.history + [owner]);
    if s.matched || s.covered
    then next.(queue := s.queue + [Change(owner, |s.history|)], sent := Some(|s.history|))
    else next.(gap := if s.sent != None && s.gap == None then Some(|s.history|) else s.gap)
  }

  /** The answer to a call that has failed already is dropped. */
  function Dispatched(s: State): State
    requires s.queue != []
  {
    var i, rest := s.queue[0], s.(queue := s.queue[1..]);
    if i.Change? then Told(rest, i.owner).(heard := s.heard + [i.at])
    else if s.lookup == Queued then rest.(lookup := InHand(i.answer, i.at))
    else rest
  }

  /** checkCurrentOwner, after the call. */
  function Applied(s: State): State
    requires s.lookup.InHand?
  {
    var a, done := s.lookup.answer, s.(lookup := Done);
    if s.current != None then done
    else if a == Unexpected then Told(done, Looked(a)).(guessed := true)
    else Told(done, Looked(a)).(heard := s.heard + [s.lookup.at])
  }

  function AnswerItem(s: State, unexpected: bool): Item
    requires s.history != []
  {
    Reply(if unexpected then Unexpected else if Now(s) == [] then NoOwner else Owner(Now(s)), |s.history| - 1)
  }

  ghost function Take(s: State, step: Step): State
    requires Enabled(s, step)
  {
    match step
    case OwnerChanges(owner) => Changed(s, owner)
    case CoverAdded => s.(covered := true)
    case CoverRemoved => s.(covered := false, disturbed := s.disturbed || !s.matched)
    case AddMatch => s.(matched := true)
    case SendLookup => s.(lookup := Sent)
    case AnswerLookup(unexpected) => s.(lookup := Queued, queue := s.queue + [AnswerItem(s, unexpected)])
    case LookupFails => s.(lookup := InHand(Unexpected, 0))
    case Dispatch => Dispatched(s)
    case ApplyLookup => Applied(s)
  }

  ghost predicate Run(s: State, steps: seq<Step>, t: State)
    decreases |steps|
  {
    if steps == [] then s == t else Enabled(s, steps[0]) && Run(Take(s, steps[0]), steps[1..], t)
  }

  // ---------------------------------------------------------------- the queue

  ghost function Place(i: Item): seq<nat> {
    if i.Change? then [i.at] else []
  }

  /** The places of the changes in a queue. */
  ghost function Places(q: seq<Item>): seq<nat> {
    if q == [] then [] else Place(q[0]) + Places(q[1..])
  }

  /** How many answers a queue holds. */
  ghost function Replies(q: seq<Item>): nat {
    if q == [] then 0 else (if q[0].Reply? then 1 else 0) + Replies(q[1..])
  }

  lemma {:induction false} Appended(q: seq<Item>, i: Item)
    ensures Places(q + [i]) == Places(q) + Place(i)
    ensures Replies(q + [i]) == Replies(q) + if i.Reply? then 1 else 0
    decreases |q|
  {
    hide Place;
    if q == [] {
      assert q + [i] == [i] && [i][1..] == [];
      assert Places(q + [i]) == Place(i) + [];
    } else {
      assert (q + [i])[1..] == q[1..] + [i] && (q + [i])[0] == q[0];
      Appended(q[1..], i);
      assert Places(q + [i]) == Place(q[0]) + (Places(q[1..]) + Place(i));
    }
  }

  /** What the dispatcher makes of the current owner once it has handled the queue. */
  ghost function Replay(current: Option<Text>, q: seq<Item>): Option<Text>
    decreases |q|
  {
    if q == [] then current else Replay(if q[0].Change? then Some(q[0].owner) else current, q[1..])
  }

  /** Every message tells the truth about its place. */
  ghost predicate Truthful(q: seq<Item>, history: seq<Text>) {
    forall i :: i in q ==>
      i.at < |history| && (i.Change? ==> i.owner == history[i.at])
      && (i.Reply? && i.answer != Unexpected ==> Looked(i.answer) == history[i.at])
  }

  lemma {:induction false} ReplayIsLast(current: Option<Text>, q: seq<Item>, history: seq<Text>)
    requires Truthful(q, history)
    ensures Places(q) == [] ==> Replay(current, q) == current
    ensures Places(q) != [] ==>
      Places(q)[|Places(q)| - 1] < |history| && Replay(current, q) == Some(history[Places(q)[|Places(q)| - 1]])
    decreases |q|
  {
    if q != [] {
      assert q[0] in q;
      assert Truthful(q[1..], history) by { Later(q, history); }
      ReplayIsLast(if q[0].Change? then Some(q[0].owner) else current, q[1..], history);
    }
  }

  lemma Later(q: seq<Item>, history: seq<Text>)
    requires q != [] && Truthful(q, history)
    ensures Truthful(q[1..], history)
  {
    assert forall i :: i in q[1..] ==> i in q;
  }

  /** Consecutive places up to the end of a history of length n. */
  ghost predicate Tail(places: seq<nat>, n: nat) {
    |places| <= n && forall i :: 0 <= i < |places| ==> places[i] == n - |places| + i
  }

  ghost predicate Increasing(places: seq<nat>, n: nat) {
    && (forall i, j :: 0 <= i < j < |places| ==> places[i] < places[j])
    && (forall i :: 0 <= i < |places| ==> places[i] < n)
  }

  /** The changes behind an answer in the queue are all those since the answer. */
  ghost predicate Answered(q: seq<Item>, n: nat)
    decreases |q|
  {
    q != [] ==>
      (q[0].Reply? ==> Tail(Places(q[1..]), n) && |Places(q[1..])| + q[0].at + 1 == n) && Answered(q[1..], n)
  }

  lemma {:induction false} AnsweredLonger(q: seq<Item>, n: nat, owner: Text)
    requires Answered(q, n)
    ensures Answered(q + [Change(owner, n)], n + 1)
    decreases |q|
  {
    var i := Change(owner, n);
    if q != [] {
      assert (q + [i])[1..] == q[1..] + [i];
      AnsweredLonger(q[1..], n, owner);
      Appended(q[1..], i);
    } else {
      assert (q + [i])[1..] == [];
    }
  }

  lemma {:induction false} AnsweredNoReply(q: seq<Item>, n: nat)
    requires Replies(q) == 0
    ensures Answered(q, n)
    decreases |q|
  {
    if q != [] { AnsweredNoReply(q[1..], n); }
  }

  lemma {:induction false} AnsweredReply(q: seq<Item>, r: Item, n: nat)
    requires Replies(q) == 0 && r.Reply? && r.at + 1 == n
    ensures Answered(q + [r], n)
    decreases |q|
  {
    if q != [] {
      assert (q + [r])[1..] == q[1..] + [r];
      AnsweredReply(q[1..], r, n);
    } else {
      assert (q + [r])[1..] == [];
    }
  }

  // ---------------------------------------------------------------- the invariant

  /** The places of all the client was told or will be told by the queue. */
  ghost function All(s: State): seq<nat> {
    s.heard + Places(s.queue)
  }

  /** What the client was told is the owners at the places it heard of, after the guess. */
  ghost predicate ToldIs(s: State) {
    var g := if s.guessed then 1 else 0;
    && |s.told| == |s.heard| + g
    && (forall j :: 0 <= j < |s.heard| ==> s.heard[j] < |s.history| && s.told[j + g] == s.history[s.heard[j]])
    && (s.guessed ==> s.told[0] == [] && s.lookup == Done)
    && s.current == (if s.told == [] then None else Some(s.told[|s.told| - 1]))
  }

  ghost predicate LookupKept(s: State) {
    && (s.lookup != Unsent ==> s.matched)
    && (s.lookup == Done ==> s.current != None)
    && Replies(s.queue) <= (if s.lookup == Unsent || s.lookup == Sent then 0 else 1)
    && Answered(s.queue, |s.history|)
    && (s.lookup.InHand? ==>
          && s.lookup.at < |s.history|
          && (s.lookup.answer != Unexpected ==> Looked(s.lookup.answer) == s.history[s.lookup.at])
          && (s.lookup.answer != Unexpected && s.current == None ==>
                Tail(Places(s.queue), |s.history|) && |Places(s.queue)| + s.lookup.at + 1 == |s.history|))
  }

  ghost predicate Ordered(s: State) {
    var all, n := All(s), |s.history|;
    && Increasing(all, n)
    && (s.sent == None ==> Places(s.queue) == [] && (s.heard != [] ==> s.heard == [n - 1] && s.lookup == Done))
    && (s.sent == None && s.guessed ==> s.heard == [])
    && (s.sent.Some? ==> all != [] && all[|all| - 1] == s.sent.value)
    && (s.gap == None ==> Tail(all, n))
    && (s.gap.Some? ==> all != [] && all[0] < s.gap.value < n && s.gap.value !in all)
  }

  ghost predicate Inv(s: State) {
    && s.history != [] && Truthful(s.queue, s.history)
    && ToldIs(s) && LookupKept(s) && Ordered(s)
    && (!s.disturbed ==> s.gap == None && (s.sent != None ==> s.matched || s.covered))
  }

  // ---------------------------------------------------------------- every step keeps it

  lemma ChangedTruthful(q: seq<Item>, history: seq<Text>, owner: Text)
    requires Truthful(q, history)
    ensures Truthful(q, history + [owner]) && Truthful(q + [Change(owner, |history|)], history + [owner])
  {
  }

  lemma ChangedLookup(s: State, owner: Text)
    requires LookupKept(s)
    ensures LookupKept(Changed(s, owner))
  {
    hide Answered, Places, Replies;
    var n := |s.history|;
    Appended(s.queue, Change(owner, n));
    if s.matched || s.covered {
      AnsweredLonger(s.queue, n, owner);
    } else {
      AnsweredNoReply(s.queue, n + 1);
    }
  }

  lemma TailLonger(places: seq<nat>, n: nat)
    ensures Tail(places, n) ==> Tail(places + [n], n + 1)
    ensures Increasing(places, n) ==> Increasing(places + [n], n + 1)
  {
  }

  lemma ChangedOrdered(s: State, owner: Text)
    requires Ordered(s) && LookupKept(s)
    ensures Ordered(Changed(s, owner))
  {
    hide Answered, Places, Replies, Tail, Increasing;
    var t, n := Changed(s, owner), |s.history|;
    if s.matched || s.covered {
      Appended(s.queue, Change(owner, n));
      assert All(t) == All(s) + [n] by { assert s.heard + (Places(s.queue) + [n]) == s.heard + Places(s.queue) + [n]; }
      TailLonger(All(s), n);
    } else {
      assert All(t) == All(s);
      SkippedPlace(s, owner);
    }
  }

  lemma SkippedPlace(s: State, owner: Text)
    requires Ordered(s) && LookupKept(s) && !s.matched && !s.covered
    ensures Increasing(All(s), |s.history| + 1) && |s.history| !in All(s)
    ensures s.sent == None ==> s.heard == [] && All(s) == [] && s.gap == None && Tail(All(s), |s.history| + 1)
    ensures s.sent.Some? ==> All(s) != [] && All(s)[0] < |s.history|
  {
    hide Answered, Places, Replies;
  }

  lemma ChangedKeeps(s: State, owner: Text)
    requires Inv(s)
    ensures Inv(Changed(s, owner))
  {
    hide LookupKept, Ordered, Truthful, Places, Replies;
    ChangedTruthful(s.queue, s.history, owner);
    ChangedLookup(s, owner);
    ChangedOrdered(s, owner);
  }

  lemma AnswerKeeps(s: State, unexpected: bool)
    requires Inv(s) && Enabled(s, AnswerLookup(unexpected))
    ensures Inv(Take(s, AnswerLookup(unexpected)))
  {
    hide Answered, Places, Replies, Tail, Increasing, ToldIs, Truthful;
    var r := AnswerItem(s, unexpected);
    AnsweredReply(s.queue, r, |s.history|);
    Appended(s.queue, r);
    assert Places(s.queue + [r]) == Places(s.queue);
    AnswerTruthful(s, r, unexpected);
    AnswerTold(s, r);
  }

  lemma AnswerTruthful(s: State, r: Item, unexpected: bool)
    requires s.history != [] && r == AnswerItem(s, unexpected) && Truthful(s.queue, s.history)
    ensures Truthful(s.queue + [r], s.history)
  {
  }

  lemma AnswerTold(s: State, r: Item)
    requires ToldIs(s) && s.lookup == Sent
    ensures ToldIs(s.(lookup := Queued, queue := s.queue + [r]))
  {
  }

  lemma Head(q: seq<Item>, n: nat)
    requires q != []
    ensures Places(q) == Place(q[0]) + Places(q[1..])
    ensures Replies(q) == (if q[0].Reply? then 1 else 0) + Replies(q[1..])
    ensures Answered(q, n) ==> Answered(q[1..], n)
    ensures Answered(q, n) && q[0].Reply? ==> Tail(Places(q[1..]), n) && |Places(q[1..])| + q[0].at + 1 == n
  {
  }

  lemma DispatchedAll(s: State)
    requires s.queue != []
    ensures All(Dispatched(s)) == All(s)
    ensures s.queue[0].Change? ==> Places(s.queue) != []
    ensures s.queue[0].Reply? ==> Places(s.queue) == Places(s.queue[1..])
  {
    hide Places;
    Head(s.queue, 0);
    var rest := Places(s.queue[1..]);
    assert s.queue[0].Change? ==> s.heard + ([s.queue[0].at] + rest) == s.heard + [s.queue[0].at] + rest;
    assert [] + rest == rest;
  }

  lemma DispatchedLookup(s: State)
    requires LookupKept(s) && Truthful(s.queue, s.history) && s.queue != []
    ensures LookupKept(Dispatched(s))
  {
    hide Answered, Places, Replies, Tail;
    Head(s.queue, |s.history|);
    assert s.queue[0] in s.queue;
  }

  lemma DispatchedOrdered(s: State)
    requires Ordered(s) && s.queue != []
    ensures Ordered(Dispatched(s))
  {
    hide Places, Tail, Increasing, All;
    DispatchedAll(s);
    var i, t := s.queue[0], Dispatched(s);
    assert t.history == s.history && t.sent == s.sent && t.gap == s.gap && t.guessed == s.guessed;
    if i.Reply? { assert t.heard == s.heard && t.queue == s.queue[1..]; }
  }

  /** handleOwnerChange with an owner whose place is known. */
  lemma ToldMore(s: State, t: State, owner: Text, at: nat)
    requires ToldIs(s) && at < |s.history| && s.history[at] == owner
    requires t.history == s.history && t.guessed == s.guessed && (s.guessed ==> t.lookup == Done)
    requires t.told == s.told + [owner] && t.heard == s.heard + [at] && t.current == Some(owner)
    ensures ToldIs(t)
  {
    var g := if s.guessed then 1 else 0;
    forall j | 0 <= j < |t.heard| ensures t.heard[j] < |t.history| && t.told[j + g] == t.history[t.heard[j]] {
      if j < |s.heard| { assert s.heard[j] < |s.history| && s.told[j + g] == s.history[s.heard[j]]; }
    }
  }

  lemma DispatchedTold(s: State)
    requires ToldIs(s) && s.queue != [] && Truthful(s.queue, s.history)
    ensures ToldIs(Dispatched(s))
  {
    var i := s.queue[0];
    assert i in s.queue;
    if i.Change? {
      hide ToldIs;
      assert s.guessed ==> s.lookup == Done by { GuessIsDone(s); }
      ToldMore(s, Dispatched(s), i.owner, i.at);
    }
  }

  lemma GuessIsDone(s: State)
    requires ToldIs(s)
    ensures s.guessed ==> s.lookup == Done
  {
  }

  lemma DispatchKeeps(s: State)
    requires Inv(s) && s.queue != []
    ensures Inv(Dispatched(s))
  {
    hide LookupKept, Ordered, ToldIs, Truthful;
    Later(s.queue, s.history);
    DispatchedLookup(s);
    DispatchedOrdered(s);
    DispatchedTold(s);
  }

  lemma TailHas(places: seq<nat>, n: nat, p: nat)
    requires Tail(places, n) && places != [] && places[0] < p < n
    ensures p in places
  {
    assert places[p - (n - |places|)] == p;
  }

  lemma TailBefore(places: seq<nat>, n: nat, at: nat)
    requires Tail(places, n) && |places| + at + 1 == n
    ensures Tail([at] + places, n) && Increasing([at] + places, n)
  {
  }

  lemma FirstHeard(s: State)
    requires ToldIs(s) && s.current == None
    ensures s.heard == [] && s.told == [] && !s.guessed && All(s) == Places(s.queue)
  {
    hide Places;
    assert [] + Places(s.queue) == Places(s.queue);
  }

  lemma AppliedOrdered(s: State)
    requires Ordered(s) && LookupKept(s) && ToldIs(s) && s.lookup.InHand?
    ensures Ordered(Applied(s))
  {
    hide Answered, Places, Replies, ToldIs, Tail, Increasing, All;
    var t := Applied(s);
    if s.current != None {
      SameAll(s, t);
    } else if s.lookup.answer == Unexpected {
      FirstHeard(s);
      SameAll(s, t);
    } else {
      PlacedOrdered(s);
    }
  }

  /** The answer of the daemon comes first, at its place before the queued changes. */
  lemma PlacedOrdered(s: State)
    requires Ordered(s) && LookupKept(s) && ToldIs(s) && s.lookup.InHand?
    requires s.current == None && s.lookup.answer != Unexpected
    ensures Ordered(Applied(s))
  {
    hide Answered, Places, Replies, ToldIs, Tail, Increasing, All;
    var all, n, at := All(s), |s.history|, s.lookup.at;
    var t := Applied(s);
    FirstHeard(s);
    if s.gap.Some? { TailHas(all, n, s.gap.value); }
    TailBefore(all, n, at);
    assert [] + [at] == [at];
    assert All(t) == [at] + all by { SameAll(s, t); }
  }

  lemma SameAll(s: State, t: State)
    requires t.queue == s.queue
    ensures t.heard == s.heard ==> All(t) == All(s)
    ensures s.heard == [] ==> All(t) == t.heard + All(s)
  {
    hide Places;
    assert [] + Places(s.queue) == Places(s.queue);
  }

  lemma ApplyKeeps(s: State)
    requires Inv(s) && s.lookup.InHand?
    ensures Inv(Applied(s))
  {
    hide Ordered, Answered, Places, Replies, Tail, Truthful;
    AppliedOrdered(s);
  }

  /** The steps that install rules and send the lookup. */
  lemma RulesKeep(s: State, step: Step)
    requires Inv(s) && Enabled(s, step)
    requires step == CoverAdded || step == CoverRemoved || step == AddMatch || step == SendLookup
    ensures Inv(Take(s, step))
  {
    hide Answered, Places, Replies, Truthful, Tail, Increasing, All;
    SameAll(s, Take(s, step));
  }

  lemma FailureKeeps(s: State)
    requires Inv(s) && Enabled(s, LookupFails)
    ensures Inv(Take(s, LookupFails))
  {
    hide Answered, Places, Replies, Truthful, Tail, Increasing, All;
    SameAll(s, Take(s, LookupFails));
  }

  lemma StepKeeps(s: State, step: Step)
    requires Inv(s) && Enabled(s, step)
    ensures Inv(Take(s, step))
  {
    hide Inv, Changed, Dispatched, Applied, AnswerItem;
    match step
    case OwnerChanges(owner) => ChangedKeeps(s, owner);
    case AnswerLookup(unexpected) => AnswerKeeps(s, unexpected);
    case LookupFails => FailureKeeps(s);
    case Dispatch => DispatchKeeps(s);
    case ApplyLookup => ApplyKeeps(s);
    case _ => RulesKeep(s, step);
  }

  lemma {:induction false} RunKeeps(s: State, steps: seq<Step>, t: State)
    requires Inv(s) && Run(s, steps, t)
    ensures Inv(t)
    decreases |steps|
  {
    hide Inv, Enabled, Take;
    if steps != [] {
      StepKeeps(s, steps[0]);
      RunKeeps(Take(s, steps[0]), steps[1..], t);
    }
  }

  lemma InitInv(s: State)
    requires Init(s)
    ensures Inv(s)
  {
  }

  lemma Reached(s: State, steps: seq<Step>, t: State)
    requires Init(s) && Run(s, steps, t)
    ensures Inv(t)
  {
    hide Init, Run, Inv;
    InitInv(s);
    RunKeeps(s, steps, t);
  }

  // ---------------------------------------------------------------- the theorems

  /** In every run: once the owner is known, handling the signals still queued yields the daemon's
      current owner if and only if the last change sent to the client is to that owner, or, if none
      was sent, the lookup did not fail in an unexpected way while the name has an owner. */
  lemma OwnerKnown(s: State, steps: seq<Step>, t: State)
    requires Init(s) && Run(s, steps, t) && t.current != None
    ensures t.history != [] && (t.sent.Some? ==> t.sent.value < |t.history|)
    ensures Replay(t.current, t.queue) == Some(Now(t)) <==>
      if t.sent.Some? then t.history[t.sent.value] == Now(t) else !(t.guessed && Now(t) != [])
  {
    hide Places, Replies, Answered, Run, Replay, Truthful;
    Reached(s, steps, t);
    ReplayIsLast(t.current, t.queue, t.history);
    LastPlace(t);
  }

  /** The owner once the queue is handled, by the place it was announced at. */
  lemma LastPlace(t: State)
    requires Inv(t)
    ensures Places(t.queue) != [] ==> t.sent == Some(Places(t.queue)[|Places(t.queue)| - 1])
    ensures Places(t.queue) == [] && t.sent.Some? ==> t.heard != [] && t.sent == Some(t.heard[|t.heard| - 1])
    ensures t.heard != [] ==>
      t.heard[|t.heard| - 1] < |t.history| && t.current == Some(t.history[t.heard[|t.heard| - 1]])
    ensures t.heard == [] && t.current != None ==> t.guessed && t.current == Some([])
  {
    hide Places, LookupKept, Truthful;
    var all, m, n := All(t), |Places(t.queue)|, |t.heard|;
    if m > 0 {
      assert all[|all| - 1] == Places(t.queue)[m - 1];
    } else {
      assert all == t.heard;
    }
    if n > 0 {
      var g := if t.guessed then 1 else 0;
      assert t.told[n - 1 + g] == t.history[t.heard[n - 1]];
    }
  }

  /** Once the lookup is over the owner is known, whatever came of it: an error counts as no owner. */
  lemma LookupTells(s: State, steps: seq<Step>, t: State)
    requires Init(s) && Run(s, steps, t)
    ensures t.lookup == Done ==> t.current != None
    ensures t.lookup.InHand? ==>
      var u := Take(t, ApplyLookup);
      && u.lookup == Done && u.queue == t.queue && u.history == t.history
      && u.told == t.told +
           (if t.current != None then [] else if t.lookup.answer.Owner? then [t.lookup.answer.name] else [[]])
      && u.current == if t.current != None then t.current else Some(u.told[|u.told| - 1])
  {
    hide Places, Replies, Answered, Run, Truthful, Ordered;
    Reached(s, steps, t);
  }

  /** A lookup that fails on this side counts as an empty owner although the name has one. */
  lemma FailedLookupIsWrong(a: Text, s: State) returns (steps: seq<Step>, t: State)
    requires a != [] && Init(s) && s.history == [a]
    ensures Run(s, steps, t) && t.lookup == Done && t.queue == [] && t.matched && !t.disturbed
    ensures t.current == Some([]) && t.history != [] && Now(t) == a
  {
    var m := Take(Take(s, AddMatch), LookupFails);
    t := Take(m, ApplyLookup);
    assert Run(t, [], t);
    OneStep(m, ApplyLookup, [], t);
    TwoSteps(s, AddMatch, LookupFails, [ApplyLookup] + [], t);
    steps := [AddMatch, LookupFails] + ([ApplyLookup] + []);
  }

  /** What that comes to: the owner is right if no change was missed after the last one sent. A
      change is missed only when none of the client's rules asks for it. */
  lemma OwnerRight(s: State, steps: seq<Step>, t: State)
    requires Init(s) && Run(s, steps, t) && t.current != None
    requires t.sent == None || t.sent == Some(|t.history| - 1)
    ensures t.history != []
    ensures Replay(t.current, t.queue) == Some(Now(t)) <==> !(t.sent == None && t.guessed && Now(t) != [])
  {
    hide Run, Replay;
    OwnerKnown(s, steps, t);
  }

  /** In every run, after the guess a failed lookup starts with, the client is told owners of the
      name at ever later places of its history, and the queued changes are later still: the lookup,
      however late, neither overwrites a newer notification nor repeats an older one. No owner is
      left out, up to the current one, if and only if no change was missed after one was sent. */
  lemma ToldInOrder(s: State, steps: seq<Step>, t: State)
    requires Init(s) && Run(s, steps, t)
    ensures ToldIs(t) && Truthful(t.queue, t.history)
    ensures Increasing(t.heard + Places(t.queue), |t.history|)
    ensures Tail(t.heard + Places(t.queue), |t.history|) <==> t.gap == None
  {
    hide Places, Replies, Answered, Run, Truthful;
    Reached(s, steps, t);
    if t.gap.Some? && Tail(All(t), |t.history|) { TailHas(All(t), |t.history|, t.gap.value); }
  }

  /** The same about owners instead of places. */
  lemma ToldContiguous(s: State, steps: seq<Step>, t: State) returns (from: nat)
    requires Init(s) && Run(s, steps, t) && t.gap == None
    ensures from + |t.heard| + |Places(t.queue)| == |t.history|
    ensures t.told == (if t.guessed then [[]] else []) + t.history[from..from + |t.heard|]
    ensures forall i :: 0 <= i < |Places(t.queue)| ==> Places(t.queue)[i] == from + |t.heard| + i
  {
    hide Places, Replies, Answered, Run, Truthful;
    ToldInOrder(s, steps, t);
    var all := t.heard + Places(t.queue);
    from := |t.history| - |all|;
    assert forall i :: 0 <= i < |t.heard| ==> all[i] == t.heard[i];
    assert forall i :: 0 <= i < |Places(t.queue)| ==> all[|t.heard| + i] == Places(t.queue)[i];
    var g, heard := if t.guessed then 1 else 0, t.history[from..from + |t.heard|];
    forall j | 0 <= j < |t.heard| ensures t.told[j + g] == heard[j] {
      assert t.heard[j] == from + j && t.told[j + g] == t.history[t.heard[j]];
    }
    assert t.told == (if t.guessed then [t.told[0]] else []) + heard;
  }

  /** Nothing is missed while the client does not take away another rule that covers the name
      before the daemon has this one. */
  lemma UndisturbedMissesNothing(s: State, steps: seq<Step>, t: State)
    requires Init(s) && Run(s, steps, t) && !t.disturbed
    ensures t.gap == None && (t.sent == None || t.sent == Some(|t.history| - 1))
  {
    hide Places, Replies, Answered, Run, Truthful;
    Reached(s, steps, t);
  }

  /** The condition is needed: a signal sent for another rule makes the client ignore the answer
      to its lookup, and if that rule goes before this one comes, the owner stays wrong. */
  lemma DisturbedIsStale(a: Text, b: Text, s: State) returns (steps: seq<Step>, t: State)
    requires a != [] && b != [] && a != b && Init(s) && s.history == [[]] && s.covered
    ensures Run(s, steps, t) && t.lookup == Done && t.queue == [] && t.matched
    ensures t.current == Some(a) && t.history != [] && Now(t) == b
  {
    var first, m := Overheard(a, b, s);
    var last;
    last, t := LookedUpTooLate(a, b, m);
    steps := first + last;
    RunJoined(s, first, m, last, t);
  }

  lemma Overheard(a: Text, b: Text, s: State) returns (steps: seq<Step>, t: State)
    requires a != [] && a != b && Init(s) && s.history == [[]] && s.covered
    ensures Run(s, steps, t) && !t.matched && !t.covered && t.queue == [] && t.lookup == Unsent
    ensures t.current == Some(a) && t.history == [[], a, b]
  {
    var m := Take(Take(s, OwnerChanges(a)), Dispatch);
    assert m.queue == [] && m.history == [[], a];
    t := Take(Take(m, CoverRemoved), OwnerChanges(b));
    TwoSteps(m, CoverRemoved, OwnerChanges(b), [], t);
    TwoSteps(s, OwnerChanges(a), Dispatch, [CoverRemoved, OwnerChanges(b)] + [], t);
    steps := [OwnerChanges(a), Dispatch] + ([CoverRemoved, OwnerChanges(b)] + []);
  }

  lemma LookedUpTooLate(a: Text, b: Text, s: State) returns (steps: seq<Step>, t: State)
    requires b != [] && !s.matched && !s.covered && s.queue == [] && s.lookup == Unsent
    requires s.current == Some(a) && s.history == [[], a, b]
    ensures Run(s, steps, t) && t.lookup == Done && t.queue == [] && t.matched
    ensures t.current == Some(a) && t.history == s.history
  {
    var m := Take(Take(s, AddMatch), SendLookup);
    var n := Take(Take(m, AnswerLookup(false)), Dispatch);
    assert n.queue == [] && n.lookup == InHand(Owner(b), 2);
    t := Take(n, ApplyLookup);
    assert Run(t, [], t);
    OneStep(n, ApplyLookup, [], t);
    TwoSteps(m, AnswerLookup(false), Dispatch, [ApplyLookup] + [], t);
    TwoSteps(s, AddMatch, SendLookup, [AnswerLookup(false), Dispatch] + ([ApplyLookup] + []), t);
    steps := [AddMatch, SendLookup] + ([AnswerLookup(false), Dispatch] + ([ApplyLookup] + []));
  }

  lemma {:induction false} RunJoined(s: State, first: seq<Step>, m: State, last: seq<Step>, t: State)
    requires Run(s, first, m) && Run(m, last, t)
    ensures Run(s, first + last, t)
    decreases |first|
  {
    hide Enabled, Take;
    if first == [] {
      assert first + last == last;
    } else {
      RunJoined(Take(s, first[0]), first[1..], m, last, t);
      assert (first + last)[1..] == first[1..] + last;
    }
  }

  lemma OneStep(s: State, step: Step, rest: seq<Step>, t: State)
    requires Enabled(s, step) && Run(Take(s, step), rest, t)
    ensures Run(s, [step] + rest, t)
  {
    hide Enabled, Take;
    assert ([step] + rest)[1..] == rest;
  }

  lemma TwoSteps(s: State, step: Step, next: Step, rest: seq<Step>, t: State)
    requires Enabled(s, step) && Enabled(Take(s, step), next) && Run(Take(Take(s, step), next), rest, t)
    ensures Run(s, [step, next] + rest, t)
  {
    hide Enabled, Take, Run;
    OneStep(Take(s, step), next, rest, t);
    OneStep(s, step, [next] + rest, t);
    assert [step] + ([next] + rest) == [step, next] + rest;
  }
}
