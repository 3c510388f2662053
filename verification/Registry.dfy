/** signal.go's watchSignal and cancel against the bus daemon: the rules the daemon holds for
    this client are those of the registered watches. Each method is one atomic step (a critical
    section, or one call as the daemon executes it), so every interleaving of callers is a
    sequence of these methods, and Valid is what all of them keep. */
module Registry {
  import opened MessageModule
  import opened SignalIndex
  import opened RuleText

  /** The rule strings of a list of watches. */
  ghost function Texts(ws: seq<SignalWatch>): (r: multiset<Text>)
    ensures |r| == |ws|
  {
    if ws == [] then multiset{} else Texts(ws[..|ws| - 1]) + multiset{RuleString(ws[|ws| - 1].rule)}
  }

  lemma TextsAppended(ws: seq<SignalWatch>, w: SignalWatch)
    ensures Texts(ws + [w]) == Texts(ws) + multiset{RuleString(w.rule)}
  {
    hide RuleString;
    assert (ws + [w])[..|ws|] == ws;
  }

  lemma {:induction false} TextsWithout(ws: seq<SignalWatch>, i: nat)
    requires i < |ws|
    ensures Texts(ws) == Texts(ws[..i] + ws[i + 1..]) + multiset{RuleString(ws[i].rule)}
    decreases |ws|
  {
    hide RuleString;
    var last := |ws| - 1;
    if i < last {
      var init := ws[..last];
      TextsWithout(init, i);
      assert ws[..i] + ws[i + 1..] == (init[..i] + init[i + 1..]) + [ws[last]];
      TextsAppended(init[..i] + init[i + 1..], ws[last]);
    } else {
      assert ws[..i] + ws[i + 1..] == ws[..last];
    }
  }

  lemma Without(ws: seq<SignalWatch>, w: SignalWatch) returns (rest: seq<SignalWatch>)
    requires w in ws
    ensures |rest| == |ws| - 1 && multiset(rest) == multiset(ws) - multiset{w}
    ensures Texts(ws) == Texts(rest) + multiset{RuleString(w.rule)}
  {
    hide RuleString, Texts;
    var i :| 0 <= i < |ws| && ws[i] == w;
    rest := ws[..i] + ws[i + 1..];
    assert ws == ws[..i] + [w] + ws[i + 1..];
    TextsWithout(ws, i);
  }

  /** The rule strings do not depend on the order of the watches. */
  lemma {:induction false} TextsPermuted(ws: seq<SignalWatch>, us: seq<SignalWatch>)
    requires multiset(ws) == multiset(us)
    ensures Texts(ws) == Texts(us)
    decreases |us|
  {
    hide RuleString;
    assert |multiset(ws)| == |ws| && |multiset(us)| == |us|;
    if us != [] {
      var init, last := us[..|us| - 1], us[|us| - 1];
      assert us == init + [last];
      assert last in multiset(ws);
      var rest := Without(ws, last);
      TextsPermuted(rest, init);
    }
  }

  /** Where a watch is in its life. Adding: in the index, AddMatch not answered. Refused:
      AddMatch failed, still in the index. Live: in the index and known to the daemon.
      Removing: taken from the index by cancel, RemoveMatch not executed yet. Lost: RemoveMatch
      failed. Gone: done, and whether RemoveMatch was called for it. */
  datatype Phase = Adding | Refused | Live | Removing | Lost | Gone(asked: bool)

  function Indexed(p: Phase): nat {
    if p == Adding || p == Refused || p == Live then 1 else 0
  }

  function Held(p: Phase): nat {
    if p == Live || p == Removing || p == Lost then 1 else 0
  }

  function Asked(p: Phase): nat {
    if p == Lost || p == Gone(true) then 1 else 0
  }

  /** Every collection holds a watch exactly as often as its phase says. */
  ghost predicate Counted(index: multiset<SignalWatch>, held: multiset<SignalWatch>, removals: multiset<SignalWatch>,
                          phase: map<SignalWatch, Phase>)
  {
    && (forall w :: w in index ==> w in phase)
    && (forall w :: w in held ==> w in phase)
    && (forall w :: w in removals ==> w in phase)
    && (forall w :: w in phase ==>
          index[w] == Indexed(phase[w]) && held[w] == Held(phase[w]) && removals[w] == Asked(phase[w]))
  }

  lemma CountsOf(index: multiset<SignalWatch>, held: multiset<SignalWatch>, removals: multiset<SignalWatch>,
                 phase: map<SignalWatch, Phase>, w: SignalWatch)
    requires Counted(index, held, removals, phase)
    ensures w in phase ==> index[w] == Indexed(phase[w]) && held[w] == Held(phase[w]) && removals[w] == Asked(phase[w])
    ensures w !in phase ==> index[w] == 0 && held[w] == 0 && removals[w] == 0
  {
  }

  /** A watch changes phase and the collections follow. */
  lemma Moved(index: multiset<SignalWatch>, held: multiset<SignalWatch>, removals: multiset<SignalWatch>,
              phase: map<SignalWatch, Phase>, w: SignalWatch, p: Phase)
    requires Counted(index, held, removals, phase)
    ensures Counted(index[w := Indexed(p)], held[w := Held(p)], removals[w := Asked(p)], phase[w := p])
  {
    hide Indexed, Held, Asked;
  }

  class WatchRegistry {
    const index: SignalWatchSet
    /** The daemon's rules for this connection. */
    ghost var daemon: multiset<Text>
    /** The watches whose rules the daemon got and did not lose. */
    ghost var held: seq<SignalWatch>
    ghost var phase: map<SignalWatch, Phase>
    /** The RemoveMatch calls made, by watch. */
    ghost var removals: multiset<SignalWatch>

    ghost predicate Valid()
      reads this, index, phase.Keys
    {
      && index.Valid()
      && daemon == Texts(held)
      && Counted(index.watches, multiset(held), removals, phase)
      && (forall w :: w in phase && w.cancelled ==> phase[w] == Lost || phase[w].Gone?)
    }

    /** No call is in progress. */
    ghost predicate Quiescent()
      reads this
    {
      forall w :: w in phase ==> phase[w] == Live || phase[w] == Lost || phase[w].Gone?
    }

    constructor ()
      ensures Valid() && fresh(index) && Quiescent() && daemon == multiset{} && index.watches == multiset{}
      ensures phase == map[]
    {
      index := new SignalWatchSet();
      daemon, held, phase, removals := multiset{}, [], map[], multiset{};
    }

    /** At every quiescent point the daemon's rules are exactly the rule strings of the
        registered watches, provided no RemoveMatch ever failed, and only then: cancel does not
        try again. RemoveMatch is called at most once for a watch. */
    lemma Agreement(registered: seq<SignalWatch>)
      requires Valid() && Quiescent() && multiset(registered) == index.watches
      ensures daemon == Texts(registered) <==> forall w :: w in phase ==> phase[w] != Lost
      ensures forall w :: w in removals ==> removals[w] == 1 && w !in index.watches
    {
      hide Texts, SignalWatchSet.Valid;
      assert forall w: SignalWatch :: multiset(held)[w] >= index.watches[w];
      if forall w :: w in phase ==> phase[w] != Lost {
        assert multiset(held) == index.watches;
        TextsPermuted(held, registered);
      } else {
        var w :| w in phase && phase[w] == Lost;
        Heavier(multiset(held), index.watches, w);
        assert |multiset(held)| == |held| && |multiset(registered)| == |registered|;
      }
    }

    /** watchSignal, first critical section. */
    method BeginWatch(rule: MatchRule) returns (watch: SignalWatch)
      requires Valid()
      modifies this, index
      ensures Valid() && fresh(watch) && watch.rule == rule && !watch.cancelled && watch !in old(phase)
      ensures phase == old(phase)[watch := Adding] && index.watches == old(index.watches) + multiset{watch}
      ensures daemon == old(daemon) && held == old(held) && removals == old(removals)
    {
      hide Texts, SignalWatchSet.Valid, Counted;
      watch := new SignalWatch(rule);
      CountsOf(index.watches, multiset(held), removals, phase, watch);
      Moved(index.watches, multiset(held), removals, phase, watch, Adding);
      index.Add(watch);
      phase := phase[watch := Adding];
      assert multiset(held) == multiset(held)[watch := 0] && removals == removals[watch := 0];
      assert index.watches == old(index.watches)[watch := 1];
    }

    /** The daemon accepts AddMatch. */
    ghost method DaemonAccepts(watch: SignalWatch)
      requires Valid() && watch in phase && phase[watch] == Adding
      modifies this
      ensures Valid() && phase == old(phase)[watch := Live]
      ensures daemon == old(daemon) + multiset{RuleString(watch.rule)} && removals == old(removals)
    {
      hide Texts, SignalWatchSet.Valid, Counted, RuleString;
      CountsOf(index.watches, multiset(held), removals, phase, watch);
      Moved(index.watches, multiset(held), removals, phase, watch, Live);
      TextsAppended(held, watch);
      daemon := daemon + multiset{RuleString(watch.rule)};
      held := held + [watch];
      phase := phase[watch := Live];
      assert multiset(held) == multiset(old(held))[watch := 1] && removals == removals[watch := 0];
      assert index.watches == index.watches[watch := 1];
    }

    /** The daemon refuses AddMatch. */
    ghost method DaemonRefuses(watch: SignalWatch)
      requires Valid() && watch in phase && phase[watch] == Adding
      modifies this
      ensures Valid() && phase == old(phase)[watch := Refused]
      ensures daemon == old(daemon) && removals == old(removals)
    {
      hide Texts, SignalWatchSet.Valid, Counted;
      CountsOf(index.watches, multiset(held), removals, phase, watch);
      Moved(index.watches, multiset(held), removals, phase, watch, Refused);
      phase := phase[watch := Refused];
      assert multiset(held) == multiset(held)[watch := 0] && removals == removals[watch := 0];
      assert index.watches == index.watches[watch := 1];
    }

    /** watchSignal's error path. */
    method UndoWatch(watch: SignalWatch)
      requires Valid() && watch in phase && phase[watch] == Refused
      modifies this, index
      ensures Valid() && phase == old(phase)[watch := Gone(false)]
      ensures index.watches == old(index.watches) - multiset{watch}
      ensures daemon == old(daemon) && removals == old(removals)
    {
      hide Texts, SignalWatchSet.Valid, Counted;
      CountsOf(index.watches, multiset(held), removals, phase, watch);
      Moved(index.watches, multiset(held), removals, phase, watch, Gone(false));
      var found := index.Remove(watch);
      phase := phase[watch := Gone(false)];
      assert multiset(held) == multiset(held)[watch := 0] && removals == removals[watch := 0];
      assert index.watches == old(index.watches)[watch := 0];
    }

    /** cancel, up to the local removal, on a watch that watchSignal returned and under its
        cancelLock: while it is adding or being removed no other cancel can be here. */
    method BeginCancel(watch: SignalWatch) returns (found: bool)
      requires Valid() && watch in phase && (phase[watch] == Live || phase[watch] == Lost || phase[watch].Gone?)
      modifies this, index, watch
      ensures Valid()
      ensures found == (old(phase[watch]) == Live)
      ensures phase == if found then old(phase)[watch := Removing] else old(phase)
      ensures index.watches == if found then old(index.watches) - multiset{watch} else old(index.watches)
      ensures watch.cancelled == !found
      ensures daemon == old(daemon) && removals == old(removals)
    {
      hide Texts, SignalWatchSet.Valid, Counted;
      if watch.cancelled { return false; }
      found := TakeFromIndex(watch);
      if !found { watch.cancelled := true; }
    }

    /** The local half of cancel. */
    method TakeFromIndex(watch: SignalWatch) returns (found: bool)
      requires Valid() && watch in phase && (phase[watch] == Live || phase[watch] == Lost || phase[watch].Gone?)
      modifies this, index
      ensures Valid() && found == (old(phase[watch]) == Live)
      ensures phase == if found then old(phase)[watch := Removing] else old(phase)
      ensures index.watches == if found then old(index.watches) - multiset{watch} else old(index.watches)
      ensures daemon == old(daemon) && removals == old(removals)
    {
      hide Texts, SignalWatchSet.Valid, Counted;
      CountsOf(index.watches, multiset(held), removals, phase, watch);
      Moved(index.watches, multiset(held), removals, phase, watch, Removing);
      found := index.Remove(watch);
      if found {
        phase := phase[watch := Removing];
        assert multiset(held) == multiset(held)[watch := 1] && removals == removals[watch := 0];
        assert index.watches == old(index.watches)[watch := 0];
      }
    }

    /** RemoveMatch is executed by the daemon, or fails and is not; cancel returns. */
    method FinishCancel(watch: SignalWatch, removed: bool)
      requires Valid() && watch in phase && phase[watch] == Removing
      modifies this, watch
      ensures Valid() && watch.cancelled == removed
      ensures phase == old(phase)[watch := if removed then Gone(true) else Lost]
      ensures daemon == if removed then old(daemon) - multiset{RuleString(watch.rule)} else old(daemon)
      ensures removals == old(removals) + multiset{watch}
    {
      hide Texts, SignalWatchSet.Valid, Counted, RuleString;
      ghost var next := if removed then Gone(true) else Lost;
      CountsOf(index.watches, multiset(held), removals, phase, watch);
      Moved(index.watches, multiset(held), removals, phase, watch, next);
      if removed {
        ForgetRule(watch);
        watch.cancelled := true;
      }
      phase := phase[watch := next];
      removals := removals + multiset{watch};
      assert multiset(held) == multiset(old(held))[watch := Held(next)] && removals == old(removals)[watch := 1];
      assert index.watches == index.watches[watch := 0];
    }

    /** The daemon drops one rule with this text. */
    ghost method ForgetRule(watch: SignalWatch)
      requires daemon == Texts(held) && multiset(held)[watch] == 1
      modifies `daemon, `held
      ensures daemon == Texts(held) && daemon == old(daemon) - multiset{RuleString(watch.rule)}
      ensures multiset(held) == multiset(old(held))[watch := 0]
    {
      hide Texts, RuleString;
      assert watch in multiset(held);
      held := Without(held, watch);
      daemon := daemon - multiset{RuleString(watch.rule)};
    }

    /** A name watch's callback: it does not touch what the registry is about. */
    method SetSenderOwner(rule: MatchRule, owner: Text)
      requires Valid()
      modifies rule`senderNameOwner
      ensures Valid() && rule.senderNameOwner == owner
    {
      hide SignalWatchSet.Valid, Counted;
      rule.senderNameOwner := owner;
    }

    /** watchSignal from start to end, with the daemon's answer as a parameter. Other calls may be
        in progress. */
    method WatchSignal(rule: MatchRule, accepted: bool) returns (watch: SignalWatch?)
      requires Valid()
      modifies this, index
      ensures Valid() && (old(Quiescent()) ==> Quiescent())
      ensures watch != null <==> rule.kind == TYPE_SIGNAL && accepted
      ensures watch != null ==>
        fresh(watch) && watch.rule == rule && index.watches == old(index.watches) + multiset{watch}
        && daemon == old(daemon) + multiset{RuleString(rule)}
      ensures watch == null ==> index.watches == old(index.watches) && daemon == old(daemon)
    {
      hide Texts, SignalWatchSet.Valid, Counted, RuleString;
      if rule.kind != TYPE_SIGNAL { return null; }
      var w := BeginWatch(rule);
      if accepted {
        DaemonAccepts(w);
        watch := w;
      } else {
        DaemonRefuses(w);
        UndoWatch(w);
        watch := null;
      }
    }

    /** cancel from start to end, on a watch that watchSignal returned; if it is gone nothing
        changes. Other calls may be in progress. */
    method Cancel(watch: SignalWatch, removed: bool)
      requires Valid() && watch in phase && (phase[watch] == Live || phase[watch] == Lost || phase[watch].Gone?)
      modifies this, index, watch
      ensures Valid() && (old(Quiescent()) ==> Quiescent())
      ensures watch in old(index.watches) ==>
        watch.cancelled == removed && index.watches == old(index.watches) - multiset{watch}
        && daemon == if removed then old(daemon) - multiset{RuleString(watch.rule)} else old(daemon)
      ensures watch !in old(index.watches) ==>
        watch.cancelled && index.watches == old(index.watches) && daemon == old(daemon)
    {
      hide Texts, SignalWatchSet.Valid, Counted, RuleString, MatchRule.Matches;
      CountsOf(index.watches, multiset(held), removals, phase, watch);
      var found := BeginCancel(watch);
      if found { FinishCancel(watch, removed); }
    }
  }

  lemma Heavier(big: multiset<SignalWatch>, small: multiset<SignalWatch>, w: SignalWatch)
    requires forall u: SignalWatch :: big[u] >= small[u]
    requires big[w] > small[w]
    ensures |big| > |small|
  {
    assert big == small + (big - small);
    assert w in big - small;
  }
}
