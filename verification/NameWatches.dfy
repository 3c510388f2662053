/** names.go's registry of watched bus names: handleOwnerChange, checkCurrentOwner,
    ensureNameWatch and removeNameWatch. The methods of NameRegistry, up to RemoveNameWatch, are
    critical sections of the lock of one nameInfo or of the registry, so every interleaving is a
    sequence of their calls, and Valid is what all of them keep; the methods after it put them
    together. */
module NameWatches {
  import opened Bytes
  import opened SignalIndex
  import NameOwner

  class NameWatch {
    const info: NameInfo
    /** Where in the history of owners this watch starts. */
    ghost const since: nat
    /** The calls of the callback. */
    var log: seq<Text>

    constructor (info: NameInfo, ghost since: nat)
      ensures this.info == info && this.since == since && log == []
    {
      this.info, this.since, log := info, since, [];
    }

    method Call(owner: Text)
      modifies `log
      ensures log == old(log) + [owner]
    {
      log := log + [owner];
    }
  }

  class NameInfo {
    const busName: Text
    /** The owner, once known; the source writes a NUL string while it is not. */
    var currentOwner: Option<Text>
    var watches: seq<NameWatch>
    /** The signal watch of this nameInfo is not cancelled. */
    var listening: bool
    /** The owners handleOwnerChange was called with. */
    ghost var history: seq<Text>

    /** Every watch was called with exactly the owners from the one that was current when it was
        registered on. */
    ghost predicate Valid()
      reads `currentOwner, `watches, `history, watches
    {
      && currentOwner == (if history == [] then None else Some(history[|history| - 1]))
      && (forall i, j :: 0 <= i < j < |watches| ==> watches[i] != watches[j])
      && (forall w :: w in watches ==> w.info == this && w.since <= |history| && w.log == history[w.since..])
    }

    constructor (busName: Text)
      ensures Valid() && this.busName == busName && watches == [] && history == [] && listening
    {
      this.busName, currentOwner, watches, listening, history := busName, None, [], true, [];
    }

    method HandleOwnerChange(newOwner: Text)
      requires Valid()
      modifies `currentOwner, `history, watches`log
      ensures Valid() && history == old(history) + [newOwner]
      ensures forall w :: w in watches ==> w.log == old(w.log) + [newOwner]
    {
      currentOwner := Some(newOwner);
      history := history + [newOwner];
      for i := 0 to |watches|
        invariant currentOwner == Some(newOwner) && history == old(history) + [newOwner]
        invariant forall j :: 0 <= j < i ==> watches[j].log == old(watches[j].log) + [newOwner]
        invariant forall j :: i <= j < |watches| ==> watches[j].log == old(watches[j].log)
      {
        watches[i].Call(newOwner);
      }
    }

    /** The answer of the lookup counts only while no notification came. */
    method CheckCurrentOwner(looked: Text)
      requires Valid()
      modifies `currentOwner, `history, watches`log
      ensures Valid() && history == if old(history) == [] then [looked] else old(history)
      ensures old(history) != [] ==> forall w :: w in watches ==> w.log == old(w.log)
    {
      if currentOwner == None { HandleOwnerChange(looked); }
    }

    method Append(watch: NameWatch)
      requires Valid() && watch.info == this && watch !in watches
      requires watch.log == [] && watch.since == if history == [] then 0 else |history| - 1
      modifies `watches, watch`log
      ensures Valid() && watches == old(watches) + [watch]
      ensures watch.log == if history == [] then [] else [history[|history| - 1]]
    {
      watches := watches + [watch];
      if currentOwner != None { watch.Call(currentOwner.value); }
    }

    /** The last watch takes the place of the removed one; no watch is called. */
    method Drop(watch: NameWatch) returns (found: bool)
      requires Valid()
      modifies `watches
      ensures Valid() && found == (watch in old(watches))
      ensures multiset(watches) == multiset(old(watches)) - multiset{watch}
      ensures if found then |watches| == |old(watches)| - 1 else watches == old(watches)
      ensures forall w :: w in watches ==> w in old(watches)
    {
      hide Valid;
      for i := 0 to |watches|
        invariant Valid() && watch !in watches[..i] && watches == old(watches)
      {
        if watches[i] == watch {
          DropAt(i);
          return true;
        }
      }
      found := false;
      assert watch !in multiset(watches);
    }

    method DropAt(i: nat)
      requires Valid() && i < |watches|
      modifies `watches
      ensures Valid() && |watches| == |old(watches)| - 1
      ensures multiset(watches) == multiset(old(watches)) - multiset{old(watches[i])}
      ensures forall w :: w in watches ==> w in old(watches)
    {
      SwapRemove(watches, i);
      StillDistinct(watches, i);
      var last := |watches| - 1;
      watches := watches[i := watches[last]];
      watches := watches[..last];
    }

    lemma Own()
      requires Valid()
      ensures forall w :: w in watches ==> w.info == this && w.since <= |history| && w.log == history[w.since..]
      ensures forall w :: w in watches ==> |w.log| == |history| - w.since
    {
    }
  }

  lemma StillDistinct(s: seq<NameWatch>, i: nat)
    requires i < |s| && forall j, k :: 0 <= j < k < |s| ==> s[j] != s[k]
    ensures var t := s[i := s[|s| - 1]][..|s| - 1]; forall j, k :: 0 <= j < k < |t| ==> t[j] != t[k]
  {
  }

  /** What removeNameWatch comes back with. */
  datatype Removal = Removed | AlreadyCancelled | CancelFailed

  class NameRegistry {
    var nameInfo: map<Text, NameInfo>
    /** Every nameInfo that was ever made. */
    ghost var infos: set<NameInfo>
    /** Every watch that was ever made. */
    ghost var made: set<NameWatch>
    /** The nameInfo a call of ensureNameWatch works on; it holds nameInfoMutex. */
    ghost var busy: NameInfo?

    /** Unless ensureNameWatch is at work on it: a name has an entry if and only if it has a watch,
        the entry is the one nameInfo with watches, and exactly the entries listen for signals. */
    ghost predicate Valid()
      reads this, infos, made
    {
      && Sound()
      && (forall i :: i in infos && i != busy ==> Listed(i))
      && (busy != null ==> busy in infos && InWork(busy))
    }

    ghost predicate Sound()
      reads this, infos, made
    {
      && (forall k :: k in nameInfo ==> nameInfo[k] in infos && nameInfo[k].busName == k)
      && (forall i :: i in infos ==> (forall w :: w in i.watches ==> w in made) && i.Valid())
    }

    ghost predicate Listed(i: NameInfo)
      reads `nameInfo, i`watches, i`listening, i`history
    {
      && (i.watches != [] <==> i.busName in nameInfo && nameInfo[i.busName] == i)
      && i.listening == (i.watches != [])
      && (i.watches != [] ==> i.history != [])
    }

    /** New and not in the table yet, or in the table with its owner known. */
    ghost predicate InWork(i: NameInfo)
      reads `nameInfo, i`watches, i`listening, i`history
    {
      i.listening && if i.busName in nameInfo then nameInfo[i.busName] == i && i.history != [] else i.watches == []
    }

    constructor ()
      ensures Valid() && nameInfo == map[] && infos == {} && made == {} && busy == null
    {
      nameInfo, infos, made, busy := map[], {}, {}, null;
    }

    /** A NameOwnerChanged signal reaches a nameInfo, at any moment: also one in work, and one that
        was removed. */
    method OwnerChanged(info: NameInfo, newOwner: Text)
      requires Valid() && info in infos
      modifies info`currentOwner, info`history, info.watches`log
      ensures Valid() && info.history == old(info.history) + [newOwner]
      ensures forall w :: w in info.watches ==> w.log == old(w.log) + [newOwner]
    {
      hide NameInfo.Valid;
      forall i | i in infos { i.Own(); }
      info.HandleOwnerChange(newOwner);
      assert forall i :: i in infos && i != info ==> i.Valid();
    }

    /** ensureNameWatch finds an entry. */
    method Find(busName: Text) returns (info: NameInfo?)
      requires Valid() && busy == null
      modifies `busy
      ensures Valid() && info == busy && (info != null <==> busName in nameInfo)
      ensures info != null ==> info in infos && info == nameInfo[busName] && info.busName == busName
    {
      hide NameInfo.Valid;
      info := null;
      if busName in nameInfo { info := nameInfo[busName]; }
      busy := info;
    }

    /** newNameInfo, until its signal watch is in the index. */
    method NewInfo(busName: Text) returns (info: NameInfo)
      requires Valid() && busy == null && busName !in nameInfo
      modifies `infos, `busy
      ensures Valid() && busy == info && fresh(info) && infos == old(infos) + {info}
      ensures info.busName == busName && info.watches == [] && info.history == []
    {
      hide NameInfo.Valid;
      info := new NameInfo(busName);
      infos, busy := infos + {info}, info;
      assert forall i :: i in infos && i != info ==> i.Valid();
    }

    /** AddMatch failed: newNameInfo returns the error and the nameInfo is dropped. */
    method Abandon(info: NameInfo)
      requires Valid() && busy == info && info.busName !in nameInfo
      modifies `busy, info`listening
      ensures Valid() && busy == null && !info.listening
    {
      hide NameInfo.Valid;
      info.listening := false;
      busy := null;
    }

    /** AddMatch succeeded and the lookup is answered. */
    method Lookup(info: NameInfo, looked: Text)
      requires Valid() && info in infos
      modifies info`currentOwner, info`history, info.watches`log
      ensures Valid() && info.history == if old(info.history) == [] then [looked] else old(info.history)
      ensures old(info.history) != [] ==> forall w :: w in info.watches ==> w.log == old(w.log)
    {
      hide NameInfo.Valid;
      info.CheckCurrentOwner(looked);
      assert forall i :: i in infos && i != info ==> i.Valid();
    }

    /** ensureNameWatch stores the new entry. */
    method Store(info: NameInfo)
      requires Valid() && busy == info && info.busName !in nameInfo && info.history != []
      modifies `nameInfo
      ensures Valid() && nameInfo == old(nameInfo)[info.busName := info]
    {
      hide NameInfo.Valid;
      nameInfo := nameInfo[info.busName := info];
    }

    /** The end of ensureNameWatch: the watch is called at once, with the current owner. */
    method Register(info: NameInfo) returns (watch: NameWatch)
      requires Valid() && busy == info && info.busName in nameInfo
      modifies `made, `busy, info`watches
      ensures Valid() && busy == null && fresh(watch) && watch.info == info
      ensures info.watches == old(info.watches) + [watch]
      ensures info.history != [] && watch.log == [info.history[|info.history| - 1]]
    {
      hide NameInfo.Valid, Listed;
      InMap(info);
      watch := new NameWatch(info, |info.history| - 1);
      made := made + {watch};
      info.Append(watch);
      assert forall i :: i in infos && i != info ==> i.Valid() && Listed(i);
      Listing(info);
      busy := null;
    }

    lemma InMap(info: NameInfo)
      requires InWork(info) && info.busName in nameInfo
      ensures nameInfo[info.busName] == info && info.listening && info.history != []
    {
    }

    lemma Listing(info: NameInfo)
      requires info.busName in nameInfo && nameInfo[info.busName] == info
      requires info.listening && info.history != [] && info.watches != []
      ensures Listed(info)
    {
    }

    /** removeNameWatch: an error if the watch is not registered any more, or if the signal watch of
        its last watch cannot be cancelled; the entry goes all the same. */
    method RemoveNameWatch(watch: NameWatch, cancelled: bool) returns (r: Removal)
      requires Valid() && busy == null && watch.info in infos
      modifies `nameInfo, watch.info`watches, watch.info`listening
      ensures Valid()
      ensures r == AlreadyCancelled <==> watch !in old(watch.info.watches)
      ensures r == CancelFailed <==> watch in old(watch.info.watches) && watch.info.watches == [] && !cancelled
      ensures multiset(watch.info.watches) == multiset(old(watch.info.watches)) - multiset{watch}
      ensures nameInfo ==
        if r != AlreadyCancelled && watch.info.watches == [] then old(nameInfo) - {watch.info.busName}
        else old(nameInfo)
    {
      hide NameInfo.Valid, InWork;
      var info := watch.info;
      assert Listed(info);
      var found := info.Drop(watch);
      assert forall i :: i in infos && i != info ==> i.Valid() && Listed(i);
      if !found { return AlreadyCancelled; }
      if |info.watches| != 0 { return Removed; }
      nameInfo := nameInfo - {info.busName};
      info.listening := false;
      assert forall i :: i in infos && i != info ==> i.Valid() && Listed(i);
      r := if cancelled then Removed else CancelFailed;
    }

    /** Several signals for one nameInfo. */
    method OwnersChanged(info: NameInfo, owners: seq<Text>)
      requires Valid() && info in infos
      modifies info`currentOwner, info`history, info.watches`log
      ensures Valid() && info.history == old(info.history) + owners
      ensures forall w :: w in info.watches ==> w.log == old(w.log) + owners
    {
      hide Valid, NameInfo.Valid;
      for k := 0 to |owners|
        invariant Valid() && info.history == old(info.history) + owners[..k]
        invariant forall w :: w in info.watches ==> w.log == old(w.log) + owners[..k]
      {
        assert owners[..k + 1] == owners[..k] + [owners[k]];
        OwnerChanged(info, owners[k]);
      }
      assert owners[..|owners|] == owners;
    }

    /** newNameInfo from start to end, with the signals that arrive before its lookup is answered.
        Without a signal watch there is no nameInfo. */
    method NewNameInfo(busName: Text, installed: bool, notified: seq<Text>, looked: Text) returns (info: NameInfo?)
      requires Valid() && busy == null && busName !in nameInfo
      modifies `infos, `busy
      ensures Valid() && busy == info && (info != null <==> installed) && old(infos) <= infos
      ensures info != null ==>
        fresh(info) && info in infos && info.busName == busName && info.watches == []
        && info.history == if notified == [] then [looked] else notified
    {
      hide NameInfo.Valid, Valid;
      var i := NewInfo(busName);
      OwnersChanged(i, notified);
      if !installed {
        Abandon(i);
        return null;
      }
      Lookup(i, looked);
      assert [] + notified == notified;
      info := i;
    }

    /** ensureNameWatch from start to end; `late` are the signals that arrive just before the watch
        is registered. The new watch is called at once, with the current owner. */
    method EnsureNameWatch(busName: Text, installed: bool, notified: seq<Text>, looked: Text, late: seq<Text>)
        returns (watch: NameWatch?)
      requires Valid() && busy == null
      modifies this
      modifies if busName in nameInfo then {nameInfo[busName]} else {}
      modifies if busName in nameInfo then nameInfo[busName].watches else []
      ensures Valid() && busy == null
      ensures watch == null <==> busName !in old(nameInfo) && !installed
      ensures watch == null ==> nameInfo == old(nameInfo)
      ensures watch != null ==>
        fresh(watch) && nameInfo == old(nameInfo)[busName := watch.info]
        && watch.info.history != [] && watch.log == [watch.info.history[|watch.info.history| - 1]]
      ensures watch != null && busName in old(nameInfo) ==>
        watch.info == old(nameInfo[busName]) && watch.info.history == old(nameInfo[busName].history) + late
        && watch.info.watches == old(nameInfo[busName].watches) + [watch]
      ensures watch != null && busName !in old(nameInfo) ==>
        fresh(watch.info) && watch.info.watches == [watch]
        && watch.info.history == (if notified == [] then [looked] else notified) + late
    {
      hide NameInfo.Valid, Valid;
      var info := Find(busName);
      if info == null {
        info := NewNameInfo(busName, installed, notified, looked);
        if info == null { return null; }
        Store(info);
        OwnersChanged(info, late);
      } else {
        OwnersChanged(info, late);
      }
      watch := Register(info);
    }

    /** What Valid means for a live watch: its calls are the contiguous end of the owner history
        of its name, from where it was registered, whatever happened to other watches. */
    lemma Suffix(watch: NameWatch)
      requires Valid() && watch.info in infos && watch in watch.info.watches
      ensures watch.since <= |watch.info.history| && watch.log == watch.info.history[watch.since..]
      ensures watch.info.busName in nameInfo && nameInfo[watch.info.busName] == watch.info && watch.info.listening
    {
    }

    /** Together with the race: if the nameInfo was told what a run of NameOwner tells it, no
        change was missed and its lookup did not fail, then a live watch saw consecutive owners of
        the name, and the owners after them are exactly those still in the daemon's queue. */
    lemma Observed(watch: NameWatch, s: NameOwner.State, steps: seq<NameOwner.Step>, t: NameOwner.State)
      returns (from: nat)
      requires Valid() && watch.info in infos && watch in watch.info.watches
      requires NameOwner.Init(s) && NameOwner.Run(s, steps, t) && t.gap == None && !t.guessed
      requires watch.info.history == t.told
      ensures from + |watch.log| + |NameOwner.Places(t.queue)| == |t.history|
      ensures watch.log == t.history[from..from + |watch.log|]
      ensures forall i :: 0 <= i < |NameOwner.Places(t.queue)| ==>
        NameOwner.Places(t.queue)[i] == from + |watch.log| + i
    {
      hide NameOwner.Run, NameOwner.Places, NameOwner.Init, NameOwner.Truthful, Valid, NameInfo.Valid;
      var start := NameOwner.ToldContiguous(s, steps, t);
      Suffix(watch);
      from := start + watch.since;
      var part := t.history[start..start + |t.heard|];
      assert [] + part == part;
      assert part[watch.since..] == t.history[from..start + |t.heard|];
    }
  }
}
