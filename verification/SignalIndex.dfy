/** matchrule.go's Match and signal.go's signalWatchSet: the three-level index of watches. A watch
    is in a list under its path, interface and member, with the empty text for one its rule does
    not set, so that at most eight lists can hold the watches for a message. The index finds
    exactly the watches that Match finds among all. */
module SignalIndex {
  import opened Bytes
  import opened Types
  import opened Values
  import opened Marshal
  import opened Unmarshal
  import opened RoundTrip
  import opened Codec
  import opened MessageModule
  import opened Octets

  type Text = seq<byte>

  class MatchRule {
    const kind: byte
    const sender: Text
    const path: Text
    const iface: Text
    const member: Text
    const arg0: Text
    /** The unique name that currently owns `sender`. */
    var senderNameOwner: Text

    constructor (kind: byte, sender: Text, path: Text, iface: Text, member: Text, arg0: Text)
      ensures this.kind == kind && this.sender == sender && this.path == path && this.iface == iface
      ensures this.member == member && this.arg0 == arg0 && senderNameOwner == []
    {
      this.kind, this.sender, this.path, this.iface := kind, sender, path, iface;
      this.member, this.arg0, senderNameOwner := member, arg0, [];
    }

    /** What a rule asks of a message. Empty fields ask nothing. */
    ghost predicate Matches(m: Msg)
      reads this
    {
      && (kind != 0 ==> kind == m.kind)
      && (sender != [] ==> sender == m.sender || senderNameOwner == m.sender)
      && (path != [] ==> path == m.path)
      && (iface != [] ==> iface == m.iface)
      && (member != [] ==> member == m.member)
      && (arg0 != [] ==> FirstText(m) == Some(arg0))
    }

    method Match(m: Msg) returns (r: bool)
      ensures r == Matches(m)
      ensures kind != 0 && m.kind != kind ==> !r
      ensures sender != [] && m.sender != sender && m.sender != senderNameOwner ==> !r
      ensures path != [] && m.path != path ==> !r
      ensures iface != [] && m.iface != iface ==> !r
      ensures member != [] && m.member != member ==> !r
      ensures arg0 != [] && FirstText(m) != Some(arg0) ==> !r
      ensures (kind == 0 || m.kind == kind)
           && (sender == [] || m.sender == sender || m.sender == senderNameOwner)
           && (path == [] || m.path == path) && (iface == [] || m.iface == iface)
           && (member == [] || m.member == member) && (arg0 == [] || FirstText(m) == Some(arg0))
           ==> r
    {
      if kind != 0 && kind != m.kind { return false; }
      if sender != [] {
        if !(sender == m.sender || senderNameOwner == m.sender) { return false; }
      }
      if path != [] && path != m.path { return false; }
      if iface != [] && iface != m.iface { return false; }
      if member != [] && member != m.member { return false; }
      if arg0 != [] {
        if FirstText(m) != Some(arg0) { return false; }
      }
      r := true;
    }
  }

  /** The first argument, decoded into a string. */
  function FirstText(m: Msg): Option<Text> {
    match DecodeArgs(Input(m.order, m.body), m.sig, [TStr(Str)], 0, 0, 0)
    case Err(_) => None
    case Ok(vs, _, _) => if |vs| == 1 && vs[0].VStr? then Some(vs[0].text) else None
  }

  /** The text in the first octets of the body, if the first letter of the signature says so. */
  lemma FirstTextOctets(m: Msg, n: nat)
    requires |m.body| >= 4 ==> Stands(m.order, m.body[..4], n)
    ensures m.sig == [] || m.sig[0] !in {115, 111, 103} ==> FirstText(m) == None
    ensures m.sig != [] && (m.sig[0] == 115 || m.sig[0] == 111) ==>
      FirstText(m) == if 4 + n + 1 <= |m.body| then Some(m.body[4..4 + n]) else None
    ensures m.sig != [] && m.sig[0] == 103 ==>
      FirstText(m) ==
        if m.body != [] && 1 + m.body[0] + 1 <= |m.body| then Some(m.body[1..1 + m.body[0]]) else None
  {
    hide Decode, Stands;
    var d, t := Input(m.order, m.body), TStr(Str);
    OneArg(d, m.sig, t);
    if m.sig == [] {
      DecodesNothing(d, m.sig, t, 0, 0);
    } else if m.sig[0] == 115 || m.sig[0] == 111 {
      assert |m.body| >= 4 ==> m.body[0..4] == m.body[..4];
      DecodesText(d, m.sig, t, 0, 0, 0, n);
    } else if m.sig[0] == 103 {
      DecodesSignature(d, m.sig, t, 0, 0);
    } else {
      NotText(d, m.sig);
    }
  }

  lemma OneArg(d: Input, sig: Signature, t: Ty)
    ensures
      var r := Decode(d, sig, t, 0, 0);
      DecodeArgs(d, sig, [t], 0, 0, 0) == if r.Err? then Err(r.error) else Ok([r.value], r.off, r.soff)
  {
    hide Decode;
    var r := Decode(d, sig, t, 0, 0);
    ArgsStep(d, sig, [t], 0, 0, 0);
    if r.Ok? {
      ArgsStep(d, sig, [t], 1, r.off, r.soff);
      assert [r.value] + [] == [r.value];
    }
  }

  /** Under any other letter nothing comes out that is a text. */
  lemma NotText(d: Input, sig: Signature)
    requires sig != [] && sig[0] !in {115, 111, 103}
    ensures var r := Decode(d, sig, TStr(Str), 0, 0); r.Err? || !r.value.VStr?
  {
    hide DecodeArray, ReadUint, ReadSignature, ReadString, DecodeFields;
    ArrayNotText(d, sig, 0, 1);
  }

  lemma ArrayNotText(d: Input, sig: Signature, off: nat, soff: nat)
    ensures var r := DecodeArray(d, sig, TStr(Str), off, soff); r.Ok? ==> r.value == VUntouched
  {
    hide ReadUint, NextType;
  }

  /** A text appended first is what arg0 is compared with, whatever is appended after it. */
  lemma FirstTextIsAppended(m: Msg, text: Text, us: seq<Ty>, ws: seq<Val>)
    requires m.sig == [] && m.body == [] && |text| + 5 < WORD && FieldsEncodable(us, ws)
    ensures FieldsEncodable([TStr(Str)], [VStr(Str, text)])
    ensures FirstText(Appended(Appended(m, [TStr(Str)], [VStr(Str, text)]), us, ws)) == Some(text)
  {
    hide Fields, SigsOf, DecodeArgs;
    var ts, vs := [TStr(Str)], [VStr(Str, text)];
    LastField(m.order, 0, ts[0], vs[0]);
    assert GoodArgs(ts, vs) && RelocatableArgs(ts, vs);
    FieldsSeparateIsInPlace(m.order, 0, ts, vs, 0);
    RelocatableRoundTrip(m.order, 0, ts, vs);
    OwnTargets(ts, vs);
    FirstArgsStable(m, ts, ts, us, vs, ws);
    assert ViewArgs(ts, vs)[0] == vs[0];
    var a := Appended(Appended(m, ts, vs), us, ws);
    assert DecodeArgs(Input(a.order, a.body), a.sig, ts, 0, 0, 0).Ok?;
  }

  class SignalWatch {
    const rule: MatchRule
    var cancelled: bool

    constructor (rule: MatchRule)
      ensures this.rule == rule && !cancelled
    {
      this.rule, cancelled := rule, false;
    }
  }

  type ByMember = map<Text, seq<SignalWatch>>
  type ByInterface = map<Text, ByMember>
  type ByPath = map<Text, ByInterface>

  function Members(m: ByMember, k: Text): seq<SignalWatch> {
    if k in m then m[k] else []
  }

  function Interfaces(m: ByInterface, k: Text): ByMember {
    if k in m then m[k] else map[]
  }

  function Paths(m: ByPath, k: Text): ByInterface {
    if k in m then m[k] else map[]
  }

  ghost predicate MembersKeyed(m: ByMember) {
    forall k, i :: k in m && 0 <= i < |m[k]| ==> m[k][i].rule.member == k
  }

  ghost predicate InterfacesKeyed(m: ByInterface) {
    && (forall k :: k in m ==> MembersKeyed(m[k]))
    && forall k, l, i :: k in m && l in m[k] && 0 <= i < |m[k][l]| ==> m[k][l][i].rule.iface == k
  }

  ghost predicate PathsKeyed(m: ByPath) {
    && (forall k :: k in m ==> InterfacesKeyed(m[k]))
    && forall k, j, l, i :: k in m && j in m[k] && l in m[k][j] && 0 <= i < |m[k][j][l]| ==>
         m[k][j][l][i].rule.path == k
  }

  ghost predicate Distinct(keys: seq<Text>) {
    forall i, j :: 0 <= i < j < |keys| ==> keys[i] != keys[j]
  }

  /** How often `w` is in the list its keys lead to. */
  ghost function InMembers(m: ByMember, w: SignalWatch): nat {
    multiset(Members(m, w.rule.member))[w]
  }

  ghost function InInterfaces(m: ByInterface, w: SignalWatch): nat {
    InMembers(Interfaces(m, w.rule.iface), w)
  }

  ghost function InPaths(m: ByPath, w: SignalWatch): nat {
    InInterfaces(Paths(m, w.rule.path), w)
  }

  method CollectList(watches: seq<SignalWatch>, msg: Msg, acc: seq<SignalWatch>) returns (r: seq<SignalWatch>)
    ensures forall w: SignalWatch ::
      multiset(r)[w] == multiset(acc)[w] + if w.rule.Matches(msg) then multiset(watches)[w] else 0
  {
    r := acc;
    for i := 0 to |watches|
      invariant forall w: SignalWatch ::
        multiset(r)[w] == multiset(acc)[w] + if w.rule.Matches(msg) then multiset(watches[..i])[w] else 0
    {
      assert watches[..i + 1] == watches[..i] + [watches[i]];
      var hit := watches[i].rule.Match(msg);
      if hit { r := r + [watches[i]]; }
    }
    assert watches[..|watches|] == watches;
  }

  method CollectMembers(m: ByMember, keys: seq<Text>, msg: Msg, acc: seq<SignalWatch>) returns (r: seq<SignalWatch>)
    requires MembersKeyed(m) && Distinct(keys)
    ensures forall w: SignalWatch ::
      multiset(r)[w] == multiset(acc)[w] + if w.rule.Matches(msg) && w.rule.member in keys then InMembers(m, w) else 0
  {
    r := acc;
    for i := 0 to |keys|
      invariant forall w: SignalWatch ::
        multiset(r)[w] == multiset(acc)[w]
          + if w.rule.Matches(msg) && w.rule.member in keys[..i] then InMembers(m, w) else 0
    {
      assert keys[..i + 1] == keys[..i] + [keys[i]];
      assert forall w: SignalWatch :: w.rule.member != keys[i] ==> multiset(Members(m, keys[i]))[w] == 0 by {
        OtherMember(m, keys[i]);
      }
      if keys[i] in m {
        r := CollectList(m[keys[i]], msg, r);
      }
    }
    assert keys[..|keys|] == keys;
  }

  lemma OtherMember(m: ByMember, k: Text)
    requires MembersKeyed(m)
    ensures forall w: SignalWatch :: w in Members(m, k) ==> w.rule.member == k
  {
  }

  method CollectInterfaces(m: ByInterface, ikeys: seq<Text>, mkeys: seq<Text>, msg: Msg, acc: seq<SignalWatch>)
    returns (r: seq<SignalWatch>)
    requires InterfacesKeyed(m) && Distinct(ikeys) && Distinct(mkeys)
    ensures forall w: SignalWatch ::
      multiset(r)[w] == multiset(acc)[w]
        + if w.rule.Matches(msg) && w.rule.iface in ikeys && w.rule.member in mkeys then InInterfaces(m, w) else 0
  {
    r := acc;
    for i := 0 to |ikeys|
      invariant forall w: SignalWatch ::
        multiset(r)[w] == multiset(acc)[w]
          + if w.rule.Matches(msg) && w.rule.iface in ikeys[..i] && w.rule.member in mkeys
            then InInterfaces(m, w) else 0
    {
      assert ikeys[..i + 1] == ikeys[..i] + [ikeys[i]];
      OtherInterface(m, ikeys[i]);
      if ikeys[i] in m {
        r := CollectMembers(m[ikeys[i]], mkeys, msg, r);
      }
    }
    assert ikeys[..|ikeys|] == ikeys;
  }

  lemma OtherInterface(m: ByInterface, k: Text)
    requires InterfacesKeyed(m)
    ensures forall w: SignalWatch :: w.rule.iface != k ==> InMembers(Interfaces(m, k), w) == 0
  {
    forall w: SignalWatch | w.rule.iface != k ensures InMembers(Interfaces(m, k), w) == 0 {
      if w in Members(Interfaces(m, k), w.rule.member) { assert k in m; }
    }
  }

  method CollectPaths(m: ByPath, pkeys: seq<Text>, ikeys: seq<Text>, mkeys: seq<Text>, msg: Msg)
    returns (r: seq<SignalWatch>)
    requires PathsKeyed(m) && Distinct(pkeys) && Distinct(ikeys) && Distinct(mkeys)
    ensures forall w: SignalWatch ::
      multiset(r)[w] ==
        if w.rule.Matches(msg) && w.rule.path in pkeys && w.rule.iface in ikeys && w.rule.member in mkeys
        then InPaths(m, w) else 0
  {
    hide PathsKeyed, InterfacesKeyed, MatchRule.Matches;
    r := [];
    for i := 0 to |pkeys|
      invariant forall w: SignalWatch ::
        multiset(r)[w] ==
          if w.rule.Matches(msg) && w.rule.path in pkeys[..i] && w.rule.iface in ikeys && w.rule.member in mkeys
          then InPaths(m, w) else 0
    {
      assert pkeys[..i + 1] == pkeys[..i] + [pkeys[i]];
      OtherPath(m, pkeys[i]);
      if pkeys[i] in m {
        r := CollectInterfaces(m[pkeys[i]], ikeys, mkeys, msg, r);
      }
    }
    assert pkeys[..|pkeys|] == pkeys;
  }

  lemma OtherPath(m: ByPath, k: Text)
    requires PathsKeyed(m)
    ensures forall w: SignalWatch :: k !in m || w.rule.path != k ==> InInterfaces(Paths(m, k), w) == 0
    ensures k in m ==> InterfacesKeyed(m[k])
  {
    forall w: SignalWatch | k !in m || w.rule.path != k ensures InInterfaces(Paths(m, k), w) == 0 {
      if k in m && w.rule.iface in m[k] && w.rule.member in m[k][w.rule.iface] {
        assert w !in m[k][w.rule.iface][w.rule.member];
      }
    }
  }

  ghost predicate AllListed(m: ByPath, ws: multiset<SignalWatch>) {
    forall k, j, l, i :: k in m && j in m[k] && l in m[k][j] && 0 <= i < |m[k][j][l]| ==> m[k][j][l][i] in ws
  }

  /** Replace the list at three keys, creating the maps on the way. */
  function Put(m: ByPath, p: Text, i: Text, k: Text, list: seq<SignalWatch>): ByPath {
    m[p := Paths(m, p)[i := Interfaces(Paths(m, p), i)[k := list]]]
  }

  function ListAt(m: ByPath, p: Text, i: Text, k: Text): seq<SignalWatch> {
    Members(Interfaces(Paths(m, p), i), k)
  }

  lemma PutKeyed(m: ByPath, p: Text, i: Text, k: Text, list: seq<SignalWatch>)
    requires PathsKeyed(m)
    requires forall w :: w in list ==> w.rule.path == p && w.rule.iface == i && w.rule.member == k
    ensures PathsKeyed(Put(m, p, i, k, list))
  {
    var bi := Paths(m, p);
    var bm := Interfaces(bi, i)[k := list];
    assert MembersKeyed(bm);
    assert InterfacesKeyed(bi[i := bm]);
  }

  lemma PutFinds(m: ByPath, p: Text, i: Text, k: Text, list: seq<SignalWatch>, w: SignalWatch)
    ensures InPaths(Put(m, p, i, k, list), w)
         == if w.rule.path == p && w.rule.iface == i && w.rule.member == k then multiset(list)[w] else InPaths(m, w)
  {
  }

  lemma PutListed(m: ByPath, p: Text, i: Text, k: Text, list: seq<SignalWatch>, ws: multiset<SignalWatch>,
      us: multiset<SignalWatch>)
    requires AllListed(m, ws)
    requires forall w :: w in list ==> w in us
    requires forall w :: w in ws && !(w.rule.path == p && w.rule.iface == i && w.rule.member == k) ==> w in us
    requires PathsKeyed(m)
    ensures AllListed(Put(m, p, i, k, list), us)
  {
    var n := Put(m, p, i, k, list);
    forall a, b, c, x | a in n && b in n[a] && c in n[a][b] && 0 <= x < |n[a][b][c]| ensures n[a][b][c][x] in us {
      var w := n[a][b][c][x];
      if a == p && b == i && c == k {
        assert w in list;
      } else {
        assert a in m && b in m[a] && c in m[a][b] && m[a][b][c] == n[a][b][c];
        assert MembersKeyed(m[a][b]);
        assert w.rule.path == a && w.rule.iface == b && w.rule.member == c;
      }
    }
  }

  lemma ListKeys(m: ByPath, p: Text, i: Text, k: Text)
    requires PathsKeyed(m)
    ensures forall w :: w in ListAt(m, p, i, k) ==> w.rule.path == p && w.rule.iface == i && w.rule.member == k
  {
    forall w | w in ListAt(m, p, i, k) ensures w.rule.path == p && w.rule.iface == i && w.rule.member == k {
      assert MembersKeyed(m[p][i]);
    }
  }

  class SignalWatchSet {
    var index: ByPath
    /** The registered watches: a plain linear collection. */
    ghost var watches: multiset<SignalWatch>

    ghost predicate Valid()
      reads this
    {
      && PathsKeyed(index)
      && (forall w :: w in watches ==> watches[w] == InPaths(index, w))
      && AllListed(index, watches)
    }

    constructor ()
      ensures Valid() && watches == multiset{}
    {
      index, watches := map[], multiset{};
    }

    method Add(watch: SignalWatch)
      requires Valid()
      modifies this
      ensures Valid() && watches == old(watches) + multiset{watch}
    {
      hide PathsKeyed, AllListed, Put;
      var rule := watch.rule;
      Counts();
      ListKeys(index, rule.path, rule.iface, rule.member);
      var list := ListAt(index, rule.path, rule.iface, rule.member) + [watch];
      Update(rule, list, watches + multiset{watch});
    }

    /** Store a list under a rule's keys. */
    method Update(rule: MatchRule, list: seq<SignalWatch>, ghost now: multiset<SignalWatch>)
      requires Valid()
      requires forall w :: w in list ==>
        w.rule.path == rule.path && w.rule.iface == rule.iface && w.rule.member == rule.member
      requires forall w :: w in now || w in watches || w in list ==>
        now[w] == if w.rule.path == rule.path && w.rule.iface == rule.iface && w.rule.member == rule.member
                  then multiset(list)[w] else watches[w]
      modifies this
      ensures Valid() && watches == now
    {
      hide PathsKeyed, AllListed, Put, InPaths;
      PutKeyed(index, rule.path, rule.iface, rule.member, list);
      PutListed(index, rule.path, rule.iface, rule.member, list, watches, now);
      forall w | w in now {
        PutFinds(index, rule.path, rule.iface, rule.member, list, w);
      }
      index := Put(index, rule.path, rule.iface, rule.member, list);
      watches := now;
    }

    /** The last watch of the list takes the place of the removed one. */
    method Remove(watch: SignalWatch) returns (found: bool)
      requires Valid()
      modifies this
      ensures Valid() && found == (watch in old(watches))
      ensures watches == if found then old(watches) - multiset{watch} else old(watches)
    {
      hide PathsKeyed, AllListed, Put;
      var rule := watch.rule;
      Counts();
      if rule.path !in index { return false; }
      if rule.iface !in index[rule.path] { return false; }
      if rule.member !in index[rule.path][rule.iface] { return false; }
      var list := index[rule.path][rule.iface][rule.member];
      ListKeys(index, rule.path, rule.iface, rule.member);
      for i := 0 to |list|
        invariant watch !in list[..i]
      {
        if list[i] == watch {
          var last := |list| - 1;
          SwapRemove(list, i);
          var shorter := list[i := list[last]][..last];
          assert forall w :: w in shorter ==> w in list;
          Update(rule, shorter, watches - multiset{watch});
          return true;
        }
      }
      found := false;
    }

    lemma Counts()
      requires Valid()
      ensures forall w: SignalWatch :: watches[w] == InPaths(index, w)
    {
      forall w: SignalWatch ensures watches[w] == InPaths(index, w) {
        var r := w.rule;
        if w in ListAt(index, r.path, r.iface, r.member) {
          assert r.path in index && r.iface in index[r.path] && r.member in index[r.path][r.iface];
        }
      }
    }

    /** The index finds exactly the watches a linear scan with Match finds, each as often as it
        is registered: none is missed through the wildcard keys, none is returned twice. */
    method FindMatches(msg: Msg) returns (matches: seq<SignalWatch>)
      requires Valid()
      ensures forall w: SignalWatch :: multiset(matches)[w] == if w.rule.Matches(msg) then watches[w] else 0
      ensures forall w: SignalWatch ::
        (w.rule.kind != 0 && msg.kind != w.rule.kind)
        || (w.rule.sender != [] && msg.sender != w.rule.sender && msg.sender != w.rule.senderNameOwner)
        || (w.rule.path != [] && msg.path != w.rule.path) || (w.rule.iface != [] && msg.iface != w.rule.iface)
        || (w.rule.member != [] && msg.member != w.rule.member)
        || (w.rule.arg0 != [] && FirstText(msg) != Some(w.rule.arg0))
        ==> w !in matches
      ensures forall w: SignalWatch ::
        (w.rule.kind == 0 || msg.kind == w.rule.kind)
        && (w.rule.sender == [] || msg.sender == w.rule.sender || msg.sender == w.rule.senderNameOwner)
        && (w.rule.path == [] || msg.path == w.rule.path) && (w.rule.iface == [] || msg.iface == w.rule.iface)
        && (w.rule.member == [] || msg.member == w.rule.member)
        && (w.rule.arg0 == [] || FirstText(msg) == Some(w.rule.arg0))
        ==> multiset(matches)[w] == watches[w]
    {
      hide AllListed, InPaths, PathsKeyed;
      var pathKeys: seq<Text> := [[]];
      if msg.path != [] { pathKeys := pathKeys + [msg.path]; }
      var ifaceKeys: seq<Text> := [[]];
      if msg.iface != [] { ifaceKeys := ifaceKeys + [msg.iface]; }
      var memberKeys: seq<Text> := [[]];
      if msg.member != [] { memberKeys := memberKeys + [msg.member]; }
      assert pathKeys[0] == [] && ifaceKeys[0] == [] && memberKeys[0] == [];
      assert msg.path != [] ==> pathKeys[1] == msg.path;
      assert msg.iface != [] ==> ifaceKeys[1] == msg.iface;
      assert msg.member != [] ==> memberKeys[1] == msg.member;
      matches := CollectPaths(index, pathKeys, ifaceKeys, memberKeys, msg);
      Counts();
      forall w: SignalWatch ensures multiset(matches)[w] == if w.rule.Matches(msg) then watches[w] else 0 {
        assert watches[w] == InPaths(index, w);
        if w.rule.Matches(msg) {
          assert w.rule.path in pathKeys && w.rule.iface in ifaceKeys && w.rule.member in memberKeys;
        }
      }
    }
  }

  /** The swap both registries remove with. */
  lemma SwapRemove<T>(s: seq<T>, i: nat)
    requires i < |s|
    ensures multiset(s[i := s[|s| - 1]][..|s| - 1]) == multiset(s) - multiset{s[i]}
    ensures forall x :: x in s[i := s[|s| - 1]][..|s| - 1] ==> x in s
  {
    var last := |s| - 1;
    var t := s[i := s[last]];
    assert s == s[..last] + [s[last]];
    assert t == t[..last] + [t[last]];
  }
}
