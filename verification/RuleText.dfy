/** matchrule.go's String: the text of a rule as it is sent to the daemon. The parameters that are
    set are written as key and quoted value, in a fixed order, and joined with commas. Without
    apostrophes in the values the text tells which rule it is; with them two rules can have one
    text. */
module RuleText {
  import opened Bytes
  import opened MessageModule
  import opened SignalIndex

  const QUOTE: byte := 39 /* ' */
  const COMMA: byte := 44 /* , */

  function Ascii(s: string): (r: Text)
    ensures |r| == |s|
  {
    seq(|s|, i requires 0 <= i < |s| => if s[i] as int < 256 then s[i] as int else 0)
  }

  /** The names of the message types; unknown types have none. */
  function KindName(kind: byte): Text {
    if kind == 0 then Ascii("invalid")
    else if kind == TYPE_METHOD_CALL then Ascii("method_call")
    else if kind == TYPE_METHOD_RETURN then Ascii("method_return")
    else if kind == TYPE_ERROR then Ascii("error")
    else if kind == TYPE_SIGNAL then Ascii("signal")
    else []
  }

  /** The six keys, in the order String writes them. */
  function KeyText(k: nat): Text
    requires k < 6
  {
    Ascii(["type='", "sender='", "path='", "interface='", "member='", "arg0='"][k])
  }

  function Value(rule: MatchRule, k: nat): Text
    requires k < 6
  {
    if k == 0 then KindName(rule.kind) else if k == 1 then rule.sender else if k == 2 then rule.path
    else if k == 3 then rule.iface else if k == 4 then rule.member else rule.arg0
  }

  predicate Present(rule: MatchRule, k: nat)
    requires k < 6
  {
    if k == 0 then rule.kind != 0 else Value(rule, k) != []
  }

  function Param(rule: MatchRule, k: nat): Text
    requires k < 6
  {
    KeyText(k) + Value(rule, k) + [QUOTE]
  }

  function Params(rule: MatchRule, k: nat): seq<Text>
    requires k <= 6
    decreases 6 - k
  {
    if k == 6 then [] else (if Present(rule, k) then [Param(rule, k)] else []) + Params(rule, k + 1)
  }

  /** strings.Join(params, ","). */
  function Join(ts: seq<Text>): Text {
    if ts == [] then [] else if |ts| == 1 then ts[0] else ts[0] + [COMMA] + Join(ts[1..])
  }

  function RuleString(rule: MatchRule): Text {
    Join(Params(rule, 0))
  }

  method String(rule: MatchRule) returns (text: Text)
    ensures text == RuleString(rule)
  {
    hide Param, Params;
    var params: seq<Text> := [];
    if rule.kind != 0 { params := params + [Param(rule, 0)]; }
    Listed(rule, [], params, 0);
    ghost var before := params;
    if rule.sender != [] { params := params + [Param(rule, 1)]; }
    Listed(rule, before, params, 1);
    before := params;
    if rule.path != [] { params := params + [Param(rule, 2)]; }
    Listed(rule, before, params, 2);
    before := params;
    if rule.iface != [] { params := params + [Param(rule, 3)]; }
    Listed(rule, before, params, 3);
    before := params;
    if rule.member != [] { params := params + [Param(rule, 4)]; }
    Listed(rule, before, params, 4);
    before := params;
    if rule.arg0 != [] { params := params + [Param(rule, 5)]; }
    Listed(rule, before, params, 5);
    text := Join(params);
  }

  lemma Listed(rule: MatchRule, before: seq<Text>, now: seq<Text>, k: nat)
    requires k < 6 && before + Params(rule, k) == Params(rule, 0)
    requires now == before + if Present(rule, k) then [Param(rule, k)] else []
    ensures now + Params(rule, k + 1) == Params(rule, 0)
    ensures k == 5 ==> now == Params(rule, 0)
  {
    hide Param, Params, Present;
    ParamsHead(rule, k);
    var own, rest := if Present(rule, k) then [Param(rule, k)] else [], Params(rule, k + 1);
    assert now + rest == before + (own + rest);
    if k == 5 {
      ParamsHead(rule, 6);
      assert now + [] == now;
    }
  }

  lemma ParamsHead(rule: MatchRule, k: nat)
    requires k <= 6
    ensures Params(rule, k) ==
      if k == 6 then [] else (if Present(rule, k) then [Param(rule, k)] else []) + Params(rule, k + 1)
  {
    hide Param, Present;
  }

  // ---------------------------------------------------------------- what the text determines

  /** The type has a name and no value contains an apostrophe. */
  ghost predicate Plain(rule: MatchRule) {
    rule.kind <= TYPE_SIGNAL && forall k: nat :: k < 6 ==> QUOTE !in Value(rule, k)
  }

  /** The rules ask for the same. */
  ghost predicate SameRule(a: MatchRule, b: MatchRule) {
    && a.kind == b.kind && a.sender == b.sender && a.path == b.path
    && a.iface == b.iface && a.member == b.member && a.arg0 == b.arg0
  }

  /** The parameters from the k-th on are the same. */
  ghost predicate SameParams(a: MatchRule, b: MatchRule, k: nat)
    requires k <= 6
  {
    forall j: nat :: k <= j < 6 ==> Present(a, j) == Present(b, j) && (Present(a, j) ==> Value(a, j) == Value(b, j))
  }

  function FirstPresent(rule: MatchRule, k: nat): nat
    requires k <= 6
    decreases 6 - k
  {
    if k == 6 || Present(rule, k) then k else FirstPresent(rule, k + 1)
  }

  function KeyLetter(k: nat): byte {
    if k == 0 then 't' as int else if k == 1 then 's' as int else if k == 2 then 'p' as int
    else if k == 3 then 'i' as int else if k == 4 then 'm' as int else 'a' as int
  }

  lemma KeyStarts(k: nat)
    requires k < 6
    ensures |KeyText(k)| > 0 && KeyText(k)[0] == KeyLetter(k)
  {
  }

  lemma ParamStarts(rule: MatchRule, k: nat)
    requires k < 6
    ensures |Param(rule, k)| > 0 && Param(rule, k)[0] == KeyLetter(k)
  {
    hide KeyText, Value;
    KeyStarts(k);
  }

  lemma {:induction false} JoinStarts(rule: MatchRule, k: nat)
    requires k <= 6
    ensures FirstPresent(rule, k) <= 6
    ensures FirstPresent(rule, k) == 6 ==> Params(rule, k) == [] && Join(Params(rule, k)) == []
    ensures FirstPresent(rule, k) < 6 ==>
      Params(rule, k) != [] && Join(Params(rule, k)) != []
        && Join(Params(rule, k))[0] == KeyLetter(FirstPresent(rule, k))
    decreases 6 - k
  {
    hide Present, Param, KeyLetter;
    if k < 6 {
      if Present(rule, k) {
        ParamStarts(rule, k);
      } else {
        assert [] + Params(rule, k + 1) == Params(rule, k + 1);
        JoinStarts(rule, k + 1);
      }
    }
  }

  lemma {:induction false} FirstIsLater(rule: MatchRule, k: nat)
    requires k <= 6
    ensures k <= FirstPresent(rule, k) <= 6
    decreases 6 - k
  {
    hide Present;
    if k < 6 && !Present(rule, k) { FirstIsLater(rule, k + 1); }
  }

  lemma HeadIn(w: Text)
    ensures w != [] ==> w[0] in w
  {
  }

  /** A value that ends at its first apostrophe can be told from what follows. */
  lemma {:induction false} Delimited(v: Text, w: Text, x: Text, y: Text)
    requires QUOTE !in v && QUOTE !in w && v + ([QUOTE] + x) == w + ([QUOTE] + y)
    ensures v == w && x == y
    decreases |v|
  {
    HeadIn(v);
    HeadIn(w);
    var l, r := v + ([QUOTE] + x), w + ([QUOTE] + y);
    assert l[0] == r[0];
    if v == [] {
      assert l[1..] == x && r[1..] == y;
    } else {
      assert l[1..] == v[1..] + ([QUOTE] + x) && r[1..] == w[1..] + ([QUOTE] + y);
      Delimited(v[1..], w[1..], x, y);
    }
  }

  /** What follows the value of parameter k. */
  ghost function Tail(rule: MatchRule, k: nat): Text
    requires k < 6
  {
    if Params(rule, k + 1) == [] then [] else [COMMA] + Join(Params(rule, k + 1))
  }

  lemma JoinHead(rule: MatchRule, k: nat)
    requires k < 6
    ensures Present(rule, k) ==>
      Join(Params(rule, k)) == KeyText(k) + (Value(rule, k) + ([QUOTE] + Tail(rule, k)))
    ensures !Present(rule, k) ==> Params(rule, k) == Params(rule, k + 1)
  {
    hide Present, KeyText, Value;
    var rest := Params(rule, k + 1);
    if Present(rule, k) {
      var ps := [Param(rule, k)] + rest;
      assert Params(rule, k) == ps && ps[0] == Param(rule, k) && ps[1..] == rest;
      assert Join(ps) == Param(rule, k) + Tail(rule, k);
    } else {
      assert [] + rest == rest;
    }
  }

  // ---------------------------------------------------------------- the text, written out

  lemma AsciiCodes(s: string)
    requires forall i :: 0 <= i < |s| ==> s[i] as int < 128
    ensures |Ascii(s)| == |s| && forall i :: 0 <= i < |s| ==> Ascii(s)[i] == s[i] as int
  {
  }

  /** A comma, the key and the quoted value, if there is one. */
  function Clause(key: string, value: Text): Text {
    if value == [] then [] else [44] + Ascii(key) + [61, 39] + value + [39]
  }

  /** What the daemon is sent for a rule about signals. */
  lemma SignalText(rule: MatchRule)
    requires rule.kind == 4
    ensures RuleString(rule) ==
      Ascii("type") + [61, 39] + Ascii("signal") + [39]
      + (Clause("sender", rule.sender) + (Clause("path", rule.path) + (Clause("interface", rule.iface)
      + (Clause("member", rule.member) + Clause("arg0", rule.arg0)))))
  {
    hide Params, Join, KeyText, Value, Clause, Ascii, Tail, Present;
    TypeClause(rule);
    JoinHead(rule, 0);
    Follows(rule, 0, "sender");
    Follows(rule, 1, "path");
    Follows(rule, 2, "interface");
    Follows(rule, 3, "member");
    Follows(rule, 4, "arg0");
    LastTail(rule);
    Keys(rule);
    var t := Tail(rule, 0);
    assert KeyText(0) + (Value(rule, 0) + ([QUOTE] + t)) == KeyText(0) + Value(rule, 0) + [39] + t;
  }

  function KeyName(k: nat): string
    requires k < 6
  {
    ["type", "sender", "path", "interface", "member", "arg0"][k]
  }

  lemma Keys(rule: MatchRule)
    ensures KeyName(1) == "sender" && KeyName(2) == "path" && KeyName(3) == "interface" && KeyName(4) == "member"
    ensures KeyName(5) == "arg0"
    ensures Value(rule, 1) == rule.sender && Value(rule, 2) == rule.path && Value(rule, 3) == rule.iface
    ensures Value(rule, 4) == rule.member && Value(rule, 5) == rule.arg0
  {
  }

  lemma TypeClause(rule: MatchRule)
    requires rule.kind == 4
    ensures Present(rule, 0) && Value(rule, 0) == Ascii("signal") && KeyText(0) == Ascii("type") + [61, 39]
  {
  }

  lemma KeyTextIs(k: nat)
    requires k < 6
    ensures KeyText(k) == Ascii(KeyName(k)) + [61, 39]
  {
  }

  /** What follows a parameter is the next one, if it is set, and what follows that. */
  lemma Follows(rule: MatchRule, k: nat, key: string)
    requires k < 5 && key == KeyName(k + 1)
    ensures Tail(rule, k) == Clause(key, Value(rule, k + 1)) + Tail(rule, k + 1)
  {
    hide Params, KeyText, Value, Ascii, Join, KeyName;
    JoinHead(rule, k + 1);
    KeyTextIs(k + 1);
    PresentIs(rule, k + 1);
    JoinStarts(rule, k + 1);
    var a, v, t := Ascii(key), Value(rule, k + 1), Tail(rule, k + 1);
    assert [44] + ((a + [61, 39]) + (v + ([39] + t))) == ([44] + a + [61, 39] + v + [39]) + t;
    assert [] + t == t;
  }

  lemma PresentIs(rule: MatchRule, k: nat)
    requires 0 < k < 6
    ensures Present(rule, k) <==> Value(rule, k) != []
  {
  }

  lemma LastTail(rule: MatchRule)
    ensures Tail(rule, 5) == []
  {
  }

  /** The names of the other types, which String writes as well. */
  lemma TypeNames(rule: MatchRule)
    ensures rule.kind == 1 ==> Value(rule, 0) == Ascii("method_call")
    ensures rule.kind == 2 ==> Value(rule, 0) == Ascii("method_return")
    ensures rule.kind == 3 ==> Value(rule, 0) == Ascii("error")
    ensures rule.kind == 0 ==> !Present(rule, 0)
  {
  }

  lemma {:induction false} TextDetermines(a: MatchRule, b: MatchRule, k: nat)
    requires k <= 6 && Plain(a) && Plain(b) && Join(Params(a, k)) == Join(Params(b, k))
    ensures SameParams(a, b, k)
    decreases 6 - k
  {
    hide Params, Join, KeyText, Value, Present, FirstPresent, KeyLetter;
    if k < 6 {
      JoinHead(a, k);
      JoinHead(b, k);
      PresenceAgrees(a, b, k);
      if Present(a, k) {
        var v, w := Value(a, k) + ([QUOTE] + Tail(a, k)), Value(b, k) + ([QUOTE] + Tail(b, k));
        Cancel(KeyText(k), v, w);
        Delimited(Value(a, k), Value(b, k), Tail(a, k), Tail(b, k));
        TailDetermines(a, b, k);
      }
      TextDetermines(a, b, k + 1);
    }
  }

  lemma Cancel(k: Text, v: Text, w: Text)
    requires k + v == k + w
    ensures v == w
  {
    assert (k + v)[|k|..] == v && (k + w)[|k|..] == w;
  }

  lemma TailDetermines(a: MatchRule, b: MatchRule, k: nat)
    requires k < 6 && Tail(a, k) == Tail(b, k)
    ensures Join(Params(a, k + 1)) == Join(Params(b, k + 1))
  {
    hide Params;
    if Params(a, k + 1) != [] { assert Tail(a, k)[1..] == Join(Params(a, k + 1)); }
    if Params(b, k + 1) != [] { assert Tail(b, k)[1..] == Join(Params(b, k + 1)); }
  }

  lemma PresenceAgrees(a: MatchRule, b: MatchRule, k: nat)
    requires k < 6 && Join(Params(a, k)) == Join(Params(b, k))
    ensures Present(a, k) == Present(b, k)
  {
    hide Params, Join, Present;
    JoinStarts(a, k);
    JoinStarts(b, k);
    FirstIsLater(a, k + 1);
    FirstIsLater(b, k + 1);
  }

  /** Rules of known types and without apostrophes have the same text exactly when they ask for the
      same type, sender, path, interface, member and first argument: what the daemon counts are
      rules. */
  lemma TextIsRule(a: MatchRule, b: MatchRule)
    requires Plain(a) && Plain(b)
    ensures RuleString(a) == RuleString(b) <==> SameRule(a, b)
  {
    hide Join, Value, Present, KeyText;
    if RuleString(a) == RuleString(b) {
      TextDetermines(a, b, 0);
      RuleOfParams(a, b);
    } else if SameRule(a, b) {
      ParamsOfRule(a, b);
      ParamsDetermine(a, b, 0);
    }
  }

  lemma RuleOfParams(a: MatchRule, b: MatchRule)
    requires SameParams(a, b, 0) && a.kind <= TYPE_SIGNAL && b.kind <= TYPE_SIGNAL
    ensures SameRule(a, b)
  {
    hide KindName;
    forall k: nat | 0 < k < 6 ensures Value(a, k) == Value(b, k) { assert Present(a, k) == Present(b, k); }
    assert Present(a, 0) == Present(b, 0);
    assert Value(a, 1) == Value(b, 1) && Value(a, 2) == Value(b, 2) && Value(a, 3) == Value(b, 3);
    assert Value(a, 4) == Value(b, 4) && Value(a, 5) == Value(b, 5);
    KindsDiffer(a.kind, b.kind);
  }

  lemma ParamsOfRule(a: MatchRule, b: MatchRule)
    requires SameRule(a, b)
    ensures SameParams(a, b, 0)
  {
    hide KindName;
  }

  lemma KindsDiffer(a: byte, b: byte)
    requires a <= TYPE_SIGNAL && b <= TYPE_SIGNAL && KindName(a) == KindName(b)
    ensures a == b
  {
    hide Ascii;
    assert |Ascii("invalid")| == 7 && |Ascii("method_call")| == 11 && |Ascii("method_return")| == 13;
    assert |Ascii("error")| == 5 && |Ascii("signal")| == 6;
  }

  lemma {:induction false} ParamsDetermine(a: MatchRule, b: MatchRule, k: nat)
    requires k <= 6 && SameParams(a, b, k)
    ensures Params(a, k) == Params(b, k)
    decreases 6 - k
  {
    hide Present, Value, KeyText;
    if k < 6 { ParamsDetermine(a, b, k + 1); }
  }

  /** The condition is needed: an apostrophe in a value is not escaped, so two rules for signals that
      differ can have one text. */
  lemma ApostropheConfuses(a: MatchRule, b: MatchRule)
    requires a.kind == TYPE_SIGNAL && a.sender == Ascii("x',path='y") && a.path == [] && a.iface == []
    requires a.member == [] && a.arg0 == []
    requires b.kind == TYPE_SIGNAL && b.sender == Ascii("x") && b.path == Ascii("y") && b.iface == []
    requires b.member == [] && b.arg0 == []
    ensures RuleString(a) == RuleString(b) && !SameRule(a, b)
  {
    hide Params, Join, KeyText, Value, Present, KeyLetter, Ascii;
    ApostropheFacts(a, b);
    JoinHead(a, 0);
    JoinHead(b, 0);
    JoinHead(a, 1);
    JoinHead(b, 1);
    JoinHead(b, 2);
    NoMore(a, 2);
    NoMore(b, 3);
    JoinStarts(a, 1);
    JoinStarts(b, 1);
    JoinStarts(b, 2);
    var v, w, q, c, k := Value(b, 1), Value(b, 2), [QUOTE], [COMMA], KeyText(2);
    assert Tail(b, 1) == c + (k + (w + (q + [])));
    assert (v + (q + (c + (k + w)))) + (q + []) == v + (q + (c + (k + (w + (q + [])))));
    assert Join(Params(a, 1)) == Join(Params(b, 1));
  }

  lemma ApostropheFacts(a: MatchRule, b: MatchRule)
    requires a.kind == TYPE_SIGNAL && a.sender == Ascii("x',path='y") && a.path == [] && a.iface == []
    requires a.member == [] && a.arg0 == []
    requires b.kind == TYPE_SIGNAL && b.sender == Ascii("x") && b.path == Ascii("y") && b.iface == []
    requires b.member == [] && b.arg0 == []
    ensures Present(a, 0) && Present(a, 1) && forall j: nat :: 2 <= j < 6 ==> !Present(a, j)
    ensures Present(b, 0) && Present(b, 1) && Present(b, 2) && forall j: nat :: 3 <= j < 6 ==> !Present(b, j)
    ensures Value(a, 0) == Value(b, 0) && a.sender != b.sender
    ensures Value(a, 1) == Value(b, 1) + ([QUOTE] + ([COMMA] + (KeyText(2) + Value(b, 2))))
  {
    assert |a.sender| == 10 && |b.sender| == 1;
  }

  /** So is a known type: two types without a name have one text, and other messages match. */
  lemma UnknownTypesConfuse(a: MatchRule, b: MatchRule)
    requires a.kind > TYPE_SIGNAL && b.kind > TYPE_SIGNAL && a.kind != b.kind
    requires a.sender == b.sender && a.path == b.path && a.iface == b.iface && a.member == b.member && a.arg0 == b.arg0
    ensures RuleString(a) == RuleString(b) && !SameRule(a, b)
    ensures forall m: Msg :: !(a.Matches(m) && b.Matches(m))
  {
    hide Join, KeyText;
    SameButKind(a, b);
    ParamsDetermine(a, b, 0);
  }

  lemma SameButKind(a: MatchRule, b: MatchRule)
    requires a.kind > TYPE_SIGNAL && b.kind > TYPE_SIGNAL
    requires a.sender == b.sender && a.path == b.path && a.iface == b.iface && a.member == b.member && a.arg0 == b.arg0
    ensures SameParams(a, b, 0)
  {
  }

  lemma {:induction false} NoMore(rule: MatchRule, k: nat)
    requires k <= 6 && forall j: nat :: k <= j < 6 ==> !Present(rule, j)
    ensures Params(rule, k) == []
    decreases 6 - k
  {
    hide Present;
    if k < 6 { NoMore(rule, k + 1); }
  }
}
