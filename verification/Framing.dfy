/** The header fields of a message, octet by octet. */
module Framing {
  import opened Bytes
  import opened Types
  import opened Values
  import opened Marshal
  import opened RoundTrip
  import opened Octets
  import opened MessageModule

  /** 1 path, 2 interface, 3 member, 4 error name, 5 reply serial, 6 destination, 7 sender,
      8 signature, in this order: each is listed if and only if it is not empty. */
  lemma FieldsListed(m: Msg)
    ensures HeaderFields(m) ==
      (if m.path == [] then [] else [VStruct([VNum(U8, 1), VVariant(TStr(Path), VStr(Path, m.path))])])
      + (if m.iface == [] then [] else [VStruct([VNum(U8, 2), VVariant(TStr(Str), VStr(Str, m.iface))])])
      + (if m.member == [] then [] else [VStruct([VNum(U8, 3), VVariant(TStr(Str), VStr(Str, m.member))])])
      + (if m.errorName == [] then [] else [VStruct([VNum(U8, 4), VVariant(TStr(Str), VStr(Str, m.errorName))])])
      + (if m.replySerial == 0 then [] else [VStruct([VNum(U8, 5), VVariant(TNum(U32), VNum(U32, m.replySerial))])])
      + (if m.dest == [] then [] else [VStruct([VNum(U8, 6), VVariant(TStr(Str), VStr(Str, m.dest))])])
      + (if m.sender == [] then [] else [VStruct([VNum(U8, 7), VVariant(TStr(Str), VStr(Str, m.sender))])])
      + (if m.sig == [] then [] else [VStruct([VNum(U8, 8), VVariant(TStr(Sig), VStr(Sig, m.sig))])])
  {
  }

  /** Codes 0 and above 8 change nothing; the others want their type and set one thing. */
  lemma FieldsUnderstood(m: Msg, code: int, ty: Ty, v: Val)
    ensures var r := SetField(m, VStruct([VNum(U8, code), VVariant(ty, v)]));
      if code < 1 || code > 8 then r == Some(m)
      else if code == 5 then
        if v.VNum? && v.num == U32 && v.n >= 0 then r == Some(m.(replySerial := v.n)) else r == None
      else if !v.VStr? || v.kind != (if code == 1 then Path else if code == 8 then Sig else Str) then r == None
      else
        var s := v.text;
        r.Some? &&
        r.value ==
          if code == 1 then m.(path := s) else if code == 2 then m.(iface := s) else if code == 3 then m.(member := s)
          else if code == 4 then m.(errorName := s) else if code == 6 then m.(dest := s)
          else if code == 7 then m.(sender := s) else m.(sig := s)
  {
  }

  /** 1 method call, 2 method return, 3 error, 4 signal; version 1; lengths and serials are words. */
  lemma MessageNumbers(o: Order)
    ensures TYPE_METHOD_CALL == 1 && TYPE_METHOD_RETURN == 2 && TYPE_ERROR == 3 && TYPE_SIGNAL == 4
    ensures Empty(o).protocol == 1 && Empty(o).kind == 0 && WORD == 4294967296
  {
  }

  /** A text field at a multiple of 8: its code, a variant of signature s or o, length, text, zero. */
  lemma TextFieldOctets(p: Placement, o: Order, x: nat, code: byte, k: StrKind, s: seq<byte>)
    requires x % 8 == 0 && k != Sig && |s| < 0x1_0000_0000
    ensures Encodable(FIELD, VStruct([VNum(U8, code), VVariant(TStr(k), VStr(k, s))]))
    ensures var b := Marshalled(p, o, x, FIELD, VStruct([VNum(U8, code), VVariant(TStr(k), VStr(k, s))]));
      && |b| == 9 + |s| && b[..4] == [code, 1, if k == Str then 115 else 111, 0]
      && Stands(o, b[4..8], |s|) && b[8..8 + |s|] == s && b[8 + |s|] == 0
  {
    hide Marshalled, Stands, Encodable;
    TextEncodable(k, s);
    FieldMarshalled(p, o, x, code, VVariant(TStr(k), VStr(k, s)));
    TextVariant(p, o, x + 1, k, s);
    Fourth(x);
    TextAt(p, o, x + 4, k, s);
    var t := Marshalled(p, o, x + 4, TStr(k), VStr(k, s));
    FourMore([code, 1, if k == Str then 115 else 111, 0], t, s);
    Prefixed(code, if k == Str then 115 else 111, t);
  }

  lemma Fourth(x: nat)
    requires x % 8 == 0
    ensures (x + 4) % 4 == 0
  {
  }

  lemma TextVariant(p: Placement, o: Order, x: nat, k: StrKind, s: seq<byte>)
    requires k != Sig && Encodable(TVariant, VVariant(TStr(k), VStr(k, s))) && Encodable(TStr(k), VStr(k, s))
    ensures Marshalled(p, o, x, TVariant, VVariant(TStr(k), VStr(k, s)))
         == [1] + [if k == Str then 115 else 111] + [0] + Marshalled(p, o, x + 3, TStr(k), VStr(k, s))
  {
    hide Marshalled, Encodable, SigOf;
    SignatureLetters();
    VariantOctets(p, o, x, VVariant(TStr(k), VStr(k, s)));
  }

  lemma TextAt(p: Placement, o: Order, x: nat, k: StrKind, s: seq<byte>)
    requires x % 4 == 0 && k != Sig && Encodable(TStr(k), VStr(k, s)) && |s| < 0x1_0000_0000
    ensures var t := Marshalled(p, o, x, TStr(k), VStr(k, s));
      |t| == |s| + 5 && Stands(o, t[..4], |s|) && t[4..4 + |s|] == s && t[4 + |s|] == 0
  {
    hide Marshalled, Stands, Padding, Encodable;
    TextOctets(p, o, x, k, VStr(k, s));
    var t := Marshalled(p, o, x, TStr(k), VStr(k, s));
    NoPadding(t, x, |t| - |s| - 5);
    assert t[0..4] == t[..4];
  }

  lemma Prefixed(code: byte, letter: byte, t: seq<byte>)
    ensures [code] + ([1] + [letter] + [0] + t) == [code, 1, letter, 0] + t
  {
  }

  lemma FourMore(h: seq<byte>, t: seq<byte>, s: seq<byte>)
    requires |h| == 4 && |t| == |s| + 5
    ensures var b := h + t;
      |b| == 9 + |s| && b[..4] == h && b[4..8] == t[..4] && b[8..8 + |s|] == t[4..4 + |s|] && b[8 + |s|] == t[4 + |s|]
  {
  }

  /** The signature field, and the reply serial. */
  lemma SignatureFieldOctets(p: Placement, o: Order, x: nat, s: seq<byte>)
    requires x % 8 == 0 && |s| < 256
    ensures Encodable(FIELD, VStruct([VNum(U8, 8), VVariant(TStr(Sig), VStr(Sig, s))]))
    ensures Marshalled(p, o, x, FIELD, VStruct([VNum(U8, 8), VVariant(TStr(Sig), VStr(Sig, s))]))
         == [8, 1, 103, 0, |s|] + s + [0]
  {
    hide Marshalled, Encodable, SigOf;
    TextEncodable(Sig, s);
    FieldMarshalled(p, o, x, 8, VVariant(TStr(Sig), VStr(Sig, s)));
    SignatureLetters();
    VariantOctets(p, o, x + 1, VVariant(TStr(Sig), VStr(Sig, s)));
    SignatureOctets(p, o, x + 4, VStr(Sig, s));
  }

  lemma ReplyFieldOctets(p: Placement, o: Order, x: nat, n: nat)
    requires x % 8 == 0 && n < 0x1_0000_0000
    ensures Encodable(FIELD, VStruct([VNum(U8, 5), VVariant(TNum(U32), VNum(U32, n))]))
    ensures var b := Marshalled(p, o, x, FIELD, VStruct([VNum(U8, 5), VVariant(TNum(U32), VNum(U32, n))]));
      |b| == 8 && b[..4] == [5, 1, 117, 0] && Stands(o, b[4..8], n)
  {
    hide Marshalled, Stands, Encodable;
    NumberEncodable(n);
    FieldMarshalled(p, o, x, 5, VVariant(TNum(U32), VNum(U32, n)));
    NumberVariant(p, o, x + 1, n);
    Fourth(x);
    NumberAt(p, o, x + 4, n);
    var t := Marshalled(p, o, x + 4, TNum(U32), VNum(U32, n));
    Prefixed(5, 117, t);
    assert ([5, 1, 117, 0] + t)[4..8] == t && ([5, 1, 117, 0] + t)[..4] == [5, 1, 117, 0];
  }

  lemma NumberVariant(p: Placement, o: Order, x: nat, n: nat)
    requires Encodable(TVariant, VVariant(TNum(U32), VNum(U32, n))) && Encodable(TNum(U32), VNum(U32, n))
    ensures Marshalled(p, o, x, TVariant, VVariant(TNum(U32), VNum(U32, n)))
         == [1] + [117] + [0] + Marshalled(p, o, x + 3, TNum(U32), VNum(U32, n))
  {
    hide Marshalled, Encodable, SigOf;
    SignatureLetters();
    VariantOctets(p, o, x, VVariant(TNum(U32), VNum(U32, n)));
  }

  lemma NumberAt(p: Placement, o: Order, x: nat, n: nat)
    requires x % 4 == 0 && Encodable(TNum(U32), VNum(U32, n))
    ensures var t := Marshalled(p, o, x, TNum(U32), VNum(U32, n)); |t| == 4 && Stands(o, t, n)
  {
    hide Marshalled, Stands, Padding, Encodable;
    NumberOctets(p, o, x, U32, VNum(U32, n));
    var t := Marshalled(p, o, x, TNum(U32), VNum(U32, n));
    assert Size(U32) == 4 && Unsigned(U32, n) == n;
    NoPadding(t, x, |t| - 4);
    assert t[0..] == t;
  }

  lemma TextEncodable(k: StrKind, s: seq<byte>)
    ensures Encodable(TStr(k), VStr(k, s)) && Encodable(TVariant, VVariant(TStr(k), VStr(k, s)))
  {
  }

  lemma NumberEncodable(n: nat)
    requires n < 0x1_0000_0000
    ensures Encodable(TNum(U32), VNum(U32, n)) && Encodable(TVariant, VVariant(TNum(U32), VNum(U32, n)))
  {
  }

  lemma NoPadding(b: seq<byte>, x: nat, z: nat)
    requires Padding(b, x, 4, z) && x % 4 == 0
    ensures z == 0
  {
  }

  lemma FieldMarshalled(p: Placement, o: Order, x: nat, code: byte, v: Val)
    requires x % 8 == 0 && Encodable(TVariant, v)
    ensures Encodable(FIELD, VStruct([VNum(U8, code), v]))
    ensures Marshalled(p, o, x, FIELD, VStruct([VNum(U8, code), v])) == [code] + Marshalled(p, o, x + 1, TVariant, v)
  {
    hide Marshalled, Fields, HasType, VariantsOk, Supported, Encodable;
    var ts, vs := [TNum(U8), TVariant], [VNum(U8, code), v];
    PairEncodable(code, v);
    OctetMarshalled(p, o, x, code);
    AtFront(p, o, x, vs);
    var a := Marshalled(p, o, x + 1, TVariant, v);
    FieldsHead(p, o, x, ts, vs, 0);
    FieldsHead(p, o, x + 1, ts, vs, 1);
    FieldsHead(p, o, x + 1 + |a|, ts, vs, 2);
    assert a + [] == a;
  }

  lemma PairEncodable(code: byte, v: Val)
    requires Encodable(TVariant, v)
    ensures Encodable(TNum(U8), VNum(U8, code)) && Encodable(FIELD, VStruct([VNum(U8, code), v]))
    ensures FieldsEncodable([TNum(U8), TVariant], [VNum(U8, code), v])
  {
    assert Supported(FIELD);
  }

  lemma OctetMarshalled(p: Placement, o: Order, x: nat, code: byte)
    requires Encodable(TNum(U8), VNum(U8, code))
    ensures Marshalled(p, o, x, TNum(U8), VNum(U8, code)) == [code]
  {
    hide PutUint;
    OneOctet(o, code);
  }

  lemma AtFront(p: Placement, o: Order, x: nat, vs: seq<Val>)
    requires x % 8 == 0 && Encodable(FIELD, VStruct(vs)) && FieldsEncodable([TNum(U8), TVariant], vs)
    ensures Marshalled(p, o, x, FIELD, VStruct(vs)) == Fields(p, o, x, [TNum(U8), TVariant], vs, 0)
  {
    hide Fields, HasType, VariantsOk;
    assert Pad(x, 8) == 0;
    var b := Fields(p, o, x, [TNum(U8), TVariant], vs, 0);
    assert Zeros(0) + b == b;
  }
}
