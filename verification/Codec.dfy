/** The codec as a whole: append then decode. */
module Codec {
  import opened Bytes
  import opened Types
  import opened Values
  import opened Marshal
  import opened Unmarshal
  import opened RoundTrip
  import opened Layout

  /** A list of arguments the round trip is about. */
  ghost predicate GoodArgs(tys: seq<Ty>, vs: seq<Val>) {
    && FieldsEncodable(tys, vs)
    && forall i :: 0 <= i < |tys| ==> Proper(tys[i]) && Storable(vs[i])
  }

  ghost predicate RelocatableArgs(tys: seq<Ty>, vs: seq<Val>)
    requires FieldsEncodable(tys, vs)
  {
    forall i :: 0 <= i < |tys| ==> Relocatable(tys[i], vs[i])
  }

  /** Targets that take the arguments; a blank interface takes a struct only in last position. */
  ghost predicate TargetsFit(ts: seq<Ty>, tys: seq<Ty>, vs: seq<Val>) {
    && |ts| == |tys| == |vs|
    && forall i :: 0 <= i < |ts| ==>
         Fits(ts[i], tys[i]) && Takes(ts[i], tys[i], vs[i]) && (i < |ts| - 1 ==> Unclosed(ts[i], tys[i]) == 0)
  }

  ghost function ViewArgs(ts: seq<Ty>, vs: seq<Val>): (r: seq<Val>)
    requires |ts| == |vs|
    ensures |r| == |vs|
  {
    seq(|vs|, i requires 0 <= i < |vs| => View(ts[i], vs[i]))
  }

  ghost function LastUnclosed(ts: seq<Ty>, tys: seq<Ty>, i: nat): nat
    requires |ts| == |tys|
  {
    if i < |tys| then Unclosed(ts[|ts| - 1], tys[|tys| - 1]) else 0
  }

  /** Arguments in wire format decode to their views wherever they stand, whatever follows. */
  lemma {:induction false} DecodeArgsWire(d: Input, off: nat, sig: Signature, soff: nat, ts: seq<Ty>,
      tys: seq<Ty>, vs: seq<Val>, i: nat)
    requires i <= |tys| && GoodArgs(tys, vs) && TargetsFit(ts, tys, vs)
    requires At(d.data, off, Fields(InPlace, d.order, off, tys, vs, i)) && At(sig, soff, SigsOf(tys, i))
    requires |Fields(InPlace, d.order, off, tys, vs, i)| < WORD
    ensures LastUnclosed(ts, tys, i) <= |SigsOf(tys, i)|
    ensures DecodeArgs(d, sig, ts, i, off, soff)
         == Ok(ViewArgs(ts, vs)[i..], off + |Fields(InPlace, d.order, off, tys, vs, i)|,
               soff + |SigsOf(tys, i)| - LastUnclosed(ts, tys, i))
    decreases |tys| - i
  {
    hide Marshalled, HasType, VariantsOk, Supported, Storable, Decode, View, SigOf, Unclosed, Proper, Fits, Takes;
    var all := ViewArgs(ts, vs);
    if i < |tys| {
      var a := Marshalled(InPlace, d.order, off, tys[i], vs[i]);
      AtSplit(d.data, off, a, Fields(InPlace, d.order, off + |a|, tys, vs, i + 1));
      AtSplit(sig, soff, SigOf(tys[i]), SigsOf(tys, i + 1));
      DecodeWire(d, off, sig, soff, ts[i], tys[i], vs[i]);
      assert all[i..] == [all[i]] + all[i + 1..];
      if i < |tys| - 1 {
        DecodeArgsWire(d, off + |a|, sig, soff + |SigOf(tys[i])|, ts, tys, vs, i + 1);
      } else {
        assert all[i + 1..] == [];
      }
    } else {
      assert all[i..] == [];
    }
  }

  /** The arguments have the wire format when appended at this offset, by LayoutExact. */
  ghost predicate PlacedArgs(o: Order, off: nat, tys: seq<Ty>, vs: seq<Val>)
    requires FieldsEncodable(tys, vs)
  {
    && |Fields(Separate, o, off, tys, vs, 0)| < WORD && |Fields(InPlace, o, off, tys, vs, 0)| < WORD
    && FieldsPlaced(o, tys, vs, 0, off, off)
  }

  /** The round trip. Append arguments to any message that are placed alike in the buffers and in
      the message, let more data follow, and decode with any fitting targets, in either byte order:
      the values come back, the data offset is exactly at the end of the arguments, and so is the
      signature offset up to the parentheses of a struct in a last blank interface. */
  lemma RoundTripArgs(o: Order, sig0: Signature, body0: seq<byte>, ts: seq<Ty>, tys: seq<Ty>, vs: seq<Val>,
                      sig1: Signature, body1: seq<byte>)
    requires GoodArgs(tys, vs) && PlacedArgs(o, |body0|, tys, vs) && TargetsFit(ts, tys, vs)
    ensures
      var bytes := Fields(Separate, o, |body0|, tys, vs, 0);
      && LastUnclosed(ts, tys, 0) <= |SigsOf(tys, 0)|
      && DecodeArgs(Input(o, body0 + bytes + body1), sig0 + SigsOf(tys, 0) + sig1, ts, 0, |body0|, |sig0|)
          == Ok(ViewArgs(ts, vs), |body0 + bytes|, |sig0 + SigsOf(tys, 0)| - LastUnclosed(ts, tys, 0))
  {
    hide Fields, SigsOf, ViewArgs, LastUnclosed, Storable, Proper, Fits, DynamicOk, HasType, VariantsOk, Supported;
    hide FieldsPlaced;
    LayoutExact(o, |body0|, tys, vs);
    var bytes := Fields(Separate, o, |body0|, tys, vs, 0);
    assert (body0 + bytes + body1)[|body0|..|body0| + |bytes|] == bytes;
    var sig := SigsOf(tys, 0);
    assert (sig0 + sig + sig1)[|sig0|..|sig0| + |sig|] == sig;
    DecodeArgsWire(Input(o, body0 + bytes + body1), |body0|, sig0 + sig + sig1, |sig0|, ts, tys, vs, 0);
    assert ViewArgs(ts, vs)[0..] == ViewArgs(ts, vs);
  }

  /** In particular relocatable arguments round-trip wherever they are appended. */
  lemma RelocatableRoundTrip(o: Order, off: nat, tys: seq<Ty>, vs: seq<Val>)
    requires GoodArgs(tys, vs) && RelocatableArgs(tys, vs) && |Fields(Separate, o, off, tys, vs, 0)| < WORD
    ensures PlacedArgs(o, off, tys, vs)
  {
    hide Fields, FieldsPlaced, Relocatable, HasType, VariantsOk, Supported;
    RelocatablePlaced(o, off, tys, vs);
  }

  lemma {:induction false} OwnTypeFits(ty: Ty)
    requires Proper(ty)
    ensures Fits(ty, ty) && DynamicOk(ty, ty) && Unclosed(ty, ty) == 0
    decreases ty
  {
    match ty
    case TArray(e) => OwnTypeFits(e);
    case TDict(k, x) =>
      OwnTypeFits(x);
      assert Fits(k, k);
    case TStruct(fs) =>
      forall i | 0 <= i < |fs|
        ensures Fits(fs[i], fs[i]) && DynamicOk(PartTarget(ty, i), fs[i]) && Unclosed(PartTarget(ty, i), fs[i]) == 0
      {
        OwnTypeFits(fs[i]);
      }
    case _ =>
  }

  lemma OwnTypeTakes(ty: Ty, v: Val)
    requires Proper(ty) && PayloadsTake(v)
    ensures Fits(ty, ty) && Takes(ty, ty, v) && Unclosed(ty, ty) == 0
  {
    OwnTypeFits(ty);
    DynamicPasses(ty, ty, v);
    PassesTakes(ty, ty, v);
  }

  // ---------------------------------------------------------------- when it is the identity

  /** Every variant payload is a number, boolean, string or variant: a type that decoding into
      a blank interface gives back. */
  ghost predicate PlainVariants(v: Val)
    decreases v
  {
    match v
    case VVariant(t, x) => (BasicKey(t) || t == TVariant) && PlainVariants(x)
    case VArray(es) => forall i :: 0 <= i < |es| ==> PlainVariants(es[i])
    case VDict(es) => forall i :: 0 <= i < |es| ==> PlainVariants(es[i].key) && PlainVariants(es[i].value)
    case VStruct(fs) => forall i :: 0 <= i < |fs| ==> PlainVariants(fs[i])
    case _ => true
  }

  lemma {:induction false} PlainPayloads(v: Val)
    requires PlainVariants(v)
    ensures PayloadsTake(v)
    decreases v
  {
    match v
    case VVariant(t, x) => PlainPayloads(x);
    case VArray(es) => forall i | 0 <= i < |es| ensures PayloadsTake(es[i]) { PlainPayloads(es[i]); }
    case VDict(es) =>
      forall i | 0 <= i < |es| ensures PayloadsTake(es[i].value) {
        assert es[i].value < es[i];
        PlainPayloads(es[i].value);
      }
    case VStruct(fs) => forall i | 0 <= i < |fs| ensures PayloadsTake(fs[i]) { PlainPayloads(fs[i]); }
    case _ =>
  }

  /** Decoded at its own type a value comes back unchanged if and only if its variants are plain;
      a slice, map or struct inside a variant comes back as a slice or map of blank interfaces. */
  lemma {:induction false} IdentityExact(ty: Ty, v: Val)
    requires Encodable(ty, v)
    ensures View(ty, v) == v <==> PlainVariants(v)
    decreases v, 1
  {
    hide SigOf;
    match ty
    case TVariant =>
      IdentityExact(v.ty, v.val);
      if BasicKey(v.ty) || v.ty == TVariant {
        assert View(TAny, v.val) == View(v.ty, v.val);
      }
    case TArray(e) => IdentityArray(e, v);
    case TDict(k, x) => IdentityDict(k, x, v);
    case TStruct(ts) => IdentityStruct(ts, v);
    case _ =>
  }

  lemma {:induction false} IdentityArray(e: Ty, v: Val)
    requires Encodable(TArray(e), v)
    ensures View(TArray(e), v) == v <==> PlainVariants(v)
    decreases v, 0
  {
    forall i | 0 <= i < |v.elems| ensures View(e, v.elems[i]) == v.elems[i] <==> PlainVariants(v.elems[i]) {
      IdentityExact(e, v.elems[i]);
    }
    assert View(TArray(e), v) == v <==> (forall i :: 0 <= i < |v.elems| ==> ViewElems(e, v.elems)[i] == v.elems[i]);
  }

  lemma {:induction false} IdentityDict(k: Ty, x: Ty, v: Val)
    requires Encodable(TDict(k, x), v)
    ensures View(TDict(k, x), v) == v <==> PlainVariants(v)
    decreases v, 0
  {
    var t := TDict(k, x);
    forall i | 0 <= i < |v.entries|
      ensures ViewEntries(t, v.entries)[i] == v.entries[i]
         <==> PlainVariants(v.entries[i].key) && PlainVariants(v.entries[i].value)
    {
      assert v.entries[i].key < v.entries[i] && v.entries[i].value < v.entries[i];
      IdentityExact(k, v.entries[i].key);
      IdentityExact(x, v.entries[i].value);
    }
    assert View(t, v) == v <==> (forall i :: 0 <= i < |v.entries| ==> ViewEntries(t, v.entries)[i] == v.entries[i]);
  }

  lemma {:induction false} IdentityStruct(ts: seq<Ty>, v: Val)
    requires Encodable(TStruct(ts), v)
    ensures View(TStruct(ts), v) == v <==> PlainVariants(v)
    decreases v, 0
  {
    var t := TStruct(ts);
    forall i | 0 <= i < |ts| ensures View(ts[i], v.fields[i]) == v.fields[i] <==> PlainVariants(v.fields[i]) {
      IdentityExact(ts[i], v.fields[i]);
    }
    assert View(t, v) == v <==> (forall i :: 0 <= i < |ts| ==> ViewFields(t, v.fields)[i] == v.fields[i]);
  }

  // ---------------------------------------------------------------- appending in steps

  lemma {:induction false} FieldsShift(p: Placement, o: Order, off: nat, ts: seq<Ty>, us: seq<Ty>,
      vs: seq<Val>, ws: seq<Val>, j: nat)
    requires FieldsEncodable(ts, vs) && FieldsEncodable(us, ws) && FieldsEncodable(ts + us, vs + ws) && j <= |us|
    ensures Fields(p, o, off, ts + us, vs + ws, |ts| + j) == Fields(p, o, off, us, ws, j)
    ensures SigsOf(ts + us, |ts| + j) == SigsOf(us, j)
    decreases |us| - j
  {
    hide Marshalled, HasType, VariantsOk, Supported, SigOf, SigsOf, Fields;
    FieldsHead(p, o, off, us, ws, j);
    FieldsHead(p, o, off, ts + us, vs + ws, |ts| + j);
    SigsHead(us, j);
    SigsHead(ts + us, |ts| + j);
    if j < |us| {
      assert (ts + us)[|ts| + j] == us[j] && (vs + ws)[|ts| + j] == ws[j];
      FieldsShift(p, o, off + |Marshalled(p, o, off, us[j], ws[j])|, ts, us, vs, ws, j + 1);
    }
  }

  /** Appending two lists is appending their concatenation. */
  lemma {:induction false} FieldsConcat(p: Placement, o: Order, off: nat, ts: seq<Ty>, us: seq<Ty>,
      vs: seq<Val>, ws: seq<Val>, i: nat)
    requires FieldsEncodable(ts, vs) && FieldsEncodable(us, ws) && i <= |ts|
    ensures FieldsEncodable(ts + us, vs + ws)
    ensures
      var a := Fields(p, o, off, ts, vs, i);
      Fields(p, o, off, ts + us, vs + ws, i) == a + Fields(p, o, off + |a|, us, ws, 0)
    ensures SigsOf(ts + us, i) == SigsOf(ts, i) + SigsOf(us, 0)
    decreases |ts| - i
  {
    hide Marshalled, HasType, VariantsOk, Supported, SigOf, SigsOf, Fields;
    EncodableConcat(ts, us, vs, ws);
    FieldsHead(p, o, off, ts, vs, i);
    SigsHead(ts, i);
    if i < |ts| {
      assert (ts + us)[i] == ts[i] && (vs + ws)[i] == vs[i];
      var m := Marshalled(p, o, off, ts[i], vs[i]);
      FieldsConcat(p, o, off + |m|, ts, us, vs, ws, i + 1);
      FieldsHead(p, o, off, ts + us, vs + ws, i);
      SigsHead(ts + us, i);
      var a := Fields(p, o, off + |m|, ts, vs, i + 1);
      Associate(m, a, Fields(p, o, off + |m| + |a|, us, ws, 0));
      Associate(SigOf(ts[i]), SigsOf(ts, i + 1), SigsOf(us, 0));
    } else {
      FieldsShift(p, o, off, ts, us, vs, ws, 0);
    }
  }

  lemma Associate(a: seq<byte>, b: seq<byte>, c: seq<byte>)
    ensures a + (b + c) == (a + b) + c
  {
  }

  lemma EncodableConcat(ts: seq<Ty>, us: seq<Ty>, vs: seq<Val>, ws: seq<Val>)
    requires FieldsEncodable(ts, vs) && FieldsEncodable(us, ws)
    ensures FieldsEncodable(ts + us, vs + ws)
  {
    hide HasType, VariantsOk, Supported;
  }

  /** Whatever was appended, the signature stays a run of complete types. */
  lemma {:induction false} AppendKeepsValid(sig: Signature, tys: seq<Ty>, soff: nat)
    requires forall j :: 0 <= j < |tys| ==> Supported(tys[j])
    requires soff <= |sig| && ValidFrom(sig, soff)
    ensures ValidFrom(sig + SigsOf(tys, 0), soff)
    decreases |sig| - soff
  {
    var all := sig + SigsOf(tys, 0);
    if soff == |sig| {
      ArgsValid(all, soff, tys, 0);
    } else {
      var n := NextType(sig, soff).value;
      var c := NextTypeSound(sig, soff);
      assert all[soff..soff + |Print(c)|] == sig[soff..soff + |Print(c)|];
      NextTypeComplete(all, soff, c);
      AppendKeepsValid(sig, tys, n);
    }
  }

  lemma {:induction false} ArgsValid(sig: Signature, soff: nat, tys: seq<Ty>, i: nat)
    requires i <= |tys| && forall j :: 0 <= j < |tys| ==> Supported(tys[j])
    requires soff + |SigsOf(tys, i)| == |sig| && At(sig, soff, SigsOf(tys, i))
    ensures ValidFrom(sig, soff)
    decreases |tys| - i
  {
    hide SigOf, SigsOf, Supported, NextType, At;
    SigsHead(tys, i);
    if i < |tys| {
      AtSplit(sig, soff, SigOf(tys[i]), SigsOf(tys, i + 1));
      NextTypeOfSignature(sig, soff, tys[i]);
      ArgsValid(sig, soff + |SigOf(tys[i])|, tys, i + 1);
    }
  }

  // ---------------------------------------------------------------- outside the relocatable values

  /** The boundary case: a [][]int64 holding one number, appended to an empty message, cannot be
      read back, for every number and in either byte order. */
  lemma NestedInt64Unreadable(o: Order, n: int)
    requires InRange(I64, n)
    ensures
      var ty, v := TArray(TArray(TNum(I64))), VArray([VArray([VNum(I64, n)])]);
      && Encodable(ty, v) && !Relocatable(ty, v)
      && Decode(Input(o, Marshalled(Separate, o, 0, ty, v)), SigOf(ty), ty, 0, 0) == Err(BufferOverrun)
  {
    hide Pow256, PutUint, GetUint, ToBits, FromBits, Modulus, ReadUint, Decode, DecodeArray, Marshalled, NextType;
    var ity, ty, iv := TArray(TNum(I64)), TArray(TArray(TNum(I64))), VArray([VNum(I64, n)]);
    OneIsEncodable(TNum(I64), VNum(I64, n));
    OneIsEncodable(ity, iv);
    assert MaxOver(ity, [iv], 0) == 8;
    var w16, w8, p := PutUint(o, 4, 16), PutUint(o, 4, 8), PutUint(o, 8, ToBits(I64, n));
    NestedBytes(o, n, w16, w8, p);
    assert SigOf(ty) == [ARRAY, ARRAY, NumCode(I64)];
    NestedOverruns(Input(o, w16 + (w8 + (Zeros(4) + p))), SigOf(ty), ty, ity, p);
  }

  lemma NestedOverruns(d: Input, sig: Signature, ty: Ty, ity: Ty, p: seq<byte>)
    requires sig == [ARRAY, ARRAY, NumCode(I64)] && ity == TArray(TNum(I64)) && ty == TArray(ity) && |p| == 8
    requires d.data == PutUint(d.order, 4, 16) + (PutUint(d.order, 4, 8) + (Zeros(4) + p))
    ensures Decode(d, sig, ty, 0, 0) == Err(BufferOverrun)
  {
    hide Pow256, PutUint, GetUint, FromBits, Modulus, ReadUint, Decode, DecodeArray;
    var w16, w8 := PutUint(d.order, 4, 16), PutUint(d.order, 4, 8);
    assert NextType(sig, 2) == Some(3) && NextType(sig, 1) == Some(3);
    assert At(d.data, 0, w16 + (w8 + (Zeros(4) + p)));
    AtSplit(d.data, 0, w16, w8 + (Zeros(4) + p));
    AtSplit(d.data, 4, w8, Zeros(4) + p);
    ReadWord(d, 0, 16);
    ReadWord(d, 4, 8);
    ArrayUnfold(d, sig, ty, 0, 1, 16, 4);
    InnerArray(d, sig, ity);
    TailOverruns(d, sig, ity);
    assert DecodeElems(d, sig, ity, 1, 4, 20) == Err(BufferOverrun);
    ArrayStep(d, sig, ty, 0, 0);
  }

  lemma ArrayStep(d: Input, sig: Signature, t: Ty, off: nat, soff: nat)
    requires soff < |sig| && sig[soff] == ARRAY
    ensures Decode(d, sig, t, off, soff) == DecodeArray(d, sig, t, off, soff + 1)
  {
    hide DecodeArray;
  }

  lemma SeparateArray(o: Order, e: Ty, v: Val)
    requires Encodable(TArray(e), v)
    ensures Marshalled(Separate, o, 0, TArray(e), v)
        == ArrayBytes(o, 0, AlignOf(e), Elems(Separate, o, 0, e, v.elems, 0))
  {
    var b := Body(Separate, o, 0, TArray(e), v);
    assert Zeros(0) + b == b;
  }

  lemma OneIsEncodable(e: Ty, x: Val)
    requires Encodable(e, x)
    ensures Encodable(TArray(e), VArray([x]))
  {
  }

  lemma NestedBytes(o: Order, n: int, w16: seq<byte>, w8: seq<byte>, p: seq<byte>)
    requires InRange(I64, n) && Encodable(TArray(TArray(TNum(I64))), VArray([VArray([VNum(I64, n)])]))
    requires w16 == PutUint(o, 4, 16) && w8 == PutUint(o, 4, 8) && p == PutUint(o, 8, ToBits(I64, n))
    ensures Marshalled(Separate, o, 0, TArray(TArray(TNum(I64))), VArray([VArray([VNum(I64, n)])]))
         == w16 + (w8 + (Zeros(4) + p))
  {
    hide Pow256, PutUint, ToBits, Modulus, Marshalled, Elems, HasType;
    var x, iv := VNum(I64, n), VArray([VNum(I64, n)]);
    OneIsEncodable(TNum(I64), x);
    NumberBytes(o, n);
    OneElem(o, TNum(I64), x);
    SeparateArray(o, TNum(I64), iv);
    EightBytes(o, p);
    OneElem(o, TArray(TNum(I64)), iv);
    SeparateArray(o, TArray(TNum(I64)), VArray([iv]));
    assert |w8 + (Zeros(4) + p)| == 16 && Pad(4, 4) == 0 && Zeros(0) == [];
    assert w16 + Zeros(0) + (w8 + (Zeros(4) + p)) == w16 + (w8 + (Zeros(4) + p));
  }

  lemma NumberBytes(o: Order, n: int)
    requires InRange(I64, n)
    ensures Encodable(TNum(I64), VNum(I64, n))
    ensures Marshalled(Separate, o, 0, TNum(I64), VNum(I64, n)) == PutUint(o, 8, ToBits(I64, n))
  {
    hide PutUint, ToBits;
    var p := PutUint(o, 8, ToBits(I64, n));
    assert Zeros(0) + p == p;
  }

  lemma OneElem(o: Order, e: Ty, x: Val)
    requires Encodable(e, x)
    ensures AllEncodable(e, [x]) && Elems(Separate, o, 0, e, [x], 0) == Marshalled(Separate, o, 0, e, x)
  {
    hide Marshalled, HasType;
    var a := Marshalled(Separate, o, 0, e, x);
    assert Elems(Separate, o, |a|, e, [x], 1) == [];
    assert a + [] == a;
  }

  lemma EightBytes(o: Order, p: seq<byte>)
    requires |p| == 8
    ensures ArrayBytes(o, 0, 8, p) == PutUint(o, 4, 8) + (Zeros(4) + p)
  {
    hide PutUint;
    assert PutUint(o, 4, 8) + Zeros(4) + p == PutUint(o, 4, 8) + (Zeros(4) + p);
  }

  lemma ReadWord(d: Input, off: nat, n: nat)
    requires off % 4 == 0 && n < 256 && At(d.data, off, PutUint(d.order, 4, n))
    ensures ReadUint(d, 4, off) == Got(n, off + 4)
  {
    hide PutUint, Pow256, ReadUint;
    ModulusIsPow(U32);
    assert Zeros(Pad(off, 4)) + PutUint(d.order, 4, n) == PutUint(d.order, 4, n);
    ReadUintBack(d, 4, off, n);
  }

  /** The inner array's length word says 8, so its number is read four bytes too early. */
  lemma InnerArray(d: Input, sig: Signature, t: Ty)
    requires sig == [ARRAY, ARRAY, NumCode(I64)] && t == TArray(TNum(I64)) && |d.data| == 20
    requires ReadUint(d, 4, 4) == Got(8, 8)
    ensures Decode(d, sig, t, 4, 1).Ok? && Decode(d, sig, t, 4, 1).off == 16
  {
    hide Pow256, GetUint, FromBits, Modulus, DecodeArray;
    assert NextType(sig, 2) == Some(3);
    ArrayUnfold(d, sig, t, 4, 2, 8, 8);
    assert Decode(d, sig, TNum(I64), 8, 2).Ok? && Decode(d, sig, TNum(I64), 8, 2).off == 16;
    assert DecodeElems(d, sig, TNum(I64), 2, 8, 16).Ok?;
  }

  /** The rest of the number is then taken for another array, which starts past the end. */
  lemma TailOverruns(d: Input, sig: Signature, t: Ty)
    requires sig == [ARRAY, ARRAY, NumCode(I64)] && t == TArray(TNum(I64)) && |d.data| == 20
    ensures Decode(d, sig, t, 16, 1) == Err(BufferOverrun)
  {
    hide Pow256, GetUint, FromBits, Modulus;
    assert NextType(sig, 2) == Some(3);
    assert ReadUint(d, 4, 16).Got? && ReadUint(d, 4, 16).off == 20;
  }
}
