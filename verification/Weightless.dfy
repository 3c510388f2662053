/** For which types decoding can run forever: exactly those with an array or dict whose elements
    take no bytes. NoWeight says that a type takes no bytes at an aligned place, Loops that such
    an array or dict is inside. Without one every element takes at least a byte, so that the loops
    end. With one there is data that leads the decoder there: zeros, which decode as numbers,
    empty strings and empty arrays on the way, and then an array length of 1. */
module Weightless {
  import opened Bytes
  import opened Types
  import opened Values
  import opened Marshal
  import opened Unmarshal
  import opened RoundTrip
  import opened Progress

  /** A type with a signature and without variants. */
  ghost predicate Static(ty: Ty)
    decreases ty
  {
    match ty
    case TVariant => false
    case TAny => false
    case TArray(e) => Static(e)
    case TDict(k, x) => Static(k) && Static(x)
    case TStruct(ts) => forall i :: 0 <= i < |ts| ==> Static(ts[i])
    case _ => true
  }

  /** A struct with nothing but such structs in it. */
  ghost predicate NoWeight(ty: Ty)
    decreases ty
  {
    ty.TStruct? && forall i :: 0 <= i < |ty.fields| ==> NoWeight(ty.fields[i])
  }

  /** Somewhere inside is an array of elements, or a dict of entries, that take no bytes. */
  ghost predicate Loops(ty: Ty)
    decreases ty
  {
    match ty
    case TArray(e) => NoWeight(e) || Loops(e)
    case TDict(k, x) => (NoWeight(k) && NoWeight(x)) || Loops(k) || Loops(x)
    case TStruct(ts) => exists i :: 0 <= i < |ts| && Loops(ts[i])
    case _ => false
  }

  lemma {:induction false} StaticIsSupported(ty: Ty)
    requires Static(ty)
    ensures Supported(ty)
    decreases ty
  {
    match ty
    case TArray(e) => StaticIsSupported(e);
    case TDict(k, x) => StaticIsSupported(k); StaticIsSupported(x);
    case TStruct(ts) => forall i | 0 <= i < |ts| ensures Supported(ts[i]) { StaticIsSupported(ts[i]); }
    case _ =>
  }

  // ---------------------------------------------------------------- without such a part it ends

  /** Steps over exactly the codes of the type; consumes something unless the type has no weight;
      ends unless the type loops. */
  ghost predicate Steady<T>(loops: bool, moves: bool, off: nat, soff: nat, r: Outcome<T>) {
    && (!loops ==> r != Err(NoProgress))
    && (r.Ok? ==> r.soff == soff && off <= r.off && (moves ==> off < r.off))
  }

  lemma {:induction false} DecodeSteady(d: Input, sig: Signature, ty: Ty, off: nat, soff: nat)
    requires Static(ty) && Supported(ty) && At(sig, soff, SigOf(ty))
    ensures Steady(Loops(ty), !NoWeight(ty), off, soff + |SigOf(ty)|, Decode(d, sig, ty, off, soff))
    decreases DataLeft(d, off), SigLeft(sig, soff), 0
  {
    hide DecodeNum, DecodeBool, DecodeStr, DecodeArray, DecodeStruct, SigsOf, At, Steady, Loops;
    AtHead(sig, soff, SigOf(ty));
    AtFits(sig, soff, SigOf(ty));
    match ty
    case TNum(k) => BasicSteady(d, ty, off, soff + 1);
    case TBool => BasicSteady(d, ty, off, soff + 1);
    case TStr(k) => BasicSteady(d, ty, off, soff + 1);
    case TArray(e) => ArraySteady(d, sig, e, off, soff);
    case TDict(k, x) => DictSteady(d, sig, k, x, off, soff);
    case TStruct(ts) => StructSteady(d, sig, ts, off, soff);
    case _ =>
  }

  lemma BasicSteady(d: Input, ty: Ty, off: nat, soff: nat)
    requires BasicKey(ty)
    ensures ty.TNum? ==> Steady(Loops(ty), true, off, soff, DecodeNum(d, ty.num, ty, off, soff))
    ensures ty.TBool? ==> Steady(Loops(ty), true, off, soff, DecodeBool(d, ty, off, soff))
    ensures ty.TStr? ==> Steady(Loops(ty), true, off, soff, DecodeStr(d, ty.kind, ty, off, soff))
  {
    hide ReadUint, ReadString, ReadSignature, FromBits, Modulus;
  }

  lemma {:induction false} ArraySteady(d: Input, sig: Signature, e: Ty, off: nat, soff: nat)
    requires Static(e) && Supported(e) && At(sig, soff, SigOf(TArray(e)))
    ensures Steady(Loops(TArray(e)), true, off, soff + |SigOf(TArray(e))|,
        DecodeArray(d, sig, TArray(e), off, soff + 1))
    decreases DataLeft(d, off), SigLeft(sig, soff + 1), 3
  {
    hide ReadUint, DecodeElems, DecodeEntries, NextType, SigsOf, Pad, EightCode, NoWeight;
    ArrayCodes(sig, e, soff);
    var r := ReadUint(d, 4, off);
    if r.Got? {
      var start := r.off + if EightCode(sig[soff + 1]) then Pad(r.off, 8) else 0;
      if start + r.value <= |d.data| { ElemsSteady(d, sig, e, start, soff + 1, start + r.value); }
    }
  }

  lemma {:induction false} ElemsSteady(d: Input, sig: Signature, e: Ty, off: nat, soff: nat, end: nat)
    requires Static(e) && Supported(e) && At(sig, soff, SigOf(e)) && end <= |d.data|
    ensures !NoWeight(e) && !Loops(e) ==> DecodeElems(d, sig, e, soff, off, end) != Err(NoProgress)
    decreases DataLeft(d, off), SigLeft(sig, soff), 1
  {
    hide Decode, NoWeight, Loops, Supported, SigOf, At;
    if off < end {
      DecodeSteady(d, sig, e, off, soff);
      var r := Decode(d, sig, e, off, soff);
      if r.Ok? && r.off > off { ElemsSteady(d, sig, e, r.off, soff, end); }
    }
  }

  lemma {:induction false} DictSteady(d: Input, sig: Signature, k: Ty, x: Ty, off: nat, soff: nat)
    requires Static(TDict(k, x)) && Supported(TDict(k, x)) && At(sig, soff, SigOf(TDict(k, x)))
    ensures Steady(Loops(TDict(k, x)), true, off, soff + |SigOf(TDict(k, x))|,
                   DecodeArray(d, sig, TDict(k, x), off, soff + 1))
    decreases DataLeft(d, off), SigLeft(sig, soff + 1), 3
  {
    hide ReadUint, DecodeElems, DecodeEntries, NextType, SigOf, SigsOf, Pad, EightCode, NoWeight;
    AtHead(sig, soff, SigOf(TDict(k, x)));
    AtFits(sig, soff, SigOf(TDict(k, x)));
    NextTypeOfSignature(sig, soff, TDict(k, x));
    DictSignature(sig, soff, k, x);
    var r := ReadUint(d, 4, off);
    if r.Got? {
      var start := r.off + if EightCode(sig[soff + 1]) then Pad(r.off, 8) else 0;
      if start + r.value <= |d.data| { EntriesSteady(d, sig, k, x, start, soff + 1, start + r.value, []); }
    }
  }

  lemma {:induction false} EntriesSteady(d: Input, sig: Signature, k: Ty, x: Ty, off: nat, soff: nat, end: nat,
      acc: seq<Entry>)
    requires Static(k) && Static(x) && Supported(k) && Supported(x) && soff < |sig| && end <= |d.data|
    requires At(sig, soff + 1, SigOf(k)) && At(sig, soff + 1 + |SigOf(k)|, SigOf(x))
    ensures !(NoWeight(k) && NoWeight(x)) && !Loops(k) && !Loops(x) ==>
      DecodeEntries(d, sig, TDict(k, x), soff, off, end, acc) != Err(NoProgress)
    decreases DataLeft(d, off), SigLeft(sig, soff), 1
  {
    hide DecodeEntry, NoWeight, Loops, Supported, SigOf, At, Insert, Static;
    if off < end {
      EntrySteady(d, sig, k, x, off, soff);
      var r := DecodeEntry(d, sig, TDict(k, x), soff, off);
      if r.Ok? && r.off > off && Hashable(r.value.key) {
        EntriesSteady(d, sig, k, x, r.off, soff, end, Insert(acc, r.value.key, r.value.value));
      }
    }
  }

  lemma {:induction false} EntrySteady(d: Input, sig: Signature, k: Ty, x: Ty, off: nat, soff: nat)
    requires Static(k) && Static(x) && Supported(k) && Supported(x) && soff < |sig|
    requires At(sig, soff + 1, SigOf(k)) && At(sig, soff + 1 + |SigOf(k)|, SigOf(x))
    ensures
      var r := DecodeEntry(d, sig, TDict(k, x), soff, off);
      && (!Loops(k) && !Loops(x) ==> r != Err(NoProgress))
      && (r.Ok? && !(NoWeight(k) && NoWeight(x)) ==> off < r.off)
    decreases DataLeft(d, off), SigLeft(sig, soff), 0
  {
    hide Decode, NoWeight, Loops, Supported, SigOf, At, Pad, Static;
    var at := off + Pad(off, 8);
    DecodeSteady(d, sig, k, at, soff + 1);
    var r := Decode(d, sig, k, at, soff + 1);
    if r.Ok? { DecodeSteady(d, sig, x, r.off, r.soff); }
  }

  lemma {:induction false} StructSteady(d: Input, sig: Signature, ts: seq<Ty>, off: nat, soff: nat)
    requires Static(TStruct(ts)) && Supported(TStruct(ts)) && At(sig, soff, SigOf(TStruct(ts)))
    ensures Steady(Loops(TStruct(ts)), !NoWeight(TStruct(ts)), off, soff + |SigOf(TStruct(ts))|,
                   DecodeStruct(d, sig, TStruct(ts), off, soff + 1))
    decreases DataLeft(d, off), SigLeft(sig, soff + 1), 3
  {
    hide DecodeFields, SigsOf, Pad;
    StructSignature(sig, soff, ts);
    FieldsSteady(d, sig, ts, 0, off + Pad(off, 8), soff + 1);
  }

  lemma {:induction false} FieldsSteady(d: Input, sig: Signature, ts: seq<Ty>, i: nat, off: nat, soff: nat)
    requires i <= |ts| && (forall j :: 0 <= j < |ts| ==> Static(ts[j]) && Supported(ts[j]))
    requires At(sig, soff, SigsOf(ts, i)) && soff + |SigsOf(ts, i)| < |sig| && sig[soff + |SigsOf(ts, i)|] == CLOSE
    ensures
      var r := DecodeFields(d, sig, TStruct(ts), i, off, soff);
      && ((forall j :: i <= j < |ts| ==> !Loops(ts[j])) ==> r != Err(NoProgress))
      && (r.Ok? ==> r.soff == soff + |SigsOf(ts, i)| && off <= r.off)
      && (r.Ok? && (exists j :: i <= j < |ts| && !NoWeight(ts[j])) ==> off < r.off)
    decreases DataLeft(d, off), SigLeft(sig, soff), 2
  {
    hide Decode, NoWeight, Loops, SigOf, SigsOf, Static, Supported;
    SigsHead(ts, i);
    if i < |ts| {
      AtSplit(sig, soff, SigOf(ts[i]), SigsOf(ts, i + 1));
      AtHead(sig, soff, SigOf(ts[i]));
      FirstCode(ts[i]);
      DecodeSteady(d, sig, ts[i], off, soff);
      var r := Decode(d, sig, ts[i], off, soff);
      if r.Ok? { FieldsSteady(d, sig, ts, i + 1, r.off, r.soff); }
    } else {
      FieldsStep(d, sig, TStruct(ts), i, off, soff);
    }
  }

  // ---------------------------------------------------------------- with one, some data loop

  /** Where decoding a type from zero bytes ends. */
  function ZeroEnd(off: nat, ty: Ty): (r: nat)
    requires Supported(ty)
    ensures r >= off
    decreases ty
  {
    match ty
    case TNum(k) => off + Pad(off, Width(k)) + Width(k)
    case TBool => off + Pad(off, 4) + 4
    case TStr(k) => if k == Sig then off + 2 else off + Pad(off, 4) + 5
    case TArray(e) => ContentStart(off + Pad(off, 4), AlignOf(e))
    case TDict(_, _) => ContentStart(off + Pad(off, 4), 8)
    case TStruct(ts) => ZeroFields(off + Pad(off, 8), ts, 0)
    case TVariant => off
  }

  function ZeroFields(off: nat, ts: seq<Ty>, i: nat): (r: nat)
    requires i <= |ts| && forall j :: 0 <= j < |ts| ==> Supported(ts[j])
    ensures r >= off
    decreases ts, |ts| - i
  {
    if i == |ts| then off else ZeroFields(ZeroEnd(off, ts[i]), ts, i + 1)
  }

  /** The length word, the padding and the start of the contents of an array of length 1. */
  function OneLong(o: Order, off: nat, a: Alignment): seq<byte> {
    Zeros(Pad(off, 4)) + PutUint(o, 4, 1) + Zeros(Pad(off + Pad(off, 4) + 4, a))
  }

  /** Data on which decoding runs forever. */
  ghost function LoopData(o: Order, off: nat, ty: Ty): (r: seq<byte>)
    requires Supported(ty) && Loops(ty)
    ensures |r| > 0
    decreases ty, 1
  {
    match ty
    case TArray(e) =>
      var start := ContentStart(off + Pad(off, 4), AlignOf(e));
      OneLong(o, off, AlignOf(e)) + if NoWeight(e) then [0] else LoopData(o, start, e)
    case TDict(k, x) =>
      OneLong(o, off, 8) + LoopEntry(o, ContentStart(off + Pad(off, 4), 8), k, x)
    case TStruct(ts) => Zeros(Pad(off, 8)) + LoopFields(o, off + Pad(off, 8), ts, 0)
  }

  ghost function LoopEntry(o: Order, start: nat, k: Ty, x: Ty): (r: seq<byte>)
    requires Supported(TDict(k, x)) && Loops(TDict(k, x))
    ensures |r| > 0
    decreases TDict(k, x), 0
  {
    if NoWeight(k) && NoWeight(x) then [0]
    else if Loops(k) then LoopData(o, start, k)
    else Zeros(ZeroEnd(start, k) - start) + LoopData(o, ZeroEnd(start, k), x)
  }

  ghost function LoopFields(o: Order, off: nat, ts: seq<Ty>, i: nat): (r: seq<byte>)
    requires i <= |ts| && (forall j :: 0 <= j < |ts| ==> Supported(ts[j])) && exists j :: i <= j < |ts| && Loops(ts[j])
    ensures |r| > 0
    decreases ts, |ts| - i
  {
    if Loops(ts[i]) then LoopData(o, off, ts[i])
    else Zeros(ZeroEnd(off, ts[i]) - off) + LoopFields(o, ZeroEnd(off, ts[i]), ts, i + 1)
  }

  lemma ZerosSplit(m: nat, n: nat)
    requires m <= n
    ensures Zeros(n) == Zeros(m) + Zeros(n - m)
  {
  }

  /** A word of zeros reads as 0. */
  lemma ReadZero(d: Input, w: Alignment, off: nat)
    requires At(d.data, off, Zeros(Pad(off, w) + w))
    ensures ReadUint(d, w, off) == Got(0, off + Pad(off, w) + w)
  {
    hide Pad, PutUint, GetUint, ReadUint;
    ZeroUint(d.order, w);
    ZerosSplit(Pad(off, w), Pad(off, w) + w);
    ReadUintBack(d, w, off, 0);
  }

  lemma ZeroUint(o: Order, w: Alignment)
    ensures PutUint(o, w, 0) == Zeros(w) && 0 < Pow256(w)
  {
    ZeroLittle(w);
    var z := Zeros(w);
    ReverseZeros(w);
  }

  lemma {:induction false} ZeroLittle(w: nat)
    ensures LittleEndian(w, 0) == Zeros(w)
    decreases w
  {
    if w > 0 {
      ZeroLittle(w - 1);
      assert [0] + Zeros(w - 1) == Zeros(w);
    }
  }

  lemma ReverseZeros(w: nat)
    ensures Reverse(Zeros(w)) == Zeros(w)
  {
  }

  lemma {:induction false} ZeroDecodes(d: Input, sig: Signature, ty: Ty, off: nat, soff: nat)
    requires Static(ty) && Supported(ty) && At(sig, soff, SigOf(ty))
    requires At(d.data, off, Zeros(ZeroEnd(off, ty) - off))
    ensures
      var r := Decode(d, sig, ty, off, soff);
      r.Ok? && r.off == ZeroEnd(off, ty) && r.soff == soff + |SigOf(ty)|
    decreases ty, 1
  {
    hide DecodeNum, DecodeBool, DecodeStr, DecodeArray, DecodeStruct, SigsOf, At, ZeroEnd;
    AtHead(sig, soff, SigOf(ty));
    AtFits(sig, soff, SigOf(ty));
    match ty
    case TNum(k) => ZeroBasic(d, ty, off, soff + 1);
    case TBool => ZeroBasic(d, ty, off, soff + 1);
    case TStr(k) => ZeroBasic(d, ty, off, soff + 1);
    case TArray(e) => ZeroArray(d, sig, e, off, soff);
    case TDict(k, x) => ZeroDict(d, sig, k, x, off, soff);
    case TStruct(ts) => ZeroStruct(d, sig, ts, off, soff);
    case _ =>
  }

  lemma ZerosAt(d: Input, off: nat, m: nat, n: nat)
    requires m <= n && At(d.data, off, Zeros(n))
    ensures At(d.data, off, Zeros(m)) && At(d.data, off + m, Zeros(n - m)) && off + n <= |d.data|
  {
    ZerosSplit(m, n);
    ZerosLength(m);
    AtSplit(d.data, off, Zeros(m), Zeros(n - m));
  }

  lemma ZeroBasic(d: Input, ty: Ty, off: nat, soff: nat)
    requires BasicKey(ty) && At(d.data, off, Zeros(ZeroEnd(off, ty) - off))
    ensures ty.TNum? ==>
      var r := DecodeNum(d, ty.num, ty, off, soff); r.Ok? && r.off == ZeroEnd(off, ty) && r.soff == soff
    ensures ty.TBool? ==> var r := DecodeBool(d, ty, off, soff); r.Ok? && r.off == ZeroEnd(off, ty) && r.soff == soff
    ensures ty.TStr? ==>
      var r := DecodeStr(d, ty.kind, ty, off, soff); r.Ok? && r.off == ZeroEnd(off, ty) && r.soff == soff
  {
    hide Pad, ReadUint, At, Zeros, FromBits, Modulus;
    match ty
    case TNum(k) => ReadZero(d, Width(k), off);
    case TBool => ReadZero(d, 4, off);
    case TStr(k) =>
      var n := if k == Sig then 1 else Pad(off, 4) + 4;
      ZerosAt(d, off, n, n + 1);
      if k == Sig { ZeroOctet(d, off); } else { ReadZero(d, 4, off); }
  }

  lemma ZeroOctet(d: Input, off: nat)
    requires At(d.data, off, Zeros(1))
    ensures ReadUint(d, 1, off) == Got(0, off + 1)
  {
    hide ReadUint;
    assert Pad(off, 1) == 0;
    ReadZero(d, 1, off);
  }

  /** An array whose length word is 0. */
  lemma EmptyArray(d: Input, sig: Signature, t: Ty, off: nat, soff: nat, a: Alignment)
    requires soff < |sig| && NextType(sig, soff).Some? && (EightCode(sig[soff]) <==> a == 8)
    requires (t.TDict? && sig[soff] == OPENPAIR) || t.TArray?
    requires At(d.data, off, Zeros(ContentStart(off + Pad(off, 4), a) - off))
    requires a < 8 ==> Pad(off + Pad(off, 4) + 4, a) == 0
    ensures
      var r := DecodeArray(d, sig, t, off, soff);
      r.Ok? && r.off == ContentStart(off + Pad(off, 4), a) && r.soff == NextType(sig, soff).value
  {
    hide Pad, ReadUint, At, Zeros, NextType, EightCode, DecodeElems, DecodeEntries;
    var end := ContentStart(off + Pad(off, 4), a);
    ZerosAt(d, off, Pad(off, 4) + 4, end - off);
    ReadZero(d, 4, off);
    ArrayUnfold(d, sig, t, off, soff, 0, off + Pad(off, 4) + 4);
    NothingToRead(d, sig, t, soff, end);
  }

  lemma NothingToRead(d: Input, sig: Signature, t: Ty, soff: nat, at: nat)
    requires at <= |d.data| && soff < |sig|
    ensures DecodeEntries(d, sig, t, soff, at, at, []) == Ok([], at, soff)
    ensures t.TArray? ==> DecodeElems(d, sig, t.elem, soff, at, at) == Ok([], at, soff)
  {
  }

  /** Contents of elements that align below 8 follow their length word at once. */
  lemma NoSecondPad(off: nat, a: Alignment)
    ensures a < 8 ==> Pad(off + Pad(off, 4) + 4, a) == 0
  {
    if a < 8 { SmallPad(off, a); }
  }

  lemma ZeroArray(d: Input, sig: Signature, e: Ty, off: nat, soff: nat)
    requires Static(e) && Supported(e) && At(sig, soff, SigOf(TArray(e)))
    requires At(d.data, off, Zeros(ZeroEnd(off, TArray(e)) - off))
    ensures
      var r := DecodeArray(d, sig, TArray(e), off, soff + 1);
      r.Ok? && r.off == ZeroEnd(off, TArray(e)) && r.soff == soff + |SigOf(TArray(e))|
  {
    hide Pad, NextType, EightCode, DecodeArray, SigsOf;
    ArrayCodes(sig, e, soff);
    NoSecondPad(off, AlignOf(e));
    EmptyArray(d, sig, TArray(e), off, soff + 1, AlignOf(e));
  }

  lemma ZeroDict(d: Input, sig: Signature, k: Ty, x: Ty, off: nat, soff: nat)
    requires Static(TDict(k, x)) && Supported(TDict(k, x)) && At(sig, soff, SigOf(TDict(k, x)))
    requires At(d.data, off, Zeros(ZeroEnd(off, TDict(k, x)) - off))
    ensures
      var r := DecodeArray(d, sig, TDict(k, x), off, soff + 1);
      r.Ok? && r.off == ZeroEnd(off, TDict(k, x)) && r.soff == soff + |SigOf(TDict(k, x))|
  {
    hide Pad, NextType, DecodeArray, SigOf;
    AtFits(sig, soff, SigOf(TDict(k, x)));
    NextTypeOfSignature(sig, soff, TDict(k, x));
    DictSignature(sig, soff, k, x);
    EmptyArray(d, sig, TDict(k, x), off, soff + 1, 8);
  }

  lemma {:induction false} ZeroStruct(d: Input, sig: Signature, ts: seq<Ty>, off: nat, soff: nat)
    requires Static(TStruct(ts)) && Supported(TStruct(ts)) && At(sig, soff, SigOf(TStruct(ts)))
    requires At(d.data, off, Zeros(ZeroEnd(off, TStruct(ts)) - off))
    ensures
      var r := DecodeStruct(d, sig, TStruct(ts), off, soff + 1);
      r.Ok? && r.off == ZeroEnd(off, TStruct(ts)) && r.soff == soff + |SigOf(TStruct(ts))|
    decreases TStruct(ts), 0
  {
    hide Pad, DecodeFields, SigsOf, ZeroFields, Zeros;
    StructSignature(sig, soff, ts);
    ZerosAt(d, off, Pad(off, 8), ZeroEnd(off, TStruct(ts)) - off);
    ZeroFieldsDecode(d, sig, ts, 0, off + Pad(off, 8), soff + 1);
  }

  lemma {:induction false} ZeroFieldsDecode(d: Input, sig: Signature, ts: seq<Ty>, i: nat, off: nat, soff: nat)
    requires i <= |ts| && forall j :: 0 <= j < |ts| ==> Static(ts[j]) && Supported(ts[j])
    requires At(sig, soff, SigsOf(ts, i)) && soff + |SigsOf(ts, i)| < |sig| && sig[soff + |SigsOf(ts, i)|] == CLOSE
    requires At(d.data, off, Zeros(ZeroFields(off, ts, i) - off))
    ensures
      var r := DecodeFields(d, sig, TStruct(ts), i, off, soff);
      r.Ok? && r.off == ZeroFields(off, ts, i) && r.soff == soff + |SigsOf(ts, i)|
    decreases ts, |ts| - i
  {
    hide Decode, SigOf, SigsOf, Static, Supported, ZeroEnd, Zeros, At, DecodeFields;
    SigsHead(ts, i);
    if i < |ts| {
      var next := ZeroEnd(off, ts[i]);
      ZerosAt(d, off, next - off, ZeroFields(off, ts, i) - off);
      AtSplit(sig, soff, SigOf(ts[i]), SigsOf(ts, i + 1));
      AtHead(sig, soff, SigOf(ts[i]));
      AtFits(sig, soff, SigOf(ts[i]));
      FirstCode(ts[i]);
      ZeroDecodes(d, sig, ts[i], off, soff);
      ZeroFieldsDecode(d, sig, ts, i + 1, next, soff + |SigOf(ts[i])|);
      FieldsStep(d, sig, TStruct(ts), i, off, soff);
    } else {
      FieldsStep(d, sig, TStruct(ts), i, off, soff);
    }
  }

  // ---------------------------------------------------------------- the data loops

  /** The length word of OneLong reads as 1, and what follows is the contents. */
  lemma OneLongReads(d: Input, off: nat, a: Alignment, content: seq<byte>)
    requires At(d.data, off, OneLong(d.order, off, a) + content)
    ensures ReadUint(d, 4, off) == Got(1, off + Pad(off, 4) + 4)
    ensures At(d.data, ContentStart(off + Pad(off, 4), a), content)
  {
    hide Pad, PutUint, ReadUint, Pow256, Zeros;
    var z, n := Zeros(Pad(off, 4)), PutUint(d.order, 4, 1);
    var z' := Zeros(Pad(off + Pad(off, 4) + 4, a));
    ZerosLength(Pad(off, 4));
    ZerosLength(Pad(off + Pad(off, 4) + 4, a));
    AtSplit(d.data, off, z + n + z', content);
    AtSplit(d.data, off, z + n, z');
    ModulusIsPow(U32);
    ReadUintBack(d, 4, off, 1);
  }

  lemma {:induction false} DataLoops(d: Input, sig: Signature, ty: Ty, off: nat, soff: nat)
    requires Static(ty) && Supported(ty) && Loops(ty) && At(sig, soff, SigOf(ty))
    requires At(d.data, off, LoopData(d.order, off, ty))
    ensures Decode(d, sig, ty, off, soff) == Err(NoProgress)
    decreases ty, 1
  {
    hide DecodeNum, DecodeBool, DecodeStr, DecodeArray, DecodeStruct, SigsOf, At, LoopData;
    AtHead(sig, soff, SigOf(ty));
    AtFits(sig, soff, SigOf(ty));
    match ty
    case TArray(e) => ArrayLoops(d, sig, e, off, soff);
    case TDict(k, x) => DictLoops(d, sig, k, x, off, soff);
    case TStruct(ts) => StructLoops(d, sig, ts, off, soff);
  }

  /** A weightless type decodes at an aligned place without moving. */
  lemma {:induction false} NoWeightStays(off: nat, ty: Ty)
    requires NoWeight(ty) && Supported(ty) && Multiple(8, off)
    ensures ZeroEnd(off, ty) == off
    decreases ty
  {
    NoWeightFields(off, ty.fields, 0);
    assert Pad(off, 8) == 0;
  }

  lemma {:induction false} NoWeightFields(off: nat, ts: seq<Ty>, i: nat)
    requires i <= |ts| && (forall j :: 0 <= j < |ts| ==> NoWeight(ts[j]) && Supported(ts[j])) && Multiple(8, off)
    ensures ZeroFields(off, ts, i) == off
    decreases ts, |ts| - i
  {
    hide NoWeight, Supported, Multiple, ZeroEnd;
    if i < |ts| {
      NoWeightStays(off, ts[i]);
      NoWeightFields(off, ts, i + 1);
    }
  }

  lemma NoZeros(d: Input, off: nat)
    requires off <= |d.data|
    ensures At(d.data, off, Zeros(0))
  {
  }

  lemma AtInside(d: Input, off: nat, w: seq<byte>)
    requires At(d.data, off, w)
    ensures off + |w| <= |d.data|
  {
  }

  lemma ContentAtEight(off: nat)
    ensures Multiple(8, ContentStart(off + Pad(off, 4), 8)) && ContentStart(off + Pad(off, 4), 8) % 8 == 0
  {
  }

  lemma {:induction false} ArrayLoops(d: Input, sig: Signature, e: Ty, off: nat, soff: nat)
    requires Static(e) && Supported(e) && Loops(TArray(e)) && At(sig, soff, SigOf(TArray(e)))
    requires At(d.data, off, LoopData(d.order, off, TArray(e)))
    ensures DecodeArray(d, sig, TArray(e), off, soff + 1) == Err(NoProgress)
    decreases TArray(e), 0
  {
    hide Pad, NextType, EightCode, DecodeArray, Decode, SigsOf, PutUint, OneLong, ReadUint;
    ArrayCodes(sig, e, soff);
    NoSecondPad(off, AlignOf(e));
    var start := ContentStart(off + Pad(off, 4), AlignOf(e));
    var content := if NoWeight(e) then [0] else LoopData(d.order, start, e);
    OneLongReads(d, off, AlignOf(e), content);
    AtInside(d, start, content);
    if NoWeight(e) {
      ContentAtEight(off);
      NoWeightStays(start, e);
      NoZeros(d, start);
      ZeroDecodes(d, sig, e, start, soff + 1);
    } else {
      DataLoops(d, sig, e, start, soff + 1);
    }
    FirstElemLoops(d, sig, e, soff + 1, start, start + 1);
    ArrayUnfold(d, sig, TArray(e), off, soff + 1, 1, off + Pad(off, 4) + 4);
  }

  /** On every data: an array of such elements runs forever if and only if its length is not 0. */
  lemma WeightlessElementsLoop(d: Input, sig: Signature, e: Ty, off: nat, soff: nat, len: nat)
    requires Static(e) && Supported(e) && NoWeight(e) && At(sig, soff, SigOf(TArray(e)))
    requires ReadUint(d, 4, off) == Got(len, off + Pad(off, 4) + 4)
    requires ContentStart(off + Pad(off, 4), 8) + len <= |d.data|
    ensures Decode(d, sig, TArray(e), off, soff) == Err(NoProgress) <==> len > 0
  {
    hide Pad, NextType, EightCode, DecodeArray, Decode, SigOf, PutUint, ReadUint, DecodeElems, DecodeEntries, NoWeight;
    var start := ContentStart(off + Pad(off, 4), 8);
    ArrayCodes(sig, e, soff);
    IsArray(d, sig, TArray(e), off, soff);
    NoWeightIsStruct(e);
    ContentAtEight(off);
    NoWeightStays(start, e);
    NoZeros(d, start);
    ZeroDecodes(d, sig, e, start, soff + 1);
    if len > 0 { FirstElemLoops(d, sig, e, soff + 1, start, start + len); }
    ArrayUnfold(d, sig, TArray(e), off, soff + 1, len, off + Pad(off, 4) + 4);
    NothingToRead(d, sig, TArray(e), soff + 1, start);
  }

  lemma NoWeightIsStruct(e: Ty)
    requires NoWeight(e)
    ensures e.TStruct?
  {
  }

  lemma FirstElemLoops(d: Input, sig: Signature, e: Ty, soff: nat, off: nat, end: nat)
    requires off < end <= |d.data|
    requires var r := Decode(d, sig, e, off, soff); r == Err(NoProgress) || (r.Ok? && r.off == off)
    ensures DecodeElems(d, sig, e, soff, off, end) == Err(NoProgress)
  {
    hide Decode;
  }

  lemma {:induction false} DictLoops(d: Input, sig: Signature, k: Ty, x: Ty, off: nat, soff: nat)
    requires Static(TDict(k, x)) && Supported(TDict(k, x)) && Loops(TDict(k, x)) && At(sig, soff, SigOf(TDict(k, x)))
    requires At(d.data, off, LoopData(d.order, off, TDict(k, x)))
    ensures DecodeArray(d, sig, TDict(k, x), off, soff + 1) == Err(NoProgress)
    decreases TDict(k, x), 0
  {
    hide Pad, NextType, DecodeArray, DecodeEntries, SigOf, PutUint, OneLong, ReadUint, NoWeight, Multiple, At;
    hide LoopEntry;
    hide Static, Loops, Supported, LoopData;
    AtFits(sig, soff, SigOf(TDict(k, x)));
    NextTypeOfSignature(sig, soff, TDict(k, x));
    DictSignature(sig, soff, k, x);
    var start := ContentStart(off + Pad(off, 4), 8);
    var content := LoopEntry(d.order, start, k, x);
    LoopDict(d.order, off, k, x);
    OneLongReads(d, off, 8, content);
    AtInside(d, start, content);
    ContentAtEight(off);
    EntryLoops(d, sig, k, x, soff + 1, start, content);
    ArrayUnfold(d, sig, TDict(k, x), off, soff + 1, 1, off + Pad(off, 4) + 4);
  }

  lemma LoopDict(o: Order, off: nat, k: Ty, x: Ty)
    requires Supported(TDict(k, x)) && Loops(TDict(k, x))
    ensures LoopData(o, off, TDict(k, x)) == OneLong(o, off, 8) + LoopEntry(o, ContentStart(off + Pad(off, 4), 8), k, x)
  {
    hide Pad, OneLong, LoopEntry;
  }

  lemma {:induction false} EntryLoops(d: Input, sig: Signature, k: Ty, x: Ty, soff: nat, start: nat, content: seq<byte>)
    requires Static(TDict(k, x)) && Supported(TDict(k, x)) && Loops(TDict(k, x))
    requires soff < |sig| && At(sig, soff + 1, SigOf(k)) && At(sig, soff + 1 + |SigOf(k)|, SigOf(x))
    requires Multiple(8, start) && start < |d.data| && At(d.data, start, content)
    requires content == LoopEntry(d.order, start, k, x)
    ensures DecodeEntries(d, sig, TDict(k, x), soff, start, start + 1, []) == Err(NoProgress)
    decreases TDict(k, x), 0, 0
  {
    hide Decode, SigOf, LoopData, ZeroEnd, Zeros, At;
    assert Pad(start, 8) == 0;
    if NoWeight(k) && NoWeight(x) {
      WeightlessEntry(d, sig, k, x, soff, start, start + 1);
    } else if Loops(k) {
      DataLoops(d, sig, k, start, soff + 1);
    } else {
      var next := ZeroEnd(start, k);
      ZerosLength(next - start);
      AtSplit(d.data, start, Zeros(next - start), LoopData(d.order, next, x));
      ZeroDecodes(d, sig, k, start, soff + 1);
      DataLoops(d, sig, x, next, soff + 1 + |SigOf(k)|);
    }
  }

  lemma WeightlessEntry(d: Input, sig: Signature, k: Ty, x: Ty, soff: nat, start: nat, end: nat)
    requires Static(TDict(k, x)) && Supported(TDict(k, x)) && NoWeight(k) && NoWeight(x)
    requires soff < |sig| && At(sig, soff + 1, SigOf(k)) && At(sig, soff + 1 + |SigOf(k)|, SigOf(x))
    requires Multiple(8, start) && start < end <= |d.data|
    ensures DecodeEntries(d, sig, TDict(k, x), soff, start, end, []) == Err(NoProgress)
  {
    hide Decode, SigOf, ZeroEnd, Zeros, At, NoWeight;
    assert Pad(start, 8) == 0;
    NoWeightStays(start, k);
    NoWeightStays(start, x);
    NoZeros(d, start);
    ZeroDecodes(d, sig, k, start, soff + 1);
    ZeroDecodes(d, sig, x, start, soff + 1 + |SigOf(k)|);
    StructKey(d, sig, k, start, soff + 1);
  }

  /** And a dict whose entries take no bytes, at its own type. */
  lemma WeightlessEntriesLoop(d: Input, sig: Signature, k: Ty, x: Ty, off: nat, soff: nat, len: nat)
    requires Static(TDict(k, x)) && Supported(TDict(k, x)) && NoWeight(k) && NoWeight(x)
    requires At(sig, soff, SigOf(TDict(k, x))) && ReadUint(d, 4, off) == Got(len, off + Pad(off, 4) + 4)
    requires ContentStart(off + Pad(off, 4), 8) + len <= |d.data|
    ensures Decode(d, sig, TDict(k, x), off, soff) == Err(NoProgress) <==> len > 0
  {
    hide Pad, NextType, DecodeArray, DecodeEntries, Decode, SigOf, ReadUint, NoWeight, Multiple, At, Static, Supported;
    var start := ContentStart(off + Pad(off, 4), 8);
    AtFits(sig, soff, SigOf(TDict(k, x)));
    NextTypeOfSignature(sig, soff, TDict(k, x));
    DictSignature(sig, soff, k, x);
    IsArray(d, sig, TDict(k, x), off, soff);
    ContentAtEight(off);
    if len > 0 { WeightlessEntry(d, sig, k, x, soff + 1, start, start + len); }
    ArrayUnfold(d, sig, TDict(k, x), off, soff + 1, len, off + Pad(off, 4) + 4);
    NothingToRead(d, sig, TDict(k, x), soff + 1, start);
  }

  /** A struct key is hashable in Go if its fields are. */
  lemma StructKey(d: Input, sig: Signature, k: Ty, off: nat, soff: nat)
    requires NoWeight(k) && Supported(k) && At(sig, soff, SigOf(k)) && Decode(d, sig, k, off, soff).Ok?
    ensures Hashable(Decode(d, sig, k, off, soff).value)
  {
    hide DecodeFields, SigsOf;
    AtHead(sig, soff, SigOf(k));
  }

  lemma {:induction false} StructLoops(d: Input, sig: Signature, ts: seq<Ty>, off: nat, soff: nat)
    requires Static(TStruct(ts)) && Supported(TStruct(ts)) && Loops(TStruct(ts)) && At(sig, soff, SigOf(TStruct(ts)))
    requires At(d.data, off, LoopData(d.order, off, TStruct(ts)))
    ensures DecodeStruct(d, sig, TStruct(ts), off, soff + 1) == Err(NoProgress)
    decreases TStruct(ts), 0
  {
    hide Pad, DecodeFields, SigsOf, LoopFields, Zeros;
    StructSignature(sig, soff, ts);
    ZerosLength(Pad(off, 8));
    AtSplit(d.data, off, Zeros(Pad(off, 8)), LoopFields(d.order, off + Pad(off, 8), ts, 0));
    FieldsLoop(d, sig, ts, 0, off + Pad(off, 8), soff + 1);
  }

  lemma {:induction false} FieldsLoop(d: Input, sig: Signature, ts: seq<Ty>, i: nat, off: nat, soff: nat)
    requires i <= |ts| && (forall j :: 0 <= j < |ts| ==> Static(ts[j]) && Supported(ts[j]))
    requires exists j :: i <= j < |ts| && Loops(ts[j])
    requires At(sig, soff, SigsOf(ts, i)) && soff + |SigsOf(ts, i)| < |sig|
    requires At(d.data, off, LoopFields(d.order, off, ts, i))
    ensures DecodeFields(d, sig, TStruct(ts), i, off, soff) == Err(NoProgress)
    decreases ts, |ts| - i
  {
    hide Decode, SigOf, SigsOf, Static, Supported, ZeroEnd, Zeros, At, Loops, LoopData;
    SigsHead(ts, i);
    AtSplit(sig, soff, SigOf(ts[i]), SigsOf(ts, i + 1));
    AtHead(sig, soff, SigOf(ts[i]));
    AtFits(sig, soff, SigOf(ts[i]));
    FirstCode(ts[i]);
    if Loops(ts[i]) {
      DataLoops(d, sig, ts[i], off, soff);
    } else {
      var next := ZeroEnd(off, ts[i]);
      ZerosLength(next - off);
      AtSplit(d.data, off, Zeros(next - off), LoopFields(d.order, next, ts, i + 1));
      ZeroDecodes(d, sig, ts[i], off, soff);
      FieldsLoop(d, sig, ts, i + 1, next, soff + |SigOf(ts[i])|);
    }
  }

  /** For every type without variants: decoding some data into it runs forever if and only if some
      array or dict inside has elements that take no bytes. */
  lemma NoProgressExactly(ty: Ty)
    requires Static(ty) && Supported(ty)
    ensures (exists d: Input, off: nat :: Decode(d, SigOf(ty), ty, off, 0) == Err(NoProgress)) <==> Loops(ty)
  {
    hide Decode, SigOf, Loops, NoWeight, LoopData, Static, Supported;
    var sig := SigOf(ty);
    assert At(sig, 0, sig);
    if Loops(ty) {
      var d := Input(Little, LoopData(Little, 0, ty));
      assert At(d.data, 0, d.data);
      DataLoops(d, sig, ty, 0, 0);
    } else {
      forall d: Input, off: nat ensures Decode(d, sig, ty, off, 0) != Err(NoProgress) {
        DecodeSteady(d, sig, ty, off, 0);
      }
    }
  }
}
