/** The decoder on arbitrary bytes decodes the same thing whether the target is a Go type or a
    blank interface. */
module DecoderLaws {
  import opened Bytes
  import opened Types
  import opened Values
  import opened Unmarshal
  import opened RoundTrip

  // ---------------------------------------------------------------- typed and dynamic decoding

  /** A decoded value with its static types forgotten: structs become slices. */
  ghost function Erase(v: Val): Val
    decreases v
  {
    match v
    case VArray(es) => VArray(EraseAll(es))
    case VStruct(fs) => VArray(EraseAll(fs))
    case VDict(es) => VDict(EraseEntries(es))
    case _ => v
  }

  ghost function EraseAll(vs: seq<Val>): (r: seq<Val>)
    ensures |r| == |vs|
    decreases vs
  {
    seq(|vs|, i requires 0 <= i < |vs| => Erase(vs[i]))
  }

  ghost function EraseEntries(es: seq<Entry>): (r: seq<Entry>)
    ensures |r| == |es|
    decreases es
  {
    seq(|es|, i requires 0 <= i < |es| => EraseEntry(es[i]))
  }

  ghost function EraseEntry(e: Entry): Entry
    decreases e
  {
    Entry(Erase(e.key), Erase(e.value))
  }

  lemma EraseCons(v: Val, vs: seq<Val>)
    ensures EraseAll([v] + vs) == [Erase(v)] + EraseAll(vs)
  {
    assert EraseAll([v] + vs)[1..] == EraseAll(vs);
  }

  ghost predicate SameElems(a: Outcome<seq<Val>>, b: Outcome<seq<Val>>) {
    match (a, b)
    case (Err(e), Err(f)) => e == f
    case (Ok(vs, o, _), Ok(ws, o', _)) => o == o' && ws == EraseAll(vs)
    case _ => false
  }

  /** Typed result `a` and dynamic result `b` of reading a `ty` from `soff` on. */
  ghost predicate Agrees(ty: Ty, soff: nat, a: Outcome<Val>, b: Outcome<Val>)
    requires Supported(ty)
  {
    match (a, b)
    case (Err(e), Err(f)) => e == f
    case (Ok(v, o, s), Ok(w, o', s')) =>
      o == o' && w == Erase(v) && s == soff + |SigOf(ty)| && s' + Unclosed(TAny, ty) == s
    case _ => false
  }

  /** On any bytes, decoding into the matching Go type and into a blank interface fail with the
      same error, or both succeed, consume the same bytes and give the same value. */
  lemma {:induction false} TypedDynamicAgree(d: Input, sig: Signature, ty: Ty, off: nat, soff: nat)
    requires Proper(ty) && Supported(ty) && DynamicOk(TAny, ty) && At(sig, soff, SigOf(ty))
    ensures Agrees(ty, soff, Decode(d, sig, ty, off, soff), Decode(d, sig, TAny, off, soff))
    decreases DataLeft(d, off), SigLeft(sig, soff), 0
  {
    hide Proper, DynamicOk, DecodeNum, DecodeBool, DecodeStr, DecodeArray, DecodeStruct, DecodeVariant, SigsOf, Erase;
    hide Unclosed;
    AtHead(sig, soff, SigOf(ty));
    UnclosedNone(TAny, ty);
    match ty
    case TArray(e) => ArrayAgrees(d, sig, e, off, soff);
    case TDict(k, x) => DictAgrees(d, sig, k, x, off, soff);
    case TStruct(ts) => StructAgrees(d, sig, ts, off, soff);
    case TVariant => VariantAgrees(d, off, soff + 1);
    case TAny =>
    case _ => BasicAgrees(d, ty, off, soff + 1);
  }

  lemma BasicAgrees(d: Input, ty: Ty, off: nat, soff: nat)
    requires BasicKey(ty)
    ensures ty.TNum? ==> DecodeNum(d, ty.num, ty, off, soff) == DecodeNum(d, ty.num, TAny, off, soff)
    ensures ty.TNum? ==> BasicValue(DecodeNum(d, ty.num, ty, off, soff))
    ensures ty.TBool? ==> DecodeBool(d, ty, off, soff) == DecodeBool(d, TAny, off, soff)
    ensures ty.TBool? ==> BasicValue(DecodeBool(d, ty, off, soff))
    ensures ty.TStr? ==> DecodeStr(d, ty.kind, ty, off, soff) == DecodeStr(d, ty.kind, TAny, off, soff)
    ensures ty.TStr? ==> BasicValue(DecodeStr(d, ty.kind, ty, off, soff))
  {
    hide ReadUint, ReadString, ReadSignature;
  }

  ghost predicate Basic(v: Val) {
    v.VNum? || v.VBool? || v.VStr?
  }

  ghost predicate BasicValue(r: Outcome<Val>) {
    r.Ok? ==> Basic(r.value) && Erase(r.value) == r.value
  }

  lemma VariantAgrees(d: Input, off: nat, soff: nat)
    ensures DecodeVariant(d, TVariant, off, soff) == DecodeVariant(d, TAny, off, soff)
    ensures DecodeVariant(d, TVariant, off, soff).Ok? ==>
      Erase(DecodeVariant(d, TVariant, off, soff).value) == DecodeVariant(d, TVariant, off, soff).value
  {
    hide Decode, ReadSignature;
  }

  lemma {:induction false} ArrayAgrees(d: Input, sig: Signature, e: Ty, off: nat, soff: nat)
    requires Proper(TArray(e)) && Supported(TArray(e)) && DynamicOk(TAny, TArray(e)) && At(sig, soff, SigOf(TArray(e)))
    ensures Agrees(TArray(e), soff, DecodeArray(d, sig, TArray(e), off, soff + 1),
        DecodeArray(d, sig, TAny, off, soff + 1))
    decreases DataLeft(d, off), SigLeft(sig, soff + 1), 3
  {
    hide ReadUint, DecodeArray, DecodeElems, NextType, SigOf, EraseAll, Pad, EightCode, AlignOf, At, Proper, Supported;
    hide DynamicOk;
    ArrayParts(e);
    ArrayCodes(sig, e, soff);
    var r := ReadUint(d, 4, off);
    var start := if r.Got? then r.off + if EightCode(sig[soff + 1]) then Pad(r.off, 8) else 0 else 0;
    if r.Overrun? || |d.data| < start + r.value {
      NoContent(d, sig, TArray(e), off, soff + 1);
      NoContent(d, sig, TAny, off, soff + 1);
    } else {
      ArrayUnfold(d, sig, TArray(e), off, soff + 1, r.value, r.off);
      ArrayUnfold(d, sig, TAny, off, soff + 1, r.value, r.off);
      ElemsAgree(d, sig, e, start, soff + 1, start + r.value);
    }
  }

  lemma ArrayParts(e: Ty)
    requires Proper(TArray(e)) && Supported(TArray(e)) && DynamicOk(TAny, TArray(e))
    ensures Proper(e) && Supported(e) && DynamicOk(TAny, e) && Unclosed(TAny, TArray(e)) == 0
  {
  }

  lemma {:induction false} ElemsAgree(d: Input, sig: Signature, e: Ty, off: nat, soff: nat, end: nat)
    requires Proper(e) && Supported(e) && DynamicOk(TAny, e) && At(sig, soff, SigOf(e)) && end <= |d.data|
    ensures SameElems(DecodeElems(d, sig, e, soff, off, end), DecodeElems(d, sig, TAny, soff, off, end))
    decreases DataLeft(d, off), SigLeft(sig, soff), 1
  {
    hide Decode, Proper, DynamicOk, Supported, SigOf, Erase, EraseAll;
    if off < end {
      TypedDynamicAgree(d, sig, e, off, soff);
      var r := Decode(d, sig, e, off, soff);
      if r.Ok? && r.off > off {
        ElemsAgree(d, sig, e, r.off, soff, end);
        var rest := DecodeElems(d, sig, e, soff, r.off, end);
        if rest.Ok? { EraseCons(r.value, rest.value); }
      }
    } else {
      EraseNone();
    }
  }

  lemma EraseNone()
    ensures EraseAll([]) == [] && EraseEntries([]) == []
  {
  }

  lemma {:induction false} StructAgrees(d: Input, sig: Signature, ts: seq<Ty>, off: nat, soff: nat)
    requires Proper(TStruct(ts)) && Supported(TStruct(ts)) && DynamicOk(TAny, TStruct(ts))
    requires At(sig, soff, SigOf(TStruct(ts)))
    ensures Agrees(TStruct(ts), soff, DecodeStruct(d, sig, TStruct(ts), off, soff + 1),
        DecodeStruct(d, sig, TAny, off, soff + 1))
    decreases DataLeft(d, off), SigLeft(sig, soff + 1), 3
  {
    hide DecodeFields, SigsOf, EraseAll, Pad, Unclosed, Proper, DynamicOk;
    StructSignature(sig, soff, ts);
    UnclosedStruct(TAny, ts);
    LeftoverCloses(sig, soff, TAny, ts);
    FieldsAgree(d, sig, ts, 0, off + Pad(off, 8), soff + 1);
    var r := DecodeFields(d, sig, TStruct(ts), 0, off + Pad(off, 8), soff + 1);
    if r.Ok? { assert r.value + [] == r.value; }
  }

  lemma FieldTypes(t: Ty, ts: seq<Ty>, i: nat)
    requires Proper(TStruct(ts)) && Fits(t, TStruct(ts)) && DynamicOk(t, TStruct(ts)) && i <= |ts|
    ensures i < |ts| ==>
        && Proper(ts[i]) && Fits(PartTarget(t, i), ts[i]) && DynamicOk(PartTarget(t, i), ts[i])
        && FieldTarget(t, i) == Some(PartTarget(t, i))
    ensures i < |ts| - 1 ==> Unclosed(PartTarget(t, i), ts[i]) == 0 && Proper(ts[|ts| - 1])
    ensures i == |ts| ==> t == TAny || FieldTarget(t, i) == None
    ensures i == |ts| - 1 ==> t == TAny || FieldTarget(t, i + 1) == None
  {
  }

  /** From the i-th field on, the typed and the dynamic decoding give the same fields or error. */
  ghost predicate FieldsMatch(d: Input, sig: Signature, ts: seq<Ty>, i: nat, off: nat, soff: nat)
    requires i <= |ts| && Supported(TStruct(ts))
  {
    var a := DecodeFields(d, sig, TStruct(ts), i, off, soff);
    var b := DecodeFields(d, sig, TAny, i, off, soff);
    && SameElems(a, b)
    && (a.Ok? ==>
         && |a.value| == |ts| - i && a.soff == soff + |SigsOf(ts, i)|
         && b.soff == soff + |SigsOf(ts, i)| - Leftover(TAny, ts, i))
  }

  ghost predicate Closes(sig: Signature, ts: seq<Ty>, i: nat, soff: nat)
    requires i <= |ts| && Supported(TStruct(ts))
  {
    && soff + |SigsOf(ts, i)| < |sig| && sig[soff + |SigsOf(ts, i)|] == CLOSE
    && Leftover(TAny, ts, i) <= |SigsOf(ts, i)| && sig[soff + |SigsOf(ts, i)| - Leftover(TAny, ts, i)] == CLOSE
  }

  lemma {:induction false} FieldsAgree(d: Input, sig: Signature, ts: seq<Ty>, i: nat, off: nat, soff: nat)
    requires i <= |ts| && Proper(TStruct(ts)) && Supported(TStruct(ts)) && DynamicOk(TAny, TStruct(ts))
    requires At(sig, soff, SigsOf(ts, i)) && Closes(sig, ts, i, soff)
    ensures FieldsMatch(d, sig, ts, i, off, soff)
    decreases DataLeft(d, off), SigLeft(sig, soff), 2
  {
    hide Decode, Unclosed, Proper, DynamicOk, SigOf, SigsOf, Fits, FieldsMatch, Closes, At, Supported;
    if i < |ts| {
      FieldTypes(TAny, ts, i);
      FieldAgrees(d, sig, ts, i, off, soff);
      var r := Decode(d, sig, ts[i], off, soff);
      if i == |ts| - 1 {
        LastFieldAgrees(d, sig, ts, off, soff);
      } else {
        if r.Ok? {
          FieldCloses(sig, ts, i, soff);
          FieldsAgree(d, sig, ts, i + 1, r.off, r.soff);
        }
        FieldThenRest(d, sig, ts, i, off, soff);
      }
    } else {
      NoFieldAgrees(d, sig, ts, off, soff);
    }
  }

  lemma NoFieldAgrees(d: Input, sig: Signature, ts: seq<Ty>, off: nat, soff: nat)
    requires Proper(TStruct(ts)) && Supported(TStruct(ts)) && Closes(sig, ts, |ts|, soff)
    ensures FieldsMatch(d, sig, ts, |ts|, off, soff)
  {
    hide Decode, Erase, EraseAll, Unclosed, Proper, SigOf;
    FieldsStep(d, sig, TStruct(ts), |ts|, off, soff);
    FieldsStep(d, sig, TAny, |ts|, off, soff);
    EraseNone();
  }

  lemma FieldCloses(sig: Signature, ts: seq<Ty>, i: nat, soff: nat)
    requires i < |ts| - 1 && Proper(TStruct(ts)) && Supported(TStruct(ts)) && Closes(sig, ts, i, soff)
    ensures Closes(sig, ts, i + 1, soff + |SigOf(ts[i])|)
  {
    hide Unclosed, Proper, SigOf, SigsOf, PartTarget;
    SigsHead(ts, i);
    LeftoverBound(TAny, ts, i + 1);
  }

  /** A field that leaves no parenthesis, and then the others. */
  lemma FieldThenRest(d: Input, sig: Signature, ts: seq<Ty>, i: nat, off: nat, soff: nat)
    requires i < |ts| - 1 && Supported(TStruct(ts)) && soff < |sig| && sig[soff] != CLOSE
    requires Unclosed(TAny, ts[i]) == 0
    requires
      var r := Decode(d, sig, ts[i], off, soff);
      && Agrees(ts[i], soff, r, Decode(d, sig, TAny, off, soff))
      && (r.Ok? ==> FieldsMatch(d, sig, ts, i + 1, r.off, r.soff))
    ensures FieldsMatch(d, sig, ts, i, off, soff)
  {
    hide Decode, DecodeFields, Erase, EraseAll, Unclosed, SigOf, SigsOf, PartTarget;
    SigsHead(ts, i);
    FieldsStep(d, sig, TStruct(ts), i, off, soff);
    FieldsStep(d, sig, TAny, i, off, soff);
    var r := Decode(d, sig, ts[i], off, soff);
    if r.Ok? {
      var rest := DecodeFields(d, sig, TStruct(ts), i + 1, r.off, r.soff);
      if rest.Ok? { EraseCons(r.value, rest.value); }
    }
  }

  /** After the last field the blank interface stands before the parentheses it left. */
  lemma LastFieldAgrees(d: Input, sig: Signature, ts: seq<Ty>, off: nat, soff: nat)
    requires Proper(TStruct(ts)) && Supported(TStruct(ts)) && DynamicOk(TAny, TStruct(ts)) && |ts| > 0
    requires Closes(sig, ts, |ts| - 1, soff) && soff < |sig| && sig[soff] != CLOSE
    requires Agrees(ts[|ts| - 1], soff, Decode(d, sig, ts[|ts| - 1], off, soff), Decode(d, sig, TAny, off, soff))
    ensures FieldsMatch(d, sig, ts, |ts| - 1, off, soff)
  {
    hide Decode, Erase, EraseAll, Unclosed, Proper, DynamicOk, SigOf, SigsOf, Fits;
    SigsHead(ts, |ts| - 1);
    SigsHead(ts, |ts|);
    var r := Decode(d, sig, ts[|ts| - 1], off, soff);
    FieldTypes(TAny, ts, |ts| - 1);
    if r.Ok? {
      FieldsStep(d, sig, TStruct(ts), |ts|, r.off, r.soff);
      FieldsStep(d, sig, TAny, |ts|, r.off, r.soff - Unclosed(TAny, ts[|ts| - 1]));
      EraseNone();
      EraseCons(r.value, []);
    }
  }

  lemma {:induction false} FieldAgrees(d: Input, sig: Signature, ts: seq<Ty>, i: nat, off: nat, soff: nat)
    requires i < |ts| && Supported(TStruct(ts)) && Proper(ts[i]) && DynamicOk(TAny, ts[i])
    requires At(sig, soff, SigsOf(ts, i))
    ensures soff < |sig| && sig[soff] != CLOSE && At(sig, soff + |SigOf(ts[i])|, SigsOf(ts, i + 1))
    ensures Agrees(ts[i], soff, Decode(d, sig, ts[i], off, soff), Decode(d, sig, TAny, off, soff))
    ensures |SigsOf(ts, i)| == |SigOf(ts[i])| + |SigsOf(ts, i + 1)|
    decreases DataLeft(d, off), SigLeft(sig, soff), 1
  {
    hide Decode, Proper, DynamicOk, SigOf, EightCode, AlignOf, Agrees;
    AtSplit(sig, soff, SigOf(ts[i]), SigsOf(ts, i + 1));
    AtHead(sig, soff, SigOf(ts[i]));
    FirstCode(ts[i]);
    TypedDynamicAgree(d, sig, ts[i], off, soff);
  }

  lemma {:induction false} DictAgrees(d: Input, sig: Signature, k: Ty, x: Ty, off: nat, soff: nat)
    requires Proper(TDict(k, x)) && Supported(TDict(k, x)) && DynamicOk(TAny, TDict(k, x))
    requires At(sig, soff, SigOf(TDict(k, x)))
    ensures Agrees(TDict(k, x), soff, DecodeArray(d, sig, TDict(k, x), off, soff + 1),
        DecodeArray(d, sig, TAny, off, soff + 1))
    decreases DataLeft(d, off), SigLeft(sig, soff + 1), 3
  {
    hide ReadUint, DecodeArray, DecodeEntries, NextType, SigOf, EraseEntries, Pad, EightCode, At, Proper, Supported;
    hide DynamicOk;
    DictParts(k, x);
    AtFits(sig, soff, SigOf(TDict(k, x)));
    NextTypeOfSignature(sig, soff, TDict(k, x));
    DictSignature(sig, soff, k, x);
    EraseNone();
    var r := ReadUint(d, 4, off);
    var start := if r.Got? then r.off + if EightCode(sig[soff + 1]) then Pad(r.off, 8) else 0 else 0;
    if r.Overrun? || |d.data| < start + r.value {
      NoContent(d, sig, TDict(k, x), off, soff + 1);
      NoContent(d, sig, TAny, off, soff + 1);
    } else {
      ArrayUnfold(d, sig, TDict(k, x), off, soff + 1, r.value, r.off);
      ArrayUnfold(d, sig, TAny, off, soff + 1, r.value, r.off);
      EntriesAgree(d, sig, k, x, start, soff + 1, start + r.value, []);
    }
  }

  lemma DictParts(k: Ty, x: Ty)
    requires Proper(TDict(k, x)) && Supported(TDict(k, x)) && DynamicOk(TAny, TDict(k, x))
    ensures BasicKey(k) && Proper(x) && Supported(k) && Supported(x) && DynamicOk(TAny, x)
    ensures |SigOf(k)| == 1 && Unclosed(TAny, TDict(k, x)) == 0
  {
  }

  ghost predicate SameEntries(a: Outcome<seq<Entry>>, b: Outcome<seq<Entry>>) {
    match (a, b)
    case (Err(e), Err(f)) => e == f
    case (Ok(es, o, _), Ok(fs, o', _)) => o == o' && fs == EraseEntries(es)
    case _ => false
  }

  ghost predicate BasicKeys(es: seq<Entry>) {
    forall i :: 0 <= i < |es| ==> Basic(es[i].key)
  }

  lemma {:induction false} EntriesAgree(d: Input, sig: Signature, k: Ty, x: Ty, off: nat, soff: nat, end: nat,
      acc: seq<Entry>)
    requires BasicKey(k) && Proper(x) && Supported(x) && DynamicOk(TAny, x) && end <= |d.data| && BasicKeys(acc)
    requires soff < |sig| && At(sig, soff + 1, SigOf(k)) && At(sig, soff + 1 + |SigOf(k)|, SigOf(x))
    ensures SameEntries(DecodeEntries(d, sig, TDict(k, x), soff, off, end, acc),
                        DecodeEntries(d, sig, TAny, soff, off, end, EraseEntries(acc)))
    decreases DataLeft(d, off), SigLeft(sig, soff), 1
  {
    hide DecodeEntry, Proper, DynamicOk, Supported, SigOf, Erase, EraseEntries, Insert;
    if off < end {
      EntryAgrees(d, sig, k, x, off, soff);
      var r := DecodeEntry(d, sig, TDict(k, x), soff, off);
      if r.Ok? && r.off > off {
        InsertErase(acc, r.value.key, r.value.value);
        EntriesAgree(d, sig, k, x, r.off, soff, end, Insert(acc, r.value.key, r.value.value));
      }
    }
  }

  lemma {:induction false} EntryAgrees(d: Input, sig: Signature, k: Ty, x: Ty, off: nat, soff: nat)
    requires BasicKey(k) && Proper(x) && Supported(x) && DynamicOk(TAny, x)
    requires soff < |sig| && At(sig, soff + 1, SigOf(k)) && At(sig, soff + 1 + |SigOf(k)|, SigOf(x))
    ensures
      match (DecodeEntry(d, sig, TDict(k, x), soff, off), DecodeEntry(d, sig, TAny, soff, off))
      case (Err(e), Err(f)) => e == f
      case (Ok(a, o, _), Ok(b, o', _)) => o == o' && Basic(a.key) && b == Entry(a.key, Erase(a.value))
      case _ => false
    decreases DataLeft(d, off), SigLeft(sig, soff), 0
  {
    hide Decode, Proper, DynamicOk, Erase, Pad, Unclosed;
    var at := off + Pad(off, 8);
    BasicKeyAgrees(d, sig, k, at, soff + 1);
    var r := Decode(d, sig, k, at, soff + 1);
    if r.Ok? { TypedDynamicAgree(d, sig, x, r.off, soff + 2); }
  }

  lemma BasicKeyAgrees(d: Input, sig: Signature, k: Ty, off: nat, soff: nat)
    requires BasicKey(k) && At(sig, soff, SigOf(k))
    ensures Decode(d, sig, k, off, soff) == Decode(d, sig, TAny, off, soff)
    ensures BasicValue(Decode(d, sig, k, off, soff))
    ensures Decode(d, sig, k, off, soff).Ok? ==> Decode(d, sig, k, off, soff).soff == soff + 1
  {
    hide DecodeNum, DecodeBool, DecodeStr, DecodeArray, DecodeStruct, DecodeVariant, Erase;
    AtHead(sig, soff, SigOf(k));
    BasicAgrees(d, k, off, soff + 1);
  }

  lemma EraseBasic(v: Val)
    requires Basic(v)
    ensures Erase(v) == v
  {
  }

  lemma EraseHead(e: Entry, es: seq<Entry>)
    ensures EraseEntries([e] + es) == [EraseEntry(e)] + EraseEntries(es)
  {
    hide EraseEntry;
  }

  lemma {:induction false} InsertErase(es: seq<Entry>, k: Val, x: Val)
    requires BasicKeys(es) && Basic(k)
    ensures Insert(EraseEntries(es), k, Erase(x)) == EraseEntries(Insert(es, k, x))
    ensures BasicKeys(Insert(es, k, x))
  {
    hide Erase;
    EraseBasic(k);
    assert EraseEntry(Entry(k, x)) == Entry(k, Erase(x));
    if es != [] {
      InsertErase(es[1..], k, x);
      EraseBasic(es[0].key);
      EraseHead(es[0], es[1..]);
      assert es == [es[0]] + es[1..];
      if es[0].key == k {
        EraseHead(Entry(k, x), es[1..]);
      } else {
        EraseHead(es[0], Insert(es[1..], k, x));
      }
    }
  }
}
