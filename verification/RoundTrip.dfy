/** Decoding the wire format: the decoder reads back every marshalled value, at its own type, into
    a blank interface, or into any mixture of the two. Fits says which targets go with a type,
    Takes where a blank interface may meet a struct, and View what the target then holds. The
    theorem, a mutual induction over values, comes first; then the facts it uses. */
module RoundTrip {
  import opened Bytes
  import opened Types
  import opened Values
  import opened Marshal
  import opened Unmarshal

  const WORD: nat := 0x1_0000_0000

  predicate BasicKey(k: Ty) {
    k.TNum? || k.TBool? || k.TStr?
  }

  /** The types of the D-Bus type system: no empty struct, dict keys of basic type. */
  ghost predicate Proper(ty: Ty)
    decreases ty
  {
    match ty
    case TArray(e) => Proper(e)
    case TDict(k, x) => BasicKey(k) && Proper(x)
    case TStruct(fs) => |fs| > 0 && forall i :: 0 <= i < |fs| ==> Proper(fs[i])
    case TAny => false
    case _ => true
  }

  lemma {:induction false} ProperIsSupported(ty: Ty)
    requires Proper(ty)
    ensures Supported(ty)
    decreases ty
  {
    match ty
    case TArray(e) => ProperIsSupported(e);
    case TDict(k, x) => ProperIsSupported(x);
    case TStruct(fs) =>
      forall i | 0 <= i < |fs| ensures Supported(fs[i]) { ProperIsSupported(fs[i]); }
    case _ =>
  }

  /** The target `t` can take a value of type `ty`: a blank interface takes anything, the three
      string kinds take each other, everything else must agree. */
  ghost predicate Fits(t: Ty, ty: Ty)
    decreases ty
  {
    t == TAny ||
    match ty
    case TStr(_) => t.TStr?
    case TArray(e) => t.TArray? && Fits(t.elem, e)
    case TDict(k, x) => t.TDict? && Fits(t.key, k) && Fits(t.value, x)
    case TStruct(fs) => t.TStruct? && |t.fields| == |fs| && forall i :: 0 <= i < |fs| ==> Fits(t.fields[i], fs[i])
    case _ => t == ty
  }

  /** The target of the i-th field of a struct that decodes into `t`. */
  function PartTarget(t: Ty, i: nat): Ty {
    if t.TStruct? && i < |t.fields| then t.fields[i] else TAny
  }

  function ElemTarget(t: Ty): Ty {
    if t.TArray? then t.elem else TAny
  }

  /** How many closing parentheses the decoder has not stepped over when it is done: a struct
      decoded into a blank interface leaves its own, and those its last field left. */
  ghost function Unclosed(t: Ty, ty: Ty): nat
    decreases ty
  {
    if ty.TStruct? && |ty.fields| > 0 then
      var n := |ty.fields| - 1;
      Unclosed(PartTarget(t, n), ty.fields[n]) + if t.TStruct? then 0 else 1
    else 0
  }

  /** Blank interfaces receive structs only where the leftover parentheses do no harm: as array
      elements, dict values, or last fields. */
  ghost predicate DynamicOk(t: Ty, ty: Ty)
    decreases ty
  {
    match ty
    case TArray(e) => DynamicOk(ElemTarget(t), e)
    case TDict(_, x) => DynamicOk(ValueTarget(t), x)
    case TStruct(fs) =>
      forall i :: 0 <= i < |fs| ==>
        DynamicOk(PartTarget(t, i), fs[i]) && (i < |fs| - 1 ==> Unclosed(PartTarget(t, i), fs[i]) == 0)
    case _ => true
  }

  /** The same about one value, with the payloads of its variants, which always go into blank
      interfaces: no struct that goes into a blank interface and is followed by further codes is
      ever reached. Empty arrays and dicts reach nothing. */
  ghost predicate Takes(t: Ty, ty: Ty, v: Val)
    decreases v
  {
    match ty
    case TVariant => v.VVariant? ==> Takes(TAny, v.ty, v.val)
    case TArray(e) => v.VArray? ==> forall i :: 0 <= i < |v.elems| ==> Takes(ElemTarget(t), e, v.elems[i])
    case TDict(_, x) => v.VDict? ==> forall i :: 0 <= i < |v.entries| ==> Takes(ValueTarget(t), x, v.entries[i].value)
    case TStruct(fs) => v.VStruct? && |v.fields| == |fs| ==> FieldsTake(t, fs, v.fields)
    case _ => true
  }

  ghost predicate FieldsTake(t: Ty, fs: seq<Ty>, vs: seq<Val>)
    requires |vs| == |fs|
    decreases vs
  {
    forall i :: 0 <= i < |fs| ==>
      Takes(PartTarget(t, i), fs[i], vs[i]) && (i < |fs| - 1 ==> Unclosed(PartTarget(t, i), fs[i]) == 0)
  }

  /** The same without the payloads. */
  ghost predicate Passes(t: Ty, ty: Ty, v: Val)
    decreases v
  {
    match ty
    case TArray(e) => v.VArray? ==> forall i :: 0 <= i < |v.elems| ==> Passes(ElemTarget(t), e, v.elems[i])
    case TDict(_, x) => v.VDict? ==> forall i :: 0 <= i < |v.entries| ==> Passes(ValueTarget(t), x, v.entries[i].value)
    case TStruct(fs) => v.VStruct? && |v.fields| == |fs| ==> FieldsPass(t, fs, v.fields, 0)
    case _ => true
  }

  ghost predicate FieldsPass(t: Ty, fs: seq<Ty>, vs: seq<Val>, i: nat)
    requires |vs| == |fs|
    decreases vs
  {
    forall j :: i <= j < |fs| ==>
      Passes(PartTarget(t, j), fs[j], vs[j]) && (j < |fs| - 1 ==> Unclosed(PartTarget(t, j), fs[j]) == 0)
  }

  /** And about the payloads alone. */
  ghost predicate PayloadsTake(v: Val)
    decreases v
  {
    match v
    case VVariant(ty, x) => Takes(TAny, ty, x)
    case VArray(es) => forall i :: 0 <= i < |es| ==> PayloadsTake(es[i])
    case VDict(es) => forall i :: 0 <= i < |es| ==> PayloadsTake(es[i].value)
    case VStruct(fs) => forall i :: 0 <= i < |fs| ==> PayloadsTake(fs[i])
    case _ => true
  }

  lemma {:induction false} PassesTakes(t: Ty, ty: Ty, v: Val)
    requires Passes(t, ty, v) && PayloadsTake(v)
    ensures Takes(t, ty, v)
    decreases v
  {
    match ty
    case TArray(e) =>
      if v.VArray? {
        forall i | 0 <= i < |v.elems| ensures Takes(ElemTarget(t), e, v.elems[i]) {
          PassesTakes(ElemTarget(t), e, v.elems[i]);
        }
      }
    case TDict(_, x) =>
      if v.VDict? {
        forall i | 0 <= i < |v.entries| ensures Takes(ValueTarget(t), x, v.entries[i].value) {
          assert v.entries[i].value < v.entries[i];
          PassesTakes(ValueTarget(t), x, v.entries[i].value);
        }
      }
    case TStruct(fs) =>
      if v.VStruct? && |v.fields| == |fs| {
        forall i | 0 <= i < |fs| ensures Takes(PartTarget(t, i), fs[i], v.fields[i]) {
          PassesTakes(PartTarget(t, i), fs[i], v.fields[i]);
        }
      }
    case _ =>
  }

  lemma {:induction false} DynamicPasses(t: Ty, ty: Ty, v: Val)
    requires DynamicOk(t, ty)
    ensures Passes(t, ty, v)
    decreases ty
  {
    match ty
    case TArray(e) =>
      if v.VArray? {
        forall i | 0 <= i < |v.elems| ensures Passes(ElemTarget(t), e, v.elems[i]) {
          DynamicPasses(ElemTarget(t), e, v.elems[i]);
        }
      }
    case TDict(_, x) =>
      if v.VDict? {
        forall i | 0 <= i < |v.entries| ensures Passes(ValueTarget(t), x, v.entries[i].value) {
          DynamicPasses(ValueTarget(t), x, v.entries[i].value);
        }
      }
    case TStruct(fs) =>
      if v.VStruct? && |v.fields| == |fs| {
        forall i | 0 <= i < |fs| ensures Passes(PartTarget(t, i), fs[i], v.fields[i]) {
          DynamicPasses(PartTarget(t, i), fs[i], v.fields[i]);
        }
      }
    case _ =>
  }

  /** Signature texts fit their length octet, and variant payloads have proper types. */
  ghost predicate Storable(v: Val)
    decreases v
  {
    match v
    case VStr(k, s) => k == Sig ==> |s| <= 255
    case VVariant(t, x) => Proper(t) && Supported(t) && |SigOf(t)| <= 255 && Storable(x)
    case VArray(es) => forall i :: 0 <= i < |es| ==> Storable(es[i])
    case VDict(es) => forall i :: 0 <= i < |es| ==> Storable(es[i].key) && Storable(es[i].value)
    case VStruct(fs) => forall i :: 0 <= i < |fs| ==> Storable(fs[i])
    case _ => true
  }

  ghost predicate Good(ty: Ty, v: Val) {
    Encodable(ty, v) && Proper(ty) && Storable(v)
  }

  // ---------------------------------------------------------------- what comes back

  /** The value a target of type `t` holds after decoding `v`: structs come back as slices in
      blank interfaces, and a variant's payload is always decoded into a blank interface. */
  ghost function View(t: Ty, v: Val): Val
    decreases v
  {
    match v
    case VStr(_, s) => if t.TStr? then VStr(t.kind, s) else v
    case VVariant(_, x) => VVariant(DynTy(View(TAny, x)), View(TAny, x))
    case VArray(es) => VArray(ViewElems(ElemTarget(t), es))
    case VDict(es) => VDict(ViewEntries(t, es))
    case VStruct(fs) => if t.TStruct? then VStruct(ViewFields(t, fs)) else VArray(ViewFields(t, fs))
    case _ => v
  }

  ghost function ViewElems(t: Ty, vs: seq<Val>): (r: seq<Val>)
    ensures |r| == |vs|
    decreases vs
  {
    seq(|vs|, i requires 0 <= i < |vs| => View(t, vs[i]))
  }

  ghost function ViewEntries(t: Ty, es: seq<Entry>): (r: seq<Entry>)
    ensures |r| == |es|
    decreases es
  {
    seq(|es|, i requires 0 <= i < |es| => ViewEntry(t, es[i]))
  }

  ghost function ViewEntry(t: Ty, e: Entry): Entry
    decreases e
  {
    Entry(View(KeyTarget(t), e.key), View(ValueTarget(t), e.value))
  }

  ghost function ViewFields(t: Ty, fs: seq<Val>): (r: seq<Val>)
    ensures |r| == |fs|
    decreases fs
  {
    seq(|fs|, i requires 0 <= i < |fs| => View(PartTarget(t, i), fs[i]))
  }

  // ---------------------------------------------------------------- the theorem

  /** Decoding a value in wire format at its place in any data, under its signature at its
      place in any signature, gives the view of the value and steps over exactly its bytes. */
  lemma {:induction false} DecodeWire(d: Input, off: nat, sig: Signature, soff: nat, t: Ty, ty: Ty, v: Val)
    requires Good(ty, v) && Fits(t, ty) && Takes(t, ty, v)
    requires |Marshalled(InPlace, d.order, off, ty, v)| < WORD
    requires At(d.data, off, Marshalled(InPlace, d.order, off, ty, v)) && At(sig, soff, SigOf(ty))
    ensures Unclosed(t, ty) < |SigOf(ty)|
    ensures Decode(d, sig, t, off, soff)
        == Ok(View(t, v), off + |Marshalled(InPlace, d.order, off, ty, v)|, soff + |SigOf(ty)| - Unclosed(t, ty))
    decreases v, 2
  {
    hide Marshalled, HasType, VariantsOk, DecodeNum, DecodeBool, DecodeStr, DecodeArray, Decode, Supported, SigOf, At;
    hide DecodeStruct, DecodeVariant, View, Unclosed, Takes, Storable, Proper, Fits;
    WireHead(d, sig, t, off, soff, ty);
    if !ty.TStruct? { UnclosedNone(t, ty); }
    VariantTarget(t, ty);
    match ty
    case TVariant => DecodeVariantWire(d, off, t, v, soff + 1);
    case TArray(e) => DecodeArrayWire(d, off, sig, soff, t, e, v);
    case TDict(k, x) => DecodeDictWire(d, off, sig, soff, t, k, x, v);
    case TStruct(ts) => DecodeStructWire(d, off, sig, soff, t, ts, v);
    case TAny =>
    case _ => BasicWire(d, off, sig, soff, t, ty, v);
  }

  lemma {:induction false} DecodeVariantWire(d: Input, off: nat, t: Ty, v: Val, soff: nat)
    requires Good(TVariant, v) && (t == TVariant || t == TAny) && Takes(t, TVariant, v)
    requires |Marshalled(InPlace, d.order, off, TVariant, v)| < WORD
    requires At(d.data, off, Marshalled(InPlace, d.order, off, TVariant, v))
    ensures DecodeVariant(d, t, off, soff)
         == Ok(View(t, v), off + |Marshalled(InPlace, d.order, off, TVariant, v)|, soff)
    decreases v, 1
  {
    hide Marshalled, Body, Decode, DecodeVariant, SigsOf, SigOf, SigBytes, ReadSignature, View, Takes, Unclosed;
    hide HasType, VariantsOk, Supported, Storable, Proper, Fits, At;
    VariantFacts(t, v);
    var s := SigOf(v.ty);
    var m := Marshalled(InPlace, d.order, off + |SigBytes(s)|, v.ty, v.val);
    VariantBytes(d.order, off, v);
    AtSplit(d.data, off, SigBytes(s), m);
    ReadSignatureBack(d, off, s);
    AtAll(s);
    DecodeWire(d, off + |SigBytes(s)|, s, 0, TAny, v.ty, v.val);
    VariantUnfold(d, t, off, soff, s, off + |SigBytes(s)|);
  }

  lemma {:induction false} DecodeArrayWire(d: Input, off: nat, sig: Signature, soff: nat, t: Ty, e: Ty, v: Val)
    requires Good(TArray(e), v) && Fits(t, TArray(e)) && Takes(t, TArray(e), v)
    requires |Marshalled(InPlace, d.order, off, TArray(e), v)| < WORD
    requires At(d.data, off, Marshalled(InPlace, d.order, off, TArray(e), v)) && At(sig, soff, SigOf(TArray(e)))
    ensures DecodeArray(d, sig, t, off, soff + 1)
         == Ok(View(t, v), off + |Marshalled(InPlace, d.order, off, TArray(e), v)|, soff + |SigOf(TArray(e))|)
    decreases v, 1
  {
    hide Pad, Marshalled, Body, Elems, DecodeElems, DecodeArray, SigOf, ReadUint, NextType, AlignOf, ViewElems;
    hide PutUint, Zeros, EightCode, Proper, Storable, Fits, Takes, HasType, VariantsOk;
    ArrayFacts(t, e, v);
    var at := off + Pad(off, 4);
    ArrayMarshalled(d.order, off, e, v);
    var start := ContentStart(at, AlignOf(e));
    var content := Elems(InPlace, d.order, start, e, v.elems, 0);
    ArrayHead(d, off, AlignOf(e), content);
    ArrayCodes(sig, e, soff);
    if AlignOf(e) < 8 { SmallPad(off, AlignOf(e)); }
    DecodeElemsWire(d, start, start + |content|, sig, soff + 1, ElemTarget(t), e, v.elems, 0);
    ArrayUnfold(d, sig, t, off, soff + 1, |content|, at + 4);
    assert ViewElems(ElemTarget(t), v.elems)[0..] == ViewElems(ElemTarget(t), v.elems);
  }

  lemma {:induction false} DecodeElemsWire(d: Input, off: nat, end: nat, sig: Signature, soff: nat, t: Ty,
      e: Ty, vs: seq<Val>, i: nat)
    requires i <= |vs| && AllEncodable(e, vs) && Proper(e) && Fits(t, e)
    requires forall j :: 0 <= j < |vs| ==> Storable(vs[j]) && Takes(t, e, vs[j])
    requires At(d.data, off, Elems(InPlace, d.order, off, e, vs, i))
    requires end == off + |Elems(InPlace, d.order, off, e, vs, i)|
    requires |Elems(InPlace, d.order, off, e, vs, i)| < WORD && At(sig, soff, SigOf(e))
    ensures DecodeElems(d, sig, t, soff, off, end) == Ok(ViewElems(t, vs)[i..], end, soff)
    decreases vs, |vs| - i
  {
    hide Marshalled, HasType, VariantsOk, Supported, Storable, Proper, Fits, Takes, Decode, SigOf, View, ViewElems;
    hide Unclosed, At, Elems, DecodeElems;
    ElemsHead(InPlace, d.order, off, e, vs, i);
    ViewElemsHead(t, vs, i);
    AtFits(d.data, off, Elems(InPlace, d.order, off, e, vs, i));
    ElemsRead(d, sig, t, soff, off, end);
    if i < |vs| {
      var a := Marshalled(InPlace, d.order, off, e, vs[i]);
      AtSplit(d.data, off, a, Elems(InPlace, d.order, off + |a|, e, vs, i + 1));
      NonEmpty(InPlace, d.order, off, e, vs[i]);
      DecodeWire(d, off, sig, soff, t, e, vs[i]);
      DecodeElemsWire(d, off + |a|, end, sig, soff, t, e, vs, i + 1);
    }
  }

  lemma {:induction false} DecodeDictWire(d: Input, off: nat, sig: Signature, soff: nat, t: Ty, k: Ty, x: Ty, v: Val)
    requires Good(TDict(k, x), v) && Fits(t, TDict(k, x)) && Takes(t, TDict(k, x), v)
    requires |Marshalled(InPlace, d.order, off, TDict(k, x), v)| < WORD
    requires At(d.data, off, Marshalled(InPlace, d.order, off, TDict(k, x), v)) && At(sig, soff, SigOf(TDict(k, x)))
    ensures DecodeArray(d, sig, t, off, soff + 1)
         == Ok(View(t, v), off + |Marshalled(InPlace, d.order, off, TDict(k, x), v)|, soff + |SigOf(TDict(k, x))|)
    decreases v, 1
  {
    hide Pad, Marshalled, Body, Entries, DecodeEntries, DecodeArray, DecodeContent, SigOf, SigsOf, ReadUint, View;
    hide ViewEntries, PutUint, Zeros, NextType, Proper, Storable, Fits, Takes, HasType, VariantsOk, Supported;
    DictFacts(t, k, x, v);
    var at := off + Pad(off, 4);
    DictMarshalled(d.order, off, k, x, v);
    var start := ContentStart(at, 8);
    var content := Entries(InPlace, d.order, start, k, x, v.entries, 0);
    ArrayHead(d, off, 8, content);
    AtHead(sig, soff, SigOf(TDict(k, x)));
    NextTypeOfSignature(sig, soff, TDict(k, x));
    DictSignature(sig, soff, k, x);
    assert ViewEntries(t, v.entries)[..0] == [];
    DecodeEntriesWire(d, start, start + |content|, sig, soff + 1, t, k, x, v.entries, 0);
    ArrayUnfold(d, sig, t, off, soff + 1, |content|, at + 4);
    DictContent(d, sig, t, soff + 1, soff + |SigOf(TDict(k, x))|, start, start + |content|);
  }

  lemma {:induction false} DecodeEntriesWire(d: Input, off: nat, end: nat, sig: Signature, soff: nat, t: Ty,
      k: Ty, x: Ty, es: seq<Entry>, i: nat)
    requires i <= |es| && EntriesEncodable(k, x, es) && BasicKey(k) && Proper(x)
    requires Fits(t, TDict(k, x)) && forall j :: 0 <= j < |es| ==> Takes(ValueTarget(t), x, es[j].value)
    requires forall j :: 0 <= j < |es| ==> Storable(es[j].key) && Storable(es[j].value)
    requires forall j, n :: 0 <= j < n < |es| ==> es[j].key != es[n].key
    requires At(d.data, off, Entries(InPlace, d.order, off, k, x, es, i))
    requires end == off + |Entries(InPlace, d.order, off, k, x, es, i)|
    requires |Entries(InPlace, d.order, off, k, x, es, i)| < WORD
    requires soff < |sig| && At(sig, soff + 1, SigOf(k)) && At(sig, soff + 1 + |SigOf(k)|, SigOf(x))
    requires end <= |d.data|
    ensures DecodeEntries(d, sig, t, soff, off, end, ViewEntries(t, es)[..i]) == Ok(ViewEntries(t, es), end, soff)
    decreases es, |es| - i
  {
    hide EntryBytes, HasType, VariantsOk, Storable, Proper, Fits, Takes, DecodeEntry, SigOf, View, ViewEntry;
    hide Insert, Hashable;
    var all := ViewEntries(t, es);
    if i < |es| {
      var a := EntryBytes(InPlace, d.order, off, k, x, es[i]);
      AtSplit(d.data, off, a, Entries(InPlace, d.order, off + |a|, k, x, es, i + 1));
      DecodeEntryWire(d, off, sig, soff, t, k, x, es[i]);
      ViewKeysDistinct(t, k, x, es, i);
      InsertNew(all[..i], all[i].key, all[i].value);
      assert all[..i] + [all[i]] == all[..i + 1];
      DecodeEntriesWire(d, off + |a|, end, sig, soff, t, k, x, es, i + 1);
    } else {
      assert all[..i] == all;
    }
  }

  lemma {:induction false} DecodeEntryWire(d: Input, off: nat, sig: Signature, soff: nat, t: Ty, k: Ty, x: Ty, e: Entry)
    requires Encodable(k, e.key) && Encodable(x, e.value) && BasicKey(k) && Proper(x)
    requires Fits(t, TDict(k, x)) && Takes(ValueTarget(t), x, e.value) && Storable(e.key) && Storable(e.value)
    requires At(d.data, off, EntryBytes(InPlace, d.order, off, k, x, e))
    requires |EntryBytes(InPlace, d.order, off, k, x, e)| < WORD
    requires soff < |sig| && At(sig, soff + 1, SigOf(k)) && At(sig, soff + 1 + |SigOf(k)|, SigOf(x))
    ensures |EntryBytes(InPlace, d.order, off, k, x, e)| > 0
    ensures
      var r := DecodeEntry(d, sig, t, soff, off);
      r.Ok? && r.value == ViewEntry(t, e) && r.off == off + |EntryBytes(InPlace, d.order, off, k, x, e)|
    decreases e
  {
    hide Pad, Marshalled, HasType, VariantsOk, Storable, Decode, View, Zeros, Takes, Fits, Proper, SigOf, EntryBytes;
    hide At, Unclosed, DecodeEntry, Supported;
    var z := Zeros(Pad(off, 8));
    var at := off + Pad(off, 8);
    ZerosLength(Pad(off, 8));
    EntryIs(d.order, off, k, x, e);
    var a := Marshalled(InPlace, d.order, at, k, e.key);
    var b := Marshalled(InPlace, d.order, at + |a|, x, e.value);
    AtSplit(d.data, off, z + a, b);
    AtSplit(d.data, off, z, a);
    KeyFacts(t, k, x, e.key);
    NonEmpty(InPlace, d.order, at, k, e.key);
    DecodeWire(d, at, sig, soff + 1, KeyTarget(t), k, e.key);
    DecodeWire(d, at + |a|, sig, soff + 1 + |SigOf(k)|, ValueTarget(t), x, e.value);
    OneCode(k);
    EntryRead(d, sig, t, soff, off);
  }

  lemma {:induction false} DecodeStructWire(d: Input, off: nat, sig: Signature, soff: nat, t: Ty, ts: seq<Ty>, v: Val)
    requires Good(TStruct(ts), v) && Fits(t, TStruct(ts)) && Takes(t, TStruct(ts), v)
    requires |Marshalled(InPlace, d.order, off, TStruct(ts), v)| < WORD
    requires At(d.data, off, Marshalled(InPlace, d.order, off, TStruct(ts), v)) && At(sig, soff, SigOf(TStruct(ts)))
    ensures Unclosed(t, TStruct(ts)) < |SigOf(TStruct(ts))|
    ensures DecodeStruct(d, sig, t, off, soff + 1)
         == Ok(View(t, v), off + |Marshalled(InPlace, d.order, off, TStruct(ts), v)|,
               soff + |SigOf(TStruct(ts))| - Unclosed(t, TStruct(ts)))
    decreases v, 1
  {
    hide Pad, Fields, DecodeFields, DecodeStruct, SigsOf, SigOf, View, ViewFields, Zeros, Proper, Takes, FieldsTake;
    hide Unclosed, Storable, HasType, VariantsOk, Supported, Fits, At, Marshalled, Leftover;
    StructFacts(t, ts, v);
    var at := off + Pad(off, 8);
    ZerosLength(Pad(off, 8));
    StructMarshalled(d.order, off, ts, v);
    AtSplit(d.data, off, Zeros(Pad(off, 8)), Fields(InPlace, d.order, at, ts, v.fields, 0));
    StructSignature(sig, soff, ts);
    UnclosedBound(t, TStruct(ts));
    UnclosedStruct(t, ts);
    LeftoverCloses(sig, soff, t, ts);
    StructAhead(d, at, sig, soff + 1, t, ts, v.fields);
    DecodeFieldsWire(d, at, sig, soff + 1, t, ts, v.fields, 0);
    assert FieldsRead(d, at, sig, soff + 1, t, ts, v.fields, 0);
    StructUnfold(d, sig, t, off, soff + 1, v);
  }

  ghost function Leftover(t: Ty, ts: seq<Ty>, i: nat): nat {
    if i < |ts| then Unclosed(PartTarget(t, |ts| - 1), ts[|ts| - 1]) else 0
  }

  /** The fields from the i-th on lie at the two offsets, and so do the parentheses that close them. */
  ghost predicate FieldsAhead(d: Input, off: nat, sig: Signature, soff: nat, t: Ty, ts: seq<Ty>, vs: seq<Val>, i: nat)
    requires i <= |ts| && FieldsEncodable(ts, vs)
  {
    && At(d.data, off, Fields(InPlace, d.order, off, ts, vs, i))
    && |Fields(InPlace, d.order, off, ts, vs, i)| < WORD
    && At(sig, soff, SigsOf(ts, i)) && soff + |SigsOf(ts, i)| < |sig| && sig[soff + |SigsOf(ts, i)|] == CLOSE
    && Leftover(t, ts, i) <= |SigsOf(ts, i)| && sig[soff + |SigsOf(ts, i)| - Leftover(t, ts, i)] == CLOSE
  }

  /** Decoding gives the fields from the i-th on and stops before the parentheses it leaves. */
  ghost predicate FieldsRead(d: Input, off: nat, sig: Signature, soff: nat, t: Ty, ts: seq<Ty>, vs: seq<Val>, i: nat)
    requires i <= |ts| && FieldsEncodable(ts, vs)
  {
    && Leftover(t, ts, i) <= |SigsOf(ts, i)|
    && DecodeFields(d, sig, t, i, off, soff)
        == Ok(ViewFields(t, vs)[i..], off + |Fields(InPlace, d.order, off, ts, vs, i)|,
              soff + |SigsOf(ts, i)| - Leftover(t, ts, i))
  }

  lemma {:induction false} DecodeFieldsWire(d: Input, off: nat, sig: Signature, soff: nat, t: Ty, ts: seq<Ty>,
      vs: seq<Val>, i: nat)
    requires i <= |ts| && FieldsEncodable(ts, vs) && Proper(TStruct(ts))
    requires Fits(t, TStruct(ts)) && FieldsTake(t, ts, vs)
    requires forall j :: 0 <= j < |vs| ==> Storable(vs[j])
    requires FieldsAhead(d, off, sig, soff, t, ts, vs, i)
    ensures FieldsRead(d, off, sig, soff, t, ts, vs, i)
    decreases vs, |ts| - i, 1
  {
    hide Marshalled, HasType, VariantsOk, Supported, Storable, Decode, View, SigOf, SigsOf, Fields, Unclosed, Proper;
    hide Fits, Takes, FieldsTake, DecodeFields, PartTarget, FieldTarget, FieldsAhead, FieldsRead, Leftover, ViewFields;
    hide At;
    AheadHead(d, off, sig, soff, t, ts, vs, i);
    if i < |ts| {
      FieldFacts(t, ts, vs, i);
      DecodeFieldWire(d, off, sig, soff, t, ts, vs, i);
      var o := off + |Marshalled(InPlace, d.order, off, ts[i], vs[i])|;
      var s := soff + |SigOf(ts[i])| - Unclosed(PartTarget(t, i), ts[i]);
      AheadStep(d, off, sig, soff, t, ts, vs, i);
      DecodeFieldsWire(d, o, sig, s, t, ts, vs, i + 1);
      ReadOneMore(d, off, sig, soff, t, ts, vs, i, o, s);
    } else {
      ReadNoMore(d, off, sig, soff, t, ts, vs);
    }
  }

  lemma {:induction false} DecodeFieldWire(d: Input, off: nat, sig: Signature, soff: nat, t: Ty, ts: seq<Ty>,
      vs: seq<Val>, i: nat)
    requires i < |ts| && FieldsEncodable(ts, vs) && Proper(ts[i])
    requires Fits(PartTarget(t, i), ts[i]) && Takes(PartTarget(t, i), ts[i], vs[i]) && Storable(vs[i])
    requires At(d.data, off, Fields(InPlace, d.order, off, ts, vs, i))
    requires |Fields(InPlace, d.order, off, ts, vs, i)| < WORD
    requires At(sig, soff, SigsOf(ts, i))
    ensures soff < |sig| && sig[soff] != CLOSE && Unclosed(PartTarget(t, i), ts[i]) < |SigOf(ts[i])|
    ensures
      var a := Marshalled(InPlace, d.order, off, ts[i], vs[i]);
      && Decode(d, sig, PartTarget(t, i), off, soff)
          == Ok(View(PartTarget(t, i), vs[i]), off + |a|, soff + |SigOf(ts[i])| - Unclosed(PartTarget(t, i), ts[i]))
      && At(d.data, off + |a|, Fields(InPlace, d.order, off + |a|, ts, vs, i + 1))
      && At(sig, soff + |SigOf(ts[i])|, SigsOf(ts, i + 1))
    decreases vs, |ts| - i, 0
  {
    hide Marshalled, HasType, VariantsOk, Supported, Storable, Decode, View, SigOf, Unclosed, Proper, Fits, Takes;
    hide EightCode, AlignOf, PartTarget;
    var a := Marshalled(InPlace, d.order, off, ts[i], vs[i]);
    AtSplit(d.data, off, a, Fields(InPlace, d.order, off + |a|, ts, vs, i + 1));
    AtSplit(sig, soff, SigOf(ts[i]), SigsOf(ts, i + 1));
    AtHead(sig, soff, SigOf(ts[i]));
    FirstCode(ts[i]);
    DecodeWire(d, off, sig, soff, PartTarget(t, i), ts[i], vs[i]);
  }

  // ---------------------------------------------------------------- reading single items

  lemma ReadUintBack(d: Input, w: Alignment, off: nat, n: nat)
    requires n < Pow256(w) && At(d.data, off, Zeros(Pad(off, w)) + PutUint(d.order, w, n))
    ensures ReadUint(d, w, off) == Got(n, off + Pad(off, w) + w)
  {
    hide Pad, Pow256, PutUint, GetUint;
    AtSplit(d.data, off, Zeros(Pad(off, w)), PutUint(d.order, w, n));
    UintRoundTrip(d.order, w, n);
  }

  lemma ReadTextBack(d: Input, off: nat, s: seq<byte>)
    requires At(d.data, off, s + [0])
    ensures ReadText(d, |s|, off) == Got(s, off + |s| + 1)
  {
    AtSplit(d.data, off, s, [0]);
  }

  lemma ReadStringBack(d: Input, off: nat, s: seq<byte>)
    requires |s| < WORD && At(d.data, off, Zeros(Pad(off, 4)) + StrBytes(d.order, s))
    ensures ReadString(d, off) == Got(s, off + Pad(off, 4) + |StrBytes(d.order, s)|)
  {
    hide Pad, PutUint, ReadUint;
    var z, n := Zeros(Pad(off, 4)), PutUint(d.order, 4, |s|);
    assert z + StrBytes(d.order, s) == (z + n) + (s + [0]);
    AtSplit(d.data, off, z + n, s + [0]);
    ModulusIsPow(U32);
    ReadUintBack(d, 4, off, |s|);
    ReadTextBack(d, off + |z| + 4, s);
  }

  /** A signature reads back if and only if its length fits the length octet. */
  lemma ReadSignatureBack(d: Input, off: nat, s: Signature)
    requires At(d.data, off, SigBytes(s))
    ensures |s| <= 255 ==> ReadSignature(d, off) == Got(s, off + |SigBytes(s)|)
    ensures |s| > 255 ==> ReadSignature(d, off) == Got(s[..|s| % 256], off + |s| % 256 + 2)
  {
    hide Pad, PutUint, ReadUint;
    var n := |s| % 256;
    assert SigBytes(s) == [n] + (s + [0]);
    AtSplit(d.data, off, [n], s + [0]);
    ReadOctet(d, off, n);
    assert s + [0] == s[..n] + (s[n..] + [0]);
    AtSplit(d.data, off + 1, s[..n], s[n..] + [0]);
    if |s| <= 255 { assert s[..n] == s; }
  }

  lemma ReadOctet(d: Input, off: nat, n: byte)
    requires At(d.data, off, [n])
    ensures ReadUint(d, 1, off) == Got(n, off + 1)
  {
    hide ReadUint, PutUint, Pow256;
    OneOctet(d.order, n);
    ReadUintBack(d, 1, off, n);
  }

  // ---------------------------------------------------------------- sizes and codes

  /** Every proper value takes at least one byte. */
  lemma {:induction false} NonEmpty(p: Placement, o: Order, off: nat, ty: Ty, v: Val)
    requires Encodable(ty, v) && Proper(ty)
    ensures |Marshalled(p, o, off, ty, v)| > 0
    decreases v
  {
    hide Pad, Elems, Entries;
    var at := off + Pad(off, AlignOf(ty));
    match ty
    case TNum(k) => assert |Body(p, o, at, ty, v)| == Width(k);
    case TStruct(ts) =>
      NonEmpty(p, o, at, ts[0], v.fields[0]);
      assert Fields(p, o, at, ts, v.fields, 0) != [];
    case TAny =>
    case _ => assert |Body(p, o, at, ty, v)| > 0;
  }

  /** The decoder's switch on the element's first code agrees with the encoder's alignment. */
  lemma FirstCode(ty: Ty)
    requires Supported(ty)
    ensures EightCode(SigOf(ty)[0]) <==> AlignOf(ty) == 8
    ensures SigOf(ty)[0] != CLOSE && SigOf(ty)[0] != OPENPAIR
  {
  }

  lemma {:induction false} UnclosedBound(t: Ty, ty: Ty)
    requires Proper(ty) && Supported(ty)
    ensures Unclosed(t, ty) < |SigOf(ty)|
    decreases ty
  {
    hide SigsOf, SigOf, Supported, Proper;
    if Unclosed(t, ty) > 0 {
      UnclosedIsStruct(t, ty);
      var n := |ty.fields| - 1;
      FieldIsProper(ty.fields, n);
      UnclosedBound(PartTarget(t, n), ty.fields[n]);
      SigsOfLast(ty.fields, 0);
      StructEnds(ty.fields);
    }
  }

  /** The signature of a value ends in all the parentheses the decoder leaves over. */
  lemma {:induction false} TrailingCloses(t: Ty, ty: Ty, j: nat)
    requires Proper(ty) && Supported(ty) && 1 <= j <= Unclosed(t, ty) < |SigOf(ty)|
    ensures SigOf(ty)[|SigOf(ty)| - j] == CLOSE
    decreases ty
  {
    hide SigOf, SigsOf, Supported, Proper;
    UnclosedIsStruct(t, ty);
    var n := |ty.fields| - 1;
    FieldIsProper(ty.fields, n);
    StructEnds(ty.fields);
    if j > 1 {
      UnclosedBound(PartTarget(t, n), ty.fields[n]);
      TrailingCloses(PartTarget(t, n), ty.fields[n], j - 1);
      FieldsSuffix(ty.fields, j - 1);
    }
  }

  lemma UnclosedIsStruct(t: Ty, ty: Ty)
    requires Unclosed(t, ty) > 0
    ensures ty.TStruct? && ty == TStruct(ty.fields) && |ty.fields| > 0
    ensures Unclosed(PartTarget(t, |ty.fields| - 1), ty.fields[|ty.fields| - 1]) >= Unclosed(t, ty) - 1
  {
  }

  lemma FieldIsProper(fs: seq<Ty>, i: nat)
    requires Proper(TStruct(fs)) && i < |fs|
    ensures Proper(fs[i]) && Supported(fs[i])
    ensures forall k :: 0 <= k < |fs| ==> Supported(fs[k])
  {
    hide Supported;
    forall k | 0 <= k < |fs| ensures Supported(fs[k]) {
      ProperIsSupported(fs[k]);
    }
  }

  lemma StructEnds(fs: seq<Ty>)
    requires forall k :: 0 <= k < |fs| ==> Supported(fs[k])
    ensures Supported(TStruct(fs)) && |SigOf(TStruct(fs))| == |SigsOf(fs, 0)| + 2
    ensures SigOf(TStruct(fs))[|SigOf(TStruct(fs))| - 1] == CLOSE
  {
    hide SigsOf;
  }

  lemma FieldsSuffix(fs: seq<Ty>, j: nat)
    requires |fs| > 0 && forall k :: 0 <= k < |fs| ==> Supported(fs[k])
    requires 1 <= j < |SigOf(fs[|fs| - 1])|
    ensures |SigOf(TStruct(fs))| > j + 1
    ensures SigOf(TStruct(fs))[|SigOf(TStruct(fs))| - j - 1] == SigOf(fs[|fs| - 1])[|SigOf(fs[|fs| - 1])| - j]
  {
    hide SigsOf, Supported;
    SigsOfLast(fs, 0);
    var s, last := SigsOf(fs, 0), SigOf(fs[|fs| - 1]);
    assert s[|s| - |last|..][|last| - j] == s[|s| - j];
  }

  lemma {:induction false} SigsOfLast(fs: seq<Ty>, i: nat)
    requires i < |fs| && forall k :: 0 <= k < |fs| ==> Supported(fs[k])
    ensures |SigsOf(fs, i)| >= |SigOf(fs[|fs| - 1])|
    ensures SigsOf(fs, i)[|SigsOf(fs, i)| - |SigOf(fs[|fs| - 1])|..] == SigOf(fs[|fs| - 1])
    decreases |fs| - i
  {
    hide SigsOf, SigOf;
    SigsHead(fs, i);
    SigsHead(fs, |fs|);
    var last := SigOf(fs[|fs| - 1]);
    if i < |fs| - 1 {
      SigsOfLast(fs, i + 1);
      var a, b := SigOf(fs[i]), SigsOf(fs, i + 1);
      assert (a + b)[|a + b| - |last|..] == b[|b| - |last|..];
    } else {
      assert last + [] == last;
    }
  }

  // ---------------------------------------------------------------- one level of a value at a time

  lemma BasicWire(d: Input, off: nat, sig: Signature, soff: nat, t: Ty, ty: Ty, v: Val)
    requires Good(ty, v) && Fits(t, ty) && BasicKey(ty)
    requires |Marshalled(InPlace, d.order, off, ty, v)| < WORD
    requires At(d.data, off, Marshalled(InPlace, d.order, off, ty, v)) && At(sig, soff, SigOf(ty))
    ensures Decode(d, sig, t, off, soff)
        == Ok(View(t, v), off + |Marshalled(InPlace, d.order, off, ty, v)|, soff + |SigOf(ty)|)
  {
    hide Marshalled, HasType, VariantsOk, DecodeNum, DecodeBool, DecodeStr, Decode, Supported, SigOf, At;
    hide View, Storable, Proper, Fits;
    WireHead(d, sig, t, off, soff, ty);
    DecodeBasicWire(d, off, t, ty, v, soff + 1);
  }

  lemma VariantTarget(t: Ty, ty: Ty)
    requires Proper(ty)
    ensures ty != TAny && (Fits(t, TVariant) ==> t == TVariant || t == TAny)
  {
  }

  /** The first code tells the kinds of types apart. */
  lemma HeadCode(ty: Ty)
    requires Supported(ty)
    ensures ty.TNum? || ty.TBool? || ty.TStr? || ty.TVariant? ==> |SigOf(ty)| == 1
    ensures var c := SigOf(ty)[0];
      && NumOf(c) == (if ty.TNum? then Some(ty.num) else None)
      && StrOf(c) == (if ty.TStr? then Some(ty.kind) else None)
      && (c == BOOLEAN <==> ty.TBool?) && (c == VARIANT <==> ty.TVariant?)
      && (c == ARRAY <==> ty.TArray? || ty.TDict?) && (c == OPEN <==> ty.TStruct?)
  {
    hide SigsOf;
  }

  /** The code at the head of a type's signature decides how its value is decoded. */
  lemma WireHead(d: Input, sig: Signature, t: Ty, off: nat, soff: nat, ty: Ty)
    requires Supported(ty) && At(sig, soff, SigOf(ty))
    ensures ty.TNum? || ty.TBool? || ty.TStr? || ty.TVariant? ==> |SigOf(ty)| == 1
    ensures Decode(d, sig, t, off, soff) == match ty
      case TNum(k) => DecodeNum(d, k, t, off, soff + 1)
      case TBool => DecodeBool(d, t, off, soff + 1)
      case TStr(k) => DecodeStr(d, k, t, off, soff + 1)
      case TVariant => DecodeVariant(d, t, off, soff + 1)
      case TArray(_) => DecodeArray(d, sig, t, off, soff + 1)
      case TDict(_, _) => DecodeArray(d, sig, t, off, soff + 1)
      case TStruct(_) => DecodeStruct(d, sig, t, off, soff + 1)
      case TAny => Decode(d, sig, t, off, soff)
  {
    hide DecodeNum, DecodeBool, DecodeStr, DecodeArray, DecodeStruct, DecodeVariant, SigsOf, At, SigOf, NumOf, StrOf;
    AtHead(sig, soff, SigOf(ty));
    AtFits(sig, soff, SigOf(ty));
    HeadCode(ty);
  }

  lemma UnclosedNone(t: Ty, ty: Ty)
    ensures !ty.TStruct? ==> Unclosed(t, ty) == 0
  {
  }

  /** Numbers, booleans and strings. */
  lemma DecodeBasicWire(d: Input, off: nat, t: Ty, ty: Ty, v: Val, soff: nat)
    requires Good(ty, v) && Fits(t, ty) && BasicKey(ty)
    requires |Marshalled(InPlace, d.order, off, ty, v)| < WORD
    requires At(d.data, off, Marshalled(InPlace, d.order, off, ty, v))
    ensures
      var r := Ok(View(t, v), off + |Marshalled(InPlace, d.order, off, ty, v)|, soff);
      && (ty.TNum? ==> DecodeNum(d, ty.num, t, off, soff) == r)
      && (ty.TBool? ==> DecodeBool(d, t, off, soff) == r)
      && (ty.TStr? ==> DecodeStr(d, ty.kind, t, off, soff) == r)
  {
    hide Marshalled, DecodeNum, DecodeBool, DecodeStr, View, Storable, HasType, At;
    match ty
    case TNum(k) => NumWire(d, off, t, k, v, soff);
    case TBool => BoolWire(d, off, t, v, soff);
    case TStr(k) => StrWire(d, off, t, k, v, soff);
  }

  lemma NumWire(d: Input, off: nat, t: Ty, k: Num, v: Val, soff: nat)
    requires Encodable(TNum(k), v) && Fits(t, TNum(k))
    requires At(d.data, off, Marshalled(InPlace, d.order, off, TNum(k), v))
    ensures DecodeNum(d, k, t, off, soff) == Ok(View(t, v), off + |Marshalled(InPlace, d.order, off, TNum(k), v)|, soff)
  {
    hide PutUint, Pow256, ReadUint, Modulus, FromBits, ToBits, InRange, At;
    ModulusIsPow(k);
    ReadUintBack(d, Width(k), off, ToBits(k, v.n));
    BitsRoundTrip(k, v.n);
  }

  lemma BoolWire(d: Input, off: nat, t: Ty, v: Val, soff: nat)
    requires Encodable(TBool, v) && Fits(t, TBool)
    requires At(d.data, off, Marshalled(InPlace, d.order, off, TBool, v))
    ensures DecodeBool(d, t, off, soff) == Ok(View(t, v), off + |Marshalled(InPlace, d.order, off, TBool, v)|, soff)
  {
    hide PutUint, Pow256, ReadUint, Modulus, At;
    ModulusIsPow(U32);
    ReadUintBack(d, 4, off, if v.flag then 1 else 0);
  }

  lemma StrWire(d: Input, off: nat, t: Ty, k: StrKind, v: Val, soff: nat)
    requires Good(TStr(k), v) && Fits(t, TStr(k)) && |Marshalled(InPlace, d.order, off, TStr(k), v)| < WORD
    requires At(d.data, off, Marshalled(InPlace, d.order, off, TStr(k), v))
    ensures DecodeStr(d, k, t, off, soff)
         == Ok(View(t, v), off + |Marshalled(InPlace, d.order, off, TStr(k), v)|, soff)
  {
    hide ReadString, ReadSignature, StrBytes, SigBytes, At;
    if k == Sig {
      assert Zeros(Pad(off, 1)) + SigBytes(v.text) == SigBytes(v.text);
      ReadSignatureBack(d, off, v.text);
    } else {
      ReadStringBack(d, off, v.text);
    }
  }

  lemma AtAll(s: Signature)
    ensures At(s, 0, s)
  {
  }

  lemma VariantFacts(t: Ty, v: Val)
    requires Good(TVariant, v)
    ensures v.VVariant? && Good(v.ty, v.val) && |SigOf(v.ty)| <= 255
    ensures Takes(t, TVariant, v) ==> Takes(TAny, v.ty, v.val)
    ensures Fits(TAny, v.ty) && View(t, v) == VVariant(DynTy(View(TAny, v.val)), View(TAny, v.val))
  {
    hide SigOf;
  }

  lemma VariantUnfold(d: Input, t: Ty, off: nat, soff: nat, s: Signature, o: nat)
    requires (t == TVariant || t == TAny) && ReadSignature(d, off) == Got(s, o) && Decode(d, s, TAny, o, 0).Ok?
    ensures DecodeVariant(d, t, off, soff)
         == var r := Decode(d, s, TAny, o, 0);
            Ok(VVariant(DynTy(r.value), r.value), r.off, soff)
  {
    hide Decode, ReadSignature;
  }

  lemma VariantBytes(o: Order, off: nat, v: Val)
    requires Encodable(TVariant, v)
    ensures Marshalled(InPlace, o, off, TVariant, v)
         == SigBytes(SigOf(v.ty)) + Marshalled(InPlace, o, off + |SigBytes(SigOf(v.ty))|, v.ty, v.val)
  {
    hide Elems, Entries, Fields, SigBytes, SigsOf;
    var b := Body(InPlace, o, off, TVariant, v);
    assert Zeros(0) + b == b;
  }

  /** The length word of an array or dict, and where the contents are. */
  lemma ArrayHead(d: Input, off: nat, a: Alignment, content: seq<byte>)
    requires |content| < WORD
    requires At(d.data, off, Zeros(Pad(off, 4)) + ArrayBytes(d.order, off + Pad(off, 4), a, content))
    ensures ReadUint(d, 4, off) == Got(|content|, off + Pad(off, 4) + 4)
    ensures At(d.data, ContentStart(off + Pad(off, 4), a), content)
    ensures ContentStart(off + Pad(off, 4), a) + |content|
         == off + |Zeros(Pad(off, 4)) + ArrayBytes(d.order, off + Pad(off, 4), a, content)|
  {
    hide Pad, PutUint, ReadUint, Pow256, Zeros, At;
    ZerosLength(Pad(off, 4));
    ZerosLength(Pad(off + Pad(off, 4) + 4, a));
    var z, n := Zeros(Pad(off, 4)), PutUint(d.order, 4, |content|);
    var z' := Zeros(Pad(off + Pad(off, 4) + 4, a));
    Regroup(z, n, z', content);
    AtSplit(d.data, off, z + n, z' + content);
    AtSplit(d.data, off + |z + n|, z', content);
    ModulusIsPow(U32);
    ReadUintBack(d, 4, off, |content|);
  }

  lemma Regroup(a: seq<byte>, b: seq<byte>, c: seq<byte>, d: seq<byte>)
    ensures a + (b + c + d) == (a + b) + (c + d)
  {
  }

  /** Alignments up to 4 need no padding after a length word. */
  lemma SmallPad(off: nat, a: Alignment)
    requires a <= 4
    ensures Pad(off + Pad(off, 4) + 4, a) == 0
  {
    hide Pad;
    var at := off + Pad(off, 4);
    assert Multiple(4, at + 4);
    CongruentWeaken(4, a, at + 4, 0);
  }

  /** The codes of an array and its elements. */
  lemma ArrayCodes(sig: Signature, e: Ty, soff: nat)
    requires Supported(e) && At(sig, soff, SigOf(TArray(e)))
    ensures soff + 1 < |sig| && sig[soff] == ARRAY && At(sig, soff + 1, SigOf(e))
    ensures |SigOf(TArray(e))| == 1 + |SigOf(e)|
    ensures NextType(sig, soff + 1) == Some(soff + 1 + |SigOf(e)|)
    ensures EightCode(sig[soff + 1]) <==> AlignOf(e) == 8
    ensures sig[soff + 1] != OPENPAIR
  {
    hide NextType, EightCode, SigsOf;
    AtHead(sig, soff, SigOf(TArray(e)));
    AtFits(sig, soff, SigOf(TArray(e)));
    AtSplit(sig, soff, [ARRAY], SigOf(e));
    AtHead(sig, soff + 1, SigOf(e));
    FirstCode(e);
    NextTypeOfSignature(sig, soff + 1, e);
  }

  lemma ArrayFacts(t: Ty, e: Ty, v: Val)
    requires Good(TArray(e), v) && Fits(t, TArray(e)) && Takes(t, TArray(e), v)
    ensures Proper(e) && Fits(ElemTarget(t), e) && (t == TAny || t.TArray?)
    ensures v.VArray? && AllEncodable(e, v.elems)
    ensures forall j :: 0 <= j < |v.elems| ==> Storable(v.elems[j]) && Takes(ElemTarget(t), e, v.elems[j])
  {
  }

  lemma NoContent(d: Input, sig: Signature, t: Ty, off: nat, soff: nat)
    requires soff < |sig| && NextType(sig, soff).Some?
    requires
      var r := ReadUint(d, 4, off);
      r.Overrun? || |d.data| < r.off + (if EightCode(sig[soff]) then Pad(r.off, 8) else 0) + r.value
    ensures DecodeArray(d, sig, t, off, soff) == Err(BufferOverrun)
  {
    hide ReadUint, EightCode, Pad, NextType;
  }

  lemma ArrayUnfold(d: Input, sig: Signature, t: Ty, off: nat, soff: nat, len: nat, o: nat)
    requires ReadUint(d, 4, off) == Got(len, o) && NextType(sig, soff).Some?
    requires o + (if EightCode(sig[soff]) then Pad(o, 8) else 0) + len <= |d.data|
    ensures DecodeArray(d, sig, t, off, soff)
         == var start := o + if EightCode(sig[soff]) then Pad(o, 8) else 0;
            DecodeContent(d, sig, t, soff, NextType(sig, soff).value, start, start + len)
  {
    hide ReadUint, NextType, DecodeContent, Pad;
  }

  lemma ArrayMarshalled(o: Order, off: nat, e: Ty, v: Val)
    requires Encodable(TArray(e), v)
    ensures var at := off + Pad(off, 4);
      Marshalled(InPlace, o, off, TArray(e), v) == Zeros(Pad(off, 4))
        + ArrayBytes(o, at, AlignOf(e), Elems(InPlace, o, ContentStart(at, AlignOf(e)), e, v.elems, 0))
  {
  }

  lemma DictMarshalled(o: Order, off: nat, k: Ty, x: Ty, v: Val)
    requires Encodable(TDict(k, x), v)
    ensures var at := off + Pad(off, 4);
      Marshalled(InPlace, o, off, TDict(k, x), v) == Zeros(Pad(off, 4))
        + ArrayBytes(o, at, 8, Entries(InPlace, o, ContentStart(at, 8), k, x, v.entries, 0))
  {
  }

  lemma ElemsRead(d: Input, sig: Signature, t: Ty, soff: nat, off: nat, end: nat)
    requires end <= |d.data|
    ensures off >= end ==> DecodeElems(d, sig, t, soff, off, end) == Ok([], off, soff)
    ensures off < end ==>
      var r := Decode(d, sig, t, off, soff);
      r.Ok? && r.off > off ==>
        var rest := DecodeElems(d, sig, t, soff, r.off, end);
        rest.Ok? ==> DecodeElems(d, sig, t, soff, off, end) == Ok([r.value] + rest.value, rest.off, rest.soff)
  {
    hide Decode;
  }

  lemma ViewElemsHead(t: Ty, vs: seq<Val>, i: nat)
    requires i <= |vs|
    ensures i < |vs| ==> ViewElems(t, vs)[i..] == [View(t, vs[i])] + ViewElems(t, vs)[i + 1..]
    ensures i == |vs| ==> ViewElems(t, vs)[i..] == []
  {
    hide View;
  }

  lemma DictFacts(t: Ty, k: Ty, x: Ty, v: Val)
    requires Good(TDict(k, x), v) && Fits(t, TDict(k, x)) && Takes(t, TDict(k, x), v)
    ensures Supported(k) && Supported(x) && BasicKey(k) && Proper(x)
    ensures v.VDict? && EntriesEncodable(k, x, v.entries)
    ensures forall j :: 0 <= j < |v.entries| ==> Takes(ValueTarget(t), x, v.entries[j].value)
    ensures forall j :: 0 <= j < |v.entries| ==> Storable(v.entries[j].key) && Storable(v.entries[j].value)
    ensures forall j, n :: 0 <= j < n < |v.entries| ==> v.entries[j].key != v.entries[n].key
    ensures View(t, v) == VDict(ViewEntries(t, v.entries)) && (t == TAny || t.TDict?)
  {
    hide ViewEntries;
  }

  lemma DictContent(d: Input, sig: Signature, t: Ty, soff: nat, after: nat, start: nat, end: nat)
    requires soff < after <= |sig| && start <= end <= |d.data| && sig[soff] == OPENPAIR && (t == TAny || t.TDict?)
    requires DecodeEntries(d, sig, t, soff, start, end, []).Ok?
    ensures DecodeContent(d, sig, t, soff, after, start, end)
         == Ok(VDict(DecodeEntries(d, sig, t, soff, start, end, []).value),
               DecodeEntries(d, sig, t, soff, start, end, []).off, after)
  {
    hide DecodeEntries;
  }

  lemma DictSignature(sig: Signature, soff: nat, k: Ty, x: Ty)
    requires Supported(TDict(k, x)) && At(sig, soff, SigOf(TDict(k, x)))
    ensures sig[soff] == ARRAY && sig[soff + 1] == OPENPAIR
    ensures At(sig, soff + 2, SigOf(k)) && At(sig, soff + 2 + |SigOf(k)|, SigOf(x))
    ensures NextType(sig, soff) == NextType(sig, soff + 1)
  {
    hide SigOf, At, Supported, BasicKey, SigsOf;
    DictText(k, x);
    var h: seq<byte> := [ARRAY] + [OPENPAIR];
    AtSplit(sig, soff, h + SigOf(k) + SigOf(x), [CLOSEPAIR]);
    AtSplit(sig, soff, h + SigOf(k), SigOf(x));
    AtSplit(sig, soff, h, SigOf(k));
    AtSplit(sig, soff, [ARRAY], [OPENPAIR]);
    AtHead(sig, soff, [ARRAY]);
    AtHead(sig, soff + 1, [OPENPAIR]);
    AtFits(sig, soff + 1, [OPENPAIR]);
    ArrayOfDict(sig, soff);
  }

  lemma DictText(k: Ty, x: Ty)
    requires Supported(TDict(k, x))
    ensures Supported(k) && Supported(x)
    ensures SigOf(TDict(k, x)) == [ARRAY] + [OPENPAIR] + SigOf(k) + SigOf(x) + [CLOSEPAIR]
  {
    assert [ARRAY] + [OPENPAIR] == [ARRAY, OPENPAIR];
  }

  lemma ArrayOfDict(sig: Signature, soff: nat)
    requires soff < |sig| && sig[soff] == ARRAY
    ensures NextType(sig, soff) == NextType(sig, soff + 1)
  {
  }

  lemma {:induction false} InsertNew(es: seq<Entry>, k: Val, x: Val)
    requires forall j :: 0 <= j < |es| ==> es[j].key != k
    ensures Insert(es, k, x) == es + [Entry(k, x)]
  {
    if es != [] {
      InsertNew(es[1..], k, x);
      assert [es[0]] + (es[1..] + [Entry(k, x)]) == es + [Entry(k, x)];
    }
  }

  lemma ViewKeysDistinct(t: Ty, k: Ty, x: Ty, es: seq<Entry>, i: nat)
    requires i < |es| && EntriesEncodable(k, x, es) && BasicKey(k)
    requires forall j, n :: 0 <= j < n < |es| ==> es[j].key != es[n].key
    ensures Hashable(ViewEntries(t, es)[i].key)
    ensures forall j :: 0 <= j < i ==> ViewEntries(t, es)[..i][j].key != ViewEntries(t, es)[i].key
  {
    BasicView(KeyTarget(t), k, es[i].key, es[i].key);
    forall j | 0 <= j < i ensures ViewEntries(t, es)[..i][j].key != ViewEntries(t, es)[i].key {
      assert es[j].key != es[i].key;
      BasicView(KeyTarget(t), k, es[j].key, es[i].key);
    }
  }

  lemma BasicView(t: Ty, k: Ty, a: Val, b: Val)
    requires BasicKey(k) && HasType(a, k) && HasType(b, k)
    ensures Hashable(View(t, a))
    ensures View(t, a) == View(t, b) ==> a == b
  {
  }

  lemma EntryRead(d: Input, sig: Signature, t: Ty, soff: nat, off: nat)
    requires soff < |sig|
    ensures
      var k := Decode(d, sig, KeyTarget(t), off + Pad(off, 8), soff + 1);
      k.Ok? ==>
        var x := Decode(d, sig, ValueTarget(t), k.off, if t.TDict? then k.soff else soff + 2);
        x.Ok? ==> DecodeEntry(d, sig, t, soff, off) == Ok(Entry(k.value, x.value), x.off, x.soff)
  {
    hide Decode, Pad;
  }

  lemma EntryIs(o: Order, off: nat, k: Ty, x: Ty, e: Entry)
    requires Encodable(k, e.key) && Encodable(x, e.value)
    ensures
      var at := off + Pad(off, 8);
      var a := Marshalled(InPlace, o, at, k, e.key);
      EntryBytes(InPlace, o, off, k, x, e) == Zeros(Pad(off, 8)) + a + Marshalled(InPlace, o, at + |a|, x, e.value)
  {
    hide Marshalled, Pad, Zeros;
    ZerosLength(Pad(off, 8));
  }

  lemma KeyFacts(t: Ty, k: Ty, x: Ty, key: Val)
    requires BasicKey(k) && Fits(t, TDict(k, x))
    ensures Proper(k) && Takes(KeyTarget(t), k, key) && Unclosed(KeyTarget(t), k) == 0
    ensures Fits(KeyTarget(t), k) && Fits(ValueTarget(t), x)
  {
  }

  lemma OneCode(k: Ty)
    requires BasicKey(k)
    ensures |SigOf(k)| == 1
  {
  }

  lemma StructFacts(t: Ty, ts: seq<Ty>, v: Val)
    requires Good(TStruct(ts), v) && Fits(t, TStruct(ts)) && Takes(t, TStruct(ts), v)
    ensures v.VStruct? && FieldsEncodable(ts, v.fields) && FieldsTake(t, ts, v.fields)
    ensures forall j :: 0 <= j < |v.fields| ==> Storable(v.fields[j])
    ensures t == TAny || (t.TStruct? && |t.fields| == |v.fields|)
  {
    hide FieldsTake;
    StorableFields(v);
  }

  lemma StorableFields(v: Val)
    requires v.VStruct? && Storable(v)
    ensures forall j :: 0 <= j < |v.fields| ==> Storable(v.fields[j])
  {
  }

  lemma StructMarshalled(o: Order, off: nat, ts: seq<Ty>, v: Val)
    requires Encodable(TStruct(ts), v)
    ensures Marshalled(InPlace, o, off, TStruct(ts), v)
         == Zeros(Pad(off, 8)) + Fields(InPlace, o, off + Pad(off, 8), ts, v.fields, 0)
  {
    hide Fields, Pad, Zeros;
  }

  lemma StructAhead(d: Input, at: nat, sig: Signature, soff: nat, t: Ty, ts: seq<Ty>, vs: seq<Val>)
    requires FieldsEncodable(ts, vs) && At(d.data, at, Fields(InPlace, d.order, at, ts, vs, 0))
    requires |Fields(InPlace, d.order, at, ts, vs, 0)| < WORD
    requires At(sig, soff, SigsOf(ts, 0)) && soff + |SigsOf(ts, 0)| < |sig| && sig[soff + |SigsOf(ts, 0)|] == CLOSE
    requires Leftover(t, ts, 0) <= |SigsOf(ts, 0)| && sig[soff + |SigsOf(ts, 0)| - Leftover(t, ts, 0)] == CLOSE
    ensures FieldsAhead(d, at, sig, soff, t, ts, vs, 0)
  {
  }

  lemma StructUnfold(d: Input, sig: Signature, t: Ty, off: nat, soff: nat, v: Val)
    requires v.VStruct? && (t == TAny || (t.TStruct? && |t.fields| == |v.fields|))
    requires
      var r := DecodeFields(d, sig, t, 0, off + Pad(off, 8), soff);
      r.Ok? && r.value == ViewFields(t, v.fields)[0..] && r.soff < |sig| && sig[r.soff] == CLOSE
    ensures
      var r := DecodeFields(d, sig, t, 0, off + Pad(off, 8), soff);
      DecodeStruct(d, sig, t, off, soff) == Ok(View(t, v), r.off, if t == TAny then r.soff else r.soff + 1)
  {
    hide DecodeFields, ViewFields, Pad;
    var all := ViewFields(t, v.fields);
    assert all[0..] == all && all + [] == all;
  }

  lemma StructSignature(sig: Signature, soff: nat, ts: seq<Ty>)
    requires Supported(TStruct(ts)) && At(sig, soff, SigOf(TStruct(ts)))
    ensures |SigOf(TStruct(ts))| == |SigsOf(ts, 0)| + 2
    ensures At(sig, soff + 1, SigsOf(ts, 0))
    ensures soff + 1 + |SigsOf(ts, 0)| < |sig| && sig[soff + 1 + |SigsOf(ts, 0)|] == CLOSE
  {
    hide SigsOf;
    AtSplit(sig, soff, [OPEN] + SigsOf(ts, 0), [CLOSE]);
    AtHead(sig, soff + 1 + |SigsOf(ts, 0)|, [CLOSE]);
    AtSplit(sig, soff, [OPEN], SigsOf(ts, 0));
  }

  lemma UnclosedStruct(t: Ty, ts: seq<Ty>)
    requires Proper(TStruct(ts))
    ensures |ts| > 0 && Unclosed(t, TStruct(ts)) == Leftover(t, ts, 0) + if t.TStruct? then 0 else 1
  {
  }

  /** After the last field the decoder stands before a closing parenthesis. */
  lemma LeftoverCloses(sig: Signature, soff: nat, t: Ty, ts: seq<Ty>)
    requires Proper(TStruct(ts)) && Supported(TStruct(ts)) && At(sig, soff, SigOf(TStruct(ts)))
    ensures
      var u := Leftover(t, ts, 0);
      u <= |SigsOf(ts, 0)| && sig[soff + 1 + |SigsOf(ts, 0)| - u] == CLOSE
  {
    hide SigsOf;
    var n := |ts| - 1;
    var s := SigOf(TStruct(ts));
    var u := Unclosed(PartTarget(t, n), ts[n]);
    UnclosedBound(PartTarget(t, n), ts[n]);
    SigsOfLast(ts, 0);
    if u > 0 {
      TrailingCloses(PartTarget(t, n), ts[n], u);
      FieldsSuffix(ts, u);
    }
    assert sig[soff..soff + |s|][|s| - u - 1] == sig[soff + |s| - u - 1];
  }

  lemma ReadOneMore(d: Input, off: nat, sig: Signature, soff: nat, t: Ty, ts: seq<Ty>, vs: seq<Val>, i: nat,
      o: nat, s: nat)
    requires i < |ts| && FieldsEncodable(ts, vs) && FieldTarget(t, i) == Some(PartTarget(t, i))
    requires soff < |sig| && sig[soff] != CLOSE && Leftover(t, ts, i) <= |SigsOf(ts, i)|
    requires Decode(d, sig, PartTarget(t, i), off, soff) == Ok(View(PartTarget(t, i), vs[i]), o, s)
    requires FieldsRead(d, o, sig, s, t, ts, vs, i + 1)
    requires off + |Fields(InPlace, d.order, off, ts, vs, i)| == o + |Fields(InPlace, d.order, o, ts, vs, i + 1)|
    requires soff + |SigsOf(ts, i)| - Leftover(t, ts, i) == s + |SigsOf(ts, i + 1)| - Leftover(t, ts, i + 1)
    ensures FieldsRead(d, off, sig, soff, t, ts, vs, i)
  {
    hide HasType, VariantsOk, Supported, Decode, View, SigsOf, Fields, DecodeFields, PartTarget, FieldTarget, Leftover;
    hide ViewFields;
    FieldsStep(d, sig, t, i, off, soff);
    ViewFieldsHead(t, vs, i);
  }

  lemma ReadNoMore(d: Input, off: nat, sig: Signature, soff: nat, t: Ty, ts: seq<Ty>, vs: seq<Val>)
    requires FieldsEncodable(ts, vs) && soff < |sig| && sig[soff] == CLOSE
    ensures FieldsRead(d, off, sig, soff, t, ts, vs, |ts|)
  {
    hide HasType, VariantsOk, Supported, DecodeFields, FieldTarget, ViewFields;
    FieldsStep(d, sig, t, |ts|, off, soff);
    ViewFieldsHead(t, vs, |ts|);
  }

  lemma AheadHead(d: Input, off: nat, sig: Signature, soff: nat, t: Ty, ts: seq<Ty>, vs: seq<Val>, i: nat)
    requires i <= |ts| && FieldsEncodable(ts, vs) && FieldsAhead(d, off, sig, soff, t, ts, vs, i)
    ensures At(d.data, off, Fields(InPlace, d.order, off, ts, vs, i)) && At(sig, soff, SigsOf(ts, i))
    ensures |Fields(InPlace, d.order, off, ts, vs, i)| < WORD && Leftover(t, ts, i) <= |SigsOf(ts, i)|
    ensures i == |ts| ==> soff < |sig| && sig[soff] == CLOSE
    ensures i == |ts| ==> |Fields(InPlace, d.order, off, ts, vs, i)| == |SigsOf(ts, i)| == Leftover(t, ts, i) == 0
  {
    hide HasType, VariantsOk, Supported, Unclosed, PartTarget, Marshalled;
  }

  /** One field further: both offsets step over it, and the same parentheses are left. */
  lemma AheadStep(d: Input, off: nat, sig: Signature, soff: nat, t: Ty, ts: seq<Ty>, vs: seq<Val>, i: nat)
    requires i < |ts| && FieldsEncodable(ts, vs) && Proper(TStruct(ts)) && FieldsTake(t, ts, vs)
    requires FieldsAhead(d, off, sig, soff, t, ts, vs, i) && Fits(t, TStruct(ts))
    requires Unclosed(PartTarget(t, i), ts[i]) < |SigOf(ts[i])|
    requires
      var o := off + |Marshalled(InPlace, d.order, off, ts[i], vs[i])|;
      At(d.data, o, Fields(InPlace, d.order, o, ts, vs, i + 1)) && At(sig, soff + |SigOf(ts[i])|, SigsOf(ts, i + 1))
    ensures
      var o := off + |Marshalled(InPlace, d.order, off, ts[i], vs[i])|;
      var s := soff + |SigOf(ts[i])| - Unclosed(PartTarget(t, i), ts[i]);
      && FieldsAhead(d, o, sig, s, t, ts, vs, i + 1)
      && off + |Fields(InPlace, d.order, off, ts, vs, i)| == o + |Fields(InPlace, d.order, o, ts, vs, i + 1)|
      && soff + |SigsOf(ts, i)| - Leftover(t, ts, i) == s + |SigsOf(ts, i + 1)| - Leftover(t, ts, i + 1)
  {
    hide Marshalled, HasType, VariantsOk, Supported, SigOf, SigsOf, Fields, Unclosed, Proper, Fits;
    hide Takes, FieldsTake, PartTarget, At, Leftover;
    FieldsHead(InPlace, d.order, off, ts, vs, i);
    SigsHead(ts, i);
    FieldFacts(t, ts, vs, i);
    LeftoverStep(t, ts, i);
    var o := off + |Marshalled(InPlace, d.order, off, ts[i], vs[i])|;
    if i == |ts| - 1 {
      SigsHead(ts, i + 1);
      FieldsHead(InPlace, d.order, o, ts, vs, i + 1);
      AtNothing(sig, soff + |SigOf(ts[i])| - Unclosed(PartTarget(t, i), ts[i]));
    }
  }

  lemma LeftoverStep(t: Ty, ts: seq<Ty>, i: nat)
    requires i < |ts| && Proper(TStruct(ts))
    ensures i < |ts| - 1 ==> Leftover(t, ts, i) == Leftover(t, ts, i + 1)
    ensures i == |ts| - 1 ==> Leftover(t, ts, i) == Unclosed(PartTarget(t, i), ts[i]) && Leftover(t, ts, i + 1) == 0
    ensures Supported(TStruct(ts)) && (i < |ts| - 1 ==> Leftover(t, ts, i + 1) <= |SigsOf(ts, i + 1)|)
  {
    hide SigsOf, Unclosed, Proper, PartTarget;
    ProperIsSupported(TStruct(ts));
    if i < |ts| - 1 { LeftoverBound(t, ts, i + 1); }
  }

  lemma ViewFieldsHead(t: Ty, vs: seq<Val>, i: nat)
    requires i <= |vs|
    ensures i < |vs| ==> ViewFields(t, vs)[i..] == [View(PartTarget(t, i), vs[i])] + ViewFields(t, vs)[i + 1..]
    ensures i == |vs| ==> ViewFields(t, vs)[i..] == []
  {
    hide View, PartTarget;
  }

  lemma LeftoverBound(t: Ty, ts: seq<Ty>, i: nat)
    requires Proper(TStruct(ts)) && Supported(TStruct(ts)) && i <= |ts|
    ensures Leftover(t, ts, i) <= |SigsOf(ts, i)|
  {
    hide SigsOf, Unclosed;
    if i < |ts| {
      UnclosedBound(PartTarget(t, |ts| - 1), ts[|ts| - 1]);
      SigsOfLast(ts, i);
    }
  }

  lemma FieldFacts(t: Ty, ts: seq<Ty>, vs: seq<Val>, i: nat)
    requires Proper(TStruct(ts)) && Fits(t, TStruct(ts)) && |vs| == |ts| && FieldsTake(t, ts, vs) && i <= |ts|
    ensures i < |ts| ==>
        && Proper(ts[i]) && Fits(PartTarget(t, i), ts[i]) && Takes(PartTarget(t, i), ts[i], vs[i])
        && FieldTarget(t, i) == Some(PartTarget(t, i))
    ensures i < |ts| - 1 ==> Unclosed(PartTarget(t, i), ts[i]) == 0 && Proper(ts[|ts| - 1])
    ensures i == |ts| ==> t == TAny || FieldTarget(t, i) == None
    ensures i == |ts| - 1 ==> t == TAny || FieldTarget(t, i + 1) == None
  {
  }
}
