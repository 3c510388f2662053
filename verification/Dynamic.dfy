/** Decoding into blank interfaces, also inside other targets and in variants: exactly when the
    parentheses that stay open do no harm. */
module Dynamic {
  import opened Bytes
  import opened Types
  import opened Values
  import opened Marshal
  import opened Unmarshal
  import opened RoundTrip
  import opened Codec

  lemma ClosesOnlyStructs(ty: Ty)
    requires Proper(ty)
    ensures Unclosed(TAny, ty) > 0 <==> ty.TStruct?
  {
  }

  lemma StuckAtClose(d: Input, sig: Signature, t: Ty, off: nat, soff: nat)
    requires soff < |sig| && sig[soff] == CLOSE
    ensures Decode(d, sig, t, off, soff) == Err(CouldNotDecode)
  {
  }

  /** Where the decoder stands when it leaves parentheses. */
  lemma LeavesClose(sig: Signature, soff: nat, t: Ty, ty: Ty)
    requires Proper(ty) && Supported(ty) && At(sig, soff, SigOf(ty)) && Unclosed(t, ty) > 0
    ensures Unclosed(t, ty) < |SigOf(ty)| && soff + |SigOf(ty)| <= |sig|
    ensures sig[soff + |SigOf(ty)| - Unclosed(t, ty)] == CLOSE
  {
    hide SigOf;
    var u := Unclosed(t, ty);
    UnclosedBound(t, ty);
    TrailingCloses(t, ty, u);
    assert sig[soff..soff + |SigOf(ty)|][|SigOf(ty)| - u] == CLOSE;
  }

  /** Where the decoder stands after a struct in a blank interface. */
  lemma StructLeavesClose(sig: Signature, soff: nat, ty: Ty)
    requires Proper(ty) && ty.TStruct? && Supported(ty) && At(sig, soff, SigOf(ty))
    ensures Unclosed(TAny, ty) <= |SigOf(ty)| && soff + |SigOf(ty)| - Unclosed(TAny, ty) < |sig|
    ensures sig[soff + |SigOf(ty)| - Unclosed(TAny, ty)] == CLOSE
  {
    ClosesOnlyStructs(ty);
    LeavesClose(sig, soff, TAny, ty);
  }

  lemma AnyFits(ty: Ty)
    ensures Fits(TAny, ty)
  {
  }

  // ---------------------------------------------------------------- what comes out of any data

  /** If what was decoded is the view of `v`, then `v` has no struct in front of further codes, at
      least outside its variants, and the decoder stands where it should in the signature. */
  ghost predicate Seen(soff: nat, t: Ty, ty: Ty, v: Val, r: Outcome<Val>)
    requires Supported(ty)
  {
    r.Ok? && r.value == View(t, v) ==> Passes(t, ty, v) && r.soff + Unclosed(t, ty) == soff + |SigOf(ty)|
  }

  /** Whatever the data. */
  lemma {:induction false} ViewPasses(d: Input, sig: Signature, t: Ty, off: nat, soff: nat, ty: Ty, v: Val)
    requires Proper(ty) && Supported(ty) && Fits(t, ty) && HasType(v, ty) && At(sig, soff, SigOf(ty))
    ensures Seen(soff, t, ty, v, Decode(d, sig, t, off, soff))
    decreases DataLeft(d, off), SigLeft(sig, soff), 0
  {
    hide Decode, DecodeNum, DecodeBool, DecodeStr, DecodeArray, DecodeStruct, DecodeVariant, SigOf, At, Proper, Fits;
    hide View, HasType, Supported, Unclosed;
    WireHead(d, sig, t, off, soff, ty);
    AtFits(sig, soff, SigOf(ty));
    if !ty.TStruct? { UnclosedNone(t, ty); }
    match ty
    case TArray(e) => ArrayPasses(d, sig, t, off, soff, e, v);
    case TDict(k, x) => DictPasses(d, sig, t, off, soff, k, x, v);
    case TStruct(ts) => StructPasses(d, sig, t, off, soff, ts, v);
    case TAny => NotProper();
    case _ =>
  }

  lemma NotProper()
    ensures !Proper(TAny)
  {
  }

  lemma {:induction false} ArrayPasses(d: Input, sig: Signature, t: Ty, off: nat, soff: nat, e: Ty, v: Val)
    requires Proper(TArray(e)) && Supported(TArray(e)) && Fits(t, TArray(e)) && HasType(v, TArray(e))
    requires At(sig, soff, SigOf(TArray(e)))
    ensures Seen(soff, t, TArray(e), v, DecodeArray(d, sig, t, off, soff + 1))
    decreases DataLeft(d, off), SigLeft(sig, soff + 1), 3
  {
    hide ReadUint, DecodeArray, DecodeElems, NextType, SigOf, Pad, EightCode, AlignOf, At, ViewElems, HasType, Proper;
    hide Fits, Supported;
    ArrayParts(t, e, v);
    ArrayCodes(sig, e, soff);
    var r := ReadUint(d, 4, off);
    var start := if r.Got? then r.off + if EightCode(sig[soff + 1]) then Pad(r.off, 8) else 0 else 0;
    if r.Overrun? || |d.data| < start + r.value {
      NoContent(d, sig, t, off, soff + 1);
    } else {
      ArrayUnfold(d, sig, t, off, soff + 1, r.value, r.off);
      ElemsPass(d, sig, ElemTarget(t), soff + 1, start, start + r.value, e, v.elems, 0);
      assert ViewElems(ElemTarget(t), v.elems)[0..] == ViewElems(ElemTarget(t), v.elems);
    }
  }

  lemma ArrayParts(t: Ty, e: Ty, v: Val)
    requires Proper(TArray(e)) && Supported(TArray(e)) && Fits(t, TArray(e)) && HasType(v, TArray(e))
    ensures Proper(e) && Supported(e) && Fits(ElemTarget(t), e) && (t == TAny || t.TArray?)
    ensures v.VArray? && (forall i :: 0 <= i < |v.elems| ==> HasType(v.elems[i], e))
    ensures View(t, v) == VArray(ViewElems(ElemTarget(t), v.elems))
  {
    hide ViewElems;
  }

  lemma {:induction false} ElemsPass(d: Input, sig: Signature, t: Ty, soff: nat, off: nat, end: nat, e: Ty,
      vs: seq<Val>, i: nat)
    requires Proper(e) && Supported(e) && Fits(t, e) && At(sig, soff, SigOf(e)) && end <= |d.data|
    requires i <= |vs| && forall j :: 0 <= j < |vs| ==> HasType(vs[j], e)
    ensures
      var r := DecodeElems(d, sig, t, soff, off, end);
      r.Ok? && r.value == ViewElems(t, vs)[i..] ==> forall j :: i <= j < |vs| ==> Passes(t, e, vs[j])
    decreases DataLeft(d, off), SigLeft(sig, soff), 1
  {
    hide Decode, Proper, Supported, Fits, SigOf, At, Passes, View, ViewElems, HasType, Unclosed;
    ViewElemsHead(t, vs, i);
    if off < end && i < |vs| {
      ViewPasses(d, sig, t, off, soff, e, vs[i]);
      var r := Decode(d, sig, t, off, soff);
      if r.Ok? && r.off > off {
        ElemsPass(d, sig, t, soff, r.off, end, e, vs, i + 1);
        var rest := DecodeElems(d, sig, t, soff, r.off, end);
        if rest.Ok? { HeadsEqual(r.value, rest.value, View(t, vs[i]), ViewElems(t, vs)[i + 1..]); }
      }
    }
  }

  lemma HeadsEqual(a: Val, s: seq<Val>, b: Val, t: seq<Val>)
    ensures [a] + s == [b] + t <==> a == b && s == t
  {
    assert ([a] + s)[0] == a && ([b] + t)[0] == b && ([a] + s)[1..] == s && ([b] + t)[1..] == t;
  }

  /** Whatever has this value as its view has no struct in front of further codes. */
  ghost predicate OnlyPasses(t: Ty, ty: Ty, y: Val) {
    forall w: Val :: HasType(w, ty) && y == View(t, w) ==> Passes(t, ty, w)
  }

  ghost predicate EntriesPass(t: Ty, x: Ty, es: seq<Entry>) {
    forall i :: 0 <= i < |es| ==> OnlyPasses(ValueTarget(t), x, es[i].value)
  }

  lemma {:induction false} DictPasses(d: Input, sig: Signature, t: Ty, off: nat, soff: nat, k: Ty, x: Ty, v: Val)
    requires Proper(TDict(k, x)) && Supported(TDict(k, x)) && Fits(t, TDict(k, x)) && HasType(v, TDict(k, x))
    requires At(sig, soff, SigOf(TDict(k, x)))
    ensures Seen(soff, t, TDict(k, x), v, DecodeArray(d, sig, t, off, soff + 1))
    decreases DataLeft(d, off), SigLeft(sig, soff + 1), 3
  {
    hide ReadUint, DecodeArray, DecodeEntries, NextType, SigOf, Pad, EightCode, At, ViewEntries, HasType, Proper;
    hide Fits, Supported, EntriesPass, Passes;
    DictParts(t, k, x, v);
    AtFits(sig, soff, SigOf(TDict(k, x)));
    NextTypeOfSignature(sig, soff, TDict(k, x));
    DictSignature(sig, soff, k, x);
    var r := ReadUint(d, 4, off);
    var start := if r.Got? then r.off + if EightCode(sig[soff + 1]) then Pad(r.off, 8) else 0 else 0;
    if r.Overrun? || |d.data| < start + r.value {
      NoContent(d, sig, t, off, soff + 1);
    } else {
      ArrayUnfold(d, sig, t, off, soff + 1, r.value, r.off);
      NoEntries(t, x);
      EntriesOnlyPass(d, sig, t, soff + 1, start, start + r.value, k, x, []);
      DictViewPasses(t, k, x, v);
    }
  }

  lemma DictParts(t: Ty, k: Ty, x: Ty, v: Val)
    requires Proper(TDict(k, x)) && Supported(TDict(k, x)) && Fits(t, TDict(k, x)) && HasType(v, TDict(k, x))
    ensures BasicKey(k) && Supported(k) && Proper(x) && Supported(x) && Fits(ValueTarget(t), x)
    ensures (t == TAny || t.TDict?)
    ensures v.VDict? && View(t, v) == VDict(ViewEntries(t, v.entries))
  {
    hide ViewEntries;
  }

  /** A dict whose entries have views among values that only pass. */
  lemma DictViewPasses(t: Ty, k: Ty, x: Ty, v: Val)
    requires HasType(v, TDict(k, x))
    ensures EntriesPass(t, x, ViewEntries(t, v.entries)) ==> Passes(t, TDict(k, x), v)
  {
    hide View, OnlyPasses;
    if EntriesPass(t, x, ViewEntries(t, v.entries)) {
      forall i | 0 <= i < |v.entries| ensures Passes(ValueTarget(t), x, v.entries[i].value) {
        assert ViewEntries(t, v.entries)[i] == ViewEntry(t, v.entries[i]);
        UsePasses(ValueTarget(t), x, v.entries[i].value);
      }
    }
  }

  lemma UsePasses(t: Ty, ty: Ty, v: Val)
    requires OnlyPasses(t, ty, View(t, v)) && HasType(v, ty)
    ensures Passes(t, ty, v)
  {
    hide View, Passes, HasType;
  }

  lemma NoEntries(t: Ty, x: Ty)
    ensures EntriesPass(t, x, [])
  {
  }

  lemma {:induction false} EntriesOnlyPass(d: Input, sig: Signature, t: Ty, soff: nat, off: nat, end: nat,
      k: Ty, x: Ty, acc: seq<Entry>)
    requires BasicKey(k) && Proper(x) && Supported(x) && Fits(ValueTarget(t), x) && end <= |d.data|
    requires soff < |sig| && At(sig, soff + 1, SigOf(k)) && At(sig, soff + 1 + |SigOf(k)|, SigOf(x))
    requires EntriesPass(t, x, acc)
    ensures
      var r := DecodeEntries(d, sig, t, soff, off, end, acc);
      r.Ok? ==> EntriesPass(t, x, r.value)
    decreases DataLeft(d, off), SigLeft(sig, soff), 1
  {
    hide DecodeEntry, Insert, Proper, Supported, Fits, SigOf, At, EntriesPass, OnlyPasses;
    if off < end {
      var r := DecodeEntry(d, sig, t, soff, off);
      if r.Ok? && r.off > off && Hashable(r.value.key) {
        EntryOnlyPasses(d, sig, t, soff, off, k, x);
        InsertPasses(t, x, acc, r.value.key, r.value.value);
        EntriesOnlyPass(d, sig, t, soff, r.off, end, k, x, Insert(acc, r.value.key, r.value.value));
      }
    }
  }

  lemma {:induction false} EntryOnlyPasses(d: Input, sig: Signature, t: Ty, soff: nat, off: nat, k: Ty, x: Ty)
    requires BasicKey(k) && Proper(x) && Supported(x) && Fits(ValueTarget(t), x)
    requires soff < |sig| && At(sig, soff + 1, SigOf(k)) && At(sig, soff + 1 + |SigOf(k)|, SigOf(x))
    ensures
      var r := DecodeEntry(d, sig, t, soff, off);
      r.Ok? ==> OnlyPasses(ValueTarget(t), x, r.value.value)
    decreases DataLeft(d, off), SigLeft(sig, soff), 0
  {
    hide Decode, Proper, Supported, Fits, SigOf, At, Pad, View, Passes, HasType, Unclosed;
    OneCode(k);
    var key := Decode(d, sig, KeyTarget(t), off + Pad(off, 8), soff + 1);
    if key.Ok? {
      KeyStep(d, sig, KeyTarget(t), off + Pad(off, 8), soff + 1, k);
      var y := Decode(d, sig, ValueTarget(t), key.off, soff + 2);
      forall w: Val | HasType(w, x) && y.Ok? && y.value == View(ValueTarget(t), w)
        ensures Passes(ValueTarget(t), x, w)
      {
        ViewPasses(d, sig, ValueTarget(t), key.off, soff + 2, x, w);
      }
    }
  }

  /** A basic key takes one code. */
  lemma KeyStep(d: Input, sig: Signature, t: Ty, off: nat, soff: nat, k: Ty)
    requires BasicKey(k) && At(sig, soff, SigOf(k))
    ensures var r := Decode(d, sig, t, off, soff); r.Ok? ==> r.soff == soff + 1 && r.off > off
  {
    hide Decode, SigOf, At;
    WireHead(d, sig, t, off, soff, k);
  }

  lemma {:induction false} InsertPasses(t: Ty, x: Ty, es: seq<Entry>, k: Val, w: Val)
    requires EntriesPass(t, x, es) && OnlyPasses(ValueTarget(t), x, w)
    ensures EntriesPass(t, x, Insert(es, k, w))
    decreases |es|
  {
    hide OnlyPasses, EntriesPass;
    EntriesPassOne(t, x, Entry(k, w), []);
    if es != [] {
      assert es == [es[0]] + es[1..];
      EntriesPassOne(t, x, es[0], es[1..]);
      EntriesPassOne(t, x, Entry(k, w), es[1..]);
      InsertPasses(t, x, es[1..], k, w);
      EntriesPassOne(t, x, es[0], Insert(es[1..], k, w));
    } else {
      NoEntries(t, x);
      assert [Entry(k, w)] + [] == [Entry(k, w)];
    }
  }

  lemma EntriesPassOne(t: Ty, x: Ty, e: Entry, es: seq<Entry>)
    ensures EntriesPass(t, x, [e] + es) <==> OnlyPasses(ValueTarget(t), x, e.value) && EntriesPass(t, x, es)
  {
    hide OnlyPasses;
    var all := [e] + es;
    assert all[0] == e && all[1..] == es;
    if EntriesPass(t, x, all) {
      forall i | 0 <= i < |es| ensures OnlyPasses(ValueTarget(t), x, es[i].value) { assert es[i] == all[i + 1]; }
    }
  }

  lemma {:induction false} StructPasses(d: Input, sig: Signature, t: Ty, off: nat, soff: nat, ts: seq<Ty>, v: Val)
    requires Proper(TStruct(ts)) && Supported(TStruct(ts)) && Fits(t, TStruct(ts)) && HasType(v, TStruct(ts))
    requires At(sig, soff, SigOf(TStruct(ts)))
    ensures Seen(soff, t, TStruct(ts), v, DecodeStruct(d, sig, t, off, soff + 1))
    decreases DataLeft(d, off), SigLeft(sig, soff + 1), 3
  {
    hide DecodeFields, DecodeStruct, SigsOf, SigOf, At, Pad, View, ViewFields, HasType, Proper, Fits, Supported, Passes;
    hide Unclosed, FieldsPass, Leftover;
    StructParts(t, ts, v);
    StructSignature(sig, soff, ts);
    UnclosedStruct(t, ts);
    FieldsPassed(d, sig, t, 0, off + Pad(off, 8), soff + 1, ts, v.fields);
    StructSeen(d, sig, t, off, soff + 1, ts, v);
    assert ViewFields(t, v.fields)[0..] == ViewFields(t, v.fields);
  }

  lemma StructParts(t: Ty, ts: seq<Ty>, v: Val)
    requires Proper(TStruct(ts)) && Supported(TStruct(ts)) && Fits(t, TStruct(ts)) && HasType(v, TStruct(ts))
    ensures v.VStruct? && |v.fields| == |ts| && (t == TAny || (t.TStruct? && |t.fields| == |ts|))
    ensures forall i :: 0 <= i < |ts| ==> Supported(ts[i]) && Proper(ts[i]) && HasType(v.fields[i], ts[i])
    ensures Passes(t, TStruct(ts), v) <==> FieldsPass(t, ts, v.fields, 0)
  {
    hide Unclosed;
  }

  /** A struct whose view came out has all its fields. */
  lemma StructSeen(d: Input, sig: Signature, t: Ty, off: nat, soff: nat, ts: seq<Ty>, v: Val)
    requires v.VStruct? && |v.fields| == |ts| && (t == TAny || (t.TStruct? && |t.fields| == |ts|))
    requires forall i :: 0 <= i < |ts| ==> Proper(ts[i]) && HasType(v.fields[i], ts[i])
    ensures
      var r := DecodeStruct(d, sig, t, off, soff);
      var fs := DecodeFields(d, sig, t, 0, off + Pad(off, 8), soff);
      r.Ok? && r.value == View(t, v) ==>
        fs.Ok? && fs.value == ViewFields(t, v.fields) && r.soff == if t == TAny then fs.soff else fs.soff + 1
  {
    hide DecodeFields, ViewFields, Pad, HasType, Proper;
    var fs := DecodeFields(d, sig, t, 0, off + Pad(off, 8), soff);
    if t.TStruct? && fs.Ok? {
      FieldsTouched(t, ts, v.fields);
      AllRead(fs.value, ViewFields(t, v.fields));
    }
  }

  lemma AllRead(read: seq<Val>, all: seq<Val>)
    requires forall i :: 0 <= i < |all| ==> all[i] != VUntouched
    ensures read + Untouched(|all| - |read|) == all ==> read == all
  {
    var s := read + Untouched(|all| - |read|);
    if |read| < |all| { assert s[|read|] == VUntouched; }
  }

  lemma FieldsTouched(t: Ty, ts: seq<Ty>, vs: seq<Val>)
    requires |vs| == |ts| && forall i :: 0 <= i < |ts| ==> Proper(ts[i]) && HasType(vs[i], ts[i])
    ensures forall i :: 0 <= i < |ts| ==> ViewFields(t, vs)[i] != VUntouched
  {
    hide Proper, HasType, View;
    forall i | 0 <= i < |ts| ensures ViewFields(t, vs)[i] != VUntouched { ViewTouched(PartTarget(t, i), ts[i], vs[i]); }
  }

  lemma ViewTouched(t: Ty, ty: Ty, v: Val)
    requires Proper(ty) && HasType(v, ty)
    ensures View(t, v) != VUntouched
  {
  }

  lemma {:induction false} FieldsPassed(d: Input, sig: Signature, t: Ty, i: nat, off: nat, soff: nat, ts: seq<Ty>,
      vs: seq<Val>)
    requires Proper(TStruct(ts)) && Supported(TStruct(ts)) && Fits(t, TStruct(ts))
    requires i <= |ts| == |vs|
    requires forall j :: 0 <= j < |ts| ==> Supported(ts[j]) && Proper(ts[j]) && HasType(vs[j], ts[j])
    requires At(sig, soff, SigsOf(ts, i)) && soff + |SigsOf(ts, i)| < |sig| && sig[soff + |SigsOf(ts, i)|] == CLOSE
    ensures
      var r := DecodeFields(d, sig, t, i, off, soff);
      r.Ok? && r.value == ViewFields(t, vs)[i..] ==>
        FieldsPass(t, ts, vs, i) && r.soff + Leftover(t, ts, i) == soff + |SigsOf(ts, i)|
    decreases DataLeft(d, off), SigLeft(sig, soff), 2
  {
    hide Decode, DecodeFields, Proper, Supported, Fits, SigOf, SigsOf, At, View, ViewFields, HasType, Unclosed, Passes;
    hide PartTarget, FieldTarget, Leftover, FieldsPass;
    SigsHead(ts, i);
    var r := DecodeFields(d, sig, t, i, off, soff);
    if i == |ts| {
      FieldsStep(d, sig, t, i, off, soff);
      NothingLeft(t, ts, vs);
    } else if r.Ok? && r.value == ViewFields(t, vs)[i..] {
      FieldFits(t, ts, i);
      FirstCame(d, sig, t, i, off, soff, vs);
      AtSplit(sig, soff, SigOf(ts[i]), SigsOf(ts, i + 1));
      ViewPasses(d, sig, PartTarget(t, i), off, soff, ts[i], vs[i]);
      var first := Decode(d, sig, PartTarget(t, i), off, soff);
      if i < |ts| - 1 {
        GoesOn(d, sig, t, i, soff, ts, vs, first);
        FieldsPassed(d, sig, t, i + 1, first.off, first.soff, ts, vs);
        PassesMore(t, ts, vs, i);
      } else {
        SigsHead(ts, |ts|);
        LastPasses(d, sig, t, soff, ts, vs, first);
      }
    }
  }

  /** If the views of some fields came out, that of the first did, and those of the others. */
  lemma FirstCame(d: Input, sig: Signature, t: Ty, i: nat, off: nat, soff: nat, vs: seq<Val>)
    requires i < |vs| && FieldTarget(t, i) == Some(PartTarget(t, i))
    requires Comes(DecodeFields(d, sig, t, i, off, soff), ViewFields(t, vs)[i..])
    ensures
      var first := Decode(d, sig, PartTarget(t, i), off, soff);
      && Comes(first, View(PartTarget(t, i), vs[i]))
      && Comes(DecodeFields(d, sig, t, i + 1, first.off, first.soff), ViewFields(t, vs)[i + 1..])
      && DecodeFields(d, sig, t, i, off, soff).soff == DecodeFields(d, sig, t, i + 1, first.off, first.soff).soff
  {
    hide Decode, DecodeFields, View, ViewFields, PartTarget, FieldTarget;
    ViewFieldsHead(t, vs, i);
    FieldsStep(d, sig, t, i, off, soff);
    var first := Decode(d, sig, PartTarget(t, i), off, soff);
    HeadsEqual(first.value, DecodeFields(d, sig, t, i + 1, first.off, first.soff).value,
      View(PartTarget(t, i), vs[i]), ViewFields(t, vs)[i + 1..]);
  }

  lemma NothingLeft(t: Ty, ts: seq<Ty>, vs: seq<Val>)
    requires |ts| == |vs|
    ensures FieldsPass(t, ts, vs, |ts|) && Leftover(t, ts, |ts|) == 0
  {
  }

  lemma FieldFits(t: Ty, ts: seq<Ty>, i: nat)
    requires i < |ts| && Proper(TStruct(ts)) && Fits(t, TStruct(ts))
    ensures Fits(PartTarget(t, i), ts[i]) && FieldTarget(t, i) == Some(PartTarget(t, i))
    ensures i == |ts| - 1 ==> t == TAny || FieldTarget(t, i + 1) == None
  {
  }

  lemma PassesMore(t: Ty, ts: seq<Ty>, vs: seq<Val>, i: nat)
    requires i < |ts| - 1 && |ts| == |vs| && FieldsPass(t, ts, vs, i + 1)
    requires Passes(PartTarget(t, i), ts[i], vs[i]) && Unclosed(PartTarget(t, i), ts[i]) == 0
    ensures FieldsPass(t, ts, vs, i) && Leftover(t, ts, i) == Leftover(t, ts, i + 1)
  {
    hide Passes, Unclosed;
  }

  /** A field in front of others that came out leaves no parenthesis, or there would be no others. */
  lemma GoesOn(d: Input, sig: Signature, t: Ty, i: nat, soff: nat, ts: seq<Ty>, vs: seq<Val>, first: Outcome<Val>)
    requires i < |ts| - 1 && |ts| == |vs| && Proper(ts[i]) && Supported(ts[i]) && At(sig, soff, SigOf(ts[i]))
    requires first.Ok? && first.soff + Unclosed(PartTarget(t, i), ts[i]) == soff + |SigOf(ts[i])|
    requires
      var rest := DecodeFields(d, sig, t, i + 1, first.off, first.soff);
      rest.Ok? && rest.value == ViewFields(t, vs)[i + 1..]
    ensures Unclosed(PartTarget(t, i), ts[i]) == 0 && first.soff == soff + |SigOf(ts[i])|
  {
    hide DecodeFields, ViewFields, Unclosed, SigOf, At, Proper, Supported, PartTarget, FieldTarget;
    if Unclosed(PartTarget(t, i), ts[i]) > 0 {
      LeavesClose(sig, soff, PartTarget(t, i), ts[i]);
      FieldsStep(d, sig, t, i + 1, first.off, first.soff);
    }
  }

  lemma LastPasses(d: Input, sig: Signature, t: Ty, soff: nat, ts: seq<Ty>, vs: seq<Val>, first: Outcome<Val>)
    requires |ts| == |vs| > 0 && Proper(ts[|ts| - 1]) && Supported(TStruct(ts))
    requires
      var n := |ts| - 1;
      && At(sig, soff, SigOf(ts[n])) && soff + |SigOf(ts[n])| < |sig| && sig[soff + |SigOf(ts[n])|] == CLOSE
      && first.Ok? && first.soff + Unclosed(PartTarget(t, n), ts[n]) == soff + |SigOf(ts[n])|
      && Passes(PartTarget(t, n), ts[n], vs[n])
    ensures
      var n := |ts| - 1;
      && FieldsPass(t, ts, vs, n) && |SigsOf(ts, n)| == |SigOf(ts[n])|
      && DecodeFields(d, sig, t, |ts|, first.off, first.soff) == Ok([], first.off, first.soff)
      && first.soff + Leftover(t, ts, n) == soff + |SigsOf(ts, n)|
  {
    hide Decode, DecodeFields, Unclosed, SigOf, SigsOf, At, Proper, PartTarget, Passes;
    var n := |ts| - 1;
    if Unclosed(PartTarget(t, n), ts[n]) > 0 { LeavesClose(sig, soff, PartTarget(t, n), ts[n]); }
    SigsHead(ts, n);
    SigsHead(ts, |ts|);
    FieldsStep(d, sig, t, |ts|, first.off, first.soff);
  }

  // ---------------------------------------------------------------- payloads on the wire

  /** Every variant inside a dict value has a payload that a blank interface can take. */
  ghost predicate DictsTake(v: Val)
    decreases v
  {
    match v
    case VVariant(_, x) => DictsTake(x)
    case VArray(es) => forall i :: 0 <= i < |es| ==> DictsTake(es[i])
    case VDict(es) => forall i :: 0 <= i < |es| ==> PayloadsTake(es[i].value)
    case VStruct(fs) => forall i :: 0 <= i < |fs| ==> DictsTake(fs[i])
    case _ => true
  }

  /** A value on the wire whose view comes out can be taken: the first variant whose payload cannot
      would come out as something else. */
  lemma {:induction false} ViewTakes(d: Input, off: nat, sig: Signature, soff: nat, t: Ty, ty: Ty, v: Val)
    requires Good(ty, v) && Fits(t, ty) && DictsTake(v) && Passes(t, ty, v)
    requires |Marshalled(InPlace, d.order, off, ty, v)| < WORD
    requires At(d.data, off, Marshalled(InPlace, d.order, off, ty, v)) && At(sig, soff, SigOf(ty))
    requires Decode(d, sig, t, off, soff).Ok? && Decode(d, sig, t, off, soff).value == View(t, v)
    ensures Takes(t, ty, v)
    decreases v, 2
  {
    hide Marshalled, HasType, VariantsOk, DecodeArray, Decode, Supported, SigOf, At, DecodeStruct, DecodeVariant, View;
    hide Storable, Proper, Fits, DictsTake, Passes;
    WireHead(d, sig, t, off, soff, ty);
    VariantTarget(t, ty);
    match ty
    case TVariant => VariantTakes(d, off, t, v, soff + 1);
    case TArray(e) => ArrayTakes(d, off, sig, soff, t, e, v);
    case TDict(k, x) => DictTakes(t, k, x, v);
    case TStruct(ts) => StructViewTakes(d, off, sig, soff, t, ts, v);
    case _ =>
  }

  lemma {:induction false} VariantTakes(d: Input, off: nat, t: Ty, v: Val, soff: nat)
    requires Good(TVariant, v) && (t == TVariant || t == TAny) && DictsTake(v)
    requires |Marshalled(InPlace, d.order, off, TVariant, v)| < WORD
    requires At(d.data, off, Marshalled(InPlace, d.order, off, TVariant, v))
    requires DecodeVariant(d, t, off, soff).Ok? && DecodeVariant(d, t, off, soff).value == View(t, v)
    ensures Takes(t, TVariant, v)
    decreases v, 1
  {
    hide Marshalled, Body, Decode, SigsOf, SigOf, SigBytes, ReadSignature, View, Unclosed, Passes;
    hide HasType, VariantsOk, Supported, Storable, Proper, Fits, At;
    VariantFacts(t, v);
    var s := SigOf(v.ty);
    var m := Marshalled(InPlace, d.order, off + |SigBytes(s)|, v.ty, v.val);
    VariantBytes(d.order, off, v);
    AtSplit(d.data, off, SigBytes(s), m);
    ReadSignatureBack(d, off, s);
    AtAll(s);
    ViewPasses(d, s, TAny, off + |SigBytes(s)|, 0, v.ty, v.val);
    ViewTakes(d, off + |SigBytes(s)|, s, 0, TAny, v.ty, v.val);
  }

  lemma {:induction false} ArrayTakes(d: Input, off: nat, sig: Signature, soff: nat, t: Ty, e: Ty, v: Val)
    requires Good(TArray(e), v) && Fits(t, TArray(e)) && DictsTake(v) && Passes(t, TArray(e), v)
    requires |Marshalled(InPlace, d.order, off, TArray(e), v)| < WORD
    requires At(d.data, off, Marshalled(InPlace, d.order, off, TArray(e), v)) && At(sig, soff, SigOf(TArray(e)))
    requires DecodeArray(d, sig, t, off, soff + 1).Ok? && DecodeArray(d, sig, t, off, soff + 1).value == View(t, v)
    ensures Takes(t, TArray(e), v)
    decreases v, 1
  {
    hide Pad, Marshalled, Body, Elems, DecodeElems, DecodeArray, SigOf, ReadUint, NextType, AlignOf, ViewElems;
    hide PutUint, Zeros, EightCode, Proper, Storable, Fits, HasType, VariantsOk, Supported, At;
    ArrayParts(t, e, v);
    ArrayInside(t, e, v);
    var at := off + Pad(off, 4);
    ArrayMarshalled(d.order, off, e, v);
    var start := ContentStart(at, AlignOf(e));
    var content := Elems(InPlace, d.order, start, e, v.elems, 0);
    ArrayHead(d, off, AlignOf(e), content);
    AtFits(d.data, start, content);
    ArrayCodes(sig, e, soff);
    if AlignOf(e) < 8 { SmallPad(off, AlignOf(e)); }
    ArrayUnfold(d, sig, t, off, soff + 1, |content|, at + 4);
    assert ViewElems(ElemTarget(t), v.elems)[0..] == ViewElems(ElemTarget(t), v.elems);
    ElemsTake(d, start, start + |content|, sig, soff + 1, ElemTarget(t), e, v.elems, 0);
  }

  lemma ArrayInside(t: Ty, e: Ty, v: Val)
    requires Good(TArray(e), v) && v.VArray? && DictsTake(v) && Passes(t, TArray(e), v)
    ensures AllEncodable(e, v.elems)
    ensures forall j :: 0 <= j < |v.elems| ==>
      Storable(v.elems[j]) && DictsTake(v.elems[j]) && Passes(ElemTarget(t), e, v.elems[j])
  {
  }

  lemma {:induction false} ElemsTake(d: Input, off: nat, end: nat, sig: Signature, soff: nat, t: Ty, e: Ty,
      vs: seq<Val>, i: nat)
    requires i <= |vs| && AllEncodable(e, vs) && Proper(e) && Fits(t, e)
    requires forall j :: 0 <= j < |vs| ==> Storable(vs[j]) && DictsTake(vs[j]) && Passes(t, e, vs[j])
    requires At(d.data, off, Elems(InPlace, d.order, off, e, vs, i)) && end <= |d.data|
    requires |Elems(InPlace, d.order, off, e, vs, i)| < WORD && At(sig, soff, SigOf(e))
    requires
      var r := DecodeElems(d, sig, t, soff, off, end);
      r.Ok? && r.value == ViewElems(t, vs)[i..]
    ensures forall j :: i <= j < |vs| ==> Takes(t, e, vs[j])
    decreases vs, |vs| - i
  {
    hide Marshalled, HasType, VariantsOk, Supported, Storable, Proper, Fits, Takes, Passes, DictsTake, Decode, SigOf;
    hide View, ViewElems, Unclosed, At, Elems;
    ElemsHead(InPlace, d.order, off, e, vs, i);
    ViewElemsHead(t, vs, i);
    if i < |vs| {
      var a := Marshalled(InPlace, d.order, off, e, vs[i]);
      AtSplit(d.data, off, a, Elems(InPlace, d.order, off + |a|, e, vs, i + 1));
      var r := Decode(d, sig, t, off, soff);
      HeadsEqual(r.value, DecodeElems(d, sig, t, soff, r.off, end).value, View(t, vs[i]), ViewElems(t, vs)[i + 1..]);
      ViewTakes(d, off, sig, soff, t, e, vs[i]);
      DecodeWire(d, off, sig, soff, t, e, vs[i]);
      ElemsTake(d, off + |a|, end, sig, soff, t, e, vs, i + 1);
    }
  }

  lemma DictTakes(t: Ty, k: Ty, x: Ty, v: Val)
    requires HasType(v, TDict(k, x)) && DictsTake(v) && Passes(t, TDict(k, x), v)
    ensures Takes(t, TDict(k, x), v)
  {
    PassesTakes(t, TDict(k, x), v);
  }

  lemma {:induction false} StructViewTakes(d: Input, off: nat, sig: Signature, soff: nat, t: Ty, ts: seq<Ty>, v: Val)
    requires Good(TStruct(ts), v) && Fits(t, TStruct(ts)) && DictsTake(v) && Passes(t, TStruct(ts), v)
    requires |Marshalled(InPlace, d.order, off, TStruct(ts), v)| < WORD
    requires At(d.data, off, Marshalled(InPlace, d.order, off, TStruct(ts), v)) && At(sig, soff, SigOf(TStruct(ts)))
    requires DecodeStruct(d, sig, t, off, soff + 1).Ok? && DecodeStruct(d, sig, t, off, soff + 1).value == View(t, v)
    ensures Takes(t, TStruct(ts), v)
    decreases v, 1
  {
    hide Pad, Fields, DecodeFields, DecodeStruct, SigsOf, SigOf, View, ViewFields, Zeros, Proper, Takes, FieldsPass;
    hide Unclosed, Storable, HasType, VariantsOk, Supported, Fits, At, Marshalled, Passes, DictsTake, FieldsTake;
    StructParts(t, ts, v);
    StructInside(t, ts, v);
    var at := off + Pad(off, 8);
    ZerosLength(Pad(off, 8));
    StructMarshalled(d.order, off, ts, v);
    AtSplit(d.data, off, Zeros(Pad(off, 8)), Fields(InPlace, d.order, at, ts, v.fields, 0));
    StructSignature(sig, soff, ts);
    StructSeen(d, sig, t, off, soff + 1, ts, v);
    assert ViewFields(t, v.fields)[0..] == ViewFields(t, v.fields);
    FieldsTaken(d, at, sig, soff + 1, t, ts, v.fields, 0);
    TakesOfFields(t, ts, v);
  }

  lemma StructInside(t: Ty, ts: seq<Ty>, v: Val)
    requires Good(TStruct(ts), v) && v.VStruct? && |v.fields| == |ts| && DictsTake(v) && Passes(t, TStruct(ts), v)
    ensures FieldsEncodable(ts, v.fields) && FieldsPass(t, ts, v.fields, 0)
    ensures forall j :: 0 <= j < |ts| ==> Storable(v.fields[j]) && DictsTake(v.fields[j])
  {
    hide FieldsPass;
  }

  lemma TakesOfFields(t: Ty, ts: seq<Ty>, v: Val)
    requires v.VStruct? && |v.fields| == |ts| && FieldsPass(t, ts, v.fields, 0)
    requires forall j :: 0 <= j < |ts| ==> Takes(PartTarget(t, j), ts[j], v.fields[j])
    ensures Takes(t, TStruct(ts), v)
  {
  }

  lemma {:induction false} FieldsTaken(d: Input, off: nat, sig: Signature, soff: nat, t: Ty, ts: seq<Ty>,
      vs: seq<Val>, i: nat)
    requires i <= |ts| && FieldsEncodable(ts, vs) && Proper(TStruct(ts)) && Fits(t, TStruct(ts))
    requires FieldsPass(t, ts, vs, 0)
    requires forall j :: 0 <= j < |vs| ==> Storable(vs[j]) && DictsTake(vs[j])
    requires At(d.data, off, Fields(InPlace, d.order, off, ts, vs, i)) && At(sig, soff, SigsOf(ts, i))
    requires |Fields(InPlace, d.order, off, ts, vs, i)| < WORD
    requires
      var r := DecodeFields(d, sig, t, i, off, soff);
      r.Ok? && r.value == ViewFields(t, vs)[i..]
    ensures forall j :: i <= j < |ts| ==> Takes(PartTarget(t, j), ts[j], vs[j])
    decreases vs, |ts| - i
  {
    hide Marshalled, HasType, VariantsOk, Supported, Storable, Proper, Fits, Takes, Passes, DictsTake, Decode, SigOf;
    hide View, ViewFields, Unclosed, At, Fields, SigsOf, DecodeFields, PartTarget, FieldTarget, FieldsPass;
    FieldsHead(InPlace, d.order, off, ts, vs, i);
    SigsHead(ts, i);
    if i < |ts| {
      var a := Marshalled(InPlace, d.order, off, ts[i], vs[i]);
      AtSplit(d.data, off, a, Fields(InPlace, d.order, off + |a|, ts, vs, i + 1));
      AtSplit(sig, soff, SigOf(ts[i]), SigsOf(ts, i + 1));
      FieldFits(t, ts, i);
      FieldPasses(t, ts, vs, i);
      FirstCame(d, sig, t, i, off, soff, vs);
      ViewTakes(d, off, sig, soff, PartTarget(t, i), ts[i], vs[i]);
      DecodeWire(d, off, sig, soff, PartTarget(t, i), ts[i], vs[i]);
      if i < |ts| - 1 { FieldsTaken(d, off + |a|, sig, soff + |SigOf(ts[i])|, t, ts, vs, i + 1); }
    }
  }

  lemma FieldPasses(t: Ty, ts: seq<Ty>, vs: seq<Val>, i: nat)
    requires i < |ts| == |vs| && FieldsPass(t, ts, vs, 0) && Proper(TStruct(ts))
    ensures Passes(PartTarget(t, i), ts[i], vs[i]) && Proper(ts[i])
    ensures i < |ts| - 1 ==> Unclosed(PartTarget(t, i), ts[i]) == 0
  {
  }

  // ---------------------------------------------------------------- the exact conditions

  /** A well-formed value decoded into any fitting target comes back as its view if and only if no
      struct in front of further codes is reached in a blank interface, in variants as well. That
      such a payload inside a dict value spoils the view is not said: what follows it is read at
      other offsets, and may repeat its key. */
  lemma DecodeExact(d: Input, off: nat, sig: Signature, soff: nat, t: Ty, ty: Ty, v: Val)
    requires Good(ty, v) && Fits(t, ty) && |Marshalled(InPlace, d.order, off, ty, v)| < WORD
    requires At(d.data, off, Marshalled(InPlace, d.order, off, ty, v)) && At(sig, soff, SigOf(ty))
    ensures Takes(t, ty, v) ==> Comes(Decode(d, sig, t, off, soff), View(t, v))
    ensures Comes(Decode(d, sig, t, off, soff), View(t, v)) ==> Passes(t, ty, v)
    ensures DictsTake(v) ==> (Comes(Decode(d, sig, t, off, soff), View(t, v)) <==> Takes(t, ty, v))
  {
    hide Marshalled, Decode, View, SigOf, Takes, Storable, VariantsOk, HasType, At, Fits, Proper, DictsTake, Unclosed;
    hide Supported, Passes, Comes;
    if Takes(t, ty, v) { RightView(d, off, sig, soff, t, ty, v); }
    OnlyView(d, off, sig, soff, t, ty, v);
    if DictsTake(v) && !Takes(t, ty, v) { WrongView(d, off, sig, soff, t, ty, v); }
  }

  lemma RightView(d: Input, off: nat, sig: Signature, soff: nat, t: Ty, ty: Ty, v: Val)
    requires Good(ty, v) && Fits(t, ty) && |Marshalled(InPlace, d.order, off, ty, v)| < WORD && Takes(t, ty, v)
    requires At(d.data, off, Marshalled(InPlace, d.order, off, ty, v)) && At(sig, soff, SigOf(ty))
    ensures Comes(Decode(d, sig, t, off, soff), View(t, v))
  {
    hide Marshalled, Decode, View, SigOf, Takes, Storable, VariantsOk, HasType, At, Fits, Proper, Unclosed, Supported;
    DecodeWire(d, off, sig, soff, t, ty, v);
  }

  lemma OnlyView(d: Input, off: nat, sig: Signature, soff: nat, t: Ty, ty: Ty, v: Val)
    requires Good(ty, v) && Fits(t, ty) && At(sig, soff, SigOf(ty))
    ensures Comes(Decode(d, sig, t, off, soff), View(t, v)) ==> Passes(t, ty, v)
  {
    hide Decode, View, SigOf, Storable, VariantsOk, HasType, At, Fits, Proper, Unclosed, Supported, Passes;
    ViewPasses(d, sig, t, off, soff, ty, v);
  }

  ghost predicate Comes<T>(r: Outcome<T>, v: T) {
    r.Ok? && r.value == v
  }

  lemma WrongView(d: Input, off: nat, sig: Signature, soff: nat, t: Ty, ty: Ty, v: Val)
    requires Good(ty, v) && Fits(t, ty) && DictsTake(v) && |Marshalled(InPlace, d.order, off, ty, v)| < WORD
    requires At(d.data, off, Marshalled(InPlace, d.order, off, ty, v)) && At(sig, soff, SigOf(ty))
    requires !Takes(t, ty, v)
    ensures !Comes(Decode(d, sig, t, off, soff), View(t, v))
  {
    hide Marshalled, Decode, View, SigOf, Takes, Storable, VariantsOk, HasType, At, Fits, Proper, DictsTake, Unclosed;
    hide Supported;
    if Decode(d, sig, t, off, soff).Ok? && Decode(d, sig, t, off, soff).value == View(t, v) {
      ViewPasses(d, sig, t, off, soff, ty, v);
      ViewTakes(d, off, sig, soff, t, ty, v);
    }
  }

  /** In particular a variant, in a Variant or a blank interface, gives its payload back if and only
      if a blank interface can take the payload. */
  lemma VariantExact(d: Input, off: nat, t: Ty, ty: Ty, x: Val, soff: nat)
    requires Good(ty, x) && |SigOf(ty)| <= 255 && DictsTake(x) && (t == TVariant || t == TAny)
    requires Encodable(TVariant, VVariant(ty, x))
    requires |Marshalled(InPlace, d.order, off, TVariant, VVariant(ty, x))| < WORD
    requires At(d.data, off, Marshalled(InPlace, d.order, off, TVariant, VVariant(ty, x)))
    ensures Comes(DecodeVariant(d, t, off, soff), View(t, VVariant(ty, x))) <==> Takes(TAny, ty, x)
  {
    hide Marshalled, DecodeVariant, View, SigOf, HasType, VariantsOk, Supported, At;
    var v := VVariant(ty, x);
    if Takes(t, TVariant, v) {
      DecodeVariantWire(d, off, t, v, soff);
    } else if DecodeVariant(d, t, off, soff).Ok? && DecodeVariant(d, t, off, soff).value == View(t, v) {
      VariantTakes(d, off, t, v, soff);
    }
  }

  /** For a struct in a blank interface: if and only if no field before the last is a struct and each
      field can be taken. */
  lemma DynamicStructExact(d: Input, off: nat, sig: Signature, soff: nat, ts: seq<Ty>, v: Val)
    requires Good(TStruct(ts), v) && DictsTake(v) && |Marshalled(InPlace, d.order, off, TStruct(ts), v)| < WORD
    requires At(d.data, off, Marshalled(InPlace, d.order, off, TStruct(ts), v)) && At(sig, soff, SigOf(TStruct(ts)))
    ensures
      Comes(Decode(d, sig, TAny, off, soff), View(TAny, v)) <==>
        (forall j :: 0 <= j < |ts| - 1 ==> !ts[j].TStruct?)
        && forall j :: 0 <= j < |ts| ==> Takes(TAny, ts[j], v.fields[j])
  {
    hide Marshalled, Decode, View, SigOf, Storable, VariantsOk, Takes, DictsTake;
    AnyFits(TStruct(ts));
    DecodeExact(d, off, sig, soff, TAny, TStruct(ts), v);
    StructTakes(ts, v);
  }

  lemma StructTakes(ts: seq<Ty>, v: Val)
    requires Proper(TStruct(ts)) && HasType(v, TStruct(ts))
    ensures Takes(TAny, TStruct(ts), v) <==>
      (forall j :: 0 <= j < |ts| - 1 ==> !ts[j].TStruct?)
      && forall j :: 0 <= j < |ts| ==> Takes(TAny, ts[j], v.fields[j])
  {
    hide Takes, Unclosed;
    forall j | 0 <= j < |ts| ensures Unclosed(TAny, ts[j]) == 0 <==> !ts[j].TStruct? { ClosesOnlyStructs(ts[j]); }
    TakesIsFields(ts, v);
  }

  lemma TakesIsFields(ts: seq<Ty>, v: Val)
    requires v.VStruct? && |v.fields| == |ts|
    ensures Takes(TAny, TStruct(ts), v) == FieldsTake(TAny, ts, v.fields)
  {
    hide FieldsTake;
  }

  /** How many fields of a struct a blank interface gets: all up to the first that is a struct. */
  function Stop(ts: seq<Ty>, i: nat): (r: nat)
    requires i <= |ts|
    ensures i <= r <= |ts|
    decreases |ts| - i
  {
    if i == |ts| then i else if ts[i].TStruct? then i + 1 else Stop(ts, i + 1)
  }

  /** What comes out otherwise, when the fields themselves can be taken: the struct ends early,
      after the first field that is itself a struct. */
  lemma StructEndsEarly(d: Input, off: nat, sig: Signature, soff: nat, ts: seq<Ty>, v: Val)
    requires Good(TStruct(ts), v) && forall j :: 0 <= j < |ts| ==> Takes(TAny, ts[j], v.fields[j])
    requires |Marshalled(InPlace, d.order, off, TStruct(ts), v)| < WORD
    requires At(d.data, off, Marshalled(InPlace, d.order, off, TStruct(ts), v)) && At(sig, soff, SigOf(TStruct(ts)))
    ensures Decode(d, sig, TAny, off, soff).Ok?
    ensures Decode(d, sig, TAny, off, soff).value == VArray(ViewFields(TAny, v.fields)[..Stop(ts, 0)])
  {
    hide Pad, Elems, Entries, Fields, DecodeFields, SigsOf, ViewFields, Zeros, Proper, Takes, Storable, Stop;
    var at := off + Pad(off, 8);
    ZerosLength(Pad(off, 8));
    AtSplit(d.data, off, Zeros(Pad(off, 8)), Fields(InPlace, d.order, at, ts, v.fields, 0));
    AtHead(sig, soff, SigOf(TStruct(ts)));
    StructSignature(sig, soff, ts);
    StorableFields(v);
    EarlyFields(d, at, sig, soff + 1, ts, v.fields, 0);
    var all := ViewFields(TAny, v.fields);
    assert all[0..Stop(ts, 0)] == all[..Stop(ts, 0)];
  }

  lemma {:induction false} EarlyFields(d: Input, off: nat, sig: Signature, soff: nat, ts: seq<Ty>,
                                       vs: seq<Val>, i: nat)
    requires i <= |ts| && FieldsEncodable(ts, vs) && Proper(TStruct(ts))
    requires forall j :: 0 <= j < |ts| ==> Takes(TAny, ts[j], vs[j]) && Storable(vs[j])
    requires At(d.data, off, Fields(InPlace, d.order, off, ts, vs, i))
    requires |Fields(InPlace, d.order, off, ts, vs, i)| < WORD
    requires At(sig, soff, SigsOf(ts, i)) && soff + |SigsOf(ts, i)| < |sig| && sig[soff + |SigsOf(ts, i)|] == CLOSE
    ensures DecodeFields(d, sig, TAny, i, off, soff).Ok?
    ensures DecodeFields(d, sig, TAny, i, off, soff).value == ViewFields(TAny, vs)[i..Stop(ts, i)]
    decreases |ts| - i
  {
    hide Marshalled, Fields, HasType, VariantsOk, Supported, Storable, Decode, View, SigOf, SigsOf, Unclosed, Fits;
    hide Takes;
    hide DecodeFields, At, ViewFields, Proper;
    FieldsHead(InPlace, d.order, off, ts, vs, i);
    SigsHead(ts, i);
    var all := ViewFields(TAny, vs);
    if i < |ts| {
      var a := Marshalled(InPlace, d.order, off, ts[i], vs[i]);
      EarlyField(d, off, sig, soff, ts, vs, i);
      var s := Decode(d, sig, TAny, off, soff).soff;
      assert all[i..Stop(ts, i)] == [all[i]] + all[i + 1..Stop(ts, i)];
      if ts[i].TStruct? {
        FieldsStep(d, sig, TAny, i + 1, off + |a|, s);
        assert all[i + 1..i + 1] == [];
      } else {
        EarlyFields(d, off + |a|, sig, s, ts, vs, i + 1);
      }
      FieldsStep(d, sig, TAny, i, off, soff);
    } else {
      FieldsStep(d, sig, TAny, i, off, soff);
      assert all[i..i] == [];
    }
  }

  /** One field, and where the decoder stands after it. */
  lemma EarlyField(d: Input, off: nat, sig: Signature, soff: nat, ts: seq<Ty>, vs: seq<Val>, i: nat)
    requires i < |ts| && FieldsEncodable(ts, vs) && Proper(TStruct(ts)) && Takes(TAny, ts[i], vs[i]) && Storable(vs[i])
    requires At(d.data, off, Fields(InPlace, d.order, off, ts, vs, i))
    requires |Fields(InPlace, d.order, off, ts, vs, i)| < WORD && At(sig, soff, SigsOf(ts, i))
    ensures
      var a := Marshalled(InPlace, d.order, off, ts[i], vs[i]);
      var r := Decode(d, sig, TAny, off, soff);
      && soff < |sig| && sig[soff] != CLOSE && r.Ok? && r.value == ViewFields(TAny, vs)[i] && r.off == off + |a|
      && At(d.data, off + |a|, Fields(InPlace, d.order, off + |a|, ts, vs, i + 1))
      && (if ts[i].TStruct? then r.soff < |sig| && sig[r.soff] == CLOSE else r.soff == soff + |SigOf(ts[i])|)
      && At(sig, soff + |SigOf(ts[i])|, SigsOf(ts, i + 1))
  {
    hide Marshalled, Fields, HasType, VariantsOk, Storable, Decode, View, SigOf, SigsOf, Unclosed, Fits, Takes, At;
    FieldIsProper(ts, i);
    AnyFits(ts[i]);
    DecodeFieldWire(d, off, sig, soff, TAny, ts, vs, i);
    ClosesOnlyStructs(ts[i]);
    SigsHead(ts, i);
    AtSplit(sig, soff, SigOf(ts[i]), SigsOf(ts, i + 1));
    if ts[i].TStruct? { StructLeavesClose(sig, soff, ts[i]); }
  }

  // ---------------------------------------------------------------- Args

  /** From the i-th on, every target takes its argument, and only the last leaves parentheses. */
  ghost predicate ArgsTaken(ts: seq<Ty>, tys: seq<Ty>, vs: seq<Val>, i: nat)
    requires |ts| == |tys| == |vs|
  {
    forall j :: i <= j < |ts| ==> Takes(ts[j], tys[j], vs[j]) && (j < |ts| - 1 ==> Unclosed(ts[j], tys[j]) == 0)
  }

  /** Args on well-formed arguments and fitting targets gives their views if and only if the targets
      take them: the condition of the round trip is exact. */
  lemma {:induction false} ArgsExact(d: Input, off: nat, sig: Signature, soff: nat, ts: seq<Ty>, tys: seq<Ty>,
      vs: seq<Val>, i: nat)
    requires i <= |tys| == |ts| && GoodArgs(tys, vs)
    requires forall j :: 0 <= j < |tys| ==> Fits(ts[j], tys[j]) && DictsTake(vs[j])
    requires At(d.data, off, Fields(InPlace, d.order, off, tys, vs, i)) && At(sig, soff, SigsOf(tys, i))
    requires |Fields(InPlace, d.order, off, tys, vs, i)| < WORD
    ensures Comes(DecodeArgs(d, sig, ts, i, off, soff), ViewArgs(ts, vs)[i..]) <==> ArgsTaken(ts, tys, vs, i)
    decreases |tys| - i
  {
    hide Marshalled, Fields, HasType, VariantsOk, Supported, Storable, Decode, View, SigOf, SigsOf, Unclosed, Proper;
    hide Fits, Takes, At, DecodeArgs, ArgsTaken, ViewArgs, DictsTake;
    FieldsHead(InPlace, d.order, off, tys, vs, i);
    SigsHead(tys, i);
    ViewArgsHead(ts, vs, i);
    ArgsStep(d, sig, ts, i, off, soff);
    TakenHead(ts, tys, vs, i);
    if i < |tys| {
      var a := Marshalled(InPlace, d.order, off, tys[i], vs[i]);
      AtSplit(d.data, off, a, Fields(InPlace, d.order, off + |a|, tys, vs, i + 1));
      AtSplit(sig, soff, SigOf(tys[i]), SigsOf(tys, i + 1));
      var r := Decode(d, sig, ts[i], off, soff);
      if r.Ok? && DecodeArgs(d, sig, ts, i + 1, r.off, r.soff).Ok? {
        HeadsEqual(r.value, DecodeArgs(d, sig, ts, i + 1, r.off, r.soff).value,
          View(ts[i], vs[i]), ViewArgs(ts, vs)[i + 1..]);
      }
      if !Takes(ts[i], tys[i], vs[i]) {
        WrongView(d, off, sig, soff, ts[i], tys[i], vs[i]);
      } else {
        DecodeWire(d, off, sig, soff, ts[i], tys[i], vs[i]);
        if i == |tys| - 1 {
          TakenHead(ts, tys, vs, i + 1);
          ArgsStep(d, sig, ts, i + 1, r.off, r.soff);
          ViewArgsHead(ts, vs, i + 1);
        } else if Unclosed(ts[i], tys[i]) > 0 {
          LeavesClose(sig, soff, ts[i], tys[i]);
          StuckAtClose(d, sig, ts[i + 1], r.off, r.soff);
          ArgsStep(d, sig, ts, i + 1, r.off, r.soff);
        } else {
          ArgsExact(d, off + |a|, sig, soff + |SigOf(tys[i])|, ts, tys, vs, i + 1);
        }
      }
    }
  }

  lemma ViewArgsHead(ts: seq<Ty>, vs: seq<Val>, i: nat)
    requires i <= |ts| == |vs|
    ensures i < |vs| ==> ViewArgs(ts, vs)[i..] == [View(ts[i], vs[i])] + ViewArgs(ts, vs)[i + 1..]
    ensures i == |vs| ==> ViewArgs(ts, vs)[i..] == []
  {
    hide View;
  }

  lemma TakenHead(ts: seq<Ty>, tys: seq<Ty>, vs: seq<Val>, i: nat)
    requires i <= |ts| == |tys| == |vs|
    ensures i == |ts| ==> ArgsTaken(ts, tys, vs, i)
    ensures i < |ts| ==>
      (ArgsTaken(ts, tys, vs, i) <==>
         Takes(ts[i], tys[i], vs[i]) && (i < |ts| - 1 ==> Unclosed(ts[i], tys[i]) == 0)
         && ArgsTaken(ts, tys, vs, i + 1))
  {
    hide Takes, Unclosed;
  }

  // ---------------------------------------------------------------- AllArgs

  /** AllArgs on well-formed arguments gives all their views if and only if none of them is a
      struct and none has a struct in front of further codes reached in it. */
  lemma {:induction false} AllArgsExact(d: Input, off: nat, sig: Signature, soff: nat, tys: seq<Ty>,
      vs: seq<Val>, i: nat)
    requires i <= |tys| && GoodArgs(tys, vs) && forall j :: 0 <= j < |vs| ==> DictsTake(vs[j])
    requires At(d.data, off, Fields(InPlace, d.order, off, tys, vs, i)) && At(sig, soff, SigsOf(tys, i))
    requires soff + |SigsOf(tys, i)| == |sig| && |Fields(InPlace, d.order, off, tys, vs, i)| < WORD
    ensures
      Comes(DecodeAll(d, sig, off, soff), ViewFields(TAny, vs)[i..]) <==>
        forall j :: i <= j < |tys| ==> !tys[j].TStruct? && Takes(TAny, tys[j], vs[j])
    decreases |tys| - i
  {
    hide Marshalled, Fields, HasType, VariantsOk, Supported, Storable, Decode, View, SigOf, SigsOf, Unclosed, Proper;
    hide Fits, Takes, At, DecodeAll;
    FieldsHead(InPlace, d.order, off, tys, vs, i);
    SigsHead(tys, i);
    var all := ViewFields(TAny, vs);
    if i < |tys| {
      var a := Marshalled(InPlace, d.order, off, tys[i], vs[i]);
      AtSplit(d.data, off, a, Fields(InPlace, d.order, off + |a|, tys, vs, i + 1));
      AtSplit(sig, soff, SigOf(tys[i]), SigsOf(tys, i + 1));
      assert all[i..] == [all[i]] + all[i + 1..];
      if !Takes(TAny, tys[i], vs[i]) {
        AnyFits(tys[i]);
        DecodeExact(d, off, sig, soff, TAny, tys[i], vs[i]);
        FirstIsWrong(d, sig, off, soff, all, i);
      } else if tys[i].TStruct? {
        ArgStuck(d, off, sig, soff, tys[i], vs[i]);
      } else {
        ArgTaken(d, off, sig, soff, tys[i], vs[i]);
        AllArgsExact(d, off + |a|, sig, soff + |SigOf(tys[i])|, tys, vs, i + 1);
        FirstIsRight(d, sig, off, soff, all, i);
      }
    } else {
      NoMoreArgs(d, sig, off, soff);
      assert all[i..] == [];
    }
  }

  lemma NoMoreArgs(d: Input, sig: Signature, off: nat, soff: nat)
    requires soff == |sig|
    ensures DecodeAll(d, sig, off, soff) == Ok([], off, soff)
  {
  }

  /** A struct argument ends AllArgs at its closing parenthesis. */
  lemma ArgStuck(d: Input, off: nat, sig: Signature, soff: nat, ty: Ty, v: Val)
    requires Good(ty, v) && ty.TStruct? && Takes(TAny, ty, v) && |Marshalled(InPlace, d.order, off, ty, v)| < WORD
    requires At(d.data, off, Marshalled(InPlace, d.order, off, ty, v)) && At(sig, soff, SigOf(ty))
    requires soff < |sig|
    ensures DecodeAll(d, sig, off, soff).Err?
  {
    hide Marshalled, Decode, View, SigOf, Takes, Storable, VariantsOk, Unclosed, HasType;
    AnyFits(ty);
    DecodeWire(d, off, sig, soff, TAny, ty, v);
    StructLeavesClose(sig, soff, ty);
    var r := Decode(d, sig, TAny, off, soff);
    StuckAtClose(d, sig, TAny, r.off, r.soff);
  }

  lemma ArgTaken(d: Input, off: nat, sig: Signature, soff: nat, ty: Ty, v: Val)
    requires Good(ty, v) && !ty.TStruct? && Takes(TAny, ty, v) && |Marshalled(InPlace, d.order, off, ty, v)| < WORD
    requires At(d.data, off, Marshalled(InPlace, d.order, off, ty, v)) && At(sig, soff, SigOf(ty))
    ensures Decode(d, sig, TAny, off, soff)
         == Ok(View(TAny, v), off + |Marshalled(InPlace, d.order, off, ty, v)|, soff + |SigOf(ty)|)
  {
    hide Marshalled, Decode, View, SigOf, Takes, Storable, VariantsOk, Unclosed, HasType;
    AnyFits(ty);
    DecodeWire(d, off, sig, soff, TAny, ty, v);
    ClosesOnlyStructs(ty);
  }

  /** A first value that is right leaves the question to the others. */
  lemma FirstIsRight(d: Input, sig: Signature, off: nat, soff: nat, all: seq<Val>, i: nat)
    requires soff < |sig| && i < |all| && Decode(d, sig, TAny, off, soff).Ok?
    requires Decode(d, sig, TAny, off, soff).value == all[i]
    ensures
      var r := DecodeAll(d, sig, off, soff);
      var first := Decode(d, sig, TAny, off, soff);
      var rest := DecodeAll(d, sig, first.off, first.soff);
      (r.Ok? && r.value == all[i..]) <==> (rest.Ok? && rest.value == all[i + 1..])
  {
    hide Decode;
    assert all[i..] == [all[i]] + all[i + 1..];
    var first := Decode(d, sig, TAny, off, soff);
    var rest := DecodeAll(d, sig, first.off, first.soff);
    if rest.Ok? {
      assert ([all[i]] + rest.value)[1..] == rest.value && ([all[i]] + all[i + 1..])[1..] == all[i + 1..];
    }
  }

  /** A first value that is wrong leaves the list wrong. */
  lemma FirstIsWrong(d: Input, sig: Signature, off: nat, soff: nat, all: seq<Val>, i: nat)
    requires soff < |sig| && i < |all|
    requires var r := Decode(d, sig, TAny, off, soff); !(r.Ok? && r.value == all[i])
    ensures var r := DecodeAll(d, sig, off, soff); !(r.Ok? && r.value == all[i..])
  {
    hide Decode;
  }
}
