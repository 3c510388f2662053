/** What can be decoded stays what it is when the data and a valid signature get longer. */
module Stable {
  import opened Bytes
  import opened Types
  import opened Values
  import opened Unmarshal
  import opened RoundTrip

  function Longer(d: Input, more: seq<byte>): Input {
    Input(d.order, d.data + more)
  }

  // ---------------------------------------------------------------- signatures

  /** A complete type that ends by m starts at this code, or none does and nothing can be decoded. */
  ghost predicate Within(sig: Signature, p: nat, m: nat)
    requires p < |sig|
  {
    (NextType(sig, p).Some? && NextType(sig, p).value <= m) || sig[p] == CLOSE || sig[p] == CLOSEPAIR
  }

  /** Types nest: those that start inside a type end inside it. */
  lemma {:induction false} TypeNests(sig: Signature, off: nat)
    requires NextType(sig, off).Some?
    ensures forall p :: off <= p < NextType(sig, off).value ==> Within(sig, p, NextType(sig, off).value)
    decreases if off <= |sig| then |sig| - off else 0, 0
  {
    var n := NextType(sig, off).value;
    if sig[off] == ARRAY {
      TypeNests(sig, off + 1);
    } else if sig[off] == OPENPAIR {
      var m := NextType(sig, off + 1).value;
      TypeNests(sig, off + 1);
      Widen(sig, off + 1, m, m, n);
      TypeNests(sig, m);
      Widen(sig, m, n - 1, n - 1, n);
    } else if sig[off] == OPEN {
      FieldsNest(sig, off + 1);
      Widen(sig, off + 1, n - 1, n - 1, n);
    }
  }

  lemma Widen(sig: Signature, lo: nat, hi: nat, m: nat, n: nat)
    requires hi <= |sig| && m <= n && forall p :: lo <= p < hi ==> Within(sig, p, m)
    ensures forall p :: lo <= p < hi ==> Within(sig, p, n)
  {
    hide NextType;
    forall p | lo <= p < hi ensures Within(sig, p, n) { assert Within(sig, p, m); }
  }

  lemma {:induction false} FieldsNest(sig: Signature, next: nat)
    requires next <= |sig| && NextFields(sig, next).Some?
    ensures
      var m := NextFields(sig, next).value - 1;
      next <= m < |sig| && sig[m] == CLOSE && forall p :: next <= p < m ==> Within(sig, p, m)
    decreases |sig| - next, 1
  {
    if !(next < |sig| && sig[next] == CLOSE) {
      var n := NextType(sig, next).value;
      TypeNests(sig, next);
      FieldsNest(sig, n);
      Widen(sig, next, n, n, NextFields(sig, next).value - 1);
    }
  }

  lemma {:induction false} ValidNests(sig: Signature, off: nat)
    requires off <= |sig| && ValidFrom(sig, off)
    ensures forall p :: off <= p < |sig| ==> Within(sig, p, |sig|)
    decreases |sig| - off
  {
    if off < |sig| {
      var n := NextType(sig, off).value;
      TypeNests(sig, off);
      Widen(sig, off, n, n, |sig|);
      ValidNests(sig, n);
    }
  }

  lemma {:induction false} TypeStays(sig: Signature, rest: Signature, off: nat)
    requires NextType(sig, off).Some?
    ensures NextType(sig + rest, off) == NextType(sig, off)
    decreases if off <= |sig| then |sig| - off else 0, 0
  {
    if sig[off] == ARRAY {
      TypeStays(sig, rest, off + 1);
    } else if sig[off] == OPENPAIR {
      TypeStays(sig, rest, off + 1);
      TypeStays(sig, rest, NextType(sig, off + 1).value);
    } else if sig[off] == OPEN {
      FieldsStay(sig, rest, off + 1);
    }
  }

  lemma {:induction false} FieldsStay(sig: Signature, rest: Signature, next: nat)
    requires next <= |sig| && NextFields(sig, next).Some?
    ensures NextFields(sig + rest, next) == NextFields(sig, next)
    decreases |sig| - next, 1
  {
    if !(next < |sig| && sig[next] == CLOSE) {
      TypeStays(sig, rest, next);
      FieldsStay(sig, rest, NextType(sig, next).value);
    }
  }

  // ---------------------------------------------------------------- where decoding stops

  /** Decoding that starts at a complete type stops by its end, whatever the target. */
  lemma {:induction false} StopsInside(d: Input, sig: Signature, t: Ty, off: nat, soff: nat)
    requires NextType(sig, soff).Some?
    ensures
      var r := Decode(d, sig, t, off, soff);
      r.Ok? ==> r.soff <= NextType(sig, soff).value && (t == TAny && sig[soff] == OPEN ==> r.soff < |sig|)
    decreases DataLeft(d, off), SigLeft(sig, soff), 0
  {
    hide DecodeNum, DecodeBool, DecodeStr, DecodeVariant, DecodeFields, DecodeContent, ReadUint, Pad, EightCode, Within;
    if sig[soff] == OPEN {
      FieldsNest(sig, soff + 1);
      FieldsStopInside(d, sig, t, 0, off + Pad(off, 8), soff + 1, NextType(sig, soff).value - 1);
    }
  }

  lemma {:induction false} FieldsStopInside(d: Input, sig: Signature, t: Ty, i: nat, off: nat, soff: nat, m: nat)
    requires soff <= m < |sig| && sig[m] == CLOSE && forall p :: soff <= p < m ==> Within(sig, p, m)
    ensures
      var r := DecodeFields(d, sig, t, i, off, soff);
      r.Ok? ==> r.soff <= m
    decreases DataLeft(d, off), SigLeft(sig, soff), 1
  {
    hide Decode, DecodeFields, NextType, FieldTarget;
    FieldsStep(d, sig, t, i, off, soff);
    if FieldTarget(t, i) != None && sig[soff] != CLOSE {
      var f := FieldTarget(t, i).value;
      assert Within(sig, soff, m);
      var r := Decode(d, sig, f, off, soff);
      NoPairEnd(d, sig, f, off, soff);
      if r.Ok? {
        StopsInside(d, sig, f, off, soff);
        FieldsStopInside(d, sig, t, i + 1, r.off, r.soff, m);
      }
    }
  }

  lemma NoPairEnd(d: Input, sig: Signature, t: Ty, off: nat, soff: nat)
    ensures soff < |sig| && (sig[soff] == CLOSE || sig[soff] == CLOSEPAIR) ==> Decode(d, sig, t, off, soff).Err?
  {
    hide DecodeNum, DecodeBool, DecodeStr, DecodeArray, DecodeStruct, DecodeVariant;
  }

  /** A struct in a blank interface that the end of the signature cut off. */
  ghost predicate CutOff(sig: Signature, t: Ty, soff: nat, r: Outcome<Val>) {
    t == TAny && soff < |sig| && sig[soff] == OPEN && r.Ok? && r.soff == |sig|
  }

  lemma CompleteNotCutOff(d: Input, sig: Signature, t: Ty, off: nat, soff: nat)
    requires soff < |sig| && Within(sig, soff, |sig|)
    ensures !CutOff(sig, t, soff, Decode(d, sig, t, off, soff))
  {
    hide Decode, NextType;
    if NextType(sig, soff).Some? { StopsInside(d, sig, t, off, soff); }
  }

  // ---------------------------------------------------------------- reading more data

  lemma UintStays(d: Input, more: seq<byte>, w: Alignment, off: nat)
    requires ReadUint(d, w, off).Got?
    ensures ReadUint(Longer(d, more), w, off) == ReadUint(d, w, off)
  {
    hide Pad, GetUint, Pow256;
    var at := off + Pad(off, w);
    assert (d.data + more)[at..at + w] == d.data[at..at + w];
  }

  lemma TextStays(d: Input, more: seq<byte>, len: nat, off: nat)
    requires ReadText(d, len, off).Got?
    ensures ReadText(Longer(d, more), len, off) == ReadText(d, len, off)
  {
    assert (d.data + more)[off..off + len] == d.data[off..off + len];
  }

  lemma StringStays(d: Input, more: seq<byte>, off: nat)
    ensures ReadString(d, off).Got? ==> ReadString(Longer(d, more), off) == ReadString(d, off)
  {
    hide ReadUint, ReadText;
    var n := ReadUint(d, 4, off);
    if n.Got? {
      UintStays(d, more, 4, off);
      if ReadText(d, n.value, n.off).Got? { TextStays(d, more, n.value, n.off); }
    }
  }

  lemma SignatureStays(d: Input, more: seq<byte>, off: nat)
    ensures ReadSignature(d, off).Got? ==> ReadSignature(Longer(d, more), off) == ReadSignature(d, off)
  {
    hide ReadUint, ReadText;
    var n := ReadUint(d, 1, off);
    if n.Got? {
      UintStays(d, more, 1, off);
      if ReadText(d, n.value, n.off).Got? { TextStays(d, more, n.value, n.off); }
    }
  }

  /** Numbers, booleans and strings. */
  lemma BasicStays(d: Input, more: seq<byte>, t: Ty, off: nat, soff: nat)
    ensures forall k :: DecodeNum(d, k, t, off, soff).Ok? ==>
      DecodeNum(Longer(d, more), k, t, off, soff) == DecodeNum(d, k, t, off, soff)
    ensures DecodeBool(d, t, off, soff).Ok? ==> DecodeBool(Longer(d, more), t, off, soff) == DecodeBool(d, t, off, soff)
    ensures forall k :: DecodeStr(d, k, t, off, soff).Ok? ==>
      DecodeStr(Longer(d, more), k, t, off, soff) == DecodeStr(d, k, t, off, soff)
  {
    hide ReadUint, ReadString, ReadSignature, FromBits, Pow256;
    forall k | DecodeNum(d, k, t, off, soff).Ok?
      ensures DecodeNum(Longer(d, more), k, t, off, soff) == DecodeNum(d, k, t, off, soff)
    {
      UintStays(d, more, Width(k), off);
    }
    if DecodeBool(d, t, off, soff).Ok? { UintStays(d, more, 4, off); }
    StringStays(d, more, off);
    SignatureStays(d, more, off);
  }

  // ---------------------------------------------------------------- the theorem

  /** A successful decoding, of anything into anything and from any place of any signature, is the
      same with more data behind it, and with more codes unless it was cut off. */
  lemma {:induction false} DecodeStays(d: Input, more: seq<byte>, sig: Signature, rest: Signature, t: Ty,
      off: nat, soff: nat)
    requires Decode(d, sig, t, off, soff).Ok? && (rest == [] || !CutOff(sig, t, soff, Decode(d, sig, t, off, soff)))
    ensures Decode(Longer(d, more), sig + rest, t, off, soff) == Decode(d, sig, t, off, soff)
    decreases DataLeft(d, off), SigLeft(sig, soff), 0
  {
    hide DecodeNum, DecodeBool, DecodeStr, DecodeArray, DecodeStruct, DecodeVariant, NumOf, StrOf;
    assert (sig + rest)[soff] == sig[soff];
    BasicStays(d, more, t, off, soff + 1);
    if DecodeArray(d, sig, t, off, soff + 1).Ok? { ArrayStays(d, more, sig, rest, t, off, soff + 1); }
    IsStruct(d, sig, t, off, soff);
    if sig[soff] == OPEN && DecodeStruct(d, sig, t, off, soff + 1).Ok? {
      StructStays(d, more, sig, rest, t, off, soff + 1);
    }
    if DecodeVariant(d, t, off, soff + 1).Ok? { VariantStays(d, more, t, off, soff + 1); }
  }

  lemma IsStruct(d: Input, sig: Signature, t: Ty, off: nat, soff: nat)
    requires soff < |sig|
    ensures sig[soff] == OPEN ==> Decode(d, sig, t, off, soff) == DecodeStruct(d, sig, t, off, soff + 1)
  {
    hide DecodeNum, DecodeBool, DecodeStr, DecodeArray, DecodeStruct, DecodeVariant;
  }

  lemma {:induction false} ArrayStays(d: Input, more: seq<byte>, sig: Signature, rest: Signature, t: Ty,
      off: nat, soff: nat)
    requires DecodeArray(d, sig, t, off, soff).Ok?
    ensures DecodeArray(Longer(d, more), sig + rest, t, off, soff) == DecodeArray(d, sig, t, off, soff)
    decreases DataLeft(d, off), SigLeft(sig, soff), 2
  {
    hide ReadUint, NextType, DecodeContent, EightCode, Pad;
    var r := ReadUint(d, 4, off);
    UintStays(d, more, 4, off);
    TypeStays(sig, rest, soff);
    var start := r.off + if EightCode(sig[soff]) then Pad(r.off, 8) else 0;
    ContentStays(d, more, sig, rest, t, soff, start, start + r.value);
  }

  lemma {:induction false} ContentStays(d: Input, more: seq<byte>, sig: Signature, rest: Signature, t: Ty,
      soff: nat, start: nat, end: nat)
    requires NextType(sig, soff).Some? && start <= end <= |d.data|
    requires DecodeContent(d, sig, t, soff, NextType(sig, soff).value, start, end).Ok?
    ensures DecodeContent(Longer(d, more), sig + rest, t, soff, NextType(sig, soff).value, start, end)
         == DecodeContent(d, sig, t, soff, NextType(sig, soff).value, start, end)
    decreases DataLeft(d, start), SigLeft(sig, soff), 2
  {
    hide DecodeElems, DecodeEntries, NextType;
    assert (sig + rest)[soff] == sig[soff];
    if t.TDict? || (t == TAny && sig[soff] == OPENPAIR) {
      EntriesStay(d, more, sig, rest, t, soff, start, end, []);
    } else if t.TArray? || t == TAny {
      ElemsStay(d, more, sig, rest, if t.TArray? then t.elem else TAny, soff, start, end);
    }
  }

  lemma {:induction false} ElemsStay(d: Input, more: seq<byte>, sig: Signature, rest: Signature, e: Ty,
      soff: nat, off: nat, end: nat)
    requires NextType(sig, soff).Some? && end <= |d.data| && DecodeElems(d, sig, e, soff, off, end).Ok?
    ensures DecodeElems(Longer(d, more), sig + rest, e, soff, off, end) == DecodeElems(d, sig, e, soff, off, end)
    decreases DataLeft(d, off), SigLeft(sig, soff), 1
  {
    hide Decode, NextType;
    if off < end {
      StopsInside(d, sig, e, off, soff);
      DecodeStays(d, more, sig, rest, e, off, soff);
      ElemsStay(d, more, sig, rest, e, soff, Decode(d, sig, e, off, soff).off, end);
    }
  }

  lemma {:induction false} EntriesStay(d: Input, more: seq<byte>, sig: Signature, rest: Signature, t: Ty,
      soff: nat, off: nat, end: nat, acc: seq<Entry>)
    requires NextType(sig, soff).Some? && sig[soff] == OPENPAIR && end <= |d.data|
    requires DecodeEntries(d, sig, t, soff, off, end, acc).Ok?
    ensures DecodeEntries(Longer(d, more), sig + rest, t, soff, off, end, acc)
         == DecodeEntries(d, sig, t, soff, off, end, acc)
    decreases DataLeft(d, off), SigLeft(sig, soff), 1
  {
    hide DecodeEntry, Insert, Hashable, NextType;
    if off < end {
      EntryStays(d, more, sig, rest, t, soff, off);
      var e := DecodeEntry(d, sig, t, soff, off);
      EntriesStay(d, more, sig, rest, t, soff, e.off, end, Insert(acc, e.value.key, e.value.value));
    }
  }

  lemma {:induction false} EntryStays(d: Input, more: seq<byte>, sig: Signature, rest: Signature, t: Ty,
      soff: nat, off: nat)
    requires NextType(sig, soff).Some? && sig[soff] == OPENPAIR && DecodeEntry(d, sig, t, soff, off).Ok?
    ensures DecodeEntry(Longer(d, more), sig + rest, t, soff, off) == DecodeEntry(d, sig, t, soff, off)
    decreases DataLeft(d, off), SigLeft(sig, soff), 0
  {
    hide Decode, Pad, NextType, Within, CutOff;
    var at := off + Pad(off, 8);
    PairNests(sig, soff);
    StopsInside(d, sig, KeyTarget(t), at, soff + 1);
    CompleteNotCutOff(d, sig, KeyTarget(t), at, soff + 1);
    DecodeStays(d, more, sig, rest, KeyTarget(t), at, soff + 1);
    var k := Decode(d, sig, KeyTarget(t), at, soff + 1);
    var p := if t.TDict? then k.soff else soff + 2;
    CompleteNotCutOff(d, sig, ValueTarget(t), k.off, p);
    DecodeStays(d, more, sig, rest, ValueTarget(t), k.off, p);
  }

  /** The key and whatever is between it and the brace are inside the entry. */
  lemma PairNests(sig: Signature, soff: nat)
    requires NextType(sig, soff).Some? && sig[soff] == OPENPAIR
    ensures NextType(sig, soff + 1).Some?
    ensures soff + 1 < NextType(sig, soff + 1).value < NextType(sig, soff).value <= |sig|
    ensures forall p :: soff < p <= NextType(sig, soff + 1).value ==> Within(sig, p, |sig|)
  {
    TypeNests(sig, soff);
    Widen(sig, soff, NextType(sig, soff).value, NextType(sig, soff).value, |sig|);
  }

  lemma {:induction false} StructStays(d: Input, more: seq<byte>, sig: Signature, rest: Signature, t: Ty,
      off: nat, soff: nat)
    requires DecodeStruct(d, sig, t, off, soff).Ok?
    requires rest == [] || t != TAny || DecodeStruct(d, sig, t, off, soff).soff < |sig|
    ensures DecodeStruct(Longer(d, more), sig + rest, t, off, soff) == DecodeStruct(d, sig, t, off, soff)
    decreases DataLeft(d, off), SigLeft(sig, soff), 2
  {
    hide DecodeFields, Pad;
    FieldsStayed(d, more, sig, rest, t, 0, off + Pad(off, 8), soff);
  }

  lemma {:induction false} FieldsStayed(d: Input, more: seq<byte>, sig: Signature, rest: Signature, t: Ty,
      i: nat, off: nat, soff: nat)
    requires
      var r := DecodeFields(d, sig, t, i, off, soff);
      r.Ok? && (rest == [] || r.soff < |sig|)
    ensures DecodeFields(Longer(d, more), sig + rest, t, i, off, soff) == DecodeFields(d, sig, t, i, off, soff)
    decreases DataLeft(d, off), SigLeft(sig, soff), 1
  {
    hide Decode, DecodeFields, FieldTarget;
    FieldsStep(d, sig, t, i, off, soff);
    FieldsStep(Longer(d, more), sig + rest, t, i, off, soff);
    if FieldTarget(t, i) != None && soff < |sig| && sig[soff] != CLOSE {
      var f := FieldTarget(t, i).value;
      var r := Decode(d, sig, f, off, soff);
      DecodeStays(d, more, sig, rest, f, off, soff);
      FieldsStayed(d, more, sig, rest, t, i + 1, r.off, r.soff);
    }
  }

  lemma {:induction false} VariantStays(d: Input, more: seq<byte>, t: Ty, off: nat, soff: nat)
    requires DecodeVariant(d, t, off, soff).Ok?
    ensures DecodeVariant(Longer(d, more), t, off, soff) == DecodeVariant(d, t, off, soff)
    decreases DataLeft(d, off), 0, 2
  {
    hide Decode, ReadSignature;
    SignatureStays(d, more, off);
    var s := ReadSignature(d, off);
    DecodeStays(d, more, s.value, [], TAny, s.off, 0);
    assert s.value + [] == s.value;
  }

  /** The arguments that can be read under a valid signature can be read, and are the same, when
      anything follows. */
  lemma {:induction false} ArgsStay(d: Input, more: seq<byte>, sig: Signature, rest: Signature, ts: seq<Ty>,
      i: nat, off: nat, soff: nat)
    requires ValidFrom(sig, 0) && i <= |ts| && DecodeArgs(d, sig, ts, i, off, soff).Ok?
    ensures DecodeArgs(Longer(d, more), sig + rest, ts, i, off, soff) == DecodeArgs(d, sig, ts, i, off, soff)
    decreases |ts| - i
  {
    hide Decode, ValidFrom, NextType, Within, CutOff;
    if i < |ts| {
      ValidNests(sig, 0);
      StartsInside(d, sig, ts[i], off, soff);
      CompleteNotCutOff(d, sig, ts[i], off, soff);
      DecodeStays(d, more, sig, rest, ts[i], off, soff);
      var r := Decode(d, sig, ts[i], off, soff);
      ArgsStay(d, more, sig, rest, ts, i + 1, r.off, r.soff);
    }
  }

  lemma StartsInside(d: Input, sig: Signature, t: Ty, off: nat, soff: nat)
    ensures Decode(d, sig, t, off, soff).Ok? ==> soff < |sig|
  {
  }

  // ---------------------------------------------------------------- and exactly when

  /** Enough data for one more byte. */
  function OneMore(d: Input, off: nat): seq<byte> {
    Zeros(if off < |d.data| then 0 else off + 1 - |d.data|)
  }

  /** A struct that was cut off grows by a field when the signature does. */
  lemma {:induction false} CutOffGrows(d: Input, sig: Signature, off: nat, soff: nat)
    requires CutOff(sig, TAny, soff, Decode(d, sig, TAny, off, soff))
    ensures
      var r := Decode(d, sig, TAny, off, soff);
      var more := Decode(Longer(d, OneMore(d, r.off)), sig + [NumCode(U8)], TAny, off, soff);
      more.Ok? && more.soff == |sig| + 1
    decreases DataLeft(d, off), SigLeft(sig, soff), 0
  {
    hide DecodeFields, OneMore, Pad;
    assert (sig + [NumCode(U8)])[soff] == OPEN;
    FieldsGrow(d, sig, 0, off + Pad(off, 8), soff + 1);
  }

  lemma {:induction false} FieldsGrow(d: Input, sig: Signature, i: nat, off: nat, soff: nat)
    requires soff <= |sig|
    requires
      var r := DecodeFields(d, sig, TAny, i, off, soff);
      r.Ok? && r.soff == |sig|
    ensures
      var r := DecodeFields(d, sig, TAny, i, off, soff);
      var more := DecodeFields(Longer(d, OneMore(d, r.off)), sig + [NumCode(U8)], TAny, i, off, soff);
      more.Ok? && more.soff == |sig| + 1
    decreases DataLeft(d, off), SigLeft(sig, soff), 1
  {
    hide Decode, DecodeFields, OneMore;
    var rest := [NumCode(U8)];
    var more := OneMore(d, DecodeFields(d, sig, TAny, i, off, soff).off);
    var e := Longer(d, more);
    FieldsStep(d, sig, TAny, i, off, soff);
    FieldsStep(e, sig + rest, TAny, i, off, soff);
    if soff == |sig| {
      LastOctet(d, sig, off);
      FieldsStep(e, sig + rest, TAny, i + 1, off + 1, soff + 1);
    } else {
      var r := Decode(d, sig, TAny, off, soff);
      if CutOff(sig, TAny, soff, r) {
        FieldsStep(d, sig, TAny, i + 1, r.off, r.soff);
        CutOffGrows(d, sig, off, soff);
        var s := Decode(e, sig + rest, TAny, off, soff);
        FieldsStep(e, sig + rest, TAny, i + 1, s.off, s.soff);
      } else {
        DecodeStays(d, more, sig, rest, TAny, off, soff);
        FieldsGrow(d, sig, i + 1, r.off, r.soff);
      }
    }
  }

  lemma LastOctet(d: Input, sig: Signature, off: nat)
    ensures
      var r := Decode(Longer(d, OneMore(d, off)), sig + [NumCode(U8)], TAny, off, |sig|);
      r.Ok? && r.off == off + 1 && r.soff == |sig| + 1
  {
    hide Decode;
    ZerosLength(|OneMore(d, off)|);
    Octet(Longer(d, OneMore(d, off)), sig + [NumCode(U8)], off, |sig|);
  }

  lemma Octet(d: Input, sig: Signature, off: nat, soff: nat)
    requires off < |d.data| && soff < |sig| && sig[soff] == NumCode(U8)
    ensures Decode(d, sig, TAny, off, soff) == Ok(VNum(U8, d.data[off]), off + 1, soff + 1)
  {
    hide ReadUint;
    AtOne(d.data, off);
    ReadOctet(d, off, d.data[off]);
  }

  /** For every success: it is the same whatever follows if and only if it was not cut off. */
  lemma StaysExactly(d: Input, sig: Signature, t: Ty, off: nat, soff: nat)
    requires Decode(d, sig, t, off, soff).Ok?
    ensures
      (forall more: seq<byte>, rest: Signature ::
        Decode(Longer(d, more), sig + rest, t, off, soff) == Decode(d, sig, t, off, soff))
      <==> !CutOff(sig, t, soff, Decode(d, sig, t, off, soff))
  {
    hide Decode;
    if CutOff(sig, t, soff, Decode(d, sig, t, off, soff)) {
      CutOffGrows(d, sig, off, soff);
      var more := OneMore(d, Decode(d, sig, t, off, soff).off);
      assert Decode(Longer(d, more), sig + [NumCode(U8)], t, off, soff) != Decode(d, sig, t, off, soff);
    } else {
      forall more: seq<byte>, rest: Signature
        ensures Decode(Longer(d, more), sig + rest, t, off, soff) == Decode(d, sig, t, off, soff)
      {
        DecodeStays(d, more, sig, rest, t, off, soff);
      }
    }
  }

  /** For instance the struct "(y" of the one byte 7, with another y and another byte. */
  lemma UnfinishedStructGrows()
    ensures
      var d, sig := Input(Little, [7]), [OPEN, NumCode(U8)];
      && !ValidFrom(sig, 0) && CutOff(sig, TAny, 0, Decode(d, sig, TAny, 0, 0))
      && Decode(d, sig, TAny, 0, 0) == Ok(VArray([VNum(U8, 7)]), 1, 2)
      && Decode(Longer(d, [8]), sig + [NumCode(U8)], TAny, 0, 0) == Ok(VArray([VNum(U8, 7), VNum(U8, 8)]), 2, 3)
  {
    hide Decode, DecodeFields, DecodeStruct, NextType;
    var d, sig := Input(Little, [7]), [OPEN, NumCode(U8)];
    var e, all := Longer(d, [8]), sig + [NumCode(U8)];
    assert e.data == [7, 8] && all == [OPEN, NumCode(U8), NumCode(U8)];
    Octet(d, sig, 0, 1);
    FieldsStep(d, sig, TAny, 0, 0, 1);
    FieldsStep(d, sig, TAny, 1, 1, 2);
    Opened(d, sig);
    Octet(e, all, 0, 1);
    Octet(e, all, 1, 2);
    FieldsStep(e, all, TAny, 0, 0, 1);
    FieldsStep(e, all, TAny, 1, 1, 2);
    FieldsStep(e, all, TAny, 2, 2, 3);
    Opened(e, all);
    NotClosed();
    var x, y := VNum(U8, 7), VNum(U8, 8);
    assert DecodeFields(d, sig, TAny, 0, 0, 1) == Ok([x] + [], 1, 2) && [x] + [] == [x];
    assert DecodeFields(e, all, TAny, 0, 0, 1) == Ok([x] + ([y] + []), 2, 3) && [x] + ([y] + []) == [x, y];
  }

  lemma NotClosed()
    ensures NextType([OPEN, NumCode(U8)], 0) == None
  {
    var sig := [OPEN, NumCode(U8)];
    assert NextType(sig, 1) == Some(2) && NextFields(sig, 2) == None;
    assert NextFields(sig, 1) == None;
  }

  lemma Opened(d: Input, sig: Signature)
    requires sig != [] && sig[0] == OPEN && DecodeFields(d, sig, TAny, 0, 0, 1).Ok?
    ensures
      var r := DecodeFields(d, sig, TAny, 0, 0, 1);
      Decode(d, sig, TAny, 0, 0) == Ok(VArray(r.value), r.off, r.soff)
  {
    hide DecodeFields;
  }
}
