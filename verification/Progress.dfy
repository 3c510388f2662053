/** The decoder on arbitrary bytes: when its loops end, when it consumes something, and when it
    stays inside the data. */
module Progress {
  import opened Bytes
  import opened Types
  import opened Values
  import opened Marshal
  import opened Unmarshal
  import opened RoundTrip
  import opened Stable

  // ---------------------------------------------------------------- the signatures that are read

  /** The variant signatures that decoding reads from the data, before it succeeds or fails. */
  ghost function SigsRead(d: Input, sig: Signature, t: Ty, off: nat, soff: nat): set<Signature>
    decreases DataLeft(d, off), SigLeft(sig, soff), 0
  {
    if |sig| <= soff then {}
    else if sig[soff] == ARRAY then ArraySigs(d, sig, t, off, soff + 1)
    else if sig[soff] == OPEN then FieldsSigs(d, sig, t, 0, off + Pad(off, 8), soff + 1)
    else if sig[soff] == VARIANT then VariantSigs(d, t, off)
    else {}
  }

  ghost function ArraySigs(d: Input, sig: Signature, t: Ty, off: nat, soff: nat): set<Signature>
    decreases DataLeft(d, off), SigLeft(sig, soff), 2
  {
    var r := ReadUint(d, 4, off);
    if r.Overrun? || NextType(sig, soff).None? then {}
    else
      var start := r.off + if EightCode(sig[soff]) then Pad(r.off, 8) else 0;
      if |d.data| < start + r.value || (t.TDict? && sig[soff] != OPENPAIR) then {}
      else if t.TDict? || (t == TAny && sig[soff] == OPENPAIR) then EntriesSigs(d, sig, t, soff, start, start + r.value)
      else if t.TArray? || t == TAny then ElemsSigs(d, sig, ElemTarget(t), soff, start, start + r.value)
      else {}
  }

  ghost function ElemsSigs(d: Input, sig: Signature, e: Ty, soff: nat, off: nat, end: nat): set<Signature>
    requires end <= |d.data|
    decreases DataLeft(d, off), SigLeft(sig, soff), 1
  {
    if off >= end then {}
    else
      var r := Decode(d, sig, e, off, soff);
      SigsRead(d, sig, e, off, soff) + if r.Ok? && r.off > off then ElemsSigs(d, sig, e, soff, r.off, end) else {}
  }

  ghost function EntriesSigs(d: Input, sig: Signature, t: Ty, soff: nat, off: nat, end: nat): set<Signature>
    requires end <= |d.data| && soff < |sig|
    decreases DataLeft(d, off), SigLeft(sig, soff), 1
  {
    if off >= end then {}
    else
      var r := DecodeEntry(d, sig, t, soff, off);
      EntrySigs(d, sig, t, soff, off) + if r.Ok? && r.off > off then EntriesSigs(d, sig, t, soff, r.off, end) else {}
  }

  ghost function EntrySigs(d: Input, sig: Signature, t: Ty, soff: nat, off: nat): set<Signature>
    requires soff < |sig|
    decreases DataLeft(d, off), SigLeft(sig, soff), 0
  {
    var k := Decode(d, sig, KeyTarget(t), off + Pad(off, 8), soff + 1);
    SigsRead(d, sig, KeyTarget(t), off + Pad(off, 8), soff + 1)
      + if k.Ok? then SigsRead(d, sig, ValueTarget(t), k.off, if t.TDict? then k.soff else soff + 2) else {}
  }

  ghost function FieldsSigs(d: Input, sig: Signature, t: Ty, i: nat, off: nat, soff: nat): set<Signature>
    decreases DataLeft(d, off), SigLeft(sig, soff), 1
  {
    if FieldTarget(t, i) != None && soff < |sig| && sig[soff] != CLOSE then
      var r := Decode(d, sig, FieldTarget(t, i).value, off, soff);
      SigsRead(d, sig, FieldTarget(t, i).value, off, soff)
        + if r.Ok? then FieldsSigs(d, sig, t, i + 1, r.off, r.soff) else {}
    else {}
  }

  ghost function VariantSigs(d: Input, t: Ty, off: nat): set<Signature>
    decreases DataLeft(d, off), 0, 2
  {
    var r := ReadSignature(d, off);
    if (t != TVariant && t != TAny) || r.Overrun? then {} else {r.value} + SigsRead(d, r.value, TAny, r.off, 0)
  }

  // ---------------------------------------------------------------- empty structs in signatures

  /** Structs that open at soff and close, or are cut off, with nothing in between. */
  ghost predicate Void(sig: Signature, soff: nat)
    decreases SigLeft(sig, soff)
  {
    soff < |sig| && sig[soff] == OPEN && (soff + 1 == |sig| || sig[soff + 1] == CLOSE || Void(sig, soff + 1))
  }

  /** The key of an entry may take no bytes, and so may its value, wherever inside or after the key
      the target makes the decoder look for it. */
  ghost predicate VoidEntry(sig: Signature, soff: nat) {
    && NextType(sig, soff + 1).Some? && Void(sig, soff + 1)
    && exists p :: soff + 1 < p <= NextType(sig, soff + 1).value && Void(sig, p)
  }

  /** An array or dict whose elements or entries may take no bytes. */
  ghost predicate Loopy(sig: Signature) {
    exists i :: 0 <= i < |sig| && LoopyAt(sig, i)
  }

  ghost predicate LoopyAt(sig: Signature, i: nat)
    requires i < |sig|
  {
    || (sig[i] == ARRAY && NextType(sig, i + 1).Some? && Void(sig, i + 1))
    || (sig[i] == OPENPAIR && VoidEntry(sig, i))
  }

  /** An opening parenthesis with nothing inside: an empty struct, or one cut off at the end. */
  ghost predicate Hollow(sig: Signature) {
    exists i :: 0 <= i < |sig| && sig[i] == OPEN && (i + 1 == |sig| || sig[i + 1] == CLOSE)
  }

  lemma {:induction false} VoidIsHollow(sig: Signature, soff: nat)
    requires Void(sig, soff)
    ensures Hollow(sig)
    decreases SigLeft(sig, soff)
  {
    if soff + 1 < |sig| && sig[soff + 1] != CLOSE { VoidIsHollow(sig, soff + 1); }
  }

  lemma NotHollow(sig: Signature)
    requires !Hollow(sig)
    ensures !Loopy(sig) && forall soff: nat :: !Void(sig, soff)
  {
    forall soff: nat ensures !Void(sig, soff) {
      if Void(sig, soff) { VoidIsHollow(sig, soff); }
    }
  }

  /** None of the signatures makes a loop run forever; if `tight`, none has an empty struct. */
  ghost predicate Calm(sigs: set<Signature>, tight: bool) {
    forall s :: s in sigs ==> !Loopy(s) && (tight ==> !Hollow(s))
  }

  /** No endless loop; on success a byte is consumed if `moves`, and if `tight` the end is inside
      the data. */
  ghost predicate Sound<T>(d: Input, off: nat, tight: bool, moves: bool, r: Outcome<T>) {
    && r != Err(NoProgress)
    && (r.Ok? ==> off <= r.off && (moves ==> off < r.off) && (tight ==> off < r.off <= |d.data|))
  }

  lemma {:induction false} DecodeSound(d: Input, sig: Signature, t: Ty, off: nat, soff: nat, tight: bool)
    requires Calm({sig}, tight) && Calm(SigsRead(d, sig, t, off, soff), tight)
    ensures Sound(d, off, tight, !Void(sig, soff), Decode(d, sig, t, off, soff))
    decreases DataLeft(d, off), SigLeft(sig, soff), 0
  {
    hide Calm, ReadUint, ReadString, ReadSignature, DecodeNum, DecodeBool, DecodeStr, DecodeArray, Loopy, Hollow;
    hide DecodeStruct, DecodeVariant, ArraySigs, FieldsSigs, VariantSigs, Void;
    if soff < |sig| {
      var c := sig[soff];
      if NumOf(c) != None {
        BasicSound(d, NumOf(c).value, Str, t, off, soff + 1, tight, !Void(sig, soff));
      } else if c == BOOLEAN {
        BasicSound(d, U8, Str, t, off, soff + 1, tight, !Void(sig, soff));
      } else if StrOf(c) != None {
        BasicSound(d, U8, StrOf(c).value, t, off, soff + 1, tight, !Void(sig, soff));
      } else if c == ARRAY {
        ArraySound(d, sig, t, off, soff + 1, tight);
      } else if c == OPEN {
        StructSound(d, sig, t, off, soff + 1, tight);
      } else if c == VARIANT {
        VariantSound(d, t, off, soff + 1, tight, !Void(sig, soff));
      }
    }
  }

  lemma BasicSound(d: Input, k: Num, s: StrKind, t: Ty, off: nat, soff: nat, tight: bool, moves: bool)
    ensures Sound(d, off, tight, moves, DecodeNum(d, k, t, off, soff))
    ensures Sound(d, off, tight, moves, DecodeBool(d, t, off, soff))
    ensures Sound(d, off, tight, moves, DecodeStr(d, s, t, off, soff))
  {
    hide ReadUint, ReadString, ReadSignature, FromBits, Modulus;
  }

  lemma CalmOne(sig: Signature, tight: bool, soff: nat)
    requires Calm({sig}, tight) && soff < |sig|
    ensures sig[soff] == ARRAY && NextType(sig, soff + 1).Some? ==> !Void(sig, soff + 1)
    ensures sig[soff] == OPENPAIR ==> !VoidEntry(sig, soff)
  {
    hide Void, NextType, VoidEntry;
    assert sig in {sig};
    assert !LoopyAt(sig, soff);
  }

  lemma CalmParts(a: set<Signature>, b: set<Signature>, tight: bool)
    requires Calm(a + b, tight)
    ensures Calm(a, tight) && Calm(b, tight)
  {
    hide Loopy, Hollow;
  }

  lemma {:induction false} ArraySound(d: Input, sig: Signature, t: Ty, off: nat, soff: nat, tight: bool)
    requires 0 < soff <= |sig| && sig[soff - 1] == ARRAY
    requires Calm({sig}, tight) && Calm(ArraySigs(d, sig, t, off, soff), tight)
    ensures Sound(d, off, tight, true, DecodeArray(d, sig, t, off, soff))
    decreases DataLeft(d, off), SigLeft(sig, soff), 2
  {
    hide Calm, ReadUint, NextType, DecodeElems, DecodeEntries, ElemsSigs, EntriesSigs, Pad, EightCode, Void, VoidEntry;
    var r, n := ReadUint(d, 4, off), NextType(sig, soff);
    if r.Got? && n.Some? {
      var start := r.off + if EightCode(sig[soff]) then Pad(r.off, 8) else 0;
      var end := start + r.value;
      if end <= |d.data| && !(t.TDict? && sig[soff] != OPENPAIR) {
        if t.TDict? || (t == TAny && sig[soff] == OPENPAIR) {
          PairParts(sig, soff);
          CalmOne(sig, tight, soff);
          EntriesSound(d, sig, t, soff, start, end, [], tight);
        } else if t.TArray? || t == TAny {
          CalmOne(sig, tight, soff - 1);
          ElemsSound(d, sig, ElemTarget(t), soff, start, end, tight);
        }
      }
    }
  }

  lemma PairParts(sig: Signature, soff: nat)
    requires soff < |sig| && sig[soff] == OPENPAIR && NextType(sig, soff).Some?
    ensures NextType(sig, soff + 1).Some?
  {
  }

  lemma {:induction false} ElemsSound(d: Input, sig: Signature, e: Ty, soff: nat, off: nat, end: nat, tight: bool)
    requires off <= end <= |d.data| && !Void(sig, soff)
    requires Calm({sig}, tight) && Calm(ElemsSigs(d, sig, e, soff, off, end), tight)
    ensures DecodeElems(d, sig, e, soff, off, end) != Err(NoProgress)
    ensures DecodeElems(d, sig, e, soff, off, end).Ok? && tight ==>
      DecodeElems(d, sig, e, soff, off, end).off <= |d.data|
    decreases DataLeft(d, off), SigLeft(sig, soff), 1
  {
    hide Calm, Decode, SigsRead, Void;
    if off < end {
      var r := Decode(d, sig, e, off, soff);
      var rest := if r.Ok? && r.off > off then ElemsSigs(d, sig, e, soff, r.off, end) else {};
      CalmParts(SigsRead(d, sig, e, off, soff), rest, tight);
      DecodeSound(d, sig, e, off, soff, tight);
      if r.Ok? && r.off <= end { ElemsSound(d, sig, e, soff, r.off, end, tight); }
    }
  }

  lemma {:induction false} EntriesSound(d: Input, sig: Signature, t: Ty, soff: nat, off: nat, end: nat,
                                        acc: seq<Entry>, tight: bool)
    requires off <= end <= |d.data| && soff < |sig| && NextType(sig, soff + 1).Some? && !VoidEntry(sig, soff)
    requires Calm({sig}, tight) && Calm(EntriesSigs(d, sig, t, soff, off, end), tight)
    ensures DecodeEntries(d, sig, t, soff, off, end, acc) != Err(NoProgress)
    ensures DecodeEntries(d, sig, t, soff, off, end, acc).Ok? && tight ==>
      DecodeEntries(d, sig, t, soff, off, end, acc).off <= |d.data|
    decreases DataLeft(d, off), SigLeft(sig, soff), 1
  {
    hide Calm, DecodeEntry, EntrySigs, Insert, NextType, VoidEntry;
    if off < end {
      var r := DecodeEntry(d, sig, t, soff, off);
      var rest := if r.Ok? && r.off > off then EntriesSigs(d, sig, t, soff, r.off, end) else {};
      CalmParts(EntrySigs(d, sig, t, soff, off), rest, tight);
      EntrySound(d, sig, t, soff, off, tight);
      if r.Ok? && r.off <= end && Hashable(r.value.key) {
        EntriesSound(d, sig, t, soff, r.off, end, Insert(acc, r.value.key, r.value.value), tight);
      }
    }
  }

  lemma {:induction false} EntrySound(d: Input, sig: Signature, t: Ty, soff: nat, off: nat, tight: bool)
    requires soff < |sig| && NextType(sig, soff + 1).Some? && !VoidEntry(sig, soff)
    requires Calm({sig}, tight) && Calm(EntrySigs(d, sig, t, soff, off), tight)
    ensures Sound(d, off, tight, true, DecodeEntry(d, sig, t, soff, off))
    decreases DataLeft(d, off), SigLeft(sig, soff), 0
  {
    hide Calm, Decode, SigsRead, Pad, Void, NextType;
    var at := off + Pad(off, 8);
    var k := Decode(d, sig, KeyTarget(t), at, soff + 1);
    var vsoff := if k.Ok? && t.TDict? then k.soff else soff + 2;
    var rest := if k.Ok? then SigsRead(d, sig, ValueTarget(t), k.off, vsoff) else {};
    CalmParts(SigsRead(d, sig, KeyTarget(t), at, soff + 1), rest, tight);
    DecodeSound(d, sig, KeyTarget(t), at, soff + 1, tight);
    if k.Ok? {
      StopsInside(d, sig, KeyTarget(t), at, soff + 1);
      DecodeSound(d, sig, ValueTarget(t), k.off, vsoff, tight);
      assert Void(sig, soff + 1) ==> !Void(sig, vsoff);
    }
  }

  lemma {:induction false} StructSound(d: Input, sig: Signature, t: Ty, off: nat, soff: nat, tight: bool)
    requires 0 < soff <= |sig| && sig[soff - 1] == OPEN
    requires Calm({sig}, tight) && Calm(FieldsSigs(d, sig, t, 0, off + Pad(off, 8), soff), tight)
    ensures Sound(d, off, tight, !Void(sig, soff - 1), DecodeStruct(d, sig, t, off, soff))
    decreases DataLeft(d, off), SigLeft(sig, soff), 2
  {
    hide Pad, DecodeFields, FieldsSigs, Calm;
    TightIsNotVoid(sig, soff - 1, tight);
    FieldsSound(d, sig, t, 0, off + Pad(off, 8), soff, tight);
    if FieldTarget(t, 0) == None { NoFields(d, sig, t, off + Pad(off, 8), soff); }
  }

  lemma TightIsNotVoid(sig: Signature, soff: nat, tight: bool)
    requires Calm({sig}, tight)
    ensures tight ==> !Void(sig, soff)
  {
    assert sig in {sig};
    if tight { NotHollow(sig); }
  }

  lemma NoFields(d: Input, sig: Signature, t: Ty, off: nat, soff: nat)
    requires FieldTarget(t, 0) == None
    ensures DecodeFields(d, sig, t, 0, off, soff) == Ok([], off, soff)
  {
  }

  lemma {:induction false} FieldsSound(d: Input, sig: Signature, t: Ty, i: nat, off: nat, soff: nat, tight: bool)
    requires Calm({sig}, tight) && Calm(FieldsSigs(d, sig, t, i, off, soff), tight)
    ensures
      var r := DecodeFields(d, sig, t, i, off, soff);
      var some := FieldTarget(t, i) != None && soff < |sig| && sig[soff] != CLOSE;
      && r != Err(NoProgress)
      && (r.Ok? && some && !Void(sig, soff) ==> off < r.off)
      && (r.Ok? && tight ==> if some then off < r.off <= |d.data| else r.off == off)
    decreases DataLeft(d, off), SigLeft(sig, soff), 1
  {
    hide Calm, Decode, SigsRead, Void;
    if FieldTarget(t, i) != None && soff < |sig| && sig[soff] != CLOSE {
      var f := FieldTarget(t, i).value;
      var r := Decode(d, sig, f, off, soff);
      CalmParts(SigsRead(d, sig, f, off, soff),
        if r.Ok? then FieldsSigs(d, sig, t, i + 1, r.off, r.soff) else {}, tight);
      DecodeSound(d, sig, f, off, soff, tight);
      if r.Ok? { FieldsSound(d, sig, t, i + 1, r.off, r.soff, tight); }
    }
  }

  lemma {:induction false} VariantSound(d: Input, t: Ty, off: nat, soff: nat, tight: bool, moves: bool)
    requires Calm(VariantSigs(d, t, off), tight)
    ensures Sound(d, off, tight, moves, DecodeVariant(d, t, off, soff))
    decreases DataLeft(d, off), 0, 2
  {
    hide Calm, Decode, ReadSignature, SigsRead, Void;
    var r := ReadSignature(d, off);
    if r.Got? && (t == TVariant || t == TAny) {
      CalmParts({r.value}, SigsRead(d, r.value, TAny, r.off, 0), tight);
      DecodeSound(d, r.value, TAny, r.off, 0, tight);
    }
  }

  // ---------------------------------------------------------------- what that comes to

  ghost predicate Advances<T>(d: Input, off: nat, r: Outcome<T>) {
    r != Err(NoProgress) && (r.Ok? ==> off < r.off <= |d.data|)
  }

  /** For any bytes, signature and target: if neither the signature nor any variant signature that
      is read has an empty struct, no loop runs forever, and a success consumes at least a byte and
      ends inside the data. */
  lemma DecodeAdvances(d: Input, sig: Signature, t: Ty, off: nat, soff: nat)
    requires forall s :: s in {sig} + SigsRead(d, sig, t, off, soff) ==> !Hollow(s)
    ensures Advances(d, off, Decode(d, sig, t, off, soff))
  {
    hide Hollow, Loopy, SigsRead, Decode;
    forall s | s in {sig} + SigsRead(d, sig, t, off, soff) ensures !Loopy(s) { NotHollow(s); }
    CalmParts({sig}, SigsRead(d, sig, t, off, soff), true);
    DecodeSound(d, sig, t, off, soff, true);
  }

  /** With empty structs elsewhere, still no loop runs forever, and only a type that begins with
      nothing but empty structs consumes nothing. */
  lemma DecodeEnds(d: Input, sig: Signature, t: Ty, off: nat, soff: nat)
    requires forall s :: s in {sig} + SigsRead(d, sig, t, off, soff) ==> !Loopy(s)
    ensures Decode(d, sig, t, off, soff) != Err(NoProgress)
    ensures Decode(d, sig, t, off, soff).Ok? && !Void(sig, soff) ==> off < Decode(d, sig, t, off, soff).off
  {
    hide Hollow, Loopy, SigsRead, Decode, Void;
    CalmParts({sig}, SigsRead(d, sig, t, off, soff), false);
    DecodeSound(d, sig, t, off, soff, false);
  }

  /** The condition is needed: an array of void elements, decoded into a blank interface, runs
      forever whatever the data, unless its length is 0. */
  lemma VoidElementsLoop(d: Input, sig: Signature, off: nat, soff: nat, len: nat)
    requires soff < |sig| && sig[soff] == ARRAY && NextType(sig, soff + 1).Some? && Void(sig, soff + 1)
    requires ReadUint(d, 4, off) == Got(len, off + Pad(off, 4) + 4)
    requires ContentStart(off + Pad(off, 4), 8) + len <= |d.data|
    ensures Decode(d, sig, TAny, off, soff) == Err(NoProgress) <==> len > 0
  {
    hide ReadUint, Pad, DecodeFields, NextType, Void;
    var start := ContentStart(off + Pad(off, 4), 8);
    VoidOpens(sig, soff + 1);
    ArrayUnfold(d, sig, TAny, off, soff + 1, len, off + Pad(off, 4) + 4);
    VoidStays(d, sig, start, soff + 1);
  }

  lemma VoidOpens(sig: Signature, soff: nat)
    requires Void(sig, soff)
    ensures soff < |sig| && sig[soff] == OPEN
  {
  }

  lemma {:induction false} VoidStays(d: Input, sig: Signature, off: nat, soff: nat)
    requires Void(sig, soff) && Multiple(8, off)
    ensures Decode(d, sig, TAny, off, soff).Ok? && Decode(d, sig, TAny, off, soff).off == off
    ensures var s := Decode(d, sig, TAny, off, soff).soff; s == |sig| || sig[s] == CLOSE
    decreases SigLeft(sig, soff)
  {
    hide DecodeFields, Multiple;
    assert Pad(off, 8) == 0;
    if soff + 1 == |sig| || sig[soff + 1] == CLOSE {
      NoMoreFields(d, sig, TAny, 0, off, soff + 1);
    } else {
      VoidStays(d, sig, off, soff + 1);
      var s := Decode(d, sig, TAny, off, soff + 1).soff;
      NoMoreFields(d, sig, TAny, 1, off, s);
      FieldsStep(d, sig, TAny, 0, off, soff + 1);
    }
    assert DecodeStruct(d, sig, TAny, off, soff + 1).Ok?;
  }

  /** A dict of structs to anything never runs forever in a blank interface: its first key is a
      slice, which is no key, and reading it panics. */
  lemma StructKeysPanic(d: Input, sig: Signature, off: nat, soff: nat, len: nat)
    requires soff + 2 < |sig| && sig[soff] == ARRAY && sig[soff + 1] == OPENPAIR && sig[soff + 2] == OPEN
    requires NextType(sig, soff + 1).Some? && ReadUint(d, 4, off) == Got(len, off + Pad(off, 4) + 4)
    requires ContentStart(off + Pad(off, 4), 8) + len <= |d.data|
    ensures
      var k := Decode(d, sig, TAny, ContentStart(off + Pad(off, 4), 8), soff + 2);
      var r := Decode(d, sig, TAny, off, soff);
      if len == 0 then r.Ok?
      else if k.Err? then r == Err(k.error)
      else
        var x := Decode(d, sig, TAny, k.off, soff + 3);
        r == Err(if x.Err? then x.error else UnhashableKey)
  {
    hide ReadUint, Pad, Decode, DecodeArray, DecodeEntry, NextType;
    var start := ContentStart(off + Pad(off, 4), 8);
    IsArray(d, sig, TAny, off, soff);
    ArrayUnfold(d, sig, TAny, off, soff + 1, len, off + Pad(off, 4) + 4);
    SliceKey(d, sig, start, soff + 1);
  }

  lemma IsArray(d: Input, sig: Signature, t: Ty, off: nat, soff: nat)
    requires soff < |sig| && sig[soff] == ARRAY
    ensures Decode(d, sig, t, off, soff) == DecodeArray(d, sig, t, off, soff + 1)
  {
    hide DecodeArray;
  }

  lemma SliceKey(d: Input, sig: Signature, off: nat, soff: nat)
    requires soff + 1 < |sig| && sig[soff + 1] == OPEN && Multiple(8, off)
    ensures
      var k := Decode(d, sig, TAny, off, soff + 1);
      var e := DecodeEntry(d, sig, TAny, soff, off);
      if k.Err? then e == Err(k.error)
      else
        var x := Decode(d, sig, TAny, k.off, soff + 2);
        if x.Err? then e == Err(x.error) else e.Ok? && !Hashable(e.value.key)
  {
    hide Multiple, Decode;
    assert Pad(off, 8) == 0;
    IsStruct(d, sig, TAny, off, soff + 1);
    SliceStruct(d, sig, off, soff + 2);
  }

  lemma SliceStruct(d: Input, sig: Signature, off: nat, soff: nat)
    ensures var r := DecodeStruct(d, sig, TAny, off, soff); r.Ok? ==> r.value.VArray?
  {
    hide DecodeFields;
  }

  lemma NoMoreFields(d: Input, sig: Signature, t: Ty, i: nat, off: nat, soff: nat)
    requires soff >= |sig| || sig[soff] == CLOSE
    ensures DecodeFields(d, sig, t, i, off, soff) == Ok([], off, soff)
  {
  }
}
