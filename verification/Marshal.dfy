/** The bytes of a value, in the encoder's own layout and in the layout of the D-Bus
    specification, and when the two are the same. */
module Marshal {
  import opened Bytes
  import opened Types
  import opened Values

  /** Where the contents of arrays and dicts are laid out: in a separate buffer that starts
      at offset 0 and is then copied in (what encoder.go does), or directly at their final
      position (what the D-Bus specification, section "Marshaling (Wire Format)", asks for). */
  datatype Placement = Separate | InPlace

  function Base(p: Placement, start: nat): nat {
    if p == Separate then 0 else start
  }

  /** What appendValue adds to a buffer that already holds `off` bytes. */
  ghost function Marshalled(p: Placement, o: Order, off: nat, ty: Ty, v: Val): seq<byte>
    requires Encodable(ty, v)
    decreases v, 1
  {
    Zeros(Pad(off, AlignOf(ty))) + Body(p, o, off + Pad(off, AlignOf(ty)), ty, v)
  }

  /** A signature value: one length octet, the text, a NUL. */
  function SigBytes(s: Signature): (r: seq<byte>)
    ensures |r| == |s| + 2
  {
    [|s| % 256] + s + [0]
  }

  function StrBytes(o: Order, s: seq<byte>): (r: seq<byte>)
    ensures |r| == |s| + 5
  {
    PutUint(o, 4, |s|) + s + [0]
  }

  /** Length word, padding to the element alignment, contents. */
  function ArrayBytes(o: Order, at: nat, a: Alignment, content: seq<byte>): (r: seq<byte>)
    ensures |r| == 4 + Pad(at + 4, a) + |content|
  {
    PutUint(o, 4, |content|) + Zeros(Pad(at + 4, a)) + content
  }

  function ContentStart(at: nat, a: Alignment): nat {
    at + 4 + Pad(at + 4, a)
  }

  ghost function Body(p: Placement, o: Order, at: nat, ty: Ty, v: Val): seq<byte>
    requires Encodable(ty, v)
    decreases v, 0
  {
    match ty
    case TNum(k) => PutUint(o, Width(k), ToBits(k, v.n))
    case TBool => PutUint(o, 4, if v.flag then 1 else 0)
    case TStr(k) => if k == Sig then SigBytes(v.text) else StrBytes(o, v.text)
    case TVariant =>
      var s := SigBytes(SigOf(v.ty));
      s + Marshalled(p, o, at + |s|, v.ty, v.val)
    case TArray(e) =>
      ArrayBytes(o, at, AlignOf(e), Elems(p, o, Base(p, ContentStart(at, AlignOf(e))), e, v.elems, 0))
    case TDict(k, x) =>
      ArrayBytes(o, at, 8, Entries(p, o, Base(p, ContentStart(at, 8)), k, x, v.entries, 0))
    case TStruct(ts) => Fields(p, o, at, ts, v.fields, 0)
  }

  ghost predicate AllEncodable(ty: Ty, vs: seq<Val>) {
    Supported(ty) && forall i :: 0 <= i < |vs| ==> HasType(vs[i], ty) && VariantsOk(vs[i])
  }

  ghost function Elems(p: Placement, o: Order, off: nat, ty: Ty, vs: seq<Val>, i: nat): seq<byte>
    requires i <= |vs| && AllEncodable(ty, vs)
    decreases vs, |vs| - i
  {
    if i == |vs| then [] else
      var a := Marshalled(p, o, off, ty, vs[i]);
      a + Elems(p, o, off + |a|, ty, vs, i + 1)
  }

  ghost predicate EntriesEncodable(k: Ty, x: Ty, es: seq<Entry>) {
    && Supported(k) && Supported(x)
    && forall i :: 0 <= i < |es| ==>
         && HasType(es[i].key, k) && VariantsOk(es[i].key)
         && HasType(es[i].value, x) && VariantsOk(es[i].value)
  }

  ghost function EntryBytes(p: Placement, o: Order, off: nat, k: Ty, x: Ty, e: Entry): seq<byte>
    requires Encodable(k, e.key) && Encodable(x, e.value)
    decreases e
  {
    var z := Zeros(Pad(off, 8));
    var a := Marshalled(p, o, off + |z|, k, e.key);
    z + a + Marshalled(p, o, off + |z| + |a|, x, e.value)
  }

  ghost function Entries(p: Placement, o: Order, off: nat, k: Ty, x: Ty, es: seq<Entry>, i: nat): seq<byte>
    requires i <= |es| && EntriesEncodable(k, x, es)
    decreases es, |es| - i
  {
    if i == |es| then [] else
      var a := EntryBytes(p, o, off, k, x, es[i]);
      a + Entries(p, o, off + |a|, k, x, es, i + 1)
  }

  ghost predicate FieldsEncodable(ts: seq<Ty>, vs: seq<Val>) {
    && |vs| == |ts|
    && forall i :: 0 <= i < |ts| ==> Supported(ts[i]) && HasType(vs[i], ts[i]) && VariantsOk(vs[i])
  }

  /** Values of several types in a row: the fields of a struct, the arguments of a message. */
  ghost function Fields(p: Placement, o: Order, off: nat, ts: seq<Ty>, vs: seq<Val>, i: nat): seq<byte>
    requires i <= |ts| && FieldsEncodable(ts, vs)
    decreases vs, |ts| - i
  {
    if i == |ts| then [] else
      var a := Marshalled(p, o, off, ts[i], vs[i]);
      a + Fields(p, o, off + |a|, ts, vs, i + 1)
  }

  lemma ElemsHead(p: Placement, o: Order, x: nat, e: Ty, vs: seq<Val>, i: nat)
    requires i <= |vs| && AllEncodable(e, vs)
    ensures i < |vs| ==>
      var a := Marshalled(p, o, x, e, vs[i]);
      Elems(p, o, x, e, vs, i) == a + Elems(p, o, x + |a|, e, vs, i + 1)
    ensures i == |vs| ==> Elems(p, o, x, e, vs, i) == []
  {
    hide Marshalled;
  }

  lemma EntriesHead(p: Placement, o: Order, off: nat, k: Ty, x: Ty, es: seq<Entry>, i: nat)
    requires i <= |es| && EntriesEncodable(k, x, es)
    ensures i < |es| ==>
      var a := EntryBytes(p, o, off, k, x, es[i]);
      Entries(p, o, off, k, x, es, i) == a + Entries(p, o, off + |a|, k, x, es, i + 1)
    ensures i == |es| ==> Entries(p, o, off, k, x, es, i) == []
  {
    hide EntryBytes;
  }

  lemma FieldsHead(p: Placement, o: Order, off: nat, ts: seq<Ty>, vs: seq<Val>, i: nat)
    requires i <= |ts| && FieldsEncodable(ts, vs)
    ensures i < |ts| ==>
      var a := Marshalled(p, o, off, ts[i], vs[i]);
      Fields(p, o, off, ts, vs, i) == a + Fields(p, o, off + |a|, ts, vs, i + 1)
    ensures i == |ts| ==> Fields(p, o, off, ts, vs, i) == []
  {
    hide Marshalled;
  }

  // ---------------------------------------------------------------- relocation

  function Max(a: Alignment, b: Alignment): Alignment {
    if a < b then b else a
  }

  /** The largest alignment used anywhere inside a value, variant payloads included. */
  ghost function MaxAlign(ty: Ty, v: Val): (a: Alignment)
    requires HasType(v, ty)
    ensures a >= AlignOf(ty)
    decreases v
  {
    match ty
    case TVariant => MaxAlign(v.ty, v.val)
    case TArray(e) => Max(4, Max(AlignOf(e), MaxOver(e, v.elems, 0)))
    case TDict(_, _) => 8
    case _ => AlignOf(ty)
  }

  ghost function MaxOver(ty: Ty, vs: seq<Val>, i: nat): Alignment
    requires i <= |vs| && forall j :: 0 <= j < |vs| ==> HasType(vs[j], ty)
    decreases vs, |vs| - i
  {
    if i == |vs| then 1 else Max(MaxAlign(ty, vs[i]), MaxOver(ty, vs, i + 1))
  }

  /** A value has the same bytes at any two offsets that agree modulo its largest alignment. */
  lemma {:induction false} Relocation(p: Placement, o: Order, x: nat, y: nat, ty: Ty, v: Val)
    requires Encodable(ty, v) && Congruent(MaxAlign(ty, v), x, y)
    ensures Marshalled(p, o, x, ty, v) == Marshalled(p, o, y, ty, v)
    decreases v, 2
  {
    hide Multiple, Pad, Body, Elems, Entries, Fields, HasType, VariantsOk, MaxAlign, MaxOver;
    CongruentWeaken(MaxAlign(ty, v), AlignOf(ty), x, y);
    CongruentPad(AlignOf(ty), x, y);
    BodyRelocation(p, o, x + Pad(x, AlignOf(ty)), y + Pad(y, AlignOf(ty)), ty, v);
  }

  lemma {:induction false} BodyRelocation(p: Placement, o: Order, x: nat, y: nat, ty: Ty, v: Val)
    requires Encodable(ty, v) && Congruent(MaxAlign(ty, v), x, y)
    ensures Body(p, o, x, ty, v) == Body(p, o, y, ty, v)
    decreases v, 1
  {
    hide Multiple, Elems, Entries, Fields, PutUint, StrBytes, SigBytes, SigOf, MaxOver;
    match ty
    case TVariant =>
      Relocation(p, o, x + |SigBytes(SigOf(v.ty))|, y + |SigBytes(SigOf(v.ty))|, v.ty, v.val);
    case TArray(e) =>
      ArrayRelocation(p, o, x, y, e, v);
    case TDict(k, t) =>
      DictRelocation(p, o, x, y, k, t, v);
    case TStruct(ts) =>
      FieldsRelocation(p, o, x, y, ts, v.fields, 0);
    case _ =>
  }

  lemma {:induction false} DictRelocation(p: Placement, o: Order, x: nat, y: nat, k: Ty, t: Ty, v: Val)
    requires Encodable(TDict(k, t), v) && Congruent(8, x, y)
    ensures Body(p, o, x, TDict(k, t), v) == Body(p, o, y, TDict(k, t), v)
    decreases v, 0
  {
    hide Multiple, Elems, Entries, Fields;
    CongruentPad(8, x + 4, y + 4);
    AlignedCongruent(8, ContentStart(x, 8), ContentStart(y, 8));
    CongruentSelf(8, 0);
    EntriesRelocation(p, o, Base(p, ContentStart(x, 8)), Base(p, ContentStart(y, 8)), k, t, v.entries, 0);
  }

  lemma {:induction false} ArrayRelocation(p: Placement, o: Order, x: nat, y: nat, e: Ty, v: Val)
    requires Encodable(TArray(e), v) && Congruent(MaxAlign(TArray(e), v), x, y)
    ensures Body(p, o, x, TArray(e), v) == Body(p, o, y, TArray(e), v)
    decreases v, 0
  {
    hide Multiple, Elems, Entries, Fields;
    var m := MaxOver(e, v.elems, 0);
    CongruentWeaken(MaxAlign(TArray(e), v), AlignOf(e), x, y);
    CongruentPad(AlignOf(e), x + 4, y + 4);
    CongruentWeaken(MaxAlign(TArray(e), v), m, x, y);
    var s, t := ContentStart(x, AlignOf(e)), ContentStart(y, AlignOf(e));
    assert s as int - t == x as int - y;
    CongruentSelf(m, 0);
    ElemsRelocation(p, o, Base(p, s), Base(p, t), e, v.elems, 0);
  }

  lemma {:induction false} ElemsRelocation(p: Placement, o: Order, x: nat, y: nat, ty: Ty, vs: seq<Val>, i: nat)
    requires i <= |vs| && AllEncodable(ty, vs) && Congruent(MaxOver(ty, vs, i), x, y)
    ensures Elems(p, o, x, ty, vs, i) == Elems(p, o, y, ty, vs, i)
    decreases vs, |vs| - i
  {
    hide Congruent, Pad, Marshalled, Elems, HasType, VariantsOk, Supported, MaxAlign;
    ElemsHead(p, o, x, ty, vs, i);
    ElemsHead(p, o, y, ty, vs, i);
    if i < |vs| {
      var m := MaxOver(ty, vs, i);
      CongruentWeaken(m, MaxAlign(ty, vs[i]), x, y);
      Relocation(p, o, x, y, ty, vs[i]);
      var n := |Marshalled(p, o, x, ty, vs[i])|;
      CongruentWeaken(m, MaxOver(ty, vs, i + 1), x, y);
      CongruentShift(MaxOver(ty, vs, i + 1), x, y, n);
      ElemsRelocation(p, o, x + n, y + n, ty, vs, i + 1);
    }
  }

  lemma {:induction false} EntriesRelocation(p: Placement, o: Order, x: nat, y: nat, k: Ty, t: Ty,
      es: seq<Entry>, i: nat)
    requires i <= |es| && EntriesEncodable(k, t, es) && Congruent(8, x, y)
    ensures Entries(p, o, x, k, t, es, i) == Entries(p, o, y, k, t, es, i)
    decreases es, |es| - i
  {
    hide Congruent, Pad, Marshalled, Body, Elems, Fields, EntryBytes, HasType, VariantsOk, Entries;
    EntriesHead(p, o, x, k, t, es, i);
    EntriesHead(p, o, y, k, t, es, i);
    if i < |es| {
      EntryRelocation(p, o, x, y, k, t, es[i]);
      var n := |EntryBytes(p, o, x, k, t, es[i])|;
      CongruentShift(8, x, y, n);
      EntriesRelocation(p, o, x + n, y + n, k, t, es, i + 1);
    }
  }

  lemma {:induction false} EntryRelocation(p: Placement, o: Order, x: nat, y: nat, k: Ty, t: Ty, e: Entry)
    requires Encodable(k, e.key) && Encodable(t, e.value) && Congruent(8, x, y)
    ensures EntryBytes(p, o, x, k, t, e) == EntryBytes(p, o, y, k, t, e)
    decreases e
  {
    hide Congruent, Pad, Marshalled, Body, Elems, Entries, Fields, HasType, VariantsOk, MaxAlign, Zeros;
    CongruentPad(8, x, y);
    var z := Pad(x, 8);
    ZerosLength(z);
    CongruentShift(8, x, y, z);
    CongruentWeaken(8, MaxAlign(k, e.key), x + z, y + z);
    Relocation(p, o, x + z, y + z, k, e.key);
    var n := |Marshalled(p, o, x + z, k, e.key)|;
    CongruentShift(8, x + z, y + z, n);
    CongruentWeaken(8, MaxAlign(t, e.value), x + z + n, y + z + n);
    Relocation(p, o, x + z + n, y + z + n, t, e.value);
  }

  lemma {:induction false} FieldsRelocation(p: Placement, o: Order, x: nat, y: nat, ts: seq<Ty>, vs: seq<Val>, i: nat)
    requires i <= |ts| && FieldsEncodable(ts, vs) && Congruent(8, x, y)
    ensures Fields(p, o, x, ts, vs, i) == Fields(p, o, y, ts, vs, i)
    decreases vs, |ts| - i
  {
    hide Congruent, Pad, Marshalled, Body, Elems, Entries, HasType, VariantsOk, MaxAlign;
    if i < |ts| {
      CongruentWeaken(8, MaxAlign(ts[i], vs[i]), x, y);
      Relocation(p, o, x, y, ts[i], vs[i]);
      var n := |Marshalled(p, o, x, ts[i], vs[i])|;
      CongruentShift(8, x, y, n);
      FieldsRelocation(p, o, x + n, y + n, ts, vs, i + 1);
    }
  }

  // ---------------------------------------------------------------- the two layouts agree

  /** No array inside the value whose elements start below alignment 8 but contain something
      of alignment 8. Independent of where the value is put. */
  ghost predicate Relocatable(ty: Ty, v: Val)
    requires HasType(v, ty)
    decreases v
  {
    match ty
    case TVariant => Relocatable(v.ty, v.val)
    case TArray(e) =>
      && (AlignOf(e) == 8 || MaxOver(e, v.elems, 0) <= 4)
      && forall i :: 0 <= i < |v.elems| ==> Relocatable(e, v.elems[i])
    case TDict(k, x) =>
      forall i :: 0 <= i < |v.entries| ==> Relocatable(k, v.entries[i].key) && Relocatable(x, v.entries[i].value)
    case TStruct(ts) => forall i :: 0 <= i < |ts| ==> Relocatable(ts[i], v.fields[i])
    case _ => true
  }

  /** The contents of a relocatable array are copied to a position its elements cannot tell from 0. */
  lemma ArrayStart(at: nat, e: Ty, v: Val)
    requires HasType(v, TArray(e)) && Relocatable(TArray(e), v) && Multiple(4, at)
    ensures Congruent(MaxOver(e, v.elems, 0), 0, ContentStart(at, AlignOf(e)))
  {
    hide Congruent, Pad, MaxOver;
    var m, start := MaxOver(e, v.elems, 0), ContentStart(at, AlignOf(e));
    if AlignOf(e) == 8 {
      AlignedCongruent(8, 0, start);
      CongruentWeaken(8, m, 0, start);
    } else {
      FourAligned(at);
      CongruentWeaken(4, AlignOf(e), 0, at + 4);
      CongruentAligned(AlignOf(e), 0, at + 4);
      assert start == at + 4;
      CongruentWeaken(4, m, 0, start);
    }
  }

  lemma FourAligned(at: nat)
    requires Multiple(4, at)
    ensures Congruent(4, 0, at + 4)
  {
    AlignedCongruent(4, 0, at + 4);
  }

  /** On relocatable values the encoder's separate buffers produce exactly the wire format. */
  lemma {:induction false} SeparateIsInPlace(o: Order, off: nat, ty: Ty, v: Val)
    requires Encodable(ty, v) && Relocatable(ty, v)
    ensures Marshalled(Separate, o, off, ty, v) == Marshalled(InPlace, o, off, ty, v)
    decreases v, 1
  {
    hide Multiple, Pad, Elems, Entries, Fields, MaxOver, SigOf, StrBytes, PutUint, SigBytes;
    var at := off + Pad(off, AlignOf(ty));
    match ty
    case TVariant =>
      SeparateIsInPlace(o, at + |SigBytes(SigOf(v.ty))|, v.ty, v.val);
    case TArray(e) => ArraySeparateIsInPlace(o, at, e, v);
    case TDict(k, t) => DictSeparateIsInPlace(o, at, k, t, v);
    case TStruct(ts) =>
      FieldsSeparateIsInPlace(o, at, ts, v.fields, 0);
    case _ =>
  }

  lemma {:induction false} ArraySeparateIsInPlace(o: Order, at: nat, e: Ty, v: Val)
    requires Encodable(TArray(e), v) && Relocatable(TArray(e), v) && Multiple(4, at)
    ensures Body(Separate, o, at, TArray(e), v) == Body(InPlace, o, at, TArray(e), v)
    decreases v, 0
  {
    hide Pad, Elems, MaxOver, Multiple;
    ElemsSeparateIsInPlace(o, 0, e, v.elems, 0);
    ArrayStart(at, e, v);
    ElemsRelocation(InPlace, o, 0, ContentStart(at, AlignOf(e)), e, v.elems, 0);
  }

  lemma {:induction false} DictSeparateIsInPlace(o: Order, at: nat, k: Ty, t: Ty, v: Val)
    requires Encodable(TDict(k, t), v) && Relocatable(TDict(k, t), v)
    ensures Body(Separate, o, at, TDict(k, t), v) == Body(InPlace, o, at, TDict(k, t), v)
    decreases v, 0
  {
    hide Multiple, Pad, Entries;
    EntriesSeparateIsInPlace(o, 0, k, t, v.entries, 0);
    AlignedCongruent(8, 0, ContentStart(at, 8));
    EntriesRelocation(InPlace, o, 0, ContentStart(at, 8), k, t, v.entries, 0);
  }

  lemma {:induction false} ElemsSeparateIsInPlace(o: Order, off: nat, ty: Ty, vs: seq<Val>, i: nat)
    requires i <= |vs| && AllEncodable(ty, vs)
    requires forall j :: 0 <= j < |vs| ==> Relocatable(ty, vs[j])
    ensures Elems(Separate, o, off, ty, vs, i) == Elems(InPlace, o, off, ty, vs, i)
    decreases vs, |vs| - i
  {
    hide Marshalled, Elems, HasType, VariantsOk, Supported, Relocatable;
    ElemsHead(Separate, o, off, ty, vs, i);
    ElemsHead(InPlace, o, off, ty, vs, i);
    if i < |vs| {
      SeparateIsInPlace(o, off, ty, vs[i]);
      ElemsSeparateIsInPlace(o, off + |Marshalled(InPlace, o, off, ty, vs[i])|, ty, vs, i + 1);
    }
  }

  lemma {:induction false} EntrySeparateIsInPlace(o: Order, off: nat, k: Ty, t: Ty, e: Entry)
    requires Encodable(k, e.key) && Encodable(t, e.value) && Relocatable(k, e.key) && Relocatable(t, e.value)
    ensures EntryBytes(Separate, o, off, k, t, e) == EntryBytes(InPlace, o, off, k, t, e)
    decreases e
  {
    hide Multiple, Pad, Marshalled, Body, Elems, Entries, Fields, HasType, VariantsOk, Relocatable;
    var z := |Zeros(Pad(off, 8))|;
    SeparateIsInPlace(o, off + z, k, e.key);
    SeparateIsInPlace(o, off + z + |Marshalled(InPlace, o, off + z, k, e.key)|, t, e.value);
  }

  lemma {:induction false} EntriesSeparateIsInPlace(o: Order, off: nat, k: Ty, t: Ty, es: seq<Entry>, i: nat)
    requires i <= |es| && EntriesEncodable(k, t, es)
    requires forall j :: 0 <= j < |es| ==> Relocatable(k, es[j].key) && Relocatable(t, es[j].value)
    ensures Entries(Separate, o, off, k, t, es, i) == Entries(InPlace, o, off, k, t, es, i)
    decreases es, |es| - i
  {
    hide Multiple, Pad, Marshalled, Body, Elems, Fields, HasType, VariantsOk, Relocatable, EntryBytes, Entries;
    EntriesHead(Separate, o, off, k, t, es, i);
    EntriesHead(InPlace, o, off, k, t, es, i);
    if i < |es| {
      EntrySeparateIsInPlace(o, off, k, t, es[i]);
      EntriesSeparateIsInPlace(o, off + |EntryBytes(InPlace, o, off, k, t, es[i])|, k, t, es, i + 1);
    }
  }

  lemma {:induction false} FieldsSeparateIsInPlace(o: Order, off: nat, ts: seq<Ty>, vs: seq<Val>, i: nat)
    requires i <= |ts| && FieldsEncodable(ts, vs)
    requires forall j :: 0 <= j < |ts| ==> Relocatable(ts[j], vs[j])
    ensures Fields(Separate, o, off, ts, vs, i) == Fields(InPlace, o, off, ts, vs, i)
    decreases vs, |ts| - i
  {
    hide Multiple, Pad, Marshalled, Body, Elems, Entries, HasType, VariantsOk, Relocatable;
    if i < |ts| {
      SeparateIsInPlace(o, off, ts[i], vs[i]);
      FieldsSeparateIsInPlace(o, off + |Marshalled(InPlace, o, off, ts[i], vs[i])|, ts, vs, i + 1);
    }
  }

  // ---------------------------------------------------------------- and exactly when

  /** A value containing something of alignment 8 ends, in place, at an offset whose residue
      modulo 8 does not depend on where it started. */
  lemma {:induction false} EndResidue(o: Order, x: nat, y: nat, ty: Ty, v: Val)
    requires Encodable(ty, v) && MaxAlign(ty, v) == 8
    ensures Congruent(8, x + |Marshalled(InPlace, o, x, ty, v)|, y + |Marshalled(InPlace, o, y, ty, v)|)
    decreases v, 2
  {
    hide Multiple, Pad, Body, Elems, Entries, Fields, HasType, VariantsOk, MaxOver;
    var x', y' := x + Pad(x, AlignOf(ty)), y + Pad(y, AlignOf(ty));
    BodyEndResidue(o, x', y', ty, v);
  }

  lemma {:induction false} BodyEndResidue(o: Order, x: nat, y: nat, ty: Ty, v: Val)
    requires Encodable(ty, v) && MaxAlign(ty, v) == 8
    requires Multiple(AlignOf(ty), x) && Multiple(AlignOf(ty), y)
    ensures Congruent(8, x + |Body(InPlace, o, x, ty, v)|, y + |Body(InPlace, o, y, ty, v)|)
    decreases v, 1
  {
    hide Multiple, Pad, Body, Elems, Entries, Fields, VariantsOk;
    match ty
    case TVariant =>
      VariantEndResidue(o, x, y, v);
    case TArray(e) =>
      ArrayEndResidue(o, x, y, e, v);
    case TDict(k, u) =>
      DictEndResidue(o, x, y, k, u, v);
    case TNum(k) =>
      NumEndResidue(o, x, y, k, v);
    case TStruct(ts) =>
      StructEndResidue(o, x, y, ts, v);
    case _ =>
  }

  lemma {:induction false} VariantEndResidue(o: Order, x: nat, y: nat, v: Val)
    requires Encodable(TVariant, v) && MaxAlign(TVariant, v) == 8
    ensures Congruent(8, x + |Body(InPlace, o, x, TVariant, v)|, y + |Body(InPlace, o, y, TVariant, v)|)
    decreases v, 0
  {
    hide Multiple, Marshalled;
    var n := |SigBytes(SigOf(v.ty))|;
    EndResidue(o, x + n, y + n, v.ty, v.val);
  }

  lemma NumEndResidue(o: Order, x: nat, y: nat, k: Num, v: Val)
    requires Encodable(TNum(k), v) && Multiple(8, x) && Multiple(8, y)
    ensures Congruent(8, x + |Body(InPlace, o, x, TNum(k), v)|, y + |Body(InPlace, o, y, TNum(k), v)|)
  {
    hide Multiple;
    AlignedCongruent(8, x, y);
  }

  lemma StructEndResidue(o: Order, x: nat, y: nat, ts: seq<Ty>, v: Val)
    requires Encodable(TStruct(ts), v) && Multiple(8, x) && Multiple(8, y)
    ensures Congruent(8, x + |Body(InPlace, o, x, TStruct(ts), v)|, y + |Body(InPlace, o, y, TStruct(ts), v)|)
  {
    hide Multiple, Fields;
    AlignedCongruent(8, x, y);
    FieldsRelocation(InPlace, o, x, y, ts, v.fields, 0);
  }

  lemma DictEndResidue(o: Order, x: nat, y: nat, k: Ty, u: Ty, v: Val)
    requires Encodable(TDict(k, u), v) && Multiple(4, x) && Multiple(4, y)
    ensures Congruent(8, x + |Body(InPlace, o, x, TDict(k, u), v)|, y + |Body(InPlace, o, y, TDict(k, u), v)|)
  {
    hide Multiple, Pad, Entries;
    AlignedCongruent(8, ContentStart(x, 8), ContentStart(y, 8));
    EntriesRelocation(InPlace, o, ContentStart(x, 8), ContentStart(y, 8), k, u, v.entries, 0);
  }

  lemma {:induction false} ArrayEndResidue(o: Order, x: nat, y: nat, e: Ty, v: Val)
    requires Encodable(TArray(e), v) && MaxAlign(TArray(e), v) == 8 && Multiple(4, x) && Multiple(4, y)
    ensures Congruent(8, x + |Body(InPlace, o, x, TArray(e), v)|, y + |Body(InPlace, o, y, TArray(e), v)|)
    decreases v, 0
  {
    hide Multiple, Elems, Entries, Fields;
    var s, t := ContentStart(x, AlignOf(e)), ContentStart(y, AlignOf(e));
    if AlignOf(e) == 8 {
      AlignedCongruent(8, s, t);
      CongruentWeaken(8, MaxOver(e, v.elems, 0), s, t);
      ElemsRelocation(InPlace, o, s, t, e, v.elems, 0);
    } else {
      ElemsEndResidue(o, s, t, e, v.elems, 0);
    }
  }

  lemma {:induction false} ElemsEndResidue(o: Order, x: nat, y: nat, ty: Ty, vs: seq<Val>, i: nat)
    requires i <= |vs| && AllEncodable(ty, vs) && MaxOver(ty, vs, i) == 8
    ensures Congruent(8, x + |Elems(InPlace, o, x, ty, vs, i)|, y + |Elems(InPlace, o, y, ty, vs, i)|)
    decreases vs, |vs| - i
  {
    hide Multiple, Pad, Marshalled, Elems, HasType, VariantsOk, Supported, MaxAlign;
    ElemsHead(InPlace, o, x, ty, vs, i);
    ElemsHead(InPlace, o, y, ty, vs, i);
    var x' := x + |Marshalled(InPlace, o, x, ty, vs[i])|;
    var y' := y + |Marshalled(InPlace, o, y, ty, vs[i])|;
    if MaxAlign(ty, vs[i]) == 8 {
      EndResidue(o, x, y, ty, vs[i]);
      CongruentWeaken(8, MaxOver(ty, vs, i + 1), x', y');
      ElemsRelocation(InPlace, o, x', y', ty, vs, i + 1);
    } else {
      ElemsEndResidue(o, x', y', ty, vs, i + 1);
    }
  }

  /** The exact condition, for every array whose elements align below 8: the encoder produces
      the wire format at every offset if and only if nothing inside needs alignment 8. */
  lemma ArrayLayoutExact(o: Order, e: Ty, v: Val)
    requires Encodable(TArray(e), v) && AlignOf(e) < 8
    ensures (forall off: nat :: Marshalled(Separate, o, off, TArray(e), v) == Marshalled(InPlace, o, off, TArray(e), v))
        <==> MaxOver(e, v.elems, 0) <= 4
  {
    if MaxOver(e, v.elems, 0) <= 4 {
      SmallIsRelocatable(TArray(e), v);
      forall off: nat {
        SeparateIsInPlace(o, off, TArray(e), v);
      }
    } else {
      MisplacedArray(o, e, v);
    }
  }

  /** One of the two offsets 0 and 4 gets it wrong. */
  lemma MisplacedArray(o: Order, e: Ty, v: Val)
    requires Encodable(TArray(e), v) && AlignOf(e) < 8 && MaxOver(e, v.elems, 0) == 8
    ensures Marshalled(Separate, o, 0, TArray(e), v) != Marshalled(InPlace, o, 0, TArray(e), v)
         || Marshalled(Separate, o, 4, TArray(e), v) != Marshalled(InPlace, o, 4, TArray(e), v)
  {
    hide Marshalled, Body, Elems, Entries, Fields, MaxOver;
    ElemsEndResidue(o, 4, 8, e, v.elems, 0);
    ArrayLength(Separate, o, 0, e, v);
    ArrayLength(Separate, o, 4, e, v);
    ArrayLength(InPlace, o, 0, e, v);
    ArrayLength(InPlace, o, 4, e, v);
  }

  lemma FourPads(off: nat, a: Alignment)
    requires a <= 4 && off % 4 == 0
    ensures Pad(off, 4) == 0 && Pad(off + 4, a) == 0
  {
    CongruentWeaken(4, a, off + 4, 0);
    CongruentAligned(a, 0, off + 4);
  }

  lemma ArrayLength(p: Placement, o: Order, off: nat, e: Ty, v: Val)
    requires Encodable(TArray(e), v) && AlignOf(e) <= 4 && off % 4 == 0
    ensures |Marshalled(p, o, off, TArray(e), v)| == 4 + |Elems(p, o, Base(p, off + 4), e, v.elems, 0)|
  {
    hide Elems, PutUint, Zeros, Pad;
    FourPads(off, AlignOf(e));
    assert AlignOf(TArray(e)) == 4;
    ZerosLength(Pad(off, 4));
  }

  lemma {:induction false} SmallIsRelocatable(ty: Ty, v: Val)
    requires HasType(v, ty) && MaxAlign(ty, v) <= 4
    ensures Relocatable(ty, v)
    decreases v
  {
    match ty
    case TVariant => SmallIsRelocatable(v.ty, v.val);
    case TArray(e) =>
      forall i | 0 <= i < |v.elems| ensures Relocatable(e, v.elems[i]) {
        MaxOverBounds(e, v.elems, 0, i);
        SmallIsRelocatable(e, v.elems[i]);
      }
    case _ =>
  }

  lemma {:induction false} MaxOverBounds(ty: Ty, vs: seq<Val>, i: nat, j: nat)
    requires i <= j < |vs| && forall k :: 0 <= k < |vs| ==> HasType(vs[k], ty)
    ensures MaxAlign(ty, vs[j]) <= MaxOver(ty, vs, i)
    decreases |vs| - i
  {
    if i < j { MaxOverBounds(ty, vs, i + 1, j); }
  }
}
