/** When the encoder's separate buffers give the wire format, exactly: for a given value, at a
    given offset. Everything with an alignment must be at offsets of the buffer and of the message
    that agree modulo that alignment. */
module Layout {
  import opened Bytes
  import opened Types
  import opened Values
  import opened Marshal
  import opened RoundTrip

  /** At offset x of its buffer and y of the message, the value and all its parts are padded alike.
      The contents of an array or dict start at 0 of a buffer of their own. */
  ghost predicate Placed(o: Order, ty: Ty, v: Val, x: nat, y: nat)
    requires Encodable(ty, v)
    decreases v, 1
  {
    Congruent(AlignOf(ty), x, y) && BodyPlaced(o, ty, v, x + Pad(x, AlignOf(ty)), y + Pad(y, AlignOf(ty)))
  }

  ghost predicate BodyPlaced(o: Order, ty: Ty, v: Val, x: nat, y: nat)
    requires Encodable(ty, v)
    decreases v, 0
  {
    match ty
    case TVariant =>
      var n := |SigBytes(SigOf(v.ty))|;
      Placed(o, v.ty, v.val, x + n, y + n)
    case TArray(e) => Congruent(AlignOf(e), x, y) && ElemsPlaced(o, e, v.elems, 0, 0, ContentStart(y, AlignOf(e)))
    case TDict(k, u) => Congruent(8, x, y) && EntriesPlaced(o, k, u, v.entries, 0, 0, ContentStart(y, 8))
    case TStruct(ts) => FieldsPlaced(o, ts, v.fields, 0, x, y)
    case _ => true
  }

  ghost predicate ElemsPlaced(o: Order, e: Ty, vs: seq<Val>, i: nat, x: nat, y: nat)
    requires i <= |vs| && AllEncodable(e, vs)
    decreases vs, |vs| - i
  {
    i == |vs| ||
    (Placed(o, e, vs[i], x, y) &&
     var n := |Marshalled(InPlace, o, y, e, vs[i])|;
     ElemsPlaced(o, e, vs, i + 1, x + n, y + n))
  }

  ghost predicate EntryPlaced(o: Order, k: Ty, u: Ty, e: Entry, x: nat, y: nat)
    requires Encodable(k, e.key) && Encodable(u, e.value)
    decreases e
  {
    var z := Pad(y, 8);
    && Congruent(8, x, y)
    && Placed(o, k, e.key, x + z, y + z)
    && var n := |Marshalled(InPlace, o, y + z, k, e.key)|;
       Placed(o, u, e.value, x + z + n, y + z + n)
  }

  ghost predicate EntriesPlaced(o: Order, k: Ty, u: Ty, es: seq<Entry>, i: nat, x: nat, y: nat)
    requires i <= |es| && EntriesEncodable(k, u, es)
    decreases es, |es| - i
  {
    i == |es| ||
    (EntryPlaced(o, k, u, es[i], x, y) &&
     var n := |EntryBytes(InPlace, o, y, k, u, es[i])|;
     EntriesPlaced(o, k, u, es, i + 1, x + n, y + n))
  }

  ghost predicate FieldsPlaced(o: Order, ts: seq<Ty>, vs: seq<Val>, i: nat, x: nat, y: nat)
    requires i <= |ts| && FieldsEncodable(ts, vs)
    decreases vs, |ts| - i
  {
    i == |ts| ||
    (Placed(o, ts[i], vs[i], x, y) &&
     var n := |Marshalled(InPlace, o, y, ts[i], vs[i])|;
     FieldsPlaced(o, ts, vs, i + 1, x + n, y + n))
  }

  // ---------------------------------------------------------------- comparing bytes

  const FOUR: seq<byte> := [0, 0, 0, 0]

  /** The texts differ at a place both have, so no continuation makes them equal. */
  ghost predicate Differ(a: seq<byte>, b: seq<byte>) {
    exists i :: 0 <= i < |a| && i < |b| && a[i] != b[i]
  }

  /** They still differ if one of them is moved by four zero bytes. */
  ghost predicate Clash(a: seq<byte>, b: seq<byte>) {
    Differ(a, b) && Differ(FOUR + a, b) && Differ(a, FOUR + b)
  }

  /** Four zero bytes more in `a`, at q. */
  ghost predicate ShiftedAt(a: seq<byte>, b: seq<byte>, q: nat) {
    q <= |b| && a == b[..q] + (FOUR + b[q..])
  }

  ghost predicate Shifted(a: seq<byte>, b: seq<byte>) {
    exists q: nat :: ShiftedAt(a, b, q) || ShiftedAt(b, a, q)
  }

  lemma DifferIn(p: seq<byte>, a: seq<byte>, b: seq<byte>, s: seq<byte>, t: seq<byte>)
    requires Differ(a, b)
    ensures Differ(p + a + s, p + b + t)
  {
    var i :| 0 <= i < |a| && i < |b| && a[i] != b[i];
    assert (p + a + s)[|p| + i] == a[i] && (p + b + t)[|p| + i] == b[i];
  }

  lemma DifferOut(a: seq<byte>, b: seq<byte>)
    requires |a| == |b| && a != b
    ensures Differ(a, b)
  {
    var i :| 0 <= i < |a| && a[i] != b[i];
  }

  /** A common prefix moved by four zero bytes is itself unless it has a non-zero byte. */
  lemma MovedPrefix(p: seq<byte>, a: seq<byte>, b: seq<byte>)
    requires Differ(FOUR + a, b)
    ensures Differ(FOUR + (p + a), p + b)
    decreases |p|
  {
    if p == [] {
      assert [] + a == a && [] + b == b;
    } else {
      var q := p[1..];
      if p[0] != 0 {
        assert (FOUR + (p + a))[0] == 0 && (p + b)[0] == p[0];
      } else {
        MovedPrefix(q, a, b);
        DifferIn([0], FOUR + (q + a), q + b, [], []);
        assert p == [0] + q && [0] + FOUR == FOUR + [0];
        assert [0] + (FOUR + (q + a)) + [] == FOUR + (p + a);
        assert [0] + (q + b) + [] == p + b;
      }
    }
  }

  lemma DifferSymmetric(a: seq<byte>, b: seq<byte>)
    requires Differ(a, b)
    ensures Differ(b, a)
  {
    var i :| 0 <= i < |a| && i < |b| && a[i] != b[i];
    assert b[i] != a[i];
  }

  /** A clash stays one in any context. */
  lemma ClashIn(p: seq<byte>, a: seq<byte>, b: seq<byte>, s: seq<byte>, t: seq<byte>)
    requires Clash(a, b)
    ensures Clash(p + a + s, p + b + t)
  {
    DifferIn(p, a, b, s, t);
    MovedPrefix(p, a, b);
    DifferIn([], FOUR + (p + a), p + b, s, t);
    assert [] + (FOUR + (p + a)) + s == FOUR + (p + a + s) && [] + (p + b) + t == p + b + t;
    DifferSymmetric(a, FOUR + b);
    MovedPrefix(p, b, a);
    DifferSymmetric(FOUR + (p + b), p + a);
    DifferIn([], p + a, FOUR + (p + b), s, t);
    assert [] + (FOUR + (p + b)) + t == FOUR + (p + b + t) && [] + (p + a) + s == p + a + s;
  }

  /** Length words of contents that are not empty are not zero, and differ with the lengths. */
  lemma LengthWords(o: Order, m: nat, n: nat)
    requires 0 < m < WORD && 0 < n < WORD
    ensures Differ(FOUR, PutUint(o, 4, m)) && Differ(PutUint(o, 4, n), FOUR)
    ensures m != n ==> Differ(PutUint(o, 4, m), PutUint(o, 4, n))
  {
    hide PutUint, GetUint;
    ModulusIsPow(U32);
    UintRoundTrip(o, 4, m);
    UintRoundTrip(o, 4, n);
    UintRoundTrip(o, 4, 0);
    ZeroWord(o);
    DifferOut(FOUR, PutUint(o, 4, m));
    DifferOut(PutUint(o, 4, n), FOUR);
    if m != n { DifferOut(PutUint(o, 4, m), PutUint(o, 4, n)); }
  }

  lemma ZeroWord(o: Order)
    ensures PutUint(o, 4, 0) == FOUR
  {
    assert LittleEndian(1, 0) == [0];
    assert LittleEndian(2, 0) == [0, 0];
    assert LittleEndian(3, 0) == [0, 0, 0];
    assert LittleEndian(4, 0) == [0, 0, 0, 0];
  }

  /** Different contents of arrays clash, through their lengths. */
  lemma ArrayClash(o: Order, x: nat, y: nat, a: Alignment, c: seq<byte>, d: seq<byte>)
    requires c != d && 0 < |c| < WORD && 0 < |d| < WORD && Pad(x + 4, a) == Pad(y + 4, a)
    ensures Clash(ArrayBytes(o, x, a, c), ArrayBytes(o, y, a, d))
  {
    hide PutUint, Pad, Zeros;
    var z, l, m := Zeros(Pad(x + 4, a)), PutUint(o, 4, |c|), PutUint(o, 4, |d|);
    LengthWords(o, |c|, |d|);
    LengthWords(o, |d|, |c|);
    assert l + z + c == l + (z + c) && m + z + d == m + (z + d);
    if |c| == |d| { DifferOut(z + c, z + d) by { SamePrefix(z, c, d); } }
    WordsClash(l, m, z + c, z + d);
  }

  /** Length words that are not zero, before contents that differ if the words do not. */
  lemma WordsClash(l: seq<byte>, m: seq<byte>, c: seq<byte>, d: seq<byte>)
    requires Differ(FOUR, m) && Differ(l, FOUR) && (Differ(l, m) || (l == m && Differ(c, d)))
    ensures Clash(l + c, m + d)
  {
    hide Differ;
    var a, b := l + c, m + d;
    if Differ(l, m) {
      DifferIn([], l, m, c, d);
    } else {
      DifferIn(l, c, d, [], []);
      assert l + c + [] == a && m + d + [] == b;
    }
    DifferIn([], FOUR, m, a, d);
    DifferIn([], l, FOUR, c, b);
    assert [] + l + c == a && [] + m + d == b && [] + FOUR + a == FOUR + a && [] + FOUR + b == FOUR + b;
  }

  lemma SamePrefix(p: seq<byte>, s: seq<byte>, t: seq<byte>)
    ensures p + s == p + t <==> s == t
  {
    assert (p + s)[|p|..] == s && (p + t)[|p|..] == t;
  }

  // ---------------------------------------------------------------- offsets that agree modulo 8

  /** Equal if laid out alike, and clashing otherwise. */
  ghost predicate Related(alike: bool, a: seq<byte>, b: seq<byte>) {
    if alike then a == b else Clash(a, b)
  }

  lemma RelatedOne(alike: bool, p: seq<byte>, a: seq<byte>, b: seq<byte>)
    requires Related(alike, a, b)
    ensures Related(alike, p + a, p + b)
  {
    hide Clash;
    if !alike {
      ClashIn(p, a, b, [], []);
      assert p + a + [] == p + a && p + b + [] == p + b;
    }
  }

  lemma RelatedTwo(first: bool, a: seq<byte>, b: seq<byte>, then_: bool, s: seq<byte>, t: seq<byte>)
    requires Related(first, a, b) && (first ==> Related(then_, s, t))
    ensures Related(first && then_, a + s, b + t)
  {
    hide Clash;
    if first {
      RelatedOne(then_, a, s, t);
    } else {
      ClashIn([], a, b, s, t);
      assert [] + a + s == a + s && [] + b + t == b + t;
    }
  }

  lemma ClashDiffers(a: seq<byte>, b: seq<byte>)
    requires Clash(a, b)
    ensures a != b && a != [] && b != []
  {
  }

  lemma {:induction false} InStep(o: Order, ty: Ty, v: Val, x: nat, y: nat)
    requires Encodable(ty, v) && Congruent(8, x, y)
    requires |Marshalled(Separate, o, x, ty, v)| < WORD && |Marshalled(InPlace, o, y, ty, v)| < WORD
    ensures Related(Placed(o, ty, v, x, y), Marshalled(Separate, o, x, ty, v), Marshalled(InPlace, o, y, ty, v))
    decreases v, 2
  {
    hide Congruent, Pad, Body, BodyPlaced, Related, HasType, VariantsOk, Supported, Zeros;
    var a := AlignOf(ty);
    CongruentWeaken(8, a, x, y);
    CongruentPad(a, x, y);
    var z := Pad(x, a);
    CongruentShift(8, x, y, z);
    BodyInStep(o, ty, v, x + z, y + z);
    RelatedOne(BodyPlaced(o, ty, v, x + z, y + z), Zeros(z), Body(Separate, o, x + z, ty, v),
      Body(InPlace, o, y + z, ty, v));
  }

  lemma {:induction false} BodyInStep(o: Order, ty: Ty, v: Val, x: nat, y: nat)
    requires Encodable(ty, v) && Congruent(8, x, y) && Multiple(AlignOf(ty), y)
    requires |Body(Separate, o, x, ty, v)| < WORD && |Body(InPlace, o, y, ty, v)| < WORD
    ensures Related(BodyPlaced(o, ty, v, x, y), Body(Separate, o, x, ty, v), Body(InPlace, o, y, ty, v))
    decreases v, 1
  {
    hide Congruent, Multiple, Pad, Related, Placed, Marshalled, Elems, Entries, Fields, ElemsPlaced, EntriesPlaced;
    hide FieldsPlaced;
    match ty
    case TVariant => VariantInStep(o, v, x, y);
    case TArray(e) => ArrayInStep(o, e, v, x, y);
    case TDict(k, u) => DictInStep(o, k, u, v, x, y);
    case TStruct(ts) =>
      FieldsInStep(o, ts, v.fields, 0, x, y);
    case TAny =>
    case _ => BasicInStep(o, ty, v, x, y);
  }

  lemma {:induction false} VariantInStep(o: Order, v: Val, x: nat, y: nat)
    requires Encodable(TVariant, v) && Congruent(8, x, y)
    requires |Body(Separate, o, x, TVariant, v)| < WORD && |Body(InPlace, o, y, TVariant, v)| < WORD
    ensures Related(BodyPlaced(o, TVariant, v, x, y), Body(Separate, o, x, TVariant, v),
        Body(InPlace, o, y, TVariant, v))
    decreases v, 0
  {
    hide Congruent, Related, Placed, Marshalled, SigBytes, SigOf;
    var s := SigBytes(SigOf(v.ty));
    CongruentShift(8, x, y, |s|);
    InStep(o, v.ty, v.val, x + |s|, y + |s|);
    RelatedOne(Placed(o, v.ty, v.val, x + |s|, y + |s|), s,
      Marshalled(Separate, o, x + |s|, v.ty, v.val), Marshalled(InPlace, o, y + |s|, v.ty, v.val));
  }

  lemma BasicInStep(o: Order, ty: Ty, v: Val, x: nat, y: nat)
    requires Encodable(ty, v) && BasicKey(ty)
    ensures Related(BodyPlaced(o, ty, v, x, y), Body(Separate, o, x, ty, v), Body(InPlace, o, y, ty, v))
  {
    hide Related, PutUint, SigBytes, StrBytes;
    RelatedSame(Body(Separate, o, x, ty, v));
  }

  lemma RelatedSame(a: seq<byte>)
    ensures Related(true, a, a)
  {
  }

  lemma RelatedArray(o: Order, x: nat, y: nat, a: Alignment, alike: bool, c: seq<byte>, d: seq<byte>)
    requires Congruent(a, x, y) && |c| < WORD && |d| < WORD
    requires if alike then c == d else c != d && c != [] && d != []
    ensures Related(alike, ArrayBytes(o, x, a, c), ArrayBytes(o, y, a, d))
  {
    hide Congruent, Pad, PutUint, Clash;
    CongruentShift(a, x, y, 4);
    CongruentPad(a, x + 4, y + 4);
    if !alike { ArrayClash(o, x, y, a, c, d); }
  }

  lemma {:induction false} ArrayInStep(o: Order, e: Ty, v: Val, x: nat, y: nat)
    requires Encodable(TArray(e), v) && Congruent(8, x, y) && Multiple(4, y)
    requires |Body(Separate, o, x, TArray(e), v)| < WORD && |Body(InPlace, o, y, TArray(e), v)| < WORD
    ensures Related(BodyPlaced(o, TArray(e), v, x, y), Body(Separate, o, x, TArray(e), v),
        Body(InPlace, o, y, TArray(e), v))
    decreases v, 0
  {
    hide Congruent, Multiple, Pad, Related, Marshalled, Elems, ElemsPlaced, Placed;
    var start := ContentStart(y, AlignOf(e));
    ContentAligned(y, AlignOf(e));
    CongruentWeaken(8, AlignOf(e), x, y);
    Contents(o, e, v.elems, start);
    RelatedArray(o, x, y, AlignOf(e), ElemsPlaced(o, e, v.elems, 0, 0, start),
      Elems(Separate, o, 0, e, v.elems, 0), Elems(InPlace, o, start, e, v.elems, 0));
  }

  /** The contents of an array start at a multiple of 4, and of the alignment of its elements. */
  lemma ContentAligned(y: nat, a: Alignment)
    requires Multiple(4, y)
    ensures Multiple(4, ContentStart(y, a)) && Multiple(a, ContentStart(y, a))
  {
    hide Pad;
    if a <= 4 {
      CongruentWeaken(4, a, y + 4, 0);
      assert Pad(y + 4, a) == 0;
    } else {
      EightIsFour(ContentStart(y, 8));
    }
  }

  lemma {:induction false} Contents(o: Order, e: Ty, vs: seq<Val>, start: nat)
    requires AllEncodable(e, vs) && Multiple(4, start) && Multiple(AlignOf(e), start)
    requires |Elems(Separate, o, 0, e, vs, 0)| < WORD && |Elems(InPlace, o, start, e, vs, 0)| < WORD
    ensures
      var c, d := Elems(Separate, o, 0, e, vs, 0), Elems(InPlace, o, start, e, vs, 0);
      if ElemsPlaced(o, e, vs, 0, 0, start) then c == d else c != d && c != [] && d != []
    decreases vs, |vs| + 1
  {
    hide Pad, Marshalled, Elems, ElemsPlaced, Placed, Clash;
    var c, d := Elems(Separate, o, 0, e, vs, 0), Elems(InPlace, o, start, e, vs, 0);
    if Multiple(8, start) {
      AlignedCongruent(8, 0, start);
      ElemsInStep(o, e, vs, 0, 0, start);
      if !ElemsPlaced(o, e, vs, 0, 0, start) { ClashDiffers(c, d); }
    } else {
      HalfStart(start);
      ElemsOffStep(o, e, vs, 0, 0, start);
      if vs == [] {
        NoElems(o, e, 0, start);
      } else {
        SomeElems(Separate, o, e, vs, 0);
        SomeElems(InPlace, o, e, vs, start);
      }
    }
  }

  lemma NoElems(o: Order, e: Ty, x: nat, y: nat)
    requires Supported(e)
    ensures ElemsPlaced(o, e, [], 0, x, y)
  {
  }

  lemma SomeElems(p: Placement, o: Order, e: Ty, vs: seq<Val>, x: nat)
    requires AllEncodable(e, vs) && vs != [] && AlignOf(e) < 8
    ensures Elems(p, o, x, e, vs, 0) != []
  {
    hide Elems, Pad;
    ElemsHead(p, o, x, e, vs, 0);
    SmallNotEmpty(p, o, x, e, vs[0]);
  }

  lemma SmallNotEmpty(p: Placement, o: Order, x: nat, ty: Ty, v: Val)
    requires Encodable(ty, v) && AlignOf(ty) < 8
    ensures |Marshalled(p, o, x, ty, v)| > 0
  {
    hide Pad, Elems, Entries, Fields, PutUint;
  }

  lemma {:induction false} DictInStep(o: Order, k: Ty, u: Ty, v: Val, x: nat, y: nat)
    requires Encodable(TDict(k, u), v) && Congruent(8, x, y) && Multiple(4, y)
    requires |Body(Separate, o, x, TDict(k, u), v)| < WORD && |Body(InPlace, o, y, TDict(k, u), v)| < WORD
    ensures Related(BodyPlaced(o, TDict(k, u), v, x, y),
                    Body(Separate, o, x, TDict(k, u), v), Body(InPlace, o, y, TDict(k, u), v))
    decreases v, 0
  {
    hide Congruent, Multiple, Pad, Related, Marshalled, Entries, EntriesPlaced, Placed;
    var start := ContentStart(y, 8);
    ContentAligned(y, 8);
    AlignedCongruent(8, 0, start) by { ZeroAligned(); }
    var c, d := Entries(Separate, o, 0, k, u, v.entries, 0), Entries(InPlace, o, start, k, u, v.entries, 0);
    EntriesInStep(o, k, u, v.entries, 0, 0, start);
    RelatedParts(EntriesPlaced(o, k, u, v.entries, 0, 0, start), c, d);
    RelatedArray(o, x, y, 8, EntriesPlaced(o, k, u, v.entries, 0, 0, start), c, d);
  }

  lemma ZeroAligned()
    ensures Multiple(8, 0)
  {
  }

  lemma RelatedParts(alike: bool, a: seq<byte>, b: seq<byte>)
    requires Related(alike, a, b)
    ensures if alike then a == b else a != b && a != [] && b != []
  {
    if !alike { ClashDiffers(a, b); }
  }

  lemma {:induction false} ElemsInStep(o: Order, e: Ty, vs: seq<Val>, i: nat, x: nat, y: nat)
    requires i <= |vs| && AllEncodable(e, vs) && Congruent(8, x, y)
    requires |Elems(Separate, o, x, e, vs, i)| < WORD && |Elems(InPlace, o, y, e, vs, i)| < WORD
    ensures Related(ElemsPlaced(o, e, vs, i, x, y), Elems(Separate, o, x, e, vs, i), Elems(InPlace, o, y, e, vs, i))
    decreases vs, |vs| - i
  {
    hide Congruent, Pad, Marshalled, Elems, Placed, Related, HasType, VariantsOk;
    ElemsHead(Separate, o, x, e, vs, i);
    ElemsHead(InPlace, o, y, e, vs, i);
    if i < |vs| {
      var a, b := Marshalled(Separate, o, x, e, vs[i]), Marshalled(InPlace, o, y, e, vs[i]);
      var s, t := Elems(Separate, o, x + |a|, e, vs, i + 1), Elems(InPlace, o, y + |b|, e, vs, i + 1);
      InStep(o, e, vs[i], x, y);
      RelatedParts(Placed(o, e, vs[i], x, y), a, b);
      if Placed(o, e, vs[i], x, y) {
        CongruentShift(8, x, y, |b|);
        ElemsInStep(o, e, vs, i + 1, x + |b|, y + |b|);
      }
      RelatedTwo(Placed(o, e, vs[i], x, y), a, b, ElemsPlaced(o, e, vs, i + 1, x + |b|, y + |b|), s, t);
    } else {
      RelatedSame([]);
    }
  }

  lemma {:induction false} EntryInStep(o: Order, k: Ty, u: Ty, e: Entry, x: nat, y: nat)
    requires Encodable(k, e.key) && Encodable(u, e.value) && Congruent(8, x, y)
    requires |EntryBytes(Separate, o, x, k, u, e)| < WORD && |EntryBytes(InPlace, o, y, k, u, e)| < WORD
    ensures Related(EntryPlaced(o, k, u, e, x, y), EntryBytes(Separate, o, x, k, u, e),
        EntryBytes(InPlace, o, y, k, u, e))
    decreases e
  {
    hide Congruent, Pad, Marshalled, Placed, Related, HasType, VariantsOk, Zeros;
    CongruentPad(8, x, y);
    var z := Pad(y, 8);
    ZerosLength(z);
    CongruentShift(8, x, y, z);
    var a, b := Marshalled(Separate, o, x + z, k, e.key), Marshalled(InPlace, o, y + z, k, e.key);
    InStep(o, k, e.key, x + z, y + z);
    var first := Placed(o, k, e.key, x + z, y + z);
    RelatedParts(first, a, b);
    var s := Marshalled(Separate, o, x + z + |a|, u, e.value);
    var t := Marshalled(InPlace, o, y + z + |b|, u, e.value);
    var second := Placed(o, u, e.value, x + z + |b|, y + z + |b|);
    if first {
      CongruentShift(8, x + z, y + z, |b|);
      InStep(o, u, e.value, x + z + |b|, y + z + |b|);
    }
    RelatedTwo(first, a, b, second, s, t);
    RelatedOne(first && second, Zeros(z), a + s, b + t);
    assert Zeros(z) + a + s == Zeros(z) + (a + s) && Zeros(z) + b + t == Zeros(z) + (b + t);
  }

  lemma {:induction false} EntriesInStep(o: Order, k: Ty, u: Ty, es: seq<Entry>, i: nat, x: nat, y: nat)
    requires i <= |es| && EntriesEncodable(k, u, es) && Congruent(8, x, y)
    requires |Entries(Separate, o, x, k, u, es, i)| < WORD && |Entries(InPlace, o, y, k, u, es, i)| < WORD
    ensures Related(EntriesPlaced(o, k, u, es, i, x, y),
                    Entries(Separate, o, x, k, u, es, i), Entries(InPlace, o, y, k, u, es, i))
    decreases es, |es| - i
  {
    hide Congruent, Pad, EntryBytes, Entries, EntryPlaced, EntriesPlaced, Related, HasType, VariantsOk;
    EntriesHead(Separate, o, x, k, u, es, i);
    EntriesHead(InPlace, o, y, k, u, es, i);
    if i < |es| {
      var a, b := EntryBytes(Separate, o, x, k, u, es[i]), EntryBytes(InPlace, o, y, k, u, es[i]);
      var s, t := Entries(Separate, o, x + |a|, k, u, es, i + 1), Entries(InPlace, o, y + |b|, k, u, es, i + 1);
      var first, second := EntryPlaced(o, k, u, es[i], x, y), EntriesPlaced(o, k, u, es, i + 1, x + |b|, y + |b|);
      EntryInStep(o, k, u, es[i], x, y);
      RelatedParts(first, a, b);
      if first {
        CongruentShift(8, x, y, |b|);
        EntriesInStep(o, k, u, es, i + 1, x + |b|, y + |b|);
      }
      RelatedTwo(first, a, b, second, s, t);
      EntriesPlacedHead(o, k, u, es, i, x, y);
    } else {
      EntriesPlacedHead(o, k, u, es, i, x, y);
      RelatedSame([]);
    }
  }

  lemma EntriesPlacedHead(o: Order, k: Ty, u: Ty, es: seq<Entry>, i: nat, x: nat, y: nat)
    requires i <= |es| && EntriesEncodable(k, u, es)
    ensures i < |es| ==>
      var n := |EntryBytes(InPlace, o, y, k, u, es[i])|;
      EntriesPlaced(o, k, u, es, i, x, y)
        == (EntryPlaced(o, k, u, es[i], x, y) && EntriesPlaced(o, k, u, es, i + 1, x + n, y + n))
    ensures i == |es| ==> EntriesPlaced(o, k, u, es, i, x, y)
  {
    hide EntryBytes, EntryPlaced;
  }

  lemma {:induction false} FieldsInStep(o: Order, ts: seq<Ty>, vs: seq<Val>, i: nat, x: nat, y: nat)
    requires i <= |ts| && FieldsEncodable(ts, vs) && Congruent(8, x, y)
    requires |Fields(Separate, o, x, ts, vs, i)| < WORD && |Fields(InPlace, o, y, ts, vs, i)| < WORD
    ensures Related(FieldsPlaced(o, ts, vs, i, x, y), Fields(Separate, o, x, ts, vs, i),
        Fields(InPlace, o, y, ts, vs, i))
    decreases vs, |ts| - i
  {
    hide Congruent, Pad, Marshalled, Fields, Placed, Related, HasType, VariantsOk;
    FieldsHead(Separate, o, x, ts, vs, i);
    FieldsHead(InPlace, o, y, ts, vs, i);
    if i < |ts| {
      var a, b := Marshalled(Separate, o, x, ts[i], vs[i]), Marshalled(InPlace, o, y, ts[i], vs[i]);
      var s, t := Fields(Separate, o, x + |a|, ts, vs, i + 1), Fields(InPlace, o, y + |b|, ts, vs, i + 1);
      InStep(o, ts[i], vs[i], x, y);
      RelatedParts(Placed(o, ts[i], vs[i], x, y), a, b);
      if Placed(o, ts[i], vs[i], x, y) {
        CongruentShift(8, x, y, |b|);
        FieldsInStep(o, ts, vs, i + 1, x + |b|, y + |b|);
      }
      RelatedTwo(Placed(o, ts[i], vs[i], x, y), a, b, FieldsPlaced(o, ts, vs, i + 1, x + |b|, y + |b|), s, t);
    } else {
      RelatedSame([]);
    }
  }

  // ---------------------------------------------------------------- offsets that agree modulo 4 only

  /** Off by 4 modulo 8. */
  ghost predicate HalfApart(x: int, y: int) {
    (x - y) % 8 == 4
  }

  lemma HalfStart(start: nat)
    requires Multiple(4, start) && !Multiple(8, start)
    ensures HalfApart(0, start)
  {
  }

  lemma HalfShift(x: int, y: int, n: int)
    requires HalfApart(x, y)
    ensures HalfApart(x + n, y + n)
  {
    assert (x + n) - (y + n) == x - y;
  }

  lemma HalfCongruent(a: Alignment, x: int, y: int)
    requires HalfApart(x, y)
    ensures Congruent(a, x, y) <==> a <= 4
  {
    HalfIsFour(x - y);
    if a == 2 { FourIsTwo(x - y); }
  }

  lemma HalfIsFour(d: int)
    requires d % 8 == 4
    ensures d % 4 == 0
  {
    assert d == 4 * (2 * (d / 8) + 1);
  }

  /** Padding to 8 differs by four bytes. */
  lemma HalfPads(x: nat, y: nat)
    requires HalfApart(x, y)
    ensures Pad(x, 8) == Pad(y, 8) + 4 || Pad(y, 8) == Pad(x, 8) + 4
  {
    HalfRemainders(x, y);
  }

  lemma HalfRemainders(x: nat, y: nat)
    requires HalfApart(x, y)
    ensures x % 8 == y % 8 + 4 || y % 8 == x % 8 + 4
  {
    var d := x - y;
    assert x == y + d && d == 8 * (d / 8) + 4;
    ModEight(y + 4, d / 8);
    if y % 8 < 4 {
      SmallSum(y, 4);
    } else {
      ModEight(y - 4, 1);
      SmallSum(y, -4);
    }
  }

  lemma SmallSum(y: int, n: int)
    requires 0 <= y % 8 + n < 8
    ensures (y + n) % 8 == y % 8 + n
  {
    ModEight(y % 8 + n, y / 8);
  }

  lemma AfterShift(x: nat, y: nat, m: nat, n: nat)
    requires HalfApart(x, y) && (m == n + 4 || n == m + 4)
    ensures Congruent(8, x + m, y + n)
  {
    var q := (x - y) / 8;
    assert x - y == 8 * q + 4;
    assert (x + m) - (y + n) == if m == n + 4 then 8 * (q + 1) else 8 * q;
  }

  lemma ShiftLengths(a: seq<byte>, b: seq<byte>)
    requires Shifted(a, b)
    ensures |a| == |b| + 4 || |b| == |a| + 4
  {
  }

  lemma ShiftedIn(p: seq<byte>, a: seq<byte>, b: seq<byte>)
    requires Shifted(a, b)
    ensures Shifted(p + a, p + b)
  {
    var q: nat :| ShiftedAt(a, b, q) || ShiftedAt(b, a, q);
    if ShiftedAt(a, b, q) { ShiftedFrom(p, a, b, q); } else { ShiftedFrom(p, b, a, q); }
  }

  lemma ShiftedFrom(p: seq<byte>, a: seq<byte>, b: seq<byte>, q: nat)
    requires ShiftedAt(a, b, q)
    ensures ShiftedAt(p + a, p + b, |p| + q)
  {
    assert (p + b)[..|p| + q] == p + b[..q] && (p + b)[|p| + q..] == b[q..];
    assert p + (b[..q] + (FOUR + b[q..])) == (p + b[..q]) + (FOUR + b[q..]);
  }

  /** Two paddings that differ by four bytes, before contents that are equal or clash. */
  lemma PaddedApart(p: seq<byte>, m: nat, n: nat, c: seq<byte>, d: seq<byte>, alike: bool)
    requires (m == n + 4 || n == m + 4) && Related(alike, c, d)
    ensures Differ(p + (Zeros(m) + c), p + (Zeros(n) + d)) || Shifted(p + (Zeros(m) + c), p + (Zeros(n) + d))
  {
    hide Differ, Shifted, Clash;
    if m == n + 4 {
      PaddedMore(n, c, d, alike);
      MorePadding(p, n, c, d, alike);
    } else {
      if !alike { ClashSwapped(c, d); }
      PaddedMore(m, d, c, alike);
      MorePadding(p, m, d, c, alike);
      SwapBoth(p + (Zeros(n) + d), p + (Zeros(m) + c));
    }
  }

  lemma SwapBoth(a: seq<byte>, b: seq<byte>)
    requires Differ(a, b) || Shifted(a, b)
    ensures Differ(b, a) || Shifted(b, a)
  {
    if Differ(a, b) { DifferSymmetric(a, b); }
  }

  lemma ClashSwapped(a: seq<byte>, b: seq<byte>)
    requires Clash(a, b)
    ensures Clash(b, a)
  {
    DifferSymmetric(a, b);
    DifferSymmetric(FOUR + a, b);
    DifferSymmetric(a, FOUR + b);
  }

  lemma PaddedMore(n: nat, c: seq<byte>, d: seq<byte>, alike: bool)
    requires Related(alike, c, d)
    ensures Zeros(n + 4) == FOUR + Zeros(n) && Related(alike, Zeros(n) + c, Zeros(n) + d)
  {
    RelatedOne(alike, Zeros(n), c, d);
  }

  lemma MorePadding(p: seq<byte>, n: nat, c: seq<byte>, d: seq<byte>, alike: bool)
    requires Zeros(n + 4) == FOUR + Zeros(n) && Related(alike, Zeros(n) + c, Zeros(n) + d)
    ensures Differ(p + (Zeros(n + 4) + c), p + (Zeros(n) + d)) || Shifted(p + (Zeros(n + 4) + c), p + (Zeros(n) + d))
  {
    hide Zeros;
    var a, b := Zeros(n) + c, Zeros(n) + d;
    assert Zeros(n + 4) + c == FOUR + a;
    if alike {
      assert ShiftedAt(FOUR + a, b, 0) by { assert b[..0] == [] && b[0..] == b && [] + (FOUR + b) == FOUR + b; }
      ShiftedFrom(p, FOUR + a, b, 0);
    } else {
      DifferIn(p, FOUR + a, b, [], []);
      assert p + (FOUR + a) + [] == p + (FOUR + a) && p + b + [] == p + b;
    }
  }

  /** After a shift, contents that are equal or clash leave the whole different. */
  lemma ShiftRemains(a: seq<byte>, b: seq<byte>, alike: bool, s: seq<byte>, t: seq<byte>)
    requires Shifted(a, b) && Related(alike, s, t)
    ensures a + s != b + t
  {
    var q: nat :| ShiftedAt(a, b, q) || ShiftedAt(b, a, q);
    if ShiftedAt(a, b, q) {
      ShiftRemainsAt(a, b, q, alike, s, t);
    } else {
      if !alike { ClashSwapped(s, t); }
      ShiftRemainsAt(b, a, q, alike, t, s);
    }
  }

  lemma ShiftRemainsAt(a: seq<byte>, b: seq<byte>, q: nat, alike: bool, s: seq<byte>, t: seq<byte>)
    requires ShiftedAt(a, b, q) && Related(alike, s, t)
    ensures a + s != b + t
  {
    if alike {
      assert |a + s| == |b + t| + 4;
    } else {
      var p, r := b[..q], b[q..];
      ClashIn(r, s, t, [], []);
      assert r + s + [] == r + s && r + t + [] == r + t;
      DifferIn(p, FOUR + (r + s), r + t, [], []);
      assert p + (FOUR + (r + s)) + [] == a + s;
      assert p + (r + t) + [] == b + t by { assert b == p + r; }
    }
  }

  /** Equal if laid out alike, and otherwise different in spite of any continuation, or shifted. */
  ghost predicate Off(alike: bool, a: seq<byte>, b: seq<byte>) {
    if alike then a == b else Differ(a, b) || Shifted(a, b)
  }

  lemma OffOne(alike: bool, p: seq<byte>, a: seq<byte>, b: seq<byte>)
    requires Off(alike, a, b)
    ensures Off(alike, p + a, p + b)
  {
    hide Differ, Shifted;
    if !alike && Differ(a, b) {
      DifferIn(p, a, b, [], []);
      assert p + a + [] == p + a && p + b + [] == p + b;
    } else if !alike {
      ShiftedIn(p, a, b);
    }
  }

  lemma {:induction false} OffStep(o: Order, ty: Ty, v: Val, x: nat, y: nat)
    requires Encodable(ty, v) && HalfApart(x, y)
    requires |Marshalled(Separate, o, x, ty, v)| < WORD && |Marshalled(InPlace, o, y, ty, v)| < WORD
    ensures Off(Placed(o, ty, v, x, y), Marshalled(Separate, o, x, ty, v), Marshalled(InPlace, o, y, ty, v))
    decreases v, 2
  {
    hide Congruent, Multiple, Pad, Body, BodyPlaced, HalfApart, Off, HasType, VariantsOk, Supported, Zeros;
    var al := AlignOf(ty);
    HalfCongruent(al, x, y);
    if al == 8 {
      EightOffStep(o, ty, v, x, y);
    } else {
      CongruentPad(al, x, y);
      var z := Pad(x, al);
      HalfShift(x, y, z);
      BodyOffStep(o, ty, v, x + z, y + z);
      OffOne(BodyPlaced(o, ty, v, x + z, y + z), Zeros(z), Body(Separate, o, x + z, ty, v),
        Body(InPlace, o, y + z, ty, v));
    }
  }

  /** A number of 8 bytes or a struct is padded differently. */
  lemma {:induction false} EightOffStep(o: Order, ty: Ty, v: Val, x: nat, y: nat)
    requires Encodable(ty, v) && HalfApart(x, y) && AlignOf(ty) == 8
    requires |Marshalled(Separate, o, x, ty, v)| < WORD && |Marshalled(InPlace, o, y, ty, v)| < WORD
    ensures Off(false, Marshalled(Separate, o, x, ty, v), Marshalled(InPlace, o, y, ty, v))
    decreases v, 1
  {
    hide Congruent, Multiple, Pad, HalfApart, Differ, Shifted, Related, Zeros, FieldsPlaced, Fields;
    HalfPads(x, y);
    var m, n := Pad(x, 8), Pad(y, 8);
    var c, d := Body(Separate, o, x + m, ty, v), Body(InPlace, o, y + n, ty, v);
    AlignedCongruent(8, x + m, y + n);
    if ty.TStruct? {
      FieldsInStep(o, ty.fields, v.fields, 0, x + m, y + n);
      PaddedApart([], m, n, c, d, FieldsPlaced(o, ty.fields, v.fields, 0, x + m, y + n));
    } else {
      RelatedSame(c);
      PaddedApart([], m, n, c, d, true);
    }
    assert [] + (Zeros(m) + c) == Zeros(m) + c && [] + (Zeros(n) + d) == Zeros(n) + d;
  }

  lemma {:induction false} BodyOffStep(o: Order, ty: Ty, v: Val, x: nat, y: nat)
    requires Encodable(ty, v) && HalfApart(x, y) && AlignOf(ty) < 8 && Multiple(AlignOf(ty), y)
    requires |Body(Separate, o, x, ty, v)| < WORD && |Body(InPlace, o, y, ty, v)| < WORD
    ensures Off(BodyPlaced(o, ty, v, x, y), Body(Separate, o, x, ty, v), Body(InPlace, o, y, ty, v))
    decreases v, 1
  {
    hide Congruent, Multiple, Pad, HalfApart, Off, Placed, Marshalled, Elems, Entries, Fields;
    hide ElemsPlaced, EntriesPlaced, FieldsPlaced, PutUint, Body, BodyPlaced, VariantsOk;
    match ty
    case TVariant => VariantOffStep(o, v, x, y);
    case TArray(e) => if AlignOf(e) == 8 { WideOffStep(o, e, v, x, y); } else { NarrowOffStep(o, e, v, x, y); }
    case TDict(k, u) => DictOffStep(o, k, u, v, x, y);
    case TNum(_) => PlainOffStep(o, ty, v, x, y);
    case TBool => PlainOffStep(o, ty, v, x, y);
    case TStr(_) => PlainOffStep(o, ty, v, x, y);
    case TAny =>
  }

  lemma PlainOffStep(o: Order, ty: Ty, v: Val, x: nat, y: nat)
    requires Encodable(ty, v) && BasicKey(ty)
    ensures Off(BodyPlaced(o, ty, v, x, y), Body(Separate, o, x, ty, v), Body(InPlace, o, y, ty, v))
  {
    hide PutUint, Differ, Shifted;
  }

  lemma {:induction false} VariantOffStep(o: Order, v: Val, x: nat, y: nat)
    requires Encodable(TVariant, v) && HalfApart(x, y)
    requires |Body(Separate, o, x, TVariant, v)| < WORD && |Body(InPlace, o, y, TVariant, v)| < WORD
    ensures Off(BodyPlaced(o, TVariant, v, x, y), Body(Separate, o, x, TVariant, v), Body(InPlace, o, y, TVariant, v))
    decreases v, 0
  {
    hide HalfApart, Off, Placed, Marshalled, SigBytes, SigOf, Congruent, Multiple, ElemsPlaced, EntriesPlaced;
    hide FieldsPlaced;
    var s := SigBytes(SigOf(v.ty));
    HalfShift(x, y, |s|);
    OffStep(o, v.ty, v.val, x + |s|, y + |s|);
    OffOne(Placed(o, v.ty, v.val, x + |s|, y + |s|), s,
      Marshalled(Separate, o, x + |s|, v.ty, v.val), Marshalled(InPlace, o, y + |s|, v.ty, v.val));
  }

  /** The paddings before the contents differ by four bytes. */
  lemma ArrayApart(o: Order, x: nat, y: nat, alike: bool, c: seq<byte>, d: seq<byte>)
    requires HalfApart(x, y) && Related(alike, c, d) && |c| < WORD && |d| < WORD
    ensures Off(false, ArrayBytes(o, x, 8, c), ArrayBytes(o, y, 8, d))
  {
    hide Pad, PutUint, HalfApart, Clash, Zeros, Differ, Shifted;
    var a, b := ArrayBytes(o, x, 8, c), ArrayBytes(o, y, 8, d);
    HalfShift(x, y, 4);
    HalfPads(x + 4, y + 4);
    var m, n, l, k := Pad(x + 4, 8), Pad(y + 4, 8), PutUint(o, 4, |c|), PutUint(o, 4, |d|);
    assert a == l + (Zeros(m) + c) && b == k + (Zeros(n) + d);
    if |c| == |d| {
      PaddedApart(l, m, n, c, d, alike);
    } else {
      RelatedParts(alike, c, d);
      LengthWords(o, |c|, |d|);
      DifferIn([], l, k, Zeros(m) + c, Zeros(n) + d);
      assert [] + l + (Zeros(m) + c) == a && [] + k + (Zeros(n) + d) == b;
    }
  }

  lemma {:induction false} WideOffStep(o: Order, e: Ty, v: Val, x: nat, y: nat)
    requires Encodable(TArray(e), v) && HalfApart(x, y) && Multiple(4, y) && AlignOf(e) == 8
    requires |Body(Separate, o, x, TArray(e), v)| < WORD && |Body(InPlace, o, y, TArray(e), v)| < WORD
    ensures Off(BodyPlaced(o, TArray(e), v, x, y), Body(Separate, o, x, TArray(e), v),
        Body(InPlace, o, y, TArray(e), v))
    decreases v, 0
  {
    hide Congruent, Pad, HalfApart, Off, Related, Elems, ElemsPlaced, PutUint;
    var start := ContentStart(y, 8);
    ContentAligned(y, 8);
    AlignedCongruent(8, 0, start);
    HalfCongruent(8, x, y);
    ElemsInStep(o, e, v.elems, 0, 0, start);
    ArrayApart(o, x, y, ElemsPlaced(o, e, v.elems, 0, 0, start),
      Elems(Separate, o, 0, e, v.elems, 0), Elems(InPlace, o, start, e, v.elems, 0));
  }

  lemma {:induction false} DictOffStep(o: Order, k: Ty, u: Ty, v: Val, x: nat, y: nat)
    requires Encodable(TDict(k, u), v) && HalfApart(x, y) && Multiple(4, y)
    requires |Body(Separate, o, x, TDict(k, u), v)| < WORD && |Body(InPlace, o, y, TDict(k, u), v)| < WORD
    ensures Off(BodyPlaced(o, TDict(k, u), v, x, y), Body(Separate, o, x, TDict(k, u), v),
        Body(InPlace, o, y, TDict(k, u), v))
    decreases v, 0
  {
    hide Congruent, Pad, HalfApart, Off, Related, Entries, EntriesPlaced, PutUint;
    var start := ContentStart(y, 8);
    ContentAligned(y, 8);
    AlignedCongruent(8, 0, start);
    HalfCongruent(8, x, y);
    EntriesInStep(o, k, u, v.entries, 0, 0, start);
    ArrayApart(o, x, y, EntriesPlaced(o, k, u, v.entries, 0, 0, start),
      Entries(Separate, o, 0, k, u, v.entries, 0), Entries(InPlace, o, start, k, u, v.entries, 0));
  }

  lemma {:induction false} NarrowOffStep(o: Order, e: Ty, v: Val, x: nat, y: nat)
    requires Encodable(TArray(e), v) && HalfApart(x, y) && Multiple(4, y) && AlignOf(e) < 8
    requires |Body(Separate, o, x, TArray(e), v)| < WORD && |Body(InPlace, o, y, TArray(e), v)| < WORD
    ensures Off(BodyPlaced(o, TArray(e), v, x, y), Body(Separate, o, x, TArray(e), v),
        Body(InPlace, o, y, TArray(e), v))
    decreases v, 0
  {
    hide Congruent, Multiple, Pad, HalfApart, Differ, Elems, ElemsPlaced, PutUint;
    var start := ContentStart(y, AlignOf(e));
    ContentAligned(y, AlignOf(e));
    HalfCongruent(AlignOf(e), x, y);
    Contents(o, e, v.elems, start);
    RelatedArray(o, x, y, AlignOf(e), ElemsPlaced(o, e, v.elems, 0, 0, start),
      Elems(Separate, o, 0, e, v.elems, 0), Elems(InPlace, o, start, e, v.elems, 0));
  }

  lemma ElemsPlacedHead(o: Order, e: Ty, vs: seq<Val>, i: nat, x: nat, y: nat)
    requires i <= |vs| && AllEncodable(e, vs)
    ensures i < |vs| ==>
      var n := |Marshalled(InPlace, o, y, e, vs[i])|;
      ElemsPlaced(o, e, vs, i, x, y) == (Placed(o, e, vs[i], x, y) && ElemsPlaced(o, e, vs, i + 1, x + n, y + n))
    ensures i == |vs| ==> ElemsPlaced(o, e, vs, i, x, y)
  {
    hide Marshalled, Placed;
  }

  lemma OffParts(alike: bool, a: seq<byte>, b: seq<byte>)
    requires Off(alike, a, b)
    ensures if alike then a == b else Differ(a, b) || Shifted(a, b)
  {
    hide Differ, Shifted;
  }

  lemma {:induction false} ElemsOffStep(o: Order, e: Ty, vs: seq<Val>, i: nat, x: nat, y: nat)
    requires i <= |vs| && AllEncodable(e, vs) && HalfApart(x, y)
    requires |Elems(Separate, o, x, e, vs, i)| < WORD && |Elems(InPlace, o, y, e, vs, i)| < WORD
    ensures Elems(Separate, o, x, e, vs, i) == Elems(InPlace, o, y, e, vs, i) <==> ElemsPlaced(o, e, vs, i, x, y)
    decreases vs, |vs| - i
  {
    hide Congruent, Pad, Marshalled, Elems, Placed, ElemsPlaced, Off, Related, HasType, VariantsOk, HalfApart, Differ;
    hide Shifted;
    ElemsHead(Separate, o, x, e, vs, i);
    ElemsHead(InPlace, o, y, e, vs, i);
    ElemsPlacedHead(o, e, vs, i, x, y);
    if i < |vs| {
      var a, b := Marshalled(Separate, o, x, e, vs[i]), Marshalled(InPlace, o, y, e, vs[i]);
      var s, t := Elems(Separate, o, x + |a|, e, vs, i + 1), Elems(InPlace, o, y + |b|, e, vs, i + 1);
      OffStep(o, e, vs[i], x, y);
      OffParts(Placed(o, e, vs[i], x, y), a, b);
      if Placed(o, e, vs[i], x, y) {
        HalfShift(x, y, |b|);
        ElemsOffStep(o, e, vs, i + 1, x + |b|, y + |b|);
        SamePrefix(b, s, t);
      } else if Differ(a, b) {
        DifferentWhole(a, b, s, t);
      } else {
        ShiftedRest(o, e, vs, i + 1, x, y, a, b);
      }
    }
  }

  lemma {:induction false} ShiftedRest(o: Order, e: Ty, vs: seq<Val>, i: nat, x: nat, y: nat, a: seq<byte>,
      b: seq<byte>)
    requires i <= |vs| && AllEncodable(e, vs) && HalfApart(x, y) && Shifted(a, b)
    requires |Elems(Separate, o, x + |a|, e, vs, i)| < WORD && |Elems(InPlace, o, y + |b|, e, vs, i)| < WORD
    ensures a + Elems(Separate, o, x + |a|, e, vs, i) != b + Elems(InPlace, o, y + |b|, e, vs, i)
    decreases vs, |vs| - i + 1, 0
  {
    hide Congruent, Elems, ElemsPlaced, Related, HasType, VariantsOk, HalfApart, Shifted;
    ShiftLengths(a, b);
    AfterShift(x, y, |a|, |b|);
    ElemsInStep(o, e, vs, i, x + |a|, y + |b|);
    ShiftRemains(a, b, ElemsPlaced(o, e, vs, i, x + |a|, y + |b|),
      Elems(Separate, o, x + |a|, e, vs, i), Elems(InPlace, o, y + |b|, e, vs, i));
  }

  lemma DifferentWhole(a: seq<byte>, b: seq<byte>, s: seq<byte>, t: seq<byte>)
    requires Differ(a, b)
    ensures a + s != b + t
  {
    var i :| 0 <= i < |a| && i < |b| && a[i] != b[i];
    assert (a + s)[i] == a[i] && (b + t)[i] == b[i];
  }

  // ---------------------------------------------------------------- the exact condition

  /** Arguments appended at any offset have the wire format if and only if every part of them is
      placed alike in its buffer and in the message. */
  lemma LayoutExact(o: Order, off: nat, tys: seq<Ty>, vs: seq<Val>)
    requires FieldsEncodable(tys, vs)
    requires |Fields(Separate, o, off, tys, vs, 0)| < WORD && |Fields(InPlace, o, off, tys, vs, 0)| < WORD
    ensures Fields(Separate, o, off, tys, vs, 0) == Fields(InPlace, o, off, tys, vs, 0)
       <==> FieldsPlaced(o, tys, vs, 0, off, off)
  {
    hide Fields, FieldsPlaced, Related, Congruent;
    CongruentSelf(8, off);
    FieldsInStep(o, tys, vs, 0, off, off);
    RelatedParts(FieldsPlaced(o, tys, vs, 0, off, off), Fields(Separate, o, off, tys, vs, 0),
      Fields(InPlace, o, off, tys, vs, 0));
  }

  /** Relocatable arguments are placed alike at every offset. */
  lemma RelocatablePlaced(o: Order, off: nat, tys: seq<Ty>, vs: seq<Val>)
    requires FieldsEncodable(tys, vs) && |Fields(Separate, o, off, tys, vs, 0)| < WORD
    requires forall i :: 0 <= i < |tys| ==> Relocatable(tys[i], vs[i])
    ensures |Fields(InPlace, o, off, tys, vs, 0)| < WORD && FieldsPlaced(o, tys, vs, 0, off, off)
  {
    hide Fields, FieldsPlaced, Relocatable;
    FieldsSeparateIsInPlace(o, off, tys, vs, 0);
    LayoutExact(o, off, tys, vs);
  }

  /** So is any array of elements of alignment 4 that are relocatable, if its contents happen to
      start at a multiple of 8. */
  lemma LuckyArray(o: Order, off: nat, e: Ty, v: Val)
    requires Encodable(TArray(e), v) && AlignOf(e) == 4 && off % 8 == 4
    requires forall i :: 0 <= i < |v.elems| ==> Relocatable(e, v.elems[i])
    ensures Marshalled(Separate, o, off, TArray(e), v) == Marshalled(InPlace, o, off, TArray(e), v)
  {
    hide Relocatable, Elems, PutUint, MaxOver, Supported, Pad;
    FourMore(off);
    ElemsOf(e, v);
    NarrowContents(o, off + 4, e, v.elems);
    CongruentWeaken(4, 4, 0, off);
    assert Pad(off, 4) == 0 && Pad(off + 4, 4) == 0;
  }

  lemma ElemsOf(e: Ty, v: Val)
    requires Encodable(TArray(e), v)
    ensures v.VArray? && AllEncodable(e, v.elems)
  {
  }

  lemma NarrowContents(o: Order, start: nat, e: Ty, vs: seq<Val>)
    requires AllEncodable(e, vs) && Multiple(8, start)
    requires forall i :: 0 <= i < |vs| ==> Relocatable(e, vs[i])
    ensures Elems(Separate, o, 0, e, vs, 0) == Elems(InPlace, o, start, e, vs, 0)
  {
    hide Relocatable, Elems, MaxOver, HasType, VariantsOk, Supported, Multiple;
    ElemsSeparateIsInPlace(o, 0, e, vs, 0);
    ZeroAligned();
    AlignedCongruent(8, 0, start);
    CongruentWeaken(8, MaxOver(e, vs, 0), 0, start);
    ElemsRelocation(InPlace, o, 0, start, e, vs, 0);
  }

  lemma FourMore(off: nat)
    requires off % 8 == 4
    ensures Multiple(4, off) && Multiple(4, off + 4) && Multiple(8, off + 4) && Congruent(4, 0, off)
  {
    HalfIsFour(off);
    ModFour(off, 1);
    ModEight(off - 4, 1);
    AlignedCongruent(4, 0, off);
  }
}
