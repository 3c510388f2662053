/** The octets on the wire, written out. */
module Octets {
  import opened Bytes
  import opened Types
  import opened Values
  import opened Marshal
  import opened Unmarshal

  // ---------------------------------------------------------------- numbers

  /** The octets `s` stand for `n`, with the first or the last octet the most significant. */
  predicate Stands(o: Order, s: seq<int>, n: int) {
    if |s| == 1 then n == s[0]
    else if |s| == 2 then n == if o == Little then s[0] + s[1] * 0x100 else s[1] + s[0] * 0x100
    else if |s| == 4 then
      n == if o == Little then s[0] + s[1] * 0x100 + s[2] * 0x1_0000 + s[3] * 0x100_0000
           else s[3] + s[2] * 0x100 + s[1] * 0x1_0000 + s[0] * 0x100_0000
    else
      |s| == 8 &&
      n == if o == Little
           then s[0] + s[1] * 0x100 + s[2] * 0x1_0000 + s[3] * 0x100_0000 + s[4] * 0x1_0000_0000
                + s[5] * 0x100_0000_0000 + s[6] * 0x1_0000_0000_0000 + s[7] * 0x100_0000_0000_0000
           else s[7] + s[6] * 0x100 + s[5] * 0x1_0000 + s[4] * 0x100_0000 + s[3] * 0x1_0000_0000
                + s[2] * 0x100_0000_0000 + s[1] * 0x1_0000_0000_0000 + s[0] * 0x100_0000_0000_0000
  }

  /** One octet more at the most significant end. */
  lemma {:induction false} MostSignificant(s: seq<byte>, b: byte)
    ensures GetUint(Little, s + [b]) == GetUint(Little, s) + b * Pow256(|s|)
    ensures GetUint(Big, [b] + s) == b * Pow256(|s|) + GetUint(Big, s)
  {
    LittleAppended(s, b);
    assert Reverse([b] + s) == Reverse(s) + [b];
    LittleAppended(Reverse(s), b);
  }

  lemma {:induction false} LittleAppended(s: seq<byte>, b: byte)
    ensures LittleEndianValue(s + [b]) == LittleEndianValue(s) + b * Pow256(|s|)
  {
    if s == [] {
      assert s + [b] == [b] && [b][1..] == [];
    } else {
      assert (s + [b])[1..] == s[1..] + [b];
      LittleAppended(s[1..], b);
    }
  }

  lemma Powers()
    ensures Pow256(0) == 1 && Pow256(1) == 0x100 && Pow256(2) == 0x1_0000 && Pow256(3) == 0x100_0000
    ensures Pow256(4) == 0x1_0000_0000 && Pow256(5) == 0x100_0000_0000
    ensures Pow256(6) == 0x1_0000_0000_0000 && Pow256(7) == 0x100_0000_0000_0000
  {
    assert Pow256(1) == 0x100 * Pow256(0) && Pow256(2) == 0x100 * Pow256(1) && Pow256(3) == 0x100 * Pow256(2);
    assert Pow256(4) == 0x100 * Pow256(3) && Pow256(5) == 0x100 * Pow256(4) && Pow256(6) == 0x100 * Pow256(5);
    assert Pow256(7) == 0x100 * Pow256(6);
  }

  /** What order.Uint16, Uint32 and Uint64 read. */
  lemma ReadsAs(o: Order, s: seq<byte>)
    requires |s| == 1 || |s| == 2 || |s| == 4 || |s| == 8
    ensures Stands(o, s, GetUint(o, s))
  {
    hide Reverse, Pow256;
    Powers();
    if o == Little { LittleReads(s); } else { BigReads(s); }
  }

  lemma LittleReads(s: seq<byte>)
    requires |s| == 1 || |s| == 2 || |s| == 4 || |s| == 8
    ensures Stands(Little, s, LittleEndianValue(s))
  {
    hide LittleEndianValue;
    Digit(s, 0);
    if |s| >= 2 { Digit(s, 1); }
    if |s| >= 4 {
      Digit(s, 2);
      Digit(s, 3);
    }
    if |s| == 8 {
      Digit(s, 4);
      Digit(s, 5);
      Digit(s, 6);
      Digit(s, 7);
    }
    assert s[0..] == s;
  }

  lemma Digit(s: seq<byte>, i: nat)
    requires i < |s|
    ensures LittleEndianValue(s[i..]) == s[i] + 0x100 * if i + 1 < |s| then LittleEndianValue(s[i + 1..]) else 0
  {
    assert s[i..][1..] == s[i + 1..];
  }

  lemma BigReads(s: seq<byte>)
    requires |s| == 1 || |s| == 2 || |s| == 4 || |s| == 8
    ensures Stands(Big, s, GetUint(Big, s))
  {
    LittleReads(Reverse(s));
  }

  /** What order.PutUint16, PutUint32 and PutUint64 write. */
  lemma WritesAs(o: Order, w: Alignment, n: nat)
    requires n < Pow256(w)
    ensures Stands(o, PutUint(o, w, n), n)
  {
    ReadsAs(o, PutUint(o, w, n));
    UintRoundTrip(o, w, n);
  }

  // ---------------------------------------------------------------- what is written

  /** The first z octets are zeros, up to the next multiple of a. */
  predicate Padding(b: seq<byte>, x: nat, a: nat, z: nat)
    requires a > 0
  {
    z < a && (x + z) % a == 0 && z <= |b| && forall i :: 0 <= i < z ==> b[i] == 0
  }

  lemma Padded(x: nat, a: Alignment, rest: seq<byte>)
    ensures var b := Zeros(Pad(x, a)) + rest;
      Padding(b, x, a, |b| - |rest|) && b[|b| - |rest|..] == rest && |b| - |rest| == Pad(x, a)
  {
    PadIsNext(x, a);
  }

  lemma PadIsNext(x: nat, a: Alignment)
    ensures Pad(x, a) < a && (x + Pad(x, a)) % a == 0
  {
  }

  /** encoder.go's alignForType. */
  lemma Alignments(e: Ty, k: Ty, ts: seq<Ty>)
    ensures AlignOf(TNum(U8)) == 1 && AlignOf(TNum(I16)) == 2 && AlignOf(TNum(U16)) == 2
    ensures AlignOf(TNum(I32)) == 4 && AlignOf(TNum(U32)) == 4 && AlignOf(TBool) == 4
    ensures AlignOf(TNum(I64)) == 8 && AlignOf(TNum(U64)) == 8 && AlignOf(TNum(F64)) == 8
    ensures AlignOf(TStr(Str)) == 4 && AlignOf(TStr(Path)) == 4 && AlignOf(TStr(Sig)) == 1 && AlignOf(TVariant) == 1
    ensures AlignOf(TArray(e)) == 4 && AlignOf(TDict(k, e)) == 4 && AlignOf(TStruct(ts)) == 8
  {
  }

  /** The numbers of each kind, and the octets they take. */
  lemma Ranges(n: int)
    ensures InRange(U8, n) <==> 0 <= n < 256
    ensures InRange(I16, n) <==> -32768 <= n < 32768
    ensures InRange(U16, n) <==> 0 <= n < 65536
    ensures InRange(I32, n) <==> -2147483648 <= n < 2147483648
    ensures InRange(U32, n) <==> 0 <= n < 4294967296
    ensures InRange(I64, n) <==> -9223372036854775808 <= n < 9223372036854775808
    ensures InRange(U64, n) <==> 0 <= n < 18446744073709551616
    ensures InRange(F64, n) <==> 0 <= n < 18446744073709551616
  {
  }

  /** How many octets a number takes, by the letter of its type. */
  function Size(k: Num): Alignment {
    if k == U8 then 1 else if k == I16 || k == U16 then 2 else if k == I32 || k == U32 then 4 else 8
  }

  /** What a two's complement number is as an unsigned one. */
  function Unsigned(k: Num, n: int): int {
    if n >= 0 then n
    else n + if Size(k) == 1 then 0x100 else if Size(k) == 2 then 0x1_0000
             else if Size(k) == 4 then 0x1_0000_0000 else 0x1_0000_0000_0000_0000
  }

  lemma NumberOctets(p: Placement, o: Order, x: nat, k: Num, v: Val)
    requires Encodable(TNum(k), v)
    ensures var b, w := Marshalled(p, o, x, TNum(k), v), Size(k);
      |b| >= w && Padding(b, x, w, |b| - w) && Stands(o, b[|b| - w..], Unsigned(k, v.n))
  {
    hide PutUint, Pad, Pow256, Stands, Padding, ToBits, Unsigned, InRange, Zeros, Modulus, Size, Marshalled;
    NumberIn(p, o, x, k, v);
    SizeIsWidth(k);
    UnsignedBits(k, v.n);
    ModulusIsPow(k);
    Padded(x, Width(k), PutUint(o, Width(k), ToBits(k, v.n)));
    WritesAs(o, Width(k), ToBits(k, v.n));
  }

  lemma NumberIn(p: Placement, o: Order, x: nat, k: Num, v: Val)
    requires Encodable(TNum(k), v)
    ensures v.VNum? && InRange(k, v.n)
    ensures Marshalled(p, o, x, TNum(k), v) == Zeros(Pad(x, Width(k))) + PutUint(o, Width(k), ToBits(k, v.n))
  {
    hide PutUint, Pad, Zeros, ToBits, InRange;
  }

  lemma SizeIsWidth(k: Num)
    ensures Size(k) == Width(k)
  {
  }

  lemma UnsignedBits(k: Num, n: int)
    requires InRange(k, n)
    ensures ToBits(k, n) == Unsigned(k, n)
  {
  }

  lemma BoolOctets(p: Placement, o: Order, x: nat, v: Val)
    requires Encodable(TBool, v)
    ensures var b := Marshalled(p, o, x, TBool, v);
      && |b| >= 4 && Padding(b, x, 4, |b| - 4)
      && b[|b| - 4..] == if !v.flag then [0, 0, 0, 0] else if o == Little then [1, 0, 0, 0] else [0, 0, 0, 1]
  {
    hide Pad;
    var n := if v.flag then 1 else 0;
    Padded(x, 4, PutUint(o, 4, n));
    WordOctets(n);
  }

  lemma WordOctets(n: byte)
    ensures PutUint(Little, 4, n) == [n, 0, 0, 0] && PutUint(Big, 4, n) == [0, 0, 0, n]
  {
    assert LittleEndian(1, 0) == [0] && LittleEndian(2, 0) == [0, 0] && LittleEndian(3, 0) == [0, 0, 0];
    assert LittleEndian(4, n) == [n, 0, 0, 0];
  }

  /** Strings and object paths: the length, the text and a zero. */
  lemma TextOctets(p: Placement, o: Order, x: nat, k: StrKind, v: Val)
    requires Encodable(TStr(k), v) && k != Sig && |v.text| < 0x1_0000_0000
    ensures var b, n := Marshalled(p, o, x, TStr(k), v), |v.text|;
      && |b| >= n + 5 && Padding(b, x, 4, |b| - n - 5)
      && Stands(o, b[|b| - n - 5..|b| - n - 1], n) && b[|b| - n - 1..|b| - 1] == v.text && b[|b| - 1] == 0
  {
    hide PutUint, Stands, Pow256, Padding, Marshalled, Pad, Zeros, HasType, VariantsOk;
    assert v.VStr? by { TextTyped(k, v); }
    Powers();
    WritesAs(o, 4, |v.text|);
    TextMarshalled(p, o, x, k, v);
    TextShape(x, PutUint(o, 4, |v.text|), v.text);
  }

  lemma TextTyped(k: StrKind, v: Val)
    requires HasType(v, TStr(k))
    ensures v.VStr?
  {
  }

  lemma TextMarshalled(p: Placement, o: Order, x: nat, k: StrKind, v: Val)
    requires Encodable(TStr(k), v) && k != Sig
    ensures Marshalled(p, o, x, TStr(k), v) == Zeros(Pad(x, 4)) + (PutUint(o, 4, |v.text|) + v.text + [0])
  {
    hide Pad, PutUint, Zeros;
  }

  lemma TextShape(x: nat, w: seq<byte>, t: seq<byte>)
    requires |w| == 4
    ensures var b, n := Zeros(Pad(x, 4)) + (w + t + [0]), |t|;
      && |b| >= n + 5 && Padding(b, x, 4, |b| - n - 5)
      && b[|b| - n - 5..|b| - n - 1] == w && b[|b| - n - 1..|b| - 1] == t && b[|b| - 1] == 0
  {
    hide Pad, Padding, Zeros;
    Padded(x, 4, w + t + [0]);
    ZerosLength(Pad(x, 4));
    Sliced(Zeros(Pad(x, 4)), w, t, [0]);
  }

  lemma Sliced(a: seq<byte>, b: seq<byte>, c: seq<byte>, d: seq<byte>)
    ensures var s := a + (b + c + d);
      && |s| == |a| + |b| + |c| + |d| && s[|a|..] == b + (c + d) && s[|a|..|a| + |b|] == b
      && s[|a| + |b|..] == c + d && s[|a| + |b|..|a| + |b| + |c|] == c && s[|a| + |b| + |c|..] == d
  {
  }

  /** Signatures: one length octet, the text and a zero, without padding. */
  lemma SignatureOctets(p: Placement, o: Order, x: nat, v: Val)
    requires Encodable(TStr(Sig), v) && |v.text| < 256
    ensures Marshalled(p, o, x, TStr(Sig), v) == [|v.text|] + v.text + [0]
  {
    assert Pad(x, 1) == 0 && Zeros(0) == [];
  }

  /** Variants: the signature of the payload, and the payload where it then is. */
  lemma VariantOctets(p: Placement, o: Order, x: nat, v: Val)
    requires Encodable(TVariant, v) && |SigOf(v.ty)| < 256
    ensures var s := SigOf(v.ty);
      Marshalled(p, o, x, TVariant, v) == [|s|] + s + [0] + Marshalled(p, o, x + |s| + 2, v.ty, v.val)
  {
    hide SigOf, Marshalled, SigBytes;
    VariantMarshalled(p, o, x, v);
    SignatureBytes(SigOf(v.ty));
  }

  lemma VariantMarshalled(p: Placement, o: Order, x: nat, v: Val)
    requires Encodable(TVariant, v)
    ensures var s := SigBytes(SigOf(v.ty));
      Marshalled(p, o, x, TVariant, v) == s + Marshalled(p, o, x + |s|, v.ty, v.val)
  {
    hide SigOf, SigBytes;
    var b := Body(p, o, x, TVariant, v);
    assert Pad(x, 1) == 0 && Zeros(0) + b == b;
  }

  lemma SignatureBytes(s: Signature)
    requires |s| < 256
    ensures SigBytes(s) == [|s|] + s + [0] && |SigBytes(s)| == |s| + 2
  {
  }

  /** Arrays: the length of the contents alone, padding for the elements, the contents. */
  lemma ArrayOctets(p: Placement, o: Order, x: nat, e: Ty, v: Val)
    requires Encodable(TArray(e), v)
    ensures exists z: nat, y: nat, c: seq<byte> ::
      && Contained(o, x, AlignOf(e), Marshalled(p, o, x, TArray(e), v), z, y, c)
      && c == Elems(p, o, if p == Separate then 0 else x + z + 4 + y, e, v.elems, 0)
  {
    hide Pad, Elems, AlignOf, PutUint, Contained;
    assert AlignOf(TArray(e)) == 4 by { Alignments(e, e, []); }
    var z := Pad(x, 4);
    var y := Pad(x + z + 4, AlignOf(e));
    var c := Elems(p, o, if p == Separate then 0 else x + z + 4 + y, e, v.elems, 0);
    ContainedIn(o, x, AlignOf(e), c);
    assert Marshalled(p, o, x, TArray(e), v) == Zeros(z) + ArrayBytes(o, x + z, AlignOf(e), c);
  }

  lemma DictOctets(p: Placement, o: Order, x: nat, k: Ty, u: Ty, v: Val)
    requires Encodable(TDict(k, u), v)
    ensures exists z: nat, y: nat, c: seq<byte> ::
      && Contained(o, x, 8, Marshalled(p, o, x, TDict(k, u), v), z, y, c)
      && c == Entries(p, o, if p == Separate then 0 else x + z + 4 + y, k, u, v.entries, 0)
  {
    hide Pad, Entries, PutUint, Contained;
    var z := Pad(x, 4);
    var y := Pad(x + z + 4, 8);
    var c := Entries(p, o, if p == Separate then 0 else x + z + 4 + y, k, u, v.entries, 0);
    ContainedIn(o, x, 8, c);
    assert Marshalled(p, o, x, TDict(k, u), v) == Zeros(z) + ArrayBytes(o, x + z, 8, c);
  }

  /** z octets of padding, a length word, y octets of padding, and contents of that length. */
  ghost predicate Contained(o: Order, x: nat, a: Alignment, b: seq<byte>, z: nat, y: nat, c: seq<byte>) {
    && |b| == z + 4 + y + |c| && Padding(b, x, 4, z) && Padding(b[z + 4..], x + z + 4, a, y)
    && b[z + 4 + y..] == c && (|c| < 0x1_0000_0000 ==> Stands(o, b[z..z + 4], |c|))
  }

  lemma ContainedIn(o: Order, x: nat, a: Alignment, c: seq<byte>)
    ensures
      var z := Pad(x, 4);
      var y := Pad(x + z + 4, a);
      Contained(o, x, a, Zeros(z) + ArrayBytes(o, x + z, a, c), z, y, c)
  {
    hide Pad, PutUint, Stands, Pow256, Padding, Zeros, Contained;
    if |c| < 0x1_0000_0000 {
      Powers();
      WritesAs(o, 4, |c|);
    }
    var z, y := Pad(x, 4), Pad(x + Pad(x, 4) + 4, a);
    var w := PutUint(o, 4, |c|);
    PaddedAt(x, 4, w + Zeros(y) + c);
    PaddedAt(x + z + 4, a, c);
    InParts(o, x, a, Zeros(z), w, Zeros(y), c, z, y);
  }

  lemma PaddedAt(x: nat, a: Alignment, rest: seq<byte>)
    ensures |Zeros(Pad(x, a))| == Pad(x, a) && Padding(Zeros(Pad(x, a)) + rest, x, a, Pad(x, a))
  {
    PadIsNext(x, a);
  }

  lemma InParts(o: Order, x: nat, a: Alignment, zs: seq<byte>, w: seq<byte>, ys: seq<byte>, c: seq<byte>,
      z: nat, y: nat)
    requires |w| == 4 && (|c| < 0x1_0000_0000 ==> Stands(o, w, |c|)) && |zs| == z && |ys| == y
    requires Padding(zs + (w + ys + c), x, 4, z) && Padding(ys + c, x + z + 4, a, y)
    ensures Contained(o, x, a, zs + (w + ys + c), z, y, c)
  {
    hide Stands, Padding;
    Sliced(zs, w, ys, c);
    assert (zs + (w + ys + c))[z + 4..] == ys + c;
  }

  lemma StructOctets(p: Placement, o: Order, x: nat, ts: seq<Ty>, v: Val)
    requires Encodable(TStruct(ts), v)
    ensures exists z: nat ::
      && Padding(Marshalled(p, o, x, TStruct(ts), v), x, 8, z)
      && Marshalled(p, o, x, TStruct(ts), v)[z..] == Fields(p, o, x + z, ts, v.fields, 0)
  {
    hide Pad, Fields, Padding;
    var z := Pad(x, 8);
    Padded(x, 8, Fields(p, o, x + z, ts, v.fields, 0));
    assert Marshalled(p, o, x, TStruct(ts), v) == Zeros(z) + Fields(p, o, x + z, ts, v.fields, 0);
    assert Padding(Marshalled(p, o, x, TStruct(ts), v), x, 8, z);
  }

  lemma EntryOctets(p: Placement, o: Order, x: nat, k: Ty, u: Ty, e: Entry)
    requires Encodable(k, e.key) && Encodable(u, e.value)
    ensures exists z: nat ::
      && Padding(EntryBytes(p, o, x, k, u, e), x, 8, z)
      && var a := Marshalled(p, o, x + z, k, e.key);
         EntryBytes(p, o, x, k, u, e)[z..] == a + Marshalled(p, o, x + z + |a|, u, e.value)
  {
    hide Pad, Marshalled, Padding;
    var z := Pad(x, 8);
    ZerosLength(z);
    var a := Marshalled(p, o, x + z, k, e.key);
    Padded(x, 8, a + Marshalled(p, o, x + z + |a|, u, e.value));
    assert EntryBytes(p, o, x, k, u, e) == Zeros(z) + (a + Marshalled(p, o, x + z + |a|, u, e.value));
  }

  // ---------------------------------------------------------------- signatures

  /** y b n q i u x t d s o g v, as octets. */
  lemma SignatureLetters()
    ensures SigOf(TNum(U8)) == [121] && SigOf(TBool) == [98] && SigOf(TNum(I16)) == [110] && SigOf(TNum(U16)) == [113]
    ensures SigOf(TNum(I32)) == [105] && SigOf(TNum(U32)) == [117]
    ensures SigOf(TNum(I64)) == [120] && SigOf(TNum(U64)) == [116] && SigOf(TNum(F64)) == [100]
    ensures SigOf(TStr(Str)) == [115] && SigOf(TStr(Path)) == [111] && SigOf(TStr(Sig)) == [103]
    ensures SigOf(TVariant) == [118]
  {
  }

  /** a before an element, a{ and } around key and value, ( and ) around fields. */
  lemma SignatureShapes(e: Ty, k: Ty, ts: seq<Ty>, f: Ty)
    requires Supported(e) && Supported(k) && Supported(f) && forall i :: 0 <= i < |ts| ==> Supported(ts[i])
    ensures SigOf(TArray(e)) == [97] + SigOf(e) && SigOf(TDict(k, e)) == [97, 123] + SigOf(k) + SigOf(e) + [125]
    ensures SigOf(TStruct([])) == [40, 41]
    ensures SigOf(TStruct(ts + [f])) == SigOf(TStruct(ts))[..|SigOf(TStruct(ts))| - 1] + SigOf(f) + [41]
  {
    hide SigOf;
    SigOfShapes(e, k, ts);
    SigOfShapes(e, k, []);
    SigOfShapes(e, k, ts + [f]);
    SigsMore(ts, f, 0);
  }

  lemma SigOfShapes(e: Ty, k: Ty, ts: seq<Ty>)
    requires Supported(e) && Supported(k) && forall i :: 0 <= i < |ts| ==> Supported(ts[i])
    ensures SigOf(TArray(e)) == [97] + SigOf(e) && SigOf(TDict(k, e)) == [97, 123] + SigOf(k) + SigOf(e) + [125]
    ensures SigOf(TStruct(ts)) == [40] + SigsOf(ts, 0) + [41] && (ts == [] ==> SigsOf(ts, 0) == [])
  {
  }

  lemma {:induction false} SigsMore(ts: seq<Ty>, f: Ty, i: nat)
    requires i <= |ts| && Supported(f) && forall j :: 0 <= j < |ts| ==> Supported(ts[j])
    ensures SigsOf(ts + [f], i) == SigsOf(ts, i) + SigOf(f)
    decreases |ts| - i
  {
    hide SigOf, SigsOf;
    SigsHead(ts, i);
    SigsHead(ts + [f], i);
    if i < |ts| {
      SigsMore(ts, f, i + 1);
      assert SigOf(ts[i]) + (SigsOf(ts, i + 1) + SigOf(f)) == SigOf(ts[i]) + SigsOf(ts, i + 1) + SigOf(f);
    } else {
      SigsHead(ts + [f], i + 1);
    }
  }

  /** For instance ai, a{sv} and (iv). */
  lemma SignatureTexts()
    ensures SigOf(TArray(TNum(I32))) == [97, 105]
    ensures SigOf(TDict(TStr(Str), TVariant)) == [97, 123, 115, 118, 125]
    ensures SigOf(TStruct([TNum(I32), TVariant])) == [40, 105, 118, 41]
  {
    assert SigsOf([TNum(I32), TVariant], 2) == [] && SigsOf([TNum(I32), TVariant], 1) == [118];
  }

  /** The one-letter types, among them h, and the letters that begin longer ones. */
  lemma TypeLetters(c: byte)
    ensures NextType([c], 0) == Some(1) <==>
      c in {121, 98, 110, 113, 105, 117, 120, 116, 100, 115, 111, 103, 118, 104}
    ensures NextType([97, c], 0) == Some(2) <==> NextType([c], 0) == Some(1)
    ensures NextType([40, c, 41], 0) == Some(3) <==> NextType([c], 0) == Some(1)
    ensures NextType([123, c, c, 125], 0) == Some(4) <==> NextType([c], 0) == Some(1)
  {
    assert NextType([c], 0).Some? ==> NextType([c], 0) == Some(1);
    var s, p, q := [97, c], [40, c, 41], [123, c, c, 125];
    assert s[1] == c && p[1] == c && q[1] == c && q[2] == c;
    if IsBasic(c) {
      assert NextType(s, 1) == Some(2);
      assert NextType(p, 1) == Some(2) && NextFields(p, 2) == Some(3) && NextFields(p, 1) == Some(3);
      assert NextType(q, 1) == Some(2) && NextType(q, 2) == Some(3);
    }
  }

  // ---------------------------------------------------------------- what is read

  /** The place after alignment. */
  predicate Next(off: nat, a: nat, at: nat)
    requires a > 0
  {
    off <= at < off + a && at % a == 0
  }

  lemma NextIsPad(off: nat, a: Alignment, at: nat)
    requires Next(off, a, at)
    ensures at == off + Pad(off, a)
  {
    if a == 8 { EightApart(off, at); } else if a == 4 { FourApart(off, at); }
  }

  lemma EightApart(off: nat, at: nat)
    requires off <= at < off + 8 && at % 8 == 0
    ensures at == off + Pad(off, 8)
  {
  }

  lemma FourApart(off: nat, at: nat)
    requires off <= at < off + 4 && at % 4 == 0
    ensures at == off + Pad(off, 4)
  {
  }

  /** A word at its place, if the data go that far. */
  lemma WordAt(d: Input, w: Alignment, off: nat, at: nat)
    requires Next(off, w, at)
    ensures |d.data| < at + w ==> ReadUint(d, w, off) == Overrun
    ensures at + w <= |d.data| ==>
      var r := ReadUint(d, w, off);
      r.Got? && r.off == at + w && Stands(d.order, d.data[at..at + w], r.value)
  {
    hide Pad, GetUint, Stands;
    NextIsPad(off, w, at);
    if at + w <= |d.data| { ReadsAs(d.order, d.data[at..at + w]); }
  }

  lemma WordFound(d: Input, w: Alignment, off: nat)
    ensures Next(off, w, off + Pad(off, w)) && forall at :: Next(off, w, at) ==> at == off + Pad(off, w)
    ensures ReadUint(d, w, off) ==
      var at := off + Pad(off, w);
      if |d.data| < at + w then Overrun else Got(GetUint(d.order, d.data[at..at + w]), at + w)
    ensures ReadUint(d, w, off).Got? ==>
      var at := off + Pad(off, w); Stands(d.order, d.data[at..at + w], ReadUint(d, w, off).value)
  {
    hide Pad, GetUint, Stands;
    PadIsNext(off, w);
    forall at | Next(off, w, at) ensures at == off + Pad(off, w) { NextIsPad(off, w, at); }
    WordAt(d, w, off, off + Pad(off, w));
  }

  lemma StandsOnce(o: Order, s: seq<int>, m: int, n: int)
    requires Stands(o, s, m) && Stands(o, s, n)
    ensures m == n
  {
  }

  /** The letters of the numbers. */
  function Letter(k: Num): byte {
    if k == U8 then 121 else if k == I16 then 110 else if k == U16 then 113 else if k == I32 then 105
    else if k == U32 then 117 else if k == I64 then 120 else if k == U64 then 116 else 100
  }

  lemma DecodesNumber(d: Input, sig: Signature, t: Ty, off: nat, soff: nat, k: Num, at: nat)
    requires soff < |sig| && sig[soff] == Letter(k) && Next(off, Size(k), at)
    ensures
      var r, end := Decode(d, sig, t, off, soff), at + Size(k);
      if |d.data| < end then r == Err(BufferOverrun)
      else if t != TNum(k) && t != TAny then r == Err(CouldNotDecode)
      else
        && r.Ok? && r.off == end && r.soff == soff + 1 && r.value.VNum? && r.value.num == k
        && InRange(k, r.value.n) && Stands(d.order, d.data[at..end], Unsigned(k, r.value.n))
  {
    hide ReadUint, Stands, FromBits, Modulus, Pow256, InRange, Unsigned, Decode;
    WordAt(d, Size(k), off, at);
    ModulusIsPow(k);
    IsNumberCode(d, sig, t, off, soff, k);
    var n := ReadUint(d, Width(k), off);
    if n.Got? { SignedValue(k, n.value); }
  }

  lemma IsNumberCode(d: Input, sig: Signature, t: Ty, off: nat, soff: nat, k: Num)
    requires soff < |sig| && sig[soff] == Letter(k)
    ensures Decode(d, sig, t, off, soff) == DecodeNum(d, k, t, off, soff + 1)
  {
    hide DecodeNum;
  }

  lemma SignedValue(k: Num, b: nat)
    requires b < Modulus(k)
    ensures InRange(k, FromBits(k, b)) && Unsigned(k, FromBits(k, b)) == b
  {
  }

  /** Any octet that is not zero makes a boolean true. */
  lemma DecodesBool(d: Input, sig: Signature, t: Ty, off: nat, soff: nat, at: nat)
    requires soff < |sig| && sig[soff] == 98 && Next(off, 4, at)
    ensures
      var r := Decode(d, sig, t, off, soff);
      if |d.data| < at + 4 then r == Err(BufferOverrun)
      else if t != TBool && t != TAny then r == Err(CouldNotDecode)
      else r == Ok(VBool(exists i :: at <= i < at + 4 && d.data[i] != 0), at + 4, soff + 1)
  {
    hide ReadUint;
    WordAt(d, 4, off, at);
    if at + 4 <= |d.data| {
      var s := d.data[at..at + 4];
      assert s[0] == d.data[at] && s[1] == d.data[at + 1] && s[2] == d.data[at + 2] && s[3] == d.data[at + 3];
    }
  }

  /** s and o: a length word, the text, and one octet more. */
  lemma DecodesText(d: Input, sig: Signature, t: Ty, off: nat, soff: nat, at: nat, n: nat)
    requires soff < |sig| && (sig[soff] == 115 || sig[soff] == 111) && Next(off, 4, at)
    requires at + 4 <= |d.data| ==> Stands(d.order, d.data[at..at + 4], n)
    ensures
      var r := Decode(d, sig, t, off, soff);
      if |d.data| < at + 4 || |d.data| < at + 4 + n + 1 then r == Err(BufferOverrun)
      else if !t.TStr? && t != TAny then r == Err(CouldNotDecode)
      else
        var k := if t.TStr? then t.kind else if sig[soff] == 115 then Str else Path;
        r == Ok(VStr(k, d.data[at + 4..at + 4 + n]), at + 4 + n + 1, soff + 1)
  {
    hide ReadUint, Stands;
    WordAt(d, 4, off, at);
    if at + 4 <= |d.data| { StandsOnce(d.order, d.data[at..at + 4], ReadUint(d, 4, off).value, n); }
  }

  /** g: a length octet, the text, and one octet more. */
  lemma DecodesSignature(d: Input, sig: Signature, t: Ty, off: nat, soff: nat)
    requires soff < |sig| && sig[soff] == 103
    ensures
      var r := Decode(d, sig, t, off, soff);
      if |d.data| <= off || |d.data| < off + 1 + d.data[off] + 1 then r == Err(BufferOverrun)
      else if !t.TStr? && t != TAny then r == Err(CouldNotDecode)
      else
        var n := d.data[off];
        r == Ok(VStr(if t.TStr? then t.kind else Sig, d.data[off + 1..off + 1 + n]), off + 1 + n + 1, soff + 1)
  {
    hide ReadUint;
    WordAt(d, 1, off, off);
  }

  /** v: a signature, and what is decoded under it right after it. */
  lemma DecodesVariant(d: Input, sig: Signature, t: Ty, off: nat, soff: nat)
    requires soff < |sig| && sig[soff] == 118
    ensures
      var r := Decode(d, sig, t, off, soff);
      if t != TVariant && t != TAny then r == Err(CouldNotDecode)
      else if |d.data| <= off || |d.data| < off + 1 + d.data[off] + 1 then r == Err(BufferOverrun)
      else
        var n := d.data[off];
        var y := Decode(d, d.data[off + 1..off + 1 + n], TAny, off + 1 + n + 1, 0);
        r == if y.Err? then Err(y.error) else Ok(VVariant(DynTy(y.value), y.value), y.off, soff + 1)
  {
    hide ReadUint;
    WordAt(d, 1, off, off);
    IsVariant(d, sig, t, off, soff);
  }

  lemma IsVariant(d: Input, sig: Signature, t: Ty, off: nat, soff: nat)
    requires soff < |sig| && sig[soff] == 118
    ensures Decode(d, sig, t, off, soff) == DecodeVariant(d, t, off, soff + 1)
  {
    hide DecodeVariant;
  }

  /** a: a length word, and the contents from the next place where an element can start: after x, t,
      d, parenthesis or brace a multiple of 8. */
  lemma DecodesArray(d: Input, sig: Signature, t: Ty, off: nat, soff: nat, at: nat, len: nat, start: nat)
    requires soff + 1 < |sig| && sig[soff] == 97 && Next(off, 4, at)
    requires at + 4 <= |d.data| ==> Stands(d.order, d.data[at..at + 4], len)
    requires Next(at + 4, if sig[soff + 1] in {120, 116, 100, 40, 123} then 8 else 1, start)
    ensures
      var r, dict := Decode(d, sig, t, off, soff), sig[soff + 1] == 123;
      if |d.data| < at + 4 then r == Err(BufferOverrun)
      else if NextType(sig, soff + 1).None? then r == Err(BadSignature)
      else if |d.data| < start + len then r == Err(BufferOverrun)
      else if t.TDict? && !dict then r == Err(ExpectedDict)
      else if t.TDict? || (t == TAny && dict) then
        var es := DecodeEntries(d, sig, t, soff + 1, start, start + len, []);
        r == if es.Err? then Err(es.error) else Ok(VDict(es.value), es.off, NextType(sig, soff + 1).value)
      else if t.TArray? || t == TAny then
        var vs := DecodeElems(d, sig, if t.TArray? then t.elem else TAny, soff + 1, start, start + len);
        r == if vs.Err? then Err(vs.error) else Ok(VArray(vs.value), vs.off, NextType(sig, soff + 1).value)
      else r == Ok(VUntouched, start, NextType(sig, soff + 1).value)
  {
    hide ReadUint, Stands, DecodeEntries, DecodeElems, NextType, Pad;
    WordAt(d, 4, off, at);
    if sig[soff + 1] in {120, 116, 100, 40, 123} { NextIsPad(at + 4, 8, start); }
    if at + 4 <= |d.data| { StandsOnce(d.order, d.data[at..at + 4], ReadUint(d, 4, off).value, len); }
    IsArrayCode(d, sig, t, off, soff);
  }

  lemma IsArrayCode(d: Input, sig: Signature, t: Ty, off: nat, soff: nat)
    requires soff < |sig| && sig[soff] == 97
    ensures Decode(d, sig, t, off, soff) == DecodeArray(d, sig, t, off, soff + 1)
  {
    hide DecodeArray;
  }

  /** An opening parenthesis: the fields from the next multiple of 8 on. A Go struct wants the
      closing one next, and keeps the fields that did not come. */
  lemma DecodesStruct(d: Input, sig: Signature, t: Ty, off: nat, soff: nat, at: nat)
    requires soff < |sig| && sig[soff] == 40 && Next(off, 8, at)
    ensures
      var r, fs := Decode(d, sig, t, off, soff), DecodeFields(d, sig, t, 0, at, soff + 1);
      if !t.TStruct? && t != TVariant && t != TAny then r == Err(CouldNotDecode)
      else if fs.Err? then r == Err(fs.error)
      else if t == TAny then r == Ok(VArray(fs.value), fs.off, fs.soff)
      else if fs.soff >= |sig| || sig[fs.soff] != 41 then r == Err(SignatureOverrun)
      else
        && r.Ok? && r.off == fs.off && r.soff == fs.soff + 1
        && (t.TStruct? ==>
              r.value.VStruct? && |r.value.fields| >= |t.fields|
              && forall i :: 0 <= i < |r.value.fields| ==>
                   r.value.fields[i] == if i < |fs.value| then fs.value[i] else VUntouched)
        && (t == TVariant && fs.value != [] ==> r.value == VVariant(DynTy(fs.value[0]), fs.value[0]))
  {
    hide DecodeFields, Pad;
    NextIsPad(off, 8, at);
    IsStructCode(d, sig, t, off, soff);
  }

  lemma IsStructCode(d: Input, sig: Signature, t: Ty, off: nat, soff: nat)
    requires soff < |sig| && sig[soff] == 40
    ensures Decode(d, sig, t, off, soff) == DecodeStruct(d, sig, t, off, soff + 1)
  {
    hide DecodeStruct;
  }

  /** No other letter can be decoded, h included. */
  lemma DecodesNothing(d: Input, sig: Signature, t: Ty, off: nat, soff: nat)
    ensures soff >= |sig| ==> Decode(d, sig, t, off, soff) == Err(SignatureOverrun)
    ensures soff < |sig| && sig[soff] !in {121, 98, 110, 113, 105, 117, 120, 116, 100, 115, 111, 103, 118, 97, 40} ==>
      Decode(d, sig, t, off, soff) == Err(CouldNotDecode)
  {
    hide DecodeNum, DecodeBool, DecodeStr, DecodeVariant, DecodeArray, DecodeStruct;
  }

  /** The Go types of what a blank interface holds. */
  lemma DynamicTypes(k: Num, n: int, b: bool, s: StrKind, t: seq<byte>, v: Val, vs: seq<Val>, es: seq<Entry>)
    ensures DynTy(VNum(k, n)) == TNum(k) && DynTy(VBool(b)) == TBool && DynTy(VStr(s, t)) == TStr(s)
    ensures DynTy(VVariant(DynTy(v), v)) == TVariant
    ensures DynTy(VArray(vs)) == TArray(TAny) && DynTy(VDict(es)) == TDict(TAny, TAny)
  {
  }

  /** Storing a value under a key: it is the only one there, and nothing else changes. */
  lemma {:induction false} Stored(es: seq<Entry>, k: Val, x: Val)
    requires !k.VVariant? && forall i, j :: 0 <= i < j < |es| ==> es[i].key != es[j].key
    ensures forall e :: e in Insert(es, k, x) <==> e == Entry(k, x) || (e in es && e.key != k)
    ensures forall i, j :: 0 <= i < j < |Insert(es, k, x)| ==> Insert(es, k, x)[i].key != Insert(es, k, x)[j].key
    decreases |es|
  {
    if es != [] {
      var rest := es[1..];
      assert es == [es[0]] + rest;
      Stored(rest, k, x);
      assert forall e :: e in es <==> e == es[0] || e in rest;
      assert forall e :: e in rest ==> e.key != es[0].key;
    }
  }

  /** An element between two places, the first before the end of the array. */
  ghost predicate Link(d: Input, sig: Signature, e: Ty, soff: nat, end: nat, p: nat, v: Val, q: nat) {
    var r := Decode(d, sig, e, p, soff);
    p < end && r.Ok? && r.value == v && p < r.off == q
  }

  /** The places where the elements of an array begin, up to the one where the last ends: an element
      begins as long as the end is not reached, and may end behind it. */
  ghost predicate Chain(d: Input, sig: Signature, e: Ty, soff: nat, end: nat, places: seq<nat>, vs: seq<Val>) {
    && |places| == |vs| + 1 && places[|vs|] >= end
    && forall i :: 0 <= i < |vs| ==> Link(d, sig, e, soff, end, places[i], vs[i], places[i + 1])
  }

  lemma {:induction false} ChainIsRead(d: Input, sig: Signature, e: Ty, soff: nat, end: nat,
      places: seq<nat>, vs: seq<Val>)
    requires end <= |d.data| && Chain(d, sig, e, soff, end, places, vs)
    ensures DecodeElems(d, sig, e, soff, places[0], end) == Ok(vs, places[|vs|], soff)
    decreases |vs|
  {
    hide Decode;
    if vs != [] {
      var ps, ws := places[1..], vs[1..];
      assert Link(d, sig, e, soff, end, places[0], vs[0], places[1]);
      forall i | 0 <= i < |ws| ensures Link(d, sig, e, soff, end, ps[i], ws[i], ps[i + 1]) {
        assert Link(d, sig, e, soff, end, places[i + 1], vs[i + 1], places[i + 2]);
      }
      ChainIsRead(d, sig, e, soff, end, ps, ws);
      assert vs == [vs[0]] + ws;
    }
  }

  lemma {:induction false} ReadIsChain(d: Input, sig: Signature, e: Ty, soff: nat, off: nat, end: nat)
    returns (places: seq<nat>)
    requires end <= |d.data| && DecodeElems(d, sig, e, soff, off, end).Ok?
    ensures
      var r := DecodeElems(d, sig, e, soff, off, end);
      Chain(d, sig, e, soff, end, places, r.value) && places[0] == off && places[|r.value|] == r.off
    decreases DataLeft(d, off)
  {
    hide Decode;
    places := [off];
    if off < end {
      var r := Decode(d, sig, e, off, soff);
      var rest := ReadIsChain(d, sig, e, soff, r.off, end);
      var vs := DecodeElems(d, sig, e, soff, off, end).value;
      places := [off] + rest;
      forall i | 0 <= i < |vs| ensures Link(d, sig, e, soff, end, places[i], vs[i], places[i + 1]) {
        if i > 0 { assert Link(d, sig, e, soff, end, rest[i - 1], vs[1..][i - 1], rest[i]); }
      }
    }
  }
}
