/** The values that travel in message bodies, and what it takes to marshal one. A value of a Go
    type satisfies HasType; Encodable adds that its type and the types of all variant payloads
    inside have signatures, which is when the encoder succeeds. Numbers are integers in the range
    of their type, with ToBits and FromBits for two's complement, and AlignOf is the encoder's
    table of alignments. */
module Values {
  import opened Bytes
  import opened Types

  /** A variant carries the Go type of its payload. VArray is a slice, VDict a map listed in
      iteration order. VUntouched is a decoding target that was left as it was. */
  datatype Val =
    | VNum(num: Num, n: int)
    | VBool(flag: bool)
    | VStr(kind: StrKind, text: seq<byte>)
    | VVariant(ty: Ty, val: Val)
    | VArray(elems: seq<Val>)
    | VDict(entries: seq<Entry>)
    | VStruct(fields: seq<Val>)
    | VUntouched

  datatype Entry = Entry(key: Val, value: Val)

  function Width(k: Num): Alignment {
    match k
    case U8 => 1
    case I16 => 2
    case U16 => 2
    case I32 => 4
    case U32 => 4
    case I64 => 8
    case U64 => 8
    case F64 => 8
  }

  predicate Signed(k: Num) {
    k == I16 || k == I32 || k == I64
  }

  function Modulus(k: Num): (m: nat)
    ensures m > 0 && m % 2 == 0
  {
    match Width(k)
    case 1 => 0x100
    case 2 => 0x1_0000
    case 4 => 0x1_0000_0000
    case _ => 0x1_0000_0000_0000_0000
  }

  predicate InRange(k: Num, n: int) {
    if Signed(k) then -(Modulus(k) / 2) <= n < Modulus(k) / 2 else 0 <= n < Modulus(k)
  }

  /** The two's complement bit pattern, and back. */
  function ToBits(k: Num, n: int): (b: nat)
    requires InRange(k, n)
    ensures b < Modulus(k)
  {
    if n < 0 then n + Modulus(k) else n
  }

  function FromBits(k: Num, b: nat): (n: int)
    requires b < Modulus(k)
    ensures InRange(k, n)
  {
    if Signed(k) && b >= Modulus(k) / 2 then b - Modulus(k) else b
  }

  lemma BitsRoundTrip(k: Num, n: int)
    requires InRange(k, n)
    ensures FromBits(k, ToBits(k, n)) == n
  {
  }

  lemma ModulusIsPow(k: Num)
    ensures Modulus(k) == Pow256(Width(k))
  {
    assert Pow256(1) == 256 && Pow256(2) == 256 * 256 && Pow256(4) == 256 * 256 * Pow256(2);
    assert Pow256(8) == 256 * 256 * 256 * 256 * Pow256(4);
  }

  ghost predicate HasType(v: Val, ty: Ty)
    decreases v
  {
    match ty
    case TNum(k) => v.VNum? && v.num == k && InRange(k, v.n)
    case TBool => v.VBool?
    case TStr(k) => v.VStr? && v.kind == k
    case TVariant => v.VVariant? && HasType(v.val, v.ty)
    case TArray(e) => v.VArray? && forall i :: 0 <= i < |v.elems| ==> HasType(v.elems[i], e)
    case TDict(k, x) =>
      && v.VDict?
      && (forall i :: 0 <= i < |v.entries| ==> HasType(v.entries[i].key, k) && HasType(v.entries[i].value, x))
      && (forall i, j :: 0 <= i < j < |v.entries| ==> v.entries[i].key != v.entries[j].key)
    case TStruct(ts) =>
      v.VStruct? && |v.fields| == |ts| && forall i :: 0 <= i < |ts| ==> HasType(v.fields[i], ts[i])
    case TAny => !v.VUntouched?
  }

  /** Every variant inside `v` has a payload whose type has a signature. */
  ghost predicate VariantsOk(v: Val)
    decreases v
  {
    match v
    case VVariant(t, x) => Supported(t) && VariantsOk(x)
    case VArray(es) => forall i :: 0 <= i < |es| ==> VariantsOk(es[i])
    case VDict(es) => forall i :: 0 <= i < |es| ==> VariantsOk(es[i].key) && VariantsOk(es[i].value)
    case VStruct(fs) => forall i :: 0 <= i < |fs| ==> VariantsOk(fs[i])
    case _ => true
  }

  /** appendValue succeeds exactly on these (value, type) pairs. */
  ghost predicate Encodable(ty: Ty, v: Val) {
    HasType(v, ty) && Supported(ty) && VariantsOk(v)
  }

  /** encoder.go's alignForType. On types it rejects it pads nothing and its error is dropped. */
  function AlignOf(ty: Ty): Alignment {
    match ty
    case TNum(k) => Width(k)
    case TBool => 4
    case TStr(k) => if k == Sig then 1 else 4
    case TVariant => 1
    case TArray(_) => 4
    case TDict(_, _) => 4
    case TStruct(_) => 8
    case TAny => 1
  }
}
