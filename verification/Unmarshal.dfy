/** What decoder.go computes: a function from bytes, signature, target type and the two offsets to
    a value and the advanced offsets, or to an error. Decode and the functions it calls follow the
    switch of decodeValue branch by branch, on any data and any signature. What the source does by
    running forever or by a panic is an error here, so that the functions are total; each says how
    far the offsets can move. */
module Unmarshal {
  import opened Bytes
  import opened Types
  import opened Values

  /** UnhashableKey is Go's run-time panic on a map key of slice or map type. NoProgress marks
      the array and dict loops that would run forever: an iteration that ends at the offset
      where it began starts the next one in the same state. */
  datatype Error =
    | BufferOverrun | SignatureOverrun | BadSignature | CouldNotDecode | ExpectedDict
    | UnhashableKey | NoProgress

  datatype Outcome<+T> = Ok(value: T, off: nat, soff: nat) | Err(error: Error)

  /** The parts of a decoder that never change. */
  datatype Input = Input(order: Order, data: seq<byte>)

  datatype Read<+T> = Got(value: T, off: nat) | Overrun

  function DataLeft(d: Input, off: nat): nat {
    if off <= |d.data| then |d.data| - off else 0
  }

  function SigLeft(sig: Signature, soff: nat): nat {
    if soff <= |sig| then |sig| - soff else 0
  }

  /** decoder.go's align, with Go's remainder that truncates toward zero. */
  function GoRem(x: int, a: Alignment): int {
    if x >= 0 then x % a else -((-x) % a)
  }

  function AlignStep(off: nat, a: Alignment): int {
    var inc := GoRem(-(off as int), a);
    if inc < 0 then inc + a else inc
  }

  /** The reader's closed form and the writer's padding loop skip the same bytes. */
  lemma AlignStepIsPad(off: nat, a: Alignment)
    ensures AlignStep(off, a) == Pad(off, a)
  {
  }

  function ReadUint(d: Input, w: Alignment, off: nat): (r: Read<nat>)
    ensures r.Got? ==> off + w <= r.off <= |d.data| && r.value < Pow256(w)
  {
    var at := off + Pad(off, w);
    if |d.data| < at + w then Overrun
    else
      UintBound(d.order, d.data[at..at + w]);
      Got(GetUint(d.order, d.data[at..at + w]), at + w)
  }

  /** `len` bytes and a terminator, whose value is ignored. */
  function ReadText(d: Input, len: nat, off: nat): (r: Read<seq<byte>>)
    ensures r.Got? ==> off + len + 1 == r.off <= |d.data|
  {
    if |d.data| < off + len + 1 then Overrun else Got(d.data[off..off + len], off + len + 1)
  }

  function ReadString(d: Input, off: nat): (r: Read<seq<byte>>)
    ensures r.Got? ==> off < r.off <= |d.data|
  {
    match ReadUint(d, 4, off)
    case Overrun => Overrun
    case Got(len, o) => ReadText(d, len, o)
  }

  function ReadSignature(d: Input, off: nat): (r: Read<Signature>)
    ensures r.Got? ==> off < r.off <= |d.data|
  {
    match ReadUint(d, 1, off)
    case Overrun => Overrun
    case Got(len, o) => ReadText(d, len, o)
  }

  /** The Go type of what a blank interface holds after decoding. */
  function DynTy(v: Val): Ty {
    match v
    case VNum(k, _) => TNum(k)
    case VBool(_) => TBool
    case VStr(k, _) => TStr(k)
    case VVariant(_, _) => TVariant
    case VArray(_) => TArray(TAny)
    case VDict(_) => TDict(TAny, TAny)
    case _ => TAny
  }

  function Decode(d: Input, sig: Signature, t: Ty, off: nat, soff: nat): (r: Outcome<Val>)
    ensures r.Ok? ==> off <= r.off && soff < r.soff <= |sig|
    decreases DataLeft(d, off), SigLeft(sig, soff), 0
  {
    if |sig| <= soff then Err(SignatureOverrun)
    else
      var c := sig[soff];
      if NumOf(c) != None then DecodeNum(d, NumOf(c).value, t, off, soff + 1)
      else if c == BOOLEAN then DecodeBool(d, t, off, soff + 1)
      else if StrOf(c) != None then DecodeStr(d, StrOf(c).value, t, off, soff + 1)
      else if c == ARRAY then DecodeArray(d, sig, t, off, soff + 1)
      else if c == OPEN then DecodeStruct(d, sig, t, off, soff + 1)
      else if c == VARIANT then DecodeVariant(d, t, off, soff + 1)
      else Err(CouldNotDecode)
  }

  function DecodeNum(d: Input, k: Num, t: Ty, off: nat, soff: nat): (r: Outcome<Val>)
    ensures r.Ok? ==> off < r.off <= |d.data| && r.soff == soff
  {
    match ReadUint(d, Width(k), off)
    case Overrun => Err(BufferOverrun)
    case Got(n, o) =>
      ModulusIsPow(k);
      if t == TNum(k) || t == TAny then Ok(VNum(k, FromBits(k, n)), o, soff) else Err(CouldNotDecode)
  }

  function DecodeBool(d: Input, t: Ty, off: nat, soff: nat): (r: Outcome<Val>)
    ensures r.Ok? ==> off < r.off <= |d.data| && r.soff == soff
  {
    match ReadUint(d, 4, off)
    case Overrun => Err(BufferOverrun)
    case Got(n, o) =>
      if t == TBool || t == TAny then Ok(VBool(n != 0), o, soff) else Err(CouldNotDecode)
  }

  /** Any target of kind string accepts any of the three string codes. */
  function DecodeStr(d: Input, k: StrKind, t: Ty, off: nat, soff: nat): (r: Outcome<Val>)
    ensures r.Ok? ==> off < r.off <= |d.data| && r.soff == soff
  {
    match if k == Sig then ReadSignature(d, off) else ReadString(d, off)
    case Overrun => Err(BufferOverrun)
    case Got(s, o) =>
      if t.TStr? then Ok(VStr(t.kind, s), o, soff)
      else if t == TAny then Ok(VStr(k, s), o, soff)
      else Err(CouldNotDecode)
  }

  /** The codes whose values start at a multiple of 8. */
  predicate EightCode(c: byte) {
    c == NumCode(I64) || c == NumCode(U64) || c == NumCode(F64) || c == OPEN || c == OPENPAIR
  }

  function DecodeArray(d: Input, sig: Signature, t: Ty, off: nat, soff: nat): (r: Outcome<Val>)
    ensures r.Ok? ==> off < r.off && soff < r.soff <= |sig|
    decreases DataLeft(d, off), SigLeft(sig, soff), 2
  {
    match ReadUint(d, 4, off)
    case Overrun => Err(BufferOverrun)
    case Got(len, o) =>
      match NextType(sig, soff)
      case None => Err(BadSignature)
      case Some(after) =>
        var start := o + if EightCode(sig[soff]) then Pad(o, 8) else 0;
        if |d.data| < start + len then Err(BufferOverrun)
        else DecodeContent(d, sig, t, soff, after, start, start + len)
  }

  /** A target of any other kind is left alone: no element is read and no error is reported. */
  function DecodeContent(d: Input, sig: Signature, t: Ty, soff: nat, after: nat, start: nat,
      end: nat): (r: Outcome<Val>)
    requires soff < after <= |sig| && start <= end <= |d.data|
    ensures r.Ok? ==> start <= r.off && r.soff == after
    decreases DataLeft(d, start), SigLeft(sig, soff), 2
  {
    if t.TDict? && sig[soff] != OPENPAIR then Err(ExpectedDict)
    else if t.TDict? || (t == TAny && sig[soff] == OPENPAIR) then
      match DecodeEntries(d, sig, t, soff, start, end, [])
      case Err(e) => Err(e)
      case Ok(es, o, _) => Ok(VDict(es), o, after)
    else if t.TArray? || t == TAny then
      match DecodeElems(d, sig, if t.TArray? then t.elem else TAny, soff, start, end)
      case Err(e) => Err(e)
      case Ok(vs, o, _) => Ok(VArray(vs), o, after)
    else Ok(VUntouched, start, after)
  }

  function DecodeElems(d: Input, sig: Signature, e: Ty, soff: nat, off: nat, end: nat): (r: Outcome<seq<Val>>)
    requires end <= |d.data|
    ensures r.Ok? ==> off <= r.off
    decreases DataLeft(d, off), SigLeft(sig, soff), 1
  {
    if off >= end then Ok([], off, soff)
    else
      match Decode(d, sig, e, off, soff)
      case Err(x) => Err(x)
      case Ok(v, o, _) =>
        if o == off then Err(NoProgress)
        else
          match DecodeElems(d, sig, e, soff, o, end)
          case Err(x) => Err(x)
          case Ok(vs, o', s) => Ok([v] + vs, o', s)
  }

  predicate Hashable(v: Val) {
    !v.VArray? && !v.VDict?
  }

  /** Map insertion: a second value for a key replaces the first. A variant decoded into a
      blank interface is a fresh pointer, equal to no other key. */
  function Insert(es: seq<Entry>, k: Val, x: Val): (r: seq<Entry>)
    ensures |es| <= |r| <= |es| + 1
  {
    if es == [] then [Entry(k, x)]
    else if es[0].key == k && !k.VVariant? then [Entry(k, x)] + es[1..]
    else [es[0]] + Insert(es[1..], k, x)
  }

  function KeyTarget(t: Ty): Ty {
    if t.TDict? then t.key else TAny
  }

  function ValueTarget(t: Ty): Ty {
    if t.TDict? then t.value else TAny
  }

  /** Dict entries; `soff` is the offset of the opening brace. A map target decodes the value
      under the signature right after the key's, a blank interface two codes after the brace. */
  function DecodeEntries(d: Input, sig: Signature, t: Ty, soff: nat, off: nat, end: nat,
      acc: seq<Entry>): (r: Outcome<seq<Entry>>)
    requires end <= |d.data| && soff < |sig|
    ensures r.Ok? ==> off <= r.off
    decreases DataLeft(d, off), SigLeft(sig, soff), 1
  {
    if off >= end then Ok(acc, off, soff)
    else
      match DecodeEntry(d, sig, t, soff, off)
      case Err(x) => Err(x)
      case Ok(e, o, _) =>
        if !Hashable(e.key) then Err(UnhashableKey)
        else if o == off then Err(NoProgress)
        else DecodeEntries(d, sig, t, soff, o, end, Insert(acc, e.key, e.value))
  }

  function DecodeEntry(d: Input, sig: Signature, t: Ty, soff: nat, off: nat): (r: Outcome<Entry>)
    requires soff < |sig|
    ensures r.Ok? ==> off <= r.off
    decreases DataLeft(d, off), SigLeft(sig, soff), 0
  {
    match Decode(d, sig, KeyTarget(t), off + Pad(off, 8), soff + 1)
    case Err(x) => Err(x)
    case Ok(k, o, s) =>
      match Decode(d, sig, ValueTarget(t), o, if t.TDict? then s else soff + 2)
      case Err(x) => Err(x)
      case Ok(x, o', s') => Ok(Entry(k, x), o', s')
  }

  /** The target of the i-th field: a Go struct runs out of fields, a blank interface does not.
      Go's Variant is itself a struct with one blank-interface field. */
  function FieldTarget(t: Ty, i: nat): Option<Ty> {
    if t == TAny then Some(TAny)
    else if t.TStruct? && i < |t.fields| then Some(t.fields[i])
    else if t == TVariant && i == 0 then Some(TAny)
    else None
  }

  function DecodeStruct(d: Input, sig: Signature, t: Ty, off: nat, soff: nat): (r: Outcome<Val>)
    ensures r.Ok? ==> off <= r.off && soff <= r.soff && (soff <= |sig| ==> r.soff <= |sig|)
    decreases DataLeft(d, off), SigLeft(sig, soff), 2
  {
    if !t.TStruct? && t != TVariant && t != TAny then Err(CouldNotDecode)
    else
      match DecodeFields(d, sig, t, 0, off + Pad(off, 8), soff)
      case Err(e) => Err(e)
      case Ok(vs, o, s) =>
        if t == TAny then Ok(VArray(vs), o, s)
        else if s >= |sig| || sig[s] != CLOSE then Err(SignatureOverrun)
        else Ok(StructValue(t, vs), o, s + 1)
  }

  /** What the fields that were decoded make of a struct target. */
  function StructValue(t: Ty, vs: seq<Val>): Val
    requires t.TStruct? || t == TVariant
  {
    if t.TStruct? then VStruct(vs + Untouched(|t.fields| - |vs|))
    else if vs == [] then VVariant(TAny, VUntouched)
    else VVariant(DynTy(vs[0]), vs[0])
  }

  function Untouched(n: int): seq<Val> {
    if n <= 0 then [] else seq(n, _ => VUntouched)
  }

  function DecodeFields(d: Input, sig: Signature, t: Ty, i: nat, off: nat, soff: nat): (r: Outcome<seq<Val>>)
    ensures r.Ok? ==> off <= r.off && soff <= r.soff && (soff <= |sig| ==> r.soff <= |sig|)
    decreases DataLeft(d, off), SigLeft(sig, soff), 1
  {
    if FieldTarget(t, i) != None && soff < |sig| && sig[soff] != CLOSE then
      match Decode(d, sig, FieldTarget(t, i).value, off, soff)
      case Err(e) => Err(e)
      case Ok(v, o, s) =>
        match DecodeFields(d, sig, t, i + 1, o, s)
        case Err(e) => Err(e)
        case Ok(vs, o', s') => Ok([v] + vs, o', s')
    else Ok([], off, soff)
  }

  /** One field at a time. */
  lemma FieldsStep(d: Input, sig: Signature, t: Ty, i: nat, off: nat, soff: nat)
    ensures DecodeFields(d, sig, t, i, off, soff) ==
      if FieldTarget(t, i) == None || soff >= |sig| || sig[soff] == CLOSE then Ok([], off, soff)
      else
        var r := Decode(d, sig, FieldTarget(t, i).value, off, soff);
        if r.Err? then Err(r.error)
        else
          var rest := DecodeFields(d, sig, t, i + 1, r.off, r.soff);
          if rest.Err? then Err(rest.error) else Ok([r.value] + rest.value, rest.off, rest.soff)
  {
    hide Decode, FieldTarget;
  }

  /** The signature and payload of a variant. Codes after the payload's type are ignored. */
  function DecodeVariant(d: Input, t: Ty, off: nat, soff: nat): (r: Outcome<Val>)
    ensures r.Ok? ==> off < r.off && r.soff == soff
    decreases DataLeft(d, off), 0, 2
  {
    if t != TVariant && t != TAny then Err(CouldNotDecode)
    else
      match ReadSignature(d, off)
      case Overrun => Err(BufferOverrun)
      case Got(s, o) =>
        match Decode(d, s, TAny, o, 0)
        case Err(e) => Err(e)
        case Ok(y, o', _) => Ok(VVariant(DynTy(y), y), o', soff)
  }

  /** Decode with several targets: one value after the other. */
  function DecodeArgs(d: Input, sig: Signature, ts: seq<Ty>, i: nat, off: nat, soff: nat): (r: Outcome<seq<Val>>)
    requires i <= |ts|
    decreases |ts| - i
  {
    if i == |ts| then Ok([], off, soff)
    else
      match Decode(d, sig, ts[i], off, soff)
      case Err(e) => Err(e)
      case Ok(v, o, s) =>
        match DecodeArgs(d, sig, ts, i + 1, o, s)
        case Err(e) => Err(e)
        case Ok(vs, o', s') => Ok([v] + vs, o', s')
  }

  /** One target at a time. */
  lemma ArgsStep(d: Input, sig: Signature, ts: seq<Ty>, i: nat, off: nat, soff: nat)
    requires i <= |ts|
    ensures DecodeArgs(d, sig, ts, i, off, soff) ==
      if i == |ts| then Ok([], off, soff)
      else
        var r := Decode(d, sig, ts[i], off, soff);
        if r.Err? then Err(r.error)
        else
          var rest := DecodeArgs(d, sig, ts, i + 1, r.off, r.soff);
          if rest.Err? then Err(rest.error) else Ok([r.value] + rest.value, rest.off, rest.soff)
  {
    hide Decode;
  }

  /** AllArgs: blank interfaces while there are type codes left. Its panics are errors here. */
  function DecodeAll(d: Input, sig: Signature, off: nat, soff: nat): (r: Outcome<seq<Val>>)
    requires soff <= |sig|
    decreases |sig| - soff
  {
    if soff >= |sig| then Ok([], off, soff)
    else
      match Decode(d, sig, TAny, off, soff)
      case Err(e) => Err(e)
      case Ok(v, o, s) =>
        match DecodeAll(d, sig, o, s)
        case Err(e) => Err(e)
        case Ok(vs, o', s') => Ok([v] + vs, o', s')
  }
}
