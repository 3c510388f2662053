/** Type signatures: the argument types, their type codes, and the parser NextType. */
module Types {
  import opened Bytes

  /** The fixed-width numeric kinds. A double is handled as its 64-bit pattern. */
  datatype Num = U8 | I16 | U16 | I32 | U32 | I64 | U64 | F64

  /** The three string kinds: string, object path, signature. */
  datatype StrKind = Str | Path | Sig

  /** The Go types that are marshalled. TAny stands for interface{}: a type without a
      signature for the encoder, and the "decode whatever is there" target for the decoder. */
  datatype Ty =
    | TNum(num: Num)
    | TBool
    | TStr(kind: StrKind)
    | TVariant
    | TArray(elem: Ty)
    | TDict(key: Ty, value: Ty)
    | TStruct(fields: seq<Ty>)
    | TAny

  type Signature = seq<byte>

  const ARRAY: byte := 97 /* 'a' */
  const VARIANT: byte := 118 /* 'v' */
  const BOOLEAN: byte := 98 /* 'b' */
  const HANDLE: byte := 104 /* 'h' */
  const OPEN: byte := 40 /* '(' */
  const CLOSE: byte := 41 /* ')' */
  const OPENPAIR: byte := 123 /* '{' */
  const CLOSEPAIR: byte := 125 /* '}' */

  function NumCode(k: Num): byte {
    match k
    case U8 => 121 /* 'y' */
    case I16 => 110 /* 'n' */
    case U16 => 113 /* 'q' */
    case I32 => 105 /* 'i' */
    case U32 => 117 /* 'u' */
    case I64 => 120 /* 'x' */
    case U64 => 116 /* 't' */
    case F64 => 100 /* 'd' */
  }

  function NumOf(c: byte): Option<Num> {
    if c == 121 /* 'y' */ then Some(U8)
    else if c == 110 /* 'n' */ then Some(I16)
    else if c == 113 /* 'q' */ then Some(U16)
    else if c == 105 /* 'i' */ then Some(I32)
    else if c == 117 /* 'u' */ then Some(U32)
    else if c == 120 /* 'x' */ then Some(I64)
    else if c == 116 /* 't' */ then Some(U64)
    else if c == 100 /* 'd' */ then Some(F64)
    else None
  }

  function StrCode(k: StrKind): byte {
    match k
    case Str => 115 /* 's' */
    case Path => 111 /* 'o' */
    case Sig => 103 /* 'g' */
  }

  function StrOf(c: byte): Option<StrKind> {
    if c == 115 /* 's' */ then Some(Str)
    else if c == 111 /* 'o' */ then Some(Path)
    else if c == 103 /* 'g' */ then Some(Sig)
    else None
  }

  predicate IsBasic(c: byte) {
    c == BOOLEAN || c == VARIANT || c == HANDLE || NumOf(c) != None || StrOf(c) != None
  }

  // ---------------------------------------------------------------- SignatureOf

  /** SignatureOf succeeds exactly on these types. */
  predicate Supported(ty: Ty) {
    match ty
    case TArray(e) => Supported(e)
    case TDict(k, v) => Supported(k) && Supported(v)
    case TStruct(fs) => forall i :: 0 <= i < |fs| ==> Supported(fs[i])
    case TAny => false
    case _ => true
  }

  function SigOf(ty: Ty): (s: Signature)
    requires Supported(ty)
    ensures |s| > 0
    decreases ty
  {
    match ty
    case TNum(k) => [NumCode(k)]
    case TBool => [BOOLEAN]
    case TStr(k) => [StrCode(k)]
    case TVariant => [VARIANT]
    case TArray(e) => [ARRAY] + SigOf(e)
    case TDict(k, v) => [ARRAY, OPENPAIR] + SigOf(k) + SigOf(v) + [CLOSEPAIR]
    case TStruct(fs) => [OPEN] + SigsOf(fs, 0) + [CLOSE]
  }

  /** The signatures of the types from index `i` on, one after the other. */
  function SigsOf(tys: seq<Ty>, i: nat): (s: Signature)
    requires i <= |tys|
    requires forall j :: 0 <= j < |tys| ==> Supported(tys[j])
    decreases tys, |tys| - i
  {
    if i == |tys| then [] else SigOf(tys[i]) + SigsOf(tys, i + 1)
  }

  lemma SigsHead(tys: seq<Ty>, i: nat)
    requires i <= |tys| && forall j :: 0 <= j < |tys| ==> Supported(tys[j])
    ensures SigsOf(tys, i) == if i == |tys| then [] else SigOf(tys[i]) + SigsOf(tys, i + 1)
  {
    hide SigOf;
  }

  /** types.go's SignatureOf; the loop over struct fields is the source's. */
  method SignatureOf(ty: Ty) returns (r: Option<Signature>)
    ensures r.Some? <==> Supported(ty)
    ensures r.Some? ==> r.value == SigOf(ty)
    decreases ty
  {
    match ty
    case TNum(k) => r := Some([NumCode(k)]);
    case TBool => r := Some([BOOLEAN]);
    case TStr(k) => r := Some([StrCode(k)]);
    case TVariant => r := Some([VARIANT]);
    case TAny => r := None;
    case TArray(e) =>
      r := SignatureOf(e);
      if r.Some? { r := Some([ARRAY] + r.value); }
    case TDict(k, v) =>
      var key := SignatureOf(k);
      if key.None? { return None; }
      var value := SignatureOf(v);
      if value.None? { return None; }
      r := Some([ARRAY, OPENPAIR] + key.value + value.value + [CLOSEPAIR]);
    case TStruct(fs) =>
      var sig := [OPEN];
      for i := 0 to |fs|
        invariant forall j :: 0 <= j < i ==> Supported(fs[j])
        invariant (forall j :: 0 <= j < |fs| ==> Supported(fs[j])) ==>
            sig + SigsOf(fs, i) == [OPEN] + SigsOf(fs, 0)
      {
        var f := SignatureOf(fs[i]);
        if f.None? { return None; }
        sig := sig + f.value;
      }
      r := Some(sig + [CLOSE]);
  }

  // ---------------------------------------------------------------- NextType

  /** The offset after the one complete type at `off`, as NextType computes it. */
  function NextType(sig: Signature, off: nat): (r: Option<nat>)
    ensures r.Some? ==> off < r.value <= |sig|
    decreases if off <= |sig| then |sig| - off else 0, 0
  {
    if off >= |sig| then None
    else if IsBasic(sig[off]) then Some(off + 1)
    else if sig[off] == ARRAY then NextType(sig, off + 1)
    else if sig[off] == OPENPAIR then
      match NextType(sig, off + 1)
      case None => None
      case Some(n) =>
        match NextType(sig, n)
        case None => None
        case Some(m) => if m >= |sig| || sig[m] != CLOSEPAIR then None else Some(m + 1)
    else if sig[off] == OPEN then NextFields(sig, off + 1)
    else None
  }

  /** The struct branch's loop: consume types up to the closing parenthesis. */
  function NextFields(sig: Signature, next: nat): (r: Option<nat>)
    requires next <= |sig|
    ensures r.Some? ==> next < r.value <= |sig|
    decreases |sig| - next, 1
  {
    if next < |sig| && sig[next] == CLOSE then Some(next + 1)
    else match NextType(sig, next)
      case None => None
      case Some(n) => NextFields(sig, n)
  }

  /** types.go's NextType with its struct loop. */
  method ParseType(sig: Signature, off: nat) returns (r: Option<nat>)
    ensures r == NextType(sig, off)
    decreases if off <= |sig| then |sig| - off else 0
  {
    if off >= |sig| { return None; }
    if IsBasic(sig[off]) { return Some(off + 1); }
    if sig[off] == ARRAY {
      r := ParseType(sig, off + 1);
    } else if sig[off] == OPENPAIR {
      var n := ParseType(sig, off + 1);
      if n.None? { return None; }
      n := ParseType(sig, n.value);
      if n.None? || n.value >= |sig| || sig[n.value] != CLOSEPAIR { return None; }
      r := Some(n.value + 1);
    } else if sig[off] == OPEN {
      var next := off + 1;
      while !(next < |sig| && sig[next] == CLOSE)
        invariant off < next <= |sig|
        invariant NextFields(sig, off + 1) == NextFields(sig, next)
        decreases |sig| - next
      {
        var n := ParseType(sig, next);
        if n.None? { return None; }
        next := n.value;
      }
      r := Some(next + 1);
    } else {
      r := None;
    }
  }

  /** A signature is valid when it is a run of complete types. */
  function ValidFrom(sig: Signature, off: nat): bool
    requires off <= |sig|
    decreases |sig| - off
  {
    off == |sig| || (NextType(sig, off).Some? && ValidFrom(sig, NextType(sig, off).value))
  }

  method Validate(sig: Signature) returns (ok: bool)
    ensures ok == ValidFrom(sig, 0)
  {
    var off := 0;
    while off < |sig|
      invariant off <= |sig|
      invariant ValidFrom(sig, 0) == ValidFrom(sig, off)
    {
      var n := ParseType(sig, off);
      if n.None? { return false; }
      off := n.value;
    }
    ok := true;
  }

  // ---------------------------------------------------------------- the grammar

  /** The trees of the grammar NextType accepts, which is wider than Ty: it has the handle
      code, dict entries outside arrays, and empty structs. */
  datatype Code = Basic(c: byte) | Arr(elem: Code) | Pair(key: Code, value: Code) | Struct(fields: seq<Code>)

  ghost predicate WellFormed(c: Code) {
    match c
    case Basic(b) => IsBasic(b)
    case Arr(e) => WellFormed(e)
    case Pair(k, v) => WellFormed(k) && WellFormed(v)
    case Struct(fs) => forall i :: 0 <= i < |fs| ==> WellFormed(fs[i])
  }

  ghost function Print(c: Code): (s: Signature)
    ensures |s| > 0
    decreases c
  {
    match c
    case Basic(b) => [b]
    case Arr(e) => [ARRAY] + Print(e)
    case Pair(k, v) => [OPENPAIR] + Print(k) + Print(v) + [CLOSEPAIR]
    case Struct(fs) => [OPEN] + PrintAll(fs, 0) + [CLOSE]
  }

  ghost function PrintAll(cs: seq<Code>, i: nat): (s: Signature)
    requires i <= |cs|
    decreases cs, |cs| - i
  {
    if i == |cs| then [] else Print(cs[i]) + PrintAll(cs, i + 1)
  }

  lemma NotClosing(c: Code)
    requires WellFormed(c)
    ensures Print(c)[0] != CLOSE && Print(c)[0] != CLOSEPAIR
  {
  }

  lemma AtFits(sig: Signature, off: nat, w: Signature)
    requires At(sig, off, w)
    ensures off + |w| <= |sig|
  {
  }

  /** Completeness: NextType steps over exactly the text of one tree, whatever stands around it. */
  lemma {:induction false} NextTypeComplete(sig: Signature, off: nat, c: Code)
    requires WellFormed(c) && At(sig, off, Print(c))
    ensures NextType(sig, off) == Some(off + |Print(c)|)
    decreases c
  {
    hide PrintAll, At;
    AtHead(sig, off, Print(c));
    AtFits(sig, off, Print(c));
    match c
    case Basic(b) =>
    case Arr(e) =>
      AtSplit(sig, off, [ARRAY], Print(e));
      NextTypeComplete(sig, off + 1, e);
    case Pair(k, v) =>
      NextPairComplete(sig, off, k, v, c);
    case Struct(fs) =>
      AtSplit(sig, off, [OPEN] + PrintAll(fs, 0), [CLOSE]);
      AtHead(sig, off + 1 + |PrintAll(fs, 0)|, [CLOSE]);
      AtSplit(sig, off, [OPEN], PrintAll(fs, 0));
      NextFieldsComplete(sig, off + 1, fs, 0);
  }

  lemma PairSplit(sig: Signature, off: nat, k: Code, v: Code)
    requires At(sig, off, Print(Pair(k, v)))
    ensures |Print(Pair(k, v))| == |Print(k)| + |Print(v)| + 2
    ensures At(sig, off + 1, Print(k)) && At(sig, off + 1 + |Print(k)|, Print(v))
    ensures off + 1 + |Print(k)| + |Print(v)| < |sig| && sig[off] == OPENPAIR
    ensures sig[off + 1 + |Print(k)| + |Print(v)|] == CLOSEPAIR
  {
    hide PrintAll, At;
    AtHead(sig, off, Print(Pair(k, v)));
    AtSplit(sig, off, [OPENPAIR] + Print(k) + Print(v), [CLOSEPAIR]);
    AtHead(sig, off + |[OPENPAIR] + Print(k) + Print(v)|, [CLOSEPAIR]);
    AtSplit(sig, off, [OPENPAIR] + Print(k), Print(v));
    AtSplit(sig, off, [OPENPAIR], Print(k));
  }

  lemma {:induction false} NextPairComplete(sig: Signature, off: nat, k: Code, v: Code, c: Code)
    requires c == Pair(k, v) && WellFormed(c) && At(sig, off, Print(c))
    ensures NextType(sig, off) == Some(off + |Print(c)|)
    decreases c, 0
  {
    hide Print, At;
    PairSplit(sig, off, k, v);
    NextTypeComplete(sig, off + 1, k);
    NextTypeComplete(sig, off + 1 + |Print(k)|, v);
  }

  lemma {:induction false} NextFieldsComplete(sig: Signature, off: nat, fs: seq<Code>, i: nat)
    requires i <= |fs| && forall j :: 0 <= j < |fs| ==> WellFormed(fs[j])
    requires At(sig, off, PrintAll(fs, i))
    requires off + |PrintAll(fs, i)| < |sig| && sig[off + |PrintAll(fs, i)|] == CLOSE
    ensures NextFields(sig, off) == Some(off + |PrintAll(fs, i)| + 1)
    decreases fs, |fs| - i
  {
    hide Print, PrintAll, At, WellFormed;
    PrintAllUnfold(fs, i);
    if i < |fs| {
      AtSplit(sig, off, Print(fs[i]), PrintAll(fs, i + 1));
      AtHead(sig, off, Print(fs[i]));
      NotClosing(fs[i]);
      NextTypeComplete(sig, off, fs[i]);
      NextFieldsComplete(sig, off + |Print(fs[i])|, fs, i + 1);
    }
  }

  /** Soundness: what NextType steps over is the text of one tree. */
  lemma {:induction false} NextTypeSound(sig: Signature, off: nat) returns (c: Code)
    requires NextType(sig, off).Some?
    ensures WellFormed(c) && At(sig, off, Print(c)) && NextType(sig, off) == Some(off + |Print(c)|)
    decreases |sig| - off, 0
  {
    hide Print, PrintAll, At;
    if IsBasic(sig[off]) {
      c := Basic(sig[off]);
      BasicAt(sig, off);
    } else if sig[off] == ARRAY {
      var e := NextTypeSound(sig, off + 1);
      ArrAt(sig, off, e);
      c := Arr(e);
    } else if sig[off] == OPENPAIR {
      c := NextPairSound(sig, off);
    } else {
      var fs := NextFieldsSound(sig, off + 1);
      StructAt(sig, off, fs);
      c := Struct(fs);
    }
  }

  lemma BasicAt(sig: Signature, off: nat)
    requires off < |sig|
    ensures At(sig, off, Print(Basic(sig[off]))) && |Print(Basic(sig[off]))| == 1
  {
  }

  lemma ArrAt(sig: Signature, off: nat, e: Code)
    requires off < |sig| && sig[off] == ARRAY && At(sig, off + 1, Print(e))
    ensures At(sig, off, Print(Arr(e))) && |Print(Arr(e))| == |Print(e)| + 1
  {
    AtOne(sig, off);
    AtJoin(sig, off, [ARRAY], Print(e));
  }

  lemma StructAt(sig: Signature, off: nat, fs: seq<Code>)
    requires off < |sig| && sig[off] == OPEN && At(sig, off + 1, PrintAll(fs, 0))
    requires off + 1 + |PrintAll(fs, 0)| < |sig| && sig[off + 1 + |PrintAll(fs, 0)|] == CLOSE
    ensures At(sig, off, Print(Struct(fs))) && |Print(Struct(fs))| == |PrintAll(fs, 0)| + 2
  {
    hide PrintAll;
    AtOne(sig, off);
    AtJoin(sig, off, [OPEN], PrintAll(fs, 0));
    AtOne(sig, off + 1 + |PrintAll(fs, 0)|);
    AtJoin(sig, off, [OPEN] + PrintAll(fs, 0), [CLOSE]);
  }

  lemma PairAt(sig: Signature, off: nat, k: Code, v: Code)
    requires off < |sig| && sig[off] == OPENPAIR && At(sig, off + 1, Print(k))
    requires At(sig, off + 1 + |Print(k)|, Print(v))
    requires off + 1 + |Print(k)| + |Print(v)| < |sig| && sig[off + 1 + |Print(k)| + |Print(v)|] == CLOSEPAIR
    ensures At(sig, off, Print(Pair(k, v))) && |Print(Pair(k, v))| == |Print(k)| + |Print(v)| + 2
  {
    hide PrintAll, At;
    AtOne(sig, off);
    AtJoin(sig, off, [OPENPAIR], Print(k));
    AtJoin(sig, off, [OPENPAIR] + Print(k), Print(v));
    AtOne(sig, off + 1 + |Print(k)| + |Print(v)|);
    AtJoin(sig, off, [OPENPAIR] + Print(k) + Print(v), [CLOSEPAIR]);
  }

  lemma {:induction false} NextPairSound(sig: Signature, off: nat) returns (c: Code)
    requires off < |sig| && sig[off] == OPENPAIR && NextType(sig, off).Some?
    ensures WellFormed(c) && At(sig, off, Print(c)) && NextType(sig, off) == Some(off + |Print(c)|)
    decreases |sig| - off - 1, 2
  {
    hide Print, At, NextType;
    PairSteps(sig, off);
    var k := NextTypeSound(sig, off + 1);
    var v := NextTypeSound(sig, off + 1 + |Print(k)|);
    PairAt(sig, off, k, v);
    c := Pair(k, v);
  }

  lemma PairSteps(sig: Signature, off: nat)
    requires off < |sig| && sig[off] == OPENPAIR && NextType(sig, off).Some?
    ensures NextType(sig, off + 1).Some? && NextType(sig, NextType(sig, off + 1).value).Some?
    ensures
      var m := NextType(sig, NextType(sig, off + 1).value).value;
      m < |sig| && sig[m] == CLOSEPAIR && NextType(sig, off) == Some(m + 1)
  {
  }

  lemma {:induction false} NextFieldsSound(sig: Signature, off: nat) returns (fs: seq<Code>)
    requires off <= |sig| && NextFields(sig, off).Some?
    ensures forall j :: 0 <= j < |fs| ==> WellFormed(fs[j])
    ensures At(sig, off, PrintAll(fs, 0)) && NextFields(sig, off) == Some(off + |PrintAll(fs, 0)| + 1)
    ensures off + |PrintAll(fs, 0)| < |sig| && sig[off + |PrintAll(fs, 0)|] == CLOSE
    decreases |sig| - off, 1
  {
    hide Print, At, PrintAll, WellFormed;
    if off < |sig| && sig[off] == CLOSE {
      fs := [];
      PrintAllUnfold(fs, 0);
      AtNothing(sig, off);
    } else {
      var c := NextTypeSound(sig, off);
      var rest := NextFieldsSound(sig, off + |Print(c)|);
      AtJoin(sig, off, Print(c), PrintAll(rest, 0));
      fs := [c] + rest;
      PrintAllHead(c, rest);
    }
  }

  lemma AtNothing(sig: Signature, off: nat)
    requires off <= |sig|
    ensures At(sig, off, [])
  {
  }

  lemma PrintAllUnfold(cs: seq<Code>, i: nat)
    requires i <= |cs|
    ensures PrintAll(cs, i) == if i == |cs| then [] else Print(cs[i]) + PrintAll(cs, i + 1)
  {
    hide Print;
  }

  lemma PrintAllHead(c: Code, rest: seq<Code>)
    ensures PrintAll([c] + rest, 0) == Print(c) + PrintAll(rest, 0)
  {
    hide Print, PrintAll;
    PrintAllUnfold([c] + rest, 0);
    PrintAllTail([c] + rest, rest, 0);
  }

  lemma {:induction false} PrintAllTail(all: seq<Code>, rest: seq<Code>, i: nat)
    requires i <= |rest| && |all| == |rest| + 1 && all[1..] == rest
    ensures PrintAll(all, i + 1) == PrintAll(rest, i)
    decreases |rest| - i
  {
    hide Print, PrintAll;
    PrintAllUnfold(all, i + 1);
    PrintAllUnfold(rest, i);
    if i < |rest| {
      assert all[i + 1] == all[1..][i];
      PrintAllTail(all, rest, i + 1);
    }
  }

  /** The parse is unique: at any place of any signature at most one tree starts. */
  lemma {:induction false} ParseUnique(sig: Signature, off: nat, c: Code, d: Code)
    requires WellFormed(c) && WellFormed(d) && At(sig, off, Print(c)) && At(sig, off, Print(d))
    ensures c == d
    decreases c
  {
    AtHead(sig, off, Print(c));
    AtHead(sig, off, Print(d));
    match c
    case Basic(_) =>
    case Arr(e) =>
      AtSplit(sig, off, [ARRAY], Print(e));
      AtSplit(sig, off, [ARRAY], Print(d.elem));
      ParseUnique(sig, off + 1, e, d.elem);
    case Pair(k, v) =>
      assert c == Pair(k, v);
      PairUnique(sig, off, k, v, d);
    case Struct(fs) =>
      StructUnique(sig, off, fs, d);
  }

  lemma {:induction false} StructUnique(sig: Signature, off: nat, fs: seq<Code>, d: Code)
    requires WellFormed(Struct(fs)) && WellFormed(d)
    requires At(sig, off, Print(Struct(fs))) && d.Struct? && At(sig, off, Print(d))
    ensures fs == d.fields
    decreases Struct(fs), 0
  {
    hide PrintAll, At;
    AtSplit(sig, off, [OPEN] + PrintAll(fs, 0), [CLOSE]);
    AtHead(sig, off + 1 + |PrintAll(fs, 0)|, [CLOSE]);
    AtSplit(sig, off, [OPEN], PrintAll(fs, 0));
    AtSplit(sig, off, [OPEN] + PrintAll(d.fields, 0), [CLOSE]);
    AtHead(sig, off + 1 + |PrintAll(d.fields, 0)|, [CLOSE]);
    AtSplit(sig, off, [OPEN], PrintAll(d.fields, 0));
    FieldsUnique(sig, off + 1, fs, d.fields, 0);
  }

  lemma {:induction false} PairUnique(sig: Signature, off: nat, k: Code, v: Code, d: Code)
    requires WellFormed(k) && WellFormed(v) && WellFormed(d)
    requires At(sig, off, Print(Pair(k, v))) && d.Pair? && At(sig, off, Print(d))
    ensures k == d.key && v == d.value
    decreases Pair(k, v), 0
  {
    hide Print, At;
    PairSplit(sig, off, k, v);
    PairSplit(sig, off, d.key, d.value);
    ParseUnique(sig, off + 1, k, d.key);
    ParseUnique(sig, off + 1 + |Print(k)|, v, d.value);
  }

  lemma {:induction false} FieldsUnique(sig: Signature, off: nat, fs: seq<Code>, gs: seq<Code>, i: nat)
    requires i <= |fs| && i <= |gs| && fs[..i] == gs[..i]
    requires forall j :: 0 <= j < |fs| ==> WellFormed(fs[j])
    requires forall j :: 0 <= j < |gs| ==> WellFormed(gs[j])
    requires At(sig, off, PrintAll(fs, i)) && At(sig, off, PrintAll(gs, i))
    requires off + |PrintAll(fs, i)| < |sig| && sig[off + |PrintAll(fs, i)|] == CLOSE
    requires off + |PrintAll(gs, i)| < |sig| && sig[off + |PrintAll(gs, i)|] == CLOSE
    ensures fs == gs
    decreases fs, |fs| - i
  {
    hide Print, PrintAll, At, WellFormed;
    PrintAllUnfold(fs, i);
    PrintAllUnfold(gs, i);
    if i < |fs| {
      AtSplit(sig, off, Print(fs[i]), PrintAll(fs, i + 1));
      AtHead(sig, off, Print(fs[i]));
      NotClosing(fs[i]);
    }
    if i < |gs| {
      AtSplit(sig, off, Print(gs[i]), PrintAll(gs, i + 1));
      AtHead(sig, off, Print(gs[i]));
      NotClosing(gs[i]);
    }
    if i < |fs| && i < |gs| {
      ParseUnique(sig, off, fs[i], gs[i]);
      FieldsUnique(sig, off + |Print(fs[i])|, fs, gs, i + 1);
    }
  }

  // ---------------------------------------------------------------- signatures of Go types

  ghost function CodeOf(ty: Ty): (c: Code)
    requires Supported(ty)
    ensures WellFormed(c)
    decreases ty
  {
    match ty
    case TNum(k) => Basic(NumCode(k))
    case TBool => Basic(BOOLEAN)
    case TStr(k) => Basic(StrCode(k))
    case TVariant => Basic(VARIANT)
    case TArray(e) => Arr(CodeOf(e))
    case TDict(k, v) => Arr(Pair(CodeOf(k), CodeOf(v)))
    case TStruct(fs) => Struct(CodesOf(fs))
  }

  ghost function CodesOf(tys: seq<Ty>): (cs: seq<Code>)
    requires forall j :: 0 <= j < |tys| ==> Supported(tys[j])
    ensures |cs| == |tys| && forall j :: 0 <= j < |cs| ==> WellFormed(cs[j]) && cs[j] == CodeOf(tys[j])
    decreases tys, 0
  {
    seq(|tys|, i requires 0 <= i < |tys| => CodeOf(tys[i]))
  }

  lemma {:induction false} SigIsPrinted(ty: Ty)
    requires Supported(ty)
    ensures SigOf(ty) == Print(CodeOf(ty))
    decreases ty
  {
    hide PrintAll, SigsOf, CodesOf, WellFormed;
    match ty
    case TArray(e) => SigIsPrinted(e);
    case TDict(k, v) => SigIsPrinted(k); SigIsPrinted(v);
    case TStruct(fs) => SigsArePrinted(fs, 0);
    case _ =>
  }

  lemma {:induction false} SigsArePrinted(tys: seq<Ty>, i: nat)
    requires i <= |tys| && forall j :: 0 <= j < |tys| ==> Supported(tys[j])
    ensures SigsOf(tys, i) == PrintAll(CodesOf(tys), i)
    decreases tys, |tys| - i
  {
    if i < |tys| {
      SigIsPrinted(tys[i]);
      SigsArePrinted(tys, i + 1);
    }
  }

  /** NextType inverts SignatureOf, in any context. */
  lemma NextTypeOfSignature(sig: Signature, off: nat, ty: Ty)
    requires Supported(ty) && At(sig, off, SigOf(ty))
    ensures NextType(sig, off) == Some(off + |SigOf(ty)|)
  {
    SigIsPrinted(ty);
    NextTypeComplete(sig, off, CodeOf(ty));
  }

  lemma NotPair(ty: Ty)
    requires Supported(ty)
    ensures !CodeOf(ty).Pair?
  {
  }

  lemma {:induction false} CodeInjective(s: Ty, t: Ty)
    requires Supported(s) && Supported(t) && CodeOf(s) == CodeOf(t)
    ensures s == t
    decreases s
  {
    match s
    case TArray(e) =>
      NotPair(e);
      CodeInjective(e, t.elem);
    case TDict(k, v) =>
      if t.TArray? { NotPair(t.elem); }
      CodeInjective(k, t.key);
      CodeInjective(v, t.value);
    case TStruct(fs) =>
      forall i | 0 <= i < |fs| ensures fs[i] == t.fields[i] {
        CodesOfAt(fs, t.fields, i);
        CodeInjective(fs[i], t.fields[i]);
      }
    case _ =>
  }

  lemma CodesOfAt(fs: seq<Ty>, gs: seq<Ty>, i: nat)
    requires forall j :: 0 <= j < |fs| ==> Supported(fs[j])
    requires forall j :: 0 <= j < |gs| ==> Supported(gs[j])
    requires CodesOf(fs) == CodesOf(gs) && i < |fs|
    ensures |fs| == |gs| && CodeOf(fs[i]) == CodeOf(gs[i])
  {
    assert CodesOf(fs)[i] == CodesOf(gs)[i];
  }

  /** Distinct types have signatures that differ, neither a prefix of the other: at any
      place of any signature at most one type starts. */
  lemma SignatureUnique(sig: Signature, off: nat, s: Ty, t: Ty)
    requires Supported(s) && Supported(t) && At(sig, off, SigOf(s)) && At(sig, off, SigOf(t))
    ensures s == t
  {
    SigIsPrinted(s);
    SigIsPrinted(t);
    ParseUnique(sig, off, CodeOf(s), CodeOf(t));
    CodeInjective(s, t);
  }
}
