/** decoder.go: the message body reader. A Decoder holds a signature, the data, the byte order and
    the two offsets into data and signature; the branches of decodeValue are methods that move the
    offsets. Each method is proved against the function of Unmarshal of the same branch, for any
    data, signature and target: it returns that function's value or error, and on success both
    offsets are where the function says. */
module DecoderModule {
  import opened Bytes
  import opened Types
  import opened Values
  import opened Unmarshal
  import opened Octets

  datatype Result<+T> = Done(value: T) | Failed(error: Error)

  class Decoder {
    const signature: Signature
    const data: seq<byte>
    const order: Order
    var dataOffset: nat
    var sigOffset: nat

    constructor (signature: Signature, data: seq<byte>, order: Order, dataOffset: nat)
      ensures this.signature == signature && this.data == data && this.order == order
      ensures this.dataOffset == dataOffset && sigOffset == 0
    {
      this.signature, this.data, this.order := signature, data, order;
      this.dataOffset, sigOffset := dataOffset, 0;
    }

    ghost function Source(): Input {
      Input(order, data)
    }

    /** The state after a read that the specification describes as `r`. */
    ghost predicate Matches<T(!new)>(spec: Outcome<T>, r: Result<T>)
      reads this
    {
      match spec
      case Err(e) => r == Failed(e)
      case Ok(v, o, s) => r == Done(v) && dataOffset == o && sigOffset == s
    }

    ghost predicate MatchesRead<T(!new)>(spec: Read<T>, r: Result<T>)
      reads this
    {
      match spec
      case Overrun => r == Failed(BufferOverrun)
      case Got(v, o) => r == Done(v) && dataOffset == o
    }

    method Align(alignment: Alignment)
      modifies this`dataOffset
      ensures dataOffset == old(dataOffset) + Pad(old(dataOffset), alignment)
    {
      AlignStepIsPad(dataOffset, alignment);
      dataOffset := dataOffset + AlignStep(dataOffset, alignment);
    }

    /** Decode: one target after the other. */
    method DecodeInto(ts: seq<Ty>) returns (r: Result<seq<Val>>)
      modifies this
      ensures Matches(DecodeArgs(Source(), signature, ts, 0, old(dataOffset), old(sigOffset)), r)
    {
      var vs: seq<Val> := [];
      PrependNone(DecodeArgs(Source(), signature, ts, 0, dataOffset, sigOffset));
      for i := 0 to |ts|
        invariant DecodeArgs(Source(), signature, ts, 0, old(dataOffset), old(sigOffset))
               == Prepend(vs, DecodeArgs(Source(), signature, ts, i, dataOffset, sigOffset))
      {
        var v := DecodeValue(ts[i]);
        if v.Failed? { return Failed(v.error); }
        PrependOne(vs, v.value, DecodeArgs(Source(), signature, ts, i + 1, dataOffset, sigOffset));
        vs := vs + [v.value];
      }
      assert vs + [] == vs;
      r := Done(vs);
    }

    /** AllArgs' loop. */
    method DecodeRest() returns (r: Result<seq<Val>>)
      requires sigOffset <= |signature|
      modifies this
      ensures Matches(DecodeAll(Source(), signature, old(dataOffset), old(sigOffset)), r)
    {
      var vs: seq<Val> := [];
      PrependNone(DecodeAll(Source(), signature, dataOffset, sigOffset));
      var more := HasMore();
      while more
        invariant sigOffset <= |signature| && more == (sigOffset < |signature|)
        invariant DecodeAll(Source(), signature, old(dataOffset), old(sigOffset))
               == Prepend(vs, DecodeAll(Source(), signature, dataOffset, sigOffset))
        decreases |signature| - sigOffset
      {
        var v := DecodeValue(TAny);
        if v.Failed? { return Failed(v.error); }
        PrependOne(vs, v.value, DecodeAll(Source(), signature, dataOffset, sigOffset));
        vs := vs + [v.value];
        more := HasMore();
      }
      assert vs + [] == vs;
      r := Done(vs);
    }

    method HasMore() returns (more: bool)
      ensures more <==> sigOffset < |signature|
    {
      more := sigOffset < |signature|;
    }

    method TakeUint(w: Alignment) returns (r: Result<nat>)
      modifies this`dataOffset
      ensures MatchesRead(ReadUint(Source(), w, old(dataOffset)), r)
      ensures match r
        case Done(n) =>
          && w <= dataOffset <= |data| && Next(old(dataOffset), w, dataOffset - w)
          && Stands(order, data[dataOffset - w..dataOffset], n)
        case Failed(e) => e == BufferOverrun && forall at: nat :: Next(old(dataOffset), w, at) ==> |data| < at + w
    {
      hide GetUint, Pow256, Pad, Stands, ReadUint;
      WordFound(Source(), w, dataOffset);
      Align(w);
      if |data| < dataOffset + w { return Failed(BufferOverrun); }
      r := Done(GetUint(order, data[dataOffset..dataOffset + w]));
      dataOffset := dataOffset + w;
    }

    method TakeText(len: nat) returns (r: Result<seq<byte>>)
      modifies this`dataOffset
      ensures MatchesRead(ReadText(Source(), len, old(dataOffset)), r)
    {
      if |data| < dataOffset + len + 1 { return Failed(BufferOverrun); }
      r := Done(data[dataOffset..dataOffset + len]);
      dataOffset := dataOffset + len + 1;
    }

    method TakeString() returns (r: Result<seq<byte>>)
      modifies this`dataOffset
      ensures MatchesRead(ReadString(Source(), old(dataOffset)), r)
    {
      var len := TakeUint(4);
      if len.Failed? { return Failed(len.error); }
      r := TakeText(len.value);
    }

    method TakeSignature() returns (r: Result<Signature>)
      modifies this`dataOffset
      ensures MatchesRead(ReadSignature(Source(), old(dataOffset)), r)
    {
      var len := TakeUint(1);
      if len.Failed? { return Failed(len.error); }
      r := TakeText(len.value);
    }

    ghost function Left(): nat
      reads this
    {
      DataLeft(Source(), dataOffset)
    }

    ghost function CodesLeft(): nat
      reads this
    {
      SigLeft(signature, sigOffset)
    }

    /** decodeValue. A loop the source would run forever is reported as NoProgress. */
    method DecodeValue(t: Ty) returns (r: Result<Val>)
      modifies this
      ensures Matches(Decode(Source(), signature, t, old(dataOffset), old(sigOffset)), r)
      decreases Left(), CodesLeft(), 0
    {
      if |signature| <= sigOffset { return Failed(SignatureOverrun); }
      var c := signature[sigOffset];
      sigOffset := sigOffset + 1;
      if NumOf(c) != None {
        r := TakeNum(NumOf(c).value, t);
      } else if c == BOOLEAN {
        r := TakeBool(t);
      } else if StrOf(c) != None {
        r := TakeStr(StrOf(c).value, t);
      } else if c == ARRAY {
        r := TakeArray(t);
      } else if c == OPEN {
        r := TakeStruct(t);
      } else if c == VARIANT {
        r := TakeVariant(t);
      } else {
        r := Failed(CouldNotDecode);
      }
    }

    method TakeNum(k: Num, t: Ty) returns (r: Result<Val>)
      modifies this`dataOffset
      ensures Matches(DecodeNum(Source(), k, t, old(dataOffset), sigOffset), r)
    {
      var n := TakeUint(Width(k));
      if n.Failed? { return Failed(n.error); }
      if t != TNum(k) && t != TAny { return Failed(CouldNotDecode); }
      ModulusIsPow(k);
      r := Done(VNum(k, FromBits(k, n.value)));
    }

    method TakeBool(t: Ty) returns (r: Result<Val>)
      modifies this`dataOffset
      ensures Matches(DecodeBool(Source(), t, old(dataOffset), sigOffset), r)
    {
      var n := TakeUint(4);
      if n.Failed? { return Failed(n.error); }
      if t != TBool && t != TAny { return Failed(CouldNotDecode); }
      r := Done(VBool(n.value != 0));
    }

    method TakeStr(k: StrKind, t: Ty) returns (r: Result<Val>)
      modifies this`dataOffset
      ensures Matches(DecodeStr(Source(), k, t, old(dataOffset), sigOffset), r)
    {
      var s;
      if k == Sig { s := TakeSignature(); } else { s := TakeString(); }
      if s.Failed? { return Failed(s.error); }
      if t.TStr? {
        r := Done(VStr(t.kind, s.value));
      } else if t == TAny {
        r := Done(VStr(k, s.value));
      } else {
        r := Failed(CouldNotDecode);
      }
    }

    method TakeArray(t: Ty) returns (r: Result<Val>)
      modifies this
      ensures Matches(DecodeArray(Source(), signature, t, old(dataOffset), old(sigOffset)), r)
      decreases Left(), CodesLeft(), 2
    {
      hide Pow256, GetUint, ReadUint, NextType, DecodeContent;
      var length := TakeUint(4);
      if length.Failed? { return Failed(length.error); }
      var after := ParseType(signature, sigOffset);
      if after.None? { return Failed(BadSignature); }
      if EightCode(signature[sigOffset]) { Align(8); }
      var arrayEnd := dataOffset + length.value;
      if |data| < arrayEnd { return Failed(BufferOverrun); }
      r := TakeContent(t, after.value, arrayEnd);
    }

    method TakeContent(t: Ty, after: nat, arrayEnd: nat) returns (r: Result<Val>)
      requires sigOffset < after <= |signature| && dataOffset <= arrayEnd <= |data|
      modifies this
      ensures Matches(DecodeContent(Source(), signature, t, old(sigOffset), after, old(dataOffset), arrayEnd), r)
      decreases Left(), CodesLeft(), 2
    {
      if t.TDict? && signature[sigOffset] != OPENPAIR {
        return Failed(ExpectedDict);
      } else if t.TDict? || (t == TAny && signature[sigOffset] == OPENPAIR) {
        var es := TakeEntries(t, arrayEnd);
        if es.Failed? { return Failed(es.error); }
        r := Done(VDict(es.value));
      } else if t.TArray? || t == TAny {
        var vs := TakeElems(if t.TArray? then t.elem else TAny, arrayEnd);
        if vs.Failed? { return Failed(vs.error); }
        r := Done(VArray(vs.value));
      } else {
        r := Done(VUntouched);
      }
      sigOffset := after;
    }

    method TakeElems(e: Ty, arrayEnd: nat) returns (r: Result<seq<Val>>)
      requires arrayEnd <= |data|
      modifies this
      ensures Matches(DecodeElems(Source(), signature, e, old(sigOffset), old(dataOffset), arrayEnd), r)
      decreases Left(), CodesLeft(), 1
    {
      var elemSigOffset := sigOffset;
      var vs: seq<Val> := [];
      PrependNone(DecodeElems(Source(), signature, e, elemSigOffset, dataOffset, arrayEnd));
      while dataOffset < arrayEnd
        invariant old(dataOffset) <= dataOffset
        invariant DecodeElems(Source(), signature, e, elemSigOffset, old(dataOffset), arrayEnd)
               == Prepend(vs, DecodeElems(Source(), signature, e, elemSigOffset, dataOffset, arrayEnd))
        decreases arrayEnd - dataOffset
      {
        // Every element is read under the same codes.
        sigOffset := elemSigOffset;
        var start := dataOffset;
        var v := DecodeValue(e);
        if v.Failed? { return Failed(v.error); }
        if dataOffset == start { return Failed(NoProgress); }
        PrependOne(vs, v.value, DecodeElems(Source(), signature, e, elemSigOffset, dataOffset, arrayEnd));
        vs := vs + [v.value];
      }
      assert vs + [] == vs;
      sigOffset := elemSigOffset;
      r := Done(vs);
    }

    method TakeEntries(t: Ty, arrayEnd: nat) returns (r: Result<seq<Entry>>)
      requires arrayEnd <= |data| && sigOffset < |signature|
      modifies this
      ensures Matches(DecodeEntries(Source(), signature, t, old(sigOffset), old(dataOffset), arrayEnd, []), r)
      decreases Left(), CodesLeft(), 1
    {
      var elemSigOffset := sigOffset;
      var es: seq<Entry> := [];
      while dataOffset < arrayEnd
        invariant old(dataOffset) <= dataOffset
        invariant DecodeEntries(Source(), signature, t, elemSigOffset, old(dataOffset), arrayEnd, [])
               == DecodeEntries(Source(), signature, t, elemSigOffset, dataOffset, arrayEnd, es)
        decreases arrayEnd - dataOffset
      {
        sigOffset := elemSigOffset;
        var start := dataOffset;
        var e := TakeEntry(t);
        if e.Failed? { return Failed(e.error); }
        if !Hashable(e.value.key) { return Failed(UnhashableKey); }
        if dataOffset == start { return Failed(NoProgress); }
        es := Insert(es, e.value.key, e.value.value);
      }
      sigOffset := elemSigOffset;
      r := Done(es);
    }

    method TakeEntry(t: Ty) returns (r: Result<Entry>)
      requires sigOffset < |signature|
      modifies this
      ensures Matches(DecodeEntry(Source(), signature, t, old(sigOffset), old(dataOffset)), r)
      decreases Left(), CodesLeft(), 0
    {
      var elemSigOffset := sigOffset;
      Align(8);
      sigOffset := elemSigOffset + 1;
      var k := DecodeValue(KeyTarget(t));
      if k.Failed? { return Failed(k.error); }
      if !t.TDict? { sigOffset := elemSigOffset + 2; }
      var x := DecodeValue(ValueTarget(t));
      if x.Failed? { return Failed(x.error); }
      r := Done(Entry(k.value, x.value));
    }

    method TakeStruct(t: Ty) returns (r: Result<Val>)
      modifies this
      ensures Matches(DecodeStruct(Source(), signature, t, old(dataOffset), old(sigOffset)), r)
      decreases Left(), CodesLeft(), 2
    {
      if !t.TStruct? && t != TVariant && t != TAny { return Failed(CouldNotDecode); }
      Align(8);
      var vs := TakeFields(t);
      if vs.Failed? { return Failed(vs.error); }
      if t == TAny { return Done(VArray(vs.value)); }
      if sigOffset >= |signature| || signature[sigOffset] != CLOSE { return Failed(SignatureOverrun); }
      // A Go struct, unlike a blank interface, takes its parenthesis.
      sigOffset := sigOffset + 1;
      r := Done(StructValue(t, vs.value));
    }

    method TakeFields(t: Ty) returns (r: Result<seq<Val>>)
      modifies this
      ensures Matches(DecodeFields(Source(), signature, t, 0, old(dataOffset), old(sigOffset)), r)
      decreases Left(), CodesLeft(), 1
    {
      hide Decode, DecodeFields, FieldTarget;
      var i := 0;
      var vs: seq<Val> := [];
      PrependNone(DecodeFields(Source(), signature, t, 0, dataOffset, sigOffset));
      while FieldTarget(t, i) != None && sigOffset < |signature| && signature[sigOffset] != CLOSE
        invariant old(dataOffset) <= dataOffset && old(sigOffset) <= sigOffset
        invariant DecodeFields(Source(), signature, t, 0, old(dataOffset), old(sigOffset))
               == Prepend(vs, DecodeFields(Source(), signature, t, i, dataOffset, sigOffset))
        decreases CodesLeft()
      {
        FieldsStep(Source(), signature, t, i, dataOffset, sigOffset);
        var v := DecodeValue(FieldTarget(t, i).value);
        if v.Failed? { return Failed(v.error); }
        PrependOne(vs, v.value, DecodeFields(Source(), signature, t, i + 1, dataOffset, sigOffset));
        vs := vs + [v.value];
        i := i + 1;
      }
      FieldsStep(Source(), signature, t, i, dataOffset, sigOffset);
      assert vs + [] == vs;
      r := Done(vs);
    }

    method TakeVariant(t: Ty) returns (r: Result<Val>)
      modifies this
      ensures Matches(DecodeVariant(Source(), t, old(dataOffset), old(sigOffset)), r)
      decreases Left(), 0, 2
    {
      if t != TVariant && t != TAny { return Failed(CouldNotDecode); }
      var s := TakeSignature();
      if s.Failed? { return Failed(s.error); }
      var inner := new Decoder(s.value, data, order, dataOffset);
      var y := inner.DecodeValue(TAny);
      if y.Failed? { return Failed(y.error); }
      // The codes of the payload were its own; its data were ours.
      dataOffset := inner.dataOffset;
      r := Done(VVariant(DynTy(y.value), y.value));
    }
  }

  ghost function Prepend(vs: seq<Val>, r: Outcome<seq<Val>>): Outcome<seq<Val>> {
    match r
    case Err(e) => Err(e)
    case Ok(ws, o, s) => Ok(vs + ws, o, s)
  }

  lemma PrependNone(r: Outcome<seq<Val>>)
    ensures Prepend([], r) == r
  {
    if r.Ok? { assert [] + r.value == r.value; }
  }

  lemma PrependOne(vs: seq<Val>, v: Val, r: Outcome<seq<Val>>)
    ensures Prepend(vs, Prepend([v], r)) == Prepend(vs + [v], r)
  {
    if r.Ok? { assert vs + ([v] + r.value) == vs + [v] + r.value; }
  }
}
