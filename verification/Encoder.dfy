/** encoder.go: the message body builder. An Encoder holds the signature and the data written so
    far, and its methods append to them. Each is proved against Marshalled and its parts in the
    Separate placement, because the contents of arrays and dicts are built by an encoder of their
    own: the method succeeds exactly on encodable values, and then has appended exactly their
    bytes. */
module EncoderModule {
  import opened Bytes
  import opened Types
  import opened Values
  import opened Marshal

  class Encoder {
    var signature: Signature
    var data: seq<byte>
    const order: Order

    constructor (signature: Signature, data: seq<byte>, order: Order)
      ensures this.signature == signature && this.data == data && this.order == order
    {
      this.signature, this.data, this.order := signature, data, order;
    }

    method Align(alignment: Alignment)
      modifies this`data
      ensures data == old(data) + Zeros(Pad(|old(data)|, alignment))
      ensures |data| % alignment == 0 && |old(data)| <= |data| < |old(data)| + alignment
      ensures data[..|old(data)|] == old(data) && forall i :: |old(data)| <= i < |data| ==> data[i] == 0
    {
      var n := 0;
      while |data| % alignment != 0
        invariant n <= Pad(|old(data)|, alignment)
        invariant data == old(data) + Zeros(n)
        decreases Pad(|old(data)|, alignment) - n
      {
        PadMinimal(|old(data)|, alignment, n);
        data := data + [0];
        n := n + 1;
      }
      PadMinimal(|old(data)|, alignment, n);
    }

    /** Append values in order. On failure some of them may already be in the buffer. */
    method Append(tys: seq<Ty>, vs: seq<Val>) returns (ok: bool)
      requires |vs| == |tys| && forall i :: 0 <= i < |tys| ==> HasType(vs[i], tys[i])
      modifies this
      ensures ok <==> FieldsEncodable(tys, vs)
      ensures ok ==> signature == old(signature) + SigsOf(tys, 0)
      ensures ok ==> data == old(data) + Fields(Separate, order, |old(data)|, tys, vs, 0)
    {
      hide Marshalled, Body, Entries, Elems, HasType, VariantsOk, SigOf;
      for i := 0 to |tys|
        invariant forall j :: 0 <= j < i ==> Supported(tys[j]) && VariantsOk(vs[j])
        invariant FieldsEncodable(tys, vs) ==>
            && signature + SigsOf(tys, i) == old(signature) + SigsOf(tys, 0)
            && data + Fields(Separate, order, |data|, tys, vs, i)
                == old(data) + Fields(Separate, order, |old(data)|, tys, vs, 0)
      {
        ok := AppendValue(tys[i], vs[i]);
        if !ok { return; }
      }
      ok := true;
    }

    method AppendValue(ty: Ty, v: Val) returns (ok: bool)
      requires HasType(v, ty)
      modifies this
      ensures ok <==> Encodable(ty, v)
      ensures ok ==> signature == old(signature) + SigOf(ty)
      ensures ok ==> data == old(data) + Marshalled(Separate, order, |old(data)|, ty, v)
      decreases v, 2
    {
      hide Body, Elems, Entries, Fields, HasType, VariantsOk, SigOf, Pad, AlignOf;
      var sig := SignatureOf(ty);
      if sig.None? { return false; }
      signature := signature + sig.value;
      Align(AlignOf(ty));
      ok := AppendBody(ty, v);
    }

    /** appendValue's switch: the data after alignment. The signature is left as it was. */
    method AppendBody(ty: Ty, v: Val) returns (ok: bool)
      requires HasType(v, ty) && Supported(ty)
      modifies this
      ensures ok <==> VariantsOk(v)
      ensures ok ==> signature == old(signature)
      ensures ok ==> data == old(data) + Body(Separate, order, |old(data)|, ty, v)
      decreases v, 1
    {
      match ty
      case TNum(k) =>
        data := data + PutUint(order, Width(k), ToBits(k, v.n));
        ok := true;
      case TBool =>
        data := data + PutUint(order, 4, if v.flag then 1 else 0);
        ok := true;
      case TStr(k) =>
        data := data + if k == Sig then SigBytes(v.text) else StrBytes(order, v.text);
        ok := true;
      case TVariant =>
        ok := AppendVariant(v);
      case TArray(e) =>
        ok := AppendArray(e, v.elems);
      case TDict(k, x) =>
        ok := AppendDict(k, x, v.entries);
      case TStruct(ts) =>
        var saved := signature;
        ok := AppendFields(ts, v.fields);
        signature := saved;
    }

    method AppendVariant(v: Val) returns (ok: bool)
      requires v.VVariant? && HasType(v.val, v.ty)
      modifies this
      ensures ok <==> VariantsOk(v)
      ensures ok ==> signature == old(signature)
      ensures ok ==> data == old(data) + Body(Separate, order, |old(data)|, TVariant, v)
      decreases v, 0
    {
      hide Marshalled, Body, HasType, VariantsOk, Supported, SigOf, SigBytes;
      VariantBody(order, |data|, v);
      var sig := SignatureOf(v.ty);
      if sig.None? { return false; }
      var saved := signature;
      signature := signature + [StrCode(Sig)];
      data := data + SigBytes(sig.value);
      ok := AppendValue(v.ty, v.val);
      signature := saved;
    }

    method AppendArray(e: Ty, elems: seq<Val>) returns (ok: bool)
      requires Supported(e) && forall i :: 0 <= i < |elems| ==> HasType(elems[i], e)
      modifies this`data
      ensures ok <==> AllEncodable(e, elems)
      ensures ok ==>
          data == old(data) + ArrayBytes(order, |old(data)|, AlignOf(e), Elems(Separate, order, 0, e, elems, 0))
      decreases elems, 1
    {
      hide Marshalled, Body, Elems, Entries, Fields, HasType, VariantsOk, Pad, AlignOf;
      // The contents go to a separate buffer, to learn their length.
      var content := new Encoder([], [], order);
      ok := content.AppendElems(e, elems);
      if !ok { return; }
      data := data + PutUint(order, 4, |content.data|);
      Align(AlignOf(e));
      data := data + content.data;
      ok := true;
    }

    method AppendElems(e: Ty, elems: seq<Val>) returns (ok: bool)
      requires Supported(e) && forall i :: 0 <= i < |elems| ==> HasType(elems[i], e)
      modifies this
      ensures ok <==> AllEncodable(e, elems)
      ensures ok ==> data == old(data) + Elems(Separate, order, |old(data)|, e, elems, 0)
      decreases elems, 0
    {
      hide Marshalled, Body, Elems, Entries, Fields, HasType, VariantsOk, Supported, SigOf;
      for i := 0 to |elems|
        invariant forall j :: 0 <= j < i ==> VariantsOk(elems[j])
        invariant AllEncodable(e, elems) ==>
            data + Elems(Separate, order, |data|, e, elems, i)
              == old(data) + Elems(Separate, order, |old(data)|, e, elems, 0)
      {
        if AllEncodable(e, elems) { ElemsStep(order, data, e, elems, i); }
        ok := AppendValue(e, elems[i]);
        if !ok { return; }
      }
      ElemsEnd(order, |data|, e, elems);
      ok := true;
    }

    method AppendDict(k: Ty, x: Ty, entries: seq<Entry>) returns (ok: bool)
      requires Supported(k) && Supported(x)
      requires forall i :: 0 <= i < |entries| ==> HasType(entries[i].key, k) && HasType(entries[i].value, x)
      modifies this`data
      ensures ok <==> EntriesEncodable(k, x, entries)
      ensures ok ==>
          data == old(data) + ArrayBytes(order, |old(data)|, 8, Entries(Separate, order, 0, k, x, entries, 0))
      decreases entries, 1
    {
      hide Marshalled, Body, Elems, Entries, Fields, EntryBytes, HasType, VariantsOk, Pad;
      var content := new Encoder([], [], order);
      ok := content.AppendEntries(k, x, entries);
      if !ok { return; }
      data := data + PutUint(order, 4, |content.data|);
      Align(8);
      data := data + content.data;
      ok := true;
    }

    method AppendEntries(k: Ty, x: Ty, entries: seq<Entry>) returns (ok: bool)
      requires Supported(k) && Supported(x)
      requires forall i :: 0 <= i < |entries| ==> HasType(entries[i].key, k) && HasType(entries[i].value, x)
      modifies this
      ensures ok <==> EntriesEncodable(k, x, entries)
      ensures ok ==> data == old(data) + Entries(Separate, order, |old(data)|, k, x, entries, 0)
      decreases entries, 0
    {
      hide Marshalled, Body, Elems, Fields, Entries, EntryBytes, HasType, VariantsOk, Supported, SigOf;
      hide EntriesEncodable;
      for i := 0 to |entries|
        invariant forall j :: 0 <= j < i ==> VariantsOk(entries[j].key) && VariantsOk(entries[j].value)
        invariant EntriesEncodable(k, x, entries) ==>
            data + Entries(Separate, order, |data|, k, x, entries, i)
              == old(data) + Entries(Separate, order, |old(data)|, k, x, entries, 0)
      {
        if EntriesEncodable(k, x, entries) { EntriesStep(order, data, k, x, entries, i); }
        ok := AppendEntry(k, x, entries[i]);
        if !ok { return; }
      }
      EntriesAll(k, x, entries);
      EntriesEnd(order, |data|, k, x, entries);
      ok := true;
    }

    method AppendEntry(k: Ty, x: Ty, e: Entry) returns (ok: bool)
      requires Supported(k) && Supported(x) && HasType(e.key, k) && HasType(e.value, x)
      modifies this
      ensures ok <==> VariantsOk(e.key) && VariantsOk(e.value)
      ensures ok ==> data == old(data) + EntryBytes(Separate, order, |old(data)|, k, x, e)
      decreases e
    {
      hide Marshalled, Body, Elems, Entries, Fields, HasType, VariantsOk, Pad, SigOf;
      Align(8);
      ok := AppendValue(k, e.key);
      if !ok { return; }
      ok := AppendValue(x, e.value);
    }

    method AppendFields(ts: seq<Ty>, fields: seq<Val>) returns (ok: bool)
      requires |fields| == |ts|
      requires forall i :: 0 <= i < |ts| ==> Supported(ts[i]) && HasType(fields[i], ts[i])
      modifies this
      ensures ok <==> FieldsEncodable(ts, fields)
      ensures ok ==> data == old(data) + Fields(Separate, order, |old(data)|, ts, fields, 0)
      decreases fields
    {
      hide Marshalled, Body, Entries, Elems, HasType, VariantsOk, SigOf;
      for i := 0 to |ts|
        invariant forall j :: 0 <= j < i ==> VariantsOk(fields[j])
        invariant FieldsEncodable(ts, fields) ==>
            data + Fields(Separate, order, |data|, ts, fields, i)
              == old(data) + Fields(Separate, order, |old(data)|, ts, fields, 0)
      {
        ok := AppendValue(ts[i], fields[i]);
        if !ok { return; }
      }
      ok := true;
    }
  }

  lemma VariantBody(o: Order, at: nat, v: Val)
    requires v.VVariant? && HasType(v.val, v.ty)
    ensures VariantsOk(v) <==> Supported(v.ty) && VariantsOk(v.val)
    ensures Encodable(TVariant, v) <==> VariantsOk(v)
    ensures VariantsOk(v) ==>
      var s := SigBytes(SigOf(v.ty));
      Body(Separate, o, at, TVariant, v) == s + Marshalled(Separate, o, at + |s|, v.ty, v.val)
  {
    hide Marshalled, SigBytes, SigOf;
  }

  lemma ElemsStep(o: Order, data: seq<byte>, e: Ty, vs: seq<Val>, i: nat)
    requires i < |vs| && AllEncodable(e, vs)
    ensures data + Elems(Separate, o, |data|, e, vs, i)
         == (data + Marshalled(Separate, o, |data|, e, vs[i]))
          + Elems(Separate, o, |data + Marshalled(Separate, o, |data|, e, vs[i])|, e, vs, i + 1)
  {
    hide Marshalled, HasType, VariantsOk, Supported;
  }

  lemma ElemsEnd(o: Order, off: nat, e: Ty, vs: seq<Val>)
    requires AllEncodable(e, vs)
    ensures Elems(Separate, o, off, e, vs, |vs|) == []
  {
  }

  lemma EntriesStep(o: Order, data: seq<byte>, k: Ty, x: Ty, es: seq<Entry>, i: nat)
    requires i < |es| && EntriesEncodable(k, x, es)
    ensures Encodable(k, es[i].key) && Encodable(x, es[i].value)
    ensures data + Entries(Separate, o, |data|, k, x, es, i)
         == (data + EntryBytes(Separate, o, |data|, k, x, es[i]))
          + Entries(Separate, o, |data + EntryBytes(Separate, o, |data|, k, x, es[i])|, k, x, es, i + 1)
  {
    hide EntryBytes, HasType, VariantsOk, Supported;
  }

  lemma EntriesAll(k: Ty, x: Ty, es: seq<Entry>)
    requires Supported(k) && Supported(x)
    requires forall i :: 0 <= i < |es| ==> HasType(es[i].key, k) && HasType(es[i].value, x)
    requires forall i :: 0 <= i < |es| ==> VariantsOk(es[i].key) && VariantsOk(es[i].value)
    ensures EntriesEncodable(k, x, es)
  {
    hide HasType, VariantsOk, Supported;
  }

  lemma EntriesEnd(o: Order, off: nat, k: Ty, x: Ty, es: seq<Entry>)
    requires EntriesEncodable(k, x, es)
    ensures Entries(Separate, o, off, k, x, es, |es|) == []
  {
  }

  /** The first n at which `off + n` is a multiple is the padding. */
  lemma PadMinimal(off: nat, a: Alignment, n: nat)
    requires n <= Pad(off, a)
    ensures (off + n) % a == 0 <==> n == Pad(off, a)
  {
    if a == 8 { PadMinimal8(off, n); }
  }

  lemma PadMinimal8(off: nat, n: nat)
    requires n <= Pad(off, 8)
    ensures (off + n) % 8 == 0 <==> n == Pad(off, 8)
  {
  }
}
