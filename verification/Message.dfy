/** message.go: messages, their framing on the wire, and reading them back. */
module MessageModule {
  import opened Bytes
  import opened Types
  import opened Values
  import opened Marshal
  import opened Unmarshal
  import opened RoundTrip
  import opened Codec
  import opened Stable
  import opened Octets
  import opened EncoderModule
  import opened DecoderModule

  const TYPE_METHOD_CALL: byte := 1
  const TYPE_METHOD_RETURN: byte := 2
  const TYPE_ERROR: byte := 3
  const TYPE_SIGNAL: byte := 4

  /** The contents of a message. Absent header fields are empty or zero. */
  datatype Msg = Msg(
    order: Order, kind: byte, flags: byte, protocol: byte, serial: nat,
    path: seq<byte>, iface: seq<byte>, member: seq<byte>, errorName: seq<byte>, replySerial: nat,
    dest: seq<byte>, sender: seq<byte>, sig: Signature, body: seq<byte>)

  const FIELD: Ty := TStruct([TNum(U8), TVariant])
  const FIELDS: Ty := TArray(FIELD)

  function Field(code: byte, ty: Ty, v: Val): Val {
    VStruct([VNum(U8, code), VVariant(ty, v)])
  }

  function TextField(code: byte, k: StrKind, s: seq<byte>): seq<Val> {
    if s == [] then [] else [Field(code, TStr(k), VStr(k, s))]
  }

  function ReplyField(n: nat): seq<Val> {
    if n == 0 then [] else [Field(5, TNum(U32), VNum(U32, n))]
  }

  /** The header fields WriteTo lists: the non-empty ones, in code order. */
  function HeaderFields(m: Msg): seq<Val> {
    TextField(1, Path, m.path) + TextField(2, Str, m.iface) + TextField(3, Str, m.member)
      + TextField(4, Str, m.errorName) + ReplyField(m.replySerial) + TextField(6, Str, m.dest)
      + TextField(7, Str, m.sender) + TextField(8, Sig, m.sig)
  }

  function OrderTag(o: Order): byte {
    if o == Little then 108 /* 'l' */ else 66 /* 'B' */
  }

  const FIXED: seq<Ty> := [TNum(U8), TNum(U8), TNum(U8), TNum(U8), TNum(U32), TNum(U32)]

  /** The fixed part of the header; the body length is truncated to 32 bits. */
  function FixedVals(m: Msg): seq<Val> {
    [VNum(U8, OrderTag(m.order)), VNum(U8, m.kind), VNum(U8, m.flags), VNum(U8, m.protocol),
     VNum(U32, |m.body| % WORD), VNum(U32, m.serial)]
  }

  ghost predicate HasSerials(m: Msg) {
    m.serial < WORD && m.replySerial < WORD
  }

  /** A code with a variant that holds a string of some kind or a 32-bit number. */
  ghost predicate IsField(f: Val) {
    && f.VStruct? && |f.fields| == 2
    && f.fields[0].VNum? && f.fields[0].num == U8 && InRange(U8, f.fields[0].n)
    && f.fields[1].VVariant?
    && var v, ty := f.fields[1].val, f.fields[1].ty;
       (v.VStr? && ty == TStr(v.kind)) || (ty == TNum(U32) && v.VNum? && v.num == U32 && InRange(U32, v.n))
  }

  ghost predicate AllFields(fs: seq<Val>) {
    forall i :: 0 <= i < |fs| ==> IsField(fs[i])
  }

  lemma TextFieldIsField(code: byte, k: StrKind, s: seq<byte>)
    ensures AllFields(TextField(code, k, s))
  {
  }

  lemma AllFieldsConcat(a: seq<Val>, b: seq<Val>)
    requires AllFields(a) && AllFields(b)
    ensures AllFields(a + b)
  {
    hide IsField;
  }

  lemma HeaderFieldsAreFields(m: Msg)
    requires HasSerials(m)
    ensures AllFields(HeaderFields(m))
  {
    hide TextField, AllFields;
    var a := TextField(1, Path, m.path);
    TextFieldIsField(1, Path, m.path);
    TextFieldIsField(2, Str, m.iface);
    AllFieldsConcat(a, TextField(2, Str, m.iface));
    a := a + TextField(2, Str, m.iface);
    TextFieldIsField(3, Str, m.member);
    AllFieldsConcat(a, TextField(3, Str, m.member));
    a := a + TextField(3, Str, m.member);
    TextFieldIsField(4, Str, m.errorName);
    AllFieldsConcat(a, TextField(4, Str, m.errorName));
    a := a + TextField(4, Str, m.errorName);
    ReplyIsField(m.replySerial);
    AllFieldsConcat(a, ReplyField(m.replySerial));
    a := a + ReplyField(m.replySerial);
    TextFieldIsField(6, Str, m.dest);
    AllFieldsConcat(a, TextField(6, Str, m.dest));
    a := a + TextField(6, Str, m.dest);
    TextFieldIsField(7, Str, m.sender);
    AllFieldsConcat(a, TextField(7, Str, m.sender));
    a := a + TextField(7, Str, m.sender);
    TextFieldIsField(8, Sig, m.sig);
    AllFieldsConcat(a, TextField(8, Sig, m.sig));
  }

  lemma ReplyIsField(n: nat)
    requires n < WORD
    ensures AllFields(ReplyField(n))
  {
  }

  lemma FieldLaws(f: Val)
    requires IsField(f)
    ensures HasType(f, FIELD) && VariantsOk(f) && PlainVariants(f)
    ensures Relocatable(FIELD, f)
  {
    assert f.fields[1].val.VNum? || f.fields[1].val.VStr?;
  }

  lemma HeaderEncodable(m: Msg)
    requires HasSerials(m)
    ensures FieldsEncodable(FIXED, FixedVals(m)) && AllEncodable(FIELD, HeaderFields(m))
    ensures Encodable(FIELDS, VArray(HeaderFields(m)))
    ensures FieldsEncodable(FIXED + [FIELDS], FixedVals(m) + [VArray(HeaderFields(m))])
  {
    hide HeaderFields, AllFields;
    var fs := HeaderFields(m);
    HeaderFieldsAreFields(m);
    forall i | 0 <= i < |fs| ensures HasType(fs[i], FIELD) && VariantsOk(fs[i]) {
      FieldOf(fs, i);
      FieldLaws(fs[i]);
    }
    assert Supported(FIELD) && Supported(FIELDS);
    FixedEncodable(m);
  }

  lemma FieldOf(fs: seq<Val>, i: nat)
    requires AllFields(fs) && i < |fs|
    ensures IsField(fs[i])
  {
    hide IsField;
  }

  lemma FixedEncodable(m: Msg)
    requires HasSerials(m)
    ensures FieldsEncodable(FIXED, FixedVals(m))
  {
  }

  /** The header with its header fields, before the final padding. */
  ghost function Header(m: Msg): seq<byte>
    requires HasSerials(m)
  {
    HeaderEncodable(m);
    Fields(Separate, m.order, 0, FIXED + [FIELDS], FixedVals(m) + [VArray(HeaderFields(m))], 0)
  }

  /** WriteTo's first write, which ends on a multiple of 8. */
  ghost function HeaderBytes(m: Msg): (r: seq<byte>)
    requires HasSerials(m)
    ensures |r| % 8 == 0
  {
    Header(m) + Zeros(Pad(|Header(m)|, 8))
  }

  /** Everything WriteTo writes. */
  ghost function Written(m: Msg): seq<byte>
    requires HasSerials(m)
  {
    HeaderBytes(m) + m.body
  }

  // ---------------------------------------------------------------- reading

  /** Short: the stream ended inside a message. Panicked: a header field of the wrong type. */
  datatype ReadError = Short | BadOrder | BadHeader(error: Error) | Panicked

  datatype ReadResult<+T> = Success(value: T, used: nat) | Failure(error: ReadError)

  const PROLOGUE: seq<Ty> := [TNum(U8), TNum(U8), TNum(U8), TNum(U8), TNum(U32), TNum(U32), TNum(U32)]

  function PrologueSig(): Signature {
    [NumCode(U8), NumCode(U8), NumCode(U8), NumCode(U8), NumCode(U32), NumCode(U32), NumCode(U32)]
  }

  function FieldsSig(): Signature {
    [ARRAY, OPEN, NumCode(U8), VARIANT, CLOSE]
  }

  function Empty(o: Order): Msg {
    Msg(o, 0, 0, 1, 0, [], [], [], [], 0, [], [], [], [])
  }

  function NumAt(vs: seq<Val>, i: nat): nat {
    if i < |vs| && vs[i].VNum? && vs[i].n >= 0 then vs[i].n else 0
  }

  /** The first 16 octets: a message without header fields, the body length and the length of
      the header fields. */
  function ReadPrologue(s: seq<byte>): ReadResult<(Msg, nat, nat)> {
    if |s| < 16 then Failure(Short)
    else if s[0] != OrderTag(Little) && s[0] != OrderTag(Big) then Failure(BadOrder)
    else
      var o := if s[0] == OrderTag(Little) then Little else Big;
      match DecodeArgs(Input(o, s[..16]), PrologueSig(), PROLOGUE, 0, 0, 0)
      case Err(e) => Failure(BadHeader(e))
      case Ok(vs, _, _) =>
        Success((Empty(o).(kind := NumAt(vs, 1) % 256, flags := NumAt(vs, 2) % 256, protocol := NumAt(vs, 3) % 256,
                           serial := NumAt(vs, 5)),
                 NumAt(vs, 4), NumAt(vs, 6)), 16)
  }

  /** The switch over header field codes; unknown codes are ignored. */
  function SetField(m: Msg, f: Val): Option<Msg> {
    if !(f.VStruct? && |f.fields| == 2 && f.fields[0].VNum? && f.fields[1].VVariant?) then None
    else
      var code, v := f.fields[0].n, f.fields[1].val;
      if code == 1 then if v.VStr? && v.kind == Path then Some(m.(path := v.text)) else None
      else if code == 2 then if v.VStr? && v.kind == Str then Some(m.(iface := v.text)) else None
      else if code == 3 then if v.VStr? && v.kind == Str then Some(m.(member := v.text)) else None
      else if code == 4 then if v.VStr? && v.kind == Str then Some(m.(errorName := v.text)) else None
      else if code == 5 then if v.VNum? && v.num == U32 && v.n >= 0 then Some(m.(replySerial := v.n)) else None
      else if code == 6 then if v.VStr? && v.kind == Str then Some(m.(dest := v.text)) else None
      else if code == 7 then if v.VStr? && v.kind == Str then Some(m.(sender := v.text)) else None
      else if code == 8 then if v.VStr? && v.kind == Sig then Some(m.(sig := v.text)) else None
      else Some(m)
  }

  function SetFields(m: Msg, fs: seq<Val>): Option<Msg>
    decreases |fs|
  {
    if fs == [] then Some(m)
    else match SetField(m, fs[0])
      case None => None
      case Some(m') => SetFields(m', fs[1..])
  }

  /** The header fields and their padding, given the first 16 octets. */
  function ReadFields(s: seq<byte>, m: Msg, fieldsLength: nat): ReadResult<Msg>
    requires |s| >= 16
  {
    var padding := AlignStep(16 + fieldsLength, 8);
    AlignStepIsPad(16 + fieldsLength, 8);
    var total := 16 + fieldsLength + padding;
    if |s| < total then Failure(Short)
    else
      match Decode(Input(m.order, s[..total]), FieldsSig(), FIELDS, 12, 0)
      case Err(e) => Failure(BadHeader(e))
      case Ok(v, _, _) =>
        if !v.VArray? then Failure(Panicked)
        else match SetFields(m, v.elems)
          case None => Failure(Panicked)
          case Some(m') => Success(m', total)
  }

  /** readMessage on a stream whose remaining bytes are `s`. */
  function ReadMessage(s: seq<byte>): (r: ReadResult<Msg>)
    ensures r.Success? ==> 16 <= r.used <= |s|
  {
    match ReadPrologue(s)
    case Failure(e) => Failure(e)
    case Success(p, _) =>
      match ReadFields(s, p.0, p.2)
      case Failure(e) => Failure(e)
      case Success(m, n) =>
        if |s| < n + p.1 then Failure(Short)
        else Success(m.(body := s[n..n + p.1]), n + p.1)
  }

  /** receiveLoop: the messages read up to the first error. */
  function Receive(s: seq<byte>): (r: (seq<Msg>, ReadError))
    decreases |s|
  {
    match ReadMessage(s)
    case Failure(e) => ([], e)
    case Success(m, n) =>
      var rest := Receive(s[n..]);
      ([m] + rest.0, rest.1)
  }

  /** Which 16 octets can begin a message, and what they say: 'l' or 'B' for the byte order, type,
      flags and version, and as words the length of the body, the serial and the length of the
      header fields. */
  lemma PrologueOctets(s: seq<byte>)
    requires |s| >= 16
    ensures s[0] != 108 && s[0] != 66 ==> ReadPrologue(s) == Failure(BadOrder)
    ensures s[0] == 108 || s[0] == 66 ==>
      var r, o := ReadPrologue(s), if s[0] == 108 then Little else Big;
      && r.Success? && r.used == 16 && r.value.0.order == o
      && r.value.0.kind == s[1] && r.value.0.flags == s[2] && r.value.0.protocol == s[3]
      && Stands(o, s[4..8], r.value.1) && Stands(o, s[8..12], r.value.0.serial) && Stands(o, s[12..16], r.value.2)
  {
    hide DecodeArgs, Stands;
    Tags();
    if s[0] == 108 || s[0] == 66 {
      var o := if s[0] == 108 then Little else Big;
      SevenNumbers(Input(o, s[..16]));
      assert s[..16][4..8] == s[4..8] && s[..16][8..12] == s[8..12] && s[..16][12..16] == s[12..16];
    }
  }

  lemma Tags()
    ensures OrderTag(Little) == 108 && OrderTag(Big) == 66
  {
  }

  lemma SevenNumbers(d: Input)
    requires |d.data| == 16
    ensures
      var r := DecodeArgs(d, PrologueSig(), PROLOGUE, 0, 0, 0);
      && r.Ok? && |r.value| == 7 && (forall i :: 0 <= i < 7 ==> r.value[i].VNum? && r.value[i].n >= 0)
      && (forall i :: 0 <= i < 4 ==> r.value[i].n == d.data[i])
      && Stands(d.order, d.data[4..8], r.value[4].n) && Stands(d.order, d.data[8..12], r.value[5].n)
      && Stands(d.order, d.data[12..16], r.value[6].n)
  {
    hide DecodeArgs, Decode, PrologueSig, Stands;
    OneNumber(d, 0, U8);
    OneNumber(d, 1, U8);
    OneNumber(d, 2, U8);
    OneNumber(d, 3, U8);
    OneNumber(d, 4, U32);
    OneNumber(d, 5, U32);
    OneNumber(d, 6, U32);
    var sig := PrologueSig();
    ArgsStep(d, sig, PROLOGUE, 7, 16, 7);
    ArgsStep(d, sig, PROLOGUE, 6, 12, 6);
    ArgsStep(d, sig, PROLOGUE, 5, 8, 5);
    ArgsStep(d, sig, PROLOGUE, 4, 4, 4);
    ArgsStep(d, sig, PROLOGUE, 3, 3, 3);
    ArgsStep(d, sig, PROLOGUE, 2, 2, 2);
    ArgsStep(d, sig, PROLOGUE, 1, 1, 1);
    ArgsStep(d, sig, PROLOGUE, 0, 0, 0);
  }

  /** Where the i-th of the seven numbers is. */
  function PlaceOf(i: nat): nat {
    if i <= 4 then i else 4 * (i - 3)
  }

  lemma OneNumber(d: Input, i: nat, k: Num)
    requires |d.data| == 16 && i < 7 && k == (if i < 4 then U8 else U32)
    ensures
      var r, at, w := Decode(d, PrologueSig(), TNum(k), PlaceOf(i), i), PlaceOf(i), if i < 4 then 1 else 4;
      && PROLOGUE[i] == TNum(k) && r.Ok? && r.off == at + w && r.soff == i + 1 && r.value.VNum? && r.value.n >= 0
      && Stands(d.order, d.data[at..at + w], r.value.n) && (i < 4 ==> r.value.n == d.data[i])
  {
    hide Decode, Stands;
    DecodesNumber(d, PrologueSig(), TNum(k), PlaceOf(i), i, k, PlaceOf(i));
    Unsigneds(k, Decode(d, PrologueSig(), TNum(k), PlaceOf(i), i).value);
    if i < 4 { StandsOctet(d.order, d.data, i, Decode(d, PrologueSig(), TNum(k), PlaceOf(i), i).value.n); }
  }

  lemma Unsigneds(k: Num, v: Val)
    requires k == U8 || k == U32
    ensures v.VNum? && InRange(k, v.n) ==> v.n >= 0 && Unsigned(k, v.n) == v.n
  {
  }

  lemma StandsOctet(o: Order, s: seq<byte>, i: nat, n: int)
    requires i < |s|
    ensures Stands(o, s[i..i + 1], n) ==> n == s[i]
  {
  }

  // ---------------------------------------------------------------- one message

  /** What WriteTo can represent: 32-bit lengths and serials, a signature of at most 255 codes. */
  ghost predicate Sendable(m: Msg) {
    HasSerials(m) && |m.body| < WORD && |m.sig| <= 255 && |Header(m)| < WORD
  }

  /** The contents of the header field array. It starts at octet 16 of the message. */
  ghost function FieldBytes(m: Msg): seq<byte>
    requires HasSerials(m)
  {
    HeaderEncodable(m);
    Elems(InPlace, m.order, 16, FIELD, HeaderFields(m), 0)
  }

  ghost function PrologueVals(m: Msg): seq<Val>
    requires HasSerials(m)
  {
    FixedVals(m) + [VNum(U32, |FieldBytes(m)| % WORD)]
  }

  lemma FieldsRelocatable(m: Msg)
    requires HasSerials(m)
    ensures AllEncodable(FIELD, HeaderFields(m))
    ensures forall i :: 0 <= i < |HeaderFields(m)| ==> Relocatable(FIELD, HeaderFields(m)[i])
    ensures Relocatable(FIELDS, VArray(HeaderFields(m)))
  {
    hide HeaderFields, AllFields, MaxOver;
    var fs := HeaderFields(m);
    HeaderEncodable(m);
    HeaderFieldsAreFields(m);
    forall i | 0 <= i < |fs| ensures Relocatable(FIELD, fs[i]) {
      FieldOf(fs, i);
      FieldLaws(fs[i]);
    }
  }

  lemma OctetBytes(o: Order, off: nat, n: byte)
    ensures Encodable(TNum(U8), VNum(U8, n)) && Marshalled(InPlace, o, off, TNum(U8), VNum(U8, n)) == [n]
  {
    assert Pow256(1) == 256 * Pow256(0);
    assert LittleEndian(1, n) == [n % 256] + LittleEndian(0, n / 256);
    assert Zeros(0) + [n] == [n];
    assert PutUint(o, 1, n) == [n];
  }

  lemma WordBytes(o: Order, off: nat, n: nat)
    requires n < WORD && off % 4 == 0
    ensures Encodable(TNum(U32), VNum(U32, n))
    ensures Marshalled(InPlace, o, off, TNum(U32), VNum(U32, n)) == PutUint(o, 4, n)
  {
    hide PutUint;
    assert Zeros(0) + PutUint(o, 4, n) == PutUint(o, 4, n);
  }

  lemma FixedBytes(m: Msg)
    requires HasSerials(m) && FieldsEncodable(FIXED, FixedVals(m))
    ensures
      var b := Fields(InPlace, m.order, 0, FIXED, FixedVals(m), 0);
      |b| == 12 && b[0] == OrderTag(m.order)
  {
    hide Marshalled, PutUint, HasType, VariantsOk, Supported;
    var o, vs := m.order, FixedVals(m);
    OctetBytes(o, 0, OrderTag(o));
    OctetBytes(o, 1, m.kind);
    OctetBytes(o, 2, m.flags);
    OctetBytes(o, 3, m.protocol);
    WordBytes(o, 4, |m.body| % WORD);
    WordBytes(o, 8, m.serial);
    assert |Fields(InPlace, o, 12, FIXED, vs, 6)| == 0;
    assert |Fields(InPlace, o, 8, FIXED, vs, 5)| == 4;
    assert |Fields(InPlace, o, 4, FIXED, vs, 4)| == 8;
    assert |Fields(InPlace, o, 3, FIXED, vs, 3)| == 9;
    assert |Fields(InPlace, o, 2, FIXED, vs, 2)| == 10;
    assert |Fields(InPlace, o, 1, FIXED, vs, 1)| == 11;
  }

  lemma PrologueEncodable(m: Msg)
    requires HasSerials(m)
    ensures PROLOGUE == FIXED + [TNum(U32)] && FieldsEncodable(PROLOGUE, PrologueVals(m))
  {
    hide FieldBytes;
    FixedEncodable(m);
    assert PROLOGUE == FIXED + [TNum(U32)];
  }

  lemma LastField(o: Order, off: nat, ty: Ty, v: Val)
    requires Encodable(ty, v)
    ensures FieldsEncodable([ty], [v]) && Fields(InPlace, o, off, [ty], [v], 0) == Marshalled(InPlace, o, off, ty, v)
  {
    hide Marshalled, HasType, VariantsOk, Supported;
    var a := Marshalled(InPlace, o, off, ty, v);
    assert Fields(InPlace, o, off + |a|, [ty], [v], 1) == [];
    assert a + [] == a;
  }

  ghost function FixedPart(m: Msg): seq<byte>
    requires HasSerials(m)
  {
    FixedEncodable(m);
    Fields(InPlace, m.order, 0, FIXED, FixedVals(m), 0)
  }

  /** The header is its fixed part and, at octet 12, the array of header fields. */
  lemma HeaderIs(m: Msg)
    requires HasSerials(m)
    ensures Encodable(FIELDS, VArray(HeaderFields(m)))
    ensures |FixedPart(m)| == 12
    ensures Header(m) == FixedPart(m) + Marshalled(InPlace, m.order, 12, FIELDS, VArray(HeaderFields(m)))
  {
    hide Fields, Marshalled, HeaderFields, HasType, VariantsOk, Supported, Relocatable, FixedVals;
    var arr := VArray(HeaderFields(m));
    HeaderEncodable(m);
    FieldsRelocatable(m);
    FixedRelocatable(m);
    FixedBytes(m);
    FieldsSeparateIsInPlace(m.order, 0, FIXED + [FIELDS], FixedVals(m) + [arr], 0);
    LastField(m.order, 12, FIELDS, arr);
    FieldsConcat(InPlace, m.order, 0, FIXED, [FIELDS], FixedVals(m), [arr], 0);
  }

  lemma FixedRelocatable(m: Msg)
    requires FieldsEncodable(FIXED, FixedVals(m))
    ensures forall i :: 0 <= i < |FIXED| ==> Relocatable(FIXED[i], FixedVals(m)[i])
  {
  }

  /** The first 16 octets are the seven values readMessage decodes first. */
  lemma HeaderLayout(m: Msg)
    requires Sendable(m)
    ensures FieldsEncodable(PROLOGUE, PrologueVals(m))
    ensures |Fields(InPlace, m.order, 0, PROLOGUE, PrologueVals(m), 0)| == 16
    ensures Header(m) == Fields(InPlace, m.order, 0, PROLOGUE, PrologueVals(m), 0) + FieldBytes(m)
    ensures Header(m)[0] == OrderTag(m.order)
  {
    hide Fields, Marshalled, HeaderFields, HasType, VariantsOk, Supported, FixedVals, PutUint, Header, Elems;
    var arr := VArray(HeaderFields(m));
    var len := |FieldBytes(m)|;
    HeaderIs(m);
    FixedEncodable(m);
    FixedBytes(m);
    PrologueEncodable(m);
    HeaderEncodable(m);
    ArrayMarshalled(m.order, 12, FIELD, arr);
    assert Zeros(Pad(12, 4)) == [] && Zeros(Pad(16, 8)) == [] && ContentStart(12, 8) == 16;
    assert Marshalled(InPlace, m.order, 12, FIELDS, arr) == PutUint(m.order, 4, len) + FieldBytes(m);
    WordBytes(m.order, 12, len);
    LastField(m.order, 12, TNum(U32), VNum(U32, len));
    FieldsConcat(InPlace, m.order, 0, FIXED, [TNum(U32)], FixedVals(m), [VNum(U32, len)], 0);
    assert FixedPart(m) + (PutUint(m.order, 4, len) + FieldBytes(m))
      == (FixedPart(m) + PutUint(m.order, 4, len)) + FieldBytes(m);
  }

  /** The fixed part, octet by octet. */
  lemma HeaderOctets(m: Msg)
    requires HasSerials(m)
    ensures var h := HeaderBytes(m);
      && |h| >= 16 && h[0] == (if m.order == Little then 108 else 66)
      && h[1] == m.kind && h[2] == m.flags && h[3] == m.protocol
      && Stands(m.order, h[4..8], |m.body| % 0x1_0000_0000) && Stands(m.order, h[8..12], m.serial)
  {
    hide Fields, Marshalled, HeaderFields, HasType, VariantsOk, Supported, FixedVals, PutUint, Stands, Header;
    hide FixedPart;
    Tags();
    HeaderIs(m);
    FixedOctets(m);
    ArrayStarts(m);
    var h, f := HeaderBytes(m), FixedPart(m);
    assert h[..12] == f;
    assert h[0] == f[0] && h[1] == f[1] && h[2] == f[2] && h[3] == f[3] && h[4..8] == f[4..8] && h[8..12] == f[8..12];
  }

  lemma ArrayStarts(m: Msg)
    requires HasSerials(m) && Encodable(FIELDS, VArray(HeaderFields(m)))
    ensures |Marshalled(InPlace, m.order, 12, FIELDS, VArray(HeaderFields(m)))| >= 4
  {
    hide Elems, HeaderFields, HasType, VariantsOk, PutUint;
    ArrayMarshalled(m.order, 12, FIELD, VArray(HeaderFields(m)));
  }

  lemma FixedOctets(m: Msg)
    requires HasSerials(m)
    ensures var f := FixedPart(m);
      && |f| == 12 && f[0] == OrderTag(m.order) && f[1] == m.kind && f[2] == m.flags && f[3] == m.protocol
      && Stands(m.order, f[4..8], |m.body| % 0x1_0000_0000) && Stands(m.order, f[8..12], m.serial)
  {
    hide Marshalled, PutUint, HasType, VariantsOk, Supported, Stands, Fields, OrderTag;
    var o, vs := m.order, FixedVals(m);
    FixedEncodable(m);
    OctetBytes(o, 0, OrderTag(o));
    OctetBytes(o, 1, m.kind);
    OctetBytes(o, 2, m.flags);
    OctetBytes(o, 3, m.protocol);
    WordBytes(o, 4, |m.body| % WORD);
    WordBytes(o, 8, m.serial);
    Powers();
    WritesAs(o, 4, |m.body| % WORD);
    WritesAs(o, 4, m.serial);
    FieldsHead(InPlace, o, 12, FIXED, vs, 6);
    FieldsHead(InPlace, o, 8, FIXED, vs, 5);
    FieldsHead(InPlace, o, 4, FIXED, vs, 4);
    FieldsHead(InPlace, o, 3, FIXED, vs, 3);
    FieldsHead(InPlace, o, 2, FIXED, vs, 2);
    FieldsHead(InPlace, o, 1, FIXED, vs, 1);
    FieldsHead(InPlace, o, 0, FIXED, vs, 0);
    var w, s := PutUint(o, 4, |m.body| % WORD), PutUint(o, 4, m.serial);
    assert FixedPart(m) == [OrderTag(o)] + ([m.kind] + ([m.flags] + ([m.protocol] + (w + (s + [])))));
    TwelveOctets(OrderTag(o), m.kind, m.flags, m.protocol, w, s);
  }

  lemma TwelveOctets(a: byte, b: byte, c: byte, d: byte, w: seq<byte>, s: seq<byte>)
    requires |w| == |s| == 4
    ensures var f := [a] + ([b] + ([c] + ([d] + (w + (s + [])))));
      |f| == 12 && f[0] == a && f[1] == b && f[2] == c && f[3] == d && f[4..8] == w && f[8..12] == s
  {
  }

  /** `m` without header fields and body. */
  function Base(m: Msg): Msg {
    Empty(m.order).(kind := m.kind, flags := m.flags, protocol := m.protocol, serial := m.serial)
  }

  lemma PrologueSignature()
    ensures SigsOf(PROLOGUE, 0) == PrologueSig()
  {
    assert SigsOf(PROLOGUE, 7) == [];
    assert SigsOf(PROLOGUE, 6) == [NumCode(U32)];
    assert SigsOf(PROLOGUE, 5) == [NumCode(U32), NumCode(U32)];
    assert SigsOf(PROLOGUE, 4) == [NumCode(U32), NumCode(U32), NumCode(U32)];
    assert SigsOf(PROLOGUE, 3) == [NumCode(U8), NumCode(U32), NumCode(U32), NumCode(U32)];
    assert SigsOf(PROLOGUE, 2) == [NumCode(U8), NumCode(U8), NumCode(U32), NumCode(U32), NumCode(U32)];
    assert SigsOf(PROLOGUE, 1) == [NumCode(U8), NumCode(U8), NumCode(U8), NumCode(U32), NumCode(U32), NumCode(U32)];
  }

  lemma PrologueGood(m: Msg)
    requires HasSerials(m) && FieldsEncodable(PROLOGUE, PrologueVals(m))
    ensures GoodArgs(PROLOGUE, PrologueVals(m)) && TargetsFit(PROLOGUE, PROLOGUE, PrologueVals(m))
    ensures ViewArgs(PROLOGUE, PrologueVals(m)) == PrologueVals(m)
    ensures LastUnclosed(PROLOGUE, PROLOGUE, 0) == 0
  {
    hide FieldBytes;
    var vs := PrologueVals(m);
    forall i | 0 <= i < 7 ensures View(PROLOGUE[i], vs[i]) == vs[i] {
      assert vs[i].VNum?;
    }
  }

  /** The fixed part of the header reads back. */
  lemma PrologueReads(m: Msg, s: seq<byte>)
    requires Sendable(m) && |s| >= 16 && |Header(m)| >= 16 && s[..16] == Header(m)[..16]
    ensures ReadPrologue(s) == Success((Base(m), |m.body|, |FieldBytes(m)|), 16)
  {
    hide Fields, Header, HeaderFields, FieldBytes, HasType, VariantsOk, Supported, SigsOf, ViewArgs, DecodeArgs;
    var d := Input(m.order, s[..16]);
    HeaderLayout(m);
    var f := Fields(InPlace, m.order, 0, PROLOGUE, PrologueVals(m), 0);
    assert Header(m)[..16] == f && s[0] == s[..16][0] == Header(m)[0];
    PrologueSignature();
    PrologueGood(m);
    DecodeArgsWire(d, 0, PrologueSig(), 0, PROLOGUE, PROLOGUE, PrologueVals(m), 0);
    var vs := PrologueVals(m);
    assert ViewArgs(PROLOGUE, vs)[0..] == vs;
    assert NumAt(vs, 1) == m.kind && NumAt(vs, 2) == m.flags && NumAt(vs, 3) == m.protocol;
    assert NumAt(vs, 4) == |m.body| && NumAt(vs, 5) == m.serial && NumAt(vs, 6) == |FieldBytes(m)| by {
      FieldBytesBound(m);
    }
  }

  lemma FieldBytesBound(m: Msg)
    requires Sendable(m)
    ensures |FieldBytes(m)| < WORD && |Header(m)| == 16 + |FieldBytes(m)|
  {
    hide Fields, Header, FieldBytes;
    HeaderLayout(m);
  }

  // ---------------------------------------------------------------- the header fields read back

  lemma {:induction false} SetFieldsConcat(m: Msg, a: seq<Val>, b: seq<Val>)
    requires SetFields(m, a).Some?
    ensures SetFields(m, a + b) == SetFields(SetFields(m, a).value, b)
    decreases |a|
  {
    hide SetField;
    if a == [] {
      assert a + b == b;
    } else {
      assert (a + b)[1..] == a[1..] + b;
      SetFieldsConcat(SetField(m, a[0]).value, a[1..], b);
    }
  }

  lemma SetText(m: Msg, code: byte, k: StrKind, s: seq<byte>)
    ensures SetFields(m, TextField(code, k, s)) ==
      if s == [] then Some(m) else SetField(m, Field(code, TStr(k), VStr(k, s)))
  {
    if s != [] { assert TextField(code, k, s)[1..] == []; }
  }

  lemma SetReply(m: Msg, n: nat)
    ensures SetFields(m, ReplyField(n)) == if n == 0 then Some(m) else Some(m.(replySerial := n))
  {
    if n != 0 { assert ReplyField(n)[1..] == []; }
  }

  /** The switch over the header fields restores all of them. */
  lemma SetHeaderFields(m: Msg)
    ensures SetFields(Base(m), HeaderFields(m)) == Some(m.(body := []))
  {
    hide SetFields, TextField, ReplyField;
    var b := Base(m);
    var a := TextField(1, Path, m.path);
    SetText(b, 1, Path, m.path);
    b := b.(path := m.path);
    assert SetFields(Base(m), a) == Some(b);
    SetText(b, 2, Str, m.iface);
    SetFieldsConcat(Base(m), a, TextField(2, Str, m.iface));
    a, b := a + TextField(2, Str, m.iface), b.(iface := m.iface);
    assert SetFields(Base(m), a) == Some(b);
    SetText(b, 3, Str, m.member);
    SetFieldsConcat(Base(m), a, TextField(3, Str, m.member));
    a, b := a + TextField(3, Str, m.member), b.(member := m.member);
    assert SetFields(Base(m), a) == Some(b);
    SetText(b, 4, Str, m.errorName);
    SetFieldsConcat(Base(m), a, TextField(4, Str, m.errorName));
    a, b := a + TextField(4, Str, m.errorName), b.(errorName := m.errorName);
    assert SetFields(Base(m), a) == Some(b);
    SetReply(b, m.replySerial);
    SetFieldsConcat(Base(m), a, ReplyField(m.replySerial));
    a, b := a + ReplyField(m.replySerial), b.(replySerial := m.replySerial);
    assert SetFields(Base(m), a) == Some(b);
    SetText(b, 6, Str, m.dest);
    SetFieldsConcat(Base(m), a, TextField(6, Str, m.dest));
    a, b := a + TextField(6, Str, m.dest), b.(dest := m.dest);
    assert SetFields(Base(m), a) == Some(b);
    SetText(b, 7, Str, m.sender);
    SetFieldsConcat(Base(m), a, TextField(7, Str, m.sender));
    a, b := a + TextField(7, Str, m.sender), b.(sender := m.sender);
    assert SetFields(Base(m), a) == Some(b);
    SetText(b, 8, Sig, m.sig);
    SetFieldsConcat(Base(m), a, TextField(8, Sig, m.sig));
  }

  lemma FieldsGood(m: Msg)
    requires Sendable(m)
    ensures Good(FIELDS, VArray(HeaderFields(m)))
    ensures View(FIELDS, VArray(HeaderFields(m))) == VArray(HeaderFields(m))
    ensures Fits(FIELDS, FIELDS) && Takes(FIELDS, FIELDS, VArray(HeaderFields(m))) && Unclosed(FIELDS, FIELDS) == 0
    ensures SigOf(FIELDS) == FieldsSig()
  {
    hide HeaderFields, AllFields, IsField, Header, View, Takes, Fits, Unclosed, HasType, VariantsOk, SigOf;
    var fs := HeaderFields(m);
    HeaderEncodable(m);
    FieldsProper();
    FieldsPlain(m);
    PlainList(fs);
    PlainPayloads(VArray(fs));
    OwnTypeTakes(FIELDS, VArray(fs));
    IdentityExact(FIELDS, VArray(fs));
    FieldsSignature();
  }

  lemma FieldsProper()
    ensures Proper(FIELDS)
  {
    assert Proper(FIELD);
  }

  lemma FieldsPlain(m: Msg)
    requires Sendable(m)
    ensures forall i :: 0 <= i < |HeaderFields(m)| ==> PlainVariants(HeaderFields(m)[i]) && Storable(HeaderFields(m)[i])
  {
    hide HeaderFields, AllFields, IsField, Header, PlainVariants, Storable, ShortSig;
    var fs := HeaderFields(m);
    HeaderFieldsAreFields(m);
    SigFieldsShort(m);
    forall i | 0 <= i < |fs| ensures PlainVariants(fs[i]) && Storable(fs[i]) {
      FieldOf(fs, i);
      FieldLaws(fs[i]);
      FieldStorable(fs[i]);
    }
  }

  lemma PlainList(fs: seq<Val>)
    requires forall i :: 0 <= i < |fs| ==> PlainVariants(fs[i]) && Storable(fs[i])
    ensures PlainVariants(VArray(fs)) && Storable(VArray(fs))
  {
  }

  lemma FieldsSignature()
    ensures SigOf(FIELDS) == FieldsSig()
  {
    assert SigsOf([TNum(U8), TVariant], 2) == [];
    assert SigsOf([TNum(U8), TVariant], 1) == [VARIANT];
    assert SigsOf([TNum(U8), TVariant], 0) == [NumCode(U8), VARIANT];
    assert SigOf(FIELD) == [OPEN] + [NumCode(U8), VARIANT] + [CLOSE];
  }

  ghost predicate ShortSig(f: Val) {
    IsField(f) && (f.fields[1].val.VStr? && f.fields[1].val.kind == Sig ==> |f.fields[1].val.text| <= 255)
  }

  lemma FieldStorable(f: Val)
    requires ShortSig(f)
    ensures Storable(f)
  {
    assert Storable(f.fields[1].val);
    assert |SigOf(f.fields[1].ty)| == 1;
  }

  lemma SigFieldsShort(m: Msg)
    requires Sendable(m)
    ensures forall i :: 0 <= i < |HeaderFields(m)| ==> ShortSig(HeaderFields(m)[i])
  {
    hide IsField, Header, AllFields;
    HeaderFieldsAreFields(m);
    forall i | 0 <= i < |HeaderFields(m)| ensures ShortSig(HeaderFields(m)[i]) {
      FieldOf(HeaderFields(m), i);
    }
  }

  lemma FieldsRead(m: Msg, s: seq<byte>)
    requires Sendable(m) && |s| >= |HeaderBytes(m)| >= 16 && s[..|HeaderBytes(m)|] == HeaderBytes(m)
    ensures ReadFields(s, Base(m), |FieldBytes(m)|) == Success(m.(body := []), |HeaderBytes(m)|)
  {
    hide Fields, Header, HeaderFields, FieldBytes, Marshalled, SetFields, Decode, FieldsSig, Pad;
    var h := HeaderBytes(m);
    var arr := VArray(HeaderFields(m));
    FieldBytesBound(m);
    ZerosLength(Pad(|Header(m)|, 8));
    AlignStepIsPad(|Header(m)|, 8);
    HeaderIs(m);
    FieldsGood(m);
    var a := Marshalled(InPlace, m.order, 12, FIELDS, arr);
    assert h == FixedPart(m) + (a + Zeros(Pad(|Header(m)|, 8)));
    assert At(h, 12, a);
    DecodeWire(Input(m.order, h), 12, FieldsSig(), 0, FIELDS, FIELDS, arr);
    SetHeaderFields(m);
  }

  /** One message: readMessage undoes WriteTo, whatever follows on the stream, and consumes
      exactly what was written; the body starts at a multiple of 8. */
  lemma ReadWritten(m: Msg, rest: seq<byte>)
    requires Sendable(m)
    ensures ReadMessage(Written(m) + rest) == Success(m, |Written(m)|)
    ensures (|Written(m)| - |m.body|) % 8 == 0
  {
    hide Header, FieldBytes, ReadPrologue, ReadFields;
    var s, h := Written(m) + rest, HeaderBytes(m);
    FieldBytesBound(m);
    assert s[..|h|] == h && h[..16] == Header(m)[..16] && s[..16] == h[..16];
    PrologueReads(m, s);
    FieldsRead(m, s);
    assert s[|h|..|h| + |m.body|] == m.body;
  }

  /** Every proper prefix of a written message is recognised as incomplete. */
  lemma PrefixIsShort(m: Msg, n: nat)
    requires Sendable(m) && n < |Written(m)|
    ensures ReadMessage(Written(m)[..n]) == Failure(Short)
  {
    hide Header, FieldBytes, Decode, DecodeArgs;
    var s, h := Written(m)[..n], HeaderBytes(m);
    FieldBytesBound(m);
    AlignStepIsPad(|Header(m)|, 8);
    ZerosLength(Pad(|Header(m)|, 8));
    if n >= 16 {
      assert h[..16] == Header(m)[..16] && s[..16] == h[..16];
      PrologueReads(m, s);
      if n >= |h| {
        assert s[..|h|] == h;
        FieldsRead(m, s);
      }
    }
  }

  // ---------------------------------------------------------------- the stream

  ghost function Stream(ms: seq<Msg>): seq<byte>
    requires forall i :: 0 <= i < |ms| ==> Sendable(ms[i])
  {
    if ms == [] then [] else
      assert Sendable(ms[0]);
      Written(ms[0]) + Stream(ms[1..])
  }

  /** Any sequence of messages, in any mix of byte orders, followed by an unfinished one or
      nothing, is received as exactly those messages, and then the reader waits for more. */
  lemma {:induction false} StreamReceived(ms: seq<Msg>, next: Msg, n: nat)
    requires (forall i :: 0 <= i < |ms| ==> Sendable(ms[i])) && Sendable(next) && n < |Written(next)|
    ensures Receive(Stream(ms) + Written(next)[..n]) == (ms, Short)
  {
    hide Written, ReadMessage, Header;
    var tail := Written(next)[..n];
    if ms == [] {
      PrefixIsShort(next, n);
      assert Stream(ms) + tail == tail;
    } else {
      var w := Written(ms[0]);
      var s := Stream(ms) + tail;
      assert s == w + (Stream(ms[1..]) + tail);
      ReadWritten(ms[0], Stream(ms[1..]) + tail);
      assert s[|w|..] == Stream(ms[1..]) + tail && [ms[0]] + ms[1..] == ms;
      StreamReceived(ms[1..], next, n);
    }
  }

  // ---------------------------------------------------------------- appending arguments

  /** A message after a successful AppendArgs. */
  ghost function Appended(m: Msg, tys: seq<Ty>, vs: seq<Val>): Msg
    requires FieldsEncodable(tys, vs)
  {
    m.(sig := m.sig + SigsOf(tys, 0), body := m.body + Fields(Separate, m.order, |m.body|, tys, vs, 0))
  }

  /** Appending in two calls is appending in one. */
  lemma AppendedTwice(m: Msg, ts: seq<Ty>, us: seq<Ty>, vs: seq<Val>, ws: seq<Val>)
    requires FieldsEncodable(ts, vs) && FieldsEncodable(us, ws)
    ensures FieldsEncodable(ts + us, vs + ws)
    ensures Appended(Appended(m, ts, vs), us, ws) == Appended(m, ts + us, vs + ws)
  {
    hide Fields, SigsOf;
    FieldsConcat(Separate, m.order, |m.body|, ts, us, vs, ws, 0);
  }

  /** Whatever can be read from a message, into any targets, stays readable and the same when more
      is appended. */
  lemma ReadableStays(m: Msg, targets: seq<Ty>, us: seq<Ty>, ws: seq<Val>)
    requires ValidFrom(m.sig, 0) && FieldsEncodable(us, ws)
    requires DecodeArgs(Input(m.order, m.body), m.sig, targets, 0, 0, 0).Ok?
    ensures
      var all := Appended(m, us, ws);
      && ValidFrom(all.sig, 0)
      && DecodeArgs(Input(m.order, all.body), all.sig, targets, 0, 0, 0)
          == DecodeArgs(Input(m.order, m.body), m.sig, targets, 0, 0, 0)
  {
    hide Fields, SigsOf, DecodeArgs, ValidFrom;
    var more := Fields(Separate, m.order, |m.body|, us, ws, 0);
    ArgsStay(Input(m.order, m.body), more, m.sig, SigsOf(us, 0), targets, 0, 0, 0);
    AppendKeepsValid(m.sig, us, 0);
  }

  /** The first arguments decode the same into any fitting targets, whatever is appended later:
      Arg0 matching relies on it. */
  lemma FirstArgsStable(m: Msg, targets: seq<Ty>, ts: seq<Ty>, us: seq<Ty>, vs: seq<Val>, ws: seq<Val>)
    requires m.sig == [] && m.body == []
    requires GoodArgs(ts, vs) && PlacedArgs(m.order, 0, ts, vs) && TargetsFit(targets, ts, vs)
    requires FieldsEncodable(us, ws)
    ensures LastUnclosed(targets, ts, 0) <= |Appended(m, ts, vs).sig|
    ensures
      var first := Appended(m, ts, vs);
      var all := Appended(first, us, ws);
      var r := Ok(ViewArgs(targets, vs), |first.body|, |first.sig| - LastUnclosed(targets, ts, 0));
      && DecodeArgs(Input(m.order, first.body), first.sig, targets, 0, 0, 0) == r
      && DecodeArgs(Input(m.order, all.body), all.sig, targets, 0, 0, 0) == r
  {
    hide Fields, SigsOf, ViewArgs, LastUnclosed, PlacedArgs, Fits, Takes, Unclosed, Storable, Proper, HasType;
    var a := Appended(m, ts, vs);
    assert a.body == Fields(Separate, m.order, 0, ts, vs, 0) && a.sig == SigsOf(ts, 0);
    RoundTripArgs(m.order, [], [], targets, ts, vs, SigsOf(us, 0), Fields(Separate, m.order, |a.body|, us, ws, 0));
    RoundTripArgs(m.order, [], [], targets, ts, vs, [], []);
    assert [] + a.body == a.body && [] + a.sig == a.sig && a.body + [] == a.body && a.sig + [] == a.sig;
  }

  lemma OwnTargets(tys: seq<Ty>, vs: seq<Val>)
    requires |vs| == |tys| && forall i :: 0 <= i < |tys| ==> Proper(tys[i]) && PayloadsTake(vs[i])
    ensures TargetsFit(tys, tys, vs) && LastUnclosed(tys, tys, 0) == 0
  {
    forall i | 0 <= i < |tys| ensures Fits(tys[i], tys[i]) && Takes(tys[i], tys[i], vs[i])
        && Unclosed(tys[i], tys[i]) == 0 {
      OwnTypeTakes(tys[i], vs[i]);
    }
  }

  // ---------------------------------------------------------------- the message object

  class Message {
    var order: Order
    var kind: byte
    var flags: byte
    var protocol: byte
    var serial: nat
    var path: seq<byte>
    var iface: seq<byte>
    var member: seq<byte>
    var errorName: seq<byte>
    var replySerial: nat
    var dest: seq<byte>
    var sender: seq<byte>
    var sig: Signature
    var body: seq<byte>

    ghost function Contents(): Msg
      reads this
    {
      Msg(order, kind, flags, protocol, serial, path, iface, member, errorName, replySerial, dest, sender, sig, body)
    }

    /** newMessage. */
    constructor ()
      ensures Contents() == Empty(Little)
    {
      order, kind, flags, protocol, serial := Little, 0, 0, 1, 0;
      path, iface, member, errorName, replySerial := [], [], [], [], 0;
      dest, sender, sig, body := [], [], [], [];
    }

    constructor MethodCall(dest: seq<byte>, path: seq<byte>, iface: seq<byte>, member: seq<byte>)
      ensures Contents()
           == Empty(Little).(kind := TYPE_METHOD_CALL, dest := dest, path := path, iface := iface, member := member)
    {
      order, kind, flags, protocol, serial := Little, TYPE_METHOD_CALL, 0, 1, 0;
      this.path, this.iface, this.member, errorName, replySerial := path, iface, member, [], 0;
      this.dest, sender, sig, body := dest, [], [], [];
    }

    /** The source panics unless it replies to a method call that has a serial. */
    constructor MethodReturn(call: Message)
      requires call.serial != 0 && call.kind == TYPE_METHOD_CALL
      ensures Contents()
           == Empty(Little).(kind := TYPE_METHOD_RETURN, replySerial := call.serial, dest := call.sender)
    {
      order, kind, flags, protocol, serial := Little, TYPE_METHOD_RETURN, 0, 1, 0;
      path, iface, member, errorName, replySerial := [], [], [], [], call.serial;
      dest, sender, sig, body := call.sender, [], [], [];
    }

    /** Like MethodReturn, with a text as its only argument. */
    constructor ErrorReply(call: Message, errorName: seq<byte>, text: seq<byte>)
      requires call.serial != 0 && call.kind == TYPE_METHOD_CALL
      ensures FieldsEncodable([TStr(Str)], [VStr(Str, text)])
      ensures Contents()
           == Appended(Empty(Little).(kind := TYPE_ERROR, replySerial := call.serial, dest := call.sender,
                                     errorName := errorName),
                       [TStr(Str)], [VStr(Str, text)])
    {
      order, kind, flags, protocol, serial := Little, TYPE_ERROR, 0, 1, 0;
      path, iface, member, this.errorName, replySerial := [], [], [], errorName, call.serial;
      dest, sender, sig, body := call.sender, [], [], [];
      new;
      var ok := AppendArgs([TStr(Str)], [VStr(Str, text)]);
    }

    /** The source panics on a message that has a serial already. */
    method SetSerial(serial: nat)
      requires this.serial == 0
      modifies this`serial
      ensures Contents() == old(Contents()).(serial := serial)
    {
      this.serial := serial;
    }

    /** All or nothing: on failure the message is unchanged. */
    method AppendArgs(tys: seq<Ty>, vs: seq<Val>) returns (ok: bool)
      requires |vs| == |tys| && forall i :: 0 <= i < |tys| ==> HasType(vs[i], tys[i])
      modifies this`sig, this`body
      ensures ok <==> FieldsEncodable(tys, vs)
      ensures ok ==> Contents() == Appended(old(Contents()), tys, vs)
      ensures !ok ==> Contents() == old(Contents())
    {
      var enc := new Encoder(sig, body, order);
      ok := enc.Append(tys, vs);
      if !ok { return; }
      sig := enc.signature;
      body := enc.data;
    }

    method Args(ts: seq<Ty>) returns (r: Result<seq<Val>>)
      ensures match DecodeArgs(Input(order, body), sig, ts, 0, 0, 0)
        case Err(e) => r == Failed(e)
        case Ok(vs, _, _) => r == Done(vs)
    {
      var dec := new Decoder(sig, body, order, 0);
      r := dec.DecodeInto(ts);
    }

    method AllArgs() returns (r: Result<seq<Val>>)
      ensures match DecodeAll(Input(order, body), sig, 0, 0)
        case Err(e) => r == Failed(e)
        case Ok(vs, _, _) => r == Done(vs)
    {
      var dec := new Decoder(sig, body, order, 0);
      r := dec.DecodeRest();
    }

    /** The switch over header field codes in readMessage; false is a failed type assertion. */
    method StoreField(f: Val) returns (ok: bool)
      modifies this
      ensures ok <==> SetField(old(Contents()), f).Some?
      ensures ok ==> Contents() == SetField(old(Contents()), f).value
    {
      if !(f.VStruct? && |f.fields| == 2 && f.fields[0].VNum? && f.fields[1].VVariant?) { return false; }
      var code, v := f.fields[0].n, f.fields[1].val;
      ok := code == 5 || !(1 <= code <= 8)
        || (v.VStr? && v.kind == if code == 1 then Path else if code == 8 then Sig else Str);
      if !ok { return; }
      if code == 1 {
        path := v.text;
      } else if code == 2 {
        iface := v.text;
      } else if code == 3 {
        member := v.text;
      } else if code == 4 {
        errorName := v.text;
      } else if code == 5 {
        ok := v.VNum? && v.num == U32 && v.n >= 0;
        if ok { replySerial := v.n; }
      } else if code == 6 {
        dest := v.text;
      } else if code == 7 {
        sender := v.text;
      } else if code == 8 {
        sig := v.text;
      }
    }

    method StoreFields(fs: seq<Val>) returns (ok: bool)
      modifies this
      ensures ok <==> SetFields(old(Contents()), fs).Some?
      ensures ok ==> Contents() == SetFields(old(Contents()), fs).value
    {
      hide SetField;
      for i := 0 to |fs|
        invariant SetFields(old(Contents()), fs) == SetFields(Contents(), fs[i..])
      {
        ok := StoreField(fs[i]);
        if !ok { return; }
      }
      ok := true;
    }

    method ListFields() returns (fields: seq<Val>)
      ensures fields == HeaderFields(Contents())
    {
      hide TextField, Field;
      fields := AddText([], 1, Path, path);
      fields := AddText(fields, 2, Str, iface);
      fields := AddText(fields, 3, Str, member);
      fields := AddText(fields, 4, Str, errorName);
      if replySerial != 0 { fields := fields + [Field(5, TNum(U32), VNum(U32, replySerial))]; }
      fields := AddText(fields, 6, Str, dest);
      fields := AddText(fields, 7, Str, sender);
      fields := AddText(fields, 8, Sig, sig);
    }

    static method AddText(fields: seq<Val>, code: byte, k: StrKind, s: seq<byte>) returns (r: seq<Val>)
      ensures r == fields + TextField(code, k, s)
    {
      r := fields;
      if s != [] { r := r + [Field(code, TStr(k), VStr(k, s))]; }
    }

    /** WriteTo's two writes. */
    method WriteTo() returns (first: seq<byte>, second: seq<byte>)
      requires HasSerials(Contents())
      ensures first == HeaderBytes(Contents()) && second == body
      ensures first + second == Written(Contents())
      ensures |first| >= 16 && |first| % 8 == 0
      ensures (first[0] == 108 <==> order == Little) && (first[0] == 66 <==> order == Big)
      ensures first[1] == kind && first[2] == flags && first[3] == protocol
      ensures Stands(order, first[4..8], |body| % 0x1_0000_0000) && Stands(order, first[8..12], serial)
    {
      hide Header, HeaderFields, Fields, Stands;
      var fields := ListFields();
      HeaderEncodable(Contents());
      var header := new Encoder([], [], order);
      var fixed := [VNum(U8, OrderTag(order)), VNum(U8, kind), VNum(U8, flags), VNum(U8, protocol),
                    VNum(U32, |body| % WORD), VNum(U32, serial)];
      var ok := header.Append(FIXED + [FIELDS], fixed + [VArray(fields)]);
      HeaderIsAppended(Contents(), header.data);
      HeaderOctets(Contents());
      header.Align(8);
      first, second := header.data, body;
    }
  }

  lemma HeaderIsAppended(m: Msg, data: seq<byte>)
    requires HasSerials(m)
    requires FieldsEncodable(FIXED + [FIELDS], FixedVals(m) + [VArray(HeaderFields(m))])
    requires data == [] + Fields(Separate, m.order, 0, FIXED + [FIELDS], FixedVals(m) + [VArray(HeaderFields(m))], 0)
    ensures data == Header(m)
  {
    hide Fields, HeaderFields;
  }

  // ---------------------------------------------------------------- the reader

  /** The receiving end of a connection; `stream` is what has not been read yet. */
  class Reader {
    var stream: seq<byte>

    constructor (stream: seq<byte>)
      ensures this.stream == stream
    {
      this.stream := stream;
    }

    method TakePrologue() returns (r: ReadResult<(Msg, nat, nat)>)
      ensures r == ReadPrologue(stream)
    {
      if |stream| < 16 { return Failure(Short); }
      var header := stream[..16];
      if header[0] != OrderTag(Little) && header[0] != OrderTag(Big) { return Failure(BadOrder); }
      var o := if header[0] == OrderTag(Little) then Little else Big;
      var dec := new Decoder(PrologueSig(), header, o, 0);
      var vs := dec.DecodeInto(PROLOGUE);
      if vs.Failed? { return Failure(BadHeader(vs.error)); }
      var v := vs.value;
      r := Success((Empty(o).(kind := NumAt(v, 1) % 256, flags := NumAt(v, 2) % 256, protocol := NumAt(v, 3) % 256,
                              serial := NumAt(v, 5)),
                    NumAt(v, 4), NumAt(v, 6)), 16);
    }

    /** The header fields, stored into a fresh message that starts out as `start`. */
    method TakeFields(start: Msg, fieldsLength: nat) returns (m: Message?, total: nat, error: ReadError)
      requires |stream| >= 16
      requires start ==
        Empty(start.order).(kind := start.kind, flags := start.flags, protocol := start.protocol,
                            serial := start.serial)
      ensures match ReadFields(stream, start, fieldsLength)
        case Failure(e) => m == null && error == e
        case Success(x, n) => m != null && fresh(m) && m.Contents() == x && total == n
    {
      hide Decode, SetFields, Pad, FieldsSig;
      m, error := null, Short;
      AlignStepIsPad(16 + fieldsLength, 8);
      total := 16 + fieldsLength + AlignStep(16 + fieldsLength, 8);
      if |stream| < total { return; }
      var dec := new Decoder(FieldsSig(), stream[..total], start.order, 12);
      var fields := dec.DecodeValue(FIELDS);
      if fields.Failed? { return null, total, BadHeader(fields.error); }
      if !fields.value.VArray? { return null, total, Panicked; }
      var msg := new Message();
      msg.order, msg.kind, msg.flags, msg.protocol, msg.serial :=
        start.order, start.kind, start.flags, start.protocol, start.serial;
      assert msg.Contents() == start;
      var ok := msg.StoreFields(fields.value.elems);
      if !ok { return null, total, Panicked; }
      m := msg;
    }

    /** readMessage. On success the stream continues right after the message. */
    method Read() returns (msg: Message?, error: ReadError)
      modifies this
      ensures match ReadMessage(old(stream))
        case Failure(e) => msg == null && error == e
        case Success(m, n) => msg != null && fresh(msg) && msg.Contents() == m && stream == old(stream)[n..]
      ensures |old(stream)| >= 16 && old(stream)[0] != 108 && old(stream)[0] != 66 ==> msg == null && error == BadOrder
      ensures msg != null ==>
        && |old(stream)| >= 16 && old(stream)[0] == (if msg.order == Little then 108 else 66)
        && msg.kind == old(stream)[1] && msg.flags == old(stream)[2] && msg.protocol == old(stream)[3]
        && Stands(msg.order, old(stream)[4..8], |msg.body|) && Stands(msg.order, old(stream)[8..12], msg.serial)
    {
      hide ReadPrologue, ReadFields, Empty, Stands;
      if |stream| >= 16 { PrologueOctets(stream); }
      msg, error := null, Short;
      var p := TakePrologue();
      if p.Failure? { return null, p.error; }
      var (start, bodyLength, fieldsLength) := p.value;
      StartIsBare(stream);
      var m, total, e := TakeFields(start, fieldsLength);
      if m == null { return null, e; }
      FieldsKeepStart(stream, start, fieldsLength);
      if |stream| < total + bodyLength { return null, Short; }
      m.body := stream[total..total + bodyLength];
      stream := stream[total + bodyLength..];
      msg := m;
    }

    /** receiveLoop: read until the first error. */
    method ReceiveLoop() returns (received: seq<Msg>, error: ReadError)
      modifies this
      ensures (received, error) == Receive(old(stream))
    {
      hide ReadMessage;
      received := [];
      assert [] + Receive(stream).0 == Receive(stream).0;
      while true
        invariant Receive(old(stream)) == (received + Receive(stream).0, Receive(stream).1)
        decreases |stream|
      {
        var msg, e := Read();
        if msg == null {
          assert received + [] == received;
          return received, e;
        }
        ghost var rest := Receive(stream).0;
        ghost var m := msg.Contents();
        assert received + ([m] + rest) == received + [m] + rest;
        received := received + [Msg(msg.order, msg.kind, msg.flags, msg.protocol, msg.serial, msg.path, msg.iface,
          msg.member, msg.errorName, msg.replySerial, msg.dest, msg.sender, msg.sig, msg.body)];
      }
    }
  }

  lemma FieldsKeepStart(s: seq<byte>, m: Msg, n: nat)
    requires |s| >= 16 && ReadFields(s, m, n).Success?
    ensures var r := ReadFields(s, m, n).value;
      r.order == m.order && r.kind == m.kind && r.flags == m.flags && r.protocol == m.protocol && r.serial == m.serial
  {
    hide Decode, SetFields, Pad, FieldsSig;
    var total := 16 + n + AlignStep(16 + n, 8);
    AlignStepIsPad(16 + n, 8);
    SetFieldsKeep(m, Decode(Input(m.order, s[..total]), FieldsSig(), FIELDS, 12, 0).value.elems);
  }

  lemma {:induction false} SetFieldsKeep(m: Msg, fs: seq<Val>)
    ensures SetFields(m, fs).Some? ==>
      var r := SetFields(m, fs).value;
      r.order == m.order && r.kind == m.kind && r.flags == m.flags && r.protocol == m.protocol && r.serial == m.serial
    decreases |fs|
  {
    hide SetField;
    if fs != [] {
      SetFieldKeeps(m, fs[0]);
      if SetField(m, fs[0]).Some? { SetFieldsKeep(SetField(m, fs[0]).value, fs[1..]); }
    }
  }

  lemma SetFieldKeeps(m: Msg, f: Val)
    ensures SetField(m, f).Some? ==>
      var r := SetField(m, f).value;
      r.order == m.order && r.kind == m.kind && r.flags == m.flags && r.protocol == m.protocol && r.serial == m.serial
  {
  }

  lemma StartIsBare(s: seq<byte>)
    requires ReadPrologue(s).Success?
    ensures |s| >= 16
    ensures var m := ReadPrologue(s).value.0;
      m == Empty(m.order).(kind := m.kind, flags := m.flags, protocol := m.protocol, serial := m.serial)
  {
    hide DecodeArgs;
  }
}
