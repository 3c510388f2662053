# A verified model of go-dbus

go-dbus is a D-Bus client library in Go. This project models its two intricate parts in Dafny and
proves what they are for.

**The wire codec** (`Bytes`, `Types`, `Values`, `Marshal`, `Encoder`, `Unmarshal`, `Decoder`,
`Octets`, `RoundTrip`, `Layout`, `Codec`, `Dynamic`, `DecoderLaws`, `Progress`, `Weightless`,
`Stable`, `Message`, `Framing`). Go types become the datatype `Ty`, with `TAny` for `interface{}`; values become `Val`.
Doubles are 64-bit patterns and maps are lists of entries with distinct keys. The encoder, the
decoder, messages and the stream reader are classes with the source's fields, each method proved
against a function: `Marshalled` for bytes written, `Decode` for bytes read.
`Marshalled(InPlace, ..)` is the layout of the D-Bus Specification, section "Marshaling (Wire
Format)"; `Marshalled(Separate, ..)` is what encoder.go does, which builds the contents of every
array at offset 0 in a buffer of its own. `Octets` and `Framing` say in literal octets what these
functions write and read, type by type and header field by header field. The main results:

- `Layout.LayoutExact`: arguments appended at a given offset have the specified layout if and only
  if every part of them is placed alike in its buffer and in the message. Relocatable arguments
  are, at every offset (`Layout.RelocatablePlaced`); others only by luck (`Layout.LuckyArray`).
  `Marshal.ArrayLayoutExact` says when an array is laid out right at every offset.
- `Codec.RoundTripArgs`: append then decode gives the values back, for every list of values placed
  alike, any starting body, any bytes after it, either byte order, typed or blank-interface
  targets or any mixture, and both offsets end exactly where they should.
- `Dynamic.DecodeExact`, `Dynamic.ArgsExact` and `Dynamic.AllArgsExact`: which values a target, Args
  and AllArgs give back, at any depth, through variants, and for any mixture of Go types and blank
  interfaces.
- `MessageModule.StreamReceived`: a stream of written messages is received as those messages.
- `Progress.DecodeAdvances`: on arbitrary bytes, progress and staying inside the data, under a
  condition on the signatures that are read and on nothing else; `Weightless.NoProgressExactly`:
  exactly which types can make the decoder run forever.
- `DecoderLaws.TypedDynamicAgree`: typed and dynamic decoding of arbitrary bytes agree, errors
  included. `Stable.StaysExactly`: what was decoded stays the same when data and codes are added
  behind it, if and only if it was not a struct cut off by the end of its signature; so what can be
  read from a message stays readable (`MessageModule.ReadableStays`).
- `Types.NextTypeComplete`, `Types.NextTypeSound`, `Types.ParseUnique`: the signature parser
  accepts exactly one tree of a grammar, and it inverts the printer.

**The client-side protocol state** (`Dispatch`, `SignalIndex`, `RuleText`, `Registry`,
`NameOwner`, `NameWatches`, `Calls`, `Connection`). Concurrent code is a state machine whose steps
are critical sections, single writes and actions of the daemon; theorems are about all its runs.
Tables and indexes are classes. The main results:

- `NameOwner.OwnerKnown` and `NameOwner.ToldInOrder`: how the first owner lookup and the change
  notifications race, in all runs: the owner is right if and only if the last change sent is the
  current one, and what is told comes in order.
- `Calls.RepliesCorrelated`, `Calls.NoReplyLost`, `Calls.DispatcherNeverBlocks`,
  `Calls.WireIntact`: replies reach their callers, also those that come before the write returns,
  and concurrent writers do not mix messages.
- `SignalIndex.SignalWatchSet.FindMatches`: the three-level index finds what a linear scan finds.
- `Registry.WatchRegistry.Agreement`: the daemon's rules are those of the registered watches
  exactly when no RemoveMatch failed.
- `NameWatches.NameRegistry.Observed`: what a name watch is told is a contiguous piece of the
  owner history.
- `Dispatch.Router.HandlerForPath`: the longest registered prefix wins.

Every class keeps its invariant in `Valid`; in `Registry`, `NameWatches` and `Connection` a method
is one atomic step, so `Valid` is what every interleaving keeps.

## Where the code differs from its documentation or from what one expects

- `AppendArgs` documents that some arguments may have been appended when it fails (message.go:178-180).
  The code stores the encoder's result only on success, so a failed call changes nothing
  (`MessageModule.Message.AppendArgs`).
- Decoding a struct into a blank interface does not step over the closing parenthesis
  (decoder.go:442-453). `Dynamic.DecodeExact` and `Dynamic.AllArgsExact` say exactly when this
  does no harm: when no struct in front of further codes is reached, and, for `AllArgs`, when no
  argument is a struct. `Dynamic.StructEndsEarly` says what comes out otherwise.
- Go's `Variant` is a struct with one blank-interface field, so a struct code decodes into a
  Variant target as such a struct (decoder.go:430); `Unmarshal.StructValue` does the same.
- An argument whose contents are not placed alike in their buffer and in the message is written
  with wrong padding, and `Codec.NestedInt64Unreadable` is one that cannot be read back.
- A signature longer than 255 bytes is written with a truncated length octet
  (`RoundTrip.ReadSignatureBack`).
- An array target of another kind than slice, map or interface is skipped silently, and reading
  goes on from the array's start (decoder.go:344-418); the model returns `VUntouched`.
- An array or dict of a type that takes no bytes makes the decode loops run forever. The model
  reports this as the error `NoProgress` (`Progress.VoidElementsLoop`,
  `Weightless.WeightlessElementsLoop`), and Go's run-time panic on an unhashable map key as
  `UnhashableKey`.
- In a blank interface a dict whose keys are structs panics at its first entry
  (`Progress.StructKeysPanic`).
- Under a signature that is not valid, an unfinished struct decodes into a blank interface, and to
  something else when the signature grows (`Stable.UnfinishedStructGrows`, `Stable.StaysExactly`).
- If a signal sent for another match rule arrives before AddMatch took effect, and that rule is
  removed in between, the answer to the owner lookup is ignored and the owner stays stale
  (`NameOwner.DisturbedIsStale`). `NameOwner.OwnerKnown` and `NameOwner.OwnerRight` give the exact
  condition.
- `MatchRule.String` does not escape apostrophes (`RuleText.ApostropheConfuses`), and gives every
  unknown message type the same empty name (`RuleText.UnknownTypesConfuse`).
- The first owner lookup can fail without an answer, when its message is not written. It then counts
  as an empty owner at once, before the changes that are queued (`NameOwner.OwnerKnown`).
- The serial counter reaches 0 after 2^32 messages (`Calls.SerialsGoodExactly`).

## Model

| member | source | states |
|---|---|---|
| Bytes.UintRoundTrip | encoder.go:109-128 | a number written in w bytes in either byte order reads back as itself |
| Octets.MostSignificant | decoder.go:58-125 | for any number of octets, one more at the most significant end, first in big-endian and last in little-endian, counts by its place value |
| Octets.ReadsAs | decoder.go:58-125 | 1, 2, 4 or 8 octets are read as the sum of their place values, in either byte order |
| Octets.WritesAs | encoder.go:96-128 | and written so |
| Unmarshal.AlignStepIsPad | decoder.go:27-33 | the decoder's remainder formula skips as many bytes as the encoder's padding loop writes |
| Types.SignatureOf | types.go:18-84 | succeeds exactly on the types that have a signature, and returns its text |
| Octets.SignatureLetters | types.go:22-61 | the texts of the thirteen one-letter types, in octets |
| Octets.SignatureShapes | types.go:62-82 | a before the element, a{ } around key and value, ( ) around the fields one after the other |
| Octets.SignatureTexts | types.go:18-84 | ai, a{sv} and (iv) |
| Octets.TypeLetters | types.go:86-130 | which single letters are types, alone, in arrays, structs and dict entries |
| Types.ParseType | types.go:86-130 | the recursive parser with its struct loop computes NextType, and ends |
| Types.Validate | types.go:133-142 | accepts exactly the runs of complete types |
| Types.NextTypeComplete | types.go:86-130 | in any context, NextType steps over exactly the text of any tree of the grammar that stands at the offset |
| Types.NextTypeSound | types.go:86-130 | whatever NextType steps over is the text of one tree of the grammar |
| Types.ParseUnique | types.go:86-130 | at any place of any signature at most one tree starts: the grammar is prefix-free |
| Types.NextTypeOfSignature | types.go:18-130 | NextType inverts SignatureOf in any context |
| Types.SignatureUnique | types.go:18-84 | two types whose signatures both stand at one place are equal |
| Types.CodeInjective | types.go:18-84 | types with the same tree are equal |
| Marshal.Relocation | encoder.go:77-205 | a value has the same bytes at offsets that agree modulo the largest alignment inside it |
| Marshal.SeparateIsInPlace | encoder.go:141-172 | on relocatable values the separate content buffers give the layout of the specification |
| Marshal.FieldsSeparateIsInPlace | encoder.go:30-37 | the same for a list of arguments |
| Marshal.EndResidue | encoder.go:141-172 | a value that needs alignment 8 ends at the same residue modulo 8 wherever it is put |
| Marshal.ArrayLayoutExact | encoder.go:141-154 | an array whose elements align below 8 is laid out as specified at every offset if and only if nothing inside needs alignment 8 |
| Marshal.MisplacedArray | encoder.go:141-154 | any other such array is laid out wrongly at offset 0 or at offset 4 |
| EncoderModule.Encoder.constructor | encoder.go:16-22 | an encoder starts with the given signature, data and byte order |
| EncoderModule.Encoder.Align | encoder.go:24-28 | the loop appends octets that are 0, fewer than the alignment, up to a multiple of it |
| EncoderModule.Encoder.Append | encoder.go:30-37 | succeeds exactly on encodable arguments and then extends signature and data by theirs |
| EncoderModule.Encoder.AppendValue | encoder.go:77-95 | a success extends the signature by exactly SignatureOf of the type and the data by the value's bytes |
| EncoderModule.Encoder.AppendBody | encoder.go:96-205 | the aligned value's bytes are appended and the signature is left as it was |
| Octets.Alignments | encoder.go:39-75 | the alignment of every type, in numbers |
| Octets.Ranges | encoder.go:96-128 | the range of every number type, in numbers |
| Octets.NumberOctets | encoder.go:96-128 | padding zeros up to the number's own size, then that many octets that stand for it in two's complement |
| Octets.BoolOctets | encoder.go:100-108 | padding zeros up to 4, then the word 0 or 1 in the byte order |
| Octets.TextOctets | encoder.go:129-140 | strings and object paths: padding zeros up to 4, the length in four octets, the text, one octet 0, and nothing else |
| Octets.SignatureOctets | encoder.go:129-140 | signatures: a length octet, the text, one octet 0, no padding |
| Octets.VariantOctets | encoder.go:174-191 | variants: the signature of the payload as such, then the payload at the place reached |
| Octets.ArrayOctets | encoder.go:141-154 | padding zeros up to 4, the length of the contents alone, padding zeros for the elements, the contents |
| Octets.DictOctets | encoder.go:155-172 | the same for dicts, padded to 8 |
| Octets.EntryOctets | encoder.go:160-168 | an entry: padding zeros up to 8, key, value |
| Octets.StructOctets | encoder.go:192-203 | padding zeros up to 8, then the fields |
| EncoderModule.Encoder.AppendVariant | encoder.go:174-191 | signature and payload are appended as data; the saved signature is restored |
| EncoderModule.Encoder.AppendArray | encoder.go:141-154 | length, padding and separately built contents |
| EncoderModule.Encoder.AppendElems | encoder.go:144-150 | the element loop builds the contents |
| EncoderModule.Encoder.AppendDict | encoder.go:155-172 | the same for maps |
| EncoderModule.Encoder.AppendEntries | encoder.go:158-168 | the entry loop builds the contents, each entry aligned to 8 |
| EncoderModule.Encoder.AppendEntry | encoder.go:160-168 | padding, key, value |
| EncoderModule.Encoder.AppendFields | encoder.go:193-202 | the field loop |
| DecoderModule.Decoder.Align | decoder.go:27-33 | moves the data offset to the next multiple |
| DecoderModule.Decoder.DecodeInto | decoder.go:35-48 | the targets are decoded one after the other |
| DecoderModule.Decoder.DecodeRest | message.go:211-222 | the loop of AllArgs |
| DecoderModule.Decoder.TakeUint | decoder.go:58-125 | the number is the sum of the place values of the octets at the next multiple of its size; it fails exactly if the data end before |
| Octets.DecodesNumber | decoder.go:167-283 | what the letters y n q i u x t d make of any octets and any target: value, range, both offsets, or which error |
| Octets.DecodesBool | decoder.go:180-192 | the same for b: any octet that is not 0 makes it true |
| Octets.DecodesText | decoder.go:284-311 | the same for s and o |
| Octets.DecodesSignature | decoder.go:312-322 | the same for g |
| Octets.DecodesVariant | decoder.go:455-489 | the same for v |
| Octets.DecodesArray | decoder.go:323-419 | the same for a: bounds, the letters after which the contents start at a multiple of 8, and what each kind of target does |
| Octets.DecodesStruct | decoder.go:420-454 | the same for an opening parenthesis |
| Octets.DecodesNothing | decoder.go:160-166 | every other letter, h included, is an error, and so is the end of the signature |
| Octets.DynamicTypes | decoder.go:455-489 | the Go type of what a variant then holds |
| Octets.Stored | decoder.go:386 | a value stored under a key is the only one there, and no other entry changes |
| Octets.ChainIsRead | decoder.go:353-366 | elements that follow each other, the last up to the array's end or over it, are what the loop reads |
| Octets.ReadIsChain | decoder.go:353-366 | and whatever the loop reads is such a chain |
| DecoderModule.Decoder.TakeString | decoder.go:132-144 | length, text, terminator |
| DecoderModule.Decoder.TakeSignature | decoder.go:146-158 | length octet, text, terminator |
| DecoderModule.Decoder.DecodeValue | decoder.go:160-492 | value, error and both offsets after decodeValue are those of Decode |
| DecoderModule.Decoder.TakeNum | decoder.go:167-283 | numbers into their own type or a blank interface |
| DecoderModule.Decoder.TakeBool | decoder.go:180-192 | any non-zero word is true |
| DecoderModule.Decoder.TakeStr | decoder.go:284-322 | strings, object paths and signatures into any string kind |
| DecoderModule.Decoder.TakeArray | decoder.go:323-419 | length, element signature, alignment and bounds of an array |
| DecoderModule.Decoder.TakeContent | decoder.go:344-419 | slices, maps and blank interfaces; other targets are skipped |
| DecoderModule.Decoder.TakeElems | decoder.go:353-366 | the element loop resets the signature offset every time |
| DecoderModule.Decoder.TakeEntries | decoder.go:367-403 | the entry loops for maps and blank interfaces |
| DecoderModule.Decoder.TakeEntry | decoder.go:373-384 | one key and value |
| DecoderModule.Decoder.TakeStruct | decoder.go:420-454 | structs, with and without stepping over the closing parenthesis |
| DecoderModule.Decoder.TakeFields | decoder.go:431-451 | the field loops |
| DecoderModule.Decoder.TakeVariant | decoder.go:455-489 | the sub-decoder and the offset it hands back |
| RoundTrip.DecodeWire | decoder.go:160-492 | a value in wire format, anywhere in any data, decodes to its view and exactly its bytes and codes are consumed, up to the parentheses a blank interface leaves |
| RoundTrip.DecodeVariantWire | decoder.go:455-489 | the same for variants |
| RoundTrip.DecodeArrayWire | decoder.go:323-419 | the same for arrays; the loop lands exactly on the array's end |
| RoundTrip.DecodeDictWire | decoder.go:367-403 | the same for dicts |
| RoundTrip.DecodeStructWire | decoder.go:420-454 | the same for structs |
| RoundTrip.ReadSignatureBack | encoder.go:132-139 | a signature reads back if and only if it has at most 255 codes; otherwise a prefix is read |
| RoundTrip.FirstCode | decoder.go:336-339 | the decoder's switch on the first type code agrees with the encoder's alignment |
| Layout.LayoutExact | encoder.go:141-205 | per offset: arguments have the layout of the specification if and only if every part is padded alike in its own buffer and in the message |
| Layout.InStep | encoder.go:77-205 | for one value whose two offsets agree modulo 8, the same equivalence at every depth; where it fails the bytes differ in length or at a place inside |
| Layout.RelocatablePlaced | encoder.go:141-172 | relocatable arguments are padded alike at every offset |
| Layout.LuckyArray | encoder.go:141-154 | an array of alignment-4 elements that need alignment 8 inside is laid out right when its contents start at a multiple of 8 |
| Codec.DecodeArgsWire | decoder.go:35-48 | arguments in wire format decode to their views, whatever follows |
| Codec.RoundTripArgs | encoder.go:30-205 | the round trip: append at an offset where the arguments are placed alike, then decode with any fitting targets |
| Codec.RelocatableRoundTrip | encoder.go:141-172 | relocatable arguments are placed alike at any offset, so they round-trip wherever they are appended |
| Codec.OwnTypeFits | decoder.go:160-492 | every proper type is a fitting target for itself and leaves no parenthesis over |
| Codec.IdentityExact | decoder.go:455-489 | a value decoded at its own type comes back unchanged if and only if its variants hold numbers, booleans, strings or such variants |
| Codec.FieldsConcat | encoder.go:30-37 | appending two lists is appending their concatenation |
| Codec.AppendKeepsValid | types.go:133-142 | whatever is appended, a signature Validate accepts stays one |
| Codec.NestedInt64Unreadable | encoder.go:141-154 | a nested list of one 64-bit number, appended first, cannot be read back |
| Dynamic.DecodeExact | decoder.go:420-489 | any well-formed value in any fitting target comes back as its view if no struct in front of further codes is reached in a blank interface, and only if none is outside variants; also only if none is in variants, when those inside dict values can be taken |
| Dynamic.ViewPasses | decoder.go:323-489 | whatever the data: if the view of a value comes out, no such struct is in it outside variants, and the decoder stands at its place in the signature |
| Dynamic.VariantExact | decoder.go:455-489 | a variant gives its payload back if and only if a blank interface can take the payload |
| Dynamic.DynamicStructExact | decoder.go:442-453 | for a struct in a blank interface: if and only if no field before the last is a struct and each field can be taken |
| Dynamic.StructEndsEarly | decoder.go:442-453 | otherwise, if the fields can be taken, the struct ends after its first field that is a struct |
| Dynamic.ArgsExact | decoder.go:35-48 | Args gives the views of well-formed arguments into fitting targets if and only if each target takes its argument and only the last leaves parentheses |
| Dynamic.AllArgsExact | message.go:211-222 | AllArgs gives the views of well-formed arguments if and only if none is a struct and each can be taken |
| Progress.DecodeAdvances | decoder.go:160-492 | for any bytes and target: if neither the signature nor a variant signature read on the way has an empty struct, no loop runs forever and every success consumes a byte and ends inside the data |
| Progress.DecodeEnds | decoder.go:160-492 | with empty structs anywhere but at the head of an element type, or of both a key and a place its value may be read at, still no loop runs forever, and only empty structs consume nothing |
| Progress.ElemsSound | decoder.go:353-366 | the element loops end, and end inside the data |
| Progress.EntriesSound | decoder.go:367-403 | the same for the entry loops |
| Progress.VariantSound | decoder.go:455-489 | the same for variants, whose signature comes from the data |
| Progress.VoidElementsLoop | decoder.go:358-366 | in a blank interface, an array whose element type begins with nothing but empty structs loops forever if and only if its length is not 0 |
| Progress.StructKeysPanic | decoder.go:388-403 | in a blank interface, a dict of structs to anything that is not empty ends with the error of its first key or value, or with the panic on an unhashable key |
| Weightless.NoProgressExactly | decoder.go:160-454 | for every type without variants: some data makes decoding into it loop forever if and only if some array or dict inside has elements that take no bytes |
| Weightless.DecodeSteady | decoder.go:160-454 | without such an array or dict, no data does, and every type but a weightless one consumes a byte |
| Weightless.DataLoops | decoder.go:353-403 | with one, there is data for every offset that does |
| Weightless.WeightlessElementsLoop | decoder.go:358-366 | on every data: an array of weightless elements loops forever if and only if its length is not 0 |
| Weightless.WeightlessEntriesLoop | decoder.go:367-387 | the same for a dict of weightless keys and values at its own type |
| DecoderLaws.TypedDynamicAgree | decoder.go:345-489 | on any bytes, typed and dynamic decoding fail with the same error or consume the same bytes and give the same value |
| DecoderLaws.EntriesAgree | decoder.go:367-403 | the same for maps, overwritten keys included |
| Stable.StaysExactly | decoder.go:160-492 | for any signature, place, target and data: what decodes, decodes the same whatever data and codes follow, if and only if it is not a struct in a blank interface that the signature's end cut off |
| Stable.DecodeStays | decoder.go:160-492 | one direction: more data never changes it, and more codes do not unless it was cut off |
| Stable.CutOffGrows | decoder.go:442-451 | the other: with one more code and byte a struct that was cut off gets a field more |
| Stable.StopsInside | decoder.go:160-492 | decoding that starts at a complete type stops by its end, whatever the target |
| Stable.ArgsStay | decoder.go:35-48 | under a valid signature, what a list of targets reads it reads the same, whatever follows |
| Stable.ValidNests | types.go:133-142 | in a valid signature a complete type starts at every code that opens one, and ends inside |
| Stable.UnfinishedStructGrows | decoder.go:442-451 | an instance: an unfinished struct decodes, and to more when it goes on |
| MessageModule.Message.constructor | message.go:71-83 | a new message is empty, little-endian, protocol 1 |
| MessageModule.Message.MethodCall | message.go:88-96 | a method call |
| MessageModule.Message.MethodReturn | message.go:104-116 | a reply carries the serial of its call and goes to its sender |
| MessageModule.Message.ErrorReply | message.go:137-153 | an error reply, with its text as argument |
| MessageModule.Message.SetSerial | message.go:155-160 | the serial is set once |
| MessageModule.Message.AppendArgs | message.go:181-189 | succeeds exactly on encodable arguments; a failure leaves the message unchanged |
| MessageModule.Message.Args | message.go:202-205 | decodes from the start of the body |
| MessageModule.Message.AllArgs | message.go:211-222 | decodes everything into blank interfaces |
| MessageModule.Message.StoreField | message.go:289-308 | one header field, with the type its code asks for |
| MessageModule.Message.StoreFields | message.go:289-308 | the loop over header fields; unknown codes are ignored |
| MessageModule.Message.ListFields | message.go:321-346 | the non-empty header fields in code order |
| MessageModule.Message.WriteTo | message.go:321-379 | the two writes are the padded header, which starts with 'l' or 'B', type, flags, version and the words for body length and serial, and the body |
| MessageModule.HeaderOctets | message.go:348-364 | the fixed part of the header in octets |
| Framing.FieldsListed | message.go:321-346 | the eight header fields with their codes and types, each if and only if it is not empty |
| Framing.TextFieldOctets | message.go:321-346 | a text field in octets: code, signature s or o, length, text, 0 |
| Framing.SignatureFieldOctets | message.go:321-346 | the signature field in octets |
| Framing.ReplyFieldOctets | message.go:321-346 | the reply serial in octets |
| Framing.FieldsUnderstood | message.go:289-308 | what each code sets, which type it wants, and that other codes are ignored |
| Framing.MessageNumbers | message.go:13-20 | the numbers of the message types, the version, and the size of a word |
| MessageModule.PrologueOctets | message.go:244-267 | any 16 octets: 'l' and 'B' are the only tags, and what the others then say |
| MessageModule.Reader.TakePrologue | message.go:244-267 | the first 16 bytes |
| MessageModule.Reader.TakeFields | message.go:269-308 | header fields and padding |
| MessageModule.Reader.Read | message.go:244-318 | readMessage consumes exactly the message, or reports the error; 'l' means little-endian, 'B' big-endian, anything else an error; type, flags, version, serial and body length are those of the octets |
| MessageModule.Reader.ReceiveLoop | dbus.go:165-179 | messages are read up to the first error |
| MessageModule.ReadWritten | message.go:244-379 | readMessage undoes WriteTo whatever follows, and the body starts at a multiple of 8 |
| MessageModule.PrefixIsShort | message.go:244-318 | every proper prefix of a written message is recognised as incomplete |
| MessageModule.StreamReceived | dbus.go:165-179 | any sequence of messages in any byte orders, with a piece of the next, is received as those messages |
| MessageModule.SetHeaderFields | message.go:289-346 | reading the listed header fields restores the message |
| MessageModule.AppendedTwice | message.go:181-189 | AppendArgs twice gives the message of one AppendArgs of both lists |
| MessageModule.ReadableStays | message.go:181-205 | whatever targets can be read from a message with a valid signature, they read the same after any further append, and the signature stays valid |
| MessageModule.FirstArgsStable | message.go:181-205 | the first arguments decode to their views into any fitting targets, before and after anything is appended |
| SignalIndex.FirstTextIsAppended | matchrule.go:61-66 | a text appended first is what Arg0 is compared with |
| SignalIndex.FirstTextOctets | matchrule.go:61-66 | for any message: the text Arg0 is compared with, in octets of the body, and when there is none |
| SignalIndex.MatchRule.Match | matchrule.go:43-68 | every set parameter that differs excludes the message; with the sender itself or the owner of its name, and the rest the same, it matches |
| SignalIndex.SignalWatchSet.Add | signal.go:12-28 | the watch is registered once more |
| SignalIndex.SignalWatchSet.Remove | signal.go:30-53 | finds exactly registered watches and removes one occurrence, leaving the others |
| SignalIndex.SignalWatchSet.FindMatches | signal.go:55-92 | every watch is found as often as a linear scan with Match finds it: as often as it is registered if all parameters its rule sets are the message's, the sender by its name or its owner, and not at all otherwise |
| SignalIndex.CollectPaths | signal.go:68-90 | the nested loops collect the matching watches under the given keys |
| SignalIndex.SwapRemove | signal.go:43-50 | moving the last watch into the gap removes one occurrence |
| RuleText.String | matchrule.go:20-41 | the rule text lists the parameters that are set |
| RuleText.SignalText | matchrule.go:20-41 | the text of any signal rule, written out |
| RuleText.TypeNames | message.go:21-29 | the names of the other types |
| RuleText.TextIsRule | matchrule.go:20-41 | rules of known types and without apostrophes have one text if and only if type, sender, path, interface, member and first argument are the same |
| RuleText.ApostropheConfuses | matchrule.go:20-41 | with apostrophes two signal rules that differ can have one text |
| RuleText.UnknownTypesConfuse | matchrule.go:20-51 | rules that differ only in unknown types have one text, and match no message in common |
| Registry.WatchRegistry.Agreement | signal.go:104-144 | at quiescent points the daemon's rule strings are those of the registered watches if and only if no RemoveMatch failed; at most one RemoveMatch a watch |
| Registry.WatchRegistry.BeginWatch | signal.go:104-115 | the watch is in the index before AddMatch is sent |
| Registry.WatchRegistry.DaemonAccepts | signal.go:117-124 | AddMatch succeeds |
| Registry.WatchRegistry.UndoWatch | signal.go:117-122 | AddMatch failed: the watch is taken out again |
| Registry.WatchRegistry.BeginCancel | signal.go:127-142 | only a live watch goes on to RemoveMatch; a second cancel does nothing |
| Registry.WatchRegistry.TakeFromIndex | signal.go:133-135 | the local removal |
| Registry.WatchRegistry.FinishCancel | signal.go:137-143 | one rule string leaves the daemon, unless RemoveMatch fails |
| Registry.WatchRegistry.SetSenderOwner | signal.go:177-180 | updating the sender's owner preserves everything |
| Registry.WatchRegistry.WatchSignal | signal.go:104-125 | from start to end: watch and rule are there, or neither |
| Registry.WatchRegistry.Cancel | signal.go:127-144 | from start to end: watch and rule are gone; nothing changes the second time |
| Registry.TextsPermuted | signal.go:117-138 | the daemon's rule strings depend only on the multiset of watches |
| NameOwner.OwnerKnown | names.go:29-78 | in every run, once the owner is known: handling the queued signals yields the daemon's owner if and only if the last change sent is to that owner, or none was sent and the lookup was not a wrong guess |
| NameOwner.OwnerRight | names.go:29-78 | if no change was missed after the last one sent, it yields that owner unless the lookup was a wrong guess |
| NameOwner.ToldInOrder | names.go:54-78 | in every run the owners handled, then those queued, are owners of the name at increasing places of its history; none up to the current one is left out if and only if no change was missed after one was sent |
| NameOwner.ToldContiguous | names.go:54-78 | then they are consecutive owners of the name, and the queue holds exactly the rest |
| NameOwner.LookupTells | names.go:54-67 | in every run: when the lookup is over the owner is known; its outcome counts once, an error as no owner, and only while nothing was told |
| NameOwner.FailedLookupIsWrong | names.go:54-67 | a run in which a lookup that failed on this side leaves an owned name without owner |
| NameOwner.UndisturbedMissesNothing | names.go:29-46 | no change is missed while no other rule that covers the name goes before the daemon has this one |
| NameOwner.DisturbedIsStale | names.go:54-67 | the condition is needed: a run that ends with a stale owner |
| NameOwner.StepKeeps | names.go:29-78 | every step of client and daemon keeps the invariant, also a lookup that fails before or without an answer |
| NameOwner.DispatchKeeps | dbus.go:251-257 | so does handling one queued message |
| NameWatches.NameInfo.HandleOwnerChange | names.go:69-78 | every watch is told once |
| NameWatches.NameInfo.CheckCurrentOwner | names.go:54-67 | the lookup counts only while no notification came |
| NameWatches.NameInfo.Drop | names.go:111-119 | swap-removal: the other watches stay and are not called |
| NameWatches.NameRegistry.Find | names.go:81-84 | the entry of the name, if there is one |
| NameWatches.NameRegistry.NewInfo | names.go:23-42 | a new nameInfo listens before it is in the table |
| NameWatches.NameRegistry.Abandon | names.go:43-45 | AddMatch failed: no entry |
| NameWatches.NameRegistry.Lookup | names.go:48-67 | the answer counts only while nothing was told |
| NameWatches.NameRegistry.Store | names.go:88 | the entry is in the table once its owner is known |
| NameWatches.NameRegistry.Register | names.go:91-101 | the new watch is told the current owner |
| NameWatches.NameRegistry.OwnerChanged | names.go:69-78 | a signal at any moment, between any of these steps and after the entry was removed: the watches there are are told once |
| NameWatches.NameRegistry.NewNameInfo | names.go:23-52 | the steps together: no entry without a signal watch; afterwards the owner is that of the last signal, else the one looked up |
| NameWatches.NameRegistry.EnsureNameWatch | names.go:80-102 | the steps together, with signals in between: one entry a name, shared by its watches; the new watch starts with the owner current when it was registered |
| NameWatches.NameRegistry.RemoveNameWatch | names.go:104-130 | the entry goes with its last watch, and only then; a second removal is an error, and so is a failure to cancel the signal watch |
| NameWatches.NameRegistry.Suffix | names.go:69-102 | a live watch was told exactly the owners from the one current at its registration on |
| NameWatches.NameRegistry.Observed | names.go:29-102 | if no change was missed, these are consecutive owners of the name, and the next ones are those in the daemon's queue |
| Calls.RepliesCorrelated | dbus.go:240-305 | with fewer than 2^32 serials, a caller gets only the reply to its own call, and serials are distinct and not 0 |
| Calls.StrayReplyDropped | dbus.go:240-281 | in every run, a reply to a message sent without waiting for one finds no channel, and every channel only ever holds the reply to its own call |
| Calls.NoReplyLost | dbus.go:283-305 | from the moment the peer can answer, also before the write returns, the reply to a call that waits for one is in exactly one place until the caller has it, and in its channel once the dispatcher is idle |
| Calls.ReadableIsAnswerable | dbus.go:283-305 | in every run, a message the peer can read whole on the wire and has not answered can be answered at that moment |
| Calls.DispatcherNeverBlocks | dbus.go:240-250 | a channel holds at most one reply and is empty when one is delivered |
| Calls.NothingStuck | dbus.go:240-305 | in every run, every call that is not over can take its next step unless it waits for its reply or the lock, the holder of the lock can always go on, and so can the dispatcher while there are replies |
| Calls.SerialsGoodExactly | dbus.go:267-269 | serials are distinct and not 0 if and only if fewer than 2^32 were issued |
| Calls.WireIntact | dbus.go:271-296 | without a torn write the peer reads exactly the messages written, whole, in lock order, each once |
| Calls.StepKeeps | dbus.go:240-305 | every step keeps the correlation invariant |
| Calls.WireKept | message.go:365-378 | every step keeps the wire invariant |
| Calls.LockKept | dbus.go:271-276 | only the holder of the write lock is writing, and only whole messages are listed |
| ConnectionModule.Connection.NextSerial | dbus.go:267-269 | the counter step, modulo 2^32 |
| ConnectionModule.Connection.Register | dbus.go:288-294 | the reply channel is in the table before the message is written |
| ConnectionModule.Connection.Unregister | dbus.go:296-301 | a failed write takes it out again |
| ConnectionModule.Connection.TakeReply | dbus.go:240-247 | the reply's channel is looked up and taken out |
| ConnectionModule.Connection.Deliver | dbus.go:248-250 | the channel was empty and now holds the reply |
| ConnectionModule.Connection.Await | dbus.go:303-304 | what arrives is the reply to this call |
| Dispatch.Router.HandlerForPath | dbus.go:181-199 | terminates; returns the exact handler, else that of the longest prefix up to a slash that is registered with a star; fails if and only if no such key is registered |
| Dispatch.Router.RegisterObjectPath | dbus.go:323-330 | one handler a path |
| Dispatch.Router.UnregisterObjectPath | dbus.go:332-339 | the handler is gone |

## Left out

- Go reflection, pointers, nil, unexported fields and fixed-size array targets: `Ty` and `Val` stand for types and values.
- Types of map targets whose keys are structs or variants, and Go's key equality for NaN and -0.0.
- Re-encoding of decoded bytes: the decoder ignores padding and terminators, so only decode-after-encode is an identity.
- Codec.RoundTripArgs: arguments not placed alike have another layout than the specification's, and what the decoder makes of that is shown for one family only, by `Codec.NestedInt64Unreadable`.
- Dynamic.DecodeExact: that a variant inside a dict value whose payload a blank interface cannot take spoils the dict's view is not stated, here and in the theorems built on it; the entries after it are read at other offsets and may repeat its key. That taking every payload suffices is stated.
- Weightless.NoProgressExactly: types without variants; with variants the types come from the data, and `Progress.DecodeEnds` is about those read.
- DecoderLaws.TypedDynamicAgree: structs only where a blank interface can take them (`DynamicOk`), and basic dict keys.
- Lengths on platforms whose int has 32 bits.
- Short reads, partial writes that report no error, and logging.
- Calls.WireIntact: says nothing after a write that failed half way; the code goes on writing there.
- Calls.RepliesCorrelated: the peer answers a call at most once and sends no replies to serials nobody used.
- Message filters, whose results the code discards but for the nil check; none drops a message here.
- The built-in answers to Ping and GetMachineId, and the error for unknown object paths.
- Registry.WatchRegistry.BeginCancel: runs under the watch's cancelLock, so two cancels of one watch do not overlap.
- The exported `SignalWatch` and `NameWatch`, which wrap the internal watches in a channel and a lock (signal.go:146-220, names.go:132-161).
- Changing the key fields of a rule while it is registered: they are constants here.
- NameWatches.NameRegistry.EnsureNameWatch: signals for its own name arrive between its steps; those for other names touch other entries and are `OwnerChanged` there.
- Deadlock freedom and lock ordering: callbacks run under locks.
- The request and release of names (names.go:163-332).
- NameOwner.OwnerKnown: NameOwnerChanged messages are well-formed; the code logs and drops others.
- Authentication, transports, proxies and introspection.
