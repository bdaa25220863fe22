# SIP2 message decoder

A Dafny model of the message decoder of a Go library for the 3M Standard
Interchange Protocol, version 2.00 (SIP2). Self-service library machines
and library systems exchange SIP2 messages. A message is:

- a two-digit type code;
- the type's fixed-length fields, found by position;
- variable-length fields, each a two-letter code and a value ended by `|`.

`Decode` turns the bytes of one message into a `Message`. A `Message` is a
type, a map from field to one value, and a map from repeatable field to its
values in wire order. When the bytes are not a message, `Decode` returns a
classified error.

## Modules

- `wrappers.dfy`, module `Wrappers`: `Result`.
- `utf8.dfy`, module `Utf8`:
  - bytes and the `|` delimiter;
  - Go's `utf8.DecodeRune`, following the acceptance ranges of section 4 of RFC 3629;
  - `Bytes`, which writes ASCII text as bytes.
- `sip.dfy`, module `Sip`:
  - the message and field types, numbered as Go's `iota` numbers them, each with its `Unknown` zero value;
  - the `Message` record;
  - the wire codes and fixed widths the protocol assigns;
  - the facts that the codes are distinct and resolve back.
- `tables.dfy`, module `Tables`: the lookup tables the decoder consults, as an abstract `Schema`.
  - `WellFormed`: every type's minimum length covers its code and its fixed fields.
  - `Sip2`: the concrete tables for the three message types the tests decode. These are patron status request (23), checkout request (11) and checkout response (12).
- `decoder.dfy`, module `Decoder`: the decoder itself, in five steps:
  1. trim one trailing CR;
  2. reject input shorter than two bytes;
  3. dispatch on the type code;
  4. apply the type's minimum-length gate;
  5. slice the fixed fields, then run the variable-field loop.
- `properties.dfy`, module `DecoderProperties`: an independent description of the wire format, and the theorems relating the decoder to it.
  - `Encode` builds a message from a type code, fixed values and (code, value) entries.
  - `StoreAll` records entries in order.
  - The round trip `DecodeEncoded` says that decoding what `Encode` wrote gives back exactly the described message.
  - Corollaries cover fixed fields, repeatable and single-value fields, unknown codes, the optional final `|`, and the stray-byte case.
- `vectors.dfy`, module `DecodeVectors`: the repository's test messages and error cases, decoded with the concrete tables.

The field loop scans values with `NextBar`, which steps one byte at a time.
The source steps one UTF-8 character at a time, and `ScanValue` models
exactly that. `Decoder.ScanValueIsNextBar` proves the two scans stop at the
same place on every input, because a multi-byte character never contains
the byte 0x7C.

## Model

| member | source | states |
|---|---|---|
| Utf8.DecodeRune | decode.go:65-68 | While bytes remain, the character read has width at least 1 and never runs past the end. It is `\|` exactly when its first byte is 0x7C, and then its width is 1. Every later byte of a multi-byte character is a continuation byte, so none is 0x7C. The value is a code point. |
| Sip.MsgCodeResolves | sip.go:35-68 | Every named message type has a two-digit code, and looking that code up gives back the type. |
| Sip.MsgCodesDistinct | sip.go:37-68 | Two different named types never share a code, so the code-to-type lookup is well defined. |
| Sip.MsgTypeOfInverse | decode.go:34-37 | A code resolves to a named type only if it is exactly that type's code. Anything else resolves to `MsgUnknown`. |
| Sip.FieldCodeResolves | sip.go:125-184 | Every variable-length field has a two-letter code, and looking that code up gives back the field. |
| Sip.FieldCodesDistinct | sip.go:125-184 | Two different variable-length fields never share a code. |
| Sip.FieldTypeOfInverse | decode.go:58-60 | A code resolves to a named field only if it is exactly that field's code. Any other code resolves to `FieldUnknown`. |
| Sip.FieldKinds | sip.go:74-123 | Every field except the sentinel is exactly one kind. A fixed-length field has no code and a width in {1,2,3,4,10,14,18}. A variable-length field has a code and no width. The sentinel has neither. |
| Sip.CodedFieldIsVariable | sip.go:78-125 | No wire code resolves to a fixed-length field. |
| Tables.Sip2WellFormed | decode.go:39-52 | In the concrete tables, each type's minimum length covers the type code and its fixed fields. This makes the fixed-field slicing safe once the gate passes. Patron status needs 12 bytes beyond its fixed part, one code and `\|` for each of its four required fields. |
| Tables.Sip2FixedLength | decode_test.go:14-55 | The fixed parts are 21 bytes for type 23, 38 for type 11 and 22 for type 12. These widths are the ones the tests' messages lay out. |
| Tables.Sip2FixedFieldsUncoded | decode.go:48-58 | No wire code reaches a fixed field of any type. |
| Decoder.TrimCR | decode.go:24-28 | The result is a prefix of the input, at most one byte shorter. It is shorter exactly when the input ends with CR. |
| Decoder.ParseFixed | decode.go:47-52 | The cursor advances by exactly the total width of the fields. The map gains exactly the listed fields, and every other key keeps its value. |
| Decoder.ScanValue | decode.go:65-78 | Stepping by characters, the scan stops at a `\|` byte with no `\|` before it, or reports the end of input when the rest holds no `\|`. |
| Decoder.NextBar | decode.go:65-77 | Stepping one byte at a time, the scan stops at a `\|` byte with no `\|` before it, or reports the end of input when the rest holds no `\|`. |
| Decoder.ScanValueIsNextBar | decode.go:65-77 | The character scan and the byte scan stop at the same place on every input. |
| Decoder.StoreField | decode.go:69-83 | Recording a value keeps the message type. A repeatable field gets the value appended to its list, and the single-value map is untouched. Any other field is set to the value, overwriting an earlier one, and the repeatable map is untouched. |
| Decoder.ParseVariable | decode.go:54-88 | The loop keeps the message type. It fails only when fewer than two bytes remain where a field code must start, and it reports that offset. |
| Decoder.Decode | decode.go:19-44 | Each error happens exactly under its condition. The input is too short after the trim. The code is unknown, and the error carries the two bytes read. The input is below the type's minimum, and the error carries the type, the trimmed length and the minimum. A success carries the type of the first two bytes and has passed every gate. |
| DecoderProperties.DecodeIgnoresFinalCR | decode.go:24-28 | Appending one CR to an input that does not end with CR leaves the decode result unchanged. |
| DecoderProperties.ParseFixedSlice | decode.go:47-52 | The i-th fixed field holds the bytes of its slot: its width, at offset p plus the widths before it. This holds when no later field repeats it. |
| DecoderProperties.ParseFixedFirst | decode.go:48-51 | The first fixed field holds the first slot, its width from p, when the list does not name it again. |
| DecoderProperties.DecodeFixedFields | decode.go:46-52 | On success, every required fixed field of the type is present and holds its slot verbatim. Slots start at offset 2 and follow the declared widths. |
| DecoderProperties.ParseFixedEncoded | decode.go:47-52 | Fixed-width values laid end to end are read back as exactly those values, and the cursor ends after them. |
| DecoderProperties.ParseVariableTurn | decode.go:56-87 | One loop turn records a value for the field named by the two bytes at `p`. The loop then ends at the end of input or resumes further on. |
| DecoderProperties.StoreFieldKeeps | decode.go:69-83 | Recording a variable field keeps the message type and every key of the single-value map. Every other field keeps its presence, its single value and its list of values. |
| DecoderProperties.StoreFieldShape | decode.go:69-83 | Recording a field keeps a message well shaped: repeatable keys are non-empty lists of repeatable fields. |
| DecoderProperties.ParseVariableKeeps | decode.go:54-88 | The field loop never removes a key. A field no code names keeps its value, so fixed fields survive the loop. |
| DecoderProperties.ParseVariableShape | decode.go:54-88 | The field loop keeps a message well shaped. |
| DecoderProperties.DecodeWellShaped | decode.go:43-88 | A decoded message holds every required fixed field of its type. Its repeatable fields have at least one value each, and they appear in the single-value map only as fixed fields of the type. |
| DecoderProperties.ParseVariableDelimited | decode.go:65-77 | A value closed by `\|` holds the bytes between the code and that `\|`. For an unknown code, the code is kept in front. The loop ends if the `\|` is the last byte, and otherwise resumes after it. |
| DecoderProperties.ParseVariableUndelimited | decode.go:78-84 | A value with no `\|` after it runs to the end of the input, and the loop ends. |
| DecoderProperties.ParseEntryDelimited | decode.go:57-77 | An entry written as code, value and `\|` with more input after it is recorded with its value. The loop resumes right after the `\|`. |
| DecoderProperties.ParseEntryClosing | decode.go:68-75 | An entry whose `\|` is the last byte is recorded, and decoding succeeds. |
| DecoderProperties.ParseEntryLast | decode.go:78-84 | A final entry with no `\|` is recorded with its whole value, and decoding succeeds. |
| DecoderProperties.EncodedTurn | decode.go:56-77 | Reading the first of several encoded entries leaves the decoder at the encoding of the rest, with that entry recorded. |
| DecoderProperties.EncodedLastTurn | decode.go:65-85 | Reading the only remaining entry, with or without a final `\|`, records it and ends the loop. |
| DecoderProperties.ParseVariableEncoded | decode.go:54-88 | The field loop over encoded entries gives exactly the entries recorded in order. |
| DecoderProperties.ThenMoreTurn | decode.go:56-77 | Reading the first of several `\|`-closed entries followed by more input leaves the decoder at the rest, with that entry recorded. |
| DecoderProperties.ParseVariableThenMore | decode.go:54-77 | After `\|`-closed entries followed by more input, the loop has recorded every entry and resumes where that input starts. |
| DecoderProperties.StoreAllRepeatable | decode.go:69-70 | A repeatable field gains one value per entry naming it, in wire order, empty values included. It is present exactly when it held values before or some entry names it. |
| DecoderProperties.StoreAllLastWins | decode.go:71-73 | A single-value field holds the value of the last entry naming it. If no entry names it, it keeps what it had, or stays absent. |
| DecoderProperties.StoreAllNoRepeatables | decode.go:43-44 | Entries that name no repeatable field leave the repeatable map and the type unchanged. |
| DecoderProperties.StoreAllSplit | decode.go:55-88 | Recording two runs of entries is the same as recording the first run, then the second. |
| DecoderProperties.StoreAllRun | decode.go:69-70 | A run of entries that all name one repeatable field appends exactly their values, in order, and changes nothing else. |
| DecoderProperties.DecodeEncoded | decode.go:19-91 | The round trip. Take a known type code, one value of the declared width per required fixed field, and at least one entry, with two-byte codes and `\|`-free values. The message must be long enough for the type and must not end in CR. This decodes to the type, the fixed fields mapped to their values, and the entries recorded in wire order. |
| DecoderProperties.DecodeReachesEntries | decode.go:19-52 | A message that starts with a known code and its fixed values, and is long enough, reaches the field loop right after the fixed part. The fixed fields are mapped to their values at that point. |
| DecoderProperties.DecodeTrailingBarOptional | decode.go:68-84 | Ending the last field with `\|` or not makes no difference to the decoded message, when the message without its final `\|` does not end in CR. |
| DecodeVectors.TrailingBarAfterCR | decode.go:24-28 | Where the final `\|` does matter. `99ADx\r\|` decodes with AD holding `x` and CR. `99ADx\r` decodes with AD holding `x`, because the CR is trimmed before parsing. |
| DecoderProperties.DecodeEncodedFields | decode.go:65-85 | For each variable field: a repeatable one holds exactly the values of the entries naming it, in order. Any other field holds the last such value, and is absent when no entry names it. |
| DecoderProperties.DecodeUnknownCodeKept | decode.go:58-72 | Entries with unrecognised codes all share the single `FieldUnknown` slot. After decoding, it holds the last such entry, its code in front of its value. Every earlier one is overwritten. |
| DecoderProperties.DecodeNoRepeatables | decode.go:43-44 | A message naming no repeatable field decodes with an empty repeatable map. |
| DecoderProperties.DecodeThenMore | decode.go:54-77 | For `\|`-closed entries followed by more input, decoding records every entry, then resumes the loop where that input starts. |
| DecoderProperties.DecodeStrayByte | decode.go:56-58 | One byte after the final `\|` is where a two-byte code read finds one byte. Decoding reports a truncated field at that offset. |
| DecodeVectors.PatronStatusRequest | decode_test.go:13-27 | The first test message decodes to its six fields and an empty repeatable map. |
| DecodeVectors.CheckoutRequest | decode_test.go:28-44 | The second test message decodes to its eight fields. The fixed values keep their spaces, the institution id is empty, and the password runs to the end of the input. |
| DecodeVectors.CheckoutResponse | decode_test.go:45-89 | The receipt decodes to its ten single-value fields and twenty-one print lines, in order. Empty lines are kept, and the multi-byte letters stay intact. |
| DecodeVectors.TooShort | decode_test.go:108-109 | The empty input, and one byte before CR, are too short. |
| DecodeVectors.UnknownCode | decode_test.go:110 | Code `xx` is unknown, and the error carries `xx`. |
| DecodeVectors.UnknownCodeWithBody | decode_test.go:111 | Code `33` is unknown even with a well-formed body behind it. |
| DecodeVectors.PatronStatusTooShort | decode_test.go:112 | A 34-byte patron status request fails its gate, reporting the type, 34 and 35. |
| DecodeVectors.PatronStatusWire | decode_test.go:14 | The first test message is exactly its type code, fixed values and `\|`-closed entries. |
| DecodeVectors.CheckoutWire | decode_test.go:29 | The second test message is exactly its type code, fixed values and entries, the last one without `\|`. |
| DecodeVectors.PatronStatusStrayByte | decode.go:56-58 | The first test message followed by one more byte fails as a truncated field at offset 61. |

## Left out

- Decoder.ParseVariable: the source does not check that two bytes remain before it reads a field code (decode.go:57-58). With fewer than two bytes left, Go always panics. Either the code slice at line 58 runs past the capacity, or, when the slice has capacity past its length (a trimmed CR, or the caller's buffer), it succeeds and the value slice at line 66 then starts past the length. The model returns `TruncatedField(offset)` in place of that crash. The case arises for one stray byte after the final `|`, or for a message with nothing after its fixed fields.
- Decoder.Decode: on an error the source also returns a partly filled `Message`, with its type set after dispatch. The model returns only the error.
- Decoder.Decode: the error texts built with `fmt` and `errors`, and the `String()` method of `msgType`, are not modelled. Errors are a datatype carrying the same data: the code, the type, the length and the minimum.
- Decoder.Decode: the doc comment at decode.go:18 says fields the protocol does not define are ignored. The code at decode.go:58-63 keeps them under `FieldUnknown` with their code in front. The model follows the code. All such fields share that one slot, so only the last one survives (decode.go:71-72).
- Go's distinction between nil and empty maps, which `reflect.DeepEqual` sees (decode_test.go:25, 98), is not modelled. Maps are values.
- Utf8.DecodeRune: models Go's decoder for well-formed and ill-formed input. Its contract states only the facts the scan needs, not the code point of every sequence. The rest of the `unicode/utf8` package is not part of this model.
- Tables.Sip2: the code-to-type and code-to-field tables, the widths, the required fixed fields, the minimum lengths and the repeatable set live in a file that is not part of this model. They are rebuilt as follows:
  - The codes come from the comments in sip.go.
  - Fixed fields are given for types 23, 11 and 12 only, as the tests lay them out. Every other type has no fixed fields and a minimum of 2.
  - Each minimum is the type code, plus the fixed part, plus three bytes (code and `|`) for each variable field the protocol requires of the type. For type 23 these fields are AO, AA, AC and AD, giving 35, which agrees with the test's error message. For 11 they are AO, AA, AB and AC, giving 52. For 12 they are AO, AA, AB, AJ and AH, giving 39. 52 and 39 are this model's reconstruction; the library's own minimum-length table is not part of this model.
  - Only the print line (AG) is repeatable.
  - The theorems in `DecoderProperties` hold for every well-formed schema, not just this one.
- Tables.Sip2FixedLength: NbDueDate is given width 18, as the checkout test lays it out (decode_test.go:29, 36). The comment at sip.go:99 says 1.
- The value domains noted in the comments of sip.go (Y or N, 0000 to 9999, dates) are not modelled, because the decoder does not check them.
- The `Valid`, `Field`, `HasField`, `MustField` and `Encode` methods at sip.go:18-29 are commented out and have no behaviour. `Message.Validate`, named at decode.go:16, does not exist in the source. Neither is modelled.
- DecodeVectors.CheckoutResponse: the receipt message is stated as the encoding of its parts (type code, fixed values, entries), not as one literal. Its text holds the UTF-8 letters å and ø, which are written as their two-byte encodings. The other two success vectors are stated as their literal text.
- DecoderProperties.DecodeTrailingBarOptional: the final `|` is optional only for messages that do not end in CR without it. A last value ending in CR keeps the CR when closed by `|` and loses it to the trim otherwise, as `DecodeVectors.TrailingBarAfterCR` shows.
- DecodeVectors.PatronStatusStrayByte: this input is not among the repository's tests. It shows the unguarded code read above.
