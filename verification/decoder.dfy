/**
  The decoder: from the bytes of one message to a `Message` or a classified
  error. It trims one trailing carriage return, dispatches on the two-byte
  type code, checks the type's minimum length, slices the fixed-length
  fields, and then scans the variable-length fields one character at a time.
 */
module Decoder {
  import opened Wrappers
  import opened Utf8
  import opened Sip
  import opened Tables

  /** The carriage return a message may end with. */
  const CR: byte := 0x0D

  datatype DecodeError =
    | MessageTooShort
    | UnknownMessageType(code: seq<byte>)
    | MessageTooShortForType(msgType: MsgType, length: nat, minLength: nat)
      /** Fewer than two bytes remain where a field code must start (the source panics here). */
    | TruncatedField(offset: nat)

  /** Where a field value's scan stopped: at a delimiter, or at the end of the input. */
  datatype Stop = Delimiter(at: nat) | EndOfInput

  /** The input without its trailing carriage return, if it has one. */
  function TrimCR(raw: seq<byte>): (s: seq<byte>)
    ensures s <= raw && |raw| - 1 <= |s|
    ensures |s| < |raw| <==> |raw| > 0 && raw[|raw| - 1] == CR
  {
    if |raw| > 0 && raw[|raw| - 1] == CR then raw[..|raw| - 1] else raw
  }

  /**
    Slices the fixed-length fields `fs` off `s` at consecutive offsets from
    `p`, each exactly its width, and stores each under its field type; a
    field listed twice keeps its last slice.
   */
  function ParseFixed(sc: Schema, s: seq<byte>, fs: seq<FieldType>, p: nat, fields: map<FieldType, seq<byte>>)
    : (r: (map<FieldType, seq<byte>>, nat))
    requires p + sc.FixedLength(fs) <= |s|
    ensures r.1 == p + sc.FixedLength(fs)
    ensures forall f :: f in r.0 <==> f in fields || f in fs
    ensures forall f :: f in fields && f !in fs ==> r.0[f] == fields[f]
    decreases |fs|
  {
    if fs == [] then (fields, p)
    else
      var end := p + sc.width(fs[0]);
      ParseFixed(sc, s, fs[1..], end, fields[fs[0] := s[p..end]])
  }

  /**
    Scans the value that starts at `p` one character at a time, as
    `utf8.DecodeRune` steps, until a character is `|` or the input ends.
   */
  function ScanValue(s: seq<byte>, p: nat): (r: Stop)
    requires p <= |s|
    ensures r.Delimiter? ==> p <= r.at < |s| && s[r.at] == Bar
    ensures r.Delimiter? ==> forall k :: p <= k < r.at ==> s[k] != Bar
    ensures r.EndOfInput? ==> forall k :: p <= k < |s| ==> s[k] != Bar
    decreases |s| - p
  {
    var c := DecodeRune(s, p);
    var q := p + c.width;
    if c.value == Bar as int then Delimiter(q - 1)
    else if q == |s| then EndOfInput
    else ScanValue(s, q)
  }

  /** The first 0x7C byte at or after `p`, found one byte at a time. */
  function NextBar(s: seq<byte>, p: nat): (r: Stop)
    requires p <= |s|
    ensures r.Delimiter? ==> p <= r.at < |s| && s[r.at] == Bar
    ensures r.Delimiter? ==> forall k :: p <= k < r.at ==> s[k] != Bar
    ensures r.EndOfInput? ==> forall k :: p <= k < |s| ==> s[k] != Bar
    decreases |s| - p
  {
    if p == |s| then EndOfInput
    else if s[p] == Bar then Delimiter(p)
    else NextBar(s, p + 1)
  }

  /**
    Stepping by characters stops exactly where stepping by bytes does: a
    multi-byte character never hides a 0x7C byte, so the rune scan of the
    field loop ends at the first `|` byte, or at the end of the input when
    there is none. The loop below is written with the byte scan.
   */
  lemma ScanValueIsNextBar(s: seq<byte>, p: nat)
    requires p <= |s|
    ensures ScanValue(s, p) == NextBar(s, p)
  {
    var a, b := ScanValue(s, p), NextBar(s, p);
    if a.Delimiter? && b.Delimiter? {
      assert !(a.at < b.at) && !(b.at < a.at);
    }
  }

  /** The values collected so far for a repeatable field; none if it has not occurred. */
  function ValuesOf(m: Message, f: FieldType): seq<seq<byte>> {
    if f in m.repeatableFields then m.repeatableFields[f] else []
  }

  /** Records one occurrence of a variable-length field: appended if repeatable, otherwise overwriting. */
  function StoreField(sc: Schema, m: Message, f: FieldType, v: seq<byte>): (r: Message)
    ensures r.msgType == m.msgType
    ensures sc.repeatable(f) ==> ValuesOf(r, f) == ValuesOf(m, f) + [v] && r.fields == m.fields
    ensures !sc.repeatable(f) ==> f in r.fields && r.fields[f] == v && r.repeatableFields == m.repeatableFields
  {
    if sc.repeatable(f) then
      m.(repeatableFields := m.repeatableFields[f := ValuesOf(m, f) + [v]])
    else
      m.(fields := m.fields[f := v])
  }

  /**
    The shape every decoded message keeps: a key of the repeatable map is a
    repeatable field with at least one value, and a repeatable field sits in
    the single-value map only as one of the type's fixed fields.
   */
  ghost predicate WellShaped(sc: Schema, m: Message) {
    && (forall f :: f in m.repeatableFields ==> sc.repeatable(f) && |m.repeatableFields[f]| > 0)
    && (forall f :: f in m.fields && sc.repeatable(f) ==> f in sc.requiredFixed(m.msgType))
  }

  /**
    The variable-length field loop from byte `p` on: a two-byte field code,
    then its value up to the next `|` or to the end of the input (where the
    character scan `ScanValue` stops, by `ScanValueIsNextBar`). An unknown
    code is kept under `FieldUnknown`, with the code itself as a prefix of
    the value. The loop ends at the end of the input; fewer than two bytes
    where a code must start is a `TruncatedField` error.
   */
  function ParseVariable(sc: Schema, s: seq<byte>, p: nat, m: Message): (r: Result<Message, DecodeError>)
    requires p <= |s|
    ensures r.Ok? ==> r.value.msgType == m.msgType
    ensures r.Err? ==> r.error.TruncatedField? && p <= r.error.offset && |s| - r.error.offset < 2
    ensures |s| - p < 2 ==> r == Err(TruncatedField(p))
    decreases |s| - p
  {
    if |s| - p < 2 then Err(TruncatedField(p))
    else
      var code := s[p..p + 2];
      var f := sc.fieldOf(code);
      var start := if f == FieldUnknown then p else p + 2;
      match NextBar(s, p + 2)
      case Delimiter(at) =>
        var m' := StoreField(sc, m, f, s[start..at]);
        if at + 1 == |s| then Ok(m') else ParseVariable(sc, s, at + 1, m')
      case EndOfInput =>
        Ok(StoreField(sc, m, f, s[start..]))
  }

  /**
    Decodes one message. Each gate fails with its own error: fewer than two
    bytes after the trim; an unknown type code, reported as the two bytes
    read; a message shorter than its type's minimum, reported with the
    type, the trimmed length and the minimum.
   */
  function Decode(sc: Schema, raw: seq<byte>): (r: Result<Message, DecodeError>)
    requires sc.WellFormed()
    ensures r == Err(MessageTooShort) <==> |TrimCR(raw)| < 2
    ensures r.Err? && r.error.UnknownMessageType? <==>
              |TrimCR(raw)| >= 2 && sc.msgOf(raw[..2]) == MsgUnknown
    ensures r.Err? && r.error.UnknownMessageType? ==> r.error.code == raw[..2]
    ensures r.Err? && r.error.MessageTooShortForType? <==>
              && |TrimCR(raw)| >= 2
              && sc.msgOf(raw[..2]) != MsgUnknown
              && |TrimCR(raw)| < sc.minLength(sc.msgOf(raw[..2]))
    ensures r.Err? && r.error.MessageTooShortForType? ==>
              r.error == MessageTooShortForType(sc.msgOf(raw[..2]), |TrimCR(raw)|, sc.minLength(sc.msgOf(raw[..2])))
    ensures r.Ok? ==>
              && |TrimCR(raw)| >= 2
              && r.value.msgType == sc.msgOf(raw[..2]) != MsgUnknown
              && |TrimCR(raw)| >= sc.minLength(r.value.msgType)
  {
    var s := TrimCR(raw);
    if |s| < 2 then Err(MessageTooShort)
    else
      assert s[..2] == raw[..2];
      var t := sc.msgOf(s[..2]);
      if t == MsgUnknown then Err(UnknownMessageType(s[..2]))
      else if |s| < sc.minLength(t) then Err(MessageTooShortForType(t, |s|, sc.minLength(t)))
      else
        var fixed := ParseFixed(sc, s, sc.requiredFixed(t), 2, map[]);
        ParseVariable(sc, s, fixed.1, Message(t, fixed.0, map[]))
  }
}
