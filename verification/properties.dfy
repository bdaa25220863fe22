/**
  What the decoder guarantees, stated against an independent description of
  the wire format: a message built from a type code, fixed-width field
  values and (code, value) entries decodes to exactly the message those
  parts describe.
 */
module DecoderProperties {
  import opened Wrappers
  import opened Utf8
  import opened Sip
  import opened Tables
  import opened Decoder

  /** One variable-length field on the wire: its two-byte code and its value. */
  datatype Entry = Entry(code: seq<byte>, value: seq<byte>)

  predicate NoDuplicates(fs: seq<FieldType>) {
    forall i, j :: 0 <= i < j < |fs| ==> fs[i] != fs[j]
  }

  /** One value per fixed field, each exactly that field's width. */
  predicate FixedValuesFit(sc: Schema, fs: seq<FieldType>, vs: seq<seq<byte>>) {
    |vs| == |fs| && forall i :: 0 <= i < |fs| ==> |vs[i]| == sc.width(fs[i])
  }

  /** Entries that can be written unambiguously: two-byte codes, values free of `|`. */
  predicate EntriesWellFormed(es: seq<Entry>) {
    forall i :: 0 <= i < |es| ==> |es[i].code| == 2 && Bar !in es[i].value
  }

  function Concat(vs: seq<seq<byte>>): seq<byte>
    decreases |vs|
  {
    if vs == [] then [] else vs[0] + Concat(vs[1..])
  }

  /** The variable part of a message: code, value and `|` per entry; the last `|` only if `trailingBar`. */
  function EncodeEntries(es: seq<Entry>, trailingBar: bool): seq<byte>
    decreases |es|
  {
    if es == [] then []
    else
      es[0].code + es[0].value + (if |es| == 1 && !trailingBar then [] else [Bar])
      + EncodeEntries(es[1..], trailingBar)
  }

  /** A whole message: type code, fixed field values, variable-length entries. */
  function Encode(code: seq<byte>, fixedValues: seq<seq<byte>>, es: seq<Entry>, trailingBar: bool): seq<byte> {
    code + Concat(fixedValues) + EncodeEntries(es, trailingBar)
  }

  /** The fixed fields as a map, each field to its value. */
  function FixedMap(fs: seq<FieldType>, vs: seq<seq<byte>>): map<FieldType, seq<byte>>
    requires |vs| == |fs| && NoDuplicates(fs)
  {
    map i | 0 <= i < |fs| :: fs[i] := vs[i]
  }

  /** What the decoder keeps of an entry: its value, prefixed by its code when the code is unknown. */
  function Stored(sc: Schema, e: Entry): seq<byte> {
    if sc.fieldOf(e.code) == FieldUnknown then e.code + e.value else e.value
  }

  /** The message after recording the entries in order. */
  function StoreAll(sc: Schema, m: Message, es: seq<Entry>): Message
    decreases |es|
  {
    if es == [] then m
    else StoreAll(sc, StoreField(sc, m, sc.fieldOf(es[0].code), Stored(sc, es[0])), es[1..])
  }

  /** The values the entries carry for field `f`, in wire order. */
  function ValuesFor(sc: Schema, es: seq<Entry>, f: FieldType): seq<seq<byte>>
    decreases |es|
  {
    if es == [] then []
    else (if sc.fieldOf(es[0].code) == f then [Stored(sc, es[0])] else []) + ValuesFor(sc, es[1..], f)
  }

  // ---------------------------------------------------------------------
  // Trimming

  /** One trailing carriage return is invisible to the decoder, whatever the message. */
  lemma DecodeIgnoresFinalCR(sc: Schema, raw: seq<byte>)
    requires sc.WellFormed()
    requires |raw| == 0 || raw[|raw| - 1] != CR
    ensures Decode(sc, raw + [CR]) == Decode(sc, raw)
  {
    assert TrimCR(raw + [CR]) == raw;
    if |raw| >= 2 {
      assert (raw + [CR])[..2] == raw[..2];
    }
  }

  // ---------------------------------------------------------------------
  // Fixed-length fields

  /**
    The i-th fixed field, when no later entry of the list names it again,
    holds exactly the bytes of its slot: its width, at the offset `start`
    where the widths of the fields before it end.
   */
  lemma {:induction false} ParseFixedSlice(sc: Schema, s: seq<byte>, fs: seq<FieldType>, p: nat,
                                           fields: map<FieldType, seq<byte>>, i: nat, start: nat)
    requires p + sc.FixedLength(fs) <= |s|
    requires i < |fs| && fs[i] !in fs[i + 1..]
    requires start == p + sc.FixedLength(fs[..i])
    ensures start + sc.width(fs[i]) <= p + sc.FixedLength(fs)
    ensures ParseFixed(sc, s, fs, p, fields).0[fs[i]] == s[start..start + sc.width(fs[i])]
    decreases i
  {
    if i == 0 {
      assert sc.FixedLength(fs[..0]) == 0 by { assert fs[..0] == []; }
      ParseFixedFirst(sc, s, fs, p, fields);
    } else {
      var end := p + sc.width(fs[0]);
      var fields' := fields[fs[0] := s[p..end]];
      ParseFixedStep(sc, s, fs, p, fields, end, fields');
      assert fs[1..][i - 1..] == fs[i..] && fs[1..][i - 1] == fs[i];
      FixedLengthPrefix(sc, fs, i);
      ParseFixedSlice(sc, s, fs[1..], end, fields', i - 1, start);
      assert ParseFixed(sc, s, fs[1..], end, fields').0[fs[i]] == s[start..start + sc.width(fs[i])];
    }
  }

  /** The first fixed field, when the list does not name it again, holds the first slot. */
  lemma ParseFixedFirst(sc: Schema, s: seq<byte>, fs: seq<FieldType>, p: nat, fields: map<FieldType, seq<byte>>)
    requires p + sc.FixedLength(fs) <= |s| && |fs| > 0 && fs[0] !in fs[1..]
    ensures p + sc.width(fs[0]) <= p + sc.FixedLength(fs)
    ensures ParseFixed(sc, s, fs, p, fields).0[fs[0]] == s[p..p + sc.width(fs[0])]
  {
    var end := p + sc.width(fs[0]);
    var fields' := fields[fs[0] := s[p..end]];
    ParseFixedStep(sc, s, fs, p, fields, end, fields');
    assert ParseFixed(sc, s, fs[1..], end, fields').0[fs[0]] == s[p..end];
  }

  /** One step of slicing the fixed fields: the first field takes its width, the rest follow. */
  lemma ParseFixedStep(sc: Schema, s: seq<byte>, fs: seq<FieldType>, p: nat, fields: map<FieldType, seq<byte>>,
                       end: nat, fields': map<FieldType, seq<byte>>)
    requires p + sc.FixedLength(fs) <= |s| && |fs| > 0
    requires end == p + sc.width(fs[0]) && end <= |s| && fields' == fields[fs[0] := s[p..end]]
    ensures sc.FixedLength(fs) == sc.width(fs[0]) + sc.FixedLength(fs[1..])
    ensures ParseFixed(sc, s, fs, p, fields) == ParseFixed(sc, s, fs[1..], end, fields')
  {
  }

  /** The widths of the first `i` fixed fields: the first field's, then those of the next `i - 1`. */
  lemma FixedLengthPrefix(sc: Schema, fs: seq<FieldType>, i: nat)
    requires 0 < i <= |fs|
    ensures sc.FixedLength(fs[..i]) == sc.width(fs[0]) + sc.FixedLength(fs[1..][..i - 1])
  {
    var pre := fs[..i];
    assert pre[0] == fs[0] && pre[1..] == fs[1..][..i - 1];
  }

  /** No two-byte code names field `f`: only a fixed-width slot can set it. */
  ghost predicate NeverCoded(sc: Schema, f: FieldType) {
    forall code :: sc.fieldOf(code) != f
  }

  /**
    One turn of the variable-field loop, whatever stops the value: the
    field named by the two-byte code at `p` records a value, and the loop
    ends or resumes at `next`.
   */
  lemma ParseVariableTurn(sc: Schema, s: seq<byte>, p: nat, m: Message) returns (code: seq<byte>, v: seq<byte>, next: nat)
    requires p + 2 <= |s|
    ensures code == s[p..p + 2] && p + 2 <= next <= |s|
    ensures var m' := StoreField(sc, m, sc.fieldOf(code), v);
            ParseVariable(sc, s, p, m) == if next == |s| then Ok(m') else ParseVariable(sc, s, next, m')
  {
    code := s[p..p + 2];
    var f := sc.fieldOf(code);
    match NextBar(s, p + 2)
    case Delimiter(at) =>
      v := if f == FieldUnknown then s[p..at] else s[p + 2..at];
      next := at + 1;
    case EndOfInput =>
      v := if f == FieldUnknown then s[p..] else s[p + 2..];
      next := |s|;
  }

  /**
    Recording a variable-length field keeps the message type and every key
    of the single-value map, and leaves every other field exactly as it was.
   */
  lemma StoreFieldKeeps(sc: Schema, m: Message, f: FieldType, v: seq<byte>, g: FieldType)
    ensures StoreField(sc, m, f, v).msgType == m.msgType
    ensures g in m.fields ==> g in StoreField(sc, m, f, v).fields
    ensures g != f ==> (g in StoreField(sc, m, f, v).fields <==> g in m.fields)
    ensures g != f ==> ValuesOf(StoreField(sc, m, f, v), g) == ValuesOf(m, g)
    ensures g != f && g in m.fields ==> StoreField(sc, m, f, v).fields[g] == m.fields[g]
  {
  }

  /** Recording a variable-length field keeps a message well-shaped. */
  lemma StoreFieldShape(sc: Schema, m: Message, f: FieldType, v: seq<byte>)
    requires WellShaped(sc, m)
    ensures WellShaped(sc, StoreField(sc, m, f, v))
  {
  }

  /**
    The variable-field loop only adds to the single-value map: a key stays,
    and a field no code names keeps its value.
   */
  lemma {:induction false} ParseVariableKeeps(sc: Schema, s: seq<byte>, p: nat, m: Message, g: FieldType)
    requires p <= |s| && ParseVariable(sc, s, p, m).Ok? && g in m.fields
    ensures g in ParseVariable(sc, s, p, m).value.fields
    ensures NeverCoded(sc, g) ==> ParseVariable(sc, s, p, m).value.fields[g] == m.fields[g]
    decreases |s| - p
  {
    var code, v, next := ParseVariableTurn(sc, s, p, m);
    var f := sc.fieldOf(code);
    var m' := StoreField(sc, m, f, v);
    StoreFieldKeeps(sc, m, f, v, g);
    assert NeverCoded(sc, g) ==> g != f;
    if next < |s| {
      ParseVariableKeeps(sc, s, next, m', g);
    }
  }

  /** The variable-field loop keeps a message well-shaped. */
  lemma {:induction false} ParseVariableShape(sc: Schema, s: seq<byte>, p: nat, m: Message)
    requires p <= |s| && ParseVariable(sc, s, p, m).Ok? && WellShaped(sc, m)
    ensures WellShaped(sc, ParseVariable(sc, s, p, m).value)
    decreases |s| - p
  {
    var code, v, next := ParseVariableTurn(sc, s, p, m);
    var m' := StoreField(sc, m, sc.fieldOf(code), v);
    StoreFieldShape(sc, m, sc.fieldOf(code), v);
    if next < |s| {
      ParseVariableShape(sc, s, next, m');
    }
  }

  /**
    A decoded message has every required fixed field of its type, and its
    shape: repeatable fields hold at least one value each and appear only
    in the repeatable map, unless they are fixed fields of the type.
   */
  lemma DecodeWellShaped(sc: Schema, raw: seq<byte>)
    requires sc.WellFormed() && Decode(sc, raw).Ok?
    ensures var m := Decode(sc, raw).value;
            && (forall f :: f in sc.requiredFixed(m.msgType) ==> f in m.fields)
            && WellShaped(sc, m)
  {
    var s := TrimCR(raw);
    assert s[..2] == raw[..2];
    var t := sc.msgOf(s[..2]);
    var fixed := ParseFixed(sc, s, sc.requiredFixed(t), 2, map[]);
    var m0 := Message(t, fixed.0, map[]);
    ParseVariableShape(sc, s, fixed.1, m0);
    forall f | f in sc.requiredFixed(t) ensures f in Decode(sc, raw).value.fields {
      ParseVariableKeeps(sc, s, fixed.1, m0, f);
    }
  }

  /**
    On success, every required fixed field is in `fields`, copied verbatim
    from its slot: offsets start at 2 and follow the declared widths.
   */
  lemma DecodeFixedFields(sc: Schema, raw: seq<byte>, i: nat)
    requires sc.WellFormed()
    requires Decode(sc, raw).Ok?
    requires var t := Decode(sc, raw).value.msgType;
             && sc.FixedFieldsUncoded(t)
             && i < |sc.requiredFixed(t)|
             && sc.requiredFixed(t)[i] !in sc.requiredFixed(t)[i + 1..]
    ensures var m := Decode(sc, raw).value;
            var fs := sc.requiredFixed(m.msgType);
            var start := 2 + sc.FixedLength(fs[..i]);
            && start + sc.width(fs[i]) <= |TrimCR(raw)|
            && fs[i] in m.fields
            && m.fields[fs[i]] == TrimCR(raw)[start..start + sc.width(fs[i])]
  {
    var s := TrimCR(raw);
    var t := Decode(sc, raw).value.msgType;
    var fs := sc.requiredFixed(t);
    assert s[..2] == raw[..2];
    var fixed := ParseFixed(sc, s, fs, 2, map[]);
    ParseFixedSlice(sc, s, fs, 2, map[], i, 2 + sc.FixedLength(fs[..i]));
    assert NeverCoded(sc, fs[i]);
    ParseVariableKeeps(sc, s, fixed.1, Message(t, fixed.0, map[]), fs[i]);
  }

  /** The fixed map of a non-empty list is its tail's map with the head's entry added. */
  lemma FixedMapCons(fs: seq<FieldType>, vs: seq<seq<byte>>)
    requires |vs| == |fs| > 0 && NoDuplicates(fs)
    ensures NoDuplicates(fs[1..]) && fs[0] !in FixedMap(fs[1..], vs[1..])
    ensures FixedMap(fs, vs) == FixedMap(fs[1..], vs[1..])[fs[0] := vs[0]]
  {
    var tail := FixedMap(fs[1..], vs[1..]);
    assert forall k :: k in tail <==> k in fs[1..];
    assert forall i :: 0 < i < |fs| ==> fs[i] in tail && tail[fs[i]] == vs[i];
  }

  /**
    Fixed-width values laid end to end from `p` are sliced back one by one:
    the fixed fields read back exactly the values written, and the cursor
    ends right after them.
   */
  lemma {:induction false} ParseFixedEncoded(sc: Schema, s: seq<byte>, fs: seq<FieldType>, vs: seq<seq<byte>>,
                                             p: nat, fields: map<FieldType, seq<byte>>)
    requires FixedValuesFit(sc, fs, vs) && NoDuplicates(fs)
    requires p + |Concat(vs)| <= |s| && s[p..p + |Concat(vs)|] == Concat(vs)
    ensures sc.FixedLength(fs) == |Concat(vs)|
    ensures ParseFixed(sc, s, fs, p, fields) == (fields + FixedMap(fs, vs), p + |Concat(vs)|)
    decreases |fs|
  {
    if fs == [] {
      assert FixedMap(fs, vs) == map[];
      assert fields + map[] == fields;
    } else {
      var w := sc.width(fs[0]);
      var rest := Concat(vs[1..]);
      ConcatLayout(s, p, vs);
      assert sc.FixedLength(fs) == w + sc.FixedLength(fs[1..]);
      assert FixedValuesFit(sc, fs[1..], vs[1..]);
      FixedMapCons(fs, vs);
      ParseFixedEncoded(sc, s, fs[1..], vs[1..], p + w, fields[fs[0] := vs[0]]);
      assert ParseFixed(sc, s, fs, p, fields) == ParseFixed(sc, s, fs[1..], p + w, fields[fs[0] := vs[0]]);
      UpdateThenUnion(fields, fs[0], vs[0], FixedMap(fs[1..], vs[1..]));
    }
  }

  /** Values written back to back at `p`: the first one, then the rest right after it. */
  lemma ConcatLayout(s: seq<byte>, p: nat, vs: seq<seq<byte>>)
    requires |vs| > 0
    requires p + |Concat(vs)| <= |s| && s[p..p + |Concat(vs)|] == Concat(vs)
    ensures |Concat(vs)| == |vs[0]| + |Concat(vs[1..])|
    ensures s[p..p + |vs[0]|] == vs[0]
    ensures s[p + |vs[0]|..p + |vs[0]| + |Concat(vs[1..])|] == Concat(vs[1..])
  {
    var w := |vs[0]|;
    var c := Concat(vs);
    assert c == vs[0] + Concat(vs[1..]);
    assert s[p..p + w] == c[..w];
    assert s[p + w..p + |c|] == c[w..];
  }

  /** Adding a key, then a map without it, is adding the map with the key. */
  lemma UpdateThenUnion<K, V>(a: map<K, V>, k: K, v: V, b: map<K, V>)
    requires k !in b
    ensures a[k := v] + b == a + b[k := v]
  {
  }

  // ---------------------------------------------------------------------
  // Variable-length fields

  /**
    Where the first entry of an encoding sits: its code at `p`, its value
    right after with no `|` in it, and then either the end of the input or
    a `|` followed by the encoding of the remaining entries.
   */
  lemma EntryLayout(s: seq<byte>, p: nat, es: seq<Entry>, trailingBar: bool)
    requires p <= |s| && s[p..] == EncodeEntries(es, trailingBar)
    requires |es| > 0 && EntriesWellFormed(es)
    ensures var vEnd := p + 2 + |es[0].value|;
            && vEnd <= |s|
            && s[p..p + 2] == es[0].code
            && s[p..vEnd] == es[0].code + es[0].value
            && (forall k :: p + 2 <= k < vEnd ==> s[k] != Bar)
            && (|es| == 1 && !trailingBar ==> vEnd == |s|)
            && (|es| > 1 || trailingBar ==> vEnd < |s| && s[vEnd] == Bar)
            && (|es| == 1 && trailingBar ==> vEnd + 1 == |s|)
            && (|es| > 1 ==> vEnd + 1 < |s| && s[vEnd + 1..] == EncodeEntries(es[1..], trailingBar))
  {
    var e := es[0];
    var vEnd := p + 2 + |e.value|;
    var delim: seq<byte> := if |es| == 1 && !trailingBar then [] else [Bar];
    var tail := EncodeEntries(es[1..], trailingBar);
    assert s[p..] == e.code + e.value + delim + tail;
    assert forall k :: p + 2 <= k < vEnd ==> s[k] == s[p..][k - p] == e.value[k - p - 2];
    assert s[p..vEnd] == s[p..][..vEnd - p];
    if |es| > 1 {
      assert |tail| >= 2;
      assert s[vEnd + 1..] == s[p..][vEnd + 1 - p..];
    }
  }

  /**
    One turn of the variable-field loop when a `|` follows: the value is
    the bytes after the two-byte code up to, not including, the first `|`
    (for an unknown code, the code is kept as a prefix); the loop stops if
    that `|` is the last byte and goes on after it otherwise.
   */
  lemma ParseVariableDelimited(sc: Schema, s: seq<byte>, p: nat, m: Message, bar: nat)
    requires p + 2 <= bar < |s| && s[bar] == Bar
    requires forall k :: p + 2 <= k < bar ==> s[k] != Bar
    ensures var f := sc.fieldOf(s[p..p + 2]);
            var m' := StoreField(sc, m, f, if f == FieldUnknown then s[p..bar] else s[p + 2..bar]);
            ParseVariable(sc, s, p, m) == if bar + 1 == |s| then Ok(m') else ParseVariable(sc, s, bar + 1, m')
  {
    assert NextBar(s, p + 2) == Delimiter(bar);
  }

  /**
    The last turn of the variable-field loop when no `|` follows: the value
    is everything after the code up to the end of the input.
   */
  lemma ParseVariableUndelimited(sc: Schema, s: seq<byte>, p: nat, m: Message)
    requires p + 2 <= |s|
    requires forall k :: p + 2 <= k < |s| ==> s[k] != Bar
    ensures var f := sc.fieldOf(s[p..p + 2]);
            ParseVariable(sc, s, p, m) == Ok(StoreField(sc, m, f, if f == FieldUnknown then s[p..] else s[p + 2..]))
  {
    assert NextBar(s, p + 2) == EndOfInput;
  }

  /** One entry closed by `|` with more input after it, read back: its stored value is recorded and the loop goes on after the `|`. */
  lemma ParseEntryDelimited(sc: Schema, s: seq<byte>, p: nat, m: Message, e: Entry, next: nat)
    requires |e.code| == 2 && Bar !in e.value
    requires next == p + 2 + |e.value| + 1 && next < |s| && s[p..p + 2 + |e.value|] == e.code + e.value
    requires s[p + 2 + |e.value|] == Bar
    ensures ParseVariable(sc, s, p, m) == ParseVariable(sc, s, next, StoreField(sc, m, sc.fieldOf(e.code), Stored(sc, e)))
  {
    EntryFields(s, p, e);
    assert NextBar(s, p + 2) == Delimiter(p + 2 + |e.value|);
  }

  /** An entry whose `|` is the last byte, read back: its stored value is recorded and the loop ends. */
  lemma ParseEntryClosing(sc: Schema, s: seq<byte>, p: nat, m: Message, e: Entry)
    requires |e.code| == 2 && Bar !in e.value
    requires p + 2 + |e.value| + 1 == |s| && s[p..p + 2 + |e.value|] == e.code + e.value
    requires s[p + 2 + |e.value|] == Bar
    ensures ParseVariable(sc, s, p, m) == Ok(StoreField(sc, m, sc.fieldOf(e.code), Stored(sc, e)))
  {
    EntryFields(s, p, e);
    assert NextBar(s, p + 2) == Delimiter(p + 2 + |e.value|);
  }

  /** The code and value of an entry written at `p`, read back out of `s`. */
  lemma EntryFields(s: seq<byte>, p: nat, e: Entry)
    requires |e.code| == 2 && Bar !in e.value
    requires p + 2 + |e.value| <= |s| && s[p..p + 2 + |e.value|] == e.code + e.value
    ensures s[p..p + 2] == e.code && s[p + 2..p + 2 + |e.value|] == e.value
    ensures forall k :: p + 2 <= k < p + 2 + |e.value| ==> s[k] != Bar
  {
    var vEnd := p + 2 + |e.value|;
    assert s[p..p + 2] == s[p..vEnd][..2] == (e.code + e.value)[..2] == e.code;
    assert s[p + 2..vEnd] == s[p..vEnd][2..] == (e.code + e.value)[2..] == e.value;
    forall k | p + 2 <= k < vEnd ensures s[k] != Bar {
      assert s[k] == e.value[k - p - 2];
    }
  }

  /** The last entry with no `|` after it, read back: its stored value is recorded and the loop ends. */
  lemma ParseEntryLast(sc: Schema, s: seq<byte>, p: nat, m: Message, e: Entry)
    requires |e.code| == 2 && Bar !in e.value
    requires p <= |s| && s[p..] == e.code + e.value
    ensures ParseVariable(sc, s, p, m) == Ok(StoreField(sc, m, sc.fieldOf(e.code), Stored(sc, e)))
  {
    assert s[p..p + 2] == e.code;
    assert s[p + 2..] == e.value;
    forall k | p + 2 <= k < |s| ensures s[k] != Bar {
      assert s[k] == e.value[k - p - 2];
    }
    ParseVariableUndelimited(sc, s, p, m);
  }

  /**
    A turn of the loop that is not the last: the first entry is read, and
    the encoding of the remaining entries starts right after its `|`.
   */
  lemma EncodedTurn(sc: Schema, s: seq<byte>, p: nat, es: seq<Entry>, trailingBar: bool, m: Message)
    returns (next: nat, m': Message)
    requires p <= |s| && s[p..] == EncodeEntries(es, trailingBar)
    requires |es| > 1 && EntriesWellFormed(es)
    ensures p < next <= |s| && s[next..] == EncodeEntries(es[1..], trailingBar)
    ensures EntriesWellFormed(es[1..])
    ensures ParseVariable(sc, s, p, m) == ParseVariable(sc, s, next, m')
    ensures StoreAll(sc, m, es) == StoreAll(sc, m', es[1..])
  {
    var e := es[0];
    next := p + 2 + |e.value| + 1;
    EntryLayout(s, p, es, trailingBar);
    m' := StoreField(sc, m, sc.fieldOf(e.code), Stored(sc, e));
    assert next < |s|;
    ParseEntryDelimited(sc, s, p, m, e, next);
  }

  /** The last turn of the loop: the one remaining entry is read and the loop ends. */
  lemma EncodedLastTurn(sc: Schema, s: seq<byte>, p: nat, es: seq<Entry>, trailingBar: bool, m: Message)
    requires p <= |s| && s[p..] == EncodeEntries(es, trailingBar)
    requires |es| == 1 && EntriesWellFormed(es)
    ensures ParseVariable(sc, s, p, m) == Ok(StoreAll(sc, m, es))
  {
    var e := es[0];
    var vEnd := p + 2 + |e.value|;
    EntryLayout(s, p, es, trailingBar);
    var m' := StoreField(sc, m, sc.fieldOf(e.code), Stored(sc, e));
    assert StoreAll(sc, m, es) == StoreAll(sc, m', es[1..]) == m';
    if !trailingBar {
      assert s[p..] == s[p..vEnd];
      ParseEntryLast(sc, s, p, m, e);
    } else {
      assert vEnd + 1 == |s|;
      ParseEntryClosing(sc, s, p, m, e);
    }
  }

  /**
    The variable-field loop reads back exactly the entries that were
    written: each value ends at its own `|` (or, for the last entry, at the
    end of the input), and the entries are recorded in wire order.
   */
  lemma {:induction false} ParseVariableEncoded(sc: Schema, s: seq<byte>, p: nat, es: seq<Entry>, trailingBar: bool, m: Message)
    requires p <= |s| && s[p..] == EncodeEntries(es, trailingBar)
    requires |es| > 0 && EntriesWellFormed(es)
    ensures ParseVariable(sc, s, p, m) == Ok(StoreAll(sc, m, es))
    decreases |es|
  {
    if |es| == 1 {
      EncodedLastTurn(sc, s, p, es, trailingBar, m);
    } else {
      var next, m' := EncodedTurn(sc, s, p, es, trailingBar, m);
      ParseVariableEncoded(sc, s, next, es[1..], trailingBar, m');
    }
  }

  /** Where the first of several `|`-closed entries sits when more input follows them. */
  lemma ThenMoreLayout(s: seq<byte>, p: nat, es: seq<Entry>, tail: seq<byte>)
    requires p <= |s| && s[p..] == EncodeEntries(es, true) + tail
    requires |es| > 0 && EntriesWellFormed(es)
    ensures var vEnd := p + 2 + |es[0].value|;
            && vEnd + 1 <= |s| - |tail|
            && s[p..vEnd] == es[0].code + es[0].value && s[vEnd] == Bar
            && s[vEnd + 1..] == EncodeEntries(es[1..], true) + tail
    ensures EntriesWellFormed(es[1..])
  {
    var e := es[0];
    var head := e.code + e.value + [Bar];
    var rest := EncodeEntries(es[1..], true);
    assert EncodeEntries(es, true) == head + rest;
    assert s[p..] == head + (rest + tail);
    SplitAt(s, p, head, rest + tail);
    assert s[p..p + |head|] == head;
    assert s[p..p + |head| - 1] == head[..|head| - 1] == e.code + e.value;
    EntriesWellFormedTail(es);
  }

  /** A suffix that is `a + b` splits where `a` ends. */
  lemma SplitAt(s: seq<byte>, p: nat, a: seq<byte>, b: seq<byte>)
    requires p <= |s| && s[p..] == a + b
    ensures p + |a| <= |s| && s[p..p + |a|] == a && s[p + |a|..] == b
  {
    assert s[p..p + |a|] == s[p..][..|a|];
    assert s[p + |a|..] == s[p..][|a|..];
  }

  /** The entries after the first are well formed when all are. */
  lemma EntriesWellFormedTail(es: seq<Entry>)
    requires |es| > 0 && EntriesWellFormed(es)
    ensures EntriesWellFormed(es[1..])
  {
    forall i | 0 <= i < |es[1..]| ensures |es[1..][i].code| == 2 && Bar !in es[1..][i].value {
      assert es[1..][i] == es[i + 1];
    }
  }

  /**
    A turn of the loop over entries each closed by `|` with more input
    after them: the first entry is read, and the rest follow its `|`.
   */
  lemma ThenMoreTurn(sc: Schema, s: seq<byte>, p: nat, es: seq<Entry>, tail: seq<byte>, m: Message)
    returns (next: nat, m': Message)
    requires p <= |s| && s[p..] == EncodeEntries(es, true) + tail
    requires |es| > 0 && EntriesWellFormed(es) && |tail| > 0
    ensures next <= |s| && s[next..] == EncodeEntries(es[1..], true) + tail
    ensures EntriesWellFormed(es[1..])
    ensures ParseVariable(sc, s, p, m) == ParseVariable(sc, s, next, m')
    ensures StoreAll(sc, m, es) == StoreAll(sc, m', es[1..])
  {
    var e := es[0];
    ThenMoreLayout(s, p, es, tail);
    next := p + 2 + |e.value| + 1;
    m' := StoreField(sc, m, sc.fieldOf(e.code), Stored(sc, e));
    assert next < |s|;
    ParseEntryDelimited(sc, s, p, m, e, next);
  }

  /**
    Entries each closed by `|`, with more input after them: the loop reads
    them all and carries on right after the last `|`.
   */
  lemma {:induction false} ParseVariableThenMore(sc: Schema, s: seq<byte>, p: nat, es: seq<Entry>, tail: seq<byte>, m: Message)
    requires p <= |s| && s[p..] == EncodeEntries(es, true) + tail
    requires |es| > 0 && EntriesWellFormed(es) && |tail| > 0
    ensures ParseVariable(sc, s, p, m) == ParseVariable(sc, s, |s| - |tail|, StoreAll(sc, m, es))
    decreases |es|
  {
    var next, m' := ThenMoreTurn(sc, s, p, es, tail, m);
    if |es| > 1 {
      ParseVariableThenMore(sc, s, next, es[1..], tail, m');
    } else {
      assert es[1..] == [] && s[next..] == tail;
      assert next == |s| - |tail|;
    }
  }

  // ---------------------------------------------------------------------
  // Recording entries

  /**
    A repeatable field collects one value per entry that names it, in wire
    order, empty values included, after whatever it held before.
   */
  lemma {:induction false} StoreAllRepeatable(sc: Schema, m: Message, es: seq<Entry>, f: FieldType)
    requires sc.repeatable(f)
    ensures ValuesOf(StoreAll(sc, m, es), f) == ValuesOf(m, f) + ValuesFor(sc, es, f)
    ensures f in StoreAll(sc, m, es).repeatableFields <==> f in m.repeatableFields || |ValuesFor(sc, es, f)| > 0
    decreases |es|
  {
    if es == [] {
      assert ValuesOf(m, f) + [] == ValuesOf(m, f);
    } else {
      var g := sc.fieldOf(es[0].code);
      var m1 := StoreField(sc, m, g, Stored(sc, es[0]));
      var here: seq<seq<byte>> := if g == f then [Stored(sc, es[0])] else [];
      assert ValuesOf(m1, f) == ValuesOf(m, f) + here;
      assert f in m1.repeatableFields <==> f in m.repeatableFields || g == f;
      StoreAllRepeatable(sc, m1, es[1..], f);
      assert ValuesFor(sc, es, f) == here + ValuesFor(sc, es[1..], f);
      assert ValuesOf(m, f) + here + ValuesFor(sc, es[1..], f) == ValuesOf(m, f) + ValuesFor(sc, es, f);
    }
  }

  /**
    A single-value field holds the value of the last entry that names it;
    if no entry names it, it keeps what it held before (or stays absent).
   */
  lemma {:induction false} StoreAllLastWins(sc: Schema, m: Message, es: seq<Entry>, f: FieldType)
    requires !sc.repeatable(f)
    ensures var r := StoreAll(sc, m, es);
            var vals := ValuesFor(sc, es, f);
            && (|vals| > 0 ==> f in r.fields && r.fields[f] == vals[|vals| - 1])
            && (|vals| == 0 ==> (f in r.fields <==> f in m.fields))
            && (|vals| == 0 && f in m.fields ==> r.fields[f] == m.fields[f])
    decreases |es|
  {
    if es != [] {
      var g := sc.fieldOf(es[0].code);
      var m1 := StoreField(sc, m, g, Stored(sc, es[0]));
      var here: seq<seq<byte>> := if g == f then [Stored(sc, es[0])] else [];
      StoreAllLastWins(sc, m1, es[1..], f);
      assert ValuesFor(sc, es, f) == here + ValuesFor(sc, es[1..], f);
    }
  }

  /** Entries that name no repeatable field leave the repeatable map as it was. */
  lemma {:induction false} StoreAllNoRepeatables(sc: Schema, m: Message, es: seq<Entry>)
    requires forall i :: 0 <= i < |es| ==> !sc.repeatable(sc.fieldOf(es[i].code))
    ensures StoreAll(sc, m, es).repeatableFields == m.repeatableFields
    ensures StoreAll(sc, m, es).msgType == m.msgType
    decreases |es|
  {
    if es != [] {
      var m1 := StoreField(sc, m, sc.fieldOf(es[0].code), Stored(sc, es[0]));
      StoreAllNoRepeatables(sc, m1, es[1..]);
    }
  }

  /** Recording two runs of entries is recording the first, then the second. */
  lemma {:induction false} StoreAllSplit(sc: Schema, m: Message, a: seq<Entry>, b: seq<Entry>)
    ensures StoreAll(sc, m, a + b) == StoreAll(sc, StoreAll(sc, m, a), b)
    decreases |a|
  {
    if a == [] {
      assert a + b == b;
    } else {
      assert (a + b)[1..] == a[1..] + b;
      StoreAllSplit(sc, StoreField(sc, m, sc.fieldOf(a[0].code), Stored(sc, a[0])), a[1..], b);
    }
  }

  /**
    A run of entries that all name one known field yields their values, in
    order; for a repeatable field, recording the run appends exactly those
    values and changes nothing else.
   */
  lemma {:induction false} StoreAllRun(sc: Schema, m: Message, es: seq<Entry>, f: FieldType)
    requires f != FieldUnknown && sc.repeatable(f)
    requires forall i :: 0 <= i < |es| ==> sc.fieldOf(es[i].code) == f
    ensures |ValuesFor(sc, es, f)| == |es|
    ensures forall i :: 0 <= i < |es| ==> ValuesFor(sc, es, f)[i] == es[i].value
    ensures |es| > 0 ==> StoreAll(sc, m, es) == m.(repeatableFields := m.repeatableFields[f := ValuesOf(m, f) + ValuesFor(sc, es, f)])
    decreases |es|
  {
    if es != [] {
      var m1 := StoreField(sc, m, f, es[0].value);
      assert Stored(sc, es[0]) == es[0].value;
      StoreAllRun(sc, m1, es[1..], f);
      var rest := ValuesFor(sc, es[1..], f);
      assert ValuesFor(sc, es, f) == [es[0].value] + rest;
      if |es| > 1 {
        assert ValuesOf(m1, f) + rest == ValuesOf(m, f) + ([es[0].value] + rest);
      } else {
        assert es[1..] == [] && rest == [];
        assert ValuesFor(sc, es, f) == [es[0].value];
        assert StoreAll(sc, m, es) == StoreAll(sc, m1, []) == m1;
      }
    }
  }

  /** The shape of the entries' encoding: at least a code and a `|` per entry but the last, ending with `|` if asked. */
  lemma {:induction false} EncodeEntriesShape(es: seq<Entry>, trailingBar: bool)
    requires |es| > 0 && EntriesWellFormed(es)
    ensures |EncodeEntries(es, trailingBar)| >= 3 * |es| - 1
    ensures trailingBar ==> EncodeEntries(es, trailingBar)[|EncodeEntries(es, trailingBar)| - 1] == Bar
    decreases |es|
  {
    var head := es[0].code + es[0].value + (if |es| == 1 && !trailingBar then [] else [Bar]);
    if |es| > 1 {
      EncodeEntriesShape(es[1..], trailingBar);
    } else {
      assert es[1..] == [];
      assert EncodeEntries(es, trailingBar) == head + [];
    }
  }

  // ---------------------------------------------------------------------
  // Whole messages

  /**
    The requirements of the round trip: a known two-byte type code, one
    value of the declared width per required fixed field, at least one
    entry (with none, the field loop finds no code where one must start),
    two-byte codes and `|`-free values, enough bytes for the type's
    minimum, and no final CR (the decoder would trim it).
   */
  ghost predicate Encodable(sc: Schema, code: seq<byte>, vs: seq<seq<byte>>, es: seq<Entry>, trailingBar: bool) {
    && sc.WellFormed()
    && |code| == 2 && sc.msgOf(code) != MsgUnknown
    && FixedValuesFit(sc, sc.requiredFixed(sc.msgOf(code)), vs) && NoDuplicates(sc.requiredFixed(sc.msgOf(code)))
    && |es| > 0 && EntriesWellFormed(es)
    && var raw := Encode(code, vs, es, trailingBar);
       |raw| >= sc.minLength(sc.msgOf(code)) && raw[|raw| - 1] != CR
  }

  /**
    The round trip: a message made of a known type code, one value of the
    declared width per required fixed field, and well-formed entries decodes
    to the type, the fixed fields mapped to their values, and the entries
    recorded in wire order. The trailing `|` is optional.
   */
  lemma DecodeEncoded(sc: Schema, code: seq<byte>, vs: seq<seq<byte>>, es: seq<Entry>, trailingBar: bool)
    requires Encodable(sc, code, vs, es, trailingBar)
    ensures var t := sc.msgOf(code);
            Decode(sc, Encode(code, vs, es, trailingBar))
            == Ok(StoreAll(sc, Message(t, FixedMap(sc.requiredFixed(t), vs), map[]), es))
  {
    var raw := Encode(code, vs, es, trailingBar);
    var t := sc.msgOf(code);
    var c := Concat(vs);
    assert TrimCR(raw) == raw;
    assert raw[..2 + |c|] == code + c;
    assert raw[2 + |c|..] == EncodeEntries(es, trailingBar);
    DecodeReachesEntries(sc, code, vs, raw);
    ParseVariableEncoded(sc, raw, 2 + |c|, es, trailingBar, Message(t, FixedMap(sc.requiredFixed(t), vs), map[]));
  }


  /**
    A message that starts with a known type code and its fixed field
    values, and is long enough for its type, reaches the variable-field
    loop right after the fixed fields, with those fields mapped to their
    values.
   */
  lemma DecodeReachesEntries(sc: Schema, code: seq<byte>, vs: seq<seq<byte>>, s: seq<byte>)
    requires sc.WellFormed()
    requires |code| == 2 && sc.msgOf(code) != MsgUnknown
    requires FixedValuesFit(sc, sc.requiredFixed(sc.msgOf(code)), vs) && NoDuplicates(sc.requiredFixed(sc.msgOf(code)))
    requires 2 + |Concat(vs)| <= |s| && s[..2 + |Concat(vs)|] == code + Concat(vs)
    requires TrimCR(s) == s && |s| >= sc.minLength(sc.msgOf(code))
    ensures var t := sc.msgOf(code);
            Decode(sc, s) == ParseVariable(sc, s, 2 + |Concat(vs)|, Message(t, FixedMap(sc.requiredFixed(t), vs), map[]))
  {
    var t := sc.msgOf(code);
    var fs := sc.requiredFixed(t);
    var c := Concat(vs);
    assert s[..2] == s[..2 + |c|][..2] == code;
    assert s[2..2 + |c|] == s[..2 + |c|][2..] == c;
    ParseFixedEncoded(sc, s, fs, vs, 2, map[]);
    assert map[] + FixedMap(fs, vs) == FixedMap(fs, vs);
  }

  /**
    Whether the last entry ends with a `|` makes no difference to the
    decoded message, as long as the message without it does not end in CR.
   */
  lemma DecodeTrailingBarOptional(sc: Schema, code: seq<byte>, vs: seq<seq<byte>>, es: seq<Entry>)
    requires Encodable(sc, code, vs, es, false)
    ensures Encodable(sc, code, vs, es, true)
    ensures Decode(sc, Encode(code, vs, es, true)) == Decode(sc, Encode(code, vs, es, false))
  {
    EncodeEntriesTrailingBar(es);
    var raw := Encode(code, vs, es, true);
    assert raw == Encode(code, vs, es, false) + [Bar];
    DecodeEncoded(sc, code, vs, es, false);
    DecodeEncoded(sc, code, vs, es, true);
  }

  /** Writing the last `|` adds exactly that one byte. */
  lemma {:induction false} EncodeEntriesTrailingBar(es: seq<Entry>)
    requires |es| > 0
    ensures EncodeEntries(es, true) == EncodeEntries(es, false) + [Bar]
    decreases |es|
  {
    if |es| > 1 {
      EncodeEntriesTrailingBar(es[1..]);
    } else {
      assert es[1..] == [];
    }
  }

  /**
    What the decoded message holds for each variable-length field that is
    not one of the type's fixed fields: a repeatable field, exactly the
    values of the entries naming it, in order; any other field, the value
    of the last entry naming it, and nothing if no entry names it.
   */
  lemma DecodeEncodedFields(sc: Schema, code: seq<byte>, vs: seq<seq<byte>>, es: seq<Entry>, trailingBar: bool, f: FieldType)
    requires Encodable(sc, code, vs, es, trailingBar)
    requires f !in sc.requiredFixed(sc.msgOf(code))
    ensures Decode(sc, Encode(code, vs, es, trailingBar)).Ok?
    ensures var r := Decode(sc, Encode(code, vs, es, trailingBar)).value;
            var vals := ValuesFor(sc, es, f);
            && (sc.repeatable(f) ==> ValuesOf(r, f) == vals && (f in r.repeatableFields <==> |vals| > 0))
            && (!sc.repeatable(f) ==> (f in r.fields <==> |vals| > 0))
            && (!sc.repeatable(f) && |vals| > 0 ==> r.fields[f] == vals[|vals| - 1])
  {
    var t := sc.msgOf(code);
    var fs := sc.requiredFixed(t);
    var m0 := Message(t, FixedMap(fs, vs), map[]);
    DecodeEncoded(sc, code, vs, es, trailingBar);
    assert f !in m0.fields;
    if sc.repeatable(f) {
      StoreAllRepeatable(sc, m0, es, f);
      assert ValuesOf(m0, f) == [];
    } else {
      StoreAllLastWins(sc, m0, es, f);
    }
  }

  /** The last value for a field is the stored value of the last entry naming it. */
  lemma ValuesForLast(sc: Schema, es: seq<Entry>, f: FieldType)
    requires |es| > 0 && sc.fieldOf(es[|es| - 1].code) == f
    ensures var vals := ValuesFor(sc, es, f);
            |vals| > 0 && vals[|vals| - 1] == Stored(sc, es[|es| - 1])
  {
    ValuesForSplit(sc, es[..|es| - 1], [es[|es| - 1]], f);
    assert es[..|es| - 1] + [es[|es| - 1]] == es;
  }

  /** The values for a field over two runs of entries are the values over each, in order. */
  lemma {:induction false} ValuesForSplit(sc: Schema, a: seq<Entry>, b: seq<Entry>, f: FieldType)
    ensures ValuesFor(sc, a + b, f) == ValuesFor(sc, a, f) + ValuesFor(sc, b, f)
    decreases |a|
  {
    if a == [] {
      assert a + b == b;
    } else {
      assert (a + b)[1..] == a[1..] + b;
      ValuesForSplit(sc, a[1..], b, f);
    }
  }

  /** Entries none of which names `f` carry no value for it. */
  lemma {:induction false} ValuesForNone(sc: Schema, es: seq<Entry>, f: FieldType)
    requires forall k :: 0 <= k < |es| ==> sc.fieldOf(es[k].code) != f
    ensures ValuesFor(sc, es, f) == []
    decreases |es|
  {
    if es != [] {
      ValuesForNone(sc, es[1..], f);
    }
  }

  /**
    What survives of entries with unrecognised codes: the `FieldUnknown`
    slot holds the code and value of the last such entry, `es[j]`. Every
    earlier entry with an unrecognised code is overwritten by it.
   */
  lemma DecodeUnknownCodeKept(sc: Schema, code: seq<byte>, vs: seq<seq<byte>>, es: seq<Entry>, trailingBar: bool, j: nat)
    requires Encodable(sc, code, vs, es, trailingBar)
    requires !sc.repeatable(FieldUnknown) && FieldUnknown !in sc.requiredFixed(sc.msgOf(code))
    requires j < |es| && sc.fieldOf(es[j].code) == FieldUnknown
    requires forall k :: j < k < |es| ==> sc.fieldOf(es[k].code) != FieldUnknown
    ensures Decode(sc, Encode(code, vs, es, trailingBar)).Ok?
    ensures var r := Decode(sc, Encode(code, vs, es, trailingBar)).value;
            && FieldUnknown in r.fields
            && r.fields[FieldUnknown] == es[j].code + es[j].value
  {
    ValuesForLastNaming(sc, es, FieldUnknown, j);
    DecodeEncodedFields(sc, code, vs, es, trailingBar, FieldUnknown);
  }

  /** The last value for a field is the stored value of the last entry naming it, wherever that entry sits. */
  lemma ValuesForLastNaming(sc: Schema, es: seq<Entry>, f: FieldType, j: nat)
    requires j < |es| && sc.fieldOf(es[j].code) == f
    requires forall k :: j < k < |es| ==> sc.fieldOf(es[k].code) != f
    ensures var vals := ValuesFor(sc, es, f);
            |vals| > 0 && vals[|vals| - 1] == Stored(sc, es[j])
  {
    var before, after := es[..j + 1], es[j + 1..];
    assert before + after == es;
    ValuesForSplit(sc, before, after, f);
    ValuesForLast(sc, before, f);
    assert forall k :: 0 <= k < |after| ==> sc.fieldOf(after[k].code) != f by {
      forall k | 0 <= k < |after| ensures sc.fieldOf(after[k].code) != f {
        assert after[k] == es[j + 1 + k];
      }
    }
    ValuesForNone(sc, after, f);
  }

  /** A message whose entries name no repeatable field decodes with an empty repeatable map. */
  lemma DecodeNoRepeatables(sc: Schema, code: seq<byte>, vs: seq<seq<byte>>, es: seq<Entry>, trailingBar: bool)
    requires Encodable(sc, code, vs, es, trailingBar)
    requires forall i :: 0 <= i < |es| ==> !sc.repeatable(sc.fieldOf(es[i].code))
    ensures Decode(sc, Encode(code, vs, es, trailingBar)).Ok?
    ensures Decode(sc, Encode(code, vs, es, trailingBar)).value.repeatableFields == map[]
  {
    var t := sc.msgOf(code);
    DecodeEncoded(sc, code, vs, es, trailingBar);
    StoreAllNoRepeatables(sc, Message(t, FixedMap(sc.requiredFixed(t), vs), map[]), es);
  }

  /**
    A message whose entries all end with `|` and are followed by more
    input: the decoder reads every entry and resumes the loop where that
    input starts.
   */
  lemma DecodeThenMore(sc: Schema, code: seq<byte>, vs: seq<seq<byte>>, es: seq<Entry>, tail: seq<byte>)
    requires Encodable(sc, code, vs, es, true)
    requires |tail| > 0 && tail[|tail| - 1] != CR
    ensures var s := Encode(code, vs, es, true) + tail;
            var t := sc.msgOf(code);
            Decode(sc, s) == ParseVariable(sc, s, |s| - |tail|, StoreAll(sc, Message(t, FixedMap(sc.requiredFixed(t), vs), map[]), es))
  {
    var raw := Encode(code, vs, es, true);
    var t := sc.msgOf(code);
    var c := Concat(vs);
    var s := raw + tail;
    assert TrimCR(s) == s;
    assert s[..2 + |c|] == code + c;
    assert s[2 + |c|..] == EncodeEntries(es, true) + tail;
    DecodeReachesEntries(sc, code, vs, s);
    ParseVariableThenMore(sc, s, 2 + |c|, es, tail, Message(t, FixedMap(sc.requiredFixed(t), vs), map[]));
  }

  /**
    One byte after the final `|` is where the source reads a two-byte field
    code with only one byte left; the decoder reports the truncated field at
    that offset.
   */
  lemma DecodeStrayByte(sc: Schema, code: seq<byte>, vs: seq<seq<byte>>, es: seq<Entry>, x: byte)
    requires Encodable(sc, code, vs, es, true) && x != CR
    ensures var raw := Encode(code, vs, es, true);
            Decode(sc, raw + [x]) == Err(TruncatedField(|raw|))
  {
    var raw := Encode(code, vs, es, true);
    DecodeThenMore(sc, code, vs, es, [x]);
    assert |raw + [x]| - |[x]| == |raw|;
  }


}
