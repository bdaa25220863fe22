/**
  The static tables the decoder consults, gathered into one read-only value,
  and the instance this model fills in for the three message types whose
  layout the repository's tests fix.
 */
module Tables {
  import opened Utf8
  import opened Sip

  /**
    The schema: `codeToMsg`, `codeToField`, `fixedFieldLengths`, the
    `RequiredFixed` list of each message definition, `minMsgLength` and
    `repeatableField`. Every lookup is total: an unknown code resolves to
    a sentinel, never to an absent key.
   */
  datatype Schema = Schema(
    msgOf: seq<byte> -> MsgType,
    fieldOf: seq<byte> -> FieldType,
    width: FieldType -> nat,
    requiredFixed: MsgType -> seq<FieldType>,
    minLength: MsgType -> nat,
    repeatable: FieldType -> bool)
  {
    /** The total width of a list of fixed-length fields. */
    function FixedLength(fs: seq<FieldType>): nat
      decreases |fs|
    {
      if fs == [] then 0 else width(fs[0]) + FixedLength(fs[1..])
    }

    /**
      Every message type's minimum length covers its type code and its
      required fixed fields. This is what lets the decoder slice the fixed
      fields once the minimum-length gate has passed.
     */
    predicate WellFormed() {
      forall t :: minLength(t) >= 2 + FixedLength(requiredFixed(t))
    }

    /** No wire code resolves to one of the type's required fixed fields. */
    ghost predicate FixedFieldsUncoded(t: MsgType) {
      forall code :: fieldOf(code) !in requiredFixed(t)
    }
  }

  /**
    The fixed fields of the three message types the tests decode: patron
    status request (23), checkout request (11) and checkout response (12).
    The other types' definitions are not part of this model.
   */
  function RequiredFixed(t: MsgType): seq<FieldType> {
    if t == MsgReqPatronStatus then
      [FieldLanguage, FieldTransactionDate]
    else if t == MsgReqCheckout then
      [FieldRenewalPolicy, FieldNoBlock, FieldTransactionDate, FieldNbDueDate]
    else if t == MsgRespCheckout then
      [FieldOK, FieldRenewalOK, FieldMagneticMedia, FieldDesentisize, FieldTransactionDate]
    else
      []
  }

  /**
    Minimum lengths: the type code, the fixed fields, and three bytes (code
    and delimiter) for each variable-length field the protocol requires.
   */
  function MinLength(t: MsgType): nat {
    if t == MsgReqPatronStatus then 35        // 23 + AO AA AC AD
    else if t == MsgReqCheckout then 52       // 40 + AO AA AB AC
    else if t == MsgRespCheckout then 39      // 24 + AO AA AB AJ AH
    else 2
  }

  /** Repeatable fields: the print line (AG). */
  function Repeatable(f: FieldType): bool {
    f == FieldPrintLine
  }

  const Sip2: Schema := Schema(MsgTypeOf, FieldTypeOf, FixedWidth, RequiredFixed, MinLength, Repeatable)

  /** The concrete tables are well formed: each minimum covers the type code and the fixed fields. */
  lemma Sip2WellFormed()
    ensures Sip2.WellFormed()
    ensures Sip2.minLength(MsgReqPatronStatus) == 2 + Sip2.FixedLength(Sip2.requiredFixed(MsgReqPatronStatus)) + 12
  {
    forall t ensures Sip2.minLength(t) >= 2 + Sip2.FixedLength(Sip2.requiredFixed(t)) {
      Sip2FixedLength(t);
    }
    Sip2FixedLength(MsgReqPatronStatus);
  }

  /** The width of the fixed part of each type the repository's tests decode: 21 for 23, 38 for 11, 22 for 12. */
  lemma Sip2FixedLength(t: MsgType)
    ensures Sip2.FixedLength(Sip2.requiredFixed(t))
            == if t == MsgReqPatronStatus then 21
               else if t == MsgReqCheckout then 38
               else if t == MsgRespCheckout then 22
               else 0
  {
    if t == MsgReqPatronStatus {
      PatronStatusFixedLength();
    } else if t == MsgReqCheckout {
      CheckoutFixedLength();
    } else if t == MsgRespCheckout {
      CheckoutResponseFixedLength();
    } else {
      assert Sip2.requiredFixed(t) == [];
    }
  }

  lemma PatronStatusFixedLength()
    ensures Sip2.FixedLength(Sip2.requiredFixed(MsgReqPatronStatus)) == 21
  {
    var fs := Sip2.requiredFixed(MsgReqPatronStatus);
    assert Sip2.FixedLength(fs[1..]) == 18;
  }

  lemma CheckoutFixedLength()
    ensures Sip2.FixedLength(Sip2.requiredFixed(MsgReqCheckout)) == 38
  {
    var fs := Sip2.requiredFixed(MsgReqCheckout);
    assert Sip2.FixedLength(fs[3..]) == 18;
    assert Sip2.FixedLength(fs[2..]) == 36;
    assert Sip2.FixedLength(fs[1..]) == 37;
  }

  lemma CheckoutResponseFixedLength()
    ensures Sip2.FixedLength(Sip2.requiredFixed(MsgRespCheckout)) == 22
  {
    var fs := Sip2.requiredFixed(MsgRespCheckout);
    assert Sip2.FixedLength(fs[4..]) == 18;
    assert Sip2.FixedLength(fs[3..]) == 19;
    assert Sip2.FixedLength(fs[2..]) == 20;
    assert Sip2.FixedLength(fs[1..]) == 21;
  }

  /** No wire code reaches a fixed field of any type. */
  lemma Sip2FixedFieldsUncoded()
    ensures forall t :: Sip2.FixedFieldsUncoded(t)
  {
    forall t, code ensures Sip2.fieldOf(code) !in Sip2.requiredFixed(t) {
      CodedFieldIsVariable(code);
    }
  }
}
