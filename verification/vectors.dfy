/**
  The decoder on the repository's own test messages, with the schema of
  the three message types those tests decode.
 */
module DecodeVectors {
  import opened Wrappers
  import opened Utf8
  import opened Sip
  import opened Tables
  import opened Decoder
  import opened DecoderProperties

  /** The decoder with the concrete tables. */
  function DecodeSip2(raw: seq<byte>): Result<Message, DecodeError> {
    Sip2WellFormed();
    Decode(Sip2, raw)
  }

  /** A field code, resolved with the concrete tables. */
  lemma FieldOf(c: string, f: FieldType)
    requires c != "" && FieldCode(f) == c
    ensures Sip2.fieldOf(Bytes(c)) == f
  {
    FieldCodeResolves(f);
  }

  /** A message code, resolved with the concrete tables. */
  lemma MsgOf(c: string, t: MsgType)
    requires t != MsgUnknown && MsgCode(t) == c
    ensures Sip2.msgOf(Bytes(c)) == t
  {
    MsgCodeResolves(t);
  }

  /** A text none of whose characters writes the byte 0x7C is a value without the delimiter. */
  lemma NoBar(s: string)
    requires forall i :: 0 <= i < |s| ==> s[i] as int < 0x100 && s[i] != '|'
    ensures Bar !in Bytes(s)
  {
    forall i | 0 <= i < |s| ensures Bytes(s)[i] != Bar {
    }
  }

  const PatronStatusFixed := [Bytes("000"), Bytes("19810908ZZZZ124533")]
  const PatronStatusEntries := [Entry(Bytes("AO"), Bytes("Acme co.")), Entry(Bytes("AA"), Bytes("p123.xyz")),
                                Entry(Bytes("AC"), Bytes("secret")), Entry(Bytes("AD"), Bytes("pass"))]

  lemma PatronStatusEncodable()
    ensures Encodable(Sip2, Bytes("23"), PatronStatusFixed, PatronStatusEntries, true)
  {
    Sip2WellFormed();
    MsgOf("23", MsgReqPatronStatus);
    PatronStatusFits();
    PatronStatusEntriesWellFormed();
    PatronStatusLength();
  }

  lemma PatronStatusFits()
    ensures FixedValuesFit(Sip2, Sip2.requiredFixed(MsgReqPatronStatus), PatronStatusFixed)
    ensures NoDuplicates(Sip2.requiredFixed(MsgReqPatronStatus))
  {
    assert Sip2.requiredFixed(MsgReqPatronStatus) == [FieldLanguage, FieldTransactionDate];
  }

  lemma PatronStatusEntriesWellFormed()
    ensures EntriesWellFormed(PatronStatusEntries)
  {
    NoBar("Acme co.");
    NoBar("p123.xyz");
    NoBar("secret");
    NoBar("pass");
  }

  lemma PatronStatusLength()
    ensures var raw := Encode(Bytes("23"), PatronStatusFixed, PatronStatusEntries, true);
            |raw| == 2 + 21 + 4 * 3 + 8 + 8 + 6 + 4 && raw[|raw| - 1] == Bar
  {
  }

  lemma PatronStatusFixedMap()
    ensures Sip2.requiredFixed(MsgReqPatronStatus) == [FieldLanguage, FieldTransactionDate]
    ensures NoDuplicates(Sip2.requiredFixed(MsgReqPatronStatus))
    ensures FixedMap(Sip2.requiredFixed(MsgReqPatronStatus), PatronStatusFixed)
            == map[FieldLanguage := Bytes("000"), FieldTransactionDate := Bytes("19810908ZZZZ124533")]
  {
    var fs := Sip2.requiredFixed(MsgReqPatronStatus);
    assert fs == [FieldLanguage, FieldTransactionDate];
    var fm := FixedMap(fs, PatronStatusFixed);
    assert fs[0] in fm && fs[1] in fm;
  }

  lemma PatronStatusStored()
    ensures StoreAll(Sip2, Message(MsgReqPatronStatus, map[FieldLanguage := Bytes("000"), FieldTransactionDate := Bytes("19810908ZZZZ124533")], map[]),
                     PatronStatusEntries)
            == Message(MsgReqPatronStatus,
                       map[FieldLanguage := Bytes("000"), FieldTransactionDate := Bytes("19810908ZZZZ124533"),
                           FieldInstitutionID := Bytes("Acme co."), FieldPatronIdentifier := Bytes("p123.xyz"),
                           FieldTerminalPassword := Bytes("secret"), FieldPatronPassword := Bytes("pass")],
                       map[])
  {
    FieldOf("AO", FieldInstitutionID);
    FieldOf("AA", FieldPatronIdentifier);
    FieldOf("AC", FieldTerminalPassword);
    FieldOf("AD", FieldPatronPassword);
  }

  // The wire text of the first test message, assembled from its parts.

  /** The last entry of a list, closed by its `|`. */
  lemma ClosedLastEntry(es: seq<Entry>)
    requires |es| == 1
    ensures EncodeEntries(es, true) == es[0].code + es[0].value + [Bar]
  {
    assert es[1..] == [];
  }

  // The *Text* lemmas join the test literal from its pieces a few at a
  // time. They hold by plain string equality; they exist only because one
  // long chain of concatenations is much slower for the solver than these
  // short steps.

  lemma PatronStatusTextHead()
    ensures "23" + "000" + "19810908ZZZZ124533" == "2300019810908ZZZZ124533"
  {
  }

  lemma PatronStatusTextEntries()
    ensures "AO" + "Acme co." + "|" + "AA" + "p123.xyz" + "|" == "AOAcme co.|AAp123.xyz|"
    ensures "AC" + "secret" + "|" + "AD" + "pass" + "|" == "ACsecret|ADpass|"
  {
  }

  lemma PatronStatusTextWhole()
    ensures "2300019810908ZZZZ124533" + "AOAcme co.|AAp123.xyz|" == "2300019810908ZZZZ124533AOAcme co.|AAp123.xyz|"
    ensures "2300019810908ZZZZ124533AOAcme co.|AAp123.xyz|" + "ACsecret|ADpass|"
            == "2300019810908ZZZZ124533AOAcme co.|AAp123.xyz|ACsecret|ADpass|"
  {
  }

  lemma PatronStatusWireHead()
    ensures Bytes("23") + Concat(PatronStatusFixed) == Bytes("2300019810908ZZZZ124533")
  {
    PatronStatusTextHead();
    assert Concat(PatronStatusFixed) == Bytes("000") + Bytes("19810908ZZZZ124533");
    BytesAppend("23", "000");
    BytesAppend("23000", "19810908ZZZZ124533");
  }

  lemma PatronStatusWireTail()
    ensures EncodeEntries(PatronStatusEntries[2..], true) == Bytes("ACsecret|ADpass|")
  {
    var es := PatronStatusEntries[2..];
    PatronStatusTextEntries();
    assert es[1..][1..] == [] && es[1..] == [Entry(Bytes("AD"), Bytes("pass"))];
    ClosedLastEntry(es[1..]);
    assert [Bar] == Bytes("|");
    BytesAppend("AC", "secret"); BytesAppend("ACsecret", "|"); BytesAppend("ACsecret|", "AD");
    BytesAppend("ACsecret|AD", "pass"); BytesAppend("ACsecret|ADpass", "|");
  }

  lemma PatronStatusWireEntries()
    ensures EncodeEntries(PatronStatusEntries, true) == Bytes("AOAcme co.|AAp123.xyz|") + Bytes("ACsecret|ADpass|")
  {
    var es := PatronStatusEntries;
    PatronStatusTextEntries();
    PatronStatusWireTail();
    assert es[1..][1..] == es[2..];
    assert [Bar] == Bytes("|");
    BytesAppend("AO", "Acme co."); BytesAppend("AOAcme co.", "|"); BytesAppend("AOAcme co.|", "AA");
    BytesAppend("AOAcme co.|AA", "p123.xyz"); BytesAppend("AOAcme co.|AAp123.xyz", "|");
    BytesAppend("AOAcme co.|AAp123.xyz|", "ACsecret|ADpass|");
  }

  /** The first test message is exactly its type code, fixed values and entries, each entry closed by `|`. */
  lemma PatronStatusWire()
    ensures Encode(Bytes("23"), PatronStatusFixed, PatronStatusEntries, true)
            == Bytes("2300019810908ZZZZ124533AOAcme co.|AAp123.xyz|ACsecret|ADpass|")
  {
    PatronStatusWireHead();
    PatronStatusWireEntries();
    PatronStatusTextWhole();
    BytesAppend("2300019810908ZZZZ124533", "AOAcme co.|AAp123.xyz|");
    BytesAppend("2300019810908ZZZZ124533AOAcme co.|AAp123.xyz|", "ACsecret|ADpass|");
  }

  /** The first message of the decoding tests: every field in place, no repeatable field. */
  lemma PatronStatusRequest()
    ensures DecodeSip2(Bytes("2300019810908ZZZZ124533AOAcme co.|AAp123.xyz|ACsecret|ADpass|"))
            == Ok(Message(MsgReqPatronStatus,
                          map[FieldLanguage := Bytes("000"), FieldTransactionDate := Bytes("19810908ZZZZ124533"),
                              FieldInstitutionID := Bytes("Acme co."), FieldPatronIdentifier := Bytes("p123.xyz"),
                              FieldTerminalPassword := Bytes("secret"), FieldPatronPassword := Bytes("pass")],
                          map[]))
  {
    PatronStatusWire();
    PatronStatusEncodable();
    MsgOf("23", MsgReqPatronStatus);
    DecodeEncoded(Sip2, Bytes("23"), PatronStatusFixed, PatronStatusEntries, true);
    PatronStatusFixedMap();
    PatronStatusStored();
  }

  // ---------------------------------------------------------------------
  // Checkout request: an empty value, and a last field with no `|`

  const CheckoutFixed := [Bytes("Y"), Bytes("N"), Bytes("20131216    135316"), Bytes("20131216    135316")]
  const CheckoutEntries := [Entry(Bytes("AO"), Bytes("")), Entry(Bytes("AA"), Bytes("N0012121212")),
                            Entry(Bytes("AB"), Bytes("ix:1156620,1")), Entry(Bytes("AC"), Bytes("secret"))]

  lemma CheckoutFits()
    ensures Sip2.requiredFixed(MsgReqCheckout) == [FieldRenewalPolicy, FieldNoBlock, FieldTransactionDate, FieldNbDueDate]
    ensures FixedValuesFit(Sip2, Sip2.requiredFixed(MsgReqCheckout), CheckoutFixed)
    ensures NoDuplicates(Sip2.requiredFixed(MsgReqCheckout))
  {
  }

  lemma CheckoutEncodable()
    ensures Encodable(Sip2, Bytes("11"), CheckoutFixed, CheckoutEntries, false)
  {
    Sip2WellFormed();
    MsgOf("11", MsgReqCheckout);
    CheckoutFits();
    CheckoutEntriesWellFormed();
    CheckoutLength();
  }

  lemma CheckoutEntriesWellFormed()
    ensures EntriesWellFormed(CheckoutEntries)
  {
    NoBar("");
    NoBar("N0012121212");
    NoBar("ix:1156620,1");
    NoBar("secret");
  }

  lemma CheckoutLength()
    ensures var raw := Encode(Bytes("11"), CheckoutFixed, CheckoutEntries, false);
            |raw| == 2 + 38 + 3 + 14 + 15 + 8 && raw[|raw| - 1] as int == 't' as int
  {
  }

  lemma CheckoutFixedMap()
    ensures Sip2.requiredFixed(MsgReqCheckout) == [FieldRenewalPolicy, FieldNoBlock, FieldTransactionDate, FieldNbDueDate]
    ensures NoDuplicates(Sip2.requiredFixed(MsgReqCheckout))
    ensures FixedMap(Sip2.requiredFixed(MsgReqCheckout), CheckoutFixed)
            == map[FieldRenewalPolicy := Bytes("Y"), FieldNoBlock := Bytes("N"),
                   FieldTransactionDate := Bytes("20131216    135316"), FieldNbDueDate := Bytes("20131216    135316")]
  {
    CheckoutFits();
    var fs := Sip2.requiredFixed(MsgReqCheckout);
    var fm := FixedMap(fs, CheckoutFixed);
    assert fs[0] in fm && fs[1] in fm && fs[2] in fm && fs[3] in fm;
  }

  lemma CheckoutStored()
    ensures StoreAll(Sip2, Message(MsgReqCheckout,
                                   map[FieldRenewalPolicy := Bytes("Y"), FieldNoBlock := Bytes("N"),
                                       FieldTransactionDate := Bytes("20131216    135316"), FieldNbDueDate := Bytes("20131216    135316")],
                                   map[]),
                     CheckoutEntries)
            == Message(MsgReqCheckout,
                       map[FieldRenewalPolicy := Bytes("Y"), FieldNoBlock := Bytes("N"),
                           FieldTransactionDate := Bytes("20131216    135316"), FieldNbDueDate := Bytes("20131216    135316"),
                           FieldInstitutionID := Bytes(""), FieldPatronIdentifier := Bytes("N0012121212"),
                           FieldItemIdentifier := Bytes("ix:1156620,1"), FieldTerminalPassword := Bytes("secret")],
                       map[])
  {
    FieldOf("AO", FieldInstitutionID);
    FieldOf("AA", FieldPatronIdentifier);
    FieldOf("AB", FieldItemIdentifier);
    FieldOf("AC", FieldTerminalPassword);
  }

  // The wire text of the second test message, assembled from its parts.

  /** The last entry of a list, with no `|` after it. */
  lemma OpenLastEntry(es: seq<Entry>)
    requires |es| == 1
    ensures EncodeEntries(es, false) == es[0].code + es[0].value
  {
    assert es[1..] == [];
  }

  // As for the first message: short joining steps, for the solver's sake.

  lemma CheckoutTextHead()
    ensures "11" + "Y" + "N" + "20131216    135316" == "11YN20131216    135316"
    ensures "11YN20131216    135316" + "20131216    135316" == "11YN20131216    13531620131216    135316"
  {
  }

  lemma CheckoutTextEntries()
    ensures "AO" + "|" + "AA" + "N0012121212" + "|" == "AO|AAN0012121212|"
    ensures "AB" + "ix:1156620,1" + "|" + "AC" + "secret" == "ABix:1156620,1|ACsecret"
  {
  }

  lemma CheckoutTextWhole()
    ensures "11YN20131216    13531620131216    135316" + "AO|AAN0012121212|"
            == "11YN20131216    13531620131216    135316AO|AAN0012121212|"
    ensures "11YN20131216    13531620131216    135316AO|AAN0012121212|" + "ABix:1156620,1|ACsecret"
            == "11YN20131216    13531620131216    135316AO|AAN0012121212|ABix:1156620,1|ACsecret"
  {
  }

  lemma CheckoutWireHead()
    ensures Bytes("11") + Concat(CheckoutFixed) == Bytes("11YN20131216    13531620131216    135316")
  {
    CheckoutTextHead();
    assert Concat(CheckoutFixed) == Bytes("Y") + Bytes("N") + Bytes("20131216    135316") + Bytes("20131216    135316");
    BytesAppend("11", "Y"); BytesAppend("11Y", "N"); BytesAppend("11YN", "20131216    135316");
    BytesAppend("11YN20131216    135316", "20131216    135316");
  }

  lemma CheckoutWireTail()
    ensures EncodeEntries(CheckoutEntries[2..], false) == Bytes("ABix:1156620,1|ACsecret")
  {
    var es := CheckoutEntries[2..];
    CheckoutTextEntries();
    assert es[1..][1..] == [] && es[1..] == [Entry(Bytes("AC"), Bytes("secret"))];
    OpenLastEntry(es[1..]);
    assert [Bar] == Bytes("|");
    BytesAppend("AB", "ix:1156620,1"); BytesAppend("ABix:1156620,1", "|"); BytesAppend("ABix:1156620,1|", "AC");
    BytesAppend("ABix:1156620,1|AC", "secret");
  }

  lemma CheckoutWireEntries()
    ensures EncodeEntries(CheckoutEntries, false) == Bytes("AO|AAN0012121212|") + Bytes("ABix:1156620,1|ACsecret")
  {
    var es := CheckoutEntries;
    CheckoutWireTail();
    assert es[1..][1..] == es[2..];
    var rest := EncodeEntries(es[2..], false);
    assert EncodeEntries(es[1..], false) == Bytes("AA") + Bytes("N0012121212") + [Bar] + rest;
    assert EncodeEntries(es, false) == Bytes("AO") + [] + [Bar] + EncodeEntries(es[1..], false);
    CheckoutTextEntries();
    assert [Bar] == Bytes("|");
    BytesAppend("AO", "|"); BytesAppend("AO|", "AA");
    BytesAppend("AO|AA", "N0012121212"); BytesAppend("AO|AAN0012121212", "|");
  }

  /** The second test message is exactly its type code, fixed values and entries, the last one without `|`. */
  lemma CheckoutWire()
    ensures Encode(Bytes("11"), CheckoutFixed, CheckoutEntries, false)
            == Bytes("11YN20131216    13531620131216    135316AO|AAN0012121212|ABix:1156620,1|ACsecret")
  {
    CheckoutWireHead();
    CheckoutWireEntries();
    CheckoutTextWhole();
    BytesAppend("11YN20131216    13531620131216    135316", "AO|AAN0012121212|");
    BytesAppend("11YN20131216    13531620131216    135316AO|AAN0012121212|", "ABix:1156620,1|ACsecret");
  }

  /**
    The second message of the decoding tests: fixed fields with embedded
    spaces, an empty institution id, and a terminal password that runs to
    the end of the input.
   */
  lemma CheckoutRequest()
    ensures DecodeSip2(Bytes("11YN20131216    13531620131216    135316AO|AAN0012121212|ABix:1156620,1|ACsecret"))
            == Ok(Message(MsgReqCheckout,
                          map[FieldRenewalPolicy := Bytes("Y"), FieldNoBlock := Bytes("N"),
                              FieldTransactionDate := Bytes("20131216    135316"), FieldNbDueDate := Bytes("20131216    135316"),
                              FieldInstitutionID := Bytes(""), FieldPatronIdentifier := Bytes("N0012121212"),
                              FieldItemIdentifier := Bytes("ix:1156620,1"), FieldTerminalPassword := Bytes("secret")],
                          map[]))
  {
    CheckoutWire();
    CheckoutEncodable();
    MsgOf("11", MsgReqCheckout);
    DecodeEncoded(Sip2, Bytes("11"), CheckoutFixed, CheckoutEntries, false);
    CheckoutFixedMap();
    CheckoutStored();
  }

  // ---------------------------------------------------------------------
  // Checkout response: a receipt of repeated print lines

  /** The UTF-8 encodings of the letters å and ø. */
  const ARing: seq<byte> := [0xC3, 0xA5]
  const OSlash: seq<byte> := [0xC3, 0xB8]

  const ReceiptFixed := [Bytes("0"), Bytes("N"), Bytes("N"), Bytes("N"), Bytes("20131216    140902")]
  const ReceiptHead := [Entry(Bytes("AO"), []), Entry(Bytes("AA"), Bytes("N000000001")), Entry(Bytes("AB"), Bytes("RECEIPT")),
                        Entry(Bytes("AJ"), []), Entry(Bytes("AH"), [])]

  /** The receipt's twenty-one print lines, five of them empty. */
  const PrintLinesA: seq<seq<byte>> := [
    Bytes(" DEICHMANSKE BIBLIOTEK"),
    Bytes(" FURUSET"),
    Bytes(" Tlf: 23 47 90 12")
  ]
  const PrintLinesB: seq<seq<byte>> := [
    Bytes(" furu@deichman.no"),
    Bytes(" www.deichman.no"),
    Bytes("")
  ]
  const PrintLinesC: seq<seq<byte>> := [
    Bytes("Kvittering for utl") + ARing + Bytes("n 16/12/2013"),
    Bytes("L") + ARing + Bytes("nenummer: N000000001"),
    Bytes("")
  ]
  const PrintLinesD: seq<seq<byte>> := [
    Bytes("                  : Take this waltz "),
    Bytes("  (1357155.005) forfall : 23/12/2013"),
    Bytes(" Dahl, Kjell Ola  : Svart engel : kr")
  ]
  const PrintLinesE: seq<seq<byte>> := [
    Bytes("  (766342.026) forfall : 13/01/2014"),
    Bytes(" Egeland, Tom     : Ulvenatten : thr"),
    Bytes("  (664329.009) forfall : 13/01/2014")
  ]
  const PrintLinesF: seq<seq<byte>> := [
    Bytes(""),
    Bytes("Takk for bes") + OSlash + Bytes("ket."),
    Bytes("")
  ]
  const PrintLinesG: seq<seq<byte>> := [
    Bytes(""),
    Bytes(""),
    Bytes("")
  ]
  const PrintLines := PrintLinesA + PrintLinesB + PrintLinesC + PrintLinesD + PrintLinesE + PrintLinesF + PrintLinesG
  const ReceiptLines := PrintLineEntries(PrintLines)

  /** One print-line entry (AG) per value. */
  function PrintLineEntries(lines: seq<seq<byte>>): seq<Entry> {
    seq(|lines|, i requires 0 <= i < |lines| => Entry(Bytes("AG"), lines[i]))
  }

  lemma ReceiptFits()
    ensures Sip2.requiredFixed(MsgRespCheckout) == [FieldOK, FieldRenewalOK, FieldMagneticMedia, FieldDesentisize, FieldTransactionDate]
    ensures FixedValuesFit(Sip2, Sip2.requiredFixed(MsgRespCheckout), ReceiptFixed)
    ensures NoDuplicates(Sip2.requiredFixed(MsgRespCheckout))
  {
  }

  lemma PrintLinesANoBar()
    ensures forall i :: 0 <= i < |PrintLinesA| ==> Bar !in PrintLinesA[i]
  {
    NoBar(" DEICHMANSKE BIBLIOTEK");
    NoBar(" FURUSET");
    NoBar(" Tlf: 23 47 90 12");
  }

  lemma PrintLinesBNoBar()
    ensures forall i :: 0 <= i < |PrintLinesB| ==> Bar !in PrintLinesB[i]
  {
    NoBar(" furu@deichman.no");
    NoBar(" www.deichman.no");
    NoBar("");
  }

  lemma PrintLinesCNoBar()
    ensures forall i :: 0 <= i < |PrintLinesC| ==> Bar !in PrintLinesC[i]
  {
    NoBar("Kvittering for utl");
    NoBar("n 16/12/2013");
    NoBar("L");
    NoBar("nenummer: N000000001");
    NoBar("");
  }

  lemma PrintLinesDNoBar()
    ensures forall i :: 0 <= i < |PrintLinesD| ==> Bar !in PrintLinesD[i]
  {
    NoBar("                  : Take this waltz ");
    NoBar("  (1357155.005) forfall : 23/12/2013");
    NoBar(" Dahl, Kjell Ola  : Svart engel : kr");
  }

  lemma PrintLinesENoBar()
    ensures forall i :: 0 <= i < |PrintLinesE| ==> Bar !in PrintLinesE[i]
  {
    NoBar("  (766342.026) forfall : 13/01/2014");
    NoBar(" Egeland, Tom     : Ulvenatten : thr");
    NoBar("  (664329.009) forfall : 13/01/2014");
  }

  lemma PrintLinesFNoBar()
    ensures forall i :: 0 <= i < |PrintLinesF| ==> Bar !in PrintLinesF[i]
  {
    NoBar("");
    NoBar("Takk for bes");
    NoBar("ket.");
  }

  lemma PrintLinesGNoBar()
    ensures forall i :: 0 <= i < |PrintLinesG| ==> Bar !in PrintLinesG[i]
  {
    NoBar("");
  }

  lemma PrintLinesNoBar()
    ensures forall i :: 0 <= i < |PrintLines| ==> Bar !in PrintLines[i]
  {
    PrintLinesANoBar();
    PrintLinesBNoBar();
    PrintLinesCNoBar();
    PrintLinesDNoBar();
    PrintLinesENoBar();
    PrintLinesFNoBar();
    PrintLinesGNoBar();
  }

  /** Print-line entries are well formed when no value holds a `|`. */
  lemma PrintLineEntriesWellFormed(lines: seq<seq<byte>>)
    requires forall i :: 0 <= i < |lines| ==> Bar !in lines[i]
    ensures EntriesWellFormed(PrintLineEntries(lines))
  {
    var es := PrintLineEntries(lines);
    forall i | 0 <= i < |es| ensures |es[i].code| == 2 && Bar !in es[i].value {
      assert es[i] == Entry(Bytes("AG"), lines[i]);
    }
  }

  lemma ReceiptEntriesWellFormed()
    ensures EntriesWellFormed(ReceiptHead + ReceiptLines)
  {
    NoBar("N000000001");
    NoBar("RECEIPT");
    PrintLinesNoBar();
    PrintLineEntriesWellFormed(PrintLines);
    var es := ReceiptHead + ReceiptLines;
    forall i | 0 <= i < |es| ensures |es[i].code| == 2 && Bar !in es[i].value {
      if i >= |ReceiptHead| {
        assert es[i] == ReceiptLines[i - |ReceiptHead|];
      }
    }
  }

  lemma ReceiptEncodable()
    ensures Encodable(Sip2, Bytes("12"), ReceiptFixed, ReceiptHead + ReceiptLines, true)
  {
    Sip2WellFormed();
    MsgOf("12", MsgRespCheckout);
    ReceiptFits();
    ReceiptEntriesWellFormed();
    var es := ReceiptHead + ReceiptLines;
    EncodeEntriesShape(es, true);
    var raw := Encode(Bytes("12"), ReceiptFixed, es, true);
    assert |Concat(ReceiptFixed)| == 22;
    assert raw[|raw| - 1] == EncodeEntries(es, true)[|EncodeEntries(es, true)| - 1];
  }

  lemma ReceiptFixedMap()
    ensures Sip2.requiredFixed(MsgRespCheckout) == [FieldOK, FieldRenewalOK, FieldMagneticMedia, FieldDesentisize, FieldTransactionDate]
    ensures NoDuplicates(Sip2.requiredFixed(MsgRespCheckout))
    ensures FixedMap(Sip2.requiredFixed(MsgRespCheckout), ReceiptFixed)
            == map[FieldOK := Bytes("0"), FieldRenewalOK := Bytes("N"), FieldMagneticMedia := Bytes("N"),
                   FieldDesentisize := Bytes("N"), FieldTransactionDate := Bytes("20131216    140902")]
  {
    ReceiptFits();
    var fs := Sip2.requiredFixed(MsgRespCheckout);
    var fm := FixedMap(fs, ReceiptFixed);
    assert fs[0] in fm && fs[1] in fm && fs[2] in fm && fs[3] in fm && fs[4] in fm;
  }

  lemma ReceiptHeadStored()
    ensures StoreAll(Sip2, Message(MsgRespCheckout, map[FieldOK := Bytes("0"), FieldRenewalOK := Bytes("N"), FieldMagneticMedia := Bytes("N"),
                   FieldDesentisize := Bytes("N"), FieldTransactionDate := Bytes("20131216    140902")], map[]), ReceiptHead)
            == Message(MsgRespCheckout, map[FieldOK := Bytes("0"), FieldRenewalOK := Bytes("N"), FieldMagneticMedia := Bytes("N"),
                           FieldDesentisize := Bytes("N"), FieldTransactionDate := Bytes("20131216    140902"),
                           FieldInstitutionID := [], FieldPatronIdentifier := Bytes("N000000001"),
                           FieldItemIdentifier := Bytes("RECEIPT"), FieldTitleIdentifier := [], FieldDueDate := []], map[])
  {
    FieldOf("AO", FieldInstitutionID);
    FieldOf("AA", FieldPatronIdentifier);
    FieldOf("AB", FieldItemIdentifier);
    FieldOf("AJ", FieldTitleIdentifier);
    FieldOf("AH", FieldDueDate);
  }

  /** Recording print-line entries into a message with no repeatable values collects exactly those lines. */
  lemma PrintLinesStored(m: Message, lines: seq<seq<byte>>)
    requires m.repeatableFields == map[] && |lines| > 0
    ensures StoreAll(Sip2, m, PrintLineEntries(lines)) == m.(repeatableFields := map[FieldPrintLine := lines])
  {
    var es := PrintLineEntries(lines);
    FieldOf("AG", FieldPrintLine);
    assert forall i :: 0 <= i < |es| ==> es[i].code == Bytes("AG");
    StoreAllRun(Sip2, m, es, FieldPrintLine);
    var vals := ValuesFor(Sip2, es, FieldPrintLine);
    assert forall i :: 0 <= i < |vals| ==> vals[i] == es[i].value == lines[i];
    assert vals == lines;
    assert ValuesOf(m, FieldPrintLine) + vals == lines;
  }

  /**
    The third message of the decoding tests: empty values, and twenty-one
    print lines collected in wire order, empty ones included, with their
    multi-byte letters intact.
   */
  lemma CheckoutResponse()
    ensures DecodeSip2(Encode(Bytes("12"), ReceiptFixed, ReceiptHead + ReceiptLines, true))
            == Ok(Message(MsgRespCheckout, map[FieldOK := Bytes("0"), FieldRenewalOK := Bytes("N"), FieldMagneticMedia := Bytes("N"),
                           FieldDesentisize := Bytes("N"), FieldTransactionDate := Bytes("20131216    140902"),
                           FieldInstitutionID := [], FieldPatronIdentifier := Bytes("N000000001"),
                           FieldItemIdentifier := Bytes("RECEIPT"), FieldTitleIdentifier := [], FieldDueDate := []], map[FieldPrintLine := PrintLines]))
  {
    ReceiptEncodable();
    MsgOf("12", MsgRespCheckout);
    DecodeEncoded(Sip2, Bytes("12"), ReceiptFixed, ReceiptHead + ReceiptLines, true);
    ReceiptFixedMap();
    var m0 := Message(MsgRespCheckout, map[FieldOK := Bytes("0"), FieldRenewalOK := Bytes("N"), FieldMagneticMedia := Bytes("N"),
                   FieldDesentisize := Bytes("N"), FieldTransactionDate := Bytes("20131216    140902")], map[]);
    StoreAllSplit(Sip2, m0, ReceiptHead, ReceiptLines);
    ReceiptHeadStored();
    PrintLinesStored(StoreAll(Sip2, m0, ReceiptHead), PrintLines);
  }

  // ---------------------------------------------------------------------
  // Errors

  /** Empty input, and one byte before a carriage return, are too short. */
  lemma TooShort()
    ensures DecodeSip2([]) == Err(MessageTooShort)
    ensures DecodeSip2(Bytes("1\r")) == Err(MessageTooShort)
  {
    assert Bytes("1\r")[1] == CR;
  }

  /** An unknown type code is reported as the two bytes read. */
  lemma UnknownCode()
    ensures DecodeSip2(Bytes("xx")) == Err(UnknownMessageType(Bytes("xx")))
  {
    var raw := Bytes("xx");
    assert raw[..2] == raw;
  }

  /**
    Where the final `|` does matter: a last value ending in CR. Closed by
    `|`, the CR is part of the value; without the `|`, the decoder trims it.
   */
  lemma TrailingBarAfterCR()
    ensures DecodeSip2(Bytes("99ADx\r|")) == Ok(Message(MsgReqStatus, map[FieldPatronPassword := Bytes("x\r")], map[]))
    ensures DecodeSip2(Bytes("99ADx\r")) == Ok(Message(MsgReqStatus, map[FieldPatronPassword := Bytes("x")], map[]))
  {
    Sip2WellFormed();
    MsgOf("99", MsgReqStatus);
    FieldOf("AD", FieldPatronPassword);
    assert Sip2.requiredFixed(MsgReqStatus) == [];
    var empty := Message(MsgReqStatus, FixedMap([], []), map[]);
    assert empty == Message(MsgReqStatus, map[], map[]);
    StatusWithBar(empty);
    StatusWithoutBar(empty);
  }

  /** `99ADx\r|` is the encoding of one entry whose value ends in CR, closed by `|`. */
  lemma StatusWithBar(empty: Message)
    requires Sip2.WellFormed() && Sip2.msgOf(Bytes("99")) == MsgReqStatus && Sip2.requiredFixed(MsgReqStatus) == []
    requires Sip2.fieldOf(Bytes("AD")) == FieldPatronPassword
    requires empty == Message(MsgReqStatus, FixedMap([], []), map[])
    ensures Decode(Sip2, Bytes("99ADx\r|")) == Ok(Message(MsgReqStatus, map[FieldPatronPassword := Bytes("x\r")], map[]))
  {
    var es := [Entry(Bytes("AD"), Bytes("x\r"))];
    StatusWire(es, true, Bytes("99ADx\r|"));
    assert Encodable(Sip2, Bytes("99"), [], es, true);
    DecodeEncoded(Sip2, Bytes("99"), [], es, true);
    assert StoreAll(Sip2, empty, es) == StoreAll(Sip2, StoreField(Sip2, empty, FieldPatronPassword, Bytes("x\r")), []);
  }

  /** `99ADx\r` is the encoding of one entry, unclosed, followed by the CR the decoder trims. */
  lemma StatusWithoutBar(empty: Message)
    requires Sip2.WellFormed() && Sip2.msgOf(Bytes("99")) == MsgReqStatus && Sip2.requiredFixed(MsgReqStatus) == []
    requires Sip2.fieldOf(Bytes("AD")) == FieldPatronPassword
    requires empty == Message(MsgReqStatus, FixedMap([], []), map[])
    ensures Decode(Sip2, Bytes("99ADx\r")) == Ok(Message(MsgReqStatus, map[FieldPatronPassword := Bytes("x")], map[]))
  {
    var es := [Entry(Bytes("AD"), Bytes("x"))];
    StatusWire(es, false, Bytes("99ADx"));
    assert Bytes("99ADx\r") == Bytes("99ADx") + [CR];
    DecodeIgnoresFinalCR(Sip2, Bytes("99ADx"));
    assert Encodable(Sip2, Bytes("99"), [], es, false);
    DecodeEncoded(Sip2, Bytes("99"), [], es, false);
    assert StoreAll(Sip2, empty, es) == StoreAll(Sip2, StoreField(Sip2, empty, FieldPatronPassword, Bytes("x")), []);
  }

  /** A status request with one AD entry is its code, the entry, and the `|` if asked. */
  lemma StatusWire(es: seq<Entry>, trailingBar: bool, wire: seq<byte>)
    requires |es| == 1 && es[0].code == Bytes("AD") && (es[0].value == Bytes("x") || es[0].value == Bytes("x\r"))
    requires wire == Bytes("99") + Bytes("AD") + es[0].value + (if trailingBar then [Bar] else [])
    ensures Encode(Bytes("99"), [], es, trailingBar) == wire
    ensures EntriesWellFormed(es)
  {
    if trailingBar {
      ClosedLastEntry(es);
    } else {
      OpenLastEntry(es);
    }
    assert Concat([]) == [];
    assert Bytes("99") + [] + (es[0].code + es[0].value + (if trailingBar then [Bar] else []))
        == Bytes("99") + Bytes("AD") + es[0].value + (if trailingBar then [Bar] else []);
  }

  /** Only the first two bytes decide the type: a well-formed body does not rescue code 33. */
  lemma UnknownCodeWithBody()
    ensures DecodeSip2(Bytes("33") + Bytes("01000120131216    140859ABix:664329,9|AJEgeland, Tom : Ulvenatten") + Bytes("|"))
            == Err(UnknownMessageType(Bytes("33")))
  {
    var raw := Bytes("33") + Bytes("01000120131216    140859ABix:664329,9|AJEgeland, Tom : Ulvenatten") + Bytes("|");
    Sip2WellFormed();
    Code33Unknown();
    assert raw[|raw| - 1] == Bar;
    assert TrimCR(raw) == raw;
    assert raw[..2] == Bytes("33");
  }

  lemma Code33Unknown()
    ensures Sip2.msgOf(Bytes("33")) == MsgUnknown
  {
  }

  /** A patron status request one byte short of its minimum reports the type, the length and the minimum. */
  lemma PatronStatusTooShort()
    ensures DecodeSip2(Bytes("23") + Bytes("00019810908ZZZZ12453AO|AA|AC|AD") + Bytes("|"))
            == Err(MessageTooShortForType(MsgReqPatronStatus, 34, 35))
  {
    var raw := Bytes("23") + Bytes("00019810908ZZZZ12453AO|AA|AC|AD") + Bytes("|");
    assert raw[|raw| - 1] == Bar;
    assert raw[..2] == Bytes("23");
    MsgOf("23", MsgReqPatronStatus);
  }

  lemma ByteX()
    ensures Bytes("X") == [0x58]
  {
  }

  /** A stray byte after the last `|` of the first test message: a truncated field where the source panics. */
  lemma PatronStatusStrayByte()
    ensures DecodeSip2(Bytes("2300019810908ZZZZ124533AOAcme co.|AAp123.xyz|ACsecret|ADpass|") + Bytes("X"))
            == Err(TruncatedField(61))
  {
    var raw := Encode(Bytes("23"), PatronStatusFixed, PatronStatusEntries, true);
    PatronStatusWire();
    PatronStatusEncodable();
    PatronStatusLength();
    ByteX();
    assert raw + Bytes("X") == raw + [0x58];
    DecodeStrayByte(Sip2, Bytes("23"), PatronStatusFixed, PatronStatusEntries, 0x58);
  }
}
