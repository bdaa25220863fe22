/**
  The vocabulary of the 3M Standard Interchange Protocol, version 2.00:
  message types, field types, the decoded message, and the wire codes and
  fixed widths the protocol assigns to them.

  Message and field types are numbered in declaration order, as Go's `iota`
  numbers them, and the zero value of each is its `Unknown` sentinel.
 */
module Sip {
  import opened Utf8

  /** A request or response message type. */
  newtype MsgType = x: int | 0 <= x <= 30

  const MsgUnknown: MsgType := 0
  // Requests:
  const MsgReqPatronStatus: MsgType := 1
  const MsgReqCheckout: MsgType := 2
  const MsgReqCheckin: MsgType := 3
  const MsgReqBlockPatron: MsgType := 4
  const MsgReqStatus: MsgType := 5
  const MsgReqResend: MsgType := 6
  const MsgReqLogin: MsgType := 7
  const MsgReqPatronInformation: MsgType := 8
  const MsgReqEndPatronSession: MsgType := 9
  const MsgReqFeePaid: MsgType := 10
  const MsgReqItemInformation: MsgType := 11
  const MsgReqItemStatusUpdate: MsgType := 12
  const MsgReqPatronEnable: MsgType := 13
  const MsgReqHold: MsgType := 14
  const MsgReqRenew: MsgType := 15
  const MsgReqRenewAll: MsgType := 16
  // Responses:
  const MsgRespPatronStatus: MsgType := 17
  const MsgRespCheckout: MsgType := 18
  const MsgRespCheckin: MsgType := 19
  const MsgRespStatus: MsgType := 20
  const MsgRespLogin: MsgType := 21
  const MsgRespPatronInformation: MsgType := 22
  const MsgRespEndPatronSession: MsgType := 23
  const MsgRespFeePaid: MsgType := 24
  const MsgRespItemInformation: MsgType := 25
  const MsgRespItemStatusUpdate: MsgType := 26
  const MsgRespPatronEnable: MsgType := 27
  const MsgRespHold: MsgType := 28
  const MsgRespRenew: MsgType := 29
  const MsgRespRenewAll: MsgType := 30

  /**
    A message field type. Fixed-length fields have no wire code and are
    found by their position after the type code; variable-length fields
    carry a two-letter code.
   */
  newtype FieldType = x: int | 0 <= x <= 104

  const FieldUnknown: FieldType := 0
  // Fixed-length fields:
  const FieldAlert: FieldType := 1
  const FieldAvialable: FieldType := 2
  const FieldCardRetained: FieldType := 3
  const FieldChargedItemsCount: FieldType := 4
  const FieldFineItemsCount: FieldType := 5
  const FieldHoldItemsCount: FieldType := 6
  const FieldOverdueItemsCount: FieldType := 7
  const FieldRecallItemsCount: FieldType := 8
  const FieldUnavailableHoldsCount: FieldType := 9
  const FieldCheckinOK: FieldType := 10
  const FieldCheckoutOK: FieldType := 11
  const FieldCirulationStatus: FieldType := 12
  const FieldDateTimeSync: FieldType := 13
  const FieldDesentisize: FieldType := 14
  const FieldEndSession: FieldType := 15
  const FieldHoldMode: FieldType := 16
  const FieldItemPropertiesOK: FieldType := 17
  const FieldLanguage: FieldType := 18
  const FieldMagneticMedia: FieldType := 19
  const FieldMaxPrintWidth: FieldType := 20
  const FieldNbDueDate: FieldType := 21
  const FieldNoBlock: FieldType := 22
  const FieldOffLineOK: FieldType := 23
  const FieldOK: FieldType := 24
  const FieldOnLineStatus: FieldType := 25
  const FieldPatronStatus: FieldType := 26
  const FieldPaymentAccepted: FieldType := 27
  const FieldPaymentType: FieldType := 28
  const FieldProtocolVersion: FieldType := 29
  const FieldPWDAlgorithm: FieldType := 30
  const FieldRenewalOK: FieldType := 31
  const FieldRenewedCount: FieldType := 32
  const FieldResentisize: FieldType := 33
  const FieldRetriesAllowd: FieldType := 34
  const FieldReturnDate: FieldType := 35
  const FieldRenewalPolicy: FieldType := 36
  const FieldSecurityMarker: FieldType := 37
  const FieldStatusCode: FieldType := 38
  const FieldStatusUpdateOK: FieldType := 39
  const FieldSummary: FieldType := 40
  const FieldThirdPartyAllowd: FieldType := 41
  const FieldTimeoutPeriod: FieldType := 42
  const FieldTransactionDate: FieldType := 43
  const FieldUIDAlgorithm: FieldType := 44
  const FieldUnrenewedCount: FieldType := 45
  // Variable-length fields:
  const FieldPatronIdentifier: FieldType := 46
  const FieldItemIdentifier: FieldType := 47
  const FieldTerminalPassword: FieldType := 48
  const FieldPatronPassword: FieldType := 49
  const FieldPersonalName: FieldType := 50
  const FieldScreenMessage: FieldType := 51
  const FieldPrintLine: FieldType := 52
  const FieldDueDate: FieldType := 53
  const FieldTitleIdentifier: FieldType := 54
  const FieldBlockedCardMsg: FieldType := 55
  const FieldLibraryName: FieldType := 56
  const FieldTerminalLocation: FieldType := 57
  const FieldInstitutionID: FieldType := 58
  const FieldCurrentLocation: FieldType := 59
  const FieldPermanentLocation: FieldType := 60
  const FieldHoldItems: FieldType := 61
  const FieldOverdueItems: FieldType := 62
  const FieldChargedItems: FieldType := 63
  const FieldFineItems: FieldType := 64
  const FieldHomeAddress: FieldType := 65
  const FieldEmailAddress: FieldType := 66
  const FieldHomePhoneNumber: FieldType := 67
  const FieldOwner: FieldType := 68
  const FieldCurrenyType: FieldType := 69
  const FieldCancel: FieldType := 70
  const FieldTransactionID: FieldType := 71
  const FieldValidPatron: FieldType := 72
  const FieldRenewedItems: FieldType := 73
  const FieldUnrenewedItems: FieldType := 74
  const FieldFeeAcknowledged: FieldType := 75
  const FieldStartItem: FieldType := 76
  const FieldEndItem: FieldType := 77
  const FieldQueuePosition: FieldType := 78
  const FieldPickupLocation: FieldType := 79
  const FieldFeeType: FieldType := 80
  const FieldRecallItems: FieldType := 81
  const FieldFeeAmount: FieldType := 82
  const FieldExpirationDate: FieldType := 83
  const FieldSupportedMessages: FieldType := 84
  const FieldHoldType: FieldType := 85
  const FieldHoldItemsLimit: FieldType := 86
  const FieldOverdueItemsLimit: FieldType := 87
  const FieldChargedItemsLimit: FieldType := 88
  const FieldFeeLimit: FieldType := 89
  const FieldUnavailableHoldsItems: FieldType := 90
  const FieldHoldQueueLength: FieldType := 91
  const FieldFeeIdentifier: FieldType := 92
  const FieldItemProperties: FieldType := 93
  const FieldSecurityInhibit: FieldType := 94
  const FieldRecallDate: FieldType := 95
  const FieldMediaType: FieldType := 96
  const FieldSortBin: FieldType := 97
  const FieldHoldPickupDate: FieldType := 98
  const FieldLoginUserID: FieldType := 99
  const FieldLoginPassword: FieldType := 100
  const FieldLocationCode: FieldType := 101
  const FieldValidPatronPassword: FieldType := 102
  const FieldSequenceNumber: FieldType := 103
  const FieldChecksum: FieldType := 104

  /**
    A decoded message: its type, the fields that hold one value, and the
    repeatable fields, each with its values in wire order. Values are byte
    strings, as Go strings are.
   */
  datatype Message = Message(
    msgType: MsgType,
    fields: map<FieldType, seq<byte>>,
    repeatableFields: map<FieldType, seq<seq<byte>>>)

  /** The two-digit wire code of a message type; empty for the sentinel. */
  function MsgCode(t: MsgType): string {
    if t == MsgReqPatronStatus then "23"
    else if t == MsgReqCheckout then "11"
    else if t == MsgReqCheckin then "09"
    else if t == MsgReqBlockPatron then "01"
    else if t == MsgReqStatus then "99"
    else if t == MsgReqResend then "97"
    else if t == MsgReqLogin then "93"
    else if t == MsgReqPatronInformation then "63"
    else if t == MsgReqEndPatronSession then "35"
    else if t == MsgReqFeePaid then "37"
    else if t == MsgReqItemInformation then "17"
    else if t == MsgReqItemStatusUpdate then "19"
    else if t == MsgReqPatronEnable then "25"
    else if t == MsgReqHold then "15"
    else if t == MsgReqRenew then "29"
    else if t == MsgReqRenewAll then "65"
    else if t == MsgRespPatronStatus then "24"
    else if t == MsgRespCheckout then "12"
    else if t == MsgRespCheckin then "10"
    else if t == MsgRespStatus then "98"
    else if t == MsgRespLogin then "94"
    else if t == MsgRespPatronInformation then "64"
    else if t == MsgRespEndPatronSession then "36"
    else if t == MsgRespFeePaid then "38"
    else if t == MsgRespItemInformation then "18"
    else if t == MsgRespItemStatusUpdate then "20"
    else if t == MsgRespPatronEnable then "26"
    else if t == MsgRespHold then "16"
    else if t == MsgRespRenew then "30"
    else if t == MsgRespRenewAll then "66"
    else ""
  }

  /** The message type a two-byte code names (`codeToMsg`); the sentinel for every other code. */
  function MsgTypeOf(code: seq<byte>): (t: MsgType)
    ensures t != MsgUnknown ==> |code| == 2 && MsgCode(t) == [code[0] as int as char, code[1] as int as char]
  {
    if |code| != 2 then MsgUnknown
    else
      var second := code[1] as int as char;
      match code[0] as int as char
      case '0' => MsgTypeOf0(second)
      case '1' => MsgTypeOf1(second)
      case '2' => MsgTypeOf2(second)
      case '3' => MsgTypeOf3(second)
      case '6' => MsgTypeOf6(second)
      case '9' => MsgTypeOf9(second)
      case _ => MsgUnknown
  }

  function MsgTypeOf0(second: char): (t: MsgType)
    ensures t != MsgUnknown ==> MsgCode(t) == ['0', second]
  {
    match second
    case '9' => MsgReqCheckin
    case '1' => MsgReqBlockPatron
    case _ => MsgUnknown
  }

  function MsgTypeOf1(second: char): (t: MsgType)
    ensures t != MsgUnknown ==> MsgCode(t) == ['1', second]
  {
    match second
    case '1' => MsgReqCheckout
    case '7' => MsgReqItemInformation
    case '9' => MsgReqItemStatusUpdate
    case '5' => MsgReqHold
    case '2' => MsgRespCheckout
    case '0' => MsgRespCheckin
    case '8' => MsgRespItemInformation
    case '6' => MsgRespHold
    case _ => MsgUnknown
  }

  function MsgTypeOf2(second: char): (t: MsgType)
    ensures t != MsgUnknown ==> MsgCode(t) == ['2', second]
  {
    match second
    case '3' => MsgReqPatronStatus
    case '5' => MsgReqPatronEnable
    case '9' => MsgReqRenew
    case '4' => MsgRespPatronStatus
    case '0' => MsgRespItemStatusUpdate
    case '6' => MsgRespPatronEnable
    case _ => MsgUnknown
  }

  function MsgTypeOf3(second: char): (t: MsgType)
    ensures t != MsgUnknown ==> MsgCode(t) == ['3', second]
  {
    match second
    case '5' => MsgReqEndPatronSession
    case '7' => MsgReqFeePaid
    case '6' => MsgRespEndPatronSession
    case '8' => MsgRespFeePaid
    case '0' => MsgRespRenew
    case _ => MsgUnknown
  }

  function MsgTypeOf6(second: char): (t: MsgType)
    ensures t != MsgUnknown ==> MsgCode(t) == ['6', second]
  {
    match second
    case '3' => MsgReqPatronInformation
    case '5' => MsgReqRenewAll
    case '4' => MsgRespPatronInformation
    case '6' => MsgRespRenewAll
    case _ => MsgUnknown
  }

  function MsgTypeOf9(second: char): (t: MsgType)
    ensures t != MsgUnknown ==> MsgCode(t) == ['9', second]
  {
    match second
    case '9' => MsgReqStatus
    case '7' => MsgReqResend
    case '3' => MsgReqLogin
    case '8' => MsgRespStatus
    case '4' => MsgRespLogin
    case _ => MsgUnknown
  }

  /** The two-letter wire code of a variable-length field; empty for fixed fields and the sentinel. */
  function FieldCode(f: FieldType): string {
    if f == FieldPatronIdentifier then "AA"
    else if f == FieldItemIdentifier then "AB"
    else if f == FieldTerminalPassword then "AC"
    else if f == FieldPatronPassword then "AD"
    else if f == FieldPersonalName then "AE"
    else if f == FieldScreenMessage then "AF"
    else if f == FieldPrintLine then "AG"
    else if f == FieldDueDate then "AH"
    else if f == FieldTitleIdentifier then "AJ"
    else if f == FieldBlockedCardMsg then "AL"
    else if f == FieldLibraryName then "AM"
    else if f == FieldTerminalLocation then "AN"
    else if f == FieldInstitutionID then "AO"
    else if f == FieldCurrentLocation then "AP"
    else if f == FieldPermanentLocation then "AQ"
    else if f == FieldHoldItems then "AS"
    else if f == FieldOverdueItems then "AT"
    else if f == FieldChargedItems then "AU"
    else if f == FieldFineItems then "AV"
    else if f == FieldHomeAddress then "BD"
    else if f == FieldEmailAddress then "BE"
    else if f == FieldHomePhoneNumber then "BF"
    else if f == FieldOwner then "BG"
    else if f == FieldCurrenyType then "BH"
    else if f == FieldCancel then "BI"
    else if f == FieldTransactionID then "BK"
    else if f == FieldValidPatron then "BL"
    else if f == FieldRenewedItems then "BM"
    else if f == FieldUnrenewedItems then "BN"
    else if f == FieldFeeAcknowledged then "BO"
    else if f == FieldStartItem then "BP"
    else if f == FieldEndItem then "BQ"
    else if f == FieldQueuePosition then "BR"
    else if f == FieldPickupLocation then "BS"
    else if f == FieldFeeType then "BT"
    else if f == FieldRecallItems then "BU"
    else if f == FieldFeeAmount then "BV"
    else if f == FieldExpirationDate then "BW"
    else if f == FieldSupportedMessages then "BX"
    else if f == FieldHoldType then "BY"
    else if f == FieldHoldItemsLimit then "BZ"
    else if f == FieldOverdueItemsLimit then "CA"
    else if f == FieldChargedItemsLimit then "CB"
    else if f == FieldFeeLimit then "CC"
    else if f == FieldUnavailableHoldsItems then "CD"
    else if f == FieldHoldQueueLength then "CF"
    else if f == FieldFeeIdentifier then "CG"
    else if f == FieldItemProperties then "CH"
    else if f == FieldSecurityInhibit then "CI"
    else if f == FieldRecallDate then "CJ"
    else if f == FieldMediaType then "CK"
    else if f == FieldSortBin then "CL"
    else if f == FieldHoldPickupDate then "CM"
    else if f == FieldLoginUserID then "CN"
    else if f == FieldLoginPassword then "CO"
    else if f == FieldLocationCode then "CP"
    else if f == FieldValidPatronPassword then "CQ"
    else if f == FieldSequenceNumber then "AY"
    else if f == FieldChecksum then "AZ"
    else ""
  }

  /** The field type a two-byte code names (`codeToField`); the sentinel for every other code. */
  function FieldTypeOf(code: seq<byte>): (f: FieldType)
    ensures f != FieldUnknown ==> |code| == 2 && FieldCode(f) == [code[0] as int as char, code[1] as int as char]
  {
    if |code| != 2 then FieldUnknown
    else
      var second := code[1] as int as char;
      match code[0] as int as char
      case 'A' => FieldTypeOfA(second)
      case 'B' => FieldTypeOfB(second)
      case 'C' => FieldTypeOfC(second)
      case _ => FieldUnknown
  }

  function FieldTypeOfA(second: char): (f: FieldType)
    ensures f != FieldUnknown ==> FieldCode(f) == ['A', second]
  {
    match second
    case 'A' => FieldPatronIdentifier
    case 'B' => FieldItemIdentifier
    case 'C' => FieldTerminalPassword
    case 'D' => FieldPatronPassword
    case 'E' => FieldPersonalName
    case 'F' => FieldScreenMessage
    case 'G' => FieldPrintLine
    case 'H' => FieldDueDate
    case 'J' => FieldTitleIdentifier
    case 'L' => FieldBlockedCardMsg
    case 'M' => FieldLibraryName
    case 'N' => FieldTerminalLocation
    case 'O' => FieldInstitutionID
    case 'P' => FieldCurrentLocation
    case 'Q' => FieldPermanentLocation
    case 'S' => FieldHoldItems
    case 'T' => FieldOverdueItems
    case 'U' => FieldChargedItems
    case 'V' => FieldFineItems
    case 'Y' => FieldSequenceNumber
    case 'Z' => FieldChecksum
    case _ => FieldUnknown
  }

  function FieldTypeOfB(second: char): (f: FieldType)
    ensures f != FieldUnknown ==> FieldCode(f) == ['B', second]
  {
    match second
    case 'D' => FieldHomeAddress
    case 'E' => FieldEmailAddress
    case 'F' => FieldHomePhoneNumber
    case 'G' => FieldOwner
    case 'H' => FieldCurrenyType
    case 'I' => FieldCancel
    case 'K' => FieldTransactionID
    case 'L' => FieldValidPatron
    case 'M' => FieldRenewedItems
    case 'N' => FieldUnrenewedItems
    case 'O' => FieldFeeAcknowledged
    case 'P' => FieldStartItem
    case 'Q' => FieldEndItem
    case 'R' => FieldQueuePosition
    case 'S' => FieldPickupLocation
    case 'T' => FieldFeeType
    case 'U' => FieldRecallItems
    case 'V' => FieldFeeAmount
    case 'W' => FieldExpirationDate
    case 'X' => FieldSupportedMessages
    case 'Y' => FieldHoldType
    case 'Z' => FieldHoldItemsLimit
    case _ => FieldUnknown
  }

  function FieldTypeOfC(second: char): (f: FieldType)
    ensures f != FieldUnknown ==> FieldCode(f) == ['C', second]
  {
    match second
    case 'A' => FieldOverdueItemsLimit
    case 'B' => FieldChargedItemsLimit
    case 'C' => FieldFeeLimit
    case 'D' => FieldUnavailableHoldsItems
    case 'F' => FieldHoldQueueLength
    case 'G' => FieldFeeIdentifier
    case 'H' => FieldItemProperties
    case 'I' => FieldSecurityInhibit
    case 'J' => FieldRecallDate
    case 'K' => FieldMediaType
    case 'L' => FieldSortBin
    case 'M' => FieldHoldPickupDate
    case 'N' => FieldLoginUserID
    case 'O' => FieldLoginPassword
    case 'P' => FieldLocationCode
    case 'Q' => FieldValidPatronPassword
    case _ => FieldUnknown
  }

  /**
    The byte width of a fixed-length field (`fixedFieldLengths`); 0, what a
    Go map yields for a missing key, for every other field.
   */
  function FixedWidth(f: FieldType): nat {
    if f == FieldAlert then 1
    else if f == FieldAvialable then 1
    else if f == FieldCardRetained then 1
    else if f == FieldChargedItemsCount then 4
    else if f == FieldFineItemsCount then 4
    else if f == FieldHoldItemsCount then 4
    else if f == FieldOverdueItemsCount then 4
    else if f == FieldRecallItemsCount then 4
    else if f == FieldUnavailableHoldsCount then 4
    else if f == FieldCheckinOK then 1
    else if f == FieldCheckoutOK then 1
    else if f == FieldCirulationStatus then 2
    else if f == FieldDateTimeSync then 18
    else if f == FieldDesentisize then 1
    else if f == FieldEndSession then 1
    else if f == FieldHoldMode then 1
    else if f == FieldItemPropertiesOK then 1
    else if f == FieldLanguage then 3
    else if f == FieldMagneticMedia then 1
    else if f == FieldMaxPrintWidth then 3
    else if f == FieldNbDueDate then 18
    else if f == FieldNoBlock then 1
    else if f == FieldOffLineOK then 1
    else if f == FieldOK then 1
    else if f == FieldOnLineStatus then 1
    else if f == FieldPatronStatus then 14
    else if f == FieldPaymentAccepted then 1
    else if f == FieldPaymentType then 2
    else if f == FieldProtocolVersion then 4
    else if f == FieldPWDAlgorithm then 1
    else if f == FieldRenewalOK then 1
    else if f == FieldRenewedCount then 4
    else if f == FieldResentisize then 1
    else if f == FieldRetriesAllowd then 3
    else if f == FieldReturnDate then 18
    else if f == FieldRenewalPolicy then 1
    else if f == FieldSecurityMarker then 2
    else if f == FieldStatusCode then 1
    else if f == FieldStatusUpdateOK then 1
    else if f == FieldSummary then 10
    else if f == FieldThirdPartyAllowd then 1
    else if f == FieldTimeoutPeriod then 3
    else if f == FieldTransactionDate then 18
    else if f == FieldUIDAlgorithm then 1
    else if f == FieldUnrenewedCount then 4
    else 0
  }

  /**
    Each named message type has a two-digit code, and that code resolves
    back to the type.
   */
  lemma MsgCodeResolves(t: MsgType)
    requires t != MsgUnknown
    ensures |MsgCode(t)| == 2 && '0' <= MsgCode(t)[0] <= '9' && '0' <= MsgCode(t)[1] <= '9'
    ensures MsgTypeOf(Bytes(MsgCode(t))) == t
  {
  }

  /** The thirty message codes are pairwise distinct, so `codeToMsg` is well defined. */
  lemma MsgCodesDistinct(t1: MsgType, t2: MsgType)
    requires t1 != MsgUnknown && t2 != MsgUnknown && t1 != t2
    ensures MsgCode(t1) != MsgCode(t2)
  {
    MsgCodeResolves(t1);
    MsgCodeResolves(t2);
  }

  /** A code resolves to a named message type only if it is exactly that type's code. */
  lemma MsgTypeOfInverse(code: seq<byte>)
    requires MsgTypeOf(code) != MsgUnknown
    ensures |MsgCode(MsgTypeOf(code))| == 2
    ensures Bytes(MsgCode(MsgTypeOf(code))) == code
  {
    MsgCodeResolves(MsgTypeOf(code));
    var c := Bytes(MsgCode(MsgTypeOf(code)));
    assert c[0] == code[0] && c[1] == code[1];
  }

  /**
    Each variable-length field has a two-letter code, and that code resolves
    back to the field.
   */
  lemma FieldCodeResolves(f: FieldType)
    requires FieldCode(f) != ""
    ensures |FieldCode(f)| == 2 && 'A' <= FieldCode(f)[0] <= 'Z' && 'A' <= FieldCode(f)[1] <= 'Z'
    ensures FieldTypeOf(Bytes(FieldCode(f))) == f
  {
    if f <= FieldPermanentLocation {
      FieldCodeResolvesFromPatronIdentifier(f);
    } else if f <= FieldFeeAcknowledged {
      FieldCodeResolvesFromHoldItems(f);
    } else if f <= FieldUnavailableHoldsItems {
      FieldCodeResolvesFromStartItem(f);
    } else {
      FieldCodeResolvesFromHoldQueueLength(f);
    }
  }

  /** `FieldCodeResolves` for the fields FieldPatronIdentifier to FieldPermanentLocation, case by case. */
  lemma FieldCodeResolvesFromPatronIdentifier(f: FieldType)
    requires FieldPatronIdentifier <= f <= FieldPermanentLocation
    ensures |FieldCode(f)| == 2 && 'A' <= FieldCode(f)[0] <= 'Z' && 'A' <= FieldCode(f)[1] <= 'Z'
    ensures FieldTypeOf(Bytes(FieldCode(f))) == f
  {
    if f == FieldPatronIdentifier {
    } else if f == FieldItemIdentifier {
    } else if f == FieldTerminalPassword {
    } else if f == FieldPatronPassword {
    } else if f == FieldPersonalName {
    } else if f == FieldScreenMessage {
    } else if f == FieldPrintLine {
    } else if f == FieldDueDate {
    } else if f == FieldTitleIdentifier {
    } else if f == FieldBlockedCardMsg {
    } else if f == FieldLibraryName {
    } else if f == FieldTerminalLocation {
    } else if f == FieldInstitutionID {
    } else if f == FieldCurrentLocation {
    } else {
    }
  }

  /** `FieldCodeResolves` for the fields FieldHoldItems to FieldFeeAcknowledged, case by case. */
  lemma FieldCodeResolvesFromHoldItems(f: FieldType)
    requires FieldHoldItems <= f <= FieldFeeAcknowledged
    ensures |FieldCode(f)| == 2 && 'A' <= FieldCode(f)[0] <= 'Z' && 'A' <= FieldCode(f)[1] <= 'Z'
    ensures FieldTypeOf(Bytes(FieldCode(f))) == f
  {
    if f == FieldHoldItems {
    } else if f == FieldOverdueItems {
    } else if f == FieldChargedItems {
    } else if f == FieldFineItems {
    } else if f == FieldHomeAddress {
    } else if f == FieldEmailAddress {
    } else if f == FieldHomePhoneNumber {
    } else if f == FieldOwner {
    } else if f == FieldCurrenyType {
    } else if f == FieldCancel {
    } else if f == FieldTransactionID {
    } else if f == FieldValidPatron {
    } else if f == FieldRenewedItems {
    } else if f == FieldUnrenewedItems {
    } else {
    }
  }

  /** `FieldCodeResolves` for the fields FieldStartItem to FieldUnavailableHoldsItems, case by case. */
  lemma FieldCodeResolvesFromStartItem(f: FieldType)
    requires FieldStartItem <= f <= FieldUnavailableHoldsItems
    ensures |FieldCode(f)| == 2 && 'A' <= FieldCode(f)[0] <= 'Z' && 'A' <= FieldCode(f)[1] <= 'Z'
    ensures FieldTypeOf(Bytes(FieldCode(f))) == f
  {
    if f == FieldStartItem {
    } else if f == FieldEndItem {
    } else if f == FieldQueuePosition {
    } else if f == FieldPickupLocation {
    } else if f == FieldFeeType {
    } else if f == FieldRecallItems {
    } else if f == FieldFeeAmount {
    } else if f == FieldExpirationDate {
    } else if f == FieldSupportedMessages {
    } else if f == FieldHoldType {
    } else if f == FieldHoldItemsLimit {
    } else if f == FieldOverdueItemsLimit {
    } else if f == FieldChargedItemsLimit {
    } else if f == FieldFeeLimit {
    } else {
    }
  }

  /** `FieldCodeResolves` for the fields FieldHoldQueueLength to FieldChecksum, case by case. */
  lemma FieldCodeResolvesFromHoldQueueLength(f: FieldType)
    requires FieldHoldQueueLength <= f <= FieldChecksum
    ensures |FieldCode(f)| == 2 && 'A' <= FieldCode(f)[0] <= 'Z' && 'A' <= FieldCode(f)[1] <= 'Z'
    ensures FieldTypeOf(Bytes(FieldCode(f))) == f
  {
    if f == FieldHoldQueueLength {
    } else if f == FieldFeeIdentifier {
    } else if f == FieldItemProperties {
    } else if f == FieldSecurityInhibit {
    } else if f == FieldRecallDate {
    } else if f == FieldMediaType {
    } else if f == FieldSortBin {
    } else if f == FieldHoldPickupDate {
    } else if f == FieldLoginUserID {
    } else if f == FieldLoginPassword {
    } else if f == FieldLocationCode {
    } else if f == FieldValidPatronPassword {
    } else if f == FieldSequenceNumber {
    } else {
    }
  }

  /** The variable-length field codes are pairwise distinct, so `codeToField` is well defined. */
  lemma FieldCodesDistinct(f1: FieldType, f2: FieldType)
    requires FieldCode(f1) != "" && FieldCode(f2) != "" && f1 != f2
    ensures FieldCode(f1) != FieldCode(f2)
  {
    FieldCodeResolves(f1);
    FieldCodeResolves(f2);
  }

  /** A code resolves to a named field only if it is exactly that field's code. */
  lemma FieldTypeOfInverse(code: seq<byte>)
    requires FieldTypeOf(code) != FieldUnknown
    ensures FieldCode(FieldTypeOf(code)) != ""
    ensures Bytes(FieldCode(FieldTypeOf(code))) == code
  {
    FieldCodeResolves(FieldTypeOf(code));
    var c := Bytes(FieldCode(FieldTypeOf(code)));
    assert c[0] == code[0] && c[1] == code[1];
  }

  /**
    Every field other than the sentinel is exactly one of two kinds: a
    fixed-length field, with no code and one of the protocol's widths; or a
    variable-length field, with a code and no width.
   */
  lemma FieldKinds(f: FieldType)
    ensures FixedWidth(f) > 0 ==> FieldCode(f) == "" && FixedWidth(f) in {1, 2, 3, 4, 10, 14, 18}
    ensures FieldCode(f) != "" ==> FixedWidth(f) == 0
    ensures f == FieldUnknown <==> FixedWidth(f) == 0 && FieldCode(f) == ""
  {
  }

  /** No wire code resolves to a fixed-length field. */
  lemma CodedFieldIsVariable(code: seq<byte>)
    ensures FixedWidth(FieldTypeOf(code)) == 0
  {
    FieldKinds(FieldTypeOf(code));
  }
}
