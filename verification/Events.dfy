/** The handler events of a JSON reader, kept as a log, and its error codes. */
module Events {
  import opened Bytes

  datatype Event =
    | NullEvent
    | BoolEvent(b: bool)
    | IntEvent(i: int)
    | UintEvent(u: nat)
    | Int64Event(i64: int)
    | Uint64Event(u64: nat)
    | DoubleEvent(literal: bytes)  // the literal stands for the double it denotes
    | StringEvent(str: bytes)
    | StartObjectEvent
    | KeyEvent(name: bytes)
    | EndObjectEvent(memberCount: nat)
    | StartArrayEvent
    | EndArrayEvent(elementCount: nat)

  datatype ParseError =
    | NoError
    | DocumentEmpty
    | DocumentRootNotSingular
    | ValueInvalid
    | ObjectMissName
    | ObjectMissColon
    | ObjectMissCommaOrCurlyBracket
    | ArrayMissCommaOrSquareBracket
    | StringUnicodeEscapeInvalidHex
    | StringUnicodeSurrogateInvalid
    | StringEscapeInvalid
    | StringMissQuotationMark
    | StringInvalidEncoding
    | NumberTooBig
    | NumberMissFraction
    | NumberMissExponent
}
