/** Shared vocabulary of the console model: optional values, the signed byte
    the terminal delivers, the byte/character correspondence of a
    `std::string`, and the events the console reports. */
module Base {

  /** Stands for a `size_t(-1)` "unset" sentinel or a `nullptr` result. */
  datatype Option<T> = None | Some(value: T)

  /** A C `char` as read from the terminal: a signed 8-bit value. */
  type SByte = b: int | -128 <= b < 128

  /** True when every character of `s` is one byte of a `std::string`. */
  predicate IsByteString(s: string)
  {
    forall i :: 0 <= i < |s| ==> s[i] as int < 256
  }

  /** The character a signed byte stands for inside a `std::string`. */
  function ByteToChar(b: SByte): (c: char)
    ensures c as int < 256
    ensures b >= 0 ==> c as int == b
    ensures b < 0 ==> c as int == b + 256
  {
    if b < 0 then (b + 256) as char else b as char
  }

  /** The signed byte a one-byte character is stored as. */
  function CharToByte(c: char): (b: SByte)
    requires c as int < 256
    ensures ByteToChar(b) == c
  {
    if c as int >= 128 then c as int - 256 else c as int
  }

  lemma ByteCharRoundTrip(b: SByte)
    ensures CharToByte(ByteToChar(b)) == b
  {
  }

  /** What the console reports or does, in the order it happens. */
  datatype Event =
    | Executed(index: nat)         // the command at this registry index ran
    | UnknownCommandReported       // print::error(ERROR_UNKNOWN_COMMAND)
    | CommandTooLongReported       // print::error(ERROR_COMMAND_TOO_LONG)
}
