/** The wire constants shared by client and server (shared/Protocol). */
module Protocol {

  const CmdPost := "POST"
  const CmdGet := "GET"
  const CmdPin := "PIN"
  const CmdUnpin := "UNPIN"
  const CmdShake := "SHAKE"
  const CmdClear := "CLEAR"
  const CmdDisconnect := "DISCONNECT"

  /** The command words, in the order the parser tries them. */
  const Commands: seq<string> := [CmdPost, CmdGet, CmdPin, CmdUnpin, CmdShake, CmdClear, CmdDisconnect]

  const GetPins := "PINS"

  const RespOk := "OK"
  const RespError := "ERROR"
  const RespBoard := "BOARD"
  const RespNote := "NOTE"
  /** Spelled with a lower-case prefix in the source. */
  const RespColours := "colourS"

  const ErrInvalidFormat := "INVALID_FORMAT"
  const ErrOutOfBounds := "OUT_OF_BOUNDS"
  /** Spelled with a lower-case prefix in the source. */
  const ErrColourNotSupported := "colour_NOT_SUPPORTED"
  const ErrCompleteOverlap := "COMPLETE_OVERLAP"
  const ErrPinNotFound := "PIN_NOT_FOUND"
  const ErrNoNoteAtCoordinate := "NO_NOTE_AT_COORDINATE"
  const ErrUnknownCommand := "UNKNOWN_COMMAND"
  const ErrInternalError := "INTERNAL_ERROR"

  /** Field delimiter, list separator and line terminator. */
  const Delimiter: char := ' '
  const ListSeparator: char := ';'
  const LineEnd := "\n"

  const FilterColour := "color="
  const FilterContains := "contains="
  const FilterRefersTo := "refersTo="
}
