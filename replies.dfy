/** FTP replies: the reply codes the server uses (the FTPReplyCode names, with
    the numeric values that section 4.2 of RFC 959 gives them) and the control
    connection's line format. */
module Replies {
  import opened Text

  const ServiceReady := 220                  // SERVICE_READY_FOR_NEW_USER
  const ServiceClosing := 221                // SERVICE_CLOSING_CONTROL_CONNECTION
  const ClosingDataConnection := 226         // CLOSING_DATA_CONNECTION
  const EnteringPassiveMode := 227           // ENTERING_PASSIVE_MODE
  const UserLoggedIn := 230                  // USER_LOGGED_IN
  const FileActionCompleted := 250           // FILE_ACTION_COMPLETED
  const PathnameCreated := 257               // PATHNAME_CREATED
  const CommandOk := 200                     // COMMAND_OK
  const FileStatus := 213                    // FILE_STATUS
  const NameSystemType := 215                // NAME_SYSTEM_TYPE
  const OpeningDataConnection := 150         // FILE_STATUS_OK_OPENING_DATA_CONNECTION
  const UserNameOk := 331                    // USER_NAME_OK
  const NeedsFurtherInfo := 350              // FILE_ACTION_NEEDS_FURTHER_INFO
  const ServiceNotAvailable := 421           // SERVICE_NOT_AVAILABLE
  const CannotOpenDataConnection := 425      // ERROR_OPENING_DATA_CONNECTION
  const TransferAborted := 426               // TRANSFER_ABORTED
  const FileActionNotTaken := 450            // FILE_ACTION_NOT_TAKEN
  const LocalError := 451                    // ACTION_ABORTED_LOCAL_ERROR
  const UnrecognizedCommand := 500           // SYNTAX_ERROR_UNRECOGNIZED_COMMAND
  const ParameterError := 501                // SYNTAX_ERROR_PARAMETERS
  const NotImplemented := 502                // COMMAND_NOT_IMPLEMENTED
  const BadSequence := 503                   // COMMANDS_BAD_SEQUENCE
  const NotImplementedForParameter := 504    // COMMAND_NOT_IMPLEMENTED_FOR_PARAMETER
  const NotLoggedIn := 530                   // NOT_LOGGED_IN
  const ActionNotTaken := 550                // ACTION_NOT_TAKEN
  const FilenameNotAllowed := 553            // ACTION_NOT_TAKEN_FILENAME_NOT_ALLOWED

  /** An FTPMsgs value on the server, an FTPMsg pair on the client. */
  datatype Reply = Reply(code: int, text: string)

  /** A server reply as a three-digit code. */
  predicate WellFormed(r: Reply) {
    100 <= r.code <= 999 && NoCrlf(r.text)
  }

  /** The line a reply occupies on the control connection: code, a space, the
      text, CRLF. */
  function Wire(r: Reply): (line: string)
    requires 100 <= r.code <= 999
    ensures |line| == 3 + 1 + |r.text| + 2
    ensures line[3] == ' ' && line[4..|line| - 2] == r.text && line[|line| - 2..] == "\r\n"
  {
    ThreeDigits(r.code);
    NatToString(r.code) + " " + r.text + "\r\n"
  }

  lemma ThreeDigits(n: nat)
    requires 100 <= n <= 999
    ensures |NatToString(n)| == 3
  {
    assert NatToString(n) == NatToString(n / 10) + [DigitChar(n % 10)];
    assert NatToString(n / 10) == NatToString(n / 100) + [DigitChar(n / 10 % 10)];
  }
}
