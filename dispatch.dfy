/** How a control-connection line becomes a verb and a parameter
    (`readFTPCmd` and the head of `handleFTPCmd`). */
module Dispatch {
  import opened Wrappers
  import opened Text

  /** A key of `handleFTPCmd`'s table. */
  datatype Verb =
    | UADD | USER | NOTI | PASS | ACCT | CWD | CDUP | REIN | QUIT
    | PORT | PASV | TYPE | STRU | MODE
    | RETR | STOR | SIZE | STOU | APPE | ALLO | REST | RNFR | RNTO
    | ABOR | DELE | RMD | MKD | PWD | LIST | NLST | SITE | SYST
    | STAT | HELP | NOOP

  /** The name under which the table holds the verb. */
  function VerbName(v: Verb): (s: string)
    ensures |s| == 3 || |s| == 4
  {
    match v
    case UADD => "UADD"
    case USER => "USER"
    case NOTI => "NOTI"
    case PASS => "PASS"
    case ACCT => "ACCT"
    case CWD => "CWD"
    case CDUP => "CDUP"
    case REIN => "REIN"
    case QUIT => "QUIT"
    case PORT => "PORT"
    case PASV => "PASV"
    case TYPE => "TYPE"
    case STRU => "STRU"
    case MODE => "MODE"
    case RETR => "RETR"
    case STOR => "STOR"
    case SIZE => "SIZE"
    case STOU => "STOU"
    case APPE => "APPE"
    case ALLO => "ALLO"
    case REST => "REST"
    case RNFR => "RNFR"
    case RNTO => "RNTO"
    case ABOR => "ABOR"
    case DELE => "DELE"
    case RMD => "RMD"
    case MKD => "MKD"
    case PWD => "PWD"
    case LIST => "LIST"
    case NLST => "NLST"
    case SITE => "SITE"
    case SYST => "SYST"
    case STAT => "STAT"
    case HELP => "HELP"
    case NOOP => "NOOP"
  }

  /** The keys of `cmdMap`, in the order the table lists them. */
  const VerbTable: seq<Verb> := [
    UADD, USER, NOTI, PASS, ACCT, CWD, CDUP, REIN, QUIT,
    PORT, PASV, TYPE, STRU, MODE,
    RETR, STOR, SIZE, STOU, APPE, ALLO, REST, RNFR, RNTO,
    ABOR, DELE, RMD, MKD, PWD, LIST, NLST, SITE, SYST,
    STAT, HELP, NOOP
  ]

  /** Every verb is a key of the table. */
  lemma VerbInTable(v: Verb)
    ensures v in VerbTable
  {
  }

  /** `cmdMap.find`: the verb named by an upper-cased command word, or None
      when the table has no such key. */
  function ParseVerb(s: string): (r: Option<Verb>)
    ensures r.Some? ==> VerbName(r.value) == s
    ensures r.None? ==> forall v :: VerbName(v) != s
  {
    var r := FindVerb(s, 0);
    if r.None? then
      assert forall v :: VerbName(v) != s by {
        forall v ensures VerbName(v) != s {
          VerbInTable(v);
        }
      }
      r
    else r
  }

  /** The search of the table from position `k`. */
  function FindVerb(s: string, k: nat): (r: Option<Verb>)
    requires k <= |VerbTable|
    ensures r.Some? ==> VerbName(r.value) == s
    ensures r.None? ==> forall i :: k <= i < |VerbTable| ==> VerbName(VerbTable[i]) != s
    decreases |VerbTable| - k
  {
    if k == |VerbTable| then None
    else if VerbName(VerbTable[k]) == s then Some(VerbTable[k])
    else FindVerb(s, k + 1)
  }

  /** The line handed to `handleFTPCmd` when `async_read_until` completes with
      `buffer`: everything before the first CRLF. Bytes that came after it in
      the same read are dropped with the buffer. */
  function ReadCommandLine(buffer: string): (r: Option<string>)
    ensures r.Some? <==> FindCrlf(buffer).Some?
    ensures r.Some? ==> |r.value| + 2 <= |buffer| && NoCrlf(r.value)
                        && buffer[..|r.value|] == r.value && buffer[|r.value|..|r.value| + 2] == "\r\n"
  {
    match FindCrlf(buffer) {
      case None => None
      case Some(i) =>
        assert NoCrlf(buffer[..i]) by {
          forall j | 0 <= j < i - 1 ensures !(buffer[..i][j] == '\r' && buffer[..i][j + 1] == '\n') {
          }
        }
        Some(buffer[..i])
    }
  }

  datatype Command = Command(verb: string, param: string)

  /** The line cut at its first space: the verb is the part before it,
      upper-cased; the parameter is everything after it, or "" when the line
      has no space. */
  function SplitCommand(line: string): (c: Command)
    requires |line| < NPOS // as every std::string is
    ensures ' ' !in line ==> c == Command(UpperString(line), "")
    ensures ' ' in line ==> exists i :: (0 <= i < |line| && line[i] == ' ' && ' ' !in line[..i]
      && c == Command(UpperString(line[..i]), line[i + 1..]))
  {
    var spaceIdx := FindChar(line, ' ', 0);
    FindCharFirst(line, ' ', 0);
    var ftpCmd := SubStr(line, 0, spaceIdx).value;
    var param := if spaceIdx != NPOS then SubStr(line, spaceIdx + 1, NPOS).value else "";
    if spaceIdx == NPOS then
      Command(UpperString(ftpCmd), param)
    else
      assert ' ' !in line[..spaceIdx] by {
        forall j | 0 <= j < spaceIdx ensures line[..spaceIdx][j] != ' ' {
          assert line[..spaceIdx][j] == line[j];
        }
      }
      Command(UpperString(ftpCmd), param)
  }

  /** `VERB SP param`, as a client writes it, splits back into its parts. */
  lemma SplitFormatted(verb: string, param: string)
    requires ' ' !in verb && |verb| + 1 + |param| < NPOS
    ensures SplitCommand(verb + " " + param) == Command(UpperString(verb), param)
  {
    var line := verb + " " + param;
    assert line[|verb|] == ' ';
    assert line[..|verb|] == verb && line[|verb| + 1..] == param;
    var c := SplitCommand(line);
    var i :| 0 <= i < |line| && line[i] == ' ' && ' ' !in line[..i]
      && c == Command(UpperString(line[..i]), line[i + 1..]);
  }
}
