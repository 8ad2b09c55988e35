/** The parts of the session's command handling that depend on no session
    state: the fixed replies, the NOTI port, the roster rule after a command,
    and what an upload leaves in the file. */
module Commands {
  import opened Wrappers
  import opened Text
  import opened Paths
  import opened FileSystem
  import opened LoggedUsers
  import opened Replies
  import opened Dispatch
  import Transfer

  /** A reply whose code has the three digits the wire format needs. */
  predicate HasCode(r: Reply) { 100 <= r.code <= 999 }

  /** The verbs whose handler answers without looking at the session. */
  predicate IsFixedVerb(v: Verb) {
    v in {ACCT, REIN, PORT, STRU, MODE, STOU, ALLO, REST, ABOR, SITE, SYST, STAT, HELP, NOOP}
  }

  /** The replies of the commands the server accepts but does not implement,
      and of SYST and NOOP. Every other fixed verb is refused: with 500 for
      ACCT, STRU, MODE, PORT, STOU, ALLO and SITE, with 502 for the rest. */
  function FixedReply(verb: Verb): (r: Option<Reply>)
    ensures r.Some? <==> IsFixedVerb(verb)
    ensures r.Some? ==> HasCode(r.value)
    ensures verb in {ACCT, STRU, MODE, PORT, STOU, ALLO, SITE} ==> r.Some? && r.value.code == UnrecognizedCommand
    ensures verb in {REIN, REST, ABOR, STAT, HELP} ==> r.Some? && r.value.code == NotImplemented
    ensures verb == SYST ==> r == Some(Reply(NameSystemType, "LINUX"))
    ensures verb == NOOP ==> r.Some? && r.value.code == CommandOk
  {
    match verb
    case ACCT | STRU | MODE => Some(Reply(UnrecognizedCommand, "Unsupported command"))
    case REIN => Some(Reply(NotImplemented, "Unsupported command"))
    case PORT => Some(Reply(UnrecognizedCommand, "FTP active mode is not supported by this server"))
    case STOU | ALLO | SITE => Some(Reply(UnrecognizedCommand, "Command not implemented"))
    case REST | ABOR | STAT | HELP => Some(Reply(NotImplemented, "Command not implemented"))
    case SYST => Some(Reply(NameSystemType, "LINUX"))
    case NOOP => Some(Reply(CommandOk, "OK"))
    case _ => None
  }

  /** NOTI's port: `std::stoi` of the parameter (None where it throws),
      narrowed to `uint16_t`. */
  function NotiPort(para: string): (r: Option<nat>)
    ensures r.Some? <==> Stoi(para).Some?
    ensures r.Some? ==> r.value < 0x1_0000 && (r.value - Stoi(para).value) % 0x1_0000 == 0
  {
    match Stoi(para) {
      case None => None
      case Some(n) => Some(n % 0x1_0000)
    }
  }

  /** A port number written in decimal comes back as itself; a larger number
      wraps round modulo 65536. */
  lemma NotiPortOfDecimal(n: nat)
    requires n <= IntMax
    ensures NotiPort(NatToString(n)) == Some(n % 0x1_0000)
    ensures n < 0x1_0000 ==> NotiPort(NatToString(n)) == Some(n)
  {
    StoiOfNatToString(n);
    NotiPortOf(NatToString(n), n);
    if n < 0x1_0000 {
      SmallModulus(n);
    }
  }

  lemma SmallModulus(n: nat)
    requires n < 0x1_0000
    ensures n % 0x1_0000 == n
  {
  }

  lemma NotiPortOf(para: string, n: int)
    requires Stoi(para) == Some(n)
    ensures NotiPort(para) == Some(n % 0x1_0000)
  {
  }

  // The roster after a command

  /** As written: every recognised command joins the session to the roster
      after its handler ran, so QUIT's own leave is undone at once. */
  function RosterAfterAsWritten(members: set<SessionId>, id: SessionId, verb: Verb): (r: set<SessionId>)
    ensures id in r
  {
    (if verb == QUIT then members - {id} else members) + {id}
  }

  /** A session that has quit is back in the roster, and keeps receiving
      every other session's notices. */
  lemma QuitRejoins(members: set<SessionId>, id: SessionId)
    ensures id in RosterAfterAsWritten(members, id, QUIT)
    ensures RosterAfterAsWritten(members, id, QUIT) == members + {id}
  {
  }

  /** As intended: QUIT takes the session out of the roster, every other
      recognised command keeps it in, and no other session is touched. */
  function RosterAfter(members: set<SessionId>, id: SessionId, verb: Verb): (r: set<SessionId>)
    ensures id in r <==> verb != QUIT
    ensures r - {id} == members - {id}
  {
    if verb == QUIT then members - {id} else members + {id}
  }

  /** The two rules differ exactly on QUIT. */
  lemma RosterRulesAgree(members: set<SessionId>, id: SessionId, verb: Verb)
    ensures RosterAfterAsWritten(members, id, verb) == RosterAfter(members, id, verb) <==> verb != QUIT
  {
    if verb == QUIT {
      assert id !in RosterAfter(members, id, verb);
    }
  }

  // The file written by an upload

  /** The file after the received pieces `cs` were written to it one by one. */
  function AppendAll(t: Tree, p: Path, cs: seq<seq<byte>>): (r: Tree)
    requires FileSystem.WellFormed(t)
    ensures FileSystem.WellFormed(r)
    decreases |cs|
  {
    if cs == [] then t else AppendAll(AppendData(t, p, cs[0]), p, cs[1..])
  }

  /** Writing nothing leaves the tree as it was. */
  lemma AppendNothing(t: Tree, p: Path)
    requires FileSystem.WellFormed(t)
    ensures AppendData(t, p, []) == t
  {
    if IsRegularFile(t, p) {
      assert t[p].data + [] == t[p].data;
      assert t[p := File(t[p].data, t[p].mode)] == t;
    }
  }

  /** Writing the received pieces one by one leaves the file with all of
      them, in order. */
  lemma {:induction false} AppendAllFlatten(t: Tree, p: Path, cs: seq<seq<byte>>)
    requires FileSystem.WellFormed(t)
    ensures AppendAll(t, p, cs) == AppendData(t, p, Transfer.Flatten(cs))
    decreases |cs|
  {
    if cs == [] {
      AppendNothing(t, p);
    } else {
      AppendAllFlatten(AppendData(t, p, cs[0]), p, cs[1..]);
      AppendDataTwice(t, p, cs[0], Transfer.Flatten(cs[1..]));
    }
  }

  /** STOR truncates the file, so after the upload it holds exactly the
      bytes received, and APPE keeps the old bytes in front of them. */
  lemma UploadedFile(t: Tree, p: Path, cs: seq<seq<byte>>)
    requires FileSystem.WellFormed(t) && IsCanonical(p)
    ensures OpenTruncate(t, p).Some? ==>
      var u := AppendAll(OpenTruncate(t, p).value, p, cs);
      IsRegularFile(u, p) && u[p].data == Transfer.Flatten(cs)
    ensures CanAppend(t, p) ==>
      var u := AppendAll(t, p, cs);
      IsRegularFile(u, p) && u[p].data == t[p].data + Transfer.Flatten(cs)
  {
    if OpenTruncate(t, p).Some? {
      AppendAllFlatten(OpenTruncate(t, p).value, p, cs);
    }
    AppendAllFlatten(t, p, cs);
  }
}
