/** One control connection of the server (`FTPSession`). A session reads a
    command line, runs the verb's handler, queues the reply, and moves file
    data over a separate data connection. The sockets are replaced by steps
    the environment takes: a command line arrives, a reply write completes,
    the data acceptor accepts (or fails to), a data buffer write completes, a
    read from the file runs, data arrives from the client. The user
    database, the roster, the filesystem and the upload flag are shared by
    all sessions. */
module Session {
  import opened Wrappers
  import opened Text
  import opened Paths
  import opened FileSystem
  import opened Users
  import opened LoggedUsers
  import opened Replies
  import opened Dispatch
  import opened Commands
  import Pasv
  import Listing
  import Transfer

  /** `FTPSession::isUploading_`: one flag for the whole process. */
  class UploadFlag {
    var busy: bool

    constructor ()
      ensures !busy
    {
      busy := false;
    }
  }

  type Port = p: nat | p < 0x1_0000

  /** An IPv4 address, as `address_v4::to_bytes` gives it. */
  type IPv4 = ip: seq<byte> | |ip| == 4 witness [0, 0, 0, 0]

  /** The continuation that travels with a data buffer: the default no-op,
      or reading the next piece of the file being sent. */
  datatype Continuation = NoOp | ReadMore

  /** `dataAcceptor_`: closed, opened but not listening (bind or listen
      failed), or listening on the port the system chose. */
  datatype Acceptor = Closed | OpenOnly | Listening(port: Port)

  /** What PASV gets from the system when it sets the acceptor up. */
  datatype Setup = Listens(port: Port) | OpenFails | BindFails

  /** What runs when the data acceptor accepts a connection. */
  datatype Job =
    | SendListing(entries: seq<Path>)
    | SendNames(entries: seq<Path>)
    | SendFile(content: seq<byte>)
    | ReceiveFile(path: Path)

  /** The input file stream of RETR: the bytes, the read position, the eof
      bit. */
  datatype FileStream = FileStream(content: seq<byte>, pos: nat, eof: bool)

  const Welcome: Reply := Reply(ServiceReady, "Welcome to fineFTP Server")
  const Unrecognized: Reply := Reply(UnrecognizedCommand, "Unrecognized command")
  const NotLogged: Reply := Reply(NotLoggedIn, "Not logged in")
  const NoDataConnection: Reply := Reply(CannotOpenDataConnection, "Error opening data connection")
  const OpenError: Reply := Reply(LocalError, "Error opening file for transfer")
  const Aborted: Reply := Reply(TransferAborted, "Data transfer aborted")
  const Done: Reply := Reply(ClosingDataConnection, "Done")

  predicate EntriesOk(entries: seq<Path>) {
    forall i :: 0 <= i < |entries| ==> entries[i] != []
  }

  /** A listing job names entries below "/". */
  predicate JobOk(j: Job) {
    (j.SendListing? || j.SendNames?) ==> EntriesOk(j.entries)
  }

  predicate AllJobsOk(jobs: seq<Job>) {
    forall i :: 0 <= i < |jobs| ==> JobOk(jobs[i])
  }

  /** The working directory never orders below the logged-in user's root:
      the clamp of `FTP2LocalPath` keeps that much, although a path such as
      "../v" leads to a sibling of the root (see `CwdEscapesRoot`). */
  predicate Sandboxed(user: Option<User>, wd: Path) {
    user.Some? ==> !PathLess(wd, user.value.root)
  }

  /** A FIFO queue: what was taken from the front followed by what is still
      queued is everything ever queued. A write is in flight only while
      something is queued. */
  ghost predicate Fifo<T>(taken: seq<T>, queue: seq<T>, posted: seq<T>, writing: bool) {
    taken + queue == posted && (writing ==> queue != [])
  }

  /** The chunks read so far followed by the chunks still to come are the
      whole file; at eof all of them have been read. */
  ghost predicate StreamRead(f: FileStream, done: seq<seq<byte>>) {
    && f.pos <= |f.content|
    && (f.eof ==> f.pos == |f.content| && done == Transfer.Chunks(f.content, 0))
    && (!f.eof ==> done + Transfer.Chunks(f.content, f.pos) == Transfer.Chunks(f.content, 0))
  }

  class FTPSession {
    /** The session's place in the roster. */
    const id: SessionId
    /** The control connection's local IPv4 address. */
    const localIp: IPv4
    /** `fs::current_path()`: the root of users created with UADD. */
    const cwd: CanonicalPath
    const db: UserDatabase
    const roster: Roster
    const store: FileStore
    const uploads: UploadFlag

    // The user's state
    var sessionUser: Option<User>
    var username: string
    var lastCmd: string
    var workingDir: CanonicalPath
    var renameSrc: string
    var binary: bool
    var uploadingHere: bool
    var notiPort: Option<nat>

    // The control connection
    var alive: bool    // false once an exception escaped a handler
    var reading: bool  // a command read is outstanding
    var msgQueue: seq<string>
    var msgWriting: bool
    var sentMsgs: seq<string>
    ghost var postedMsgs: seq<string>

    // The data connection
    var acceptor: Acceptor
    var accepts: seq<Job>  // outstanding `async_accept`s, oldest first
    var aborted: nat       // accepts cancelled by PASV, whose 426 is still due
    var stream: Option<FileStream>
    ghost var streamChunks: seq<seq<byte>>
    var readsPosted: nat   // posted `readFileDataAndSend` tasks not yet run
    var receiving: Option<Path>
    ghost var received: seq<seq<byte>>
    var dataBuffer: seq<Option<seq<byte>>>
    var dataWriting: bool
    var dataFetch: Continuation
    var dataOut: seq<seq<byte>>
    ghost var takenData: seq<Option<seq<byte>>>
    ghost var postedData: seq<Option<seq<byte>>>

    /** The session's invariant: its command side and its data side. */
    ghost predicate Valid()
      reads this`sessionUser, this`workingDir
      reads this`sentMsgs, this`msgQueue, this`postedMsgs, this`msgWriting, this`accepts
      reads this`takenData, this`dataBuffer, this`postedData, this`dataWriting
      reads this`stream, this`streamChunks, this`readsPosted, this`dataFetch
    {
      ControlValid() && DataValid()
    }

    /** The working directory never orders below the user's root, the
        replies leave in the order they were queued, and every pending
        listing names entries below "/". */
    ghost predicate ControlValid()
      reads this`sessionUser, this`workingDir
      reads this`sentMsgs, this`msgQueue, this`postedMsgs, this`msgWriting, this`accepts
    {
      && Sandboxed(sessionUser, workingDir)
      && Fifo(sentMsgs, msgQueue, postedMsgs, msgWriting)
      && AllJobsOk(accepts)
    }

    /** Data buffers leave in the order they were queued, the open file
        stream has delivered a prefix of its chunks, and a pending read has
        a stream to read from. */
    ghost predicate DataValid()
      reads this`takenData, this`dataBuffer, this`postedData, this`dataWriting
      reads this`stream, this`streamChunks, this`readsPosted, this`dataFetch
    {
      && Fifo(takenData, dataBuffer, postedData, dataWriting)
      && (stream.Some? ==> StreamRead(stream.value, streamChunks))
      && (readsPosted > 0 || dataFetch == ReadMore ==> stream.Some?)
    }

    constructor (id: SessionId, localIp: IPv4, cwd: CanonicalPath,
                 db: UserDatabase, roster: Roster, store: FileStore, uploads: UploadFlag)
      ensures Valid()
      ensures this.id == id && this.localIp == localIp && this.cwd == cwd
      ensures this.db == db && this.roster == roster && this.store == store && this.uploads == uploads
      ensures sessionUser == None && username == "" && lastCmd == "" && workingDir == [] && renameSrc == ""
      ensures binary && !uploadingHere && notiPort == None
      ensures alive && !reading && msgQueue == [] && !msgWriting && sentMsgs == []
      ensures acceptor == Closed && accepts == [] && aborted == 0 && stream == None && readsPosted == 0
      ensures receiving == None && dataBuffer == [] && !dataWriting && dataOut == []
    {
      this.id := id;
      this.localIp := localIp;
      this.cwd := cwd;
      this.db := db;
      this.roster := roster;
      this.store := store;
      this.uploads := uploads;
      sessionUser := None;
      username := "";
      lastCmd := "";
      workingDir := [];
      renameSrc := "";
      binary := true;
      uploadingHere := false;
      notiPort := None;
      alive := true;
      reading := false;
      msgQueue := [];
      msgWriting := false;
      sentMsgs := [];
      postedMsgs := [];
      acceptor := Closed;
      accepts := [];
      aborted := 0;
      stream := None;
      streamChunks := [];
      readsPosted := 0;
      receiving := None;
      received := [];
      dataBuffer := [];
      dataWriting := false;
      dataFetch := NoOp;
      dataOut := [];
      takenData := [];
      postedData := [];
    }

    /** `FTP2LocalPath` as written: the result never orders below the
        user's root, which is all its clamp guarantees. */
    function LocalPath(ftpPath: string): (p: Path)
      reads this`sessionUser, this`workingDir
      requires Sandboxed(sessionUser, workingDir) && sessionUser.Some?
      ensures IsCanonical(p) && !PathLess(p, sessionUser.value.root)
    {
      ResolveAsWritten(sessionUser.value.root, workingDir, ftpPath)
    }

    /** `checkPathRenamable`: 200 exactly when a logged-in user names, with
        a non-empty path, an entry that exists and, if it is a directory,
        can be read. */
    function CheckPathRenamable(ftpPath: string): (r: Reply)
      reads this`sessionUser, this`workingDir, store
      requires Sandboxed(sessionUser, workingDir)
      ensures HasCode(r)
      ensures r.code == CommandOk <==>
        && sessionUser.Some? && ftpPath != ""
        && LocalPath(ftpPath) in store.tree
        && (IsDirectory(store.tree, LocalPath(ftpPath)) ==> Readable(store.tree[LocalPath(ftpPath)]))
      ensures sessionUser.None? ==> r == NotLogged
      ensures r.code != CommandOk ==> r.code in {NotLoggedIn, ParameterError, ActionNotTaken}
    {
      if sessionUser.None? then NotLogged
      else if ftpPath == "" then Reply(ParameterError, "Empty path")
      else
        var p := LocalPath(ftpPath);
        if p !in store.tree then Reply(ActionNotTaken, "File does not exist")
        else if IsDirectory(store.tree, p) && !Readable(store.tree[p]) then Reply(ActionNotTaken, "Permission denied")
        else Reply(CommandOk, "")
    }

    // ------------------------------------------------------------------
    // The reply queue

    /** `sendFTPMsg`: the reply's line joins the queue, and a write starts
        only when the queue was empty. */
    method SendFTPMsg(r: Reply) returns (starts: bool)
      requires Fifo(sentMsgs, msgQueue, postedMsgs, msgWriting) && HasCode(r)
      modifies this`msgQueue, this`postedMsgs, this`msgWriting
      ensures Fifo(sentMsgs, msgQueue, postedMsgs, msgWriting)
      ensures starts <==> old(msgQueue) == []
      ensures msgQueue == old(msgQueue) + [Wire(r)] && postedMsgs == old(postedMsgs) + [Wire(r)]
      ensures msgWriting == (old(msgWriting) || starts)
    {
      starts := msgQueue == [];
      Pushed(sentMsgs, msgQueue, Wire(r));
      msgQueue := msgQueue + [Wire(r)];
      postedMsgs := postedMsgs + [Wire(r)];
      msgWriting := msgWriting || starts;
    }

    /** The write of the front reply completes (`startSendingMsgs`'s
        handler). On success the front is popped and the next write starts
        when more are queued; on error nothing is popped and writing stops
        for good, since later replies see a non-empty queue. */
    method MessageWritten(ok: bool) returns (continues: bool)
      requires Fifo(sentMsgs, msgQueue, postedMsgs, msgWriting) && msgWriting
      modifies this`msgQueue, this`sentMsgs, this`msgWriting
      ensures Fifo(sentMsgs, msgQueue, postedMsgs, msgWriting)
      ensures ok ==> sentMsgs == old(sentMsgs) + [old(msgQueue[0])] && msgQueue == old(msgQueue[1..])
      ensures !ok ==> sentMsgs == old(sentMsgs) && msgQueue == old(msgQueue)
      ensures continues <==> ok && msgQueue != []
      ensures msgWriting == continues
    {
      if ok {
        Popped(sentMsgs, msgQueue);
        sentMsgs := sentMsgs + [msgQueue[0]];
        msgQueue := msgQueue[1..];
      }
      continues := ok && msgQueue != [];
      msgWriting := continues;
    }

    // ------------------------------------------------------------------
    // The data buffer queue

    /** `addDataToBufferAndSend`: the buffer (None is the null end-of-data
        marker) joins the queue; a write chain starts only when the queue was
        empty, and it carries the continuation `k`. */
    method AddDataToBufferAndSend(data: Option<seq<byte>>, k: Continuation) returns (starts: bool)
      requires Fifo(takenData, dataBuffer, postedData, dataWriting)
      modifies this`dataBuffer, this`postedData, this`dataWriting, this`dataFetch
      ensures Fifo(takenData, dataBuffer, postedData, dataWriting)
      ensures starts <==> old(dataBuffer) == []
      ensures dataBuffer == old(dataBuffer) + [data] && postedData == old(postedData) + [data]
      ensures dataWriting == (old(dataWriting) || starts)
      ensures dataFetch == if starts then k else old(dataFetch)
    {
      starts := dataBuffer == [];
      Pushed(takenData, dataBuffer, data);
      dataBuffer := dataBuffer + [data];
      postedData := postedData + [data];
      if starts {
        dataWriting := true;
        dataFetch := k;
      }
    }

    /** `writeDataToSocket` on the front buffer. A real buffer is written
        (`ok` is the outcome) and popped either way; on success the chain's
        continuation runs (a ReadMore posts one more file read) and the next
        buffer follows if there is one. The null marker is popped and
        answered with one 226 reply. */
    method WriteDataToSocket(ok: bool)
      requires DataValid() && Fifo(sentMsgs, msgQueue, postedMsgs, msgWriting) && dataWriting
      modifies this`dataBuffer, this`takenData, this`dataWriting, this`dataOut, this`readsPosted
      modifies this`msgQueue, this`postedMsgs, this`msgWriting
      ensures DataValid() && Fifo(sentMsgs, msgQueue, postedMsgs, msgWriting)
      ensures dataBuffer == old(dataBuffer[1..]) && takenData == old(takenData) + [old(dataBuffer[0])]
      ensures old(dataBuffer[0]).Some? ==>
        && dataOut == old(dataOut) + (if ok then [old(dataBuffer[0]).value] else [])
        && msgQueue == old(msgQueue) && msgWriting == old(msgWriting)
        && readsPosted == old(readsPosted) + (if ok && dataFetch == ReadMore then 1 else 0)
        && dataWriting == (ok && dataBuffer != [])
      ensures old(dataBuffer[0]).None? ==>
        && dataOut == old(dataOut) && readsPosted == old(readsPosted) && !dataWriting
        && msgQueue == old(msgQueue) + [Wire(Done)]
    {
      if dataBuffer[0].Some? {
        BufferWritten(ok);
      } else {
        MarkerWritten();
      }
    }

    /** A real buffer was written, or failed to be. */
    method BufferWritten(ok: bool)
      requires DataValid() && dataWriting && dataBuffer[0].Some?
      modifies this`dataBuffer, this`takenData, this`dataWriting, this`dataOut, this`readsPosted
      ensures DataValid()
      ensures dataBuffer == old(dataBuffer[1..]) && takenData == old(takenData) + [old(dataBuffer[0])]
      ensures dataOut == old(dataOut) + (if ok then [old(dataBuffer[0]).value] else [])
      ensures readsPosted == old(readsPosted) + (if ok && dataFetch == ReadMore then 1 else 0)
      ensures dataWriting == (ok && dataBuffer != [])
    {
      var front := dataBuffer[0];
      Popped(takenData, dataBuffer);
      dataBuffer := dataBuffer[1..];
      takenData := takenData + [front];
      if ok {
        dataOut := dataOut + [front.value];
        if dataFetch == ReadMore {
          readsPosted := readsPosted + 1;
        }
      }
      dataWriting := ok && dataBuffer != [];
    }

    /** The end marker reached the front: the transfer is reported done. */
    method MarkerWritten()
      requires DataValid() && Fifo(sentMsgs, msgQueue, postedMsgs, msgWriting) && dataWriting && dataBuffer[0].None?
      modifies this`dataBuffer, this`takenData, this`dataWriting
      modifies this`msgQueue, this`postedMsgs, this`msgWriting
      ensures DataValid() && Fifo(sentMsgs, msgQueue, postedMsgs, msgWriting)
      ensures dataBuffer == old(dataBuffer[1..]) && takenData == old(takenData) + [old(dataBuffer[0])]
      ensures !dataWriting && msgQueue == old(msgQueue) + [Wire(Done)]
    {
      var front := dataBuffer[0];
      Popped(takenData, dataBuffer);
      dataBuffer := dataBuffer[1..];
      takenData := takenData + [front];
      dataWriting := false;
      var _ := SendFTPMsg(Done);
    }

    // ------------------------------------------------------------------
    // Reading commands

    /** `start`: the greeting is queued and the first read begins. */
    method Start()
      requires Valid()
      modifies this`msgQueue, this`postedMsgs, this`msgWriting, this`reading
      ensures Valid()
      ensures msgQueue == old(msgQueue) + [Wire(Welcome)] && reading
    {
      var _ := SendFTPMsg(Welcome);
      reading := true;
    }

    /** The read ended without a line: the client closed the connection or
        the read failed, and no further read is started. */
    method ReadFailed()
      modifies this`reading
      ensures !reading
    {
      reading := false;
    }

    /** `readFTPCmd`'s completion: the line before the first CRLF of what was
        read is handled. */
    method CommandRead(buffer: string, setup: Setup) returns (cmd: Command, reply: Option<Reply>)
      requires ControlValid() && alive && reading && FindCrlf(buffer).Some? && |buffer| < NPOS
      modifies this`sessionUser, this`username, this`workingDir, this`renameSrc, this`binary
      modifies this`uploadingHere, this`notiPort, this`acceptor, this`accepts, this`aborted
      modifies this`lastCmd, this`alive, this`reading, this`msgQueue, this`postedMsgs, this`msgWriting
      modifies db`users, db`anonymous, roster`members, roster`outbox, store`tree, uploads`busy
      ensures ControlValid()
      ensures cmd == SplitCommand(ReadCommandLine(buffer).value)
      ensures ParseVerb(cmd.verb).None? ==> reply == Some(Unrecognized) && lastCmd == old(lastCmd)
      ensures reply.Some? ==> HasCode(reply.value) && msgQueue == old(msgQueue) + [Wire(reply.value)]
      ensures ParseVerb(cmd.verb).Some? && reply.Some? ==>
        lastCmd == cmd.verb && roster.members == RosterAfterAsWritten(old(roster.members), id, ParseVerb(cmd.verb).value)
      ensures reply.None? <==> !alive
      ensures reading <==> alive && lastCmd != "QUIT"
    {
      var line := ReadCommandLine(buffer).value;
      cmd, reply := HandleFTPCmd(line, setup);
    }

    /** `handleFTPCmd`: a known verb is handled by `HandleKnown`; an unknown
        verb is answered 500 and changes nothing else. Reading goes on unless
        the last command is QUIT or the handler threw (None). */
    method HandleFTPCmd(line: string, setup: Setup) returns (cmd: Command, reply: Option<Reply>)
      requires ControlValid() && alive && |line| < NPOS
      modifies this`sessionUser, this`username, this`workingDir, this`renameSrc, this`binary
      modifies this`uploadingHere, this`notiPort, this`acceptor, this`accepts, this`aborted
      modifies this`lastCmd, this`alive, this`reading, this`msgQueue, this`postedMsgs, this`msgWriting
      modifies db`users, db`anonymous, roster`members, roster`outbox, store`tree, uploads`busy
      ensures ControlValid()
      ensures cmd == SplitCommand(line)
      ensures ParseVerb(cmd.verb).None? ==>
        && reply == Some(Unrecognized) && msgQueue == old(msgQueue) + [Wire(Unrecognized)]
        && lastCmd == old(lastCmd) && sessionUser == old(sessionUser) && username == old(username)
        && workingDir == old(workingDir) && renameSrc == old(renameSrc)
        && roster.members == old(roster.members) && store.tree == old(store.tree)
      ensures ParseVerb(cmd.verb).Some? ==>
        && (reply.None? ==> !alive)
        && (reply.Some? ==>
              && alive && HasCode(reply.value) && msgQueue == old(msgQueue) + [Wire(reply.value)]
              && lastCmd == cmd.verb && roster.members == RosterAfterAsWritten(old(roster.members), id, ParseVerb(cmd.verb).value))
      ensures reply.None? <==> !alive
      ensures reading <==> alive && lastCmd != "QUIT"
    {
      cmd := SplitCommand(line);
      var verb := ParseVerb(cmd.verb);
      if verb.Some? {
        reply := HandleKnown(verb.value, cmd.verb, cmd.param, setup);
      } else {
        reply := Some(Unrecognized);
        var _ := SendFTPMsg(Unrecognized);
      }
      reading := alive && lastCmd != "QUIT";
    }

    /** The known-verb branch of `handleFTPCmd`: the handler's reply is
        queued, the session is put back in the roster after every verb, QUIT
        included, and the verb becomes the last command. None: the handler
        threw, and the session ends. */
    method HandleKnown(verb: Verb, name: string, param: string, setup: Setup) returns (reply: Option<Reply>)
      requires ControlValid() && alive
      modifies this`sessionUser, this`username, this`workingDir, this`renameSrc, this`binary
      modifies this`uploadingHere, this`notiPort, this`acceptor, this`accepts, this`aborted
      modifies this`lastCmd, this`alive, this`msgQueue, this`postedMsgs, this`msgWriting
      modifies db`users, db`anonymous, roster`members, roster`outbox, store`tree, uploads`busy
      ensures ControlValid()
      ensures reply.None? ==> !alive && lastCmd == old(lastCmd)
      ensures reply.Some? ==>
        && alive && HasCode(reply.value) && msgQueue == old(msgQueue) + [Wire(reply.value)]
        && lastCmd == name && roster.members == RosterAfterAsWritten(old(roster.members), id, verb)
    {
      reply := Execute(verb, param, setup);
      if reply.None? {
        alive := false;
      } else {
        var _ := SendFTPMsg(reply.value);
        var handled := roster.members;
        roster.Join(id, username);
        RejoinedAfter(old(roster.members), handled, id, verb);
        lastCmd := name;
      }
    }

    /** The handler table. Handlers queue no reply themselves; only QUIT
        takes the session out of the roster, and only a sign-up puts it in. */
    method Execute(verb: Verb, param: string, setup: Setup) returns (reply: Option<Reply>)
      requires Sandboxed(sessionUser, workingDir) && AllJobsOk(accepts)
      modifies this`sessionUser, this`username, this`workingDir, this`renameSrc, this`binary
      modifies this`uploadingHere, this`notiPort, this`acceptor, this`accepts, this`aborted
      modifies db`users, db`anonymous, roster`members, roster`outbox, store`tree, uploads`busy
      ensures Sandboxed(sessionUser, workingDir) && AllJobsOk(accepts)
      ensures reply.Some? ==> HasCode(reply.value)
      ensures verb == QUIT ==> roster.members == old(roster.members) - {id}
      ensures verb != QUIT ==> roster.members - {id} == old(roster.members) - {id}
    {
      match verb {
        case UADD | USER | NOTI | PASS | QUIT => reply := ExecuteLogin(verb, param);
        case CWD | CDUP | PWD | TYPE | PASV | SIZE | RNFR => reply := ExecuteNavigation(verb, param, setup);
        case RETR | STOR | APPE | RNTO | DELE | RMD | MKD | LIST | NLST => reply := ExecuteFiles(verb, param);
        case _ => reply := FixedReply(verb);
      }
    }

    /** The handlers of the verbs that log in, sign up, quit or set the
        notification port; only these touch the user database and the
        roster. */
    method ExecuteLogin(verb: Verb, param: string) returns (reply: Option<Reply>)
      requires verb in {UADD, USER, NOTI, PASS, QUIT} && Sandboxed(sessionUser, workingDir)
      modifies this`sessionUser, this`username, this`workingDir, this`notiPort
      modifies db`users, db`anonymous, roster`members, roster`outbox, uploads`busy
      ensures Sandboxed(sessionUser, workingDir)
      ensures reply.Some? ==> HasCode(reply.value)
      ensures verb == QUIT ==> roster.members == old(roster.members) - {id}
      ensures verb != QUIT ==> roster.members - {id} == old(roster.members) - {id}
    {
      var r: Reply;
      match verb {
        case UADD => r := HandleUser(param, true);
        case USER => r := HandleUser(param, false);
        case NOTI => reply := HandleNoti(param); return;
        case PASS => r := HandlePass(param);
        case QUIT => r := HandleQuit();
      }
      reply := Some(r);
    }

    /** The handlers that move in the tree, report on it, or set the data
        connection up. */
    method ExecuteNavigation(verb: Verb, param: string, setup: Setup) returns (reply: Option<Reply>)
      requires verb in {CWD, CDUP, PWD, TYPE, PASV, SIZE, RNFR}
      requires Sandboxed(sessionUser, workingDir) && AllJobsOk(accepts)
      modifies this`workingDir, this`binary, this`acceptor, this`accepts, this`aborted, this`renameSrc
      ensures Sandboxed(sessionUser, workingDir) && AllJobsOk(accepts)
      ensures reply.Some? ==> HasCode(reply.value)
    {
      var r: Reply;
      match verb {
        case CWD => r := HandleCwd(param);
        case CDUP => r := HandleCdup();
        case PWD => reply := HandlePwd(); return;
        case TYPE => r := HandleType(param);
        case PASV => r := HandlePasv(setup);
        case SIZE => reply := HandleSize(param); return;
        case RNFR => r := HandleRnfr(param);
      }
      reply := Some(r);
    }

    /** The handlers that change the tree or transfer data. */
    method ExecuteFiles(verb: Verb, param: string) returns (reply: Option<Reply>)
      requires verb in {RETR, STOR, APPE, RNTO, DELE, RMD, MKD, LIST, NLST}
      requires Sandboxed(sessionUser, workingDir) && AllJobsOk(accepts)
      modifies this`accepts, this`uploadingHere, store`tree, uploads`busy
      ensures AllJobsOk(accepts)
      ensures reply.Some? ==> HasCode(reply.value)
    {
      var r: Reply;
      match verb {
        case RETR => r := HandleRetr(param);
        case STOR => r := HandleStor(param);
        case APPE => r := HandleAppe(param);
        case RNTO => r := HandleRnto(param);
        case DELE => reply := HandleDele(param); return;
        case RMD => reply := HandleRmd(param); return;
        case MKD => reply := HandleMkd(param); return;
        case LIST => r := HandleList(param, false);
        case NLST => r := HandleList(param, true);
      }
      reply := Some(r);
    }

    // ------------------------------------------------------------------
    // Access control commands

    /** USER and UADD: the session forgets its user and remembers the name;
        an empty name is refused. */
    method HandleUser(param: string, signUp: bool) returns (r: Reply)
      requires Sandboxed(sessionUser, workingDir)
      modifies this`sessionUser, this`username
      ensures Sandboxed(sessionUser, workingDir) && HasCode(r)
      ensures sessionUser == None && username == param
      ensures param == "" ==> r == Reply(ParameterError, "Please provide username")
      ensures param != "" ==>
        r == Reply(UserNameOk, if signUp then "Please enter new password" else "Please enter password")
    {
      sessionUser := None;
      username := param;
      if param == "" {
        r := Reply(ParameterError, "Please provide username");
      } else {
        r := Reply(UserNameOk, if signUp then "Please enter new password" else "Please enter password");
      }
    }

    /** NOTI: the parameter is the client's notification port; a parameter
        `std::stoi` cannot read throws. */
    method HandleNoti(param: string) returns (r: Option<Reply>)
      modifies this`notiPort
      ensures NotiPort(param).None? ==> r == None && notiPort == old(notiPort)
      ensures NotiPort(param).Some? ==> r == Some(Reply(CommandOk, "")) && notiPort == NotiPort(param)
    {
      var port := NotiPort(param);
      if port.None? {
        return None;
      }
      notiPort := port;
      r := Some(Reply(CommandOk, ""));
    }

    /** PASS: after USER it logs in with the stored record, after UADD it
        creates the account (rooted at the current directory), logs in and
        joins the roster; it needs one of the two just before. */
    method HandlePass(param: string) returns (r: Reply)
      requires Sandboxed(sessionUser, workingDir)
      modifies this`sessionUser, this`workingDir, db`users, db`anonymous, roster`members, roster`outbox
      ensures Sandboxed(sessionUser, workingDir) && HasCode(r)
      ensures lastCmd == "USER" ==>
        var u := old(db.GetUser(username, param));
        && db.users == old(db.users) && db.anonymous == old(db.anonymous)
        && roster.members == old(roster.members)
        && (u.Some? ==> sessionUser == u && workingDir == u.value.root && r == Reply(UserLoggedIn, "Login successfully"))
        && (u.None? ==> sessionUser == old(sessionUser) && workingDir == old(workingDir)
                        && r == Reply(NotLoggedIn, "Failed to log in"))
      ensures lastCmd == "UADD" ==>
        var isNew := if IsAnonymousName(username) then old(db.anonymous).None? else username !in old(db.users);
        && (isNew ==>
              && sessionUser == Some(User(param, cwd)) && workingDir == cwd
              && db.GetUser(username, param) == sessionUser
              && roster.members == old(roster.members) + {id}
              && r == Reply(UserLoggedIn, "Sign up successfully"))
        && (!isNew ==>
              && sessionUser == old(sessionUser) && workingDir == old(workingDir)
              && db.users == old(db.users) && db.anonymous == old(db.anonymous)
              && roster.members == old(roster.members)
              && r == Reply(NotLoggedIn, "Username already existed"))
      ensures lastCmd != "USER" && lastCmd != "UADD" ==>
        && sessionUser == old(sessionUser) && workingDir == old(workingDir)
        && db.users == old(db.users) && db.anonymous == old(db.anonymous)
        && roster.members == old(roster.members)
        && r == Reply(BadSequence, "Please specify username first")
    {
      if lastCmd == "USER" {
        var u := db.GetUser(username, param);
        if u.Some? {
          sessionUser := u;
          workingDir := u.value.root;
          PathLessIrreflexive(workingDir);
          r := Reply(UserLoggedIn, "Login successfully");
        } else {
          r := Reply(NotLoggedIn, "Failed to log in");
        }
      } else if lastCmd == "UADD" {
        var u := db.AddUser(username, param, Some(cwd), cwd);
        if u.Some? {
          sessionUser := u;
          workingDir := u.value.root;
          PathLessIrreflexive(workingDir);
          roster.Join(id, username);
          r := Reply(UserLoggedIn, "Sign up successfully");
        } else {
          r := Reply(NotLoggedIn, "Username already existed");
        }
      } else {
        r := Reply(BadSequence, "Please specify username first");
      }
    }

    /** CWD: the working directory moves to the resolved path exactly when
        it is a directory that can be read. */
    method HandleCwd(param: string) returns (r: Reply)
      requires Sandboxed(sessionUser, workingDir)
      modifies this`workingDir
      ensures Sandboxed(sessionUser, workingDir) && HasCode(r)
      ensures sessionUser.None? ==> r == NotLogged && workingDir == old(workingDir)
      ensures sessionUser.Some? && param == "" ==>
        r == Reply(ParameterError, "No path given") && workingDir == old(workingDir)
      ensures sessionUser.Some? && param != "" ==>
        var p := old(LocalPath(param));
        && (r.code == FileActionCompleted <==> Listable(store.tree, p))
        && (Listable(store.tree, p) ==>
              workingDir == p && r.text == "Working directory changed to " + param)
        && (!IsDirectory(store.tree, p) ==>
              && workingDir == old(workingDir)
              && r == Reply(ActionNotTaken, "Failed changing directory: The given resource is not a directory."))
        && (IsDirectory(store.tree, p) && !Readable(store.tree[p]) ==>
              && workingDir == old(workingDir)
              && r == Reply(ActionNotTaken, "Failed changing directory: Permission denied."))
    {
      if sessionUser.None? {
        return NotLogged;
      }
      if param == "" {
        return Reply(ParameterError, "No path given");
      }
      var p := LocalPath(param);
      if !IsDirectory(store.tree, p) {
        r := Reply(ActionNotTaken, "Failed changing directory: The given resource is not a directory.");
      } else if !Readable(store.tree[p]) {
        r := Reply(ActionNotTaken, "Failed changing directory: Permission denied.");
      } else {
        workingDir := p;
        r := Reply(FileActionCompleted, "Working directory changed to " + param);
      }
    }

    /** CDUP: away from the root, CWD "..": the working directory moves to
        its parent (clamped to the root when the parent orders below it)
        when that can be read, and success is reported as 200. At the root
        it is refused. */
    method HandleCdup() returns (r: Reply)
      requires Sandboxed(sessionUser, workingDir)
      modifies this`workingDir
      ensures Sandboxed(sessionUser, workingDir) && HasCode(r)
      ensures sessionUser.None? ==> r == NotLogged && workingDir == old(workingDir)
      ensures sessionUser.Some? && old(workingDir) == sessionUser.value.root ==>
        r == Reply(ActionNotTaken, "Already at root directory") && workingDir == old(workingDir)
      ensures sessionUser.Some? && old(workingDir) != sessionUser.value.root ==>
        var root := sessionUser.value.root;
        && old(workingDir) != []
        && var up := if PathLess(Parent(old(workingDir)), root) then root else Parent(old(workingDir));
        && (root < old(workingDir) ==> up == Parent(old(workingDir)))
        && (Listable(store.tree, up) ==>
              workingDir == up && r == Reply(CommandOk, "Working directory changed to .."))
        && (!Listable(store.tree, up) ==>
              workingDir == old(workingDir) && r.code == ActionNotTaken)
    {
      if sessionUser.None? {
        return NotLogged;
      }
      var root := sessionUser.value.root;
      if workingDir == root {
        return Reply(ActionNotTaken, "Already at root directory");
      }
      assert workingDir != [];
      ResolveAsWrittenUp(root, workingDir);
      if root < workingDir {
        ParentInsideRoot(root, workingDir);
      }
      var c := HandleCwd("..");
      r := if c.code == FileActionCompleted then Reply(CommandOk, c.text) else c;
    }

    /** QUIT: the session forgets its user, leaves the roster, and releases
        the upload flag if it holds it. */
    method HandleQuit() returns (r: Reply)
      requires Sandboxed(sessionUser, workingDir)
      modifies this`sessionUser, roster`members, roster`outbox, uploads`busy
      ensures Sandboxed(sessionUser, workingDir) && HasCode(r)
      ensures sessionUser == None && roster.members == old(roster.members) - {id}
      ensures uploads.busy == (!uploadingHere && old(uploads.busy))
      ensures r == Reply(ServiceClosing, "Connection shutting down")
    {
      sessionUser := None;
      roster.Leave(id, username);
      if uploadingHere {
        uploads.busy := false;
      }
      r := Reply(ServiceClosing, "Connection shutting down");
    }

    // ------------------------------------------------------------------
    // Transfer parameter commands

    /** PASV: the acceptor is closed (cancelling the accepts waiting on it)
        and set up again; the reply gives the address and the port the
        system chose. */
    method HandlePasv(setup: Setup) returns (r: Reply)
      requires AllJobsOk(accepts)
      modifies this`acceptor, this`accepts, this`aborted
      ensures AllJobsOk(accepts) && HasCode(r)
      ensures sessionUser.None? ==>
        r == NotLogged && acceptor == old(acceptor) && accepts == old(accepts) && aborted == old(aborted)
      ensures sessionUser.Some? ==>
        && accepts == [] && aborted == old(aborted) + |old(accepts)|
        && acceptor == (match setup
                        case Listens(port) => Listening(port)
                        case OpenFails => Closed
                        case BindFails => OpenOnly)
        && r == (if setup.Listens? then Reply(EnteringPassiveMode, Pasv.PasvText(localIp, setup.port))
                 else Reply(ServiceNotAvailable, "Failed to enter passive mode."))
    {
      if sessionUser.None? {
        return NotLogged;
      }
      aborted := aborted + |accepts|;
      accepts := [];
      match setup {
        case Listens(port) =>
          acceptor := Listening(port);
          r := Reply(EnteringPassiveMode, Pasv.PasvText(localIp, port));
        case OpenFails =>
          acceptor := Closed;
          r := Reply(ServiceNotAvailable, "Failed to enter passive mode.");
        case BindFails =>
          acceptor := OpenOnly;
          r := Reply(ServiceNotAvailable, "Failed to enter passive mode.");
      }
    }

    /** TYPE: "A" and "I" choose ASCII and binary; anything else is refused. */
    method HandleType(param: string) returns (r: Reply)
      modifies this`binary
      ensures HasCode(r)
      ensures sessionUser.None? ==> r == NotLogged && binary == old(binary)
      ensures sessionUser.Some? && param == "A" ==> !binary && r == Reply(CommandOk, "Switching to ASCII mode")
      ensures sessionUser.Some? && param == "I" ==> binary && r == Reply(CommandOk, "Switching to binary mode")
      ensures sessionUser.Some? && param != "A" && param != "I" ==>
        binary == old(binary) && r == Reply(NotImplementedForParameter, "Unknown or unsupported type")
    {
      if sessionUser.None? {
        return NotLogged;
      }
      if param == "A" {
        binary := false;
        r := Reply(CommandOk, "Switching to ASCII mode");
      } else if param == "I" {
        binary := true;
        r := Reply(CommandOk, "Switching to binary mode");
      } else {
        r := Reply(NotImplementedForParameter, "Unknown or unsupported type");
      }
    }

    // ------------------------------------------------------------------
    // File service commands

    /** RETR: with the acceptor open and the file readable, an accept is
        queued that will send the file's bytes. */
    method HandleRetr(param: string) returns (r: Reply)
      requires Sandboxed(sessionUser, workingDir) && AllJobsOk(accepts)
      modifies this`accepts
      ensures AllJobsOk(accepts) && HasCode(r)
      ensures sessionUser.None? ==> r == NotLogged && accepts == old(accepts)
      ensures sessionUser.Some? && acceptor.Closed? ==> r == NoDataConnection && accepts == old(accepts)
      ensures sessionUser.Some? && !acceptor.Closed? ==>
        var p := LocalPath(param);
        && (OpenRead(store.tree, p).None? ==> r == OpenError && accepts == old(accepts))
        && (OpenRead(store.tree, p).Some? ==>
              accepts == old(accepts) + [SendFile(store.tree[p].data)]
              && r == Reply(OpeningDataConnection, "Sending file"))
    {
      if sessionUser.None? {
        return NotLogged;
      }
      if acceptor.Closed? {
        return NoDataConnection;
      }
      var p := LocalPath(param);
      var content := OpenRead(store.tree, p);
      if content.None? {
        return OpenError;
      }
      accepts := accepts + [SendFile(content.value)];
      r := Reply(OpeningDataConnection, "Sending file");
    }

    /** STOR: a directory is not overwritten; the file is created or
        truncated, and then, unless another upload holds the flag, an accept
        is queued that will receive its new contents. The flag is taken and
        released again before the handler returns. */
    method HandleStor(param: string) returns (r: Reply)
      requires Sandboxed(sessionUser, workingDir) && AllJobsOk(accepts)
      modifies this`accepts, this`uploadingHere, store`tree, uploads`busy
      ensures AllJobsOk(accepts) && HasCode(r)
      ensures !old(uploadingHere) ==> !uploadingHere
      ensures sessionUser.None? || acceptor.Closed? ==>
        r == (if sessionUser.None? then NotLogged else NoDataConnection)
        && accepts == old(accepts) && store.tree == old(store.tree) && uploads.busy == old(uploads.busy)
      ensures sessionUser.Some? && !acceptor.Closed? ==>
        var p := old(LocalPath(param));
        && (IsDirectory(old(store.tree), p) ==>
              r == Reply(FilenameNotAllowed, "Cannot create file. A directory with that name already exists.")
              && accepts == old(accepts) && store.tree == old(store.tree))
        && (!IsDirectory(old(store.tree), p) && OpenTruncate(old(store.tree), p).None? ==>
              r == OpenError && accepts == old(accepts) && store.tree == old(store.tree))
        && (!IsDirectory(old(store.tree), p) && OpenTruncate(old(store.tree), p).Some? ==>
              && store.tree == OpenTruncate(old(store.tree), p).value
              && IsRegularFile(store.tree, p) && store.tree[p].data == []
              && (old(uploads.busy) ==>
                    r == Reply(FilenameNotAllowed, "Another client is uploading.") && accepts == old(accepts))
              && (!old(uploads.busy) ==>
                    r == Reply(OpeningDataConnection, "Receiving file") && accepts == old(accepts) + [ReceiveFile(p)]))
        && uploads.busy == old(uploads.busy)
    {
      if sessionUser.None? {
        return NotLogged;
      }
      if acceptor.Closed? {
        return NoDataConnection;
      }
      var p := LocalPath(param);
      if IsDirectory(store.tree, p) {
        return Reply(FilenameNotAllowed, "Cannot create file. A directory with that name already exists.");
      }
      var truncated := OpenTruncate(store.tree, p);
      if truncated.None? {
        return OpenError;
      }
      store.tree := truncated.value;
      if uploads.busy {
        return Reply(FilenameNotAllowed, "Another client is uploading.");
      }
      uploads.busy := true;
      uploadingHere := true;
      accepts := accepts + [ReceiveFile(p)];
      uploadingHere := false;
      uploads.busy := false;
      r := Reply(OpeningDataConnection, "Receiving file");
    }

    /** SIZE: the size of a regular file; a missing entry is refused, and a
        directory makes `file_size` throw. */
    method HandleSize(param: string) returns (r: Option<Reply>)
      requires Sandboxed(sessionUser, workingDir)
      ensures r.Some? ==> HasCode(r.value)
      ensures sessionUser.None? ==> r == Some(NotLogged)
      ensures sessionUser.Some? && acceptor.Closed? ==> r == Some(NoDataConnection)
      ensures sessionUser.Some? && !acceptor.Closed? ==>
        var p := LocalPath(param);
        && (p !in store.tree ==> r == Some(Reply(ActionNotTaken, "Failed read file's size")))
        && (IsDirectory(store.tree, p) ==> r == None)
        && (IsRegularFile(store.tree, p) ==> r == Some(Reply(FileStatus, NatToString(|store.tree[p].data|))))
    {
      if sessionUser.None? {
        return Some(NotLogged);
      }
      if acceptor.Closed? {
        return Some(NoDataConnection);
      }
      var p := LocalPath(param);
      if p !in store.tree {
        return Some(Reply(ActionNotTaken, "Failed read file's size"));
      }
      var size := FileSize(store.tree, p);
      if size.None? {
        return None;
      }
      r := Some(Reply(FileStatus, NatToString(size.value)));
    }

    /** APPE: only an existing regular file that can be written is opened;
        an accept is queued that will receive the bytes to add. */
    method HandleAppe(param: string) returns (r: Reply)
      requires Sandboxed(sessionUser, workingDir) && AllJobsOk(accepts)
      modifies this`accepts
      ensures AllJobsOk(accepts) && HasCode(r)
      ensures sessionUser.None? ==> r == NotLogged && accepts == old(accepts)
      ensures sessionUser.Some? && acceptor.Closed? ==> r == NoDataConnection && accepts == old(accepts)
      ensures sessionUser.Some? && !acceptor.Closed? ==>
        var p := LocalPath(param);
        && (!IsRegularFile(store.tree, p) ==>
              r == Reply(ActionNotTaken, "File does not exist.") && accepts == old(accepts))
        && (IsRegularFile(store.tree, p) && !Writable(store.tree[p]) ==> r == OpenError && accepts == old(accepts))
        && (CanAppend(store.tree, p) ==>
              r == Reply(OpeningDataConnection, "Receiving file") && accepts == old(accepts) + [ReceiveFile(p)])
    {
      if sessionUser.None? {
        return NotLogged;
      }
      if acceptor.Closed? {
        return NoDataConnection;
      }
      var p := LocalPath(param);
      if !IsRegularFile(store.tree, p) {
        return Reply(ActionNotTaken, "File does not exist.");
      }
      if !CanAppend(store.tree, p) {
        return OpenError;
      }
      accepts := accepts + [ReceiveFile(p)];
      r := Reply(OpeningDataConnection, "Receiving file");
    }

    /** RNFR: a renamable source is remembered and the target is asked for;
        otherwise the check's reply is given. */
    method HandleRnfr(param: string) returns (r: Reply)
      requires Sandboxed(sessionUser, workingDir)
      modifies this`renameSrc
      ensures HasCode(r)
      ensures CheckPathRenamable(param).code == CommandOk ==>
        renameSrc == param && r == Reply(NeedsFurtherInfo, "Enter target name")
      ensures CheckPathRenamable(param).code != CommandOk ==>
        renameSrc == old(renameSrc) && r == CheckPathRenamable(param)
    {
      var check := CheckPathRenamable(param);
      if check.code == CommandOk {
        renameSrc := param;
        r := Reply(NeedsFurtherInfo, "Enter target name");
      } else {
        r := check;
      }
    }

    /** RNTO: right after RNFR, the remembered source is moved to the new
        name, which must not exist yet. */
    method HandleRnto(param: string) returns (r: Reply)
      requires Sandboxed(sessionUser, workingDir)
      modifies store`tree
      ensures HasCode(r)
      ensures r.code != FileActionCompleted ==> store.tree == old(store.tree)
      ensures sessionUser.None? ==> r == NotLogged
      ensures sessionUser.Some? && (lastCmd != "RNFR" || renameSrc == "") ==>
        r == Reply(BadSequence, "Please specify target file first")
      ensures sessionUser.Some? && lastCmd == "RNFR" && renameSrc != "" && param == "" ==>
        r == Reply(ParameterError, "No target name given")
      ensures sessionUser.Some? && lastCmd == "RNFR" && renameSrc != "" && param != "" ==>
        var check := old(CheckPathRenamable(renameSrc));
        var src, dst := LocalPath(renameSrc), LocalPath(param);
        && (check.code != CommandOk ==> r == check)
        && (check.code == CommandOk && dst in old(store.tree) ==>
              r == Reply(FileActionNotTaken, "Target path exists already."))
        && (check.code == CommandOk && dst !in old(store.tree) ==>
              && (Rename(old(store.tree), src, dst).None? ==> r == Reply(FileActionNotTaken, "Error renaming file"))
              && (Rename(old(store.tree), src, dst).Some? ==>
                    store.tree == Rename(old(store.tree), src, dst).value && r == Reply(FileActionCompleted, "OK")))
      ensures r.code == FileActionCompleted ==>
        var src, dst := LocalPath(renameSrc), LocalPath(param);
        src in old(store.tree) && dst in store.tree && src !in store.tree && store.tree[dst] == old(store.tree)[src]
    {
      if sessionUser.None? {
        return NotLogged;
      }
      if lastCmd != "RNFR" || renameSrc == "" {
        return Reply(BadSequence, "Please specify target file first");
      }
      if param == "" {
        return Reply(ParameterError, "No target name given");
      }
      var check := CheckPathRenamable(renameSrc);
      if check.code != CommandOk {
        return check;
      }
      var src, dst := LocalPath(renameSrc), LocalPath(param);
      if dst in store.tree {
        return Reply(FileActionNotTaken, "Target path exists already.");
      }
      var moved := Rename(store.tree, src, dst);
      if moved.None? {
        return Reply(FileActionNotTaken, "Error renaming file");
      }
      store.tree := moved.value;
      r := Reply(FileActionCompleted, "OK");
    }

    /** DELE: only a regular file is removed; `remove` throws when its
        directory is read-only. */
    method HandleDele(param: string) returns (r: Option<Reply>)
      requires Sandboxed(sessionUser, workingDir)
      modifies store`tree
      ensures r.Some? ==> HasCode(r.value)
      ensures sessionUser.None? ==> r == Some(NotLogged) && store.tree == old(store.tree)
      ensures sessionUser.Some? ==>
        var p := LocalPath(param);
        && (p !in old(store.tree) ==>
              r == Some(Reply(ActionNotTaken, "Resource does not exist")) && store.tree == old(store.tree))
        && (IsDirectory(old(store.tree), p) ==>
              r == Some(Reply(ActionNotTaken, "Resource is not a file")) && store.tree == old(store.tree))
        && (IsRegularFile(old(store.tree), p) ==>
              && (ParentWritable(old(store.tree), p) ==>
                    r == Some(Reply(FileActionCompleted, "Successfully deleted file"))
                    && store.tree == old(store.tree) - {p})
              && (!ParentWritable(old(store.tree), p) ==> r == None))
    {
      if sessionUser.None? {
        return Some(NotLogged);
      }
      var p := LocalPath(param);
      if p !in store.tree {
        return Some(Reply(ActionNotTaken, "Resource does not exist"));
      }
      if !IsRegularFile(store.tree, p) {
        return Some(Reply(ActionNotTaken, "Resource is not a file"));
      }
      var removed := Remove(store.tree, p);
      if removed.Throws? {
        return None;
      }
      store.tree := removed.tree;
      r := Some(if removed.value then Reply(FileActionCompleted, "Successfully deleted file")
                else Reply(FileActionNotTaken, "Unable to delete file"));
    }

    /** RMD: `remove_all` of the resolved path, which takes the whole
        subtree; nothing to remove is refused, and `remove_all` throws where
        a directory cannot be cleared. */
    method HandleRmd(param: string) returns (r: Option<Reply>)
      requires Sandboxed(sessionUser, workingDir)
      modifies store`tree
      ensures r.Some? ==> HasCode(r.value)
      ensures sessionUser.None? ==> r == Some(NotLogged) && store.tree == old(store.tree)
      ensures sessionUser.Some? ==>
        var p := LocalPath(param);
        && (p !in old(store.tree) ==>
              r == Some(Reply(ActionNotTaken, "Unable to remove directory")) && store.tree == old(store.tree))
        && (p in old(store.tree) && ParentWritable(old(store.tree), p) && Clearable(old(store.tree), p) ==>
              && r == Some(Reply(FileActionCompleted, "Successfully removed directory"))
              && (forall q :: q in store.tree <==> q in old(store.tree) && !(p <= q)))
        && (p in old(store.tree) && !(ParentWritable(old(store.tree), p) && Clearable(old(store.tree), p)) ==>
              r == None)
    {
      if sessionUser.None? {
        return Some(NotLogged);
      }
      var p := LocalPath(param);
      var removed := RemoveAll(store.tree, p);
      if removed.Throws? {
        return None;
      }
      if p in store.tree {
        assert p in Subtree(store.tree, p);
      }
      store.tree := removed.tree;
      r := Some(if removed.value > 0 then Reply(FileActionCompleted, "Successfully removed directory")
                else Reply(ActionNotTaken, "Unable to remove directory"));
    }

    /** MKD: `create_directory` of the resolved path; the reply names the
        local path. An existing directory is refused, and anything else that
        stops the creation throws. */
    method HandleMkd(param: string) returns (r: Option<Reply>)
      requires Sandboxed(sessionUser, workingDir)
      modifies store`tree
      ensures r.Some? ==> HasCode(r.value)
      ensures sessionUser.None? ==> r == Some(NotLogged) && store.tree == old(store.tree)
      ensures sessionUser.Some? ==>
        var p := LocalPath(param);
        && (IsDirectory(old(store.tree), p) ==>
              r == Some(Reply(ActionNotTaken, "Unable to create directory")) && store.tree == old(store.tree))
        && (p !in old(store.tree) && ParentWritable(old(store.tree), p) ==>
              && r == Some(Reply(PathnameCreated, "Successfully created directory " + GenericString(p)))
              && store.tree == old(store.tree)[p := Dir(NewDirMode)])
        && (!IsDirectory(old(store.tree), p) && !(p !in old(store.tree) && ParentWritable(old(store.tree), p)) ==>
              r == None)
    {
      if sessionUser.None? {
        return Some(NotLogged);
      }
      var p := LocalPath(param);
      var created := CreateDirectory(store.tree, p);
      if created.Throws? {
        return None;
      }
      store.tree := created.tree;
      r := Some(if created.value then Reply(PathnameCreated, "Successfully created directory " + GenericString(p))
                else Reply(ActionNotTaken, "Unable to create directory"));
    }

    /** PWD: the working directory as the client sees it, "/" at the root.
        `Local2FTPPath` can throw. */
    method HandlePwd() returns (r: Option<Reply>)
      requires Sandboxed(sessionUser, workingDir)
      ensures r.Some? ==> HasCode(r.value)
      ensures sessionUser.None? ==> r == Some(Reply(ActionNotTaken, "Not logged in"))
      ensures sessionUser.Some? ==> r == (match Local2FTPPath(sessionUser.value.root, workingDir)
                                          case None => None
                                          case Some(s) => Some(Reply(PathnameCreated, s)))
      ensures sessionUser.Some? && workingDir == sessionUser.value.root ==> r == Some(Reply(PathnameCreated, "/"))
      ensures sessionUser.Some? && [] < sessionUser.value.root < workingDir && |GenericString(workingDir)| < NPOS ==>
        r == Some(Reply(PathnameCreated, Slashed(workingDir[|sessionUser.value.root|..])))
    {
      if sessionUser.None? {
        return Some(Reply(ActionNotTaken, "Not logged in"));
      }
      var root := sessionUser.value.root;
      if root != [] && root < workingDir && |GenericString(workingDir)| < NPOS {
        Local2FTPPathBelowRoot(root, workingDir);
      }
      var shown := Local2FTPPath(root, workingDir);
      if shown.None? {
        return None;
      }
      r := Some(Reply(PathnameCreated, shown.value));
    }

    /** LIST and NLST: a readable directory's entries, sorted, are captured
        now and an accept is queued that will send them. */
    method HandleList(param: string, namesOnly: bool) returns (r: Reply)
      requires Sandboxed(sessionUser, workingDir) && AllJobsOk(accepts)
      modifies this`accepts
      ensures AllJobsOk(accepts) && HasCode(r)
      ensures sessionUser.None? ==> r == NotLogged && accepts == old(accepts)
      ensures sessionUser.Some? ==>
        var p := LocalPath(param);
        && (p !in store.tree ==> r == Reply(FileActionNotTaken, "Path does not exist") && accepts == old(accepts))
        && (IsRegularFile(store.tree, p) ==>
              r == Reply(FileActionNotTaken, "Path is not a directory") && accepts == old(accepts))
        && (IsDirectory(store.tree, p) && !Readable(store.tree[p]) ==>
              r == Reply(FileActionNotTaken, "Permission denied") && accepts == old(accepts))
        && (Listable(store.tree, p) ==>
              && |accepts| == |old(accepts)| + 1 && accepts[..|old(accepts)|] == old(accepts)
              && var job := accepts[|old(accepts)|];
              && (if namesOnly then job.SendNames? else job.SendListing?)
              && (forall q :: q in job.entries <==> q in Children(store.tree, p))
              && (forall i, j :: 0 <= i < j < |job.entries| ==> PathLess(job.entries[i], job.entries[j]))
              && r == Reply(OpeningDataConnection, if namesOnly then "Sending name list" else "Sending directory list"))
    {
      if sessionUser.None? {
        return NotLogged;
      }
      var p := LocalPath(param);
      if p !in store.tree {
        return Reply(FileActionNotTaken, "Path does not exist");
      }
      if !IsDirectory(store.tree, p) {
        return Reply(FileActionNotTaken, "Path is not a directory");
      }
      if !Readable(store.tree[p]) {
        return Reply(FileActionNotTaken, "Permission denied");
      }
      var entries := store.DirContent(p);
      assert EntriesOk(entries) by {
        forall i | 0 <= i < |entries| ensures entries[i] != [] {
          assert entries[i] in Children(store.tree, p);
        }
      }
      var job := if namesOnly then SendNames(entries) else SendListing(entries);
      accepts := accepts + [job];
      assert accepts[..|old(accepts)|] == old(accepts);
      r := Reply(OpeningDataConnection, if namesOnly then "Sending name list" else "Sending directory list");
    }

    // ------------------------------------------------------------------
    // The data connection

    /** The acceptor fails the oldest accept: it is reported with 426 and
        its job is dropped. */
    method AcceptFailed()
      requires ControlValid() && accepts != []
      modifies this`accepts, this`msgQueue, this`postedMsgs, this`msgWriting
      ensures ControlValid()
      ensures accepts == old(accepts[1..]) && msgQueue == old(msgQueue) + [Wire(Aborted)]
    {
      JobsTail(accepts);
      accepts := accepts[1..];
      var _ := SendFTPMsg(Aborted);
    }

    /** A whole text for the data connection: its buffer, then the end
        marker; neither carries a further read. */
    method SendWhole(b: seq<byte>)
      requires Fifo(takenData, dataBuffer, postedData, dataWriting)
      modifies this`dataBuffer, this`postedData, this`dataWriting, this`dataFetch
      ensures Fifo(takenData, dataBuffer, postedData, dataWriting)
      ensures dataBuffer == old(dataBuffer) + [Some(b), None]
      ensures dataFetch == (if old(dataBuffer) == [] then NoOp else old(dataFetch))
    {
      var _ := AddDataToBufferAndSend(Some(b), NoOp);
      var _ := AddDataToBufferAndSend(None, NoOp);
    }

    /** LIST's accept handler (`sendDirListing`): the listing of the entries
        captured by the handler, read now, is queued and then the end
        marker. A listing that throws ends the session. */
    method ListingAccepted(timeOf: Path -> string)
      requires Valid() && alive && accepts != [] && accepts[0].SendListing? && acceptor.Listening?
      modifies this`accepts, this`alive, this`dataBuffer, this`postedData, this`dataWriting, this`dataFetch
      ensures Valid()
      ensures accepts == old(accepts[1..])
      ensures var text := Listing.DirListing(store.tree, old(accepts[0]).entries, timeOf);
        && (alive <==> text.Some?)
        && (text.Some? ==>
              && dataBuffer == old(dataBuffer) + [Some(Listing.ListingBufferAsWritten(text.value)), None]
              && dataFetch == (if old(dataBuffer) == [] then NoOp else old(dataFetch)))
        && (text.None? ==> dataBuffer == old(dataBuffer) && dataFetch == old(dataFetch))
    {
      assert JobOk(accepts[0]);
      var text := Listing.DirListing(store.tree, accepts[0].entries, timeOf);
      ListingRead(text);
    }

    /** The rest of LIST's accept handler, once the listing was read (None:
        it threw). */
    method ListingRead(text: Option<string>)
      requires Valid() && alive && accepts != []
      modifies this`accepts, this`alive, this`dataBuffer, this`postedData, this`dataWriting, this`dataFetch
      ensures Valid()
      ensures accepts == old(accepts[1..])
      ensures alive <==> text.Some?
      ensures text.Some? ==>
        && dataBuffer == old(dataBuffer) + [Some(Listing.ListingBufferAsWritten(text.value)), None]
        && dataFetch == (if old(dataBuffer) == [] then NoOp else old(dataFetch))
      ensures text.None? ==> dataBuffer == old(dataBuffer) && dataFetch == old(dataFetch)
    {
      JobsTail(accepts);
      accepts := accepts[1..];
      if text.None? {
        alive := false;
      } else {
        var b := Listing.ListingBufferAsWritten(text.value);
        SendWhole(b);
      }
    }

    /** NLST's accept handler (`sendNameList`): the name list is queued,
        then the end marker. */
    method NamesAccepted()
      requires Valid() && alive && accepts != [] && accepts[0].SendNames? && acceptor.Listening?
      modifies this`accepts, this`dataBuffer, this`postedData, this`dataWriting, this`dataFetch
      ensures Valid()
      ensures accepts == old(accepts[1..])
      ensures dataBuffer == old(dataBuffer) + [Some(Listing.ListingBufferAsWritten(Listing.NameList(old(accepts[0]).entries))), None]
      ensures dataFetch == (if old(dataBuffer) == [] then NoOp else old(dataFetch))
    {
      var entries := accepts[0].entries;
      assert JobOk(accepts[0]);
      JobsTail(accepts);
      accepts := accepts[1..];
      SendWhole(Listing.ListingBufferAsWritten(Listing.NameList(entries)));
    }

    /** RETR's accept handler (`sendFile`): the stream is taken over by the
        session and three reads are posted. */
    method FileAccepted()
      requires Valid() && alive && accepts != [] && accepts[0].SendFile? && acceptor.Listening?
      modifies this`accepts, this`stream, this`streamChunks, this`readsPosted
      ensures Valid()
      ensures accepts == old(accepts[1..])
      ensures stream == Some(FileStream(old(accepts[0]).content, 0, false)) && streamChunks == []
      ensures readsPosted == old(readsPosted) + 3
    {
      stream := Some(FileStream(accepts[0].content, 0, false));
      streamChunks := [];
      readsPosted := readsPosted + 3;
      JobsTail(accepts);
      accepts := accepts[1..];
    }

    /** STOR's and APPE's accept handler (`receiveFile`): reading from the
        client starts. */
    method UploadAccepted()
      requires Valid() && alive && accepts != [] && accepts[0].ReceiveFile? && acceptor.Listening?
      modifies this`accepts, this`receiving, this`received
      ensures Valid()
      ensures accepts == old(accepts[1..])
      ensures receiving == Some(old(accepts[0]).path) && received == []
    {
      receiving := Some(accepts[0].path);
      received := [];
      JobsTail(accepts);
      accepts := accepts[1..];
    }

    /** A 426 for an accept PASV cancelled. */
    method AcceptCancelled()
      requires Valid() && aborted > 0
      modifies this`aborted, this`msgQueue, this`postedMsgs, this`msgWriting
      ensures Valid()
      ensures aborted == old(aborted) - 1 && msgQueue == old(msgQueue) + [Wire(Aborted)]
    {
      aborted := aborted - 1;
      var _ := SendFTPMsg(Aborted);
    }

    /** One posted `readFileDataAndSend`: nothing at eof; otherwise the next
        piece of at most 1 MiB is queued, carrying a further read, or, when
        the read hit eof, followed by the end marker. Once eof is reached the
        pieces read make up the whole file. */
    method ReadFileDataAndSend()
      requires DataValid() && alive && readsPosted > 0
      modifies this`readsPosted, this`stream, this`streamChunks
      modifies this`dataBuffer, this`postedData, this`dataWriting, this`dataFetch
      ensures DataValid()
      ensures readsPosted == old(readsPosted) - 1 && stream.Some?
      ensures old(stream.value.eof) ==>
        stream == old(stream) && streamChunks == old(streamChunks) && dataBuffer == old(dataBuffer)
      ensures !old(stream.value.eof) ==>
        var f := old(stream.value);
        var rd := Transfer.ReadChunk(f.content, f.pos);
        && stream == Some(FileStream(f.content, rd.pos, rd.eof))
        && streamChunks == old(streamChunks) + [rd.chunk]
        && dataBuffer == old(dataBuffer) + [Some(rd.chunk)] + (if rd.eof then [None] else [])
      ensures stream.value.eof ==> Transfer.Flatten(streamChunks) == stream.value.content
    {
      readsPosted := readsPosted - 1;
      var f := stream.value;
      if f.eof {
        Transfer.ChunksCover(f.content, 0);
        return;
      }
      var rd := Transfer.ReadChunk(f.content, f.pos);
      ChunksStep(f.content, f.pos);
      stream := Some(FileStream(f.content, rd.pos, rd.eof));
      streamChunks := streamChunks + [rd.chunk];
      if !rd.eof {
        var _ := AddDataToBufferAndSend(Some(rd.chunk), ReadMore);
      } else {
        var _ := AddDataToBufferAndSend(Some(rd.chunk), NoOp);
        var _ := AddDataToBufferAndSend(None, NoOp);
        Transfer.ChunksCover(f.content, 0);
      }
    }

    /** A read from the client's data connection completes with `chunk`. A
        full 1 MiB read is written and followed by another read; a read that
        ends the connection is answered with 226 and its bytes, if any, are
        written too. The bytes go to the file at the upload's path. */
    method DataReceived(chunk: seq<byte>, ended: bool)
      requires ControlValid() && alive && receiving.Some?
      requires |chunk| <= Transfer.CHUNK && (!ended ==> |chunk| == Transfer.CHUNK)
      modifies store`tree, this`receiving, this`received, this`msgQueue, this`postedMsgs, this`msgWriting
      ensures ControlValid()
      ensures store.tree == AppendData(old(store.tree), old(receiving.value), chunk)
      ensures received == old(received) + [chunk]
      ensures ended ==> receiving == None && msgQueue == old(msgQueue) + [Wire(Done)]
      ensures !ended ==> receiving == old(receiving) && msgQueue == old(msgQueue)
    {
      var p := receiving.value;
      received := received + [chunk];
      if ended {
        var _ := SendFTPMsg(Done);
        receiving := None;
      }
      if |chunk| > 0 {
        store.tree := AppendData(store.tree, p, chunk);
      } else {
        AppendNothing(store.tree, p);
      }
    }
  }

  /** A user rooted at /srv/u, working at the root, resolves "../v" to the
      sibling /srv/v: the sandbox predicate holds there, so CWD moves the
      session outside its root whenever /srv/v can be listed, and PWD then
      reports the empty path. */
  lemma CwdEscapesRoot(s: FTPSession)
    requires s.sessionUser.Some? && s.sessionUser.value.root == ["srv", "u"]
    requires s.workingDir == ["srv", "u"]
    ensures Sandboxed(s.sessionUser, s.workingDir)
    ensures s.LocalPath("../v") == ["srv", "v"]
    ensures Sandboxed(s.sessionUser, ["srv", "v"]) && !(s.sessionUser.value.root <= ["srv", "v"])
    ensures Local2FTPPath(s.sessionUser.value.root, ["srv", "v"]) == Some("")
  {
    PathLessIrreflexive(["srv", "u"]);
    ResolveAsWrittenEscapesToSibling();
    SiblingNotBelow();
    Local2FTPPathOutsideRoot();
  }

  /** Joining after a handler that touched no other session gives the roster
      rule as written: QUIT's removal is undone by the join that follows. */
  lemma RejoinedAfter(before: set<SessionId>, handled: set<SessionId>, id: SessionId, verb: Verb)
    requires verb == QUIT ==> handled == before - {id}
    requires verb != QUIT ==> handled - {id} == before - {id}
    ensures handled + {id} == RosterAfterAsWritten(before, id, verb)
  {
    assert forall x :: x in handled + {id} <==> x in before + {id} by {
      forall x ensures x in handled + {id} <==> x in before + {id} {
        assert x != id ==> (x in handled <==> x in handled - {id});
        assert x != id ==> (x in before <==> x in before - {id});
      }
    }
  }

  /** Dropping the first job keeps the others well formed. */
  lemma JobsTail(jobs: seq<Job>)
    requires jobs != [] && AllJobsOk(jobs)
    ensures AllJobsOk(jobs[1..])
  {
    forall i | 0 <= i < |jobs| - 1 ensures JobOk(jobs[1..][i]) {
      assert jobs[1..][i] == jobs[i + 1];
    }
  }

  /** Moving the front of a queue to the end of what was taken from it. */
  lemma Popped<T>(taken: seq<T>, q: seq<T>)
    requires q != []
    ensures (taken + [q[0]]) + q[1..] == taken + q
  {
    assert q == [q[0]] + q[1..];
  }

  /** Adding to the back of a queue. */
  lemma Pushed<T>(taken: seq<T>, q: seq<T>, x: T)
    ensures taken + (q + [x]) == (taken + q) + [x]
  {
  }

  /** `Chunks(c, pos)` is the read at `pos` followed by the chunks after it. */
  lemma ChunksStep(c: seq<byte>, pos: nat)
    requires pos <= |c|
    ensures var r := Transfer.ReadChunk(c, pos);
      Transfer.Chunks(c, pos) == [r.chunk] + (if r.eof then [] else Transfer.Chunks(c, r.pos))
  {
  }
}
