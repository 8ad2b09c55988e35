# FTP session engine

A Dafny model of the per-connection session engine of a small C++ FTP server,
together with the client-side pieces that talk to it.

**Server side.**
- `FTPSession` is a class. Its fields are those the source's handlers update:
  - the user record, the pending user name, the last command, the working directory and the rename source;
  - the transfer type and the upload bits;
  - the reply queue and the data buffer queue;
  - the data acceptor and its pending accepts.
- Each command handler is a method. It is proved against the reply codes and state changes the source gives it.
- The sockets are replaced by explicit environment steps:
  - a command line arrives;
  - a reply write completes;
  - the acceptor accepts a data connection, or fails to;
  - a data buffer write completes;
  - a posted file read runs;
  - data arrives from the client.
- The filesystem is a map from canonical paths (sequences of segments below "/") to files and directories. It is held by a shared `FileStore`.
- The credential store (`UserDatabase`), the roster of logged-in sessions (`FTPLoggedUser`) and the process-wide upload flag are shared objects. Every session refers to them.

**Client side.**
- The `FTPClient` object is modelled with its control socket reduced to the lines written and the lines read.
- The model covers reply parsing, command framing, the login/sign-up exchange and the PASV decoder.
- `processCmd` is modelled as the shell's tokeniser and dispatcher.

**Modules.**

| module | file | what it holds |
|---|---|---|
| Wrappers | `wrappers.dfy` | `Option` |
| Text | `text.dfy` | the standard-library string and number helpers the code relies on: `stoi`, `operator<<`, `find`, `substr` with `size_t` wrap-around, `toupper`, `setw`, `std::quoted` |
| Paths | `paths.dfy` | path segments, lexical canonicalisation, the `fs::path` order, `FTP2LocalPath` and `Local2FTPPath` |
| FileSystem | `filestore.dfy` | the tree, `permString`, and the filesystem calls the handlers make |
| Users | `users.dfy` | `FTPUser` and `UserDatabase` |
| LoggedUsers | `roster.dfy` | `FTPLoggedUser` |
| Replies | `replies.dfy` | reply codes and the reply line format |
| Dispatch | `dispatch.dfy` | the command table and the line split of `handleFTPCmd` |
| Pasv | `pasv.dfy` | the PASV reply encoder |
| Listing | `listing.dfy` | the texts of LIST and NLST |
| Transfer | `transfer.dfy` | RETR's 1 MiB reads |
| Commands | `rules.dfy` | state-free command rules: fixed replies, the NOTI port, the roster rule, upload contents |
| Session | `session.dfy` | `FTPSession` |
| Client, ClientSession | `client.dfy` | reply parsing, the PASV decoder, the `FTPClient` object |
| Shell | `shell.dfy` | `processCmd` |

**Reply codes.** `FTPMsgs.hpp` is not part of this model. The reply codes use the `FTPReplyCode` names with the numeric values section 4.2 of RFC 959 assigns to them. A reply travels as "code SP text CRLF".

**Where the documented behaviour and the code differ, the model follows the code:**
- RNFR accepts a source with 350 (`FILE_ACTION_NEEDS_FURTHER_INFO`), not 200.
- An existing RNTO target, and the failures of LIST and NLST, give 450 (`FILE_ACTION_NOT_TAKEN`), not 550.
- RNTO checks the login before the command order, so without a login it answers 530 even when RNFR did not come before.
- RETR of a missing file fails when the file is opened, so it answers 451, not 550.
- The replies of MKD and PWD carry the path without quotes.

**Where the code does not do what it evidently means, the model runs the code as written** and proves the intended rule beside it (see "## Findings"):
- `FTP2LocalPath` replaces a result by the root only when it orders below the root. So "../v" from the root /srv/u leads the session to /srv/v, outside the root. The session's invariant therefore promises only that the working directory never orders below the root.
- Every recognised command rejoins the session to the roster, QUIT included.
- The LIST and NLST data buffer starts with as many NUL bytes as the text is long, and the text follows them.
- The client's `readFTPMsg` keeps the CRLF at the end of the reply text, and with it up to two characters that the same read brought after the line.

**The roster joins.** The session's `contactHandler_` is the server's callback in `FTPServer.cpp`. It joins the session to the roster (`true`) or takes it out (`false`). The model calls the roster's `Join` and `Leave` directly.

## Model

| member | source | states |
|---|---|---|
| Text.NatToString | FTP-Server/FTPSession.cpp:624-626 | the decimal text of a number is a non-empty run of digits, one digit exactly for numbers below 10 |
| Text.DigitsValueOfNatToString | FTP-Server/FTPSession.cpp:624-626 | the digits written for n have the value n |
| Text.SpaceRun | FTP-Server/FTPSession.cpp:480 | the leading white space `stoi` skips: all of it, and no more |
| Text.DigitRun | FTP-Server/FTPSession.cpp:480 | the longest run of leading digits `stoi` reads |
| Text.StoiOfNatToString | FTP-Server/FTPSession.cpp:480 | `stoi` reads back every number up to INT_MAX that `operator<<` wrote |
| Text.StoiOfDigits | FTP-Client/FTPClient.cpp:81 | `stoi` of a digit string within `int` range is its value |
| Text.Stoi | FTP-Server/FTPSession.cpp:480 | `stoi` yields a value within `int` range, and only for a text holding a digit |
| Text.ToUint8 | FTP-Client/FTPClient.cpp:249-251 | the narrowing to `uint8_t` gives a byte congruent to the value modulo 256; `port & 0xff` is the same narrowing |
| Text.UpperString | FTP-Server/FTPSession.cpp:320 | the verb keeps its length and every character is upper-cased as `::toupper` does |
| Text.FindChar | FTP-Server/FTPSession.cpp:318 | `find` returns npos or a position at or after the start that holds the character |
| Text.FindCharFirst | FTP-Server/FTPSession.cpp:318 | no occurrence of the character comes before the position `find` returns |
| Text.FindStr | FTP-Server/FTPSession.cpp:359 | `find` of a string returns its first occurrence at or after the start, or npos when there is none |
| Text.SubStr | FTP-Client/FTPClient.cpp:81-82 | `substr` throws exactly when the start is past the end, and otherwise returns the count-clipped slice |
| Text.FindCrlf | FTP-Server/FTPSession.cpp:131-138 | the position of the first CRLF, with no CRLF before it |
| Text.FindCrlfAfter | FTP-Client/FTPClient.cpp:89 | in a CRLF-free text followed by CRLF, the first CRLF is at the text's end |
| Text.PadLeft | FTP-Server/FTPSession.cpp:405-407 | `setw` pads to the width on the left and keeps the value at the right end |
| Text.StoiOfPadded | FTP-Server/FTPSession.cpp:407 | `stoi` of a `setw`-padded size gives the size back |
| Text.Quoted | FTP-Server/FTPSession.cpp:438 | a path is written between double quotes |
| Text.QuotedRoundTrip | FTP-Server/FTPSession.cpp:438 | reading a quoted name back with `std::quoted` gives the name and what followed it |
| Text.ToBytes | FTP-Server/FTPSession.cpp:412-416 | the bytes of a string, one per character |
| Text.BytesRoundTrip | FTP-Server/FTPSession.cpp:412-416 | the bytes of a byte-sized string read back as the string |
| Paths.Normalize | FTP-Server/FTPSession.cpp:349 | lexical canonicalisation of a base and segments gives a canonical path, without a trailing separator (see "## Left out") |
| Paths.NormalizeNames | FTP-Server/FTPSession.cpp:349 | proper names are appended to the base unchanged |
| Paths.NormalizeDotDots | FTP-Server/FTPSession.cpp:349 | k ".." segments climb k levels and stop at "/" |
| Paths.StrLessIrreflexive | FTP-Server/FTPSession.cpp:350 | the segment order is irreflexive |
| Paths.StrLessTotal | FTP-Server/FTPSession.cpp:350 | the segment order is total |
| Paths.StrLessTransitive | FTP-Server/FTPSession.cpp:350 | the segment order is transitive |
| Paths.StrLessAsymmetric | FTP-Server/FTPSession.cpp:350 | the segment order is asymmetric |
| Paths.PathLessIrreflexive | FTP-Server/FTPSession.cpp:350 | the `fs::path` order is irreflexive |
| Paths.PathLessTotal | FTP-Server/FTPSession.cpp:7-14 | the `fs::path` order is total, so `std::set<fs::path>` orders every directory's entries |
| Paths.PathLessTransitive | FTP-Server/FTPSession.cpp:350 | the `fs::path` order is transitive |
| Paths.PathLessAsymmetric | FTP-Server/FTPSession.cpp:350 | the `fs::path` order is asymmetric |
| Paths.ProperPrefixIsLess | FTP-Server/FTPSession.cpp:350 | an ancestor orders below its descendants |
| Paths.ResolveAsWritten | FTP-Server/FTPSession.cpp:344-352 | as written: a rooted path resolves under the root, a relative one under the working directory; the canonical result never orders below the root |
| Paths.ResolveAsWrittenNeverAboveRoot | FTP-Server/FTPSession.cpp:344-352 | as written, however many ".." a path holds, the result is never a proper ancestor of the root |
| Paths.ResolveAsWrittenEscapesToSibling | FTP-Server/FTPSession.cpp:350-351 | as written, "../v" from the root /srv/u resolves to /srv/v, outside the root |
| Paths.Resolve | FTP-Server/FTPSession.cpp:344-352 | the sandbox as intended: the result is canonical and lies inside the user's root |
| Paths.ResolveAgrees | FTP-Server/FTPSession.cpp:344-352 | the two translations agree on every path that stays inside the root or climbs above it |
| Paths.ResolveDotDots | FTP-Server/FTPSession.cpp:344-352 | from a working directory inside the root, k ".." climb k levels and stop at the root |
| Paths.ResolveAsWrittenUp | FTP-Server/FTPSession.cpp:344-352 | as written, ".." gives the parent of the working directory, or the root when that parent orders below the root |
| Paths.ParentInsideRoot | FTP-Server/FTPSession.cpp:350-351 | from a directory below the root, the parent lies inside the root and so the clamp leaves it alone |
| Paths.Split | FTP-Server/FTPSession.cpp:344-348 | a path splits into at least one segment, none holding '/'; a rooted or empty path starts with the empty segment |
| Paths.SplitDotDotPath | FTP-Server/FTPSession.cpp:346-348 | the path "../.."… splits into its ".." segments |
| Paths.GenericString | FTP-Server/FTPSession.cpp:357-358 | the string of an absolute path starts with '/' |
| Paths.Local2FTPPath | FTP-Server/FTPSession.cpp:354-360 | the root itself is shown as "/" |
| Paths.Local2FTPPathBelowRoot | FTP-Server/FTPSession.cpp:357-359 | below the root, the search for the root misses, the cut position wraps round to the root string's length, and the result is the part below the root with its leading '/'; under the root "/" that leading '/' is cut off as well |
| Paths.NposWrap | FTP-Server/FTPSession.cpp:359 | npos + n + 1 wraps round to n in `size_t` |
| Paths.CutAfterRoot | FTP-Server/FTPSession.cpp:359 | where the search misses, the cut lands just after the root string |
| Paths.Local2FTPPathOutsideRoot | FTP-Server/FTPSession.cpp:354-360 | for the root /srv/u, the sibling /srv/v is shown as "" and an unrelated /t is not shown at all, although /t does not order below the root |
| FileSystem.Children | FTP-Server/FTPSession.cpp:10-12 | a directory's entries are exactly the tree's nodes one level below it |
| FileSystem.Subtree | FTP-Server/FTPSession.cpp:874 | what `remove_all` covers: the path and everything below it |
| FileSystem.PermString | FTP-Server/FTPSession.cpp:16-28 | the permission string has nine characters |
| FileSystem.PermStringRoundTrip | FTP-Server/FTPSession.cpp:16-28 | the permission string shows exactly the nine permission bits, in owner-group-others rwx order |
| FileSystem.NinePermissionBits | FTP-Server/FTPSession.cpp:18-26 | the nine characters stand for the nine low mode bits |
| FileSystem.ParsePerms | FTP-Server/FTPSession.cpp:16-28 | a nine-character permission string reads back into the nine low mode bits only, with '-' in the first place exactly when the owner cannot read |
| FileSystem.CreateDirectory | FTP-Server/FTPSession.cpp:886 | `create_directory` returns false, changing nothing, on an existing directory; it creates exactly when the path is absent and its parent is a writable directory; it throws exactly in the remaining cases |
| FileSystem.Remove | FTP-Server/FTPSession.cpp:862 | `remove` of a regular file deletes exactly that entry when its directory is writable, and throws otherwise |
| FileSystem.RemoveAll | FTP-Server/FTPSession.cpp:874 | `remove_all` counts and removes exactly the subtree, keeps every other node, returns 0 for an absent path, and throws when a directory cannot be cleared |
| FileSystem.SubtreeHasRoot | FTP-Server/FTPSession.cpp:874 | in a well-formed tree, a node below a path means the path exists |
| FileSystem.Rename | FTP-Server/FTPSession.cpp:837-840 | `rename` fails exactly when the source is missing, the target exists or lies in the source, or a directory is read-only; otherwise the subtree moves and the rest stays |
| FileSystem.MoveTree | FTP-Server/FTPSession.cpp:837 | the moved tree is well formed, holds the source's node at the target, and keeps everything outside the source |
| FileSystem.MovedKeys | FTP-Server/FTPSession.cpp:837 | every new key lies under the target and names a node under the source |
| FileSystem.OpenTruncate | FTP-Server/FTPSession.cpp:708-714 | STOR's open succeeds exactly on a writable file or an absent path in a writable directory, and leaves the file empty |
| FileSystem.OpenRead | FTP-Server/FTPSession.cpp:672-678 | RETR's open succeeds exactly on a readable regular file and yields its bytes; treating a directory as a failed open is a modelling choice |
| FileSystem.AppendData | FTP-Server/FTPSession.cpp:1118-1125 | a write to the file at the path adds the bytes at its end and changes nothing else; with no regular file there the tree is unchanged |
| FileSystem.AppendDataTwice | FTP-Server/FTPSession.cpp:1118-1125 | two writes add both pieces in order |
| FileSystem.FileSize | FTP-Server/FTPSession.cpp:741 | `file_size` is defined exactly for regular files and is their length |
| FileSystem.FileStore.DirContent | FTP-Server/FTPSession.cpp:7-14 | `dirContent` gives every entry of the directory once, in increasing path order |
| FileSystem.MinExists | FTP-Server/FTPSession.cpp:7-14 | every non-empty set of paths has a least element, so the set can be walked in order |
| Users.NewUser | FTP-Server/FTPUser.cpp:3-6 | the record keeps the password; an empty root falls back to the current directory |
| Users.AnonymousNamesExactly | FTP-Server/UserDatabase.cpp:49-51 | "", "ftp" and "anonymous", and only those, name the anonymous user |
| Users.UserDatabase.constructor | FTP-Server/UserDatabase.hpp:20-22 | the store starts with no accounts and no anonymous record |
| Users.UserDatabase.GetUser | FTP-Server/UserDatabase.cpp:5-16 | an anonymous name gets the anonymous record whatever the password; any other name gets its record exactly when it is present with this password |
| Users.UserDatabase.AddUser | FTP-Server/UserDatabase.cpp:18-47 | the anonymous record is created once; another name is inserted only when absent; a refusal changes nothing; on success `GetUser` with the same password returns the new record |
| LoggedUsers.Notices | FTP-Server/FTPLoggedUsers.hpp:32-33 | one notice per member visited, in visiting order |
| LoggedUsers.EnumeratesStep | FTP-Server/FTPLoggedUsers.hpp:33 | visiting one more member keeps the order a listing of the visited set |
| LoggedUsers.Roster.constructor | FTP-Server/FTPLoggedUsers.hpp:35 | the roster starts with no members and no notices |
| LoggedUsers.Roster.Join | FTP-Server/FTPLoggedUsers.hpp:18-22 | the session is inserted once, even if it joins twice; every member, the newcomer included, is told "<name> logged in" |
| LoggedUsers.Roster.Leave | FTP-Server/FTPLoggedUsers.hpp:24-28 | the session is removed first, so only the remaining members are told "<name> logged out" |
| LoggedUsers.Roster.SendToAll | FTP-Server/FTPLoggedUsers.hpp:32-34 | each member gets exactly one notice, in the set's iteration order |
| LoggedUsers.Roster.LoggedUserNames | FTP-Server/FTPLoggedUsers.hpp:9-16 | exactly one user name per member |
| Replies.Wire | FTP-Server/FTPSession.cpp:122 | a reply line is the three-digit code, a space, the text and CRLF |
| Replies.ThreeDigits | FTP-Server/FTPSession.cpp:122 | a code from 100 to 999 is written with three digits |
| Dispatch.VerbName | FTP-Server/FTPSession.cpp:172-316 | every key of the table has three or four letters |
| Dispatch.VerbInTable | FTP-Server/FTPSession.cpp:172-316 | every verb is a key of the table |
| Dispatch.FindVerb | FTP-Server/FTPSession.cpp:322 | the table search finds the verb of that name, or shows that no key has it |
| Dispatch.ParseVerb | FTP-Server/FTPSession.cpp:322 | `cmdMap.find` gives the verb whose name is the word, or none when no verb has that name |
| Dispatch.ReadCommandLine | FTP-Server/FTPSession.cpp:129-141 | the line handled is everything before the first CRLF of what was read, and holds no CRLF |
| Dispatch.SplitCommand | FTP-Server/FTPSession.cpp:318-324 | the verb is the upper-cased text before the first space; the parameter is everything after it, or "" without a space |
| Dispatch.SplitFormatted | FTP-Server/FTPSession.cpp:318-324 | a line "VERB SP param" splits back into the upper-cased verb and the parameter |
| Pasv.PortHigh | FTP-Server/FTPSession.cpp:626 | `(port >> 8) & 0xff` is a byte |
| Pasv.PortLow | FTP-Server/FTPSession.cpp:626 | `port & 0xff` is a byte |
| Pasv.PortBytes | FTP-Server/FTPSession.cpp:626 | the two port bytes give the port back |
| Pasv.PasvTuple | FTP-Server/FTPSession.cpp:621-626 | the tuple is enclosed in parentheses |
| Pasv.PasvText | FTP-Server/FTPSession.cpp:621-626 | the 227 text is "Entering passive mode " followed by the tuple, from "(" up to the closing ")" |
| Listing.FileLine | FTP-Server/FTPSession.cpp:400-410 | a listing line has the type, the permission string, the owner and group in ten-column fields, the padded size, and the name before CRLF, all at fixed columns |
| Listing.LineTail | FTP-Server/FTPSession.cpp:408-409 | the time and the name come after the size, then CRLF |
| Listing.OwnerColumnText | FTP-Server/FTPSession.cpp:399-406 | the owner and group columns read "     hcmus" |
| Listing.LineHead | FTP-Server/FTPSession.cpp:402-406 | the fields before the size take 37 columns |
| Listing.LineHeadFields | FTP-Server/FTPSession.cpp:402-406 | those 37 columns hold the type, the permissions, and the owner and group fields |
| Listing.LayoutOfParts | FTP-Server/FTPSession.cpp:402-409 | putting the fields together keeps each at its column |
| Listing.FileLineFields | FTP-Server/FTPSession.cpp:400-410 | the permission bits and the size read back from a listing line |
| Listing.DirListing | FTP-Server/FTPSession.cpp:398-412 | the listing exists exactly when every captured entry is still a regular file; otherwise `file_size` throws |
| Listing.Names | FTP-Server/FTPSession.cpp:438 | the entries' file names, in order |
| Listing.NameList | FTP-Server/FTPSession.cpp:436-439 | the name list is empty exactly when there are no entries; otherwise it starts with a quote and ends with CRLF, at least four characters per entry |
| Listing.NameListReadsBack | FTP-Server/FTPSession.cpp:436-439 | the name list reads back, through `std::quoted`, as the entries' names in set order |
| Listing.Zeros | FTP-Server/FTPSession.cpp:413-414 | `vector<char>(size)` holds that many zero bytes |
| Listing.ListingBufferAsWritten | FTP-Server/FTPSession.cpp:411-416 | as written, the buffer is twice as long as the text, its first half is NUL bytes and its second half is exactly the intended buffer |
| Listing.ListingBufferAsWrittenPrefixed | FTP-Server/FTPSession.cpp:411-416 | as written, the buffer is twice the listing's length, starts with as many zero bytes, and is not the listing |
| Listing.ListingBuffer | FTP-Server/FTPSession.cpp:411-416 | the intended buffer is as long as the listing |
| Listing.ListingBufferCarriesText | FTP-Server/FTPSession.cpp:411-416 | the intended buffer reads back as the listing |
| Transfer.ReadChunk | FTP-Server/FTPSession.cpp:1017-1024 | one read takes the next bytes, at most 1 MiB; eof is set exactly when fewer than 1 MiB were left |
| Transfer.Chunks | FTP-Server/FTPSession.cpp:1014-1034 | a transfer sends at least one buffer; every buffer but the last is exactly 1 MiB and the last is shorter |
| Transfer.FlattenAppend | FTP-Server/FTPSession.cpp:1014-1034 | joining buffers distributes over concatenation |
| Transfer.ChunksCover | FTP-Server/FTPSession.cpp:1014-1034 | the buffers of a transfer put together are the file from the start position on |
| Transfer.ChunkSizes | FTP-Server/FTPSession.cpp:1014-1034 | every buffer but the last is full; the last one is short, and empty when the size is a multiple of 1 MiB |
| Commands.FixedReply | FTP-Server/FTPSession.cpp:521-994 | the verbs answered without looking at the session, and only they, get a fixed reply: ACCT, STRU, MODE, PORT, STOU, ALLO and SITE are refused with 500; REIN, REST, ABOR, STAT and HELP with 502; SYST gives 215 "LINUX" and NOOP gives 200 |
| Commands.NotiPort | FTP-Server/FTPSession.cpp:480 | NOTI's port is defined exactly when `stoi` reads the parameter, and is that value cut to 16 bits |
| Commands.NotiPortOfDecimal | FTP-Server/FTPSession.cpp:480 | a port written in decimal comes back as itself; a larger number wraps modulo 65536 |
| Commands.NotiPortOf | FTP-Server/FTPSession.cpp:480 | the port is the number `stoi` read, modulo 65536 |
| Commands.SmallModulus | FTP-Server/FTPSession.cpp:480 | a 16-bit number is unchanged by the cut |
| Commands.RosterAfterAsWritten | FTP-Server/FTPSession.cpp:326-328 | as written, every recognised command leaves the session in the roster |
| Commands.QuitRejoins | FTP-Server/FTPSession.cpp:326-328 | as written, a session that quit is back in the roster right away |
| Commands.RosterAfter | FTP-Server/FTPSession.cpp:584-591 | as intended, the session is in the roster after a command exactly when it was not QUIT, and no other session changes |
| Commands.RosterRulesAgree | FTP-Server/FTPSession.cpp:326-328 | the two roster rules differ exactly on QUIT |
| Commands.AppendAll | FTP-Server/FTPSession.cpp:1094-1125 | writing the received pieces keeps the tree well formed |
| Commands.AppendNothing | FTP-Server/FTPSession.cpp:1106-1110 | a write of no bytes leaves the tree as it was |
| Commands.AppendAllFlatten | FTP-Server/FTPSession.cpp:1094-1125 | writing the received pieces one by one is one write of all of them, in order |
| Commands.UploadedFile | FTP-Server/FTPSession.cpp:684-781 | after STOR the file holds exactly the bytes received; after APPE it holds its old bytes followed by them |
| Session.UploadFlag.constructor | FTP-Server/FTPSession.hpp:120 | the one upload flag of the process starts clear |
| Session.FTPSession.constructor | FTP-Server/FTPSession.cpp:65-79 | a new session has no user, binary mode, empty queues, a closed acceptor, and not uploading |
| Session.FTPSession.LocalPath | FTP-Server/FTPSession.cpp:344-352 | as written: a logged-in user's path resolves to a canonical path that never orders below their root; it can lie outside the root (`Session.CwdEscapesRoot`) |
| Session.FTPSession.CheckPathRenamable | FTP-Server/FTPSession.cpp:362-384 | 200 exactly when a logged-in user names, with a non-empty path, an existing entry that can be read if it is a directory; otherwise 530, 501 or 550 |
| Session.FTPSession.SendFTPMsg | FTP-Server/FTPSession.cpp:119-127 | the reply line joins the back of the queue; a write starts exactly when the queue was empty |
| Session.FTPSession.MessageWritten | FTP-Server/FTPSession.cpp:152-169 | a completed write pops exactly the front and goes on while more are queued; a failed one pops nothing and stops; the lines leave in the order they were queued |
| Session.FTPSession.AddDataToBufferAndSend | FTP-Server/FTPSession.cpp:1036-1047 | the buffer joins the back of the data queue; a write starts, carrying the continuation, exactly when the queue was empty |
| Session.FTPSession.WriteDataToSocket | FTP-Server/FTPSession.cpp:1049-1077 | the front buffer is popped; a written buffer runs the continuation and the next write follows while more are queued; the null marker is popped and answered with exactly one 226 |
| Session.FTPSession.BufferWritten | FTP-Server/FTPSession.cpp:1053-1070 | a real buffer is popped and, on success, sent; a ReadMore continuation posts one more read |
| Session.FTPSession.MarkerWritten | FTP-Server/FTPSession.cpp:1071-1075 | the end marker is popped, the write chain stops and one 226 is queued |
| Session.FTPSession.Start | FTP-Server/FTPSession.cpp:95-105 | the greeting 220 is queued and the first command read starts |
| Session.FTPSession.ReadFailed | FTP-Server/FTPSession.cpp:144-149 | a read that ends without a line starts no further read |
| Session.FTPSession.CommandRead | FTP-Server/FTPSession.cpp:129-142 | the line before the first CRLF is handled: an unknown verb gets 500 with the last command unchanged; a known verb's reply is queued, its name becomes the last command, and the session is in the roster afterwards, after QUIT as well |
| Session.FTPSession.HandleFTPCmd | FTP-Server/FTPSession.cpp:318-341 | an unknown verb gets 500 and changes nothing else; a known verb's reply is queued, it becomes the last command, the session is rejoined to the roster (after QUIT too), and reading goes on unless the command was QUIT |
| Session.FTPSession.HandleKnown | FTP-Server/FTPSession.cpp:323-329 | the handler's reply is queued, the session is joined to the roster after every verb, QUIT included, and the verb becomes the last command; a handler that throws ends the session |
| Session.FTPSession.Execute | FTP-Server/FTPSession.cpp:172-316 | each verb runs its handler; only QUIT takes the session out of the roster, and no handler touches another session's place in it |
| Session.FTPSession.ExecuteLogin | FTP-Server/FTPSession.cpp:174-209 | UADD, USER, NOTI, PASS and QUIT never leave the working directory ordering below the root; only QUIT takes the session out of the roster |
| Session.FTPSession.ExecuteNavigation | FTP-Server/FTPSession.cpp:194-263 | CWD, CDUP, PWD, TYPE, PASV, SIZE and RNFR never leave the working directory ordering below the root |
| Session.FTPSession.ExecuteFiles | FTP-Server/FTPSession.cpp:232-295 | the file service handlers queue only well-formed accepts |
| Session.FTPSession.HandleUser | FTP-Server/FTPSession.cpp:457-473 | USER and UADD clear the user and store the name; an empty name gives 501, otherwise 331 |
| Session.FTPSession.HandleNoti | FTP-Server/FTPSession.cpp:475-492 | a parameter `stoi` can read sets the notification port, cut to 16 bits, and gives 200; any other makes the handler throw |
| Session.FTPSession.HandlePass | FTP-Server/FTPSession.cpp:494-519 | after USER: with valid credentials, the user is set, the working directory moves to their root and the reply is 230, otherwise 530 with nothing changed; after UADD: a fresh name is created rooted at the current directory, logged in and joined (230), a taken one gives 530; otherwise 503 |
| Session.FTPSession.HandleCwd | FTP-Server/FTPSession.cpp:526-561 | 530 without a login, 501 without a path; the working directory moves exactly to the path resolved as written when that is a readable directory (250), and 550 is given for anything else |
| Session.FTPSession.HandleCdup | FTP-Server/FTPSession.cpp:563-578 | 530 without a login; at the root, 550; otherwise CWD "..": to the parent, or to the root when the parent orders below it, when that can be read, reported as 200; from a directory below the root that is exactly one level up |
| Session.FTPSession.HandleQuit | FTP-Server/FTPSession.cpp:584-591 | the user is cleared, the session leaves the roster, the upload flag is released if this session holds it, and the reply is 221 |
| Session.FTPSession.HandlePasv | FTP-Server/FTPSession.cpp:599-629 | 530 without a login; otherwise pending accepts are cancelled, the acceptor is set up again, and the reply is 227 with the address and the chosen port, or 421 when setting up fails |
| Session.FTPSession.HandleType | FTP-Server/FTPSession.cpp:631-648 | 530 without a login; "A" selects ASCII and "I" binary (200); anything else gives 504 with the type unchanged |
| Session.FTPSession.HandleRetr | FTP-Server/FTPSession.cpp:661-682 | 530 without a login, 425 without an acceptor, 451 when the file does not open for reading; otherwise an accept is queued that sends the file's bytes (150) |
| Session.FTPSession.HandleStor | FTP-Server/FTPSession.cpp:684-727 | 530, 425, and 553 on a directory come first; then the file is truncated or created (451 when it does not open); then 553 while another upload holds the flag, else an accept is queued (150); the flag is released again before the reply |
| Session.FTPSession.HandleSize | FTP-Server/FTPSession.cpp:729-744 | 530 without a login, 425 without an acceptor; 550 for a missing entry, 213 with the size of a regular file, and a throw for a directory |
| Session.FTPSession.HandleAppe | FTP-Server/FTPSession.cpp:751-781 | 530, 425, and 550 unless the target is an existing regular file; 451 when it is not writable; otherwise an accept is queued that receives the bytes to add (150) |
| Session.FTPSession.HandleRnfr | FTP-Server/FTPSession.cpp:793-802 | a renamable source is remembered and 350 asks for the target; otherwise the check's reply is given and nothing is remembered |
| Session.FTPSession.HandleRnto | FTP-Server/FTPSession.cpp:804-844 | 530 without a login; 503 unless RNFR came just before with a source; 501 without a target; the check's reply for a bad source; 450 with no rename for an existing target; otherwise the rename's outcome, 250 with the subtree moved or 450 with nothing changed |
| Session.FTPSession.HandleDele | FTP-Server/FTPSession.cpp:851-867 | 530 without a login; 550 for a missing entry or a directory; a regular file is removed (250) when its directory is writable, and `remove` throws otherwise |
| Session.FTPSession.HandleRmd | FTP-Server/FTPSession.cpp:869-879 | 530 without a login; 550 when nothing is there; otherwise the whole subtree is removed (250), or `remove_all` throws |
| Session.FTPSession.HandleMkd | FTP-Server/FTPSession.cpp:881-891 | 530 without a login; 550 for an existing directory; a new directory (257, naming the local path) when its parent is writable; otherwise `create_directory` throws |
| Session.FTPSession.HandlePwd | FTP-Server/FTPSession.cpp:893-901 | 550 without a login; 257 with "/" at the root and the path below the root elsewhere |
| Session.FTPSession.HandleList | FTP-Server/FTPSession.cpp:903-955 | LIST and NLST: 530 without a login; 450 for a missing path, a file or an unreadable directory; otherwise the directory's entries, all of them, sorted, are captured in a queued accept, a listing for LIST and a name list for NLST (150) |
| Session.FTPSession.AcceptFailed | FTP-Server/FTPSession.cpp:390-394 | a failed accept is reported with 426 and its job is dropped |
| Session.FTPSession.SendWhole | FTP-Server/FTPSession.cpp:418-420 | the text's buffer and then the end marker join the data queue |
| Session.FTPSession.ListingAccepted | FTP-Server/FTPSession.cpp:386-422 | the listing of the captured entries, read when the client connects, is queued in the buffer as written (as many NUL bytes as the listing is long, then the listing), then the end marker; a listing that throws ends the session |
| Session.FTPSession.ListingRead | FTP-Server/FTPSession.cpp:411-420 | the listing read is queued in the buffer as written, NUL bytes first, with its end marker, or the session ends when it threw |
| Session.FTPSession.NamesAccepted | FTP-Server/FTPSession.cpp:424-453 | the name list of the captured entries is queued in the buffer as written, NUL bytes first, then the end marker |
| Session.FTPSession.FileAccepted | FTP-Server/FTPSession.cpp:996-1012 | the file stream starts at the beginning and three reads are posted |
| Session.FTPSession.UploadAccepted | FTP-Server/FTPSession.cpp:1079-1092 | reading the upload into the accepted path starts |
| Session.FTPSession.AcceptCancelled | FTP-Server/FTPSession.cpp:605-607 | an accept cancelled by PASV's close is reported with 426 |
| Session.FTPSession.ReadFileDataAndSend | FTP-Server/FTPSession.cpp:1014-1034 | at eof nothing happens; otherwise the next piece is queued with a further read, or, at eof, with the end marker; once eof is reached the pieces read and queued make up the whole file |
| Session.FTPSession.DataReceived | FTP-Server/FTPSession.cpp:1094-1125 | each piece received is added to the end of the file; a read that ends the connection stops receiving and queues 226, and after a full one receiving goes on |
| Session.RejoinedAfter | FTP-Server/FTPSession.cpp:326-328 | a join after any handler that touched no other session, QUIT included, gives the roster rule as written |
| Session.CwdEscapesRoot | FTP-Server/FTPSession.cpp:350-351 | for a user rooted at /srv/u working at the root, "../v" resolves to /srv/v: the session invariant holds there although /srv/v is outside the root, and PWD would show "" |
| Client.Frame | FTP-Client/FTPClient.cpp:87-94 | every command goes out with CRLF after it |
| Client.FrameRoundTrip | FTP-Client/FTPClient.cpp:89 | a framed command reaches the server's handler exactly as written, whatever follows it |
| Client.IsNegative | FTP-Client/FTPClient.cpp:7 | a reply is negative when its code is 400 or more; for a reply the server writes, exactly when the first digit on the wire is 4 or higher |
| Client.FirstDigitOnWire | FTP-Client/FTPClient.cpp:7 | the first character of a reply line is the code's hundreds digit |
| Client.LineLength | FTP-Client/FTPClient.cpp:70-71 | `read_until` returns 0 exactly when there is no CRLF, and otherwise the length up to and including the first CRLF, with no CRLF before it |
| Client.NoCrlfHead | FTP-Client/FTPClient.cpp:81-82 | a reply line holds no CRLF before its end |
| Client.WireLayout | FTP-Client/FTPClient.cpp:81-82 | in a reply line the code takes the first three characters and the text starts at index 4 |
| Client.ReadReplyAsWritten | FTP-Client/FTPClient.cpp:81-82 | as written, the code is `stoi` of the first three characters, and the text runs from index 4 through the CRLF that ends the line |
| Client.ReadReplyAsWrittenKeepsCrlf | FTP-Client/FTPClient.cpp:81-82 | as written, the text read back is the server's text with the CRLF, followed by up to two characters of what the same read brought after it |
| Client.ReadReplyAsWrittenMismatch | FTP-Client/FTPClient.cpp:81-82 | as written, the server's greeting does not read back as itself |
| Client.ReadReply | FTP-Client/FTPClient.cpp:81-84 | the code is the integer in the first three characters |
| Client.ReadReplyOfWire | FTP-Client/FTPClient.cpp:81-84 | as intended, every reply the server writes reads back as itself, whatever follows it |
| Client.PortOf | FTP-Client/FTPClient.cpp:249-253 | the port `(n1 << 8) \| n2` is a 16-bit value |
| Client.Field | FTP-Client/FTPClient.cpp:239-252 | one field search fails exactly when its start is past the end; it ends at the next separator, and when one is found the field is the text between the two separators |
| Client.FirstField | FTP-Client/FTPClient.cpp:235-237 | the first address field runs from just after "(" to the first ","; without any "(" it starts at the beginning of the text |
| Client.AddressFields | FTP-Client/FTPClient.cpp:239-244 | the address loop extends the first field, adding at least one character per round |
| Client.PortPart | FTP-Client/FTPClient.cpp:247-253 | the decoded port is a 16-bit value |
| Client.DecodePasv | FTP-Client/FTPClient.cpp:234-253 | the decoded port is a 16-bit value |
| Client.PasvRoundTrip | FTP-Client/FTPClient.cpp:234-253 | the decoder inverts the server's encoder: the address is the four octets joined by ".", the port is the one the server chose |
| Client.PortOfBytes | FTP-Client/FTPClient.cpp:247-253 | the port fields the server writes give the port back |
| Client.PasvTextDecodes | FTP-Client/FTPClient.cpp:234-253 | the text of the server's 227 reply, followed by CRLF and up to two further characters as the client reads it, decodes to its address and port |
| ClientSession.ParsePasv | FTP-Client/FTPClient.cpp:234-253 | the field loop of `resetDataSocket` computes exactly the decoder |
| ClientSession.PasswordAccepted | FTP-Client/FTPClient.cpp:51-62 | against a server that answers 331 and then accepts, login sends both commands, reads both replies and reports success |
| ClientSession.OpeningRefused | FTP-Client/FTPClient.cpp:51-62 | a refusal of the opening command ends the exchange, sends no PASS, and reports failure |
| ClientSession.PasswordRefused | FTP-Client/FTPClient.cpp:51-62 | against a server that answers 331 and then refuses the password, login sends both commands, reads both replies and reports failure |
| ClientSession.PasvReplyDecodes | FTP-Client/FTPClient.cpp:225-253 | the server's PASV reply, read as written, keeps the CRLF, and the decoder still gives the endpoint it announced |
| ClientSession.NoCrJoin | FTP-Client/FTPClient.cpp:81-82 | joining texts without carriage returns gives one without |
| ClientSession.PasvTextNoCrlf | FTP-Client/FTPClient.cpp:81-82 | the 227 text holds no CRLF, so it travels as one line |
| ClientSession.FTPClient.constructor | FTP-Client/FTPClient.cpp:9 | a new client has sent nothing |
| ClientSession.FTPClient.SendCmd | FTP-Client/FTPClient.cpp:87-94 | the command with CRLF is written after everything already sent |
| ClientSession.FTPClient.ReadFTPMsg | FTP-Client/FTPClient.cpp:68-85 | one line is consumed and parsed as written into the code and the text with its CRLF; a failed parse throws |
| ClientSession.FTPClient.Authenticate | FTP-Client/FTPClient.cpp:51-62 | the opening command is sent; PASS is sent only after a 331; the result is whether the last reply read is negative |
| ClientSession.FTPClient.Login | FTP-Client/FTPClient.cpp:51-66 | the exchange is opened with "USER <name>" |
| ClientSession.FTPClient.Signup | FTP-Client/FTPClient.cpp:34-49 | the exchange is opened with "UADD <name>" |
| ClientSession.FTPClient.ResetDataSocket | FTP-Client/FTPClient.cpp:225-253 | PASV is sent; the reply is read as written; a negative reply is refused before any parsing; a positive one's text is decoded into the endpoint |
| Shell.Word | FTP-Client/command.cpp:74 | a word is the longest prefix without white space |
| Shell.Words | FTP-Client/command.cpp:72-74 | the words `>>` extracts from a line are non-empty and hold no white space |
| Shell.WordUpTo | FTP-Client/command.cpp:74 | a run of non-space characters up to white space is the first word |
| Shell.WordsSkipSpace | FTP-Client/command.cpp:74 | leading white space gives no word |
| Shell.Extract | FTP-Client/command.cpp:72-74 | one `>>` skips white space and takes the next word, or "" when none is left; the words after it are the rest |
| Shell.WordAt | FTP-Client/command.cpp:74 | the characters up to white space are the first word, and what follows holds the rest |
| Shell.MapCall | FTP-Client/command.cpp:9-41 | `ls` asks for " " when no directory is given; `cd`, `mkdir`, `rm` and `rmdir` make no call without a parameter and one call with it |
| Shell.Calls | FTP-Client/command.cpp:75-84 | a map command gets the first parameter; `up` and `down` get the first and second, in that order; anything else makes no call |
| Shell.ProcessCmd | FTP-Client/command.cpp:71-89 | the first three words choose the calls, missing ones are ""; the result is false exactly when the first word is `exit` |
| Shell.UnwordsRoundTrip | FTP-Client/command.cpp:72-74 | a line of words joined by spaces splits back into exactly those words |
| Shell.WordThen | FTP-Client/command.cpp:74 | a word followed by white space or the end is the first word |
| Shell.TypedLine | FTP-Client/command.cpp:72-74 | the shell sees the typed words in order; missing ones are "" and further ones are ignored |

## Left out

- `FTPMsgs.hpp` is not part of this model. The reply codes follow their RFC 959 values, and the reply line is assumed to be "code SP text CRLF".
- Sockets, strands, the `io_context` and the thread pool: each socket completion is an explicit step. An error code is a parameter of the step that reports it.
- The NOTI connect, the client's `connect`/`close`, `closeDataSocket`, `dataRecv`, and the connect at the end of `resetDataSocket` are left out: they are socket plumbing with no effect on the modelled state. NOTI keeps only the port it would connect to.
- `deliver`: the roster's notices go to an outbox instead of the notification sockets.
- `timeString` is a parameter of the LIST step, because it depends on the clock, the time zone and the locale.
- Bytes that `read_until` reads past the first CRLF are dropped with the buffer. Each element of the client's inbox is what one read returns; what it holds past the first CRLF is lost, except for the two characters the as-written `substr` keeps.
- The roster's `std::set<session_ptr>` order is not modelled: its iteration order is any listing of the members.
- Session.FTPSession.HandlePwd: for a user whose root is "/", the contract gives only the general formula. Under that root the cut also drops the leading '/' (`Paths.Local2FTPPathBelowRoot` states it).
- `fs::exists`, `is_directory` and `is_regular_file` never throw in the model. So the "Cannot read file status." and "Permission denied" replies of the status checks in STOR, APPE, CWD and LIST cannot occur; unreadable directories are the only permission modelled.
- DELE's "Unable to delete file" cannot occur: `remove` of an existing file either removes it or throws.
- One RETR file stream per session: a second RETR accepted while the first is still sending replaces the stream.
- RETR sends the file's bytes as they were when the handler opened it; later changes to the file are not seen.
- FileSystem.OpenRead: opening a directory for reading is modelled as a failed open, so RETR of a directory answers 451. This is a modelling choice. What a `std::fstream` reports for a directory depends on the standard library: with libstdc++ on Linux the open itself can succeed and the failure shows only at the first read.
- The transfer type (ASCII or binary) is recorded but has no effect on the data, as in the source.
- Session.FTPSession.HandleStor: the upload flag is taken and released inside the handler, as the source does, so it never excludes a concurrent upload.
- An exception escaping a handler ends the whole server in the source. The model ends only this session: `alive` becomes false and its reply is None.
- Session.FTPSession.HandlePasv: pending accepts that PASV cancels are counted in `aborted`, and each is answered with 426 by a later AcceptCancelled step.
- Session.FTPSession.DataReceived: each received piece is written as soon as it arrives. The source writes it on the file strand after starting the next read.
- Session.FTPSession.UploadAccepted: one upload in progress per session. A second STOR or APPE accepted while the first is still receiving replaces it: later pieces go to the second path, and only one 226 is queued. The source gives each accept its own socket and `ofstream` (FTPSession.cpp:1079-1125), so both uploads finish, each with its own 226.
- Session.FTPSession.HandleRmd: when `remove_all` throws, the model keeps the tree as it was. The library removes entries one by one and throws at the first that fails, so in the source the entries removed before the failure stay removed.
- Session.FTPSession.HandleCwd: the 250 reply repeats the parameter as typed. The source writes `fs::path(param).generic_string()` (FTPSession.cpp:560), which with libstdc++ rebuilds the text element by element and collapses repeated separators, so "CWD a//b" is answered "Working directory changed to a/b".
- Session.FTPSession.DataReceived: the upload is keyed by its path, not by the `ofstream` that STOR or APPE opened (FTPSession.cpp:710, 1118-1125). So the model differs from the source when the target is renamed or deleted during an upload. After RNFR/RNTO of the target, the source keeps filling the renamed file; the model drops the bytes, or adds them to a new file that has taken the old name. The stream's buffering is not modelled either: in the model SIZE and RETR see each piece as soon as it is written, where the source's bytes can reach the disk later.
- Paths.Normalize: `weakly_canonical` is modelled as a purely lexical normalisation that drops empty segments. The real function canonicalises the existing prefix, appends the missing tail, and applies `lexically_normal`, which keeps a trailing separator after a missing entry ("foo/./bar/.." becomes "foo/"). Symbolic links, which `weakly_canonical` resolves, are not modelled: the tree has none.
- Paths.ResolveAsWritten: because of the Normalize gap, the trailing separator is never kept. Two consequences: "MKD new/" in root /srv/u is answered "Successfully created directory /srv/u/new" where the source names /srv/u/new/. And after "CWD nope/.." from the root, where nope does not exist, the source's working directory is "/srv/u/", which differs element by element from the root, so a following CDUP runs CWD "..", is clamped back to the root and answers 200; in the model the working directory is /srv/u and the same CDUP answers 550 "Already at root directory".
- The mutexes of `UserDatabase` and `FTPLoggedUser` are left out: each locked body is one atomic method.
- `FTPSession`'s destructor, `getUserName` (the field `username`), `startClient`, and the client's `upload`, `download`, `ls` and `pwd` bodies are left out. They are I/O over names the source does not declare.
- Session.FTPSession.HandleFTPCmd: the contract states the roster's members after a command, not the notices each join adds to the outbox; `LoggedUsers.Roster.Join` states those.
- Session.FTPSession.CommandRead: the same as HandleFTPCmd for the outbox.
- Session.FTPSession.HandleKnown: the same as HandleFTPCmd for the outbox.
- Session.FTPSession.HandleFTPCmd: this step and the other command-side steps (CommandRead, HandleKnown, DataReceived) keep `ControlValid`, the command side of the invariant. The data-side steps keep `DataValid`. Each step leaves the other half's fields untouched, since they are outside its `modifies` clause.
- `cmdMap.find` over a `std::map` is a search of the verb table in its listed order. Only its result is modelled.
- The single accept lambda each handler installs is one step per job kind here: ListingAccepted, NamesAccepted, FileAccepted, UploadAccepted, and AcceptFailed for the error.

## Findings

For each row, the session and the client run the member that models the code as written. The corrected member states the evidently intended rule, and its property is proved. A lemma beside each pair says where the two differ.

| source | as written | input that shows it | evidently intended | confidence | as-written member | corrected member |
|---|---|---|---|---|---|---|
| FTP-Server/FTPSession.cpp:350-351 | the result of `FTP2LocalPath` is clamped to the root only when it orders below the root (`path < root`) | root /srv/u, working directory /srv/u, path "../v": the result /srv/v orders above /srv/u and is outside the sandbox | any result outside the user's root is replaced by the root | high, not executed | Paths.ResolveAsWritten, Paths.ResolveAsWrittenEscapesToSibling, Session.CwdEscapesRoot | Paths.Resolve, Paths.ResolveDotDots |
| FTP-Client/FTPClient.cpp:82 | `line.substr(4, len - 2)` counts `len - 2` characters from index 4, past the end of the text | the greeting "220 Welcome to fineFTP Server\r\n": the text read is "Welcome to fineFTP Server\r\n" | the text runs from index 4 up to the CRLF (`len - 6` characters) | high, not executed | Client.ReadReplyAsWritten, Client.ReadReplyAsWrittenKeepsCrlf | Client.ReadReply, Client.ReadReplyOfWire |
| FTP-Server/FTPSession.cpp:413-416 | the listing buffer is built as `vector<char>(size)` and then the text is appended with `back_inserter` | a one-line listing of n bytes: the client receives n NUL bytes before it | the buffer holds exactly the listing's bytes | high, not executed | Listing.ListingBufferAsWritten, Listing.ListingBufferAsWrittenPrefixed | Listing.ListingBuffer, Listing.ListingBufferCarriesText |
| FTP-Server/FTPSession.cpp:326-328 | after every recognised command, QUIT included, the session calls `contactHandler_(…, true)` and rejoins the roster QUIT has just left | QUIT: the handler leaves the roster, then the session is joined again and every member is told "<name> logged in" | QUIT leaves the session out of the roster | medium, not executed | Commands.RosterAfterAsWritten, Commands.QuitRejoins | Commands.RosterAfter, Commands.RosterRulesAgree |
