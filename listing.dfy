/** The data sent for LIST and NLST (`sendDirListing`, `sendNameList`). */
module Listing {
  import opened Wrappers
  import opened Text
  import opened Paths
  import opened FileSystem

  /** The owner and group shown for every entry. */
  const Owner: string := "hcmus"

  /** `entry.filename()`. */
  function Name(p: Path): string
    requires p != []
  {
    p[|p| - 1]
  }

  /** One line of `sendDirListing` for an entry whose `file_size` is known:
      type, permissions, link count, owner, group, size, time and name. The
      fields sit at fixed columns: the type in column 0, the permission
      string in columns 1-9, the owner and group in their ten-column fields,
      the padded size from column 37, and the name just before the closing
      CRLF. */
  function FileLine(isDir: bool, mode: Mode, size: nat, time: string, name: string): (line: string)
    ensures |line| == 37 + |PadLeft(NatToString(size), 10)| + |time| + |name| + 4
    ensures line[0] == (if isDir then 'd' else '-') && line[1..10] == PermString(mode)
    ensures line[15..25] == "     hcmus" && line[26..36] == "     hcmus"
    ensures var sz := PadLeft(NatToString(size), 10); line[37..37 + |sz|] == sz
    ensures line[|line| - |name| - 2..] == name + "\r\n"
  {
    LineHeadFields(isDir, mode);
    LayoutOfParts(LineHead(isDir, mode), PadLeft(NatToString(size), 10), LineTail(time, name), name,
                  if isDir then 'd' else '-', PermString(mode), "     hcmus");
    LineHead(isDir, mode) + PadLeft(NatToString(size), 10) + LineTail(time, name)
  }

  /** The time and the name after the size, then CRLF. */
  function LineTail(time: string, name: string): (t: string)
    ensures |t| == |time| + |name| + 4 && t[|t| - |name| - 2..] == name + "\r\n"
  {
    " " + time + " " + name + "\r\n"
  }

  /** `std::setw(10) << ownerStr`, and the same for the group. */
  const OwnerColumn: string := PadLeft(Owner, 10)

  lemma OwnerColumnText()
    ensures OwnerColumn == "     hcmus"
  {
  }

  /** The 37 columns before the size: type, permissions, the link count,
      owner and group. */
  function LineHead(isDir: bool, mode: Mode): (h: string)
    ensures |h| == 37
  {
    [if isDir then 'd' else '-'] + PermString(mode) + "   1 " + OwnerColumn + " " + OwnerColumn + " "
  }

  lemma LineHeadFields(isDir: bool, mode: Mode)
    ensures var h := LineHead(isDir, mode);
      && h[0] == (if isDir then 'd' else '-')
      && h[1..10] == PermString(mode)
      && h[15..25] == "     hcmus" && h[26..36] == "     hcmus"
  {
    var t, p, o := [if isDir then 'd' else '-'], PermString(mode), OwnerColumn;
    OwnerColumnText();
    var x1 := t + p;
    var x2 := x1 + "   1 ";
    var x3 := x2 + o;
    var x4 := x3 + " ";
    var x5 := x4 + o;
    assert LineHead(isDir, mode) == x5 + " ";
    SliceOfJoin(x5, " ", 1, 10); SliceOfJoin(x4, o, 1, 10); SliceOfJoin(x3, " ", 1, 10);
    SliceOfJoin(x2, o, 1, 10); SliceOfJoin(x1, "   1 ", 1, 10); SliceOfJoin(t, p, 1, 10);
    assert p[0..9] == p;
    SliceOfJoin(x5, " ", 15, 25); SliceOfJoin(x4, o, 15, 25); SliceOfJoin(x3, " ", 15, 25);
    SliceOfJoin(x2, o, 15, 25);
    assert o[0..10] == o;
    SliceOfJoin(x5, " ", 26, 36); SliceOfJoin(x4, o, 26, 36);
  }

  /** The same, for any 37-column head, size field and tail. */
  lemma LayoutOfParts(h: string, sz: string, tail: string, name: string, kind: char, perms: string, owner: string)
    requires |h| == 37 && h[0] == kind && h[1..10] == perms && h[15..25] == owner && h[26..36] == owner
    requires |tail| >= |name| + 2 && tail[|tail| - |name| - 2..] == name + "\r\n"
    ensures var line := h + sz + tail;
      && line[0] == kind && line[1..10] == perms && line[15..25] == owner && line[26..36] == owner
      && line[37..37 + |sz|] == sz
      && line[|line| - |name| - 2..] == name + "\r\n"
  {
    var x := h + sz;
    var line := x + tail;
    SliceOfJoin(x, tail, 1, 10); SliceOfJoin(h, sz, 1, 10);
    SliceOfJoin(x, tail, 15, 25); SliceOfJoin(h, sz, 15, 25);
    SliceOfJoin(x, tail, 26, 36); SliceOfJoin(h, sz, 26, 36);
    SliceOfJoin(x, tail, 37, 37 + |sz|); SliceOfJoin(h, sz, 37, 37 + |sz|);
    assert sz[0..|sz|] == sz;
    SliceOfJoin(x, tail, |line| - |name| - 2, |line|);
    assert tail[|tail| - |name| - 2..|tail|] == tail[|tail| - |name| - 2..];
  }

  /** The fields of a listing line read back: the permission bits from
      columns 1-9 and the size from the field after the group, its padding
      skipped by `stoi`. */
  lemma FileLineFields(isDir: bool, mode: Mode, size: nat, time: string, name: string)
    requires size <= IntMax
    ensures var line := FileLine(isDir, mode, size, time, name);
      && ParsePerms(line[1..10]) == mode & 0x1FF
      && Stoi(line[37..37 + |PadLeft(NatToString(size), 10)|]) == Some(size)
  {
    PermStringRoundTrip(mode);
    StoiOfPadded(size, 10);
  }

  /** `sendDirListing`'s text for the captured entries, read at the moment the
      client connects. `file_size` throws for anything that is not a regular
      file (a sub-directory, or an entry removed meanwhile), which ends the
      server: None. */
  function DirListing(t: Tree, entries: seq<Path>, timeOf: Path -> string): (r: Option<string>)
    requires forall i :: 0 <= i < |entries| ==> entries[i] != []
    ensures r.Some? <==> forall i :: 0 <= i < |entries| ==> IsRegularFile(t, entries[i])
  {
    if entries == [] then Some("")
    else
      var e := entries[0];
      if !IsRegularFile(t, e) then None
      else match DirListing(t, entries[1..], timeOf) {
        case None => None
        case Some(rest) =>
          Some(FileLine(false, t[e].mode, |t[e].data|, timeOf(e), Name(e)) + rest)
      }
  }

  /** `sendNameList`'s text: each entry's name as `operator<<` of a path
      writes it, through `std::quoted`, then CRLF. */
  function NameList(entries: seq<Path>): (s: string)
    requires forall i :: 0 <= i < |entries| ==> entries[i] != []
    ensures |s| >= 4 * |entries|
    ensures s == "" <==> entries == []
    ensures entries != [] ==> s[0] == '"' && s[|s| - 2..] == "\r\n"
  {
    if entries == [] then "" else Quoted(Name(entries[0])) + ("\r\n" + NameList(entries[1..]))
  }

  /** Reading names back with `std::quoted` gives the entries' names in set
      order. */
  lemma {:induction false} NameListReadsBack(entries: seq<Path>)
    requires forall i :: 0 <= i < |entries| ==> entries[i] != []
    ensures ReadNames(NameList(entries), |entries|) == Some(Names(entries))
    decreases |entries|
  {
    if entries != [] {
      var tail := "\r\n" + NameList(entries[1..]);
      QuotedRoundTrip(Name(entries[0]), tail);
      assert tail[..2] == "\r\n" && tail[2..] == NameList(entries[1..]);
      NameListReadsBack(entries[1..]);
    }
  }

  function Names(entries: seq<Path>): (ns: seq<string>)
    requires forall i :: 0 <= i < |entries| ==> entries[i] != []
    ensures |ns| == |entries| && forall i :: 0 <= i < |entries| ==> ns[i] == Name(entries[i])
  {
    if entries == [] then [] else [Name(entries[0])] + Names(entries[1..])
  }

  /** `n` quoted names, each followed by CRLF. */
  function ReadNames(s: string, n: nat): (r: Option<seq<string>>)
    decreases n
  {
    if n == 0 then Some([])
    else match Unquote(s) {
      case None => None
      case Some(p) =>
        if |p.1| < 2 || p.1[..2] != "\r\n" then None
        else match ReadNames(p.1[2..], n - 1) {
          case None => None
          case Some(names) => Some([p.0] + names)
        }
    }
  }

  // The buffer handed to the data connection. Both senders build it as
  // `vector<char>(size)` and then append the text through `back_inserter`.

  function Zeros(n: nat): (z: seq<byte>)
    ensures |z| == n && forall i :: 0 <= i < n ==> z[i] == 0
  {
    seq(n, _ => 0)
  }

  /** As written: the vector already holds `size` zero bytes, and the text is
      appended after them. */
  function ListingBufferAsWritten(text: string): (b: seq<byte>)
    ensures |b| == 2 * |text|
    ensures b[..|text|] == Zeros(|text|) && b[|text|..] == ListingBuffer(text)
  {
    Zeros(|text|) + ToBytes(text)
  }

  /** The client receives as many NUL bytes as the listing is long before the
      listing itself. */
  lemma ListingBufferAsWrittenPrefixed(text: string)
    requires |text| > 0 && IsByteString(text)
    ensures var b := ListingBufferAsWritten(text);
      && |b| == 2 * |text|
      && b[..|text|] == Zeros(|text|)
      && FromBytes(b) != text
  {
    var b := ListingBufferAsWritten(text);
    assert b[..|text|] == Zeros(|text|);
  }

  /** The intended buffer: the bytes of the text and nothing else. */
  function ListingBuffer(text: string): (b: seq<byte>)
    ensures |b| == |text|
  {
    ToBytes(text)
  }

  lemma ListingBufferCarriesText(text: string)
    requires IsByteString(text)
    ensures FromBytes(ListingBuffer(text)) == text
  {
    BytesRoundTrip(text);
  }
}
