/** The client side of the control connection (FTPClient): reply parsing,
    command framing, the login and sign-up exchanges, and decoding the PASV
    reply into a data endpoint. */
module Client {
  import opened Wrappers
  import opened Text
  import opened Replies
  import opened Pasv
  import Dispatch

  /** `isNegative`: a reply is negative when its code is 400 or more; for a
      reply the server writes, exactly when the first digit on the wire is
      4 or higher (the transient and permanent negative classes of section
      4.2 of RFC 959, and anything above them). */
  predicate IsNegative(r: Reply): (neg: bool)
    ensures WellFormed(r) ==> (neg <==> Wire(r)[0] >= '4')
  {
    if WellFormed(r) then FirstDigitOnWire(r); r.code >= 400 else r.code >= 400
  }

  lemma FirstDigitOnWire(r: Reply)
    requires WellFormed(r)
    ensures Wire(r)[0] as int - '0' as int == r.code / 100
  {
    ThreeDigits(r.code);
    assert NatToString(r.code) == NatToString(r.code / 10) + [DigitChar(r.code % 10)];
    assert NatToString(r.code / 10) == NatToString(r.code / 100) + [DigitChar(r.code / 10 % 10)];
    assert Wire(r)[0] == NatToString(r.code)[0];
  }

  /** `sendCmd`: every command goes out with CRLF after it. */
  function Frame(cmd: string): (line: string)
    ensures |line| == |cmd| + 2 && line[..|cmd|] == cmd && line[|cmd|..] == "\r\n"
  {
    cmd + "\r\n"
  }

  /** A framed command reaches the server's handler as it was written, and
      whatever followed it in the same read is not part of it. */
  lemma FrameRoundTrip(cmd: string, rest: string)
    requires NoCrlf(cmd)
    ensures Dispatch.ReadCommandLine(Frame(cmd) + rest) == Some(cmd)
  {
    assert Frame(cmd) + rest == cmd + "\r\n" + rest;
    FindCrlfAfter(cmd, rest);
    assert (cmd + "\r\n" + rest)[..|cmd|] == cmd;
  }

  /** The value `read_until` returns: the length up to and including the
      first CRLF, 0 when the read ended without one. */
  function LineLength(line: string): (len: nat)
    ensures len == 0 <==> FindCrlf(line).None?
    ensures len > 0 ==> 2 <= len <= |line| && line[len - 2..len] == "\r\n" && NoCrlf(line[..len - 2])
  {
    match FindCrlf(line) {
      case Some(i) => i + 2
      case None => 0
    }
  }

  /** `readFTPMsg` as written: the code is `stoi` of the first three
      characters and the text is `line.substr(4, len - 2)`, which counts
      `len - 2` characters from index 4 and so keeps the CRLF. None stands for
      an exception from `stoi` or `substr`. */
  function ReadReplyAsWritten(line: string): (r: Option<Reply>)
    ensures r.Some? ==> |line| >= 4 && Stoi(line[..3]) == Some(r.value.code)
    ensures r.Some? && |line| < NPOS && FindCrlf(line).Some? && FindCrlf(line).value >= 2 ==>
      line[4..FindCrlf(line).value + 2] <= r.value.text
  {
    match Stoi(SubStr(line, 0, 3).value) {
      case None => None
      case Some(code) =>
        match SubStr(line, 4, SizeSub(LineLength(line), 2)) {
          case None => None
          case Some(text) => Some(Reply(code, text))
        }
    }
  }

  lemma NoCrlfHead(r: Reply)
    requires WellFormed(r)
    ensures NoCrlf(NatToString(r.code) + " " + r.text)
  {
    ThreeDigits(r.code);
    var h := NatToString(r.code) + " " + r.text;
    forall i | 0 <= i < |h| - 1 ensures !(h[i] == '\r' && h[i + 1] == '\n') {
      if i >= 4 {
        assert h[i] == r.text[i - 4] && h[i + 1] == r.text[i - 3];
      } else {
        assert h[i] == '\r' ==> false by {
          if i < 3 { assert IsDigit(NatToString(r.code)[i]); }
        }
      }
    }
  }

  lemma WireLayout(r: Reply, rest: string)
    requires WellFormed(r)
    ensures var line := Wire(r) + rest;
      && FindCrlf(line) == Some(4 + |r.text|)
      && line[..3] == NatToString(r.code)
      && line[4..4 + |r.text|] == r.text
      && line[4..6 + |r.text|] == r.text + "\r\n"
  {
    ThreeDigits(r.code);
    var h := NatToString(r.code) + " " + r.text;
    NoCrlfHead(r);
    assert Wire(r) + rest == h + "\r\n" + rest;
    FindCrlfAfter(h, rest);
  }

  /** Reading a server reply as written keeps the CRLF at the end of its
      text, and with it up to two characters of whatever the same read
      brought after it. */
  lemma ReadReplyAsWrittenKeepsCrlf(r: Reply, rest: string)
    requires WellFormed(r) && |Wire(r)| < NPOS
    ensures var k := if |rest| < 2 then |rest| else 2;
      ReadReplyAsWritten(Wire(r) + rest) == Some(Reply(r.code, r.text + "\r\n" + rest[..k]))
  {
    var line := Wire(r) + rest;
    var k := if |rest| < 2 then |rest| else 2;
    WireLayout(r, rest);
    assert LineLength(line) == |r.text| + 6;
    StoiOfNatToString(r.code);
    assert SizeSub(LineLength(line), 2) == |r.text| + 4;
    assert line[4..6 + |r.text| + k] == r.text + "\r\n" + rest[..k] by {
      assert line[6 + |r.text|..6 + |r.text| + k] == rest[..k];
    }
  }

  /** So the welcome reply does not read back as itself. */
  lemma ReadReplyAsWrittenMismatch()
    ensures ReadReplyAsWritten(Wire(Reply(220, "Welcome to fineFTP Server")))
            != Some(Reply(220, "Welcome to fineFTP Server"))
  {
    var r := Reply(220, "Welcome to fineFTP Server");
    assert NoCrlf(r.text);
    assert |Wire(r)| == 31;
    ReadReplyAsWrittenKeepsCrlf(r, "");
    assert Wire(r) + "" == Wire(r);
    assert r.text + "\r\n" != r.text;
  }

  /** The intended reading, `line.substr(4, len - 6)`: the text runs from
      index 4 up to the CRLF; every exception of the code as written stays. */
  function ReadReply(line: string): (r: Option<Reply>)
    ensures r.Some? ==> |line| >= 4 && Stoi(line[..3]) == Some(r.value.code)
  {
    match Stoi(SubStr(line, 0, 3).value) {
      case None => None
      case Some(code) =>
        match SubStr(line, 4, SizeSub(LineLength(line), 6)) {
          case None => None
          case Some(text) => Some(Reply(code, text))
        }
    }
  }

  /** A reply the server writes reads back as itself, whatever follows it. */
  lemma ReadReplyOfWire(r: Reply, rest: string)
    requires WellFormed(r) && |Wire(r)| < NPOS
    ensures ReadReply(Wire(r) + rest) == Some(r)
  {
    WireLayout(r, rest);
    StoiOfNatToString(r.code);
    assert LineLength(Wire(r) + rest) == |r.text| + 6;
  }

  // Decoding the PASV reply (`resetDataSocket`), with `size_t` positions.

  datatype Endpoint = Endpoint(ip: string, port: nat)

  /** One field: from just after the separator at `pos1` up to the next `c`;
      `substr(pos, pos_1 - pos)`. None where `substr` throws. */
  function Field(msg: string, pos1: nat, c: char): (r: Option<(string, nat)>)
    ensures r.Some? <==> SizeAdd(pos1, 1) <= |msg|
    ensures r.Some? ==> r.value.1 == FindChar(msg, c, SizeAdd(pos1, 1))
    ensures r.Some? && r.value.1 != NPOS && |msg| < NPOS ==>
      msg[r.value.1] == c && r.value.0 == msg[SizeAdd(pos1, 1)..r.value.1]
  {
    var pos := SizeAdd(pos1, 1);
    var next := FindChar(msg, c, SizeAdd(pos1, 1));
    assert next != NPOS && |msg| < NPOS ==> SizeSub(next, pos) == next - pos < |msg| - pos;
    match SubStr(msg, pos, SizeSub(next, pos)) {
      case None => None
      case Some(f) => Some((f, next))
    }
  }

  /** A field search that found `d`, ending at `next`. */
  predicate Found(r: Option<(string, nat)>, d: string, next: nat) {
    r.Some? && r.value.0 == d && r.value.1 == next
  }

  /** `Field` finds `d`, ending at `next`. */
  predicate FieldIs(msg: string, pos1: nat, c: char, d: string, next: nat) {
    Found(Field(msg, pos1, c), d, next)
  }

  /** The loop over the last three address fields, each appended after ".". */
  function AddressFields(msg: string, ip: string, pos1: nat, k: nat): (r: Option<(string, nat)>)
    ensures r.Some? ==> ip <= r.value.0 && |r.value.0| >= |ip| + k
    decreases k
  {
    if k == 0 then Some((ip, pos1))
    else match Field(msg, pos1, ',') {
      case None => None
      case Some(f) => AddressFields(msg, ip + "." + f.0, f.1, k - 1)
    }
  }

  /** `(n1 << 8) | n2` from the two port fields, each cut to a byte. */
  function PortOf(high: string, low: string): (r: Option<nat>)
    ensures r.Some? ==> r.value < 0x1_0000
  {
    match (Stoi(high), Stoi(low)) {
      case (Some(n1), Some(n2)) => Some(ToUint8(n1) * 256 + ToUint8(n2))
      case _ => None
    }
  }

  /** The first address field: from just after the first "(" up to the
      first ",", with the position of that comma. */
  function FirstField(msg: string): (r: Option<(string, nat)>)
    ensures r.Some? <==> SizeAdd(FindChar(msg, '(', 0), 1) <= |msg|
    ensures r.Some? ==> r.value.1 == FindChar(msg, ',', 0)
    ensures var open, comma := FindChar(msg, '(', 0), FindChar(msg, ',', 0);
      r.Some? && |msg| < NPOS && open != NPOS && open < comma < NPOS ==> r.value.0 == msg[open + 1..comma]
    ensures var comma := FindChar(msg, ',', 0);
      |msg| < NPOS && FindChar(msg, '(', 0) == NPOS && comma != NPOS ==> r == Some((msg[..comma], comma))
  {
    var pos := SizeAdd(FindChar(msg, '(', 0), 1);
    var pos1 := FindChar(msg, ',', 0);
    assert FindChar(msg, '(', 0) == NPOS ==> pos == 0;
    match SubStr(msg, pos, SizeSub(pos1, pos)) {
      case None => None
      case Some(first) => Some((first, pos1))
    }
  }

  /** The port from the two fields after the comma at `pos1`, the second
      ending at ")". */
  function PortPart(msg: string, pos1: nat): (r: Option<nat>)
    ensures r.Some? ==> r.value < 0x1_0000
  {
    match Field(msg, pos1, ',') {
      case None => None
      case Some(f1) =>
        match Field(msg, f1.1, ')') {
          case None => None
          case Some(f2) => PortOf(f1.0, f2.0)
        }
    }
  }

  /** What `resetDataSocket` computes from an accepted PASV reply's text:
      the address from the four fields after "(", joined by ".", and the port
      `(n1 << 8) | n2` from the last two. None: an exception escapes. */
  function DecodePasv(msg: string): (r: Option<Endpoint>)
    ensures r.Some? ==> r.value.port < 0x1_0000
  {
    match FirstField(msg) {
      case None => None
      case Some(f) =>
        match AddressFields(msg, f.0, f.1, 3) {
          case None => None
          case Some(a) =>
            match PortPart(msg, a.1) {
              case None => None
              case Some(port) => Some(Endpoint(a.0, port))
            }
        }
    }
  }

  /** The address the decoder builds for the four octets. */
  function IpString(ip: seq<byte>): string
    requires |ip| == 4
  {
    NatToString(ip[0] as nat) + "." + NatToString(ip[1] as nat) + "."
    + NatToString(ip[2] as nat) + "." + NatToString(ip[3] as nat)
  }

  /** `find` stops at the first `c` when none comes before it. */
  lemma {:induction false} FindCharAt(s: string, c: char, from: nat, j: nat)
    requires from <= j < |s| && s[j] == c
    requires forall k :: from <= k < j ==> s[k] != c
    ensures FindChar(s, c, from) == j
    decreases j - from
  {
    if from < j {
      FindCharAt(s, c, from + 1, j);
    }
  }

  /** A run of digits at `start` ending at a `c`: `find(c, start)` lands just
      after the digits. */
  lemma FindAfterDigits(s: string, c: char, start: nat, d: string)
    requires !IsDigit(c) && AllDigits(d)
    requires start + |d| < |s| && s[start..start + |d|] == d && s[start + |d|] == c
    ensures FindChar(s, c, start) == start + |d|
  {
    forall k | start <= k < start + |d| ensures s[k] != c {
      assert s[k] == d[k - start];
    }
    FindCharAt(s, c, start, start + |d|);
  }

  /** What follows a separator, read from after it: a digit field `d`, its
      ending `c`, then `b`. */
  lemma FieldStep(msg: string, sep: nat, d: string, c: char, b: string)
    requires AllDigits(d) && !IsDigit(c) && sep < |msg| < NPOS
    requires msg[sep + 1..] == d + ([c] + b)
    ensures FieldIs(msg, sep, c, d, sep + 1 + |d|)
  {
    var start := sep + 1;
    assert msg[start..start + |d|] == (msg[start..])[..|d|] == d;
    assert msg[start + |d|] == (msg[start..])[|d|] == c;
    FindAfterDigits(msg, c, start, d);
    assert SizeAdd(sep, 1) == start;
    assert SizeSub(start + |d|, start) == |d|;
  }

  /** What is left after the field and its ending. */
  lemma AfterField(msg: string, sep: nat, d: string, c: char, b: string)
    requires sep < |msg| && msg[sep + 1..] == d + ([c] + b)
    ensures msg[sep + 1 + |d| + 1..] == b
  {
    assert msg[sep + 1 + |d| + 1..] == (msg[sep + 1..])[|d| + 1..];
  }

  /** One turn of the address loop. */
  lemma AddressStep(msg: string, ip: string, pos1: nat, k: nat, f: string, next: nat)
    requires 0 < k && FieldIs(msg, pos1, ',', f, next)
    ensures AddressFields(msg, ip, pos1, k) == AddressFields(msg, ip + "." + f, next, k - 1)
  {
  }

  /** A digit field and its comma after the separator at `sep`: `Field`
      finds the field, and `b` follows the comma. */
  lemma CommaField(msg: string, sep: nat, d: string, b: string)
    requires AllDigits(d) && sep < |msg| < NPOS
    requires msg[sep + 1..] == d + ([','] + b)
    ensures FieldIs(msg, sep, ',', d, sep + 1 + |d|)
    ensures msg[sep + 1 + |d| + 1..] == b
  {
    FieldStep(msg, sep, d, ',', b);
    AfterField(msg, sep, d, ',', b);
  }

  /** The address loop's three turns, over three comma-terminated digit
      fields after the first comma at `c0`. */
  lemma AddressFound(msg: string, d0: string, c0: nat, d1: string, d2: string, d3: string, b: string)
    requires AllDigits(d1) && AllDigits(d2) && AllDigits(d3) && c0 < |msg| < NPOS
    requires msg[c0 + 1..] == d1 + ([','] + (d2 + ([','] + (d3 + ([','] + b)))))
    ensures var c3 := c0 + |d1| + |d2| + |d3| + 3;
      Found(AddressFields(msg, d0, c0, 3), d0 + "." + d1 + "." + d2 + "." + d3, c3)
      && c3 < |msg| && msg[c3 + 1..] == b
  {
    var c1 := c0 + 1 + |d1|;
    var c2 := c1 + 1 + |d2|;
    var c3 := c2 + 1 + |d3|;
    CommaField(msg, c0, d1, d2 + ([','] + (d3 + ([','] + b))));
    CommaField(msg, c1, d2, d3 + ([','] + b));
    CommaField(msg, c2, d3, b);
    AddressStep(msg, d0, c0, 3, d1, c1);
    AddressStep(msg, d0 + "." + d1, c1, 2, d2, c2);
    AddressStep(msg, d0 + "." + d1 + "." + d2, c2, 1, d3, c3);
  }

  /** The two port fields after the comma at `c3`. */
  lemma PortFieldsFound(msg: string, c3: nat, h: string, l: string, rest: string)
    requires AllDigits(h) && AllDigits(l)
    requires c3 < |msg| < NPOS
    requires msg[c3 + 1..] == h + ([','] + (l + ([')'] + rest)))
    ensures FieldIs(msg, c3, ',', h, c3 + 1 + |h|)
    ensures FieldIs(msg, c3 + 1 + |h|, ')', l, c3 + 1 + |h| + 1 + |l|)
  {
    FieldStep(msg, c3, h, ',', l + ([')'] + rest));
    AfterField(msg, c3, h, ',', l + ([')'] + rest));
    FieldStep(msg, c3 + 1 + |h|, l, ')', rest);
  }

  lemma PortPartFound(msg: string, c3: nat, h: string, l: string, rest: string)
    requires AllDigits(h) && AllDigits(l)
    requires c3 < |msg| < NPOS
    requires msg[c3 + 1..] == h + ([','] + (l + ([')'] + rest)))
    ensures PortPart(msg, c3) == PortOf(h, l)
  {
    PortFieldsFound(msg, c3, h, l, rest);
    PortPartOf(msg, c3, h, c3 + 1 + |h|, l, c3 + 1 + |h| + 1 + |l|);
  }

  lemma PortPartOf(msg: string, c3: nat, h: string, c4: nat, l: string, close: nat)
    requires FieldIs(msg, c3, ',', h, c4) && FieldIs(msg, c4, ')', l, close)
    ensures PortPart(msg, c3) == PortOf(h, l)
  {
  }

  /** `find(c)` from the start lands just after a prefix without `c`. */
  lemma FindAfterPrefix(x: string, c: char, y: string)
    requires forall i :: 0 <= i < |x| ==> x[i] != c
    requires |y| > 0 && y[0] == c
    ensures FindChar(x + y, c, 0) == |x|
  {
    forall k | 0 <= k < |x| ensures (x + y)[k] != c {
      assert (x + y)[k] == x[k];
    }
    FindCharAt(x + y, c, 0, |x|);
  }

  /** The text up to the first field's end holds no comma. */
  lemma NoCommaInOpening(prefix: string, d0: string)
    requires forall i :: 0 <= i < |prefix| ==> prefix[i] != ','
    requires AllDigits(d0)
    ensures forall i :: 0 <= i < |prefix + (['('] + d0)| ==> (prefix + (['('] + d0))[i] != ','
  {
    forall i | 0 <= i < |prefix + (['('] + d0)| ensures (prefix + (['('] + d0))[i] != ',' {
      if i > |prefix| {
        assert (prefix + (['('] + d0))[i] == d0[i - |prefix| - 1];
      }
    }
  }

  /** `find("(")` and `find(",")` from the start land on the tuple's opening
      parenthesis and its first comma, and the first field lies between. */
  lemma OpeningFound(msg: string, prefix: string, d0: string, b: string)
    requires forall i :: 0 <= i < |prefix| ==> prefix[i] != '(' && prefix[i] != ','
    requires AllDigits(d0)
    requires msg == prefix + (['('] + (d0 + ([','] + b))) && |msg| < NPOS
    ensures Found(FirstField(msg), d0, |prefix| + 1 + |d0|)
    ensures msg[|prefix| + 1 + |d0| + 1..] == b
  {
    var a := prefix + (['('] + d0);
    JoinAssoc(['('], d0, [','] + b);
    JoinAssoc(prefix, ['('] + d0, [','] + b);
    assert msg == a + ([','] + b);
    FindAfterPrefix(prefix, '(', ['('] + (d0 + ([','] + b)));
    NoCommaInOpening(prefix, d0);
    FindAfterPrefix(a, ',', [','] + b);
    SliceOfJoin(a, [','] + b, |prefix| + 1, |a|);
    SliceOfJoin(prefix, ['('] + d0, |prefix| + 1, |a|);
    assert (['('] + d0)[1..1 + |d0|] == d0;
    SliceOfJoin(a, [','] + b, |a| + 1, |msg|);
    assert ([','] + b)[1..1 + |b|] == b;
    assert msg[|a| + 1..] == msg[|a| + 1..|msg|];
    assert SizeAdd(|prefix|, 1) == |prefix| + 1;
    assert SizeSub(|a|, |prefix| + 1) == |d0|;
  }

  /** `resetDataSocket`'s three stages put together. */
  lemma DecodeOfParts(msg: string, d0: string, c0: nat, ip: string, c3: nat)
    requires Found(FirstField(msg), d0, c0)
    requires Found(AddressFields(msg, d0, c0, 3), ip, c3)
    ensures DecodePasv(msg)
      == match PortPart(msg, c3) {
           case None => None
           case Some(port) => Some(Endpoint(ip, port))
         }
  {
  }

  /** What follows the first comma of the tuple: the remaining address
      fields, then the two port fields and the closing parenthesis. */
  function AfterFirst(d1: string, d2: string, d3: string, h: string, l: string, rest: string): string {
    d1 + ([','] + (d2 + ([','] + (d3 + ([','] + (h + ([','] + (l + ([')'] + rest)))))))))
  }

  /** Decoding once the opening parenthesis and the first field are found. */
  lemma DecodeAfterOpening(msg: string, d0: string, c0: nat, d1: string, d2: string, d3: string,
                           h: string, l: string, rest: string)
    requires AllDigits(d1) && AllDigits(d2) && AllDigits(d3) && AllDigits(h) && AllDigits(l)
    requires c0 < |msg| < NPOS
    requires Found(FirstField(msg), d0, c0)
    requires msg[c0 + 1..] == AfterFirst(d1, d2, d3, h, l, rest)
    ensures DecodePasv(msg)
      == match PortOf(h, l) {
           case None => None
           case Some(port) => Some(Endpoint(d0 + "." + d1 + "." + d2 + "." + d3, port))
         }
  {
    var c3 := c0 + |d1| + |d2| + |d3| + 3;
    AddressFound(msg, d0, c0, d1, d2, d3, h + ([','] + (l + ([')'] + rest))));
    PortPartFound(msg, c3, h, l, rest);
    DecodeOfParts(msg, d0, c0, d0 + "." + d1 + "." + d2 + "." + d3, c3);
  }

  /** The tuple as the server lays it out from its digit fields, followed
      by `rest`. */
  function TupleThen(d0: string, d1: string, d2: string, d3: string, h: string, l: string, rest: string): string {
    ['('] + (d0 + ([','] + AfterFirst(d1, d2, d3, h, l, rest)))
  }

  /** Decoding six digit fields laid out as the server writes them. */
  lemma DecodeFields(prefix: string, d0: string, d1: string, d2: string, d3: string, h: string, l: string, rest: string)
    requires forall i :: 0 <= i < |prefix| ==> prefix[i] != '(' && prefix[i] != ','
    requires AllDigits(d0) && AllDigits(d1) && AllDigits(d2) && AllDigits(d3) && AllDigits(h) && AllDigits(l)
    requires |prefix + TupleThen(d0, d1, d2, d3, h, l, rest)| < NPOS
    ensures DecodePasv(prefix + TupleThen(d0, d1, d2, d3, h, l, rest))
      == match PortOf(h, l) {
           case None => None
           case Some(port) => Some(Endpoint(d0 + "." + d1 + "." + d2 + "." + d3, port))
         }
  {
    var msg := prefix + TupleThen(d0, d1, d2, d3, h, l, rest);
    OpeningFound(msg, prefix, d0, AfterFirst(d1, d2, d3, h, l, rest));
    DecodeAfterOpening(msg, d0, |prefix| + 1 + |d0|, d1, d2, d3, h, l, rest);
  }

  /** The decoder inverts the server's encoder: after a text with no "(" and
      no ",", the tuple gives back the address and the port, whatever follows
      it. */
  lemma PasvRoundTrip(ip: seq<byte>, port: nat, prefix: string, rest: string)
    requires |ip| == 4 && port < 0x1_0000
    requires forall i :: 0 <= i < |prefix| ==> prefix[i] != '(' && prefix[i] != ','
    requires |prefix| + |PasvTuple(ip, port)| + |rest| < NPOS
    ensures DecodePasv(prefix + PasvTuple(ip, port) + rest) == Some(Endpoint(IpString(ip), port))
  {
    var d0, d1, d2, d3 := NatToString(ip[0] as nat), NatToString(ip[1] as nat), NatToString(ip[2] as nat), NatToString(ip[3] as nat);
    var h, l := NatToString(PortHigh(port)), NatToString(PortLow(port));
    TupleLayout(ip, port, prefix, rest);
    DecodeFields(prefix, d0, d1, d2, d3, h, l, rest);
    PortOfBytes(port);
  }

  /** The two port fields the server writes give the port back. */
  lemma PortOfBytes(port: nat)
    requires port < 0x1_0000
    ensures PortOf(NatToString(PortHigh(port)), NatToString(PortLow(port))) == Some(port)
  {
    var hi, lo := PortHigh(port), PortLow(port);
    StoiOfNatToString(hi);
    StoiOfNatToString(lo);
    PortOfParsed(NatToString(hi), NatToString(lo), hi, lo);
    ByteFits(hi);
    ByteFits(lo);
    PortBytes(port);
  }

  lemma ByteFits(b: nat)
    requires b < 256
    ensures ToUint8(b) == b
  {
  }

  lemma PortOfParsed(high: string, low: string, n1: int, n2: int)
    requires Stoi(high) == Some(n1) && Stoi(low) == Some(n2)
    ensures PortOf(high, low) == Some(ToUint8(n1) * 256 + ToUint8(n2))
  {
  }

  /** The server's tuple, as `TupleThen` lays it out. */
  lemma TupleLayout(ip: seq<byte>, port: nat, prefix: string, rest: string)
    requires |ip| == 4 && port < 0x1_0000
    ensures prefix + PasvTuple(ip, port) + rest
      == prefix + TupleThen(NatToString(ip[0] as nat), NatToString(ip[1] as nat), NatToString(ip[2] as nat),
                            NatToString(ip[3] as nat), NatToString(PortHigh(port)), NatToString(PortLow(port)), rest)
  {
    var d0, d1, d2, d3 := NatToString(ip[0] as nat), NatToString(ip[1] as nat), NatToString(ip[2] as nat), NatToString(ip[3] as nat);
    var h, l := NatToString(PortHigh(port)), NatToString(PortLow(port));
    JoinAssoc(prefix, PasvTuple(ip, port), rest);
    TupleThenAssoc(d0, d1, d2, d3, h, l, rest);
  }

  /** The tuple followed by `rest`, regrouped to the right. */
  lemma TupleThenAssoc(d0: string, d1: string, d2: string, d3: string, h: string, l: string, rest: string)
    ensures "(" + (d0 + ("," + (d1 + ("," + (d2 + ("," + (d3 + ("," + (h + ("," + (l + ")"))))))))))) + rest
      == "(" + (d0 + ("," + (d1 + ("," + (d2 + ("," + (d3 + ("," + (h + ("," + (l + (")" + rest))))))))))))
  {
    var t6 := l + ")";
    var t5 := "," + t6;
    var t4 := h + t5;
    var t3 := "," + t4;
    var t2 := d3 + t3;
    var t1 := "," + t2;
    var t0 := d2 + t1;
    var s3 := "," + t0;
    var s2 := d1 + s3;
    var s1 := "," + s2;
    var s0 := d0 + s1;
    JoinAssoc("(", s0, rest);
    JoinAssoc(d0, s1, rest);
    JoinAssoc(",", s2, rest);
    JoinAssoc(d1, s3, rest);
    JoinAssoc(",", t0, rest);
    JoinAssoc(d2, t1, rest);
    JoinAssoc(",", t2, rest);
    JoinAssoc(d3, t3, rest);
    JoinAssoc(",", t4, rest);
    JoinAssoc(h, t5, rest);
    JoinAssoc(",", t6, rest);
    JoinAssoc(l, ")", rest);
  }

  /** In particular for the server's 227 reply text as the client reads it:
      followed by CRLF and whatever else the read kept. */
  lemma PasvTextDecodes(ip: seq<byte>, port: nat, extra: string)
    requires |ip| == 4 && port < 0x1_0000 && |extra| <= 2
    ensures DecodePasv(PasvText(ip, port) + "\r\n" + extra) == Some(Endpoint(IpString(ip), port))
  {
    ShortOctets(ip, port);
    assert PasvText(ip, port) + "\r\n" + extra == PasvLead + PasvTuple(ip, port) + ("\r\n" + extra);
    PasvRoundTrip(ip, port, PasvLead, "\r\n" + extra);
  }

  lemma ShortOctets(ip: seq<byte>, port: nat)
    requires |ip| == 4 && port < 0x1_0000
    ensures |PasvTuple(ip, port)| <= 25
  {
    NatToStringShort(ip[0] as nat);
    NatToStringShort(ip[1] as nat);
    NatToStringShort(ip[2] as nat);
    NatToStringShort(ip[3] as nat);
    NatToStringShort(PortHigh(port));
    NatToStringShort(PortLow(port));
  }

  lemma NatToStringShort(n: nat)
    requires n < 1000
    ensures |NatToString(n)| <= 3
  {
    if n >= 10 {
      assert n / 10 < 100;
      if n / 10 >= 10 {
        assert NatToString(n / 10) == NatToString(n / 100) + [DigitChar(n / 10 % 10)];
      }
    }
  }
}

/** The client object: the control socket reduced to what it carries. */
module ClientSession {
  import opened Wrappers
  import opened Replies
  import opened Client
  import opened Text
  import Pasv

  /** What one `read_until` on the control socket hands back; an exhausted
      socket gives the empty line (end of stream with nothing read). */
  function Head(inbox: seq<string>): string {
    if inbox == [] then "" else inbox[0]
  }

  function Tail(inbox: seq<string>): (rest: seq<string>)
    ensures |rest| == if inbox == [] then 0 else |inbox| - 1
  {
    if inbox == [] then [] else inbox[1..]
  }

  /** How `resetDataSocket` ends: the PASV reply was negative (it returns
      false), an exception escaped it, or the data endpoint was decoded. */
  datatype PasvOutcome = Refused | Threw | Decoded(endpoint: Endpoint)

  /** The decoding in `resetDataSocket`, with its loop over the last three
      address fields; it computes exactly `DecodePasv`. */
  method ParsePasv(msg: string) returns (r: Option<Endpoint>)
    ensures r == DecodePasv(msg)
  {
    var pos := SizeAdd(FindChar(msg, '(', 0), 1);
    var pos1 := FindChar(msg, ',', 0);
    var first := SubStr(msg, pos, SizeSub(pos1, pos));
    if first.None? {
      return None;
    }
    var ip := first.value;
    for i := 0 to 3
      invariant FirstField(msg) == Some((first.value, FindChar(msg, ',', 0)))
      invariant AddressFields(msg, ip, pos1, 3 - i)
             == AddressFields(msg, first.value, FindChar(msg, ',', 0), 3)
    {
      pos := SizeAdd(pos1, 1);
      var next := FindChar(msg, ',', SizeAdd(pos1, 1));
      var field := SubStr(msg, pos, SizeSub(next, pos));
      if field.None? {
        return None;
      }
      ip := ip + "." + field.value;
      pos1 := next;
    }
    pos := SizeAdd(pos1, 1);
    var comma := FindChar(msg, ',', SizeAdd(pos1, 1));
    var high := SubStr(msg, pos, SizeSub(comma, pos));
    if high.None? {
      return None;
    }
    pos := SizeAdd(comma, 1);
    var close := FindChar(msg, ')', SizeAdd(comma, 1));
    var low := SubStr(msg, pos, SizeSub(close, pos));
    if low.None? {
      return None;
    }
    var port := PortOf(high.value, low.value);
    if port.None? {
      return None;
    }
    return Some(Endpoint(ip, port.value));
  }

  /** One `login`/`signup` exchange, from the commands sent and replies
      waiting before it to those after it: the opening command, its reply,
      and PASS with a second reply when the first is 331. `negative` is
      whether the last reply read is negative (true means refused); None: a
      reply could not be read, the exception was caught and no value is
      returned. */
  predicate Exchanged(sent0: seq<string>, inbox0: seq<string>, opening: string, pass: string,
                      sent: seq<string>, inbox: seq<string>, negative: Option<bool>)
  {
    var first := ReadReplyAsWritten(Head(inbox0));
    if first.None? || first.value.code != 331 then
      && sent == sent0 + [Frame(opening)]
      && inbox == Tail(inbox0)
      && negative == (if first.None? then None else Some(IsNegative(first.value)))
    else
      var second := ReadReplyAsWritten(Head(Tail(inbox0)));
      && sent == sent0 + [Frame(opening), Frame("PASS " + pass)]
      && inbox == Tail(Tail(inbox0))
      && negative == (if second.None? then None else Some(IsNegative(second.value)))
  }

  /** Against a server that asks for the password and then accepts it, the
      exchange sends both commands, consumes both replies and reports
      success. */
  lemma PasswordAccepted(sent0: seq<string>, ask: Reply, accept: Reply, rest: seq<string>,
                         opening: string, pass: string,
                         sent: seq<string>, inbox: seq<string>, negative: Option<bool>)
    requires WellFormed(ask) && ask.code == 331 && |Wire(ask)| < NPOS
    requires WellFormed(accept) && accept.code < 400 && |Wire(accept)| < NPOS
    requires Exchanged(sent0, [Wire(ask), Wire(accept)] + rest, opening, pass, sent, inbox, negative)
    ensures sent == sent0 + [Frame(opening), Frame("PASS " + pass)]
    ensures inbox == rest && negative == Some(false)
  {
    var inbox0 := [Wire(ask), Wire(accept)] + rest;
    assert Wire(ask) + "" == Wire(ask) && Wire(accept) + "" == Wire(accept);
    ReadReplyAsWrittenKeepsCrlf(ask, "");
    ReadReplyAsWrittenKeepsCrlf(accept, "");
    assert Head(inbox0) == Wire(ask) && Head(Tail(inbox0)) == Wire(accept);
    assert Tail(Tail(inbox0)) == rest;
  }

  /** A server that refuses the opening command ends the exchange there. */
  lemma OpeningRefused(sent0: seq<string>, refusal: Reply, rest: seq<string>,
                       opening: string, pass: string,
                       sent: seq<string>, inbox: seq<string>, negative: Option<bool>)
    requires WellFormed(refusal) && refusal.code >= 400 && |Wire(refusal)| < NPOS
    requires Exchanged(sent0, [Wire(refusal)] + rest, opening, pass, sent, inbox, negative)
    ensures sent == sent0 + [Frame(opening)] && inbox == rest && negative == Some(true)
  {
    assert Wire(refusal) + "" == Wire(refusal);
    ReadReplyAsWrittenKeepsCrlf(refusal, "");
    assert Head([Wire(refusal)] + rest) == Wire(refusal);
    assert Tail([Wire(refusal)] + rest) == rest;
  }

  /** A server that asks for the password and then refuses it: both commands
      go out, both replies are consumed, and the exchange reports refusal. */
  lemma PasswordRefused(sent0: seq<string>, ask: Reply, refusal: Reply, rest: seq<string>,
                        opening: string, pass: string,
                        sent: seq<string>, inbox: seq<string>, negative: Option<bool>)
    requires WellFormed(ask) && ask.code == 331 && |Wire(ask)| < NPOS
    requires WellFormed(refusal) && refusal.code >= 400 && |Wire(refusal)| < NPOS
    requires Exchanged(sent0, [Wire(ask), Wire(refusal)] + rest, opening, pass, sent, inbox, negative)
    ensures sent == sent0 + [Frame(opening), Frame("PASS " + pass)]
    ensures inbox == rest && negative == Some(true)
  {
    var inbox0 := [Wire(ask), Wire(refusal)] + rest;
    assert Wire(ask) + "" == Wire(ask) && Wire(refusal) + "" == Wire(refusal);
    ReadReplyAsWrittenKeepsCrlf(ask, "");
    ReadReplyAsWrittenKeepsCrlf(refusal, "");
    assert Head(inbox0) == Wire(ask) && Head(Tail(inbox0)) == Wire(refusal);
    assert Tail(Tail(inbox0)) == rest;
  }

  /** The server's PASV reply, read as written and decoded, gives back the
      endpoint it announced: the CRLF and whatever else the read kept after
      the text lie beyond the closing ")". */
  lemma PasvReplyDecodes(ip: seq<byte>, port: nat, rest: string)
    requires |ip| == 4 && port < 0x1_0000
    ensures var k := if |rest| < 2 then |rest| else 2;
      var text := Pasv.PasvText(ip, port) + "\r\n" + rest[..k];
      && ReadReplyAsWritten(Wire(Reply(EnteringPassiveMode, Pasv.PasvText(ip, port))) + rest)
         == Some(Reply(EnteringPassiveMode, text))
      && DecodePasv(text) == Some(Endpoint(IpString(ip), port))
  {
    var t := Pasv.PasvText(ip, port);
    var k := if |rest| < 2 then |rest| else 2;
    assert ReadReplyAsWritten(Wire(Reply(EnteringPassiveMode, t)) + rest)
        == Some(Reply(EnteringPassiveMode, t + "\r\n" + rest[..k])) by {
      PasvReplyWellFormed(ip, port);
      ReadReplyAsWrittenKeepsCrlf(Reply(EnteringPassiveMode, t), rest);
    }
    PasvTextDecodes(ip, port, rest[..k]);
  }

  /** The 227 reply is a well-formed reply line. */
  lemma PasvReplyWellFormed(ip: seq<byte>, port: nat)
    requires |ip| == 4 && port < 0x1_0000
    ensures var reply := Reply(EnteringPassiveMode, Pasv.PasvText(ip, port));
      WellFormed(reply) && |Wire(reply)| < NPOS
  {
    ShortOctets(ip, port);
    assert |Pasv.PasvText(ip, port)| == |Pasv.PasvLead| + |Pasv.PasvTuple(ip, port)| <= 50;
    PasvTextNoCrlf(ip, port);
  }

  /** No carriage return in `s`. */
  predicate NoCr(s: string) {
    forall i :: 0 <= i < |s| ==> s[i] != '\r'
  }

  lemma NoCrJoin(a: string, b: string)
    requires NoCr(a) && NoCr(b)
    ensures NoCr(a + b)
  {
    forall i | 0 <= i < |a + b| ensures (a + b)[i] != '\r' {
      if i >= |a| { assert (a + b)[i] == b[i - |a|]; }
    }
  }

  lemma DigitsNoCr(n: nat)
    ensures NoCr(NatToString(n))
  {
    var d := NatToString(n);
    forall i | 0 <= i < |d| ensures d[i] != '\r' {
      assert IsDigit(d[i]);
    }
  }

  lemma PasvTextNoCrlf(ip: seq<byte>, port: nat)
    requires |ip| == 4 && port < 0x1_0000
    ensures NoCrlf(Pasv.PasvText(ip, port))
  {
    var n0, n1, n2, n3 := NatToString(ip[0] as nat), NatToString(ip[1] as nat),
      NatToString(ip[2] as nat), NatToString(ip[3] as nat);
    var h, l := NatToString(Pasv.PortHigh(port)), NatToString(Pasv.PortLow(port));
    DigitsNoCr(ip[0] as nat); DigitsNoCr(ip[1] as nat); DigitsNoCr(ip[2] as nat);
    DigitsNoCr(ip[3] as nat); DigitsNoCr(Pasv.PortHigh(port)); DigitsNoCr(Pasv.PortLow(port));
    var t := ")";
    NoCrJoin(l, t); t := l + t;
    NoCrJoin(",", t); t := "," + t;
    NoCrJoin(h, t); t := h + t;
    NoCrJoin(",", t); t := "," + t;
    NoCrJoin(n3, t); t := n3 + t;
    NoCrJoin(",", t); t := "," + t;
    NoCrJoin(n2, t); t := n2 + t;
    NoCrJoin(",", t); t := "," + t;
    NoCrJoin(n1, t); t := n1 + t;
    NoCrJoin(",", t); t := "," + t;
    NoCrJoin(n0, t); t := n0 + t;
    NoCrJoin("(", t); t := "(" + t;
    assert t == Pasv.PasvTuple(ip, port);
    NoCrJoin(Pasv.PasvLead, t);
    var s := Pasv.PasvText(ip, port);
    assert NoCr(s);
  }

  /** `FTPClient`: `sent` is everything written to the control socket and
      `inbox` the lines its successive reads return. */
  class FTPClient {
    var sent: seq<string>
    var inbox: seq<string>

    constructor (replies: seq<string>)
      ensures sent == [] && inbox == replies
    {
      sent := [];
      inbox := replies;
    }

    /** `sendCmd`. */
    method SendCmd(cmd: string)
      modifies this`sent
      ensures sent == old(sent) + [Frame(cmd)]
    {
      sent := sent + [Frame(cmd)];
    }

    /** `readFTPMsg` as written: the text keeps the CRLF; None: it throws. */
    method ReadFTPMsg() returns (r: Option<Reply>)
      modifies this`inbox
      ensures r == ReadReplyAsWritten(Head(old(inbox))) && inbox == Tail(old(inbox))
    {
      r := ReadReplyAsWritten(Head(inbox));
      inbox := Tail(inbox);
    }

    /** The exchange `login` and `signup` share: the `opening` command,
        then PASS only when the server answers 331. */
    method Authenticate(opening: string, pass: string) returns (negative: Option<bool>)
      modifies this`sent, this`inbox
      ensures Exchanged(old(sent), old(inbox), opening, pass, sent, inbox, negative)
    {
      SendCmd(opening);
      var reply := ReadFTPMsg();
      if reply.None? {
        return None;
      }
      if reply.value.code == 331 {
        SendCmd("PASS " + pass);
        reply := ReadFTPMsg();
        if reply.None? {
          return None;
        }
      }
      return Some(IsNegative(reply.value));
    }

    /** `login`. */
    method Login(uname: string, pass: string) returns (negative: Option<bool>)
      modifies this`sent, this`inbox
      ensures Exchanged(old(sent), old(inbox), "USER " + uname, pass, sent, inbox, negative)
    {
      negative := Authenticate("USER " + uname, pass);
    }

    /** `signup`: the same exchange opened with UADD. */
    method Signup(uname: string, pass: string) returns (negative: Option<bool>)
      modifies this`sent, this`inbox
      ensures Exchanged(old(sent), old(inbox), "UADD " + uname, pass, sent, inbox, negative)
    {
      negative := Authenticate("UADD " + uname, pass);
    }

    /** `resetDataSocket` up to the connect: send PASV, read the reply,
        refuse a negative one and decode the endpoint from the text of a
        positive one. */
    method ResetDataSocket() returns (outcome: PasvOutcome)
      modifies this`sent, this`inbox
      ensures sent == old(sent) + [Frame("PASV")] && inbox == Tail(old(inbox))
      ensures var reply := ReadReplyAsWritten(Head(old(inbox)));
        outcome == if reply.None? then Threw
                   else if IsNegative(reply.value) then Refused
                   else match DecodePasv(reply.value.text) {
                     case None => Threw
                     case Some(e) => Decoded(e)
                   }
    {
      SendCmd("PASV");
      var reply := ReadFTPMsg();
      if reply.None? {
        return Threw;
      }
      if IsNegative(reply.value) {
        return Refused;
      }
      var endpoint := ParsePasv(reply.value.text);
      if endpoint.None? {
        return Threw;
      }
      return Decoded(endpoint.value);
    }
  }
}
