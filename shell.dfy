/** The client's command shell (`processCmd` and the `cmd*` helpers): the
    line typed by the user is read as at most three white-space-separated
    words, and the first one chooses the client call. The client itself is
    replaced by the list of calls made on it. */
module Shell {
  import opened Text

  // Words of a line, as `std::istream >> std::string` extracts them

  /** A word: at least one character, none of them white space. */
  predicate IsWord(w: string) {
    w != [] && forall i :: 0 <= i < |w| ==> !IsSpace(w[i])
  }

  /** The longest prefix of `s` without white space. */
  function Word(s: string): (w: string)
    ensures w <= s
    ensures forall i :: 0 <= i < |w| ==> !IsSpace(w[i])
    ensures |w| < |s| ==> IsSpace(s[|w|])
    decreases |s|
  {
    if s == [] || IsSpace(s[0]) then [] else [s[0]] + Word(s[1..])
  }

  /** The words of `s`, in order. */
  function Words(s: string): (ws: seq<string>)
    ensures forall i :: 0 <= i < |ws| ==> IsWord(ws[i])
    decreases |s|
  {
    if s == [] then []
    else if IsSpace(s[0]) then Words(s[1..])
    else
      var w := Word(s);
      [w] + Words(s[|w|..])
  }

  /** The `k`-th word, or "" when there are fewer words: a failed
      extraction leaves the string empty. */
  function Token(ws: seq<string>, k: nat): string {
    if k < |ws| then ws[k] else ""
  }

  function Rest(ws: seq<string>): (r: seq<string>)
    ensures |r| == if ws == [] then 0 else |ws| - 1
  {
    if ws == [] then [] else ws[1..]
  }

  /** A run of non-space characters that ends at white space or at the end
      of the string is the first word. */
  lemma {:induction false} WordUpTo(s: string, k: nat)
    requires k <= |s| && (k == |s| || IsSpace(s[k]))
    requires forall i :: 0 <= i < k ==> !IsSpace(s[i])
    ensures Word(s) == s[..k]
    decreases k
  {
    if k > 0 {
      WordUpTo(s[1..], k - 1);
      assert s[..k] == [s[0]] + s[1..][..k - 1];
    }
  }

  /** Leading white space contributes no word. */
  lemma WordsSkipSpace(s: string, i: nat)
    requires i < |s| && IsSpace(s[i])
    ensures Words(s[i..]) == Words(s[i + 1..])
  {
    assert s[i..][1..] == s[i + 1..];
  }

  /** `ss >> word` from position `pos`: white space is skipped, then the
      characters up to the next white space are taken; "" when no word is
      left. The words after the returned position are the remaining ones. */
  method Extract(line: string, pos: nat) returns (word: string, next: nat)
    requires pos <= |line|
    ensures pos <= next <= |line|
    ensures word == Token(Words(line[pos..]), 0)
    ensures Words(line[next..]) == Rest(Words(line[pos..]))
  {
    var i := pos;
    while i < |line| && IsSpace(line[i])
      invariant pos <= i <= |line|
      invariant Words(line[i..]) == Words(line[pos..])
    {
      WordsSkipSpace(line, i);
      i := i + 1;
    }
    word := "";
    var j := i;
    while j < |line| && !IsSpace(line[j])
      invariant i <= j <= |line|
      invariant word == line[i..j]
      invariant forall k :: i <= k < j ==> !IsSpace(line[k])
    {
      word := word + [line[j]];
      j := j + 1;
    }
    WordAt(line, i, j);
    next := j;
  }

  /** The characters from a non-space `line[i]` up to white space at `j`
      form the first word from `i`, and the words from `j` are the rest. */
  lemma WordAt(line: string, i: nat, j: nat)
    requires i <= j <= |line| && (i < |line| ==> !IsSpace(line[i]))
    requires j == |line| || IsSpace(line[j])
    requires forall k :: i <= k < j ==> !IsSpace(line[k])
    ensures line[i..j] == Token(Words(line[i..]), 0)
    ensures Words(line[j..]) == Rest(Words(line[i..]))
  {
    if i < |line| {
      var s := line[i..];
      WordUpTo(s, j - i);
      assert s[..j - i] == line[i..j];
      assert s[j - i..] == line[j..];
    }
  }

  // The shell

  /** A call the shell makes on the `FTPClient`. */
  datatype Call =
    | List(dir: string)
    | ChangeDir(dir: string)
    | MakeDir(dir: string)
    | Remove(path: string)
    | RemoveDir(path: string)
    | Upload(local: string, remote: string)
    | Download(remote: string, local: string)

  /** The commands of `cmdMap`, each given the first parameter. */
  const ParamCommands: set<string> := {"ls", "cd", "mkdir", "rm", "rmdir"}

  /** The `cmdMap` entry for `cmd`: `ls` asks for " " when no directory is
      given; `cd`, `mkdir`, `rm` and `rmdir` do nothing without a
      parameter. */
  function MapCall(cmd: string, para: string): (cs: seq<Call>)
    requires cmd in ParamCommands
    ensures cmd == "ls" ==> cs == [List(if para == "" then " " else para)]
    ensures cmd != "ls" ==> (cs == [] <==> para == "")
    ensures cmd != "ls" && para != "" ==>
      |cs| == 1 && cs[0] in {ChangeDir(para), MakeDir(para), Remove(para), RemoveDir(para)}
  {
    if cmd == "ls" then [List(if para == "" then " " else para)]
    else if para == "" then []
    else if cmd == "cd" then [ChangeDir(para)]
    else if cmd == "mkdir" then [MakeDir(para)]
    else if cmd == "rm" then [Remove(para)]
    else [RemoveDir(para)]
  }

  /** The calls `processCmd` makes for the three words: the map entry, then
      `up` and `down`, which take the first and second parameter in that
      order and are made even when those are empty. Anything else makes no
      call. */
  function Calls(cmd: string, para: string, para2: string): (cs: seq<Call>)
    ensures cmd in ParamCommands ==> cs == MapCall(cmd, para)
    ensures cmd == "up" ==> cs == [Upload(para, para2)]
    ensures cmd == "down" ==> cs == [Download(para, para2)]
    ensures cmd !in ParamCommands && cmd != "up" && cmd != "down" ==> cs == []
  {
    (if cmd in ParamCommands then MapCall(cmd, para) else [])
    + (if cmd == "up" then [Upload(para, para2)] else [])
    + (if cmd == "down" then [Download(para, para2)] else [])
  }

  /** `processCmd`: three extractions, the calls they select, and false
      exactly when the command word is `exit` (whatever follows it). */
  method ProcessCmd(line: string) returns (keepGoing: bool, calls: seq<Call>)
    ensures var ws := Words(line);
      calls == Calls(Token(ws, 0), Token(ws, 1), Token(ws, 2))
    ensures keepGoing <==> Token(Words(line), 0) != "exit"
  {
    var cmd, p1 := Extract(line, 0);
    var para, p2 := Extract(line, p1);
    var para2, p3 := Extract(line, p2);
    assert line[0..] == line;
    calls := Calls(cmd, para, para2);
    keepGoing := cmd != "exit";
  }

  // Reading back a line made of words

  /** Words joined by single spaces. */
  function Unwords(ws: seq<string>): string {
    if ws == [] then "" else if |ws| == 1 then ws[0] else ws[0] + (" " + Unwords(ws[1..]))
  }

  lemma WordThen(w: string, t: string)
    requires IsWord(w) && (t == [] || IsSpace(t[0]))
    ensures Words(w + t) == [w] + Words(t)
  {
    var s := w + t;
    assert s[..|w|] == w;
    WordUpTo(s, |w|);
    assert s[|w|..] == t;
  }

  /** The words of a line written as words joined by spaces are exactly
      those words: the shell reads back what was typed. */
  lemma {:induction false} UnwordsRoundTrip(ws: seq<string>)
    requires forall i :: 0 <= i < |ws| ==> IsWord(ws[i])
    ensures Words(Unwords(ws)) == ws
    decreases |ws|
  {
    if |ws| == 1 {
      WordThen(ws[0], "");
      assert ws[0] + "" == ws[0];
    } else if |ws| > 1 {
      var t := " " + Unwords(ws[1..]);
      WordThen(ws[0], t);
      assert t[1..] == Unwords(ws[1..]);
      UnwordsRoundTrip(ws[1..]);
    }
  }

  /** A typed line of words gives the shell its words in order: the first
      three are command, parameter and second parameter, missing ones are
      "", and further words are ignored. */
  lemma TypedLine(ws: seq<string>, k: nat)
    requires forall i :: 0 <= i < |ws| ==> IsWord(ws[i])
    ensures Token(Words(Unwords(ws)), k) == if k < |ws| then ws[k] else ""
  {
    UnwordsRoundTrip(ws);
  }
}
