/** Character- and string-level helpers of the C++ standard library that the
    server and the client rely on: `std::stoi`, `operator<<` on integers,
    `std::string::find` and `substr` with their `size_t` arithmetic, `::toupper`,
    `isspace`, `std::setw` and `std::quoted`. */
module Text {
  import opened Wrappers

  newtype byte = x: int | 0 <= x < 256

  /** `std::string::npos`, the largest `size_t`; `size_t` arithmetic wraps
      modulo `SizeMod`. */
  const NPOS: nat := 0xFFFF_FFFF_FFFF_FFFF
  const SizeMod: nat := 0x1_0000_0000_0000_0000

  const IntMin: int := -0x8000_0000
  const IntMax: int := 0x7FFF_FFFF

  predicate IsDigit(c: char) { '0' <= c <= '9' }

  predicate AllDigits(s: string) { forall i :: 0 <= i < |s| ==> IsDigit(s[i]) }

  /** The characters `isspace` accepts in the C locale. */
  predicate IsSpace(c: char) {
    c == ' ' || c == '\t' || c == '\n' || c == '\r' || c as int == 11 || c as int == 12
  }

  function DigitChar(d: nat): (c: char)
    requires d < 10
    ensures IsDigit(c) && c as int - '0' as int == d
  {
    ('0' as int + d) as char
  }

  /** The decimal text that `stream << n` writes for a non-negative integer. */
  function NatToString(n: nat): (s: string)
    ensures 1 <= |s| && AllDigits(s)
    ensures n < 10 <==> |s| == 1
    decreases n
  {
    if n < 10 then [DigitChar(n)] else NatToString(n / 10) + [DigitChar(n % 10)]
  }

  /** The value of a run of decimal digits. */
  function DigitsValue(s: string): nat
    requires AllDigits(s)
    decreases |s|
  {
    if s == [] then 0 else DigitsValue(s[..|s| - 1]) * 10 + (s[|s| - 1] as int - '0' as int)
  }

  lemma {:induction false} DigitsValueOfNatToString(n: nat)
    ensures DigitsValue(NatToString(n)) == n
    decreases n
  {
    var s := NatToString(n);
    if n >= 10 {
      DigitsValueOfNatToString(n / 10);
      assert s[..|s| - 1] == NatToString(n / 10);
    }
  }

  /** Number of leading characters of `s` satisfying IsSpace. */
  function SpaceRun(s: string): (k: nat)
    ensures k <= |s|
    ensures forall i :: 0 <= i < k ==> IsSpace(s[i])
    ensures k < |s| ==> !IsSpace(s[k])
    decreases |s|
  {
    if s != [] && IsSpace(s[0]) then 1 + SpaceRun(s[1..]) else 0
  }

  /** Number of leading decimal digits of `s`. */
  function DigitRun(s: string): (k: nat)
    ensures k <= |s|
    ensures AllDigits(s[..k])
    ensures k < |s| ==> !IsDigit(s[k])
    decreases |s|
  {
    if s != [] && IsDigit(s[0]) then
      var k := 1 + DigitRun(s[1..]);
      assert s[..k] == [s[0]] + s[1..][..k - 1];
      k
    else 0
  }

  /** `std::stoi`: leading white space, an optional sign, then the longest run of
      digits; None where stoi throws (no digits: invalid_argument; a value
      outside `int`: out_of_range). */
  function Stoi(s: string): (r: Option<int>)
    ensures r.Some? ==> IntMin <= r.value <= IntMax
    ensures r.Some? ==> exists i :: 0 <= i < |s| && IsDigit(s[i])
  {
    var t := s[SpaceRun(s)..];
    var signed := |t| > 0 && (t[0] == '-' || t[0] == '+');
    var u := if signed then t[1..] else t;
    var k := DigitRun(u);
    if k == 0 then None
    else
      var v: int := if signed && t[0] == '-' then 0 - (DigitsValue(u[..k]) as int) else DigitsValue(u[..k]);
      if IntMin <= v <= IntMax then Some(v) else None
  }

  lemma StoiOfDigits(s: string)
    requires 1 <= |s| && AllDigits(s) && DigitsValue(s) <= IntMax
    ensures Stoi(s) == Some(DigitsValue(s))
  {
    assert SpaceRun(s) == 0;
    assert s[0..] == s;
    DigitRunOfDigits(s);
    assert s[..|s|] == s;
  }

  lemma {:induction false} DigitRunOfDigits(s: string)
    requires AllDigits(s)
    ensures DigitRun(s) == |s|
    decreases |s|
  {
    if s != [] {
      DigitRunOfDigits(s[1..]);
    }
  }

  /** `std::stoi` reads back what `operator<<` wrote. */
  lemma StoiOfNatToString(n: nat)
    requires n <= IntMax
    ensures Stoi(NatToString(n)) == Some(n)
  {
    DigitsValueOfNatToString(n);
    StoiOfDigits(NatToString(n));
  }

  /** `::toupper` in the C locale. */
  function Upper(c: char): char {
    if 'a' <= c <= 'z' then (c as int - 'a' as int + 'A' as int) as char else c
  }

  function UpperString(s: string): (r: string)
    ensures |r| == |s| && forall i :: 0 <= i < |s| ==> r[i] == Upper(s[i])
  {
    seq(|s|, i requires 0 <= i < |s| => Upper(s[i]))
  }

  /** `s.find(c, from)`: the first index at or after `from` holding `c`, or npos. */
  function FindChar(s: string, c: char, from: nat): (r: nat)
    ensures r == NPOS || (from <= r < |s| && s[r] == c)
    decreases |s| - from
  {
    if from >= |s| then NPOS else if s[from] == c then from else FindChar(s, c, from + 1)
  }

  /** No `c` comes before the position `find` returns. */
  lemma {:induction false} FindCharFirst(s: string, c: char, from: nat)
    requires |s| < NPOS
    ensures forall j :: from <= j < |s| && (FindChar(s, c, from) == NPOS || j < FindChar(s, c, from)) ==> s[j] != c
    decreases |s| - from
  {
    if from < |s| && s[from] != c {
      FindCharFirst(s, c, from + 1);
    }
  }

  predicate OccursAt(hay: string, needle: string, j: nat) {
    j + |needle| <= |hay| && hay[j..j + |needle|] == needle
  }

  /** `std::string::find(needle, from)`: the first position at or after
      `from` where `needle` occurs, or NPOS. */
  function FindStr(hay: string, needle: string, from: nat): (r: nat)
    ensures r == NPOS || (from <= r && OccursAt(hay, needle, r))
    ensures |hay| < NPOS ==> forall j :: from <= j && (r == NPOS || j < r) ==> !OccursAt(hay, needle, j)
    ensures from + |needle| > |hay| ==> r == NPOS
    decreases |hay| - from
  {
    if from + |needle| > |hay| then NPOS
    else if hay[from..from + |needle|] == needle then from
    else FindStr(hay, needle, from + 1)
  }

  /** `s.substr(pos, n)`: None where it throws out_of_range (`pos > size()`). */
  function SubStr(s: string, pos: nat, n: nat): (r: Option<string>)
    ensures r.Some? <==> pos <= |s|
    ensures r.Some? ==> r.value == s[pos..if n < |s| - pos then pos + n else |s|]
  {
    if pos > |s| then None else Some(s[pos..if n < |s| - pos then pos + n else |s|])
  }

  /** A conversion to `uint8_t`: the value modulo 256. */
  function ToUint8(v: int): (b: nat)
    ensures b < 256 && (v - b) % 256 == 0
  {
    v % 256
  }

  /** `a + b` and `a - b` on `size_t`. */
  function SizeAdd(a: nat, b: nat): (r: nat)
    ensures r < SizeMod
  {
    if a + b < SizeMod then a + b else (a + b) % SizeMod
  }

  function SizeSub(a: nat, b: nat): (r: nat)
    ensures r < SizeMod
  {
    if b <= a < SizeMod then a - b else (a - b) % SizeMod
  }

  /** The index of the first "\r\n" in `s`, if any. */
  function FindCrlf(s: string): (r: Option<nat>)
    ensures r.Some? ==> r.value + 1 < |s| && s[r.value] == '\r' && s[r.value + 1] == '\n'
    ensures forall i :: 0 <= i < |s| - 1 && (r.None? || i < r.value) ==> !(s[i] == '\r' && s[i + 1] == '\n')
    decreases |s|
  {
    if |s| < 2 then None
    else if s[0] == '\r' && s[1] == '\n' then Some(0)
    else match FindCrlf(s[1..]) {
      case None => None
      case Some(i) => Some(i + 1)
    }
  }

  /** Concatenation regrouped to the right. */
  lemma JoinAssoc(x: string, y: string, z: string)
    ensures (x + y) + z == x + (y + z)
  {
  }

  /** A slice of a concatenation that lies within one of its parts. */
  lemma SliceOfJoin(x: string, y: string, i: nat, j: nat)
    ensures i <= j <= |x| ==> (x + y)[i..j] == x[i..j]
    ensures |x| <= i <= j <= |x| + |y| ==> (x + y)[i..j] == y[i - |x|..j - |x|]
  {
    if i <= j <= |x| {
      assert forall k :: 0 <= k < j - i ==> (x + y)[i..j][k] == x[i..j][k];
    }
    if |x| <= i <= j <= |x| + |y| {
      assert forall k :: 0 <= k < j - i ==> (x + y)[i..j][k] == y[i - |x|..j - |x|][k];
    }
  }

  /** No "\r\n" occurs in `s`. */
  predicate NoCrlf(s: string) {
    forall i :: 0 <= i < |s| - 1 ==> !(s[i] == '\r' && s[i + 1] == '\n')
  }

  lemma FindCrlfAfter(s: string, rest: string)
    requires NoCrlf(s)
    ensures FindCrlf(s + "\r\n" + rest) == Some(|s|)
  {
    var t := s + "\r\n" + rest;
    assert t[|s|] == '\r' && t[|s| + 1] == '\n';
    assert forall i :: 0 <= i < |s| ==> t[i] == s[i];
  }

  /** `stream << std::setw(w) << s`: right-aligned, padded with spaces. */
  function PadLeft(s: string, w: nat): (r: string)
    ensures |r| == if |s| < w then w else |s|
    ensures r[|r| - |s|..] == s
  {
    if |s| < w then seq(w - |s|, _ => ' ') + s else s
  }

  /** `stream << path`, which writes the path through `std::quoted`: in
      double quotes, with `"` and `\` escaped by a backslash. */
  function Quoted(s: string): (r: string)
    ensures |r| >= 2 && r[0] == '"' && r[|r| - 1] == '"'
  {
    "\"" + Escaped(s) + "\""
  }

  function Escaped(s: string): string
    decreases |s|
  {
    if s == [] then []
    else (if s[0] == '"' || s[0] == '\\' then ['\\', s[0]] else [s[0]]) + Escaped(s[1..])
  }

  /** The bytes of a string, one per character, as `std::string` holds them. */
  function ToBytes(s: string): (b: seq<byte>)
    ensures |b| == |s| && forall i :: 0 <= i < |s| ==> b[i] as int == s[i] as int % 256
  {
    seq(|s|, i requires 0 <= i < |s| => (s[i] as int % 256) as byte)
  }

  /** `>> std::quoted(s)` reading up to the closing quote: the text with its
      escapes undone, and what follows the quote. */
  function Unescape(s: string): (r: Option<(string, string)>)
    decreases |s|
  {
    if s == [] then None
    else if s[0] == '"' then Some(("", s[1..]))
    else if s[0] == '\\' then
      if |s| < 2 then None
      else match Unescape(s[2..]) {
        case None => None
        case Some(p) => Some(([s[1]] + p.0, p.1))
      }
    else match Unescape(s[1..]) {
      case None => None
      case Some(p) => Some(([s[0]] + p.0, p.1))
    }
  }

  function Unquote(s: string): (r: Option<(string, string)>)
  {
    if s != [] && s[0] == '"' then Unescape(s[1..]) else None
  }

  lemma {:induction false} UnescapeEscaped(s: string, rest: string)
    ensures Unescape(Escaped(s) + ("\"" + rest)) == Some((s, rest))
    decreases |s|
  {
    if s == [] {
      assert Escaped(s) + ("\"" + rest) == "\"" + rest;
    } else {
      var t := Escaped(s[1..]) + ("\"" + rest);
      UnescapeEscaped(s[1..], rest);
      var h := if s[0] == '"' || s[0] == '\\' then ['\\', s[0]] else [s[0]];
      JoinAssoc(h, Escaped(s[1..]), "\"" + rest);
      UnescapeStep(s[0], h, t);
      assert [s[0]] + s[1..] == s;
    }
  }

  /** `>> std::quoted` takes one character, or one escaped character, and
      goes on after it. */
  lemma UnescapeStep(c: char, h: string, t: string)
    requires h == if c == '"' || c == '\\' then ['\\', c] else [c]
    ensures Unescape(h + t) == match Unescape(t) {
      case None => None
      case Some(p) => Some(([c] + p.0, p.1))
    }
  {
    assert (h + t)[|h|..] == t;
  }

  /** Reading a quoted name back gives the name and what followed it. */
  lemma QuotedRoundTrip(s: string, rest: string)
    ensures Unquote(Quoted(s) + rest) == Some((s, rest))
  {
    var x := Quoted(s) + rest;
    JoinAssoc("\"" + Escaped(s), "\"", rest);
    JoinAssoc("\"", Escaped(s), "\"" + rest);
    assert x[1..] == Escaped(s) + ("\"" + rest);
    UnescapeEscaped(s, rest);
  }

  /** A string of byte-sized characters, as a `std::string` holds. */
  predicate IsByteString(s: string) { forall i :: 0 <= i < |s| ==> s[i] as int < 256 }

  function FromBytes(b: seq<byte>): (s: string)
    ensures |s| == |b| && IsByteString(s)
  {
    seq(|b|, i requires 0 <= i < |b| => b[i] as int as char)
  }

  lemma BytesRoundTrip(s: string)
    requires IsByteString(s)
    ensures FromBytes(ToBytes(s)) == s
  {
  }

  /** `stoi` skips the padding `setw` put in front of a number. */
  lemma StoiOfPadded(n: nat, w: nat)
    requires n <= IntMax
    ensures Stoi(PadLeft(NatToString(n), w)) == Some(n)
  {
    var d := NatToString(n);
    var p := PadLeft(d, w);
    var k := |p| - |d|;
    assert p == p[..k] + d;
    assert forall i :: 0 <= i < k ==> p[i] == ' ';
    assert !IsSpace(d[0]);
    SpaceRunOfPadding(p, k);
    assert p[k..] == d;
    StoiOfNatToString(n);
  }

  lemma {:induction false} SpaceRunOfPadding(p: string, k: nat)
    requires k < |p| && (forall i :: 0 <= i < k ==> IsSpace(p[i])) && !IsSpace(p[k])
    ensures SpaceRun(p) == k
    decreases k
  {
    if k > 0 {
      SpaceRunOfPadding(p[1..], k - 1);
    }
  }
}
