/** Paths on the server. A local absolute path is the sequence of its
    segments below "/"; `FTP2LocalPath` turns the path string a client sends
    into such a sequence, inside the logged-in user's root. */
module Paths {
  import opened Wrappers
  import opened Text

  /** An absolute local path: the segments below "/". */
  type Path = seq<string>

  /** A path as `fs::weakly_canonical` leaves it: no empty, "." or ".." segment. */
  predicate IsCanonical(p: Path) {
    forall i :: 0 <= i < |p| ==> p[i] != "" && p[i] != "." && p[i] != ".."
  }

  type CanonicalPath = p: Path | IsCanonical(p)

  /** The path string a client sends, cut at every '/'. */
  function Split(s: string): (r: seq<string>)
    ensures |r| >= 1
    ensures forall i :: 0 <= i < |r| ==> '/' !in r[i]
    ensures s == [] || s[0] == '/' ==> r[0] == []
    decreases |s|
  {
    if s == [] then [""]
    else
      var rest := Split(s[1..]);
      if s[0] == '/' then [""] + rest else [[s[0]] + rest[0]] + rest[1..]
  }

  lemma SplitCons(c: char, t: string)
    ensures Split([c] + t) == if c == '/' then [""] + Split(t) else [[c] + Split(t)[0]] + Split(t)[1..]
  {
    assert ([c] + t)[1..] == t;
  }

  /** `has_root_directory()` of an FTP path. */
  predicate IsRooted(s: string) { |s| > 0 && s[0] == '/' }

  /** Lexical canonicalisation of `base / segs`: empty and "." segments are
      dropped, ".." drops the last segment (and stays at "/"). A path here
      has no trailing separator and the tree has no symbolic links. */
  function Normalize(base: Path, segs: seq<string>): (r: Path)
    requires IsCanonical(base)
    ensures IsCanonical(r)
    decreases |segs|
  {
    if segs == [] then base
    else
      var s := segs[0];
      var next := if s == "" || s == "." then base
                  else if s == ".." then (if base == [] then [] else base[..|base| - 1])
                  else base + [s];
      Normalize(next, segs[1..])
  }

  /** `std::string` ordering (operator<) on path segments. */
  predicate StrLess(a: string, b: string)
    decreases |a|
  {
    if b == [] then false
    else if a == [] then true
    else if a[0] != b[0] then a[0] < b[0]
    else StrLess(a[1..], b[1..])
  }

  /** `fs::path` operator<: element-wise lexicographic order of two absolute paths. */
  predicate PathLess(p: Path, q: Path)
    decreases |p|
  {
    if q == [] then false
    else if p == [] then true
    else if p[0] != q[0] then StrLess(p[0], q[0])
    else PathLess(p[1..], q[1..])
  }

  /** `FTP2LocalPath` AS WRITTEN: a rooted path is taken below the user's root,
      a relative one below the working directory, the result is canonicalised
      and replaced by the root when it orders below the root. */
  function ResolveAsWritten(root: Path, wd: Path, ftpPath: string): (r: Path)
    requires IsCanonical(root) && IsCanonical(wd)
    ensures IsCanonical(r)
    ensures !PathLess(r, root)
  {
    var p := Normalize(if IsRooted(ftpPath) then root else wd, Split(ftpPath));
    if PathLess(p, root) then PathLessIrreflexive(root); root else p
  }

  /** `FTP2LocalPath` as its sandbox is evidently meant: any canonical result
      outside the user's root is replaced by the root. */
  function Resolve(root: Path, wd: Path, ftpPath: string): (r: Path)
    requires IsCanonical(root) && IsCanonical(wd)
    ensures IsCanonical(r) && root <= r
  {
    var p := Normalize(if IsRooted(ftpPath) then root else wd, Split(ftpPath));
    if root <= p then p else root
  }

  // ---------------------------------------------------------------------------
  // Order facts about StrLess and PathLess

  lemma {:induction false} StrLessIrreflexive(a: string)
    ensures !StrLess(a, a)
    decreases |a|
  {
    if a != [] { StrLessIrreflexive(a[1..]); }
  }

  lemma {:induction false} StrLessTotal(a: string, b: string)
    requires a != b
    ensures StrLess(a, b) || StrLess(b, a)
    decreases |a|
  {
    if a != [] && b != [] && a[0] == b[0] {
      assert a == [a[0]] + a[1..] && b == [b[0]] + b[1..];
      StrLessTotal(a[1..], b[1..]);
    }
  }

  lemma {:induction false} StrLessTransitive(a: string, b: string, c: string)
    requires StrLess(a, b) && StrLess(b, c)
    ensures StrLess(a, c)
    decreases |a|
  {
    if a != [] && a[0] == b[0] && b[0] == c[0] {
      StrLessTransitive(a[1..], b[1..], c[1..]);
    }
  }

  lemma {:induction false} StrLessAsymmetric(a: string, b: string)
    requires StrLess(a, b)
    ensures !StrLess(b, a)
    decreases |a|
  {
    if a != [] && a[0] == b[0] { StrLessAsymmetric(a[1..], b[1..]); }
  }

  lemma {:induction false} PathLessIrreflexive(p: Path)
    ensures !PathLess(p, p)
    decreases |p|
  {
    if p != [] { PathLessIrreflexive(p[1..]); }
  }

  lemma {:induction false} PathLessTotal(p: Path, q: Path)
    ensures p == q || PathLess(p, q) || PathLess(q, p)
    decreases |p|
  {
    if p != [] && q != [] {
      if p[0] == q[0] {
        PathLessTotal(p[1..], q[1..]);
        assert p == [p[0]] + p[1..] && q == [q[0]] + q[1..];
      } else {
        StrLessTotal(p[0], q[0]);
      }
    }
  }

  lemma {:induction false} PathLessTransitive(p: Path, q: Path, r: Path)
    requires PathLess(p, q) && PathLess(q, r)
    ensures PathLess(p, r)
    decreases |p|
  {
    if p != [] {
      if p[0] == q[0] && q[0] == r[0] {
        PathLessTransitive(p[1..], q[1..], r[1..]);
      } else if p[0] == q[0] {
        assert StrLess(q[0], r[0]);
      } else if q[0] == r[0] {
        assert StrLess(p[0], q[0]);
      } else {
        StrLessTransitive(p[0], q[0], r[0]);
        if p[0] == r[0] { StrLessIrreflexive(p[0]); }
      }
    }
  }

  lemma {:induction false} PathLessAsymmetric(p: Path, q: Path)
    requires PathLess(p, q)
    ensures !PathLess(q, p)
    decreases |p|
  {
    if p != [] {
      if p[0] == q[0] { PathLessAsymmetric(p[1..], q[1..]); } else { StrLessAsymmetric(p[0], q[0]); }
    }
  }

  /** A proper ancestor orders below its descendants. */
  lemma {:induction false} ProperPrefixIsLess(p: Path, q: Path)
    requires p < q
    ensures PathLess(p, q)
    decreases |p|
  {
    if p != [] {
      assert p[0] == q[0];
      assert p[1..] < q[1..];
      ProperPrefixIsLess(p[1..], q[1..]);
    }
  }

  // ---------------------------------------------------------------------------
  // Sandbox properties

  /** As written, translation never yields a proper ancestor of the root: any
      number of ".." segments stops at the root. */
  lemma ResolveAsWrittenNeverAboveRoot(root: Path, wd: Path, ftpPath: string)
    requires IsCanonical(root) && IsCanonical(wd)
    ensures !(ResolveAsWritten(root, wd, ftpPath) < root)
  {
    var r := ResolveAsWritten(root, wd, ftpPath);
    if r < root { ProperPrefixIsLess(r, root); }
  }

  /** As written, the clamp compares by order, not by containment: from the
      root /srv/u, the path "../v" reaches the sibling /srv/v. */
  lemma ResolveAsWrittenEscapesToSibling()
    ensures ResolveAsWritten(["srv", "u"], ["srv", "u"], "../v") == ["srv", "v"]
    ensures !(["srv", "u"] <= ["srv", "v"])
  {
    SplitDotDotV();
    NormalizeToSibling();
    SiblingNotBelow();
  }

  lemma SplitDotDotV()
    ensures Split("../v") == ["..", "v"]
  {
    SplitSlashV();
    SplitCons('.', "/v");
    assert ['.'] + "/v" == "./v";
    assert ['.'] + "" == ".";
    assert Split("./v") == [".", "v"];
    SplitCons('.', "./v");
    assert ['.'] + "./v" == "../v";
    assert ['.'] + "." == "..";
  }

  lemma SplitSlashV()
    ensures Split("/v") == ["", "v"]
  {
    SplitCons('v', "");
    assert ['v'] + "" == "v";
    assert Split("") == [""];
    assert Split("v") == ["v"];
    SplitCons('/', "v");
    assert ['/'] + "v" == "/v";
  }

  lemma NormalizeToSibling()
    ensures Normalize(["srv", "u"], ["..", "v"]) == ["srv", "v"]
  {
    assert ["..", "v"][1..] == ["v"];
    assert Normalize(["srv", "u"], ["..", "v"]) == Normalize(["srv"], ["v"]);
    assert Normalize(["srv"], ["v"]) == Normalize(["srv", "v"], []);
  }

  lemma SiblingNotBelow()
    ensures !PathLess(["srv", "v"], ["srv", "u"])
  {
    assert !StrLess("v", "u");
  }

  /** Both translations agree whenever the canonical result lies inside the
      root or orders below it; they differ only on paths that leave the root
      sideways. */
  lemma ResolveAgrees(root: Path, wd: Path, ftpPath: string)
    requires IsCanonical(root) && IsCanonical(wd)
    requires var p := Normalize(if IsRooted(ftpPath) then root else wd, Split(ftpPath));
             root <= p || PathLess(p, root)
    ensures ResolveAsWritten(root, wd, ftpPath) == Resolve(root, wd, ftpPath)
  {
    var p := Normalize(if IsRooted(ftpPath) then root else wd, Split(ftpPath));
    if root <= p && PathLess(p, root) {
      if root == p { PathLessIrreflexive(p); } else { ProperPrefixIsLess(root, p); PathLessAsymmetric(root, p); }
    }
  }

  /** Segments that are all proper names are appended unchanged. */
  lemma {:induction false} NormalizeNames(base: Path, segs: seq<string>)
    requires IsCanonical(base) && IsCanonical(segs)
    ensures Normalize(base, segs) == base + segs
    decreases |segs|
  {
    if segs != [] {
      NormalizeNames(base + [segs[0]], segs[1..]);
      assert base + [segs[0]] + segs[1..] == base + segs;
    }
  }

  function DotDots(k: nat): (r: seq<string>)
    ensures |r| == k && forall i :: 0 <= i < k ==> r[i] == ".."
  {
    seq(k, _ => "..")
  }

  /** k segments ".." climb k levels, and stop at "/". */
  lemma {:induction false} NormalizeDotDots(base: Path, k: nat)
    requires IsCanonical(base)
    ensures Normalize(base, DotDots(k)) == if k <= |base| then base[..|base| - k] else []
    decreases k
  {
    if k > 0 {
      var next := if base == [] then [] else base[..|base| - 1];
      assert DotDots(k)[0] == ".." && DotDots(k)[1..] == DotDots(k - 1);
      NormalizeDotDots(next, k - 1);
      if base != [] && k <= |base| {
        assert next[..|next| - (k - 1)] == base[..|base| - k];
      }
    }
  }

  /** From a working directory inside the root, k segments ".." climb k levels
      and are stopped at the root. */
  lemma ResolveDotDots(root: Path, wd: Path, k: nat)
    requires IsCanonical(root) && IsCanonical(wd) && root <= wd
    ensures Resolve(root, wd, DotDotPath(k)) == if k <= |wd| - |root| then wd[..|wd| - k] else root
  {
    SplitDotDotPath(k);
    NormalizeDotDots(wd, k);
    var p := Normalize(wd, Split(DotDotPath(k)));
    if k <= |wd| - |root| {
      assert root <= p;
    } else if k <= |wd| {
      assert |p| < |root|;
    }
  }

  /** As written, ".." goes one level up from the working directory, unless
      that orders below the root, where the clamp puts it at the root: from
      the sibling /srv/v of the root /srv/u it lands at /srv/u. */
  lemma ResolveAsWrittenUp(root: Path, wd: Path)
    requires IsCanonical(root) && IsCanonical(wd) && wd != []
    ensures ResolveAsWritten(root, wd, "..") == if PathLess(Parent(wd), root) then root else Parent(wd)
  {
    SplitDotDotPath(1);
    NormalizeDotDots(wd, 1);
  }

  /** Strictly inside the root, the parent is inside the root too, and so
      never orders below it. */
  lemma ParentInsideRoot(root: Path, wd: Path)
    requires root < wd
    ensures root <= Parent(wd) && !PathLess(Parent(wd), root)
  {
    if root == Parent(wd) {
      PathLessIrreflexive(root);
    } else {
      ProperPrefixIsLess(root, Parent(wd));
      PathLessAsymmetric(root, Parent(wd));
    }
  }

  /** The FTP path "..", "../..", and so on. */
  function DotDotPath(k: nat): string
    decreases k
  {
    if k == 0 then "" else if k == 1 then ".." else "../" + DotDotPath(k - 1)
  }

  lemma {:induction false} SplitDotDotPath(k: nat)
    ensures Split(DotDotPath(k)) == if k == 0 then [""] else DotDots(k)
    decreases k
  {
    if k == 1 {
      SplitCons('.', "");
      assert ['.'] + "" == ".";
      assert Split("") == [""];
      SplitCons('.', ".");
      assert ['.'] + "." == "..";
      assert DotDots(1) == [".."];
    } else if k > 1 {
      SplitDotDotPath(k - 1);
      var t := DotDotPath(k - 1);
      SplitCons('/', t);
      SplitCons('.', "/" + t);
      assert "." + ("/" + t) == "./" + t;
      SplitCons('.', "./" + t);
      assert "." + ("./" + t) == "../" + t;
      assert DotDots(k) == [".."] + DotDots(k - 1);
    }
  }

  /** Each segment preceded by '/'. */
  function Slashed(segs: seq<string>): (s: string)
    ensures IsCanonical(segs) ==> |s| >= 2 * |segs|
    ensures segs != [] ==> |s| > 0 && s[0] == '/'
  {
    if segs == [] then "" else "/" + segs[0] + Slashed(segs[1..])
  }

  lemma {:induction false} SlashedAppend(a: seq<string>, b: seq<string>)
    ensures Slashed(a + b) == Slashed(a) + Slashed(b)
    decreases |a|
  {
    if a != [] {
      assert (a + b)[1..] == a[1..] + b;
      SlashedAppend(a[1..], b);
    } else {
      assert a + b == b;
    }
  }

  /** `generic_string()` of an absolute path. */
  function GenericString(p: Path): (s: string)
    ensures |s| >= 1 && s[0] == '/'
  {
    if p == [] then "/" else Slashed(p)
  }

  /** `Local2FTPPath` as written: the root itself is shown as "/"; otherwise
      the local path string is cut at `root.find(path) + |root| + 1`, in
      `size_t` arithmetic. None stands for the `std::out_of_range` thrown
      when that position is past the end. */
  function Local2FTPPath(root: Path, dir: Path): (r: Option<string>)
    ensures dir == root ==> r == Some("/")
  {
    if dir == root then Some("/")
    else
      var d := GenericString(dir);
      var rs := GenericString(root);
      SubStr(d, SizeAdd(SizeAdd(FindStr(rs, d, 0), |rs|), 1), NPOS)
  }

  /** Outside the root, the cut goes wrong: from the sibling /srv/v of the
      root /srv/u the text shown is empty, and from /t, which the clamp also
      lets through, the cut is past the end and `substr` throws. */
  lemma Local2FTPPathOutsideRoot()
    ensures Local2FTPPath(["srv", "u"], ["srv", "v"]) == Some("")
    ensures Local2FTPPath(["srv", "u"], ["t"]) == None
    ensures !PathLess(["t"], ["srv", "u"])
  {
    assert GenericString(["srv", "u"]) == "/srv/u";
    assert GenericString(["srv", "v"]) == "/srv/v";
    assert GenericString(["t"]) == "/t";
    var rs := "/srv/u";
    assert rs[5] != "/srv/v"[5];
    assert !OccursAt(rs, "/srv/v", 0);
    assert FindStr(rs, "/srv/v", 0) == NPOS;
    forall j | 0 <= j && j + 2 <= |rs| ensures !OccursAt(rs, "/t", j) {
      assert rs[j + 1] != 't';
      assert rs[j..j + 2][1] == rs[j + 1];
    }
    assert FindStr(rs, "/t", 0) == NPOS;
    NposWrap(6);
  }

  /** Below the root the search never matches, the position wraps round to
      the root string's length, and the reply is the part of the local path
      below the root with its leading '/'; except under the root "/", whose
      one character is the leading '/' of every path, so there the leading
      '/' is lost. */
  lemma Local2FTPPathBelowRoot(root: Path, dir: Path)
    requires IsCanonical(dir) && root < dir
    requires |GenericString(dir)| < NPOS
    ensures Local2FTPPath(root, dir) ==
      Some(if root == [] then Slashed(dir)[1..] else Slashed(dir[|root|..]))
  {
    var d := GenericString(dir);
    var rs := GenericString(root);
    var rest := dir[|root|..];
    if root == [] {
      assert d == Slashed(dir) && |d| >= 2 && rs == "/";
      assert FindStr(rs, d, 0) == NPOS;
      CutAfterRoot(d, rs);
    } else {
      assert dir == root + rest;
      SlashedAppend(root, rest);
      assert IsCanonical(rest);
      assert d == rs + Slashed(rest) && |Slashed(rest)| >= 2;
      assert FindStr(rs, d, 0) == NPOS;
      CutAfterRoot(d, rs);
      assert d[|rs|..] == Slashed(rest);
    }
  }

  /** Where the root string is not found in the longer local path, the cut
      lands just after the root string's length. */
  lemma CutAfterRoot(d: string, rs: string)
    requires 1 <= |rs| < |d| < NPOS && FindStr(rs, d, 0) == NPOS
    ensures SubStr(d, SizeAdd(SizeAdd(FindStr(rs, d, 0), |rs|), 1), NPOS) == Some(d[|rs|..])
  {
    NposWrap(|rs|);
    assert d[|rs|..|d|] == d[|rs|..];
  }

  /** `npos + n + 1` wraps round to `n` in `size_t`. */
  lemma NposWrap(n: nat)
    requires 1 <= n < NPOS
    ensures SizeAdd(SizeAdd(NPOS, n), 1) == n
  {
    assert NPOS + n == SizeMod + (n - 1);
    assert SizeAdd(NPOS, n) == n - 1;
  }

  function Parent(p: Path): Path
    requires p != []
  {
    p[..|p| - 1]
  }
}
