/** The filesystem the handlers act on, abstracted as a map from absolute
    canonical paths to nodes. Each operation the handlers call
    (`create_directory`, `remove`, `remove_all`, `rename` and opening file
    streams) is a function from one tree to the next, and `FileStore` holds
    the tree shared by all sessions. */
module FileSystem {
  import opened Wrappers
  import opened Text
  import opened Paths

  /** `fs::perms`: the low nine bits are rwx for owner, group and others. */
  type Mode = bv16

  const OwnerRead: Mode := 0x100
  const OwnerWrite: Mode := 0x80
  /** 0777 and 0666 masked by the usual umask 022. */
  const NewDirMode: Mode := 0x1ED
  const NewFileMode: Mode := 0x1A4

  datatype Node = File(data: seq<byte>, mode: Mode) | Dir(mode: Mode)

  type Tree = map<Path, Node>

  /** Every key is canonical, the root "/" is a directory, and the parent of
      every other node is a directory in the tree. */
  ghost predicate WellFormed(t: Tree) {
    && [] in t && t[[]].Dir?
    && forall p :: p in t ==> IsCanonical(p) && (p != [] ==> Parent(p) in t && t[Parent(p)].Dir?)
  }

  /** The trees the shared filesystem can hold. */
  type WfTree = t: Tree | WellFormed(t) witness map[[] := Dir(0)]

  predicate IsDirectory(t: Tree, p: Path) { p in t && t[p].Dir? }

  predicate IsRegularFile(t: Tree, p: Path) { p in t && t[p].File? }

  predicate Readable(n: Node) { n.mode & OwnerRead != 0 }

  predicate Writable(n: Node) { n.mode & OwnerWrite != 0 }

  /** A `directory_iterator` over `p` can be opened. */
  predicate Listable(t: Tree, p: Path) { IsDirectory(t, p) && Readable(t[p]) }

  /** Entries may be created in or removed from the directory holding `p`. */
  predicate ParentWritable(t: Tree, p: Path) {
    p != [] && IsDirectory(t, Parent(p)) && Writable(t[Parent(p)])
  }

  predicate IsChild(q: Path, p: Path) { |q| == |p| + 1 && p < q }

  /** The entries of directory `p`, as `directory_iterator` yields them. */
  function Children(t: Tree, p: Path): (c: set<Path>)
    ensures forall q :: q in c <==> q in t && IsChild(q, p)
  {
    set q | q in t && IsChild(q, p)
  }

  /** `p` and everything below it. */
  function Subtree(t: Tree, p: Path): (s: set<Path>)
    ensures forall q :: q in s <==> q in t && p <= q
  {
    set q | q in t && p <= q
  }

  // permString

  /** One character of the permission string: `c` where `bit` is set. */
  function Flag(m: Mode, bit: Mode, c: char): char {
    if m & bit != 0 then c else '-'
  }

  /** `permString`: rwx for owner, group and others, '-' for a clear bit,
      one character appended after another. */
  function PermString(m: Mode): (s: string)
    ensures |s| == 9
  {
    [Flag(m, 0x100, 'r'), Flag(m, 0x80, 'w'), Flag(m, 0x40, 'x'),
     Flag(m, 0x20, 'r'), Flag(m, 0x10, 'w'), Flag(m, 0x8, 'x'),
     Flag(m, 0x4, 'r'), Flag(m, 0x2, 'w'), Flag(m, 0x1, 'x')]
  }

  /** The mode bit a permission character stands for: none for '-'. */
  function Bit(c: char, bit: Mode): Mode {
    if c == '-' then 0 else bit
  }

  /** Reads a nine-character permission string back into mode bits. */
  function ParsePerms(s: string): (m: Mode)
    requires |s| == 9
    ensures m & 0xFE00 == 0
    ensures s[0] == '-' <==> m & OwnerRead == 0
  {
    Bit(s[0], 0x100) | Bit(s[1], 0x80) | Bit(s[2], 0x40)
    | Bit(s[3], 0x20) | Bit(s[4], 0x10) | Bit(s[5], 0x8)
    | Bit(s[6], 0x4) | Bit(s[7], 0x2) | Bit(s[8], 0x1)
  }

  /** The permission string shows exactly the nine permission bits. */
  lemma PermStringRoundTrip(m: Mode)
    ensures ParsePerms(PermString(m)) == m & 0x1FF
  {
    NinePermissionBits(m);
  }

  /** The bits the nine characters stand for are the nine permission bits. */
  lemma NinePermissionBits(m: Mode)
    ensures Bit(Flag(m, 0x100, 'r'), 0x100)
      | Bit(Flag(m, 0x80, 'w'), 0x80)
      | Bit(Flag(m, 0x40, 'x'), 0x40)
      | Bit(Flag(m, 0x20, 'r'), 0x20)
      | Bit(Flag(m, 0x10, 'w'), 0x10)
      | Bit(Flag(m, 0x8, 'x'), 0x8)
      | Bit(Flag(m, 0x4, 'r'), 0x4)
      | Bit(Flag(m, 0x2, 'w'), 0x2)
      | Bit(Flag(m, 0x1, 'x'), 0x1)
      == m & 0x1FF
  {
  }

  // Operations. `Throws` stands for a `filesystem_error` that nothing
  // catches, which ends the server process.

  datatype Outcome<T> = Ok(tree: Tree, value: T) | Throws

  /** `create_directory(p)`: false, with nothing changed, when `p` is already a
      directory; a new directory when `p` is absent and its parent accepts
      entries; an exception otherwise. */
  function CreateDirectory(t: Tree, p: Path): (r: Outcome<bool>)
    requires WellFormed(t) && IsCanonical(p)
    ensures r.Ok? ==> WellFormed(r.tree)
    ensures IsDirectory(t, p) <==> r == Ok(t, false)
    ensures r.Ok? && r.value <==> p !in t && ParentWritable(t, p)
    ensures r.Ok? && r.value ==> r.tree == t[p := Dir(NewDirMode)]
    ensures r.Throws? <==> !IsDirectory(t, p) && (p in t || !ParentWritable(t, p))
  {
    if IsDirectory(t, p) then Ok(t, false)
    else if p in t || !ParentWritable(t, p) then Throws
    else Ok(t[p := Dir(NewDirMode)], true)
  }

  /** `remove(p)` (DELE calls it on a regular file): the entry goes when its
      directory is writable; otherwise an exception. */
  function Remove(t: Tree, p: Path): (r: Outcome<bool>)
    requires WellFormed(t) && IsRegularFile(t, p)
    ensures r.Ok? <==> ParentWritable(t, p)
    ensures r.Ok? ==> r.value && WellFormed(r.tree) && r.tree == t - {p}
  {
    if p != [] && ParentWritable(t, p) then
      assert forall q :: q in t && q != [] && Parent(q) == p ==> false;
      Ok(t - {p}, true)
    else Throws
  }

  /** Every directory in the subtree can be read, and written when it has
      entries, as `remove_all` needs. */
  predicate Clearable(t: Tree, p: Path) {
    forall q :: q in t && p <= q && t[q].Dir? ==>
      Readable(t[q]) && (Children(t, q) != {} ==> Writable(t[q]))
  }

  /** `remove_all(p)`: the number of entries removed, 0 when `p` is absent;
      an exception when `p` is "/", its directory is read-only, or a
      directory inside cannot be cleared. */
  function RemoveAll(t: Tree, p: Path): (r: Outcome<nat>)
    requires WellFormed(t)
    ensures p !in t ==> r == Ok(t, 0)
    ensures p in t ==> (r.Ok? <==> ParentWritable(t, p) && Clearable(t, p))
    ensures r.Ok? ==> WellFormed(r.tree) && r.value == |Subtree(t, p)|
    ensures r.Ok? ==> forall q :: q in r.tree <==> q in t && !(p <= q)
    ensures r.Ok? ==> forall q :: q in r.tree ==> r.tree[q] == t[q]
  {
    if p !in t then
      assert Subtree(t, p) == {} by {
        forall q | q in t && p <= q ensures false { SubtreeHasRoot(t, p, q); }
      }
      Ok(t, 0)
    else if ParentWritable(t, p) && Clearable(t, p) then
      var rest := map q | q in t && !(p <= q) :: t[q];
      assert WellFormed(rest) by {
        forall q | q in rest && q != [] ensures Parent(q) in rest {
          assert q == Parent(q) + [q[|q| - 1]];
        }
      }
      Ok(rest, |Subtree(t, p)|)
    else Throws
  }

  /** In a well-formed tree everything below `q` hangs under `q` itself. */
  lemma {:induction false} SubtreeHasRoot(t: Tree, p: Path, q: Path)
    requires WellFormed(t) && q in t && p <= q
    ensures p in t
    decreases |q|
  {
    if |q| > |p| {
      assert p <= Parent(q);
      SubtreeHasRoot(t, p, Parent(q));
    } else {
      assert p == q;
    }
  }

  /** The key a node at `q` gets when `src` is renamed to `dst`. */
  function Moved(q: Path, src: Path, dst: Path): Path
    requires src <= q
  {
    dst + q[|src|..]
  }

  /** `rename(src, dst, ec)`: fails (a non-zero error code) when `src` is
      absent, `dst` exists, `dst` lies inside `src`, or either directory is
      read-only; otherwise the whole subtree at `src` moves to `dst`. */
  function Rename(t: Tree, src: Path, dst: Path): (r: Option<Tree>)
    requires WellFormed(t) && IsCanonical(dst)
    ensures r.Some? <==> src in t && dst !in t && !(src <= dst)
                         && ParentWritable(t, src) && ParentWritable(t, dst)
    ensures r.Some? ==> WellFormed(r.value) && dst in r.value && src !in r.value
                        && r.value[dst] == t[src]
    ensures r.Some? ==> forall q :: q in t && !(src <= q) ==> q in r.value && r.value[q] == t[q]
  {
    if src in t && dst !in t && !(src <= dst) && ParentWritable(t, src) && ParentWritable(t, dst) then
      Some(MoveTree(t, src, dst))
    else None
  }

  /** The tree after the subtree at `src` is moved to the fresh place `dst`. */
  function MoveTree(t: Tree, src: Path, dst: Path): (r: Tree)
    requires WellFormed(t) && IsCanonical(dst)
    requires src in t && dst !in t && !(src <= dst)
    requires ParentWritable(t, src) && ParentWritable(t, dst)
    ensures WellFormed(r) && dst in r && src !in r && r[dst] == t[src]
    ensures forall q :: q in t && !(src <= q) ==> q in r && r[q] == t[q]
  {
    var kept := map q | q in t && !(src <= q) :: t[q];
    var moved := map k | k in MovedKeys(t, src, dst) :: t[src + k[|dst|..]];
    var r := kept + moved;
    assert dst in MovedKeys(t, src, dst) by { assert Moved(src, src, dst) == dst; }
    MoveTreeWellFormed(t, src, dst, kept, moved);
    r
  }

  /** The new keys of the moved subtree. Each one names the node at
      `src + k[|dst|..]`. */
  function MovedKeys(t: Tree, src: Path, dst: Path): (s: set<Path>)
    ensures forall k :: k in s ==> dst <= k && src + k[|dst|..] in t
  {
    var s := set q | q in t && src <= q :: Moved(q, src, dst);
    assert forall k :: k in s ==> dst <= k && src + k[|dst|..] in t by {
      forall k | k in s ensures dst <= k && src + k[|dst|..] in t {
        var q :| q in t && src <= q && k == Moved(q, src, dst);
        assert k[|dst|..] == q[|src|..];
        assert src + q[|src|..] == q;
      }
    }
    s
  }

  lemma MoveTreeWellFormed(t: Tree, src: Path, dst: Path, kept: Tree, moved: Tree)
    requires WellFormed(t) && IsCanonical(dst)
    requires src in t && dst !in t && !(src <= dst)
    requires ParentWritable(t, src) && ParentWritable(t, dst)
    requires kept == map q | q in t && !(src <= q) :: t[q]
    requires moved == map k | k in MovedKeys(t, src, dst) :: t[src + k[|dst|..]]
    requires dst in MovedKeys(t, src, dst)
    ensures WellFormed(kept + moved)
    ensures dst in kept + moved && src !in kept + moved && (kept + moved)[dst] == t[src]
    ensures forall q :: q in t && !(src <= q) ==> q in kept + moved && (kept + moved)[q] == t[q]
  {
    var r := kept + moved;
    assert r[dst] == t[src] by {
      assert src + dst[|dst|..] == src;
    }
    assert src !in moved by { NothingUnder(t, dst, src); }
    assert src <= src;
    assert !(src <= []) by { assert src != []; }
    forall k | k in r
      ensures IsCanonical(k) && (k != [] ==> Parent(k) in r && r[Parent(k)].Dir?)
    {
      if k in moved {
        MovedEntryPlaced(t, src, dst, kept, moved, k);
      } else {
        KeptEntryPlaced(t, src, dst, kept, moved, k);
      }
    }
    forall q | q in t && !(src <= q) ensures q in r && r[q] == t[q] {
      assert q !in moved by { NothingUnder(t, dst, q); }
    }
  }

  /** A moved node is canonical and sits in a directory of the new tree. */
  lemma MovedEntryPlaced(t: Tree, src: Path, dst: Path, kept: Tree, moved: Tree, k: Path)
    requires WellFormed(t) && IsCanonical(dst)
    requires src in t && dst !in t && !(src <= dst)
    requires ParentWritable(t, dst)
    requires kept == map q | q in t && !(src <= q) :: t[q]
    requires moved == map k | k in MovedKeys(t, src, dst) :: t[src + k[|dst|..]]
    requires k in moved
    ensures IsCanonical(k) && (k != [] ==> Parent(k) in kept + moved && (kept + moved)[Parent(k)].Dir?)
  {
    var q := src + k[|dst|..];
    assert q in t && IsCanonical(q);
    assert k == dst + k[|dst|..];
    assert k[|dst|..] == q[|src|..];
    if k == dst {
      assert Parent(dst) in t && t[Parent(dst)].Dir?;
      assert !(src <= Parent(dst)) by { assert Parent(dst) <= dst; }
      assert Parent(dst) in kept;
      assert Parent(dst) !in moved by { assert !(dst <= Parent(dst)); }
    } else {
      MovedParent(t, src, dst, moved, k);
    }
  }

  /** Below the new root, a moved node's parent is the moved parent. */
  lemma MovedParent(t: Tree, src: Path, dst: Path, moved: Tree, k: Path)
    requires WellFormed(t)
    requires moved == map k | k in MovedKeys(t, src, dst) :: t[src + k[|dst|..]]
    requires k in moved && k != dst
    ensures k != [] && Parent(k) in moved && moved[Parent(k)].Dir?
  {
    var q := src + k[|dst|..];
    assert k == dst + k[|dst|..] && q != src;
    var pq := Parent(q);
    assert pq in t && t[pq].Dir?;
    assert src <= pq;
    assert Parent(k) == Moved(pq, src, dst);
    assert Parent(k) in MovedKeys(t, src, dst);
    assert src + Parent(k)[|dst|..] == pq;
  }

  /** A node outside the moved subtree keeps its place. */
  lemma KeptEntryPlaced(t: Tree, src: Path, dst: Path, kept: Tree, moved: Tree, k: Path)
    requires WellFormed(t) && src in t && dst !in t
    requires kept == map q | q in t && !(src <= q) :: t[q]
    requires moved == map k | k in MovedKeys(t, src, dst) :: t[src + k[|dst|..]]
    requires k in kept + moved && k !in moved
    ensures IsCanonical(k) && (k != [] ==> Parent(k) in kept + moved && (kept + moved)[Parent(k)].Dir?)
  {
    assert k in t && !(src <= k);
    if k != [] {
      assert Parent(k) in t && t[Parent(k)].Dir?;
      assert Parent(k) <= k;
      assert !(src <= Parent(k));
      assert Parent(k) !in moved by { NothingUnder(t, dst, k); }
    }
  }

  /** Nothing in a well-formed tree lies below an absent path. */
  lemma NothingUnder(t: Tree, d: Path, x: Path)
    requires WellFormed(t) && d !in t && x in t
    ensures !(d <= x)
  {
    if d <= x { SubtreeHasRoot(t, d, x); }
  }

  /** Opening `p` for writing with truncation (STOR): an existing writable
      file is emptied, a missing file is created where its directory accepts
      entries, anything else does not open. */
  function OpenTruncate(t: Tree, p: Path): (r: Option<Tree>)
    requires WellFormed(t) && IsCanonical(p)
    ensures r.Some? <==> (IsRegularFile(t, p) && Writable(t[p])) || (p !in t && ParentWritable(t, p))
    ensures r.Some? ==> WellFormed(r.value) && r.value == t[p := File([], if p in t then t[p].mode else NewFileMode)]
  {
    if IsRegularFile(t, p) && Writable(t[p]) then Some(t[p := File([], t[p].mode)])
    else if p !in t && ParentWritable(t, p) then Some(t[p := File([], NewFileMode)])
    else None
  }

  /** Opening an existing file for appending (APPE) or reading (RETR). */
  predicate CanAppend(t: Tree, p: Path) { IsRegularFile(t, p) && Writable(t[p]) }

  function OpenRead(t: Tree, p: Path): (r: Option<seq<byte>>)
    ensures r.Some? <==> IsRegularFile(t, p) && Readable(t[p])
    ensures r.Some? ==> r.value == t[p].data
  {
    if IsRegularFile(t, p) && Readable(t[p]) then Some(t[p].data) else None
  }

  /** Bytes written to the path `p` land at the end of the regular file now
      at `p`, if there is one. */
  function AppendData(t: Tree, p: Path, bytes: seq<byte>): (r: Tree)
    requires WellFormed(t)
    ensures WellFormed(r)
    ensures IsRegularFile(t, p) ==> r == t[p := File(t[p].data + bytes, t[p].mode)]
    ensures !IsRegularFile(t, p) ==> r == t
  {
    if IsRegularFile(t, p) then t[p := File(t[p].data + bytes, t[p].mode)] else t
  }

  /** Two writes through the same stream add both pieces, in order. */
  lemma AppendDataTwice(t: Tree, p: Path, a: seq<byte>, b: seq<byte>)
    requires WellFormed(t)
    ensures AppendData(AppendData(t, p, a), p, b) == AppendData(t, p, a + b)
  {
    if IsRegularFile(t, p) {
      assert t[p].data + a + b == t[p].data + (a + b);
    }
  }

  /** `file_size`: defined for regular files, an exception otherwise. */
  function FileSize(t: Tree, p: Path): (r: Option<nat>)
    ensures r.Some? <==> IsRegularFile(t, p)
    ensures r.Some? ==> r.value == |t[p].data|
  {
    if IsRegularFile(t, p) then Some(|t[p].data|) else None
  }

  /** The filesystem shared by every session. */
  class FileStore {
    var tree: WfTree

    constructor (t: WfTree)
      ensures tree == t
    {
      tree := t;
    }

    /** `dirContent`: the entries of a directory, in `std::set<fs::path>`
        order (by path, so by name), each once. */
    method DirContent(p: Path) returns (entries: seq<Path>)
      ensures forall q :: q in entries <==> q in Children(tree, p)
      ensures forall i, j :: 0 <= i < j < |entries| ==> PathLess(entries[i], entries[j])
    {
      var rest := Children(tree, p);
      entries := [];
      while rest != {}
        invariant rest <= Children(tree, p)
        invariant forall q :: q in entries <==> q in Children(tree, p) && q !in rest
        invariant forall i, j :: 0 <= i < j < |entries| ==> PathLess(entries[i], entries[j])
        invariant forall i, q :: 0 <= i < |entries| && q in rest ==> PathLess(entries[i], q)
        decreases rest
      {
        MinExists(rest);
        var m :| m in rest && forall q :: q in rest ==> !PathLess(q, m);
        forall q | q in rest - {m} ensures PathLess(m, q) {
          PathLessTotal(m, q);
        }
        forall i | 0 <= i < |entries| ensures PathLess(entries[i], m) { }
        entries := entries + [m];
        rest := rest - {m};
      }
    }
  }

  /** A non-empty finite set of paths has a least element. */
  lemma {:induction false} MinExists(s: set<Path>)
    requires s != {}
    ensures exists m :: m in s && forall q :: q in s ==> !PathLess(q, m)
    decreases |s|
  {
    var x :| x in s;
    if s == {x} {
      PathLessIrreflexive(x);
    } else {
      MinExists(s - {x});
      var m :| m in s - {x} && forall q :: q in s - {x} ==> !PathLess(q, m);
      if PathLess(x, m) {
        forall q | q in s ensures !PathLess(q, x) {
          if q != x && PathLess(q, x) {
            PathLessTransitive(q, x, m);
          }
          PathLessIrreflexive(x);
        }
      } else {
        assert forall q :: q in s ==> !PathLess(q, m);
      }
    }
  }
}
