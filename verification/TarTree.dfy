/**
 Building the tree of an archive: the walk from header to header, the path of a header, and the nodes that
 are created for it; proved against the archive seen as a list of members.
 */
module TarTree {
  import opened MachineBytes
  import opened Options
  import opened Powers
  import opened TarFiles

  type Name = seq<Byte>

  type Path = seq<Name>

  const SLASH := 47
  const SIZE_FIELD := 124
  const TYPE_FIELD := 156

  // ---------- headers ----------

  /** The null-terminated string at position off of a block. */
  function CString(b: seq<Byte>, off: nat): seq<Byte>
    decreases |b| - off
  {
    if off >= |b| || b[off] == 0 then [] else [b[off]] + CString(b, off + 1)
  }

  /** The parts of s between the delimiters, empty ones included. */
  function Split(s: seq<Byte>, delim: Byte): (r: Path)
    ensures r != []
  {
    if s == [] then [[]]
    else if s[0] == delim then [[]] + Split(s[1..], delim)
    else var r := Split(s[1..], delim); [[s[0]] + r[0]] + r[1..]
  }

  function Join(parts: Path, delim: Byte): seq<Byte>
    requires parts != []
  {
    if |parts| == 1 then parts[0] else parts[0] + [delim] + Join(parts[1..], delim)
  }

  /** Splitting and joining undo each other. */
  lemma {:induction false} JoinSplit(s: seq<Byte>, delim: Byte)
    ensures Join(Split(s, delim), delim) == s
    ensures forall i :: 0 <= i < |Split(s, delim)| ==> delim !in Split(s, delim)[i]
  {
    if s != [] {
      JoinSplit(s[1..], delim);
      var r := Split(s[1..], delim);
      assert s == [s[0]] + s[1..];
      if s[0] == delim {
        assert ([[]] + r)[1..] == r;
      } else {
        var t := [[s[0]] + r[0]] + r[1..];
        assert t[1..] == r[1..];
        assert |r| > 1 ==> Join(t, delim) == [s[0]] + Join(r, delim);
      }
    }
  }

  lemma {:induction false} SplitJoin(parts: Path, delim: Byte)
    requires parts != [] && forall i :: 0 <= i < |parts| ==> delim !in parts[i]
    ensures Split(Join(parts, delim), delim) == parts
    decreases |parts|, |parts[0]|
  {
    hide Split, Join;
    var s := Join(parts, delim);
    JoinStep(parts, delim);
    SplitStep(s, delim);
    if parts[0] != [] {
      var p := parts[0];
      var shorter := [p[1..]] + parts[1..];
      assert p == [p[0]] + p[1..];
      SplitJoin(shorter, delim);
      assert s[1..] == Join(shorter, delim);
      assert parts == [[p[0]] + shorter[0]] + shorter[1..];
    } else if |parts| > 1 {
      SplitJoin(parts[1..], delim);
      assert s[1..] == Join(parts[1..], delim);
      assert parts == [[]] + parts[1..];
    }
  }

  /** The first character of joined parts. */
  lemma JoinStep(parts: Path, delim: Byte)
    requires parts != []
    ensures Join(parts, delim) ==
      if parts[0] != [] then [parts[0][0]] + Join([parts[0][1..]] + parts[1..], delim)
      else if |parts| > 1 then [delim] + Join(parts[1..], delim)
      else []
  {
    if parts[0] != [] {
      var p := parts[0];
      assert p == [p[0]] + p[1..];
      assert ([p[1..]] + parts[1..])[1..] == parts[1..];
    }
  }

  /** The loop that splits a string character by character. */
  method SplitString(data: seq<Byte>, delim: Byte) returns (parts: Path)
    ensures parts == Split(data, delim)
  {
    hide Split;
    parts := [];
    var current: Name := [];
    assert data[0..] == data;
    Continued(Split(data, delim));
    for i := 0 to |data|
      invariant Split(data, delim) == Continue(parts, current, Split(data[i..], delim))
    {
      SplitStep(data[i..], delim);
      assert data[i..][1..] == data[i + 1..];
      var r := Split(data[i + 1..], delim);
      if data[i] == delim {
        assert ([[]] + r)[1..] == r && current + [] == current && [] + r[0] == r[0] && r == [r[0]] + r[1..];
        assert Continue(parts, current, [[]] + r) == Continue(parts + [current], [], r);
        parts := parts + [current];
        current := [];
      } else {
        assert current + ([data[i]] + r[0]) == (current + [data[i]]) + r[0];
        assert ([[data[i]] + r[0]] + r[1..])[1..] == r[1..];
        assert Continue(parts, current, [[data[i]] + r[0]] + r[1..]) == Continue(parts, current + [data[i]], r);
        current := current + [data[i]];
      }
    }
    SplitStep([], delim);
    assert data[|data|..] == [] && current + [] == current;
    parts := parts + [current];
  }

  /** The parts found so far, the one in progress, and the parts of the rest. */
  function Continue(parts: Path, current: Name, rest: Path): Path
    requires rest != []
  {
    parts + [current + rest[0]] + rest[1..]
  }

  lemma Continued(rest: Path)
    requires rest != []
    ensures Continue([], [], rest) == rest
  {
    assert [] + rest[0] == rest[0];
    assert rest == [rest[0]] + rest[1..];
  }

  lemma SplitStep(s: seq<Byte>, delim: Byte)
    ensures s == [] ==> Split(s, delim) == [[]]
    ensures s != [] && s[0] == delim ==> Split(s, delim) == [[]] + Split(s[1..], delim)
    ensures s != [] && s[0] != delim ==> (var r := Split(s[1..], delim); Split(s, delim) == [[s[0]] + r[0]] + r[1..])
  {
  }

  function HeaderPath(b: seq<Byte>): Path { Split(CString(b, 0), SLASH) }

  function HeaderSize(b: seq<Byte>): nat { OctalValue(CString(b, SIZE_FIELD)) }

  predicate IsRegular(b: seq<Byte>)
    requires |b| == BLOCK_SIZE
  {
    b[TYPE_FIELD] == ZERO
  }

  ghost predicate IsZeroBlock(b: seq<Byte>) {
    forall i :: 0 <= i < |b| ==> b[i] == 0
  }

  /** The number of blocks that hold size bytes. */
  function DataBlocks(size: nat): nat {
    size / BLOCK_SIZE + if size % BLOCK_SIZE != 0 then 1 else 0
  }

  /** It is the least that has room. */
  lemma BlocksExact(size: nat, k: nat)
    ensures 512 * DataBlocks(size) >= size && (512 * k >= size ==> DataBlocks(size) <= k)
    ensures k == DataBlocks(size) <==> size <= 512 * k < size + 512
  {
  }

  // ---------- what an archiver writes ----------

  /** The k lowest octal digits of n, as characters. */
  function OctalDigits(n: nat, k: nat): (s: seq<Byte>)
    ensures |s| == k && forall i :: 0 <= i < k ==> 48 <= s[i] < 56
  {
    if k == 0 then [] else OctalDigits(n / 8, k - 1) + [48 + n % 8]
  }

  lemma {:induction false} DigitsRead(n: nat, k: nat)
    requires n < Pow2(3 * k)
    ensures Octal(OctalDigits(n, k)) == n
  {
    if k > 0 {
      assert Pow2(3 * k) == 8 * Pow2(3 * (k - 1)) by {
        Pow2Add(3, 3 * (k - 1));
        assert Pow2(3) == 8;
      }
      DigitsRead(n / 8, k - 1);
      var s := OctalDigits(n, k);
      assert s[..k - 1] == OctalDigits(n / 8, k - 1);
    } else {
      assert Pow2(0) == 1;
    }
  }

  /** A number of fewer than k digits starts with a zero. */
  lemma {:induction false} LeadingZero(n: nat, k: nat)
    requires k > 0 && n < Pow2(3 * (k - 1))
    ensures OctalDigits(n, k)[0] == 48
  {
    if k > 1 {
      assert Pow2(3 * (k - 1)) == 8 * Pow2(3 * (k - 2)) by {
        Pow2Add(3, 3 * (k - 2));
        assert Pow2(3) == 8;
      }
      LeadingZero(n / 8, k - 1);
    } else {
      assert Pow2(0) == 1;
    }
  }

  /**
   A header block in the ustar interchange format: the name from byte 0 on, the size in eleven octal digits from byte
   124 on, both ended by a zero byte, and the type in byte 156.
   */
  ghost predicate UstarHeader(b: seq<Byte>, name: seq<Byte>, size: nat, flag: Byte) {
    && |b| == 512 && 0 < |name| < 100 && 0 !in name && b[0..|name|] == name && b[|name|] == 0
    && size < 0x4000_0000 && b[124..135] == OctalDigits(size, 11) && b[135] == 0
    && b[156] == flag
  }

  lemma {:induction false} CStringIs(b: seq<Byte>, off: nat, s: seq<Byte>)
    requires off + |s| < |b| && b[off..off + |s|] == s && b[off + |s|] == 0 && 0 !in s
    ensures CString(b, off) == s
    decreases |s|
  {
    if s != [] {
      assert b[off] == s[0] && s[0] in s;
      assert b[off + 1..off + 1 + |s[1..]|] == s[1..];
      CStringIs(b, off + 1, s[1..]);
    }
  }

  /** The driver reads from such a header what was written. */
  lemma HeaderReadBack(b: seq<Byte>, name: seq<Byte>, size: nat, flag: Byte)
    requires UstarHeader(b, name, size, flag)
    ensures HeaderPath(b) == Split(name, 47) && HeaderSize(b) == size && !IsZeroBlock(b)
    ensures IsRegular(b) <==> flag == 48
  {
    hide OctalDigits, Octal, Split, CString, Pow2, OctalValue;
    var d := OctalDigits(size, 11);
    CStringIs(b, 0, name);
    CStringIs(b, 124, d);
    ThirtyBits();
    DigitsRead(size, 11);
    LeadingZero(size, 11);
    assert d == [ZERO] + d[1..];
    OctalExamples(d[1..]);
    assert b[0] == name[0] && name[0] in name;
  }

  lemma ThirtyBits()
    ensures Pow2(30) == 0x4000_0000 && Pow2(33) == 8 * Pow2(30)
  {
    Pow2Values();
    Pow2Add(15, 15);
    Pow2Add(3, 30);
    assert Pow2(3) == 8;
  }

  // ---------- the walk ----------

  /** The header blocks the walk visits from block bc on; none if a block cannot be read. */
  ghost function Headers(blocks: seq<seq<Byte>>, bad: set<nat>, bc: nat): Option<seq<nat>>
    decreases |blocks| - bc
  {
    if bc >= |blocks| then Some([])
    else if bc in bad then None
    else if IsZeroBlock(blocks[bc]) then Some([])
    else match Headers(blocks, bad, bc + 1 + DataBlocks(HeaderSize(blocks[bc])))
      case None => None
      case Some(hs) => Some([bc] + hs)
  }

  /** What a node says: whether it is a file, and then its header block and size. */
  datatype Entry = Entry(isFile: bool, block: nat, size: nat)

  const DIRECTORY := Entry(false, 0, 0)

  type Tree = map<Path, Entry>

  /** The nodes for the first k folders of a path, added where they are missing. */
  ghost function WithFolders(t: Tree, path: Path, k: nat): Tree
    requires k <= |path|
  {
    if k == 0 then t
    else
      var u := WithFolders(t, path, k - 1);
      if path[..k] in u then u else u[path[..k] := DIRECTORY]
  }

  ghost function Registered(t: Tree, path: Path, block: nat, size: nat): Tree {
    WithFolders(t, path, |path|)[path := Entry(true, block, size)]
  }

  /** The tree after the headers hs, in order. */
  ghost function Built(blocks: seq<seq<Byte>>, hs: seq<nat>): Tree
    requires forall i :: 0 <= i < |hs| ==> hs[i] < |blocks| && |blocks[hs[i]]| == BLOCK_SIZE
  {
    if hs == [] then map[[] := DIRECTORY]
    else
      var t, h := Built(blocks, hs[..|hs| - 1]), hs[|hs| - 1];
      if IsRegular(blocks[h]) then Registered(t, HeaderPath(blocks[h]), h, HeaderSize(blocks[h])) else t
  }

  lemma {:induction false} WithFoldersKeeps(t: Tree, path: Path, k: nat, p: Path)
    requires k <= |path|
    ensures p in t ==> p in WithFolders(t, path, k) && WithFolders(t, path, k)[p] == t[p]
    ensures p !in t && p in WithFolders(t, path, k) ==> WithFolders(t, path, k)[p] == DIRECTORY
    ensures p in WithFolders(t, path, k) <==> p in t || (0 < |p| <= k && p == path[..|p|])
  {
    if k > 0 {
      WithFoldersKeeps(t, path, k - 1, p);
    }
  }

  /** Header k is the last regular one of path p. */
  ghost predicate LastOf(blocks: seq<seq<Byte>>, hs: seq<nat>, k: nat, p: Path)
    requires forall i :: 0 <= i < |hs| ==> hs[i] < |blocks| && |blocks[hs[i]]| == BLOCK_SIZE
  {
    && k < |hs| && IsRegular(blocks[hs[k]]) && HeaderPath(blocks[hs[k]]) == p
    && forall j :: k < j < |hs| && IsRegular(blocks[hs[j]]) ==> HeaderPath(blocks[hs[j]]) != p
  }

  /** A path leads to a file iff some regular header has it, and then the last one counts. */
  lemma {:induction false} LastHeaderCounts(blocks: seq<seq<Byte>>, hs: seq<nat>, p: Path)
    requires forall i :: 0 <= i < |hs| ==> hs[i] < |blocks| && |blocks[hs[i]]| == BLOCK_SIZE
    ensures var t := Built(blocks, hs);
            && (p in t && t[p].isFile <==> exists k: nat :: LastOf(blocks, hs, k, p))
            && forall k: nat :: LastOf(blocks, hs, k, p) ==>
              p in t && t[p] == Entry(true, hs[k], HeaderSize(blocks[hs[k]]))
  {
    if hs != [] {
      hide WithFolders, HeaderPath, HeaderSize;
      var gs, h := hs[..|hs| - 1], hs[|hs| - 1];
      LastHeaderCounts(blocks, gs, p);
      if IsRegular(blocks[h]) {
        WithFoldersKeeps(Built(blocks, gs), HeaderPath(blocks[h]), |HeaderPath(blocks[h])|, p);
      }
      if IsRegular(blocks[h]) && HeaderPath(blocks[h]) == p {
        assert LastOf(blocks, hs, |hs| - 1, p);
      } else {
        forall k: nat
          ensures LastOf(blocks, hs, k, p) <==> LastOf(blocks, gs, k, p)
        {
          assert k < |gs| ==> gs[k] == hs[k];
        }
      }
    }
  }

  /** Path p is the path of a regular header or leads to one. */
  ghost predicate OnTheWay(blocks: seq<seq<Byte>>, hs: seq<nat>, i: nat, p: Path)
    requires forall i :: 0 <= i < |hs| ==> hs[i] < |blocks| && |blocks[hs[i]]| == BLOCK_SIZE
  {
    && i < |hs| && IsRegular(blocks[hs[i]]) && |p| <= |HeaderPath(blocks[hs[i]])|
    && p == HeaderPath(blocks[hs[i]])[..|p|]
  }

  /** There is a node exactly for the root and for every path on the way to a regular member. */
  lemma {:induction false} NodesExact(blocks: seq<seq<Byte>>, hs: seq<nat>, p: Path)
    requires forall i :: 0 <= i < |hs| ==> hs[i] < |blocks| && |blocks[hs[i]]| == BLOCK_SIZE
    ensures p in Built(blocks, hs) <==> p == [] || exists i: nat :: OnTheWay(blocks, hs, i, p)
  {
    hide WithFolders, HeaderPath, HeaderSize;
    if hs != [] {
      var gs, h := hs[..|hs| - 1], hs[|hs| - 1];
      NodesExact(blocks, gs, p);
      var path := HeaderPath(blocks[h]);
      if IsRegular(blocks[h]) {
        WithFoldersKeeps(Built(blocks, gs), path, |path|, p);
        assert path[..|path|] == path;
      }
      forall i: nat
        ensures OnTheWay(blocks, hs, i, p) <==>
                OnTheWay(blocks, gs, i, p) || (i == |gs| && IsRegular(blocks[h]) && |p| <= |path| && p == path[..|p|])
      {
        assert i < |gs| ==> gs[i] == hs[i];
      }
      assert IsRegular(blocks[h]) && |p| <= |path| && p == path[..|p|] ==> OnTheWay(blocks, hs, |gs|, p);
    }
  }

  // ---------- the nodes ----------

  class TarFSNode {
    var children: map<Name, TarFSNode>
    var hasBlockOffset: bool
    var blockOffset: nat
    var size: nat

    constructor ()
      ensures children == map[] && !hasBlockOffset && blockOffset == 0 && size == 0
    {
      children, hasBlockOffset, blockOffset, size := map[], false, 0, 0;
    }
  }

  class TarFS {
    const device: BlockDevice
    const root: TarFSNode
    /** The node of each path. */
    ghost var nodeAt: map<Path, TarFSNode>

    /** A node's child of name c is the node of the longer path, if there is one. */
    ghost predicate ChildOk(p: Path, c: Name)
      requires p in nodeAt
      reads this, nodeAt.Values
    {
      && (c in nodeAt[p].children <==> p + [c] in nodeAt)
      && (c in nodeAt[p].children ==> nodeAt[p].children[c] == nodeAt[p + [c]])
    }

    /** Every node but the root has a parent. */
    ghost predicate ParentOk(p: Path)
      reads this`nodeAt
    {
      p != [] ==> p[..|p| - 1] in nodeAt
    }

    ghost predicate Own(p: Path, q: Path)
      requires p in nodeAt && q in nodeAt
      reads this
    {
      nodeAt[p] == nodeAt[q] ==> p == q
    }

    ghost predicate Valid()
      reads this, nodeAt.Values
    {
      && device.Valid()
      && [] in nodeAt && nodeAt[[]] == root
      && (forall p, q {:trigger Own(p, q)} :: p in nodeAt && q in nodeAt ==> Own(p, q))
      && (forall p {:trigger ParentOk(p)} :: p in nodeAt ==> ParentOk(p))
      && (forall p, c {:trigger ChildOk(p, c)} :: p in nodeAt ==> ChildOk(p, c))
    }

    ghost function EntryOf(n: TarFSNode): Entry
      reads n
    {
      if n.hasBlockOffset then Entry(true, n.blockOffset, n.size) else DIRECTORY
    }

    /** The tree as a value. */
    ghost function Entries(): Tree
      reads this, nodeAt.Values
    {
      map p | p in nodeAt :: EntryOf(nodeAt[p])
    }

    constructor (device: BlockDevice)
      requires device.Valid()
      ensures Valid() && Entries() == map[[] := DIRECTORY] && this.device == device && fresh(nodeAt.Values)
    {
      this.device := device;
      root := new TarFSNode();
      new;
      nodeAt := map[[] := root];
      assert forall p :: p in nodeAt ==> p == [];
    }

    /** A new node becomes the child c of the node of p. */
    method AddChild(parent: TarFSNode, c: Name, ghost p: Path) returns (node: TarFSNode)
      requires Valid() && p in nodeAt && nodeAt[p] == parent && p + [c] !in nodeAt
      modifies this`nodeAt, parent
      ensures Valid() && fresh(node) && nodeAt == old(nodeAt)[p + [c] := node]
      ensures Entries() == old(Entries())[p + [c] := DIRECTORY]
    {
      hide Entries;
      node := new TarFSNode();
      parent.children := parent.children[c := node];
      ghost var q0 := p + [c];
      nodeAt := nodeAt[q0 := node];
      assert q0[..|q0| - 1] == p;
      forall q, r | q in nodeAt && r in nodeAt
        ensures Own(q, r)
      {
        assert q != q0 && r != q0 ==> old(Own(q, r));
      }
      forall q | q in nodeAt
        ensures ParentOk(q)
      {
        assert q != q0 ==> old(ParentOk(q));
      }
      forall q, d | q in nodeAt
        ensures ChildOk(q, d)
      {
        LongerPath(q, d, p, c);
        if q == q0 {
          assert q + [d] in old(nodeAt) ==> old(ParentOk(q + [d]));
          assert (q + [d])[..|q + [d]| - 1] == q;
        } else {
          assert old(ChildOk(q, d)) && old(Own(q, p));
        }
      }
      EntriesGrow(q0);
    }

    /** Entries of the nodes that were there before are the same. */
    twostate lemma EntriesGrow(q: Path)
      requires q !in old(nodeAt) && q in nodeAt && nodeAt == old(nodeAt)[q := nodeAt[q]]
        && EntryOf(nodeAt[q]) == DIRECTORY
      requires forall r :: r in old(nodeAt) ==> EntryOf(nodeAt[r]) == old(EntryOf(nodeAt[r]))
      ensures Entries() == old(Entries())[q := DIRECTORY]
    {
    }

    /** Registers a file: missing folders are created on the way, and the last node gets the header's block and size. */
    method BuildTreeRecursive(path: Path, block: nat, size: nat)
      requires Valid()
      modifies this`nodeAt, nodeAt.Values
      ensures Valid() && Entries() == Registered(old(Entries()), path, block, size)
      ensures forall n :: n in nodeAt.Values ==> n in old(nodeAt.Values) || fresh(n)
    {
      var prevRoot := root;
      for i := 0 to |path|
        invariant Valid() && path[..i] in nodeAt && nodeAt[path[..i]] == prevRoot
        invariant Entries() == WithFolders(old(Entries()), path, i)
        invariant forall n :: n in nodeAt.Values ==> n in old(nodeAt.Values) || fresh(n)
      {
        assert path[..i + 1] == path[..i] + [path[i]];
        assert ChildOk(path[..i], path[i]);
        assert prevRoot in nodeAt.Values;
        if path[i] in prevRoot.children {
          prevRoot := prevRoot.children[path[i]];
        } else {
          prevRoot := AddChild(prevRoot, path[i], path[..i]);
        }
      }
      assert path[..|path|] == path;
      SetFile(prevRoot, block, size, path);
    }

    /** The node of a path becomes a file. */
    method SetFile(node: TarFSNode, block: nat, size: nat, ghost path: Path)
      requires Valid() && path in nodeAt && nodeAt[path] == node
      modifies node
      ensures Valid() && Entries() == old(Entries())[path := Entry(true, block, size)]
    {
      hide Entries;
      node.hasBlockOffset := true;
      node.blockOffset := block;
      node.size := size;
      forall p | p in nodeAt
        ensures ParentOk(p) && (p != path ==> nodeAt[p] != node)
      {
        assert old(ParentOk(p)) && old(Own(p, path));
      }
      forall p, q | p in nodeAt && q in nodeAt
        ensures Own(p, q)
      {
        assert old(Own(p, q));
      }
      forall p, c | p in nodeAt
        ensures ChildOk(p, c)
      {
        assert old(ChildOk(p, c));
      }
      EntrySet(path);
    }

    twostate lemma EntrySet(q: Path)
      requires nodeAt == old(nodeAt) && q in nodeAt
      requires forall r :: r in nodeAt && r != q ==> EntryOf(nodeAt[r]) == old(EntryOf(nodeAt[r]))
      ensures Entries() == old(Entries())[q := EntryOf(nodeAt[q])]
    {
    }

    /** Follows the names of a path from the root. */
    method Lookup(path: Path) returns (node: TarFSNode?)
      requires Valid()
      ensures node == if path in nodeAt then nodeAt[path] else null
    {
      node := root;
      for i := 0 to |path|
        invariant node != null && path[..i] in nodeAt && nodeAt[path[..i]] == node
      {
        assert path[..i + 1] == path[..i] + [path[i]];
        assert ChildOk(path[..i], path[i]);
        if path[i] !in node.children {
          NoPrefixNoPath(path, i + 1);
          return null;
        }
        node := node.children[path[i]];
      }
      assert path[..|path|] == path;
    }

    lemma {:induction false} NoPrefixNoPath(path: Path, k: nat)
      requires Valid() && k <= |path| && path[..k] !in nodeAt
      ensures path !in nodeAt
      decreases |path| - k
    {
      if k == |path| {
        assert path[..k] == path;
      } else {
        assert path[..k + 1][..k] == path[..k];
        assert path[..k + 1] in nodeAt ==> ParentOk(path[..k + 1]);
        NoPrefixNoPath(path, k + 1);
      }
    }

    lemma DeviceValid()
      requires Valid()
      ensures device.Valid()
    {
    }

    /** Walks from header to header and registers the regular files; fails when a block cannot be read. */
    method BuildTree() returns (ok: bool)
      requires Valid() && Entries() == map[[] := DIRECTORY]
      modifies this`nodeAt, nodeAt.Values
      ensures Valid()
      ensures ok <==> Headers(device.blocks, device.bad, 0).Some?
      ensures ok ==> HeadersOk(device.blocks, Headers(device.blocks, device.bad, 0).value)
                     && Entries() == Built(device.blocks, Headers(device.blocks, device.bad, 0).value)
    {
      hide Built, HeaderPath, HeaderSize, Registered, Octal, Headers, Preceded, CString, Split, DataBlocks,
        IsZeroBlock, TarFS.Valid, Entries;
      DeviceValid();
      var buffer := new Byte[BLOCK_SIZE](_ => 0);
      var blockCount := 0;
      ghost var done: seq<nat> := [];
      StartBuilt(device.blocks);
      while blockCount < |device.blocks|
        invariant Valid() && HeadersOk(device.blocks, done) && Entries() == Built(device.blocks, done)
        invariant forall n :: n in nodeAt.Values ==> n in old(nodeAt.Values) || fresh(n)
        invariant Headers(device.blocks, device.bad, 0) ==
          Preceded(done, Headers(device.blocks, device.bad, blockCount))
        decreases |device.blocks| - blockCount
      {
        WalkEnds(device.blocks, device.bad, blockCount, done);
        ok := device.ReadBlock(buffer, blockCount);
        if !ok {
          return;
        }
        var header := buffer[..];
        var zero := IsZero(header);
        if zero {
          break;
        }
        var size := Octal2ui(CString(header, SIZE_FIELD));
        SizeIs(header);
        OneMoreHeader(device.blocks, device.bad, done, blockCount);
        if header[TYPE_FIELD] == ZERO {
          var path := SplitString(CString(header, 0), SLASH);
          PathIs(header);
          BuildTreeRecursive(path, blockCount, size);
        }
        done := done + [blockCount];
        blockCount := blockCount + 1 + DataBlocks(size);
      }
      WalkEnds(device.blocks, device.bad, blockCount, done);
      ok := true;
    }
  }

  ghost predicate HeadersOk(blocks: seq<seq<Byte>>, hs: seq<nat>) {
    forall i :: 0 <= i < |hs| ==> hs[i] < |blocks| && |blocks[hs[i]]| == BLOCK_SIZE
  }

  /** The headers already visited in front of the others. */
  ghost function Preceded(done: seq<nat>, rest: Option<seq<nat>>): Option<seq<nat>> {
    match rest case None => None case Some(hs) => Some(done + hs)
  }

  lemma StartBuilt(blocks: seq<seq<Byte>>)
    ensures Built(blocks, []) == map[[] := DIRECTORY]
    ensures forall h: Option<seq<nat>> :: Preceded([], h) == h
  {
    forall h: Option<seq<nat>>
      ensures Preceded([], h) == h
    {
      if h.Some? { assert [] + h.value == h.value; }
    }
  }

  lemma WalkEnds(blocks: seq<seq<Byte>>, bad: set<nat>, bc: nat, done: seq<nat>)
    ensures bc >= |blocks| || (bc !in bad && IsZeroBlock(blocks[bc])) ==>
      Preceded(done, Headers(blocks, bad, bc)) == Some(done)
    ensures bc < |blocks| && bc in bad ==> Preceded(done, Headers(blocks, bad, bc)) == None
  {
    assert done + [] == done;
  }

  lemma SizeIs(b: seq<Byte>)
    ensures OctalValue(CString(b, SIZE_FIELD)) == HeaderSize(b)
  {
  }

  lemma PathIs(b: seq<Byte>)
    ensures Split(CString(b, 0), SLASH) == HeaderPath(b)
  {
  }

  /** Visiting one more header. */
  lemma OneMoreHeader(blocks: seq<seq<Byte>>, bad: set<nat>, done: seq<nat>, bc: nat)
    requires HeadersOk(blocks, done) && bc < |blocks| && |blocks[bc]| == BLOCK_SIZE && bc !in bad
      && !IsZeroBlock(blocks[bc])
    ensures HeadersOk(blocks, done + [bc])
    ensures Preceded(done, Headers(blocks, bad, bc))
         == Preceded(done + [bc], Headers(blocks, bad, bc + 1 + DataBlocks(HeaderSize(blocks[bc]))))
    ensures Built(blocks, done + [bc]) ==
      if IsRegular(blocks[bc]) then Registered(Built(blocks, done), HeaderPath(blocks[bc]), bc, HeaderSize(blocks[bc]))
      else Built(blocks, done)
  {
    hide HeaderPath, HeaderSize, Registered;
    assert (done + [bc])[..|done + [bc]| - 1] == done;
    var rest := Headers(blocks, bad, bc + 1 + DataBlocks(HeaderSize(blocks[bc])));
    if rest.Some? {
      assert done + ([bc] + rest.value) == (done + [bc]) + rest.value;
    }
  }

  /** The driver's loop over a block. */
  method IsZero(b: seq<Byte>) returns (zero: bool)
    ensures zero <==> IsZeroBlock(b)
  {
    for i := 0 to |b|
      invariant forall j :: 0 <= j < i ==> b[j] == 0
    {
      if b[i] != 0 {
        return false;
      }
    }
    return true;
  }

  lemma LongerPath(p: Path, c: Name, q: Path, d: Name)
    ensures p + [c] == q + [d] <==> p == q && c == d
  {
    assert (p + [c])[..|p + [c]| - 1] == p && (q + [d])[..|q + [d]| - 1] == q;
    assert (p + [c])[|p + [c]| - 1] == c && (q + [d])[|q + [d]| - 1] == d;
  }

  // ---------- archives ----------

  /** A member of an archive: its header block and the blocks of its data. */
  datatype Member = Member(header: seq<Byte>, data: seq<seq<Byte>>)

  ghost predicate WellFormed(m: Member) {
    && |m.header| == 512 && !IsZeroBlock(m.header)
    && HeaderSize(m.header) <= 512 * |m.data| < HeaderSize(m.header) + 512
    && forall i :: 0 <= i < |m.data| ==> |m.data[i]| == 512
  }

  /** A ustar header with as many blocks behind it as the size needs is a member of an archive. */
  lemma UstarMember(m: Member, name: seq<Byte>, size: nat, flag: Byte)
    requires UstarHeader(m.header, name, size, flag) && size <= 512 * |m.data| < size + 512
    requires forall i :: 0 <= i < |m.data| ==> |m.data[i]| == 512
    ensures WellFormed(m) && HeaderPath(m.header) == Split(name, 47) && HeaderSize(m.header) == size
  {
    HeaderReadBack(m.header, name, size, flag);
  }

  /** The blocks of an archive's members, one after the other. */
  function Layout(ms: seq<Member>): seq<seq<Byte>> {
    if ms == [] then [] else [ms[0].header] + ms[0].data + Layout(ms[1..])
  }

  /** Where the members' headers are, when the first is at block base. */
  function Positions(ms: seq<Member>, base: nat): (hs: seq<nat>)
    ensures |hs| == |ms|
  {
    if ms == [] then [] else [base] + Positions(ms[1..], base + 1 + |ms[0].data|)
  }

  /** A disk that holds the members, and then a zero block or nothing; the blocks the walk needs can be read. */
  ghost predicate Holds(blocks: seq<seq<Byte>>, bad: set<nat>, pre: seq<seq<Byte>>, ms: seq<Member>,
                        tail: seq<seq<Byte>>) {
    && blocks == pre + Layout(ms) + tail
    && (forall i :: 0 <= i < |ms| ==> WellFormed(ms[i]))
    && (tail != [] ==> IsZeroBlock(tail[0]) && |pre| + |Layout(ms)| !in bad)
    && (forall p :: p in Positions(ms, |pre|) ==> p !in bad)
  }

  /** Member m starts at block h. */
  ghost predicate MemberIn(blocks: seq<seq<Byte>>, h: nat, m: Member) {
    && h < |blocks| && blocks[h] == m.header
    && forall k :: 0 <= k < |m.data| ==> h + 1 + k < |blocks| && blocks[h + 1 + k] == m.data[k]
  }

  lemma PositionsCons(ms: seq<Member>, base: nat)
    requires ms != []
    ensures Positions(ms, base) == [base] + Positions(ms[1..], base + 1 + |ms[0].data|)
    ensures forall j :: 0 < j < |ms| ==> Positions(ms, base)[j] == Positions(ms[1..], base + 1 + |ms[0].data|)[j - 1]
  {
  }

  /** The first member's blocks, moved to the front part. */
  lemma LayoutCons(pre: seq<seq<Byte>>, ms: seq<Member>, tail: seq<seq<Byte>>)
    requires ms != []
    ensures pre + Layout(ms) + tail == (pre + [ms[0].header] + ms[0].data) + Layout(ms[1..]) + tail
    ensures |Layout(ms)| == 1 + |ms[0].data| + |Layout(ms[1..])|
  {
    assert Layout(ms) == [ms[0].header] + ms[0].data + Layout(ms[1..]);
    Associate(pre, [ms[0].header], ms[0].data, Layout(ms[1..]));
  }

  lemma Associate(a: seq<seq<Byte>>, b: seq<seq<Byte>>, c: seq<seq<Byte>>, d: seq<seq<Byte>>)
    ensures a + (b + c + d) == a + b + c + d
  {
  }

  lemma FirstMember(blocks: seq<seq<Byte>>, bad: set<nat>, pre: seq<seq<Byte>>, ms: seq<Member>, tail: seq<seq<Byte>>)
    requires ms != [] && Holds(blocks, bad, pre, ms, tail)
    ensures MemberIn(blocks, |pre|, ms[0]) && |pre| !in bad
    ensures Holds(blocks, bad, pre + [ms[0].header] + ms[0].data, ms[1..], tail)
  {
    hide Layout, Positions, IsZeroBlock, WellFormed;
    var pre' := pre + [ms[0].header] + ms[0].data;
    LayoutCons(pre, ms, tail);
    PositionsCons(ms, |pre|);
    var hs, gs := Positions(ms, |pre|), Positions(ms[1..], |pre'|);
    assert hs == [|pre|] + gs;
    assert hs[0] in hs;
    forall p | p in gs
      ensures p !in bad
    {
      assert p in hs;
    }
    FrontPart(pre, ms[0].header, ms[0].data, Layout(ms[1..]), tail, blocks);
  }

  lemma FrontPart(pre: seq<seq<Byte>>, h: seq<Byte>, d: seq<seq<Byte>>, rest: seq<seq<Byte>>, tail: seq<seq<Byte>>,
                  blocks: seq<seq<Byte>>)
    requires blocks == (pre + [h] + d) + rest + tail
    ensures |pre| < |blocks| && blocks[|pre|] == h
    ensures forall k :: 0 <= k < |d| ==> |pre| + 1 + k < |blocks| && blocks[|pre| + 1 + k] == d[k]
  {
  }

  /** On a disk that holds an archive the walk visits exactly the members' headers. */
  lemma {:induction false} WalkExact(blocks: seq<seq<Byte>>, bad: set<nat>, pre: seq<seq<Byte>>, ms: seq<Member>,
                                     tail: seq<seq<Byte>>)
    requires Holds(blocks, bad, pre, ms, tail)
    ensures Headers(blocks, bad, |pre|) == Some(Positions(ms, |pre|))
    decreases |ms|
  {
    hide HeaderSize, DataBlocks, IsZeroBlock;
    if ms == [] {
      assert pre + Layout([]) == pre;
    } else {
      FirstMember(blocks, bad, pre, ms, tail);
      assert WellFormed(ms[0]);
      BlocksExact(HeaderSize(ms[0].header), |ms[0].data|);
      WalkExact(blocks, bad, pre + [ms[0].header] + ms[0].data, ms[1..], tail);
    }
  }

  /** What is at a member's position, and behind it. */
  lemma {:induction false} MemberAt(blocks: seq<seq<Byte>>, bad: set<nat>, pre: seq<seq<Byte>>, ms: seq<Member>,
                                    tail: seq<seq<Byte>>, i: nat)
    requires Holds(blocks, bad, pre, ms, tail) && i < |ms|
    ensures MemberIn(blocks, Positions(ms, |pre|)[i], ms[i])
    decreases |ms|
  {
    hide Layout, Positions, Holds, MemberIn;
    FirstMember(blocks, bad, pre, ms, tail);
    PositionsCons(ms, |pre|);
    if i == 0 {
      assert Positions(ms, |pre|)[i] == |pre|;
    } else {
      var pre' := pre + [ms[0].header] + ms[0].data;
      assert |pre'| == |pre| + 1 + |ms[0].data|;
      MemberAt(blocks, bad, pre', ms[1..], tail, i - 1);
      assert ms[1..][i - 1] == ms[i];
    }
  }

  /** Member i is the last regular one with its path. */
  ghost predicate LastMember(ms: seq<Member>, i: nat) {
    && i < |ms| && (forall j :: 0 <= j < |ms| ==> |ms[j].header| == BLOCK_SIZE) && IsRegular(ms[i].header)
    && forall j :: i < j < |ms| && IsRegular(ms[j].header) ==> HeaderPath(ms[j].header) != HeaderPath(ms[i].header)
  }

  /**
   In the tree built from an archive each path of a regular member leads to the last such member's header and size.
   */
  lemma MemberResolved(blocks: seq<seq<Byte>>, bad: set<nat>, ms: seq<Member>, tail: seq<seq<Byte>>, i: nat)
    requires Holds(blocks, bad, [], ms, tail) && LastMember(ms, i)
    ensures var hs, p := Positions(ms, 0), HeaderPath(ms[i].header);
      && HeadersOk(blocks, hs) && Headers(blocks, bad, 0) == Some(hs)
      && p in Built(blocks, hs) && Built(blocks, hs)[p] == Entry(true, hs[i], HeaderSize(ms[i].header))
  {
    hide HeaderPath, HeaderSize, Built, IsZeroBlock, DataBlocks, Headers, Layout;
    var hs, p := Positions(ms, 0), HeaderPath(ms[i].header);
    WalkExact(blocks, bad, [], ms, tail);
    forall j | 0 <= j < |hs|
      ensures hs[j] < |blocks| && blocks[hs[j]] == ms[j].header && |blocks[hs[j]]| == BLOCK_SIZE
    {
      MemberAt(blocks, bad, [], ms, tail, j);
    }
    LastHeaderCounts(blocks, hs, p);
    assert LastOf(blocks, hs, i, p);
  }

  /** The bytes read from a member's file are the member's data. */
  lemma MemberBytes(f: InternalFile, bad: set<nat>, ms: seq<Member>, tail: seq<seq<Byte>>, i: nat, k: nat)
    requires f.Valid() && Holds(f.device.blocks, bad, [], ms, tail) && i < |ms|
    requires f.startBlock == Positions(ms, 0)[i] + 1 && k < HeaderSize(ms[i].header)
    ensures k / BLOCK_SIZE < |ms[i].data| && |ms[i].data[k / BLOCK_SIZE]| == BLOCK_SIZE
    ensures f.Position(k) / BLOCK_SIZE < |f.device.blocks|
    ensures f.device.DiskByte(f.Position(k)) == ms[i].data[k / BLOCK_SIZE][k % BLOCK_SIZE]
  {
    hide HeaderSize, IsZeroBlock, Layout, Positions;
    assert WellFormed(ms[i]);
    MemberAt(f.device.blocks, bad, [], ms, tail, i);
    BlockOf(k, |ms[i].data|);
    PlaceOf(f.startBlock, k);
  }

  lemma BlockOf(k: nat, n: nat)
    requires k < 512 * n
    ensures k / BLOCK_SIZE < n
  {
  }

  lemma PlaceOf(b: nat, k: nat)
    ensures (b * BLOCK_SIZE + k) / BLOCK_SIZE == b + k / BLOCK_SIZE
      && (b * BLOCK_SIZE + k) % BLOCK_SIZE == k % BLOCK_SIZE
  {
  }

  /**
   From a disk that holds an archive: mounting it, finding a member by its path and reading from it gives the
   member's data.
   */
  method MountAndRead(device: BlockDevice, path: Path, buffer: array<Byte>, count: nat, off: nat,
                      ghost ms: seq<Member>, ghost tail: seq<seq<Byte>>, ghost i: nat) returns (n: nat)
    requires device.Valid() && Holds(device.blocks, device.bad, [], ms, tail) && LastMember(ms, i)
      && path == HeaderPath(ms[i].header)
    requires count <= buffer.Length && count < 0x8000_0000
    modifies buffer
    ensures n <= count && (off >= HeaderSize(ms[i].header) ==> n == 0)
    ensures off < HeaderSize(ms[i].header) && n < count ==>
      !device.Readable(Positions(ms, 0)[i] + 1 + (off + n) / BLOCK_SIZE)
    ensures forall k :: 0 <= k < n && off + k < HeaderSize(ms[i].header) ==> DataByte(ms[i], off + k) == Some(buffer[k])
  {
    hide HeaderPath, HeaderSize, Headers, Built, Holds, IsZeroBlock, BlockDevice.DiskByte;
    var fs := new TarFS(device);
    var ok := fs.BuildTree();
    MemberResolved(device.blocks, device.bad, ms, tail, i);
    ghost var hs := Positions(ms, 0);
    var node := fs.Lookup(path);
    assert fs.Entries()[path] == Entry(true, hs[i], HeaderSize(ms[i].header));
    MemberAt(device.blocks, device.bad, [], ms, tail, i);
    SizeFits(ms[i].header);
    var f := new InternalFile(device, node.blockOffset + 1, node.size);
    n := f.Pread(buffer, count, off);
    forall k | 0 <= k < n && off + k < HeaderSize(ms[i].header)
      ensures DataByte(ms[i], off + k) == Some(buffer[k])
    {
      assert f.Delivered(buffer, off, k);
      MemberBytes(f, device.bad, ms, tail, i, off + k);
    }
  }

  /** Byte k of a member's data. */
  function DataByte(m: Member, k: nat): Option<Byte> {
    var b := k / BLOCK_SIZE;
    if b < |m.data| && k % BLOCK_SIZE < |m.data[b]| then Some(m.data[b][k % BLOCK_SIZE]) else None
  }

  lemma SizeFits(b: seq<Byte>)
    ensures HeaderSize(b) < UINT_LIMIT
  {
  }
}
