/** The file system's node registry: nodes, their mode bits, the permission
    check, and the name table that maps (parent id, name) to nodes through
    4096 hash buckets chained by each node's `nameNext`. */
module FsNames {
  import opened Base
  import Paths
  import MemFs

  /** The number of hash buckets (`FS.nameTable = new Array(4096)`). */
  const TableSize: nat := 4096

  // ---- Mode bits ----------------------------------------------------------

  /** `mode & 61440` (S_IFMT): bits 12 to 15 of the mode. */
  function FileType(mode: nat): nat
  {
    (mode / 0x1000) % 16 * 0x1000
  }

  const TypeFifo: nat := 4096
  const TypeCharDev: nat := 8192
  const TypeDir: nat := 16384
  const TypeBlockDev: nat := 24576
  const TypeFile: nat := 32768
  const TypeLink: nat := 40960

  predicate IsDir(mode: nat) { FileType(mode) == TypeDir }

  predicate IsFile(mode: nat) { FileType(mode) == TypeFile }

  /** Whether bit `p` (a power of two) of `mode` is set. */
  predicate Bit(mode: nat, p: nat)
    requires p > 0
  {
    (mode / p) % 2 == 1
  }

  /** `mode & 292` (0o444), `mode & 146` (0o222), `mode & 73` (0o111) are non-zero. */
  predicate AnyRead(mode: nat) { Bit(mode, 4) || Bit(mode, 32) || Bit(mode, 256) }

  predicate AnyWrite(mode: nat) { Bit(mode, 2) || Bit(mode, 16) || Bit(mode, 128) }

  predicate AnyExec(mode: nat) { Bit(mode, 1) || Bit(mode, 8) || Bit(mode, 64) }

  /** nodePermissions: 0 when `perms` (a string over "rwx") is allowed by
      `mode`, EACCES otherwise; everything is allowed while permissions are
      ignored (during start-up). Having any one of the owner, group and
      other bits of a kind is enough. */
  function Permission(ignore: bool, mode: nat, perms: string): (e: int)
    ensures e == 0 || e == EACCES
  {
    if ignore then 0
    else if 'r' in perms && !AnyRead(mode) then EACCES
    else if ('w' in perms && !AnyWrite(mode)) || ('x' in perms && !AnyExec(mode)) then EACCES
    else 0
  }

  /** FS.getMode: read (with execute) bits and write bits. The masks 365
      and 146 share no bit, so the source's `|=` is a sum here. */
  function ModeOf(canRead: bool, canWrite: bool): nat
  {
    (if canRead then 365 else 0) + (if canWrite then 146 else 0)
  }

  /** A mode from ModeOf grants reading exactly when asked to be readable
      and writing exactly when asked to be writable. */
  lemma ModeOfPermission(canRead: bool, canWrite: bool)
    ensures Permission(false, ModeOf(canRead, canWrite), "r") == 0 <==> canRead
    ensures Permission(false, ModeOf(canRead, canWrite), "w") == 0 <==> canWrite
    ensures Permission(false, ModeOf(canRead, canWrite), "rw") == 0 <==> canRead && canWrite
    ensures Permission(false, ModeOf(canRead, canWrite), "x") == 0 <==> canRead
  {
  }

  /** flagsToPermissionString: the access mode (`flags & 3`) picks "r", "w"
      or "rw", and O_TRUNC (512) appends a "w". Access mode 3 indexes past
      the table: undefined, which O_TRUNC turns into "undefinedw". */
  function FlagsToPermissions(flags: nat): Option<string>
  {
    var base: Option<string> :=
      if flags % 4 == 0 then Some("r")
      else if flags % 4 == 1 then Some("w")
      else if flags % 4 == 2 then Some("rw")
      else None;
    if (flags / 512) % 2 == 1 then Some((if base.Some? then base.value else "undefined") + "w")
    else base
  }

  /** Opening needs read permission for O_RDONLY and O_RDWR, write
      permission for O_WRONLY, O_RDWR or O_TRUNC; nothing else is asked. */
  lemma OpenPermission(flags: nat, mode: nat)
    requires flags % 4 != 3 || (flags / 512) % 2 == 1
    ensures FlagsToPermissions(flags).Some?
    ensures var perms := FlagsToPermissions(flags).value;
      Permission(false, mode, perms) == 0 <==>
        (flags % 4 != 1 && flags % 4 != 3 ==> AnyRead(mode)) &&
        (flags % 4 != 0 || (flags / 512) % 2 == 1 ==> AnyWrite(mode))
  {
    var perms := FlagsToPermissions(flags).value;
    assert 'x' !in perms;
    assert 'r' in perms <==> flags % 4 != 1 && flags % 4 != 3;
    assert 'w' in perms <==> flags % 4 != 0 || (flags / 512) % 2 == 1;
  }

  /** The open-mode strings FS.open accepts and the flags they stand for. */
  const FlagTable: map<string, nat> := map[
    "r" := 0, "rs" := 1052672, "r+" := 2,
    "w" := 577, "wx" := 705, "xw" := 705, "w+" := 578, "wx+" := 706, "xw+" := 706,
    "a" := 1089, "ax" := 1217, "xa" := 1217, "a+" := 1090, "ax+" := 1218, "xa+" := 1218]

  /** The names every plain object inherits from Object.prototype. Looking
      one up in the table finds a function (or, for `__proto__`, an object)
      rather than undefined, and every bitwise test FS.open makes on it
      reads 0. */
  const InheritedNames: set<string> := {
    "constructor", "hasOwnProperty", "isPrototypeOf", "propertyIsEnumerable",
    "toLocaleString", "toString", "valueOf", "__proto__",
    "__defineGetter__", "__defineSetter__", "__lookupGetter__", "__lookupSetter__"}

  /** FS.open's translation of a mode string, with its error for an unknown
      one: a table entry gives its flags, an inherited name is let through
      as flags 0 (read-only), and anything else throws. */
  function OpenFlags(m: string): (r: Result<nat, string>)
    ensures r.Ok? <==> m in FlagTable || m in InheritedNames
    ensures m in FlagTable ==> r == Ok(FlagTable[m])
    ensures m in InheritedNames ==> r == Ok(0)
    ensures r.Err? ==> r.error == "Unknown file open mode: " + m
  {
    if m in FlagTable then Ok(FlagTable[m])
    else if m in InheritedNames then Ok(0)
    else Err("Unknown file open mode: " + m)
  }

  /** The table's design: a '+' means O_RDWR, otherwise 'r' means O_RDONLY
      and 'w'/'a' O_WRONLY; 'w' adds O_CREAT|O_TRUNC, 'a' O_CREAT|O_APPEND,
      'x' adds O_EXCL (128). */
  lemma FlagTableShape()
    ensures OpenFlags("r+") == Ok(OpenFlags("r").value + 2)
    ensures OpenFlags("rs").value % 4 == 0
  {
  }

  /** "w" forms: write-only or read-write, with O_CREAT and O_TRUNC; "x" adds O_EXCL. */
  lemma WriteFlagsShape()
    ensures OpenFlags("w") == Ok(1 + 64 + 512) && OpenFlags("w+") == Ok(2 + 64 + 512)
    ensures OpenFlags("wx") == Ok(OpenFlags("w").value + 128) && OpenFlags("xw") == OpenFlags("wx")
  {
  }

  /** "a" forms: write-only or read-write, with O_CREAT and O_APPEND; "x" adds O_EXCL. */
  lemma AppendFlagsShape()
    ensures OpenFlags("a") == Ok(1 + 64 + 1024) && OpenFlags("a+") == Ok(2 + 64 + 1024)
    ensures OpenFlags("ax+") == Ok(OpenFlags("a+").value + 128) && OpenFlags("xa+") == OpenFlags("ax+")
  {
  }

  // ---- Name hash ----------------------------------------------------------

  /** `x | 0`: the 32-bit two's complement value congruent to x. */
  function Int32(x: int): int
  {
    (x + 0x8000_0000) % 0x1_0000_0000 - 0x8000_0000
  }

  /** One step of hashName: `(c << 5) - c + code | 0`. */
  function HashStep(c: int, u: Unit): int
  {
    Int32(Int32(32 * c) - c + u)
  }

  /** The 32-bit running hash of a name, a left fold of HashStep from 0. */
  function NameHash(name: JsString): (h: int)
    ensures -0x8000_0000 <= h < 0x8000_0000
  {
    if name == [] then 0 else HashStep(NameHash(name[..|name| - 1]), name[|name| - 1])
  }

  /** hashName: the bucket of (parent id, name), `(parent + hash >>> 0) % 4096`. */
  function Bucket(parentId: nat, name: JsString): (b: nat)
    ensures b < TableSize
  {
    ((parentId + NameHash(name)) % 0x1_0000_0000) % 4096
  }

  /** The same hash without wrap-around: the polynomial sum of code_i * 31^(n-1-i). */
  function Poly(name: JsString): int
  {
    if name == [] then 0 else 31 * Poly(name[..|name| - 1]) + name[|name| - 1]
  }

  lemma Int32Congruent(x: int)
    ensures Int32(x) == x - 0x1_0000_0000 * ((x + 0x8000_0000) / 0x1_0000_0000)
  {
  }

  /** One hash step is `31 * c + u` up to a multiple of 2^32. */
  lemma HashStepWraps(c: int, u: Unit) returns (q: int)
    ensures HashStep(c, u) == 31 * c + u - 0x1_0000_0000 * q
  {
    Int32Congruent(32 * c);
    var y := Int32(32 * c) - c + u;
    Int32Congruent(y);
    var q1 := (32 * c + 0x8000_0000) / 0x1_0000_0000;
    var q2 := (y + 0x8000_0000) / 0x1_0000_0000;
    q := q1 + q2;
  }

  /** The wrapping hash differs from the polynomial by a multiple of 2^32. */
  lemma {:induction false} NameHashWraps(name: JsString) returns (k: int)
    ensures NameHash(name) == Poly(name) + 0x1_0000_0000 * k
  {
    if name == [] {
      k := 0;
    } else {
      var p := name[..|name| - 1];
      var u := name[|name| - 1];
      var kp := NameHashWraps(p);
      var q := HashStepWraps(NameHash(p), u);
      assert NameHash(name) == HashStep(NameHash(p), u);
      assert Poly(name) == 31 * Poly(p) + u;
      k := 31 * kp - q;
    }
  }

  /** The wrapping hash agrees with the polynomial modulo 2^32. */
  lemma NameHashPoly(name: JsString)
    ensures (NameHash(name) - Poly(name)) % 0x1_0000_0000 == 0
  {
    var k := NameHashWraps(name);
    WrapsMod(NameHash(name) - Poly(name), k);
  }

  lemma WrapsMod(d: int, k: int)
    requires d == 0x1_0000_0000 * k
    ensures d % 0x1_0000_0000 == 0
  {
  }

  lemma ModMultiple(y: int, t: int)
    ensures (y + 4096 * t) % 4096 == y % 4096
  {
  }

  /** So a name's bucket is the polynomial hash plus the parent id, mod 4096:
      the 32-bit wrap-around never changes the bucket, as 4096 divides 2^32. */
  lemma BucketPoly(parentId: nat, name: JsString)
    ensures Bucket(parentId, name) == (parentId + Poly(name)) % 4096
  {
    var k := NameHashWraps(name);
    var x := parentId + NameHash(name);
    assert x == parentId + Poly(name) + 4096 * (0x10_0000 * k);
    ModMultiple(parentId + Poly(name), 0x10_0000 * k);
    assert x % 0x1_0000_0000 == x + 4096 * (-0x10_0000 * (x / 0x1_0000_0000));
    ModMultiple(x, -0x10_0000 * (x / 0x1_0000_0000));
  }

  /** hashName, written as the source's loop over the name's code units. */
  method HashName(parentId: nat, name: JsString) returns (b: nat)
    ensures b == Bucket(parentId, name)
  {
    var c := 0;
    for d := 0 to |name|
      invariant c == NameHash(name[..d])
    {
      assert name[..d + 1][..d] == name[..d];
      c := Int32(Int32(32 * c) - c + name[d]);
    }
    assert name[..|name|] == name;
    b := ((parentId + c) % 0x1_0000_0000) % 4096;
  }

  // ---- Nodes and the name table -------------------------------------------

  /** FSNode: identity, place in the tree, mode, the next node of its hash
      chain, and for a MEMFS regular file its contents buffer. */
  class FsNode {
    const id: nat
    const parentId: nat
    const name: JsString
    var mode: nat
    const rdev: int
    const storage: MemFs.MemFile?
    var nameNext: FsNode?

    /** A node whose parent is `parent`, or itself when there is none (the root). */
    constructor (parent: FsNode?, id: nat, name: JsString, mode: nat, rdev: int, storage: MemFs.MemFile?)
      ensures this.id == id && this.parentId == (if parent == null then id else parent.id)
      ensures this.name == name && this.mode == mode && this.rdev == rdev
      ensures this.storage == storage && nameNext == null
    {
      this.id := id;
      this.parentId := if parent == null then id else parent.id;
      this.name := name;
      this.mode := mode;
      this.rdev := rdev;
      this.storage := storage;
      nameNext := null;
    }
  }

  /** Pushing a node that is not in a chain in front of it keeps it a
      chain without repeats. */
  lemma ConsChain(n: FsNode, s: seq<FsNode>)
    requires (s == [] ==> n.nameNext == null) && (s != [] ==> n.nameNext == s[0])
    requires IsChain(if s == [] then null else s[0], s)
    ensures IsChain(n, [n] + s)
  {
    var t := [n] + s;
    forall k | 0 <= k < |t| - 1 ensures t[k].nameNext == t[k + 1] {
      if k > 0 {
        assert t[k] == s[k - 1] && t[k + 1] == s[k];
      }
    }
  }

  /** `s` is the chain starting at `head`: consecutive `nameNext` links,
      ending in null. */
  ghost predicate IsChain(head: FsNode?, s: seq<FsNode>)
    reads s
  {
    (if |s| == 0 then head == null else head == s[0] && s[|s| - 1].nameNext == null) &&
    forall k :: 0 <= k < |s| - 1 ==> s[k].nameNext == s[k + 1]
  }

  ghost predicate NoDup(s: seq<FsNode>)
  {
    forall i, j :: 0 <= i < j < |s| ==> s[i] != s[j]
  }

  /** The first node of a chain registered under (parent id, name). */
  function Find(s: seq<FsNode>, parentId: nat, name: JsString): (r: Option<FsNode>)
    ensures r.Some? ==> r.value in s && r.value.parentId == parentId && r.value.name == name
    ensures r.None? ==> forall x :: x in s ==> !(x.parentId == parentId && x.name == name)
  {
    if s == [] then None
    else if s[0].parentId == parentId && s[0].name == name then Some(s[0])
    else Find(s[1..], parentId, name)
  }

  /** The chain without `a`. */
  function Without(s: seq<FsNode>, a: FsNode): seq<FsNode>
  {
    if s == [] then []
    else if s[0] == a then s[1..]
    else [s[0]] + Without(s[1..], a)
  }

  lemma {:induction false} WithoutAt(s: seq<FsNode>, a: FsNode, i: nat)
    requires i < |s| && s[i] == a && a !in s[..i]
    ensures Without(s, a) == s[..i] + s[i + 1..]
  {
    if i > 0 {
      assert s[1..][..i - 1] == s[..i][1..];
      WithoutAt(s[1..], a, i - 1);
      assert s[1..][i..] == s[i + 1..];
      assert [s[0]] + s[1..][..i - 1] == s[..i];
    }
  }

  /** Dropping position i of a chain without repeats. */
  lemma DropAt(s: seq<FsNode>, i: nat)
    requires NoDup(s) && i < |s|
    ensures var t := s[..i] + s[i + 1..];
      |t| == |s| - 1 && NoDup(t) &&
      (forall k :: 0 <= k < i ==> t[k] == s[k]) &&
      (forall k :: i <= k < |t| ==> t[k] == s[k + 1]) &&
      (forall x :: x in t ==> x in s)
  {
    var t := s[..i] + s[i + 1..];
    forall p, q | 0 <= p < q < |t| ensures t[p] != t[q] {
      var p' := if p < i then p else p + 1;
      var q' := if q < i then q else q + 1;
      assert t[p] == s[p'] && t[q] == s[q'];
    }
  }

  lemma {:induction false} WithoutAbsent(s: seq<FsNode>, a: FsNode)
    requires a !in s
    ensures Without(s, a) == s
  {
    if s != [] {
      WithoutAbsent(s[1..], a);
    }
  }

  /** Unlinking removes exactly `a`: every other node of the chain stays. */
  lemma {:induction false} WithoutMembers(s: seq<FsNode>, a: FsNode, x: FsNode)
    requires NoDup(s)
    ensures x in Without(s, a) <==> x in s && x != a
  {
    if s != [] {
      assert NoDup(s[1..]) by {
        forall i, j | 0 <= i < j < |s| - 1 ensures s[1..][i] != s[1..][j] {
          assert s[1..][i] == s[i + 1] && s[1..][j] == s[j + 1];
        }
      }
      if s[0] == a {
        assert a !in s[1..] by {
          forall j | 0 <= j < |s| - 1 ensures s[1..][j] != a {
            assert s[1..][j] == s[j + 1];
          }
        }
      } else {
        WithoutMembers(s[1..], a, x);
      }
    }
  }

  /** The heap-free part of the table invariant: every chained node is
      registered, hashes to its bucket and occurs once; every registered
      id is below the counter. */
  ghost predicate ChainsOk(chains: seq<seq<FsNode>>, nodes: set<FsNode>, nextId: nat)
  {
    |chains| == TableSize &&
    (forall b, k :: 0 <= b < TableSize && 0 <= k < |chains[b]| ==>
      chains[b][k] in nodes && Bucket(chains[b][k].parentId, chains[b][k].name) == b) &&
    (forall b :: 0 <= b < TableSize ==> NoDup(chains[b])) &&
    (forall n :: n in nodes ==> n.id < nextId)
  }

  /** Registering a new node at the head of its bucket keeps the invariant. */
  lemma ChainsPush(chains: seq<seq<FsNode>>, nodes: set<FsNode>, nextId: nat, n: FsNode, b: nat)
    requires ChainsOk(chains, nodes, nextId) && n !in nodes && n.id == nextId
    requires b == Bucket(n.parentId, n.name)
    ensures ChainsOk(chains[b := [n] + chains[b]], nodes + {n}, nextId + 1)
  {
    var c2 := chains[b := [n] + chains[b]];
    forall c, k | 0 <= c < TableSize && 0 <= k < |c2[c]|
      ensures c2[c][k] in nodes + {n} && Bucket(c2[c][k].parentId, c2[c][k].name) == c
    {
      if c == b && k > 0 {
        assert c2[c][k] == chains[b][k - 1];
      }
    }
    forall c | 0 <= c < TableSize ensures NoDup(c2[c]) {
      if c == b {
        forall i, j | 0 <= i < j < |c2[b]| ensures c2[b][i] != c2[b][j] {
          assert c2[b][j] == chains[b][j - 1];
          if i > 0 {
            assert c2[b][i] == chains[b][i - 1];
          }
        }
      }
    }
  }

  /** A node hashes to one bucket, so it is in no other bucket's chain. */
  lemma OnlyInBucket(chains: seq<seq<FsNode>>, nodes: set<FsNode>, nextId: nat, b: nat, n: FsNode)
    requires ChainsOk(chains, nodes, nextId) && b < TableSize && Bucket(n.parentId, n.name) == b
    ensures forall c, k :: 0 <= c < TableSize && c != b && 0 <= k < |chains[c]| ==> chains[c][k] != n
  {
  }

  /** Replacing a chain by a repeat-free selection of its nodes keeps the invariant. */
  lemma ChainsReplace(chains: seq<seq<FsNode>>, nodes: set<FsNode>, nextId: nat, b: nat, t: seq<FsNode>)
    requires ChainsOk(chains, nodes, nextId) && b < TableSize
    requires NoDup(t) && forall x :: x in t ==> x in chains[b]
    ensures ChainsOk(chains[b := t], nodes, nextId)
  {
    var c2 := chains[b := t];
    forall c, k | 0 <= c < TableSize && 0 <= k < |c2[c]|
      ensures c2[c][k] in nodes && Bucket(c2[c][k].parentId, c2[c][k].name) == c
    {
      if c == b {
        assert t[k] in chains[b];
      }
    }
  }

  /** FS.nameTable with the node id counter and the ignore-permissions
      switch. `chains[b]` is the ghost view of bucket b's chain. */
  class NodeTable {
    var buckets: array<FsNode?>
    var nextId: nat
    var ignorePermissions: bool
    ghost var chains: seq<seq<FsNode>>
    ghost var nodes: set<FsNode>

    /** Every bucket holds the chain `chains` says, without repeats, of
        nodes that hash to it; ids are below the counter. */
    ghost predicate Valid()
      reads this, buckets, nodes
    {
      buckets.Length == TableSize && ChainsOk(chains, nodes, nextId) &&
      forall b :: 0 <= b < TableSize ==> IsChain(buckets[b], chains[b])
    }

    /** The empty table at start-up: ids start at 1 and permissions are
        ignored until initialisation ends. */
    constructor ()
      ensures Valid() && nextId == 1 && ignorePermissions
      ensures forall b :: 0 <= b < TableSize ==> chains[b] == []
    {
      buckets := new FsNode?[TableSize](_ => null);
      nextId := 1;
      ignorePermissions := true;
      chains := seq(TableSize, _ => []);
      nodes := {};
    }

    /** What lookupNode answers for (dir, name): the permission error, EACCES
        when the directory has no lookup operation (in MEMFS only
        directories have one), the first registered node, or ENOENT from
        the MEMFS lookup fallback. */
    ghost function Resolve(dirId: nat, dirMode: nat, name: JsString): Result<FsNode, int>
      reads this
      requires |chains| == TableSize
    {
      var p := Permission(ignorePermissions, dirMode, "x");
      if p != 0 then Err(p)
      else if !IsDir(dirMode) then Err(EACCES)
      else match Find(chains[Bucket(dirId, name)], dirId, name)
        case Some(n) => Ok(n)
        case None => Err(ENOENT)
    }

    /** FS.createNode + hashAddNode: a new node with the next id, pushed at
        the head of its bucket, so that lookups of its name now find it. */
    method CreateNode(parent: FsNode?, name: JsString, mode: nat, rdev: int, storage: MemFs.MemFile?)
      returns (n: FsNode)
      requires Valid()
      modifies this, buckets
      ensures Valid() && fresh(n)
      ensures n.id == old(nextId) && nextId == old(nextId) + 1
      ensures n.parentId == (if parent == null then n.id else parent.id)
      ensures n.name == name && n.mode == mode && n.rdev == rdev && n.storage == storage
      ensures chains == old(chains)[Bucket(n.parentId, name) := [n] + old(chains)[Bucket(n.parentId, name)]]
      ensures Find(chains[Bucket(n.parentId, name)], n.parentId, name) == Some(n)
      ensures nodes == old(nodes) + {n} && ignorePermissions == old(ignorePermissions)
    {
      n := new FsNode(parent, nextId, name, mode, rdev, storage);
      var b := HashName(n.parentId, n.name);
      Push(n, b);
    }

    /** The id counter's step and hashAddNode's two assignments: `n`
        becomes the head of bucket `b`. */
    method Push(n: FsNode, b: nat)
      requires Valid() && b == Bucket(n.parentId, n.name) && n !in nodes && n.id == nextId
      modifies this, buckets, n
      ensures Valid() && buckets == old(buckets)
      ensures chains == old(chains)[b := [n] + old(chains)[b]]
      ensures nodes == old(nodes) + {n}
      ensures nextId == old(nextId) + 1 && ignorePermissions == old(ignorePermissions)
      ensures n.mode == old(n.mode)
    {
      ChainsPush(chains, nodes, nextId, n, b);
      nextId := nextId + 1;
      n.nameNext := buckets[b];
      buckets[b] := n;
      chains := chains[b := [n] + chains[b]];
      nodes := nodes + {n};
      forall c | 0 <= c < TableSize ensures IsChain(buckets[c], chains[c]) {
        if c != b {
          assert chains[c] == old(chains)[c] && buckets[c] == old(buckets[c]);
          assert n !in chains[c];
        } else {
          ConsChain(n, old(chains)[b]);
        }
      }
    }

    /** FS.lookupNode: the permission check, then a walk down the bucket's
        chain for a node with this parent and name. */
    method Lookup(dir: FsNode, name: JsString) returns (r: Result<FsNode, int>)
      requires Valid()
      ensures r == Resolve(dir.id, dir.mode, name)
    {
      var p := Permission(ignorePermissions, dir.mode, "x");
      if p == 0 && !IsDir(dir.mode) {
        p := EACCES;
      }
      if p != 0 {
        return Err(p);
      }
      var b := HashName(dir.id, name);
      ghost var s := chains[b];
      var c := buckets[b];
      ghost var i := 0;
      while c != null
        invariant 0 <= i <= |s|
        invariant c == if i < |s| then s[i] else null
        invariant Find(s, dir.id, name) == Find(s[i..], dir.id, name)
        decreases |s| - i
      {
        if c.parentId == dir.id && c.name == name {
          return Ok(c);
        }
        assert s[i..][1..] == s[i + 1..];
        c := c.nameNext;
        i := i + 1;
      }
      return Err(ENOENT);
    }

    /** The node of `s` whose `nameNext` is `a`, if there is one. */
    method Predecessor(head: FsNode?, ghost s: seq<FsNode>, a: FsNode) returns (prev: FsNode?, ghost i: nat)
      requires IsChain(head, s) && (s != [] ==> s[0] != a)
      ensures prev == null ==> a !in s
      ensures prev != null ==> i + 1 < |s| && s[i] == prev && s[i + 1] == a && a !in s[..i + 1]
    {
      var c := head;
      i := 0;
      while c != null
        invariant 0 <= i <= |s|
        invariant c == if i < |s| then s[i] else null
        invariant forall k :: 0 <= k <= i && k < |s| ==> s[k] != a
        decreases |s| - i
      {
        if c.nameNext == a {
          return c, i;
        }
        c := c.nameNext;
        i := i + 1;
      }
      prev := null;
    }

    /** FS.hashRemoveNode: unlink `a` from its bucket's chain; every other
        node stays registered. */
    method Unlink(a: FsNode)
      requires Valid()
      modifies this, buckets, nodes
      ensures Valid() && nodes == old(nodes) && nextId == old(nextId)
      ensures ignorePermissions == old(ignorePermissions)
      ensures chains == old(chains)[Bucket(a.parentId, a.name) := Without(old(chains)[Bucket(a.parentId, a.name)], a)]
      ensures forall n :: n in old(nodes) ==> n.mode == old(n.mode)
    {
      var b := HashName(a.parentId, a.name);
      ghost var s := chains[b];
      if buckets[b] == a {
        PopHead(a, b);
        return;
      }
      var prev;
      ghost var i;
      prev, i := Predecessor(buckets[b], s, a);
      if prev == null {
        WithoutAbsent(s, a);
        return;
      }
      WithoutAt(s, a, i + 1);
      Bypass(prev, a, b, i);
    }

    /** hashRemoveNode when `a` heads bucket `b`: the bucket now starts at
        its successor. */
    method PopHead(a: FsNode, b: nat)
      requires Valid() && b < TableSize && buckets[b] == a
      modifies this, buckets
      ensures Valid() && buckets == old(buckets) && nodes == old(nodes)
      ensures nextId == old(nextId) && ignorePermissions == old(ignorePermissions)
      ensures chains == old(chains)[b := old(chains)[b][1..]]
    {
      ghost var s := chains[b];
      DropAt(s, 0);
      ChainsReplace(chains, nodes, nextId, b, s[1..]);
      buckets[b] := a.nameNext;
      chains := chains[b := s[1..]];
      forall k | 0 <= k < |s| - 2 ensures s[1..][k].nameNext == s[1..][k + 1] {
        assert s[1..][k] == s[k + 1] && s[1..][k + 1] == s[k + 2];
      }
      assert IsChain(buckets[b], chains[b]);
    }

    /** The assignment of hashRemoveNode's walk: `prev`, at position `i` of
        bucket `b`'s chain, skips over its successor `a`. */
    method Bypass(prev: FsNode, a: FsNode, ghost b: nat, ghost i: nat)
      requires Valid() && b < TableSize && i + 1 < |chains[b]|
      requires chains[b][i] == prev && chains[b][i + 1] == a
      modifies this, prev
      ensures Valid() && buckets == old(buckets) && nodes == old(nodes)
      ensures nextId == old(nextId) && ignorePermissions == old(ignorePermissions)
      ensures chains == old(chains)[b := old(chains)[b][..i + 1] + old(chains)[b][i + 2..]]
      ensures prev.mode == old(prev.mode)
    {
      ghost var s := chains[b];
      var t := s[..i + 1] + s[i + 2..];
      DropAt(s, i + 1);
      ChainsReplace(chains, nodes, nextId, b, t);
      OnlyInBucket(chains, nodes, nextId, b, prev);
      ghost var after := if i + 2 < |s| then s[i + 2] else null;
      assert a.nameNext == after;
      prev.nameNext := a.nameNext;
      chains := chains[b := t];
      forall c | 0 <= c < TableSize && c != b ensures IsChain(buckets[c], chains[c]) {
        assert chains[c] == old(chains)[c] && buckets[c] == old(buckets[c]);
      }
      forall k | 0 <= k < |t| ensures t[k].nameNext == (if k + 1 < |t| then t[k + 1] else null) {
        if k < i {
          assert t[k] == s[k] && t[k + 1] == s[k + 1] && s[k] != prev;
        } else if k > i {
          assert t[k] == s[k + 1] && s[k + 1] != prev;
          assert t[k].nameNext == old(s[k + 1].nameNext);
        }
      }
      assert IsChain(buckets[b], t);
    }

    /** FS.mayCreate: EEXIST when the name resolves, else the directory's
        write and search permission. */
    method MayCreate(dir: FsNode, name: JsString) returns (e: int)
      requires Valid()
      ensures e == EEXIST <==> Resolve(dir.id, dir.mode, name).Ok?
      ensures e != EEXIST ==> e == Permission(ignorePermissions, dir.mode, "wx")
    {
      var r := Lookup(dir, name);
      if r.Ok? {
        return EEXIST;
      }
      e := Permission(ignorePermissions, dir.mode, "wx");
    }

    /** FS.mknod under the already looked-up `parent`, followed by MEMFS's
        createNode: the last path segment must be a real name, must not
        exist yet, the parent must be a directory, and block devices and
        FIFOs are refused. */
    method Mknod(parent: FsNode, path: JsString, mode: nat, dev: int) returns (r: Result<FsNode, int>)
      requires Valid()
      modifies this, buckets
      ensures Valid()
      ensures var name := Paths.Basename(path);
        (name != [] && name != Paths.DotSeg && name != Paths.DotDotSeg &&
         old(Resolve(parent.id, parent.mode, name)).Ok?) ==> r == Err(EEXIST)
      ensures r.Err? ==> chains == old(chains) && nodes == old(nodes) && nextId == old(nextId)
      ensures r.Err? ==> r.error in {EINVAL, EEXIST, EACCES, EPERM}
      ensures var name := Paths.Basename(path);
        var named := name != [] && name != Paths.DotSeg && name != Paths.DotDotSeg;
        var free := named && old(Resolve(parent.id, parent.mode, name)).Err?;
        var allowed := free && Permission(old(ignorePermissions), parent.mode, "wx") == 0;
        var kindOk := IsDir(parent.mode) && FileType(mode) != TypeBlockDev && FileType(mode) != TypeFifo;
        (r == Err(EINVAL) <==> !named) &&
        (r == Err(EACCES) <==> free && Permission(old(ignorePermissions), parent.mode, "wx") == EACCES) &&
        (r == Err(EPERM) <==> allowed && !kindOk) &&
        (r.Ok? <==> allowed && kindOk)
      ensures r.Ok? ==>
        chains == old(chains)[Bucket(parent.id, r.value.name) := [r.value] + old(chains)[Bucket(parent.id, r.value.name)]] &&
        nodes == old(nodes) + {r.value} && r.value.id == old(nextId) && nextId == old(nextId) + 1
      ensures r.Ok? ==> fresh(r.value) && r.value.name == Paths.Basename(path) && r.value.mode == mode
      ensures r.Ok? ==> r.value.parentId == parent.id && Resolve(parent.id, parent.mode, r.value.name) == Ok(r.value)
      ensures r.Ok? ==> (IsFile(mode) <==> r.value.storage != null)
      ensures r.Ok? && IsFile(mode) ==> r.value.storage.Valid() && r.value.storage.usedBytes == 0
    {
      var name := Paths.Basename(path);
      if name == [] || name == Paths.DotSeg || name == Paths.DotDotSeg {
        return Err(EINVAL);
      }
      var f := MayCreate(parent, name);
      if f != 0 {
        return Err(f);
      }
      if !IsDir(parent.mode) {
        return Err(EPERM);
      }
      if FileType(mode) == TypeBlockDev || FileType(mode) == TypeFifo {
        return Err(EPERM);
      }
      var storage: MemFs.MemFile? := null;
      if IsFile(mode) {
        storage := new MemFs.MemFile();
      }
      var n := CreateNode(parent, name, mode, dev, storage);
      return Ok(n);
    }
  }
}
