/** kernel/fs/vfs.c: path resolution by destructive tokenizing of a local copy. */
module Paths {
  import opened Machine
  import opened CString
  import opened HeapBlocks
  import opened Claims
  import opened FileTree
  import opened TreeHistory
  import opened RamState
  import opened RamFs

  const SLASH: u8 := 0x2F
  const VFS_PATH_MAX: int := 1024
  const MAX_MOUNTS: int := 16
  /** `sizeof(vfs_mount_t)` on i686. */
  const MOUNT_BYTES: u32 := 1064

  // ------------------------------------------------------------- pure splitting

  /** Index of the first slash, or the length. */
  function SlashAt(s: Name): (k: nat)
    ensures k <= |s| && SLASH !in s[..k] && (k < |s| ==> s[k] == SLASH)
  {
    if s == [] || s[0] == SLASH then 0
    else
      assert s == [s[0]] + s[1..];
      1 + SlashAt(s[1..])
  }

  /** The non-empty slash-separated components of a path. */
  function Components(s: Name): seq<Name>
    decreases |s|
  {
    if s == [] then []
    else
      var k := SlashAt(s);
      var rest := if k < |s| then Components(s[k + 1..]) else [];
      if k == 0 then rest else [s[..k]] + rest
  }

  /** A name that can appear in a path. */
  predicate Plain(name: Name) {
    name != [] && SLASH !in name && 0 !in name
  }

  /** Each name after a slash. */
  function PathText(names: seq<Name>): Name {
    if names == [] then [] else [SLASH] + names[0] + PathText(names[1..])
  }

  lemma {:induction false} SlashAtIs(s: Name, k: nat)
    requires k <= |s| && SLASH !in s[..k] && (k < |s| ==> s[k] == SLASH)
    ensures SlashAt(s) == k
  {
    if k > 0 {
      assert s[..k][0] == s[0];
      assert s[..k] == [s[0]] + s[1..][..k - 1];
      SlashAtIs(s[1..], k - 1);
    }
  }

  /** A leading slash adds no component. */
  lemma LeadingSlash(t: Name)
    ensures Components([SLASH] + t) == Components(t)
  {
    var s := [SLASH] + t;
    SlashAtIs(s, 0);
    assert s[1..] == t;
  }

  /** A name followed by nothing or by a slash is the first component. */
  lemma LeadingName(name: Name, rest: Name)
    requires Plain(name) && (rest == [] || rest[0] == SLASH)
    ensures Components(name + rest) == [name] + Components(rest)
  {
    var t := name + rest;
    assert t[..|name|] == name;
    SlashAtIs(t, |name|);
    if rest == [] {
      assert [name] + [] == [name];
    } else {
      assert t[|name| + 1..] == rest[1..] && rest == [SLASH] + rest[1..];
      LeadingSlash(rest[1..]);
    }
  }

  lemma PathTextStep(names: seq<Name>)
    ensures names == [] ==> PathText(names) == []
    ensures names != [] ==> PathText(names) == [SLASH] + (names[0] + PathText(names[1..]))
  {
  }

  /** Splitting a printed path gives back its names. */
  lemma {:induction false} SplitJoined(names: seq<Name>)
    requires forall i | 0 <= i < |names| :: Plain(names[i])
    ensures Components(PathText(names)) == names
  {
    hide Components, Plain, SlashAt, PathText;
    PathTextStep(names);
    if names == [] {
      NoComponents();
    } else {
      var name, rest := names[0], PathText(names[1..]);
      SplitJoined(names[1..]);
      PathTextStep(names[1..]);
      LeadingName(name, rest);
      LeadingSlash(name + rest);
      assert names == [name] + names[1..];
    }
  }

  /** Components are non-empty and hold no slash, and a path is at least as long as they are printed. */
  lemma {:induction false} ComponentsLaw(s: Name)
    ensures forall name | name in Components(s) :: name != [] && SLASH !in name
    ensures |PathText(Components(s))| <= |s| + 1
    ensures s != [] && s[0] == SLASH ==> |PathText(Components(s))| <= |s|
    decreases |s|
  {
    hide Components, PathText;
    if s == [] {
      NoComponents();
      PathTextStep([]);
    } else {
      var k := SlashAt(s);
      ComponentsStep(s);
      var rest := if k < |s| then Components(s[k + 1..]) else [];
      if k < |s| {
        ComponentsLaw(s[k + 1..]);
      } else {
        PathTextStep([]);
      }
      if k > 0 {
        PathTextCons(s[..k], rest);
        assert forall name | name in [s[..k]] + rest :: name == s[..k] || name in rest;
      }
    }
  }

  lemma PathTextCons(name: Name, rest: seq<Name>)
    ensures |PathText([name] + rest)| == 1 + |name| + |PathText(rest)|
  {
    hide PathText;
    PathTextStep([name] + rest);
    assert ([name] + rest)[1..] == rest;
  }

  /** Splitting what the buffer keeps of a printed path gives back the names if and only if each can
      appear in a path and the path fits the buffer. */
  lemma SplitPrintedIff(names: seq<Name>)
    requires forall i | 0 <= i < |names| :: 0 !in names[i]
    ensures Components(Buffered(PathText(names))) == names <==> Printable(names)
  {
    hide Components, PathText, SlashAt, Buffered, Plain;
    var path := PathText(names);
    BufferedLaw(path);
    if |path| < VFS_PATH_MAX {
      if forall i | 0 <= i < |names| :: Plain(names[i]) {
        SplitJoined(names);
      }
      ComponentsPlain(path, names);
    } else {
      PathTextStep(names);
      ComponentsLaw(Buffered(path));
    }
  }

  lemma BufferedLaw(path: Name)
    ensures |path| < VFS_PATH_MAX ==> Buffered(path) == path
    ensures |path| >= VFS_PATH_MAX ==> |Buffered(path)| == VFS_PATH_MAX - 1 && Buffered(path)[0] == path[0]
  {
  }

  lemma ComponentsPlain(s: Name, names: seq<Name>)
    requires forall i | 0 <= i < |names| :: 0 !in names[i]
    ensures Components(s) == names ==> forall i | 0 <= i < |names| :: Plain(names[i])
  {
    hide Components, PathText, SlashAt;
    ComponentsLaw(s);
    assert forall i | 0 <= i < |names| :: names[i] in names;
  }

  // ---------------------------------------------------------------- pure descent

  /** `vfs_finddir` on a RAM file system node. */
  ghost function Lookup(nodes: Nodes, kids: Kids, dir: u32, name: Name): (r: u32)
    requires KidsKnown(nodes, kids, dir)
    ensures r != NULL ==> r in nodes
  {
    if IsDirectory(nodes[dir]) then FirstNamed(nodes, kids[dir], name) else NULL
  }

  ghost function Descend(nodes: Nodes, kids: Kids, from: u32, names: seq<Name>): u32
    requires Threaded(nodes, kids) && (from != NULL ==> from in nodes)
    decreases names
  {
    if from == NULL || names == [] then from
    else
      KidsInNodes(nodes, kids, from);
      Descend(nodes, kids, Lookup(nodes, kids, from, names[0]), names[1..])
  }

  lemma {:induction false} DescendSnoc(nodes: Nodes, kids: Kids, from: u32, names: seq<Name>, name: Name)
    requires Threaded(nodes, kids) && (from != NULL ==> from in nodes)
    ensures var d := Descend(nodes, kids, from, names);
      && (d != NULL ==> KidsKnown(nodes, kids, d))
      && Descend(nodes, kids, from, names + [name]) == if d == NULL then NULL else Lookup(nodes, kids, d, name)
    decreases names
  {
    hide Threaded, Lookup;
    if from == NULL {
    } else {
      KidsInNodes(nodes, kids, from);
      if names == [] {
        assert names + [name] == [name];
        DescendDone(nodes, kids, Lookup(nodes, kids, from, name));
      } else {
        assert (names + [name])[0] == names[0] && (names + [name])[1..] == names[1..] + [name];
        DescendSnoc(nodes, kids, Lookup(nodes, kids, from, names[0]), names[1..], name);
      }
    }
  }

  /** With unique names, a node below the root is where the names to it lead. */
  lemma {:induction false} DescendTo(nodes: Nodes, kids: Kids, born: Birth, created: nat, root: u32, x: u32)
    requires Threaded(nodes, kids) && Aged(nodes, kids, born, created) && UniqueNames(nodes, kids)
    requires Below(nodes, kids, born, root, x) && NULL !in nodes
    ensures root in nodes && Descend(nodes, kids, root, NamesTo(nodes, kids, born, root, x)) == x
    decreases born[x]
  {
    hide Threaded, Descend, Aged, IsDirectory;
    if x == root {
      DescendDone(nodes, kids, root);
    } else {
      var d := nodes[x].parent;
      BelowKnown(nodes, kids, born, created, root, x);
      DescendTo(nodes, kids, born, created, root, d);
      KidsInNodes(nodes, kids, d);
      LookupIsMap(nodes, kids[d], nodes[x].name);
      DescendSnoc(nodes, kids, root, NamesTo(nodes, kids, born, root, d), nodes[x].name);
    }
  }

  lemma BelowKnown(nodes: Nodes, kids: Kids, born: Birth, created: nat, root: u32, x: u32)
    requires Aged(nodes, kids, born, created) && Below(nodes, kids, born, root, x) && x != root
    ensures var d := nodes[x].parent;
      d in nodes && d in kids && x in kids[d] && IsDirectory(nodes[d]) && x in born && d in born && born[d] < born[x]
  {
    assert kids[nodes[x].parent] != [];
  }

  /** Names lead only to the node they are the names to. */
  lemma {:induction false} DescendNames(nodes: Nodes, kids: Kids, born: Birth, created: nat, root: u32,
                                        names: seq<Name>)
    requires Threaded(nodes, kids) && Aged(nodes, kids, born, created) && root != NULL && root in nodes
    ensures var x := Descend(nodes, kids, root, names);
      x != NULL ==> Below(nodes, kids, born, root, x) && NamesTo(nodes, kids, born, root, x) == names
  {
    hide Threaded, Descend, Aged;
    if names == [] {
      DescendDone(nodes, kids, root);
    } else {
      var init, last := names[..|names| - 1], names[|names| - 1];
      assert names == init + [last];
      DescendNames(nodes, kids, born, created, root, init);
      DescendSnoc(nodes, kids, root, init, last);
      var d, x := Descend(nodes, kids, root, init), Descend(nodes, kids, root, names);
      if x != NULL {
        ChildBelow(nodes, kids, born, created, root, d, x);
      }
    }
  }

  /** Every name can appear in a path, and the path fits the local buffer. */
  predicate Printable(names: seq<Name>) {
    (forall i | 0 <= i < |names| :: Plain(names[i])) && |PathText(names)| < VFS_PATH_MAX
  }

  ghost predicate NamesStored(nodes: Nodes) {
    forall x | x in nodes :: 0 !in nodes[x].name
  }

  lemma {:induction false} NamesToStored(nodes: Nodes, kids: Kids, born: Birth, root: u32, x: u32)
    requires Below(nodes, kids, born, root, x) && NamesStored(nodes)
    ensures forall name | name in NamesTo(nodes, kids, born, root, x) :: 0 !in name
    decreases if x in born then born[x] else 0
  {
    if x != root {
      NamesToStored(nodes, kids, born, root, nodes[x].parent);
    }
  }

  /** The printed path of a node below the root resolves to it if and only if its names can appear in
      a path and the path fits the buffer. */
  lemma ResolvesPrintedIff(nodes: Nodes, kids: Kids, born: Birth, created: nat, root: u32, x: u32)
    requires Threaded(nodes, kids) && Aged(nodes, kids, born, created) && UniqueNames(nodes, kids)
    requires Below(nodes, kids, born, root, x) && NamesStored(nodes) && NULL !in nodes
    ensures root in nodes
    ensures var names := NamesTo(nodes, kids, born, root, x);
      Descend(nodes, kids, root, Components(Buffered(PathText(names)))) == x <==> Printable(names)
  {
    hide Threaded, Aged, Descend, Components, Buffered, Printable, UniqueNames;
    var names := NamesTo(nodes, kids, born, root, x);
    var found := Components(Buffered(PathText(names)));
    NamesToStored(nodes, kids, born, root, x);
    SplitPrintedIff(names);
    DescendTo(nodes, kids, born, created, root, x);
    DescendNames(nodes, kids, born, created, root, found);
  }

  // ------------------------------------------------------------------- the loop

  /** What the local buffer keeps of a path. */
  function Buffered(path: Name): Name {
    if |path| < VFS_PATH_MAX - 1 then path else path[..VFS_PATH_MAX - 1]
  }

  /** After the copy the buffer holds a string if and only if the path is short enough for its
      terminator, or the byte behind the copied ones was 0 before. */
  lemma BufferTerminatedIff(was: Name, now: Name, path: Name)
    requires |was| == VFS_PATH_MAX && 0 !in path && Copied(was, now, path, VFS_PATH_MAX - 1)
    ensures (exists s :: StringAt(now, 0, s)) <==> |path| < VFS_PATH_MAX - 1 || was[VFS_PATH_MAX - 1] == 0
    ensures |path| < VFS_PATH_MAX - 1 || was[VFS_PATH_MAX - 1] == 0 ==> StringAt(now, 0, Buffered(path))
  {
    var n := VFS_PATH_MAX - 1;
    if |path| < n {
      assert forall i | 0 <= i < |path| :: path[i] == now[..|path|][i];
      assert StringAt(now, 0, path);
    } else {
      assert forall i | 0 <= i < n :: now[i] == now[..n][i] == path[i];
      assert now[n] == now[n..][0] == was[n..][0];
      assert forall i | 0 <= i < n :: now[i] == path[i] && path[i] in path;
      assert forall s | StringAt(now, 0, s) :: |s| >= n;
      assert was[n] == 0 ==> StringAt(now, 0, path[..n]);
    }
  }

  /** `vfs_mount_t`: what `strncpy` keeps of path and type, and the node mounted. */
  datatype MountRecord = MountRecord(path: Name, fsType: Name, root: u32)

  class Vfs {
    const fs: FileSystem
    /** `vfs_root`, NULL until "/" is mounted. */
    var root: u32
    /** `mount_list`, newest first, and its length. */
    var mounts: seq<MountRecord>
    var mountCount: u32

    /** `vfs_init`. */
    constructor (files: FileSystem)
      ensures fs == files && root == NULL && mounts == [] && mountCount == 0
    {
      fs, root, mounts, mountCount := files, NULL, [], 0;
    }

    ghost predicate Valid()
      reads this, fs, fs.heap, fs.heap.mem
    {
      && fs.Valid() && (root != NULL ==> root in fs.nodes)
      && mountCount == |mounts| <= MAX_MOUNTS
    }

    /** `vfs_mount`: a record in the heap, and the root if it is mounted at "/". */
    method Mount(path: Option<Name>, fsType: Option<Name>, node: u32) returns (r: int)
      requires Valid() && (path.Some? ==> 0 !in path.value) && (node != NULL ==> node in fs.nodes)
      modifies this, fs.heap`blocks, fs.heap.mem
      ensures Valid() && fs.Contents() == old(fs.Contents()) && (r == 0 || r == -1)
      ensures r == 0 <==>
        && path.Some? && fsType.Some? && node != NULL && |old(mounts)| < MAX_MOUNTS
        && Malloc(old(fs.heap.blocks), MOUNT_BYTES).ptr.Some?
      ensures r == -1 ==> root == old(root) && mounts == old(mounts) && fs.heap.blocks == old(fs.heap.blocks)
      ensures r == 0 ==>
        && mounts == [MountRecord(path.value[..Min(|path.value|, 1023)], fsType.value[..Min(|fsType.value|, 31)], node)]
             + old(mounts)
        && root == (if path.value == [SLASH] then node else old(root))
        && old(fs.Others()) < fs.Others()
    {
      hide FileSystem.FilesIn, FileSystem.Tree, HeapBlocks.Valid, Malloc, Rest, Held;
      if path.None? || fsType.None? || node == NULL {
        return -1;
      }
      if mountCount >= MAX_MOUNTS {
        return -1;
      }
      var mount := fs.OtherMalloc(MOUNT_BYTES);
      if mount == NULL {
        return -1;
      }
      assert Buffered(path.value) == path.value[..Min(|path.value|, 1023)];
      mounts := [MountRecord(Buffered(path.value), fsType.value[..Min(|fsType.value|, 31)], node)] + mounts;
      mountCount := mountCount + 1;
      Terminated(path.value);
      Terminated([SLASH]);
      var order := StrCmp(path.value + [0], 0, [SLASH, 0], 0, path.value, [SLASH]);
      if order == 0 {
        root := node;
      }
      return 0;
    }

    /** `vfs_resolve_path` (`path` None is a NULL pointer). `stale` is the byte that the stack happens to
        hold at the end of the local buffer: a path of 1023 bytes or more leaves it in place. */
    method ResolvePath(path: Option<Name>, stale: u8) returns (node: u32)
      requires Valid() && (path.Some? ==> 0 !in path.value && (|path.value| < VFS_PATH_MAX - 1 || stale == 0))
      ensures path.None? ==> node == NULL
      ensures path.Some? ==> node == Descend(fs.nodes, fs.kids, root, Components(Buffered(path.value)))
      ensures path.Some? && root != NULL && UniqueNames(fs.nodes, fs.kids) ==>
        forall x | Below(fs.nodes, fs.kids, fs.born, root, x) ::
          path.value == PathText(NamesTo(fs.nodes, fs.kids, fs.born, root, x)) ==>
            (node == x <==> Printable(NamesTo(fs.nodes, fs.kids, fs.born, root, x)))
    {
      node := Resolve(path, stale);
      if path.Some? && root != NULL && UniqueNames(fs.nodes, fs.kids) {
        PrintedResolves();
      }
    }

    /** The printed path of every node below the root, resolved. */
    lemma PrintedResolves()
      requires Valid() && root != NULL && UniqueNames(fs.nodes, fs.kids)
      ensures forall x | Below(fs.nodes, fs.kids, fs.born, root, x) ::
        var names := NamesTo(fs.nodes, fs.kids, fs.born, root, x);
        Descend(fs.nodes, fs.kids, root, Components(Buffered(PathText(names)))) == x <==> Printable(names)
    {
      hide FileTree.Threaded, Aged, FilesOk, Counted, Descend, Components, Buffered, Printable, UniqueNames, Below;
      hide HeapBlocks.Valid, Balanced, NamesTo, PathText;
      forall a | a in fs.nodes ensures 0 !in fs.nodes[a].name {
        NodeOkOf(fs.nodes, fs.files, fs.claims, a);
      }
      fs.NullNoNode();
      forall x | Below(fs.nodes, fs.kids, fs.born, root, x)
        ensures var names := NamesTo(fs.nodes, fs.kids, fs.born, root, x);
          Descend(fs.nodes, fs.kids, root, Components(Buffered(PathText(names)))) == x <==> Printable(names)
      {
        ResolvesPrintedIff(fs.nodes, fs.kids, fs.born, fs.created, root, x);
      }
    }

    method Resolve(path: Option<Name>, stale: u8) returns (node: u32)
      requires Valid() && (path.Some? ==> 0 !in path.value && (|path.value| < VFS_PATH_MAX - 1 || stale == 0))
      ensures path.None? ==> node == NULL
      ensures path.Some? ==> node == Descend(fs.nodes, fs.kids, root, Components(Buffered(path.value)))
    {
      hide FileTree.Threaded, Aged, Counted, FilesOk, NodesOk;
      if path.None? || root == NULL {
        return NULL;
      }
      var text := path.value + [0];
      Terminated(path.value);
      Terminated([SLASH]);
      var order := StrCmp(text, 0, [SLASH, 0], 0, path.value, [SLASH]);
      if order == 0 {
        LeadingSlash([]);
        assert [SLASH] + [] == [SLASH];
        return root;
      }
      var pathbuf := new u8[VFS_PATH_MAX];
      pathbuf[VFS_PATH_MAX - 1] := stale;
      ghost var was := pathbuf[..];
      StrNCpy(pathbuf, text, 0, VFS_PATH_MAX - 1, path.value);
      BufferTerminatedIff(was, pathbuf[..], path.value);
      node := Walk(pathbuf, Buffered(path.value));
    }

    /** The token loop over the local buffer, which it overwrites. */
    method Walk(pathbuf: array<u8>, ghost path: Name) returns (current: u32)
      requires Valid() && root != NULL && StringAt(pathbuf[..], 0, path)
      requires pathbuf as object != fs.heap.mem
      modifies pathbuf
      ensures current == Descend(fs.nodes, fs.kids, root, Components(path))
    {
      hide FileTree.Threaded, Aged, Counted, FilesOk, NodesOk, Components, StringAt, Descend, IsDirectory;
      hide FileSystem.HeapOk;
      current := root;
      var token: nat := 0;
      ghost var rem := path;
      CharAt(pathbuf[..], 0, path, 0);
      if pathbuf[token] == SLASH {
        SkipFirst(pathbuf[..], path);
        token := 1;
        rem := path[1..];
      }
      CharAt(pathbuf[..], token, rem, 0);
      while pathbuf[token] != 0 && current != NULL
        invariant StringAt(pathbuf[..], token, rem) && token + |rem| < pathbuf.Length
        invariant pathbuf[token] == 0 <==> rem == []
        invariant Valid() && (current != NULL ==> current in fs.nodes)
        invariant Descend(fs.nodes, fs.kids, current, Components(rem)) ==
          Descend(fs.nodes, fs.kids, root, Components(path))
        decreases |rem|
      {
        ghost var k := SlashAt(rem);
        DescendStep(fs.nodes, fs.kids, current, rem);
        var nextSep;
        current, nextSep := TakeToken(pathbuf, token, current, rem);
        if current == NULL {
          DescendNull(fs.nodes, fs.kids, if k < |rem| then Components(rem[k + 1..]) else []);
          return NULL;
        }
        if nextSep.None? {
          DescendDone(fs.nodes, fs.kids, current);
          return;
        }
        token := nextSep.value + 1;
        rem := rem[k + 1..];
        CharAt(pathbuf[..], token, rem, 0);
      }
      if current != NULL {
        NoComponents();
        DescendDone(fs.nodes, fs.kids, current);
      } else {
        DescendNull(fs.nodes, fs.kids, Components(rem));
      }
    }

    /** One round of the loop: cut the token off at its separator and look it up unless it is empty. */
    method TakeToken(pathbuf: array<u8>, token: nat, current: u32, ghost rem: Name)
      returns (next: u32, nextSep: Option<nat>)
      requires Valid() && current != NULL && current in fs.nodes && KidsKnown(fs.nodes, fs.kids, current)
      requires StringAt(pathbuf[..], token, rem) && pathbuf as object != fs.heap.mem
      modifies pathbuf
      ensures Valid()
      ensures var k := SlashAt(rem);
        && next == (if k == 0 then current else Lookup(fs.nodes, fs.kids, current, rem[..k]))
        && (nextSep.None? <==> k == |rem|)
        && (nextSep.Some? ==> nextSep.value == token + k && StringAt(pathbuf[..], token + k + 1, rem[k + 1..]))
    {
      hide FileTree.Threaded, Aged, Counted, FilesOk, NodesOk, StringAt, IsDirectory, FileSystem.HeapOk;
      ghost var k := SlashAt(rem);
      CharAt(pathbuf[..], token, rem, 0);
      nextSep := StrChr(pathbuf[..], token, SLASH, rem);
      assert nextSep.Some? ==> (rem + [0])[..nextSep.value - token] == rem[..nextSep.value - token];
      FirstSlash(rem, nextSep, token);
      ghost var was := pathbuf[..];
      if nextSep.Some? {
        CutString(was, token, rem, k);
        pathbuf[nextSep.value] := 0;
        assert pathbuf[..] == was[token + k := 0];
      } else {
        assert rem[..k] == rem;
      }
      var len := StrLen(pathbuf[..], token, rem[..k]);
      next := current;
      if len > 0 {
        TokenText(pathbuf[..], token, rem[..k]);
        next := fs.FindDir(current, pathbuf[token..token + len]);
      }
    }
  }

  lemma NoComponents()
    ensures Components([]) == []
  {
  }

  /** Skipping one leading slash of the buffer. */
  lemma SkipFirst(m: Name, path: Name)
    requires StringAt(m, 0, path) && m[0] == SLASH
    ensures path != [] && StringAt(m, 1, path[1..]) && Components(path) == Components(path[1..])
  {
    assert path[0] == SLASH && path == [SLASH] + path[1..];
    LeadingSlash(path[1..]);
    forall i | 0 <= i < |path[1..]| ensures path[1..][i] == m[1 + i] && path[1..][i] != 0 {
      assert path[1..][i] == path[i + 1];
    }
  }

  /** Overwriting the separator leaves the token before it and the rest after it. */
  lemma CutString(m: Name, t: nat, s: Name, k: nat)
    requires StringAt(m, t, s) && k < |s|
    ensures StringAt(m[t + k := 0], t, s[..k]) && StringAt(m[t + k := 0], t + k + 1, s[k + 1..])
  {
    var m', tail := m[t + k := 0], s[k + 1..];
    forall i | 0 <= i < |tail| ensures tail[i] == m'[t + k + 1 + i] && tail[i] != 0 {
      assert tail[i] == s[k + 1 + i];
    }
  }

  lemma TokenText(m: Name, t: nat, s: Name)
    requires StringAt(m, t, s)
    ensures t + |s| <= |m| && m[t..t + |s|] == s && 0 !in s
  {
  }

  lemma FirstSlash(s: Name, at: Option<nat>, token: nat)
    requires at.None? <==> SLASH !in s
    requires at.Some? ==>
      token <= at.value < token + |s| && s[at.value - token] == SLASH && SLASH !in s[..at.value - token]
    ensures SlashAt(s) == if at.Some? then at.value - token else |s|
  {
    if at.Some? {
      SlashAtIs(s, at.value - token);
    } else {
      assert s[..|s|] == s;
      SlashAtIs(s, |s|);
    }
  }

  /** One token: an empty one is skipped, a name is looked up. */
  lemma DescendStep(nodes: Nodes, kids: Kids, from: u32, rem: Name)
    requires Threaded(nodes, kids) && from != NULL && from in nodes && rem != []
    ensures KidsKnown(nodes, kids, from)
    ensures var k := SlashAt(rem);
      var rest := if k < |rem| then Components(rem[k + 1..]) else [];
      Descend(nodes, kids, from, Components(rem)) ==
        Descend(nodes, kids, if k == 0 then from else Lookup(nodes, kids, from, rem[..k]), rest)
  {
    hide Threaded, Descend, Lookup, Components;
    KidsInNodes(nodes, kids, from);
    ComponentsStep(rem);
    var k := SlashAt(rem);
    if k > 0 {
      DescendCons(nodes, kids, from, rem[..k], if k < |rem| then Components(rem[k + 1..]) else []);
    }
  }

  lemma ComponentsStep(rem: Name)
    requires rem != []
    ensures var k := SlashAt(rem);
      var rest := if k < |rem| then Components(rem[k + 1..]) else [];
      Components(rem) == if k == 0 then rest else [rem[..k]] + rest
  {
    hide SlashAt;
  }

  lemma DescendCons(nodes: Nodes, kids: Kids, from: u32, name: Name, rest: seq<Name>)
    requires Threaded(nodes, kids) && from != NULL && from in nodes && KidsKnown(nodes, kids, from)
    ensures Descend(nodes, kids, from, [name] + rest) == Descend(nodes, kids, Lookup(nodes, kids, from, name), rest)
  {
    hide Threaded, Lookup;
    assert ([name] + rest)[0] == name && ([name] + rest)[1..] == rest;
  }

  lemma DescendNull(nodes: Nodes, kids: Kids, names: seq<Name>)
    requires Threaded(nodes, kids)
    ensures Descend(nodes, kids, NULL, names) == NULL
  {
  }

  lemma DescendDone(nodes: Nodes, kids: Kids, from: u32)
    requires Threaded(nodes, kids) && (from != NULL ==> from in nodes)
    ensures Descend(nodes, kids, from, []) == from
  {
  }
}
