/** What the RAM file system keeps true of its nodes, files and buffers, and how each step keeps it. */
module RamState {
  import opened Machine
  import opened HeapBlocks
  import opened HeapMemory
  import opened KernelHeap
  import opened Claims
  import opened FileContents
  import opened FileTree
  import CString

  /** `sizeof(vfs_node_t)` and `sizeof(ramfs_file_t)` on i686. */
  const NODE_BYTES: u32 := 180
  const FILE_BYTES: u32 := 12
  const VFS_FILE: u32 := 1
  const VFS_DIRECTORY: u32 := 2

  type Files = map<u32, File>

  // --------------------------------------------------------------- invariants

  /** A file's buffer is a block of its own that covers its capacity. */
  ghost predicate FileOk(x: File, f: u32, claims: Ledger) {
    && x.size <= x.capacity <= RAMFS_MAX_FILE_SIZE
    && (x.data == NULL <==> x.capacity == 0)
    && (x.data != NULL ==>
          x.data in claims && claims[x.data].kind == DataBlock(f) && claims[x.data].block.size >= x.capacity)
  }

  ghost predicate FilesOk(files: Files, claims: Ledger) {
    forall f | f in files :: f in claims && claims[f].kind.FileBlock? && FileOk(files[f], f, claims)
  }

  /** Every file with the number of reallocations its buffer went through. */
  ghost predicate Counted(files: Files, grown: map<u32, nat>) {
    grown.Keys == files.Keys && forall f | f in files :: Doubled(Growth(files[f].capacity, grown[f]))
  }

  /** No buffer is ever reallocated more than sixteen times. */
  lemma GrownAtMostSixteen(files: Files, grown: map<u32, nat>, f: u32)
    requires Counted(files, grown) && f in files
    ensures f in grown && grown[f] <= 16
  {
    DoubledBound(Growth(files[f].capacity, grown[f]));
  }

  lemma CountedGrow(files: Files, grown: map<u32, nat>, f: u32, x: File, count: nat)
    requires Counted(files, grown) && f in files && Doubled(Growth(x.capacity, count))
    ensures Counted(files[f := x], grown[f := count])
  {
  }

  lemma CountedResize(files: Files, grown: map<u32, nat>, f: u32, size: u32)
    requires Counted(files, grown) && f in files
    ensures f in grown && Counted(files[f := files[f].(size := size)], grown)
  {
  }

  lemma CountedNew(files: Files, grown: map<u32, nat>, f: u32)
    requires Counted(files, grown)
    ensures Counted(files[f := File(NULL, 0, 0)], grown[f := 0])
  {
    NewFileDoubled();
  }

  lemma CountedDrop(files: Files, grown: map<u32, nat>, f: u32)
    requires Counted(files, grown)
    ensures Counted(files - {f}, grown - {f})
  {
  }

  /** A node's structure is a block of its own, and its size is its file's. */
  ghost predicate NodeOk(n: Node, a: u32, files: Files, claims: Ledger) {
    && a in claims && claims[a].kind == NodeBlock
    && |n.name| < VFS_NAME_MAX && 0 !in n.name
    && (n.privateData != NULL ==>
          && n.privateData in files && n.privateData in claims && claims[n.privateData].kind == FileBlock(a)
          && n.size == files[n.privateData].size)
  }

  ghost predicate NodesOk(nodes: Nodes, files: Files, claims: Ledger) {
    forall a | a in nodes :: NodeOk(nodes[a], a, files, claims)
  }

  /** The bytes of a file, as they lie in the heap. */
  ghost function ContentOf(m: Bytes, base: u32, x: File): Bytes {
    if x.data >= base && x.data - base + x.size <= |m| then m[x.data - base..x.data - base + x.size] else []
  }

  /** A file's bytes are safe while its buffer's payload is. */
  lemma ContentKept(m: Bytes, m': Bytes, live: set<Block>, base: u32, x: File, f: u32,
                    claims: Ledger, b: Block)
    requires FileOk(x, f, claims) && KeepsPayloads(live, m, m')
    requires x.data != NULL ==>
      b == claims[x.data].block && b in live && b.Payload() == x.data - base && b.End() <= KHEAP_SIZE
    requires x.data == NULL ==> base > 0
    ensures ContentOf(m', base, x) == ContentOf(m, base, x)
  {
    if x.data != NULL {
      var d := x.data - base;
      forall k | d <= k < d + x.size ensures m'[k] == m[k] {}
    }
  }

  /** A file has as many bytes as its size says. */
  lemma ContentSize(x: File, f: u32, claims: Ledger, base: u32, m: Bytes,
                    bs: HeapBlocks.Blocks)
    requires FileOk(x, f, claims) && Balanced(claims, Live(bs), base) && HeapBlocks.Valid(bs)
    requires |m| == KHEAP_SIZE && base > 0
    ensures |ContentOf(m, base, x)| == x.size
  {
    hide HeapBlocks.Valid, Balanced;
    if x.data != NULL {
      ClaimedIsLive(claims, Live(bs), base, x.data, bs);
    }
  }

  /** The bytes `ramfs_read` copies are the file's bytes at that place. */
  lemma ReadBytes(m: Bytes, base: u32, x: File, offset: nat, size: nat)
    requires x.data > base && x.data - base + x.size <= |m| && offset < x.size
    ensures var count := Min(size, x.size - offset);
      ReadOf(ContentOf(m, base, x), offset, size) == m[x.data + offset - base..x.data + offset - base + count]
  {
    var d, count := x.data - base, Min(size, x.size - offset);
    var part, whole := m[d + offset..d + offset + count], m[d..d + x.size];
    forall k | 0 <= k < count ensures whole[offset..offset + count][k] == part[k] {
      assert whole[offset + k] == m[d + offset + k];
    }
    assert whole[offset..offset + count] == part;
  }

  /** A read before the end starts at `offset` and stops at `size` bytes or at the end. */
  lemma ReadPart(content: Bytes, offset: nat, size: nat)
    requires offset < |content|
    ensures var part := ReadOf(content, offset, size);
      && |part| == Min(size, |content| - offset)
      && forall i | 0 <= i < |part| :: part[i] == content[offset + i]
  {
  }

  lemma ReadPastEnd(content: Bytes, offset: nat, size: nat)
    requires offset >= |content|
    ensures ReadOf(content, offset, size) == []
  {
  }

  lemma Terminated(name: Name)
    requires 0 !in name
    ensures CString.StringAt(name + [0], 0, name)
  {
  }

  lemma WriteNodesOk(nodes: Nodes, files: Files, claims: Ledger, node: u32, f: u32, size: u32)
    requires NodesOk(nodes, files, claims) && node in nodes && f in files && nodes[node].privateData == f && f != NULL
    ensures NodesOk(nodes[node := nodes[node].(size := size)], files[f := files[f].(size := size)], claims)
  {
    var nodes', files' := nodes[node := nodes[node].(size := size)], files[f := files[f].(size := size)];
    assert NodeOk(nodes[node], node, files, claims);
    forall a | a in nodes' ensures NodeOk(nodes'[a], a, files', claims) {
      assert NodeOk(nodes[a], a, files, claims);
    }
  }

  lemma SizeThreaded(nodes: Nodes, kids: Kids, node: u32, size: u32)
    requires Threaded(nodes, kids) && node in nodes
    ensures Threaded(nodes[node := nodes[node].(size := size)], kids)
  {
    hide Listed;
    var nodes' := nodes[node := nodes[node].(size := size)];
    forall d | d in nodes' ensures Listed(nodes', nodes'[d].children, kids[d]) {
      ListedKept(nodes, nodes', nodes[d].children, kids[d]);
    }
  }

  /** The node `ramfs_create_node` fills in. */
  function FreshNode(name: Name, typ: u32, inode: u32, privateData: u32): Node {
    Node(Stored(name), typ, 0x1ED, inode, 0, NULL, NULL, NULL, PlainOps, privateData)
  }

  /** A node as it was asked for, hanging nowhere yet: permissions 0755, no size, no children. */
  ghost predicate NewNode(n: Node, name: Name, typ: u32, inode: u32) {
    && n.name == name[..Min(|name|, 127)] && n.typ == typ && n.permissions == 0x1ED && n.inode == inode
    && n.size == 0 && n.parent == NULL && n.children == NULL && n.nextSibling == NULL && n.ops == PlainOps
  }

  /** A file gets its 12-byte record if and only if the heap has one after the node's 180 bytes; another
      node gets none. */
  ghost predicate FileGiven(f: u32, typ: u32, bs: HeapBlocks.Blocks, bs': HeapBlocks.Blocks) {
    var h := Malloc(bs, 180).heap;
    && (f != NULL <==> And(typ, 1) != 0 && Malloc(h, 12).ptr.Some?)
    && bs' == if And(typ, 1) != 0 then Malloc(h, 12).heap else h
  }

  /** The new node is its parent's first child, in front of the others; no other node changed. */
  ghost predicate NewChild(nodes: Nodes, nodes': Nodes, parent: u32, node: u32) {
    && parent in nodes && parent in nodes' && node !in nodes && node in nodes'
    && nodes'[node].parent == parent && nodes'[node].nextSibling == nodes[parent].children
    && nodes'[parent] == nodes[parent].(children := node)
    && nodes'.Keys == nodes.Keys + {node}
    && forall x | x in nodes && x != parent :: nodes'[x] == nodes[x]
  }

  lemma ChildOf(nodes: Nodes, parent: u32, node: u32, n: Node)
    requires parent in nodes && node !in nodes
    ensures var r := Linked(nodes[node := n], parent, node);
      && NewChild(nodes, r, parent, node)
      && r[node] == n.(parent := parent, nextSibling := nodes[parent].children)
  {
  }

  /** The new node and, unless `f` is NULL, its empty file are the only additions. */
  ghost predicate Adopted(files: Files, claims: Ledger, files': Files, claims': Ledger, node: u32, f: u32) {
    && node in claims' && claims'[node].kind == NodeBlock
    && if f == NULL then files' == files && claims' == claims[node := claims'[node]]
       else
         && f !in claims && f != node && f in claims' && claims'[f].kind == FileBlock(node)
         && files' == files[f := File(NULL, 0, 0)]
         && claims' == claims[node := claims'[node]][f := claims'[f]]
  }

  /** Every file keeps its bytes, and new files are empty. */
  ghost predicate Extends(was: map<u32, Bytes>, now: map<u32, Bytes>) {
    (forall f | f in was :: f in now && now[f] == was[f]) && (forall f | f in now && f !in was :: now[f] == [])
  }

  lemma EmptyContent(m: Bytes, base: u32)
    requires base > 0
    ensures ContentOf(m, base, File(NULL, 0, 0)) == []
  {
  }

  lemma NewNodeOk(nodes: Nodes, files: Files, claims: Ledger, claims': Ledger, node: u32, name: Name, typ: u32,
                  inode: u32)
    requires FilesOk(files, claims) && NodesOk(nodes, files, claims) && 0 !in name
    requires node !in claims && node in claims' && claims' == claims[node := claims'[node]]
    requires claims'[node].kind == NodeBlock
    ensures node !in nodes && FilesOk(files, claims')
    ensures NodesOk(nodes[node := FreshNode(name, typ, inode, NULL)], files, claims')
  {
    assert node in nodes ==> NodeOk(nodes[node], node, files, claims);
    forall f | f in files ensures f in claims' && claims'[f].kind.FileBlock? && FileOk(files[f], f, claims') {
      assert FileOk(files[f], f, claims);
    }
    var nodes' := nodes[node := FreshNode(name, typ, inode, NULL)];
    forall a | a in nodes' ensures NodeOk(nodes'[a], a, files, claims') {
      if a != node { assert NodeOk(nodes[a], a, files, claims); }
    }
  }

  lemma NewFileOk(nodes: Nodes, files: Files, claims: Ledger, claims': Ledger, node: u32, f: u32)
    requires FilesOk(files, claims) && NodesOk(nodes, files, claims) && f != NULL
    requires node in nodes && nodes[node].privateData == NULL && nodes[node].size == 0
    requires f !in claims && f in claims' && claims' == claims[f := claims'[f]] && claims'[f].kind == FileBlock(node)
    ensures f !in files
    ensures var files' := files[f := File(NULL, 0, 0)];
      FilesOk(files', claims') && NodesOk(nodes[node := nodes[node].(privateData := f)], files', claims')
  {
    var files', nodes' := files[f := File(NULL, 0, 0)], nodes[node := nodes[node].(privateData := f)];
    forall g | g in files' ensures g in claims' && claims'[g].kind.FileBlock? && FileOk(files'[g], g, claims') {
      if g != f { assert FileOk(files[g], g, claims); }
    }
    forall a | a in nodes' ensures NodeOk(nodes'[a], a, files', claims') {
      assert NodeOk(nodes[a], a, files, claims);
    }
  }

  /** The file record of a node, NULL for none. */
  function FileOf(nodes: Nodes, node: u32): u32 {
    if node in nodes then nodes[node].privateData else NULL
  }

  /** A node built as `n` now heads its parent's children; no other node or list changed. */
  ghost predicate Made(nodes: Nodes, kids: Kids, nodes': Nodes, kids': Kids, parent: u32, node: u32, n: Node) {
    && parent in nodes && parent in kids && node !in nodes && node != NULL
    && nodes' == Linked(nodes[node := n], parent, node)
    && kids' == AddKid(kids, parent, node)
  }

  /** Only the file of `node` may have changed: its record, its buffer and the size shown for it. */
  ghost predicate OnlyFile(nodes: Nodes, files: Files, claims: Ledger, nodes': Nodes, files': Files, claims': Ledger,
                           node: u32) {
    && node in nodes && node in nodes'
    && nodes' == nodes[node := nodes[node].(size := nodes'[node].size)]
    && var f := nodes[node].privateData;
       && (f !in files ==> files' == files && claims' == claims)
       && (f in files ==>
             f in files' && files' == files[f := files'[f]] && claims' - {files'[f].data} == claims - {files[f].data})
  }

  lemma OnlyFileReflexive(nodes: Nodes, files: Files, claims: Ledger, node: u32)
    requires node in nodes
    ensures OnlyFile(nodes, files, claims, nodes, files, claims, node)
  {
  }

  lemma OnlyFileChain(nodes: Nodes, files: Files, claims: Ledger, nodes1: Nodes, files1: Files, claims1: Ledger,
                      nodes2: Nodes, files2: Files, claims2: Ledger, node: u32)
    requires OnlyFile(nodes, files, claims, nodes1, files1, claims1, node)
    requires OnlyFile(nodes1, files1, claims1, nodes2, files2, claims2, node)
    ensures OnlyFile(nodes, files, claims, nodes2, files2, claims2, node) && node in nodes2
    ensures nodes2[node].privateData == nodes[node].privateData
  {
  }

  /** The blocks of a node: its structure, its file record and its buffer. */
  ghost function HeldBy(files: Files, f: u32, node: u32): set<u32> {
    {node} + (if f in files then {f, files[f].data} else {})
  }

  /** The child at position `k` is gone with all it held; no other node, file or list changed. */
  ghost predicate Unmade(nodes: Nodes, files: Files, claims: Ledger, kids: Kids,
                         nodes': Nodes, files': Files, claims': Ledger, kids': Kids, parent: u32, k: nat) {
    && parent in nodes && parent in kids && k < |kids[parent]|
    && var child, prev := kids[parent][k], PrevOf(kids[parent], k);
       && child in nodes && (prev != NULL ==> prev in nodes)
       && nodes' == Bypassed(nodes, parent, prev, child) - {child}
       && files' == files - {nodes[child].privateData}
       && claims' == claims - HeldBy(files, nodes[child].privateData, child)
       && kids' == DropKid(kids, parent, k)
  }

  /** The first child of that name left its parent's list. Every other list is as it was, and so is every other
      node but for the link that led to the child. */
  ghost predicate LostChild(nodes: Nodes, kids: Kids, nodes': Nodes, kids': Kids, parent: u32, k: nat, name: Name) {
    && KidsKnown(nodes, kids, parent) && k < |kids[parent]| && parent in kids'
    && var q := kids[parent];
       && nodes[q[k]].name == name && (forall j | 0 <= j < k :: nodes[q[j]].name != name)
       && kids'[parent] == q[..k] + q[k + 1..]
       && (forall d | d in kids && d != parent && d != q[k] :: d in kids' && kids'[d] == kids[d])
       && nodes'.Keys == nodes.Keys - {q[k]}
       && forall x | x in nodes' :: x in nodes && SameButLinks(nodes[x], nodes'[x])
  }

  ghost predicate SameButLinks(n: Node, n': Node) {
    && n'.name == n.name && n'.typ == n.typ && n'.permissions == n.permissions && n'.inode == n.inode
    && n'.size == n.size && n'.parent == n.parent && n'.ops == n.ops && n'.privateData == n.privateData
  }

  lemma FoundFirst(nodes: Nodes, kids: Kids, parent: u32, k: nat, name: Name)
    requires Threaded(nodes, kids) && KidsKnown(nodes, kids, parent) && k < |kids[parent]|
    requires FirstNamed(nodes, kids[parent], name) == kids[parent][k]
    ensures kids[parent][k] != parent && nodes[kids[parent][k]].name == name
    ensures forall j | 0 <= j < k :: nodes[kids[parent][j]].name != name
  {
    hide FirstNamed;
    var q := kids[parent];
    assert Listed(nodes, nodes[parent].children, q);
    assert q[k] in q;
    FirstNamedFirst(nodes, q, name, k);
  }

  lemma UnmadeLost(nodes: Nodes, files: Files, claims: Ledger, kids: Kids,
                   nodes': Nodes, files': Files, claims': Ledger, kids': Kids, parent: u32, k: nat, name: Name)
    requires Threaded(nodes, kids) && KidsKnown(nodes, kids, parent) && k < |kids[parent]|
    requires FirstNamed(nodes, kids[parent], name) == kids[parent][k]
    requires Unmade(nodes, files, claims, kids, nodes', files', claims', kids', parent, k)
    ensures LostChild(nodes, kids, nodes', kids', parent, k, name)
  {
    hide Bypassed, Threaded, FirstNamed, HeldBy;
    var q := kids[parent];
    FoundFirst(nodes, kids, parent, k, name);
    BypassedAt(nodes, parent, PrevOf(q, k), q[k], parent);
    forall x | x in nodes' ensures x in nodes && SameButLinks(nodes[x], nodes'[x]) {
      BypassedAt(nodes, parent, PrevOf(q, k), q[k], x);
    }
  }

  /** Dropping a node with its file keeps every other file and node in order. */
  lemma RemoveOk(nodes: Nodes, files: Files, claims: Ledger, parent: u32, prev: u32, child: u32)
    requires FilesOk(files, claims) && NodesOk(nodes, files, claims)
    requires parent in nodes && child in nodes && (prev != NULL ==> prev in nodes)
    requires NULL !in claims
    ensures var f := nodes[child].privateData;
      var files', claims' := files - {f}, claims - HeldBy(files, f, child);
      FilesOk(files', claims') && NodesOk(Bypassed(nodes, parent, prev, child) - {child}, files', claims')
  {
    hide Bypassed;
    var f := nodes[child].privateData;
    var files', claims' := files - {f}, claims - HeldBy(files, f, child);
    assert NodeOk(nodes[child], child, files, claims);
    assert f in files ==> FileOk(files[f], f, claims);
    forall g | g in files' ensures g in claims' && claims'[g].kind.FileBlock? && FileOk(files'[g], g, claims') {
      assert FileOk(files[g], g, claims);
    }
    BypassedAt(nodes, parent, prev, child, child);
    var nodes' := Bypassed(nodes, parent, prev, child) - {child};
    forall a | a in nodes' ensures NodeOk(nodes'[a], a, files', claims') {
      assert NodeOk(nodes[a], a, files, claims);
      BypassedAt(nodes, parent, prev, child, a);
    }
  }

  /** The new child comes first in its parent's list and answers to its name if that was stored whole. */
  lemma NewChildFound(nodes: Nodes, kids: Kids, nodes': Nodes, parent: u32, node: u32, name: Name, inode: u32, f: u32,
                      size: u32)
    requires Threaded(nodes, kids) && parent in nodes && node !in nodes && node != NULL
    requires nodes' == (var made := Linked(nodes[node := FreshNode(name, VFS_FILE, inode, f)], parent, node);
                        LinkedKeys(nodes[node := FreshNode(name, VFS_FILE, inode, f)], parent, node);
                        made[node := made[node].(size := size)])
    ensures KidsKnown(nodes, kids, parent) && KidsKnown(nodes', AddKid(kids, parent, node), parent)
    ensures nodes'[parent].typ == nodes[parent].typ
    ensures |name| < VFS_NAME_MAX ==>
      && AddKid(kids, parent, node)[parent][0] == node
      && FirstNamed(nodes', AddKid(kids, parent, node)[parent], name) == node
  {
    hide Linked, Threaded;
    var made := nodes[node := FreshNode(name, VFS_FILE, inode, f)];
    KidsInNodes(nodes, kids, parent);
    LinkedKeys(made, parent, node);
    LinkedAt(made, parent, node, node);
    LinkedAt(made, parent, node, parent);
    assert |name| < VFS_NAME_MAX ==> Stored(name) == name;
  }

  /** No stored name is as long as the name field. */
  lemma NamesShort(nodes: Nodes, files: Files, claims: Ledger, q: seq<u32>)
    requires NodesOk(nodes, files, claims) && forall x | x in q :: x in nodes
    ensures forall name: Name | |name| >= VFS_NAME_MAX :: FirstNamed(nodes, q, name) == NULL
  {
    forall x | x in q ensures |nodes[x].name| < VFS_NAME_MAX {
      assert NodeOk(nodes[x], x, files, claims);
    }
  }

  /** Unlinking the first child right after it was linked undoes the linking. */
  lemma RestoreTree(nodes: Nodes, kids: Kids, parent: u32, node: u32, n: Node, size: u32)
    requires parent in nodes && parent in kids && node !in nodes && node !in kids && node != NULL
    ensures var made := Linked(nodes[node := n], parent, node);
      && node in made && parent in made
      && Bypassed(made[node := made[node].(size := size)], parent, NULL, node) - {node} == nodes
      && DropKid(AddKid(kids, parent, node), parent, 0) == kids
  {
    var made := Linked(nodes[node := n], parent, node);
    var sized := made[node := made[node].(size := size)];
    var r := Bypassed(sized, parent, NULL, node) - {node};
    assert r.Keys == nodes.Keys;
    assert r[parent] == nodes[parent];
    assert DropKid(AddKid(kids, parent, node), parent, 0) == kids by {
      assert ([node] + kids[parent])[..0] + ([node] + kids[parent])[1..] == kids[parent];
    }
  }

  /** Create, writes and unlink together leave files and claims as they were. */
  lemma RestoreClaims(files: Files, claims: Ledger, files1: Files, claims1: Ledger, files2: Files, claims2: Ledger,
                      node: u32, f: u32)
    requires NULL !in claims && NULL !in files && node !in claims && node != NULL
    requires (forall g | g in files :: g in claims) && NULL !in claims1 && NULL !in claims2
    requires Adopted(files, claims, files1, claims1, node, f)
    requires f !in files1 ==> files2 == files1 && claims2 == claims1
    requires f in files1 ==>
      f in files2 && files2 == files1[f := files2[f]] && claims2 - {files2[f].data} == claims1 - {files1[f].data}
    ensures files2 - {f} == files && claims2 - HeldBy(files2, f, node) == claims
  {
    if f == NULL {
      assert claims[node := claims1[node]] - {node} == claims;
    } else {
      var d := files2[f].data;
      assert claims1 - {NULL} == claims1;
      assert claims2 - {node, f, d} == (claims2 - {d}) - {node, f};
      assert claims1 - {node, f} == claims;
    }
  }

  lemma NullNoFile(files: Files, claims: Ledger)
    requires FilesOk(files, claims) && NULL !in claims
    ensures NULL !in files && forall g | g in files :: g in claims
  {
  }

  lemma DirectoryIsNoFile()
    ensures And(VFS_DIRECTORY, 1) == 0 && And(VFS_DIRECTORY, 2) == 2
  {
  }

  lemma FileIsFile()
    ensures And(VFS_FILE, 1) == 1
  {
  }

  lemma LinkedNodesOk(nodes: Nodes, files: Files, claims: Ledger, parent: u32, node: u32)
    requires NodesOk(nodes, files, claims) && parent in nodes && node in nodes && parent != node
    ensures NodesOk(Linked(nodes, parent, node), files, claims)
  {
    hide Linked;
    LinkedKeys(nodes, parent, node);
    var nodes' := Linked(nodes, parent, node);
    forall a | a in nodes' ensures NodeOk(nodes'[a], a, files, claims) {
      assert NodeOk(nodes[a], a, files, claims);
      LinkedAt(nodes, parent, node, a);
    }
  }

  lemma ModeNodesOk(nodes: Nodes, files: Files, claims: Ledger, dir: u32, n: Node)
    requires NodesOk(nodes, files, claims) && dir in nodes
    requires n == nodes[dir].(permissions := n.permissions, ops := n.ops)
    ensures NodesOk(nodes[dir := n], files, claims)
  {
    forall a | a in nodes ensures NodeOk(nodes[dir := n][a], a, files, claims) {
      assert NodeOk(nodes[a], a, files, claims);
    }
  }

  /** The children of `dir` are nodes. */
  ghost predicate KidsKnown(nodes: Nodes, kids: Kids, dir: u32) {
    dir in nodes && dir in kids && forall x | x in kids[dir] :: x in nodes
  }

  /** One successful write: the file's bytes are written, its node has the new size, and every
      other file and node is as before. */
  ghost predicate Wrote(nodes: Nodes, files: Files, contents: map<u32, Bytes>,
                        nodes': Nodes, files': Files, contents': map<u32, Bytes>,
                        node: u32, offset: nat, data: Bytes) {
    && node in nodes && nodes[node].privateData in files && offset + |data| < U32_LIMIT
    && var f := nodes[node].privateData;
       && f in contents && f in contents' && f in files'
       && Written(contents[f], contents'[f], offset, data)
       && contents' == contents[f := contents'[f]]
       && files' == files[f := files'[f]]
       && files'[f].size == |contents'[f]|
       && nodes' == nodes[node := nodes[node].(size := files'[f].size)]
  }

  lemma NodeOkOf(nodes: Nodes, files: Files, claims: Ledger, a: u32)
    requires NodesOk(nodes, files, claims) && a in nodes
    ensures NodeOk(nodes[a], a, files, claims)
  {
  }

  /** All files keep their bytes when all live payloads do. */
  lemma AllContentsKept(files: Files, claims: Ledger, live: set<Block>, base: u32,
                        m: Bytes, m': Bytes, bs: HeapBlocks.Blocks)
    requires FilesOk(files, claims) && Balanced(claims, live, base) && live == Live(bs) && HeapBlocks.Valid(bs)
    requires KeepsPayloads(live, m, m') && base > 0
    ensures forall g | g in files :: ContentOf(m', base, files[g]) == ContentOf(m, base, files[g])
  {
    hide HeapBlocks.Valid, KeepsPayloads, ContentOf;
    forall g | g in files ensures ContentOf(m', base, files[g]) == ContentOf(m, base, files[g]) {
      assert FileOk(files[g], g, claims);
      OneContentKept(files[g], g, claims, live, live, base, m, m', bs);
    }
  }

  /** All files keep their bytes when the payloads of all blocks held do. */
  lemma HeldContentsKept(files: Files, claims: Ledger, live: set<Block>, base: u32,
                         m: Bytes, m': Bytes, bs: HeapBlocks.Blocks)
    requires FilesOk(files, claims) && Balanced(claims, live, base) && live == Live(bs) && HeapBlocks.Valid(bs)
    requires KeepsPayloads(Held(claims), m, m') && base > 0
    ensures forall g | g in files :: ContentOf(m', base, files[g]) == ContentOf(m, base, files[g])
  {
    hide HeapBlocks.Valid, KeepsPayloads, ContentOf, Balanced;
    forall g | g in files ensures ContentOf(m', base, files[g]) == ContentOf(m, base, files[g]) {
      assert FileOk(files[g], g, claims);
      OneContentKept(files[g], g, claims, live, Held(claims), base, m, m', bs);
    }
  }

  lemma OneContentKept(x: File, g: u32, claims: Ledger, live: set<Block>, kept: set<Block>, base: u32,
                       m: Bytes, m': Bytes, bs: HeapBlocks.Blocks)
    requires FileOk(x, g, claims) && Balanced(claims, live, base) && live == Live(bs) && HeapBlocks.Valid(bs)
    requires KeepsPayloads(kept, m, m') && base > 0 && (x.data != NULL ==> claims[x.data].block in kept)
    ensures ContentOf(m', base, x) == ContentOf(m, base, x)
  {
    hide HeapBlocks.Valid, Balanced, KeepsPayloads, ContentOf;
    if x.data != NULL {
      ClaimedIsLive(claims, live, base, x.data, bs);
      ContentKept(m, m', kept, base, x, g, claims, claims[x.data].block);
    } else {
      ContentKept(m, m', kept, base, x, g, claims, Block(0, 0, false));
    }
  }

  /** The files other than `f` keep their bytes when the blocks other than its buffer do. */
  lemma OtherContentsKept(files: Files, claims: Ledger, live: set<Block>, base: u32, f: u32,
                          m: Bytes, m': Bytes, bs: HeapBlocks.Blocks)
    requires FilesOk(files, claims) && Balanced(claims, live, base) && live == Live(bs) && HeapBlocks.Valid(bs)
    requires f in files && base > 0
    requires KeepsPayloads(if files[f].data in claims then live - {claims[files[f].data].block} else live, m, m')
    ensures forall g | g in files && g != f :: ContentOf(m', base, files[g]) == ContentOf(m, base, files[g])
  {
    hide HeapBlocks.Valid, KeepsPayloads, ContentOf;
    assert FileOk(files[f], f, claims);
    forall g | g in files && g != f ensures ContentOf(m', base, files[g]) == ContentOf(m, base, files[g]) {
      assert FileOk(files[g], g, claims);
      var kept := if files[f].data in claims then live - {claims[files[f].data].block} else live;
      OneContentKept(files[g], g, claims, live, kept, base, m, m', bs);
    }
  }

  /** What a file's growth becomes by a write ending at `newSize`. */
  ghost function Regrown(g: Growth, newSize: u32, bs: HeapBlocks.Blocks): Growth {
    GrowStep(g, newSize, Malloc(bs, NewCapacity(newSize)).ptr.Some?)
  }

  /** The buffer holds a write ending at `newSize`, or the heap can supply one that does. */
  ghost predicate CanHold(file: File, newSize: u32, bs: HeapBlocks.Blocks) {
    newSize <= file.capacity || (Fits(newSize) && Malloc(bs, NewCapacity(newSize)).ptr.Some?)
  }

  /** The write passes every test of the code, which adds offset and size in 32 bits. */
  ghost predicate Writable(n: Node, files: Files, offset: u32, buffer: Option<seq<u8>>, bs: HeapBlocks.Blocks) {
    && n.privateData != NULL && buffer.Some? && n.privateData in files
    && CanHold(files[n.privateData], Wrap(offset + |buffer.value|), bs)
  }

  /** A write ending at `end`, taken in 32 bits, fits the buffer, or it ends within 64 KB and the heap has a
      buffer of twice that, or of 64 KB. */
  ghost predicate RoomToWrite(capacity: nat, end: nat, bs: HeapBlocks.Blocks) {
    var n := end % 0x1_0000_0000;
    n <= capacity || (n <= 0x1_0000 && Malloc(bs, Min(2 * n, 0x1_0000)).ptr.Some?)
  }

  lemma RoomIsHeld(file: File, end: nat, bs: HeapBlocks.Blocks)
    ensures CanHold(file, Wrap(end), bs) <==> RoomToWrite(file.capacity, end, bs)
  {
    hide Malloc;
    FitsIff(Wrap(end));
  }

  lemma FillKeeps(h: HeapBlocks.Blocks, b: Block, m: Bytes, m': Bytes, at: nat, n: nat)
    requires HeapBlocks.Valid(h) && b in Live(h) && b.Payload() <= at && at + n <= b.End()
    requires |m| == KHEAP_SIZE && SameExcept(m, m', at, at + n)
    ensures KeepsPayloads(Live(h) - {b}, m, m')
  {
    hide HeapBlocks.Valid;
    forall x, k | x in Live(h) - {b} && x.Payload() <= k < x.End() && k < KHEAP_SIZE ensures m'[k] == m[k] {
      LiveApart(h, x, b);
    }
  }

  lemma ResizeOk(files: Files, claims: Ledger, f: u32, size: u32)
    requires FilesOk(files, claims) && f in files && size <= files[f].capacity
    ensures FilesOk(files[f := files[f].(size := size)], claims)
  {
    var files' := files[f := files[f].(size := size)];
    forall g | g in files' ensures g in claims && claims[g].kind.FileBlock? && FileOk(files'[g], g, claims) {
      assert FileOk(files[g], g, claims);
    }
  }

  lemma FillWrites(m: Bytes, m': Bytes, base: u32, x: File, x': File, offset: nat, data: seq<u8>)
    requires |m| == |m'| == KHEAP_SIZE && 0 < base
    requires x'.data == x.data && x.size <= x.capacity && offset + |data| <= x.capacity
    requires x'.size == if offset + |data| > x.size then offset + |data| else x.size
    requires x.data == NULL ==> x.capacity == 0
    requires x.data != NULL ==>
      && x.data > base && x.data - base + x.capacity <= KHEAP_SIZE
      && SameExcept(m, m', x.data - base + offset, x.data - base + offset + |data|)
      && m'[x.data - base + offset..x.data - base + offset + |data|] == data
    ensures Written(ContentOf(m, base, x), ContentOf(m', base, x'), offset, data)
  {
    if x.data != NULL {
      var d := x.data - base;
      var was, now := ContentOf(m, base, x), ContentOf(m', base, x');
      forall i | 0 <= i < |data| ensures now[offset + i] == data[i] {
        assert m'[d + offset..d + offset + |data|][i] == m'[d + offset + i];
      }
      forall i | 0 <= i < |was| && !(offset <= i < offset + |data|) ensures now[i] == was[i] {
        assert m'[d + i] == m[d + i];
      }
    }
  }

  lemma FileOkOf(files: Files, claims: Ledger, f: u32)
    requires FilesOk(files, claims) && f in files
    ensures FileOk(files[f], f, claims) && f in claims && claims[f].kind.FileBlock?
  {
  }

  lemma FileOkMore(x: File, f: u32, claims: Ledger, claims': Ledger, p: u32)
    requires FileOk(x, f, claims) && p !in claims && p in claims' && claims' == claims[p := claims'[p]]
    ensures FileOk(x, f, claims') && (x.data in claims ==> claims'[x.data] == claims[x.data])
  {
  }

  /** Swapping one file's buffer for a larger one keeps every file and node in order. */
  lemma GrowOk(nodes: Nodes, files: Files, claims: Ledger, claims': Ledger, f: u32, newData: u32, newCap: u32)
    requires FilesOk(files, claims) && NodesOk(nodes, files, claims) && f in files
    requires NULL !in claims && newData !in claims && newData != NULL
    requires files[f].capacity < newCap <= RAMFS_MAX_FILE_SIZE
    requires newData in claims' && claims'[newData].kind == DataBlock(f) && claims'[newData].block.size >= newCap
    requires claims' == claims[newData := claims'[newData]] - {files[f].data}
    ensures var files' := files[f := File(newData, files[f].size, newCap)];
      FilesOk(files', claims') && NodesOk(nodes, files', claims')
  {
    var files' := files[f := File(newData, files[f].size, newCap)];
    assert FileOk(files[f], f, claims);
    forall g | g in files' ensures g in claims' && claims'[g].kind.FileBlock? && FileOk(files'[g], g, claims') {
      assert g in files && FileOk(files[g], g, claims);
    }
    forall a | a in nodes ensures NodeOk(nodes[a], a, files', claims') {
      assert NodeOk(nodes[a], a, files, claims);
    }
  }

  lemma NullUnclaimed(claims: Ledger, live: set<Block>, base: u32)
    requires Balanced(claims, live, base)
    ensures NULL !in claims
  {
  }

  /** Filling the new block disturbs no block that was live. */
  lemma CopyKeeps(h: HeapBlocks.Blocks, live: set<Block>, now: Block, m1: Bytes, m2: Bytes,
                  n: nat)
    requires HeapBlocks.Valid(h) && Live(h) == live + {now} && now !in live && n <= now.size
    requires |m1| == KHEAP_SIZE && SameExcept(m1, m2, now.Payload(), now.Payload() + n)
    ensures KeepsPayloads(live, m1, m2)
  {
    hide HeapBlocks.Valid;
    forall b, k | b in live && b.Payload() <= k < b.End() && k < KHEAP_SIZE ensures m2[k] == m1[k] {
      LiveApart(h, b, now);
    }
  }

  /** Growth moves the file's bytes and leaves every other block's bytes alone. */
  lemma GrowBytes(h: HeapBlocks.Blocks, live: set<Block>, others: set<Block>, base: u32, file: File, f: u32,
                  claims: Ledger, newData: u32, newCap: u32, now: Block,
                  m0: Bytes, m1: Bytes, m2: Bytes, m3: Bytes)
    requires HeapBlocks.Valid(h) && Live(h) == live + {now} && now !in live && file.size <= now.size && others <= live
    requires base > 0 && now.Payload() == newData - base && now.End() <= KHEAP_SIZE
    requires FileOk(file, f, claims)
    requires file.data != NULL ==>
      && file.data > base && claims[file.data].block in live
      && claims[file.data].block.Payload() == file.data - base && claims[file.data].block.End() <= KHEAP_SIZE
    requires KeepsPayloads(live, m0, m1) && SameExcept(m1, m2, now.Payload(), now.Payload() + file.size)
    requires m2[now.Payload()..now.Payload() + file.size] == ContentOf(m1, base, file)
    requires KeepsPayloads(others + {now}, m2, m3)
    ensures KeepsPayloads(others, m0, m3)
    ensures ContentOf(m3, base, File(newData, file.size, newCap)) == ContentOf(m0, base, file)
  {
    hide HeapBlocks.Valid;
    CopyKeeps(h, live, now, m1, m2, file.size);
    KeepsSubset(live, others, m0, m1);
    KeepsSubset(live, others, m1, m2);
    KeepsChain(others, m0, m1, m2);
    KeepsSubset(others + {now}, others, m2, m3);
    KeepsChain(others, m0, m2, m3);
    ContentKept(m0, m1, live, base, file, f, claims, if file.data != NULL then claims[file.data].block else now);
    var lo := now.Payload();
    assert m3[lo..lo + file.size] == m2[lo..lo + file.size] by {
      forall k | lo <= k < lo + file.size ensures m3[k] == m2[k] {}
    }
  }

  lemma UnclaimedIsFresh(claims: Ledger, live: set<Block>, base: u32, p: u32, bs: HeapBlocks.Blocks)
    requires Balanced(claims, live, base) && live == Live(bs) && p >= base && !IsLive(bs, p - base)
    ensures p !in claims
  {
  }

  lemma ClaimedIsLive(claims: Ledger, live: set<Block>, base: u32, p: u32, bs: HeapBlocks.Blocks)
    requires Balanced(claims, live, base) && live == Live(bs) && p in claims && HeapBlocks.Valid(bs)
    ensures p > base && IsLive(bs, p - base) && BlockOf(bs, p - base) == claims[p].block
    ensures claims[p].block.End() <= KHEAP_SIZE && claims[p].block.Payload() == p - base && claims[p].block in live
  {
    LiveUnique(bs, claims[p].block);
    LiveInHeap(bs, claims[p].block);
  }
}
