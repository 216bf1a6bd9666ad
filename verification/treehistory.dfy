/** How the RAM file system's directories come about: every node is created after its directory and
    before the siblings in front of it. From this follow the order of a listing, that no directory
    is its own descendant, and the path of every node below the root. */
module TreeHistory {
  import opened Machine
  import opened FileTree

  /** The number of nodes created before each node. */
  type Birth = map<u32, nat>

  /** The children of `d` are younger than `d`, and the youngest comes first. */
  ghost predicate YoungestFirst(q: seq<u32>, d: u32, born: Birth) {
    && d in born
    && (forall i | 0 <= i < |q| :: q[i] in born && born[d] < born[q[i]])
    && (forall i, j | 0 <= i < j < |q| :: born[q[j]] < born[q[i]])
  }

  /** The tree after `created` creations. Inode numbers count them in 32 bits; only directories have
      children. */
  ghost predicate Aged(nodes: Nodes, kids: Kids, born: Birth, created: nat) {
    && born.Keys == nodes.Keys
    && (forall x | x in nodes :: born[x] < created && nodes[x].inode == Wrap(born[x]))
    && (forall x, y | x in born && y in born && born[x] == born[y] :: x == y)
    && (forall d | d in kids :: YoungestFirst(kids[d], d, born))
    && (forall d | d in kids && kids[d] != [] :: d in nodes && IsDirectory(nodes[d]))
  }

  /** No directory lists two children of one name. */
  ghost predicate UniqueNames(nodes: Nodes, kids: Kids) {
    forall d | d in kids :: (forall x | x in kids[d] :: x in nodes) && Unique(nodes, kids[d])
  }

  // ------------------------------------------------------------ what the steps keep

  lemma AgedInsert(nodes: Nodes, kids: Kids, born: Birth, created: nat, parent: u32, node: u32, n: Node)
    requires Threaded(nodes, kids) && Aged(nodes, kids, born, created)
    requires parent in nodes && parent in kids && node !in nodes && IsDirectory(nodes[parent])
    requires n.inode == Wrap(created)
    ensures Aged(Linked(nodes[node := n], parent, node), AddKid(kids, parent, node), born[node := created], created + 1)
  {
    hide Threaded, Linked, IsDirectory, YoungestFirst, Wrap;
    var added := nodes[node := n];
    var r, kids', born' := Linked(added, parent, node), AddKid(kids, parent, node), born[node := created];
    LinkedKeys(added, parent, node);
    forall x | x in r ensures born'[x] < created + 1 && r[x].inode == Wrap(born'[x]) {
      LinkedAt(added, parent, node, x);
    }
    forall d | d in kids' ensures YoungestFirst(kids'[d], d, born') {
      YoungestInsert(if d in kids then kids[d] else [], d, born, node, created);
    }
    forall d | d in kids' && kids'[d] != [] ensures d in r && IsDirectory(r[d]) {
      LinkedAt(added, parent, node, d);
      SameType(added[d], r[d]);
    }
  }

  lemma YoungestInsert(q: seq<u32>, d: u32, born: Birth, node: u32, created: nat)
    requires node !in born && (d == node ==> q == []) && (d != node ==> YoungestFirst(q, d, born))
    requires forall x | x in born :: born[x] < created
    ensures YoungestFirst(q, d, born[node := created])
    ensures d != node ==> YoungestFirst([node] + q, d, born[node := created])
  {
  }

  lemma SameType(a: Node, b: Node)
    requires a.typ == b.typ
    ensures IsDirectory(a) == IsDirectory(b)
  {
  }

  lemma AgedRemove(nodes: Nodes, kids: Kids, born: Birth, created: nat, parent: u32, k: nat)
    requires Threaded(nodes, kids) && Aged(nodes, kids, born, created)
    requires parent in nodes && parent in kids && k < |kids[parent]|
    ensures var q := kids[parent];
      && q[k] in nodes && (PrevOf(q, k) != NULL ==> PrevOf(q, k) in nodes)
      && Aged(Bypassed(nodes, parent, PrevOf(q, k), q[k]) - {q[k]}, DropKid(kids, parent, k), born - {q[k]}, created)
  {
    hide Threaded, Bypassed, IsDirectory, YoungestFirst;
    KidsInNodes(nodes, kids, parent);
    var q := kids[parent];
    var child, prev := q[k], PrevOf(q, k);
    BypassedAt(nodes, parent, prev, child, parent);
    var r, kids', born' := Bypassed(nodes, parent, prev, child) - {child}, DropKid(kids, parent, k), born - {child};
    forall x | x in r ensures born'[x] < created && r[x].inode == Wrap(born'[x]) {
      BypassedAt(nodes, parent, prev, child, x);
    }
    KidsKeys(nodes, kids);
    forall d | d in kids' ensures YoungestFirst(kids'[d], d, born') {
      KidsInNodes(nodes, kids, d);
      if d == parent {
        YoungestDrop(q, d, born, k);
      } else {
        YoungestKept(kids[d], d, born, child);
      }
    }
    forall d | d in kids' && kids'[d] != [] ensures d in r && IsDirectory(r[d]) {
      BypassedAt(nodes, parent, prev, child, d);
      SameType(nodes[d], r[d]);
    }
  }

  lemma YoungestDrop(q: seq<u32>, d: u32, born: Birth, k: nat)
    requires YoungestFirst(q, d, born) && k < |q| && q[k] != d
    requires forall i, j | 0 <= i < j < |q| :: q[i] != q[j]
    ensures YoungestFirst(q[..k] + q[k + 1..], d, born - {q[k]})
  {
  }

  lemma YoungestKept(q: seq<u32>, d: u32, born: Birth, gone: u32)
    requires YoungestFirst(q, d, born) && gone !in q && gone != d
    ensures YoungestFirst(q, d, born - {gone})
  {
  }

  /** A changed size, mode or operations table is no matter. */
  lemma AgedUpdate(nodes: Nodes, kids: Kids, born: Birth, created: nat, node: u32, n: Node)
    requires Aged(nodes, kids, born, created) && node in nodes
    requires n.inode == nodes[node].inode && n.typ == nodes[node].typ
    ensures Aged(nodes[node := n], kids, born, created)
  {
  }

  /** A node of its own, as `ramfs_init` makes it. */
  lemma AgedRoot(nodes: Nodes, kids: Kids, born: Birth, created: nat, root: u32, n: Node)
    requires kids.Keys == nodes.Keys && Aged(nodes, kids, born, created) && root !in nodes && n.inode == Wrap(created)
    ensures Aged(nodes[root := n], kids[root := []], born[root := created], created + 1)
  {
    hide YoungestFirst, IsDirectory, Wrap;
    var kids' := kids[root := []];
    forall d | d in kids' ensures YoungestFirst(kids'[d], d, born[root := created]) {
      YoungestInsert(kids'[d], d, born, root, created);
    }
  }

  lemma ThreadedRoot(nodes: Nodes, kids: Kids, root: u32, n: Node)
    requires Threaded(nodes, kids) && root !in nodes && n.children == NULL
    ensures Threaded(nodes[root := n], kids[root := []])
  {
    hide Listed;
    var nodes', kids' := nodes[root := n], kids[root := []];
    forall d | d in nodes' ensures Listed(nodes', nodes'[d].children, kids'[d]) {
      if d == root {
        EmptyListed(nodes');
      } else {
        ListedKept(nodes, nodes', nodes[d].children, kids[d]);
      }
    }
  }

  lemma EmptyListed(nodes: Nodes)
    ensures Listed(nodes, NULL, [])
  {
  }

  lemma NextInode(created: nat)
    ensures Wrap(Wrap(created) + 1) == Wrap(created + 1)
  {
  }

  // -------------------------------------------------------------------- unique names

  /** A creation keeps names unique everywhere if and only if the name as stored is new there. */
  lemma UniqueInsertIff(nodes: Nodes, kids: Kids, parent: u32, node: u32, n: Node)
    requires Threaded(nodes, kids) && UniqueNames(nodes, kids)
    requires parent in nodes && parent in kids && node !in nodes
    ensures UniqueNames(Linked(nodes[node := n], parent, node), AddKid(kids, parent, node)) <==>
      n.name !in Names(nodes, kids[parent])
  {
    hide Linked, Threaded;
    var added := nodes[node := n];
    var r, kids' := Linked(added, parent, node), AddKid(kids, parent, node);
    LinkedKeys(added, parent, node);
    KidsKeys(nodes, kids);
    forall x | x in added ensures r[x].name == added[x].name {
      LinkedAt(added, parent, node, x);
    }
    InsertUniqueIff(nodes, kids[parent], node, n);
    assert kids'[parent] == [node] + kids[parent];
    assert forall x | x in [node] + kids[parent] :: x in added;
    assert Unique(r, kids'[parent]) <==> Unique(added, [node] + kids[parent]);
    forall d | d in kids' && d != parent ensures (forall x | x in kids'[d] :: x in r) && Unique(r, kids'[d]) {
      assert d in kids ==> (forall x | x in kids[d] :: x in nodes) && Unique(nodes, kids[d]);
    }
  }

  /** A removal keeps names unique. */
  lemma UniqueRemove(nodes: Nodes, kids: Kids, parent: u32, k: nat)
    requires Threaded(nodes, kids) && UniqueNames(nodes, kids)
    requires parent in nodes && parent in kids && k < |kids[parent]|
    ensures var q := kids[parent];
      && q[k] in nodes && (PrevOf(q, k) != NULL ==> PrevOf(q, k) in nodes)
      && UniqueNames(Bypassed(nodes, parent, PrevOf(q, k), q[k]) - {q[k]}, DropKid(kids, parent, k))
  {
    hide Threaded, Bypassed;
    KidsInNodes(nodes, kids, parent);
    KidsKeys(nodes, kids);
    var q := kids[parent];
    var child, prev := q[k], PrevOf(q, k);
    var r, kids' := Bypassed(nodes, parent, prev, child) - {child}, DropKid(kids, parent, k);
    BypassedAt(nodes, parent, prev, child, parent);
    forall d | d in kids' ensures (forall x | x in kids'[d] :: x in r) && Unique(r, kids'[d]) {
      KidsInNodes(nodes, kids, d);
      forall x | x in kids'[d] ensures x in kids[d] && x in r && r[x].name == nodes[x].name {
        DropKidMember(kids, parent, k, d, x);
        BypassedAt(nodes, parent, prev, child, x);
      }
    }
  }

  lemma UniqueUpdate(nodes: Nodes, kids: Kids, node: u32, n: Node)
    requires UniqueNames(nodes, kids) && node in nodes && n.name == nodes[node].name
    ensures UniqueNames(nodes[node := n], kids)
  {
    var nodes' := nodes[node := n];
    forall d | d in kids ensures (forall x | x in kids[d] :: x in nodes') && Unique(nodes', kids[d]) {
      assert Unique(nodes, kids[d]);
    }
  }

  lemma UniqueRoot(nodes: Nodes, kids: Kids, root: u32, n: Node)
    requires UniqueNames(nodes, kids) && root !in nodes
    ensures UniqueNames(nodes[root := n], kids[root := []])
  {
    var nodes', kids' := nodes[root := n], kids[root := []];
    forall d | d in kids' ensures (forall x | x in kids'[d] :: x in nodes') && Unique(nodes', kids'[d]) {
      assert d != root ==> Unique(nodes, kids[d]);
    }
  }

  // ----------------------------------------------------------------- what follows

  /** Inode numbers tell nodes apart as long as fewer than 2^32 nodes were ever created. */
  lemma InodesDistinct(nodes: Nodes, kids: Kids, born: Birth, created: nat, x: u32, y: u32)
    requires Aged(nodes, kids, born, created) && created <= U32_LIMIT && x in nodes && y in nodes
    ensures nodes[x].inode == nodes[y].inode <==> x == y
  {
    assert born[x] < created && born[y] < created;
  }

  /** A listing runs from the youngest child to the oldest: inode numbers fall until they wrap. */
  lemma ListingFalls(nodes: Nodes, kids: Kids, born: Birth, created: nat, d: u32, i: nat, j: nat)
    requires Aged(nodes, kids, born, created) && Threaded(nodes, kids) && d in nodes && d in kids
    requires i < j < |kids[d]|
    ensures kids[d][i] in born && kids[d][j] in born && born[kids[d][j]] < born[kids[d][i]]
    ensures kids[d][i] in nodes && kids[d][j] in nodes
    ensures created <= U32_LIMIT ==> nodes[kids[d][j]].inode < nodes[kids[d][i]].inode
  {
    KidsInNodes(nodes, kids, d);
    assert YoungestFirst(kids[d], d, born);
    var x, y := kids[d][i], kids[d][j];
    assert born[x] < created && born[y] < created;
  }

  /** A directory that hangs nowhere, as `ramfs_init` makes it. */
  ghost predicate Rooted(nodes: Nodes, root: u32) {
    root in nodes && nodes[root].parent == NULL && IsDirectory(nodes[root])
  }

  /** Every root stays one. */
  ghost predicate KeepsRoots(nodes: Nodes, nodes': Nodes) {
    forall root | Rooted(nodes, root) :: Rooted(nodes', root)
  }

  lemma RootsKeptInsert(nodes: Nodes, parent: u32, node: u32, n: Node)
    requires parent in nodes && node !in nodes
    ensures KeepsRoots(nodes, Linked(nodes[node := n], parent, node))
  {
    hide Linked, IsDirectory;
    var added := nodes[node := n];
    forall root | Rooted(nodes, root) ensures Rooted(Linked(added, parent, node), root) {
      LinkedAt(added, parent, node, root);
      SameType(added[root], Linked(added, parent, node)[root]);
    }
  }

  /** A root is no one's child, so a removal never takes it. */
  lemma RootsKeptRemove(nodes: Nodes, kids: Kids, parent: u32, k: nat)
    requires Threaded(nodes, kids) && parent in nodes && parent in kids && k < |kids[parent]| && NULL !in nodes
    ensures var q := kids[parent];
      && q[k] in nodes && (PrevOf(q, k) != NULL ==> PrevOf(q, k) in nodes)
      && KeepsRoots(nodes, Bypassed(nodes, parent, PrevOf(q, k), q[k]) - {q[k]})
  {
    hide Threaded, Bypassed, IsDirectory;
    KidsInNodes(nodes, kids, parent);
    var child, prev := kids[parent][k], PrevOf(kids[parent], k);
    var r := Bypassed(nodes, parent, prev, child);
    forall root | Rooted(nodes, root) ensures Rooted(r - {child}, root) {
      BypassedAt(nodes, parent, prev, child, root);
      SameType(nodes[root], r[root]);
    }
  }

  lemma RootsKeptUpdate(nodes: Nodes, node: u32, n: Node)
    requires node in nodes && n.parent == nodes[node].parent && n.typ == nodes[node].typ
    ensures KeepsRoots(nodes, nodes[node := n])
  {
  }

  /** The parent links of `x` lead to `root`, each through a directory that lists it. */
  ghost predicate Below(nodes: Nodes, kids: Kids, born: Birth, root: u32, x: u32)
    decreases if x in born then born[x] else 0
  {
    && x in nodes
    && (x == root ||
        (var d := nodes[x].parent;
         d in kids && x in kids[d] && d in born && x in born && born[d] < born[x] && Below(nodes, kids, born, root, d)))
  }

  /** The names from `root` down to `x`. */
  ghost function NamesTo(nodes: Nodes, kids: Kids, born: Birth, root: u32, x: u32): (names: seq<Name>)
    requires Below(nodes, kids, born, root, x)
    decreases if x in born then born[x] else 0
  {
    if x == root then [] else NamesTo(nodes, kids, born, root, nodes[x].parent) + [nodes[x].name]
  }

  lemma {:induction false} BelowYounger(nodes: Nodes, kids: Kids, born: Birth, root: u32, x: u32)
    requires Below(nodes, kids, born, root, x) && x in born
    ensures root in born && born[root] <= born[x]
    decreases born[x]
  {
    if x != root {
      BelowYounger(nodes, kids, born, root, nodes[x].parent);
    }
  }

  /** A listed child of a node below the root is below it, by one more name. */
  lemma ChildBelow(nodes: Nodes, kids: Kids, born: Birth, created: nat, root: u32, d: u32, x: u32)
    requires Threaded(nodes, kids) && Aged(nodes, kids, born, created) && Below(nodes, kids, born, root, d)
    requires d in kids && x in kids[d]
    ensures Below(nodes, kids, born, root, x) && x != root
    ensures NamesTo(nodes, kids, born, root, x) == NamesTo(nodes, kids, born, root, d) + [nodes[x].name]
  {
    hide Threaded;
    KidsInNodes(nodes, kids, d);
    assert YoungestFirst(kids[d], d, born);
    BelowYounger(nodes, kids, born, root, d);
  }

  /** A creation takes no node away from the root, and puts the new one below it if its parent is. */
  lemma {:induction false} InsertBelow(nodes: Nodes, kids: Kids, born: Birth, created: nat, root: u32, x: u32,
                                       parent: u32, node: u32, n: Node)
    requires Aged(nodes, kids, born, created) && parent in nodes && parent in kids && node !in nodes
    requires Below(nodes, kids, born, root, x)
    ensures var r, kids', born' := Linked(nodes[node := n], parent, node), AddKid(kids, parent, node),
                                   born[node := created];
      && Below(r, kids', born', root, x)
      && NamesTo(r, kids', born', root, x) == NamesTo(nodes, kids, born, root, x)
      && (x == parent ==> Below(r, kids', born', root, node))
    decreases born[x]
  {
    hide Linked, IsDirectory, YoungestFirst, Wrap;
    var added := nodes[node := n];
    LinkedAt(added, parent, node, x);
    LinkedAt(added, parent, node, node);
    if x != root {
      InsertBelow(nodes, kids, born, created, root, nodes[x].parent, parent, node, n);
    }
  }

  lemma DropKidKeeps(kids: Kids, parent: u32, k: nat, d: u32, x: u32)
    requires parent in kids && k < |kids[parent]| && d in kids && d != kids[parent][k] && x in kids[d]
    requires d == parent ==> x != kids[parent][k]
    ensures d in DropKid(kids, parent, k) && x in DropKid(kids, parent, k)[d]
  {
    if d == parent {
      var i :| 0 <= i < |kids[d]| && kids[d][i] == x;
      var q := kids[parent][..k] + kids[parent][k + 1..];
      assert q[if i < k then i else i - 1] == x;
    }
  }

  /** After a removal a node is below the root if and only if it was, and was not below the child
      removed; its path is what it was. */
  lemma {:induction false} RemoveBelow(nodes: Nodes, kids: Kids, born: Birth, created: nat, root: u32, x: u32,
                                       parent: u32, k: nat)
    requires Threaded(nodes, kids) && Aged(nodes, kids, born, created)
    requires parent in nodes && parent in kids && k < |kids[parent]| && Rooted(nodes, root) && NULL !in nodes
    ensures var c, prev := kids[parent][k], PrevOf(kids[parent], k);
      && c in nodes && (prev != NULL ==> prev in nodes)
      && var r, kids', born' := Bypassed(nodes, parent, prev, c) - {c}, DropKid(kids, parent, k), born - {c};
         && (Below(r, kids', born', root, x) <==>
               Below(nodes, kids, born, root, x) && !Below(nodes, kids, born, c, x))
         && (Below(r, kids', born', root, x) ==>
               NamesTo(r, kids', born', root, x) == NamesTo(nodes, kids, born, root, x))
    decreases if x in born then born[x] else 0
  {
    hide Threaded, Bypassed, IsDirectory, YoungestFirst, Wrap, DropKid;
    KidsInNodes(nodes, kids, parent);
    var c, prev := kids[parent][k], PrevOf(kids[parent], k);
    BypassedAt(nodes, parent, prev, c, parent);
    KidsKeys(nodes, kids);
    if x in nodes {
      BypassedAt(nodes, parent, prev, c, x);
      var d := nodes[x].parent;
      if x != c && x != root && d in kids && x in kids[d] {
        assert YoungestFirst(kids[d], d, born);
        OlderThanChild(kids[d], d, born, x);
        if d != c {
          KidsInNodes(nodes, kids, d);
          DropKidKeeps(kids, parent, k, d, x);
          RemoveBelow(nodes, kids, born, created, root, d, parent, k);
        }
      }
      if d in DropKid(kids, parent, k) && x in DropKid(kids, parent, k)[d] {
        DropKidMember(kids, parent, k, d, x);
      }
    }
    DropKidKeys(kids, parent, k);
  }

  lemma OlderThanChild(q: seq<u32>, d: u32, born: Birth, x: u32)
    requires YoungestFirst(q, d, born) && x in q
    ensures d in born && x in born && born[d] < born[x]
  {
  }

  lemma DropKidKeys(kids: Kids, parent: u32, k: nat)
    requires parent in kids && k < |kids[parent]|
    ensures kids[parent][k] !in DropKid(kids, parent, k)
  {
  }
}
