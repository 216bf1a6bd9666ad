/** Directories of the RAM file system: sibling lists threaded through the nodes. */
module FileTree {
  import opened Machine

  type Name = seq<u8>

  const VFS_NAME_MAX: int := 128

  /** Which operations table a node points at: only directories made by mkdir, and the root, can
      create and unlink. */
  datatype Ops = PlainOps | DirectoryOps

  /** `vfs_node_t`. */
  datatype Node = Node(name: Name, typ: u32, permissions: u32, inode: u32, size: u32, parent: u32,
                       children: u32, nextSibling: u32, ops: Ops, privateData: u32)

  predicate IsFile(n: Node) { And(n.typ, 1) != 0 }
  predicate IsDirectory(n: Node) { And(n.typ, 2) != 0 }

  /** What `strncpy` keeps of a name. */
  function Stored(name: Name): Name {
    name[..Min(|name|, VFS_NAME_MAX - 1)]
  }

  // ------------------------------------------------------------- sibling lists

  type Nodes = map<u32, Node>

  /** From `head` the sibling links run through exactly `q`, once each. */
  ghost predicate Listed(nodes: Nodes, head: u32, q: seq<u32>) {
    && head == Next(q, -1)
    && (forall i | 0 <= i < |q| :: q[i] != NULL && q[i] in nodes && nodes[q[i]].nextSibling == Next(q, i))
    && (forall i, j | 0 <= i < j < |q| :: q[i] != q[j])
  }

  /** Every node heads a list of nodes that name it as their parent. */
  ghost predicate Threaded(nodes: Nodes, kids: Kids) {
    && kids.Keys == nodes.Keys
    && (forall d | d in nodes :: Listed(nodes, nodes[d].children, kids[d]))
    && (forall d, x | d in nodes && x in kids[d] :: x in nodes && nodes[x].parent == d && x != d)
  }

  lemma KidsKeys(nodes: Nodes, kids: Kids)
    requires Threaded(nodes, kids)
    ensures kids.Keys == nodes.Keys
  {
  }

  lemma ListedNext(nodes: Nodes, head: u32, q: seq<u32>, k: nat)
    requires Listed(nodes, head, q) && k <= |q|
    ensures k > 0 ==> q[k - 1] in nodes
    ensures (if k == 0 then head else nodes[q[k - 1]].nextSibling) == if k < |q| then q[k] else NULL
    ensures k < |q| ==> q[k] != NULL && q[k] in nodes
  {
  }

  /** A list whose members keep their links is still listed. */
  lemma ListedKept(nodes: Nodes, nodes': Nodes, head: u32, q: seq<u32>)
    requires Listed(nodes, head, q)
    requires forall x | x in q :: x in nodes && x in nodes' && nodes'[x].nextSibling == nodes[x].nextSibling
    ensures Listed(nodes', head, q)
  {
  }

  // -------------------------------------------------------------------- lookup

  /** The first member of `q` named `name`, or NULL. */
  ghost function FirstNamed(nodes: Nodes, q: seq<u32>, name: Name): (r: u32)
    requires forall x | x in q :: x in nodes
    ensures r != NULL ==> r in q && nodes[r].name == name
  {
    if q == [] then NULL
    else if q[0] != NULL && nodes[q[0]].name == name then q[0]
    else FirstNamed(nodes, q[1..], name)
  }

  ghost predicate Unique(nodes: Nodes, q: seq<u32>)
    requires forall x | x in q :: x in nodes
  {
    forall x, y | x in q && y in q && nodes[x].name == nodes[y].name :: x == y
  }

  /** The names in a directory. */
  ghost function Names(nodes: Nodes, q: seq<u32>): set<Name>
    requires forall x | x in q :: x in nodes
  {
    set x | x in q :: nodes[x].name
  }

  /** A directory with unique names is a finite map: lookup finds exactly the member so named. */
  lemma {:induction false} LookupIsMap(nodes: Nodes, q: seq<u32>, name: Name)
    requires (forall x | x in q :: x in nodes && x != NULL) && Unique(nodes, q)
    ensures FirstNamed(nodes, q, name) == NULL <==> name !in Names(nodes, q)
    ensures forall x | x in q && nodes[x].name == name :: FirstNamed(nodes, q, name) == x
  {
    if q != [] {
      assert q == [q[0]] + q[1..];
      assert forall x | x in q[1..] :: x in q;
      LookupIsMap(nodes, q[1..], name);
      assert forall x | x in q :: x == q[0] || x in q[1..];
    }
  }

  lemma {:induction false} FirstNamedIff(nodes: Nodes, q: seq<u32>, name: Name)
    requires forall x | x in q :: x in nodes && x != NULL
    ensures FirstNamed(nodes, q, name) == NULL <==> name !in Names(nodes, q)
  {
    if q != [] {
      assert q == [q[0]] + q[1..];
      assert forall x | x in q[1..] :: x in q;
      FirstNamedIff(nodes, q[1..], name);
      assert forall x | x in q :: x == q[0] || x in q[1..];
    }
  }

  /** Of several members with the name, the lookup finds the first. */
  lemma {:induction false} FirstNamedFirst(nodes: Nodes, q: seq<u32>, name: Name, k: nat)
    requires (forall x | x in q :: x in nodes && x != NULL) && k < |q|
    requires forall i, j | 0 <= i < j < |q| :: q[i] != q[j]
    ensures FirstNamed(nodes, q, name) == q[k] <==>
      nodes[q[k]].name == name && forall j | 0 <= j < k :: nodes[q[j]].name != name
  {
    var rest := q[1..];
    assert forall x | x in rest :: x in q;
    if nodes[q[0]].name == name {
      assert FirstNamed(nodes, q, name) == q[0];
    } else {
      assert FirstNamed(nodes, q, name) == FirstNamed(nodes, rest, name);
      assert q[0] !in rest;
      if k > 0 {
        FirstNamedFirst(nodes, rest, name, k - 1);
        assert forall j | 1 <= j < k :: q[j] == rest[j - 1];
        assert forall j | 0 <= j < k - 1 :: rest[j] == q[j + 1];
      }
    }
  }

  // -------------------------------------------------------------------- insert

  /** `node->next_sibling = parent->children; parent->children = node`, with the back pointer. */
  function Linked(nodes: Nodes, parent: u32, node: u32): Nodes
    requires parent in nodes && node in nodes
  {
    var placed := nodes[node := nodes[node].(parent := parent, nextSibling := nodes[parent].children)];
    placed[parent := placed[parent].(children := node)]
  }

  lemma LinkedAt(nodes: Nodes, parent: u32, node: u32, x: u32)
    requires parent in nodes && node in nodes && x in nodes && parent != node
    ensures Linked(nodes, parent, node).Keys == nodes.Keys
    ensures var r := Linked(nodes, parent, node);
      && r[x].name == nodes[x].name && r[x].typ == nodes[x].typ && r[x].privateData == nodes[x].privateData
      && r[x].size == nodes[x].size && r[x].inode == nodes[x].inode
      && r[x].parent == (if x == node then parent else nodes[x].parent)
      && r[x].nextSibling == (if x == node then nodes[parent].children else nodes[x].nextSibling)
      && r[x].children == (if x == parent then node else nodes[x].children)
  {
  }

  lemma LinkedKeys(nodes: Nodes, parent: u32, node: u32)
    requires parent in nodes && node in nodes
    ensures Linked(nodes, parent, node).Keys == nodes.Keys
  {
  }

  type Kids = map<u32, seq<u32>>

  /** The child lists after `node` joins the front of `parent`. */
  function AddKid(kids: Kids, parent: u32, node: u32): Kids
    requires parent in kids
  {
    kids[node := []][parent := [node] + kids[parent]]
  }

  /** A fresh node put at the front of a directory. */
  lemma InsertThreaded(nodes: Nodes, kids: Kids, parent: u32, node: u32, n: Node)
    requires parent in nodes && parent in kids && node !in nodes && node != NULL && n.children == NULL
    requires Threaded(nodes, kids)
    ensures Threaded(Linked(nodes[node := n], parent, node), AddKid(kids, parent, node))
  {
    hide Linked, Listed;
    var added := nodes[node := n];
    var r, kids' := Linked(added, parent, node), AddKid(kids, parent, node);
    LinkedKeys(added, parent, node);
    assert kids'.Keys == r.Keys;
    forall d | d in r ensures Listed(r, r[d].children, kids'[d]) {
      InsertListed(nodes, kids, parent, node, n, d);
    }
    forall d, x | d in r && x in kids'[d] ensures x in r && r[x].parent == d && x != d {
      assert x == node || x in kids[d];
      LinkedAt(added, parent, node, x);
    }
  }

  lemma InsertListed(nodes: Nodes, kids: Kids, parent: u32, node: u32, n: Node, d: u32)
    requires parent in nodes && parent in kids && node !in nodes && node != NULL && n.children == NULL
    requires Threaded(nodes, kids) && (d in nodes || d == node)
    ensures var added := nodes[node := n];
      var r, kids' := Linked(added, parent, node), AddKid(kids, parent, node);
      d in r && Listed(r, r[d].children, kids'[d])
  {
    hide Linked;
    var added := nodes[node := n];
    var r := Linked(added, parent, node);
    LinkedAt(added, parent, node, d);
    LinkedAt(added, parent, node, node);
    if d == node {
    } else {
      assert Listed(nodes, nodes[d].children, kids[d]);
      forall x | x in kids[d] ensures x in nodes && x in r && r[x].nextSibling == nodes[x].nextSibling {
        LinkedAt(added, parent, node, x);
      }
      ListedKept(nodes, r, nodes[d].children, kids[d]);
      if d == parent {
        ListedCons(r, nodes[d].children, kids[d], node);
      }
    }
  }

  lemma ListedCons(nodes: Nodes, head: u32, q: seq<u32>, node: u32)
    requires Listed(nodes, head, q) && node in nodes && node != NULL && node !in q && nodes[node].nextSibling == head
    ensures Listed(nodes, node, [node] + q)
  {
    var q' := [node] + q;
    forall i | 0 <= i < |q'| ensures q'[i] != NULL && q'[i] in nodes && nodes[q'[i]].nextSibling == Next(q', i) {
      if i > 0 { assert q'[i] == q[i - 1]; }
    }
  }

  /** Whether a create keeps names unique depends on the name as stored, not as looked up. */
  lemma InsertUniqueIff(nodes: Nodes, q: seq<u32>, node: u32, n: Node)
    requires (forall x | x in q :: x in nodes) && node !in nodes && Unique(nodes, q)
    ensures var nodes' := nodes[node := n];
      Unique(nodes', [node] + q) <==> n.name !in Names(nodes, q)
  {
    var nodes', q' := nodes[node := n], [node] + q;
    assert forall x | x in q :: x in q' && nodes'[x] == nodes[x];
    assert node in q';
    assert forall x | x in q' :: x == node || x in q;
    if n.name in Names(nodes, q) {
      var x :| x in q && nodes[x].name == n.name;
      assert x in q' && nodes'[x].name == nodes'[node].name;
    }
  }

  /** Names of at most 127 bytes are stored whole, so the lookup before a create keeps them unique;
      longer names are cut and two of them can collide. */
  lemma LongNamesCollide()
    ensures exists name: Name, name': Name :: name != name' && Stored(name) == Stored(name')
  {
    var a: Name := seq(128, _ => 0x61);
    var b: Name := a + [0x61];
    assert Stored(a) == Stored(b) by {
      assert b[..127] == a[..127];
    }
    assert |a| != |b|;
  }

  // -------------------------------------------------------------------- remove

  /** The pointer stores of `ramfs_do_unlink`: bypass `node` after `prev`, or at the front. */
  function Bypassed(nodes: Nodes, parent: u32, prev: u32, node: u32): Nodes
    requires parent in nodes && node in nodes && (prev != NULL ==> prev in nodes)
  {
    if prev != NULL then nodes[prev := nodes[prev].(nextSibling := nodes[node].nextSibling)]
    else nodes[parent := nodes[parent].(children := nodes[node].nextSibling)]
  }

  lemma BypassedAt(nodes: Nodes, parent: u32, prev: u32, node: u32, x: u32)
    requires parent in nodes && node in nodes && (prev != NULL ==> prev in nodes) && x in nodes
    ensures var r := Bypassed(nodes, parent, prev, node);
      && r.Keys == nodes.Keys && r[x].parent == nodes[x].parent
      && r[x].name == nodes[x].name && r[x].typ == nodes[x].typ && r[x].size == nodes[x].size
      && r[x].privateData == nodes[x].privateData && r[x].inode == nodes[x].inode
      && r[x].permissions == nodes[x].permissions && r[x].ops == nodes[x].ops
      && r[x].nextSibling == (if prev != NULL && x == prev then nodes[node].nextSibling else nodes[x].nextSibling)
      && r[x].children == (if prev == NULL && x == parent then nodes[node].nextSibling else nodes[x].children)
  {
  }

  /** The child lists after the child at index `k` of `parent` is gone. */
  function DropKid(kids: Kids, parent: u32, k: nat): Kids
    requires parent in kids && k < |kids[parent]|
  {
    kids[parent := kids[parent][..k] + kids[parent][k + 1..]] - {kids[parent][k]}
  }

  /** The predecessor of child `k`, NULL for the first. */
  function PrevOf(q: seq<u32>, k: nat): u32
    requires k < |q|
  {
    if k > 0 then q[k - 1] else NULL
  }

  /** In `nodes'` the list `q` bypasses its member `k`. */
  ghost predicate BypassedIn(nodes: Nodes, nodes': Nodes, q: seq<u32>, k: nat)
    requires k < |q| && forall i | 0 <= i < |q| :: q[i] in nodes
  {
    forall i | 0 <= i < |q| && i != k ::
      && q[i] in nodes'
      && nodes'[q[i]].nextSibling == if i == k - 1 then nodes[q[k]].nextSibling else nodes[q[i]].nextSibling
  }

  /** Bypassing child `k` of a list leaves the list without it. */
  lemma ListedDrop(nodes: Nodes, head: u32, q: seq<u32>, k: nat, nodes': Nodes, head': u32)
    requires Listed(nodes, head, q) && k < |q| && BypassedIn(nodes, nodes', q, k)
    requires head' == if k == 0 then nodes[q[k]].nextSibling else head
    ensures Listed(nodes', head', q[..k] + q[k + 1..])
  {
    var q' := q[..k] + q[k + 1..];
    forall i | 0 <= i < |q'|
      ensures q'[i] != NULL && q'[i] in nodes' && nodes'[q'[i]].nextSibling == Next(q', i)
    {
      DropAt(nodes, head, q, k, nodes', i);
    }
    RemovedDistinct(q, k);
  }

  lemma DropAt(nodes: Nodes, head: u32, q: seq<u32>, k: nat, nodes': Nodes, i: nat)
    requires Listed(nodes, head, q) && k < |q| && BypassedIn(nodes, nodes', q, k) && i + 1 < |q|
    ensures var q' := q[..k] + q[k + 1..];
      q'[i] != NULL && q'[i] in nodes' && nodes'[q'[i]].nextSibling == Next(q', i)
  {
    var j := if i < k then i else i + 1;
    assert (q[..k] + q[k + 1..])[i] == q[j] && q[j] != NULL;
    assert q[k] in nodes && nodes[q[k]].nextSibling == Next(q, k);
    assert nodes[q[j]].nextSibling == Next(q, j);
  }

  /** Unlinking a child leaves every directory threaded. */
  lemma RemoveThreaded(nodes: Nodes, kids: Kids, parent: u32, k: nat)
    requires parent in nodes && parent in kids && k < |kids[parent]| && Threaded(nodes, kids)
    ensures var q := kids[parent];
      && q[k] in nodes && (PrevOf(q, k) != NULL ==> PrevOf(q, k) in nodes)
      && Threaded(Bypassed(nodes, parent, PrevOf(q, k), q[k]) - {q[k]}, DropKid(kids, parent, k))
  {
    hide Bypassed, Listed, BypassedIn;
    var q := kids[parent];
    var node, prev := q[k], PrevOf(q, k);
    KidsInNodes(nodes, kids, parent);
    BypassedAt(nodes, parent, prev, node, parent);
    var r, kids' := Bypassed(nodes, parent, prev, node) - {node}, DropKid(kids, parent, k);
    assert kids'.Keys == r.Keys;
    forall d | d in r ensures Listed(r, r[d].children, kids'[d]) {
      if d == parent {
        RemoveFromParent(nodes, kids, parent, q, k, node, prev);
      } else {
        RemoveElsewhere(nodes, kids, parent, k, d);
      }
    }
    forall d, x | d in r && x in kids'[d] ensures x in r && r[x].parent == d && x != d {
      DropKidMember(kids, parent, k, d, x);
      KidsInNodes(nodes, kids, d);
      BypassedAt(nodes, parent, prev, node, x);
    }
  }

  lemma KidsInNodes(nodes: Nodes, kids: Kids, d: u32)
    requires Threaded(nodes, kids) && d in nodes
    ensures d in kids && (forall i | 0 <= i < |kids[d]| :: kids[d][i] in nodes && kids[d][i] != NULL && kids[d][i] != d)
    ensures forall i, j | 0 <= i < j < |kids[d]| :: kids[d][i] != kids[d][j]
    ensures forall x | x in kids[d] :: x in nodes && nodes[x].parent == d && x != d
  {
    assert Listed(nodes, nodes[d].children, kids[d]);
  }

  /** A child that remains was a child before, and is not the one dropped. */
  lemma DropKidMember(kids: Kids, parent: u32, k: nat, d: u32, x: u32)
    requires parent in kids && k < |kids[parent]| && d in DropKid(kids, parent, k) && x in DropKid(kids, parent, k)[d]
    requires forall i, j | 0 <= i < j < |kids[parent]| :: kids[parent][i] != kids[parent][j]
    ensures d in kids && x in kids[d]
    ensures d == parent ==> x != kids[parent][k]
  {
  }

  lemma RemoveFromParent(nodes: Nodes, kids: Kids, parent: u32, q: seq<u32>, k: nat, node: u32, prev: u32)
    requires parent in nodes && parent in kids && kids[parent] == q && Threaded(nodes, kids)
    requires k < |q| && node == q[k] && prev == PrevOf(q, k)
    requires node in nodes && node != parent && (prev != NULL ==> prev in nodes)
    ensures var r := Bypassed(nodes, parent, prev, node) - {node};
      parent in r && Listed(r, r[parent].children, q[..k] + q[k + 1..])
  {
    hide Bypassed, Threaded, BypassedIn;
    KidsInNodes(nodes, kids, parent);
    ChildListed(nodes, kids, parent);
    BypassesIn(nodes, parent, prev, node, q, k);
    BypassedAt(nodes, parent, prev, node, parent);
    var r := Bypassed(nodes, parent, prev, node) - {node};
    ListedNext(nodes, nodes[parent].children, q, k);
    ListedDrop(nodes, nodes[parent].children, q, k, r, r[parent].children);
  }

  lemma ChildListed(nodes: Nodes, kids: Kids, d: u32)
    requires Threaded(nodes, kids) && d in nodes
    ensures d in kids && Listed(nodes, nodes[d].children, kids[d])
  {
  }

  lemma BypassesIn(nodes: Nodes, parent: u32, prev: u32, node: u32, q: seq<u32>, k: nat)
    requires parent in nodes && node in nodes && (prev != NULL ==> prev in nodes)
    requires k < |q| && node == q[k] && prev == PrevOf(q, k)
    requires forall i | 0 <= i < |q| :: q[i] in nodes && q[i] != NULL
    requires forall i, j | 0 <= i < j < |q| :: q[i] != q[j]
    ensures BypassedIn(nodes, Bypassed(nodes, parent, prev, node) - {node}, q, k)
  {
    hide Bypassed;
    var r := Bypassed(nodes, parent, prev, node) - {node};
    forall i | 0 <= i < |q| && i != k
      ensures q[i] in r
      ensures r[q[i]].nextSibling == if i == k - 1 then nodes[node].nextSibling else nodes[q[i]].nextSibling
    {
      BypassedAt(nodes, parent, prev, node, q[i]);
    }
  }

  lemma RemoveElsewhere(nodes: Nodes, kids: Kids, parent: u32, k: nat, d: u32)
    requires parent in nodes && parent in kids && k < |kids[parent]| && Threaded(nodes, kids)
    requires kids[parent][k] in nodes && (PrevOf(kids[parent], k) != NULL ==> PrevOf(kids[parent], k) in nodes)
    requires d in nodes && d != kids[parent][k] && d != parent
    ensures var q := kids[parent];
      var r := Bypassed(nodes, parent, PrevOf(q, k), q[k]) - {q[k]};
      d in kids && d in r && Listed(r, r[d].children, kids[d])
  {
    hide Bypassed;
    var q := kids[parent];
    var node, prev := q[k], PrevOf(q, k);
    KidsInNodes(nodes, kids, parent);
    KidsInNodes(nodes, kids, d);
    assert node in q && (k > 0 ==> q[k - 1] in q);
    var r := Bypassed(nodes, parent, prev, node) - {node};
    BypassedAt(nodes, parent, prev, node, d);
    forall x | x in kids[d] ensures x in nodes && x in r && r[x].nextSibling == nodes[x].nextSibling {
      BypassedAt(nodes, parent, prev, node, x);
    }
    ListedKept(nodes, r, nodes[d].children, kids[d]);
  }
}
