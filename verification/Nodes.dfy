/** What add_dir builds, above the level of blocks: allocated inodes with their
    bytes, directories as sequences of 16-byte entries, and link counts. */
module Nodes {
  import opened Layout
  import opened FsImage
  import opened Bytes

  /** One allocated inode: its type, the bytes appended to it, its link count,
      whether its size has been rounded, and the host file it was made for. */
  datatype Node = Node(kind: int, data: seq<byte>, nlink: int, closed: bool, host: nat)

  /** add_dir's size fix: up to the next multiple of the block size, always by at least one byte. */
  function NodeSize(nd: Node): nat {
    if nd.closed then (|nd.data| / 512 + 1) * 512 else |nd.data|
  }

  /* ---- entries ---- */

  function ECount(nd: Node): nat { |nd.data| / 16 }

  function EntryAt(nd: Node, e: nat): Dirent
    requires e < ECount(nd)
  {
    DecodeDirent(nd.data[16 * e..16 * e + 16])
  }

  lemma AppendEntryAt(nd: Node, d: Dirent, nd': Node)
    requires |nd.data| % 16 == 0 && |d.name| == 14 && d.inum < 65536
    requires nd'.data == nd.data + EncodeDirent(d)
    ensures ECount(nd') == ECount(nd) + 1 && |nd'.data| % 16 == 0
    ensures forall e :: 0 <= e < ECount(nd) ==> EntryAt(nd', e) == EntryAt(nd, e)
    ensures EntryAt(nd', ECount(nd)) == d
  {
    var n := ECount(nd);
    forall e | 0 <= e < n ensures EntryAt(nd', e) == EntryAt(nd, e) {
      assert nd'.data[16 * e..16 * e + 16] == nd.data[16 * e..16 * e + 16];
    }
    assert nd'.data[16 * n..16 * n + 16] == EncodeDirent(d);
    DirentInverse(d);
  }

  predicate IsDirNode(nodes: seq<Node>, j: nat) { 1 <= j < |nodes| && nodes[j].kind == T_DIR }

  /** The inode that the ".." of directory j names. */
  function ParentOf(nodes: seq<Node>, j: nat): nat
    requires j < |nodes| && ECount(nodes[j]) >= 2
  {
    EntryAt(nodes[j], 1).inum
  }

  /** Entry e of directory j, from the third on, is in use and names an allocated inode. */
  ghost predicate OrdinaryAt(nodes: seq<Node>, j: nat, e: nat)
    requires j < |nodes| && e < ECount(nodes[j])
  {
    OrdinaryEntry(EntryAt(nodes[j], e)) && EntryAt(nodes[j], e).inum < |nodes|
  }

  /** Directory j starts with "." and ".." (a directory made earlier), followed by ordinary entries. */
  ghost predicate Formatted(nodes: seq<Node>, j: nat)
    requires j < |nodes|
  {
    && |nodes[j].data| % 16 == 0 && ECount(nodes[j]) >= 2
    && EntryAt(nodes[j], 0) == Dirent(j, PadName(DOT))
    && EntryAt(nodes[j], 1).name == PadName(DOTDOT)
    && IsDirNode(nodes, ParentOf(nodes, j))
    && (ParentOf(nodes, j) < j || (j == ROOTINO && ParentOf(nodes, j) == ROOTINO))
    && forall e :: 2 <= e < ECount(nodes[j]) ==> OrdinaryAt(nodes, j, e)
  }

  /** Entry e of directory `dir`. */
  datatype EPos = EPos(dir: nat, e: nat)

  ghost predicate IsEPos(nodes: seq<Node>, p: EPos) {
    IsDirNode(nodes, p.dir) && 2 <= p.e < ECount(nodes[p.dir])
  }

  ghost predicate NamesNode(nodes: seq<Node>, p: EPos, t: nat) {
    IsEPos(nodes, p) && EntryAt(nodes[p.dir], p.e).inum == t
  }

  /** The entries that name inode t. */
  ghost function Namings(nodes: seq<Node>, t: nat): (r: set<EPos>)
    ensures forall p :: p in r <==> NamesNode(nodes, p, t)
  {
    set j, e | 0 <= j < |nodes| && 2 <= e < ECount(nodes[j]) && NamesNode(nodes, EPos(j, e), t) :: EPos(j, e)
  }

  /** Link accounting for inode t; `owed` holds the inodes whose own entry is still to be written. */
  ghost predicate CountOk(nodes: seq<Node>, owed: set<nat>, t: nat)
    requires t < |nodes|
  {
    var due := if t in owed then 1 else 0;
    if nodes[t].kind == T_DIR then |Namings(nodes, t)| == 1 - due
    else nodes[t].nlink == |Namings(nodes, t)| + due
  }

  ghost predicate NodeOk(nodes: seq<Node>, owed: set<nat>, t: nat)
    requires t < |nodes|
  {
    && (nodes[t].kind == T_DIR || nodes[t].kind == T_FILE)
    && (nodes[t].kind == T_FILE ==> !nodes[t].closed && nodes[t].nlink >= 1)
    && (nodes[t].kind == T_DIR ==> nodes[t].data == [] || Formatted(nodes, t))
    && (nodes[t].kind == T_DIR && nodes[t].closed ==> nodes[t].data != [])
    && (nodes[t].kind == T_DIR && t !in owed ==> nodes[t].closed)
    && CountOk(nodes, owed, t)
  }

  /** An entry that names a directory stands in the directory its ".." names. */
  ghost predicate ParentsAgree(nodes: seq<Node>) {
    forall p, t: nat :: NamesNode(nodes, p, t) && IsDirNode(nodes, t) ==>
      ECount(nodes[t]) >= 2 && ParentOf(nodes, t) == p.dir
  }

  /** The invariant of the tree under construction. */
  ghost predicate TreeOk(nodes: seq<Node>, owed: set<nat>) {
    && |nodes| <= 65536
    && (forall t: nat :: 1 <= t < |nodes| ==> NodeOk(nodes, owed, t))
    && ParentsAgree(nodes)
    && (forall t :: t in owed ==> 1 <= t < |nodes|)
  }

  /* ---- steps of the builder ---- */

  /** Same kinds, and directories with the same bytes. */
  ghost predicate SameDirs(nodes: seq<Node>, nodes': seq<Node>) {
    && |nodes'| == |nodes|
    && forall j :: 0 <= j < |nodes| ==>
         nodes'[j].kind == nodes[j].kind && (nodes[j].kind == T_DIR ==> nodes'[j].data == nodes[j].data)
  }

  lemma SameDirsNamings(nodes: seq<Node>, nodes': seq<Node>, t: nat)
    requires SameDirs(nodes, nodes')
    ensures Namings(nodes', t) == Namings(nodes, t)
  {
    hide DecodeDirent;
    assert forall p :: NamesNode(nodes', p, t) <==> NamesNode(nodes, p, t);
  }

  /** Changing one inode's link count, rounding its size, or appending to a file. */
  lemma MetaStep(nodes: seq<Node>, owed: set<nat>, f: nat, nd: Node, owed': set<nat>)
    requires TreeOk(nodes, owed) && 1 <= f < |nodes| && nd.kind == nodes[f].kind
    requires nd.kind == T_DIR ==> nd.data == nodes[f].data && nd.data != [] && owed' == owed
    requires nd.kind == T_DIR ==> nd.closed || !nodes[f].closed
    requires nd.kind == T_FILE ==> !nd.closed && owed' == (if nd.nlink == nodes[f].nlink then owed else owed + {f})
    requires nd.kind == T_FILE ==> nd.nlink == nodes[f].nlink || (nd.nlink == nodes[f].nlink + 1 && f !in owed)
    ensures TreeOk(nodes[f := nd], owed')
  {
    hide EntryAt;
    var nodes' := nodes[f := nd];
    assert SameDirs(nodes, nodes') && NodeOk(nodes, owed, f);
    forall t: nat | 1 <= t < |nodes'| ensures NodeOk(nodes', owed', t) {
      SameDirsNamings(nodes, nodes', t);
      assert NodeOk(nodes, owed, t);
      if nodes[t].kind == T_DIR && nodes[t].data != [] { SameFormat(nodes, nodes', t); }
    }
    forall p, t: nat | NamesNode(nodes', p, t) && IsDirNode(nodes', t)
      ensures ECount(nodes'[t]) >= 2 && ParentOf(nodes', t) == p.dir
    {
      SameParent(nodes, nodes', p, t);
    }
  }

  lemma SameFormat(nodes: seq<Node>, nodes': seq<Node>, t: nat)
    requires SameDirs(nodes, nodes') && t < |nodes| && nodes[t].kind == T_DIR && Formatted(nodes, t)
    ensures Formatted(nodes', t)
  {
    hide DecodeDirent;
    forall e | 2 <= e < ECount(nodes'[t]) ensures OrdinaryAt(nodes', t, e) { assert OrdinaryAt(nodes, t, e); }
  }

  lemma SameParent(nodes: seq<Node>, nodes': seq<Node>, p: EPos, t: nat)
    requires SameDirs(nodes, nodes') && ParentsAgree(nodes) && NamesNode(nodes', p, t) && IsDirNode(nodes', t)
    ensures ECount(nodes'[t]) >= 2 && ParentOf(nodes', t) == p.dir
  {
    hide DecodeDirent;
    assert NamesNode(nodes, p, t);
  }

  /** ialloc: a new inode is owed an entry. */
  lemma AllocStep(nodes: seq<Node>, owed: set<nat>, nd: Node)
    requires TreeOk(nodes, owed) && 1 <= |nodes| < 65536
    requires nd.data == [] && !nd.closed && (nd.kind == T_DIR || (nd.kind == T_FILE && nd.nlink == 1))
    ensures TreeOk(nodes + [nd], owed + {|nodes|})
  {
    hide DecodeDirent;
    var nodes', owed' := nodes + [nd], owed + {|nodes|};
    forall t: nat | 1 <= t < |nodes'| ensures NodeOk(nodes', owed', t) {
      AllocNamings(nodes, owed, nd, t);
      if t < |nodes| {
        assert NodeOk(nodes, owed, t);
        if nodes[t].kind == T_DIR && nodes[t].data != [] {
          forall e | 2 <= e < ECount(nodes'[t]) ensures OrdinaryAt(nodes', t, e) { assert OrdinaryAt(nodes, t, e); }
          assert Formatted(nodes', t);
        }
      }
    }
    forall p, t: nat | NamesNode(nodes', p, t) && IsDirNode(nodes', t)
      ensures ECount(nodes'[t]) >= 2 && ParentOf(nodes', t) == p.dir
    {
      AllocNamings(nodes, owed, nd, t);
      assert p in Namings(nodes', t);
      assert NamesNode(nodes, p, t);
    }
  }

  lemma AllocNamings(nodes: seq<Node>, owed: set<nat>, nd: Node, t: nat)
    requires TreeOk(nodes, owed) && nd.data == [] && 1 <= t <= |nodes|
    ensures Namings(nodes + [nd], t) == if t < |nodes| then Namings(nodes, t) else {}
  {
    hide DecodeDirent, CountOk;
    var nodes' := nodes + [nd];
    forall p | NamesNode(nodes', p, t) ensures t < |nodes| && NamesNode(nodes, p, t) {
      assert p.dir < |nodes| && NodeOk(nodes, owed, p.dir);
      assert OrdinaryAt(nodes, p.dir, p.e);
    }
    assert t < |nodes| ==> forall p :: NamesNode(nodes, p, t) ==> NamesNode(nodes', p, t);
  }

  /** Writing "." and ".." into an empty directory. */
  lemma BeginStep(nodes: seq<Node>, owed: set<nat>, cur: nat, parent: nat, nd: Node)
    requires TreeOk(nodes, owed) && IsDirNode(nodes, cur) && nodes[cur].data == [] && cur in owed
    requires IsDirNode(nodes, parent) && (parent < cur || (cur == ROOTINO && parent == ROOTINO))
    requires nd == nodes[cur].(data := EncodeDirent(Dirent(cur, PadName(DOT)))
                                       + EncodeDirent(Dirent(parent, PadName(DOTDOT))))
    ensures TreeOk(nodes[cur := nd], owed)
    ensures ECount(nd) == 2 && Formatted(nodes[cur := nd], cur) && ParentOf(nodes[cur := nd], cur) == parent
  {
    var nodes' := nodes[cur := nd];
    var nd1 := nodes[cur].(data := EncodeDirent(Dirent(cur, PadName(DOT))));
    AppendEntryAt(nodes[cur], Dirent(cur, PadName(DOT)), nd1);
    AppendEntryAt(nd1, Dirent(parent, PadName(DOTDOT)), nd);
    hide DecodeDirent, EntryAt, PadName, EncodeDirent;
    assert Formatted(nodes', cur);
    forall t: nat | 1 <= t < |nodes'| ensures NodeOk(nodes', owed, t) {
      BeginNamings(nodes, cur, nd, t);
      assert NodeOk(nodes, owed, t);
      if t != cur && nodes[t].kind == T_DIR && nodes[t].data != [] {
        forall e | 2 <= e < ECount(nodes'[t]) ensures OrdinaryAt(nodes', t, e) { assert OrdinaryAt(nodes, t, e); }
        assert Formatted(nodes', t);
      }
    }
    forall p, t: nat | NamesNode(nodes', p, t) && IsDirNode(nodes', t)
      ensures ECount(nodes'[t]) >= 2 && ParentOf(nodes', t) == p.dir
    {
      BeginNamings(nodes, cur, nd, t);
      assert p in Namings(nodes', t);
      assert NamesNode(nodes, p, t) && NodeOk(nodes, owed, t);
      assert p in Namings(nodes, t) && |Namings(nodes, t)| > 0;
    }
  }

  lemma BeginNamings(nodes: seq<Node>, cur: nat, nd: Node, t: nat)
    requires IsDirNode(nodes, cur) && nodes[cur].data == [] && nd.kind == T_DIR && ECount(nd) == 2
    ensures Namings(nodes[cur := nd], t) == Namings(nodes, t)
  {
    hide DecodeDirent;
    assert forall p :: NamesNode(nodes[cur := nd], p, t) <==> NamesNode(nodes, p, t);
  }

  /** Writing the entry that inode t is owed into directory cur. */
  lemma EntryStep(nodes: seq<Node>, owed: set<nat>, cur: nat, d: Dirent, nd: Node)
    requires TreeOk(nodes, owed) && IsDirNode(nodes, cur) && nodes[cur].data != [] && d.inum in owed && d.inum != cur
    requires |d.name| == 14 && OrdinaryEntry(d)
    requires nodes[d.inum].kind == T_DIR ==>
      nodes[d.inum].closed && ECount(nodes[d.inum]) >= 2 && ParentOf(nodes, d.inum) == cur
    requires nd == nodes[cur].(data := nodes[cur].data + EncodeDirent(d))
    ensures TreeOk(nodes[cur := nd], owed - {d.inum})
    ensures ECount(nd) == ECount(nodes[cur]) + 1 && EntryAt(nd, ECount(nodes[cur])) == d
    ensures forall e :: 0 <= e < ECount(nodes[cur]) ==> EntryAt(nd, e) == EntryAt(nodes[cur], e)
  {
    var nodes', owed' := nodes[cur := nd], owed - {d.inum};
    assert NodeOk(nodes, owed, cur);
    AppendEntryAt(nodes[cur], d, nd);
    hide DecodeDirent, EntryAt, EncodeDirent, NodeOk, OrdinaryEntry;
    forall t: nat | 1 <= t < |nodes'| ensures NodeOk(nodes', owed', t) {
      EntryNode(nodes, owed, cur, d, nd, t);
    }
    forall p, t: nat | NamesNode(nodes', p, t) && IsDirNode(nodes', t)
      ensures ECount(nodes'[t]) >= 2 && ParentOf(nodes', t) == p.dir
    {
      EntryNamings(nodes, cur, d, nd, t);
      assert p in Namings(nodes', t);
      assert p == EPos(cur, ECount(nodes[cur])) || NamesNode(nodes, p, t);
    }
  }

  lemma EntryNode(nodes: seq<Node>, owed: set<nat>, cur: nat, d: Dirent, nd: Node, t: nat)
    requires IsDirNode(nodes, cur) && d.inum in owed && d.inum != cur && d.inum < |nodes| && OrdinaryEntry(d)
    requires nodes[d.inum].kind == T_DIR ==> nodes[d.inum].closed
    requires 1 <= t < |nodes| && NodeOk(nodes, owed, t) && nodes[cur].data != []
    requires nd == nodes[cur].(data := nd.data) && ECount(nodes[cur]) >= 2 && |nd.data| % 16 == 0
    requires ECount(nd) == ECount(nodes[cur]) + 1 && EntryAt(nd, ECount(nodes[cur])) == d
    requires forall e :: 0 <= e < ECount(nodes[cur]) ==> EntryAt(nd, e) == EntryAt(nodes[cur], e)
    ensures NodeOk(nodes[cur := nd], owed - {d.inum}, t)
  {
    hide EntryAt;
    var nodes' := nodes[cur := nd];
    EntryNamings(nodes, cur, d, nd, t);
    if nodes[t].kind == T_DIR && nodes[t].data != [] {
      forall e | 2 <= e < ECount(nodes'[t]) ensures OrdinaryAt(nodes', t, e) {
        if e < ECount(nodes[t]) { assert OrdinaryAt(nodes, t, e); }
      }
      assert Formatted(nodes', t);
    }
  }

  lemma EntryNamings(nodes: seq<Node>, cur: nat, d: Dirent, nd: Node, t: nat)
    requires IsDirNode(nodes, cur) && nd.kind == T_DIR && ECount(nodes[cur]) >= 2
    requires ECount(nd) == ECount(nodes[cur]) + 1 && EntryAt(nd, ECount(nodes[cur])) == d
    requires forall e :: 0 <= e < ECount(nodes[cur]) ==> EntryAt(nd, e) == EntryAt(nodes[cur], e)
    ensures Namings(nodes[cur := nd], t) ==
            if t == d.inum then Namings(nodes, t) + {EPos(cur, ECount(nodes[cur]))} else Namings(nodes, t)
    ensures EPos(cur, ECount(nodes[cur])) !in Namings(nodes, t)
  {
    hide EntryAt, ECount;
    var nodes', q := nodes[cur := nd], EPos(cur, ECount(nodes[cur]));
    assert forall p :: NamesNode(nodes', p, t) <==> NamesNode(nodes, p, t) || (p == q && t == d.inum);
  }
}
