/** The host directory tree that mkfs copies, what copying it costs, and what
    it means for the allocated inodes to hold it. */
module HostTree {
  import opened Layout
  import opened FsImage
  import opened Bytes
  import opened Volume
  import opened Nodes

  /** One host directory entry: a directory with its own entries, or a file with its host inode. */
  datatype Item = DirItem(name: seq<byte>, children: seq<Item>) | FileItem(name: seq<byte>, host: nat)

  /** Contents of a host file, by host inode. */
  type Host = nat -> seq<byte>

  /** add_dir skips the host's own "." and "..". */
  predicate Kept(it: Item) { it.name != DOT && it.name != DOTDOT }

  function KeptCount(items: seq<Item>): nat {
    if items == [] then 0
    else KeptCount(items[..|items| - 1]) + if Kept(items[|items| - 1]) then 1 else 0
  }

  /** Kept directories among the items. */
  function Subdirs(items: seq<Item>): nat {
    if items == [] then 0
    else Subdirs(items[..|items| - 1]) + if IsSubdir(items[|items| - 1]) then 1 else 0
  }

  predicate IsSubdir(it: Item) { Kept(it) && it.DirItem? }

  /** Host names hold no NUL byte. */
  predicate NamesOk(items: seq<Item>) {
    forall n :: 0 <= n < |items| ==> ItemNamesOk(items[n])
  }

  predicate ItemNamesOk(it: Item) {
    && (forall j :: 0 <= j < |it.name| ==> it.name[j] != 0)
    && match it case DirItem(_, children) => NamesOk(children) case FileItem(_, _) => true
  }

  /* ---- cost ---- */

  /** Inodes that copying takes when no file is found already linked. */
  function InodesOf(items: seq<Item>): nat {
    if items == [] then 0 else InodesOf(items[..|items| - 1]) + ItemInodes(items[|items| - 1])
  }

  function ItemInodes(it: Item): nat {
    if !Kept(it) then 0
    else match it case DirItem(_, children) => 1 + InodesOf(children) case FileItem(_, _) => 1
  }

  /** Bytes of a directory with these entries. */
  function DirLen(items: seq<Item>): nat { 16 * (2 + KeptCount(items)) }

  /** Blocks for a directory's own entries and for all below it. */
  function DirBlocks(items: seq<Item>, host: Host): nat
    decreases items, 1
  {
    BlocksFor(DirLen(items)) + ChildBlocks(items, host)
  }

  function ChildBlocks(items: seq<Item>, host: Host): nat
    decreases items, 0
  {
    if items == [] then 0
    else ChildBlocks(items[..|items| - 1], host) + ItemBlocks(items[|items| - 1], host)
  }

  function ItemBlocks(it: Item, host: Host): nat {
    if !Kept(it) then 0
    else match it case DirItem(_, children) => DirBlocks(children, host) case FileItem(_, h) => BlocksFor(|host(h)|)
  }

  /** Directories that copying makes. */
  function DirCount(items: seq<Item>): nat {
    if items == [] then 0 else DirCount(items[..|items| - 1]) + ItemDirs(items[|items| - 1])
  }

  function ItemDirs(it: Item): nat {
    if IsSubdir(it) then 1 + DirCount(it.children) else 0
  }

  /** Blocks for the entries of a directory and of the directories below it. */
  function OwnBlocks(items: seq<Item>): nat
    decreases items, 1
  {
    BlocksFor(DirLen(items)) + SubBlocks(items)
  }

  function SubBlocks(items: seq<Item>): nat
    decreases items, 0
  {
    if items == [] then 0 else SubBlocks(items[..|items| - 1]) + ItemOwn(items[|items| - 1])
  }

  function ItemOwn(it: Item): nat {
    if IsSubdir(it) then OwnBlocks(it.children) else 0
  }

  /** The host files a tree names. */
  function Hosts(items: seq<Item>): set<nat> {
    set n, h | 0 <= n < |items| && h in ItemHosts(items[n]) :: h
  }

  function ItemHosts(it: Item): set<nat> {
    if !Kept(it) then {}
    else match it case DirItem(_, children) => Hosts(children) case FileItem(_, h) => {h}
  }

  /** Blocks for the contents of a set of host files, each stored once. */
  ghost function HostBlocks(S: set<nat>, host: Host): nat {
    if S == {} then 0
    else
      var h :| h in S;
      BlocksFor(|host(h)|) + HostBlocks(S - {h}, host)
  }

  lemma {:induction false} HostBlocksAdd(S: set<nat>, h: nat, host: Host)
    requires h !in S
    ensures HostBlocks(S + {h}, host) == HostBlocks(S, host) + BlocksFor(|host(h)|)
    decreases |S|
  {
    hide BlocksFor;
    var S' := S + {h};
    var g :| g in S' && HostBlocks(S', host) == BlocksFor(|host(g)|) + HostBlocks(S' - {g}, host);
    if g == h {
      assert S' - {h} == S;
    } else {
      assert S' - {g} == (S - {g}) + {h};
      HostBlocksAdd(S - {g}, h, host);
      assert (S - {g}) + {g} == S;
      HostBlocksAdd(S - {g}, g, host);
    }
  }

  lemma {:induction false} HostBlocksDisjoint(A: set<nat>, B: set<nat>, host: Host)
    requires A !! B
    ensures HostBlocks(A + B, host) == HostBlocks(A, host) + HostBlocks(B, host)
    decreases |B|
  {
    if B == {} {
      assert A + B == A;
    } else {
      hide BlocksFor, HostBlocks;
      var h :| h in B;
      var B' := B - {h};
      OneOut(A, B, h);
      HostBlocksDisjoint(A, B', host);
      HostBlocksAdd(B', h, host);
      HostBlocksAdd(A + B', h, host);
    }
  }

  lemma OneOut(A: set<nat>, B: set<nat>, h: nat)
    requires A !! B && h in B
    ensures A !! B - {h} && h !in A + (B - {h})
    ensures B - {h} + {h} == B && A + (B - {h}) + {h} == A + B
  {}

  lemma HostBlocksUnion(A: set<nat>, B: set<nat>, host: Host)
    ensures HostBlocks(A + B, host) <= HostBlocks(A, host) + HostBlocks(B, host)
    ensures A !! B ==> HostBlocks(A + B, host) == HostBlocks(A, host) + HostBlocks(B, host)
    ensures HostBlocks(A, host) <= HostBlocks(A + B, host)
  {
    hide HostBlocks;
    HostBlocksDisjoint(A, B - A, host);
    HostBlocksDisjoint(B - A, A * B, host);
    assert A + (B - A) == A + B && (B - A) + (A * B) == B;
    if A !! B { HostBlocksDisjoint(A, B, host); }
  }

  /** No host file has two names in the tree. */
  predicate Unshared(items: seq<Item>) {
    && (forall n :: 0 <= n < |items| ==> ItemUnshared(items[n]))
    && (forall m, n :: 0 <= m < n < |items| ==> ItemHosts(items[m]) !! ItemHosts(items[n]))
  }

  predicate ItemUnshared(it: Item) {
    IsSubdir(it) ==> Unshared(it.children)
  }

  lemma HostsSplit(items: seq<Item>)
    requires items != []
    ensures var init, last := items[..|items| - 1], items[|items| - 1];
            && Hosts(items) == Hosts(init) + ItemHosts(last)
            && (Unshared(items) ==> Unshared(init) && ItemUnshared(last) && Hosts(init) !! ItemHosts(last))
  {
    hide ItemHosts, ItemUnshared;
    var init, last := items[..|items| - 1], items[|items| - 1];
    forall h | h in Hosts(items) ensures h in Hosts(init) + ItemHosts(last) {
      var n :| 0 <= n < |items| && h in ItemHosts(items[n]);
      if n < |init| { assert h in ItemHosts(init[n]); }
    }
    forall h | h in Hosts(init) ensures h in Hosts(items) {
      var n :| 0 <= n < |init| && h in ItemHosts(init[n]);
      assert h in ItemHosts(items[n]);
    }
    forall h | h in ItemHosts(last) ensures h in Hosts(items) { assert h in ItemHosts(items[|items| - 1]); }
  }

  /** A file counted once per name costs at least as much as once per file, and as
      much when no file has two names. */
  lemma {:induction false} SharingCosts(items: seq<Item>, host: Host)
    ensures DirCount(items) + |Hosts(items)| <= InodesOf(items)
    ensures SubBlocks(items) + HostBlocks(Hosts(items), host) <= ChildBlocks(items, host)
    ensures Unshared(items) ==> DirCount(items) + |Hosts(items)| == InodesOf(items)
    ensures Unshared(items) ==> SubBlocks(items) + HostBlocks(Hosts(items), host) == ChildBlocks(items, host)
    decreases items
  {
    if items == [] {
      assert Hosts(items) == {};
    } else {
      var init, last := items[..|items| - 1], items[|items| - 1];
      hide Hosts, ItemHosts, HostBlocks, Unshared, ItemUnshared, ItemDirs, ItemOwn, ItemInodes, ItemBlocks;
      HostsSplit(items);
      SharingCosts(init, host);
      ItemSharing(last, host);
      HostBlocksUnion(Hosts(init), ItemHosts(last), host);
      UnionCard(Hosts(init), ItemHosts(last));
    }
  }

  lemma {:induction false} ItemSharing(it: Item, host: Host)
    ensures ItemDirs(it) + |ItemHosts(it)| <= ItemInodes(it)
    ensures ItemOwn(it) + HostBlocks(ItemHosts(it), host) <= ItemBlocks(it, host)
    ensures ItemUnshared(it) ==> ItemDirs(it) + |ItemHosts(it)| == ItemInodes(it)
    ensures ItemUnshared(it) ==> ItemOwn(it) + HostBlocks(ItemHosts(it), host) == ItemBlocks(it, host)
    decreases it
  {
    hide BlocksFor;
    if IsSubdir(it) {
      SharingCosts(it.children, host);
    } else if Kept(it) {
      HostBlocksAdd({}, it.host, host);
      assert {} + {it.host} == {it.host};
    }
  }

  lemma UnionCard(A: set<nat>, B: set<nat>)
    ensures |A + B| <= |A| + |B|
    ensures A !! B ==> |A + B| == |A| + |B|
  {
    assert A + B == A + (B - A);
    assert B == (B - A) + (A * B);
  }

  /** Every file and every directory fits in 140 blocks. */
  predicate SizesOk(items: seq<Item>, host: Host) {
    DirLen(items) <= 71680 && forall n :: 0 <= n < |items| ==> ItemSizeOk(items[n], host)
  }

  predicate ItemSizeOk(it: Item, host: Host) {
    !Kept(it) || match it case DirItem(_, children) => SizesOk(children, host) case FileItem(_, h) => |host(h)| <= 71680
  }

  /** No directory's entry count, "." and ".." included, is a multiple of 32. */
  predicate NoFullBlock(items: seq<Item>) {
    (2 + KeptCount(items)) % 32 != 0 && forall n :: 0 <= n < |items| ==> ItemNotFull(items[n])
  }

  predicate ItemNotFull(it: Item) {
    !Kept(it) || match it case DirItem(_, children) => NoFullBlock(children) case FileItem(_, _) => true
  }

  lemma {:induction false} PrefixCosts(items: seq<Item>, host: Host, n: nat)
    requires n <= |items|
    ensures KeptCount(items[..n]) <= KeptCount(items)
    ensures ChildBlocks(items[..n], host) <= ChildBlocks(items, host)
    ensures InodesOf(items[..n]) <= InodesOf(items)
    decreases |items|
  {
    if n < |items| {
      var init := items[..|items| - 1];
      PrefixCosts(init, host, n);
      assert init[..n] == items[..n];
    } else {
      assert items[..n] == items;
    }
  }

  lemma NextPrefix(items: seq<Item>, host: Host, n: nat)
    requires n < |items|
    ensures KeptCount(items[..n + 1]) == KeptCount(items[..n]) + if Kept(items[n]) then 1 else 0
    ensures ChildBlocks(items[..n + 1], host) == ChildBlocks(items[..n], host) + ItemBlocks(items[n], host)
    ensures InodesOf(items[..n + 1]) == InodesOf(items[..n]) + ItemInodes(items[n])
    ensures Subdirs(items[..n + 1]) == Subdirs(items[..n]) + if IsSubdir(items[n]) then 1 else 0
    ensures DirCount(items[..n + 1]) == DirCount(items[..n]) + ItemDirs(items[n])
    ensures SubBlocks(items[..n + 1]) == SubBlocks(items[..n]) + ItemOwn(items[n])
  {
    assert items[..n + 1][..n] == items[..n];
  }

  /** The name field of a kept item never reads as "." or "..". */
  lemma KeptIsOrdinary(it: Item, t: nat)
    requires Kept(it) && ItemNamesOk(it) && t != 0
    ensures OrdinaryEntry(Dirent(t, PadName(it.name)))
  {
    PadNameReads(it.name);
  }

  /* ---- what the inodes hold ---- */

  /** Directory `dir` holds the kept items in order, after "." and "..", and has two links and one per subdirectory. */
  ghost predicate Represents(nodes: seq<Node>, dir: nat, items: seq<Item>, host: Host)
    decreases items
  {
    && IsDirNode(nodes, dir) && ECount(nodes[dir]) == 2 + KeptCount(items) && nodes[dir].nlink == 2 + Subdirs(items)
    && forall n :: 0 <= n < |items| && Kept(items[n]) ==>
         2 + KeptCount(items[..n]) < ECount(nodes[dir])
         && ItemHeld(nodes, EntryAt(nodes[dir], 2 + KeptCount(items[..n])), items[n], host)
  }

  /** Entry d has the item's name and leads to its contents. */
  ghost predicate ItemHeld(nodes: seq<Node>, d: Dirent, it: Item, host: Host)
    decreases it
  {
    && d.name == PadName(it.name) && 1 <= d.inum < |nodes|
    && match it
       case DirItem(_, children) =>
         nodes[d.inum].closed && Represents(nodes, d.inum, children, host)
       case FileItem(_, h) =>
         nodes[d.inum].kind == T_FILE && nodes[d.inum].host == h && nodes[d.inum].data == host(h)
  }

  /** Only directory cur may have gained entries; other inodes keep all but their
      link counts, and closed directories keep those too. */
  ghost predicate Agree(nodes: seq<Node>, nodes': seq<Node>, cur: nat) {
    && |nodes| <= |nodes'|
    && forall j :: 0 <= j < |nodes| && j != cur ==>
         nodes'[j] == nodes[j].(nlink := nodes'[j].nlink) && (nodes[j].closed ==> nodes'[j] == nodes[j])
  }

  /** Directories other than a and b keep their link counts. */
  ghost predicate LinksKept(nodes: seq<Node>, nodes': seq<Node>, a: nat, b: nat)
    requires |nodes| <= |nodes'|
  {
    forall j :: 0 <= j < |nodes| && j != a && j != b && nodes[j].kind == T_DIR ==> nodes'[j].nlink == nodes[j].nlink
  }

  lemma {:induction false} HeldFrame(nodes: seq<Node>, nodes': seq<Node>, cur: nat, d: Dirent, it: Item, host: Host)
    requires Agree(nodes, nodes', cur) && ItemHeld(nodes, d, it, host)
    requires IsDirNode(nodes, cur) && !nodes[cur].closed
    ensures ItemHeld(nodes', d, it, host)
    decreases it
  {
    if it.DirItem? { RepresentsFrame(nodes, nodes', cur, d.inum, it.children, host); }
  }

  lemma {:induction false} RepresentsFrame(nodes: seq<Node>, nodes': seq<Node>, cur: nat, dir: nat,
                                           items: seq<Item>, host: Host)
    requires Agree(nodes, nodes', cur) && Represents(nodes, dir, items, host) && nodes[dir].closed
    requires IsDirNode(nodes, cur) && !nodes[cur].closed
    ensures Represents(nodes', dir, items, host)
    decreases items
  {
    hide DecodeDirent;
    forall n | 0 <= n < |items| && Kept(items[n])
      ensures 2 + KeptCount(items[..n]) < ECount(nodes'[dir])
      ensures ItemHeld(nodes', EntryAt(nodes'[dir], 2 + KeptCount(items[..n])), items[n], host)
    {
      HeldFrame(nodes, nodes', cur, EntryAt(nodes[dir], 2 + KeptCount(items[..n])), items[n], host);
    }
  }

  /** A finished file holds its host file's bytes. */
  ghost predicate FilesOk(nodes: seq<Node>, host: Host) {
    forall t :: 1 <= t < |nodes| && nodes[t].kind == T_FILE ==> nodes[t].data == host(nodes[t].host)
  }

  /** Between entries: the tree invariant holds, and only directories still being filled are owed an entry. */
  ghost predicate Growing(nodes: seq<Node>, owed: set<nat>, host: Host) {
    && TreeOk(nodes, owed) && FilesOk(nodes, host)
    && (forall t :: t in owed ==> IsDirNode(nodes, t))
    && (forall j: nat :: IsDirNode(nodes, j) ==> nodes[j].nlink <= |nodes| + 1)
  }

  /** The host files that inodes have been made for. */
  ghost function FileHosts(nodes: seq<Node>): set<nat> {
    set t | 1 <= t < |nodes| && nodes[t].kind == T_FILE :: nodes[t].host
  }

  /** Inodes, and blocks, in use beyond one copy of each of those files. */
  ghost function Spent(nodes: seq<Node>): int { |nodes| - |FileHosts(nodes)| }

  ghost function SpentBlocks(nodes: seq<Node>, fb: nat, host: Host): int {
    fb - HostBlocks(FileHosts(nodes), host)
  }

  /** Appending, linking and rounding make no inode for a host file, and neither does a new directory. */
  lemma SameFileHosts(nodes: seq<Node>, nodes': seq<Node>)
    requires |nodes| <= |nodes'| && forall j :: |nodes| <= j < |nodes'| ==> nodes'[j].kind == T_DIR
    requires forall j :: 0 <= j < |nodes| ==> nodes'[j].kind == nodes[j].kind && nodes'[j].host == nodes[j].host
    ensures FileHosts(nodes') == FileHosts(nodes)
  {
    assert T_DIR != T_FILE;
    forall h | h in FileHosts(nodes') ensures h in FileHosts(nodes) {
      var t :| 1 <= t < |nodes'| && nodes'[t].kind == T_FILE && nodes'[t].host == h;
      assert nodes[t].host == h;
    }
    forall h | h in FileHosts(nodes) ensures h in FileHosts(nodes') {
      var t :| 1 <= t < |nodes| && nodes[t].kind == T_FILE && nodes[t].host == h;
      assert nodes'[t].host == h;
    }
  }

  /** A new inode for host file h, with its contents, costs no more than the file does. */
  lemma NewFileSpent(nodes: seq<Node>, nodes': seq<Node>, fb: nat, h: nat, host: Host)
    requires |nodes| >= 1 && |nodes'| == |nodes| + 1 && nodes'[..|nodes|] == nodes
    requires nodes'[|nodes|].kind == T_FILE && nodes'[|nodes|].host == h
    ensures Spent(nodes') >= Spent(nodes)
    ensures SpentBlocks(nodes', fb + BlocksFor(|host(h)|), host) >= SpentBlocks(nodes, fb, host)
  {
    hide BlocksFor;
    var S := FileHosts(nodes);
    forall g | g in FileHosts(nodes') ensures g in S || g == h {
      var t :| 1 <= t < |nodes'| && nodes'[t].kind == T_FILE && nodes'[t].host == g;
      if t < |nodes| { assert nodes[t] == nodes'[t]; }
    }
    forall g | g in S ensures g in FileHosts(nodes') {
      var t :| 1 <= t < |nodes| && nodes[t].kind == T_FILE && nodes[t].host == g;
      assert nodes'[t] == nodes[t];
    }
    assert h in FileHosts(nodes');
    assert FileHosts(nodes') == S + {h};
    if h !in S {
      HostBlocksAdd(S, h, host);
    } else {
      assert S + {h} == S;
    }
  }

  /** What holds a tree holds all its files. */
  lemma {:induction false} HostsHeld(nodes: seq<Node>, dir: nat, items: seq<Item>, host: Host)
    requires Represents(nodes, dir, items, host)
    ensures Hosts(items) <= FileHosts(nodes)
    decreases items
  {
    hide EntryAt;
    forall h | h in Hosts(items) ensures h in FileHosts(nodes) {
      var n :| 0 <= n < |items| && h in ItemHosts(items[n]);
      var d := EntryAt(nodes[dir], 2 + KeptCount(items[..n]));
      assert ItemHeld(nodes, d, items[n], host);
      if items[n].DirItem? {
        HostsHeld(nodes, d.inum, items[n].children, host);
      } else {
        assert nodes[d.inum].host == h;
      }
    }
  }

  /** And within the limit on the length of one inode. */
  lemma {:induction false} SizesHeld(nodes: seq<Node>, dir: nat, items: seq<Item>, host: Host)
    requires Represents(nodes, dir, items, host)
    requires forall t :: 1 <= t < |nodes| ==> |nodes[t].data| <= 71680
    ensures SizesOk(items, host)
    decreases items
  {
    hide EntryAt;
    forall n | 0 <= n < |items| ensures ItemSizeOk(items[n], host) {
      if Kept(items[n]) {
        var d := EntryAt(nodes[dir], 2 + KeptCount(items[..n]));
        assert ItemHeld(nodes, d, items[n], host);
        if items[n].DirItem? { SizesHeld(nodes, d.inum, items[n].children, host); }
      }
    }
  }

  /** Every directory made from inode lo on has a partly filled last block. */
  ghost predicate NotFullFrom(nodes: seq<Node>, lo: nat) {
    forall j: nat :: lo <= j && IsDirNode(nodes, j) ==> ECount(nodes[j]) % 32 != 0
  }

  /** The first n items are in place in directory cur. */
  ghost predicate HeldTo(nodes: seq<Node>, cur: nat, items: seq<Item>, n: nat, host: Host)
    requires cur < |nodes| && n <= |items|
  {
    && ECount(nodes[cur]) == 2 + KeptCount(items[..n])
    && forall m :: 0 <= m < n && Kept(items[m]) ==>
         2 + KeptCount(items[..m]) < ECount(nodes[cur])
         && ItemHeld(nodes, EntryAt(nodes[cur], 2 + KeptCount(items[..m])), items[m], host)
  }

  /** Directory cur gained one entry, and all it had before stayed. */
  ghost predicate GainedEntry(nodes: seq<Node>, nodes': seq<Node>, cur: nat)
    requires cur < |nodes| && cur < |nodes'|
  {
    && ECount(nodes'[cur]) == ECount(nodes[cur]) + 1
    && forall e :: 0 <= e < ECount(nodes[cur]) ==> EntryAt(nodes'[cur], e) == EntryAt(nodes[cur], e)
  }

  lemma HeldNext(nodes: seq<Node>, nodes': seq<Node>, cur: nat, items: seq<Item>, n: nat, host: Host)
    requires n < |items| && IsDirNode(nodes, cur) && !nodes[cur].closed && IsDirNode(nodes', cur)
    requires HeldTo(nodes, cur, items, n, host) && Agree(nodes, nodes', cur) && Kept(items[n])
    requires GainedEntry(nodes, nodes', cur)
    requires ItemHeld(nodes', EntryAt(nodes'[cur], ECount(nodes[cur])), items[n], host)
    ensures HeldTo(nodes', cur, items, n + 1, host)
  {
    hide EntryAt, ItemHeld;
    NextPrefix(items, host, n);
    forall m | 0 <= m < n + 1 && Kept(items[m])
      ensures 2 + KeptCount(items[..m]) < ECount(nodes'[cur])
      ensures ItemHeld(nodes', EntryAt(nodes'[cur], 2 + KeptCount(items[..m])), items[m], host)
    {
      if m < n {
        HeldFrame(nodes, nodes', cur, EntryAt(nodes[cur], 2 + KeptCount(items[..m])), items[m], host);
      }
    }
  }

  lemma HeldSkip(nodes: seq<Node>, cur: nat, items: seq<Item>, n: nat, host: Host)
    requires n < |items| && cur < |nodes| && HeldTo(nodes, cur, items, n, host) && !Kept(items[n])
    ensures HeldTo(nodes, cur, items, n + 1, host)
  {
    hide EntryAt, ItemHeld;
    NextPrefix(items, host, n);
  }

  lemma HeldAll(nodes: seq<Node>, nodes': seq<Node>, cur: nat, items: seq<Item>, host: Host)
    requires IsDirNode(nodes, cur) && !nodes[cur].closed && HeldTo(nodes, cur, items, |items|, host)
    requires nodes[cur].nlink == 2 + Subdirs(items)
    requires nodes' == nodes[cur := nodes[cur].(closed := true)]
    ensures Represents(nodes', cur, items, host)
  {
    hide EntryAt, ItemHeld;
    assert items[..|items|] == items;
    forall m | 0 <= m < |items| && Kept(items[m])
      ensures ItemHeld(nodes', EntryAt(nodes'[cur], 2 + KeptCount(items[..m])), items[m], host)
    {
      HeldFrame(nodes, nodes', cur, EntryAt(nodes[cur], 2 + KeptCount(items[..m])), items[m], host);
      assert EntryAt(nodes'[cur], 2 + KeptCount(items[..m])) == EntryAt(nodes[cur], 2 + KeptCount(items[..m])) by {
        SameEntry(nodes[cur], nodes'[cur], 2 + KeptCount(items[..m]));
      }
    }
  }

  lemma SameEntry(nd: Node, nd': Node, e: nat)
    requires nd'.data == nd.data && e < ECount(nd)
    ensures EntryAt(nd', e) == EntryAt(nd, e)
  {}

  /** Directories made up to now are untouched by what comes later. */
  lemma NotFullSplit(nodes: seq<Node>, nodes': seq<Node>, cur: nat, lo: nat)
    requires Agree(nodes, nodes', cur) && cur < lo <= |nodes|
    ensures NotFullFrom(nodes', lo) <==> NotFullFrom(nodes, lo) && NotFullFrom(nodes', |nodes|)
  {
    assert forall j: nat :: lo <= j < |nodes| ==>
      (IsDirNode(nodes', j) <==> IsDirNode(nodes, j)) && nodes'[j].data == nodes[j].data;
    if NotFullFrom(nodes', lo) {
      forall j: nat | lo <= j && IsDirNode(nodes, j) ensures ECount(nodes[j]) % 32 != 0 { assert IsDirNode(nodes', j); }
    }
    if NotFullFrom(nodes, lo) && NotFullFrom(nodes', |nodes|) {
      forall j: nat | lo <= j && IsDirNode(nodes', j) ensures ECount(nodes'[j]) % 32 != 0 {
        if j < |nodes| { assert IsDirNode(nodes, j); }
      }
    }
  }

  /* ---- the steps of add_dir, between stable points ---- */

  function DotBytes(cur: nat): seq<byte> { EncodeDirent(Dirent(cur, PadName(DOT))) }

  function DotDotBytes(parent: nat): seq<byte> { EncodeDirent(Dirent(parent, PadName(DOTDOT))) }

  /** The nodes once cur holds "." and ".." and its parent has one more link. */
  function Begun(nodes: seq<Node>, cur: nat, parent: nat): seq<Node>
    requires cur < |nodes| && parent < |nodes|
  {
    var linked := if cur != parent then nodes[parent := nodes[parent].(nlink := nodes[parent].nlink + 1)] else nodes;
    linked[cur := linked[cur].(data := DotBytes(cur) + DotDotBytes(parent))]
  }

  /** Directory cur can be filled, below parent. */
  ghost predicate CanBegin(nodes: seq<Node>, owed: set<nat>, cur: nat, parent: nat) {
    && IsDirNode(nodes, cur) && cur in owed && nodes[cur].data == [] && !nodes[cur].closed && nodes[cur].nlink == 2
    && IsDirNode(nodes, parent)
    && (cur == parent == ROOTINO
        || (parent < cur && nodes[parent].data != [] && !nodes[parent].closed && nodes[parent].nlink <= |nodes|))
  }

  lemma BeginGrows(nodes: seq<Node>, owed: set<nat>, cur: nat, parent: nat, host: Host)
    requires Growing(nodes, owed, host) && CanBegin(nodes, owed, cur, parent)
    ensures Growing(Begun(nodes, cur, parent), owed, host)
    ensures Agree(nodes, Begun(nodes, cur, parent), cur)
    ensures IsDirNode(Begun(nodes, cur, parent), cur) && !Begun(nodes, cur, parent)[cur].closed
    ensures ECount(Begun(nodes, cur, parent)[cur]) == 2 && ParentOf(Begun(nodes, cur, parent), cur) == parent
  {
    hide NodeOk, ParentsAgree, Formatted, EntryAt, EncodeDirent;
    var linked := nodes;
    if cur != parent {
      linked := nodes[parent := nodes[parent].(nlink := nodes[parent].nlink + 1)];
      assert nodes[parent].kind == T_DIR && T_DIR != T_FILE;
      MetaStep(nodes, owed, parent, linked[parent], owed);
    }
    BeginStep(linked, owed, cur, parent, Begun(nodes, cur, parent)[cur]);
    assert forall j: nat :: IsDirNode(Begun(nodes, cur, parent), j) ==> IsDirNode(nodes, j);
  }

  lemma AllocDirGrows(nodes: seq<Node>, owed: set<nat>, host: Host, nd: Node)
    requires Growing(nodes, owed, host) && 1 <= |nodes| < 65536
    requires nd.kind == T_DIR && nd.data == [] && !nd.closed && nd.nlink == 2
    ensures Growing(nodes + [nd], owed + {|nodes|}, host)
  {
    hide NodeOk, ParentsAgree;
    AllocStep(nodes, owed, nd);
    var nodes' := nodes + [nd];
    forall j: nat | IsDirNode(nodes', j) ensures nodes'[j].nlink <= |nodes'| + 1 {
      if j < |nodes| { assert IsDirNode(nodes, j); }
    }
  }

  /** Inode t holds the item and is owed its entry in directory cur. */
  ghost predicate Filled(nodes: seq<Node>, owed: set<nat>, cur: nat, t: nat, it: Item, host: Host) {
    && TreeOk(nodes, owed + {t}) && FilesOk(nodes, host) && t !in owed && 1 <= t < |nodes|
    && (forall x :: x in owed ==> IsDirNode(nodes, x))
    && (forall j: nat :: IsDirNode(nodes, j) ==> nodes[j].nlink <= |nodes| + 1)
    && ItemHeld(nodes, Dirent(t, PadName(it.name)), it, host)
    && (nodes[t].kind == T_DIR ==> ECount(nodes[t]) >= 2 && nodes[t].closed && ParentOf(nodes, t) == cur)
  }

  /** Appending the entry of inode t, owed until now, to directory cur. */
  lemma EntryGrows(nodes: seq<Node>, owed: set<nat>, cur: nat, t: nat, it: Item, host: Host, nodes': seq<Node>)
    requires Filled(nodes, owed, cur, t, it, host) && Kept(it) && ItemNamesOk(it)
    requires IsDirNode(nodes, cur) && cur in owed && nodes[cur].data != [] && !nodes[cur].closed
    requires nodes' == nodes[cur := nodes[cur].(data := nodes[cur].data + EncodeDirent(Dirent(t, PadName(it.name))))]
    ensures Growing(nodes', owed, host) && GainedEntry(nodes, nodes', cur) && Agree(nodes, nodes', cur)
    ensures ItemHeld(nodes', EntryAt(nodes'[cur], ECount(nodes[cur])), it, host)
  {
    hide NodeOk, ParentsAgree, EntryAt, EncodeDirent, OrdinaryEntry, ItemHeld;
    var d := Dirent(t, PadName(it.name));
    KeptIsOrdinary(it, t);
    EntryStep(nodes, owed + {t}, cur, d, nodes'[cur]);
    assert owed + {t} - {t} == owed;
    HeldFrame(nodes, nodes', cur, d, it, host);
    assert forall j: nat :: IsDirNode(nodes', j) <==> IsDirNode(nodes, j);
  }

  /** Rounding the finished directory's size. */
  lemma CloseGrows(nodes: seq<Node>, owed: set<nat>, cur: nat, host: Host)
    requires Growing(nodes, owed, host) && IsDirNode(nodes, cur) && nodes[cur].data != []
    ensures Growing(nodes[cur := nodes[cur].(closed := true)], owed, host)
  {
    hide NodeOk, ParentsAgree;
    assert T_DIR != T_FILE;
    var nodes' := nodes[cur := nodes[cur].(closed := true)];
    MetaStep(nodes, owed, cur, nodes'[cur], owed);
    assert forall j: nat :: IsDirNode(nodes', j) <==> IsDirNode(nodes, j);
  }

  lemma HeldNone(nodes: seq<Node>, cur: nat, items: seq<Item>, host: Host)
    requires cur < |nodes| && ECount(nodes[cur]) == 2
    ensures HeldTo(nodes, cur, items, 0, host)
  {}

  /** Later entries cost at least as much as the next one. */
  lemma MoreDirBlocks(items: seq<Item>, n: nat)
    requires n < |items| && Kept(items[n]) && KeptCount(items[..n]) + 1 <= KeptCount(items)
    ensures DirLen(items[..n]) + 16 <= DirLen(items)
    ensures BlocksFor(DirLen(items[..n]) + 16) <= BlocksFor(DirLen(items))
  {}

  lemma NotFullChild(nodes: seq<Node>, nodes': seq<Node>, child: nat)
    requires |nodes| == child + 1 <= |nodes'| && IsDirNode(nodes', child)
    ensures NotFullFrom(nodes', child) <==> ECount(nodes'[child]) % 32 != 0 && NotFullFrom(nodes', child + 1)
  {}

  lemma NotFullSame(nodes: seq<Node>, nodes': seq<Node>, cur: nat, lo: nat)
    requires Agree(nodes, nodes', cur) && cur < lo <= |nodes| && |nodes'| == |nodes|
    ensures NotFullFrom(nodes', lo) <==> NotFullFrom(nodes, lo)
  {
    NotFullSplit(nodes, nodes', cur, lo);
    assert NotFullFrom(nodes', |nodes|);
  }

  lemma NotFullClose(nodes: seq<Node>, cur: nat, lo: nat)
    requires cur < lo <= |nodes|
    ensures NotFullFrom(nodes[cur := nodes[cur].(closed := true)], lo) <==> NotFullFrom(nodes, lo)
  {
    NotFullSame(nodes, nodes[cur := nodes[cur].(closed := true)], cur, lo);
  }

  lemma GainedFrom(a: seq<Node>, b: seq<Node>, c: seq<Node>, cur: nat)
    requires cur < |a| && cur < |b| && cur < |c| && b[cur].data == a[cur].data && GainedEntry(b, c, cur)
    ensures GainedEntry(a, c, cur)
  {
    hide DecodeDirent;
  }

  /** add_dir's loop: where it stands after n items of directory cur, having
      started from `before` with free block fb. */
  ghost predicate DirProgress(before: seq<Node>, fb: nat, nodes: seq<Node>, freeblock: nat, owed: set<nat>,
                              cur: nat, parent: nat, items: seq<Item>, n: nat, host: Host)
    requires n <= |items|
  {
    && Growing(nodes, owed, host) && Agree(before, nodes, cur) && cur < |before|
    && IsDirNode(nodes, cur) && cur in owed && !nodes[cur].closed && |nodes[cur].data| == DirLen(items[..n])
    && ECount(nodes[cur]) >= 2 && ParentOf(nodes, cur) == parent
    && LinksKept(before, nodes, cur, parent) && nodes[cur].nlink == 2 + Subdirs(items[..n])
    && (parent != cur ==> IsDirNode(before, parent) && nodes[parent].nlink == before[parent].nlink + 1)
    && HeldTo(nodes, cur, items, n, host)
    && |nodes| <= |before| + InodesOf(items[..n])
    && (NotFullFrom(nodes, |before|) <==> forall m :: 0 <= m < n ==> ItemNotFull(items[m]))
    && freeblock <= fb + BlocksFor(DirLen(items[..n])) + ChildBlocks(items[..n], host)
    && Spent(nodes) >= Spent(before) + DirCount(items[..n])
    && SpentBlocks(nodes, freeblock, host) >=
       SpentBlocks(before, fb, host) + BlocksFor(DirLen(items[..n])) + SubBlocks(items[..n])
  }

  lemma ProgressStart(before: seq<Node>, fb: nat, owed: set<nat>, cur: nat, parent: nat, items: seq<Item>, host: Host)
    requires Growing(before, owed, host) && CanBegin(before, owed, cur, parent)
    ensures DirProgress(before, fb, Begun(before, cur, parent), fb + 1, owed, cur, parent, items, 0, host)
  {
    hide TreeOk, FilesOk, EntryAt, EncodeDirent, HeldTo;
    BeginGrows(before, owed, cur, parent, host);
    HeldNone(Begun(before, cur, parent), cur, items, host);
    SameFileHosts(before, Begun(before, cur, parent));
    hide FileHosts, HostBlocks;
    assert items[..0] == [];
    assert NotFullFrom(Begun(before, cur, parent), |before|);
  }

  lemma ProgressSkip(before: seq<Node>, fb: nat, nodes: seq<Node>, freeblock: nat, owed: set<nat>,
                     cur: nat, parent: nat, items: seq<Item>, n: nat, host: Host)
    requires n < |items| && DirProgress(before, fb, nodes, freeblock, owed, cur, parent, items, n, host)
    requires !Kept(items[n])
    ensures DirProgress(before, fb, nodes, freeblock, owed, cur, parent, items, n + 1, host)
  {
    hide Growing, Agree, EntryAt, HeldTo, NotFullFrom, Spent, SpentBlocks;
    NextPrefix(items, host, n);
    HeldSkip(nodes, cur, items, n, host);
    assert ItemNotFull(items[n]);
  }

  lemma ProgressNext(before: seq<Node>, fb: nat, nodes: seq<Node>, freeblock: nat, nodes': seq<Node>, freeblock': nat,
                     owed: set<nat>, cur: nat, parent: nat, items: seq<Item>, n: nat, host: Host)
    requires n < |items| && DirProgress(before, fb, nodes, freeblock, owed, cur, parent, items, n, host)
    requires Kept(items[n]) && Growing(nodes', owed, host) && Agree(nodes, nodes', cur)
    requires IsDirNode(nodes', cur) && !nodes'[cur].closed && |nodes'[cur].data| == |nodes[cur].data| + 16
    requires GainedEntry(nodes, nodes', cur) && LinksKept(nodes, nodes', cur, cur)
    requires nodes'[cur].nlink == nodes[cur].nlink + if IsSubdir(items[n]) then 1 else 0
    requires ItemHeld(nodes', EntryAt(nodes'[cur], ECount(nodes[cur])), items[n], host)
    requires |nodes'| <= |nodes| + ItemInodes(items[n])
    requires NotFullFrom(nodes', |nodes|) <==> ItemNotFull(items[n])
    requires freeblock' <= freeblock + ItemBlocks(items[n], host)
                           + BlocksFor(|nodes'[cur].data|) - BlocksFor(|nodes'[cur].data| - 16)
    requires Spent(nodes') >= Spent(nodes) + ItemDirs(items[n])
    requires SpentBlocks(nodes', freeblock', host) >= SpentBlocks(nodes, freeblock, host) + ItemOwn(items[n])
                           + BlocksFor(|nodes'[cur].data|) - BlocksFor(|nodes'[cur].data| - 16)
    ensures DirProgress(before, fb, nodes', freeblock', owed, cur, parent, items, n + 1, host)
  {
    hide Growing, EntryAt, HeldTo, NotFullFrom, ItemHeld, BlocksFor, ItemNotFull, Spent, SpentBlocks;
    NextPrefix(items, host, n);
    HeldNext(nodes, nodes', cur, items, n, host);
    NotFullSplit(nodes, nodes', cur, |before|);
    AgreeTrans(before, nodes, nodes', cur);
  }

  lemma AgreeTrans(a: seq<Node>, b: seq<Node>, c: seq<Node>, cur: nat)
    requires Agree(a, b, cur) && Agree(b, c, cur)
    ensures Agree(a, c, cur)
  {}

  /** When every size fits and all blocks fit, so does the next item. */
  lemma NextFits(before: seq<Node>, fb: nat, nodes: seq<Node>, freeblock: nat, owed: set<nat>,
                 cur: nat, parent: nat, items: seq<Item>, n: nat, host: Host)
    requires n < |items| && DirProgress(before, fb, nodes, freeblock, owed, cur, parent, items, n, host)
    requires Kept(items[n]) && SizesOk(items, host) && fb + DirBlocks(items, host) <= SIZE
    ensures ItemSizeOk(items[n], host) && |nodes[cur].data| + 16 <= 71680
    ensures freeblock + ItemBlocks(items[n], host) + BlocksFor(|nodes[cur].data| + 16)
              <= SIZE + BlocksFor(|nodes[cur].data|)
  {
    hide Growing, Agree, EntryAt, HeldTo, NotFullFrom, BlocksFor, KeptCount, ChildBlocks, ItemBlocks, InodesOf;
    hide LinksKept, Subdirs, ItemNotFull, ItemSizeOk, ParentOf, Spent, SpentBlocks, DirCount, SubBlocks;
    NextPrefix(items, host, n);
    PrefixCosts(items, host, n + 1);
    MoreDirBlocks(items, n);
  }

  lemma NoFullBlockIs(items: seq<Item>)
    ensures NoFullBlock(items) <==>
            DirLen(items) / 16 % 32 != 0 && forall m :: 0 <= m < |items| ==> ItemNotFull(items[m])
  {}

  lemma ClosedSpent(nodes: seq<Node>, cur: nat, fb: nat, host: Host)
    requires cur < |nodes|
    ensures var nodes' := nodes[cur := nodes[cur].(closed := true)];
            Spent(nodes') == Spent(nodes) && SpentBlocks(nodes', fb, host) == SpentBlocks(nodes, fb, host)
  {
    SameFileHosts(nodes, nodes[cur := nodes[cur].(closed := true)]);
  }

  lemma ProgressEnd(before: seq<Node>, fb: nat, nodes: seq<Node>, freeblock: nat, owed: set<nat>,
                    cur: nat, parent: nat, items: seq<Item>, host: Host, nodes': seq<Node>)
    requires DirProgress(before, fb, nodes, freeblock, owed, cur, parent, items, |items|, host)
    requires nodes' == nodes[cur := nodes[cur].(closed := true)]
    ensures Growing(nodes', owed, host) && Agree(before, nodes', cur)
    ensures IsDirNode(nodes', cur) && nodes'[cur].closed && ECount(nodes'[cur]) >= 2 && ParentOf(nodes', cur) == parent
    ensures Represents(nodes', cur, items, host)
    ensures LinksKept(before, nodes', cur, parent)
    ensures parent != cur ==> parent < |before| && nodes'[parent].nlink == before[parent].nlink + 1
    ensures |nodes'| <= |before| + InodesOf(items)
    ensures (ECount(nodes'[cur]) % 32 != 0 && NotFullFrom(nodes', |before|)) <==> NoFullBlock(items)
    ensures freeblock <= fb + DirBlocks(items, host)
    ensures Spent(nodes') >= Spent(before) + DirCount(items)
    ensures SpentBlocks(nodes', freeblock, host) >= SpentBlocks(before, fb, host) + OwnBlocks(items)
  {
    hide Growing, EntryAt, HeldTo, NotFullFrom, Represents, NoFullBlock, BlocksFor, KeptCount, InodesOf, ChildBlocks;
    hide Spent, SpentBlocks, DirCount, SubBlocks;
    assert items[..|items|] == items;
    ClosedSpent(nodes, cur, freeblock, host);
    HeldAll(nodes, nodes', cur, items, host);
    CloseGrows(nodes, owed, cur, host);
    SameEntry(nodes[cur], nodes'[cur], 1);
    NotFullClose(nodes, cur, |before|);
    NoFullBlockIs(items);
  }

  /** What the loop's next step needs of the state it has reached. */
  lemma ProgressReady(before: seq<Node>, fb: nat, nodes: seq<Node>, freeblock: nat, owed: set<nat>,
                      cur: nat, parent: nat, items: seq<Item>, n: nat, host: Host)
    requires n <= |items| && DirProgress(before, fb, nodes, freeblock, owed, cur, parent, items, n, host)
    ensures Growing(nodes, owed, host) && IsDirNode(nodes, cur) && cur in owed
    ensures nodes[cur].data != [] && !nodes[cur].closed
    ensures n < |items| && |before| + InodesOf(items) <= NINODES ==> |nodes| + ItemInodes(items[n]) <= NINODES
    ensures n < |items| && Kept(items[n]) && SizesOk(items, host) && fb + DirBlocks(items, host) <= SIZE ==>
      ItemSizeOk(items[n], host) && |nodes[cur].data| + 16 <= 71680
      && freeblock + ItemBlocks(items[n], host) + BlocksFor(|nodes[cur].data| + 16)
           <= SIZE + BlocksFor(|nodes[cur].data|)
  {
    hide Growing, Agree, EntryAt, HeldTo, NotFullFrom, SizesOk, Spent, SpentBlocks;
    if n < |items| {
      NextPrefix(items, host, n);
      PrefixCosts(items, host, n + 1);
      if Kept(items[n]) && SizesOk(items, host) && fb + DirBlocks(items, host) <= SIZE {
        NextFits(before, fb, nodes, freeblock, owed, cur, parent, items, n, host);
      }
    }
  }
}
