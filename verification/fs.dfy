/** The in-memory file system (fs.cpp): a fixed array of nodes linked into a tree by indices. */
module FileTree {
  import opened Types

  const MAX_NODES: nat := 64
  const MAX_NAME: nat := 32
  const MAX_PATH: nat := 128
  const NONE := -1

  /** What one node means; its children are the later entries that name it as their parent. */
  datatype Entry = Entry(name: string, path: string, isDir: bool, parent: int, content: Option<seq<Byte>>)

  const ROOT := Entry("/", "/", true, NONE, None)

  predicate CString(s: string)
  {
    forall k :: 0 <= k < |s| ==> s[k] != '\0'
  }

  /** What vfs_mkdir and vfs_create need of a path: it and its last component fit the node's buffers. */
  predicate Fits(path: string)
  {
    CString(path) && |path| < MAX_PATH && |NameOf(path)| < MAX_NAME
  }

  // ----- paths

  function LastSlash(path: string): (r: int)
    ensures -1 <= r < |path|
    ensures r >= 0 ==> path[r] == '/'
    ensures forall k :: r < k < |path| ==> path[k] != '/'
  {
    if path == "" then -1
    else if path[|path| - 1] == '/' then |path| - 1
    else LastSlash(path[..|path| - 1])
  }

  function NameOf(path: string): string
  {
    path[LastSlash(path) + 1..]
  }

  /** The lowest entry with this path, or NONE. */
  function Find(tree: seq<Entry>, path: string): (r: int)
    ensures -1 <= r < |tree|
    ensures r >= 0 ==> tree[r].path == path
    ensures forall i :: 0 <= i < |tree| && (i < r || r < 0) ==> tree[i].path != path
  {
    if tree == [] then NONE
    else
      var last := |tree| - 1;
      var r := Find(tree[..last], path);
      if r >= 0 then r else if tree[last].path == path then last else NONE
  }

  /** A path whose only slash is in front, or that has none, belongs to the root. */
  function ParentOf(tree: seq<Entry>, path: string): int
  {
    var slash := LastSlash(path);
    if slash > 0 then Find(tree, path[..slash]) else 0
  }

  // ----- operations

  function Made(tree: seq<Entry>, path: string, isDir: bool): seq<Entry>
  {
    if |tree| >= MAX_NODES then tree else tree + [Entry(NameOf(path), path, isDir, ParentOf(tree, path), None)]
  }

  function Bytes(e: Entry): seq<Byte>
  {
    if e.content.Some? then e.content.value else []
  }

  predicate CanWrite(tree: seq<Entry>, fd: int, memory: bool)
  {
    0 <= fd < |tree| && !tree[fd].isDir && memory
  }

  function Written(tree: seq<Entry>, fd: int, data: seq<Byte>, memory: bool): seq<Entry>
  {
    if CanWrite(tree, fd, memory) then tree[fd := tree[fd].(content := Some(Bytes(tree[fd]) + data))] else tree
  }

  // ----- what every operation keeps

  /** The root comes first; every other entry is named after its path, and its parent is the entry that had the
      rest of the path when it was made. */
  ghost predicate WellFormed(tree: seq<Entry>)
  {
    && 1 <= |tree| <= MAX_NODES && tree[0] == ROOT
    && forall i :: 1 <= i < |tree| ==> Placed(tree, i)
  }

  ghost predicate Placed(tree: seq<Entry>, i: nat)
    requires i < |tree|
  {
    && tree[i].name == NameOf(tree[i].path)
    && tree[i].parent == ParentOf(tree[..i], tree[i].path)
    && (tree[i].isDir ==> tree[i].content == None)
  }

  datatype Event = Make(path: string, isDir: bool) | Write(fd: int, data: seq<Byte>, memory: bool)

  function Apply(tree: seq<Entry>, e: Event): seq<Entry>
  {
    match e
    case Make(path, isDir) => Made(tree, path, isDir)
    case Write(fd, data, memory) => Written(tree, fd, data, memory)
  }

  function After(tree: seq<Entry>, run: seq<Event>): seq<Entry>
    decreases run
  {
    if run == [] then tree else After(Apply(tree, run[0]), run[1..])
  }

  /** Later entries never change what a path leads to, nor do writes. */
  lemma FindIsStable(tree: seq<Entry>, e: Event, path: string)
    requires WellFormed(tree)
    ensures Find(tree, path) >= 0 ==> Find(Apply(tree, e), path) == Find(tree, path)
  {
    SameFind(tree, Apply(tree, e)[..|tree|], path);
    FindInPrefix(Apply(tree, e), |tree|, path);
  }

  lemma SameFind(a: seq<Entry>, b: seq<Entry>, path: string)
    requires |a| == |b| && forall i :: 0 <= i < |a| ==> a[i].path == b[i].path
    ensures Find(a, path) == Find(b, path)
  {
    var r, s := Find(a, path), Find(b, path);
    assert r >= 0 ==> b[r].path == path;
    assert s >= 0 ==> a[s].path == path;
  }

  lemma FindInPrefix(tree: seq<Entry>, n: nat, path: string)
    requires n <= |tree|
    ensures Find(tree[..n], path) >= 0 ==> Find(tree, path) == Find(tree[..n], path)
  {
    var r, s := Find(tree[..n], path), Find(tree, path);
    assert r >= 0 ==> tree[r].path == path;
    assert 0 <= s < n ==> tree[..n][s].path == path;
  }

  /** Entry `i` keeps its place when nothing up to it changes but contents of files. */
  lemma StillPlaced(tree: seq<Entry>, tree': seq<Entry>, i: nat)
    requires i < |tree| && i < |tree'| && Placed(tree, i)
    requires forall j :: 0 <= j <= i ==> tree'[j].(content := None) == tree[j].(content := None)
    requires tree[i].isDir ==> tree'[i] == tree[i]
    ensures Placed(tree', i)
  {
    hide Find, LastSlash, NameOf;
    var slash := LastSlash(tree[i].path);
    forall j | 0 <= j < i
      ensures tree'[..i][j].path == tree[..i][j].path
    {
      assert tree'[j].(content := None) == tree[j].(content := None);
    }
    assert tree'[i].(content := None) == tree[i].(content := None);
    if slash > 0 {
      SameFind(tree[..i], tree'[..i], tree[i].path[..slash]);
    }
  }

  lemma ApplyKeeps(tree: seq<Entry>, e: Event)
    requires WellFormed(tree)
    ensures WellFormed(Apply(tree, e))
    ensures |tree| <= |Apply(tree, e)|
    ensures forall i :: 0 <= i < |tree| ==> Apply(tree, e)[i].(content := None) == tree[i].(content := None)
  {
    hide Placed, Find, NameOf, LastSlash, ParentOf, Bytes;
    var tree' := Apply(tree, e);
    assert forall i :: 0 <= i < |tree| ==> tree'[i].(content := None) == tree[i].(content := None);
    forall i | 1 <= i < |tree'|
      ensures Placed(tree', i)
    {
      if i < |tree| {
        StillPlaced(tree, tree', i);
      } else {
        LastPlaced(tree, tree', i);
      }
    }
  }

  lemma LastPlaced(tree: seq<Entry>, tree': seq<Entry>, i: nat)
    requires i == |tree| < |tree'| && tree'[..i] == tree
    requires tree'[i] == Entry(NameOf(tree'[i].path), tree'[i].path, tree'[i].isDir, ParentOf(tree, tree'[i].path), None)
    ensures Placed(tree', i)
  {
  }

  /** Over any run: the tree stays well formed, entries keep their index, name, path and parent, and a path that
      leads somewhere leads there for ever. */
  lemma {:induction false} RunKeeps(tree: seq<Entry>, run: seq<Event>)
    requires WellFormed(tree)
    ensures WellFormed(After(tree, run))
    ensures |tree| <= |After(tree, run)|
    ensures forall i :: 0 <= i < |tree| ==> After(tree, run)[i].(content := None) == tree[i].(content := None)
    ensures forall path :: Find(tree, path) >= 0 ==> Find(After(tree, run), path) == Find(tree, path)
    decreases run
  {
    if run == [] {
    } else {
      ApplyKeeps(tree, run[0]);
      RunKeeps(Apply(tree, run[0]), run[1..]);
      forall path | Find(tree, path) >= 0
        ensures Find(After(tree, run), path) == Find(tree, path)
      {
        FindIsStable(tree, run[0], path);
      }
    }
  }

  /** What a run appends to entry `fd`. */
  function Appended(tree: seq<Entry>, run: seq<Event>, fd: int): seq<Byte>
    decreases run
  {
    if run == [] then []
    else
      (if run[0].Write? && run[0].fd == fd && CanWrite(tree, fd, run[0].memory) then run[0].data else [])
      + Appended(Apply(tree, run[0]), run[1..], fd)
  }

  lemma BytesAfter(tree: seq<Entry>, e: Event, fd: nat)
    requires fd < |tree|
    ensures fd < |Apply(tree, e)|
    ensures Bytes(Apply(tree, e)[fd]) ==
            Bytes(tree[fd]) + if e.Write? && e.fd == fd && CanWrite(tree, fd, e.memory) then e.data else []
  {
  }

  /** A file holds everything written to it, in order, whatever else the run does. */
  lemma {:induction false} ContentOverRuns(tree: seq<Entry>, run: seq<Event>, fd: nat)
    requires WellFormed(tree) && fd < |tree|
    ensures fd < |After(tree, run)| && Bytes(After(tree, run)[fd]) == Bytes(tree[fd]) + Appended(tree, run, fd)
    decreases run
  {
    hide WellFormed, Made, Apply, Bytes, CanWrite;
    if run == [] {
      assert Bytes(tree[fd]) + [] == Bytes(tree[fd]);
    } else {
      ApplyKeeps(tree, run[0]);
      ContentOverRuns(Apply(tree, run[0]), run[1..], fd);
      BytesAfter(tree, run[0], fd);
    }
  }

  // ----- the operations in plain terms

  lemma SlashAt(path: string, n: nat)
    requires n < |path| && path[n] == '/' && forall k :: n < k < |path| ==> path[k] != '/'
    ensures LastSlash(path) == n
  {
    hide LastSlash;
  }

  lemma NoSlash(path: string)
    requires forall k :: 0 <= k < |path| ==> path[k] != '/'
    ensures LastSlash(path) == -1
  {
    hide LastSlash;
  }

  /** Where the last slash of a path is, by its two parts. */
  lemma SlashBetween(dir: string, name: string)
    requires forall k :: 0 <= k < |name| ==> name[k] != '/'
    ensures LastSlash(dir + "/" + name) == |dir|
    ensures LastSlash(name) == -1
  {
    hide LastSlash;
    var path := dir + "/" + name;
    assert |path| == |dir| + 1 + |name|;
    SlashAt(path, |dir|);
    NoSlash(name);
  }

  /** Making a directory or a file: one more entry, of the name behind the last slash, under the lowest entry whose path
      stands before it, or under the root when nothing stands there. Sixty-four entries are the most there are. */
  lemma MadeInPlain(tree: seq<Entry>, dir: string, name: string, isDir: bool)
    requires forall k :: 0 <= k < |name| ==> name[k] != '/'
    ensures var e := Entry(name, dir + "/" + name, isDir, if dir == "" then 0 else Find(tree, dir), None);
            Made(tree, dir + "/" + name, isDir) == if |tree| < 64 then tree + [e] else tree
    ensures Made(tree, name, isDir) == if |tree| < 64 then tree + [Entry(name, name, isDir, 0, None)] else tree
  {
    hide Find, LastSlash;
    SlashBetween(dir, name);
    assert (dir + "/" + name)[|dir| + 1..] == name && (dir + "/" + name)[..|dir|] == dir;
  }

  /** Writing appends to a file, when there is one and there is memory, and changes nothing else. */
  lemma WrittenInPlain(tree: seq<Entry>, fd: int, data: seq<Byte>, memory: bool)
    ensures var tree' := Written(tree, fd, data, memory);
            if 0 <= fd < |tree| && !tree[fd].isDir && memory then
              && |tree'| == |tree| && (forall i :: 0 <= i < |tree| && i != fd ==> tree'[i] == tree[i])
              && var e := tree[fd];
              tree'[fd] == Entry(e.name, e.path, e.isDir, e.parent, Some((if e.content.Some? then e.content.value else []) + data))
            else tree' == tree
  {
  }

  // ----- names along the parent chain

  /** The paths that are the path of their directory, a slash and a name; false of "a" and of "//a". */
  predicate Regular(path: string)
  {
    var slash := LastSlash(path);
    slash >= 0 && path[..slash] != "/"
  }

  /** The path of the directory as it appears in front of a child: nothing for the root. */
  function Prefix(tree: seq<Entry>, parent: nat): string
    requires parent < |tree|
  {
    if parent == 0 then "" else tree[parent].path
  }

  lemma ParentIsEarlier(tree: seq<Entry>, i: nat)
    requires WellFormed(tree) && 1 <= i < |tree|
    ensures -1 <= tree[i].parent < i
  {
    assert Placed(tree, i);
  }

  /** An entry whose parent was found is its parent's path, a slash and its name exactly when its path is regular. */
  lemma PathIsParentPlusName(tree: seq<Entry>, i: nat)
    requires WellFormed(tree) && 1 <= i < |tree| && tree[i].parent >= 0
    ensures tree[i].parent < i
    ensures tree[i].path == Prefix(tree, tree[i].parent) + "/" + tree[i].name <==> Regular(tree[i].path)
  {
    hide LastSlash, Find;
    assert Placed(tree, i);
    var path, slash := tree[i].path, LastSlash(tree[i].path);
    if slash >= 0 {
      assert path == path[..slash] + "/" + NameOf(path);
      OnlyRootIsSlash(tree, i);
    }
    assert slash < 0 ==> NameOf(path) == path;
  }

  /** The parent's path is what stands before the last slash. */
  lemma OnlyRootIsSlash(tree: seq<Entry>, i: nat)
    requires WellFormed(tree) && 1 <= i < |tree| && tree[i].parent >= 0
    ensures tree[i].parent < i
    ensures LastSlash(tree[i].path) > 0 ==> tree[tree[i].parent].path == tree[i].path[..LastSlash(tree[i].path)]
    ensures LastSlash(tree[i].path) <= 0 ==> tree[i].parent == 0
    ensures LastSlash(tree[i].path) > 0 ==> (tree[i].parent == 0 <==> tree[i].path[..LastSlash(tree[i].path)] == "/")
  {
    assert Placed(tree, i);
    if LastSlash(tree[i].path) > 0 {
      assert tree[..i][0].path == "/";
    }
  }

  /** The names from the root, or from an entry without a parent, down to entry `i`. */
  function Rebuilt(tree: seq<Entry>, i: nat): string
    requires i < |tree|
    decreases i
  {
    if tree[i].parent < 0 || tree[i].parent >= i then tree[i].path
    else (if tree[i].parent == 0 then "" else Rebuilt(tree, tree[i].parent)) + "/" + tree[i].name
  }

  /** The paths from entry `i` up to the root, or to an entry whose parent was not found, are regular. */
  predicate OnChainRegular(tree: seq<Entry>, i: nat)
    requires i < |tree|
    decreases i
  {
    tree[i].parent < 0 || tree[i].parent >= i || (Regular(tree[i].path) && OnChainRegular(tree, tree[i].parent))
  }

  /** Joining the names along the parent chain gives back a path exactly when the paths on the chain are regular. */
  lemma {:induction false} ChainRebuildsPath(tree: seq<Entry>, i: nat)
    requires WellFormed(tree) && i < |tree|
    ensures Rebuilt(tree, i) == tree[i].path <==> OnChainRegular(tree, i)
    decreases i
  {
    hide LastSlash, Find;
    if i > 0 && tree[i].parent >= 0 {
      var parent := tree[i].parent;
      PathIsParentPlusName(tree, i);
      ChainRebuildsPath(tree, parent);
      if parent > 0 {
        OnlyRootIsSlash(tree, i);
        SamePrefix(Rebuilt(tree, parent), tree[parent].path, "/" + tree[i].name);
        assert Rebuilt(tree, i) == Rebuilt(tree, parent) + ("/" + tree[i].name);
        assert tree[i].path == tree[parent].path + ("/" + tree[i].name);
      }
    }
  }

  lemma SamePrefix(a: string, b: string, c: string)
    ensures a + c == b + c <==> a == b
  {
    if a + c == b + c {
      assert |a| == |b|;
      assert a == (a + c)[..|a|] && b == (b + c)[..|b|];
    }
  }

  /** A directory made by its bare name is filed under the root, but the names give another path. */
  lemma BareNameIsNotRebuilt()
    ensures var tree := Made([ROOT], "a", true);
            WellFormed(tree) && tree[1].path == "a" && Rebuilt(tree, 1) == "/a"
  {
    var tree := Made([ROOT], "a", true);
    ApplyKeeps([ROOT], Make("a", true));
    assert LastSlash("") == -1 && "a"[..0] == "";
    assert LastSlash("a") == -1;
    assert NameOf("a") == "a";
    assert tree[1] == Entry("a", "a", true, 0, None);
    assert Rebuilt(tree, 1) == "" + "/" + "a";
  }

  // ----- children

  /** The entries below `n` whose parent is `p`, latest first. */
  function Children(tree: seq<Entry>, p: nat, n: nat): (r: seq<nat>)
    requires n <= |tree|
    ensures forall c :: c in r <==> 0 <= c < n && tree[c].parent == p
    ensures forall k :: 0 <= k < |r| ==> r[k] < n
    ensures forall j, k :: 0 <= j < k < |r| ==> r[j] > r[k]
  {
    if n == 0 then []
    else if tree[n - 1].parent == p then [n - 1] + Children(tree, p, n - 1)
    else Children(tree, p, n - 1)
  }

  /** The latest entry below `n` whose parent is `p`, or NONE. */
  function Latest(tree: seq<Entry>, p: int, n: nat): (r: int)
    requires n <= |tree|
    ensures -1 <= r < n
    ensures r >= 0 ==> tree[r].parent == p
    ensures forall i :: r < i < n ==> tree[i].parent != p
  {
    if n == 0 then NONE
    else if tree[n - 1].parent == p then n - 1
    else Latest(tree, p, n - 1)
  }

  lemma {:induction false} ChildrenFromLatest(tree: seq<Entry>, p: nat, n: nat)
    requires n <= |tree|
    ensures var c := Latest(tree, p, n);
            Children(tree, p, n) == if c < 0 then [] else [c] + Children(tree, p, c)
  {
    if n > 0 && tree[n - 1].parent != p {
      ChildrenFromLatest(tree, p, n - 1);
    }
  }

  /** What a walk along the sibling links still has to visit at `child`. */
  function FromChild(tree: seq<Entry>, p: nat, child: int): seq<nat>
    requires child < |tree|
  {
    if child < 0 then [] else [child] + Children(tree, p, child)
  }

  lemma FromFirst(tree: seq<Entry>, p: nat)
    ensures Children(tree, p, |tree|) == FromChild(tree, p, Latest(tree, p, |tree|))
    ensures FromChild(tree, p, NONE) == []
  {
    ChildrenFromLatest(tree, p, |tree|);
  }

  lemma FromNext(tree: seq<Entry>, p: nat, child: nat, seen: seq<nat>)
    requires child < |tree|
    ensures seen + FromChild(tree, p, child) == seen + [child] + FromChild(tree, p, Latest(tree, p, child))
  {
    hide Children, Latest;
    ChildrenFromLatest(tree, p, child);
    assert FromChild(tree, p, Latest(tree, p, child)) == Children(tree, p, child);
    assert seen + ([child] + Children(tree, p, child)) == seen + [child] + Children(tree, p, child);
  }

  lemma {:induction false} LatestInLonger(tree: seq<Entry>, tree': seq<Entry>, p: int, n: nat)
    requires n <= |tree| && n <= |tree'| && forall i :: 0 <= i < n ==> tree'[i].parent == tree[i].parent
    ensures Latest(tree', p, n) == Latest(tree, p, n)
  {
    if n > 0 {
      LatestInLonger(tree, tree', p, n - 1);
    }
  }

  // ----- the nodes

  /** VFSNode. */
  datatype Node = Node(name: string, path: string, used: bool, isDir: bool, size: nat, data: array?<Byte>,
                       parent: int, firstChild: int, nextSibling: int)

  /** The links of the nodes enumerate the children of every entry. */
  ghost predicate Linked(nodes: seq<Node>, tree: seq<Entry>)
  {
    && |nodes| == MAX_NODES && |tree| <= MAX_NODES
    && (forall i :: 0 <= i < MAX_NODES ==> (nodes[i].used <==> i < |tree|))
    && (forall i :: 0 <= i < |tree| ==> NodeLinked(nodes[i], tree, i))
  }

  ghost predicate NodeLinked(node: Node, tree: seq<Entry>, i: nat)
    requires i < |tree|
  {
    && node.name == tree[i].name && node.path == tree[i].path && node.isDir == tree[i].isDir && node.parent == tree[i].parent
    && node.firstChild == Latest(tree, i, |tree|)
    && (node.parent >= 0 ==> node.nextSibling == Latest(tree, node.parent, i))
  }

  /** A new last entry is in front of its siblings. */
  lemma LinkedMore(nodes: seq<Node>, nodes': seq<Node>, tree: seq<Entry>, e: Entry)
    requires Linked(nodes, tree) && |tree| < MAX_NODES && e.parent < |tree|
    requires forall j :: 0 <= j < |tree| ==> tree[j].parent < |tree|
    requires |nodes'| == MAX_NODES
    requires forall i :: 0 <= i < MAX_NODES && i != |tree| ==>
               nodes'[i] == if i == e.parent then nodes[i].(firstChild := |tree|) else nodes[i]
    requires var node := nodes'[|tree|];
             && node.used && node.name == e.name && node.path == e.path && node.isDir == e.isDir && node.parent == e.parent
             && node.firstChild == NONE
             && (e.parent >= 0 ==> node.nextSibling == nodes[e.parent].firstChild)
    ensures Linked(nodes', tree + [e])
  {
    hide Latest, NodeLinked;
    var tree' := tree + [e];
    forall i | 0 <= i < |tree'|
      ensures NodeLinked(nodes'[i], tree', i)
    {
      NodeLinkedMore(nodes, nodes', tree, e, i);
    }
  }

  lemma NodeLinkedMore(nodes: seq<Node>, nodes': seq<Node>, tree: seq<Entry>, e: Entry, i: nat)
    requires i <= |tree| < |nodes| == |nodes'| && e.parent < |tree|
    requires forall j :: 0 <= j < |tree| ==> NodeLinked(nodes[j], tree, j)
    requires i < |tree| ==> nodes'[i] == if i == e.parent then nodes[i].(firstChild := |tree|) else nodes[i]
    requires i == |tree| ==>
               var node := nodes'[|tree|];
               && node.name == e.name && node.path == e.path && node.isDir == e.isDir && node.parent == e.parent
               && node.firstChild == NONE
               && (e.parent >= 0 ==> node.nextSibling == nodes[e.parent].firstChild)
    requires forall j :: 0 <= j < |tree| ==> tree[j].parent < |tree|
    ensures NodeLinked(nodes'[i], tree + [e], i)
  {
    var tree' := tree + [e];
    LatestInLonger(tree, tree', i, |tree|);
    if i < |tree| {
      assert NodeLinked(nodes[i], tree, i);
      LatestInLonger(tree, tree', tree[i].parent, i);
      assert tree'[|tree'| - 1] == e;
    } else {
      if e.parent >= 0 {
        assert NodeLinked(nodes[e.parent], tree, e.parent);
        LatestInLonger(tree, tree', e.parent, i);
      }
    }
  }

  /** Changing the contents of a file changes no link. */
  lemma LinkedWrite(nodes: seq<Node>, nodes': seq<Node>, tree: seq<Entry>, fd: nat, content: Option<seq<Byte>>)
    requires Linked(nodes, tree) && fd < |tree|
    requires |nodes'| == |nodes| && nodes' == nodes[fd := nodes[fd].(size := nodes'[fd].size, data := nodes'[fd].data)]
    ensures Linked(nodes', tree[fd := tree[fd].(content := content)])
  {
    hide Latest;
    var tree' := tree[fd := tree[fd].(content := content)];
    forall i | 0 <= i < |tree'|
      ensures NodeLinked(nodes'[i], tree', i)
    {
      assert NodeLinked(nodes[i], tree, i);
      LatestInLonger(tree, tree', i, |tree|);
      LatestInLonger(tree, tree', tree[i].parent, i);
    }
  }

  lemma MadeParent(tree: seq<Entry>, path: string)
    requires WellFormed(tree)
    ensures ParentOf(tree, path) < |tree|
    ensures forall j :: 0 <= j < |tree| ==> tree[j].parent < |tree|
  {
    forall j | 1 <= j < |tree|
      ensures tree[j].parent < |tree|
    {
      ParentIsEarlier(tree, j);
    }
  }

  datatype Line = Line(isDir: bool, name: string, size: nat)

  class FileSystem {
    const nodes: array<Node>       // vfs_nodes
    var count: nat                 // vfs_count
    ghost var tree: seq<Entry>     // what the nodes mean

    ghost predicate Valid()
      reads this, nodes, Buffers()
    {
      && count == |tree| && WellFormed(tree) && Linked(nodes[..], tree)
      && forall i :: 0 <= i < count ==> Stores(nodes[i], tree[i])
    }

    ghost function Buffers(): set<object>
      reads this, nodes
    {
      set i | 0 <= i < nodes.Length && nodes[i].data != null :: nodes[i].data
    }

    /** A node's buffer holds the contents of its entry. */
    ghost predicate Stores(node: Node, e: Entry)
      reads node.data
    {
      match e.content
      case None => node.data == null && node.size == 0
      case Some(bytes) => node.data != null && node.size == |bytes| <= node.data.Length && node.data[..node.size] == bytes
    }

    /** The part of fs_init that makes the root. */
    constructor ()
      ensures Valid() && fresh(nodes) && tree == [ROOT]
    {
      nodes := new Node[MAX_NODES](_ => Node("", "", false, false, 0, null, NONE, NONE, NONE));
      new;
      nodes[0] := Node("/", "/", true, true, 0, null, NONE, NONE, NONE);
      count := 1;
      tree := [ROOT];
    }

    /** vfs_find_node. */
    method FindNode(path: string) returns (r: int)
      requires Valid()
      ensures Valid() && r == Find(tree, path)
    {
      hide Latest;
      for i := 0 to count
        invariant forall j :: 0 <= j < i ==> tree[j].path != path
      {
        assert NodeLinked(nodes[i], tree, i);
        if nodes[i].used && nodes[i].path == path {
          return i;
        }
      }
      return NONE;
    }

    /** vfs_alloc_node: nodes are used in order and never given back. */
    method AllocNode() returns (r: int)
      requires Valid()
      ensures r == if |tree| < MAX_NODES then |tree| else NONE
    {
      for i := 0 to MAX_NODES
        invariant i <= |tree|
      {
        if !nodes[i].used {
          return i;
        }
      }
      return NONE;
    }

    /** The part of vfs_mkdir and vfs_create that looks for the last slash. */
    static method FindLastSlash(path: string) returns (slash: int)
      ensures slash == LastSlash(path)
    {
      slash := NONE;
      for p := 0 to |path|
        invariant -1 <= slash < p && (slash >= 0 ==> path[slash] == '/')
        invariant forall k :: slash < k < p ==> path[k] != '/'
      {
        if path[p] == '/' {
          slash := p;
        }
      }
    }

    /** vfs_mkdir and vfs_create, which differ in the flag they set. */
    method Make(path: string, isDir: bool) returns (r: int)
      requires Valid() && Fits(path)
      modifies this`count, this`tree, nodes
      ensures Valid() && tree == Made(old(tree), path, isDir)
      ensures r == if old(|tree|) < MAX_NODES then old(|tree|) else NONE
    {
      var idx := AllocNode();
      if idx < 0 {
        return NONE;
      }
      var slash := FindLastSlash(path);
      var name := path;
      if slash >= 0 {
        name := path[slash + 1..];
      }
      var parent := NONE;
      if slash > 0 {
        parent := FindNode(path[..slash]);
      } else {
        parent := 0;
      }
      AddNode(idx, name, path, isDir, parent);
      return idx;
    }

    /** The last part of vfs_mkdir and vfs_create: vfs_node_init and the links. */
    method AddNode(idx: nat, name: string, path: string, isDir: bool, parent: int)
      requires Valid() && idx == |tree| < MAX_NODES && name == NameOf(path) && parent == ParentOf(tree, path)
      modifies this`count, this`tree, nodes
      ensures Valid() && tree == Made(old(tree), path, isDir)
    {
      hide Latest, NodeLinked, Placed, Find, LastSlash, NameOf, ParentOf, WellFormed;
      ghost var before := nodes[..];
      MadeParent(tree, path);
      WriteNode(idx, name, path, isDir, parent);
      if idx >= count {
        count := idx + 1;
      }
      ghost var e := Entry(name, path, isDir, parent, None);
      LinkedMore(before, nodes[..], tree, e);
      ApplyKeeps(tree, Event.Make(path, isDir));
      tree := tree + [e];
    }

    /** vfs_node_init and the link from the parent. */
    method WriteNode(idx: nat, name: string, path: string, isDir: bool, parent: int)
      requires idx < nodes.Length && parent < idx
      modifies nodes
      ensures forall i :: 0 <= i < nodes.Length && i != idx ==>
                nodes[i] == if i == parent then old(nodes[i]).(firstChild := idx) else old(nodes[i])
      ensures var next := if parent >= 0 then old(nodes[parent].firstChild) else NONE;
              nodes[idx] == Node(name, path, true, isDir, 0, null, parent, NONE, next)
    {
      nodes[idx] := Node(name, path, true, isDir, 0, null, parent, NONE, NONE);
      if parent >= 0 {
        nodes[idx] := nodes[idx].(nextSibling := nodes[parent].firstChild);
        nodes[parent] := nodes[parent].(firstChild := idx);
      }
    }

    /** vfs_open: the index of a file, -1 when there is none and -2 for a directory. */
    method Open(path: string) returns (r: int)
      requires Valid()
      ensures var i := Find(tree, path);
              r == if i < 0 then -1 else if tree[i].isDir then -2 else i
    {
      hide Latest, Find, WellFormed;
      var idx := FindNode(path);
      if idx < 0 {
        return -1;
      }
      assert NodeLinked(nodes[idx], tree, idx);
      if nodes[idx].isDir {
        return -2;
      }
      return idx;
    }

    /** vfs_read: the first bytes of the contents, as many as there are and fit. */
    method Read(fd: int, buf: array<Byte>, max: nat) returns (r: int)
      requires Valid() && max <= buf.Length && buf !in Buffers() && (buf as object) != nodes
      modifies buf
      ensures Valid() && tree == old(tree)
      ensures !(0 <= fd < |tree|) ==> r == -1 && buf[..] == old(buf[..])
      ensures 0 <= fd < |tree| ==>
                var bytes := Bytes(tree[fd]);
                && r == (if max > |bytes| then |bytes| else max)
                && buf[..] == bytes[..r] + old(buf[r..])
    {
      hide WellFormed, NodeLinked, Latest;
      if fd < 0 || fd >= count {
        return -1;
      }
      assert NodeLinked(nodes[fd], tree, fd) && Stores(nodes[fd], tree[fd]);
      if !nodes[fd].used {
        return -1;
      }
      if nodes[fd].data == null {
        return 0;
      }
      var toRead := max;
      if toRead > nodes[fd].size {
        toRead := nodes[fd].size;
      }
      CopyInto(buf, nodes[fd].data, toRead);
      return toRead;
    }

    /** The copy loop of vfs_read. */
    static method CopyInto(buf: array<Byte>, data: array<Byte>, n: nat)
      requires n <= buf.Length && n <= data.Length && buf != data
      modifies buf
      ensures buf[..] == old(data[..n]) + old(buf[n..])
    {
      for i := 0 to n
        invariant forall k :: 0 <= k < buf.Length ==> buf[k] == if k < i then data[k] else old(buf[k])
      {
        buf[i] := data[i];
      }
      assert buf[..] == data[..n] + old(buf[n..]);
    }

    /** The copying part of vfs_write: the old contents, the new bytes and a zero. */
    static method Joined(data: array?<Byte>, oldSize: nat, src: seq<Byte>, n: nat) returns (fresh': array<Byte>)
      requires n <= |src| && (data == null ==> oldSize == 0) && (data != null ==> oldSize <= data.Length)
      ensures fresh(fresh') && fresh'.Length == oldSize + n + 1
      ensures fresh'[..oldSize + n] == (if data == null then [] else data[..oldSize]) + src[..n]
    {
      fresh' := new Byte[oldSize + n + 1](_ => 0);
      ghost var start: seq<Byte> := if data == null then [] else data[..oldSize];
      if data != null {
        for i := 0 to oldSize
          invariant fresh'[..i] == data[..i]
        {
          fresh'[i] := data[i];
        }
      }
      for i := 0 to n
        invariant fresh'[..oldSize] == start
        invariant fresh'[oldSize..oldSize + i] == src[..i]
      {
        fresh'[oldSize + i] := src[i];
      }
      fresh'[oldSize + n] := 0;
      assert fresh'[..oldSize + n] == fresh'[..oldSize] + fresh'[oldSize..oldSize + n];
    }

    /** vfs_write, which appends; `memory` tells whether kmalloc serves the new buffer. */
    method Write(fd: int, src: seq<Byte>, n: nat, memory: bool) returns (r: int)
      requires Valid() && n <= |src|
      requires 0 <= fd < |tree| ==> |Bytes(tree[fd])| + n + 1 < 0x1_0000_0000
      modifies this`tree, nodes
      ensures Valid() && tree == Written(old(tree), fd, src[..n], memory)
      ensures r == if CanWrite(old(tree), fd, memory) then n else -1
      ensures forall b :: b in Buffers() ==> b in old(Buffers()) || fresh(b)
    {
      if fd < 0 || fd >= count {
        return -1;
      }
      assert NodeLinked(nodes[fd], tree, fd) && Stores(nodes[fd], tree[fd]);
      if !nodes[fd].used {
        return -1;
      }
      if nodes[fd].isDir {
        return -1;
      }
      if !memory {
        return -1;
      }
      var newData := Joined(nodes[fd].data, nodes[fd].size, src, n);
      SetData(fd, newData, src[..n]);
      return n;
    }

    /** What is written to a file is read back from it, behind what it held. */
    method WriteAndRead(fd: nat, src: seq<Byte>, n: nat, buf: array<Byte>) returns (r: int)
      requires Valid() && fd < |tree| && !tree[fd].isDir && n <= |src|
      requires |Bytes(tree[fd])| + n + 1 < 0x1_0000_0000 && |Bytes(tree[fd])| + n <= buf.Length
      requires buf !in Buffers() && (buf as object) != nodes
      modifies this`tree, nodes, buf
      ensures Valid() && r == |old(Bytes(tree[fd]))| + n
      ensures buf[..r] == old(Bytes(tree[fd])) + src[..n] && buf[r..] == old(buf[r..])
    {
      hide WellFormed, NodeLinked, Latest, Stores;
      WrittenInPlain(tree, fd, src[..n], true);
      ghost var before := buf[..];
      r := Write(fd, src, n, true);
      assert buf !in Buffers();
      r := Read(fd, buf, buf.Length);
      assert buf[r..] == before[r..];
    }

    /** The last part of vfs_write. */
    method SetData(fd: nat, newData: array<Byte>, ghost added: seq<Byte>)
      requires Valid() && fd < count && !tree[fd].isDir
      requires newData.Length == nodes[fd].size + |added| + 1 && newData[..newData.Length - 1] == Bytes(tree[fd]) + added
      modifies this`tree, nodes
      ensures Valid() && tree == Written(old(tree), fd, added, true)
      ensures Buffers() <= old(Buffers()) + {newData}
    {
      hide Latest, NodeLinked, Placed, Find, LastSlash, NameOf, ParentOf, WellFormed;
      ghost var before := nodes[..];
      nodes[fd] := nodes[fd].(data := newData, size := newData.Length - 1);
      ghost var content := Some(Bytes(tree[fd]) + added);
      LinkedWrite(before, nodes[..], tree, fd, content);
      ApplyKeeps(tree, Event.Write(fd, added, true));
      tree := tree[fd := tree[fd].(content := content)];
    }

    lemma SizeFacts()
      requires Valid()
      ensures nodes.Length == MAX_NODES && count == |tree| <= MAX_NODES
    {
    }

    lemma NodeFacts(i: nat)
      requires Valid() && i < count
      ensures nodes[i].isDir == tree[i].isDir && nodes[i].name == tree[i].name && nodes[i].size == |Bytes(tree[i])|
      ensures nodes[i].firstChild == Latest(tree, i, |tree|)
      ensures tree[i].parent >= 0 ==> nodes[i].nextSibling == Latest(tree, tree[i].parent, i)
    {
      hide Latest, Placed;
      assert NodeLinked(nodes[i], tree, i);
      assert Stores(nodes[i], tree[i]);
    }

    /** vfs_list: the children of a directory, latest first; nothing when the path is not found. */
    method List(path: string) returns (lines: seq<Line>)
      requires Valid()
      ensures lines == if Find(tree, path) < 0 then [] else LinesOf(tree, Children(tree, Find(tree, path), |tree|))
    {
      hide Valid, Latest, Children, Find, LinesOf, Bytes, FromChild;
      SizeFacts();
      lines := [];
      var dir := FindNode(path);
      if dir < 0 {
        return;
      }
      NodeFacts(dir);
      LinesNone(tree);
      var child := nodes[dir].firstChild;
      FromFirst(tree, dir);
      ghost var seen: seq<nat> := [];
      assert Children(tree, dir, |tree|) == seen + FromChild(tree, dir, child);
      while child >= 0
        invariant -1 <= child < |tree|
        invariant child >= 0 ==> tree[child].parent == dir
        invariant Valid() && Children(tree, dir, |tree|) == seen + FromChild(tree, dir, child)
        invariant forall k :: 0 <= k < |seen| ==> seen[k] < |tree|
        invariant lines == LinesOf(tree, seen)
      {
        NodeFacts(child);
        FromNext(tree, dir, child, seen);
        LinesMore(tree, seen, child);
        lines := lines + [Line(nodes[child].isDir, nodes[child].name, nodes[child].size)];
        seen := seen + [child];
        child := nodes[child].nextSibling;
      }
      FromFirst(tree, dir);
      assert child == NONE && seen + [] == seen;
    }
  }

  function LinesOf(tree: seq<Entry>, children: seq<nat>): seq<Line>
    requires forall k :: 0 <= k < |children| ==> children[k] < |tree|
  {
    seq(|children|, k requires 0 <= k < |children| =>
      Line(tree[children[k]].isDir, tree[children[k]].name, |Bytes(tree[children[k]])|))
  }

  lemma LinesNone(tree: seq<Entry>)
    ensures LinesOf(tree, []) == []
  {
  }

  lemma LinesMore(tree: seq<Entry>, children: seq<nat>, c: nat)
    requires c < |tree| && forall k :: 0 <= k < |children| ==> children[k] < |tree|
    ensures LinesOf(tree, children + [c]) == LinesOf(tree, children) + [Line(tree[c].isDir, tree[c].name, |Bytes(tree[c])|)]
  {
  }
}
