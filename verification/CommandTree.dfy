/** The index of commands by dotted name (subexec/index.go): a mutable tree
    of nodes, one per path segment. */
module CommandTrees {
  import opened Prelude
  import opened Dots
  import opened Groups

  // ----- what the tree stands for

  /** The command a path finds: the last one indexed under it. Commands with an
      empty path are not indexed. */
  ghost function Lookup(cmds: seq<Command>, path: seq<string>): Option<Command> {
    if cmds == [] || path == [] then None
    else
      var last := cmds[|cmds| - 1];
      if last.IndexPath() == path then Some(last) else Lookup(cmds[..|cmds| - 1], path)
  }

  /** The paths that have a node: every prefix of a command's path. */
  ghost predicate HasNode(cmds: seq<Command>, path: seq<string>) {
    path == [] || exists i :: 0 <= i < |cmds| && path <= cmds[i].IndexPath()
  }

  /** A non-empty path finds the last command that has it, and nothing only when
      no command has it. */
  lemma LookupIsLast(cmds: seq<Command>, path: seq<string>)
    requires path != []
    ensures match Lookup(cmds, path)
            case Some(c) => exists i | 0 <= i < |cmds| :: cmds[i] == c && cmds[i].IndexPath() == path &&
                              forall j | i < j < |cmds| :: cmds[j].IndexPath() != path
            case None => forall i | 0 <= i < |cmds| :: cmds[i].IndexPath() != path
    ensures forall i | 0 <= i < |cmds| ::
              cmds[i].IndexPath() == Path(if cmds[i].unaliasedName != "" then cmds[i].unaliasedName else cmds[i].name)
  {
    var has := (c: Command) => c.IndexPath() == path;
    LastIsLast(has, cmds);
    LookupIsLastMatch(cmds, path, has);
    assert forall i | 0 <= i < |cmds| :: has(cmds[i]) <==> cmds[i].IndexPath() == path;
  }

  lemma {:induction false} LookupIsLastMatch(cmds: seq<Command>, path: seq<string>, has: Command -> bool)
    requires path != []
    requires forall c :: has(c) <==> c.IndexPath() == path
    ensures Lookup(cmds, path) == Last(has, cmds)
  {
    if cmds != [] {
      LookupIsLastMatch(cmds[..|cmds| - 1], path, has);
    }
  }

  // ----- the shape of a tree of nodes

  type Segments = seq<string>

  /** The way from a root to one of its nodes. */
  datatype Trail = Root | Below(up: Trail, elem: string)

  /** The way along the first k segments of a path. */
  function TrailTo(path: Segments, k: nat): (t: Trail)
    requires k <= |path|
    ensures k == 0 <==> t == Root
  {
    if k == 0 then Root else Below(TrailTo(path, k - 1), path[k - 1])
  }

  function TrailOf(path: Segments): Trail {
    TrailTo(path, |path|)
  }

  function PathOf(t: Trail): Segments {
    match t
    case Root => []
    case Below(up, elem) => PathOf(up) + [elem]
  }

  lemma {:induction false} TrailToPath(path: Segments, k: nat)
    requires k <= |path|
    ensures PathOf(TrailTo(path, k)) == path[..k]
  {
    if k > 0 {
      TrailToPath(path, k - 1);
      assert path[..k] == path[..k - 1] + [path[k - 1]];
    }
  }

  lemma TrailPath(path: Segments)
    ensures PathOf(TrailOf(path)) == path
  {
    TrailToPath(path, |path|);
    assert path[..|path|] == path;
  }

  lemma {:induction false} PathTrail(t: Trail)
    ensures TrailOf(PathOf(t)) == t
  {
    if t.Below? {
      PathTrail(t.up);
      TrailToExtended(PathOf(t.up), t.elem, |PathOf(t.up)|);
    }
  }

  lemma {:induction false} TrailToExtended(path: Segments, elem: string, k: nat)
    requires k <= |path|
    ensures TrailTo(path + [elem], k) == TrailTo(path, k)
  {
    if k > 0 {
      TrailToExtended(path, elem, k - 1);
    }
  }

  /** A trail and those it passes through. */
  ghost function Passed(t: Trail): set<Trail> {
    match t
    case Root => {Root}
    case Below(up, _) => Passed(up) + {t}
  }

  datatype Fields = Fields(word: string, command: Option<Command>, children: map<string, Node>)

  /** A picture of a tree on the heap: the node at each path below root, the
      fields it has, and the part of the heap the nodes are in. */
  datatype Layout = Layout(root: Node, nodes: map<Trail, Node>, at: map<Trail, Fields>, cells: set<Node>)
  {
    /** A node with a path below another's is the other's child, under its own
        word. */
    ghost predicate Linked()
      requires at.Keys == nodes.Keys
    {
      forall p, w | Below(p, w) in nodes ::
        p in nodes && at[Below(p, w)].word == w && w in at[p].children && at[p].children[w] == nodes[Below(p, w)]
    }

    ghost predicate NoOtherChildren()
      requires at.Keys == nodes.Keys
    {
      forall p, w | p in nodes && w in at[p].children :: Below(p, w) in nodes
    }

    ghost predicate NoSharing() {
      forall p, q | p in nodes && q in nodes && nodes[p] == nodes[q] :: p == q
    }

    /** The picture is of a tree: no node is reached by two paths. */
    ghost predicate IsTree() {
      && at.Keys == nodes.Keys
      && Root in nodes && nodes[Root] == root
      && Linked() && NoOtherChildren() && NoSharing()
      && forall p | p in nodes :: nodes[p] in cells
    }

    /** The picture agrees with the heap. */
    ghost predicate Matches()
      reads cells
    {
      forall p | p in nodes && p in at && nodes[p] in cells :: nodes[p].Read() == at[p]
    }

    /** The command in the node at t, if there is such a node with a command. */
    ghost function CommandAt(t: Trail): Option<Command> {
      if t in at then at[t].command else None
    }

    /** This is the tree of the commands. */
    ghost predicate Indexes(cmds: seq<Command>) {
      && (forall t :: CommandAt(t) == Lookup(cmds, PathOf(t)))
      && (forall t :: t in nodes <==> HasNode(cmds, PathOf(t)))
    }

    /** The same tree with a new, empty node hung under path. */
    ghost function WithChild(path: Trail, elem: string, next: Node): Layout
      requires path in at
    {
      var hung := at[path].(children := at[path].children[elem := next]);
      Layout(root, nodes[Below(path, elem) := next],
             at[path := hung][Below(path, elem) := Fields(elem, None, map[])], cells + {next})
    }

    ghost function WithCommand(path: Trail, cmd: Command): Layout
      requires path in at
    {
      this.(at := at[path := at[path].(command := Some(cmd))])
    }

    lemma LinkedGrown(path: Trail, elem: string, next: Node)
      requires at.Keys == nodes.Keys && Linked() && NoOtherChildren()
      requires path in nodes && elem !in at[path].children
      ensures WithChild(path, elem, next).Linked()
    {
      var grown := WithChild(path, elem, next);
    }

    lemma MatchesGrown(path: Trail, elem: string, next: Node)
      requires at.Keys == nodes.Keys && path in nodes && Below(path, elem) !in nodes
      requires forall p | p in nodes && p != path :: nodes[p].Read() == at[p]
      requires nodes[path].Read() == at[path].(children := at[path].children[elem := next])
      requires next.Read() == Fields(elem, None, map[])
      ensures WithChild(path, elem, next).Matches()
    {
    }

    lemma Apart(path: Trail)
      requires IsTree() && path in nodes
      ensures forall p | p in nodes && p != path :: nodes[p] != nodes[path]
    {
    }

    lemma ChildrenGrown(path: Trail, elem: string, next: Node)
      requires at.Keys == nodes.Keys && NoOtherChildren()
      requires path in nodes && Below(path, elem) !in nodes
      ensures WithChild(path, elem, next).NoOtherChildren()
    {
      var grown := WithChild(path, elem, next);
      forall p, w | p in grown.nodes && w in grown.at[p].children ensures Below(p, w) in grown.nodes {
        if p == path && w != elem {
          assert w in at[path].children;
        }
      }
    }

    lemma SharingGrown(path: Trail, elem: string, next: Node)
      requires at.Keys == nodes.Keys && NoSharing()
      requires path in nodes
      requires forall p | p in nodes :: nodes[p] != next
      ensures WithChild(path, elem, next).NoSharing()
    {
    }

    lemma Grown(path: Trail, elem: string, next: Node)
      requires IsTree()
      requires path in nodes && elem !in at[path].children
      requires forall p | p in nodes :: nodes[p] != next
      ensures Below(path, elem) !in nodes
      ensures WithChild(path, elem, next).IsTree()
    {
      assert Below(path, elem) !in nodes;
      LinkedGrown(path, elem, next);
      ChildrenGrown(path, elem, next);
      SharingGrown(path, elem, next);
    }

    lemma CommandsGrown(path: Trail, elem: string, next: Node)
      requires path in at && Below(path, elem) !in at
      ensures forall t :: WithChild(path, elem, next).CommandAt(t) == CommandAt(t)
    {
    }

    /** The nodes on the way to a node are there too. */
    lemma {:induction false} PrefixPresent(path: Segments, k: nat, n: nat)
      requires IsTree() && k <= n <= |path|
      ensures TrailTo(path, n) in nodes ==> TrailTo(path, k) in nodes
    {
      if k < n {
        PrefixPresent(path, k, n - 1);
      }
    }

    /** Where the walk along a path stops, the end of the path has no node. */
    lemma Missing(path: Segments, k: nat)
      requires IsTree() && k < |path|
      requires TrailTo(path, k) in nodes && path[k] !in at[TrailTo(path, k)].children
      ensures TrailOf(path) !in nodes
    {
      ChildAt(TrailTo(path, k), path[k]);
      PrefixPresent(path, k + 1, |path|);
    }

    lemma KeysGrown(path: Trail, elem: string, next: Node)
      requires path in at
      ensures WithChild(path, elem, next).nodes.Keys == nodes.Keys + {Below(path, elem)}
    {
    }

    /** The tree under one of the root's children. */
    ghost function Sub(key: string): Layout
      requires at.Keys == nodes.Keys && Below(Root, key) in nodes
    {
      var trails := set t | t in nodes && IsGraft(key, t) :: Ungraft(key, t);
      Layout(nodes[Below(Root, key)],
             map t | t in trails :: nodes[Graft(key, t)], map t | t in trails :: at[Graft(key, t)], cells)
    }

    lemma SubNodes(key: string, t: Trail)
      requires at.Keys == nodes.Keys && Below(Root, key) in nodes
      ensures t in Sub(key).nodes <==> Graft(key, t) in nodes
      ensures Sub(key).at.Keys == Sub(key).nodes.Keys
    {
      GraftInjective(key, t);
    }

    lemma SubPointwise(key: string)
      requires at.Keys == nodes.Keys && Below(Root, key) in nodes
      ensures Sub(key).at.Keys == Sub(key).nodes.Keys
      ensures forall t :: t in Sub(key).nodes <==> Graft(key, t) in nodes
      ensures forall t | t in Sub(key).nodes ::
                Sub(key).nodes[t] == nodes[Graft(key, t)] && Sub(key).at[t] == at[Graft(key, t)]
    {
      forall t ensures t in Sub(key).nodes <==> Graft(key, t) in nodes {
        SubNodes(key, t);
      }
    }

    /** A layout that agrees with this one below key is a tree too. */
    lemma TreeBelow(key: string, sub: Layout)
      requires IsTree() && Below(Root, key) in nodes
      requires sub.root == nodes[Below(Root, key)] && sub.at.Keys == sub.nodes.Keys && sub.cells == cells
      requires forall t :: t in sub.nodes <==> Graft(key, t) in nodes
      requires forall t | t in sub.nodes :: sub.nodes[t] == nodes[Graft(key, t)] && sub.at[t] == at[Graft(key, t)]
      ensures sub.Linked() && sub.NoOtherChildren() && sub.NoSharing()
    {
      forall p, w | Below(p, w) in sub.nodes
        ensures p in sub.nodes && sub.at[Below(p, w)].word == w
        ensures w in sub.at[p].children && sub.at[p].children[w] == sub.nodes[Below(p, w)]
      {
        assert Graft(key, Below(p, w)) == Below(Graft(key, p), w);
      }
      forall p, w | p in sub.nodes && w in sub.at[p].children ensures Below(p, w) in sub.nodes {
        assert Graft(key, Below(p, w)) == Below(Graft(key, p), w);
      }
      forall p, q | p in sub.nodes && q in sub.nodes && sub.nodes[p] == sub.nodes[q] ensures p == q {
        GraftInjective(key, p);
        GraftInjective(key, q);
      }
    }

    lemma SubIsTree(key: string)
      requires IsTree() && Below(Root, key) in nodes
      ensures Sub(key).IsTree() && Sub(key).root == nodes[Below(Root, key)]
      ensures forall t | t in Sub(key).nodes ::
                Graft(key, t) in nodes && Sub(key).nodes[t] == nodes[Graft(key, t)] && Sub(key).at[t] == at[Graft(key, t)]
      ensures forall t :: Sub(key).CommandAt(t) == CommandAt(Graft(key, t))
    {
      SubPointwise(key);
      assert Graft(key, Root) == Below(Root, key);
      TreeBelow(key, Sub(key));
    }

    /** A child is where its path says. */
    lemma ChildAt(path: Trail, elem: string)
      requires IsTree() && path in nodes
      ensures elem in at[path].children <==> Below(path, elem) in nodes
      ensures Below(path, elem) in nodes ==> at[path].children[elem] == nodes[Below(path, elem)]
    {
    }

    lemma Filled(path: Trail, cmd: Command)
      requires IsTree() && path in nodes
      ensures WithCommand(path, cmd).IsTree()
    {
      SameChildren(path, cmd);
      SameShape(WithCommand(path, cmd));
    }

    lemma SameChildren(path: Trail, cmd: Command)
      requires path in at
      ensures WithCommand(path, cmd).at.Keys == at.Keys
      ensures forall p | p in at :: WithCommand(path, cmd).at[p].children == at[p].children
      ensures forall p | p in at :: WithCommand(path, cmd).at[p].word == at[p].word
    {
    }

    /** A picture with the same nodes, words and children is of a tree as well. */
    lemma SameShape(other: Layout)
      requires IsTree() && other.root == root && other.nodes == nodes && other.at.Keys == at.Keys
      requires other.cells == cells
      requires forall p | p in at :: other.at[p].children == at[p].children
      requires forall p | p in at :: other.at[p].word == at[p].word
      ensures other.IsTree()
    {
    }

    lemma CommandFilled(path: Trail, cmd: Command)
      requires path in at
      ensures forall t :: WithCommand(path, cmd).CommandAt(t) == if t == path then Some(cmd) else CommandAt(t)
    {
    }
  }

  /** The trail t, one segment further down under key. */
  function Graft(key: string, t: Trail): Trail {
    match t
    case Root => Below(Root, key)
    case Below(up, elem) => Below(Graft(key, up), elem)
  }

  predicate IsGraft(key: string, t: Trail) {
    t.Below? && if t.up == Root then t.elem == key else IsGraft(key, t.up)
  }

  function Ungraft(key: string, t: Trail): (s: Trail)
    requires IsGraft(key, t)
    ensures Graft(key, s) == t
  {
    if t.up == Root then Root else Below(Ungraft(key, t.up), t.elem)
  }

  lemma {:induction false} GraftInjective(key: string, s: Trail)
    ensures IsGraft(key, Graft(key, s)) && Ungraft(key, Graft(key, s)) == s
  {
    if s.Below? {
      GraftInjective(key, s.up);
    }
  }

  lemma {:induction false} GraftPath(key: string, t: Trail)
    ensures PathOf(Graft(key, t)) == [key] + PathOf(t)
  {
    if t.Below? {
      GraftPath(key, t.up);
    }
  }

  lemma AlreadyThere(all: set<Trail>, t: Trail)
    requires t in all
    ensures all == all + {t}
  {
  }

  lemma OneMorePassed(before: set<Trail>, now: set<Trail>, next: set<Trail>, trail: Trail, elem: string)
    requires now == before + Passed(trail) && next == now + {Below(trail, elem)}
    ensures next == before + Passed(Below(trail, elem))
  {
  }

  class Node {
    var word: string
    var command: Option<Command>
    var children: map<string, Node>

    constructor ()
      ensures Read() == Fields("", None, map[])
    {
      word := "";
      command := None;
      children := map[];
    }

    ghost function Read(): Fields
      reads this
    {
      Fields(word, command, children)
    }

    /** Hangs a new, empty node under this one. */
    method Grow(elem: string, ghost path: Trail, ghost tree: Layout) returns (next: Node, ghost tree': Layout)
      requires tree.IsTree() && tree.Matches()
      requires path in tree.nodes && tree.nodes[path] == this
      requires elem !in children
      modifies this`children
      ensures fresh(next)
      ensures tree'.IsTree() && tree'.Matches()
      ensures forall t :: tree'.CommandAt(t) == tree.CommandAt(t)
      ensures tree'.root == tree.root
      ensures tree'.nodes.Keys == tree.nodes.Keys + {Below(path, elem)}
      ensures tree'.nodes[Below(path, elem)] == next
      ensures tree'.cells == tree.cells + {next}
    {
      next := new Node();
      next.word := elem;
      assert Read() == tree.at[path];
      tree.Apart(path);
      children := children[elem := next];
      assert forall p | p in tree.nodes && p != path :: tree.nodes[p].Read() == tree.at[p];
      tree' := tree.WithChild(path, elem, next);
      tree.MatchesGrown(path, elem, next);
      tree.Grown(path, elem, next);
      tree.CommandsGrown(path, elem, next);
      tree.KeysGrown(path, elem, next);
    }

    /** Puts a command in this node. */
    method SetCommand(cmd: Command, ghost path: Trail, ghost tree: Layout) returns (ghost tree': Layout)
      requires tree.IsTree() && tree.Matches()
      requires path in tree.nodes && tree.nodes[path] == this
      modifies this`command
      ensures tree'.root == tree.root && tree'.nodes == tree.nodes && tree'.cells == tree.cells
      ensures tree'.IsTree() && tree'.Matches()
      ensures forall t :: tree'.CommandAt(t) == if t == path then Some(cmd) else tree.CommandAt(t)
    {
      tree.Filled(path, cmd);
      tree.CommandFilled(path, cmd);
      command := Some(cmd);
      tree' := tree.WithCommand(path, cmd);
    }

    /** The node one segment further down, made if it is not there, with the
        command put in it if this is the end of the command's path. */
    method Descend(elem: string, last: bool, cmd: Command, ghost path: Trail, ghost tree: Layout)
      returns (next: Node, ghost tree': Layout)
      requires tree.IsTree() && tree.Matches()
      requires path in tree.nodes && tree.nodes[path] == this
      modifies tree.cells
      ensures tree'.IsTree() && tree'.Matches()
      ensures tree'.root == tree.root
      ensures fresh(tree'.cells - tree.cells)
      ensures tree'.nodes.Keys == tree.nodes.Keys + {Below(path, elem)}
      ensures tree'.nodes[Below(path, elem)] == next
      ensures forall t :: tree'.CommandAt(t) == if last && t == Below(path, elem) then Some(cmd) else tree.CommandAt(t)
    {
      assert tree.at[path] == Read();
      tree.ChildAt(path, elem);
      if elem in children {
        next := children[elem];
        tree' := tree;
        AlreadyThere(tree.nodes.Keys, Below(path, elem));
      } else {
        next, tree' := Grow(elem, path, tree);
      }
      assert fresh(tree'.cells - tree.cells);
      if last {
        tree' := next.SetCommand(cmd, Below(path, elem), tree');
      }
    }

    /** Puts a command at the end of a path, making the nodes on the way. With
        an empty path the command is not put anywhere. */
    method AddOne(parts: Segments, cmd: Command, ghost tree: Layout) returns (ghost tree': Layout)
      requires tree.IsTree() && tree.Matches() && tree.root == this
      modifies tree.cells
      ensures tree'.IsTree() && tree'.Matches() && tree'.root == this
      ensures fresh(tree'.cells - tree.cells)
      ensures tree'.nodes.Keys == tree.nodes.Keys + Passed(TrailOf(parts))
      ensures forall t :: tree'.CommandAt(t) == if parts != [] && t == TrailOf(parts) then Some(cmd) else tree.CommandAt(t)
    {
      var next := this;
      tree' := tree;
      ghost var trail := Root;
      for idx := 0 to |parts|
        invariant tree'.IsTree() && tree'.Matches() && tree'.root == this
        invariant trail == TrailTo(parts, idx)
        invariant trail in tree'.nodes && tree'.nodes[trail] == next
        invariant fresh(tree'.cells - tree.cells)
        invariant tree'.nodes.Keys == tree.nodes.Keys + Passed(trail)
        invariant forall t :: tree'.CommandAt(t) == if 0 < idx == |parts| && t == trail then Some(cmd) else tree.CommandAt(t)
      {
        ghost var now := tree'.nodes.Keys;
        next, tree' := next.Descend(parts[idx], idx + 1 == |parts|, cmd, trail, tree');
        OneMorePassed(tree.nodes.Keys, now, tree'.nodes.Keys, trail, parts[idx]);
        trail := Below(trail, parts[idx]);
      }
    }

    method AddCommand(cmd: Command, ghost before: seq<Command>, ghost tree: Layout) returns (ghost tree': Layout)
      requires tree.IsTree() && tree.Matches() && tree.root == this && tree.Indexes(before)
      modifies tree.cells
      ensures tree'.IsTree() && tree'.Matches() && tree'.root == this && tree'.Indexes(before + [cmd])
      ensures fresh(tree'.cells - tree.cells)
    {
      var parts := cmd.IndexPath();
      tree' := AddOne(parts, cmd, tree);
      IndexesOneMore(tree, tree', before, cmd, parts);
    }

    method Add(cmds: seq<Command>, ghost tree: Layout) returns (ghost tree': Layout)
      requires tree.IsTree() && tree.Matches() && tree.root == this && tree.Indexes([])
      modifies tree.cells
      ensures tree'.IsTree() && tree'.Matches() && tree'.root == this && tree'.Indexes(cmds)
      ensures fresh(tree'.cells - tree.cells)
    {
      tree' := tree;
      assert cmds[..0] == [];
      for idx := 0 to |cmds|
        invariant tree'.IsTree() && tree'.Matches() && tree'.root == this
        invariant tree'.Indexes(cmds[..idx])
        invariant fresh(tree'.cells - tree.cells)
      {
        tree' := AddCommand(cmds[idx], cmds[..idx], tree');
        TakeOneMore(cmds, idx);
      }
      assert cmds[..|cmds|] == cmds;
    }

    /** Walks down a path, one child at a time. */
    method IterSearch(path: seq<string>, ghost tree: Layout) returns (r: Node?)
      requires tree.IsTree() && tree.Matches() && tree.root == this
      ensures r == if TrailOf(path) in tree.nodes then tree.nodes[TrailOf(path)] else null
    {
      var next := this;
      ghost var trail := Root;
      for k := 0 to |path|
        invariant trail == TrailTo(path, k)
        invariant trail in tree.nodes && tree.nodes[trail] == next
      {
        assert tree.at[trail] == next.Read();
        if path[k] !in next.children {
          tree.Missing(path, k);
          return null;
        }
        tree.ChildAt(trail, path[k]);
        next := next.children[path[k]];
        trail := Below(trail, path[k]);
      }
      return next;
    }

    method Find(id: string, ghost tree: Layout) returns (r: Node?)
      requires tree.IsTree() && tree.Matches() && tree.root == this
      ensures r == if TrailOf(Path(id)) in tree.nodes then tree.nodes[TrailOf(Path(id))] else null
      ensures forall cmds | tree.Indexes(cmds) :: r != null <==> HasNode(cmds, Path(id))
    {
      var path := Path(id);
      TrailPath(path);
      r := IterSearch(path, tree);
    }

    method FindCommand(id: string, ghost tree: Layout) returns (r: Option<Command>)
      requires tree.IsTree() && tree.Matches() && tree.root == this
      ensures r == tree.CommandAt(TrailOf(Path(id)))
      ensures forall cmds | tree.Indexes(cmds) :: r == Lookup(cmds, Path(id))
    {
      TrailPath(Path(id));
      var found := Find(id, tree);
      if found == null {
        return None;
      }
      assert tree.at[TrailOf(Path(id))] == found.Read();
      return found.command;
    }

    /** The child under a key, if there is one. It is the root of a tree of its
        own, which finds under each path what this one finds with the key in
        front. */
    method NarrowTo(key: string, ghost tree: Layout) returns (r: Node?, ghost sub: Layout)
      requires tree.IsTree() && tree.Matches() && tree.root == this
      ensures r == if Below(Root, key) in tree.nodes then tree.nodes[Below(Root, key)] else null
      ensures r != null ==> sub.IsTree() && sub.Matches() && sub.root == r
      ensures r != null ==> forall t :: sub.CommandAt(t) == tree.CommandAt(Graft(key, t))
      ensures forall cmds, path | tree.Indexes(cmds) :: r != null ==> sub.CommandAt(TrailOf(path)) == Lookup(cmds, [key] + path)
    {
      forall path: Segments ensures PathOf(Graft(key, TrailOf(path))) == [key] + path {
        GraftPath(key, TrailOf(path));
        TrailPath(path);
      }
      tree.ChildAt(Root, key);
      assert tree.at[Root] == Read();
      sub := tree;
      if key in children {
        r := children[key];
        sub := tree.Sub(key);
        tree.SubIsTree(key);
      } else {
        r := null;
      }
    }

    /** Yields the commands of the tree, breadth first. This is the whole
        enumeration; a caller may stop it early. */
    method Resolve(ghost tree: Layout) returns (out: seq<Command>)
      requires tree.IsTree() && tree.Matches() && tree.root == this
      ensures exists trails :: Yields(tree, out, trails)
      ensures forall cmds | tree.Indexes(cmds) :: IsEnumeration(cmds, out)
    {
      var queue := [this];
      ghost var visited: seq<Trail>, pending, seen := [], [Root], {};
      ghost var trails: seq<Trail> := [];
      out := [];
      assert visited + pending == [Root];
      while queue != []
        invariant Resolving(tree, visited, pending, queue, out, trails)
        invariant forall t :: t in seen <==> t in visited
        decreases tree.nodes.Keys - seen
      {
        var node := queue[0];
        ghost var t := pending[0];
        assert tree.at[t] == node.Read();
        var popped := queue[1..];
        ghost var was, wasTrails := out, trails;
        if node.command.Some? {
          out := out + [node.command.value];
          trails := trails + [t];
        }
        var keys, kids := node.Kids();
        ResolveOne(tree, visited, pending, queue, was, wasTrails, keys, kids);
        queue := popped + kids;
        visited, pending := visited + [t], pending[1..] + Under(t, keys);
        seen := seen + {t};
      }
      ResolvedAll(tree, visited, out, trails);
    }

    /** The children, in whatever order the map gives them. */
    method Kids() returns (keys: seq<string>, kids: seq<Node>)
      ensures NoDuplicates(keys) && forall k :: k in keys <==> k in Read().children
      ensures |kids| == |keys| && forall i | 0 <= i < |keys| :: kids[i] == Read().children[keys[i]]
    {
      keys := InSomeOrder(children.Keys);
      kids := [];
      assert forall i | 0 <= i < |keys| :: keys[i] in keys;
      for k := 0 to |keys|
        invariant |kids| == k
        invariant forall i | 0 <= i < k :: kids[i] == children[keys[i]]
      {
        kids := kids + [children[keys[k]]];
      }
    }
  }

  /** The commands of all nodes that have one, each once, with its node's trail,
      in order of depth. */
  ghost predicate Yields(tree: Layout, out: seq<Command>, trails: seq<Trail>) {
    && |trails| == |out|
    && (forall i | 0 <= i < |out| :: tree.CommandAt(trails[i]) == Some(out[i]))
    && (forall t | tree.CommandAt(t).Some? :: t in trails)
    && NoDuplicates(trails) && ByDepth(trails)
  }

  /** The last command of each non-empty path, once, shorter paths first. */
  ghost predicate IsEnumeration(cmds: seq<Command>, out: seq<Command>) {
    && (forall i | 0 <= i < |out| :: Lookup(cmds, out[i].IndexPath()) == Some(out[i]))
    && (forall path | Lookup(cmds, path).Some? :: Lookup(cmds, path).value in out)
    && (forall i, j | 0 <= i < j < |out| ::
          out[i].IndexPath() != out[j].IndexPath() && |out[i].IndexPath()| <= |out[j].IndexPath()|)
  }

  ghost predicate Resolving(
    tree: Layout, visited: seq<Trail>, pending: seq<Trail>, queue: seq<Node>, out: seq<Command>, trails: seq<Trail>)
  {
    && Enumerating(tree.nodes.Keys, visited, pending)
    && Paired(tree, pending, queue)
    && Yielded(tree, visited, out, trails)
  }

  lemma ResolvedAll(tree: Layout, visited: seq<Trail>, out: seq<Command>, trails: seq<Trail>)
    requires tree.IsTree() && Enumerating(tree.nodes.Keys, visited, []) && Yielded(tree, visited, out, trails)
    ensures Yields(tree, out, trails)
    ensures forall cmds | tree.Indexes(cmds) :: IsEnumeration(cmds, out)
  {
    forall t | tree.CommandAt(t).Some? ensures t in trails {
      AllVisited(tree.nodes.Keys, visited, t);
    }
    forall cmds | tree.Indexes(cmds) ensures IsEnumeration(cmds, out) {
      ResolvedCommands(cmds, tree, out, trails);
    }
  }

  lemma ResolveOne(
    tree: Layout, visited: seq<Trail>, pending: seq<Trail>, queue: seq<Node>, out: seq<Command>, trails: seq<Trail>,
    keys: seq<string>, kids: seq<Node>)
    requires tree.IsTree() && queue != [] && Resolving(tree, visited, pending, queue, out, trails)
    requires NoDuplicates(keys) && forall k :: k in keys <==> k in tree.at[pending[0]].children
    requires |kids| == |keys|
    requires forall i | 0 <= i < |keys| :: kids[i] == tree.at[pending[0]].children[keys[i]]
    ensures pending[0] !in visited && pending[0] in tree.nodes
    ensures var t := pending[0];
            var pending' := pending[1..] + Under(t, keys);
            match tree.CommandAt(t)
            case Some(c) => Resolving(tree, visited + [t], pending', queue[1..] + kids, out + [c], trails + [t])
            case None => Resolving(tree, visited + [t], pending', queue[1..] + kids, out, trails)
  {
    var t := pending[0];
    assert t in tree.nodes;
    YieldOne(tree, visited, pending, out, trails);
    NextPending(tree, visited, pending, keys);
    NextPaired(tree, pending, queue, keys, kids);
  }

  /** The queue holds the nodes at the pending trails. */
  ghost predicate Paired(tree: Layout, pending: seq<Trail>, queue: seq<Node>) {
    && |pending| == |queue|
    && forall i | 0 <= i < |queue| :: pending[i] in tree.nodes && tree.nodes[pending[i]] == queue[i]
  }

  lemma NextPaired(tree: Layout, pending: seq<Trail>, queue: seq<Node>, keys: seq<string>, kids: seq<Node>)
    requires tree.IsTree() && queue != [] && Paired(tree, pending, queue)
    requires forall k :: k in keys <==> k in tree.at[pending[0]].children
    requires |kids| == |keys|
    requires forall i | 0 <= i < |keys| :: kids[i] == tree.at[pending[0]].children[keys[i]]
    ensures Paired(tree, pending[1..] + Under(pending[0], keys), queue[1..] + kids)
  {
    assert forall i | 0 <= i < |keys| :: keys[i] in keys;
    PairedRest(tree, pending, queue);
    PairedChildren(tree, pending[0], keys, kids);
    PairedConcat(tree, pending[1..], Under(pending[0], keys), queue[1..], kids);
  }

  lemma PairedRest(tree: Layout, pending: seq<Trail>, queue: seq<Node>)
    requires queue != [] && Paired(tree, pending, queue)
    ensures Paired(tree, pending[1..], queue[1..])
  {
  }

  lemma NextPending(tree: Layout, visited: seq<Trail>, pending: seq<Trail>, keys: seq<string>)
    requires tree.IsTree() && pending != [] && Enumerating(tree.nodes.Keys, visited, pending)
    requires pending[0] in tree.nodes
    requires NoDuplicates(keys) && forall k :: k in keys <==> k in tree.at[pending[0]].children
    ensures pending[0] !in visited
    ensures Enumerating(tree.nodes.Keys, visited + [pending[0]], pending[1..] + Under(pending[0], keys))
  {
    forall e ensures e in keys <==> Below(pending[0], e) in tree.nodes.Keys {
      tree.ChildAt(pending[0], e);
    }
    EnumerateOne(tree.nodes.Keys, visited, pending, keys);
  }

  lemma PairedConcat(tree: Layout, a: seq<Trail>, b: seq<Trail>, q: seq<Node>, r: seq<Node>)
    requires Paired(tree, a, q) && Paired(tree, b, r)
    ensures Paired(tree, a + b, q + r)
  {
  }

  lemma PairedChildren(tree: Layout, t: Trail, keys: seq<string>, kids: seq<Node>)
    requires tree.IsTree() && t in tree.nodes
    requires |kids| == |keys|
    requires forall i | 0 <= i < |keys| :: keys[i] in tree.at[t].children && kids[i] == tree.at[t].children[keys[i]]
    ensures Paired(tree, Under(t, keys), kids)
  {
    forall i | 0 <= i < |keys| ensures Below(t, keys[i]) in tree.nodes && tree.nodes[Below(t, keys[i])] == kids[i] {
      tree.ChildAt(t, keys[i]);
    }
  }

  /** What has been yielded: the commands of the visited nodes, in order. */
  ghost predicate Yielded(tree: Layout, visited: seq<Trail>, out: seq<Command>, trails: seq<Trail>) {
    && |trails| == |out|
    && (forall i | 0 <= i < |out| :: tree.CommandAt(trails[i]) == Some(out[i]))
    && (forall t | t in visited && tree.CommandAt(t).Some? :: t in trails)
    && (forall t | t in trails :: t in visited)
    && NoDuplicates(trails) && ByDepth(trails)
  }

  lemma YieldOne(tree: Layout, visited: seq<Trail>, pending: seq<Trail>, out: seq<Command>, trails: seq<Trail>)
    requires Enumerating(tree.nodes.Keys, visited, pending) && pending != []
    requires Yielded(tree, visited, out, trails)
    ensures var t := pending[0];
            match tree.CommandAt(t)
            case Some(c) => Yielded(tree, visited + [t], out + [c], trails + [t])
            case None => Yielded(tree, visited + [t], out, trails)
  {
    var t, met := pending[0], visited + pending;
    assert met[|visited|] == t;
    forall s | s in trails ensures s != t && Depth(s) <= Depth(t) {
      var i :| 0 <= i < |visited| && visited[i] == s;
      assert met[i] == s;
    }
  }

  // ----- breadth-first enumeration

  function Depth(t: Trail): nat {
    match t
    case Root => 0
    case Below(up, _) => 1 + Depth(up)
  }

  function Under(t: Trail, elems: seq<string>): seq<Trail> {
    seq(|elems|, i requires 0 <= i < |elems| => Below(t, elems[i]))
  }

  ghost predicate ByDepth(ts: seq<Trail>) {
    forall i, j | 0 <= i <= j < |ts| :: Depth(ts[i]) <= Depth(ts[j])
  }

  /** How far the enumeration of the trails in all has got: visited in order of
      depth, the pending ones a level deep at most, and exactly the children of
      visited nodes met so far. */
  ghost predicate Enumerating(all: set<Trail>, visited: seq<Trail>, pending: seq<Trail>) {
    var met := visited + pending;
    && NoDuplicates(met) && ByDepth(met)
    && (forall t | t in pending :: Depth(t) <= Depth(pending[0]) + 1)
    && (forall t :: t in met <==> t in all && (t == Root || t.up in visited))
  }

  lemma EnumerateOne(all: set<Trail>, visited: seq<Trail>, pending: seq<Trail>, elems: seq<string>)
    requires Enumerating(all, visited, pending) && pending != []
    requires NoDuplicates(elems)
    requires forall e :: e in elems <==> Below(pending[0], e) in all
    ensures pending[0] in all && pending[0] !in visited
    ensures Enumerating(all, visited + [pending[0]], pending[1..] + Under(pending[0], elems))
  {
    var t, met := pending[0], visited + pending;
    var kids := Under(t, elems);
    var visited', pending' := visited + [t], pending[1..] + kids;
    assert visited' + pending' == met + kids;
    assert met[|visited|] == t && t in met;
    forall i | 0 <= i < |visited| ensures visited[i] != t {
      assert met[i] == visited[i];
    }
    forall i | 0 <= i < |met| ensures Depth(met[i]) <= Depth(t) + 1 {
      if i >= |visited| {
        assert met[i] == pending[i - |visited|] && met[i] in pending;
      }
    }
    InOrder(met, t, elems);
    forall s ensures s in met + kids <==> s in all && (s == Root || s.up in visited') {
      UnderMember(t, elems, s);
    }
    forall s | s in pending' ensures Depth(s) <= Depth(pending'[0]) + 1 {
      UnderMember(t, elems, s);
      if |pending| > 1 {
        assert met[|visited| + 1] == pending[1] == pending'[0];
      }
    }
  }

  lemma UnderMember(t: Trail, elems: seq<string>, s: Trail)
    ensures s in Under(t, elems) <==> s.Below? && s.up == t && s.elem in elems
  {
    if s.Below? && s.up == t && s.elem in elems {
      var i :| 0 <= i < |elems| && elems[i] == s.elem;
      assert Under(t, elems)[i] == s;
    }
  }

  /** Hanging the children of t behind what has been met keeps the order, when
      t's children are not there yet and nothing there is deeper than them. */
  lemma InOrder(met: seq<Trail>, t: Trail, elems: seq<string>)
    requires NoDuplicates(met) && ByDepth(met) && NoDuplicates(elems)
    requires forall i | 0 <= i < |met| :: Depth(met[i]) <= Depth(t) + 1
    requires forall s | s in met :: s.Below? ==> s.up != t
    ensures NoDuplicates(met + Under(t, elems)) && ByDepth(met + Under(t, elems))
  {
    var kids := Under(t, elems);
    var all := met + kids;
    forall i | 0 <= i < |all|
      ensures if i < |met| then all[i] == met[i] && all[i] in met && Depth(all[i]) <= Depth(t) + 1
              else all[i] == Below(t, elems[i - |met|])
    {
    }
    forall i, j | 0 <= i < j < |all| ensures all[i] != all[j] && Depth(all[i]) <= Depth(all[j]) {
      if |met| <= i {
        assert elems[i - |met|] != elems[j - |met|];
      }
    }
  }

  lemma {:induction false} AllVisited(all: set<Trail>, visited: seq<Trail>, t: Trail)
    requires Enumerating(all, visited, []) && t in all
    requires forall s | s in all && s != Root :: s.up in all
    ensures t in visited
  {
    if t.Below? {
      AllVisited(all, visited, t.up);
    }
    assert visited + [] == visited;
  }

  lemma {:induction false} PassedIsPrefix(s: Trail, t: Trail)
    ensures s in Passed(t) <==> PathOf(s) <= PathOf(t)
  {
    PathTrail(s);
    PathTrail(t);
    if t.Below? {
      PassedIsPrefix(s, t.up);
      var path := PathOf(t);
      assert path[..|path| - 1] == PathOf(t.up);
      if PathOf(s) <= path && |PathOf(s)| == |path| {
        assert PathOf(s) == path;
      }
    }
  }

  lemma IndexesOneMore(tree: Layout, tree': Layout, cmds: seq<Command>, cmd: Command, path: Segments)
    requires tree.Indexes(cmds) && path == cmd.IndexPath()
    requires tree'.nodes.Keys == tree.nodes.Keys + Passed(TrailOf(path))
    requires forall t :: tree'.CommandAt(t) == if path != [] && t == TrailOf(path) then Some(cmd) else tree.CommandAt(t)
    ensures tree'.Indexes(cmds + [cmd])
  {
    var all := cmds + [cmd];
    TrailPath(path);
    assert all[..|all| - 1] == cmds;
    forall t ensures tree'.CommandAt(t) == Lookup(all, PathOf(t)) {
      PathTrail(t);
    }
    forall t ensures t in tree'.nodes <==> HasNode(all, PathOf(t)) {
      PassedIsPrefix(t, TrailOf(path));
      HasNodeOneMore(cmds, cmd, PathOf(t));
    }
  }

  lemma HasNodeOneMore(cmds: seq<Command>, cmd: Command, path: seq<string>)
    ensures HasNode(cmds + [cmd], path) <==> HasNode(cmds, path) || path <= cmd.IndexPath()
  {
    var all := cmds + [cmd];
    if path != [] {
      if HasNode(cmds, path) {
        var i :| 0 <= i < |cmds| && path <= cmds[i].IndexPath();
        assert all[i] == cmds[i];
      } else if path <= cmd.IndexPath() {
        assert all[|cmds|] == cmd;
      }
    }
  }

  /** A lone, empty node is the tree of no commands. */
  lemma SingleNode(layout: Layout)
    requires layout.nodes.Keys == {Root} && layout.at.Keys == {Root}
    requires layout.nodes[Root] == layout.root && layout.root in layout.cells
    requires layout.at[Root] == Fields("", None, map[]) == layout.root.Read()
    ensures layout.IsTree() && layout.Matches()
    ensures layout.Indexes([])
  {
    forall t ensures t in layout.nodes <==> HasNode([], PathOf(t)) {
      PathTrail(t);
    }
  }

  /** NewCommandTree: the tree of a list of commands. */
  method NewCommandTree(commands: seq<Command>) returns (tree: Node, ghost layout: Layout)
    ensures layout.IsTree() && layout.Matches() && layout.root == tree
    ensures layout.Indexes(commands)
    ensures fresh(layout.cells)
  {
    tree := new Node();
    ghost var single := Layout(tree, map[Root := tree], map[Root := tree.Read()], {tree});
    SingleNode(single);
    layout := tree.Add(commands, single);
    assert fresh(single.cells);
  }

  /** Of the tree of a list of commands, this is the last command of each
      non-empty path, once, shorter paths first. */
  lemma ResolvedCommands(cmds: seq<Command>, tree: Layout, out: seq<Command>, trails: seq<Trail>)
    requires tree.Indexes(cmds) && Yields(tree, out, trails)
    ensures IsEnumeration(cmds, out)
  {
    forall i | 0 <= i < |out|
      ensures out[i].IndexPath() == PathOf(trails[i])
      ensures Lookup(cmds, out[i].IndexPath()) == Some(out[i])
    {
      LookupHasPath(cmds, PathOf(trails[i]));
    }
    forall path | Lookup(cmds, path).Some? ensures Lookup(cmds, path).value in out {
      TrailPath(path);
      assert tree.CommandAt(TrailOf(path)) == Lookup(cmds, path);
      var i :| 0 <= i < |trails| && trails[i] == TrailOf(path);
      assert out[i] in out;
    }
    forall i, j | 0 <= i < j < |out|
      ensures out[i].IndexPath() != out[j].IndexPath() && |out[i].IndexPath()| <= |out[j].IndexPath()|
    {
      DepthIsLength(trails[i]);
      DepthIsLength(trails[j]);
      PathTrail(trails[i]);
      PathTrail(trails[j]);
    }
  }

  lemma {:induction false} LookupHasPath(cmds: seq<Command>, path: seq<string>)
    ensures Lookup(cmds, path).Some? ==> Lookup(cmds, path).value.IndexPath() == path
  {
    if cmds != [] && path != [] {
      LookupHasPath(cmds[..|cmds| - 1], path);
    }
  }

  lemma {:induction false} DepthIsLength(t: Trail)
    ensures Depth(t) == |PathOf(t)|
  {
    if t.Below? {
      DepthIsLength(t.up);
    }
  }
}
