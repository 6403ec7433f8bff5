/**
 * The tree of archive entries the explorer shows (`struct node`): every
 * node has a name, a parent, a kind (directory or file, which decides its
 * click handler) and a list of children kept in strcmp order by insertion.
 *
 * All nodes live in one list owned by a `Tree`; a node's parent and
 * children are positions in that list, and a parent of -1 stands for NULL.
 */
module Nodes {
  import opened Text

  /** Which click handler a node carries: `mpq_dir_on_click` or `mpq_file_on_click`. */
  datatype Kind = Dir | File

  /** `struct node`. */
  datatype Node = Node(name: string, parent: int, childs: seq<nat>, kind: Kind)

  // ---------------------------------------------------------------------
  // strcmp order
  // ---------------------------------------------------------------------

  /** `strcmp(a, b) < 0`: at the first difference a has the smaller character, or a is a proper prefix of b. */
  predicate Less(a: string, b: string)
  {
    |b| > 0 && (|a| == 0 || (if a[0] == b[0] then Less(a[1..], b[1..]) else a[0] < b[0]))
  }

  lemma {:induction false} LessIrreflexive(a: string)
    ensures !Less(a, a)
    decreases |a|
  {
    if |a| > 0 {
      LessIrreflexive(a[1..]);
    }
  }

  lemma {:induction false} LessTransitive(a: string, b: string, c: string)
    requires Less(a, b) && Less(b, c)
    ensures Less(a, c)
    decreases |a|
  {
    if |a| > 0 && a[0] == b[0] && b[0] == c[0] {
      LessTransitive(a[1..], b[1..], c[1..]);
    }
  }

  /** Two strings are equal or one sorts strictly before the other. */
  lemma {:induction false} LessTotal(a: string, b: string)
    ensures a == b || Less(a, b) || Less(b, a)
    decreases |a|
  {
    if |a| > 0 && |b| > 0 && a[0] == b[0] {
      LessTotal(a[1..], b[1..]);
      if a[1..] == b[1..] {
        assert a == [a[0]] + a[1..] && b == [b[0]] + b[1..];
      }
    }
  }

  /** Names in non-decreasing strcmp order. */
  predicate Sorted(names: seq<string>)
  {
    forall j, k :: 0 <= j < k < |names| ==> !Less(names[k], names[j])
  }

  // ---------------------------------------------------------------------
  // Well-formed node lists
  // ---------------------------------------------------------------------

  /** Every listed child is a node of the list. */
  predicate ChildrenIn(nodes: seq<Node>, kids: seq<nat>)
  {
    forall k :: 0 <= k < |kids| ==> kids[k] < |nodes|
  }

  /** The names of the listed children, in list order. */
  function Names(nodes: seq<Node>, kids: seq<nat>): seq<string>
    requires ChildrenIn(nodes, kids)
  {
    seq(|kids|, k requires 0 <= k < |kids| => nodes[kids[k]].name)
  }

  /** Node i's children come after it in the list and name it as their parent. */
  predicate ChildrenOf(nodes: seq<Node>, i: nat)
    requires i < |nodes|
  {
    ChildrenIn(nodes, nodes[i].childs) &&
    forall k :: 0 <= k < |nodes[i].childs| ==> i < nodes[i].childs[k] && nodes[nodes[i].childs[k]].parent == i
  }

  /** Every parent comes before its children in the list (so following parents ends at a root). */
  predicate ParentsBefore(nodes: seq<Node>)
  {
    forall i :: 0 <= i < |nodes| ==> -1 <= nodes[i].parent < i
  }

  predicate WellFormed(nodes: seq<Node>)
  {
    ParentsBefore(nodes) && forall i :: 0 <= i < |nodes| ==> ChildrenOf(nodes, i)
  }

  /** Every node's children are in strcmp order. */
  predicate SortedChildren(nodes: seq<Node>)
  {
    forall i :: 0 <= i < |nodes| ==> ChildrenOf(nodes, i) && Sorted(Names(nodes, nodes[i].childs))
  }

  // ---------------------------------------------------------------------
  // node_add_child
  // ---------------------------------------------------------------------

  /** Where `node_add_child` puts a child named `name`: before the first name that sorts strictly after it, or at the end. */
  function InsertionPoint(names: seq<string>, name: string): (k: nat)
    ensures k <= |names|
    ensures forall j :: 0 <= j < k ==> !Less(name, names[j])
    ensures k < |names| ==> Less(name, names[k])
  {
    if |names| == 0 || Less(name, names[0]) then 0 else 1 + InsertionPoint(names[1..], name)
  }

  /** The insertion point is the only position with those two properties. */
  lemma {:induction false} InsertionPointUnique(names: seq<string>, name: string, i: nat)
    requires i <= |names| && (forall j :: 0 <= j < i ==> !Less(name, names[j]))
    requires i < |names| ==> Less(name, names[i])
    ensures i == InsertionPoint(names, name)
  {
  }

  /** The node list after `node_add_child(p, c)`: c inserted into p's children at the insertion point. */
  function AddedChild(nodes: seq<Node>, p: nat, c: nat): seq<Node>
    requires p < |nodes| && c < |nodes| && ChildrenIn(nodes, nodes[p].childs)
  {
    var kids := nodes[p].childs;
    var k := InsertionPoint(Names(nodes, kids), nodes[c].name);
    nodes[p := nodes[p].(childs := kids[..k] + [c] + kids[k..])]
  }

  /** Changing a node's children leaves every node's name where it was. */
  lemma NamesUnchanged(nodes: seq<Node>, p: nat, childs: seq<nat>, kids: seq<nat>)
    requires p < |nodes| && ChildrenIn(nodes, kids)
    ensures ChildrenIn(nodes[p := nodes[p].(childs := childs)], kids)
    ensures Names(nodes[p := nodes[p].(childs := childs)], kids) == Names(nodes, kids)
  {
  }

  /** Adding nodes at the end leaves the names of existing children alone. */
  lemma NamesExtended(nodes: seq<Node>, more: seq<Node>, kids: seq<nat>)
    requires ChildrenIn(nodes, kids)
    ensures ChildrenIn(nodes + more, kids) && Names(nodes + more, kids) == Names(nodes, kids)
  {
  }

  /** On sorted names, every name from the insertion point on sorts strictly after the inserted one, so equal names all come before it. */
  lemma AfterInsertionPoint(names: seq<string>, name: string)
    requires Sorted(names)
    ensures var k := InsertionPoint(names, name);
            (forall j :: k <= j < |names| ==> Less(name, names[j])) &&
            (forall j :: 0 <= j < |names| && names[j] == name ==> j < k)
  {
    var k := InsertionPoint(names, name);
    forall j | k <= j < |names|
      ensures Less(name, names[j])
    {
      if j > k {
        assert !Less(names[j], names[k]);
        LessTotal(names[j], names[k]);
        if names[j] != names[k] {
          LessTransitive(name, names[k], names[j]);
        }
      }
    }
    LessIrreflexive(name);
  }

  /** Inserting at the insertion point keeps sorted names sorted. */
  lemma InsertKeepsSorted(names: seq<string>, name: string)
    requires Sorted(names)
    ensures var k := InsertionPoint(names, name);
            Sorted(names[..k] + [name] + names[k..])
  {
    var k := InsertionPoint(names, name);
    AfterInsertionPoint(names, name);
    var s := names[..k] + [name] + names[k..];
    forall a, b | 0 <= a < b < |s|
      ensures !Less(s[b], s[a])
    {
      if b < k {
        assert s[a] == names[a] && s[b] == names[b];
      } else if b == k {
        assert s[a] == names[a];
      } else if a < k {
        assert s[a] == names[a] && s[b] == names[b - 1];
      } else if a == k {
        assert s[b] == names[b - 1];
        if Less(names[b - 1], name) {
          LessTransitive(name, names[b - 1], name);
          LessIrreflexive(name);
        }
      } else {
        assert s[a] == names[a - 1] && s[b] == names[b - 1];
      }
    }
  }

  /** What `node_add_child` changes: p's child list only, by inserting c at the insertion point. */
  lemma AddedChildShape(nodes: seq<Node>, p: nat, c: nat)
    requires p < |nodes| && c < |nodes| && ChildrenIn(nodes, nodes[p].childs)
    ensures var r := AddedChild(nodes, p, c);
            var old_ := nodes[p].childs;
            var kids := r[p].childs;
            var k := InsertionPoint(Names(nodes, old_), nodes[c].name);
            |r| == |nodes| && r[p] == nodes[p].(childs := kids) &&
            (forall i :: 0 <= i < |nodes| && i != p ==> r[i] == nodes[i]) &&
            |kids| == |old_| + 1 && kids[k] == c && kids[..k] == old_[..k] && kids[k + 1..] == old_[k..] &&
            ChildrenIn(r, kids) && Names(r, kids) == Names(nodes, old_)[..k] + [nodes[c].name] + Names(nodes, old_)[k..]
  {
    var r := AddedChild(nodes, p, c);
    var old_ := nodes[p].childs;
    var k := InsertionPoint(Names(nodes, old_), nodes[c].name);
    var kids := r[p].childs;
    assert kids == old_[..k] + [c] + old_[k..];
    assert kids[k + 1..] == old_[k..];
    NamesUnchanged(nodes, p, kids, kids);
  }

  /**
   * `node_add_child` on sorted children: the new child goes in at the
   * insertion point, every existing child keeps its place relative to the
   * others, those after it sort strictly later (so children of equal name
   * all stay before it), and the children stay sorted.
   */
  lemma AddChildKeepsOrder(nodes: seq<Node>, p: nat, c: nat)
    requires p < |nodes| && c < |nodes| && ChildrenIn(nodes, nodes[p].childs)
    requires Sorted(Names(nodes, nodes[p].childs))
    ensures var r := AddedChild(nodes, p, c);
            var old_ := nodes[p].childs;
            var kids := r[p].childs;
            var k := InsertionPoint(Names(nodes, old_), nodes[c].name);
            |kids| == |old_| + 1 && kids[k] == c && kids[..k] == old_[..k] && kids[k + 1..] == old_[k..] &&
            (forall j :: k <= j < |old_| ==> Less(nodes[c].name, nodes[old_[j]].name)) &&
            (forall j :: 0 <= j < |old_| && nodes[old_[j]].name == nodes[c].name ==> j < k) &&
            ChildrenIn(r, kids) && Sorted(Names(r, kids))
  {
    var names := Names(nodes, nodes[p].childs);
    assert forall j :: 0 <= j < |names| ==> names[j] == nodes[nodes[p].childs[j]].name;
    AddedChildShape(nodes, p, c);
    AfterInsertionPoint(names, nodes[c].name);
    InsertKeepsSorted(names, nodes[c].name);
  }

  /** Adding a child that comes after its parent and names it keeps the list well-formed. */
  lemma AddChildWellFormed(nodes: seq<Node>, p: nat, c: nat)
    requires WellFormed(nodes) && p < c < |nodes| && nodes[c].parent == p && ChildrenIn(nodes, nodes[p].childs)
    ensures WellFormed(AddedChild(nodes, p, c))
  {
    var r := AddedChild(nodes, p, c);
    var kids := nodes[p].childs;
    var k := InsertionPoint(Names(nodes, kids), nodes[c].name);
    assert r[p].childs == kids[..k] + [c] + kids[k..];
    forall i | 0 <= i < |r|
      ensures ChildrenOf(r, i)
    {
      assert ChildrenOf(nodes, i);
      if i == p {
        forall j | 0 <= j < |r[p].childs|
          ensures p < r[p].childs[j] < |r| && r[r[p].childs[j]].parent == p
        {
          if j < k {
            assert r[p].childs[j] == kids[j];
          } else if j > k {
            assert r[p].childs[j] == kids[j - 1];
          }
        }
      }
    }
  }

  /** A fresh node at the end of a well-formed list, whose parent is NULL or an existing node, keeps it well-formed. */
  lemma NewNodeWellFormed(nodes: seq<Node>, name: string, parent: int, kind: Kind)
    requires WellFormed(nodes) && -1 <= parent < |nodes|
    ensures WellFormed(nodes + [Node(name, parent, [], kind)])
  {
    var r := nodes + [Node(name, parent, [], kind)];
    forall i | 0 <= i < |r|
      ensures ChildrenOf(r, i)
    {
      if i < |nodes| {
        assert ChildrenOf(nodes, i);
      }
    }
  }

  // ---------------------------------------------------------------------
  // Order and uniqueness of siblings over the whole tree
  // ---------------------------------------------------------------------

  /** No name twice. */
  predicate Distinct(names: seq<string>)
  {
    forall j, k :: 0 <= j < k < |names| ==> names[j] != names[k]
  }

  /** No two children of a node share a name. */
  predicate UniqueChildren(nodes: seq<Node>)
  {
    forall i :: 0 <= i < |nodes| ==> ChildrenOf(nodes, i) && Distinct(Names(nodes, nodes[i].childs))
  }

  /** A node at the end, without children, keeps every child list sorted and without repeats. */
  lemma NewNodeKeepsOrder(nodes: seq<Node>, name: string, parent: int, kind: Kind)
    requires WellFormed(nodes) && -1 <= parent < |nodes|
    ensures SortedChildren(nodes) ==> SortedChildren(nodes + [Node(name, parent, [], kind)])
    ensures UniqueChildren(nodes) ==> UniqueChildren(nodes + [Node(name, parent, [], kind)])
  {
    var r := nodes + [Node(name, parent, [], kind)];
    NewNodeWellFormed(nodes, name, parent, kind);
    forall i | 0 <= i < |nodes|
      ensures ChildrenOf(nodes, i) && ChildrenOf(r, i) && Names(r, r[i].childs) == Names(nodes, nodes[i].childs)
    {
      assert ChildrenOf(nodes, i);
      NamesExtended(nodes, [Node(name, parent, [], kind)], nodes[i].childs);
    }
  }

  /** Inserting a name missing from distinct names keeps them distinct. */
  lemma InsertKeepsDistinct(names: seq<string>, name: string, k: nat)
    requires Distinct(names) && k <= |names| && forall j :: 0 <= j < |names| ==> names[j] != name
    ensures Distinct(names[..k] + [name] + names[k..])
  {
    var s := names[..k] + [name] + names[k..];
    forall a, b | 0 <= a < b < |s|
      ensures s[a] != s[b]
    {
      if b < k {
        assert s[a] == names[a] && s[b] == names[b];
      } else if b == k {
        assert s[a] == names[a];
      } else if a < k {
        assert s[a] == names[a] && s[b] == names[b - 1];
      } else if a == k {
        assert s[b] == names[b - 1];
      } else {
        assert s[a] == names[a - 1] && s[b] == names[b - 1];
      }
    }
  }

  /**
   * `node_add_child` keeps every child list of the tree sorted, and without
   * repeated names when no child of p already has the new child's name.
   */
  lemma AddChildKeepsTreeOrder(nodes: seq<Node>, p: nat, c: nat)
    requires WellFormed(nodes) && p < c < |nodes| && nodes[c].parent == p && ChildrenIn(nodes, nodes[p].childs)
    ensures SortedChildren(nodes) ==> SortedChildren(AddedChild(nodes, p, c))
    ensures UniqueChildren(nodes) && (forall k :: 0 <= k < |nodes[p].childs| ==> nodes[nodes[p].childs[k]].name != nodes[c].name) ==>
            UniqueChildren(AddedChild(nodes, p, c))
  {
    var r := AddedChild(nodes, p, c);
    AddChildWellFormed(nodes, p, c);
    AddedChildShape(nodes, p, c);
    forall i | 0 <= i < |r| && i != p
      ensures ChildrenOf(nodes, i) && ChildrenOf(r, i) && Names(r, r[i].childs) == Names(nodes, nodes[i].childs)
    {
      assert ChildrenOf(nodes, i);
      NamesUnchanged(nodes, p, r[p].childs, nodes[i].childs);
    }
    assert ChildrenOf(r, p);
    var names := Names(nodes, nodes[p].childs);
    if SortedChildren(nodes) {
      assert Sorted(names);
      AddChildKeepsOrder(nodes, p, c);
    }
    if UniqueChildren(nodes) && (forall k :: 0 <= k < |nodes[p].childs| ==> nodes[nodes[p].childs[k]].name != nodes[c].name) {
      assert Distinct(names);
      InsertKeepsDistinct(names, nodes[c].name, InsertionPoint(names, nodes[c].name));
    }
  }

  // ---------------------------------------------------------------------
  // node_get_path
  // ---------------------------------------------------------------------

  /** `node_get_path`: a root gives its own name; otherwise the parent's path, a `\` if that path is not empty, and the node's name. */
  function PathText(nodes: seq<Node>, i: nat): string
    requires ParentsBefore(nodes) && i < |nodes|
    decreases i
  {
    var n := nodes[i];
    if n.parent < 0 then n.name
    else
      var up := PathText(nodes, n.parent);
      up + (if up == "" then "" else "\\") + n.name
  }

  /** The names on the way from the root (excluded) down to node i. */
  function Components(nodes: seq<Node>, i: nat): seq<string>
    requires ParentsBefore(nodes) && i < |nodes|
    decreases i
  {
    if nodes[i].parent < 0 then [] else Components(nodes, nodes[i].parent) + [nodes[i].name]
  }

  /** Names joined by `\`. */
  function Join(parts: seq<string>): string
  {
    if |parts| == 0 then ""
    else if |parts| == 1 then parts[0]
    else Join(parts[..|parts| - 1]) + "\\" + parts[|parts| - 1]
  }

  /** A joined path ends with its last name. */
  lemma {:induction false} JoinEndsWith(parts: seq<string>)
    requires |parts| > 0
    ensures |Join(parts)| >= |parts[|parts| - 1]|
  {
  }

  /** Node i hangs below a root named "" (the archive root), and every directory between them has a name. */
  predicate EmptyRooted(nodes: seq<Node>, i: nat)
    requires ParentsBefore(nodes) && i < |nodes|
    decreases i
  {
    var p := nodes[i].parent;
    if p < 0 then nodes[i].name == ""
    else EmptyRooted(nodes, p) && (nodes[p].parent >= 0 ==> nodes[p].name != "")
  }

  /** Below the empty-named root, a node's path is the names on its way down joined by `\`. */
  lemma {:induction false} PathIsJoin(nodes: seq<Node>, i: nat)
    requires ParentsBefore(nodes) && i < |nodes| && EmptyRooted(nodes, i)
    ensures PathText(nodes, i) == Join(Components(nodes, i))
    decreases i
  {
    var p := nodes[i].parent;
    if p >= 0 {
      PathIsJoin(nodes, p);
      var cs := Components(nodes, p);
      var name := nodes[i].name;
      assert Components(nodes, i) == cs + [name];
      if nodes[p].parent >= 0 {
        assert cs == Components(nodes, nodes[p].parent) + [nodes[p].name];
        JoinEndsWith(cs);
        assert (cs + [name])[..|cs|] == cs;
      }
    }
  }

  /** A buffer that holds strictly fewer than `capacity` characters keeps an empty path empty and a non-empty one non-empty. */
  lemma FitEmpty(s: string, capacity: nat)
    requires capacity >= 2
    ensures Fit(s, capacity) == [] <==> s == []
  {
  }

  // ---------------------------------------------------------------------
  // The tree
  // ---------------------------------------------------------------------

  /** The nodes of the explorer, in the order they were created. */
  class Tree {
    var nodes: seq<Node>

    ghost predicate Valid()
      reads this
    {
      WellFormed(nodes)
    }

    constructor ()
      ensures Valid() && nodes == []
    {
      nodes := [];
    }

    /** `node_new` (`mpq_dir_node_new`, `mpq_file_node_new`): a node with no children, not yet listed by its parent. */
    method NewNode(name: string, parent: int, kind: Kind) returns (n: nat)
      requires -1 <= parent < |nodes|
      modifies this
      ensures n == old(|nodes|) && nodes == old(nodes) + [Node(name, parent, [], kind)]
      ensures old(Valid()) ==> Valid()
    {
      if Valid() {
        NewNodeWellFormed(nodes, name, parent, kind);
      }
      n := |nodes|;
      nodes := nodes + [Node(name, parent, [], kind)];
    }

    /** `node_add_child`: skip the children whose names sort no later than the new one and insert it before the first that sorts after. */
    method AddChild(p: nat, c: nat)
      requires p < |nodes| && c < |nodes| && ChildrenIn(nodes, nodes[p].childs)
      modifies this
      ensures nodes == AddedChild(old(nodes), p, c)
    {
      var kids := nodes[p].childs;
      var name := nodes[c].name;
      var i := 0;
      while i < |kids| && !Less(name, nodes[kids[i]].name)
        invariant 0 <= i <= |kids|
        invariant forall j :: 0 <= j < i ==> !Less(name, nodes[kids[j]].name)
      {
        i := i + 1;
      }
      InsertionPointUnique(Names(nodes, kids), name, i);
      nodes := nodes[p := nodes[p].(childs := kids[..i] + [c] + kids[i..])];
    }

    /** The recursion of `node_get_path`, writing into a fresh buffer of at least one byte. */
    method WritePath(i: nat, b: TextBuffer)
      requires ParentsBefore(nodes) && i < |nodes|
      requires b.Valid() && b.written == [] && b.capacity >= 1
      modifies b
      ensures b.Valid() && b.text == Fit(PathText(nodes, i), b.capacity)
      ensures b.capacity >= 2 ==> b.written == PathText(nodes, i)
      decreases i
    {
      var n := nodes[i];
      if n.parent < 0 {
        b.Append(n.name);
        return;
      }
      WritePath(n.parent, b);
      ghost var up := PathText(nodes, n.parent);
      if b.capacity >= 2 {
        FitEmpty(up, b.capacity);
      }
      if b.text != [] {
        b.Append("\\");
      }
      b.Append(n.name);
    }

    /** `node_get_path(node, str, len)`: the node's path, cut to what a buffer of len bytes holds. */
    method GetPath(i: nat, len: nat) returns (path: string)
      requires ParentsBefore(nodes) && i < |nodes| && len >= 1
      ensures path == Fit(PathText(nodes, i), len)
    {
      var b := new TextBuffer(len);
      WritePath(i, b);
      path := b.text;
    }
  }

  // ---------------------------------------------------------------------
  // Choosing a display
  // ---------------------------------------------------------------------

  /** The display constructors a file can be opened with. */
  datatype Display = BlpDisplay | DbcDisplay | BlsDisplay | WdlDisplay | WdtDisplay | AdtDisplay
                   | M2Display | ImgDisplay | TxtDisplay

  /** `display_constructors`, in table order. */
  const DisplayConstructors: seq<(string, Display)> := [
    (".blp", BlpDisplay), (".dbc", DbcDisplay), (".bls", BlsDisplay), (".wdl", WdlDisplay),
    (".wdt", WdtDisplay), (".adt", AdtDisplay), (".m2", M2Display), (".mdl", M2Display),
    (".mdx", M2Display), (".gif", ImgDisplay), (".png", ImgDisplay), (".jpg", ImgDisplay),
    (".jpeg", ImgDisplay), (".tiff", ImgDisplay), (".js", TxtDisplay), (".xml", TxtDisplay),
    (".lua", TxtDisplay), (".wtf", TxtDisplay), (".wfx", TxtDisplay), (".ini", TxtDisplay),
    (".txt", TxtDisplay), (".toc", TxtDisplay), (".url", TxtDisplay), (".css", TxtDisplay),
    (".html", TxtDisplay), (".zmp", TxtDisplay)]

  /** `is_ext`: false when the extension is longer than the path, otherwise whether the path's tail equals it. */
  function IsExt(path: string, ext: string): bool
  {
    |path| >= |ext| && path[|path| - |ext|..] == ext
  }

  /** `is_ext` holds exactly when the path is some string followed by the extension. */
  lemma IsExtSuffix(path: string, ext: string)
    ensures IsExt(path, ext) <==> exists front :: path == front + ext
  {
    if IsExt(path, ext) {
      var front := path[..|path| - |ext|];
      assert path == front + ext;
    }
    if exists front :: path == front + ext {
      var front :| path == front + ext;
      assert path[|front|..] == ext;
    }
  }

  /** The display of the first table entry from j on whose extension ends the path; the text display when none does. */
  function DisplayFrom(path: string, j: nat): Display
    decreases |DisplayConstructors| - j
  {
    if j >= |DisplayConstructors| then TxtDisplay
    else if IsExt(path, DisplayConstructors[j].0) then DisplayConstructors[j].1
    else DisplayFrom(path, j + 1)
  }

  function DisplayFor(path: string): Display
  {
    DisplayFrom(path, 0)
  }

  /** From j on, the first matching entry wins; with no match from j on, the text display. */
  lemma {:induction false} DisplayFromFirstMatch(path: string, j: nat, m: nat)
    requires j <= m <= |DisplayConstructors|
    requires forall k :: j <= k < m ==> !IsExt(path, DisplayConstructors[k].0)
    requires m < |DisplayConstructors| ==> IsExt(path, DisplayConstructors[m].0)
    ensures DisplayFrom(path, j) == if m < |DisplayConstructors| then DisplayConstructors[m].1 else TxtDisplay
    decreases m - j
  {
    if j < m {
      DisplayFromFirstMatch(path, j + 1, m);
    }
  }

  /** The display a file opens with: that of the first entry in table order whose extension ends its path, or the text display. */
  lemma DisplayForFirstMatch(path: string, m: nat)
    requires m <= |DisplayConstructors|
    requires forall k :: 0 <= k < m ==> !IsExt(path, DisplayConstructors[k].0)
    requires m < |DisplayConstructors| ==> IsExt(path, DisplayConstructors[m].0)
    ensures DisplayFor(path) == if m < |DisplayConstructors| then DisplayConstructors[m].1 else TxtDisplay
  {
    DisplayFromFirstMatch(path, 0, m);
  }

  /** The search loop of `mpq_file_on_click`: the first entry whose extension ends the path, else the text display. */
  method FindDisplay(path: string) returns (d: Display)
    ensures d == DisplayFor(path)
  {
    var i := 0;
    while i < |DisplayConstructors|
      invariant 0 <= i <= |DisplayConstructors|
      invariant DisplayFrom(path, i) == DisplayFor(path)
    {
      if IsExt(path, DisplayConstructors[i].0) {
        return DisplayConstructors[i].1;
      }
      i := i + 1;
    }
    d := TxtDisplay;
  }
}
