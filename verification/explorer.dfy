/**
 * The explorer's side of the archive listing: the listfile of every
 * archive is cut into lines, each line into `\`-separated components, and
 * each path is added to the node tree (`load_files`, `add_mpq_file`); file
 * names are normalised before they are looked up in the archives
 * (`normalize_mpq_filename`).
 *
 * Two inputs make the original loop forever: an empty listfile line and an
 * empty path component (a leading `\` or two in a row). The model reports
 * these as a `Hangs` outcome and stops there.
 */
module Explorer {
  import opened Bits
  import opened Text
  import opened Nodes

  // ---------------------------------------------------------------------
  // Characters and C strings
  // ---------------------------------------------------------------------

  /** `toupper` in the C locale; the program runs in the environment's locale, which may map other characters. */
  function ToUpper(c: char): char
  {
    if 'a' <= c <= 'z' then (c as int - 32) as char else c
  }

  /** `tolower` in the C locale; the program runs in the environment's locale, which may map other characters. */
  function ToLower(c: char): char
  {
    if 'A' <= c <= 'Z' then (c as int + 32) as char else c
  }

  /** A string with every character passed through `tolower`. */
  function Lower(s: string): (r: string)
  {
    seq(|s|, i requires 0 <= i < |s| => ToLower(s[i]))
  }

  /** The length of the C string a buffer holds: the position of its first NUL, or the whole buffer. */
  function CLength(s: seq<char>): (n: nat)
    ensures n <= |s| && (forall i :: 0 <= i < n ==> s[i] != '\0') && (n < |s| ==> s[n] == '\0')
  {
    if |s| == 0 || s[0] == '\0' then 0 else 1 + CLength(s[1..])
  }

  /** The first NUL is the only position with no NUL before it. */
  lemma CLengthUnique(s: seq<char>, n: nat)
    requires n <= |s| && (forall i :: 0 <= i < n ==> s[i] != '\0') && (n < |s| ==> s[n] == '\0')
    ensures CLength(s) == n
  {
  }

  // ---------------------------------------------------------------------
  // normalize_mpq_filename
  // ---------------------------------------------------------------------

  function NormalChar(c: char): char
  {
    if c == '/' then '\\' else ToUpper(c)
  }

  /** The buffer after `normalize_mpq_filename`: the C string rewritten character by character, the rest untouched. */
  function Normalized(s: seq<char>): seq<char>
  {
    var n := CLength(s);
    seq(|s|, i requires 0 <= i < |s| => if i < n then NormalChar(s[i]) else s[i])
  }

  /**
   * After normalisation the buffer and its C string keep their lengths, no
   * `/` and no lower-case letter is left in the string, and each character
   * is the original one up to case, or a `\` where there was a `/`.
   */
  lemma NormalizedForm(s: seq<char>)
    ensures var r := Normalized(s);
            |r| == |s| && CLength(r) == CLength(s) &&
            (forall i :: 0 <= i < CLength(s) ==> r[i] != '/' && !('a' <= r[i] <= 'z')) &&
            (forall i :: 0 <= i < CLength(s) ==> (if s[i] == '/' then r[i] == '\\' else ToUpper(r[i]) == ToUpper(s[i])))
  {
    var r := Normalized(s);
    CLengthUnique(r, CLength(s));
  }

  /** Normalising twice is normalising once. */
  lemma NormalizedIdempotent(s: seq<char>)
    ensures Normalized(Normalized(s)) == Normalized(s)
  {
    NormalizedForm(s);
  }

  /** `normalize_mpq_filename`: rewrite the C string in place, `/` to `\` and everything else through `toupper`. */
  method NormalizeMpqFilename(filename: array<char>)
    requires CLength(filename[..]) < filename.Length
    modifies filename
    ensures filename[..] == Normalized(old(filename[..]))
  {
    ghost var n := CLength(filename[..]);
    var i := 0;
    while filename[i] != '\0'
      invariant 0 <= i <= n
      invariant forall j :: 0 <= j < i ==> filename[j] == NormalChar(old(filename[j]))
      invariant forall j :: i <= j < filename.Length ==> filename[j] == old(filename[j])
      decreases n - i
    {
      if filename[i] == '/' {
        filename[i] := '\\';
      } else {
        filename[i] := ToUpper(filename[i]);
      }
      i := i + 1;
    }
  }

  // ---------------------------------------------------------------------
  // Cutting at a separator (the strchr / memchr loops)
  // ---------------------------------------------------------------------

  /** `strchr` / `memchr` from position `from`: the first position holding c, or the end. */
  function IndexFrom(s: string, from: nat, c: char): (k: nat)
    requires from <= |s|
    ensures from <= k <= |s| && (k < |s| ==> s[k] == c) && forall j :: from <= j < k ==> s[j] != c
    decreases |s| - from
  {
    if from == |s| || s[from] == c then from else IndexFrom(s, from + 1, c)
  }

  /**
   * What the search loops make of a string: the pieces before each
   * separator, what follows the last separator, and whether the loop gets
   * stuck at an empty piece, where `pos == prev` skips the separator without
   * moving `prev` and the search finds the same separator again forever.
   */
  datatype Pieces = Pieces(parts: seq<string>, rest: string, stuck: bool)

  /** A piece the loops can cut out: not empty, no separator inside. */
  predicate Piece(p: string, sep: char)
  {
    |p| > 0 && Free(p, sep)
  }

  /** No separator in the string. */
  predicate Free(p: string, sep: char)
  {
    forall i :: 0 <= i < |p| ==> p[i] != sep
  }

  function Cut(s: string, prev: nat, sep: char): Pieces
    requires prev <= |s|
    decreases |s| - prev
  {
    var pos := IndexFrom(s, prev, sep);
    if pos == |s| then Pieces([], s[prev..], false)
    else if pos == prev then Pieces([], s[prev..], true)
    else
      var more := Cut(s, pos + 1, sep);
      Pieces([s[prev..pos]] + more.parts, more.rest, more.stuck)
  }

  /** Every piece is a proper one; the rest holds no separator, unless the loop got stuck, and then it starts with one. */
  lemma {:induction false} CutPieces(s: string, prev: nat, sep: char)
    requires prev <= |s|
    ensures var r := Cut(s, prev, sep);
            (forall j :: 0 <= j < |r.parts| ==> Piece(r.parts[j], sep)) &&
            (r.stuck ==> |r.rest| > 0 && r.rest[0] == sep) &&
            (!r.stuck ==> Free(r.rest, sep))
    decreases |s| - prev
  {
    var pos := IndexFrom(s, prev, sep);
    if pos == |s| {
      assert forall j :: 0 <= j < |s| - prev ==> s[prev..][j] == s[prev + j];
    } else if pos != prev {
      CutPieces(s, pos + 1, sep);
      var more := Cut(s, pos + 1, sep);
      var piece := s[prev..pos];
      assert forall j :: 0 <= j < |piece| ==> piece[j] == s[prev + j];
      assert forall j :: 1 <= j < |[piece] + more.parts| ==> ([piece] + more.parts)[j] == more.parts[j - 1];
    }
  }

  /** Past a non-empty piece, cutting goes on after its separator. */
  lemma CutStep(s: string, prev: nat, sep: char, pos: nat, next: nat)
    requires prev <= |s| && pos == IndexFrom(s, prev, sep) && prev < pos < |s| && next == pos + 1
    ensures var more := Cut(s, next, sep);
            Cut(s, prev, sep) == Pieces([s[prev..pos]] + more.parts, more.rest, more.stuck)
  {
  }

  /** Pieces each followed by the separator. */
  function Glue(parts: seq<string>, sep: char): string
  {
    if |parts| == 0 then "" else parts[0] + [sep] + Glue(parts[1..], sep)
  }

  lemma GlueCons(p: string, parts: seq<string>, sep: char)
    ensures Glue([p] + parts, sep) == p + [sep] + Glue(parts, sep)
  {
    ConsTail(p, parts);
  }

  /** The tail of x followed by xs is xs. */
  lemma ConsTail<T>(x: T, xs: seq<T>)
    ensures ([x] + xs)[1..] == xs
  {
  }

  /** Dropping i elements, then one more. */
  lemma DropOne<T>(xs: seq<T>, i: nat)
    requires i < |xs|
    ensures xs[i..][0] == xs[i] && xs[i..][1..] == xs[i + 1..]
  {
  }

  lemma HeadTail<T>(xs: seq<T>)
    requires |xs| > 0
    ensures [xs[0]] + xs[1..] == xs
  {
  }

  /** A string from a on, split at position k. */
  lemma SplitAt(s: string, a: nat, k: nat)
    requires a <= k < |s|
    ensures s[a..] == s[a..k] + [s[k]] + s[k + 1..]
  {
  }

  /** Cutting loses nothing: the pieces glued back, then the rest, are the string. */
  lemma {:induction false} CutGlue(s: string, prev: nat, sep: char)
    requires prev <= |s|
    ensures var r := Cut(s, prev, sep); s[prev..] == Glue(r.parts, sep) + r.rest
    decreases |s| - prev
  {
    var pos := IndexFrom(s, prev, sep);
    var c := Cut(s, prev, sep);
    if pos < |s| && pos != prev {
      var r := Cut(s, pos + 1, sep);
      var piece := s[prev..pos];
      assert c == Pieces([piece] + r.parts, r.rest, r.stuck);
      assert s[pos + 1..] == Glue(r.parts, sep) + r.rest by {
        CutGlue(s, pos + 1, sep);
      }
      assert Glue(c.parts, sep) == piece + [sep] + Glue(r.parts, sep) by {
        GlueCons(piece, r.parts, sep);
      }
      assert s[prev..] == piece + [sep] + s[pos + 1..] by {
        SplitAt(s, prev, pos);
      }
    } else {
      assert c.parts == [] && c.rest == s[prev..];
    }
  }

  /** Proper pieces glued together and a rest without separator are cut back into exactly those. */
  lemma {:induction false} GlueCut(s: string, prev: nat, sep: char, parts: seq<string>, rest: string)
    requires prev <= |s| && s[prev..] == Glue(parts, sep) + rest
    requires (forall j :: 0 <= j < |parts| ==> Piece(parts[j], sep)) && Free(rest, sep)
    ensures Cut(s, prev, sep) == Pieces(parts, rest, false)
    decreases |parts|
  {
    if |parts| == 0 {
      assert forall j :: prev <= j < |s| ==> s[j] == s[prev..][j - prev];
    } else {
      var p, more := parts[0], parts[1..];
      HeadTail(parts);
      var tail := Glue(more, sep) + rest;
      assert s[prev..] == p + [sep] + tail by {
        GlueCons(p, more, sep);
      }
      var pos, next := PieceFirst(s, prev, sep, p, tail);
      CutStep(s, prev, sep, pos, next);
      GlueCut(s, next, sep, more, rest);
    }
  }

  /** A string from prev on that starts with a proper piece and a separator: the search stops right after the piece. */
  lemma PieceFirst(s: string, prev: nat, sep: char, p: string, tail: string) returns (pos: nat, next: nat)
    requires prev <= |s| && s[prev..] == p + [sep] + tail && Piece(p, sep)
    ensures pos == IndexFrom(s, prev, sep) == prev + |p| && prev < pos < |s| && next == pos + 1
    ensures s[prev..pos] == p && s[next..] == tail
  {
    var end := prev + |p|;
    assert s[end] == s[prev..][|p|];
    forall j | prev <= j < end
      ensures s[j] != sep
    {
      assert s[j] == s[prev..][j - prev];
    }
    assert s[end + 1..] == s[prev..][|p| + 1..];
    assert s[prev..end] == s[prev..][..|p|];
    pos, next := end, end + 1;
  }

  /** An empty piece at j: a separator at the very start or right after another. */
  predicate EmptyPieceAt(s: string, j: nat, sep: char)
    requires j < |s|
  {
    s[j] == sep && (j == 0 || s[j - 1] == sep)
  }

  /** The loop gets stuck exactly when the string has an empty piece. */
  lemma {:induction false} CutStuck(s: string, prev: nat, sep: char)
    requires prev <= |s| && (prev == 0 || s[prev - 1] == sep)
    ensures Cut(s, prev, sep).stuck <==> exists j :: prev <= j < |s| && EmptyPieceAt(s, j, sep)
    decreases |s| - prev
  {
    var pos := IndexFrom(s, prev, sep);
    if pos == |s| {
      forall j | prev <= j < |s|
        ensures !EmptyPieceAt(s, j, sep)
      {
      }
    } else if pos == prev {
      assert EmptyPieceAt(s, prev, sep);
    } else {
      CutStuck(s, pos + 1, sep);
      forall j | prev <= j <= pos
        ensures !EmptyPieceAt(s, j, sep)
      {
        if j < pos {
          assert s[j] != sep;
        } else {
          assert s[pos - 1] != sep;
        }
      }
    }
  }

  // ---------------------------------------------------------------------
  // add_mpq_file, as a function of the node list
  // ---------------------------------------------------------------------

  /** `char dir[512]` filled by `snprintf` with one component, then lower-cased. */
  function DirName(piece: string): string
  {
    Lower(Fit(piece, 512))
  }

  /** One trailing carriage return removed. */
  function DropCr(s: string): string
  {
    if |s| > 0 && s[|s| - 1] == '\r' then s[..|s| - 1] else s
  }

  /** `char file[512]` filled by `snprintf` with the last component, lower-cased, without one trailing carriage return. */
  function FileName(rest: string): string
  {
    DropCr(Lower(Fit(rest, 512)))
  }

  /** The first position holding `name`, or the end. */
  function FindPos(names: seq<string>, name: string): (k: nat)
    ensures k <= |names| && (forall j :: 0 <= j < k ==> names[j] != name) && (k < |names| ==> names[k] == name)
  {
    if |names| == 0 || names[0] == name then 0 else 1 + FindPos(names[1..], name)
  }

  lemma FindPosUnique(names: seq<string>, name: string, k: nat)
    requires k <= |names| && (forall j :: 0 <= j < k ==> names[j] != name) && (k < |names| ==> names[k] == name)
    ensures FindPos(names, name) == k
  {
  }

  /** The child of node p named `name` that the search loops of `add_mpq_file` find (the first in child order), or -1 when there is none. */
  function Child(nodes: seq<Node>, p: nat, name: string): (c: int)
    requires WellFormed(nodes) && p < |nodes|
    ensures ChildrenOf(nodes, p)
    ensures c == -1 <==> forall k :: 0 <= k < |nodes[p].childs| ==> nodes[nodes[p].childs[k]].name != name
    ensures c != -1 ==> 0 <= c < |nodes| && nodes[c].name == name && nodes[c].parent == p
  {
    assert ChildrenOf(nodes, p);
    var kids := nodes[p].childs;
    var names := Names(nodes, kids);
    var k := FindPos(names, name);
    assert forall j :: 0 <= j < |kids| ==> names[j] == nodes[kids[j]].name;
    if k < |kids| then kids[k] else -1
  }

  /** A new node named `name` of the given kind, created under p and inserted among p's children by `node_add_child`. */
  function AddLeaf(nodes: seq<Node>, p: nat, name: string, kind: Kind): (r: seq<Node>)
    requires WellFormed(nodes) && p < |nodes|
    ensures WellFormed(r) && |r| == |nodes| + 1
  {
    NewNodeWellFormed(nodes, name, p, kind);
    var grown := nodes + [Node(name, p, [], kind)];
    assert ChildrenOf(grown, p);
    AddChildWellFormed(grown, p, |nodes|);
    AddedChild(grown, p, |nodes|)
  }

  /** One directory component: descend into the child of that name, or create it first. */
  function EnterDir(nodes: seq<Node>, p: nat, name: string): (r: (seq<Node>, nat))
    requires WellFormed(nodes) && p < |nodes|
    ensures WellFormed(r.0) && r.1 < |r.0| && |nodes| <= |r.0|
  {
    var c := Child(nodes, p, name);
    if c >= 0 then (nodes, c) else (AddLeaf(nodes, p, name, Dir), |nodes|)
  }

  /** The directory components in turn, from node p down. */
  function EnterDirs(nodes: seq<Node>, p: nat, pieces: seq<string>): (r: (seq<Node>, nat))
    requires WellFormed(nodes) && p < |nodes|
    ensures WellFormed(r.0) && r.1 < |r.0| && |nodes| <= |r.0|
    decreases |pieces|
  {
    if |pieces| == 0 then (nodes, p)
    else
      var e := EnterDir(nodes, p, DirName(pieces[0]));
      EnterDirs(e.0, e.1, pieces[1..])
  }

  lemma EnterDirsCons(nodes: seq<Node>, p: nat, piece: string, pieces: seq<string>)
    requires WellFormed(nodes) && p < |nodes|
    ensures EnterDirs(nodes, p, [piece] + pieces) ==
            var e := EnterDir(nodes, p, DirName(piece)); EnterDirs(e.0, e.1, pieces)
  {
    ConsTail(piece, pieces);
  }

  /**
   * The state of the loop of `add_mpq_file` at `prev`, on the way to
   * entering all the directory components of `whole` from the root (`goal`):
   * entering the components still ahead from `parent` reaches the goal, and
   * the cut ends as the whole path's does.
   */
  predicate Entering(nodes: seq<Node>, parent: nat, path: string, prev: nat, whole: Pieces, goal: (seq<Node>, nat))
    requires WellFormed(nodes) && parent < |nodes| && prev <= |path|
  {
    var cut := Cut(path, prev, '\\');
    (EnterDirs(nodes, parent, cut.parts), cut.stuck, cut.rest) == (goal, whole.stuck, whole.rest)
  }

  /** Entering the component before the separator at `pos` moves the loop on past that separator. */
  lemma AdvanceStep(nodes: seq<Node>, p: nat, path: string, prev: nat, pos: nat, after: nat, whole: Pieces,
                    goal: (seq<Node>, nat))
    requires WellFormed(nodes) && p < |nodes| && prev < pos < |path| && pos == IndexFrom(path, prev, '\\') && after == pos + 1
    requires Entering(nodes, p, path, prev, whole, goal)
    ensures var e := EnterDir(nodes, p, DirName(path[prev..pos]));
            Entering(e.0, e.1, path, after, whole, goal)
  {
    CutStep(path, prev, '\\', pos, after);
    var more := Cut(path, after, '\\');
    EnterDirsCons(nodes, p, path[prev..pos], more.parts);
  }

  /** The node list after `add_mpq_file`, whether it added a file node, and whether it never returns. */
  datatype Added = Added(nodes: seq<Node>, newFile: bool, hangs: bool)

  /**
   * `add_mpq_file` on the node list: every directory component is entered
   * (created when missing); a final component, if any, becomes a file node
   * unless a child of that name is already there. Cutting stops at an empty
   * component, where the original hangs.
   */
  function AddPath(nodes: seq<Node>, root: nat, path: string): (r: Added)
    requires WellFormed(nodes) && root < |nodes|
    ensures WellFormed(r.nodes) && |nodes| <= |r.nodes|
  {
    var cut := Cut(path, 0, '\\');
    var e := EnterDirs(nodes, root, cut.parts);
    if cut.stuck then Added(e.0, false, true)
    else if cut.rest == "" || Child(e.0, e.1, FileName(cut.rest)) >= 0 then Added(e.0, false, false)
    else Added(AddLeaf(e.0, e.1, FileName(cut.rest), File), true, false)
  }

  /** `explorer->files_count` after one more file: a 32-bit unsigned increment. */
  function Increment(count: uint32): uint32
  {
    (count + 1) % 0x1_0000_0000
  }

  // ---------------------------------------------------------------------
  // load_files, as a function of the node list
  // ---------------------------------------------------------------------

  /**
   * How loading ends: normally, in the endless loop of an empty line or an
   * empty path component, or at `path[len - 1]` with `len == 0`, a read
   * before the start of the line buffer (a line that starts with NUL).
   */
  datatype Stop = Finished | Hangs | OutOfBounds

  /** The node list and file count when loading stops, and how it stops. */
  datatype Loaded = Loaded(nodes: seq<Node>, filesCount: uint32, stop: Stop)

  /** `char path[256]` filled by `snprintf("%.*s")` with one line: up to its first NUL, at most 255 characters. */
  function LineCopy(line: string): string
  {
    Fit(line[..CLength(line)], 256)
  }

  /** The file count after `add_mpq_file` did or did not add a file node. */
  function CountAfter(count: uint32, a: Added): uint32
  {
    if a.newFile then Increment(count) else count
  }

  /** The lines in turn: each copied, stripped of one trailing carriage return and added as a path. */
  function LoadLines(nodes: seq<Node>, root: nat, count: uint32, lines: seq<string>): (r: Loaded)
    requires WellFormed(nodes) && root < |nodes|
    ensures WellFormed(r.nodes) && root < |r.nodes| && |nodes| <= |r.nodes|
    decreases |lines|
  {
    if |lines| == 0 then Loaded(nodes, count, Finished)
    else
      var copy := LineCopy(lines[0]);
      if |copy| == 0 then Loaded(nodes, count, OutOfBounds)
      else
        var a := AddPath(nodes, root, DropCr(copy));
        if a.hangs then Loaded(a.nodes, CountAfter(count, a), Hangs)
        else LoadLines(a.nodes, root, CountAfter(count, a), lines[1..])
  }

  /**
   * The `memchr` loop of `load_files` over one listfile from offset `prev`:
   * the newline-terminated lines up to the first empty one, where the loop
   * sticks. Text after the last newline is never read.
   */
  function LoadFrom(nodes: seq<Node>, root: nat, count: uint32, data: string, prev: nat): (r: Loaded)
    requires WellFormed(nodes) && root < |nodes| && prev <= |data|
    ensures WellFormed(r.nodes) && root < |r.nodes| && |nodes| <= |r.nodes|
  {
    var cut := Cut(data, prev, '\n');
    var r := LoadLines(nodes, root, count, cut.parts);
    if r.stop == Finished && cut.stuck then r.(stop := Hangs) else r
  }

  /** The `(listfile)` of one archive: missing, or its bytes. */
  datatype Listfile = Missing | Listfile(data: string)

  /** The archives in turn; a missing listfile is skipped. */
  function LoadArchives(nodes: seq<Node>, root: nat, count: uint32, listfiles: seq<Listfile>): (r: Loaded)
    requires WellFormed(nodes) && root < |nodes|
    ensures WellFormed(r.nodes) && root < |r.nodes| && |nodes| <= |r.nodes|
    decreases |listfiles|
  {
    if |listfiles| == 0 then Loaded(nodes, count, Finished)
    else match listfiles[0]
      case Missing => LoadArchives(nodes, root, count, listfiles[1..])
      case Listfile(data) =>
        var r := LoadFrom(nodes, root, count, data, 0);
        if r.stop != Finished then r else LoadArchives(r.nodes, root, r.filesCount, listfiles[1..])
  }

  /** The node list with a new root directory named "" appended, as `load_files` starts. */
  function WithRoot(nodes: seq<Node>): (r: seq<Node>)
    requires WellFormed(nodes)
    ensures WellFormed(r) && |r| == |nodes| + 1 && r[..|nodes|] == nodes
    ensures r[|nodes|] == Node("", -1, [], Dir)
  {
    NewNodeWellFormed(nodes, "", -1, Dir);
    nodes + [Node("", -1, [], Dir)]
  }

  /** Where the loop stops: at the end when no newline is left, stuck at once when the next line is empty. */
  lemma LoadEnd(nodes: seq<Node>, root: nat, count: uint32, data: string, prev: nat)
    requires WellFormed(nodes) && root < |nodes| && prev <= |data|
    ensures IndexFrom(data, prev, '\n') == |data| ==> LoadFrom(nodes, root, count, data, prev) == Loaded(nodes, count, Finished)
    ensures IndexFrom(data, prev, '\n') == prev < |data| ==> LoadFrom(nodes, root, count, data, prev) == Loaded(nodes, count, Hangs)
  {
  }

  /** The state of the loop of `load_files` at `prev`: loading the rest of the listfile from here ends as `goal`. */
  predicate LoadingFrom(nodes: seq<Node>, root: nat, count: uint32, data: string, prev: nat, goal: Loaded)
    requires WellFormed(nodes) && root < |nodes| && prev <= |data|
  {
    LoadFrom(nodes, root, count, data, prev) == goal
  }

  /** One line of the loop: the line before the newline at `pos` is loaded, then the loop goes on after it. */
  lemma LoadStep(nodes: seq<Node>, root: nat, count: uint32, data: string, prev: nat, pos: nat, next: nat)
    requires WellFormed(nodes) && root < |nodes|
    requires prev <= |data| && prev < pos < |data| && pos == IndexFrom(data, prev, '\n') && next == pos + 1
    ensures var copy := LineCopy(data[prev..pos]);
            var a := AddPath(nodes, root, DropCr(copy));
            LoadFrom(nodes, root, count, data, prev) ==
              if |copy| == 0 then Loaded(nodes, count, OutOfBounds)
              else if a.hangs then Loaded(a.nodes, CountAfter(count, a), Hangs)
              else LoadFrom(a.nodes, root, CountAfter(count, a), data, next)
  {
    CutStep(data, prev, '\n', pos, next);
    var more := Cut(data, next, '\n');
    ConsTail(data[prev..pos], more.parts);
  }

  // ---------------------------------------------------------------------
  // What loading does to the tree
  // ---------------------------------------------------------------------

  /** A tree as the explorer keeps it: well-formed, every child list in strcmp order and without repeated names. */
  predicate Ordered(nodes: seq<Node>)
  {
    WellFormed(nodes) && SortedChildren(nodes) && UniqueChildren(nodes)
  }

  /** Node y is node x, perhaps with more children. */
  predicate Kept(x: Node, y: Node)
  {
    y.name == x.name && y.parent == x.parent && y.kind == x.kind &&
    forall k :: 0 <= k < |x.childs| ==> x.childs[k] in y.childs
  }

  /** b only adds to a: new nodes at the end, new children, nothing renamed, moved or dropped. */
  predicate Grows(a: seq<Node>, b: seq<Node>)
  {
    |a| <= |b| && forall i :: 0 <= i < |a| ==> Kept(a[i], b[i])
  }

  lemma GrowsTrans(a: seq<Node>, b: seq<Node>, c: seq<Node>)
    requires Grows(a, b) && Grows(b, c)
    ensures Grows(a, c)
  {
    forall i | 0 <= i < |a|
      ensures Kept(a[i], c[i])
    {
      assert Kept(a[i], b[i]) && Kept(b[i], c[i]);
    }
  }

  /** The lower-cased directory names of the components. */
  function DirNames(pieces: seq<string>): (r: seq<string>)
    ensures |r| == |pieces|
  {
    if |pieces| == 0 then [] else [DirName(pieces[0])] + DirNames(pieces[1..])
  }

  lemma Assoc<T>(a: seq<T>, b: seq<T>, c: seq<T>)
    ensures a + b + c == a + (b + c)
  {
  }

  /** Growing a tree leaves the way down to an existing node as it was. */
  lemma {:induction false} ComponentsGrow(a: seq<Node>, b: seq<Node>, i: nat)
    requires ParentsBefore(a) && ParentsBefore(b) && Grows(a, b) && i < |a|
    ensures Components(b, i) == Components(a, i)
    decreases i
  {
    assert Kept(a[i], b[i]);
    if a[i].parent >= 0 {
      ComponentsGrow(a, b, a[i].parent);
    }
  }

  /**
   * A new node named `name` under p: it is the last node, its way down is
   * p's and its name, p lists it, and the rest of the tree only grows.
   */
  lemma AddLeafFacts(nodes: seq<Node>, p: nat, name: string, kind: Kind)
    requires WellFormed(nodes) && p < |nodes|
    ensures var r := AddLeaf(nodes, p, name, kind);
            r[|nodes|] == Node(name, p, [], kind) && |nodes| in r[p].childs && Grows(nodes, r) &&
            Components(r, |nodes|) == Components(nodes, p) + [name]
  {
    var grown := nodes + [Node(name, p, [], kind)];
    var r := AddLeaf(nodes, p, name, kind);
    NewNodeWellFormed(nodes, name, p, kind);
    assert ChildrenOf(grown, p) && ChildrenOf(nodes, p);
    AddedChildShape(grown, p, |nodes|);
    KeptUnderAdd(nodes, p, name, kind);
    assert r[|nodes|] == grown[|nodes|];
    ComponentsGrow(nodes, r, p);
  }

  /** Every old child of p is still listed after the insertion, and no other node changes. */
  lemma KeptUnderAdd(nodes: seq<Node>, p: nat, name: string, kind: Kind)
    requires WellFormed(nodes) && p < |nodes|
    ensures Grows(nodes, AddLeaf(nodes, p, name, kind))
  {
    var grown := nodes + [Node(name, p, [], kind)];
    var r := AddLeaf(nodes, p, name, kind);
    NewNodeWellFormed(nodes, name, p, kind);
    assert ChildrenOf(grown, p) && ChildrenOf(nodes, p);
    AddedChildShape(grown, p, |nodes|);
    var old_ := nodes[p].childs;
    var now := r[p].childs;
    var k := InsertionPoint(Names(grown, old_), name);
    assert now == old_[..k] + [|nodes|] + old_[k..];
    forall j | 0 <= j < |old_|
      ensures old_[j] in now
    {
      if j < k {
        assert now[j] == old_[j];
      } else {
        assert now[j + 1] == old_[j];
      }
    }
    forall i | 0 <= i < |nodes|
      ensures Kept(nodes[i], r[i])
    {
      if i != p {
        assert r[i] == grown[i];
      }
    }
  }

  /** An ordered tree stays ordered when p has no child of that name yet. */
  lemma AddLeafKeepsOrder(nodes: seq<Node>, p: nat, name: string, kind: Kind)
    requires WellFormed(nodes) && p < |nodes| && Ordered(nodes) && Child(nodes, p, name) == -1
    ensures Ordered(AddLeaf(nodes, p, name, kind))
  {
    var grown := nodes + [Node(name, p, [], kind)];
    NewNodeWellFormed(nodes, name, p, kind);
    NewNodeKeepsOrder(nodes, name, p, kind);
    assert ChildrenOf(grown, p) && ChildrenOf(nodes, p);
    AddChildKeepsTreeOrder(grown, p, |nodes|);
  }

  /**
   * One directory component: the node reached is a child of p with that
   * name, existing (and then nothing changes) or new (a directory, the last
   * node); the tree only grows and stays ordered.
   */
  lemma EnterDirFacts(nodes: seq<Node>, p: nat, name: string)
    requires WellFormed(nodes) && p < |nodes|
    ensures var r := EnterDir(nodes, p, name);
            r.0[r.1].name == name && r.0[r.1].parent == p && r.1 in r.0[p].childs && Grows(nodes, r.0) &&
            Components(r.0, r.1) == Components(nodes, p) + [name] &&
            (Child(nodes, p, name) >= 0 ==> r.0 == nodes) &&
            (Child(nodes, p, name) < 0 ==> r.1 == |nodes| && r.0[r.1].kind == Dir) &&
            (Ordered(nodes) ==> Ordered(r.0))
  {
    var c := Child(nodes, p, name);
    if c >= 0 {
      var kids := nodes[p].childs;
      var k := FindPos(Names(nodes, kids), name);
      assert kids[k] == c;
      assert Components(nodes, c) == Components(nodes, p) + [name];
    } else {
      AddLeafFacts(nodes, p, name, Dir);
      if Ordered(nodes) {
        AddLeafKeepsOrder(nodes, p, name, Dir);
      }
    }
  }

  /**
   * The directory components in turn: the node reached lies below p along
   * the lower-cased names, the tree only grows and stays ordered, and when
   * no node was created nothing changed.
   */
  lemma {:induction false} EnterDirsFacts(nodes: seq<Node>, p: nat, pieces: seq<string>)
    requires WellFormed(nodes) && p < |nodes|
    ensures var r := EnterDirs(nodes, p, pieces);
            Grows(nodes, r.0) && Components(r.0, r.1) == Components(nodes, p) + DirNames(pieces) &&
            (|r.0| == |nodes| ==> r.0 == nodes) &&
            (Ordered(nodes) ==> Ordered(r.0))
    decreases |pieces|
  {
    if |pieces| > 0 {
      var e := EnterDir(nodes, p, DirName(pieces[0]));
      var r := EnterDirs(e.0, e.1, pieces[1..]);
      EnterDirFacts(nodes, p, DirName(pieces[0]));
      EnterDirsFacts(e.0, e.1, pieces[1..]);
      GrowsTrans(nodes, e.0, r.0);
      assert Components(r.0, r.1) == Components(nodes, p) + DirNames(pieces) by {
        Assoc(Components(nodes, p), [DirName(pieces[0])], DirNames(pieces[1..]));
      }
    }
  }

  /**
   * `add_mpq_file` only adds to the tree and keeps it ordered; a path
   * already in the tree changes nothing.
   */
  lemma AddPathFacts(nodes: seq<Node>, root: nat, path: string)
    requires WellFormed(nodes) && root < |nodes|
    ensures var a := AddPath(nodes, root, path);
            Grows(nodes, a.nodes) && (Ordered(nodes) ==> Ordered(a.nodes)) &&
            (|a.nodes| == |nodes| ==> a.nodes == nodes && !a.newFile)
  {
    var cut := Cut(path, 0, '\\');
    var e := EnterDirs(nodes, root, cut.parts);
    EnterDirsFacts(nodes, root, cut.parts);
    if !cut.stuck && cut.rest != "" && Child(e.0, e.1, FileName(cut.rest)) < 0 {
      var name := FileName(cut.rest);
      AddLeafFacts(e.0, e.1, name, File);
      if Ordered(nodes) {
        AddLeafKeepsOrder(e.0, e.1, name, File);
      }
      GrowsTrans(nodes, e.0, AddLeaf(e.0, e.1, name, File));
    }
  }

  /**
   * A file node is created exactly when the loop does not hang and the
   * final component adds a node after the directories; it is then the last
   * node, a file, below the root along the directory names and the file
   * name.
   */
  lemma AddPathFile(nodes: seq<Node>, root: nat, path: string)
    requires WellFormed(nodes) && root < |nodes|
    ensures var a := AddPath(nodes, root, path);
            var cut := Cut(path, 0, '\\');
            var dirs := EnterDirs(nodes, root, cut.parts);
            (a.newFile <==> !a.hangs && |a.nodes| > |dirs.0|) &&
            (a.newFile ==> a.nodes[|a.nodes| - 1].kind == File &&
                           Components(a.nodes, |a.nodes| - 1) == Components(nodes, root) + DirNames(cut.parts) + [FileName(cut.rest)])
  {
    var cut := Cut(path, 0, '\\');
    var e := EnterDirs(nodes, root, cut.parts);
    EnterDirsFacts(nodes, root, cut.parts);
    if !cut.stuck && cut.rest != "" && Child(e.0, e.1, FileName(cut.rest)) < 0 {
      var name := FileName(cut.rest);
      var r := AddLeaf(e.0, e.1, name, File);
      var last := |e.0|;
      AddLeafFacts(e.0, e.1, name, File);
      assert AddPath(nodes, root, path) == Added(r, true, false);
      assert last == |r| - 1 && r[last].kind == File;
      Assoc(Components(nodes, root), DirNames(cut.parts), [name]);
    } else {
      assert AddPath(nodes, root, path).nodes == e.0 && !AddPath(nodes, root, path).newFile;
    }
  }

  /** `add_mpq_file` hangs exactly when the path has an empty component: a leading `\` or two in a row. */
  lemma AddPathHangs(nodes: seq<Node>, root: nat, path: string)
    requires WellFormed(nodes) && root < |nodes|
    ensures AddPath(nodes, root, path).hangs <==> exists j :: 0 <= j < |path| && EmptyPieceAt(path, j, '\\')
  {
    CutStuck(path, 0, '\\');
  }

  /** A path ending in `\` adds its directories only: no file node, so `files_count` stays. */
  lemma TrailingSeparator(nodes: seq<Node>, root: nat, path: string)
    requires WellFormed(nodes) && root < |nodes|
    requires |path| > 0 && path[|path| - 1] == '\\'
    ensures !AddPath(nodes, root, path).newFile
  {
    CutPieces(path, 0, '\\');
    CutGlue(path, 0, '\\');
  }

  /** Loading lines only adds to the tree and keeps it ordered. */
  lemma {:induction false} LoadLinesFacts(nodes: seq<Node>, root: nat, count: uint32, lines: seq<string>)
    requires WellFormed(nodes) && root < |nodes|
    ensures var r := LoadLines(nodes, root, count, lines);
            Grows(nodes, r.nodes) && (Ordered(nodes) ==> Ordered(r.nodes))
    decreases |lines|
  {
    if |lines| > 0 && |LineCopy(lines[0])| > 0 {
      var a := AddPath(nodes, root, DropCr(LineCopy(lines[0])));
      AddPathFacts(nodes, root, DropCr(LineCopy(lines[0])));
      if !a.hangs {
        LoadLinesFacts(a.nodes, root, CountAfter(count, a), lines[1..]);
        GrowsTrans(nodes, a.nodes, LoadLines(a.nodes, root, CountAfter(count, a), lines[1..]).nodes);
      }
    }
  }

  /** Loading every archive's listfile only adds to the tree and keeps it ordered. */
  lemma {:induction false} LoadArchivesFacts(nodes: seq<Node>, root: nat, count: uint32, listfiles: seq<Listfile>)
    requires WellFormed(nodes) && root < |nodes|
    ensures var r := LoadArchives(nodes, root, count, listfiles);
            Grows(nodes, r.nodes) && (Ordered(nodes) ==> Ordered(r.nodes))
    decreases |listfiles|
  {
    if |listfiles| > 0 {
      match listfiles[0]
      case Missing =>
        LoadArchivesFacts(nodes, root, count, listfiles[1..]);
      case Listfile(data) =>
        var r := LoadFrom(nodes, root, count, data, 0);
        LoadLinesFacts(nodes, root, count, Cut(data, 0, '\n').parts);
        if r.stop == Finished {
          LoadArchivesFacts(r.nodes, root, r.filesCount, listfiles[1..]);
          GrowsTrans(nodes, r.nodes, LoadArchives(r.nodes, root, r.filesCount, listfiles[1..]).nodes);
        }
    }
  }

  /**
   * `load_files` on an ordered tree (the empty one, to begin with): the new
   * root stays an empty-named root and the tree comes out ordered, whatever
   * the listfiles hold.
   */
  lemma LoadFilesOrdered(nodes: seq<Node>, count: uint32, listfiles: seq<Listfile>)
    requires Ordered(nodes)
    ensures var r := LoadArchives(WithRoot(nodes), |nodes|, count, listfiles);
            Ordered(r.nodes) && r.nodes[|nodes|].name == "" && r.nodes[|nodes|].parent == -1 &&
            r.nodes[|nodes|].kind == Dir
  {
    NewNodeKeepsOrder(nodes, "", -1, Dir);
    var w := WithRoot(nodes);
    LoadArchivesFacts(w, |nodes|, count, listfiles);
    var r := LoadArchives(w, |nodes|, count, listfiles);
    assert Kept(w[|nodes|], r.nodes[|nodes|]);
  }

  /**
   * Lines are cut at `\n`: a listfile made of non-empty lines, each ended by
   * a newline, and then text without one loads exactly those lines; the text
   * after the last newline is never read.
   */
  lemma LoadFromLines(nodes: seq<Node>, root: nat, count: uint32, data: string, lines: seq<string>, tail: string)
    requires WellFormed(nodes) && root < |nodes|
    requires data == Glue(lines, '\n') + tail && Free(tail, '\n')
    requires forall j :: 0 <= j < |lines| ==> Piece(lines[j], '\n')
    ensures LoadFrom(nodes, root, count, data, 0) == LoadLines(nodes, root, count, lines)
  {
    assert data[0..] == data;
    GlueCut(data, 0, '\n', lines, tail);
  }

  /** An empty line (a newline at the start or right after another) stops loading: the original loops there forever. */
  lemma EmptyLineStops(nodes: seq<Node>, root: nat, count: uint32, data: string)
    requires WellFormed(nodes) && root < |nodes|
    requires exists j :: 0 <= j < |data| && EmptyPieceAt(data, j, '\n')
    ensures LoadFrom(nodes, root, count, data, 0).stop != Finished
  {
    CutStuck(data, 0, '\n');
  }

  /** The `tolower` loop over a name buffer. */
  method LowerCase(s: string) returns (r: string)
    ensures r == Lower(s)
  {
    r := s;
    for i := 0 to |r|
      invariant |r| == |s|
      invariant forall j :: 0 <= j < i ==> r[j] == ToLower(s[j])
      invariant forall j :: i <= j < |r| ==> r[j] == s[j]
    {
      r := r[i := ToLower(r[i])];
    }
  }

  // ---------------------------------------------------------------------
  // The explorer
  // ---------------------------------------------------------------------

  /** `struct explorer`, reduced to the node tree, its root and the file count. */
  class Explorer {
    const tree: Tree
    var root: nat
    var filesCount: uint32

    ghost predicate Valid()
      reads this, tree
    {
      WellFormed(tree.nodes) && root < |tree.nodes|
    }

    /** An explorer before its listfiles are loaded: no nodes and no files counted. */
    constructor ()
      ensures fresh(tree) && tree.nodes == [] && filesCount == 0
    {
      tree := new Tree();
      root := 0;
      filesCount := 0;
    }

    /** The search loop of `add_mpq_file`: the first child of `parent` with that name, or -1. */
    method FindChild(parent: nat, name: string) returns (c: int)
      requires Valid() && parent < |tree.nodes|
      ensures c == Child(tree.nodes, parent, name)
    {
      var kids := tree.nodes[parent].childs;
      assert ChildrenOf(tree.nodes, parent);
      ghost var names := Names(tree.nodes, kids);
      var i := 0;
      while i < |kids|
        invariant 0 <= i <= |kids|
        invariant forall j :: 0 <= j < i ==> names[j] != name
      {
        if tree.nodes[kids[i]].name == name {
          FindPosUnique(names, name, i);
          return kids[i];
        }
        i := i + 1;
      }
      FindPosUnique(names, name, i);
      c := -1;
    }

    /** One directory component of `add_mpq_file`: the existing child of that name, or a new directory node inserted under `parent`. */
    method EnterDirectory(parent: nat, dir: string) returns (c: nat)
      requires Valid() && parent < |tree.nodes|
      modifies tree
      ensures Valid() && (tree.nodes, c) == EnterDir(old(tree.nodes), parent, dir)
    {
      var found := FindChild(parent, dir);
      if found >= 0 {
        return found;
      }
      ghost var before := tree.nodes;
      c := tree.NewNode(dir, parent, Dir);
      assert ChildrenOf(tree.nodes, parent);
      tree.AddChild(parent, c);
      assert tree.nodes == AddLeaf(before, parent, dir, Dir);
    }

    /** One directory component of `add_mpq_file` as the loop copies it: `snprintf` into `char dir[512]`, lower-cased, then entered. */
    method EnterPiece(parent: nat, piece: string) returns (next: nat)
      requires Valid() && parent < |tree.nodes|
      modifies tree
      ensures Valid() && (tree.nodes, next) == EnterDir(old(tree.nodes), parent, DirName(piece))
    {
      var dir := LowerCase(Fit(piece, 512));
      next := EnterDirectory(parent, dir);
    }

    /** One turn of the loop of `add_mpq_file`, over the non-empty component before the separator at `pos`. */
    method DirStep(parent: nat, path: string, prev: nat, pos: nat, ghost whole: Pieces, ghost goal: (seq<Node>, nat))
        returns (next: nat, after: nat)
      requires Valid() && parent < |tree.nodes| && prev < pos < |path| && pos == IndexFrom(path, prev, '\\')
      requires Entering(tree.nodes, parent, path, prev, whole, goal)
      modifies tree
      ensures Valid() && next < |tree.nodes| && after == pos + 1 && Entering(tree.nodes, next, path, after, whole, goal)
    {
      after := pos + 1;
      ghost var e := EnterDir(tree.nodes, parent, DirName(path[prev..pos]));
      AdvanceStep(tree.nodes, parent, path, prev, pos, after, whole, goal);
      next := EnterPiece(parent, path[prev..pos]);
      assert tree.nodes == e.0 && next == e.1;
    }

    /** `add_mpq_file`. */
    method AddMpqFile(path: string) returns (hangs: bool)
      requires Valid()
      modifies this, tree
      ensures Valid() && root == old(root)
      ensures var a := AddPath(old(tree.nodes), root, path);
              tree.nodes == a.nodes && hangs == a.hangs && filesCount == CountAfter(old(filesCount), a)
    {
      var parent, prev, stuck := EnterDirectories(path);
      if stuck {
        return true;
      }
      hangs := false;
      AddFinal(parent, path[prev..]);
    }

    /** The loop of `add_mpq_file`: the directory components in turn, until the last separator or an empty component. */
    method EnterDirectories(path: string) returns (parent: nat, prev: nat, stuck: bool)
      requires Valid()
      modifies tree
      ensures Valid() && parent < |tree.nodes| && prev <= |path|
      ensures var whole := Cut(path, 0, '\\');
              (tree.nodes, parent) == EnterDirs(old(tree.nodes), root, whole.parts) &&
              stuck == whole.stuck && (!stuck ==> path[prev..] == whole.rest)
    {
      parent := root;
      prev := 0;
      var pos := IndexFrom(path, prev, '\\');
      ghost var whole := Cut(path, 0, '\\');
      ghost var goal := EnterDirs(tree.nodes, root, whole.parts);
      while pos < |path|
        invariant prev <= pos <= |path| && pos == IndexFrom(path, prev, '\\')
        invariant Valid() && parent < |tree.nodes|
        invariant Entering(tree.nodes, parent, path, prev, whole, goal)
        decreases |path| - prev
      {
        if pos == prev {
          // `pos++; continue` leaves `prev` where it was: the search finds this separator again, forever
          return parent, prev, true;
        }
        parent, prev := DirStep(parent, path, prev, pos, whole, goal);
        pos := IndexFrom(path, prev, '\\');
      }
      stuck := false;
    }

    /** One line of `load_files`, before the newline at `pos`: copied, stripped of a trailing carriage return and added. */
    method LoadLine(data: string, prev: nat, pos: nat, ghost goal: Loaded) returns (stop: Stop, next: nat)
      requires Valid() && prev < pos < |data| && pos == IndexFrom(data, prev, '\n')
      requires LoadingFrom(tree.nodes, root, filesCount, data, prev, goal)
      modifies this, tree
      ensures Valid() && root == old(root)
      ensures next == pos + 1 && (stop == Finished ==> LoadingFrom(tree.nodes, root, filesCount, data, next, goal))
      ensures stop != Finished ==> goal == Loaded(tree.nodes, filesCount, stop)
    {
      next := pos + 1;
      LoadStep(tree.nodes, root, filesCount, data, prev, pos, next);
      var path := LineCopy(data[prev..pos]);
      if |path| == 0 {
        // `path[len - 1]` with `len == 0`
        return OutOfBounds, next;
      }
      if path[|path| - 1] == '\r' {
        path := path[..|path| - 1];
      }
      var hangs := AddMpqFile(path);
      stop := if hangs then Hangs else Finished;
    }

    /** The `memchr` loop of `load_files` over the bytes of one listfile. */
    method LoadListfile(data: string) returns (stop: Stop)
      requires Valid()
      modifies this, tree
      ensures Valid() && root == old(root)
      ensures LoadFrom(old(tree.nodes), root, old(filesCount), data, 0) == Loaded(tree.nodes, filesCount, stop)
    {
      var prev := 0;
      var pos := IndexFrom(data, prev, '\n');
      ghost var goal := LoadFrom(tree.nodes, root, filesCount, data, 0);
      while pos < |data|
        invariant prev <= pos <= |data| && pos == IndexFrom(data, prev, '\n')
        invariant Valid() && root == old(root)
        invariant LoadingFrom(tree.nodes, root, filesCount, data, prev, goal)
        decreases |data| - prev
      {
        if pos == prev {
          // an empty line: as in `add_mpq_file`, the search finds the same newline again, forever
          LoadEnd(tree.nodes, root, filesCount, data, prev);
          return Hangs;
        }
        stop, prev := LoadLine(data, prev, pos, goal);
        if stop != Finished {
          return;
        }
        pos := IndexFrom(data, prev, '\n');
      }
      LoadEnd(tree.nodes, root, filesCount, data, prev);
      stop := Finished;
    }

    /**
     * `load_files`: a new root directory named "", then the listfile of
     * every archive in turn; an archive without one is skipped.
     */
    method LoadFiles(listfiles: seq<Listfile>) returns (stop: Stop)
      requires WellFormed(tree.nodes)
      modifies this, tree
      ensures Valid() && root == |old(tree.nodes)|
      ensures LoadArchives(WithRoot(old(tree.nodes)), root, old(filesCount), listfiles) ==
              Loaded(tree.nodes, filesCount, stop)
    {
      ghost var rooted := WithRoot(tree.nodes);
      root := tree.NewNode("", -1, Dir);
      assert tree.nodes == rooted;
      ghost var goal := LoadArchives(tree.nodes, root, filesCount, listfiles);
      assert listfiles[0..] == listfiles;
      for i := 0 to |listfiles|
        invariant Valid() && root == |old(tree.nodes)|
        invariant LoadArchives(tree.nodes, root, filesCount, listfiles[i..]) == goal
      {
        DropOne(listfiles, i);
        match listfiles[i]
        case Missing =>
          // "failed to get (listfile)" goes to stderr and the archive is skipped
        case Listfile(data) =>
          stop := LoadListfile(data);
          if stop != Finished {
            return;
          }
      }
      stop := Finished;
    }

    /** The end of `add_mpq_file`: the text after the last separator, if any, becomes a file node unless a child of that name exists. */
    method AddFinal(parent: nat, rest: string)
      requires Valid() && parent < |tree.nodes|
      modifies this`filesCount, tree
      ensures Valid()
      ensures var new_ := rest != "" && Child(old(tree.nodes), parent, FileName(rest)) < 0;
              tree.nodes == (if new_ then AddLeaf(old(tree.nodes), parent, FileName(rest), File) else old(tree.nodes)) &&
              filesCount == if new_ then Increment(old(filesCount)) else old(filesCount)
    {
      if |rest| > 0 {
        var file := LowerCase(Fit(rest, 512));
        if file[|file| - 1] == '\r' {
          file := file[..|file| - 1];
        }
        assert file == FileName(rest);
        var found := FindChild(parent, file);
        if found >= 0 {
          return;
        }
        ghost var before := tree.nodes;
        var c := tree.NewNode(file, parent, File);
        assert ChildrenOf(tree.nodes, parent);
        tree.AddChild(parent, c);
        assert tree.nodes == AddLeaf(before, parent, file, File);
        filesCount := Increment(filesCount);
      }
    }
  }
}
