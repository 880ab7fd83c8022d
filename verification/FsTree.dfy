/** The inode table refines a tree: a map from paths to nodes, with a current directory. */
module FsTree {
  import opened FsTable

  type Path = seq<string>
  datatype Node = DirNode | FileNode(content: string)
  datatype Tree = Tree(nodes: map<Path, Node>, cwd: Path)

  // ---- Sibling names ---------------------------------------------------------------------------

  ghost predicate UniqueSiblings(t: Table) {
    forall i: Index, j: Index :: i < j && Live(t, i) && Live(t, j) && t[i].parent == t[j].parent ==> t[i].name != t[j].name
  }

  /** What the caller can check before creating `name`: it is short enough to be stored in full, or the
      part that will be stored is not taken, or no slot is left. */
  predicate Admissible(fs: Fs, op: Op) {
    (op.OpMkdir? || op.OpTouch?) && |op.name| > 16 ==>
      Find(fs.table, op.name[..16], fs.cwd) == NULL_IDX || Alloc(fs.table) == NULL_IDX
  }

  lemma CreateUniqueIff(fs: Fs, kind: Kind, name: string)
    requires UniqueSiblings(fs.table) && kind != Free && Create(fs, kind, name).rc != -1
    ensures UniqueSiblings(Create(fs, kind, name).fs.table) <==> Find(fs.table, Stored(name), fs.cwd) == NULL_IDX
  {
    var t, t', slot: Index := fs.table, Create(fs, kind, name).fs.table, Create(fs, kind, name).rc;
    assert !Live(t, slot) && Live(t', slot) && t'[slot].name == Stored(name) && t'[slot].parent == fs.cwd;
    var k := Find(t, Stored(name), fs.cwd);
    if k != NULL_IDX {
      assert k != slot && Live(t', k) && t'[k] == t[k];
    } else {
      assert forall j: Index :: Live(t, j) && t[j].parent == fs.cwd ==> t[j].name != Stored(name) by {
        assert forall j: Index :: !Matches(t[j], Stored(name), fs.cwd);
      }
    }
  }

  lemma UniqueIfNothingNew(t: Table, t': Table)
    requires UniqueSiblings(t)
    requires forall i: Index :: Live(t', i) ==> Live(t, i) && t'[i].parent == t[i].parent && t'[i].name == t[i].name
    ensures UniqueSiblings(t')
  {
  }

  /** A name too long to be stored in full is never refused as a duplicate. */
  lemma LongNameNotFound(fs: Fs, name: string)
    requires Inv(fs) && |name| > MAX_NAME_LEN
    ensures Find(fs.table, name, fs.cwd) == NULL_IDX
  {
    forall i: Index | Live(fs.table, i)
      ensures |fs.table[i].name| <= MAX_NAME_LEN
    {
      if i != ROOT { assert GoodEntry(fs.table, i); }
    }
  }

  lemma FailsIff(fs: Fs, op: Op)
    requires Inv(fs)
    ensures Apply(fs, op).rc == -1 ==> Apply(fs, op).fs == fs && Admissible(fs, op)
    ensures (op.OpMkdir? || op.OpTouch?) && Alloc(fs.table) == NULL_IDX ==> Apply(fs, op).rc == -1
  {
    if !Admissible(fs, op) {
      LongNameNotFound(fs, op.name);
    }
  }

  /** Sibling names stay unique across an operation exactly when it is admissible: the duplicate check of the
      code looks for the full name, but only sixteen characters are stored. */
  lemma UniqueKeptIff(fs: Fs, op: Op)
    requires Inv(fs) && UniqueSiblings(fs.table)
    ensures UniqueSiblings(Apply(fs, op).fs.table) <==> Admissible(fs, op)
  {
    FailsIff(fs, op);
    if op.OpMkdir? && Apply(fs, op).rc != -1 {
      CreateUniqueIff(fs, Dir, op.name);
    } else if op.OpTouch? && Apply(fs, op).rc != -1 {
      CreateUniqueIff(fs, File, op.name);
    } else {
      UniqueIfNothingNew(fs.table, Apply(fs, op).fs.table);
    }
  }

  /** Making a directory with such a name twice in a row gives two siblings of one name whenever a second
      slot is left. */
  lemma LongNameTwice(fs: Fs, name: string)
    requires Inv(fs) && UniqueSiblings(fs.table) && |name| > 16 && Mkdir(fs, name).rc != -1
    ensures var r1 := Mkdir(fs, name);
            var r2 := Mkdir(r1.fs, name);
            && (r2.rc == -1 <==> Alloc(r1.fs.table) == NULL_IDX)
            && (r2.rc != -1 && UniqueSiblings(r1.fs.table) ==> !UniqueSiblings(r2.fs.table))
  {
    var r1 := Mkdir(fs, name);
    var slot: Index := r1.rc;
    CreateKeepsInv(fs, Dir, name);
    LongNameNotFound(r1.fs, name);
    assert Matches(r1.fs.table[slot], Stored(name), fs.cwd);
    if Mkdir(r1.fs, name).rc != -1 && UniqueSiblings(r1.fs.table) {
      CreateUniqueIff(r1.fs, Dir, name);
    }
  }

  lemma FreshTable(name: string)
    requires name != ""
    ensures var t := Init().table;
            Find(t, name, ROOT) == NULL_IDX && 0 < Alloc(t) < 3 && t[5].kind == Free && UniqueSiblings(t)
  {
    var t := Init().table;
    assert t[1].kind == Free;
  }

  lemma LongNameFirst(name: string)
    requires |name| > MAX_NAME_LEN
    ensures var r := Mkdir(Init(), name); r.rc != -1 && Alloc(r.fs.table) != NULL_IDX && UniqueSiblings(r.fs.table)
  {
    var r := Mkdir(Init(), name);
    InitInv();
    FreshTable(name);
    FreshTable(Stored(name));
    assert r.rc == Alloc(Init().table) && r.fs.table[5].kind == Free;
    UniqueKeptIff(Init(), OpMkdir(name));
  }

  /** The smallest instance: a 17-character directory made twice in a fresh file system. */
  lemma SeventeenCharacters()
    ensures var name := "aaaaaaaaaaaaaaaaa";
            |name| == 17 && !UniqueSiblings(Mkdir(Mkdir(Init(), name).fs, name).fs.table)
  {
    var name := "aaaaaaaaaaaaaaaaa";
    InitInv();
    LongNameFirst(name);
    LongNameTwice(Init(), name);
  }

  // ---- Abstraction -----------------------------------------------------------------------------

  /** The names on the way from the root to `i`. */
  function NamesTo(t: Table, i: Index, d: nat): (p: Path)
    requires AtDepth(t, i, d)
    ensures |p| == d
    decreases d
  {
    if d == 0 then [] else NamesTo(t, t[i].parent, d - 1) + [t[i].name]
  }

  ghost function PathOf(t: Table, i: Index): (p: Path)
    requires Rooted(t, i)
  {
    var d: nat :| AtDepth(t, i, d);
    NamesTo(t, i, d)
  }

  lemma PathOfIs(t: Table, i: Index, d: nat)
    requires AtDepth(t, i, d)
    ensures PathOf(t, i) == NamesTo(t, i, d)
  {
    var e: nat :| AtDepth(t, i, e) && PathOf(t, i) == NamesTo(t, i, e);
    DepthUnique(t, i, d, e);
  }

  lemma LiveRooted(t: Table, i: Index)
    requires Shape(t) && Live(t, i)
    ensures Rooted(t, i)
  {
    if i == ROOT {
      assert AtDepth(t, ROOT, 0);
    } else {
      assert GoodEntry(t, i);
    }
  }

  lemma RootPath(t: Table)
    ensures Rooted(t, ROOT) && PathOf(t, ROOT) == []
  {
    assert AtDepth(t, ROOT, 0);
    PathOfIs(t, ROOT, 0);
  }

  /** The path of an entry extends its parent's by its name. */
  lemma PathOfChild(t: Table, i: Index)
    requires Shape(t) && Live(t, i) && i != ROOT
    ensures Rooted(t, i) && Rooted(t, t[i].parent) && PathOf(t, i) == PathOf(t, t[i].parent) + [t[i].name]
  {
    assert GoodEntry(t, i);
    var d: nat :| AtDepth(t, i, d);
    PathOfIs(t, i, d);
    PathOfIs(t, t[i].parent, d - 1);
  }

  lemma {:induction false} SamePathAtDepth(t: Table, i: Index, j: Index, d: nat)
    requires UniqueSiblings(t) && AtDepth(t, i, d) && AtDepth(t, j, d)
    requires NamesTo(t, i, d) == NamesTo(t, j, d)
    ensures i == j
    decreases d
  {
    if d > 0 {
      var p, q := NamesTo(t, t[i].parent, d - 1), NamesTo(t, t[j].parent, d - 1);
      assert (p + [t[i].name])[..d - 1] == p && (q + [t[j].name])[..d - 1] == q;
      assert (p + [t[i].name])[d - 1] == t[i].name && (q + [t[j].name])[d - 1] == t[j].name;
      SamePathAtDepth(t, t[i].parent, t[j].parent, d - 1);
    }
  }

  lemma PathsInjective(t: Table, i: Index, j: Index)
    requires UniqueSiblings(t) && Rooted(t, i) && Rooted(t, j) && PathOf(t, i) == PathOf(t, j)
    ensures i == j
  {
    var d: nat :| AtDepth(t, i, d);
    var e: nat :| AtDepth(t, j, e);
    PathOfIs(t, i, d);
    PathOfIs(t, j, e);
    SamePathAtDepth(t, i, j, d);
  }

  function NodeOf(e: Entry): Node {
    if e.kind == File then FileNode(e.content) else DirNode
  }

  function LiveSet(t: Table): set<Index> {
    set i: Index | Live(t, i)
  }

  ghost predicate Sound(t: Table) {
    Shape(t) && UniqueSiblings(t)
  }

  ghost function Paths(t: Table): set<Path>
    requires Shape(t)
  {
    assert forall i :: i in LiveSet(t) ==> Rooted(t, i) by {
      forall i | i in LiveSet(t) ensures Rooted(t, i) { LiveRooted(t, i); }
    }
    set i | i in LiveSet(t) :: PathOf(t, i)
  }

  /** The live entry at a path; the only one when sibling names are unique. */
  ghost function EntryAt(t: Table, p: Path): (i: Index)
    requires Shape(t) && p in Paths(t)
    ensures Live(t, i) && Rooted(t, i) && PathOf(t, i) == p
  {
    assert exists i: Index :: Live(t, i) && Rooted(t, i) && PathOf(t, i) == p by {
      forall i | i in LiveSet(t) ensures Rooted(t, i) { LiveRooted(t, i); }
    }
    var i: Index :| Live(t, i) && Rooted(t, i) && PathOf(t, i) == p;
    i
  }

  /** The tree a table stands for. */
  ghost function Abs(t: Table): map<Path, Node>
    requires Shape(t)
  {
    map p | p in Paths(t) :: NodeOf(t[EntryAt(t, p)])
  }

  /** Every live entry is in the tree, at its path. */
  lemma AbsAt(t: Table, i: Index)
    requires Sound(t) && Live(t, i)
    ensures Rooted(t, i) && PathOf(t, i) in Abs(t) && Abs(t)[PathOf(t, i)] == NodeOf(t[i])
  {
    LiveRooted(t, i);
    assert i in LiveSet(t);
    PathsInjective(t, i, EntryAt(t, PathOf(t, i)));
  }

  /** Every path of the tree is the path of a live entry. */
  lemma AbsOnly(t: Table, p: Path) returns (i: Index)
    requires Shape(t) && p in Abs(t)
    ensures Live(t, i) && Rooted(t, i) && PathOf(t, i) == p && Abs(t)[p] == NodeOf(t[i])
  {
    i := EntryAt(t, p);
  }

  ghost function AbsFs(fs: Fs): Tree
    requires Inv(fs) && UniqueSiblings(fs.table)
  {
    LiveRooted(fs.table, fs.cwd);
    Tree(Abs(fs.table), PathOf(fs.table, fs.cwd))
  }

  // ---- Operations on the tree ------------------------------------------------------------------

  /** Nothing lies directly below `p`. */
  ghost predicate Leaf(m: map<Path, Node>, p: Path) {
    forall q :: q in m && |q| == |p| + 1 ==> q[..|p|] != p
  }

  ghost predicate IsFile(m: map<Path, Node>, p: Path) {
    p in m && m[p].FileNode?
  }

  ghost predicate IsDir(m: map<Path, Node>, p: Path) {
    p in m && m[p].DirNode?
  }

  /** The directory `cd name` leads to from the current one. */
  function CdTarget(cwd: Path, name: string): Path {
    if name == "/" then []
    else if name == "." then cwd
    else if name == ".." then (if cwd == [] then [] else cwd[..|cwd| - 1])
    else cwd + [name]
  }

  /** The meaning of an operation on the tree. An operation that succeeds changes exactly one path; one that
      fails changes nothing. The content of a file that was only created is left open. */
  ghost predicate TreeStep(a: Tree, op: Op, a': Tree, ok: bool) {
    var p := a.cwd + [op.name];
    var kept := if |op.name| <= 16 then op.name else op.name[..16];
    match op
    case OpMkdir(name) =>
      && ok == (name != "" && name != "." && name != ".." && p !in a.nodes && |a.nodes| < 32)
      && a' == if ok then a.(nodes := a.nodes[a.cwd + [kept] := DirNode]) else a
    case OpTouch(name) =>
      && ok == (name != "" && p !in a.nodes && |a.nodes| < 32)
      && if ok then exists c :: a' == a.(nodes := a.nodes[a.cwd + [kept] := FileNode(c)]) else a' == a
    case OpWrite(name, data) =>
      && ok == IsFile(a.nodes, p)
      && a' == if ok then a.(nodes := a.nodes[p := FileNode(if |data| <= 255 then data else data[..255])]) else a
    case OpCd(name) =>
      var target := if name == "/" then [] else if name == "." then a.cwd
                    else if name == ".." then (if a.cwd == [] then [] else a.cwd[..|a.cwd| - 1])
                    else p;
      && ok == (name != "" && IsDir(a.nodes, target))
      && a' == if ok then a.(cwd := target) else a
    case OpRm(name) =>
      && ok == IsFile(a.nodes, p)
      && a' == if ok then a.(nodes := a.nodes - {p}) else a
    case OpRmdir(name) =>
      && ok == (name != "." && name != ".." && IsDir(a.nodes, p) && Leaf(a.nodes, p))
      && a' == if ok then a.(nodes := a.nodes - {p}) else a
  }

  // ---- Looking up names ------------------------------------------------------------------------

  /** `fs_find_in` finds the entry at the path that extends the directory's, or there is none. */
  lemma FindIsLookup(t: Table, dir: Index, name: string)
    requires Sound(t) && Live(t, dir) && Rooted(t, dir)
    ensures var k := Find(t, name, dir);
            var p := PathOf(t, dir) + [name];
            && (k != NULL_IDX ==> Live(t, k) && k != ROOT && Rooted(t, k) && PathOf(t, k) == p && p in Abs(t) && Abs(t)[p] == NodeOf(t[k]))
            && (k == NULL_IDX ==> p !in Abs(t))
  {
    var k := Find(t, name, dir);
    var p := PathOf(t, dir) + [name];
    if k != NULL_IDX {
      PathOfChild(t, k);
      AbsAt(t, k);
    } else if p in Abs(t) {
      var i := AbsOnly(t, p);
      ChildAt(t, dir, name, i);
      assert Matches(t[i], name, dir);
    }
  }

  /** The entry at a path that extends a directory's is a child of that directory under that name. */
  lemma ChildAt(t: Table, dir: Index, name: string, i: Index)
    requires Sound(t) && Live(t, dir) && Rooted(t, dir) && Live(t, i) && Rooted(t, i)
    requires PathOf(t, i) == PathOf(t, dir) + [name]
    ensures i != ROOT && t[i].parent == dir && t[i].name == name
  {
    RootPath(t);
    var p := PathOf(t, dir);
    PathOfChild(t, i);
    var q := PathOf(t, t[i].parent);
    assert (p + [name])[..|p|] == p && (q + [t[i].name])[..|q|] == q;
    assert (p + [name])[|p|] == name && (q + [t[i].name])[|q|] == t[i].name;
    PathsInjective(t, t[i].parent, dir);
  }

  lemma ChildMeansNoLeaf(t: Table, i: Index)
    requires Sound(t) && Live(t, i) && t[i].parent != NULL_IDX && Rooted(t, t[i].parent) && i != ROOT
    ensures !Leaf(Abs(t), PathOf(t, t[i].parent))
  {
    PathOfChild(t, i);
    AbsAt(t, i);
    var p, q := PathOf(t, t[i].parent), PathOf(t, i);
    assert q in Abs(t) && |q| == |p| + 1 && q[..|p|] == p;
  }

  lemma NoLeafMeansChild(t: Table, dir: Index)
    requires Sound(t) && Live(t, dir) && Rooted(t, dir) && !Leaf(Abs(t), PathOf(t, dir))
    ensures HasChild(t, dir)
  {
    var p := PathOf(t, dir);
    var q :| q in Abs(t) && |q| == |p| + 1 && q[..|p|] == p;
    var i := AbsOnly(t, q);
    assert q == p + [q[|p|]];
    ChildAt(t, dir, q[|p|], i);
  }

  lemma HasChildIsLeaf(t: Table, dir: Index)
    requires Sound(t) && Live(t, dir) && Rooted(t, dir)
    ensures HasChild(t, dir) <==> !Leaf(Abs(t), PathOf(t, dir))
  {
    if HasChild(t, dir) {
      var i: Index :| t[i].kind != Free && t[i].parent == dir;
      ChildMeansNoLeaf(t, i);
    }
    if !Leaf(Abs(t), PathOf(t, dir)) {
      NoLeafMeansChild(t, dir);
    }
  }

  // ---- Counting --------------------------------------------------------------------------------

  lemma {:induction false} ImageSize(t: Table, s: set<Index>)
    requires Sound(t) && forall i :: i in s ==> Live(t, i) && Rooted(t, i)
    ensures |set i | i in s :: PathOf(t, i)| == |s|
  {
    var image := set i | i in s :: PathOf(t, i);
    if s != {} {
      var x :| x in s;
      var rest := s - {x};
      ImageSize(t, rest);
      var imageRest := set i | i in rest :: PathOf(t, i);
      forall i | i in rest
        ensures PathOf(t, i) != PathOf(t, x)
      {
        if PathOf(t, i) == PathOf(t, x) { PathsInjective(t, i, x); }
      }
      assert image == imageRest + {PathOf(t, x)};
      assert PathOf(t, x) !in imageRest;
    }
  }

  function AllSlots(n: nat): set<Index>
    requires n <= MAX_ENTRIES
  {
    if n == 0 then {} else AllSlots(n - 1) + {n - 1}
  }

  lemma SetGrows(s: set<Index>, x: Index)
    requires x !in s
    ensures |s + {x}| == |s| + 1
  {
  }

  lemma {:induction false} AllSlotsSize(n: nat)
    requires n <= MAX_ENTRIES
    ensures |AllSlots(n)| == n && forall i: Index :: i in AllSlots(n) <==> i < n
  {
    if n > 0 {
      AllSlotsSize(n - 1);
      SetGrows(AllSlots(n - 1), n - 1);
    }
  }

  lemma ProperSubsetSize<T>(a: set<T>, b: set<T>)
    requires a < b
    ensures |a| < |b|
  {
    assert b == a + (b - a);
    assert b - a != {};
  }

  lemma TreeSize(t: Table)
    requires Sound(t)
    ensures |Abs(t)| == |LiveSet(t)|
  {
    var live := LiveSet(t);
    forall i | i in live ensures Rooted(t, i) { LiveRooted(t, i); }
    ImageSize(t, live);
    assert Abs(t).Keys == set i | i in live :: PathOf(t, i);
  }

  lemma FullTable(t: Table)
    ensures Alloc(t) == NULL_IDX <==> |LiveSet(t)| == MAX_ENTRIES
    ensures |LiveSet(t)| <= MAX_ENTRIES
  {
    var live, all := LiveSet(t), AllSlots(MAX_ENTRIES);
    AllSlotsSize(MAX_ENTRIES);
    if Alloc(t) == NULL_IDX {
      assert live == all;
    } else {
      assert Alloc(t) !in live && Alloc(t) in all;
      ProperSubsetSize(live, all);
    }
  }

  /** The table is full exactly when the tree has 32 nodes. */
  lemma FullIff(t: Table)
    requires Sound(t)
    ensures Alloc(t) == NULL_IDX <==> |Abs(t)| == 32
    ensures |Abs(t)| <= 32
  {
    TreeSize(t);
    FullTable(t);
  }

  // ---- How the tree follows the table ----------------------------------------------------------

  /** Entries that keep their slots keep their paths. */
  lemma PathStays(t: Table, t': Table, i: Index)
    requires Shape(t) && Shape(t') && Live(t, i) && Live(t', i)
    requires forall j: Index :: Live(t, j) && Live(t', j) ==> t'[j].parent == t[j].parent && t'[j].name == t[j].name
    ensures Rooted(t, i) && Rooted(t', i) && PathOf(t', i) == PathOf(t, i)
  {
    LiveRooted(t, i);
    var d: nat :| AtDepth(t, i, d);
    NamesStay(t, t', i, d);
    PathOfIs(t, i, d);
    PathOfIs(t', i, d);
  }

  lemma {:induction false} NamesStay(t: Table, t': Table, i: Index, d: nat)
    requires Shape(t) && Shape(t') && Live(t, i) && Live(t', i) && AtDepth(t, i, d)
    requires forall j: Index :: Live(t, j) && Live(t', j) ==> t'[j].parent == t[j].parent && t'[j].name == t[j].name
    ensures AtDepth(t', i, d) && NamesTo(t', i, d) == NamesTo(t, i, d)
    decreases d
  {
    if d > 0 {
      assert GoodEntry(t, i) && GoodEntry(t', i);
      NamesStay(t, t', t[i].parent, d - 1);
    }
  }

  lemma SameMap(m: map<Path, Node>, m': map<Path, Node>)
    requires forall q :: q in m <==> q in m'
    requires forall q :: q in m && q in m' ==> m[q] == m'[q]
    ensures m == m'
  {
  }

  /** An entry that is live before and after and unchanged keeps its path and node in the tree. */
  lemma NodeStays(t: Table, t': Table, i: Index)
    requires Sound(t) && Sound(t') && Live(t, i) && t[i] == t'[i]
    requires forall j: Index :: Live(t, j) && Live(t', j) ==> t'[j].parent == t[j].parent && t'[j].name == t[j].name
    ensures Rooted(t, i) && Rooted(t', i) && PathOf(t', i) == PathOf(t, i)
    ensures var q := PathOf(t, i); q in Abs(t) && q in Abs(t') && Abs(t')[q] == Abs(t)[q]
  {
    PathStays(t, t', i);
    AbsAt(t, i);
    AbsAt(t', i);
  }

  /** At most slot `k` differs; if it is live on both sides it kept its place and name. */
  ghost predicate OneSlot(t: Table, t': Table, k: Index) {
    && Sound(t) && Sound(t') && k != ROOT
    && (forall j: Index :: j != k ==> t'[j] == t[j])
    && (Live(t, k) && Live(t', k) ==> t'[k].parent == t[k].parent && t'[k].name == t[k].name)
  }

  /** Rewriting slot `k` leaves every path alone that neither the old nor the new entry of that slot has. */
  lemma OtherPathKept(t: Table, t': Table, k: Index, q: Path)
    requires OneSlot(t, t', k) && q in Abs(t)
    requires Live(t, k) ==> Rooted(t, k) && q != PathOf(t, k)
    ensures q in Abs(t') && Abs(t')[q] == Abs(t)[q]
  {
    var i := AbsOnly(t, q);
    NodeStays(t, t', i);
  }

  ghost predicate SameExcept(m: map<Path, Node>, m': map<Path, Node>, p: Path) {
    forall q :: q != p ==> (q in m' <==> q in m) && (q in m ==> m'[q] == m[q])
  }

  lemma OthersSame(t: Table, t': Table, k: Index, p: Path)
    requires OneSlot(t, t', k)
    requires Live(t, k) ==> Rooted(t, k) && p == PathOf(t, k)
    requires Live(t', k) ==> Rooted(t', k) && p == PathOf(t', k)
    ensures SameExcept(Abs(t), Abs(t'), p)
  {
    var m, m' := Abs(t), Abs(t');
    forall q | q != p
      ensures (q in m' <==> q in m) && (q in m ==> m'[q] == m[q])
    {
      if q in m { OtherPathKept(t, t', k, q); }
      if q in m' { OtherPathKept(t', t, k, q); }
    }
  }

  lemma SetFromExcept(m: map<Path, Node>, m': map<Path, Node>, p: Path, n: Node)
    requires SameExcept(m, m', p) && p in m' && m'[p] == n
    ensures m' == m[p := n]
  {
    SameMap(m', m[p := n]);
  }

  lemma PathKept(t: Table, t': Table, k: Index)
    requires OneSlot(t, t', k) && Live(t', k)
    ensures Live(t, k) ==> Rooted(t, k) && Rooted(t', k) && PathOf(t', k) == PathOf(t, k)
  {
    if Live(t, k) { PathStays(t, t', k); }
  }

  /** Filling a free slot, or rewriting a live one under the same name, sets the node at one path. */
  lemma SlotSet(t: Table, t': Table, k: Index)
    requires OneSlot(t, t', k) && Live(t', k)
    ensures Rooted(t', k) && Abs(t') == Abs(t)[PathOf(t', k) := NodeOf(t'[k])]
  {
    AbsAt(t', k);
    PathKept(t, t', k);
    OthersSame(t, t', k, PathOf(t', k));
    SetFromExcept(Abs(t), Abs(t'), PathOf(t', k), NodeOf(t'[k]));
  }

  lemma PathsDiffer(t: Table, i: Index, k: Index)
    requires UniqueSiblings(t) && Rooted(t, i) && Rooted(t, k) && i != k
    ensures PathOf(t, i) != PathOf(t, k)
  {
    if PathOf(t, i) == PathOf(t, k) { PathsInjective(t, i, k); }
  }

  lemma FreedIsGone(t: Table, t': Table, k: Index)
    requires OneSlot(t, t', k) && Live(t, k) && !Live(t', k)
    ensures Rooted(t, k) && PathOf(t, k) !in Abs(t')
  {
    LiveRooted(t, k);
    var p := PathOf(t, k);
    if p in Abs(t') {
      var i := AbsOnly(t', p);
      OthersElsewhere(t, t', k, i);
    }
  }

  lemma OthersElsewhere(t: Table, t': Table, k: Index, i: Index)
    requires OneSlot(t, t', k) && Live(t, k) && Live(t', i) && i != k
    ensures Rooted(t, k) && Rooted(t', i) && PathOf(t', i) != PathOf(t, k)
  {
    LiveRooted(t, k);
    PathStays(t, t', i);
    PathsDiffer(t, i, k);
  }

  /** Freeing a slot removes its path. */
  lemma SlotFreed(t: Table, t': Table, k: Index)
    requires OneSlot(t, t', k) && Live(t, k) && !Live(t', k)
    ensures Rooted(t, k) && Abs(t') == Abs(t) - {PathOf(t, k)}
  {
    FreedIsGone(t, t', k);
    OthersSame(t, t', k, PathOf(t, k));
    SameMap(Abs(t'), Abs(t) - {PathOf(t, k)});
  }

  // ---- Refinement ------------------------------------------------------------------------------

  ghost predicate Refines(fs: Fs, op: Op) {
    var r := Apply(fs, op);
    && Inv(fs) && UniqueSiblings(fs.table) && Inv(r.fs) && UniqueSiblings(r.fs.table)
    && TreeStep(AbsFs(fs), op, AbsFs(r.fs), r.rc != -1)
  }

  lemma CreatedOnTree(fs: Fs, kind: Kind, name: string)
    requires Inv(fs) && UniqueSiblings(fs.table) && kind != Free && Create(fs, kind, name).rc != -1
    requires Inv(Create(fs, kind, name).fs) && UniqueSiblings(Create(fs, kind, name).fs.table)
    ensures var a, a' := AbsFs(fs), AbsFs(Create(fs, kind, name).fs);
            && a'.cwd == a.cwd
            && a'.nodes == a.nodes[a.cwd + [Stored(name)] :=
                 if kind == Dir then DirNode else FileNode(fs.table[Create(fs, kind, name).rc].content)]
  {
    var t, r := fs.table, Create(fs, kind, name);
    var t', slot: Index := r.fs.table, r.rc;
    assert OneSlot(t, t', slot);
    SlotSet(t, t', slot);
    PathOfChild(t', slot);
    PathStays(t, t', fs.cwd);
  }

  /** `fs_mkdir` and `fs_create_file` past their name checks succeed exactly when the tree has room and no
      node under that name. */
  lemma CreateSucceedsIff(fs: Fs, kind: Kind, name: string)
    requires Inv(fs) && UniqueSiblings(fs.table)
    ensures var a, r := AbsFs(fs), Create(fs, kind, name);
            && (r.rc != -1 <==> a.cwd + [name] !in a.nodes && |a.nodes| < 32)
            && (r.rc == -1 ==> r.fs == fs)
  {
    LiveRooted(fs.table, fs.cwd);
    FindIsLookup(fs.table, fs.cwd, name);
    FullIff(fs.table);
  }

  lemma WriteOnTree(fs: Fs, name: string, data: string)
    requires Inv(fs) && UniqueSiblings(fs.table)
    requires Inv(WriteFile(fs, name, data).fs) && UniqueSiblings(WriteFile(fs, name, data).fs.table)
    ensures Refines(fs, OpWrite(name, data))
  {
    NamedFile(fs, name);
    if FindFile(fs, name) != NULL_IDX {
      EditedOnTree(fs, WriteFile(fs, name, data).fs, FindFile(fs, name));
    }
  }

  /** The file a name denotes is the one at the extended path. */
  lemma NamedFile(fs: Fs, name: string)
    requires Inv(fs) && UniqueSiblings(fs.table)
    ensures var k, p := FindFile(fs, name), AbsFs(fs).cwd + [name];
            && (k != NULL_IDX <==> IsFile(Abs(fs.table), p))
            && (k != NULL_IDX ==> Rooted(fs.table, k) && PathOf(fs.table, k) == p)
  {
    LiveRooted(fs.table, fs.cwd);
    FindIsLookup(fs.table, fs.cwd, name);
  }

  /** Editing an entry in place sets its node and moves nothing. */
  lemma EditedOnTree(fs: Fs, fs': Fs, k: Index)
    requires Inv(fs) && UniqueSiblings(fs.table) && Inv(fs') && UniqueSiblings(fs'.table) && fs'.cwd == fs.cwd
    requires OneSlot(fs.table, fs'.table, k) && Live(fs.table, k) && Live(fs'.table, k)
    requires fs'.table[k].parent == fs.table[k].parent && fs'.table[k].name == fs.table[k].name
    ensures Rooted(fs.table, k)
    ensures AbsFs(fs') == AbsFs(fs).(nodes := Abs(fs.table)[PathOf(fs.table, k) := NodeOf(fs'.table[k])])
  {
    LiveRooted(fs.table, fs.cwd);
    SlotSet(fs.table, fs'.table, k);
    PathKept(fs.table, fs'.table, k);
    PathStays(fs.table, fs'.table, fs.cwd);
  }

  lemma RemoveOnTree(fs: Fs, fs': Fs, k: Index)
    requires Inv(fs) && UniqueSiblings(fs.table) && Inv(fs') && UniqueSiblings(fs'.table)
    requires k != ROOT && k != fs.cwd && Live(fs.table, k)
    requires fs' == fs.(table := fs.table[k := fs.table[k].(kind := Free)])
    ensures Rooted(fs.table, k) && AbsFs(fs') == AbsFs(fs).(nodes := AbsFs(fs).nodes - {PathOf(fs.table, k)})
  {
    assert OneSlot(fs.table, fs'.table, k);
    SlotFreed(fs.table, fs'.table, k);
    PathStays(fs.table, fs'.table, fs.cwd);
  }

  lemma RmOnTree(fs: Fs, name: string)
    requires Inv(fs) && UniqueSiblings(fs.table)
    requires Inv(Rm(fs, name).fs) && UniqueSiblings(Rm(fs, name).fs.table)
    ensures Refines(fs, OpRm(name))
  {
    NamedFile(fs, name);
    if Rm(fs, name).rc != -1 {
      FoundInside(fs, name);
      RemoveOnTree(fs, Rm(fs, name).fs, FindFile(fs, name));
    }
  }

  lemma RmdirFailsOnTree(fs: Fs, name: string)
    requires Inv(fs) && UniqueSiblings(fs.table) && Rmdir(fs, name).rc == -1
    ensures Refines(fs, OpRmdir(name))
  {
    LiveRooted(fs.table, fs.cwd);
    FindIsLookup(fs.table, fs.cwd, name);
    var k := Find(fs.table, name, fs.cwd);
    if k != NULL_IDX {
      FoundInside(fs, name);
      HasChildIsLeaf(fs.table, k);
    }
  }

  lemma RmdirOnTree(fs: Fs, name: string)
    requires Inv(fs) && UniqueSiblings(fs.table)
    requires Inv(Rmdir(fs, name).fs) && UniqueSiblings(Rmdir(fs, name).fs.table)
    ensures Refines(fs, OpRmdir(name))
  {
    if Rmdir(fs, name).rc == -1 {
      RmdirFailsOnTree(fs, name);
    } else {
      var k := Find(fs.table, name, fs.cwd);
      LiveRooted(fs.table, fs.cwd);
      FindIsLookup(fs.table, fs.cwd, name);
      FoundInside(fs, name);
      HasChildIsLeaf(fs.table, k);
      RemoveOnTree(fs, Rmdir(fs, name).fs, k);
    }
  }

  /** The parent of the current directory is one name shorter. */
  lemma UpOnTree(fs: Fs)
    requires Inv(fs) && UniqueSiblings(fs.table) && fs.cwd != ROOT
    ensures var up := fs.table[fs.cwd].parent;
            && up != NULL_IDX && Live(fs.table, up) && Rooted(fs.table, up) && fs.table[up].kind == Dir
            && AbsFs(fs).cwd != [] && PathOf(fs.table, up) == CdTarget(AbsFs(fs).cwd, "..")
            && IsDir(Abs(fs.table), PathOf(fs.table, up))
  {
    var t, cwd := fs.table, fs.cwd;
    assert GoodEntry(t, cwd);
    PathOfChild(t, cwd);
    AbsAt(t, t[cwd].parent);
    var p := PathOf(t, t[cwd].parent);
    assert (p + [t[cwd].name])[..|p|] == p;
  }

  lemma CdUpOnTree(fs: Fs)
    requires Inv(fs) && UniqueSiblings(fs.table) && Inv(Cd(fs, "..").fs)
    ensures Refines(fs, OpCd(".."))
  {
    if fs.cwd == ROOT {
      RootPath(fs.table);
      AbsAt(fs.table, ROOT);
    } else {
      UpOnTree(fs);
      assert Cd(fs, "..") == Reply(fs.(cwd := fs.table[fs.cwd].parent), 0);
    }
  }

  /** What `fs_resolve_dir` finds for "." or a name is a directory exactly when the tree has one there. */
  lemma DownOnTree(fs: Fs, name: string)
    requires Inv(fs) && UniqueSiblings(fs.table) && name != ".." && name != "/"
    ensures var k, p := ResolveDir(fs, name), CdTarget(AbsFs(fs).cwd, name);
            && (k != NULL_IDX && fs.table[k].kind == Dir <==> IsDir(Abs(fs.table), p))
            && (k != NULL_IDX && fs.table[k].kind == Dir ==> Rooted(fs.table, k) && PathOf(fs.table, k) == p)
  {
    AbsAt(fs.table, fs.cwd);
    if name != "." {
      NamedDirectory(fs.table, fs.cwd, name);
    }
  }

  lemma NamedDirectory(t: Table, dir: Index, name: string)
    requires Sound(t) && Live(t, dir) && Rooted(t, dir)
    ensures var k, p := Find(t, name, dir), PathOf(t, dir) + [name];
            && (k != NULL_IDX && t[k].kind == Dir <==> IsDir(Abs(t), p))
            && (k != NULL_IDX ==> Rooted(t, k) && PathOf(t, k) == p)
  {
    FindIsLookup(t, dir, name);
  }

  lemma CdDownOnTree(fs: Fs, name: string)
    requires Inv(fs) && UniqueSiblings(fs.table) && Inv(Cd(fs, name).fs) && name != ".." && name != "/"
    ensures Refines(fs, OpCd(name))
  {
    DownOnTree(fs, name);
  }

  lemma CdOnTree(fs: Fs, name: string)
    requires Inv(fs) && UniqueSiblings(fs.table) && Inv(Cd(fs, name).fs)
    ensures Refines(fs, OpCd(name))
  {
    if name == ".." {
      CdUpOnTree(fs);
    } else if name == "/" {
      RootPath(fs.table);
      AbsAt(fs.table, ROOT);
    } else {
      CdDownOnTree(fs, name);
    }
  }

  lemma MkdirOnTree(fs: Fs, name: string)
    requires Inv(fs) && UniqueSiblings(fs.table)
    requires Inv(Mkdir(fs, name).fs) && UniqueSiblings(Mkdir(fs, name).fs.table)
    ensures Refines(fs, OpMkdir(name))
  {
    if DirName(name) {
      CreateSucceedsIff(fs, Dir, name);
      if Mkdir(fs, name).rc != -1 { CreatedOnTree(fs, Dir, name); }
    }
  }

  lemma TouchOnTree(fs: Fs, name: string)
    requires Inv(fs) && UniqueSiblings(fs.table)
    requires Inv(CreateFile(fs, name).fs) && UniqueSiblings(CreateFile(fs, name).fs.table)
    ensures Refines(fs, OpTouch(name))
  {
    if name != "" {
      CreateSucceedsIff(fs, File, name);
      if CreateFile(fs, name).rc != -1 { CreatedOnTree(fs, File, name); }
    }
  }

  lemma UniqueMeansRefines(fs: Fs, op: Op)
    requires Inv(fs) && UniqueSiblings(fs.table) && Inv(Apply(fs, op).fs) && UniqueSiblings(Apply(fs, op).fs.table)
    ensures Refines(fs, op)
  {
    match op {
      case OpMkdir(name) => MkdirOnTree(fs, name);
      case OpTouch(name) => TouchOnTree(fs, name);
      case OpWrite(name, data) => WriteOnTree(fs, name, data);
      case OpCd(name) => CdOnTree(fs, name);
      case OpRm(name) => RmOnTree(fs, name);
      case OpRmdir(name) => RmdirOnTree(fs, name);
    }
  }

  /** Refinement: an operation, with any argument, does on the tree what it should exactly when it is
      admissible: it succeeds if and only if the tree operation does, and then changes exactly that one path. */
  lemma StepRefines(fs: Fs, op: Op)
    requires Inv(fs) && UniqueSiblings(fs.table)
    ensures Refines(fs, op) <==> Admissible(fs, op)
  {
    StepKeepsInv(fs, op);
    UniqueKeptIff(fs, op);
    if Admissible(fs, op) {
      UniqueMeansRefines(fs, op);
    }
  }

  ghost predicate ShortNames(ops: seq<Op>) {
    forall i :: 0 <= i < |ops| && (ops[i].OpMkdir? || ops[i].OpTouch?) ==> |ops[i].name| <= 16
  }

  predicate AdmissibleAt(ops: seq<Op>, i: nat)
    requires i < |ops|
  {
    Admissible(Run(Init(), ops[..i]), ops[i])
  }

  ghost predicate RefinesAt(ops: seq<Op>, i: nat)
    requires i < |ops|
  {
    Refines(Run(Init(), ops[..i]), ops[i])
  }

  lemma {:induction false} UniqueAlong(ops: seq<Op>, i: nat)
    requires i <= |ops| && forall k :: 0 <= k < i ==> AdmissibleAt(ops, k)
    ensures Inv(Run(Init(), ops[..i])) && UniqueSiblings(Run(Init(), ops[..i]).table)
    decreases i
  {
    RunKeepsInv(ops[..i]);
    if i > 0 {
      UniqueAlong(ops, i - 1);
      assert AdmissibleAt(ops, i - 1);
      assert ops[..i][..i - 1] == ops[..i - 1] && ops[..i][i - 1] == ops[i - 1];
      UniqueKeptIff(Run(Init(), ops[..i - 1]), ops[i - 1]);
    }
  }

  /** Over whole runs: every step of a run from the initial state is a step of the tree if and only if every
      creation in it is admissible, as it is when created names have at most sixteen characters. */
  lemma RunRefines(ops: seq<Op>)
    ensures (forall i :: 0 <= i < |ops| ==> RefinesAt(ops, i)) <==> (forall i :: 0 <= i < |ops| ==> AdmissibleAt(ops, i))
    ensures ShortNames(ops) ==> forall i :: 0 <= i < |ops| ==> AdmissibleAt(ops, i)
  {
    if forall i :: 0 <= i < |ops| ==> RefinesAt(ops, i) {
      forall i | 0 <= i < |ops|
        ensures AdmissibleAt(ops, i)
      {
        assert RefinesAt(ops, i);
        StepRefines(Run(Init(), ops[..i]), ops[i]);
      }
    }
    if forall i :: 0 <= i < |ops| ==> AdmissibleAt(ops, i) {
      forall i | 0 <= i < |ops|
        ensures RefinesAt(ops, i)
      {
        UniqueAlong(ops, i);
        assert AdmissibleAt(ops, i);
        StepRefines(Run(Init(), ops[..i]), ops[i]);
      }
    }
  }

  /** The run starts from the tree that is just a root. */
  lemma InitTree()
    ensures Inv(Init()) && UniqueSiblings(Init().table)
    ensures AbsFs(Init()) == Tree(map[[] := DirNode], [])
  {
    var t := Init().table;
    InitInv();
    RootPath(t);
    AbsAt(t, ROOT);
    forall q | q in Abs(t)
      ensures q == []
    {
      var i := AbsOnly(t, q);
    }
    SameMap(Abs(t), map[[] := DirNode]);
  }
}
