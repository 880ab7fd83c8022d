/** The flat inode table of code/src/fs.c and its operations, as functions. Names and contents are C
    strings: the characters before the terminating NUL. */
module FsTable {
  const MAX_ENTRIES: nat := 32
  const MAX_NAME_LEN: nat := 16
  const MAX_FILE_SIZE: nat := 256
  const ROOT: Index := 0
  const NULL_IDX: Link := -1

  type Index = i: int | 0 <= i < MAX_ENTRIES
  type Link = i: int | -1 <= i < MAX_ENTRIES

  datatype Kind = Free | File | Dir

  datatype Entry = Entry(kind: Kind, parent: Link, name: string, content: string, size: nat)

  const BLANK: Entry := Entry(Free, NULL_IDX, "", "", 0)

  type Table = t: seq<Entry> | |t| == MAX_ENTRIES witness seq(MAX_ENTRIES, _ => BLANK)

  datatype Fs = Fs(table: Table, cwd: Index)

  /** The state after a call and the value it returned. */
  datatype Reply = Reply(fs: Fs, rc: int)

  predicate Matches(e: Entry, name: string, parent: Link) {
    e.kind != Free && e.parent == parent && e.name == name
  }

  function FindFrom(t: Table, name: string, parent: Link, i: nat): (r: Link)
    requires i <= MAX_ENTRIES
    ensures r != NULL_IDX ==> i <= r && Matches(t[r], name, parent)
    ensures r == NULL_IDX ==> forall j :: i <= j < MAX_ENTRIES ==> !Matches(t[j], name, parent)
    ensures forall j :: i <= j < r ==> !Matches(t[j], name, parent)
    decreases MAX_ENTRIES - i
  {
    if i == MAX_ENTRIES then NULL_IDX
    else if Matches(t[i], name, parent) then i
    else FindFrom(t, name, parent, i + 1)
  }

  /** `fs_find_in` */
  function Find(t: Table, name: string, parent: Link): Link {
    FindFrom(t, name, parent, 0)
  }

  function AllocFrom(t: Table, i: nat): (r: Link)
    requires i <= MAX_ENTRIES
    ensures r != NULL_IDX ==> i <= r && t[r].kind == Free
    ensures r == NULL_IDX ==> forall j :: i <= j < MAX_ENTRIES ==> t[j].kind != Free
    ensures forall j :: i <= j < r ==> t[j].kind != Free
    decreases MAX_ENTRIES - i
  {
    if i == MAX_ENTRIES then NULL_IDX
    else if t[i].kind == Free then i
    else AllocFrom(t, i + 1)
  }

  /** `fs_alloc` */
  function Alloc(t: Table): Link {
    AllocFrom(t, 0)
  }

  predicate HasChild(t: Table, dir: Index) {
    exists i: Index :: t[i].kind != Free && t[i].parent == dir
  }

  /** What `fs_strncpy` stores of a name. */
  function Stored(name: string): string {
    if |name| > MAX_NAME_LEN then name[..MAX_NAME_LEN] else name
  }

  /** What `fs_write_file` stores of its data. */
  function StoredContent(data: string): string {
    if |data| > MAX_FILE_SIZE - 1 then data[..MAX_FILE_SIZE - 1] else data
  }

  /** The initial state made by `fs_init`. */
  function Init(): Fs {
    Fs(seq(MAX_ENTRIES, i => if i == ROOT then BLANK.(kind := Dir) else BLANK), ROOT)
  }

  /** The common end of `fs_mkdir` and `fs_create_file`; the content of the slot is not cleared. */
  function Create(fs: Fs, kind: Kind, name: string): Reply {
    if Find(fs.table, name, fs.cwd) != NULL_IDX then Reply(fs, -1)
    else
      var slot := Alloc(fs.table);
      if slot == NULL_IDX then Reply(fs, -1)
      else
        var e := fs.table[slot].(kind := kind, parent := fs.cwd, size := 0, name := Stored(name));
        Reply(fs.(table := fs.table[slot := e]), slot)
  }

  function Mkdir(fs: Fs, name: string): Reply {
    if name == "" || name == "." || name == ".." then Reply(fs, -1) else Create(fs, Dir, name)
  }

  function CreateFile(fs: Fs, name: string): Reply {
    if name == "" then Reply(fs, -1) else Create(fs, File, name)
  }

  /** The file a name denotes in the current directory. */
  function FindFile(fs: Fs, name: string): Link {
    var i := Find(fs.table, name, fs.cwd);
    if i == NULL_IDX || fs.table[i].kind != File then NULL_IDX else i
  }

  function WriteFile(fs: Fs, name: string, data: string): Reply {
    var i := FindFile(fs, name);
    if i == NULL_IDX then Reply(fs, -1)
    else
      var e := fs.table[i].(content := StoredContent(data), size := |StoredContent(data)|);
      Reply(fs.(table := fs.table[i := e]), 0)
  }

  function Rm(fs: Fs, name: string): Reply {
    var i := FindFile(fs, name);
    if i == NULL_IDX then Reply(fs, -1)
    else Reply(fs.(table := fs.table[i := fs.table[i].(kind := Free)]), 0)
  }

  function Rmdir(fs: Fs, name: string): Reply {
    if name == "." || name == ".." then Reply(fs, -1)
    else
      var i := Find(fs.table, name, fs.cwd);
      if i == NULL_IDX || fs.table[i].kind != Dir || HasChild(fs.table, i) then Reply(fs, -1)
      else Reply(fs.(table := fs.table[i := fs.table[i].(kind := Free)]), 0)
  }

  /** `fs_resolve_dir` */
  function ResolveDir(fs: Fs, name: string): Link {
    if name == "." then fs.cwd
    else if name == ".." then (if fs.table[fs.cwd].parent == NULL_IDX then ROOT else fs.table[fs.cwd].parent)
    else Find(fs.table, name, fs.cwd)
  }

  function Cd(fs: Fs, name: string): Reply {
    if name == "" then Reply(fs, -1)
    else if name == "/" then Reply(fs.(cwd := ROOT), 0)
    else if name == ".." && fs.table[fs.cwd].parent == NULL_IDX then Reply(fs.(cwd := ROOT), 0)
    else
      var target := ResolveDir(fs, name);
      if target == NULL_IDX || fs.table[target].kind != Dir then Reply(fs, -1)
      else Reply(fs.(cwd := target), 0)
  }

  datatype Op =
    | OpMkdir(name: string)
    | OpTouch(name: string)
    | OpWrite(name: string, data: string)
    | OpCd(name: string)
    | OpRm(name: string)
    | OpRmdir(name: string)

  function Apply(fs: Fs, op: Op): Reply {
    match op
    case OpMkdir(name) => Mkdir(fs, name)
    case OpTouch(name) => CreateFile(fs, name)
    case OpWrite(name, data) => WriteFile(fs, name, data)
    case OpCd(name) => Cd(fs, name)
    case OpRm(name) => Rm(fs, name)
    case OpRmdir(name) => Rmdir(fs, name)
  }

  // ---- Shape -----------------------------------------------------------------------------------

  predicate Live(t: Table, i: Index) {
    t[i].kind != Free
  }

  /** The parent chain of `i` reaches the root after exactly `d` steps through live entries. */
  predicate AtDepth(t: Table, i: Index, d: nat)
    decreases d
  {
    if d == 0 then i == ROOT
    else i != ROOT && Live(t, i) && t[i].parent != NULL_IDX && AtDepth(t, t[i].parent, d - 1)
  }

  ghost predicate Rooted(t: Table, i: Index) {
    exists d: nat :: AtDepth(t, i, d)
  }

  predicate DirName(name: string) {
    name != "" && name != "." && name != ".."
  }

  ghost predicate GoodEntry(t: Table, i: Index) {
    && t[i].parent != NULL_IDX && t[t[i].parent].kind == Dir
    && Rooted(t, i)
    && t[i].name != "" && |t[i].name| <= MAX_NAME_LEN
    && (t[i].kind == Dir ==> DirName(t[i].name))
  }

  /** Slot 0 is the root and every other live slot hangs from a live directory on a chain to the root. */
  ghost predicate Shape(t: Table) {
    && t[ROOT].kind == Dir && t[ROOT].parent == NULL_IDX && t[ROOT].name == ""
    && forall i: Index :: i != ROOT && Live(t, i) ==> GoodEntry(t, i)
  }

  ghost predicate Inv(fs: Fs) {
    Shape(fs.table) && fs.table[fs.cwd].kind == Dir
  }

  lemma InitInv()
    ensures Inv(Init())
  {
  }

  /** Chains only pass through live slots, so filling a free slot or editing an entry in place keeps them. */
  lemma {:induction false} DepthStays(t: Table, t': Table, i: Index, d: nat)
    requires AtDepth(t, i, d)
    requires forall j: Index :: Live(t, j) ==> Live(t', j) && t'[j].parent == t[j].parent
    ensures AtDepth(t', i, d)
    decreases d
  {
    if d > 0 {
      DepthStays(t, t', t[i].parent, d - 1);
    }
  }

  /** Freeing a slot without children keeps every other chain. */
  lemma {:induction false} DepthStaysWithout(t: Table, k: Index, i: Index, d: nat)
    requires AtDepth(t, i, d) && i != k && k != ROOT && (i == ROOT || Live(t, i)) && !HasChild(t, k)
    ensures AtDepth(t[k := t[k].(kind := Free)], i, d)
    decreases d
  {
    if d > 0 {
      assert t[i].parent != k;
      DepthStaysWithout(t, k, t[i].parent, d - 1);
    }
  }

  lemma CreateKeepsInv(fs: Fs, kind: Kind, name: string)
    requires Inv(fs) && kind != Free && name != "" && (kind == Dir ==> DirName(name))
    ensures Inv(Create(fs, kind, name).fs)
  {
    var r := Create(fs, kind, name);
    if r.rc != -1 {
      var t, t', slot: Index := fs.table, r.fs.table, r.rc;
      assert !Live(t, slot);
      forall i: Index | i != ROOT && Live(t', i)
        ensures GoodEntry(t', i)
      {
        if i == slot {
          assert fs.cwd != ROOT ==> GoodEntry(t, fs.cwd);
          assert AtDepth(t, ROOT, 0);
          var d: nat :| AtDepth(t, fs.cwd, d);
          DepthStays(t, t', fs.cwd, d);
          assert AtDepth(t', slot, d + 1);
          assert kind == Dir ==> DirName(Stored(name));
        } else {
          assert GoodEntry(t, i);
          var d: nat :| AtDepth(t, i, d);
          DepthStays(t, t', i, d);
        }
      }
    }
  }

  lemma FreeKeepsInv(fs: Fs, k: Index)
    requires Inv(fs) && k != ROOT && k != fs.cwd && !HasChild(fs.table, k)
    ensures Inv(fs.(table := fs.table[k := fs.table[k].(kind := Free)]))
  {
    var t := fs.table;
    var t' := t[k := t[k].(kind := Free)];
    forall i: Index | i != ROOT && Live(t', i)
      ensures GoodEntry(t', i)
    {
      assert GoodEntry(t, i);
      assert t[i].parent != k;
      var d: nat :| AtDepth(t, i, d);
      DepthStaysWithout(t, k, i, d);
    }
  }

  /** A live entry in the current directory is neither the root nor the current directory; a file among
      them has no children. */
  lemma FoundInside(fs: Fs, name: string)
    requires Inv(fs) && Find(fs.table, name, fs.cwd) != NULL_IDX
    ensures var i := Find(fs.table, name, fs.cwd);
            i != ROOT && i != fs.cwd && Live(fs.table, i) && (fs.table[i].kind == File ==> !HasChild(fs.table, i))
  {
    var t, i := fs.table, Find(fs.table, name, fs.cwd);
    if i == fs.cwd {
      assert GoodEntry(t, i);
      var d: nat :| AtDepth(t, i, d);
      OwnParent(t, i, d);
    }
    forall j: Index | Live(t, j) && t[j].parent == i
      ensures t[i].kind == Dir
    {
      assert GoodEntry(t, j);
    }
  }

  lemma {:induction false} OwnParent(t: Table, i: Index, d: nat)
    requires AtDepth(t, i, d) && t[i].parent == i
    ensures d == 0
    decreases d
  {
    if d > 0 {
      OwnParent(t, i, d - 1);
    }
  }

  lemma WriteKeepsInv(fs: Fs, name: string, data: string)
    requires Inv(fs)
    ensures Inv(WriteFile(fs, name, data).fs)
  {
    var t, t' := fs.table, WriteFile(fs, name, data).fs.table;
    forall i: Index | i != ROOT && Live(t', i)
      ensures GoodEntry(t', i)
    {
      assert GoodEntry(t, i);
      var d: nat :| AtDepth(t, i, d);
      DepthStays(t, t', i, d);
    }
  }

  /** Every operation, with any argument, successful or not, keeps the tree shape. */
  lemma StepKeepsInv(fs: Fs, op: Op)
    requires Inv(fs)
    ensures Inv(Apply(fs, op).fs)
  {
    match op {
      case OpMkdir(name) =>
        if DirName(name) { CreateKeepsInv(fs, Dir, name); }
      case OpTouch(name) =>
        if name != "" { CreateKeepsInv(fs, File, name); }
      case OpWrite(name, data) =>
        WriteKeepsInv(fs, name, data);
      case OpCd(name) =>
        if fs.cwd != ROOT { assert GoodEntry(fs.table, fs.cwd); }
      case OpRm(name) =>
        if FindFile(fs, name) != NULL_IDX {
          FoundInside(fs, name);
          FreeKeepsInv(fs, FindFile(fs, name));
        }
      case OpRmdir(name) =>
        if Apply(fs, op).rc == 0 {
          FoundInside(fs, name);
          FreeKeepsInv(fs, Find(fs.table, name, fs.cwd));
        }
    }
  }

  /** The state after a run of operations. */
  function Run(fs: Fs, ops: seq<Op>): Fs {
    if ops == [] then fs else Apply(Run(fs, ops[..|ops| - 1]), ops[|ops| - 1]).fs
  }

  /** The tree shape holds in every state the file system can reach. */
  lemma {:induction false} RunKeepsInv(ops: seq<Op>)
    ensures Inv(Run(Init(), ops))
  {
    if ops == [] {
      InitInv();
    } else {
      RunKeepsInv(ops[..|ops| - 1]);
      StepKeepsInv(Run(Init(), ops[..|ops| - 1]), ops[|ops| - 1]);
    }
  }

  // ---- Chains are short ------------------------------------------------------------------------

  lemma {:induction false} DepthUnique(t: Table, i: Index, d: nat, e: nat)
    requires AtDepth(t, i, d) && AtDepth(t, i, e)
    ensures d == e
    decreases d
  {
    if d > 0 && e > 0 {
      DepthUnique(t, t[i].parent, d - 1, e - 1);
    }
  }

  /** The slots on the chain from `i` to the root, both included. */
  function Chain(t: Table, i: Index, d: nat): (c: seq<Index>)
    requires AtDepth(t, i, d)
    ensures |c| == d + 1
    decreases d
  {
    if d == 0 then [i] else [i] + Chain(t, t[i].parent, d - 1)
  }

  lemma {:induction false} ChainDepths(t: Table, i: Index, d: nat, k: nat)
    requires AtDepth(t, i, d) && k <= d
    ensures AtDepth(t, Chain(t, i, d)[k], d - k)
    decreases d
  {
    if d > 0 {
      ChainDepths(t, t[i].parent, d - 1, if k > 0 then k - 1 else 0);
    }
  }

  lemma {:induction false} Pigeonhole(s: seq<Index>, n: nat)
    requires forall i, j :: 0 <= i < j < |s| ==> s[i] != s[j]
    requires forall i :: 0 <= i < |s| ==> s[i] < n
    ensures |s| <= n
    decreases n
  {
    if |s| > 0 {
      assert 0 <= s[0] < n;
      if k :| 0 <= k < |s| && s[k] == n - 1 {
        var rest := s[..k] + s[k + 1..];
        assert forall i :: 0 <= i < |rest| ==> rest[i] == s[if i < k then i else i + 1];
        Pigeonhole(rest, n - 1);
      } else {
        Pigeonhole(s, n - 1);
      }
    }
  }

  lemma ChainDistinct(t: Table, i: Index, d: nat, j: nat, k: nat, x: Index)
    requires AtDepth(t, i, d) && j < k <= d && x == Chain(t, i, d)[j]
    ensures x != Chain(t, i, d)[k]
  {
    ChainDepths(t, i, d, j);
    if x == Chain(t, i, d)[k] {
      ChainDepths(t, i, d, k);
      DepthUnique(t, x, d - j, d - k);
    }
  }

  /** Every parent chain reaches the root in at most 31 steps and visits no slot twice. */
  lemma DepthBound(t: Table, i: Index, d: nat)
    requires AtDepth(t, i, d)
    ensures d <= 31
    ensures var c := Chain(t, i, d); forall j, k :: 0 <= j < k < |c| ==> c[j] != c[k]
  {
    var c := Chain(t, i, d);
    forall j, k | 0 <= j < k < |c|
      ensures c[j] != c[k]
    {
      ChainDistinct(t, i, d, j, k, c[j]);
    }
    Pigeonhole(c, MAX_ENTRIES);
  }
}
