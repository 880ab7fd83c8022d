/** The file system of code/src/fs.c in place: loops over the inode array, proved against `FsTable`. The
    messages printed on failure are left out; the return values are kept. */
module FileSystem {
  import opened FsTable
  import opened FsTree
  import opened FsPath

  class FileSystem {
    const table: array<Entry>
    var cwd: Index

    ghost predicate Valid() {
      table.Length == MAX_ENTRIES
    }

    ghost function State(): Fs
      requires Valid()
      reads this, table
    {
      Fs(table[..], cwd)
    }

    /** `fs_init` */
    constructor ()
      ensures Valid() && fresh(table) && State() == Init()
    {
      table := new Entry[MAX_ENTRIES](_ => BLANK);
      new;
      for i := 0 to MAX_ENTRIES
        invariant forall j :: 0 <= j < i ==> table[j] == BLANK
      {
        table[i] := Entry(Free, NULL_IDX, "", "", 0);
      }
      table[ROOT] := table[ROOT].(kind := Dir, parent := NULL_IDX, name := "");
      cwd := ROOT;
      assert table[..] == Init().table;
    }

    /** `fs_find_in` */
    method FindIn(name: string, parent: Link) returns (idx: Link)
      requires Valid()
      ensures idx == Find(table[..], name, parent)
    {
      for i := 0 to MAX_ENTRIES
        invariant Find(table[..], name, parent) == FindFrom(table[..], name, parent, i)
      {
        if table[i].kind == Free { continue; }
        if table[i].parent != parent { continue; }
        if table[i].name == name { return i; }
      }
      return NULL_IDX;
    }

    /** `fs_alloc` */
    method AllocSlot() returns (slot: Link)
      requires Valid()
      ensures slot == Alloc(table[..])
    {
      for i := 0 to MAX_ENTRIES
        invariant Alloc(table[..]) == AllocFrom(table[..], i)
      {
        if table[i].kind == Free { return i; }
      }
      return NULL_IDX;
    }

    /** `fs_dir_empty` */
    method DirEmpty(dir: Index) returns (empty: bool)
      requires Valid()
      ensures empty <==> !HasChild(table[..], dir)
    {
      for i := 0 to MAX_ENTRIES
        invariant forall j: Index :: j < i ==> !(table[j].kind != Free && table[j].parent == dir)
      {
        if table[i].kind != Free && table[i].parent == dir {
          assert Live(table[..], i);
          return false;
        }
      }
      return true;
    }

    /** The loop of `fs_strncpy` over a C string, of which at most `max` characters are stored. */
    static method CopyName(src: string, max: nat) returns (dst: string)
      ensures dst == if |src| > max then src[..max] else src
    {
      var i := 0;
      dst := "";
      while i < |src| && i < max
        invariant 0 <= i <= |src| && i <= max && dst == src[..i]
      {
        dst := dst + [src[i]];
        i := i + 1;
      }
    }

    /** The common end of `fs_mkdir` and `fs_create_file`. */
    method CreateEntry(kind: Kind, name: string) returns (rc: int)
      requires Valid()
      modifies table
      ensures Reply(State(), rc) == Create(old(State()), kind, name)
    {
      var found := FindIn(name, cwd);
      if found != NULL_IDX {
        return -1;
      }
      var slot := AllocSlot();
      if slot == NULL_IDX {
        return -1;
      }
      FillSlot(slot, kind, name);
      return slot;
    }

    /** The fields of a new entry, written one after the other. */
    method FillSlot(slot: Index, kind: Kind, name: string)
      requires Valid()
      modifies table
      ensures table[..] == old(table[..])[slot := old(table[slot]).(kind := kind, parent := cwd, size := 0, name := Stored(name))]
    {
      table[slot] := table[slot].(kind := kind);
      table[slot] := table[slot].(parent := cwd);
      table[slot] := table[slot].(size := 0);
      var stored := CopyName(name, MAX_NAME_LEN);
      table[slot] := table[slot].(name := stored);
    }

    /** `fs_mkdir` */
    method FsMkdir(name: string) returns (rc: int)
      requires Valid()
      modifies table
      ensures Reply(State(), rc) == Mkdir(old(State()), name)
    {
      if name == "" {
        return -1;
      }
      if name == "." || name == ".." {
        return -1;
      }
      rc := CreateEntry(Dir, name);
    }

    /** `fs_create_file` */
    method FsCreateFile(name: string) returns (rc: int)
      requires Valid()
      modifies table
      ensures Reply(State(), rc) == CreateFile(old(State()), name)
    {
      if name == "" {
        return -1;
      }
      rc := CreateEntry(File, name);
    }

    /** `fs_resolve_dir` */
    method Resolve(name: string) returns (target: Link)
      requires Valid()
      ensures target == ResolveDir(State(), name)
    {
      if name == "." {
        return cwd;
      }
      if name == ".." {
        if table[cwd].parent == NULL_IDX {
          return ROOT;
        }
        return table[cwd].parent;
      }
      target := FindIn(name, cwd);
    }

    /** `fs_cd` */
    method FsCd(name: string) returns (rc: int)
      requires Valid()
      modifies this
      ensures Reply(State(), rc) == Cd(old(State()), name)
    {
      if name == "" {
        return -1;
      }
      if name == "/" {
        cwd := ROOT;
        return 0;
      }
      var target := Resolve(name);
      if name == ".." && table[cwd].parent == NULL_IDX {
        cwd := ROOT;
        return 0;
      }
      if target == NULL_IDX {
        return -1;
      }
      if table[target].kind != Dir {
        return -1;
      }
      cwd := target;
      return 0;
    }

    /** `fs_write_file`; the value says whether a file was found. */
    method FsWriteFile(name: string, data: string) returns (rc: int)
      requires Valid()
      modifies table
      ensures Reply(State(), rc) == WriteFile(old(State()), name, data)
    {
      var idx := FindIn(name, cwd);
      if idx == NULL_IDX || table[idx].kind != File {
        return -1;
      }
      var stored := CopyName(data, MAX_FILE_SIZE - 1);
      table[idx] := table[idx].(content := stored);
      table[idx] := table[idx].(size := |stored|);
      return 0;
    }

    /** `fs_read_file`: what is printed, or nothing. */
    method FsReadFile(name: string) returns (found: bool, text: string)
      requires Valid()
      ensures found <==> FindFile(State(), name) != NULL_IDX
      ensures found ==> text == table[FindFile(State(), name)].content
      ensures Inv(State()) && UniqueSiblings(State().table) ==>
                var a := AbsFs(State());
                var p := a.cwd + [name];
                (found <==> IsFile(a.nodes, p)) && (found ==> a.nodes[p] == FileNode(text))
    {
      if Inv(State()) && UniqueSiblings(State().table) {
        LiveRooted(table[..], cwd);
        FindIsLookup(table[..], cwd, name);
      }
      var idx := FindIn(name, cwd);
      if idx == NULL_IDX || table[idx].kind != File {
        return false, "";
      }
      return true, table[idx].content;
    }

    /** `fs_rm` */
    method FsRm(name: string) returns (rc: int)
      requires Valid()
      modifies table
      ensures Reply(State(), rc) == Rm(old(State()), name)
    {
      var idx := FindIn(name, cwd);
      if idx == NULL_IDX || table[idx].kind != File {
        return -1;
      }
      table[idx] := table[idx].(kind := Free);
      return 0;
    }

    /** `fs_rmdir` */
    method FsRmdir(name: string) returns (rc: int)
      requires Valid()
      modifies table
      ensures Reply(State(), rc) == Rmdir(old(State()), name)
    {
      if name == "." || name == ".." {
        return -1;
      }
      var idx := FindIn(name, cwd);
      if idx == NULL_IDX || table[idx].kind != Dir {
        return -1;
      }
      var empty := DirEmpty(idx);
      if !empty {
        return -1;
      }
      table[idx] := table[idx].(kind := Free);
      return 0;
    }

    /** The upward walk of `fs_print_path`. Its 32-entry stack never overflows. */
    method CollectChain(idx: Index, stack: array<Index>, ghost d: nat) returns (depth: nat)
      requires Valid() && AtDepth(table[..], idx, d) && stack.Length == MAX_ENTRIES
      modifies stack
      ensures depth == d < MAX_ENTRIES && stack[..d] == Chain(table[..], idx, d)[..d]
    {
      ghost var t := table[..];
      DepthBound(t, idx, d);
      ghost var chain := Chain(t, idx, d);
      depth := 0;
      var cur: Link := idx;
      while cur != ROOT && cur != NULL_IDX
        invariant 0 <= depth <= d && cur == chain[depth] && AtDepth(t, cur, d - depth)
        invariant forall k :: 0 <= k < depth ==> stack[k] == chain[k]
        decreases d - depth
      {
        ChainNext(t, idx, d, depth);
        stack[depth] := cur;
        depth := depth + 1;
        cur := table[cur].parent;
      }
      DepthUnique(t, ROOT, d - depth, 0);
    }

    /** The printing loop of `fs_print_path`. */
    method PrintDown(idx: Index, stack: array<Index>, depth: nat) returns (out: string)
      requires Valid() && AtDepth(table[..], idx, depth) && depth <= stack.Length
      requires stack[..depth] == Chain(table[..], idx, depth)[..depth]
      ensures out == Joined(NamesTo(table[..], idx, depth))
    {
      ghost var t, kept := table[..], stack[..depth];
      out := "";
      var i := depth;
      NothingPrinted(t, idx, depth);
      while i > 0
        invariant 0 <= i <= depth && out == PrintedFrom(t, idx, depth, i)
      {
        i := i - 1;
        PrintedNext(t, idx, depth, i, kept);
        assert stack[i] == kept[i];
        out := out + "/";
        out := out + table[stack[i]].name;
      }
    }

    /** `fs_print_path`: what it prints is the path of the entry. */
    method PrintPath(idx: Index) returns (out: string)
      requires Valid() && Shape(table[..]) && Live(table[..], idx)
      ensures Rooted(table[..], idx) && out == PathText(PathOf(table[..], idx))
      ensures Spells(out, PathOf(table[..], idx))
    {
      LiveRooted(table[..], idx);
      ghost var d: nat :| AtDepth(table[..], idx, d);
      PathOfIs(table[..], idx, d);
      NamesNotEmpty(table[..], idx, d);
      PathSpelled(PathOf(table[..], idx));
      if idx == ROOT {
        DepthUnique(table[..], ROOT, d, 0);
        return "/";
      }
      var stack := new Index[MAX_ENTRIES](_ => ROOT);
      var depth := CollectChain(idx, stack, d);
      out := PrintDown(idx, stack, depth);
    }

    /** `fs_pwd`, without the final newline. */
    method FsPwd() returns (out: string)
      requires Valid() && Inv(State())
      ensures Rooted(table[..], cwd) && out == PathText(PathOf(table[..], cwd)) && Spells(out, PathOf(table[..], cwd))
    {
      out := PrintPath(cwd);
    }
  }

  /** What is printed once the entries from the root down to the i-th on the chain are. */
  ghost function PrintedFrom(t: Table, idx: Index, d: nat, i: nat): string
    requires AtDepth(t, idx, d) && i <= d
  {
    ChainDepths(t, idx, d, i);
    Joined(NamesTo(t, Chain(t, idx, d)[i], d - i))
  }

  lemma NothingPrinted(t: Table, idx: Index, d: nat)
    requires AtDepth(t, idx, d)
    ensures PrintedFrom(t, idx, d, d) == "" && PrintedFrom(t, idx, d, 0) == Joined(NamesTo(t, idx, d))
  {
    ChainDepths(t, idx, d, d);
  }

  lemma PrintedNext(t: Table, idx: Index, d: nat, i: nat, kept: seq<Index>)
    requires AtDepth(t, idx, d) && i < d && kept == Chain(t, idx, d)[..d]
    ensures PrintedFrom(t, idx, d, i) == PrintedFrom(t, idx, d, i + 1) + "/" + t[kept[i]].name
  {
    ChainNext(t, idx, d, i);
    assert kept[i] == Chain(t, idx, d)[i];
    JoinedNames(t, kept[i], d - i);
  }

  lemma JoinedNames(t: Table, i: Index, d: nat)
    requires d > 0 && AtDepth(t, i, d)
    ensures Joined(NamesTo(t, i, d)) == Joined(NamesTo(t, t[i].parent, d - 1)) + "/" + t[i].name
  {
    var p := NamesTo(t, i, d);
    assert p[..|p| - 1] == NamesTo(t, t[i].parent, d - 1);
  }

  lemma {:induction false} ChainNext(t: Table, i: Index, d: nat, k: nat)
    requires AtDepth(t, i, d) && k < d
    ensures var c := Chain(t, i, d);
            AtDepth(t, c[k], d - k) && c[k] != ROOT && t[c[k]].parent == c[k + 1]
    decreases d
  {
    ChainDepths(t, i, d, k);
    if k > 0 {
      ChainNext(t, t[i].parent, d - 1, k - 1);
    }
  }
}
