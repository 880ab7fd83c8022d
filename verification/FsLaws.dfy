/** What a user of the file system sees from one call to the next. */
module FsLaws {
  import opened FsTable
  import opened FileSystem

  lemma FoundFirst(t: Table, name: string, parent: Link)
    ensures var i := Find(t, name, parent);
            && (i != NULL_IDX ==> t[i].kind != Free && t[i].parent == parent && t[i].name == name)
            && (i == NULL_IDX ==> forall j: Index :: t[j].kind == Free || t[j].parent != parent || t[j].name != name)
  {
    if Find(t, name, parent) == NULL_IDX {
      forall j: Index
        ensures t[j].kind == Free || t[j].parent != parent || t[j].name != name
      {
        assert !Matches(t[j], name, parent);
      }
    }
  }

  /** Entries other than `k` are as they were. */
  ghost predicate OthersKept(t: Table, t': Table, k: Index) {
    forall j: Index :: j != k ==> t'[j] == t[j]
  }

  /** At the start there is the root directory, and 31 empty slots. */
  lemma AtTheStart()
    ensures var fs := Init();
            && |fs.table| == 32 && fs.cwd == 0 && fs.table[0] == Entry(Dir, -1, "", "", 0)
            && forall j: Index :: j != 0 ==> fs.table[j] == Entry(Free, -1, "", "", 0)
  {
  }

  // ---- Creating --------------------------------------------------------------------------------

  /** A name the call accepts: not empty, and for a directory neither "." nor "..". */
  predicate Accepted(kind: Kind, name: string) {
    name != "" && (kind == Dir ==> name != "." && name != "..")
  }

  /** `mkdir` and `touch`. They succeed exactly for an accepted name that no entry of the current directory has,
      with a slot left; the new entry is in the lowest free slot, has the first sixteen characters of the name,
      size 0 and the old content of the slot; everything else is as it was. */
  lemma Created(fs: Fs, kind: Kind, name: string, r: Reply)
    requires kind == Dir || kind == File
    requires r == if kind == Dir then Mkdir(fs, name) else CreateFile(fs, name)
    ensures r.fs.cwd == fs.cwd
    ensures r.rc == -1 <==>
            || !Accepted(kind, name)
            || (exists j: Index :: fs.table[j].kind != Free && fs.table[j].parent == fs.cwd && fs.table[j].name == name)
            || (forall j: Index :: fs.table[j].kind != Free)
    ensures r.rc == -1 ==> r.fs == fs
    ensures r.rc != -1 ==>
              && 0 <= r.rc < 32 && fs.table[r.rc].kind == Free && (forall j: Index :: j < r.rc ==> fs.table[j].kind != Free)
              && r.fs.table[r.rc] == Entry(kind, fs.cwd, if |name| <= 16 then name else name[..16], fs.table[r.rc].content, 0)
              && OthersKept(fs.table, r.fs.table, r.rc)
  {
    FoundFirst(fs.table, name, fs.cwd);
  }

  // ---- Writing ---------------------------------------------------------------------------------

  /** `write` succeeds exactly when the name is that of a file; the file then has the first 255 characters of the
      data as its content and their number as its size, and everything else is as it was. */
  lemma Written(fs: Fs, name: string, data: string)
    ensures var i, r := Find(fs.table, name, fs.cwd), WriteFile(fs, name, data);
            && (r.rc == 0 <==> i != NULL_IDX && fs.table[i].kind == File)
            && (r.rc != 0 ==> r.rc == -1 && r.fs == fs)
            && (r.rc == 0 ==>
                  && r.fs.cwd == fs.cwd && OthersKept(fs.table, r.fs.table, i)
                  && r.fs.table[i].kind == File && r.fs.table[i].parent == fs.table[i].parent && r.fs.table[i].name == name
                  && r.fs.table[i].content <= data && r.fs.table[i].size == |r.fs.table[i].content|
                  && |r.fs.table[i].content| == if |data| <= 255 then |data| else 255)
  {
  }

  lemma FoundAgain(fs: Fs, name: string, data: string)
    requires WriteFile(fs, name, data).rc == 0
    ensures FindFile(WriteFile(fs, name, data).fs, name) == FindFile(fs, name)
  {
    var i, fs' := Find(fs.table, name, fs.cwd), WriteFile(fs, name, data).fs;
    FirstIs(fs'.table, name, fs.cwd, i, 0);
  }

  lemma {:induction false} FirstIs(t: Table, name: string, parent: Link, i: Index, from: nat)
    requires from <= i && Matches(t[i], name, parent) && forall j :: from <= j < i ==> !Matches(t[j], name, parent)
    ensures FindFrom(t, name, parent, from) == i
    decreases i - from
  {
    if from < i { FirstIs(t, name, parent, i, from + 1); }
  }

  /** `write` and then `cat`: the data comes back, cut off after 255 characters, and `write` fails exactly when
      there is no file to print. */
  method WriteThenRead(sys: FileSystem, name: string, data: string) returns (ok: bool, text: string)
    requires sys.Valid()
    modifies sys.table
    ensures ok <==> exists j: Index :: j == Find(old(sys.State()).table, name, sys.cwd) && old(sys.State()).table[j].kind == File
    ensures ok ==> text == if |data| <= 255 then data else data[..255]
  {
    ghost var fs := sys.State();
    Written(fs, name, data);
    var rc := sys.FsWriteFile(name, data);
    if rc != 0 {
      return false, "";
    }
    FoundAgain(fs, name, data);
    var found;
    found, text := sys.FsReadFile(name);
    ok := true;
  }

  // ---- Removing --------------------------------------------------------------------------------

  /** `rm` and `rmdir` free exactly the slot of the named file or empty directory and change nothing else. */
  lemma Removed(fs: Fs, kind: Kind, name: string, r: Reply)
    requires kind == Dir || kind == File
    requires r == if kind == Dir then Rmdir(fs, name) else Rm(fs, name)
    ensures var i := Find(fs.table, name, fs.cwd);
            && (r.rc == 0 <==>
                  && i != NULL_IDX && fs.table[i].kind == kind
                  && (kind == Dir ==> name != "." && name != ".." && forall j: Index :: fs.table[j].kind == Free || fs.table[j].parent != i))
            && (r.rc != 0 ==> r.rc == -1 && r.fs == fs)
            && (r.rc == 0 ==>
                  && r.fs.cwd == fs.cwd && OthersKept(fs.table, r.fs.table, i)
                  && r.fs.table[i] == fs.table[i].(kind := Free))
  {
  }

  // ---- Moving about ----------------------------------------------------------------------------

  /** `cd` moves nothing but the current directory: "/" leads to the root, "." nowhere, ".." to the parent and
      from the root to the root, and any other name into the directory of that name, if there is one. */
  lemma Moved(fs: Fs, name: string)
    requires Inv(fs)
    ensures var r, i := Cd(fs, name), Find(fs.table, name, fs.cwd);
            && r.fs.table == fs.table
            && (name == "" ==> r == Reply(fs, -1))
            && (name == "/" ==> r.rc == 0 && r.fs.cwd == 0)
            && (name == "." ==> r == Reply(fs, 0))
            && (name == ".." && fs.cwd == 0 ==> r == Reply(fs, 0))
            && (name == ".." && fs.cwd != 0 ==> r.rc == 0 && r.fs.cwd == fs.table[fs.cwd].parent)
            && (name !in {"", "/", ".", ".."} ==>
                  r == if i != NULL_IDX && fs.table[i].kind == Dir then Reply(fs.(cwd := i), 0) else Reply(fs, -1))
  {
    if fs.cwd != ROOT {
      assert GoodEntry(fs.table, fs.cwd);
    }
  }

  /** Down and up again: after `cd` into a directory by name, `cd ..` leads back. */
  lemma DownAndUp(fs: Fs, name: string)
    requires Inv(fs) && name !in {"", "/", ".", ".."} && Cd(fs, name).rc == 0
    ensures Cd(Cd(fs, name).fs, "..") == Reply(fs, 0)
  {
    Moved(fs, name);
    FoundInside(fs, name);
    FoundFirst(fs.table, name, fs.cwd);
    StepKeepsInv(fs, OpCd(name));
    Moved(Cd(fs, name).fs, "..");
  }

  /** Made and removed: what `mkdir` or `touch` made under a name of at most sixteen characters, `rmdir` or `rm`
      of that name frees again, and no other slot has changed. */
  lemma MadeAndRemoved(fs: Fs, kind: Kind, name: string, made: Reply, gone: Reply)
    requires Inv(fs) && (kind == Dir || kind == File) && |name| <= 16
    requires made == if kind == Dir then Mkdir(fs, name) else CreateFile(fs, name)
    requires made.rc != -1
    requires gone == if kind == Dir then Rmdir(made.fs, name) else Rm(made.fs, name)
    ensures gone.rc == 0 && gone.fs.cwd == fs.cwd
    ensures 0 <= made.rc < 32 && gone.fs.table[made.rc].kind == Free && OthersKept(fs.table, gone.fs.table, made.rc)
  {
    Created(fs, kind, name, made);
    var t', slot: Index := made.fs.table, made.rc;
    FoundFirst(t', name, fs.cwd);
    assert Matches(t'[slot], name, fs.cwd);
    assert Find(t', name, fs.cwd) == slot;
    NoChildren(fs, slot);
    Removed(made.fs, kind, name, gone);
  }

  lemma NoChildren(fs: Fs, slot: Index)
    requires Inv(fs) && fs.table[slot].kind == Free
    ensures fs.cwd != slot && forall j: Index :: fs.table[j].kind == Free || fs.table[j].parent != slot
  {
    forall j: Index | fs.table[j].kind != Free
      ensures fs.table[j].parent != slot
    {
      if j != ROOT {
        assert GoodEntry(fs.table, j);
      }
    }
  }
}
