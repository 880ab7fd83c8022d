/** `pwd` and `cd` undo each other. */
module FsPath {
  import opened FsTable
  import opened FsTree

  // ---- The text of a path ----------------------------------------------------------------------

  function Joined(p: Path): string {
    if p == [] then "" else Joined(p[..|p| - 1]) + "/" + p[|p| - 1]
  }

  /** What `fs_print_path` prints. */
  function PathText(p: Path): string {
    if p == [] then "/" else Joined(p)
  }

  /** The maximal slash-free, nonempty pieces of a text: what a user types to `cd` one by one. */
  function Components(s: string): (r: seq<string>)
    ensures forall i :: 0 <= i < |r| ==> '/' !in r[i] && r[i] != ""
  {
    if s == "" then []
    else
      var r, c := Components(s[..|s| - 1]), s[|s| - 1];
      if c == '/' then r
      else if |s| == 1 || s[|s| - 2] == '/' then r + [[c]]
      else if r == [] then [[c]] else r[|r| - 1 := r[|r| - 1] + [c]]
  }

  lemma ComponentsSnoc(s: string, c: char)
    ensures Components(s + [c]) ==
            if c == '/' then Components(s)
            else if s == "" || s[|s| - 1] == '/' || Components(s) == [] then Components(s) + [[c]]
            else var r := Components(s); r[|r| - 1 := r[|r| - 1] + [c]]
  {
    assert (s + [c])[..|s|] == s;
  }

  lemma LongerName(s: string, h: string, c: char, name: string)
    requires name == h + [c]
    ensures s + "/" + name == s + "/" + h + [c]
  {
  }

  /** A nonempty slash-free name after a slash is one more component. */
  lemma {:induction false} ComponentsName(s: string, name: string)
    requires name != "" && '/' !in name
    ensures Components(s + "/" + name) == Components(s) + [name]
    decreases |name|
  {
    var h, c := name[..|name| - 1], name[|name| - 1];
    if h == "" {
      ComponentsSnoc(s, '/');
      ComponentsSnoc(s + "/", c);
      assert s + "/" + name == s + "/" + [c] && name == [c];
    } else {
      ComponentsName(s, h);
      ComponentsSnoc(s + "/" + h, c);
      LongerName(s, h, c, name);
    }
  }

  ghost predicate SlashFree(p: Path) {
    forall c :: c in p ==> '/' !in c
  }

  /** Reading back the printed path gives the names on it. */
  lemma {:induction false} ComponentsOfText(p: Path)
    requires SlashFree(p) && "" !in p
    ensures Components(PathText(p)) == p && Components(Joined(p)) == p
  {
    if p == [] {
      ComponentsSnoc("", '/');
      assert "" + ['/'] == "/";
    } else {
      ComponentsOfText(p[..|p| - 1]);
      ComponentsName(Joined(p[..|p| - 1]), p[|p| - 1]);
      assert p == p[..|p| - 1] + [p[|p| - 1]];
    }
  }

  /** Where the i-th name of a path starts in its text, slash included. */
  function Offset(p: Path, i: nat): nat
    requires i <= |p|
  {
    if i == 0 then 0 else Offset(p, i - 1) + 1 + |p[i - 1]|
  }

  lemma {:induction false} OffsetPrefix(p: Path, i: nat)
    requires 0 < |p| && i < |p|
    ensures Offset(p[..|p| - 1], i) == Offset(p, i)
  {
    if i > 0 { OffsetPrefix(p, i - 1); }
  }

  /** A slash and the name stand at `at`. */
  predicate NameAt(t: string, at: nat, name: string) {
    at + 1 + |name| <= |t| && t[at] == '/' && t[at + 1..at + 1 + |name|] == name
  }

  lemma NameAtStays(u: string, rest: string, at: nat, name: string)
    requires NameAt(u, at, name)
    ensures NameAt(u + rest, at, name)
  {
    assert (u + rest)[at + 1..at + 1 + |name|] == u[at + 1..at + 1 + |name|];
  }

  lemma NameAtEnd(u: string, name: string)
    ensures NameAt(u + "/" + name, |u|, name)
  {
  }

  predicate Stands(t: string, p: Path, i: nat)
    requires i < |p|
  {
    NameAt(t, Offset(p, i), p[i])
  }

  /** The text of a path, whatever the names on it: a slash and a name for every step and nothing else, and a
      single slash for the root. */
  lemma TextOfNames(p: Path)
    ensures var t := PathText(p);
            && |t| == (if p == [] then 1 else Offset(p, |p|))
            && (p == [] ==> t == "/")
            && forall i :: 0 <= i < |p| ==> Stands(t, p, i)
  {
    if p != [] {
      JoinedOffsets(p);
    }
  }

  lemma StandsLater(u: string, name: string, up: Path, p: Path, i: nat)
    requires p != [] && up == p[..|p| - 1] && i < |up| && Stands(u, up, i)
    ensures Stands(u + "/" + name, p, i)
  {
    OffsetPrefix(p, i);
    var at := Offset(p, i);
    NameAtStays(u, "/", at, p[i]);
    NameAtStays(u + "/", name, at, p[i]);
  }

  lemma StandsLast(u: string, p: Path)
    requires p != [] && |u| == Offset(p[..|p| - 1], |p| - 1)
    ensures Stands(u + "/" + p[|p| - 1], p, |p| - 1) && |u + "/" + p[|p| - 1]| == Offset(p, |p|)
  {
    OffsetPrefix(p, |p| - 1);
    NameAtEnd(u, p[|p| - 1]);
  }

  lemma {:induction false} JoinedOffsets(p: Path)
    ensures |Joined(p)| == Offset(p, |p|)
    ensures forall i :: 0 <= i < |p| ==> Stands(Joined(p), p, i)
    decreases |p|
  {
    if p != [] {
      var n := |p| - 1;
      var up, u, name := p[..n], Joined(p[..n]), p[n];
      JoinedOffsets(up);
      StandsLast(u, p);
      forall i | 0 <= i < |p|
        ensures Stands(u + "/" + name, p, i)
      {
        if i < n { StandsLater(u, name, up, p, i); }
      }
    }
  }

  /** A path as a user would write it: it starts with a slash, no slash follows another, and only the root's
      ends in one. */
  predicate Tidy(t: string) {
    && t != "" && t[0] == '/'
    && (forall i :: 0 < i < |t| ==> !(t[i - 1] == '/' && t[i] == '/'))
    && (t[|t| - 1] == '/' ==> t == "/")
  }

  function Slashes(t: string): nat {
    if t == "" then 0 else Slashes(t[..|t| - 1]) + if t[|t| - 1] == '/' then 1 else 0
  }

  lemma {:induction false} SlashesAppend(t: string, u: string)
    ensures Slashes(t + u) == Slashes(t) + Slashes(u)
    decreases |u|
  {
    if u == "" {
      assert t + u == t;
    } else {
      SlashesAppend(t, u[..|u| - 1]);
      assert (t + u)[..|t + u| - 1] == t + u[..|u| - 1];
    }
  }

  lemma {:induction false} NoSlashes(t: string)
    requires '/' !in t
    ensures Slashes(t) == 0
  {
    if t != "" {
      assert t[|t| - 1] in t && forall c :: c in t[..|t| - 1] ==> c in t;
      NoSlashes(t[..|t| - 1]);
    }
  }

  lemma {:induction false} JoinedTidy(p: Path)
    requires SlashFree(p) && "" !in p && p != []
    ensures Tidy(Joined(p)) && Joined(p) != "/" && Slashes(Joined(p)) == |p|
  {
    var up, name := p[..|p| - 1], p[|p| - 1];
    var u := Joined(up);
    assert name in p && forall c :: c in up ==> c in p;
    if up != [] {
      JoinedTidy(up);
    } else {
      assert u == "";
    }
    SlashesAppend(u, "/");
    SlashesAppend(u + "/", name);
    NoSlashes(name);
    assert "/"[..0] == "" && Slashes("/") == 1;
    TidyExtended(u, name);
  }

  lemma TidyExtended(u: string, name: string)
    requires u == "" || (Tidy(u) && u != "/")
    requires name != "" && '/' !in name
    ensures Tidy(u + "/" + name) && u + "/" + name != "/"
  {
    var t := u + "/" + name;
    assert t[|t| - 1] == name[|name| - 1] && name[|name| - 1] in name;
    forall i | 0 < i < |t|
      ensures !(t[i - 1] == '/' && t[i] == '/')
    {
      if i > |u| {
        assert t[i] == name[i - |u| - 1] && name[i - |u| - 1] in name;
      }
    }
  }

  /** The text of a path of slash-free names is the one tidy text with these components. */
  lemma TextIsTheTidyOne(p: Path, t: string)
    requires SlashFree(p) && "" !in p
    ensures t == PathText(p) <==> Tidy(t) && Components(t) == p
    ensures Slashes(PathText(p)) == if p == [] then 1 else |p|
  {
    ComponentsOfText(p);
    assert "/"[..0] == "" && Slashes("/") == 1;
    if p != [] { JoinedTidy(p); }
    if Tidy(t) && Components(t) == p {
      if t == "/" {
        ComponentsSnoc("", '/');
        assert "" + ['/'] == "/";
      } else {
        TidyIsJoined(t, p);
      }
    }
  }

  lemma {:induction false} LastSlash(t: string) returns (u: string, name: string)
    requires t != "" && t[0] == '/'
    ensures t == u + "/" + name && '/' !in name
    decreases |t|
  {
    if t[|t| - 1] == '/' {
      u, name := t[..|t| - 1], "";
    } else {
      u, name := LastSlash(t[..|t| - 1]);
      name := name + [t[|t| - 1]];
    }
  }

  lemma {:induction false} TidyIsJoined(t: string, p: Path)
    requires Tidy(t) && t != "/" && Components(t) == p
    ensures p != [] && t == Joined(p)
    decreases |t|
  {
    var u, name := LastSlash(t);
    assert name != "";
    ComponentsName(u, name);
    assert p[..|p| - 1] == Components(u) && p[|p| - 1] == name;
    if u != "" {
      assert t[..|u|] == u && t[|u| - 1] == u[|u| - 1] && t[|u|] == '/';
      forall i | 0 < i < |u|
        ensures !(u[i - 1] == '/' && u[i] == '/')
      {
        assert t[i - 1] == u[i - 1] && t[i] == u[i];
      }
      TidyIsJoined(u, Components(u));
    } else {
      assert Joined(p[..|p| - 1]) == "";
    }
  }

  /** `t` is a slash and a name for every step of `p`, or a single slash for the root, and nothing else; if no
      name has a slash, it is tidy and has `p` as its components. */
  ghost predicate Spells(t: string, p: Path) {
    && (p == [] ==> t == "/")
    && (p != [] ==> |t| == Offset(p, |p|) && forall i :: 0 <= i < |p| ==> Stands(t, p, i))
    && (SlashFree(p) ==> Tidy(t) && Components(t) == p)
  }

  lemma PathSpelled(p: Path)
    requires "" !in p
    ensures Spells(PathText(p), p)
  {
    TextOfNames(p);
    if SlashFree(p) {
      TextIsTheTidyOne(p, PathText(p));
    }
  }

  // ---- Walking ---------------------------------------------------------------------------------

  /** `cd` on each name in turn, up to the first failure. */
  function CdAll(fs: Fs, names: seq<string>): Reply {
    if names == [] then Reply(fs, 0)
    else
      var r := CdAll(fs, names[..|names| - 1]);
      if r.rc != 0 then r else Cd(r.fs, names[|names| - 1])
  }

  /** Every directory on the way from the root to `i` is the first match of its name in its parent. */
  predicate FirstOnWay(t: Table, i: Index, d: nat)
    requires AtDepth(t, i, d)
    decreases d
  {
    d > 0 ==> Find(t, t[i].name, t[i].parent) == i && FirstOnWay(t, t[i].parent, d - 1)
  }

  /** From the parent of a directory, and from nowhere else, `cd` with its name can lead there, and it does
      exactly when the directory is the first match. */
  lemma CdIntoChild(t: Table, i: Index, from: Index)
    requires Shape(t) && i != ROOT && t[i].kind == Dir && t[i].name != "/"
    ensures Cd(Fs(t, from), t[i].name) == Reply(Fs(t, i), 0) <==> from == t[i].parent && Find(t, t[i].name, from) == i
  {
    assert GoodEntry(t, i);
  }

  /** Walking down the names of a directory's path from the root ends in that directory exactly when every
      directory on the way is the first match. */
  lemma {:induction false} WalkDownIff(t: Table, i: Index, d: nat)
    requires Shape(t) && t[i].kind == Dir && AtDepth(t, i, d) && SlashFree(NamesTo(t, i, d))
    ensures CdAll(Fs(t, ROOT), NamesTo(t, i, d)) == Reply(Fs(t, i), 0) <==> FirstOnWay(t, i, d)
    decreases d
  {
    if d > 0 {
      assert GoodEntry(t, i);
      var p, up := NamesTo(t, i, d), NamesTo(t, t[i].parent, d - 1);
      LastName(p, up, t[i].name);
      WalkDownIff(t, t[i].parent, d - 1);
      CdAllKeepsTable(Fs(t, ROOT), up);
      CdIntoChild(t, i, CdAll(Fs(t, ROOT), up).fs.cwd);
    }
  }

  lemma LastName(p: Path, up: Path, name: string)
    requires p == up + [name] && SlashFree(p)
    ensures p[..|p| - 1] == up && p[|p| - 1] == name && SlashFree(up) && '/' !in name
  {
    assert forall c :: c in up ==> c in p;
    assert name in p;
  }

  lemma {:induction false} CdAllKeepsTable(fs: Fs, names: seq<string>)
    ensures CdAll(fs, names).fs.table == fs.table
  {
    if names != [] {
      CdAllKeepsTable(fs, names[..|names| - 1]);
    }
  }

  lemma {:induction false} NamesNotEmpty(t: Table, i: Index, d: nat)
    requires Shape(t) && AtDepth(t, i, d)
    ensures "" !in NamesTo(t, i, d)
    decreases d
  {
    if d > 0 {
      assert GoodEntry(t, i);
      NamesNotEmpty(t, t[i].parent, d - 1);
    }
  }

  /** The path `pwd` prints. */
  ghost function Here(fs: Fs): Path
    requires Inv(fs)
  {
    LiveRooted(fs.table, fs.cwd);
    PathOf(fs.table, fs.cwd)
  }

  /** `cd` never brings in a name of its own: the new path is made of old names and the one given. */
  lemma CdKeepsSlashFree(fs: Fs, fs': Fs, name: string)
    requires Inv(fs) && '/' !in name && SlashFree(Here(fs)) && fs' == Cd(fs, name).fs
    ensures Inv(fs') && SlashFree(Here(fs'))
  {
    StepKeepsInv(fs, OpCd(name));
    RootPath(fs.table);
    if fs'.cwd != fs.cwd && fs'.cwd != ROOT {
      if name == ".." {
        PathOfChild(fs.table, fs.cwd);
        LastName(Here(fs), Here(fs'), fs.table[fs.cwd].name);
      } else {
        PathOfChild(fs.table, fs'.cwd);
      }
    }
  }

  lemma {:induction false} WalkKeepsSlashFree(fs: Fs, names: seq<string>)
    requires Inv(fs) && SlashFree(names) && SlashFree(Here(fs))
    ensures var fs' := CdAll(fs, names).fs; Inv(fs') && SlashFree(Here(fs'))
  {
    if names != [] {
      WalkKeepsSlashFree(fs, names[..|names| - 1]);
      var before := CdAll(fs, names[..|names| - 1]).fs;
      CdKeepsSlashFree(before, Cd(before, names[|names| - 1]).fs, names[|names| - 1]);
    }
  }

  /** Printing the current directory, going to the root and typing back the printed components. */
  ghost predicate RoundTrip(fs: Fs)
    requires Inv(fs)
  {
    CdAll(Cd(fs, "/").fs, Components(PathText(Here(fs)))) == Reply(fs, 0)
  }

  /** It leads to exactly the state one started from if and only if no directory on the path has a slash in
      its name and every one is the first match of its name. */
  lemma RoundTripIff(fs: Fs, d: nat)
    requires Inv(fs) && AtDepth(fs.table, fs.cwd, d)
    ensures RoundTrip(fs) <==> SlashFree(Here(fs)) && FirstOnWay(fs.table, fs.cwd, d)
  {
    var t := fs.table;
    PathOfIs(t, fs.cwd, d);
    if SlashFree(Here(fs)) {
      NamesNotEmpty(t, fs.cwd, d);
      ComponentsOfText(Here(fs));
      WalkDownIff(t, fs.cwd, d);
    }
    if RoundTrip(fs) {
      RootPath(t);
      WalkKeepsSlashFree(Cd(fs, "/").fs, Components(PathText(Here(fs))));
    }
  }

  // ---- First matches over whole runs -----------------------------------------------------------

  /** Entries directly below `dir` aside, nothing has appeared, disappeared, moved or changed its name. */
  ghost predicate OnlyBelow(t: Table, t': Table, dir: Index) {
    forall k: Index ::
      || (t'[k].kind == t[k].kind && t'[k].parent == t[k].parent && t'[k].name == t[k].name)
      || ((Live(t, k) ==> t[k].parent == dir) && (Live(t', k) ==> t'[k].parent == dir))
  }

  lemma {:induction false} FindFromStays(t: Table, t': Table, dir: Index, name: string, parent: Link, i: nat)
    requires OnlyBelow(t, t', dir) && parent != dir && i <= MAX_ENTRIES
    ensures FindFrom(t', name, parent, i) == FindFrom(t, name, parent, i)
    decreases MAX_ENTRIES - i
  {
    if i < MAX_ENTRIES {
      var k: Index := i;
      assert Matches(t'[k], name, parent) == Matches(t[k], name, parent);
      FindFromStays(t, t', dir, name, parent, i + 1);
    }
  }

  /** Changes directly below `dir` touch no chain that is not longer than its own. */
  lemma {:induction false} WayStays(t: Table, t': Table, dir: Index, e: nat, i: Index, d: nat)
    requires OnlyBelow(t, t', dir) && AtDepth(t, dir, e) && AtDepth(t, i, d) && d <= e
    requires FirstOnWay(t, i, d)
    ensures AtDepth(t', i, d) && FirstOnWay(t', i, d)
    decreases d
  {
    if d > 0 {
      var up := t[i].parent;
      if up == dir { DepthUnique(t, up, d - 1, e); }
      WayStays(t, t', dir, e, up, d - 1);
      FindFromStays(t, t', dir, t[i].name, up, 0);
    }
  }

  /** The current directory can be reached by first matches. */
  ghost predicate CwdFirst(fs: Fs) {
    exists d: nat :: AtDepth(fs.table, fs.cwd, d) && FirstOnWay(fs.table, fs.cwd, d)
  }

  lemma CdKeepsFirst(fs: Fs, name: string)
    requires Inv(fs) && CwdFirst(fs)
    ensures CwdFirst(Cd(fs, name).fs)
  {
    var t, to := fs.table, Cd(fs, name).fs.cwd;
    var d: nat :| AtDepth(t, fs.cwd, d) && FirstOnWay(t, fs.cwd, d);
    if to == ROOT {
      assert AtDepth(t, ROOT, 0) && FirstOnWay(t, ROOT, 0);
    } else if to != fs.cwd {
      if name == ".." {
        assert AtDepth(t, to, d - 1) && FirstOnWay(t, to, d - 1);
      } else {
        assert AtDepth(t, to, d + 1) && FirstOnWay(t, to, d + 1);
      }
    }
  }

  /** Entries come and go only directly below the current directory. */
  lemma OthersOnlyBelow(fs: Fs, op: Op)
    requires !op.OpCd?
    ensures Apply(fs, op).fs.cwd == fs.cwd && OnlyBelow(fs.table, Apply(fs, op).fs.table, fs.cwd)
  {
  }

  lemma StepKeepsFirst(fs: Fs, op: Op)
    requires Inv(fs) && CwdFirst(fs)
    ensures CwdFirst(Apply(fs, op).fs)
  {
    if op.OpCd? {
      CdKeepsFirst(fs, op.name);
    } else {
      var d: nat :| AtDepth(fs.table, fs.cwd, d) && FirstOnWay(fs.table, fs.cwd, d);
      OthersOnlyBelow(fs, op);
      WayStays(fs.table, Apply(fs, op).fs.table, fs.cwd, d, fs.cwd, d);
    }
  }

  /** In every reachable state, duplicate names and all, every directory on the current path is the first
      match of its name in its parent. */
  lemma {:induction false} RunKeepsFirst(ops: seq<Op>)
    ensures Inv(Run(Init(), ops)) && CwdFirst(Run(Init(), ops))
  {
    RunKeepsInv(ops);
    if ops == [] {
      assert AtDepth(Init().table, ROOT, 0) && FirstOnWay(Init().table, ROOT, 0);
    } else {
      RunKeepsFirst(ops[..|ops| - 1]);
      StepKeepsFirst(Run(Init(), ops[..|ops| - 1]), ops[|ops| - 1]);
    }
  }

  /** So in every state any calls can reach, with names of any length, `pwd` and `cd` are inverse exactly when
      no directory on the path has a slash in its name. */
  lemma PwdThenCdIff(ops: seq<Op>)
    ensures var fs := Run(Init(), ops); Inv(fs) && (RoundTrip(fs) <==> SlashFree(Here(fs)))
  {
    RunKeepsFirst(ops);
    var fs := Run(Init(), ops);
    var d: nat :| AtDepth(fs.table, fs.cwd, d) && FirstOnWay(fs.table, fs.cwd, d);
    RoundTripIff(fs, d);
  }

  /** The first directory made in the root, once entered. */
  lemma FirstEntered(name: string, made: Fs)
    requires DirName(name) && name != "/" && |name| <= MAX_NAME_LEN && made == Mkdir(Init(), name).fs
    ensures var fs := Cd(made, name).fs; Inv(fs) && Here(fs) == [name]
  {
    InitInv();
    StepKeepsInv(Init(), OpMkdir(name));
    StepKeepsInv(made, OpCd(name));
    FirstFound(name, made);
    var fs := Cd(made, name).fs;
    PathOfChild(fs.table, fs.cwd);
    RootPath(fs.table);
  }

  lemma FirstFound(name: string, made: Fs)
    requires DirName(name) && |name| <= MAX_NAME_LEN && made == Mkdir(Init(), name).fs
    ensures made.cwd == ROOT && Find(made.table, name, ROOT) > ROOT
    ensures Matches(made.table[Find(made.table, name, ROOT)], name, ROOT) && made.table[Find(made.table, name, ROOT)].kind == Dir
  {
    var t := Init().table;
    assert Find(t, name, ROOT) == NULL_IDX;
    assert t[1].kind == Free && Alloc(t) != NULL_IDX;
    var slot := Alloc(t);
    assert Matches(made.table[slot], name, ROOT);
    assert forall k: Index :: k != slot ==> made.table[k] == t[k];
  }

  lemma RunTwo(a: Op, b: Op)
    ensures Run(Init(), [a, b]) == Apply(Apply(Init(), a).fs, b).fs
  {
    assert Run(Init(), [a][..0]) == Init();
    assert Run(Init(), [a]) == Apply(Init(), a).fs;
    assert [a, b][..1] == [a];
  }

  /** An instance where they are not: `mkdir a/b`, then `cd a/b`. */
  lemma SlashInName()
    ensures var fs := Run(Init(), [OpMkdir("a/b"), OpCd("a/b")]);
            Inv(fs) && Here(fs) == ["a/b"] && !RoundTrip(fs)
  {
    var name := "a/b";
    RunTwo(OpMkdir(name), OpCd(name));
    FirstEntered(name, Mkdir(Init(), name).fs);
    PwdThenCdIff([OpMkdir(name), OpCd(name)]);
    assert name in [name] && name[1] == '/';
  }

  // ---- Names without slashes -------------------------------------------------------------------

  /** Created names without slashes never give a directory one. */
  ghost predicate SlashFreeTable(t: Table) {
    forall i: Index :: Live(t, i) ==> '/' !in t[i].name
  }

  ghost predicate PlainNames(ops: seq<Op>) {
    forall i :: 0 <= i < |ops| && (ops[i].OpMkdir? || ops[i].OpTouch?) ==> '/' !in ops[i].name
  }

  lemma CreateSlashFree(fs: Fs, kind: Kind, name: string)
    requires SlashFreeTable(fs.table) && '/' !in name
    ensures SlashFreeTable(Create(fs, kind, name).fs.table)
  {
    assert '/' !in Stored(name);
  }

  lemma ApplySlashFree(fs: Fs, op: Op)
    requires SlashFreeTable(fs.table) && (op.OpMkdir? || op.OpTouch? ==> '/' !in op.name)
    ensures SlashFreeTable(Apply(fs, op).fs.table)
  {
    match op {
      case OpMkdir(name) => CreateSlashFree(fs, Dir, name);
      case OpTouch(name) => CreateSlashFree(fs, File, name);
      case OpWrite(name, data) =>
      case OpCd(name) =>
      case OpRm(name) =>
      case OpRmdir(name) =>
    }
  }

  lemma {:induction false} RunSlashFree(ops: seq<Op>)
    requires PlainNames(ops)
    ensures SlashFreeTable(Run(Init(), ops).table)
  {
    if ops != [] {
      RunSlashFree(ops[..|ops| - 1]);
      ApplySlashFree(Run(Init(), ops[..|ops| - 1]), ops[|ops| - 1]);
    }
  }

  lemma {:induction false} NamesSlashFree(t: Table, i: Index, d: nat)
    requires SlashFreeTable(t) && AtDepth(t, i, d)
    ensures SlashFree(NamesTo(t, i, d))
    decreases d
  {
    if d > 0 {
      NamesSlashFree(t, t[i].parent, d - 1);
    }
  }

  /** In every state reachable with names that have no slash, of any length, `pwd` and `cd` are inverse. */
  lemma PwdThenCdReachable(ops: seq<Op>)
    requires PlainNames(ops)
    ensures var fs := Run(Init(), ops); Inv(fs) && RoundTrip(fs)
  {
    PwdThenCdIff(ops);
    RunSlashFree(ops);
    var fs := Run(Init(), ops);
    LiveRooted(fs.table, fs.cwd);
    var d: nat :| AtDepth(fs.table, fs.cwd, d);
    PathOfIs(fs.table, fs.cwd, d);
    NamesSlashFree(fs.table, fs.cwd, d);
  }
}
