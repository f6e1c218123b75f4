/**
 Hosts on which the conditions of `Repository` and `Resolution` are met: two repositories that
 share a memory directory, and a main copy with a linked worktree.
 */
module Witnesses {
  import opened LexicalPath
  import opened ProjectKey
  import opened Repository
  import opened Resolution
  import opened Sequences
  import opened Wrappers

  // ---------- a session with nothing configured ----------

  function CodeUnits(s: string): seq<Unit> {
    seq(|s|, i requires 0 <= i < |s| => s[i] as int % 0x1_0000)
  }

  predicate PlainEnv(env: Env) {
    env.processHome.Some? && env.managedSettings == []
  }

  ghost predicate NoSettings(env: Env) {
    forall file :: env.settings(file) == NotFound
  }

  const CONFIG: Config := Config(None, None, None, None, None)

  lemma EmptyEnv() returns (env: Env)
    ensures PlainEnv(env) && NoSettings(env)
    ensures forall s :: env.utf16(s) == CodeUnits(s)
  {
    env := Env(Some(["home"]), [], (file: Spelled) => NotFound, (s: string) => CodeUnits(s));
  }

  /** Such a session is ready wherever its repository can be told. */
  lemma PlainSessionReady(h: Host, env: Env, cwd: Path)
    requires PlainEnv(env) && NoSettings(env)
    requires Names(cwd) && IdentityOf(h, cwd).Ok?
    ensures var r := Resolved(h, env, Some(CONFIG), Show(cwd));
            r.Ready? && r.repository == IdentityOf(h, cwd).value
  {
    ShowResolves(cwd);
    var repository := IdentityOf(h, cwd).value;
    var configDir := ConfigDir(CONFIG, env).value;
    var readings := ReadAll(env, SettingsFiles(env, configDir, cwd, repository.workingRoot));
    assert forall r :: r in readings ==> r == NotFound;
    VerdictExactly(readings, None);
  }

  // ---------- two repositories ----------

  lemma OwnRepository(h: Host, cwd: Path)
    requires h.probe(cwd + [DOT_GIT]) == Present(Directory)
    ensures IdentityOf(h, cwd) == Ok(Identity(cwd, cwd, Git))
  {
    assert WorksIn(h, cwd, cwd);
    MainBelongs(h, cwd, cwd);
  }

  lemma TwoRepositoriesHost(a: Path, b: Path) returns (h: Host)
    ensures h.probe(a + [DOT_GIT]) == Present(Directory) && h.probe(b + [DOT_GIT]) == Present(Directory)
  {
    h := Host((p: Path) => if p == a + [DOT_GIT] || p == b + [DOT_GIT] then Present(Directory) else Missing,
              (p: Path) => None, (p: Path) => false, (p: Path) => None);
  }

  lemma ShowTwoRoots()
    ensures Show(["a.b"]) == "/a.b" && Show(["a", "b"]) == "/a/b"
  {
    assert ["a.b"][..0] == [] && ["a"][..0] == [] && ["a", "b"][..1] == ["a"];
    assert ShowBelowRoot(["a"]) == "/a";
    assert ShowBelowRoot(["a", "b"]) == "/a" + "/" + "b";
  }

  lemma CollidingRoots(env: Env) returns (a: Path, b: Path)
    requires forall s :: env.utf16(s) == CodeUnits(s)
    ensures a != b && Names(a) && Names(b)
    ensures Key(env.utf16(Show(a))) == Key(env.utf16(Show(b)))
  {
    a, b := ["a.b"], ["a", "b"];
    ShowTwoRoots();
    assert CodeUnits("/a.b") == [47, 97, 46, 98] && CodeUnits("/a/b") == [47, 97, 47, 98];
    DistinctRootsOneKey();
  }

  /** "Two repositories never share" a memory directory is false: there is a host on which two do. */
  lemma TwoRepositoriesOneMemory() returns (h: Host, env: Env, a: Path, b: Path)
    ensures a != b
    ensures var x, y := Resolved(h, env, Some(CONFIG), Show(a)), Resolved(h, env, Some(CONFIG), Show(b));
            && x.Ready? && x.repository == Identity(a, a, Git)
            && y.Ready? && y.repository == Identity(b, b, Git)
            && x.memoryDirectory == y.memoryDirectory
  {
    env := EmptyEnv();
    a, b := CollidingRoots(env);
    h := TwoRepositoriesHost(a, b);
    OwnRepository(h, a);
    OwnRepository(h, b);
    PlainSessionReady(h, env, a);
    PlainSessionReady(h, env, b);
    SharedMemoryExactly(h, env, CONFIG, Show(a), Show(b));
  }

  // ---------- a main copy and a linked worktree ----------

  /** What `git worktree add` leaves on disk for a worktree `w` of `main`. */
  ghost predicate WorktreeAdded(h: Host, main: Path, w: Path, gitDir: Path) {
    && h.probe(main + [DOT_GIT]) == Present(Directory)
    && h.probe(w + [DOT_GIT]) == Present(File)
    && h.readText(w + [DOT_GIT]) == Some("gitdir:" + Show(gitDir))
    && h.readText(gitDir + ["commondir"]) == Some("../..")
    && h.readText(gitDir + ["gitdir"]) == Some(Show(w + [DOT_GIT]))
  }

  lemma WorktreeHost(main: Path, w: Path, gitDir: Path) returns (h: Host)
    requires main != w && |gitDir| >= |w| + 1
    ensures WorktreeAdded(h, main, w, gitDir)
  {
    var link, common, back := w + [DOT_GIT], gitDir + ["commondir"], gitDir + ["gitdir"];
    assert common[|gitDir|] != back[|gitDir|];
    assert main + [DOT_GIT] != link by {
      assert (main + [DOT_GIT])[..|main|] == main && link[..|w|] == w;
    }
    var text := "gitdir:" + Show(gitDir);
    var backText := Show(link);
    h := Host((p: Path) => if p == link then Present(File) else if p == main + [DOT_GIT] then Present(Directory) else Missing,
              (p: Path) => if p == link then Some(text) else if p == common then Some("../..")
                           else if p == back then Some(backText) else None,
              (p: Path) => false, (p: Path) => None);
  }

  /** A path that ends in a visible name is not trimmed when it is read back. */
  lemma {:induction false} ShowBounds(p: Path)
    requires p != [] && p[|p| - 1] != ""
    ensures ShowBelowRoot(p) != "" && ShowBelowRoot(p)[0] == SEPARATOR
    ensures var name := p[|p| - 1]; ShowBelowRoot(p)[|ShowBelowRoot(p)| - 1] == name[|name| - 1]
    decreases |p|
  {
    StartsAtRoot(p);
  }

  lemma {:induction false} StartsAtRoot(p: Path)
    requires p != []
    ensures ShowBelowRoot(p) != "" && ShowBelowRoot(p)[0] == SEPARATOR
    decreases |p|
  {
    if |p| > 1 {
      StartsAtRoot(p[..|p| - 1]);
    }
  }

  lemma TrimPlain(s: string)
    requires s != "" && !Whitespace(s[0]) && !Whitespace(s[|s| - 1])
    ensures Trim(s) == s
  {}

  /** The text of a link to `p`, read back. */
  lemma LinkReadsBack(p: Path, prefix: string)
    requires p != [] && Names(p) && !Whitespace(p[|p| - 1][|p[|p| - 1]| - 1])
    requires prefix == "" || !Whitespace(prefix[0])
    ensures Trim(prefix + Show(p)) == prefix + Show(p)
    ensures LexicalAbsolute(Trim(Show(p))) == Some(p)
  {
    ShowBounds(p);
    ShowResolves(p);
    PrefixedPlain(prefix, Show(p));
  }

  lemma PrefixedPlain(prefix: string, s: string)
    requires s != "" && !Whitespace(s[0]) && !Whitespace(s[|s| - 1])
    requires prefix == "" || !Whitespace(prefix[0])
    ensures Trim(s) == s && Trim(prefix + s) == prefix + s
  {
    TrimPlain(s);
    PrefixedEnds(prefix, s);
    TrimPlain(prefix + s);
  }

  lemma PrefixedEnds(prefix: string, s: string)
    requires s != ""
    ensures var text := prefix + s;
            && text != "" && text[|text| - 1] == s[|s| - 1]
            && text[0] == if prefix == "" then s[0] else prefix[0]
  {}

  lemma ParentTwice()
    ensures Components("../..") == [ParentDir, ParentDir]
  {
    assert ".." + [SEPARATOR] + ".." == "../..";
    ComponentsJoin("..", "..");
    SplitNoSeparator("..", SEPARATOR);
    assert Components("..") == [ParentDir];
  }

  lemma UpTwice(base: Path, a: string, b: string)
    ensures LexicalPath.Resolve(Normals(base + [a, b]) + [ParentDir, ParentDir], 0) == base
  {
    var p := base + [a, b];
    var up := Normals(p) + [ParentDir];
    assert Normals(p) + [ParentDir, ParentDir] == up + [ParentDir];
    assert (up + [ParentDir])[..|up|] == up && up[..|p|] == Normals(p);
    ResolvePending(Normals(p), 2);
    ResolveNormals(p);
    assert p[..|p| - 2] == base;
  }

  lemma AddedGitDir(h: Host, main: Path, w: Path, gitDir: Path)
    requires gitDir != [] && Names(gitDir) && !Whitespace(gitDir[|gitDir| - 1][|gitDir[|gitDir| - 1]| - 1])
    requires WorktreeAdded(h, main, w, gitDir)
    ensures GitDir(h, w) == Some(gitDir)
  {
    LinkReadsBack(gitDir, "gitdir:");
    StripPrefixed("gitdir:", Show(gitDir));
  }

  lemma StripPrefixed(prefix: string, s: string)
    ensures StripPrefix(prefix + s, prefix) == Some(s)
  {
    assert (prefix + s)[|prefix|..] == s;
  }

  lemma AddedCommonDir(main: Path, name: string)
    ensures JoinResolved(main + [DOT_GIT, "worktrees", name], Trim("../..")) == main + [DOT_GIT]
  {
    TrimPlain("../..");
    ParentTwice();
    UpTwice(main + [DOT_GIT], "worktrees", name);
    assert main + [DOT_GIT] + ["worktrees", name] == main + [DOT_GIT, "worktrees", name];
  }

  lemma AddedBack(h: Host, main: Path, w: Path, gitDir: Path)
    requires Names(w) && WorktreeAdded(h, main, w, gitDir)
    ensures BackLink(h, gitDir) == Some(w + [DOT_GIT])
  {
    LinkReadsBack(w + [DOT_GIT], "");
  }

  lemma ProperGitDir(main: Path, name: string)
    requires Names(main) && Name(name)
    ensures var gitDir := main + [DOT_GIT, "worktrees", name];
            Names(gitDir) && gitDir[|gitDir| - 1] == name && gitDir[..|gitDir| - 1] == main + [DOT_GIT] + ["worktrees"]
  {}

  /** Such links agree. */
  lemma AddedAgrees(h: Host, main: Path, w: Path, name: string)
    requires Names(main) && Names(w) && Name(name) && !Whitespace(name[|name| - 1])
    requires WorktreeAdded(h, main, w, main + [DOT_GIT, "worktrees", name])
    ensures LinksAgree(h, w, main + [DOT_GIT, "worktrees", name], main + [DOT_GIT])
  {
    var gitDir := main + [DOT_GIT, "worktrees", name];
    ProperGitDir(main, name);
    AddedGitDir(h, main, w, gitDir);
    AddedCommonDir(main, name);
    AddedBack(h, main, w, gitDir);
    LinksAreRead(h, w, gitDir, main + [DOT_GIT]);
  }

  /** There is a host with a main copy and a worktree that are one repository with one memory directory. */
  lemma WorktreeAndMain() returns (h: Host, env: Env, main: Path, w: Path)
    ensures main != w
    ensures var x, y := Resolved(h, env, Some(CONFIG), Show(main)), Resolved(h, env, Some(CONFIG), Show(w));
            && x.Ready? && x.repository == Identity(main, main, Git)
            && y.Ready? && y.repository == Identity(main, w, Git)
            && x.memoryDirectory == y.memoryDirectory
  {
    main, w := ["m"], ["w"];
    var gitDir := main + [DOT_GIT, "worktrees", "w"];
    h := WorktreeHost(main, w, gitDir);
    env := EmptyEnv();
    AddedAgrees(h, main, w, "w");
    assert WorksIn(h, main, main) && WorksIn(h, w, w);
    OneRepository(h, main, main, w, w, gitDir, w, w, gitDir);
    PlainSessionReady(h, env, main);
    PlainSessionReady(h, env, w);
    ShowResolves(main);
    ShowResolves(w);
    WorktreesShareMemory(h, env, Some(CONFIG), Show(main), Show(w), main, main, w, w, gitDir);
  }
}
