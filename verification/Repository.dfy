/**
 Which repository a working directory belongs to
 (crates/nession-claude-code/src/memory.rs: `repository_identity`, `linked_worktree_root`).

 The filesystem is an immutable snapshot: what each path answers when it is asked.
 */
module Repository {
  import opened LexicalPath
  import opened Wrappers

  datatype Node = Directory | File | OtherNode

  /** `symlink_metadata`: not there (or below a non-directory), refused, or there. */
  datatype Probe = Missing | Denied | Present(node: Node)

  datatype Host = Host(
    probe: Path -> Probe,
    readText: Path -> Option<string>,
    isThere: Path -> bool,
    canonicalize: Path -> Option<Path>)

  datatype Kind = Git | ProjectRoot

  datatype Identity = Identity(root: Path, workingRoot: Path, kind: Kind)

  const DOT_GIT: string := ".git"

  // ---------- text ----------

  /** Unicode `White_Space`. */
  predicate Whitespace(c: char) {
    || '\t' <= c <= '\r' || c == ' ' || c == '\U{85}' || c == '\U{A0}' || c == '\U{1680}'
    || '\U{2000}' <= c <= '\U{200A}' || c == '\U{2028}' || c == '\U{2029}' || c == '\U{202F}'
    || c == '\U{205F}' || c == '\U{3000}'
  }

  function Trim(s: string): string
    decreases |s|
  {
    if s == "" then ""
    else if Whitespace(s[0]) then Trim(s[1..])
    else if Whitespace(s[|s| - 1]) then Trim(s[..|s| - 1])
    else s
  }

  function StripPrefix(s: string, prefix: string): Option<string> {
    if prefix <= s then Some(s[|prefix|..]) else None
  }

  // ---------- linked_worktree_root ----------

  function Canonical(h: Host, p: Path): Path {
    match h.canonicalize(p)
    case Some(q) => q
    case None => p
  }

  predicate SamePath(h: Host, a: Path, b: Path) {
    Canonical(h, a) == Canonical(h, b)
  }

  /** Where the `.git` file of a working root points. */
  function GitDir(h: Host, workingRoot: Path): Option<Path> {
    var entry := workingRoot + [DOT_GIT];
    if h.probe(entry) != Present(File) then None
    else
      match h.readText(entry)
      case None => None
      case Some(contents) =>
        match StripPrefix(Trim(contents), "gitdir:")
        case None => None
        case Some(rest) => LexicalAbsolute(Trim(rest))
  }

  /** The common directory, once every link has been checked. */
  function CommonDir(h: Host, workingRoot: Path): Option<Path> {
    match GitDir(h, workingRoot)
    case None => None
    case Some(gitDir) => CommonFrom(h, workingRoot, gitDir)
  }

  /** The directory that the `commondir` file leads to. */
  function NamedCommon(h: Host, gitDir: Path): Option<Path> {
    match h.readText(gitDir + ["commondir"])
    case None => None
    case Some(common) => Some(JoinResolved(gitDir, Trim(common)))
  }

  /** The `.git` file that the `gitdir` file leads back to. */
  function BackLink(h: Host, gitDir: Path): Option<Path> {
    match h.readText(gitDir + ["gitdir"])
    case None => None
    case Some(back) => LexicalAbsolute(Trim(back))
  }

  function CommonFrom(h: Host, workingRoot: Path, gitDir: Path): Option<Path> {
    match NamedCommon(h, gitDir)
    case None => None
    case Some(common) =>
      if gitDir == [] then None
      else if !SamePath(h, gitDir[..|gitDir| - 1], common + ["worktrees"]) then None
      else
        match BackLink(h, gitDir)
        case None => None
        case Some(back) => if SamePath(h, back, workingRoot + [DOT_GIT]) then Some(common) else None
  }

  function LinkedWorktreeRoot(h: Host, workingRoot: Path): Option<Path> {
    match CommonDir(h, workingRoot)
    case None => None
    case Some(commonDir) =>
      if commonDir != [] && commonDir[|commonDir| - 1] == DOT_GIT then Some(commonDir[..|commonDir| - 1])
      else if h.isThere(commonDir + [DOT_GIT]) then None
      else Some(commonDir)
  }

  // ---------- repository_identity ----------

  function IdentityAt(h: Host, workingRoot: Path): Identity {
    match LinkedWorktreeRoot(h, workingRoot)
    case Some(root) => Identity(root, workingRoot, Git)
    case None => Identity(workingRoot, workingRoot, Git)
  }

  /** The number of names of the nearest ancestor whose `.git` is not simply missing. */
  function Nearest(h: Host, p: Path): Option<nat> {
    if h.probe(p + [DOT_GIT]) != Missing then Some(|p|)
    else if p == [] then None
    else Nearest(h, p[..|p| - 1])
  }

  function IdentityOf(h: Host, cwd: Path): (r: Result<Identity, Path>) {
    match Nearest(h, cwd)
    case None => Ok(Identity(cwd, cwd, ProjectRoot))
    case Some(n) =>
      NearestIsNearest(h, cwd);
      if h.probe(cwd[..n] + [DOT_GIT]) == Denied then Err(cwd[..n]) else Ok(IdentityAt(h, cwd[..n]))
  }

  /** The ancestor the walk stops at, said without walking. */
  lemma {:induction false} NearestIsNearest(h: Host, p: Path)
    ensures match Nearest(h, p)
            case Some(n) =>
              && n <= |p| && h.probe(p[..n] + [DOT_GIT]) != Missing
              && forall m :: n < m <= |p| ==> h.probe(p[..m] + [DOT_GIT]) == Missing
            case None =>
              forall m :: 0 <= m <= |p| ==> h.probe(p[..m] + [DOT_GIT]) == Missing
    decreases |p|
  {
    assert p[..|p|] == p;
    if h.probe(p + [DOT_GIT]) == Missing && p != [] {
      var parent := p[..|p| - 1];
      NearestIsNearest(h, parent);
      forall m | 0 <= m <= |parent|
        ensures p[..m] == parent[..m]
      {}
    }
  }

  /** `repository_identity`: walk up until a `.git` answers. */
  method RepositoryIdentity(h: Host, cwd: Path) returns (r: Result<Identity, Path>)
    ensures r == IdentityOf(h, cwd)
  {
    var current := cwd;
    while true
      invariant current <= cwd
      invariant Nearest(h, current) == Nearest(h, cwd)
      decreases |current|
    {
      NearestIsNearest(h, current);
      assert current == cwd[..|current|];
      var probe := h.probe(current + [DOT_GIT]);
      match probe {
        case Present(_) =>
          var linked := LinkedWorktreeRoot(h, current);
          var root := if linked.Some? then linked.value else current;
          return Ok(Identity(root, current, Git));
        case Denied =>
          return Err(current);
        case Missing =>
          if current == [] {
            return Ok(Identity(cwd, cwd, ProjectRoot));
          }
          current := current[..|current| - 1];
      }
    }
  }

  // ---------- who shares a repository ----------

  /** `w` is the nearest ancestor of `cwd` (or `cwd` itself) holding a `.git`. */
  ghost predicate WorksIn(h: Host, cwd: Path, w: Path) {
    && w <= cwd
    && h.probe(w + [DOT_GIT]).Present?
    && forall m :: |w| < m <= |cwd| ==> h.probe(cwd[..m] + [DOT_GIT]) == Missing
  }

  /**
   Exactly whose directory it is: a Git working root is reported when, and only when, it is the
   nearest ancestor with a `.git` that can be examined; and then it alone is asked for the root.
   */
  lemma NearestDecides(h: Host, cwd: Path, w: Path)
    ensures WorksIn(h, cwd, w) <==>
              var r := IdentityOf(h, cwd);
              r.Ok? && r.value.kind == Git && r.value.workingRoot == w
    ensures WorksIn(h, cwd, w) ==> IdentityOf(h, cwd) == Ok(IdentityAt(h, w))
  {
    NearestIsNearest(h, cwd);
    var n := Nearest(h, cwd);
    if w <= cwd {
      assert cwd[..|w|] == w;
      if n.Some? && n.value <= |cwd| {
        assert n.value > |w| ==> h.probe(cwd[..n.value] + [DOT_GIT]) != Missing;
      }
    }
  }

  /** A directory is its own project exactly when neither it nor an ancestor has a `.git`. */
  lemma NoRepositoryExactly(h: Host, cwd: Path)
    ensures IdentityOf(h, cwd) == Ok(Identity(cwd, cwd, ProjectRoot))
       <==> forall m :: 0 <= m <= |cwd| ==> h.probe(cwd[..m] + [DOT_GIT]) == Missing
  {
    NearestIsNearest(h, cwd);
  }

  /** Where asking for `p` leads: its canonical path, or itself when there is none. */
  predicate StandsFor(h: Host, p: Path, q: Path) {
    h.canonicalize(p) == Some(q) || (h.canonicalize(p) == None && q == p)
  }

  ghost predicate SamePlace(h: Host, a: Path, b: Path) {
    exists q :: StandsFor(h, a, q) && StandsFor(h, b, q)
  }

  lemma SamePlaceSamePath(h: Host, a: Path, b: Path)
    ensures SamePlace(h, a, b) <==> SamePath(h, a, b)
  {
    assert StandsFor(h, a, Canonical(h, a)) && StandsFor(h, b, Canonical(h, b));
  }

  /** What a file holds, without the blanks around it. */
  predicate Holds(h: Host, p: Path, text: string) {
    h.readText(p).Some? && Trim(h.readText(p).value) == text
  }

  /**
   The links of a linked worktree, stated as what is on disk: the file `.git` holds `gitdir:`
   and a directory under `<common>/worktrees`; in that, `commondir` leads to `common`, and
   `gitdir` holds the way back.
   */
  ghost predicate LinksAgree(h: Host, w: Path, gitDir: Path, common: Path) {
    && h.probe(w + [DOT_GIT]) == Present(File)
    && (exists link :: Holds(h, w + [DOT_GIT], "gitdir:" + link) && LexicalAbsolute(Trim(link)) == Some(gitDir))
    && (exists text :: Holds(h, gitDir + ["commondir"], text) && common == JoinResolved(gitDir, text))
    && gitDir != [] && SamePlace(h, gitDir[..|gitDir| - 1], common + ["worktrees"])
    && (exists text, back :: Holds(h, gitDir + ["gitdir"], text) && LexicalAbsolute(text) == Some(back)
                             && SamePlace(h, back, w + [DOT_GIT]))
  }

  /** They say what the code reads. */
  lemma LinksAreRead(h: Host, w: Path, gitDir: Path, common: Path)
    ensures LinksAgree(h, w, gitDir, common) <==>
              GitDir(h, w) == Some(gitDir) && CommonFrom(h, w, gitDir) == Some(common)
  {
    GitDirRead(h, w, gitDir);
    CommonRead(h, gitDir, common);
    BackRead(h, gitDir, w + [DOT_GIT]);
    if gitDir != [] {
      SamePlaceSamePath(h, gitDir[..|gitDir| - 1], common + ["worktrees"]);
    }
  }

  lemma GitDirRead(h: Host, w: Path, gitDir: Path)
    ensures GitDir(h, w) == Some(gitDir) <==>
              && h.probe(w + [DOT_GIT]) == Present(File)
              && exists link :: Holds(h, w + [DOT_GIT], "gitdir:" + link) && LexicalAbsolute(Trim(link)) == Some(gitDir)
  {
    var prefix := "gitdir:";
    if GitDir(h, w) == Some(gitDir) {
      var text := Trim(h.readText(w + [DOT_GIT]).value);
      assert text == prefix + text[|prefix|..];
      assert Holds(h, w + [DOT_GIT], prefix + text[|prefix|..]);
    }
    forall link | Holds(h, w + [DOT_GIT], prefix + link)
      ensures StripPrefix(Trim(h.readText(w + [DOT_GIT]).value), prefix) == Some(link)
    {
      assert (prefix + link)[|prefix|..] == link;
    }
  }

  lemma CommonRead(h: Host, gitDir: Path, common: Path)
    ensures NamedCommon(h, gitDir) == Some(common) <==>
              exists text :: Holds(h, gitDir + ["commondir"], text) && common == JoinResolved(gitDir, text)
  {
    if NamedCommon(h, gitDir) == Some(common) {
      assert Holds(h, gitDir + ["commondir"], Trim(h.readText(gitDir + ["commondir"]).value));
    }
  }

  lemma BackRead(h: Host, gitDir: Path, target: Path)
    ensures (BackLink(h, gitDir).Some? && SamePath(h, BackLink(h, gitDir).value, target)) <==>
              exists text, back :: Holds(h, gitDir + ["gitdir"], text) && LexicalAbsolute(text) == Some(back)
                                   && SamePlace(h, back, target)
  {
    if BackLink(h, gitDir).Some? {
      assert Holds(h, gitDir + ["gitdir"], Trim(h.readText(gitDir + ["gitdir"]).value));
      SamePlaceSamePath(h, BackLink(h, gitDir).value, target);
    }
    forall text, back | Holds(h, gitDir + ["gitdir"], text) && LexicalAbsolute(text) == Some(back) && SamePlace(h, back, target)
      ensures BackLink(h, gitDir) == Some(back) && SamePath(h, back, target)
    {
      SamePlaceSamePath(h, back, target);
    }
  }

  /** What a common directory is a repository of: the directory beside it, or itself when bare. */
  predicate RootOf(h: Host, common: Path, root: Path) {
    if common != [] && common[|common| - 1] == DOT_GIT then root == common[..|common| - 1]
    else common == root && !h.isThere(common + [DOT_GIT])
  }

  lemma LinksGive(h: Host, w: Path, gitDir: Path, common: Path)
    requires LinksAgree(h, w, gitDir, common)
    ensures CommonDir(h, w) == Some(common)
  {
    LinksAreRead(h, w, gitDir, common);
  }

  lemma LinksFound(h: Host, w: Path) returns (gitDir: Path, common: Path)
    requires CommonDir(h, w).Some?
    ensures CommonDir(h, w) == Some(common) && LinksAgree(h, w, gitDir, common)
  {
    gitDir, common := GitDir(h, w).value, CommonDir(h, w).value;
    LinksAreRead(h, w, gitDir, common);
  }

  lemma CommonGives(h: Host, w: Path, common: Path, root: Path)
    requires CommonDir(h, w) == Some(common)
    ensures LinkedWorktreeRoot(h, w) == Some(root) <==> RootOf(h, common, root)
  {
    var above := if common != [] then common[..|common| - 1] else [];
    assert LinkedWorktreeRoot(h, w) ==
           if common != [] && common[|common| - 1] == DOT_GIT then Some(above)
           else if h.isThere(common + [DOT_GIT]) then None else Some(common);
  }

  lemma LinkedFrom(h: Host, w: Path, gitDir: Path, common: Path, root: Path)
    requires LinksAgree(h, w, gitDir, common)
    ensures LinkedWorktreeRoot(h, w) == Some(root) <==> RootOf(h, common, root)
  {
    LinksGive(h, w, gitDir, common);
    CommonGives(h, w, common, root);
  }

  /**
   Exactly which working roots answer for another directory: those whose links agree, for
   the main copy beside the common directory, or for a bare common directory itself.
   */
  lemma LinkedExactly(h: Host, w: Path, root: Path)
    ensures LinkedWorktreeRoot(h, w) == Some(root) <==>
              exists gitDir, common :: LinksAgree(h, w, gitDir, common) && RootOf(h, common, root)
  {
    if LinkedWorktreeRoot(h, w) == Some(root) {
      var gitDir, common := LinksFound(h, w);
      CommonGives(h, w, common, root);
    }
    forall gitDir, common | LinksAgree(h, w, gitDir, common) && RootOf(h, common, root)
      ensures LinkedWorktreeRoot(h, w) == Some(root)
    {
      LinkedFrom(h, w, gitDir, common, root);
    }
  }

  /** Any directory of a linked worktree belongs to the repository of the common directory. */
  lemma WorktreeBelongs(h: Host, cwd: Path, w: Path, gitDir: Path, common: Path, root: Path)
    requires WorksIn(h, cwd, w) && LinksAgree(h, w, gitDir, common) && RootOf(h, common, root)
    ensures IdentityOf(h, cwd) == Ok(Identity(root, w, Git))
  {
    NearestDecides(h, cwd, w);
    LinkedFrom(h, w, gitDir, common, root);
  }

  /** Any directory of a main copy belongs to it. */
  lemma MainBelongs(h: Host, cwd: Path, main: Path)
    requires WorksIn(h, cwd, main) && h.probe(main + [DOT_GIT]) != Present(File)
    ensures IdentityOf(h, cwd) == Ok(Identity(main, main, Git))
  {
    NearestDecides(h, cwd, main);
  }

  /**
   One repository: any directory of a linked worktree, any directory of a second one, and any
   directory of the main copy all have the same root, each keeping its own working root.
   */
  lemma OneRepository(h: Host, main: Path, inMain: Path,
                      one: Path, w1: Path, git1: Path, two: Path, w2: Path, git2: Path)
    requires WorksIn(h, inMain, main) && h.probe(main + [DOT_GIT]) != Present(File)
    requires WorksIn(h, one, w1) && LinksAgree(h, w1, git1, main + [DOT_GIT])
    requires WorksIn(h, two, w2) && LinksAgree(h, w2, git2, main + [DOT_GIT])
    ensures IdentityOf(h, inMain) == Ok(Identity(main, main, Git))
    ensures IdentityOf(h, one) == Ok(Identity(main, w1, Git))
    ensures IdentityOf(h, two) == Ok(Identity(main, w2, Git))
  {
    MainBelongs(h, inMain, main);
    WorktreeBelongs(h, one, w1, git1, main + [DOT_GIT], main);
    WorktreeBelongs(h, two, w2, git2, main + [DOT_GIT], main);
  }
}
