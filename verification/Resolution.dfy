/**
 Where a session's Auto Memory lives
 (crates/nession-claude-code/src/memory.rs: `resolve`, `settings_verdict`, `settings_directories`).
 */
module Resolution {
  import opened LexicalPath
  import opened ProjectKey
  import opened Repository
  import opened Wrappers

  /** A directory as it was spelled: its components are not resolved until it is opened. */
  type Spelled = seq<Component>

  /** The session's Claude Code environment. */
  datatype Config = Config(
    home: Option<string>,
    configDir: Option<string>,
    projectDirName: Option<string>,
    memoryPathOverride: Option<string>,
    remoteMemoryDir: Option<string>)

  /** What a settings file says: nothing there, unreadable, unparsable, or its two facts. */
  datatype Reading = NotFound | Unreadable | Malformed | Settings(setsDirectory: bool, enabled: Option<bool>)

  datatype Env = Env(
    processHome: Option<Path>,
    managedSettings: seq<Spelled>,
    settings: Spelled -> Reading,
    utf16: string -> seq<Unit>)

  datatype Outcome =
    | Ready(repository: Identity, memoryDirectory: Spelled)
    | Unavailable
    | Disabled
    | UnsupportedOverride
    | Failed

  // ---------- directories from the environment ----------

  function NonEmpty(value: Option<string>): Option<string> {
    match value
    case None => None
    case Some(raw) => if Trim(raw) == "" then None else Some(Trim(raw))
  }

  /** `Path::join` without resolving. */
  function JoinSpelled(base: Spelled, raw: string): Spelled {
    if IsAbsolute(raw) then Components(raw) else base + Components(raw)
  }

  function SessionHome(config: Config, env: Env): Option<Spelled> {
    var own := match NonEmpty(config.home) case None => None case Some(raw) => LexicalAbsolute(raw);
    match own
    case Some(p) => Some(Normals(p))
    case None => match env.processHome case None => None case Some(p) => Some(Normals(p))
  }

  function ExpandDirectory(raw: string, home: Option<Spelled>): Option<Spelled> {
    if raw == "~" then home
    else if "~/" <= raw || "~\\" <= raw then
      match home case None => None case Some(h) => Some(JoinSpelled(h, raw[2..]))
    else
      match LexicalAbsolute(raw) case None => None case Some(p) => Some(Normals(p))
  }

  const PROJECT_DIR_NAME_MAX: nat := 64

  function Lower(c: char): char {
    if 'A' <= c <= 'Z' then (c - 'A') + 'a' else c
  }

  function LowerAll(s: string): (r: string)
    ensures |r| == |s|
  {
    seq(|s|, i requires 0 <= i < |s| => Lower(s[i]))
  }

  predicate ValidProjectDirName(name: string) {
    && 0 < |name| <= PROJECT_DIR_NAME_MAX
    && (forall i :: 0 <= i < |name| ==> KeyChar(name[i]) || name[i] == '_')
    && var lower := LowerAll(name);
    && lower !in {"con", "prn", "aux", "nul"}
    && !(|lower| == 4 && lower[..3] in {"com", "lpt"} && '0' <= lower[3] <= '9')
  }

  // ---------- settings ----------

  /** The ancestors of `p`, itself first, down to the one with `stop` names. */
  function Ancestors(p: Path, stop: nat): seq<Path>
    decreases |p|
  {
    if |p| <= stop then [p] else [p] + Ancestors(p[..|p| - 1], stop)
  }

  function SettingsDirectories(cwd: Path, workingRoot: Path): seq<Path> {
    if workingRoot <= cwd then Ancestors(cwd, |workingRoot|) else Ancestors(cwd, 0) + [workingRoot]
  }

  lemma {:induction false} AncestorsPrefixes(p: Path, stop: nat, a: Path)
    ensures a in Ancestors(p, stop) <==> a <= p && (|a| >= stop || a == p)
    decreases |p|
  {
    if |p| > stop {
      AncestorsPrefixes(p[..|p| - 1], stop, a);
      assert a <= p <==> a == p || a <= p[..|p| - 1];
    }
  }

  /** The settings a session reads are those between its working root and its directory. */
  lemma SettingsDirectoriesExactly(cwd: Path, workingRoot: Path, a: Path)
    requires workingRoot <= cwd
    ensures a in SettingsDirectories(cwd, workingRoot) <==> workingRoot <= a <= cwd
  {
    AncestorsPrefixes(cwd, |workingRoot|, a);
  }

  /** `settings_directories`. */
  method CollectSettingsDirectories(cwd: Path, workingRoot: Path) returns (directories: seq<Path>)
    ensures directories == SettingsDirectories(cwd, workingRoot)
  {
    directories := [];
    var current := cwd;
    ghost var stop := if workingRoot <= cwd then |workingRoot| else 0;
    while true
      invariant current <= cwd && |current| >= stop
      invariant directories + Ancestors(current, stop) == Ancestors(cwd, stop)
      invariant workingRoot !in directories
      decreases |current|
    {
      AncestorsStep(directories, current, stop);
      directories := directories + [current];
      if current == workingRoot {
        break;
      }
      if current == [] {
        break;
      }
      current := current[..|current| - 1];
    }
    if workingRoot !in directories {
      directories := directories + [workingRoot];
    }
  }

  lemma AncestorsStep(front: seq<Path>, p: Path, stop: nat)
    ensures front + Ancestors(p, stop)
         == (front + [p]) + (if |p| <= stop then [] else Ancestors(p[..|p| - 1], stop))
  {}

  datatype Verdict = Clear | TurnedOff | Unsupported | Broken

  function Fold(readings: seq<Reading>, enabled: Option<bool>): Verdict {
    if readings == [] then (if enabled == Some(false) then TurnedOff else Clear)
    else
      match readings[0]
      case NotFound => Fold(readings[1..], enabled)
      case Unreadable => Broken
      case Malformed => Unsupported
      case Settings(setsDirectory, flag) =>
        if setsDirectory then Unsupported
        else if flag.None? then Fold(readings[1..], enabled)
        else if enabled.Some? && enabled.value != flag.value then Unsupported
        else Fold(readings[1..], flag)
  }

  function ReadAll(env: Env, files: seq<Spelled>): (r: seq<Reading>)
    ensures |r| == |files| && forall i :: 0 <= i < |files| ==> r[i] == env.settings(files[i])
  {
    seq(|files|, i requires 0 <= i < |files| => env.settings(files[i]))
  }

  /** The reading loop of `settings_verdict`. */
  method JudgeSettings(env: Env, files: seq<Spelled>) returns (verdict: Verdict)
    ensures verdict == Fold(ReadAll(env, files), None)
  {
    var enabled: Option<bool> := None;
    ghost var readings := ReadAll(env, files);
    assert readings[0..] == readings;
    for i := 0 to |files|
      invariant Fold(readings[i..], enabled) == Fold(readings, None)
    {
      assert readings[i..][1..] == readings[i + 1..];
      match env.settings(files[i]) {
        case NotFound =>
        case Unreadable => return Broken;
        case Malformed => return Unsupported;
        case Settings(setsDirectory, flag) =>
          if setsDirectory {
            return Unsupported;
          }
          match flag {
            case None =>
            case Some(value) =>
              if enabled.Some? && enabled.value != value {
                return Unsupported;
              }
              enabled := Some(value);
          }
      }
    }
    if enabled == Some(false) {
      return TurnedOff;
    }
    return Clear;
  }

  predicate Verifiable(r: Reading) {
    r.NotFound? || (r.Settings? && !r.setsDirectory)
  }

  predicate Says(r: Reading, value: bool) {
    r.Settings? && r.enabled == Some(value)
  }

  /**
   The verdict says how the files stand as a set: memory is resolved only when every file can
   be verified and none turns it off, and it is off only when some file says so and none
   contradicts it.  The order of the files decides nothing but which refusal is reported.
   */
  lemma {:induction false} VerdictExactly(readings: seq<Reading>, enabled: Option<bool>)
    ensures Fold(readings, enabled) == Clear <==>
              && (forall r :: r in readings ==> Verifiable(r) && !Says(r, false))
              && enabled != Some(false)
    ensures Fold(readings, enabled) == TurnedOff <==>
              && (forall r :: r in readings ==> Verifiable(r) && !Says(r, true))
              && enabled != Some(true)
              && (enabled == Some(false) || exists r :: r in readings && Says(r, false))
  {
    if readings != [] {
      var first := readings[0];
      var rest := readings[1..];
      assert first in readings;
      assert forall r :: r in readings <==> r == first || r in rest;
      match first
      case NotFound => VerdictExactly(rest, enabled);
      case Unreadable =>
      case Malformed =>
      case Settings(setsDirectory, flag) =>
        if !setsDirectory {
          if flag.None? {
            VerdictExactly(rest, enabled);
          } else if enabled.None? || enabled.value == flag.value {
            VerdictExactly(rest, flag);
          }
        }
    }
  }

  // ---------- resolve ----------

  function SettingsOf(directories: seq<Path>): seq<Spelled> {
    if directories == [] then []
    else
      var own := Normals(directories[0]) + [Normal(".claude")];
      [own + [Normal("settings.json")], own + [Normal("settings.local.json")]] + SettingsOf(directories[1..])
  }

  function SettingsFiles(env: Env, configDir: Spelled, cwd: Path, workingRoot: Path): seq<Spelled> {
    env.managedSettings
    + [configDir + [Normal("settings.json")]]
    + SettingsOf(SettingsDirectories(cwd, workingRoot))
  }

  /** The name of one project's directory. */
  function ProjectName(config: Config, env: Env, root: Path): string {
    match NonEmpty(config.projectDirName)
    case Some(name) =>
      if config.configDir.Some? && ValidProjectDirName(name) then name else Key(env.utf16(Show(root)))
    case None => Key(env.utf16(Show(root)))
  }

  /** `projects/<project>/memory`, or what replaces it. */
  function MemoryDirectory(config: Config, env: Env, configDir: Spelled, root: Path): Option<Spelled> {
    match NonEmpty(config.remoteMemoryDir)
    case Some(raw) =>
      (match ExpandDirectory(raw, SessionHome(config, env))
       case None => None
       case Some(remote) => Some(remote + [Normal(Key(env.utf16(Show(root)))), Normal("memory")]))
    case None =>
      Some(configDir + [Normal("projects"), Normal(ProjectName(config, env, root)), Normal("memory")])
  }

  function ConfigDir(config: Config, env: Env): Option<Spelled> {
    var home := SessionHome(config, env);
    match NonEmpty(config.configDir)
    case Some(raw) => ExpandDirectory(raw, home)
    case None => match home case None => None case Some(h) => Some(h + [Normal(".claude")])
  }

  function Resolved(h: Host, env: Env, config: Option<Config>, cwd: string): Outcome {
    if config.None? then UnsupportedOverride
    else
      match LexicalAbsolute(cwd)
      case None => Unavailable
      case Some(dir) =>
        match IdentityOf(h, dir)
        case Err(_) => Failed
        case Ok(repository) => Place(env, config.value, dir, repository)
  }

  function Place(env: Env, config: Config, dir: Path, repository: Identity): Outcome {
    match NonEmpty(config.memoryPathOverride)
    case Some(raw) =>
      (match ExpandDirectory(raw, SessionHome(config, env))
       case None => UnsupportedOverride
       case Some(directory) => Ready(repository, directory))
    case None =>
      match ConfigDir(config, env)
      case None => UnsupportedOverride
      case Some(configDir) =>
        match Fold(ReadAll(env, SettingsFiles(env, configDir, dir, repository.workingRoot)), None)
        case Broken => Failed
        case Unsupported => UnsupportedOverride
        case TurnedOff => Disabled
        case Clear =>
          match MemoryDirectory(config, env, configDir, repository.root)
          case None => UnsupportedOverride
          case Some(directory) => Ready(repository, directory)
  }

  /** `resolve`. */
  method Resolve(h: Host, env: Env, config: Option<Config>, cwd: string) returns (r: Outcome)
    ensures r == Resolved(h, env, config, cwd)
  {
    if config.None? {
      return UnsupportedOverride;
    }
    var c := config.value;
    var dir := LexicalAbsolute(cwd);
    if dir.None? {
      return Unavailable;
    }
    var identity := RepositoryIdentity(h, dir.value);
    if identity.Err? {
      return Failed;
    }
    var repository := identity.value;
    var home := SessionHome(c, env);
    var override := NonEmpty(c.memoryPathOverride);
    if override.Some? {
      var directory := ExpandDirectory(override.value, home);
      return if directory.Some? then Ready(repository, directory.value) else UnsupportedOverride;
    }
    var configDir := ConfigDir(c, env);
    if configDir.None? {
      return UnsupportedOverride;
    }
    var directories := CollectSettingsDirectories(dir.value, repository.workingRoot);
    var files := env.managedSettings + [configDir.value + [Normal("settings.json")]] + SettingsOf(directories);
    var verdict := JudgeSettings(env, files);
    match verdict {
      case Broken => return Failed;
      case Unsupported => return UnsupportedOverride;
      case TurnedOff => return Disabled;
      case Clear =>
        var directory := MemoryDirectory(c, env, configDir.value, repository.root);
        return if directory.Some? then Ready(repository, directory.value) else UnsupportedOverride;
    }
  }

  // ---------- what sessions share ----------

  /** The directory of a ready session, from its root alone. */
  function MemoryOf(config: Config, env: Env, root: Path): Option<Spelled> {
    match NonEmpty(config.memoryPathOverride)
    case Some(raw) => ExpandDirectory(raw, SessionHome(config, env))
    case None =>
      match ConfigDir(config, env)
      case None => None
      case Some(configDir) => MemoryDirectory(config, env, configDir, root)
  }

  /** A ready answer names the session's own repository, and the directory of its root. */
  lemma ReadyMeans(h: Host, env: Env, config: Option<Config>, cwd: string)
    requires Resolved(h, env, config, cwd).Ready?
    ensures var r := Resolved(h, env, config, cwd);
            && config.Some? && LexicalAbsolute(cwd).Some?
            && IdentityOf(h, LexicalAbsolute(cwd).value) == Ok(r.repository)
            && MemoryOf(config.value, env, r.repository.root) == Some(r.memoryDirectory)
  {}

  /** Sessions of one repository that are ready use one memory directory. */
  lemma SameRootSameMemory(h: Host, env: Env, config: Option<Config>, a: string, b: string)
    requires Resolved(h, env, config, a).Ready? && Resolved(h, env, config, b).Ready?
    requires Resolved(h, env, config, a).repository.root == Resolved(h, env, config, b).repository.root
    ensures Resolved(h, env, config, a).memoryDirectory == Resolved(h, env, config, b).memoryDirectory
  {
    ReadyMeans(h, env, config, a);
    ReadyMeans(h, env, config, b);
  }

  /** So do sessions in the main copy and in any of its linked worktrees, wherever they stand. */
  lemma WorktreesShareMemory(h: Host, env: Env, config: Option<Config>,
                             a: string, b: string, inMain: Path, main: Path, inTree: Path, w: Path, gitDir: Path)
    requires LexicalAbsolute(a) == Some(inMain) && LexicalAbsolute(b) == Some(inTree)
    requires WorksIn(h, inMain, main) && h.probe(main + [DOT_GIT]) != Present(File)
    requires WorksIn(h, inTree, w) && LinksAgree(h, w, gitDir, main + [DOT_GIT])
    requires Resolved(h, env, config, a).Ready? && Resolved(h, env, config, b).Ready?
    ensures Resolved(h, env, config, a).repository == Identity(main, main, Git)
    ensures Resolved(h, env, config, b).repository == Identity(main, w, Git)
    ensures Resolved(h, env, config, a).memoryDirectory == Resolved(h, env, config, b).memoryDirectory
  {
    ReadyMeans(h, env, config, a);
    ReadyMeans(h, env, config, b);
    MainBelongs(h, inMain, main);
    WorktreeBelongs(h, inTree, w, gitDir, main + [DOT_GIT], main);
  }

  lemma MemoryKeyed(config: Config, env: Env, a: Path, b: Path)
    requires MemoryOf(config, env, a).Some? && MemoryOf(config, env, b).Some?
    ensures MemoryOf(config, env, a) == MemoryOf(config, env, b)
       <==> || NonEmpty(config.memoryPathOverride).Some?
            || (NonEmpty(config.remoteMemoryDir).None? && NamedProject(config))
            || Key(env.utf16(Show(a))) == Key(env.utf16(Show(b)))
  {
    if NonEmpty(config.memoryPathOverride).None? {
      var x, y := MemoryOf(config, env, a).value, MemoryOf(config, env, b).value;
      var i := |x| - 2;
      assert |x| == |y|;
      assert x[i] == y[i] ==> x == y;
    }
  }

  /**
   Conversely, two ready sessions share a directory exactly when an override says so for all
   sessions or their roots have one key; a shared key does not mean a shared root.
   */
  lemma SharedMemoryExactly(h: Host, env: Env, config: Config, a: string, b: string)
    requires Resolved(h, env, Some(config), a).Ready? && Resolved(h, env, Some(config), b).Ready?
    ensures Resolved(h, env, Some(config), a).memoryDirectory == Resolved(h, env, Some(config), b).memoryDirectory
       <==> || NonEmpty(config.memoryPathOverride).Some?
            || (NonEmpty(config.remoteMemoryDir).None? && NamedProject(config))
            || Key(env.utf16(Show(Resolved(h, env, Some(config), a).repository.root)))
               == Key(env.utf16(Show(Resolved(h, env, Some(config), b).repository.root)))
  {
    ReadyMeans(h, env, Some(config), a);
    ReadyMeans(h, env, Some(config), b);
    MemoryKeyed(config, env, Resolved(h, env, Some(config), a).repository.root,
                Resolved(h, env, Some(config), b).repository.root);
  }

  predicate NamedProject(config: Config) {
    && config.configDir.Some?
    && NonEmpty(config.projectDirName).Some?
    && ValidProjectDirName(NonEmpty(config.projectDirName).value)
  }
}
