/**
 Which directory a ready answer names, and when there is one: said of what is set in the
 environment and of what is on disk, not of how the answer is computed.
 */
module ResolutionLaws {
  import opened LexicalPath
  import opened ProjectKey
  import opened Repository
  import opened Resolution
  import opened Wrappers

  // ---------- what is set ----------

  /** A variable is set to `raw`: blanks around it do not count, and blanks alone set nothing. */
  predicate Set(value: Option<string>, raw: string) {
    value.Some? && Trim(value.value) == raw != ""
  }

  ghost predicate Unset(value: Option<string>) {
    forall raw :: !Set(value, raw)
  }

  lemma NonEmptyExactly(value: Option<string>)
    ensures forall raw :: NonEmpty(value) == Some(raw) <==> Set(value, raw)
    ensures NonEmpty(value) == None <==> Unset(value)
  {
    if value.Some? && Trim(value.value) != "" {
      assert Set(value, Trim(value.value));
    }
  }

  /** Trimming takes blanks from both ends, and all of them. */
  lemma {:induction false} TrimExactly(s: string) returns (front: string, back: string)
    ensures s == front + Trim(s) + back
    ensures (forall c :: c in front ==> Whitespace(c)) && (forall c :: c in back ==> Whitespace(c))
    ensures Trim(s) != "" ==> !Whitespace(Trim(s)[0]) && !Whitespace(Trim(s)[|Trim(s)| - 1])
    decreases |s|
  {
    if s == "" {
      front, back := "", "";
    } else if Whitespace(s[0]) {
      front, back := TrimExactly(s[1..]);
      front := [s[0]] + front;
    } else if Whitespace(s[|s| - 1]) {
      front, back := TrimExactly(s[..|s| - 1]);
      back := back + [s[|s| - 1]];
    } else {
      front, back := "", "";
    }
  }

  // ---------- directories ----------

  /** The path a spelled directory opens, components resolved by name. */
  function Opened(d: Spelled): Path {
    LexicalPath.Resolve(d, 0)
  }

  lemma {:induction false} OpenedBelow(d: Spelled, names: seq<string>)
    ensures Opened(d + Normals(names)) == Opened(d) + names
    decreases |names|
  {
    if names == [] {
      assert d + Normals(names) == d;
    } else {
      var init, last := names[..|names| - 1], names[|names| - 1];
      OpenedBelow(d, init);
      ResolveAppend(d + Normals(init), last);
      assert d + Normals(names) == (d + Normals(init)) + [Normal(last)];
    }
  }

  /** The session's home: its own when that is set to an absolute path, or else the process's. */
  ghost predicate IsHome(config: Config, env: Env, home: Path) {
    || (exists raw :: Set(config.home, raw) && LexicalAbsolute(raw) == Some(home))
    || (env.processHome == Some(home) && forall raw :: Set(config.home, raw) ==> !IsAbsolute(raw))
  }

  lemma HomeExactly(config: Config, env: Env, home: Path)
    ensures IsHome(config, env, home) <==> SessionHome(config, env) == Some(Normals(home))
  {
    NonEmptyExactly(config.home);
    forall p: Path, q: Path | Normals(p) == Normals(q)
      ensures p == q
    {
      ResolveNormals(p);
      ResolveNormals(q);
    }
  }

  lemma HomeIsNormal(config: Config, env: Env)
    ensures SessionHome(config, env).Some? ==> exists home :: SessionHome(config, env) == Some(Normals(home))
  {}

  /** What a setting names: an absolute path, the home, or a path below the home. */
  ghost predicate Denotes(config: Config, env: Env, raw: string, p: Path) {
    || LexicalAbsolute(raw) == Some(p)
    || (raw == "~" && IsHome(config, env, p))
    || (exists home, rest :: IsHome(config, env, home) && (raw == "~/" + rest || raw == "~\\" + rest)
                             && p == JoinResolved(home, rest))
  }

  lemma JoinOpened(home: Path, rest: string)
    ensures Opened(JoinSpelled(Normals(home), rest)) == JoinResolved(home, rest)
  {}

  lemma AfterTilde(raw: string, rest: string)
    requires raw == "~/" + rest || raw == "~\\" + rest
    ensures raw[2..] == rest && !IsAbsolute(raw) && raw != "~"
    ensures "~/" <= raw || "~\\" <= raw
  {}

  lemma TildeForm(raw: string)
    requires "~/" <= raw || "~\\" <= raw
    ensures raw == "~/" + raw[2..] || raw == "~\\" + raw[2..]
  {}

  lemma ExpandedDenotes(config: Config, env: Env, raw: string)
    requires ExpandDirectory(raw, SessionHome(config, env)).Some?
    ensures Denotes(config, env, raw, Opened(ExpandDirectory(raw, SessionHome(config, env)).value))
  {
    if raw == "~" || "~/" <= raw || "~\\" <= raw {
      HomeIsNormal(config, env);
      var home :| SessionHome(config, env) == Some(Normals(home));
      HomeExactly(config, env, home);
      ResolveNormals(home);
      if raw != "~" {
        TildeForm(raw);
        JoinOpened(home, raw[2..]);
      }
    } else {
      ResolveNormals(LexicalAbsolute(raw).value);
    }
  }

  lemma DenotesExpanded(config: Config, env: Env, raw: string, p: Path)
    requires Denotes(config, env, raw, p)
    ensures ExpandDirectory(raw, SessionHome(config, env)).Some?
    ensures Opened(ExpandDirectory(raw, SessionHome(config, env)).value) == p
  {
    if LexicalAbsolute(raw) == Some(p) {
      ResolveNormals(p);
    } else if raw == "~" && IsHome(config, env, p) {
      HomeExactly(config, env, p);
      ResolveNormals(p);
    } else {
      var home, rest :| IsHome(config, env, home) && (raw == "~/" + rest || raw == "~\\" + rest)
                        && p == JoinResolved(home, rest);
      AfterTilde(raw, rest);
      HomeExactly(config, env, home);
      JoinOpened(home, rest);
    }
  }

  /** A setting is expanded to what it names, and only when it names something. */
  lemma ExpandExactly(config: Config, env: Env, raw: string, p: Path)
    ensures Denotes(config, env, raw, p) <==>
              var d := ExpandDirectory(raw, SessionHome(config, env));
              d.Some? && Opened(d.value) == p
  {
    if Denotes(config, env, raw, p) {
      DenotesExpanded(config, env, raw, p);
    }
    if ExpandDirectory(raw, SessionHome(config, env)).Some? {
      ExpandedDenotes(config, env, raw);
    }
  }

  /** Claude's own directory: the configured one, or `.claude` below the home. */
  ghost predicate IsConfigDir(config: Config, env: Env, p: Path) {
    || (exists raw :: Set(config.configDir, raw) && Denotes(config, env, raw, p))
    || (Unset(config.configDir) && exists home :: IsHome(config, env, home) && p == home + [".claude"])
  }

  lemma ConfigDirExactly(config: Config, env: Env, p: Path)
    ensures IsConfigDir(config, env, p) <==> ConfigDir(config, env).Some? && Opened(ConfigDir(config, env).value) == p
  {
    NonEmptyExactly(config.configDir);
    if raw :| Set(config.configDir, raw) {
      ExpandExactly(config, env, raw, p);
    } else {
      HomeDotClaude(config, env, p);
    }
  }

  lemma HomeDotClaude(config: Config, env: Env, p: Path)
    ensures (exists home :: IsHome(config, env, home) && p == home + [".claude"]) <==>
              SessionHome(config, env).Some? && Opened(SessionHome(config, env).value + [Normal(".claude")]) == p
  {
    forall home | IsHome(config, env, home)
      ensures SessionHome(config, env) == Some(Normals(home))
      ensures Opened(Normals(home) + [Normal(".claude")]) == home + [".claude"]
    {
      HomeExactly(config, env, home);
      ResolveNormals(home);
      ResolveAppend(Normals(home), ".claude");
    }
    if SessionHome(config, env).Some? {
      HomeIsNormal(config, env);
      var home :| SessionHome(config, env) == Some(Normals(home));
      HomeExactly(config, env, home);
    }
  }

  // ---------- the directory of a ready answer ----------

  /** The name under `projects`: the configured one when it may be used, or else the key of the root. */
  ghost predicate IsProjectName(config: Config, env: Env, root: Path, name: string) {
    if exists raw :: Set(config.projectDirName, raw) && config.configDir.Some? && ValidProjectDirName(raw)
    then Set(config.projectDirName, name)
    else name == Key(env.utf16(Show(root)))
  }

  /** Where the memory of a root lives. */
  ghost predicate IsMemoryOf(config: Config, env: Env, root: Path, p: Path) {
    if exists raw :: Set(config.memoryPathOverride, raw) then
      exists raw :: Set(config.memoryPathOverride, raw) && Denotes(config, env, raw, p)
    else if exists raw :: Set(config.remoteMemoryDir, raw) then
      exists raw, remote :: Set(config.remoteMemoryDir, raw) && Denotes(config, env, raw, remote)
                            && p == remote + [Key(env.utf16(Show(root))), "memory"]
    else
      exists own, name :: IsConfigDir(config, env, own) && IsProjectName(config, env, root, name)
                          && p == own + ["projects", name, "memory"]
  }

  lemma TwoBelow(d: Spelled, a: string, b: string)
    ensures Opened(d + [Normal(a), Normal(b)]) == Opened(d) + [a, b]
  {
    OpenedBelow(d, [a, b]);
    assert Normals([a, b]) == [Normal(a), Normal(b)];
  }

  lemma ThreeBelow(d: Spelled, a: string, b: string, c: string)
    ensures Opened(d + [Normal(a), Normal(b), Normal(c)]) == Opened(d) + [a, b, c]
  {
    OpenedBelow(d, [a, b, c]);
    assert Normals([a, b, c]) == [Normal(a), Normal(b), Normal(c)];
  }

  lemma ProjectNameExactly(config: Config, env: Env, root: Path, name: string)
    ensures IsProjectName(config, env, root, name) <==> ProjectName(config, env, root) == name
  {
    NonEmptyExactly(config.projectDirName);
  }

  lemma RemoteMemory(config: Config, env: Env, configDir: Spelled, root: Path, p: Path)
    requires !Unset(config.remoteMemoryDir) && Unset(config.memoryPathOverride)
    ensures IsMemoryOf(config, env, root, p) <==>
              var d := MemoryDirectory(config, env, configDir, root);
              d.Some? && Opened(d.value) == p
  {
    NonEmptyExactly(config.remoteMemoryDir);
    var raw := NonEmpty(config.remoteMemoryDir).value;
    var remote := ExpandDirectory(raw, SessionHome(config, env));
    var key := Key(env.utf16(Show(root)));
    if remote.Some? {
      TwoBelow(remote.value, key, "memory");
      ExpandExactly(config, env, raw, Opened(remote.value));
    }
    forall q | Denotes(config, env, raw, q)
      ensures remote.Some? && Opened(remote.value) == q
    {
      ExpandExactly(config, env, raw, q);
    }
  }

  lemma OwnMemory(config: Config, env: Env, configDir: Spelled, root: Path, p: Path)
    requires Unset(config.remoteMemoryDir) && Unset(config.memoryPathOverride)
    requires ConfigDir(config, env) == Some(configDir)
    ensures MemoryDirectory(config, env, configDir, root).Some?
    ensures IsMemoryOf(config, env, root, p) <==> Opened(MemoryDirectory(config, env, configDir, root).value) == p
  {
    NonEmptyExactly(config.remoteMemoryDir);
    var name := ProjectName(config, env, root);
    ThreeBelow(configDir, "projects", name, "memory");
    forall own
      ensures IsConfigDir(config, env, own) <==> own == Opened(configDir)
    {
      ConfigDirExactly(config, env, own);
    }
    forall n
      ensures IsProjectName(config, env, root, n) <==> n == name
    {
      ProjectNameExactly(config, env, root, n);
    }
    assert IsConfigDir(config, env, Opened(configDir)) && IsProjectName(config, env, root, name);
  }

  /** With a path override or a place for Claude's own directory, a root has one memory, this one. */
  lemma MemoryOfExactly(config: Config, env: Env, root: Path, p: Path)
    requires !Unset(config.memoryPathOverride) || ConfigDir(config, env).Some?
    ensures IsMemoryOf(config, env, root, p) <==>
              var d := MemoryOf(config, env, root);
              d.Some? && Opened(d.value) == p
  {
    NonEmptyExactly(config.memoryPathOverride);
    if raw :| Set(config.memoryPathOverride, raw) {
      ExpandExactly(config, env, raw, p);
    } else if Unset(config.remoteMemoryDir) {
      OwnMemory(config, env, ConfigDir(config, env).value, root, p);
    } else {
      RemoteMemory(config, env, ConfigDir(config, env).value, root, p);
    }
  }

  /** A ready answer names the memory of its repository's root. */
  lemma ReadyNames(h: Host, env: Env, config: Option<Config>, cwd: string)
    requires Resolved(h, env, config, cwd).Ready?
    ensures config.Some?
    ensures var r := Resolved(h, env, config, cwd);
            IsMemoryOf(config.value, env, r.repository.root, Opened(r.memoryDirectory))
  {
    var r := Resolved(h, env, config, cwd);
    ReadyMeans(h, env, config, cwd);
    NonEmptyExactly(config.value.memoryPathOverride);
    MemoryOfExactly(config.value, env, r.repository.root, Opened(r.memoryDirectory));
  }

  /** With nothing but a home: `<home>/.claude/projects/<key>/memory`. */
  lemma PlainDirectory(h: Host, env: Env, config: Config, cwd: string, home: Path)
    requires Resolved(h, env, Some(config), cwd).Ready?
    requires Unset(config.memoryPathOverride) && Unset(config.remoteMemoryDir)
    requires Unset(config.configDir) && Unset(config.projectDirName)
    requires IsHome(config, env, home)
    ensures var r := Resolved(h, env, Some(config), cwd);
            Opened(r.memoryDirectory) == home + [".claude", "projects", Key(env.utf16(Show(r.repository.root))), "memory"]
  {
    var r := Resolved(h, env, Some(config), cwd);
    ReadyNames(h, env, Some(config), cwd);
    PlainMemory(config, env, r.repository.root, home, Opened(r.memoryDirectory));
  }

  lemma PlainMemory(config: Config, env: Env, root: Path, home: Path, p: Path)
    requires Unset(config.memoryPathOverride) && Unset(config.remoteMemoryDir)
    requires Unset(config.configDir) && Unset(config.projectDirName)
    requires IsHome(config, env, home) && IsMemoryOf(config, env, root, p)
    ensures p == home + [".claude", "projects", Key(env.utf16(Show(root))), "memory"]
  {
    OneHome(config, env, home);
    var own, name :| IsConfigDir(config, env, own) && IsProjectName(config, env, root, name)
                     && p == own + ["projects", name, "memory"];
    assert home + [".claude"] + ["projects", name, "memory"] == home + [".claude", "projects", name, "memory"];
  }

  lemma OneHome(config: Config, env: Env, home: Path)
    requires IsHome(config, env, home)
    ensures forall other :: IsHome(config, env, other) ==> other == home
  {
    forall other | IsHome(config, env, other)
      ensures other == home
    {
      HomeExactly(config, env, home);
      HomeExactly(config, env, other);
      ResolveNormals(home);
      ResolveNormals(other);
    }
  }

  // ---------- which settings are read ----------

  /** The machine's, Claude's own, and the two of each directory between the session's and its working root. */
  ghost predicate IsSettingsFile(env: Env, configDir: Spelled, cwd: Path, workingRoot: Path, f: Spelled) {
    || f in env.managedSettings
    || f == configDir + [Normal("settings.json")]
    || exists a :: workingRoot <= a <= cwd && IsProjectSettings(a, f)
  }

  predicate IsProjectSettings(a: Path, f: Spelled) {
    || f == Normals(a + [".claude", "settings.json"])
    || f == Normals(a + [".claude", "settings.local.json"])
  }

  lemma {:induction false} SettingsOfExactly(directories: seq<Path>, f: Spelled)
    ensures f in SettingsOf(directories) <==> exists a :: a in directories && IsProjectSettings(a, f)
  {
    if directories != [] {
      var a, rest := directories[0], directories[1..];
      SettingsOfExactly(rest, f);
      SettingsOfFirst(directories, f);
      assert forall b :: b in directories <==> b == a || b in rest;
    }
  }

  lemma SettingsOfFirst(directories: seq<Path>, f: Spelled)
    requires directories != []
    ensures f in SettingsOf(directories) <==> IsProjectSettings(directories[0], f) || f in SettingsOf(directories[1..])
  {
    var a := directories[0];
    assert Normals(a) + [Normal(".claude")] + [Normal("settings.json")] == Normals(a + [".claude", "settings.json"]);
    assert Normals(a) + [Normal(".claude")] + [Normal("settings.local.json")]
        == Normals(a + [".claude", "settings.local.json"]);
  }

  lemma SettingsFilesExactly(env: Env, configDir: Spelled, cwd: Path, workingRoot: Path, f: Spelled)
    requires workingRoot <= cwd
    ensures f in SettingsFiles(env, configDir, cwd, workingRoot) <==> IsSettingsFile(env, configDir, cwd, workingRoot, f)
  {
    SettingsOfExactly(SettingsDirectories(cwd, workingRoot), f);
    forall a
      ensures a in SettingsDirectories(cwd, workingRoot) <==> workingRoot <= a <= cwd
    {
      SettingsDirectoriesExactly(cwd, workingRoot, a);
    }
  }

  lemma {:induction false} AncestorAt(p: Path, stop: nat, i: nat)
    requires stop <= |p|
    ensures |Ancestors(p, stop)| == |p| - stop + 1
    ensures i < |Ancestors(p, stop)| ==> Ancestors(p, stop)[i] == p[..|p| - i]
    decreases |p|
  {
    if |p| > stop {
      AncestorAt(p[..|p| - 1], stop, if i > 0 then i - 1 else 0);
      if 0 < i <= |p| {
        assert p[..|p| - 1][..|p| - i] == p[..|p| - i];
      }
    }
    assert p[..|p|] == p;
  }

  lemma {:induction false} SettingsOfAt(directories: seq<Path>, i: nat)
    requires i < |directories|
    ensures |SettingsOf(directories)| == 2 * |directories|
    ensures SettingsOf(directories)[2 * i] == Normals(directories[i] + [".claude", "settings.json"])
    ensures SettingsOf(directories)[2 * i + 1] == Normals(directories[i] + [".claude", "settings.local.json"])
  {
    var a, rest := directories[0], directories[1..];
    assert Normals(a) + [Normal(".claude")] + [Normal("settings.json")] == Normals(a + [".claude", "settings.json"]);
    assert Normals(a) + [Normal(".claude")] + [Normal("settings.local.json")]
        == Normals(a + [".claude", "settings.local.json"]);
    if rest != [] {
      SettingsOfAt(rest, if i > 0 then i - 1 else 0);
    } else {
      assert SettingsOf(rest) == [];
    }
  }

  /** In what order: the machine's, Claude's own, then each directory's two, nearest directory first. */
  lemma SettingsInOrder(env: Env, configDir: Spelled, cwd: Path, workingRoot: Path, i: nat)
    requires workingRoot <= cwd && i <= |cwd| - |workingRoot|
    ensures var files, m := SettingsFiles(env, configDir, cwd, workingRoot), |env.managedSettings|;
            && |files| == m + 1 + 2 * (|cwd| - |workingRoot| + 1)
            && files[..m] == env.managedSettings && files[m] == configDir + [Normal("settings.json")]
            && files[m + 1 + 2 * i] == Normals(cwd[..|cwd| - i] + [".claude", "settings.json"])
            && files[m + 2 + 2 * i] == Normals(cwd[..|cwd| - i] + [".claude", "settings.local.json"])
  {
    AncestorAt(cwd, |workingRoot|, i);
    SettingsOfAt(SettingsDirectories(cwd, workingRoot), i);
  }

  // ---------- the first file that settles it ----------

  /** The `i`-th reading cannot be verified, or says the opposite of one before it. */
  predicate Offends(readings: seq<Reading>, enabled: Option<bool>, i: nat)
    requires i < |readings|
  {
    || !Verifiable(readings[i])
    || (readings[i].Settings? && readings[i].enabled.Some?
        && (enabled == Some(!readings[i].enabled.value)
            || exists j :: 0 <= j < i && Says(readings[j], !readings[i].enabled.value)))
  }

  ghost predicate FirstOffence(readings: seq<Reading>, enabled: Option<bool>, i: nat) {
    && i < |readings| && Offends(readings, enabled, i)
    && forall j :: 0 <= j < i ==> !Offends(readings, enabled, j)
  }

  /** What is known after a reading that does not offend. */
  function Known(r: Reading, enabled: Option<bool>): Option<bool> {
    if r.Settings? && r.enabled.Some? then r.enabled else enabled
  }

  lemma OffendsLater(readings: seq<Reading>, enabled: Option<bool>, i: nat)
    requires readings != [] && !Offends(readings, enabled, 0) && i + 1 < |readings|
    ensures Offends(readings, enabled, i + 1) <==> Offends(readings[1..], Known(readings[0], enabled), i)
  {
    var rest := readings[1..];
    assert forall j :: 0 <= j < |rest| ==> rest[j] == readings[j + 1];
    if j :| 0 <= j < i + 1 && readings[i + 1].Settings? && readings[i + 1].enabled.Some?
            && Says(readings[j], !readings[i + 1].enabled.value) {
      assert j > 0 ==> rest[j - 1] == readings[j];
    }
    if j :| 0 <= j < i && rest[i].Settings? && rest[i].enabled.Some? && Says(rest[j], !rest[i].enabled.value) {
      assert readings[j + 1] == rest[j];
    }
  }

  /** The first reading that offends is unreadable, or is not. */
  ghost predicate SettledBy(readings: seq<Reading>, enabled: Option<bool>, unreadable: bool) {
    exists i: nat :: FirstOffence(readings, enabled, i) && (readings[i] == Unreadable <==> unreadable)
  }

  lemma SettledLater(readings: seq<Reading>, enabled: Option<bool>, unreadable: bool)
    requires readings != [] && !Offends(readings, enabled, 0)
    ensures SettledBy(readings, enabled, unreadable)
       <==> SettledBy(readings[1..], Known(readings[0], enabled), unreadable)
  {
    var rest, known := readings[1..], Known(readings[0], enabled);
    if i: nat :| FirstOffence(readings, enabled, i) && (readings[i] == Unreadable <==> unreadable) {
      FirstOffenceLater(readings, enabled, i - 1);
      assert rest[i - 1] == readings[i];
    }
    if i: nat :| FirstOffence(rest, known, i) && (rest[i] == Unreadable <==> unreadable) {
      FirstOffenceLater(readings, enabled, i);
      assert rest[i] == readings[i + 1];
    }
  }

  lemma SettledFirst(readings: seq<Reading>, enabled: Option<bool>, unreadable: bool)
    requires readings != [] && Offends(readings, enabled, 0)
    ensures SettledBy(readings, enabled, unreadable) <==> (readings[0] == Unreadable <==> unreadable)
  {
    assert FirstOffence(readings, enabled, 0);
  }

  /** The first reading that offends decides how the verdict fails. */
  lemma {:induction false} FirstOffenceDecides(readings: seq<Reading>, enabled: Option<bool>)
    ensures Fold(readings, enabled) == Broken <==> SettledBy(readings, enabled, true)
    ensures Fold(readings, enabled) == Unsupported <==> SettledBy(readings, enabled, false)
  {
    if readings != [] {
      if Offends(readings, enabled, 0) {
        SettledFirst(readings, enabled, true);
        SettledFirst(readings, enabled, false);
      } else {
        FirstOffenceDecides(readings[1..], Known(readings[0], enabled));
        SettledLater(readings, enabled, true);
        SettledLater(readings, enabled, false);
      }
    }
  }

  lemma FirstOffenceLater(readings: seq<Reading>, enabled: Option<bool>, i: nat)
    requires readings != [] && !Offends(readings, enabled, 0)
    ensures FirstOffence(readings, enabled, i + 1) <==> FirstOffence(readings[1..], Known(readings[0], enabled), i)
  {
    var rest, known := readings[1..], Known(readings[0], enabled);
    forall j: nat | j < |rest|
      ensures Offends(readings, enabled, j + 1) <==> Offends(rest, known, j)
    {
      OffendsLater(readings, enabled, j);
    }
    if FirstOffence(rest, known, i) {
      forall j | 0 <= j < i + 1
        ensures !Offends(readings, enabled, j)
      {
        assert j > 0 ==> !Offends(rest, known, j - 1);
      }
    }
    if FirstOffence(readings, enabled, i + 1) {
      forall j | 0 <= j < i
        ensures !Offends(rest, known, j)
      {
        assert !Offends(readings, enabled, j + 1);
      }
    }
  }

  // ---------- every outcome ----------

  lemma AllSettings(env: Env, configDir: Spelled, cwd: Path, workingRoot: Path)
    requires workingRoot <= cwd
    ensures var readings := ReadAll(env, SettingsFiles(env, configDir, cwd, workingRoot));
            forall r :: r in readings <==> exists f :: IsSettingsFile(env, configDir, cwd, workingRoot, f) && env.settings(f) == r
  {
    var files := SettingsFiles(env, configDir, cwd, workingRoot);
    var readings := ReadAll(env, files);
    forall f
      ensures f in files <==> IsSettingsFile(env, configDir, cwd, workingRoot, f)
    {
      SettingsFilesExactly(env, configDir, cwd, workingRoot, f);
    }
    forall r | r in readings
      ensures exists f :: IsSettingsFile(env, configDir, cwd, workingRoot, f) && env.settings(f) == r
    {
      var i :| 0 <= i < |readings| && readings[i] == r;
      assert files[i] in files;
    }
    forall f | f in files
      ensures env.settings(f) in readings
    {
      var i :| 0 <= i < |files| && files[i] == f;
      assert readings[i] in readings;
    }
  }

  /** What a session is answered before any settings are read. */
  lemma AnswersBeforeSettings(h: Host, env: Env, config: Option<Config>, cwd: string)
    ensures config.None? ==> Resolved(h, env, config, cwd) == UnsupportedOverride
    ensures config.Some? ==> (Resolved(h, env, config, cwd) == Unavailable <==> !IsAbsolute(cwd))
    ensures config.Some? && IsAbsolute(cwd) ==>
              var identity := IdentityOf(h, LexicalAbsolute(cwd).value);
              if identity.Err? then Resolved(h, env, config, cwd) == Failed
              else if !Unset(config.value.memoryPathOverride) then
                if exists raw, p :: Set(config.value.memoryPathOverride, raw) && Denotes(config.value, env, raw, p)
                then Resolved(h, env, config, cwd).Ready? && Resolved(h, env, config, cwd).repository == identity.value
                else Resolved(h, env, config, cwd) == UnsupportedOverride
              else (forall p :: !IsConfigDir(config.value, env, p)) ==> Resolved(h, env, config, cwd) == UnsupportedOverride
  {
    if config.Some? {
      NonEmptyExactly(config.value.memoryPathOverride);
      if raw :| Set(config.value.memoryPathOverride, raw) {
        DenotesSomething(config.value, env, raw);
      } else if ConfigDir(config.value, env).Some? {
        ConfigDirExactly(config.value, env, Opened(ConfigDir(config.value, env).value));
      }
    }
  }

  lemma DenotesSomething(config: Config, env: Env, raw: string)
    ensures ExpandDirectory(raw, SessionHome(config, env)).Some? <==> exists p :: Denotes(config, env, raw, p)
  {
    forall p | Denotes(config, env, raw, p)
      ensures ExpandDirectory(raw, SessionHome(config, env)).Some?
    {
      ExpandExactly(config, env, raw, p);
    }
    if ExpandDirectory(raw, SessionHome(config, env)).Some? {
      ExpandedDenotes(config, env, raw);
    }
  }

  /** Every remote directory that is set names one. */
  ghost predicate RemoteKnown(config: Config, env: Env) {
    Unset(config.remoteMemoryDir)
    || exists raw, p :: Set(config.remoteMemoryDir, raw) && Denotes(config, env, raw, p)
  }

  lemma RemoteKnownExactly(config: Config, env: Env, configDir: Spelled, root: Path)
    ensures RemoteKnown(config, env) <==> MemoryDirectory(config, env, configDir, root).Some?
  {
    NonEmptyExactly(config.remoteMemoryDir);
    if raw :| Set(config.remoteMemoryDir, raw) {
      DenotesSomething(config, env, raw);
    }
  }

  lemma WorkingRootAbove(h: Host, dir: Path)
    requires IdentityOf(h, dir).Ok?
    ensures IdentityOf(h, dir).value.workingRoot <= dir
  {
    var r := IdentityOf(h, dir).value;
    if r.kind == Git {
      NearestDecides(h, dir, r.workingRoot);
    }
  }

  /**
   And what it is answered once they are: ready when every file can be verified and none turns
   memory off; off when some file says so and none contradicts it; failed when the first file
   that settles it cannot be read; and otherwise not supported.
   */
  lemma AnswersFromSettings(h: Host, env: Env, config: Config, cwd: string, dir: Path, configDir: Spelled)
    requires LexicalAbsolute(cwd) == Some(dir) && IdentityOf(h, dir).Ok?
    requires Unset(config.memoryPathOverride) && ConfigDir(config, env) == Some(configDir)
    ensures var r, repository := Resolved(h, env, Some(config), cwd), IdentityOf(h, dir).value;
            var w := repository.workingRoot;
            && (r.Ready? <==>
                  && RemoteKnown(config, env)
                  && forall f :: IsSettingsFile(env, configDir, dir, w, f) ==>
                                   Verifiable(env.settings(f)) && !Says(env.settings(f), false))
            && (r.Ready? ==> r.repository == repository)
            && (r == Disabled <==>
                  && (forall f :: IsSettingsFile(env, configDir, dir, w, f) ==>
                                    Verifiable(env.settings(f)) && !Says(env.settings(f), true))
                  && exists f :: IsSettingsFile(env, configDir, dir, w, f) && Says(env.settings(f), false))
            && (r == Failed <==> SettledBy(ReadAll(env, SettingsFiles(env, configDir, dir, w)), None, true))
            && r != Unavailable
  {
    var repository := IdentityOf(h, dir).value;
    var readings := ReadAll(env, SettingsFiles(env, configDir, dir, repository.workingRoot));
    NonEmptyExactly(config.memoryPathOverride);
    WorkingRootAbove(h, dir);
    AllSettings(env, configDir, dir, repository.workingRoot);
    RemoteKnownExactly(config, env, configDir, repository.root);
    PlaceBySettings(env, config, dir, repository, configDir);
    VerdictExactly(readings, None);
    FirstOffenceDecides(readings, None);
  }

  lemma PlaceBySettings(env: Env, config: Config, dir: Path, repository: Identity, configDir: Spelled)
    requires NonEmpty(config.memoryPathOverride) == None && ConfigDir(config, env) == Some(configDir)
    ensures var r := Place(env, config, dir, repository);
            var verdict := Fold(ReadAll(env, SettingsFiles(env, configDir, dir, repository.workingRoot)), None);
            && (r.Ready? <==> verdict == Clear && MemoryDirectory(config, env, configDir, repository.root).Some?)
            && (r.Ready? ==> r.repository == repository)
            && (r == Disabled <==> verdict == TurnedOff)
            && (r == Failed <==> verdict == Broken)
            && r != Unavailable
  {}
}
