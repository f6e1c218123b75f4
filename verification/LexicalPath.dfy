/**
 Lexical paths (crates/nession-claude-code/src/memory.rs: `normalize_lexical` and its callers).

 An absolute path is the list of its names below the root.  Paths arrive as strings; their
 components are read off, and `.` and `..` are resolved without asking the filesystem.
 */
module LexicalPath {
  import opened Sequences
  import opened Wrappers

  datatype Component = CurDir | ParentDir | Normal(name: string)

  type Path = seq<string>

  // ---------- specification: count what is still to be dropped, from the right ----------

  function Resolve(cs: seq<Component>, pending: nat): Path {
    if cs == [] then []
    else
      var init := cs[..|cs| - 1];
      match cs[|cs| - 1]
      case CurDir => Resolve(init, pending)
      case ParentDir => Resolve(init, pending + 1)
      case Normal(name) => if pending > 0 then Resolve(init, pending - 1) else Resolve(init, 0) + [name]
  }

  /** Without the last `n` names; the root has no parent. */
  function DropLast(p: Path, n: nat): Path {
    if n >= |p| then [] else p[..|p| - n]
  }

  lemma {:induction false} ResolvePending(cs: seq<Component>, pending: nat)
    ensures Resolve(cs, pending) == DropLast(Resolve(cs, 0), pending)
    decreases |cs|
  {
    if cs != [] {
      var init := cs[..|cs| - 1];
      match cs[|cs| - 1]
      case CurDir =>
        ResolvePending(init, pending);
      case ParentDir =>
        ResolvePending(init, pending + 1);
        ResolvePending(init, 1);
      case Normal(name) =>
        if pending > 0 {
          ResolvePending(init, pending - 1);
          assert DropLast(Resolve(init, 0) + [name], pending) == DropLast(Resolve(init, 0), pending - 1);
        }
    }
  }

  // ---------- normalize_lexical ----------

  /** `normalize_lexical` below the root: a stack of names. */
  method NormalizeLexical(cs: seq<Component>) returns (normalized: Path)
    ensures normalized == Resolve(cs, 0)
  {
    normalized := [];
    for i := 0 to |cs|
      invariant normalized == Resolve(cs[..i], 0)
    {
      assert cs[..i + 1] == cs[..i] + [cs[i]];
      ResolvePending(cs[..i], 1);
      match cs[i] {
        case CurDir =>
        case ParentDir =>
          if normalized != [] {
            normalized := normalized[..|normalized| - 1];
          }
        case Normal(name) =>
          normalized := normalized + [name];
      }
    }
    assert cs[..|cs|] == cs;
  }

  function Normals(p: Path): (cs: seq<Component>)
    ensures |cs| == |p| && forall i :: 0 <= i < |p| ==> cs[i] == Normal(p[i])
  {
    seq(|p|, i requires 0 <= i < |p| => Normal(p[i]))
  }

  lemma {:induction false} ResolveNormals(p: Path)
    ensures Resolve(Normals(p), 0) == p
    decreases |p|
  {
    if p != [] {
      assert Normals(p)[..|p| - 1] == Normals(p[..|p| - 1]);
      ResolveNormals(p[..|p| - 1]);
    }
  }

  /** Resolving a prefix first changes nothing. */
  lemma {:induction false} ResolveConcat(a: seq<Component>, b: seq<Component>, pending: nat)
    ensures Resolve(a + b, pending) == Resolve(Normals(Resolve(a, 0)) + b, pending)
    decreases |b|
  {
    var n := Normals(Resolve(a, 0));
    if b == [] {
      assert a + b == a && n + b == n;
      ResolveNormals(Resolve(a, 0));
      ResolvePending(a, pending);
      ResolvePending(n, pending);
    } else {
      var init, last := b[..|b| - 1], b[|b| - 1];
      assert (a + b)[..|a + b| - 1] == a + init;
      assert (n + b)[..|n + b| - 1] == n + init;
      match last
      case CurDir => ResolveConcat(a, init, pending);
      case ParentDir => ResolveConcat(a, init, pending + 1);
      case Normal(_) =>
        if pending > 0 { ResolveConcat(a, init, pending - 1); } else { ResolveConcat(a, init, 0); }
    }
  }

  /** Only names that were in the path are in the result. */
  lemma {:induction false} ResolveNames(cs: seq<Component>, pending: nat, name: string)
    requires name in Resolve(cs, pending)
    ensures Normal(name) in cs
    decreases |cs|
  {
    var init := cs[..|cs| - 1];
    match cs[|cs| - 1]
    case CurDir => ResolveNames(init, pending, name);
    case ParentDir => ResolveNames(init, pending + 1, name);
    case Normal(last) =>
      if pending > 0 {
        ResolveNames(init, pending - 1, name);
      } else if name in Resolve(init, 0) {
        ResolveNames(init, 0, name);
      }
  }

  // ---------- paths as strings ----------

  const SEPARATOR: char := '/'

  function Classify(piece: string): Component {
    if piece == "." || piece == "" then CurDir else if piece == ".." then ParentDir else Normal(piece)
  }

  function ClassifyAll(pieces: seq<string>): (cs: seq<Component>)
    ensures |cs| == |pieces| && forall i :: 0 <= i < |pieces| ==> cs[i] == Classify(pieces[i])
  {
    seq(|pieces|, i requires 0 <= i < |pieces| => Classify(pieces[i]))
  }

  /** The components of a string; empty pieces say as little as `.` does. */
  function Components(s: string): seq<Component> {
    ClassifyAll(Split(s, SEPARATOR))
  }

  predicate IsAbsolute(s: string) {
    s != "" && s[0] == SEPARATOR
  }

  /** `lexical_absolute`. */
  function LexicalAbsolute(raw: string): Option<Path> {
    if IsAbsolute(raw) then Some(Resolve(Components(raw), 0)) else None
  }

  /** `Path::join`, then resolved: an absolute right-hand side starts over. */
  function JoinResolved(base: Path, raw: string): Path {
    if IsAbsolute(raw) then Resolve(Components(raw), 0)
    else Resolve(Normals(base) + Components(raw), 0)
  }

  /** A name a directory entry can have. */
  predicate Name(s: string) {
    s != "" && s != "." && s != ".." && SEPARATOR !in s
  }

  predicate Names(p: Path) {
    forall i :: 0 <= i < |p| ==> Name(p[i])
  }

  function ShowBelowRoot(p: Path): string {
    if p == [] then "" else ShowBelowRoot(p[..|p| - 1]) + [SEPARATOR] + p[|p| - 1]
  }

  function Show(p: Path): string {
    if p == [] then [SEPARATOR] else ShowBelowRoot(p)
  }

  lemma {:induction false} SplitPieces<T>(s: seq<T>, sep: T, i: nat)
    requires i < |Split(s, sep)|
    ensures sep !in Split(s, sep)[i]
  {
    if s != [] {
      if s[0] == sep {
        if i > 0 { SplitPieces(s[1..], sep, i - 1); }
      } else {
        SplitPieces(s[1..], sep, i);
      }
    }
  }

  /** What is resolved is a path of names: no `.`, no `..`, nothing empty, no separator. */
  lemma ResolvedNames(raw: string)
    requires IsAbsolute(raw)
    ensures Names(LexicalAbsolute(raw).value)
  {
    var p := LexicalAbsolute(raw).value;
    forall i | 0 <= i < |p|
      ensures Name(p[i])
    {
      ResolveNames(Components(raw), 0, p[i]);
      var k :| 0 <= k < |Components(raw)| && Components(raw)[k] == Normal(p[i]);
      SplitPieces(raw, SEPARATOR, k);
    }
  }

  lemma ResolveAppend(cs: seq<Component>, name: string)
    ensures Resolve(cs + [Normal(name)], 0) == Resolve(cs, 0) + [name]
  {
    assert (cs + [Normal(name)])[..|cs|] == cs;
  }

  lemma ComponentsJoin(p: string, q: string)
    ensures Components(p + [SEPARATOR] + q) == Components(p) + Components(q)
  {
    SplitJoin(p, q, SEPARATOR);
  }

  lemma ComponentsOfName(name: string)
    requires Name(name)
    ensures Components(name) == [Normal(name)]
  {
    SplitNoSeparator(name, SEPARATOR);
  }

  lemma JoinName(shown: string, name: string)
    requires Name(name)
    ensures Resolve(Components(shown + [SEPARATOR] + name), 0) == Resolve(Components(shown), 0) + [name]
  {
    ComponentsJoin(shown, name);
    ComponentsOfName(name);
    ResolveAppend(Components(shown), name);
  }

  lemma {:induction false} ShowBelowRootResolves(p: Path)
    requires Names(p)
    ensures Resolve(Components(ShowBelowRoot(p)), 0) == p
    ensures p != [] ==> IsAbsolute(ShowBelowRoot(p))
    decreases |p|
  {
    if p == [] {
      assert Components("") == [CurDir];
      assert [CurDir][..0] == [];
    } else {
      var init, last := p[..|p| - 1], p[|p| - 1];
      ShowBelowRootResolves(init);
      JoinName(ShowBelowRoot(init), last);
      assert init + [last] == p;
    }
  }

  lemma ShowResolves(p: Path)
    requires Names(p)
    ensures LexicalAbsolute(Show(p)) == Some(p)
  {
    ShowBelowRootResolves(p);
    if p == [] {
      ComponentsJoin("", "");
      assert "" + [SEPARATOR] + "" == Show(p);
      assert Components("") == [CurDir];
      ResolveConcat([CurDir], [CurDir], 0);
      assert [CurDir][..0] == [];
      assert [CurDir, CurDir][..1] == [CurDir];
    }
  }

  /** Normalising a path string twice is normalising it once, and printing loses nothing. */
  lemma NormalizeIdempotent(raw: string)
    requires IsAbsolute(raw)
    ensures LexicalAbsolute(Show(LexicalAbsolute(raw).value)) == LexicalAbsolute(raw)
  {
    ResolvedNames(raw);
    ShowResolves(LexicalAbsolute(raw).value);
  }

  /** normalize(p / q) == normalize(normalize(p) / q), for every relative q. */
  lemma NormalizeJoin(p: string, q: string)
    requires IsAbsolute(p) && !IsAbsolute(q)
    ensures LexicalAbsolute(p + [SEPARATOR] + q) == Some(JoinResolved(LexicalAbsolute(p).value, q))
  {
    ComponentsJoin(p, q);
    ResolveConcat(Components(p), Components(q), 0);
  }
}
