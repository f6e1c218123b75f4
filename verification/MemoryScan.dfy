/**
 Listing a memory directory (crates/nession-claude-code/src/memory.rs: `scan`, `walk`).

 A directory is an immutable tree whose entries come in whatever order the filesystem
 enumerates them.  The walk is bounded in depth and in number of files.
 */
module MemoryScan {
  import opened Sorting

  const MAX_DEPTH: nat := 8
  const MAX_FILES: nat := 1000
  const MEMORY_INDEX: string := "MEMORY.md"

  /** `DeniedDir` cannot be opened; the type of an `Unreadable` entry cannot be asked. */
  datatype Node = RegularFile(size: nat) | Symlink | Special | Dir(entries: seq<Entry>) | DeniedDir | Unreadable

  datatype Entry = Entry(name: string, node: Node)

  datatype MemoryFile = MemoryFile(path: string, size: nat)

  /** What the memory path itself is. */
  datatype Root = Absent | NotDirectory | Refusal | Directory(entries: seq<Entry>) | DeniedDirectory

  datatype Scan = Missing | Failure | Files(files: seq<MemoryFile>, truncated: bool)

  function Relative(prefix: string, name: string): string {
    if prefix == "" then name else prefix + "/" + name
  }

  predicate EndsInMd(path: string) {
    |path| >= 3 && path[|path| - 3..] == ".md"
  }

  /** A Markdown file that the walk lists; the index is not left to it. */
  predicate Listable(e: Entry, prefix: string) {
    var path := Relative(prefix, e.name);
    e.node.RegularFile? && path != MEMORY_INDEX && EndsInMd(path)
  }

  // ---------- what a walk meets, in the order it is enumerated ----------

  datatype Event = Topic(file: MemoryFile) | TooDeep | Refused

  function EventsOfDir(node: Node, prefix: string, depth: nat): seq<Event>
    decreases node, 1
  {
    if depth > MAX_DEPTH then [TooDeep]
    else if node.Dir? then Events(node.entries, prefix, depth)
    else [Refused]
  }

  function EventsOfEntry(e: Entry, prefix: string, depth: nat): seq<Event>
    decreases e, 0
  {
    var path := Relative(prefix, e.name);
    match e.node
    case Symlink => []
    case Special => []
    case Unreadable => [Refused]
    case Dir(_) => EventsOfDir(e.node, path, depth + 1)
    case DeniedDir => EventsOfDir(e.node, path, depth + 1)
    case RegularFile(size) =>
      if Listable(e, prefix) then [Topic(MemoryFile(path, size))] else []
  }

  function Events(entries: seq<Entry>, prefix: string, depth: nat): seq<Event>
    decreases entries, 0
  {
    if entries == [] then []
    else Events(entries[..|entries| - 1], prefix, depth)
         + EventsOfEntry(entries[|entries| - 1], prefix, depth)
  }

  function Topics(es: seq<Event>): seq<MemoryFile> {
    if es == [] then []
    else if es[0].Topic? then [es[0].file] + Topics(es[1..])
    else Topics(es[1..])
  }

  function Take<T>(s: seq<T>, n: nat): seq<T> {
    if |s| <= n then s else s[..n]
  }

  lemma {:induction false} TopicsConcat(a: seq<Event>, b: seq<Event>)
    ensures Topics(a + b) == Topics(a) + Topics(b)
  {
    if a == [] {
      assert a + b == b;
    } else {
      assert (a + b)[1..] == a[1..] + b;
      TopicsConcat(a[1..], b);
    }
  }

  /** The files listed once the topics of `es` have been added, up to the bound. */
  function FilesAfter(files0: seq<MemoryFile>, es: seq<Event>): (files: seq<MemoryFile>)
    requires |files0| <= MAX_FILES
    ensures |files| <= MAX_FILES
  {
    files0 + Take(Topics(es), MAX_FILES - |files0|)
  }

  /** Something could not be listed. */
  predicate Cut(files0: seq<MemoryFile>, es: seq<Event>)
    requires |files0| <= MAX_FILES
  {
    TooDeep in es || |Topics(es)| > MAX_FILES - |files0|
  }

  /** Listing in two steps is listing at once. */
  lemma ListingConcat(files0: seq<MemoryFile>, a: seq<Event>, b: seq<Event>)
    requires |files0| <= MAX_FILES
    ensures FilesAfter(files0, a + b) == FilesAfter(FilesAfter(files0, a), b)
    ensures Cut(files0, a + b) <==> Cut(files0, a) || Cut(FilesAfter(files0, a), b)
  {
    TopicsConcat(a, b);
  }

  lemma ListingOne(files0: seq<MemoryFile>, e: Event)
    requires |files0| <= MAX_FILES
    ensures FilesAfter(files0, []) == files0 && !Cut(files0, [])
    ensures !e.Topic? ==> FilesAfter(files0, [e]) == files0 && (Cut(files0, [e]) <==> e == TooDeep)
    ensures e.Topic? ==>
              && Topics([e]) == [e.file]
              && FilesAfter(files0, [e]) == (if |files0| < MAX_FILES then files0 + [e.file] else files0)
              && (Cut(files0, [e]) <==> |files0| >= MAX_FILES)
  {
    assert [e][1..] == [];
  }

  // ---------- when a walk fails ----------

  /** How many files are listed after `es`. */
  function Filled(count: nat, es: seq<Event>): (filled: nat)
    requires count <= MAX_FILES
    ensures filled <= MAX_FILES
  {
    if count + |Topics(es)| < MAX_FILES then count + |Topics(es)| else MAX_FILES
  }

  /** No file of this directory that stands before entry `i` came too late to be listed. */
  predicate Reached(entries: seq<Entry>, i: nat, prefix: string, depth: nat, count: nat)
    requires i <= |entries| && count <= MAX_FILES
  {
    forall j :: 0 <= j < i && Listable(entries[j], prefix) ==>
                  Filled(count, Events(entries[..j], prefix, depth)) < MAX_FILES
  }

  predicate FailsDir(node: Node, prefix: string, depth: nat, count: nat)
    requires count <= MAX_FILES
    decreases node, 1
  {
    depth <= MAX_DEPTH && (node.Dir? ==> Fails(node.entries, prefix, depth, count))
  }

  predicate FailsEntry(e: Entry, prefix: string, depth: nat, count: nat)
    requires count <= MAX_FILES
    decreases e, 0
  {
    match e.node
    case Unreadable => true
    case Dir(_) => FailsDir(e.node, Relative(prefix, e.name), depth + 1, count)
    case DeniedDir => FailsDir(e.node, Relative(prefix, e.name), depth + 1, count)
    case _ => false
  }

  /**
   A walk fails at an entry that refuses to answer, unless its directory, or one above it, was
   left before because the list was full.
   */
  predicate Fails(entries: seq<Entry>, prefix: string, depth: nat, count: nat)
    requires count <= MAX_FILES
    decreases entries, 1
  {
    exists i :: 0 <= i < |entries| && FailsAt(entries, i, prefix, depth, count)
  }

  predicate FailsAt(entries: seq<Entry>, i: nat, prefix: string, depth: nat, count: nat)
    requires i < |entries| && count <= MAX_FILES
    decreases entries, 0
  {
    && Reached(entries, i, prefix, depth, count)
    && FailsEntry(entries[i], prefix, depth, Filled(count, Events(entries[..i], prefix, depth)))
  }

  // ---------- the walk ----------

  class Listing {
    var files: seq<MemoryFile>
    var truncated: bool

    constructor (files: seq<MemoryFile>)
      ensures this.files == files && !truncated
    {
      this.files := files;
      truncated := false;
    }

    /** `walk`. */
    method Walk(node: Node, prefix: string, depth: nat) returns (ok: bool)
      requires node.Dir? || node.DeniedDir?
      requires |files| <= MAX_FILES
      modifies this
      ensures ok <==> !FailsDir(node, prefix, depth, |old(files)|)
      ensures ok ==> files == FilesAfter(old(files), EventsOfDir(node, prefix, depth))
      ensures ok ==> truncated == (old(truncated) || Cut(old(files), EventsOfDir(node, prefix, depth)))
      decreases node, 1
    {
      ListingOne(files, TooDeep);
      if depth > MAX_DEPTH {
        truncated := true;
        return true;
      }
      if node.DeniedDir? {
        return false;
      }
      var entries := node.entries;
      ghost var files0, truncated0 := files, truncated;
      for i := 0 to |entries|
        invariant WalkedTo(entries, i, prefix, depth, files0, files, truncated0, truncated)
      {
        WalkedStep(entries, i, prefix, depth, files0, files, truncated0, truncated);
        var go := WalkEntry(entries[i], prefix, depth);
        if go == Abort {
          return false;
        }
        if go == Full {
          return true;
        }
      }
      WalkedAll(entries, prefix, depth, files0, files, truncated0, truncated);
      return true;
    }

    /** The body of the walk's loop: go on, stop this directory because the list is full, or fail. */
    method WalkEntry(e: Entry, prefix: string, depth: nat) returns (go: Go)
      requires |files| <= MAX_FILES
      modifies this
      ensures var now := EventsOfEntry(e, prefix, depth);
              && (go == Abort <==> FailsEntry(e, prefix, depth, |old(files)|))
              && (go == Full <==> Listable(e, prefix) && |old(files)| == MAX_FILES)
              && (go != Abort ==> files == FilesAfter(old(files), now))
              && (go != Abort ==> truncated == (old(truncated) || Cut(old(files), now)))
      decreases e, 0
    {
      var path := Relative(prefix, e.name);
      ListingOne(files, if e.node.RegularFile? then Topic(MemoryFile(path, e.node.size)) else Refused);
      match e.node {
        case Symlink => return Continue;
        case Special => return Continue;
        case Unreadable => return Abort;
        case Dir(_) =>
          var ok := Walk(e.node, path, depth + 1);
          return if ok then Continue else Abort;
        case DeniedDir =>
          var ok := Walk(e.node, path, depth + 1);
          return if ok then Continue else Abort;
        case RegularFile(size) =>
          if path == MEMORY_INDEX || !EndsInMd(path) {
            return Continue;
          }
          if |files| >= MAX_FILES {
            truncated := true;
            return Full;
          }
          files := files + [MemoryFile(path, size)];
          return Continue;
      }
    }
  }

  datatype Go = Continue | Full | Abort

  /** The walk has dealt with the first `i` entries and is still in this directory. */
  ghost predicate WalkedTo(entries: seq<Entry>, i: nat, prefix: string, depth: nat,
                           files0: seq<MemoryFile>, files: seq<MemoryFile>, truncated0: bool, truncated: bool)
  {
    && i <= |entries| && |files0| <= MAX_FILES
    && files == FilesAfter(files0, Events(entries[..i], prefix, depth))
    && truncated == (truncated0 || Cut(files0, Events(entries[..i], prefix, depth)))
    && Reached(entries, i, prefix, depth, |files0|)
    && forall j :: 0 <= j < i ==> !FailsAt(entries, j, prefix, depth, |files0|)
  }

  /** What follows from one more entry, whichever way it ends. */
  lemma WalkedStep(entries: seq<Entry>, i: nat, prefix: string, depth: nat,
                   files0: seq<MemoryFile>, files: seq<MemoryFile>, truncated0: bool, truncated: bool)
    requires i < |entries| && WalkedTo(entries, i, prefix, depth, files0, files, truncated0, truncated)
    ensures var now := EventsOfEntry(entries[i], prefix, depth);
            var all := Events(entries, prefix, depth);
            if FailsEntry(entries[i], prefix, depth, |files|) then Fails(entries, prefix, depth, |files0|)
            else if Listable(entries[i], prefix) && |files| == MAX_FILES then
              && !Fails(entries, prefix, depth, |files0|)
              && Cut(files0, all) && FilesAfter(files0, all) == FilesAfter(files, now) && Cut(files, now)
            else
              WalkedTo(entries, i + 1, prefix, depth, files0, FilesAfter(files, now), truncated0,
                       truncated || Cut(files, now))
  {
    var before := Events(entries[..i], prefix, depth);
    var now := EventsOfEntry(entries[i], prefix, depth);
    assert |files| == Filled(|files0|, before);
    if FailsEntry(entries[i], prefix, depth, |files|) {
      assert FailsAt(entries, i, prefix, depth, |files0|);
    } else {
      EventsStep(entries, i, prefix, depth);
      if Listable(entries[i], prefix) && |files| == MAX_FILES {
        var rest := EventsRest(entries, i + 1, prefix, depth);
        Overflow(before, now, rest, files0);
        LeftBehind(entries, i, prefix, depth, |files0|);
      } else {
        ListingConcat(files0, before, now);
      }
    }
  }

  lemma WalkedAll(entries: seq<Entry>, prefix: string, depth: nat,
                  files0: seq<MemoryFile>, files: seq<MemoryFile>, truncated0: bool, truncated: bool)
    requires WalkedTo(entries, |entries|, prefix, depth, files0, files, truncated0, truncated)
    ensures !Fails(entries, prefix, depth, |files0|)
    ensures files == FilesAfter(files0, Events(entries, prefix, depth))
    ensures truncated == (truncated0 || Cut(files0, Events(entries, prefix, depth)))
  {
    assert entries[..|entries|] == entries;
  }

  /** Once the list is full, the rest of a directory changes nothing but is reported as cut. */
  lemma Overflow(before: seq<Event>, now: seq<Event>, rest: seq<Event>, files0: seq<MemoryFile>)
    requires |files0| <= MAX_FILES
    requires |FilesAfter(files0, before)| == MAX_FILES && |now| == 1 && now[0].Topic?
    ensures Cut(files0, before + now + rest)
    ensures FilesAfter(files0, before + now + rest) == FilesAfter(files0, before)
    ensures FilesAfter(FilesAfter(files0, before), now) == FilesAfter(files0, before)
    ensures Cut(FilesAfter(files0, before), now)
  {
    var full := FilesAfter(files0, before);
    ListingOne(full, now[0]);
    assert now == [now[0]];
    ListingConcat(files0, before, now);
    ListingConcat(files0, before + now, rest);
  }

  /** And nothing in the rest of the directory can make the walk fail. */
  lemma LeftBehind(entries: seq<Entry>, i: nat, prefix: string, depth: nat, count: nat)
    requires i < |entries| && count <= MAX_FILES
    requires Listable(entries[i], prefix) && Filled(count, Events(entries[..i], prefix, depth)) == MAX_FILES
    requires forall j :: 0 <= j < i ==> !FailsAt(entries, j, prefix, depth, count)
    ensures !Fails(entries, prefix, depth, count)
  {
    forall j | 0 <= j < |entries|
      ensures !FailsAt(entries, j, prefix, depth, count)
    {
      assert j > i ==> !Reached(entries, j, prefix, depth, count);
    }
  }

  lemma EventsAppend(init: seq<Entry>, last: Entry, prefix: string, depth: nat)
    ensures Events(init + [last], prefix, depth) == Events(init, prefix, depth) + EventsOfEntry(last, prefix, depth)
  {
    assert (init + [last])[..|init|] == init;
  }

  lemma EventsStep(entries: seq<Entry>, i: nat, prefix: string, depth: nat)
    requires i < |entries|
    ensures Events(entries[..i + 1], prefix, depth)
         == Events(entries[..i], prefix, depth) + EventsOfEntry(entries[i], prefix, depth)
  {
    assert entries[..i + 1][..i] == entries[..i];
  }

  lemma {:induction false} EventsRest(entries: seq<Entry>, i: nat, prefix: string, depth: nat)
    returns (rest: seq<Event>)
    requires i <= |entries|
    ensures Events(entries, prefix, depth) == Events(entries[..i], prefix, depth) + rest
    decreases |entries|
  {
    if i == |entries| {
      assert entries[..i] == entries;
      rest := [];
    } else {
      var init := entries[..|entries| - 1];
      rest := EventsRest(init, i, prefix, depth);
      assert init[..i] == entries[..i];
      rest := rest + EventsOfEntry(entries[|entries| - 1], prefix, depth);
    }
  }

  // ---------- scan ----------

  predicate StringLe(a: string, b: string) {
    a == "" || (b != "" && (a[0] < b[0] || (a[0] == b[0] && StringLe(a[1..], b[1..]))))
  }

  /** The index first, the rest by path. */
  predicate FileLe(a: MemoryFile, b: MemoryFile) {
    a.path == MEMORY_INDEX || (b.path != MEMORY_INDEX && StringLe(a.path, b.path))
  }

  predicate SamePath(a: MemoryFile, b: MemoryFile) {
    a.path == b.path
  }

  /** `memory_file` for the index: listed only when it is a regular file, not a link. */
  function IndexFile(entries: seq<Entry>): (index: seq<MemoryFile>)
    ensures |index| <= 1
    ensures index != [] ==> index[0].path == MEMORY_INDEX
  {
    if entries == [] then []
    else if entries[0].name == MEMORY_INDEX then
      (if entries[0].node.RegularFile? then [MemoryFile(MEMORY_INDEX, entries[0].node.size)] else [])
    else IndexFile(entries[1..])
  }

  /** `sort_by`, then `dedup_by`. */
  function Listed(files: seq<MemoryFile>): seq<MemoryFile> {
    Dedup(Sort(files, FileLe), SamePath)
  }

  /** The files of a listing, when the walk does not fail. */
  function ListingOf(entries: seq<Entry>): seq<MemoryFile> {
    Listed(FilesAfter(IndexFile(entries), Events(entries, "", 0)))
  }

  predicate TruncatedOf(entries: seq<Entry>) {
    Cut(IndexFile(entries), Events(entries, "", 0))
  }

  lemma RootEvents(entries: seq<Entry>)
    ensures EventsOfDir(Dir(entries), "", 0) == Events(entries, "", 0)
  {}

  /** What a scan answers. */
  function ScanOf(root: Root): Scan {
    match root
    case Absent => Missing
    case NotDirectory => Failure
    case Refusal => Failure
    case DeniedDirectory => Failure
    case Directory(entries) =>
      if Fails(entries, "", 0, |IndexFile(entries)|) then Failure
      else Files(ListingOf(entries), TruncatedOf(entries))
  }

  /** `scan`. */
  method ScanMemory(root: Root) returns (scan: Scan)
    ensures scan == ScanOf(root)
    ensures scan == Missing <==> root == Absent
    ensures scan == Failure <==>
              || root in {NotDirectory, Refusal, DeniedDirectory}
              || (root.Directory? && Fails(root.entries, "", 0, |IndexFile(root.entries)|))
    ensures scan.Files? ==> scan.files == ListingOf(root.entries) && scan.truncated == TruncatedOf(root.entries)
  {
    match root {
      case Absent => return Missing;
      case NotDirectory => return Failure;
      case Refusal => return Failure;
      case DeniedDirectory => return Failure;
      case Directory(entries) =>
        var index := IndexFile(entries);
        var listing := new Listing(index);
        RootEvents(entries);
        var ok := listing.Walk(Dir(entries), "", 0);
        if !ok {
          return Failure;
        }
        return Files(Listed(listing.files), listing.truncated);
    }
  }
}
