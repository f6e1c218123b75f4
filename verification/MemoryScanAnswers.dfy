/**
 Which scans answer the same in every order of enumeration, and trees of each kind.
 */
module MemoryScanAnswers {
  import opened MemoryScan
  import opened MemoryScanLaws
  import opened MemoryScanOrder
  import opened MemoryScanRefusals
  import opened Sorting

  // ---------- which scans depend on the order ----------

  /** The answer of a scan in another order, when that order fails and when it does not. */
  lemma ScanElsewhere(one: seq<Entry>, two: seq<Entry>)
    requires WellNamed(one) && Reordered(one, two)
    ensures ScanOf(Directory(two)) == if Fails(two, "", 0, |IndexFile(one)|) then Failure
                                      else Files(ListingOf(two), TruncatedOf(two))
  {
    SameIndex(one, two);
  }

  /** Where an entry refuses to answer, some order meets it first and fails. */
  lemma FailsInSomeOrder(one: seq<Entry>) returns (two: seq<Entry>)
    requires WellNamed(one) && Refused in Events(one, "", 0)
    ensures Reordered(one, two) && ScanOf(Directory(two)) == Failure
  {
    var rest;
    two, rest := ToFront(one, "", 0, Refused);
    ScanElsewhere(one, two);
    RoomFails(two, "", 0, |IndexFile(one)|);
  }

  /** A scan fails in every order exactly when the tree cannot be passed. */
  lemma FailsInEveryOrder(one: seq<Entry>)
    requires WellNamed(one)
    ensures (forall two | Reordered(one, two) :: ScanOf(Directory(two)) == Failure)
       <==> !Passable(one, "", 0, |IndexFile(one)|)
  {
    PassableExactly(one, "", 0, |IndexFile(one)|);
    forall two | Reordered(one, two)
      ensures ScanOf(Directory(two)) == Failure <==> Fails(two, "", 0, |IndexFile(one)|)
    {
      ScanElsewhere(one, two);
    }
  }

  /** With a file too many and nothing refusing, another order lists another file. */
  lemma ListsAnother(one: seq<Entry>) returns (two: seq<Entry>)
    requires WellNamed(one) && !AllFit(one) && Refused !in Events(one, "", 0)
    ensures Reordered(one, two) && ScanOf(Directory(one)).Files? && ScanOf(Directory(two)).Files?
    ensures ScanOf(Directory(two)) != ScanOf(Directory(one))
  {
    var f := LeftOut(one);
    var rest;
    two, rest := ToFront(one, "", 0, Topic(f));
    NotListed(one, f);
    FirstIsListed(two, f, rest);
    EachSelf(one);
    ReorderedFrom(one, one, one);
    NoRefusalNoFailure(one, one);
    NoRefusalNoFailure(one, two);
  }

  lemma NoRefusalNoFailure(one: seq<Entry>, two: seq<Entry>)
    requires Refused !in Events(one, "", 0) && Reordered(one, two)
    ensures ScanOf(Directory(two)) == Files(ListingOf(two), TruncatedOf(two))
  {
    SameEvents(one, two, "", 0);
    SameElements(Events(one, "", 0), Events(two, "", 0));
    if Fails(two, "", 0, |IndexFile(two)|) {
      FailsAtRefusal(two, "", 0, |IndexFile(two)|);
    }
  }

  /**
   Exactly which scans answer the same in every order: those whose files all fit, and those
   that fail in every order.
   */
  lemma OrderShowsExactly(one: seq<Entry>)
    requires WellNamed(one)
    ensures (forall two | Reordered(one, two) :: ScanOf(Directory(two)) == ScanOf(Directory(one)))
       <==> AllFit(one) || !Passable(one, "", 0, |IndexFile(one)|)
  {
    FailsInEveryOrder(one);
    EachSelf(one);
    ReorderedFrom(one, one, one);
    if AllFit(one) {
      forall two | Reordered(one, two)
        ensures ScanOf(Directory(two)) == ScanOf(Directory(one))
      {
        EnumerationDoesNotShow(one, two);
      }
    } else if Passable(one, "", 0, |IndexFile(one)|) {
      if Refused in Events(one, "", 0) {
        var two := FailsInSomeOrder(one);
      } else {
        var two := ListsAnother(one);
      }
    }
  }

  // ---------- trees of each kind ----------

  /** Names that differ in length. */
  function NameOf(i: nat): (name: string)
    ensures |name| == i + 4
  {
    seq(i + 1, k => 'a') + ".md"
  }

  function FileOf(i: nat): Entry {
    Entry(NameOf(i), RegularFile(0))
  }

  function Many(n: nat): (entries: seq<Entry>)
    ensures |entries| == n && forall i :: 0 <= i < n ==> entries[i] == FileOf(i)
  {
    seq(n, i requires 0 <= i < n => FileOf(i))
  }

  lemma ManyWellNamed(n: nat)
    ensures WellNamed(Many(n))
  {
    var entries := Many(n);
    forall i, j | 0 <= i < j < n
      ensures entries[i].name != entries[j].name
    {
      assert |entries[i].name| != |entries[j].name|;
    }
  }

  lemma NameListable(i: nat, prefix: string)
    requires prefix == "" || prefix == "p"
    ensures Listable(FileOf(i), prefix)
  {
    var name := NameOf(i);
    var path := Relative(prefix, name);
    assert name[|name| - 3..] == ".md";
    assert path[|path| - 3..] == ".md";
    assert path[0] != MEMORY_INDEX[0];
  }

  lemma {:induction false} ManyTopics(n: nat, prefix: string, depth: nat)
    requires prefix == "" || prefix == "p"
    ensures |Topics(Events(Many(n), prefix, depth))| == n
    ensures !SomeTrouble(Many(n), prefix, depth)
  {
    if n == 0 {
      assert Many(0) == [];
    } else {
      ManyTopics(n - 1, prefix, depth);
      ManyTopicsStep(n - 1, prefix, depth);
    }
  }

  lemma ManyTopicsStep(n: nat, prefix: string, depth: nat)
    requires (prefix == "" || prefix == "p") && !SomeTrouble(Many(n), prefix, depth)
    ensures |Topics(Events(Many(n + 1), prefix, depth))| == |Topics(Events(Many(n), prefix, depth))| + 1
    ensures !SomeTrouble(Many(n + 1), prefix, depth)
  {
    NameListable(n, prefix);
    OneFileMore(Many(n), FileOf(n), prefix, depth);
    ManyOneMore(n);
  }

  lemma ManyOneMore(n: nat)
    ensures Many(n + 1) == Many(n) + [FileOf(n)]
  {}

  lemma OneFileMore(files: seq<Entry>, f: Entry, prefix: string, depth: nat)
    requires Listable(f, prefix) && !SomeTrouble(files, prefix, depth)
    ensures |Topics(Events(files + [f], prefix, depth))| == |Topics(Events(files, prefix, depth))| + 1
    ensures !SomeTrouble(files + [f], prefix, depth)
  {
    FileIsQuiet(f, prefix, depth);
    assert multiset(files + [f]) == multiset(files) + multiset{f};
    OneFileLess(files + [f], files, f, prefix, depth);
  }

  lemma {:induction false} NoIndex(entries: seq<Entry>)
    requires forall i :: 0 <= i < |entries| ==> entries[i].name != MEMORY_INDEX
    ensures IndexFile(entries) == []
  {
    if entries != [] {
      NoIndex(entries[1..]);
    }
  }

  /** One file too many, under names that no other entry here has. */
  ghost predicate OneTooMany(files: seq<Entry>, prefix: string, depth: nat) {
    && WellNamed(files) && !SomeTrouble(files, prefix, depth)
    && |files| > 0 && Listable(files[0], prefix)
    && |Topics(Events(files, prefix, depth))| == MAX_FILES + 1
    && forall i :: 0 <= i < |files| ==> |files[i].name| > 3 && files[i].name[0] == 'a'
  }

  lemma TooManyFiles(prefix: string, depth: nat) returns (files: seq<Entry>)
    requires prefix == "" || prefix == "p"
    ensures OneTooMany(files, prefix, depth)
  {
    files := Many(MAX_FILES + 1);
    ManyWellNamed(MAX_FILES + 1);
    ManyTopics(MAX_FILES + 1, prefix, depth);
    NameListable(0, prefix);
  }

  /** In a directory of one file too many the order decides what is listed. */
  lemma OrderCanShow() returns (one: seq<Entry>, two: seq<Entry>)
    ensures WellNamed(one) && Reordered(one, two)
    ensures ScanOf(Directory(one)).Files? && ScanOf(Directory(two)).Files?
    ensures ScanOf(Directory(one)) != ScanOf(Directory(two))
  {
    one := TooManyFiles("", 0);
    InEvents(one, "", 0, Refused);
    two := ListsAnother(one);
  }

  /** With an entry beside them that refuses to answer, it decides whether the scan fails. */
  lemma OrderCanFail() returns (one: seq<Entry>, two: seq<Entry>)
    ensures WellNamed(one) && Reordered(one, two)
    ensures ScanOf(Directory(one)) == Failure && ScanOf(Directory(two)).Files?
  {
    var files := TooManyFiles("", 0);
    var refusing := Entry("q", Unreadable);
    one := [refusing] + files;
    BesideWellNamed(refusing, files);
    NoIndex(one);
    RefusingFirst(refusing, files);
    RoomFails(one, "", 0, 0);
    PassableBeside(refusing, files);
    two := SomeOrderPasses(one);
  }

  lemma BesideWellNamed(other: Entry, files: seq<Entry>)
    requires WellNamed(files) && other == Entry("q", Unreadable)
    requires forall i :: 0 <= i < |files| ==> |files[i].name| > 3
    ensures WellNamed([other] + files)
  {}

  lemma SomeOrderPasses(one: seq<Entry>) returns (two: seq<Entry>)
    requires WellNamed(one) && Passable(one, "", 0, |IndexFile(one)|)
    ensures Reordered(one, two) && ScanOf(Directory(two)).Files?
  {
    PassableExactly(one, "", 0, |IndexFile(one)|);
    two :| Reordered(one, two) && !Fails(two, "", 0, |IndexFile(one)|);
    ScanElsewhere(one, two);
  }

  lemma RefusingFirst(refusing: Entry, files: seq<Entry>)
    requires refusing.node.Unreadable?
    ensures RefusedInRoom(Events([refusing] + files, "", 0), MAX_FILES)
  {
    EventsConcat([refusing], files, "", 0);
    EventsOne(refusing, "", 0);
    var es := Events([refusing] + files, "", 0);
    assert es[0] == Refused;
  }

  lemma PassableBeside(refusing: Entry, files: seq<Entry>)
    requires refusing.node.Unreadable? && OneTooMany(files, "", 0)
    ensures Passable([refusing] + files, "", 0, 0)
  {
    var one := [refusing] + files;
    SiftConcat([refusing], files, "", 0, false);
    assert [refusing][..0] == [];
    assert Sift([refusing], "", 0, false) == [];
    forall j | 0 <= j < |files|
      ensures !Troubled(files[j], "", 0)
    {
      assert files[j] in files;
    }
    SiftQuiet(files, "", 0);
    assert [] + files == files;
    assert files[0] in one && Listable(files[0], "");
    assert BeforeLastFile(one, "", 0, 0) == MAX_FILES;
  }

  /** With the files and the refusal in directories of their own, it decides nothing: every order fails. */
  lemma RefusalHidesOrder() returns (one: seq<Entry>)
    ensures WellNamed(one) && !AllFit(one)
    ensures forall two | Reordered(one, two) :: ScanOf(Directory(two)) == Failure
  {
    var files := TooManyFiles("p", 1);
    var full, refusing := Entry("p", Dir(files)), Entry("q", Dir([Entry("x", Unreadable)]));
    one := [full, refusing];
    TopicsBelow(full, refusing);
    TwoWellNamed(files);
    NotPassable(one, full, refusing);
    NoIndex(one);
    FailsInEveryOrder(one);
  }

  lemma TwoWellNamed(files: seq<Entry>)
    requires WellNamed(files)
    ensures WellNamed([Entry("p", Dir(files)), Entry("q", Dir([Entry("x", Unreadable)]))])
  {
    assert WellNamed([Entry("x", Unreadable)]);
  }

  lemma TopicsBelow(full: Entry, other: Entry)
    requires full.name == "p" && full.node.Dir?
    ensures |Topics(Events([full, other], "", 0))| >= |Topics(Events(full.node.entries, "p", 1))|
  {
    assert [full, other] == [full] + [other];
    EventsConcat([full], [other], "", 0);
    EventsOne(full, "", 0);
    assert EventsOfEntry(full, "", 0) == EventsOfDir(full.node, "p", 1);
    TopicsConcat(EventsOfEntry(full, "", 0), Events([other], "", 0));
  }

  lemma NotPassable(one: seq<Entry>, full: Entry, refusing: Entry)
    requires one == [full, refusing] && full.node.Dir? && refusing == Entry("q", Dir([Entry("x", Unreadable)]))
    ensures !Passable(one, "", 0, 0)
  {
    var x := Entry("x", Unreadable);
    EventsOne(x, "q", 1);
    assert Troubled(x, "q", 1) && x in [x];
    assert !PassableBelow(x, "q", 1, MAX_FILES);
    assert !Passable([x], "q", 1, MAX_FILES);
    assert EventsOfEntry(refusing, "", 0) == EventsOfDir(refusing.node, "q", 1);
    assert Troubled(refusing, "", 0) && refusing in one;
    assert !PassableBelow(refusing, "", 0, MAX_FILES);
  }
}
