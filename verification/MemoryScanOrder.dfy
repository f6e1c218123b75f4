/**
 Trees that differ in the order their entries are enumerated in: what a walk meets in both, and
 what a scan answers in both as long as all files fit.
 */
module MemoryScanOrder {
  import opened MemoryScan
  import opened MemoryScanLaws
  import opened Sequences
  import opened Sorting

  /** The same tree, with the entries of every directory enumerated in another order. */
  ghost predicate Reordered(one: seq<Entry>, two: seq<Entry>)
    decreases two, 2
  {
    exists mid: seq<Entry> :: multiset(mid) == multiset(one) && EachReordered(mid, two)
  }

  /** Entry by entry the same, up to the order inside directories. */
  ghost predicate EachReordered(mid: seq<Entry>, two: seq<Entry>)
    decreases two, 1
  {
    |mid| == |two| && forall i :: 0 <= i < |two| ==> EntryReordered(mid[i], two[i])
  }

  ghost predicate EntryReordered(a: Entry, b: Entry)
    decreases b, 0
  {
    && a.name == b.name
    && if b.node.Dir? then a.node.Dir? && Reordered(a.node.entries, b.node.entries) else a.node == b.node
  }

  lemma {:induction false} EntryReorderedSelf(e: Entry)
    ensures EntryReordered(e, e)
    decreases e, 0
  {
    if e.node.Dir? {
      var entries := e.node.entries;
      forall i | 0 <= i < |entries|
        ensures EntryReordered(entries[i], entries[i])
      {
        EntryReorderedSelf(entries[i]);
      }
      assert EachReordered(entries, entries);
    }
  }

  /** Any permutation of a directory is a reordering of it. */
  lemma PermutedIsReordered(one: seq<Entry>, two: seq<Entry>)
    requires multiset(one) == multiset(two)
    ensures Reordered(one, two)
  {
    forall i | 0 <= i < |two|
      ensures EntryReordered(two[i], two[i])
    {
      EntryReorderedSelf(two[i]);
    }
    assert EachReordered(two, two);
  }

  // ---------- the same events, in another order ----------

  lemma {:induction false} EventsConcat(a: seq<Entry>, b: seq<Entry>, prefix: string, depth: nat)
    ensures Events(a + b, prefix, depth) == Events(a, prefix, depth) + Events(b, prefix, depth)
    decreases |b|
  {
    if b == [] {
      assert a + b == a;
    } else {
      var init, last := b[..|b| - 1], b[|b| - 1];
      assert b == init + [last] && a + b == (a + init) + [last];
      EventsAppend(init, last, prefix, depth);
      EventsAppend(a + init, last, prefix, depth);
      EventsConcat(a, init, prefix, depth);
      ConcatAssociates(Events(a, prefix, depth), Events(init, prefix, depth), EventsOfEntry(last, prefix, depth));
    }
  }

  lemma EventsOne(e: Entry, prefix: string, depth: nat)
    ensures Events([e], prefix, depth) == EventsOfEntry(e, prefix, depth)
  {
    assert [] + [e] == [e];
    EventsAppend([], e, prefix, depth);
  }

  /** A list with one element taken out of it. */
  function Without(s: seq<Entry>, k: nat): (r: seq<Entry>)
    requires k < |s|
    ensures |r| == |s| - 1
  {
    s[..k] + s[k + 1..]
  }

  lemma TakenOut(s: seq<Entry>, k: nat)
    requires k < |s|
    ensures multiset(Without(s, k)) == multiset(s) - multiset{s[k]}
  {
    assert s == s[..k] + [s[k]] + s[k + 1..];
  }

  lemma EventsTakenOut(s: seq<Entry>, k: nat, prefix: string, depth: nat)
    requires k < |s|
    ensures multiset(Events(s, prefix, depth))
         == multiset(Events(Without(s, k), prefix, depth)) + multiset(EventsOfEntry(s[k], prefix, depth))
  {
    assert s == (s[..k] + [s[k]]) + s[k + 1..];
    EventsConcat(s[..k] + [s[k]], s[k + 1..], prefix, depth);
    EventsConcat(s[..k], [s[k]], prefix, depth);
    EventsOne(s[k], prefix, depth);
    EventsConcat(s[..k], s[k + 1..], prefix, depth);
  }

  lemma {:induction false} EventsPermuted(a: seq<Entry>, b: seq<Entry>, prefix: string, depth: nat)
    requires multiset(a) == multiset(b)
    ensures multiset(Events(a, prefix, depth)) == multiset(Events(b, prefix, depth))
    decreases |a|
  {
    SameElements(a, b);
    if a != [] {
      assert a[0] in b;
      var k :| 0 <= k < |b| && b[k] == a[0];
      TakenOut(a, 0);
      TakenOut(b, k);
      EventsPermuted(Without(a, 0), Without(b, k), prefix, depth);
      EventsTakenOut(a, 0, prefix, depth);
      EventsTakenOut(b, k, prefix, depth);
    }
  }

  /** A walk meets the same events in both trees. */
  lemma {:induction false} SameEvents(one: seq<Entry>, two: seq<Entry>, prefix: string, depth: nat)
    requires Reordered(one, two)
    ensures multiset(Events(one, prefix, depth)) == multiset(Events(two, prefix, depth))
    decreases two, 2
  {
    var mid: seq<Entry> :| multiset(mid) == multiset(one) && EachReordered(mid, two);
    EventsPermuted(one, mid, prefix, depth);
    SameEventsEach(mid, two, prefix, depth);
  }

  lemma {:induction false} SameEventsEach(mid: seq<Entry>, two: seq<Entry>, prefix: string, depth: nat)
    requires EachReordered(mid, two)
    ensures multiset(Events(mid, prefix, depth)) == multiset(Events(two, prefix, depth))
    decreases two, 1
  {
    if two != [] {
      var n := |two| - 1;
      SameEventsEach(mid[..n], two[..n], prefix, depth);
      assert EntryReordered(mid[n], two[n]);
      SameEventsEntry(mid[n], two[n], prefix, depth);
    }
  }

  lemma {:induction false} SameEventsEntry(a: Entry, b: Entry, prefix: string, depth: nat)
    requires EntryReordered(a, b)
    ensures multiset(EventsOfEntry(a, prefix, depth)) == multiset(EventsOfEntry(b, prefix, depth))
    decreases b, 0
  {
    if b.node.Dir? {
      var path := Relative(prefix, b.name);
      SameEvents(a.node.entries, b.node.entries, path, depth + 1);
      assert EventsOfEntry(a, prefix, depth) == EventsOfDir(a.node, path, depth + 1);
      assert EventsOfEntry(b, prefix, depth) == EventsOfDir(b.node, path, depth + 1);
    } else {
      assert a == b;
    }
  }

  // ---------- what depends on the events alone ----------

  lemma {:induction false} TopicsCount(es: seq<Event>, f: MemoryFile)
    ensures multiset(Topics(es))[f] == multiset(es)[Topic(f)]
  {
    if es != [] {
      assert es == [es[0]] + es[1..];
      TopicsCount(es[1..], f);
      if es[0].Topic? {
        assert multiset(Topics(es)) == multiset{es[0].file} + multiset(Topics(es[1..]));
      }
    }
  }

  lemma SameTopics(a: seq<Event>, b: seq<Event>)
    requires multiset(a) == multiset(b)
    ensures multiset(Topics(a)) == multiset(Topics(b))
    ensures |Topics(a)| == |Topics(b)|
  {
    forall f
      ensures multiset(Topics(a))[f] == multiset(Topics(b))[f]
    {
      TopicsCount(a, f);
      TopicsCount(b, f);
    }
    assert |Topics(a)| == |multiset(Topics(a))|;
  }

  /** What an entry named like the index contributes. */
  function AsIndex(e: Entry): seq<MemoryFile> {
    if e.node.RegularFile? then [MemoryFile(MEMORY_INDEX, e.node.size)] else []
  }

  ghost predicate IndexIs(entries: seq<Entry>, index: seq<MemoryFile>) {
    forall i :: 0 <= i < |entries| && entries[i].name == MEMORY_INDEX ==> AsIndex(entries[i]) == index
  }

  predicate HasIndexName(entries: seq<Entry>) {
    exists i :: 0 <= i < |entries| && entries[i].name == MEMORY_INDEX
  }

  lemma {:induction false} IndexFound(entries: seq<Entry>, index: seq<MemoryFile>)
    requires IndexIs(entries, index)
    ensures IndexFile(entries) == if HasIndexName(entries) then index else []
  {
    if entries != [] && entries[0].name != MEMORY_INDEX {
      var rest := entries[1..];
      assert IndexIs(rest, index) by {
        assert forall i :: 0 <= i < |rest| ==> rest[i] == entries[i + 1];
      }
      IndexFound(rest, index);
      if HasIndexName(entries) {
        var i :| 0 <= i < |entries| && entries[i].name == MEMORY_INDEX;
        assert rest[i - 1] == entries[i];
      }
      if HasIndexName(rest) {
        var i :| 0 <= i < |rest| && rest[i].name == MEMORY_INDEX;
        assert entries[i + 1] == rest[i];
      }
    }
  }

  lemma IndexPermuted(one: seq<Entry>, mid: seq<Entry>, index: seq<MemoryFile>)
    requires multiset(mid) == multiset(one) && IndexIs(one, index)
    ensures IndexIs(mid, index) && (HasIndexName(mid) <==> HasIndexName(one))
  {
    SameElements(one, mid);
    forall i | 0 <= i < |mid|
      ensures mid[i] in one
    {
      assert mid[i] in mid;
    }
    forall i | 0 <= i < |one|
      ensures one[i] in mid
    {
      assert one[i] in one;
    }
  }

  lemma EachSameIndex(mid: seq<Entry>, two: seq<Entry>, index: seq<MemoryFile>)
    requires EachReordered(mid, two) && IndexIs(mid, index)
    ensures IndexIs(two, index) && (HasIndexName(two) <==> HasIndexName(mid))
  {
    assert forall i :: 0 <= i < |two| ==> EntryReordered(mid[i], two[i]);
  }

  /** The index is the same file: in a well-named directory only one entry has its name. */
  lemma SameIndex(one: seq<Entry>, two: seq<Entry>)
    requires WellNamed(one) && Reordered(one, two)
    ensures IndexFile(one) == IndexFile(two)
  {
    var index := [];
    if HasIndexName(one) {
      var i :| 0 <= i < |one| && one[i].name == MEMORY_INDEX;
      index := AsIndex(one[i]);
    }
    var mid: seq<Entry> :| multiset(mid) == multiset(one) && EachReordered(mid, two);
    IndexPermuted(one, mid, index);
    EachSameIndex(mid, two, index);
    IndexFound(one, index);
    IndexFound(two, index);
  }

  // ---------- the listing ----------

  /** A listing is determined by the files sorted, when no two of them share a path. */
  lemma ListedFromSet(a: seq<MemoryFile>, b: seq<MemoryFile>)
    requires forall f :: f in a <==> f in b
    requires forall f, g :: f in a && g in a && f.path == g.path ==> f == g
    ensures Listed(a) == Listed(b)
  {
    FileLeOrders();
    ListedOrders(a);
    ListedOrders(b);
    forall f
      ensures f in Listed(a) <==> f in a
      ensures f in Listed(b) <==> f in a
    {
      if f in a {
        assert Has(Listed(a), f, SamePath) && Has(Listed(b), f, SamePath);
      }
    }
    StrictIsUnique(Listed(a), Listed(b), FileLe, SamePath);
  }

  /** Every file the walk can list is listed. */
  predicate AllFit(entries: seq<Entry>) {
    |IndexFile(entries)| + |Topics(Events(entries, "", 0))| <= MAX_FILES
  }

  lemma GivenDistinct(entries: seq<Entry>, f: MemoryFile, g: MemoryFile)
    requires WellNamed(entries) && f in Given(entries) && g in Given(entries) && f.path == g.path
    ensures f == g
  {
    GivenSound(entries, f);
    GivenSound(entries, g);
    TopicIsNotIndex(entries, f);
    TopicIsNotIndex(entries, g);
    if IsTopic(entries, f) {
      OneFilePerPath(entries, f, g);
    }
  }

  /**
   For every tree and every order its directories may be enumerated in: `truncated` is the same,
   and unless there are more files than a listing holds, so is the whole answer of the scan,
   its failure included.
   */
  lemma EnumerationDoesNotShow(one: seq<Entry>, two: seq<Entry>)
    requires WellNamed(one) && Reordered(one, two)
    ensures TruncatedOf(one) <==> TruncatedOf(two)
    ensures !TruncatedOf(one) ==> AllFit(one)
    ensures AllFit(one) <==> AllFit(two)
    ensures AllFit(one) ==> ScanOf(Directory(one)) == ScanOf(Directory(two))
  {
    var es, es' := Events(one, "", 0), Events(two, "", 0);
    SameIndex(one, two);
    SameEvents(one, two, "", 0);
    SameElements(es, es');
    SameTopics(es, es');
    if AllFit(one) {
      FailsExactly(one, "", 0, |IndexFile(one)|);
      FailsExactly(two, "", 0, |IndexFile(two)|);
      SameElements(Topics(es), Topics(es'));
      forall f, g | f in Given(one) && g in Given(one) && f.path == g.path
        ensures f == g
      {
        GivenDistinct(one, f, g);
      }
      ListedFromSet(Given(one), Given(two));
    }
  }

  // ---------- and when it does show ----------

  ghost predicate Distinct(files: seq<MemoryFile>) {
    forall i, j :: 0 <= i < j < |files| ==> files[i] != files[j]
  }

  lemma DistinctConcat(a: seq<MemoryFile>, b: seq<MemoryFile>)
    requires Distinct(a) && Distinct(b) && forall f :: f in a ==> f !in b
    ensures Distinct(a + b)
  {
    assert forall i :: 0 <= i < |a| ==> a[i] in a;
    assert forall i :: 0 <= i < |b| ==> b[i] in b;
  }

  /** The path of a topic names the entry it was met at. */
  lemma NameInPath(e: Entry, prefix: string, depth: nat, f: MemoryFile)
    requires WellNamed([e]) && Topic(f) in EventsOfEntry(e, prefix, depth)
    ensures var k := if prefix == "" then 0 else |Split(prefix, '/')|;
            k < |Split(f.path, '/')| && Split(f.path, '/')[k] == e.name
  {
    EventsOne(e, prefix, depth);
    var names := WalkSound([e], prefix, depth, f);
    LeadsProperly([e], names, f.size);
    PathSplits(prefix, names);
  }

  lemma WellNamedPart(entries: seq<Entry>, i: nat)
    requires WellNamed(entries) && i < |entries|
    ensures WellNamed(entries[..i]) && WellNamed([entries[i]])
  {}

  lemma {:induction false} TopicsDistinct(entries: seq<Entry>, prefix: string, depth: nat)
    requires WellNamed(entries)
    ensures Distinct(Topics(Events(entries, prefix, depth)))
    decreases entries, 0
  {
    if entries != [] {
      var n := |entries| - 1;
      var before, now := Events(entries[..n], prefix, depth), EventsOfEntry(entries[n], prefix, depth);
      WellNamedPart(entries, n);
      TopicsDistinct(entries[..n], prefix, depth);
      EntryTopicsDistinct(entries[n], prefix, depth);
      forall f | f in Topics(before)
        ensures f !in Topics(now)
      {
        MetOnce(entries, n, prefix, depth, f);
      }
      TopicsConcat(before, now);
      DistinctConcat(Topics(before), Topics(now));
    }
  }

  lemma {:induction false} EntryTopicsDistinct(e: Entry, prefix: string, depth: nat)
    requires WellNamed([e])
    ensures Distinct(Topics(EventsOfEntry(e, prefix, depth)))
    decreases e, 1
  {
    if e.node.Dir? || e.node.DeniedDir? {
      var path := Relative(prefix, e.name);
      assert EventsOfEntry(e, prefix, depth) == EventsOfDir(e.node, path, depth + 1);
      if e.node.Dir? {
        assert [e][0].node.Dir?;
        TopicsDistinct(e.node.entries, path, depth + 1);
      }
    }
  }

  /** A topic met in the first `n` entries is not met in the next. */
  lemma MetOnce(entries: seq<Entry>, n: nat, prefix: string, depth: nat, f: MemoryFile)
    requires WellNamed(entries) && n < |entries|
    requires f in Topics(Events(entries[..n], prefix, depth))
    ensures f !in Topics(EventsOfEntry(entries[n], prefix, depth))
  {
    InTopics(Events(entries[..n], prefix, depth), f);
    InTopics(EventsOfEntry(entries[n], prefix, depth), f);
    InEvents(entries[..n], prefix, depth, Topic(f));
    var e :| e in entries[..n] && Topic(f) in EventsOfEntry(e, prefix, depth);
    var i :| 0 <= i < n && entries[i] == e;
    WellNamedPart(entries, i);
    WellNamedPart(entries, n);
    NameInPath(e, prefix, depth, f);
    if Topic(f) in EventsOfEntry(entries[n], prefix, depth) {
      NameInPath(entries[n], prefix, depth, f);
      assert false;
    }
  }

  /** The tree enumerated so that a given event is met first. */
  lemma {:induction false} ToFront(entries: seq<Entry>, prefix: string, depth: nat, event: Event)
    returns (two: seq<Entry>, rest: seq<Event>)
    requires event in Events(entries, prefix, depth)
    ensures Reordered(entries, two)
    ensures Events(two, prefix, depth) == [event] + rest
    decreases entries, 0
  {
    InEvents(entries, prefix, depth, event);
    var e :| e in entries && event in EventsOfEntry(e, prefix, depth);
    var i :| 0 <= i < |entries| && entries[i] == e;
    var first, own := EntryToFront(entries[i], prefix, depth, event);
    two := [first] + Without(entries, i);
    MovedReordered(entries, i, first);
    EventsConcat([first], Without(entries, i), prefix, depth);
    EventsOne(first, prefix, depth);
    var others := Events(Without(entries, i), prefix, depth);
    ConcatAssociates([event], own, others);
    rest := own + others;
  }

  lemma {:induction false} EntryToFront(e: Entry, prefix: string, depth: nat, event: Event)
    returns (first: Entry, rest: seq<Event>)
    requires event in EventsOfEntry(e, prefix, depth)
    ensures EntryReordered(e, first)
    ensures EventsOfEntry(first, prefix, depth) == [event] + rest
    decreases e, 1
  {
    if e.node.Dir? && depth < MAX_DEPTH {
      var path := Relative(prefix, e.name);
      assert EventsOfEntry(e, prefix, depth) == EventsOfDir(e.node, path, depth + 1);
      var two;
      two, rest := ToFront(e.node.entries, path, depth + 1, event);
      first := Entry(e.name, Dir(two));
      assert EventsOfEntry(first, prefix, depth) == EventsOfDir(first.node, path, depth + 1);
    } else {
      EntryReorderedSelf(e);
      first, rest := e, [];
    }
  }

  lemma MovedReordered(entries: seq<Entry>, i: nat, first: Entry)
    requires i < |entries| && EntryReordered(entries[i], first)
    ensures Reordered(entries, [first] + Without(entries, i))
  {
    PutFirst(entries, i);
    FirstReordered(entries[i], first, Without(entries, i));
  }

  lemma PutFirst(entries: seq<Entry>, i: nat)
    requires i < |entries|
    ensures multiset([entries[i]] + Without(entries, i)) == multiset(entries)
  {
    TakenOut(entries, i);
  }

  lemma FirstReordered(e: Entry, first: Entry, others: seq<Entry>)
    requires EntryReordered(e, first)
    ensures EachReordered([e] + others, [first] + others)
  {
    var mid, two := [e] + others, [first] + others;
    forall k | 0 <= k < |two|
      ensures EntryReordered(mid[k], two[k])
    {
      if k > 0 {
        EntryReorderedSelf(two[k]);
      }
    }
  }

  /** With one file too many, some topic is left out. */
  lemma LeftOut(entries: seq<Entry>) returns (f: MemoryFile)
    requires WellNamed(entries) && !AllFit(entries)
    ensures Topic(f) in Events(entries, "", 0) && IsTopic(entries, f) && f !in Given(entries)
  {
    var topics, room := Topics(Events(entries, "", 0)), MAX_FILES - |IndexFile(entries)|;
    TopicsDistinct(entries, "", 0);
    f := topics[room];
    assert f in topics;
    InTopics(Events(entries, "", 0), f);
    var names := WalkSound(entries, "", 0, f);
    TopicIsNotIndex(entries, f);
    assert f !in topics[..room];
  }

  /** What is met first is listed: the index leaves room for it. */
  lemma FirstIsListed(entries: seq<Entry>, f: MemoryFile, rest: seq<Event>)
    requires Events(entries, "", 0) == [Topic(f)] + rest
    ensures Has(ListingOf(entries), f, SamePath)
  {
    TopicsConcat([Topic(f)], rest);
    assert Topics([Topic(f)]) == [f] by {
      assert [Topic(f)][1..] == [];
    }
    assert Topics(Events(entries, "", 0))[0] == f;
    var given := Given(entries);
    assert given[|IndexFile(entries)|] == f;
    ListedOrders(given);
    assert f in given;
  }

  lemma NotListed(entries: seq<Entry>, f: MemoryFile)
    requires WellNamed(entries) && IsTopic(entries, f) && f !in Given(entries)
    ensures !Has(ListingOf(entries), f, SamePath)
  {
    ListedOrders(Given(entries));
    forall g | g in ListingOf(entries)
      ensures !SamePath(g, f)
    {
      GivenSound(entries, g);
      TopicIsNotIndex(entries, g);
      TopicIsNotIndex(entries, f);
      if IsTopic(entries, g) && g.path == f.path {
        OneFilePerPath(entries, f, g);
      }
    }
  }
}
