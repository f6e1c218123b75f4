/**
 What a listing says about the tree it was read from, without mentioning the walk.
 */
module MemoryScanLaws {
  import opened MemoryScan
  import opened Sequences
  import opened Sorting

  // ---------- the order of a listing ----------

  lemma {:induction false} StringLeTotal(a: string, b: string)
    ensures StringLe(a, b) || StringLe(b, a)
    ensures StringLe(a, b) && StringLe(b, a) ==> a == b
    decreases |a|
  {
    if a != "" && b != "" {
      StringLeTotal(a[1..], b[1..]);
      assert a == [a[0]] + a[1..] && b == [b[0]] + b[1..];
    }
  }

  lemma {:induction false} StringLeTransitive(a: string, b: string, c: string)
    requires StringLe(a, b) && StringLe(b, c)
    ensures StringLe(a, c)
    decreases |a|
  {
    if a != "" && a[0] == b[0] == c[0] {
      StringLeTransitive(a[1..], b[1..], c[1..]);
    }
  }

  lemma FileLeOrders()
    ensures Orders(FileLe, SamePath)
  {
    forall a, b
      ensures FileLe(a, b) || FileLe(b, a)
      ensures SamePath(a, b) <==> FileLe(a, b) && FileLe(b, a)
    {
      StringLeTotal(a.path, b.path);
    }
    forall a, b, c | FileLe(a, b) && FileLe(b, c)
      ensures FileLe(a, c)
    {
      if a.path != MEMORY_INDEX {
        StringLeTransitive(a.path, b.path, c.path);
      }
    }
  }

  /** Strictly increasing: the index first, no path twice. */
  ghost predicate StrictlyOrdered(files: seq<MemoryFile>) {
    Strict(files, FileLe, SamePath)
  }

  /** What a listing keeps of the files it was given. */
  lemma ListedOrders(files: seq<MemoryFile>)
    ensures StrictlyOrdered(Listed(files)) && Represents(Listed(files), files, SamePath)
  {
    FileLeOrders();
    SortDedup(files, FileLe, SamePath);
  }

  // ---------- the same order, said with positions ----------

  /** Lexicographically before: a proper prefix, or smaller where they first differ. */
  ghost predicate Before(a: string, b: string) {
    || (a <= b && a != b)
    || exists k :: DiffersAt(a, b, k)
  }

  predicate DiffersAt(a: string, b: string, k: nat) {
    k < |a| && k < |b| && a[..k] == b[..k] && a[k] < b[k]
  }

  lemma SameUntilThere(a: string, b: string, k: nat)
    requires DiffersAt(a, b, k) && k > 0
    ensures a[0] == b[0]
  {
    assert a[..k][0] == b[..k][0];
  }

  lemma DiffersLater(a: string, b: string, k: nat)
    requires a != "" && b != "" && a[0] == b[0]
    ensures DiffersAt(a, b, k + 1) <==> DiffersAt(a[1..], b[1..], k)
  {
    if k < |a[1..]| && k < |b[1..]| {
      assert a[..k + 1] == [a[0]] + a[1..][..k] && b[..k + 1] == [b[0]] + b[1..][..k];
      assert a[..k + 1][1..] == a[1..][..k] && b[..k + 1][1..] == b[1..][..k];
    }
  }

  lemma BeforeRest(a: string, b: string)
    requires a != "" && b != "" && a[0] == b[0]
    ensures Before(a, b) <==> Before(a[1..], b[1..])
  {
    assert a == [a[0]] + a[1..] && b == [b[0]] + b[1..];
    if k: nat :| DiffersAt(a, b, k) {
      assert k > 0;
      DiffersLater(a, b, k - 1);
    }
    if k: nat :| DiffersAt(a[1..], b[1..], k) {
      DiffersLater(a, b, k);
    }
  }

  lemma {:induction false} StringLeExactly(a: string, b: string)
    ensures StringLe(a, b) <==> a == b || Before(a, b)
    decreases |a|
  {
    if a != "" && b != "" {
      if a[0] == b[0] {
        StringLeExactly(a[1..], b[1..]);
        BeforeRest(a, b);
        assert a == [a[0]] + a[1..] && b == [b[0]] + b[1..];
      } else {
        assert a[0] < b[0] ==> DiffersAt(a, b, 0);
        forall k: nat | DiffersAt(a, b, k)
          ensures k == 0
        {
          if k > 0 {
            SameUntilThere(a, b, k);
          }
        }
      }
    }
  }

  /** A listing has the index nowhere but in front, and all else ascending by path. */
  lemma ListingAscends(entries: seq<Entry>, i: nat, j: nat)
    requires i < j < |ListingOf(entries)|
    ensures var files := ListingOf(entries);
            && files[j].path != MEMORY_INDEX
            && (files[i].path == MEMORY_INDEX ==> i == 0)
            && (files[i].path == MEMORY_INDEX || Before(files[i].path, files[j].path))
  {
    var files := ListingOf(entries);
    ListedOrders(FilesAfter(IndexFile(entries), Events(entries, "", 0)));
    Ascends(files, i, j);
  }

  lemma Ascends(files: seq<MemoryFile>, i: nat, j: nat)
    requires StrictlyOrdered(files) && i < j < |files|
    ensures files[j].path != MEMORY_INDEX
    ensures files[i].path == MEMORY_INDEX ==> i == 0
    ensures files[i].path == MEMORY_INDEX || Before(files[i].path, files[j].path)
  {
    assert FileLe(files[i], files[j]) && !SamePath(files[i], files[j]);
    assert i > 0 ==> FileLe(files[0], files[i]) && !SamePath(files[0], files[i]);
    StringLeExactly(files[i].path, files[j].path);
  }

  /** What is listed besides the index is named as Markdown. */
  lemma EndsInMdExactly(path: string)
    ensures EndsInMd(path) <==> exists stem :: path == stem + ".md"
  {
    if EndsInMd(path) {
      assert path == path[..|path| - 3] + ".md";
    }
    forall stem | path == stem + ".md"
      ensures EndsInMd(path)
    {
      assert path[|path| - 3..] == ".md";
    }
  }

  // ---------- the files of a tree ----------

  /** Following `names` from a directory leads to a regular file of that size. */
  ghost predicate Leads(entries: seq<Entry>, names: seq<string>, size: nat)
    decreases |names|
  {
    names != [] && exists e :: e in entries && e.name == names[0] && LeadsFrom(e, names, size)
  }

  ghost predicate LeadsFrom(e: Entry, names: seq<string>, size: nat)
    requires names != []
    decreases |names|, 0
  {
    if |names| == 1 then e.node == RegularFile(size)
    else e.node.Dir? && Leads(e.node.entries, names[1..], size)
  }

  function PathOf(prefix: string, names: seq<string>): string
    requires names != []
    decreases |names|
  {
    if |names| == 1 then Relative(prefix, names[0])
    else PathOf(Relative(prefix, names[0]), names[1..])
  }

  /** A regular Markdown file of the tree, other than the index. */
  ghost predicate IsTopic(entries: seq<Entry>, f: MemoryFile) {
    exists names :: names != [] && HasTopic(entries, "", names, f)
  }

  ghost predicate HasTopic(entries: seq<Entry>, prefix: string, names: seq<string>, f: MemoryFile)
    requires names != []
  {
    && Leads(entries, names, f.size)
    && f.path == PathOf(prefix, names)
    && f.path != MEMORY_INDEX
    && EndsInMd(f.path)
  }

  lemma {:induction false} InTopics(es: seq<Event>, f: MemoryFile)
    ensures f in Topics(es) <==> Topic(f) in es
  {
    if es != [] {
      InTopics(es[1..], f);
      assert forall e :: e in es <==> e == es[0] || e in es[1..];
    }
  }

  lemma {:induction false} InEvents(entries: seq<Entry>, prefix: string, depth: nat, event: Event)
    ensures event in Events(entries, prefix, depth) <==>
              exists e :: e in entries && event in EventsOfEntry(e, prefix, depth)
    decreases |entries|
  {
    if entries != [] {
      var init, last := entries[..|entries| - 1], entries[|entries| - 1];
      assert entries == init + [last];
      InEvents(init, prefix, depth, event);
      EventsAppend(init, last, prefix, depth);
      assert forall e :: e in entries <==> e in init || e == last;
    }
  }

  /** Every topic the walk meets is a file of the tree. */
  lemma {:induction false} WalkSound(entries: seq<Entry>, prefix: string, depth: nat, f: MemoryFile)
    returns (names: seq<string>)
    requires Topic(f) in Events(entries, prefix, depth)
    ensures names != [] && HasTopic(entries, prefix, names, f)
    decreases entries
  {
    InEvents(entries, prefix, depth, Topic(f));
    var e :| e in entries && Topic(f) in EventsOfEntry(e, prefix, depth);
    if e.node.RegularFile? {
      names := [e.name];
      assert LeadsFrom(e, names, f.size);
    } else {
      var path := Relative(prefix, e.name);
      assert e.node.Dir? || e.node.DeniedDir?;
      assert EventsOfEntry(e, prefix, depth) == EventsOfDir(e.node, path, depth + 1);
      var rest := WalkSound(e.node.entries, path, depth + 1, f);
      names := [e.name] + rest;
      assert names[1..] == rest;
      assert LeadsFrom(e, names, f.size);
    }
  }

  /** Unless something was too deep, every file of the tree is a topic it meets. */
  lemma {:induction false} WalkComplete(entries: seq<Entry>, prefix: string, depth: nat, names: seq<string>, f: MemoryFile)
    requires names != [] && HasTopic(entries, prefix, names, f)
    requires TooDeep !in Events(entries, prefix, depth)
    ensures Topic(f) in Events(entries, prefix, depth)
    decreases |names|
  {
    var e :| e in entries && e.name == names[0] && LeadsFrom(e, names, f.size);
    InEvents(entries, prefix, depth, Topic(f));
    InEvents(entries, prefix, depth, TooDeep);
    if |names| > 1 {
      var path := Relative(prefix, e.name);
      assert TooDeep !in EventsOfEntry(e, prefix, depth);
      assert EventsOfEntry(e, prefix, depth) == EventsOfDir(e.node, path, depth + 1);
      WalkComplete(e.node.entries, path, depth + 1, names[1..], f);
    }
    assert Topic(f) in EventsOfEntry(e, prefix, depth);
  }

  // ---------- when a scan fails ----------

  /** The events before the first refusal. */
  function BeforeRefusal(es: seq<Event>): seq<Event> {
    if es == [] || es[0].Refused? then [] else [es[0]] + BeforeRefusal(es[1..])
  }

  /** The first refusal is met while there is still room in the list. */
  predicate RefusedInRoom(es: seq<Event>, room: nat) {
    Refused in es && |Topics(BeforeRefusal(es))| <= room
  }

  lemma {:induction false} BeforeRefusalConcat(a: seq<Event>, b: seq<Event>)
    ensures BeforeRefusal(a + b) == if Refused in a then BeforeRefusal(a) else a + BeforeRefusal(b)
  {
    if a == [] {
      assert a + b == b;
    } else {
      assert (a + b)[0] == a[0] && (a + b)[1..] == a[1..] + b;
      BeforeRefusalConcat(a[1..], b);
      assert forall e :: e in a <==> e == a[0] || e in a[1..];
      assert [a[0]] + (a[1..] + BeforeRefusal(b)) == a + BeforeRefusal(b);
    }
  }

  lemma RefusedInRoomConcat(a: seq<Event>, b: seq<Event>, room: nat)
    ensures RefusedInRoom(a + b, room)
       <==> RefusedInRoom(a, room)
            || (Refused !in a && |Topics(a)| <= room && RefusedInRoom(b, room - |Topics(a)|))
  {
    RefusedInParts(a, b);
    TopicsBefore(a, b);
  }

  /** How many topics come before the first refusal. */
  lemma TopicsBefore(a: seq<Event>, b: seq<Event>)
    ensures |Topics(BeforeRefusal(a + b))|
         == if Refused in a then |Topics(BeforeRefusal(a))| else |Topics(a)| + |Topics(BeforeRefusal(b))|
  {
    BeforeRefusalConcat(a, b);
    TopicsConcat(a, BeforeRefusal(b));
  }

  lemma RefusedInParts(a: seq<Event>, b: seq<Event>)
    ensures Refused in a + b <==> Refused in a || Refused in b
  {}

  lemma {:induction false} TopicsBeforeRefusal(es: seq<Event>)
    ensures |Topics(BeforeRefusal(es))| <= |Topics(es)|
  {
    if es != [] && !es[0].Refused? {
      TopicsBeforeRefusal(es[1..]);
      assert BeforeRefusal(es)[1..] == BeforeRefusal(es[1..]);
    }
  }

  lemma {:induction false} FailsAtRefusal(entries: seq<Entry>, prefix: string, depth: nat, count: nat)
    requires count <= MAX_FILES && Fails(entries, prefix, depth, count)
    ensures Refused in Events(entries, prefix, depth)
    decreases entries, 0
  {
    var i :| 0 <= i < |entries| && FailsAt(entries, i, prefix, depth, count);
    FailsEntryAtRefusal(entries[i], prefix, depth, Filled(count, Events(entries[..i], prefix, depth)));
    assert entries[i] in entries;
    InEvents(entries, prefix, depth, Refused);
  }

  lemma {:induction false} FailsEntryAtRefusal(e: Entry, prefix: string, depth: nat, count: nat)
    requires count <= MAX_FILES && FailsEntry(e, prefix, depth, count)
    ensures Refused in EventsOfEntry(e, prefix, depth)
    decreases e, 1
  {
    if e.node.Dir? || e.node.DeniedDir? {
      var path := Relative(prefix, e.name);
      assert EventsOfEntry(e, prefix, depth) == EventsOfDir(e.node, path, depth + 1);
      assert FailsDir(e.node, path, depth + 1, count);
      if e.node.Dir? {
        FailsAtRefusal(e.node.entries, path, depth + 1, count);
      }
    }
  }

  lemma FailsLater(init: seq<Entry>, last: Entry, prefix: string, depth: nat, count: nat)
    requires count <= MAX_FILES && Fails(init, prefix, depth, count)
    ensures Fails(init + [last], prefix, depth, count)
  {
    var i :| 0 <= i < |init| && FailsAt(init, i, prefix, depth, count);
    var entries := init + [last];
    assert forall j :: 0 <= j <= i ==> entries[..j] == init[..j];
    assert FailsAt(entries, i, prefix, depth, count);
  }

  /** While the topics fit, nothing of the directory is left behind. */
  lemma RoomReaches(init: seq<Entry>, last: Entry, prefix: string, depth: nat, count: nat)
    requires count + |Topics(Events(init, prefix, depth))| <= MAX_FILES
    ensures Reached(init + [last], |init|, prefix, depth, count)
  {
    var entries := init + [last];
    forall j | 0 <= j < |init| && Listable(entries[j], prefix)
      ensures Filled(count, Events(entries[..j], prefix, depth)) < MAX_FILES
    {
      assert entries[..j] == init[..j];
      EventsStep(init, j, prefix, depth);
      TopicsConcat(Events(init[..j], prefix, depth), EventsOfEntry(init[j], prefix, depth));
      var rest := EventsRest(init, j + 1, prefix, depth);
      TopicsConcat(Events(init[..j + 1], prefix, depth), rest);
    }
  }

  /** A refusal met while there is still room ends the walk. */
  lemma {:induction false} RoomFails(entries: seq<Entry>, prefix: string, depth: nat, count: nat)
    requires count <= MAX_FILES && RefusedInRoom(Events(entries, prefix, depth), MAX_FILES - count)
    ensures Fails(entries, prefix, depth, count)
    decreases entries, 0
  {
    if entries != [] {
      var init, last := entries[..|entries| - 1], entries[|entries| - 1];
      assert entries == init + [last];
      var before := Events(init, prefix, depth);
      var room := MAX_FILES - count;
      RefusedInRoomConcat(before, EventsOfEntry(last, prefix, depth), room);
      if RefusedInRoom(before, room) {
        RoomFails(init, prefix, depth, count);
        FailsLater(init, last, prefix, depth, count);
      } else {
        RoomReaches(init, last, prefix, depth, count);
        RoomFailsEntry(last, prefix, depth, Filled(count, before));
        assert entries[..|init|] == init;
        assert FailsAt(entries, |init|, prefix, depth, count);
      }
    }
  }

  lemma {:induction false} RoomFailsEntry(e: Entry, prefix: string, depth: nat, count: nat)
    requires count <= MAX_FILES && RefusedInRoom(EventsOfEntry(e, prefix, depth), MAX_FILES - count)
    ensures FailsEntry(e, prefix, depth, count)
    decreases e, 1
  {
    var path := Relative(prefix, e.name);
    if e.node.Dir? || e.node.DeniedDir? {
      assert EventsOfEntry(e, prefix, depth) == EventsOfDir(e.node, path, depth + 1);
      assert TooDeep in [TooDeep] && Refused !in [TooDeep];
      assert depth < MAX_DEPTH;
      if e.node.Dir? {
        RoomFails(e.node.entries, path, depth + 1, count);
      }
    }
  }

  /** When all topics fit, a scan fails exactly when there is an entry that refuses to answer. */
  lemma FailsExactly(entries: seq<Entry>, prefix: string, depth: nat, count: nat)
    requires count + |Topics(Events(entries, prefix, depth))| <= MAX_FILES
    ensures Fails(entries, prefix, depth, count) <==> Refused in Events(entries, prefix, depth)
  {
    if Fails(entries, prefix, depth, count) {
      FailsAtRefusal(entries, prefix, depth, count);
    }
    if Refused in Events(entries, prefix, depth) {
      TopicsBeforeRefusal(Events(entries, prefix, depth));
      RoomFails(entries, prefix, depth, count);
    }
  }

  // ---------- the whole listing ----------

  lemma {:induction false} IndexOf(entries: seq<Entry>)
    ensures forall f :: f in IndexFile(entries) ==>
              f.path == MEMORY_INDEX && exists e :: e in entries && e.name == MEMORY_INDEX && e.node == RegularFile(f.size)
    ensures (forall e :: e in entries && e.name == MEMORY_INDEX ==> e.node.RegularFile?) ==>
            (exists e :: e in entries && e.name == MEMORY_INDEX) ==> IndexFile(entries) != []
  {
    if entries != [] {
      assert entries[0] in entries;
      assert forall e :: e in entries <==> e == entries[0] || e in entries[1..];
      if entries[0].name != MEMORY_INDEX {
        IndexOf(entries[1..]);
      }
    }
  }

  /**
   For every tree: the listing is strictly ordered with the index first, within the bound, and
   lists only the index and regular Markdown files of the tree; when it is not truncated it
   lists every one of them; and a present index is listed even when others are cut.
   */
  lemma ListingExactly(entries: seq<Entry>)
    ensures var files := ListingOf(entries);
            && StrictlyOrdered(files) && |files| <= MAX_FILES
            && (forall f :: f in files ==> f in IndexFile(entries) || IsTopic(entries, f))
            && (!TruncatedOf(entries) ==>
                  forall f :: IsTopic(entries, f) ==> Has(files, f, SamePath))
            && (IndexFile(entries) != [] ==> files != [] && files[0].path == MEMORY_INDEX)
  {
    ListedOrders(Given(entries));
    forall f | f in ListingOf(entries)
      ensures f in IndexFile(entries) || IsTopic(entries, f)
    {
      GivenSound(entries, f);
    }
    if !TruncatedOf(entries) {
      forall f | IsTopic(entries, f)
        ensures Has(ListingOf(entries), f, SamePath)
      {
        GivenComplete(entries, f);
      }
    }
    if IndexFile(entries) != [] {
      IndexKept(entries);
    }
  }

  /** The files that `scan` sorts. */
  function Given(entries: seq<Entry>): seq<MemoryFile> {
    FilesAfter(IndexFile(entries), Events(entries, "", 0))
  }

  lemma IndexKept(entries: seq<Entry>)
    requires IndexFile(entries) != []
    ensures ListingOf(entries) != [] && ListingOf(entries)[0].path == MEMORY_INDEX
  {
    ListedOrders(Given(entries));
    var index := IndexFile(entries)[0];
    assert Given(entries)[0] == index;
    IndexIsFirst(ListingOf(entries), index);
  }

  lemma GivenSound(entries: seq<Entry>, f: MemoryFile)
    requires f in Given(entries)
    ensures f in IndexFile(entries) || IsTopic(entries, f)
  {
    if f !in IndexFile(entries) {
      assert f in Topics(Events(entries, "", 0));
      InTopics(Events(entries, "", 0), f);
      var names := WalkSound(entries, "", 0, f);
    }
  }

  lemma GivenComplete(entries: seq<Entry>, f: MemoryFile)
    requires !TruncatedOf(entries) && IsTopic(entries, f)
    ensures f in Given(entries)
  {
    var names :| names != [] && HasTopic(entries, "", names, f);
    WalkComplete(entries, "", 0, names, f);
    InTopics(Events(entries, "", 0), f);
  }

  lemma IndexIsFirst(files: seq<MemoryFile>, index: MemoryFile)
    requires StrictlyOrdered(files) && Has(files, index, SamePath) && index.path == MEMORY_INDEX
    ensures files != [] && files[0].path == MEMORY_INDEX
  {
    var g :| g in files && SamePath(g, index);
    var k :| 0 <= k < |files| && files[k] == g;
    assert k == 0 || FileLe(files[0], files[k]);
  }

  // ---------- when a listing is truncated ----------

  /** There are directories nested `levels` deep. */
  predicate Nested(entries: seq<Entry>, levels: nat)
    decreases levels
  {
    || levels == 0
    || (levels == 1 && exists e :: e in entries && (e.node.Dir? || e.node.DeniedDir?))
    || (levels > 1 && exists e :: e in entries && e.node.Dir? && Nested(e.node.entries, levels - 1))
  }

  /** The walk meets something too deep exactly when directories are nested below its depth. */
  lemma {:induction false} TooDeepExactly(entries: seq<Entry>, prefix: string, depth: nat)
    requires depth <= MAX_DEPTH
    ensures TooDeep in Events(entries, prefix, depth) <==> Nested(entries, MAX_DEPTH + 1 - depth)
    decreases entries, 0
  {
    InEvents(entries, prefix, depth, TooDeep);
    forall e | e in entries
      ensures TooDeep in EventsOfEntry(e, prefix, depth) <==>
                if depth == MAX_DEPTH then e.node.Dir? || e.node.DeniedDir?
                else e.node.Dir? && Nested(e.node.entries, MAX_DEPTH - depth)
    {
      EntryTooDeep(e, prefix, depth);
    }
  }

  lemma {:induction false} EntryTooDeep(e: Entry, prefix: string, depth: nat)
    requires depth <= MAX_DEPTH
    ensures TooDeep in EventsOfEntry(e, prefix, depth) <==>
              if depth == MAX_DEPTH then e.node.Dir? || e.node.DeniedDir?
              else e.node.Dir? && Nested(e.node.entries, MAX_DEPTH - depth)
    decreases e, 1
  {
    var path := Relative(prefix, e.name);
    if e.node.Dir? || e.node.DeniedDir? {
      assert EventsOfEntry(e, prefix, depth) == EventsOfDir(e.node, path, depth + 1);
      if e.node.Dir? && depth < MAX_DEPTH {
        TooDeepExactly(e.node.entries, path, depth + 1);
      }
    }
  }

  /** A listing is truncated exactly when directories are nested too deep or there are too many files. */
  lemma TruncatedExactly(entries: seq<Entry>)
    ensures TruncatedOf(entries) <==>
              || Nested(entries, MAX_DEPTH + 1)
              || |IndexFile(entries)| + |Topics(Events(entries, "", 0))| > MAX_FILES
  {
    TooDeepExactly(entries, "", 0);
  }

  // ---------- what makes a path name one file ----------

  /** In every directory the names differ, and none is empty or holds a separator. */
  ghost predicate WellNamed(entries: seq<Entry>)
    decreases entries
  {
    && (forall i, j :: 0 <= i < j < |entries| ==> entries[i].name != entries[j].name)
    && (forall i :: 0 <= i < |entries| ==> Proper(entries[i].name))
    && (forall i :: 0 <= i < |entries| && entries[i].node.Dir? ==> WellNamed(entries[i].node.entries))
  }

  predicate Proper(name: string) {
    name != "" && '/' !in name
  }

  lemma SameNameSameEntry(entries: seq<Entry>, e: Entry, d: Entry)
    requires WellNamed(entries) && e in entries && d in entries && e.name == d.name
    ensures e == d
  {
    var i :| 0 <= i < |entries| && entries[i] == e;
    var j :| 0 <= j < |entries| && entries[j] == d;
  }

  lemma {:induction false} LeadsProperly(entries: seq<Entry>, names: seq<string>, size: nat)
    requires WellNamed(entries) && Leads(entries, names, size)
    ensures forall k :: 0 <= k < |names| ==> Proper(names[k])
    decreases |names|
  {
    var e :| e in entries && e.name == names[0] && LeadsFrom(e, names, size);
    var i :| 0 <= i < |entries| && entries[i] == e;
    if |names| > 1 {
      LeadsProperly(e.node.entries, names[1..], size);
      assert forall k :: 0 < k < |names| ==> names[k] == names[1..][k - 1];
    }
  }

  lemma {:induction false} LeadsToOne(entries: seq<Entry>, names: seq<string>, a: nat, b: nat)
    requires WellNamed(entries) && Leads(entries, names, a) && Leads(entries, names, b)
    ensures a == b
    decreases |names|
  {
    var e :| e in entries && e.name == names[0] && LeadsFrom(e, names, a);
    var d :| d in entries && d.name == names[0] && LeadsFrom(d, names, b);
    SameNameSameEntry(entries, e, d);
    var i :| 0 <= i < |entries| && entries[i] == e;
    if |names| > 1 {
      LeadsToOne(e.node.entries, names[1..], a, b);
    }
  }

  lemma OneNameSplits(prefix: string, name: string)
    requires Proper(name)
    ensures Relative(prefix, name) != ""
    ensures Split(Relative(prefix, name), '/') == (if prefix == "" then [] else Split(prefix, '/')) + [name]
  {
    SplitNoSeparator(name, '/');
    if prefix != "" {
      assert Relative(prefix, name) == prefix + ['/'] + name;
      SplitJoin(prefix, name, '/');
    }
  }

  /** Splitting a path gives its names back. */
  lemma {:induction false} PathSplits(prefix: string, names: seq<string>)
    requires names != [] && forall k :: 0 <= k < |names| ==> Proper(names[k])
    ensures Split(PathOf(prefix, names), '/') == (if prefix == "" then [] else Split(prefix, '/')) + names
    decreases |names|
  {
    OneNameSplits(prefix, names[0]);
    if |names| > 1 {
      PathSplits(Relative(prefix, names[0]), names[1..]);
      assert [names[0]] + names[1..] == names;
      ConcatAssociates(if prefix == "" then [] else Split(prefix, '/'), [names[0]], names[1..]);
    } else {
      assert names == [names[0]];
    }
  }

  /** A path names one file. */
  lemma OneFilePerPath(entries: seq<Entry>, f: MemoryFile, g: MemoryFile)
    requires WellNamed(entries) && IsTopic(entries, f) && IsTopic(entries, g) && f.path == g.path
    ensures f == g
  {
    var a :| a != [] && HasTopic(entries, "", a, f);
    var b :| b != [] && HasTopic(entries, "", b, g);
    LeadsProperly(entries, a, f.size);
    LeadsProperly(entries, b, g.size);
    PathSplits("", a);
    PathSplits("", b);
    assert [] + a == a && [] + b == b;
    LeadsToOne(entries, a, f.size, g.size);
  }

  /** The argument of `UntruncatedIsExact`, for any set of topics. */
  lemma ExactFrom(files: seq<MemoryFile>, index: seq<MemoryFile>, topic: MemoryFile -> bool, f: MemoryFile)
    requires forall g :: g in files ==> g in index || topic(g)
    requires forall g :: topic(g) ==> g.path != MEMORY_INDEX && Has(files, g, SamePath)
    requires forall g, g' :: topic(g) && topic(g') && g.path == g'.path ==> g == g'
    requires |index| <= 1 && forall g :: g in index ==> g.path == MEMORY_INDEX
    requires index != [] ==> files != [] && files[0].path == MEMORY_INDEX
    ensures f in files <==> f in index || topic(f)
  {
    if topic(f) {
      var g :| g in files && g.path == f.path;
      assert topic(g);
    }
    if f in index {
      assert files[0] in files;
      assert files[0] in index;
      assert f == index[0] == files[0];
    }
  }

  /** An untruncated listing is exactly the index and the topics. */
  lemma UntruncatedIsExact(entries: seq<Entry>, f: MemoryFile)
    requires WellNamed(entries) && !TruncatedOf(entries)
    ensures f in ListingOf(entries) <==> f in IndexFile(entries) || IsTopic(entries, f)
  {
    ListingExactly(entries);
    IndexOf(entries);
    var topic := (g: MemoryFile) => IsTopic(entries, g);
    forall g | topic(g)
      ensures g.path != MEMORY_INDEX
    {
      TopicIsNotIndex(entries, g);
    }
    forall g, g' | topic(g) && topic(g') && g.path == g'.path
      ensures g == g'
    {
      OneFilePerPath(entries, g, g');
    }
    ExactFrom(ListingOf(entries), IndexFile(entries), topic, f);
  }

  lemma TopicIsNotIndex(entries: seq<Entry>, f: MemoryFile)
    ensures IsTopic(entries, f) ==> f.path != MEMORY_INDEX
    ensures f in IndexFile(entries) ==> f.path == MEMORY_INDEX
  {
    IndexOf(entries);
  }
}
