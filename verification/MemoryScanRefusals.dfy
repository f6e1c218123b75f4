/**
 Which trees can be walked without failing, in some order of their entries.

 A walk that meets an entry refusing to answer fails, unless it has left the directory before
 because the list was full.  Whether some order gets past every refusal is decided here from
 the tree alone.
 */
module MemoryScanRefusals {
  import opened MemoryScan
  import opened MemoryScanLaws
  import opened MemoryScanOrder
  import opened Sequences
  import opened Sorting

  // ---------- from the tree alone ----------

  /** The entry refuses to answer, or an entry below it does. */
  predicate Troubled(e: Entry, prefix: string, depth: nat) {
    Refused in EventsOfEntry(e, prefix, depth)
  }

  /** The entries that are troubled, or those that are not. */
  function Sift(entries: seq<Entry>, prefix: string, depth: nat, troubled: bool): seq<Entry> {
    if entries == [] then []
    else
      var init, last := entries[..|entries| - 1], entries[|entries| - 1];
      Sift(init, prefix, depth, troubled) + if Troubled(last, prefix, depth) == troubled then [last] else []
  }

  /** How many files can be listed without meeting trouble. */
  function QuietTopics(entries: seq<Entry>, prefix: string, depth: nat): nat {
    |Topics(Events(Sift(entries, prefix, depth, false), prefix, depth))|
  }

  predicate SomeTrouble(entries: seq<Entry>, prefix: string, depth: nat) {
    exists e :: e in entries && Troubled(e, prefix, depth)
  }

  predicate SomeFile(entries: seq<Entry>, prefix: string) {
    exists e :: e in entries && Listable(e, prefix)
  }

  function Capped(n: nat): (c: nat)
    ensures c <= MAX_FILES
  {
    if n < MAX_FILES then n else MAX_FILES
  }

  /** The files listed when all that is quiet has been met, and when one file of it is still to come. */
  function AfterQuiet(entries: seq<Entry>, prefix: string, depth: nat, count: nat): (c: nat)
    ensures c <= MAX_FILES
  {
    Capped(count + QuietTopics(entries, prefix, depth))
  }

  function BeforeLastFile(entries: seq<Entry>, prefix: string, depth: nat, count: nat): (c: nat)
    ensures c <= MAX_FILES
  {
    var quiet := QuietTopics(entries, prefix, depth);
    Capped(count + if quiet > 0 then quiet - 1 else 0)
  }

  /**
   Whether a directory can be walked without failing, with `count` files listed before.  Either
   nothing in it is troubled; or a file of its own can come when the list is full, and the rest
   is left; or every troubled directory can be walked, one to fill the list and the others after.
   */
  predicate Passable(entries: seq<Entry>, prefix: string, depth: nat, count: nat)
    requires count <= MAX_FILES
    decreases entries, 1
  {
    || !SomeTrouble(entries, prefix, depth)
    || (&& SomeFile(entries, prefix)
        && var c := BeforeLastFile(entries, prefix, depth, count);
        c == MAX_FILES
        || exists e :: e in entries && Troubled(e, prefix, depth) && PassableBelow(e, prefix, depth, c))
    || (&& (forall e :: e in entries && Troubled(e, prefix, depth) ==> PassableBelow(e, prefix, depth, MAX_FILES))
        && exists e :: e in entries && Troubled(e, prefix, depth)
                       && PassableBelow(e, prefix, depth, AfterQuiet(entries, prefix, depth, count)))
  }

  /** A troubled entry can be passed only if it is a directory. */
  predicate PassableBelow(e: Entry, prefix: string, depth: nat, count: nat)
    requires count <= MAX_FILES
    decreases e, 0
  {
    e.node.Dir? && Passable(e.node.entries, Relative(prefix, e.name), depth + 1, count)
  }

  // ---------- the orders themselves ----------

  /** In some order the walk does not fail. */
  ghost predicate CanPass(entries: seq<Entry>, prefix: string, depth: nat, count: nat)
    requires count <= MAX_FILES
  {
    exists two :: Reordered(entries, two) && !Fails(two, prefix, depth, count)
  }

  ghost predicate CanPassEntry(e: Entry, prefix: string, depth: nat, count: nat)
    requires count <= MAX_FILES
  {
    exists d :: EntryReordered(e, d) && !FailsEntry(d, prefix, depth, count)
  }

  lemma TroubledStep(e: Entry, prefix: string, depth: nat, count: nat)
    requires count <= MAX_FILES && Troubled(e, prefix, depth)
    ensures CanPassEntry(e, prefix, depth, count)
       <==> e.node.Dir? && CanPass(e.node.entries, Relative(prefix, e.name), depth + 1, count)
  {
    var path := Relative(prefix, e.name);
    TroubledWithin(e, prefix, depth);
    if CanPassEntry(e, prefix, depth, count) {
      var d :| EntryReordered(e, d) && !FailsEntry(d, prefix, depth, count);
      if e.node.Dir? {
        assert !FailsDir(d.node, path, depth + 1, count);
        assert Reordered(e.node.entries, d.node.entries) && !Fails(d.node.entries, path, depth + 1, count);
      }
    }
    if e.node.Dir? && CanPass(e.node.entries, path, depth + 1, count) {
      var two :| Reordered(e.node.entries, two) && !Fails(two, path, depth + 1, count);
      var d := Entry(e.name, Dir(two));
      assert EntryReordered(e, d) && !FailsEntry(d, prefix, depth, count);
    }
  }

  /** What is troubled is not too deep, and fails at once unless it is a directory. */
  lemma TroubledWithin(e: Entry, prefix: string, depth: nat)
    requires Troubled(e, prefix, depth)
    ensures e.node.Dir? || e.node.DeniedDir? ==> depth < MAX_DEPTH
    ensures !e.node.Dir? ==> forall count: nat :: count <= MAX_FILES ==> FailsEntry(e, prefix, depth, count)
  {
    if e.node.Dir? || e.node.DeniedDir? {
      assert EventsOfEntry(e, prefix, depth) == EventsOfDir(e.node, Relative(prefix, e.name), depth + 1);
      assert Refused !in [TooDeep];
    }
  }

  // ---------- what more files listed, and more entries, do to a walk ----------

  lemma {:induction false} FailsWithFewer(entries: seq<Entry>, prefix: string, depth: nat, fewer: nat, more: nat)
    requires fewer <= more <= MAX_FILES && Fails(entries, prefix, depth, more)
    ensures Fails(entries, prefix, depth, fewer)
    decreases entries, 0
  {
    var i :| 0 <= i < |entries| && FailsAt(entries, i, prefix, depth, more);
    var before := Events(entries[..i], prefix, depth);
    EntryFailsWithFewer(entries[i], prefix, depth, Filled(fewer, before), Filled(more, before));
    assert FailsAt(entries, i, prefix, depth, fewer);
  }

  lemma {:induction false} EntryFailsWithFewer(e: Entry, prefix: string, depth: nat, fewer: nat, more: nat)
    requires fewer <= more <= MAX_FILES && FailsEntry(e, prefix, depth, more)
    ensures FailsEntry(e, prefix, depth, fewer)
    decreases e, 1
  {
    if e.node.Dir? {
      FailsWithFewer(e.node.entries, Relative(prefix, e.name), depth + 1, fewer, more);
    }
  }

  lemma CanPassWithMore(e: Entry, prefix: string, depth: nat, fewer: nat, more: nat)
    requires fewer <= more <= MAX_FILES && CanPassEntry(e, prefix, depth, fewer)
    ensures CanPassEntry(e, prefix, depth, more)
  {
    var d :| EntryReordered(e, d) && !FailsEntry(d, prefix, depth, fewer);
    if FailsEntry(d, prefix, depth, more) {
      EntryFailsWithFewer(d, prefix, depth, fewer, more);
    }
  }

  lemma FilledConcat(count: nat, a: seq<Event>, b: seq<Event>)
    requires count <= MAX_FILES
    ensures Filled(count, a + b) == Filled(Filled(count, a), b)
  {
    TopicsConcat(a, b);
  }

  /** The walk of a directory goes on after `a`. */
  predicate GoesPast(a: seq<Entry>, prefix: string, depth: nat, count: nat)
    requires count <= MAX_FILES
  {
    Reached(a, |a|, prefix, depth, count)
  }

  lemma ReachedBeyond(a: seq<Entry>, b: seq<Entry>, i: nat, prefix: string, depth: nat, count: nat)
    requires count <= MAX_FILES && |a| <= i <= |a| + |b| && Reached(a + b, i, prefix, depth, count)
    ensures GoesPast(a, prefix, depth, count)
    ensures Reached(b, i - |a|, prefix, depth, Filled(count, Events(a, prefix, depth)))
  {
    var all := a + b;
    forall j | 0 <= j < |a| && Listable(a[j], prefix)
      ensures Filled(count, Events(a[..j], prefix, depth)) < MAX_FILES
    {
      assert all[..j] == a[..j] && all[j] == a[j];
    }
    forall j | 0 <= j < i - |a| && Listable(b[j], prefix)
      ensures Filled(Filled(count, Events(a, prefix, depth)), Events(b[..j], prefix, depth)) < MAX_FILES
    {
      assert all[|a| + j] == b[j];
      BeyondFilled(a, b, j, prefix, depth, count);
    }
  }

  lemma BeyondFilled(a: seq<Entry>, b: seq<Entry>, j: nat, prefix: string, depth: nat, count: nat)
    requires count <= MAX_FILES && j <= |b|
    ensures Filled(count, Events((a + b)[..|a| + j], prefix, depth))
         == Filled(Filled(count, Events(a, prefix, depth)), Events(b[..j], prefix, depth))
  {
    assert (a + b)[..|a| + j] == a + b[..j];
    EventsConcat(a, b[..j], prefix, depth);
    FilledConcat(count, Events(a, prefix, depth), Events(b[..j], prefix, depth));
  }

  /** A walk in two parts fails in neither, or leaves in the first. */
  lemma PassesInParts(a: seq<Entry>, b: seq<Entry>, prefix: string, depth: nat, count: nat)
    requires count <= MAX_FILES && !Fails(a, prefix, depth, count)
    requires GoesPast(a, prefix, depth, count) ==> !Fails(b, prefix, depth, Filled(count, Events(a, prefix, depth)))
    ensures !Fails(a + b, prefix, depth, count)
  {
    forall i | 0 <= i < |a + b|
      ensures !FailsAt(a + b, i, prefix, depth, count)
    {
      if FailsAt(a + b, i, prefix, depth, count) {
        if i < |a| {
          FailsInFirst(a, b, i, prefix, depth, count);
        } else {
          FailsInSecond(a, b, i, prefix, depth, count);
        }
      }
    }
  }

  lemma FailsInSecond(a: seq<Entry>, b: seq<Entry>, i: nat, prefix: string, depth: nat, count: nat)
    requires count <= MAX_FILES && |a| <= i < |a| + |b| && FailsAt(a + b, i, prefix, depth, count)
    ensures GoesPast(a, prefix, depth, count)
    ensures Fails(b, prefix, depth, Filled(count, Events(a, prefix, depth)))
  {
    ReachedBeyond(a, b, i, prefix, depth, count);
    BeyondFilled(a, b, i - |a|, prefix, depth, count);
    assert (a + b)[i] == b[i - |a|];
    assert FailsAt(b, i - |a|, prefix, depth, Filled(count, Events(a, prefix, depth)));
  }

  lemma FailsInFirst(a: seq<Entry>, b: seq<Entry>, i: nat, prefix: string, depth: nat, count: nat)
    requires count <= MAX_FILES && i < |a| && FailsAt(a + b, i, prefix, depth, count)
    ensures FailsAt(a, i, prefix, depth, count)
  {
    var all := a + b;
    assert forall j :: 0 <= j <= i ==> all[..j] == a[..j];
    assert forall j :: 0 <= j <= i ==> all[j] == a[j];
  }

  lemma QuietPasses(entries: seq<Entry>, prefix: string, depth: nat, count: nat)
    requires count <= MAX_FILES && !SomeTrouble(entries, prefix, depth)
    ensures !Fails(entries, prefix, depth, count)
  {
    if Fails(entries, prefix, depth, count) {
      FailsAtRefusal(entries, prefix, depth, count);
      InEvents(entries, prefix, depth, Refused);
      assert SomeTrouble(entries, prefix, depth);
    }
  }

  lemma OnePasses(e: Entry, prefix: string, depth: nat, count: nat)
    requires count <= MAX_FILES && !FailsEntry(e, prefix, depth, count)
    ensures !Fails([e], prefix, depth, count)
  {
    assert [e][..0] == [];
  }

  /** Trouble is got past only with the list full. */
  lemma PassedFull(e: Entry, prefix: string, depth: nat, count: nat)
    requires count <= MAX_FILES && Troubled(e, prefix, depth) && !FailsEntry(e, prefix, depth, count)
    ensures Filled(count, EventsOfEntry(e, prefix, depth)) == MAX_FILES
  {
    var es := EventsOfEntry(e, prefix, depth);
    if RefusedInRoom(es, MAX_FILES - count) {
      RoomFailsEntry(e, prefix, depth, count);
    }
    TopicsBeforeRefusal(es);
  }

  /** A file that comes when the list is full ends the walk of its directory. */
  lemma FileStops(before: seq<Entry>, f: Entry, rest: seq<Entry>, prefix: string, depth: nat, count: nat)
    requires count <= MAX_FILES && !Fails(before, prefix, depth, count) && Listable(f, prefix)
    requires Filled(count, Events(before, prefix, depth)) == MAX_FILES
    ensures !Fails(before + [f] + rest, prefix, depth, count)
  {
    OnePasses(f, prefix, depth, MAX_FILES);
    PassesInParts(before, [f], prefix, depth, count);
    var upTo := before + [f];
    assert upTo[..|before|] == before && upTo[|before|] == f;
    assert !GoesPast(upTo, prefix, depth, count);
    PassesInParts(upTo, rest, prefix, depth, count);
  }

  // ---------- sifting, and reordering ----------

  lemma {:induction false} SiftCount(entries: seq<Entry>, prefix: string, depth: nat, troubled: bool, e: Entry)
    ensures multiset(Sift(entries, prefix, depth, troubled))[e]
         == if Troubled(e, prefix, depth) == troubled then multiset(entries)[e] else 0
    decreases |entries|
  {
    if entries != [] {
      var init, last := entries[..|entries| - 1], entries[|entries| - 1];
      assert entries == init + [last];
      SiftCount(init, prefix, depth, troubled, e);
    }
  }

  lemma Sifted(entries: seq<Entry>, prefix: string, depth: nat, troubled: bool)
    ensures forall e :: e in Sift(entries, prefix, depth, troubled)
                        <==> e in entries && Troubled(e, prefix, depth) == troubled
  {
    forall e
      ensures e in Sift(entries, prefix, depth, troubled) <==> e in entries && Troubled(e, prefix, depth) == troubled
    {
      SiftCount(entries, prefix, depth, troubled, e);
      assert e in entries <==> e in multiset(entries);
    }
  }

  /** The quiet and the troubled together are all. */
  lemma SiftAll(entries: seq<Entry>, prefix: string, depth: nat)
    ensures multiset(Sift(entries, prefix, depth, false)) + multiset(Sift(entries, prefix, depth, true))
         == multiset(entries)
  {
    forall e
      ensures (multiset(Sift(entries, prefix, depth, false)) + multiset(Sift(entries, prefix, depth, true)))[e]
           == multiset(entries)[e]
    {
      SiftCount(entries, prefix, depth, false, e);
      SiftCount(entries, prefix, depth, true, e);
    }
  }

  lemma SiftPermuted(a: seq<Entry>, b: seq<Entry>, prefix: string, depth: nat, troubled: bool)
    requires multiset(a) == multiset(b)
    ensures multiset(Sift(a, prefix, depth, troubled)) == multiset(Sift(b, prefix, depth, troubled))
  {
    forall e
      ensures multiset(Sift(a, prefix, depth, troubled))[e] == multiset(Sift(b, prefix, depth, troubled))[e]
    {
      SiftCount(a, prefix, depth, troubled, e);
      SiftCount(b, prefix, depth, troubled, e);
    }
  }

  /** What a reordered entry keeps. */
  lemma SameKind(a: Entry, b: Entry, prefix: string, depth: nat)
    requires EntryReordered(a, b)
    ensures Troubled(a, prefix, depth) <==> Troubled(b, prefix, depth)
    ensures Listable(a, prefix) <==> Listable(b, prefix)
  {
    SameEventsEntry(a, b, prefix, depth);
    SameElements(EventsOfEntry(a, prefix, depth), EventsOfEntry(b, prefix, depth));
  }

  lemma {:induction false} SiftEach(mid: seq<Entry>, two: seq<Entry>, prefix: string, depth: nat, troubled: bool)
    requires EachReordered(mid, two)
    ensures EachReordered(Sift(mid, prefix, depth, troubled), Sift(two, prefix, depth, troubled))
    decreases |two|
  {
    if two != [] {
      var n := |two| - 1;
      SiftEach(mid[..n], two[..n], prefix, depth, troubled);
      assert EntryReordered(mid[n], two[n]);
      SameKind(mid[n], two[n], prefix, depth);
      var a, b := Sift(mid[..n], prefix, depth, troubled), Sift(two[..n], prefix, depth, troubled);
      if Troubled(two[n], prefix, depth) == troubled {
        EachOne(mid[n], two[n]);
        EachConcat(a, [mid[n]], b, [two[n]]);
      } else {
        assert a + [] == a && b + [] == b;
      }
    }
  }

  lemma EachOne(a: Entry, b: Entry)
    requires EntryReordered(a, b)
    ensures EachReordered([a], [b])
  {}

  lemma EachSelf(entries: seq<Entry>)
    ensures EachReordered(entries, entries)
  {
    forall i | 0 <= i < |entries|
      ensures EntryReordered(entries[i], entries[i])
    {
      EntryReorderedSelf(entries[i]);
    }
  }

  lemma EachConcat(a: seq<Entry>, b: seq<Entry>, a': seq<Entry>, b': seq<Entry>)
    requires EachReordered(a, a') && EachReordered(b, b')
    ensures EachReordered(a + b, a' + b')
  {
    var mid, two := a + b, a' + b';
    forall i | 0 <= i < |two|
      ensures EntryReordered(mid[i], two[i])
    {
      if i >= |a'| {
        assert EntryReordered(b[i - |a|], b'[i - |a'|]);
      } else {
        assert EntryReordered(a[i], a'[i]);
      }
    }
  }

  lemma QuietReordered(one: seq<Entry>, two: seq<Entry>, prefix: string, depth: nat)
    requires Reordered(one, two)
    ensures QuietTopics(one, prefix, depth) == QuietTopics(two, prefix, depth)
  {
    var mid: seq<Entry> :| multiset(mid) == multiset(one) && EachReordered(mid, two);
    SiftPermuted(one, mid, prefix, depth, false);
    SiftEach(mid, two, prefix, depth, false);
    var a, b := Sift(one, prefix, depth, false), Sift(two, prefix, depth, false);
    assert Reordered(a, b);
    SameEvents(a, b, prefix, depth);
    SameTopics(Events(a, prefix, depth), Events(b, prefix, depth));
  }

  /** Every entry of one tree is one of the other, and conversely. */
  lemma Counterpart(one: seq<Entry>, two: seq<Entry>, i: nat) returns (e: Entry)
    requires Reordered(one, two) && i < |two|
    ensures e in one && EntryReordered(e, two[i])
  {
    var mid: seq<Entry> :| multiset(mid) == multiset(one) && EachReordered(mid, two);
    SameElements(one, mid);
    assert EntryReordered(mid[i], two[i]);
    e := mid[i];
    assert e in mid;
  }

  lemma CounterpartBack(one: seq<Entry>, two: seq<Entry>, e: Entry) returns (i: nat)
    requires Reordered(one, two) && e in one
    ensures i < |two| && EntryReordered(e, two[i])
  {
    var mid: seq<Entry> :| multiset(mid) == multiset(one) && EachReordered(mid, two);
    SameElements(one, mid);
    i :| 0 <= i < |mid| && mid[i] == e;
    assert EntryReordered(mid[i], two[i]);
  }

  // ---------- what an order that passes needs ----------

  lemma {:induction false} SiftConcat(a: seq<Entry>, b: seq<Entry>, prefix: string, depth: nat, troubled: bool)
    ensures Sift(a + b, prefix, depth, troubled) == Sift(a, prefix, depth, troubled) + Sift(b, prefix, depth, troubled)
    decreases |b|
  {
    if b == [] {
      assert a + b == a;
    } else {
      var init, last := b[..|b| - 1], b[|b| - 1];
      assert (a + b)[..|a + b| - 1] == a + init;
      SiftConcat(a, init, prefix, depth, troubled);
      ConcatAssociates(Sift(a, prefix, depth, troubled), Sift(init, prefix, depth, troubled),
                       if Troubled(last, prefix, depth) == troubled then [last] else []);
    }
  }

  lemma {:induction false} SiftQuiet(a: seq<Entry>, prefix: string, depth: nat)
    requires forall j :: 0 <= j < |a| ==> !Troubled(a[j], prefix, depth)
    ensures Sift(a, prefix, depth, false) == a
    decreases |a|
  {
    if a != [] {
      SiftQuiet(a[..|a| - 1], prefix, depth);
      assert a == a[..|a| - 1] + [a[|a| - 1]];
    }
  }

  lemma FileIsQuiet(f: Entry, prefix: string, depth: nat)
    requires Listable(f, prefix)
    ensures EventsOfEntry(f, prefix, depth) == [Topic(MemoryFile(Relative(prefix, f.name), f.node.size))]
    ensures !Troubled(f, prefix, depth)
  {}

  lemma QuietParts(a: seq<Entry>, b: seq<Entry>, prefix: string, depth: nat)
    requires forall j :: 0 <= j < |a| ==> !Troubled(a[j], prefix, depth)
    ensures QuietTopics(a + b, prefix, depth) == |Topics(Events(a, prefix, depth))| + QuietTopics(b, prefix, depth)
  {
    var later := Sift(b, prefix, depth, false);
    SiftConcat(a, b, prefix, depth, false);
    SiftQuiet(a, prefix, depth);
    EventsConcat(a, later, prefix, depth);
    TopicsConcat(Events(a, prefix, depth), Events(later, prefix, depth));
  }

  /** A quiet beginning lists no more than is quiet, and one less when a file comes after it. */
  lemma QuietBeginning(two: seq<Entry>, n: nat, prefix: string, depth: nat)
    requires n <= |two| && forall j :: 0 <= j < n ==> !Troubled(two[j], prefix, depth)
    ensures |Topics(Events(two[..n], prefix, depth))| <= QuietTopics(two, prefix, depth)
    ensures (exists k :: n <= k < |two| && Listable(two[k], prefix)) ==>
              |Topics(Events(two[..n], prefix, depth))| < QuietTopics(two, prefix, depth)
  {
    QuietHalves(two, n, prefix, depth);
    if k :| n <= k < |two| && Listable(two[k], prefix) {
      LaterFile(two, n, k, prefix, depth);
    }
  }

  lemma QuietHalves(two: seq<Entry>, n: nat, prefix: string, depth: nat)
    requires n <= |two| && forall j :: 0 <= j < n ==> !Troubled(two[j], prefix, depth)
    ensures QuietTopics(two, prefix, depth)
         == |Topics(Events(two[..n], prefix, depth))| + QuietTopics(two[n..], prefix, depth)
  {
    var a, b := two[..n], two[n..];
    assert two == a + b;
    QuietParts(a, b, prefix, depth);
  }

  lemma LaterFile(two: seq<Entry>, n: nat, k: nat, prefix: string, depth: nat)
    requires n <= k < |two| && Listable(two[k], prefix)
    ensures QuietTopics(two[n..], prefix, depth) > 0
  {
    assert two[n..][k - n] == two[k];
    QuietFile(two[n..], two[k], prefix, depth);
  }

  lemma QuietFile(entries: seq<Entry>, f: Entry, prefix: string, depth: nat)
    requires f in entries && Listable(f, prefix)
    ensures QuietTopics(entries, prefix, depth) > 0
  {
    FileIsQuiet(f, prefix, depth);
    Sifted(entries, prefix, depth, false);
    var quiet := Sift(entries, prefix, depth, false);
    var file := MemoryFile(Relative(prefix, f.name), f.node.size);
    assert Topic(file) in EventsOfEntry(f, prefix, depth);
    InEvents(quiet, prefix, depth, Topic(file));
    InTopics(Events(quiet, prefix, depth), file);
  }

  lemma {:induction false} FirstTroubled(two: seq<Entry>, prefix: string, depth: nat) returns (i: nat)
    requires SomeTrouble(two, prefix, depth)
    ensures i < |two| && Troubled(two[i], prefix, depth)
    ensures forall j :: 0 <= j < i ==> !Troubled(two[j], prefix, depth)
    decreases |two|
  {
    var init := two[..|two| - 1];
    if SomeTrouble(init, prefix, depth) {
      i := FirstTroubled(init, prefix, depth);
    } else {
      i := |two| - 1;
      assert forall j :: 0 <= j < i ==> two[j] in init;
      assert two == init + [two[i]];
    }
  }

  /** The two ways past the first trouble, said of the orders. */
  ghost predicate ByFile(entries: seq<Entry>, prefix: string, depth: nat, count: nat) {
    && SomeFile(entries, prefix)
    && var c := BeforeLastFile(entries, prefix, depth, count);
    c == MAX_FILES
    || exists e :: e in entries && Troubled(e, prefix, depth) && CanPassEntry(e, prefix, depth, c)
  }

  ghost predicate ByAll(entries: seq<Entry>, prefix: string, depth: nat, count: nat) {
    && (forall e :: e in entries && Troubled(e, prefix, depth) ==> CanPassEntry(e, prefix, depth, MAX_FILES))
    && exists e :: e in entries && Troubled(e, prefix, depth)
                   && CanPassEntry(e, prefix, depth, AfterQuiet(entries, prefix, depth, count))
  }

  /** An order that passes does so in one of the two ways. */
  lemma PassesOneWay(one: seq<Entry>, two: seq<Entry>, prefix: string, depth: nat, count: nat)
    requires count <= MAX_FILES && Reordered(one, two) && !Fails(two, prefix, depth, count)
    requires SomeTrouble(one, prefix, depth)
    ensures ByFile(one, prefix, depth, count) || ByAll(one, prefix, depth, count)
  {
    TroubleElsewhere(one, two, prefix, depth);
    QuietReordered(one, two, prefix, depth);
    var i := FirstTroubled(two, prefix, depth);
    var e := Counterpart(one, two, i);
    SameKind(e, two[i], prefix, depth);
    assert !FailsAt(two, i, prefix, depth, count);
    if !Reached(two, i, prefix, depth, count) {
      LeftBefore(one, two, i, prefix, depth, count);
    } else {
      QuietBeginning(two, i, prefix, depth);
      var c := Filled(count, Events(two[..i], prefix, depth));
      assert CanPassEntry(e, prefix, depth, c);
      if k :| i <= k < |two| && Listable(two[k], prefix) {
        FileElsewhere(one, two, k, prefix, depth);
        CanPassWithMore(e, prefix, depth, c, BeforeLastFile(one, prefix, depth, count));
      } else {
        CanPassWithMore(e, prefix, depth, c, AfterQuiet(one, prefix, depth, count));
        NoneLeft(one, two, i, prefix, depth, count);
      }
    }
  }

  lemma TroubleElsewhere(one: seq<Entry>, two: seq<Entry>, prefix: string, depth: nat)
    requires Reordered(one, two) && SomeTrouble(one, prefix, depth)
    ensures SomeTrouble(two, prefix, depth)
  {
    var e :| e in one && Troubled(e, prefix, depth);
    var i := CounterpartBack(one, two, e);
    SameKind(e, two[i], prefix, depth);
    assert two[i] in two;
  }

  lemma FileElsewhere(one: seq<Entry>, two: seq<Entry>, k: nat, prefix: string, depth: nat)
    requires Reordered(one, two) && k < |two| && Listable(two[k], prefix)
    ensures SomeFile(one, prefix)
  {
    var f := Counterpart(one, two, k);
    SameKind(f, two[k], prefix, depth);
  }

  /** The walk left before the first trouble: a file came when only quiet entries had filled the list. */
  lemma LeftBefore(one: seq<Entry>, two: seq<Entry>, i: nat, prefix: string, depth: nat, count: nat)
    requires count <= MAX_FILES && Reordered(one, two) && i <= |two|
    requires forall j :: 0 <= j < i ==> !Troubled(two[j], prefix, depth)
    requires !Reached(two, i, prefix, depth, count)
    ensures ByFile(one, prefix, depth, count)
  {
    var j :| 0 <= j < i && Listable(two[j], prefix) && Filled(count, Events(two[..j], prefix, depth)) >= MAX_FILES;
    QuietBeginning(two, j, prefix, depth);
    QuietReordered(one, two, prefix, depth);
    FileElsewhere(one, two, j, prefix, depth);
  }

  /** With no file to leave by, every other trouble was passed too. */
  lemma NoneLeft(one: seq<Entry>, two: seq<Entry>, i: nat, prefix: string, depth: nat, count: nat)
    requires count <= MAX_FILES && Reordered(one, two) && i < |two| && !Fails(two, prefix, depth, count)
    requires forall j :: 0 <= j < i ==> !Troubled(two[j], prefix, depth)
    requires Reached(two, i, prefix, depth, count)
    requires forall k :: i <= k < |two| ==> !Listable(two[k], prefix)
    ensures forall e :: e in one && Troubled(e, prefix, depth) ==> CanPassEntry(e, prefix, depth, MAX_FILES)
  {
    forall e | e in one && Troubled(e, prefix, depth)
      ensures CanPassEntry(e, prefix, depth, MAX_FILES)
    {
      var k := CounterpartBack(one, two, e);
      SameKind(e, two[k], prefix, depth);
      assert Reached(two, k, prefix, depth, count);
      assert !FailsAt(two, k, prefix, depth, count);
      var c := Filled(count, Events(two[..k], prefix, depth));
      assert CanPassEntry(e, prefix, depth, c);
      CanPassWithMore(e, prefix, depth, c, MAX_FILES);
    }
  }

  // ---------- and orders that pass in each way ----------

  lemma ReorderedFrom(one: seq<Entry>, mid: seq<Entry>, two: seq<Entry>)
    requires multiset(mid) == multiset(one) && EachReordered(mid, two)
    ensures Reordered(one, two)
  {}

  /** The list without one of its elements. */
  lemma TakeOne(entries: seq<Entry>, e: Entry) returns (rest: seq<Entry>)
    requires e in entries
    ensures multiset(rest) + multiset{e} == multiset(entries)
    ensures forall x :: x in rest ==> x in entries
  {
    var k :| 0 <= k < |entries| && entries[k] == e;
    rest := Without(entries, k);
    TakenOut(entries, k);
  }

  /** All that is quiet but the file `f`. */
  lemma QuietWithout(entries: seq<Entry>, f: Entry, prefix: string, depth: nat) returns (quiet: seq<Entry>)
    requires f in entries && Listable(f, prefix)
    ensures multiset(quiet) + multiset{f} + multiset(Sift(entries, prefix, depth, true)) == multiset(entries)
    ensures !SomeTrouble(quiet, prefix, depth)
    ensures |Topics(Events(quiet, prefix, depth))| + 1 == QuietTopics(entries, prefix, depth)
  {
    FileIsQuiet(f, prefix, depth);
    Sifted(entries, prefix, depth, false);
    SiftAll(entries, prefix, depth);
    quiet := TakeOne(Sift(entries, prefix, depth, false), f);
    OneFileLess(Sift(entries, prefix, depth, false), quiet, f, prefix, depth);
  }

  lemma OneFileLess(all: seq<Entry>, rest: seq<Entry>, f: Entry, prefix: string, depth: nat)
    requires multiset(rest) + multiset{f} == multiset(all) && Listable(f, prefix)
    ensures |Topics(Events(rest, prefix, depth))| + 1 == |Topics(Events(all, prefix, depth))|
  {
    var es, file := Events(rest, prefix, depth), EventsOfEntry(f, prefix, depth);
    FileIsQuiet(f, prefix, depth);
    assert multiset(rest + [f]) == multiset(all);
    EventsPermuted(rest + [f], all, prefix, depth);
    EventsAppend(rest, f, prefix, depth);
    SameTopics(es + file, Events(all, prefix, depth));
    TopicsConcat(es, file);
    OneTopic(file);
  }

  lemma OneTopic(es: seq<Event>)
    requires |es| == 1 && es[0].Topic?
    ensures |Topics(es)| == 1
  {
    assert es[1..] == [];
  }

  /** The quiet entries first, then one troubled directory: the list is full. */
  lemma QuietThenOne(quiet: seq<Entry>, e: Entry, prefix: string, depth: nat, count: nat) returns (d: Entry)
    requires count <= MAX_FILES && !SomeTrouble(quiet, prefix, depth) && Troubled(e, prefix, depth)
    requires CanPassEntry(e, prefix, depth, Filled(count, Events(quiet, prefix, depth)))
    ensures EachReordered(quiet + [e], quiet + [d])
    ensures !Fails(quiet + [d], prefix, depth, count)
    ensures Filled(count, Events(quiet + [d], prefix, depth)) == MAX_FILES
  {
    var c := Filled(count, Events(quiet, prefix, depth));
    d :| EntryReordered(e, d) && !FailsEntry(d, prefix, depth, c);
    SameKind(e, d, prefix, depth);
    EachSelf(quiet);
    EachOne(e, d);
    EachConcat(quiet, [e], quiet, [d]);
    QuietPasses(quiet, prefix, depth, count);
    OnePasses(d, prefix, depth, c);
    PassesInParts(quiet, [d], prefix, depth, count);
    PassedFull(d, prefix, depth, c);
    EventsAppend(quiet, d, prefix, depth);
    FilledConcat(count, Events(quiet, prefix, depth), EventsOfEntry(d, prefix, depth));
  }

  /** The troubled entries but one. */
  lemma TakeTrouble(one: seq<Entry>, e: Entry, prefix: string, depth: nat) returns (rest: seq<Entry>)
    requires e in one && Troubled(e, prefix, depth)
    ensures multiset(rest) + multiset{e} == multiset(Sift(one, prefix, depth, true))
    ensures forall x :: x in rest ==> x in one && Troubled(x, prefix, depth)
  {
    Sifted(one, prefix, depth, true);
    rest := TakeOne(Sift(one, prefix, depth, true), e);
  }

  lemma Regroup(quiet: seq<Entry>, e: Entry, f: multiset<Entry>, rest: seq<Entry>, troubled: multiset<Entry>, all: multiset<Entry>)
    requires multiset(quiet) + f + troubled == all && multiset(rest) + multiset{e} == troubled
    ensures multiset(quiet + [e]) + f + multiset(rest) == all
  {
    assert multiset(quiet + [e]) == multiset(quiet) + multiset{e};
  }

  lemma FilePasses(one: seq<Entry>, prefix: string, depth: nat, count: nat)
    requires count <= MAX_FILES && ByFile(one, prefix, depth, count)
    ensures CanPass(one, prefix, depth, count)
  {
    var f :| f in one && Listable(f, prefix);
    var c := BeforeLastFile(one, prefix, depth, count);
    if c == MAX_FILES {
      FileAfterQuiet(one, f, prefix, depth, count);
    } else {
      var e :| e in one && Troubled(e, prefix, depth) && CanPassEntry(e, prefix, depth, c);
      FileAfterOne(one, f, e, prefix, depth, count);
    }
  }

  lemma FileAfterQuiet(one: seq<Entry>, f: Entry, prefix: string, depth: nat, count: nat)
    requires count <= MAX_FILES && f in one && Listable(f, prefix)
    requires BeforeLastFile(one, prefix, depth, count) == MAX_FILES
    ensures CanPass(one, prefix, depth, count)
  {
    var quiet := QuietWithout(one, f, prefix, depth);
    QuietPasses(quiet, prefix, depth, count);
    EachSelf(quiet);
    FileThenRest(one, quiet, quiet, f, Sift(one, prefix, depth, true), prefix, depth, count);
  }

  lemma FileAfterOne(one: seq<Entry>, f: Entry, e: Entry, prefix: string, depth: nat, count: nat)
    requires count <= MAX_FILES && f in one && Listable(f, prefix)
    requires e in one && Troubled(e, prefix, depth)
    requires CanPassEntry(e, prefix, depth, BeforeLastFile(one, prefix, depth, count))
    ensures CanPass(one, prefix, depth, count)
  {
    var quiet := QuietWithout(one, f, prefix, depth);
    var rest := TakeTrouble(one, e, prefix, depth);
    assert Filled(count, Events(quiet, prefix, depth)) == BeforeLastFile(one, prefix, depth, count);
    var d := QuietThenOne(quiet, e, prefix, depth, count);
    Regroup(quiet, e, multiset{f}, rest, multiset(Sift(one, prefix, depth, true)), multiset(one));
    FileThenRest(one, quiet + [e], quiet + [d], f, rest, prefix, depth, count);
  }

  /** With the list full, a file of the directory and then all the rest. */
  lemma FileThenRest(one: seq<Entry>, before: seq<Entry>, before': seq<Entry>, f: Entry, rest: seq<Entry>,
                     prefix: string, depth: nat, count: nat)
    requires count <= MAX_FILES && Listable(f, prefix)
    requires multiset(before) + multiset{f} + multiset(rest) == multiset(one)
    requires EachReordered(before, before') && !Fails(before', prefix, depth, count)
    requires Filled(count, Events(before', prefix, depth)) == MAX_FILES
    ensures CanPass(one, prefix, depth, count)
  {
    FileStops(before', f, rest, prefix, depth, count);
    EachSelf([f]);
    EachSelf(rest);
    EachConcat(before, [f], before', [f]);
    EachConcat(before + [f], rest, before' + [f], rest);
    assert multiset(before + [f] + rest) == multiset(before) + multiset{f} + multiset(rest);
    ReorderedFrom(one, before + [f] + rest, before' + [f] + rest);
  }

  /** Entries that can all be passed with the list full can be passed one after another. */
  lemma {:induction false} EachPasses(entries: seq<Entry>, prefix: string, depth: nat) returns (two: seq<Entry>)
    requires forall e :: e in entries ==> CanPassEntry(e, prefix, depth, MAX_FILES)
    ensures EachReordered(entries, two) && !Fails(two, prefix, depth, MAX_FILES)
    decreases |entries|
  {
    if entries == [] {
      two := [];
    } else {
      var init, last := entries[..|entries| - 1], entries[|entries| - 1];
      assert entries == init + [last];
      var front := EachPasses(init, prefix, depth);
      assert last in entries;
      var d :| EntryReordered(last, d) && !FailsEntry(d, prefix, depth, MAX_FILES);
      two := front + [d];
      EachOne(last, d);
      EachConcat(init, [last], front, [d]);
      OnePasses(d, prefix, depth, MAX_FILES);
      PassesInParts(front, [d], prefix, depth, MAX_FILES);
    }
  }

  lemma AllPass(one: seq<Entry>, prefix: string, depth: nat, count: nat)
    requires count <= MAX_FILES && ByAll(one, prefix, depth, count)
    ensures CanPass(one, prefix, depth, count)
  {
    var e :| e in one && Troubled(e, prefix, depth) && CanPassEntry(e, prefix, depth, AfterQuiet(one, prefix, depth, count));
    var rest := TakeTrouble(one, e, prefix, depth);
    var others := EachPasses(rest, prefix, depth);
    QuietOneRest(one, e, rest, others, prefix, depth, count);
  }

  lemma QuietOneRest(one: seq<Entry>, e: Entry, rest: seq<Entry>, rest': seq<Entry>, prefix: string, depth: nat, count: nat)
    requires count <= MAX_FILES && Troubled(e, prefix, depth)
    requires CanPassEntry(e, prefix, depth, AfterQuiet(one, prefix, depth, count))
    requires multiset(rest) + multiset{e} == multiset(Sift(one, prefix, depth, true))
    requires EachReordered(rest, rest') && !Fails(rest', prefix, depth, MAX_FILES)
    ensures CanPass(one, prefix, depth, count)
  {
    var quiet := Sift(one, prefix, depth, false);
    Sifted(one, prefix, depth, false);
    assert Filled(count, Events(quiet, prefix, depth)) == AfterQuiet(one, prefix, depth, count);
    var d := QuietThenOne(quiet, e, prefix, depth, count);
    RegroupAll(one, e, rest, prefix, depth);
    OneThenRest(one, quiet + [e], quiet + [d], rest, rest', prefix, depth, count);
  }

  lemma RegroupAll(one: seq<Entry>, e: Entry, rest: seq<Entry>, prefix: string, depth: nat)
    requires multiset(rest) + multiset{e} == multiset(Sift(one, prefix, depth, true))
    ensures multiset(Sift(one, prefix, depth, false) + [e]) + multiset(rest) == multiset(one)
  {
    SiftAll(one, prefix, depth);
    Regroup(Sift(one, prefix, depth, false), e, multiset{}, rest, multiset(Sift(one, prefix, depth, true)), multiset(one));
  }

  lemma OneThenRest(one: seq<Entry>, before: seq<Entry>, before': seq<Entry>, rest: seq<Entry>, rest': seq<Entry>,
                    prefix: string, depth: nat, count: nat)
    requires count <= MAX_FILES && multiset(before) + multiset(rest) == multiset(one)
    requires EachReordered(before, before') && !Fails(before', prefix, depth, count)
    requires Filled(count, Events(before', prefix, depth)) == MAX_FILES
    requires EachReordered(rest, rest') && !Fails(rest', prefix, depth, MAX_FILES)
    ensures CanPass(one, prefix, depth, count)
  {
    PassesInParts(before', rest', prefix, depth, count);
    EachConcat(before, rest, before', rest');
    assert multiset(before + rest) == multiset(before) + multiset(rest);
    ReorderedFrom(one, before + rest, before' + rest');
  }

  // ---------- the condition is exact ----------

  /** Some order gets a directory walked without failing exactly when the tree says so. */
  lemma {:induction false} PassableExactly(entries: seq<Entry>, prefix: string, depth: nat, count: nat)
    requires count <= MAX_FILES
    ensures Passable(entries, prefix, depth, count) <==> CanPass(entries, prefix, depth, count)
    decreases entries, 1
  {
    if !SomeTrouble(entries, prefix, depth) {
      QuietPasses(entries, prefix, depth, count);
      EachSelf(entries);
      ReorderedFrom(entries, entries, entries);
    } else {
      forall e, c: nat | e in entries && Troubled(e, prefix, depth) && c <= MAX_FILES
        ensures PassableBelow(e, prefix, depth, c) <==> CanPassEntry(e, prefix, depth, c)
      {
        PassableBelowExactly(e, prefix, depth, c);
      }
      if ByFile(entries, prefix, depth, count) {
        FilePasses(entries, prefix, depth, count);
      }
      if ByAll(entries, prefix, depth, count) {
        AllPass(entries, prefix, depth, count);
      }
      if CanPass(entries, prefix, depth, count) {
        var two :| Reordered(entries, two) && !Fails(two, prefix, depth, count);
        PassesOneWay(entries, two, prefix, depth, count);
      }
    }
  }

  lemma {:induction false} PassableBelowExactly(e: Entry, prefix: string, depth: nat, count: nat)
    requires count <= MAX_FILES && Troubled(e, prefix, depth)
    ensures PassableBelow(e, prefix, depth, count) <==> CanPassEntry(e, prefix, depth, count)
    decreases e, 0
  {
    TroubledStep(e, prefix, depth, count);
    if e.node.Dir? {
      PassableExactly(e.node.entries, Relative(prefix, e.name), depth + 1, count);
    }
  }
}
