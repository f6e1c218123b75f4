/**
 Backward paging over an append-only transcript
 (crates/nession-claude-code/src/conversation.rs).

 A transcript is a byte string.  A record is a line: it begins at the first byte or just
 after a newline, and it is complete once its own newline has been written.  The reader
 works backwards in chunks; the specification is one split of the bytes before `end`.

 Whether a line is blank is a parameter (`blank`), since the source asks Unicode `trim`.
 */
module Paging {
  import opened ByteStrings
  import opened Sequences
  import opened Wrappers

  const NL: byte := 10

  datatype Record = Record(offset: nat, text: Bytes)

  datatype Selected = Selected(
    records: seq<Record>,
    nextOffset: Option<nat>,
    hasMore: bool,
    partialTail: bool)

  // ---------- specification: one split ----------

  /** The lines but the last, blank ones dropped, each at its byte offset. */
  function Collect(lines: seq<Bytes>, base: nat, blank: Bytes -> bool): (r: seq<Record>)
    decreases |lines|
  {
    if |lines| <= 1 then []
    else
      (if blank(lines[0]) then [] else [Record(base, lines[0])])
      + Collect(lines[1..], base + |lines[0]| + 1, blank)
  }

  /** Every complete non-blank record of `b`, oldest first; `b` begins at offset `base`. */
  function Records(b: Bytes, base: nat, blank: Bytes -> bool): seq<Record> {
    Collect(Split(b, NL), base, blank)
  }

  /** What follows the last newline of `b`. */
  function Tail(b: Bytes): Bytes {
    var lines := Split(b, NL);
    lines[|lines| - 1]
  }

  /** The one-shot page: the newest `limit` of the records before `end`. */
  function Page(file: Bytes, fileLen: nat, end: nat, limit: nat, blank: Bytes -> bool): Selected
    requires end <= fileLen <= |file|
  {
    var all := Records(file[..end], 0, blank);
    var older := if |all| <= limit then 0 else |all| - limit;
    Selected(
      all[older..],
      if older > 0 && limit > 0 then Some(all[older].offset) else None,
      older > 0,
      end == fileLen && end > 0 && !blank(Tail(file[..end])))
  }

  /** A record may begin at `o`. */
  predicate Boundary(file: Bytes, o: nat) {
    o <= |file| && (o == 0 || file[o - 1] == NL)
  }

  // ---------- the chunked reader ----------

  /** `align_to_record`: the greatest boundary at or before `from`. */
  method AlignToRecord(file: Bytes, from: nat) returns (start: nat)
    requires from <= |file|
    ensures start <= from && Boundary(file, start)
    ensures forall o: nat :: start < o <= from ==> !Boundary(file, o)
  {
    if from == 0 {
      return 0;
    }
    var cursor := from;
    while cursor > 0
      invariant 0 <= cursor <= from
      invariant forall o: nat :: cursor < o <= from ==> !Boundary(file, o)
    {
      cursor := cursor - 1;
      if file[cursor] == NL {
        return cursor + 1;
      }
    }
    return 0;
  }

  /** One chunk: its complete non-blank lines in order, and the piece after its last newline. */
  method ScanChunk(text: Bytes, start: nat, blank: Bytes -> bool) returns (chunk: seq<Record>, last: Bytes)
    ensures chunk == Records(text, start, blank)
    ensures last == Tail(text)
  {
    var lines := Split(text, NL);
    var lastIndex := |lines| - 1;
    var offset: nat := start;
    chunk := [];
    var index: nat := 0;
    while index < lastIndex
      invariant 0 <= index <= lastIndex
      invariant chunk + Collect(lines[index..], offset + (if index > 0 then 1 else 0), blank)
             == Collect(lines, start, blank)
    {
      if index > 0 {
        offset := offset + 1;
      }
      CollectStep(chunk, lines, index, offset, blank);
      var line := lines[index];
      var lineStart := offset;
      offset := offset + |line|;
      if !blank(line) {
        chunk := chunk + [Record(lineStart, line)];
      }
      index := index + 1;
    }
    last := lines[lastIndex];
  }

  lemma CollectStep(chunk: seq<Record>, lines: seq<Bytes>, index: nat, base: nat, blank: Bytes -> bool)
    requires index < |lines| - 1
    ensures chunk + Collect(lines[index..], base, blank)
         == (if blank(lines[index]) then chunk else chunk + [Record(base, lines[index])])
            + Collect(lines[index + 1..], base + |lines[index]| + 1, blank)
  {
    assert lines[index..][1..] == lines[index + 1..];
    var rest := Collect(lines[index + 1..], base + |lines[index]| + 1, blank);
    ConcatAssociates(chunk, [Record(base, lines[index])], rest);
    assert [] + rest == rest;
  }

  /** What the loop knows: `records`, newest first, are the records between `cursor` and `end`. */
  predicate Progress(file: Bytes, cursor: nat, end: nat, records: seq<Record>, blank: Bytes -> bool) {
    && cursor <= end <= |file|
    && (cursor == end || Boundary(file, cursor))
    && Rev(records) == Records(file[cursor..end], cursor, blank)
  }

  /** The body of the reading loop: one aligned chunk, put behind the newer records. */
  method ReadChunk(file: Bytes, cursor: nat, ghost end: nat, records: seq<Record>, chunkSize: nat, blank: Bytes -> bool)
    returns (start: nat, longer: seq<Record>, last: Bytes)
    requires 0 < cursor && chunkSize >= 1
    requires Progress(file, cursor, end, records, blank)
    ensures start < cursor && Progress(file, start, end, longer, blank)
    ensures cursor == end ==> last == Tail(file[..end])
  {
    start := AlignToRecord(file, if cursor >= chunkSize then cursor - chunkSize else 0);
    var chunk;
    chunk, last := ScanChunk(file[start..cursor], start, blank);
    var back := Reverse(chunk);
    longer := records + back;
    OneMoreChunk(file, start, cursor, end, records, back, blank);
    if cursor == end {
      TailFromBoundary(file, start, end);
    }
  }

  /** The reading loop of `select_records`; `records` is newest first. */
  method ReadBackwards(file: Bytes, fileLen: nat, end: nat, limit: nat, chunkSize: nat, blank: Bytes -> bool)
    returns (records: seq<Record>, partialTail: bool, ghost cursor: nat)
    requires end <= fileLen <= |file| && chunkSize >= 1
    ensures Progress(file, cursor, end, records, blank)
    ensures cursor == 0 || |records| > limit
    ensures partialTail == (end > 0 && end == fileLen && !blank(Tail(file[..end])))
  {
    records := [];
    var at: nat := end;
    partialTail := false;
    var firstChunk := true;
    assert file[end..end] == [];

    while at > 0 && |records| <= limit
      invariant Progress(file, at, end, records, blank)
      invariant firstChunk <==> at == end
      invariant firstChunk ==> records == []
      invariant partialTail == (!firstChunk && end == fileLen && !blank(Tail(file[..end])))
    {
      var start, longer, last := ReadChunk(file, at, end, records, chunkSize, blank);
      if end == fileLen && !blank(last) && firstChunk {
        partialTail := true;
      }
      records := longer;
      firstChunk := false;
      at := start;
    }
    cursor := at;
  }

  /** `select_records`, for any chunk size of at least one byte. */
  method SelectRecords(file: Bytes, fileLen: nat, end: nat, limit: nat, chunkSize: nat, blank: Bytes -> bool)
    returns (sel: Selected)
    requires end <= fileLen <= |file| && chunkSize >= 1
    ensures sel == Page(file, fileLen, end, limit, blank)
  {
    var records, partialTail, cursor := ReadBackwards(file, fileLen, end, limit, chunkSize, blank);
    sel := TakeNewest(records, limit, partialTail);
    NewestAreThePage(file, cursor, end, records, limit, sel.records, blank);
  }

  /** The page off the front of the newest-first list, oldest first. */
  method TakeNewest(records: seq<Record>, limit: nat, partialTail: bool) returns (sel: Selected)
    ensures sel.records == Rev(records[..if |records| < limit then |records| else limit])
    ensures sel.hasMore == (|records| > limit)
    ensures sel.nextOffset
         == if sel.hasMore && sel.records != [] then Some(sel.records[0].offset) else None
    ensures sel.partialTail == partialTail
  {
    var take := if |records| < limit then |records| else limit;
    var page := Reverse(records[..take]);
    var rest := records[take..];
    sel := Selected(
      page,
      if rest == [] then None else if page == [] then None else Some(page[0].offset),
      rest != [],
      partialTail);
  }

  lemma OneMoreChunk(file: Bytes, start: nat, cursor: nat, end: nat,
                     records: seq<Record>, back: seq<Record>, blank: Bytes -> bool)
    requires Progress(file, cursor, end, records, blank)
    requires start <= cursor && Boundary(file, start)
    requires Rev(back) == Records(file[start..cursor], start, blank)
    ensures Progress(file, start, end, records + back, blank)
  {
    ChunkJoins(file, start, cursor, end, blank);
    RevConcat(records, back);
  }

  /** Enough has been read once the file's start or `limit + 1` records have been reached. */
  lemma NewestAreThePage(file: Bytes, cursor: nat, end: nat, records: seq<Record>,
                         limit: nat, page: seq<Record>, blank: Bytes -> bool)
    requires Progress(file, cursor, end, records, blank)
    requires cursor == 0 || |records| > limit
    requires page == Rev(records[..if |records| < limit then |records| else limit])
    ensures var all := Records(file[..end], 0, blank);
            var older := if |all| <= limit then 0 else |all| - limit;
            && (older > 0 <==> |records| > limit)
            && page == all[older..]
  {
    var all := Records(file[..end], 0, blank);
    var before := Records(file[..cursor], 0, blank);
    var take := if |records| < limit then |records| else limit;
    assert all == before + Rev(records) by {
      RecordsBefore(file, cursor, end, blank);
    }
    if cursor == 0 {
      assert file[..cursor] == [];
      RecordsEmpty(0, blank);
    }
    assert all[|all| - take..] == Rev(records)[|records| - take..] == page;
  }

  // ---------- splitting at a boundary ----------

  lemma RecordsEmpty(base: nat, blank: Bytes -> bool)
    ensures Records([], base, blank) == []
  {}

  predicate EndsClean(b: Bytes) {
    b == [] || b[|b| - 1] == NL
  }

  /** How many bytes the complete lines take, newlines included. */
  function Span(lines: seq<Bytes>): nat {
    if |lines| <= 1 then 0 else |lines[0]| + 1 + Span(lines[1..])
  }

  lemma {:induction false} SplitSpan(x: Bytes)
    ensures Span(Split(x, NL)) + |Tail(x)| == |x|
  {
    if x != [] {
      SplitSpan(x[1..]);
      var r := Split(x[1..], NL);
      if x[0] == NL {
        assert ([[]] + r)[1..] == r;
      } else {
        var longer := [x[0]] + r[0];
        assert ([longer] + r[1..])[1..] == r[1..];
        assert |r| == 1 ==> Tail(x) == longer;
        assert |r| > 1 ==> Tail(x) == Tail(x[1..]);
      }
    }
  }

  lemma {:induction false} CleanTail(x: Bytes)
    requires EndsClean(x)
    ensures Tail(x) == []
  {
    if x != [] {
      CleanTail(x[1..]);
      if x[0] != NL {
        SplitEndsWithLong(x[1..], NL);
      }
    }
  }

  lemma {:induction false} CollectConcat(a: seq<Bytes>, last: Bytes, b: seq<Bytes>, base: nat, blank: Bytes -> bool)
    requires |b| >= 1
    ensures Collect(a + b, base, blank)
         == Collect(a + [last], base, blank) + Collect(b, base + Span(a + [last]), blank)
    decreases |a|
  {
    if a == [] {
      assert a + b == b && a + [last] == [last];
    } else {
      assert (a + b)[1..] == a[1..] + b;
      assert (a + [last])[1..] == a[1..] + [last];
      var next := base + |a[0]| + 1;
      CollectConcat(a[1..], last, b, next, blank);
      ConcatAssociates(if blank(a[0]) then [] else [Record(base, a[0])],
                       Collect(a[1..] + [last], next, blank), Collect(b, base + Span(a + [last]), blank));
    }
  }

  /** Records are compositional at a record boundary, offsets included. */
  lemma RecordsConcat(x: Bytes, y: Bytes, base: nat, blank: Bytes -> bool)
    requires EndsClean(x)
    ensures Records(x + y, base, blank) == Records(x, base, blank) + Records(y, base + |x|, blank)
  {
    var s, t := Split(x, NL), Split(y, NL);
    var init, last := s[..|s| - 1], s[|s| - 1];
    assert s == init + [last];
    assert Split(x + y, NL) == init + t by {
      SplitConcat(x, y, NL);
    }
    assert Span(s) == |x| by {
      SplitSpan(x);
      CleanTail(x);
    }
    CollectConcat(init, last, t, base, blank);
  }

  lemma ChunkJoins(file: Bytes, start: nat, cursor: nat, end: nat, blank: Bytes -> bool)
    requires start <= cursor <= end <= |file|
    requires cursor == end || Boundary(file, cursor)
    ensures Records(file[start..end], start, blank)
         == Records(file[start..cursor], start, blank) + Records(file[cursor..end], cursor, blank)
  {
    var x, y := file[start..cursor], file[cursor..end];
    assert file[start..end] == x + y;
    if cursor == end {
      assert x + y == x;
      RecordsEmpty(cursor, blank);
    } else {
      RecordsConcat(x, y, start, blank);
    }
  }

  /** Everything before the cursor is strictly older than everything read so far. */
  lemma RecordsBefore(file: Bytes, cursor: nat, end: nat, blank: Bytes -> bool)
    requires cursor <= end <= |file|
    requires cursor == end || Boundary(file, cursor)
    ensures Records(file[..end], 0, blank)
         == Records(file[..cursor], 0, blank) + Records(file[cursor..end], cursor, blank)
  {
    ChunkJoins(file, 0, cursor, end, blank);
    assert file[0..end] == file[..end] && file[0..cursor] == file[..cursor];
  }

  lemma TailFromBoundary(file: Bytes, start: nat, end: nat)
    requires start <= end <= |file| && Boundary(file, start)
    ensures Tail(file[start..end]) == Tail(file[..end])
  {
    SplitConcat(file[..start], file[start..end], NL);
    assert file[..end] == file[..start] + file[start..end];
  }
}
