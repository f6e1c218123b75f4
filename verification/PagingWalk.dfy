/**
 What a reader of whole transcripts relies on: the specification of `Paging` lists exactly
 the complete non-blank lines, and following the cursors reads each of them once, while the
 file may keep growing between requests.
 */
module PagingWalk {
  import opened ByteStrings
  import opened Paging
  import opened Sequences

  // ---------- which records there are ----------

  /** `r` is a complete non-blank line of `b`, where `b` begins at offset `base`. */
  predicate IsRecord(b: Bytes, base: nat, blank: Bytes -> bool, r: Record) {
    && base <= r.offset
    && var i := r.offset - base;
    && i + |r.text| < |b|
    && Boundary(b, i)
    && b[i..i + |r.text|] == r.text
    && NL !in r.text
    && b[i + |r.text|] == NL
    && !blank(r.text)
  }

  lemma FirstLine(b: Bytes, k: nat, base: nat, blank: Bytes -> bool)
    requires k < |b| && b[k] == NL && NL !in b[..k]
    ensures Records(b, base, blank)
         == (if blank(b[..k]) then [] else [Record(base, b[..k])]) + Records(b[k + 1..], base + k + 1, blank)
  {
    SplitFirst(b, k);
    var rest := Split(b[k + 1..], NL);
    assert ([b[..k]] + rest)[1..] == rest;
  }

  lemma SplitFirst(b: Bytes, k: nat)
    requires k < |b| && b[k] == NL && NL !in b[..k]
    ensures Split(b, NL) == [b[..k]] + Split(b[k + 1..], NL)
  {
    var line, rest := b[..k], b[k..];
    assert b == line + rest;
    SplitPrefix(line, rest, NL);
    assert rest[1..] == b[k + 1..];
  }

  /** The first newline, or the length. */
  function FirstNewline(b: Bytes): (k: nat)
    ensures k <= |b| && NL !in b[..k]
    ensures k < |b| ==> b[k] == NL
  {
    if b == [] || b[0] == NL then 0
    else
      var k := FirstNewline(b[1..]) + 1;
      assert b[..k] == [b[0]] + b[1..][..k - 1];
      k
  }

  /** Soundness and completeness of the specification, for every byte string. */
  lemma {:induction false} RecordsExact(b: Bytes, base: nat, blank: Bytes -> bool, r: Record)
    ensures r in Records(b, base, blank) <==> IsRecord(b, base, blank, r)
    decreases |b|
  {
    var k := FirstNewline(b);
    if k == |b| {
      assert b[..k] == b;
      SplitNoSeparator(b, NL);
    } else {
      FirstLine(b, k, base, blank);
      RecordsExact(b[k + 1..], base + k + 1, blank, r);
      LaterRecord(b, k, base, blank, r);
    }
  }

  lemma LaterRecord(b: Bytes, k: nat, base: nat, blank: Bytes -> bool, r: Record)
    requires k < |b| && b[k] == NL && NL !in b[..k]
    ensures IsRecord(b, base, blank, r)
       <==> (r == Record(base, b[..k]) && !blank(b[..k])) || IsRecord(b[k + 1..], base + k + 1, blank, r)
  {
    forall x | 0 <= x < k
      ensures b[x] != NL
    {
      assert b[..k][x] == b[x];
    }
    if IsRecord(b, base, blank, r) {
      if r.offset == base {
        TextHasNoNewline(b, 0, r.text);
        assert |r.text| == k;
      }
    }
    if r.offset != base {
      ShiftRecord(b, k, base, blank, r);
    }
  }

  lemma TextHasNoNewline(b: Bytes, i: nat, text: Bytes)
    requires i + |text| <= |b| && b[i..i + |text|] == text && NL !in text
    ensures forall x :: i <= x < i + |text| ==> b[x] != NL
  {
    forall x | i <= x < i + |text|
      ensures b[x] != NL
    {
      assert b[x] == text[x - i] && text[x - i] in text;
    }
  }

  lemma ShiftRecord(b: Bytes, k: nat, base: nat, blank: Bytes -> bool, r: Record)
    requires k < |b| && b[k] == NL && forall x :: 0 <= x < k ==> b[x] != NL
    requires r.offset != base
    ensures IsRecord(b, base, blank, r) <==> IsRecord(b[k + 1..], base + k + 1, blank, r)
  {
    var rest := b[k + 1..];
    if base + k + 1 <= r.offset {
      var i := r.offset - base - k - 1;
      if i + |r.text| <= |rest| {
        assert rest[i..i + |r.text|] == b[i + k + 1..i + k + 1 + |r.text|];
      }
    }
  }

  predicate Increasing(rs: seq<Record>) {
    forall i, j :: 0 <= i < j < |rs| ==> rs[i].offset < rs[j].offset
  }

  lemma {:induction false} RecordsIncrease(b: Bytes, base: nat, blank: Bytes -> bool)
    ensures Increasing(Records(b, base, blank))
    ensures forall r :: r in Records(b, base, blank) ==> base <= r.offset < base + |b|
    decreases |b|
  {
    var k := FirstNewline(b);
    if k == |b| {
      assert b[..k] == b;
      SplitNoSeparator(b, NL);
    } else {
      FirstLine(b, k, base, blank);
      RecordsIncrease(b[k + 1..], base + k + 1, blank);
      IncreasingFirst(Record(base, b[..k]), Records(b[k + 1..], base + k + 1, blank));
    }
  }

  lemma IncreasingFirst(first: Record, rest: seq<Record>)
    requires Increasing(rest) && forall r :: r in rest ==> first.offset < r.offset
    ensures Increasing([first] + rest)
  {
    assert forall i :: 0 < i < |[first] + rest| ==> ([first] + rest)[i] in rest;
  }

  // ---------- what a page is ----------

  /** `t` is what follows the last newline of `b`. */
  predicate IsFragment(b: Bytes, t: Bytes) {
    && |t| <= |b| && b[|b| - |t|..] == t
    && NL !in t
    && Boundary(b, |b| - |t|)
  }

  lemma {:induction false} TailIsFragment(b: Bytes)
    ensures IsFragment(b, Tail(b))
    decreases |b|
  {
    var k := FirstNewline(b);
    if k == |b| {
      assert b[..k] == b;
      SplitNoSeparator(b, NL);
    } else {
      var rest := b[k + 1..];
      TailAfterNewline(b, k);
      TailIsFragment(rest);
      assert rest[|rest| - |Tail(rest)|..] == b[|b| - |Tail(rest)|..];
    }
  }

  lemma TailAfterNewline(b: Bytes, k: nat)
    requires k < |b| && b[k] == NL && NL !in b[..k]
    ensures Tail(b) == Tail(b[k + 1..])
  {
    SplitFirst(b, k);
  }

  lemma FragmentIsUnique(b: Bytes, t: Bytes, u: Bytes)
    requires IsFragment(b, t) && IsFragment(b, u)
    ensures t == u
  {
    if |t| < |u| {
      ShorterFragment(b, t, u);
    } else if |u| < |t| {
      ShorterFragment(b, u, t);
    }
  }

  lemma ShorterFragment(b: Bytes, t: Bytes, u: Bytes)
    requires IsFragment(b, t) && IsFragment(b, u)
    ensures |t| >= |u|
  {
    var from := |b| - |u|;
    forall i | from <= i < |b|
      ensures b[i] != NL
    {
      assert b[i] == b[from..][i - from] && u[i - from] in u;
    }
  }

  /** `n` of `all`, or all of them. */
  predicate AsManyAs(count: nat, n: nat, all: nat) {
    count <= n && count <= all && (count == n || count == all)
  }

  /**
   What a page is, without saying how it is computed: as many of the records before `end` as
   were asked for, the newest of them, in file order; whether there are more; the cursor that
   is the first one's offset; and the partial tail, which is a non-blank fragment at the end.
   */
  lemma PageExactly(file: Bytes, fileLen: nat, end: nat, limit: nat, blank: Bytes -> bool)
    requires end <= fileLen <= |file|
    ensures var all, p := Records(file[..end], 0, blank), Page(file, fileLen, end, limit, blank);
            && AsManyAs(|p.records|, limit, |all|)
            && all == all[..|all| - |p.records|] + p.records
            && (p.hasMore <==> |all| > limit)
            && (p.nextOffset.Some? <==> |all| > limit > 0)
            && (p.nextOffset.Some? ==> p.records != [] && p.nextOffset.value == p.records[0].offset)
            && (p.partialTail <==>
                  end == fileLen && end > 0 && exists t :: IsFragment(file[..end], t) && !blank(t))
  {
    var all, p := Records(file[..end], 0, blank), Page(file, fileLen, end, limit, blank);
    assert all == all[..|all| - |p.records|] + p.records;
    TailIsFragment(file[..end]);
    forall t | IsFragment(file[..end], t)
      ensures t == Tail(file[..end])
    {
      FragmentIsUnique(file[..end], t, Tail(file[..end]));
    }
  }

  // ---------- one page after another ----------

  /** Two increasing runs meet at one place. */
  lemma SplitAtOffset(all: seq<Record>, older: seq<Record>, newer: seq<Record>, k: nat)
    requires all == older + newer && Increasing(all) && k < |all|
    requires forall r :: r in older ==> r.offset < all[k].offset
    requires forall r :: r in newer ==> all[k].offset <= r.offset
    ensures older == all[..k]
  {
    forall i | 0 <= i < |older|
      ensures all[i].offset < all[k].offset
    {
      assert all[i] == older[i] && older[i] in older;
    }
    forall i | |older| <= i < |all|
      ensures all[k].offset <= all[i].offset
    {
      assert all[i] == newer[i - |older|] && newer[i - |older|] in newer;
    }
    var turn := if |older| < |all| then all[|older|].offset else 0;  // where the newer run begins
    assert |older| == k;
  }

  /** Cutting the file at the start of its `k`-th record leaves exactly the records before it. */
  lemma CutAtRecord(file: Bytes, end: nat, k: nat, blank: Bytes -> bool)
    requires end <= |file| && k < |Records(file[..end], 0, blank)|
    ensures var o := Records(file[..end], 0, blank)[k].offset;
            o < end && Records(file[..o], 0, blank) == Records(file[..end], 0, blank)[..k]
  {
    var all := Records(file[..end], 0, blank);
    var o := all[k].offset;
    assert all[k] in all;
    RecordsExact(file[..end], 0, blank, all[k]);
    assert o < end && Boundary(file, o);
    var older, newer := Records(file[..o], 0, blank), Records(file[o..end], o, blank);
    assert all == older + newer by {
      RecordsBefore(file, o, end, blank);
    }
    RecordsIncrease(file[..end], 0, blank);
    RecordsIncrease(file[..o], 0, blank);
    RecordsIncrease(file[o..end], o, blank);
    SplitAtOffset(all, older, newer, k);
  }

  /** A page continues strictly before itself, and only when something older exists. */
  lemma PageContinues(file: Bytes, fileLen: nat, end: nat, limit: nat, blank: Bytes -> bool)
    requires end <= fileLen <= |file|
    ensures var p := Page(file, fileLen, end, limit, blank);
            && (p.nextOffset.Some? ==> p.nextOffset.value < end && p.hasMore)
            && (p.nextOffset.Some? ==>
                  Records(file[..end], 0, blank) == Records(file[..p.nextOffset.value], 0, blank) + p.records)
            && (p.nextOffset.None? && limit > 0 ==> p.records == Records(file[..end], 0, blank))
            && |p.records| <= limit
  {
    var all := Records(file[..end], 0, blank);
    if |all| > limit && limit > 0 {
      CutAtRecord(file, end, |all| - limit, blank);
      assert all == all[..|all| - limit] + all[|all| - limit..];
    }
  }

  /**
   `has_more` without a cursor to follow happens exactly for the limit no caller may pass:
   zero, on a transcript that has a record.
   */
  lemma MoreWithoutCursor(file: Bytes, fileLen: nat, end: nat, limit: nat, blank: Bytes -> bool)
    requires end <= fileLen <= |file|
    ensures var p := Page(file, fileLen, end, limit, blank);
            (p.hasMore && p.nextOffset.None?) <==> (limit == 0 && exists r :: IsRecord(file[..end], 0, blank, r))
  {
    var all := Records(file[..end], 0, blank);
    if all != [] {
      RecordsExact(file[..end], 0, blank, all[0]);
    }
    forall r | IsRecord(file[..end], 0, blank, r)
      ensures all != []
    {
      RecordsExact(file[..end], 0, blank, r);
    }
  }

  /** A page that ends within the old file does not change when the file is appended to. */
  lemma AppendStable(file: Bytes, more: Bytes, end: nat, limit: nat, blank: Bytes -> bool)
    requires end <= |file|
    ensures var before := Page(file, |file|, end, limit, blank);
            var after := Page(file + more, |file + more|, end, limit, blank);
            && after.records == before.records
            && after.nextOffset == before.nextOffset
            && after.hasMore == before.hasMore
  {
    assert (file + more)[..end] == file[..end];
  }

  // ---------- a whole walk ----------

  /** `files(k)` is the transcript when request `k` is served: it only ever grows. */
  ghost predicate AppendOnly(files: nat -> Bytes) {
    forall k: nat :: GrowsAt(files, k)
  }

  ghost predicate GrowsAt(files: nat -> Bytes, k: nat) {
    files(k) <= files(k + 1)
  }

  /** The pages a client receives, newest first, when it passes each `next_offset` back. */
  ghost function Walk(files: nat -> Bytes, limits: nat -> nat, k: nat, end: nat, blank: Bytes -> bool)
    : (pages: seq<seq<Record>>)
    requires AppendOnly(files) && end <= |files(k)|
    requires forall i: nat :: limits(i) >= 1
    decreases end
  {
    var p := Page(files(k), |files(k)|, end, limits(k), blank);
    PageContinues(files(k), |files(k)|, end, limits(k), blank);
    if p.nextOffset.None? then [p.records]
    else
      assert GrowsAt(files, k);
      [p.records] + Walk(files, limits, k + 1, p.nextOffset.value, blank)
  }

  function OldestFirst(pages: seq<seq<Record>>): seq<Record> {
    if pages == [] then [] else OldestFirst(pages[1..]) + pages[0]
  }

  /**
   The walk reads every record that was complete when it began, in file order, each exactly
   once with its true offset, and nothing else, whatever was appended meanwhile and whatever
   page sizes were asked for.
   */
  lemma {:induction false} WalkIsExact(files: nat -> Bytes, limits: nat -> nat, k: nat, end: nat, blank: Bytes -> bool)
    requires AppendOnly(files) && end <= |files(k)|
    requires forall i: nat :: limits(i) >= 1
    ensures OldestFirst(Walk(files, limits, k, end, blank)) == Records(files(k)[..end], 0, blank)
    decreases end
  {
    var p := Page(files(k), |files(k)|, end, limits(k), blank);
    PageContinues(files(k), |files(k)|, end, limits(k), blank);
    if p.nextOffset.Some? {
      var o := p.nextOffset.value;
      GrownPrefix(files, k, o);
      WalkIsExact(files, limits, k + 1, o, blank);
      WalkGoesOn(files, limits, k, end, blank);
    } else {
      assert OldestFirst([p.records]) == [] + p.records;
    }
  }

  lemma GrownPrefix(files: nat -> Bytes, k: nat, o: nat)
    requires AppendOnly(files) && o <= |files(k)|
    ensures o <= |files(k + 1)| && files(k + 1)[..o] == files(k)[..o]
  {
    assert GrowsAt(files, k);
  }

  lemma WalkGoesOn(files: nat -> Bytes, limits: nat -> nat, k: nat, end: nat, blank: Bytes -> bool)
    requires AppendOnly(files) && end <= |files(k)|
    requires forall i: nat :: limits(i) >= 1
    ensures var p := Page(files(k), |files(k)|, end, limits(k), blank);
            p.nextOffset.Some? ==>
              && p.nextOffset.value < end <= |files(k + 1)|
              && OldestFirst(Walk(files, limits, k, end, blank))
                 == OldestFirst(Walk(files, limits, k + 1, p.nextOffset.value, blank)) + p.records
  {
    PageContinues(files(k), |files(k)|, end, limits(k), blank);
    GrownPrefix(files, k, end);
    var p := Page(files(k), |files(k)|, end, limits(k), blank);
    if p.nextOffset.Some? {
      OldestFirstPage(p.records, Walk(files, limits, k + 1, p.nextOffset.value, blank));
    }
  }

  lemma OldestFirstPage(newest: seq<Record>, older: seq<seq<Record>>)
    ensures OldestFirst([newest] + older) == OldestFirst(older) + newest
  {
    assert ([newest] + older)[1..] == older;
  }

  /** The same, said of single records: read at one position and no other. */
  lemma WalkReadsEachOnce(files: nat -> Bytes, limits: nat -> nat, end: nat, blank: Bytes -> bool, r: Record)
    requires AppendOnly(files) && end <= |files(0)|
    requires forall i: nat :: limits(i) >= 1
    ensures var rows := OldestFirst(Walk(files, limits, 0, end, blank));
            && (IsRecord(files(0)[..end], 0, blank, r) <==> r in rows)
            && forall i, j :: 0 <= i < j < |rows| ==> rows[i].offset < rows[j].offset
  {
    WalkIsExact(files, limits, 0, end, blank);
    RecordsExact(files(0)[..end], 0, blank, r);
    RecordsIncrease(files(0)[..end], 0, blank);
  }
}
