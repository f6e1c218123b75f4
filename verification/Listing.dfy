/**
 Paging over a directory listing that may change between requests
 (crates/nession-claude-code/src/agent.rs: `handle_conversations`, `conversation_listing_revision`,
 `handle_transcripts`).

 A continuation cursor carries the revision of the listing it was cut from.  The digest behind
 a revision is a parameter; that it does not collide is an assumption of the theorems.
 */
module Listing {
  import opened Numerals
  import opened Wrappers

  datatype Kind = Primary | Sidechain

  datatype Row = Row(id: string, cwd: string, kind: Kind, parentId: Option<string>, agentId: Option<string>,
                     title: Option<string>, preview: Option<string>,
                     createdAt: Option<string>, updatedAt: Option<string>)

  /** A row as the conversation listing shows it. */
  datatype Item = Item(id: string, cwd: string, updatedAt: Option<string>, title: Option<string>, preview: Option<string>)

  datatype Activity = Active | Inactive | UnknownActivity

  datatype Binding = Binding(conversationId: string, activity: Activity)

  /** The directory, and the binding, at the moment of one request. */
  datatype Snapshot = Snapshot(rows: seq<Row>, binding: Option<Binding>)

  function ItemOf(r: Row): Item {
    Item(r.id, r.cwd, r.updatedAt, r.title, r.preview)
  }

  function Items(rows: seq<Row>): (items: seq<Item>)
    ensures |items| == |rows| && forall i :: 0 <= i < |rows| ==> items[i] == ItemOf(rows[i])
  {
    seq(|rows|, i requires 0 <= i < |rows| => ItemOf(rows[i]))
  }

  /** A row as the transcript listing shows it: all of it. */
  datatype TranscriptItem = TranscriptItem(
    id: string, cwd: string, kind: Kind, parentId: Option<string>, agentId: Option<string>,
    title: Option<string>, preview: Option<string>, createdAt: Option<string>, updatedAt: Option<string>)

  function TranscriptItemOf(r: Row): TranscriptItem {
    TranscriptItem(r.id, r.cwd, r.kind, r.parentId, r.agentId, r.title, r.preview, r.createdAt, r.updatedAt)
  }

  function TranscriptItems(rows: seq<Row>): (items: seq<TranscriptItem>)
    ensures |items| == |rows| && forall i :: 0 <= i < |rows| ==> items[i] == TranscriptItemOf(rows[i])
  {
    seq(|rows|, i requires 0 <= i < |rows| => TranscriptItemOf(rows[i]))
  }

  // ---------- the revision ----------

  /** What is fed to the hasher, one write at a time. */
  datatype Token = Length(n: nat) | Str(s: string) | OptStr(o: Option<string>) | Code(n: nat)

  function ActivityCode(a: Activity): nat {
    match a case Active => 1 case Inactive => 2 case UnknownActivity => 3
  }

  function RowTokens(r: Row): seq<Token> {
    [Str(r.id), Str(r.cwd), OptStr(r.updatedAt), OptStr(r.title), OptStr(r.preview)]
  }

  function RowsTokens(rows: seq<Row>): seq<Token> {
    if rows == [] then [] else RowsTokens(rows[..|rows| - 1]) + RowTokens(rows[|rows| - 1])
  }

  function BindingTokens(b: Option<Binding>): seq<Token> {
    match b
    case None => [OptStr(None)]
    case Some(binding) => [OptStr(Some(binding.conversationId)), Code(ActivityCode(binding.activity))]
  }

  function Tokens(s: Snapshot): seq<Token> {
    [Length(|s.rows|)] + RowsTokens(s.rows) + BindingTokens(s.binding)
  }

  /** `conversation_listing_revision`. */
  method ListingRevision(digest: seq<Token> -> string, s: Snapshot) returns (revision: string)
    ensures revision == digest(Tokens(s))
  {
    var fed: seq<Token> := [Length(|s.rows|)];
    for i := 0 to |s.rows|
      invariant fed == [Length(|s.rows|)] + RowsTokens(s.rows[..i])
    {
      assert s.rows[..i + 1][..i] == s.rows[..i];
      var r := s.rows[i];
      fed := fed + [Str(r.id)] + [Str(r.cwd)] + [OptStr(r.updatedAt)] + [OptStr(r.title)] + [OptStr(r.preview)];
    }
    assert s.rows[..|s.rows|] == s.rows;
    match s.binding {
      case None => fed := fed + [OptStr(None)];
      case Some(b) => fed := fed + [OptStr(Some(b.conversationId))] + [Code(ActivityCode(b.activity))];
    }
    assert fed == Tokens(s);
    return digest(fed);
  }

  /** The facts a listing shows a client. */
  predicate SameFacts(a: Snapshot, b: Snapshot) {
    Items(a.rows) == Items(b.rows) && a.binding == b.binding
  }

  lemma {:induction false} RowsTokensLength(rows: seq<Row>)
    ensures |RowsTokens(rows)| == 5 * |rows|
  {
    if rows != [] {
      RowsTokensLength(rows[..|rows| - 1]);
    }
  }

  lemma {:induction false} RowsTokensAt(rows: seq<Row>, i: nat)
    requires i < |rows|
    ensures |RowsTokens(rows)| == 5 * |rows|
    ensures RowsTokens(rows)[5 * i..5 * i + 5] == RowTokens(rows[i])
  {
    RowsTokensLength(rows);
    var init := rows[..|rows| - 1];
    RowsTokensLength(init);
    if i < |init| {
      RowsTokensAt(init, i);
      assert RowsTokens(rows)[5 * i..5 * i + 5] == RowsTokens(init)[5 * i..5 * i + 5];
    }
  }

  /** What is hashed is exactly what is shown: equal input means equal facts, and conversely. */
  lemma TokensAreFacts(a: Snapshot, b: Snapshot)
    ensures Tokens(a) == Tokens(b) <==> SameFacts(a, b)
  {
    RowsTokensLength(a.rows);
    RowsTokensLength(b.rows);
    if Tokens(a) == Tokens(b) {
      SameTokensSameFacts(a, b);
    }
    if SameFacts(a, b) {
      SameItemsSameTokens(a.rows, b.rows);
    }
  }

  lemma SameTokensSameFacts(a: Snapshot, b: Snapshot)
    requires Tokens(a) == Tokens(b)
    ensures SameFacts(a, b)
  {
    RowsTokensLength(a.rows);
    RowsTokensLength(b.rows);
    assert Tokens(a)[0] == Length(|a.rows|) && Tokens(b)[0] == Length(|b.rows|);
    var n := 5 * |a.rows|;
    assert RowsTokens(a.rows) == Tokens(a)[1..n + 1] && RowsTokens(b.rows) == Tokens(b)[1..n + 1];
    forall i | 0 <= i < |a.rows|
      ensures ItemOf(a.rows[i]) == ItemOf(b.rows[i])
    {
      RowsTokensAt(a.rows, i);
      RowsTokensAt(b.rows, i);
      SameRowTokens(a.rows[i], b.rows[i]);
    }
    assert BindingTokens(a.binding) == Tokens(a)[n + 1..] && BindingTokens(b.binding) == Tokens(b)[n + 1..];
    SameBindingTokens(a.binding, b.binding);
  }

  lemma SameRowTokens(r: Row, q: Row)
    requires RowTokens(r) == RowTokens(q)
    ensures ItemOf(r) == ItemOf(q)
  {
    var t, u := RowTokens(r), RowTokens(q);
    assert t[0] == u[0] && t[1] == u[1] && t[2] == u[2] && t[3] == u[3] && t[4] == u[4];
  }

  lemma SameBindingTokens(b: Option<Binding>, c: Option<Binding>)
    requires BindingTokens(b) == BindingTokens(c)
    ensures b == c
  {
    var t, u := BindingTokens(b), BindingTokens(c);
    assert |t| == |u| && t[0] == u[0];
    if b.Some? {
      assert t[1] == u[1];
    }
  }

  lemma ItemsFront(rows: seq<Row>, n: nat)
    requires n <= |rows|
    ensures Items(rows[..n]) == Items(rows)[..n]
  {}

  lemma {:induction false} SameItemsSameTokens(a: seq<Row>, b: seq<Row>)
    requires Items(a) == Items(b)
    ensures RowsTokens(a) == RowsTokens(b)
  {
    assert |Items(a)| == |Items(b)|;
    if a != [] {
      var n := |a| - 1;
      assert Items(a)[n] == Items(b)[n];
      ItemsFront(a, n);
      ItemsFront(b, n);
      SameItemsSameTokens(a[..n], b[..n]);
    }
  }

  // ---------- cursors ----------

  const COLON: char := ':'

  function Cursor(revision: string, end: nat): string {
    revision + [COLON] + Numeral(end, 10)
  }

  /** `rsplit_once(':')`. */
  function RSplit(s: string): Option<(string, string)> {
    if s == "" then None
    else if s[|s| - 1] == COLON then Some((s[..|s| - 1], ""))
    else
      match RSplit(s[..|s| - 1])
      case None => None
      case Some((front, back)) => Some((front, back + [s[|s| - 1]]))
  }

  lemma {:induction false} RSplitLast(front: string, back: string)
    requires COLON !in back
    ensures RSplit(front + [COLON] + back) == Some((front, back))
  {
    var s := front + [COLON] + back;
    if back == [] {
      assert s[..|s| - 1] == front;
    } else {
      var init, last := back[..|back| - 1], back[|back| - 1];
      assert s[..|s| - 1] == front + [COLON] + init && s[|s| - 1] == last;
      RSplitLast(front, init);
      assert init + [last] == back;
    }
  }

  /** A cursor reads back as the revision and the position it was made of. */
  lemma CursorRoundTrip(revision: string, end: nat)
    requires end < U64_LIMIT
    ensures RSplit(Cursor(revision, end)) == Some((revision, Numeral(end, 10)))
    ensures ParseUnsigned(Numeral(end, 10)) == Some(end)
  {
    NumeralChars(end, 10);
    RSplitLast(revision, Numeral(end, 10));
    ParsePrinted(end);
  }

  // ---------- one request ----------

  const DEFAULT_ITEM_LIMIT: nat := 50
  const ITEM_CEILING: nat := 200

  function PageLimit(requested: Option<nat>): (limit: nat)
    ensures 1 <= limit <= ITEM_CEILING
  {
    var n := match requested case None => DEFAULT_ITEM_LIMIT case Some(r) => r;
    if n < 1 then 1 else if n > ITEM_CEILING then ITEM_CEILING else n
  }

  datatype Refusal = ListingChanged | NotAPosition

  datatype Response<I> =
    | Refused(reason: Refusal)
    | Page(items: seq<I>, binding: Option<Binding>, nextCursor: Option<string>, hasMore: bool)

  function Position(raw: string, count: nat): Option<nat> {
    match ParseUnsigned(raw)
    case None => None
    case Some(n) => if n <= count then Some(n) else None
  }

  function PageFrom<I>(items: seq<I>, binding: Option<Binding>, start: nat, limit: nat, cursor: nat -> string): Response<I>
    requires start <= |items|
  {
    var end := if start + limit <= |items| then start + limit else |items|;
    var hasMore := end < |items|;
    Page(items[start..end], binding, if hasMore then Some(cursor(end)) else None, hasMore)
  }

  /** `handle_conversations`, once the session's directory is known. */
  function HandleConversations(digest: seq<Token> -> string, s: Snapshot, cursor: Option<string>, limit: Option<nat>): Response<Item> {
    var revision := digest(Tokens(s));
    var next := (end: nat) => Cursor(revision, end);
    match cursor
    case None => PageFrom(Items(s.rows), s.binding, 0, PageLimit(limit), next)
    case Some(raw) =>
      match RSplit(raw)
      case None => Refused(NotAPosition)
      case Some((cursorRevision, rawIndex)) =>
        if cursorRevision != revision then Refused(ListingChanged)
        else
          match Position(rawIndex, |s.rows|)
          case None => Refused(NotAPosition)
          case Some(start) => PageFrom(Items(s.rows), s.binding, start, PageLimit(limit), next)
  }

  /** `handle_transcripts`: without a revision, and showing all of a row. */
  function HandleTranscripts(s: Snapshot, cursor: Option<string>, limit: Option<nat>): Response<TranscriptItem> {
    var next := (end: nat) => Numeral(end, 10);
    match cursor
    case None => PageFrom(TranscriptItems(s.rows), s.binding, 0, PageLimit(limit), next)
    case Some(raw) =>
      match Position(raw, |s.rows|)
      case None => Refused(NotAPosition)
      case Some(start) => PageFrom(TranscriptItems(s.rows), s.binding, start, PageLimit(limit), next)
  }

  // ---------- every answer, without saying how it is computed ----------

  /** The default when nothing is asked for, and what is asked for within its bounds. */
  lemma PageLimitExactly(requested: Option<nat>)
    ensures requested.None? ==> PageLimit(requested) == DEFAULT_ITEM_LIMIT
    ensures requested.Some? ==>
              if requested.value < 1 then PageLimit(requested) == 1
              else if requested.value > ITEM_CEILING then PageLimit(requested) == ITEM_CEILING
              else PageLimit(requested) == requested.value
  {}

  predicate ShowsRow(item: Item, row: Row) {
    && item.id == row.id && item.cwd == row.cwd && item.updatedAt == row.updatedAt
    && item.title == row.title && item.preview == row.preview
  }

  predicate ShowsTranscript(item: TranscriptItem, row: Row) {
    && item.id == row.id && item.cwd == row.cwd
    && item.kind == row.kind && item.parentId == row.parentId && item.agentId == row.agentId
    && item.title == row.title && item.preview == row.preview
    && item.createdAt == row.createdAt && item.updatedAt == row.updatedAt
  }

  /**
   The page that begins at row `k`: as many rows as the limit allows, each shown; more exactly
   when rows are left, and then a cursor to the first of them; and the binding of the moment.
   */
  ghost predicate IsPage<I>(r: Response<I>, s: Snapshot, k: nat, limit: nat, cursor: nat -> string, shows: (I, Row) -> bool) {
    && r.Page? && k + |r.items| <= |s.rows| && |r.items| <= limit
    && (|r.items| == limit || k + |r.items| == |s.rows|)
    && (forall i :: 0 <= i < |r.items| ==> shows(r.items[i], s.rows[k + i]))
    && (r.hasMore <==> k + |r.items| < |s.rows|)
    && r.nextCursor == (if r.hasMore then Some(cursor(k + |r.items|)) else None)
    && r.binding == s.binding
  }

  /** A cursor's revision and position: what is before its last colon, and after it. */
  predicate Splits(raw: string, front: string, back: string) {
    raw == front + [COLON] + back && COLON !in back
  }

  lemma {:induction false} RSplitNone(s: string)
    ensures RSplit(s) == None <==> COLON !in s
  {
    if s != "" && s[|s| - 1] != COLON {
      RSplitNone(s[..|s| - 1]);
      assert s == s[..|s| - 1] + [s[|s| - 1]];
    }
  }

  lemma ConversationPage(s: Snapshot, k: nat, limit: nat, cursor: nat -> string)
    requires k <= |s.rows|
    ensures IsPage(PageFrom(Items(s.rows), s.binding, k, limit, cursor), s, k, limit, cursor, ShowsRow)
  {}

  lemma TranscriptPage(s: Snapshot, k: nat, limit: nat, cursor: nat -> string)
    requires k <= |s.rows|
    ensures IsPage(PageFrom(TranscriptItems(s.rows), s.binding, k, limit, cursor), s, k, limit, cursor, ShowsTranscript)
  {}

  /** `handle_conversations`, for every cursor a client may send. */
  lemma ConversationAnswers(digest: seq<Token> -> string, s: Snapshot, limit: Option<nat>, raw: string)
    ensures var next := (end: nat) => Cursor(digest(Tokens(s)), end);
            IsPage(HandleConversations(digest, s, None, limit), s, 0, PageLimit(limit), next, ShowsRow)
    ensures COLON !in raw ==> HandleConversations(digest, s, Some(raw), limit) == Refused(NotAPosition)
    ensures forall front, back :: Splits(raw, front, back) ==>
              var next, r := (end: nat) => Cursor(digest(Tokens(s)), end), HandleConversations(digest, s, Some(raw), limit);
              if front != digest(Tokens(s)) then r == Refused(ListingChanged)
              else if ParseUnsigned(back).None? || ParseUnsigned(back).value > |s.rows| then r == Refused(NotAPosition)
              else IsPage(r, s, ParseUnsigned(back).value, PageLimit(limit), next, ShowsRow)
  {
    var next := (end: nat) => Cursor(digest(Tokens(s)), end);
    ConversationPage(s, 0, PageLimit(limit), next);
    RSplitNone(raw);
    forall front, back | Splits(raw, front, back)
      ensures RSplit(raw) == Some((front, back))
      ensures ParseUnsigned(back).Some? && ParseUnsigned(back).value <= |s.rows| ==>
                IsPage(PageFrom(Items(s.rows), s.binding, ParseUnsigned(back).value, PageLimit(limit), next),
                       s, ParseUnsigned(back).value, PageLimit(limit), next, ShowsRow)
    {
      RSplitLast(front, back);
      if ParseUnsigned(back).Some? && ParseUnsigned(back).value <= |s.rows| {
        ConversationPage(s, ParseUnsigned(back).value, PageLimit(limit), next);
      }
    }
  }

  /** `handle_transcripts`, for every cursor a client may send. */
  lemma TranscriptAnswers(s: Snapshot, limit: Option<nat>, raw: string)
    ensures var next := (end: nat) => Numeral(end, 10);
            IsPage(HandleTranscripts(s, None, limit), s, 0, PageLimit(limit), next, ShowsTranscript)
    ensures var next, r := (end: nat) => Numeral(end, 10), HandleTranscripts(s, Some(raw), limit);
            if ParseUnsigned(raw).None? || ParseUnsigned(raw).value > |s.rows| then r == Refused(NotAPosition)
            else IsPage(r, s, ParseUnsigned(raw).value, PageLimit(limit), next, ShowsTranscript)
  {
    var next := (end: nat) => Numeral(end, 10);
    TranscriptPage(s, 0, PageLimit(limit), next);
    if ParseUnsigned(raw).Some? && ParseUnsigned(raw).value <= |s.rows| {
      TranscriptPage(s, ParseUnsigned(raw).value, PageLimit(limit), next);
    }
  }

  // ---------- a client that follows the cursors ----------

  /** What the directory is, and what page size is asked for, at one request. */
  datatype Visit = Visit(snapshot: Snapshot, limit: Option<nat>)

  datatype Followed<I> = Done(items: seq<I>) | Stopped(reason: Refusal) | Unfinished

  function Follow<I>(handle: (Snapshot, Option<string>, Option<nat>) -> Response<I>, visits: seq<Visit>,
                     cursor: Option<string>, got: seq<I>): Followed<I>
    decreases |visits|
  {
    if visits == [] then Unfinished
    else
      match handle(visits[0].snapshot, cursor, visits[0].limit)
      case Refused(reason) => Stopped(reason)
      case Page(items, _, next, _) =>
        if next.None? then Done(got + items) else Follow(handle, visits[1..], next, got + items)
  }

  function Conversations(digest: seq<Token> -> string): (Snapshot, Option<string>, Option<nat>) -> Response<Item> {
    (s: Snapshot, cursor: Option<string>, limit: Option<nat>) => HandleConversations(digest, s, cursor, limit)
  }

  ghost predicate CollisionFree(digest: seq<Token> -> string) {
    forall t, u :: digest(t) == digest(u) ==> t == u
  }

  /** At some request the listing was no longer `first`. */
  ghost predicate Changed(visits: seq<Visit>, first: Snapshot) {
    exists i :: 0 <= i < |visits| && !SameFacts(visits[i].snapshot, first)
  }

  /**
   All of `first` and nothing else when the client is done; stopped only by a change; done
   after at most `needed` more requests when nothing changes.
   */
  ghost predicate Atomic(r: Followed<Item>, visits: seq<Visit>, first: Snapshot, needed: nat) {
    && (r.Done? ==> r.items == Items(first.rows))
    && (r.Stopped? ==> r.reason == ListingChanged && Changed(visits, first))
    && (|visits| >= needed && !Changed(visits, first) ==> r.Done?)
  }

  lemma AtomicLater(r: Followed<Item>, visits: seq<Visit>, first: Snapshot, needed: nat)
    requires visits != [] && Atomic(r, visits[1..], first, needed)
    ensures Atomic(r, visits, first, needed + 1)
  {
    if Changed(visits[1..], first) {
      var i :| 0 <= i < |visits[1..]| && !SameFacts(visits[1..][i].snapshot, first);
      assert visits[i + 1] == visits[1..][i];
    } else if !Changed(visits, first) {
      forall i | 0 <= i < |visits[1..]|
        ensures SameFacts(visits[1..][i].snapshot, first)
      {
        assert visits[i + 1] == visits[1..][i];
      }
    }
  }

  function PageEnd(k: nat, limit: Option<nat>, count: nat): (end: nat)
    requires k <= count
    ensures k <= end <= count && (k < count ==> k < end)
  {
    if k + PageLimit(limit) <= count then k + PageLimit(limit) else count
  }

  /** The answer to a continuation: a refusal exactly when the facts have changed. */
  lemma Continuation(digest: seq<Token> -> string, now: Snapshot, first: Snapshot, k: nat, limit: Option<nat>)
    requires CollisionFree(digest) && k < |first.rows| < U64_LIMIT
    ensures var r := HandleConversations(digest, now, Some(Cursor(digest(Tokens(first)), k)), limit);
            if !SameFacts(now, first) then r == Refused(ListingChanged)
            else
              var end := PageEnd(k, limit, |first.rows|);
              && r.Page? && r.items == Items(first.rows)[k..end]
              && r.nextCursor == (if end < |first.rows| then Some(Cursor(digest(Tokens(first)), end)) else None)
  {
    TokensAreFacts(now, first);
    ConversationsAt(digest, now, digest(Tokens(first)), k, limit);
    if SameFacts(now, first) {
      PageOfSame(now, first, k, limit, digest(Tokens(now)));
    }
  }

  lemma PageOfSame(now: Snapshot, first: Snapshot, k: nat, limit: Option<nat>, revision: string)
    requires SameFacts(now, first) && k < |first.rows|
    ensures k <= |now.rows|
    ensures var r := PageFrom(Items(now.rows), now.binding, k, PageLimit(limit), (end: nat) => Cursor(revision, end));
            var end := PageEnd(k, limit, |first.rows|);
            && r.Page? && r.items == Items(first.rows)[k..end]
            && r.nextCursor == if end < |first.rows| then Some(Cursor(revision, end)) else None
  {
    assert |Items(now.rows)| == |Items(first.rows)|;
  }

  /** A continuation of the listing with a given revision. */
  lemma ConversationsAt(digest: seq<Token> -> string, now: Snapshot, revision: string, k: nat, limit: Option<nat>)
    requires k < U64_LIMIT
    ensures HandleConversations(digest, now, Some(Cursor(revision, k)), limit)
         == if revision != digest(Tokens(now)) then Refused(ListingChanged)
            else if k > |now.rows| then Refused(NotAPosition)
            else PageFrom(Items(now.rows), now.binding, k, PageLimit(limit), (end: nat) => Cursor(digest(Tokens(now)), end))
  {
    CursorRoundTrip(revision, k);
  }

  /** One request of a client that has the first `k` items of `first`. */
  lemma FollowOnce(digest: seq<Token> -> string, visits: seq<Visit>, first: Snapshot, k: nat)
    requires CollisionFree(digest) && visits != []
    requires k < |first.rows| < U64_LIMIT
    ensures var all := Items(first.rows);
            var r := Follow(Conversations(digest), visits, Some(Cursor(digest(Tokens(first)), k)), all[..k]);
            if !SameFacts(visits[0].snapshot, first) then r == Stopped(ListingChanged)
            else
              var end := PageEnd(k, visits[0].limit, |first.rows|);
              r == if end < |first.rows| then
                     Follow(Conversations(digest), visits[1..], Some(Cursor(digest(Tokens(first)), end)), all[..end])
                   else Done(all)
  {
    var all := Items(first.rows);
    Continuation(digest, visits[0].snapshot, first, k, visits[0].limit);
    var end := PageEnd(k, visits[0].limit, |first.rows|);
    SlicesMeet(all, k, end);
  }

  lemma SlicesMeet(s: seq<Item>, k: nat, end: nat)
    requires k <= end <= |s|
    ensures s[..k] + s[k..end] == s[..end] && s[..|s|] == s
  {}

  /** Following from inside a listing `first` whose first `k` items have been received. */
  lemma {:induction false} FollowFrom(digest: seq<Token> -> string, visits: seq<Visit>, first: Snapshot, k: nat)
    requires CollisionFree(digest)
    requires k < |first.rows| < U64_LIMIT
    ensures Atomic(Follow(Conversations(digest), visits, Some(Cursor(digest(Tokens(first)), k)), Items(first.rows)[..k]),
                   visits, first, |first.rows| - k)
    decreases |visits|
  {
    if visits != [] {
      FollowOnce(digest, visits, first, k);
      if SameFacts(visits[0].snapshot, first) {
        var end := PageEnd(k, visits[0].limit, |first.rows|);
        if end < |first.rows| {
          FollowFrom(digest, visits[1..], first, end);
          AtomicLater(Follow(Conversations(digest), visits[1..], Some(Cursor(digest(Tokens(first)), end)),
                             Items(first.rows)[..end]),
                      visits, first, |first.rows| - end);
        }
      } else {
        assert Changed(visits, first);
      }
    }
  }

  /**
   Atomic paging: a client that follows the cursors to the end has received one snapshot, the
   one its first page was cut from, every row once and in order, whatever happened to the
   directory and whatever page sizes it asked for; it is stopped only by a change; and while
   nothing changes it does reach the end.
   */
  lemma FollowedIsOneSnapshot(digest: seq<Token> -> string, visits: seq<Visit>)
    requires CollisionFree(digest) && visits != [] && |visits[0].snapshot.rows| < U64_LIMIT
    ensures Atomic(Follow(Conversations(digest), visits, None, []), visits,
                   visits[0].snapshot, |visits[0].snapshot.rows| + 1)
  {
    var first := visits[0].snapshot;
    var limit := PageLimit(visits[0].limit);
    var all := Items(first.rows);
    if limit < |first.rows| {
      assert [] + all[0..limit] == all[..limit];
      var r := Follow(Conversations(digest), visits[1..], Some(Cursor(digest(Tokens(first)), limit)), all[..limit]);
      FollowFrom(digest, visits[1..], first, limit);
      AtomicLater(r, visits, first, |first.rows| - limit);
    } else {
      assert [] + all[0..|first.rows|] == all;
    }
  }

  /**
   Without the revision it is not: two transcripts that change places between two requests
   give a client one of them twice and the other not at all.
   */
  lemma UnrevisionedCanRepeat(a: Row, b: Row)
    requires TranscriptItemOf(a) != TranscriptItemOf(b)
    ensures var before := Snapshot([a, b], None);
            var after := Snapshot([b, a], None);
            Follow(HandleTranscripts, [Visit(before, Some(1)), Visit(after, Some(1))], None, [])
            == Done([TranscriptItemOf(a), TranscriptItemOf(a)])
  {
    var before, after := Snapshot([a, b], None), Snapshot([b, a], None);
    var first := HandleTranscripts(before, None, Some(1));
    assert first.items == [TranscriptItemOf(a)] && first.nextCursor == Some(Numeral(1, 10));
    ParsePrinted(1);
    var second := HandleTranscripts(after, Some(Numeral(1, 10)), Some(1));
    assert second.items == [TranscriptItemOf(a)] && second.nextCursor == None;
    assert [] + first.items + second.items == [TranscriptItemOf(a), TranscriptItemOf(a)];
    var visits := [Visit(before, Some(1)), Visit(after, Some(1))];
    assert visits[1..] == [Visit(after, Some(1))];
  }

  /** What one request gives a client that has `k` items. */
  function Part(v: Visit, k: nat): (part: seq<TranscriptItem>)
    requires k <= |v.snapshot.rows|
    ensures k + |part| == PageEnd(k, v.limit, |v.snapshot.rows|)
  {
    TranscriptItems(v.snapshot.rows)[k..PageEnd(k, v.limit, |v.snapshot.rows|)]
  }

  /**
   Every answer to a client that has the first `k` of `items` is the next part of them, and the
   listing ends where they do.
   */
  ghost predicate ReadsAgree(visits: seq<Visit>, items: seq<TranscriptItem>, k: nat)
    requires k <= |items|
    decreases |visits|
  {
    && visits != []
    && k <= |visits[0].snapshot.rows|
    && var end := PageEnd(k, visits[0].limit, |visits[0].snapshot.rows|);
    && end <= |items| && Part(visits[0], k) == items[k..end]
    && if end < |visits[0].snapshot.rows| then ReadsAgree(visits[1..], items, end) else end == |items|
  }

  /** What a client has, it keeps. */
  lemma {:induction false} FollowExtends<I>(handle: (Snapshot, Option<string>, Option<nat>) -> Response<I>,
                                            visits: seq<Visit>, cursor: Option<string>, got: seq<I>)
    ensures var r := Follow(handle, visits, cursor, got); r.Done? ==> got <= r.items
    decreases |visits|
  {
    if visits != [] {
      var r := handle(visits[0].snapshot, cursor, visits[0].limit);
      if r.Page? && r.nextCursor.Some? {
        FollowExtends(handle, visits[1..], r.nextCursor, got + r.items);
      }
    }
  }

  /** The cursor of position `k` in an unrevisioned listing; the first request carries none. */
  function PositionCursor(k: nat): Option<string> {
    if k == 0 then None else Some(Numeral(k, 10))
  }

  lemma UnrevisionedAt(s: Snapshot, k: nat, limit: Option<nat>)
    requires k < U64_LIMIT
    ensures HandleTranscripts(s, PositionCursor(k), limit)
         == if k > |s.rows| then Refused(NotAPosition)
            else PageFrom(TranscriptItems(s.rows), s.binding, k, PageLimit(limit), (end: nat) => Numeral(end, 10))
  {
    ParsePrinted(k);
  }

  /** The answer at position `k`, first request or continuation. */
  lemma UnrevisionedAnswer(v: Visit, k: nat)
    requires k < U64_LIMIT
    ensures var r := HandleTranscripts(v.snapshot, PositionCursor(k), v.limit);
            if k > |v.snapshot.rows| then r == Refused(NotAPosition)
            else
              var end := k + |Part(v, k)|;
              && r.Page? && r.items == Part(v, k)
              && r.nextCursor == (if end < |v.snapshot.rows| then PositionCursor(end) else None)
  {
    UnrevisionedAt(v.snapshot, k, v.limit);
  }

  lemma UnrevisionedOnce(visits: seq<Visit>, got: seq<TranscriptItem>)
    requires visits != [] && |got| < U64_LIMIT
    ensures var r := Follow(HandleTranscripts, visits, PositionCursor(|got|), got);
            if |got| > |visits[0].snapshot.rows| then r == Stopped(NotAPosition)
            else
              var more := got + Part(visits[0], |got|);
              r == if |more| < |visits[0].snapshot.rows| then
                     Follow(HandleTranscripts, visits[1..], PositionCursor(|more|), more)
                   else Done(more)
  {
    UnrevisionedAnswer(visits[0], |got|);
  }

  /** What a client has, and the next part, is the beginning of `items` exactly when the part is their next. */
  lemma GoesOn(items: seq<TranscriptItem>, k: nat, part: seq<TranscriptItem>)
    requires k <= |items|
    ensures items[..k] + part <= items <==> k + |part| <= |items| && part == items[k..k + |part|]
    ensures items[..k] + part <= items ==> items[..k] + part == items[..k + |part|]
  {
    var got, end := items[..k] + part, k + |part|;
    assert got[k..] == part;
    if got <= items {
      assert got == items[..end];
      assert items[..end][k..] == items[k..end];
    }
    if end <= |items| && part == items[k..end] {
      assert got == items[..end];
    }
  }

  /**
   Exactly when a client of the unrevisioned listing is given `items`, whatever list they are:
   each answer is the part of them that follows what the client already has.
   */
  lemma {:induction false} UnrevisionedExactly(visits: seq<Visit>, items: seq<TranscriptItem>, k: nat)
    requires k <= |items| < U64_LIMIT
    ensures Follow(HandleTranscripts, visits, PositionCursor(k), items[..k]) == Done(items)
       <==> ReadsAgree(visits, items, k)
    decreases |visits|
  {
    if visits != [] && k <= |visits[0].snapshot.rows| {
      var part := Part(visits[0], k);
      var more := items[..k] + part;
      UnrevisionedOnce(visits, items[..k]);
      GoesOn(items, k, part);
      if more <= items {
        assert more == items[..k + |part|];
        if k + |part| < |visits[0].snapshot.rows| {
          UnrevisionedExactly(visits[1..], items, k + |part|);
        }
      } else {
        FollowExtends(HandleTranscripts, visits[1..], PositionCursor(|more|), more);
      }
    } else if visits != [] {
      UnrevisionedOnce(visits, items[..k]);
    }
  }

  /** So while the shown rows do not change, the unrevisioned listing is given whole, once and in order. */
  lemma {:induction false} UnchangedReadsAgree(visits: seq<Visit>, items: seq<TranscriptItem>, k: nat)
    requires k <= |items| < U64_LIMIT && |visits| > |items| - k
    requires forall i :: 0 <= i < |visits| ==> TranscriptItems(visits[i].snapshot.rows) == items
    ensures ReadsAgree(visits, items, k)
    ensures Follow(HandleTranscripts, visits, PositionCursor(k), items[..k]) == Done(items)
    decreases |visits|
  {
    var rows := visits[0].snapshot.rows;
    assert |rows| == |TranscriptItems(rows)|;
    var end := PageEnd(k, visits[0].limit, |rows|);
    if end < |rows| {
      UnchangedReadsAgree(visits[1..], items, end);
    }
    UnrevisionedExactly(visits, items, k);
  }
}
