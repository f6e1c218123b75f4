# A verified model of nession's readers, stores and routers

nession reads Claude Code's transcripts and memory directory for a remote client, holds the
credentials of peer-to-peer connections, composes protocol extensions, and correlates requests
with replies. This project models the parts of it where several steps have to agree, and proves
what they promise together. `dafny verify dfyconfig.toml` checks everything.

| module | what it models |
|---|---|
| `Paging`, `PagingWalk` | backward, chunked paging over an append-only transcript; the specification is one split of the bytes before a position |
| `ByteStrings`, `Payload`, `Projections`, `ProjectionRows`, `ProjectionLaws`, `BudgetOrder` | one byte budget spent over every body of a page, on UTF-8 boundaries, by two views of the same page |
| `Numerals`, `ProjectKey` | the wrapping string hash, base-36 printing and the sanitised project key |
| `LexicalPath`, `Repository`, `Resolution`, `ResolutionLaws`, `Witnesses` | path normalisation, the walk to a repository, linked worktrees, the settings verdict, and the memory directory they lead to; hosts on which the conditions are met |
| `Sorting`, `MemoryScan`, `MemoryScanLaws`, `MemoryScanOrder`, `MemoryScanRefusals`, `MemoryScanAnswers` | the bounded recursive walk over a memory directory, the listing it makes, and which scans depend on the order of enumeration |
| `Credentials`, `CredentialRaces` | the sweeping, lazily forgetting credential store, called one at a time and interleaved |
| `Registry`, `RegistryLaws` | composition of extensions into routes, and dispatch by wire and version |
| `Correlation` | request ids and replies over a stream of pushes, failures and late replies |
| `Listing` | revisioned paging over a directory that changes between requests |
| `Markdown` | the line machine of the public Markdown reader |
| `Sequences`, `Wrappers` | reversal, splitting, optional values and results |

Code that changes things in place is modelled by methods with loops, or by classes whose methods
update their fields; each is proved equal to a function of its input or old state, and the laws
are then proved about that function.

Those laws say what an operation gives in terms of its input alone, so that a wrong
function would not meet them: which records a page has and how many, which entries a view draws
and what each row shows, which directory a ready answer names, in which order files are listed,
what an honoured credential proves.

What the outside world answers is a parameter or a value: a file is a byte string, the filesystem
a snapshot that answers each path or a tree, a clock a number handed to the call, a socket the
sequence of what will arrive, the hash behind a listing revision a function assumed not to
collide, blankness of a transcript line a predicate, and Unicode normalisation with UTF-16
encoding a function from strings to code units.

## What turned out different from the words around the code

- The comment on `align_to_record` speaks of the next boundary at or after a position. The code
  scans backwards and returns the greatest boundary at or before it; the model follows the code,
  and it is what makes the cursor decrease.
- `select_records` with a limit of zero reports more records without a cursor to follow.
  `PagingWalk.MoreWithoutCursor` says exactly when; callers clamp the limit to at least one.
- The transcript view never having more budget left than the conversation view is false:
  `BudgetOrder.SlackIsReached` builds a page on which it has three bytes more. Three bytes are
  the most it can be (`BudgetOrder.TranscriptSpendsFirst`). `BudgetOrder.PagesOrderedExactly` says
  for which pages it can happen at all, and `BudgetOrder.AlwaysOrderedExactly` for which tool
  bodies it cannot happen under any budget.
- A label in its bounded form can be one character over its ceiling, for the ellipsis; so one
  longer label, which ends in an ellipsis itself, comes back whole (`Projections.LabelKept`).
- "Two repositories never share" a memory directory is false of the key: `/a.b` and `/a/b` do.
  `ProjectKey.SharedKey` and `Resolution.SharedMemoryExactly` say exactly when, and
  `Witnesses.TwoRepositoriesOneMemory` gives a host on which two repositories do.
- The order in which a filesystem enumerates entries can decide what a scan answers: which files
  a full listing holds (`MemoryScanAnswers.OrderCanShow`), and even whether the scan fails
  (`MemoryScanAnswers.OrderCanFail`). `MemoryScanAnswers.OrderShowsExactly`: it decides nothing
  exactly when all files fit, or when the scan fails in every order, which
  `MemoryScanRefusals.Passable` tells from the tree.
- An expired credential is called expired only until something clears it: presented again, or
  after any accepted grant, it is unknown. What is honoured never depends on that;
  `Credentials.StoreRefinesLog` states both.
- A grant for a credential string that was granted before can be lost to a concurrent
  `authorize` that saw the earlier, expired entry. `CredentialRaces.FinishAgreesExactly` gives the
  race, `CredentialRaces.RunAgreesExactly` and `CredentialRaces.EndAgreesExactly` lift it to whole
  interleavings, and `CredentialRaces.FreshCredentialsAgree` says it cannot happen to strings
  granted once.
- The transcript listing pages without a revision, and can repeat one row and lose another
  (`Listing.UnrevisionedCanRepeat`); `Listing.UnrevisionedExactly` says when a client is given a
  listing whole. The conversation listing is given whole or refused.

## Model

| member | source | states |
|---|---|---|
| Paging.AlignToRecord | crates/nession-claude-code/src/conversation.rs:585-602 | the result is the greatest record boundary at or before the position |
| Paging.ScanChunk | crates/nession-claude-code/src/conversation.rs:516-549 | a chunk yields its complete non-blank lines at their byte offsets, and what follows its last newline |
| Paging.ReadChunk | crates/nession-claude-code/src/conversation.rs:500-553 | one turn of the loop moves the cursor strictly back to a boundary and extends the records read by exactly those in between |
| Paging.ReadBackwards | crates/nession-claude-code/src/conversation.rs:495-554 | the loop stops with all records since the cursor, having reached the start or more than the limit; the partial tail is the trailing fragment of the whole file |
| Paging.SelectRecords | crates/nession-claude-code/src/conversation.rs:488-579 | for every chunk size and every end, the page, its cursor, has_more and partial_tail are those of one split of the bytes before the end |
| PagingWalk.PageExactly | crates/nession-claude-code/src/conversation.rs:556-578 | a page holds as many of the records before its end as were asked for, the newest, in file order; has_more says whether there are others; the cursor is its first record's offset; the partial tail is a non-blank fragment at the file's end |
| PagingWalk.RecordsExact | crates/nession-claude-code/src/conversation.rs:524-549 | a record is listed exactly when it is a newline-terminated non-blank line at its true offset |
| PagingWalk.CutAtRecord | crates/nession-claude-code/src/conversation.rs:563-571 | cutting the file at a record's offset leaves exactly the records before it |
| PagingWalk.PageContinues | crates/nession-claude-code/src/conversation.rs:556-578 | a cursor lies strictly before the page's end, and the page plus what the cursor leads to is everything before that end |
| PagingWalk.MoreWithoutCursor | crates/nession-claude-code/src/conversation.rs:566-571 | has_more comes without a cursor exactly for limit zero on a file with a record |
| PagingWalk.AppendStable | crates/nession-claude-code/src/conversation.rs:488-579 | appending to the file changes neither records, cursor nor has_more of a page that ends within the old file |
| PagingWalk.WalkIsExact | crates/nession-claude-code/src/conversation.rs:463-479 | following the cursors over a growing file, with any page sizes, yields the records that were complete at the start, in file order |
| PagingWalk.WalkReadsEachOnce | crates/nession-claude-code/src/conversation.rs:482-487 | each complete record is read at one position and no other line is read |
| ByteStrings.CutValid | crates/nession-claude-code/src/payload.rs:36-50 | both halves of a string cut at a character boundary decode |
| ByteStrings.FloorNear | crates/nession-claude-code/src/payload.rs:45-48 | a character boundary is never more than three bytes back |
| Payload.TruncateBytes | crates/nession-claude-code/src/payload.rs:41-50 | the loop ends at the greatest character boundary within the bound, and reports a cut exactly when the string is longer |
| Payload.CutIsLongest | crates/nession-claude-code/src/payload.rs:36-50 | a cut body is the longest prefix that fits and decodes, and wastes at most three bytes |
| Payload.Budget.Spend | crates/nession-claude-code/src/payload.rs:20-34 | a body carries what its ceiling and the budget allow, and the budget pays for exactly that |
| Payload.PageConserves | crates/nession-claude-code/src/payload.rs:20-34 | bytes carried plus budget left is the budget at the start |
| Payload.BodyAt | crates/nession-claude-code/src/transcript.rs:68-80 | each body is what its ceiling and the bytes of the earlier bodies allow, without threading |
| Payload.SlackKept | crates/nession-claude-code/src/payload.rs:20-50 | a body met from two budgets keeps the first at most three bytes ahead |
| Payload.TwoRuns | crates/nession-claude-code/src/messages.rs:67-79 | carrying more bodies leaves at most three bytes more for the shared ones |
| Payload.OrderKeptExactly | crates/nession-claude-code/src/payload.rs:20-50 | a body keeps the order of any two budgets exactly when what can be sent of it has one-byte characters only |
| Payload.KeepsOrderExactly | crates/nession-claude-code/src/payload.rs:20-50 | no smaller budget has more left after a body than a given one, exactly when none of the characters it carries has more than one byte more than what is left |
| Projections.LabelKept | crates/nession-claude-code/src/payload.rs:57-63 | a label is unchanged exactly within its ceiling, or when its only character beyond it is the ellipsis |
| Projections.DrawTool | crates/nession-claude-code/src/transcript.rs:123-146 | a tool's input is paid for before its output, each within its own ceiling |
| Projections.TranscriptItemOf | crates/nession-claude-code/src/transcript.rs:94-189 | every entry becomes one item and pays for its bodies |
| Projections.MessageItemOf | crates/nession-claude-code/src/messages.rs:91-177 | tools and human or assistant turns become items; only tools pay |
| Projections.SharedDemands | crates/nession-claude-code/src/messages.rs:136-163 | the conversation pays for tools and for nothing else |
| Projections.ProjectTranscript | crates/nession-claude-code/src/transcript.rs:73-89 | the page is the entries in order, drawn from one budget |
| Projections.ProjectMessages | crates/nession-claude-code/src/messages.rs:72-87 | the page is the drawn entries in order, from one budget |
| ProjectionRows.ConversationExactly | crates/nession-claude-code/src/messages.rs:91-177 | one row, in order, for each tool and each turn of a person or the assistant in the main line, and for nothing else; each shows its entry field by field, and a marker stands exactly for a turn nothing of which is known |
| ProjectionRows.TranscriptExactly | crates/nession-claude-code/src/transcript.rs:94-189 | one row, in order, for each entry, of its kind and showing it field by field |
| ProjectionLaws.TranscriptCarriesAll | crates/nession-claude-code/src/transcript.rs:73-189 | every body of every entry is on the transcript page, in order |
| ProjectionLaws.ConversationCarriesTools | crates/nession-claude-code/src/messages.rs:72-177 | the tool bodies, and no others, are on the conversation page, in order |
| ProjectionLaws.PagesAreFair | crates/nession-claude-code/src/payload.rs:13-34 | on both pages every body is the longest decodable prefix its ceiling and the spent bytes allow, truncated exactly when the source was or it was cut, and none is dropped |
| ProjectionLaws.TranscriptMaps | crates/nession-claude-code/src/transcript.rs:90-94 | the transcript has one row per entry, in order, with the entry's id and time |
| ProjectionLaws.ConversationIsFilteredTranscript | crates/nession-claude-code/src/messages.rs:88-177 | the conversation's rows are a subsequence of the transcript's, with the same speaker and content, and every tool is in both under one header |
| BudgetOrder.TranscriptSpendsFirst | crates/nession-claude-code/src/transcript.rs:68-89 | after any part of a page the conversation has spent at most three bytes more than the transcript |
| BudgetOrder.PagesOrderedExactly | crates/nession-claude-code/src/payload.rs:13-34 | the pages on which the conversation cannot spend more than the transcript, whatever is put between their tools: exactly those on which no character carried in a tool body has more than one byte more than the conversation has left after that body |
| BudgetOrder.AlwaysOrderedExactly | crates/nession-claude-code/src/payload.rs:20-50 | under every budget, exactly the tools that can be sent in one-byte characters |
| BudgetOrder.SlackIsReached | crates/nession-claude-code/src/payload.rs:20-50 | a page of entries on which the conversation spends exactly three bytes more |
| Numerals.ValueOfDigits | crates/nession-claude-code/src/memory.rs:469-488 | the digits printed have the value printed |
| Numerals.NumeralIsUnique | crates/nession-claude-code/src/memory.rs:469-488 | a numeral without leading zero is the one printed for its value |
| Numerals.NumeralRoundTrip | crates/nession-claude-code/src/memory.rs:469-488 | reading a printed numeral gives its value |
| Numerals.ParsePrinted | crates/nession-claude-code/src/agent.rs:379-385 | a printed position parses back, exactly when it fits 64 bits |
| Numerals.ParseExactly | crates/nession-claude-code/src/agent.rs:379-385 | a position parses exactly when it is decimal digits, perhaps after a plus, whose value fits 64 bits |
| Numerals.DigitsInOrder | crates/nession-claude-code/src/memory.rs:477-481 | the digits count up from `0`, and after nine from `a` |
| ProjectKey.WrapRound | crates/nession-claude-code/src/memory.rs:461-464 | a shift, a subtraction and an addition, each wrapping, are one wrapped Horner step |
| ProjectKey.HashUtf16 | crates/nession-claude-code/src/memory.rs:457-467 | the loop computes the polynomial in 31 over the code units, reduced to 32 signed bits |
| ProjectKey.Base36Abs | crates/nession-claude-code/src/memory.rs:469-488 | the printed string is the base-36 numeral of the absolute value, for every 32-bit value |
| ProjectKey.Base36Length | crates/nession-claude-code/src/memory.rs:469-488 | it has one to six digits |
| ProjectKey.SanitizedProjectKey | crates/nession-claude-code/src/memory.rs:437-455 | the key is the masked root, or its first 200 characters and the hash of the whole root |
| ProjectKey.KeyIsOneComponent | crates/nession-claude-code/src/memory.rs:49-55 | a key is one path component over letters, digits and dashes, of at most 207 characters |
| ProjectKey.KeyExactly | crates/nession-claude-code/src/memory.rs:437-488 | a key unit by unit: letters and digits stand, all else is a dash, and past two hundred come a dash and the base-36 absolute value of the hash reduced to 32 signed bits |
| ProjectKey.SharedKey | crates/nession-claude-code/src/memory.rs:437-467 | exactly when two roots have the same key |
| ProjectKey.DistinctRootsOneKey | crates/nession-claude-code/src/memory.rs:437-455 | two different roots with one key |
| LexicalPath.NormalizeLexical | crates/nession-claude-code/src/memory.rs:559-577 | the stack of names equals counting the pending parents from the right, clamped at the root |
| LexicalPath.ResolveConcat | crates/nession-claude-code/src/memory.rs:559-577 | resolving a prefix first changes nothing |
| LexicalPath.ResolvedNames | crates/nession-claude-code/src/memory.rs:554-577 | a resolved path has no dot, no double dot, no empty name and no separator in a name |
| LexicalPath.ShowResolves | crates/nession-claude-code/src/memory.rs:545-552 | a printed path resolves to itself |
| LexicalPath.NormalizeIdempotent | crates/nession-claude-code/src/memory.rs:545-577 | normalising twice is normalising once |
| LexicalPath.NormalizeJoin | crates/nession-claude-code/src/memory.rs:545-577 | normalising a join is normalising the join of the normalised path |
| Repository.NearestIsNearest | crates/nession-claude-code/src/memory.rs:352-386 | the walk stops at the nearest ancestor whose `.git` is not missing, or nowhere |
| Repository.RepositoryIdentity | crates/nession-claude-code/src/memory.rs:352-386 | the loop returns that ancestor's identity, its refusal, or the directory itself |
| Repository.NearestDecides | crates/nession-claude-code/src/memory.rs:349-386 | a Git working root is reported exactly when it is the nearest ancestor with a `.git`, and then it decides the root |
| Repository.NoRepositoryExactly | crates/nession-claude-code/src/memory.rs:374-386 | a directory is its own project exactly when neither it nor an ancestor has a `.git` |
| Repository.LinkedExactly | crates/nession-claude-code/src/memory.rs:388-426 | a working root answers for another directory exactly when its link files, read without the blanks around them, agree on a common directory that names it |
| Repository.OneRepository | crates/nession-claude-code/src/memory.rs:352-426 | all directories of a main copy and of its linked worktrees have one root and keep their own working roots |
| Resolution.CollectSettingsDirectories | crates/nession-claude-code/src/memory.rs:656-674 | the loop lists the ancestors down to the working root, nearest first |
| Resolution.SettingsDirectoriesExactly | crates/nession-claude-code/src/memory.rs:653-674 | a directory is listed exactly when it lies between the working root and the session's directory |
| Resolution.JudgeSettings | crates/nession-claude-code/src/memory.rs:598-630 | the reading loop computes the fold over the files' readings |
| Resolution.VerdictExactly | crates/nession-claude-code/src/memory.rs:583-630 | memory is resolved, or off, exactly when the files as a set say so, in whatever order |
| Resolution.Resolve | crates/nession-claude-code/src/memory.rs:135-226 | every branch of the resolution, overrides included |
| Resolution.ReadyMeans | crates/nession-claude-code/src/memory.rs:135-226 | a ready answer names the session's own repository, and a directory that depends on its root alone |
| ResolutionLaws.ReadyNames | crates/nession-claude-code/src/memory.rs:135-226 | a ready answer names the memory of its root: the override, or the remote directory with the key, or Claude's own directory with `projects`, the key or the configured name, and `memory` |
| ResolutionLaws.MemoryOfExactly | crates/nession-claude-code/src/memory.rs:150-226 | that directory is the only one those settings describe |
| ResolutionLaws.ConfigDirExactly | crates/nession-claude-code/src/memory.rs:165-183 | Claude's own directory is what `CLAUDE_CONFIG_DIR` names, or `.claude` below the home |
| ResolutionLaws.ExpandExactly | crates/nession-claude-code/src/memory.rs:532-543 | a setting names an absolute path, the home, or a path below the home |
| ResolutionLaws.PlainDirectory | crates/nession-claude-code/src/memory.rs:173-226 | with nothing but a home it is `.claude/projects/<key>/memory` below it |
| ResolutionLaws.SettingsInOrder | crates/nession-claude-code/src/memory.rs:583-597 | the settings files read: the machine's, Claude's own, then two for each directory, nearest first |
| ResolutionLaws.FirstOffenceDecides | crates/nession-claude-code/src/memory.rs:598-650 | the first file that cannot be verified, or contradicts one before it, decides how the resolution fails |
| ResolutionLaws.AnswersBeforeSettings | crates/nession-claude-code/src/memory.rs:135-183 | every answer given before settings are read |
| ResolutionLaws.AnswersFromSettings | crates/nession-claude-code/src/memory.rs:185-226 | every answer given after: ready, off, failed or unsupported, by the files as a set |
| Resolution.SameRootSameMemory | crates/nession-claude-code/src/memory.rs:13-29 | ready sessions of one root use one directory |
| Resolution.WorktreesShareMemory | crates/nession-claude-code/src/memory.rs:13-29 | so do sessions in a main copy and in any of its linked worktrees |
| Resolution.SharedMemoryExactly | crates/nession-claude-code/src/memory.rs:200-226 | two ready sessions share a directory exactly when an override says so or their roots have one key |
| Witnesses.TwoRepositoriesOneMemory | crates/nession-claude-code/src/memory.rs:13-18 | a host on which two repositories are ready and share a directory |
| Witnesses.WorktreeAndMain | crates/nession-claude-code/src/memory.rs:388-426 | a host with a main copy and a linked worktree that are ready and share a directory |
| MemoryScan.Listing.Walk | crates/nession-claude-code/src/memory.rs:268-316 | a walk adds what it meets up to the bound, is cut exactly when something was too deep or too many, and fails exactly at an entry that refuses in a directory not yet left because the list was full |
| MemoryScan.Listing.WalkEntry | crates/nession-claude-code/src/memory.rs:280-313 | one entry: links skipped, directories entered, Markdown files listed; exactly when the directory is left, and exactly when the walk fails |
| MemoryScan.ScanMemory | crates/nession-claude-code/src/memory.rs:236-266 | the whole answer: no directory, a failure, or the index and the topics met, sorted and free of duplicates |
| MemoryScanLaws.RoomFails | crates/nession-claude-code/src/memory.rs:280-284 | a refusal met while the list has room ends the walk |
| MemoryScanLaws.FailsExactly | crates/nession-claude-code/src/memory.rs:280-284 | when all topics fit, a scan fails exactly when some entry refuses to answer |
| MemoryScanLaws.WalkSound | crates/nession-claude-code/src/memory.rs:268-316 | every topic met is a regular Markdown file of the tree |
| MemoryScanLaws.WalkComplete | crates/nession-claude-code/src/memory.rs:268-316 | when nothing was too deep, every such file is met |
| MemoryScanLaws.EndsInMdExactly | crates/nession-claude-code/src/memory.rs:303-303 | what is listed beside the index is named with `.md` at the end |
| MemoryScanLaws.ListedOrders | crates/nession-claude-code/src/memory.rs:258-263 | sorting and deduplicating gives a strict order with the index first, losing no path |
| MemoryScanLaws.ListingAscends | crates/nession-claude-code/src/memory.rs:258-262 | the index stands in front, and all else ascends: a path is a proper prefix of the next, or smaller where they first differ |
| MemoryScanLaws.ListingExactly | crates/nession-claude-code/src/memory.rs:236-316 | a listing is sound, strictly ordered and bounded, complete unless truncated, and never without a present index |
| MemoryScanLaws.TruncatedExactly | crates/nession-claude-code/src/memory.rs:275-305 | a listing is truncated exactly when directories are nested too deep or there are more files than it holds |
| MemoryScanLaws.OneFilePerPath | crates/nession-claude-code/src/memory.rs:296-311 | where names are distinct and proper in every directory, a listed path names one file |
| MemoryScanLaws.UntruncatedIsExact | crates/nession-claude-code/src/memory.rs:236-316 | an untruncated listing is exactly the index and the Markdown files |
| MemoryScanOrder.EnumerationDoesNotShow | crates/nession-claude-code/src/memory.rs:258-263 | however the entries of every directory are reordered, `truncated` is the same, and the whole answer is when the files fit |
| MemoryScanOrder.PermutedIsReordered | crates/nession-claude-code/src/memory.rs:280-280 | any permutation of a directory is one of the orders meant |
| MemoryScanRefusals.PassableExactly | crates/nession-claude-code/src/memory.rs:268-316 | some order of the entries, in every directory, gets a walk past every refusal exactly when the tree says so: nothing refuses, or a file can come when the list is full, or every troubled directory can itself be passed |
| MemoryScanAnswers.FailsInSomeOrder | crates/nession-claude-code/src/memory.rs:280-284 | where an entry refuses to answer, some order fails |
| MemoryScanAnswers.FailsInEveryOrder | crates/nession-claude-code/src/memory.rs:268-316 | a scan fails in every order exactly when the tree cannot be passed |
| MemoryScanAnswers.OrderShowsExactly | crates/nession-claude-code/src/memory.rs:236-316 | a scan answers the same in every order exactly when all files fit or it fails in every order |
| MemoryScanAnswers.OrderCanShow | crates/nession-claude-code/src/memory.rs:302-305 | a tree whose two orders list different files |
| MemoryScanAnswers.OrderCanFail | crates/nession-claude-code/src/memory.rs:280-305 | a tree that fails in one order and is listed in another |
| MemoryScanAnswers.RefusalHidesOrder | crates/nession-claude-code/src/memory.rs:280-305 | a tree with more files than fit that fails in every order |
| Credentials.P2pCredentials.constructor | crates/nession-agent/src/p2p_credentials.rs:154-158 | an empty store agrees with an empty log |
| Credentials.P2pCredentials.Grant | crates/nession-agent/src/p2p_credentials.rs:170-212 | a grant is accepted exactly for this agent with a readable deadline, and a refused one changes nothing |
| Credentials.P2pCredentials.GrantConfigured | crates/nession-agent/src/p2p_credentials.rs:233-248 | a configured credential is always accepted, for ten years, and disturbs no other |
| Credentials.P2pCredentials.Authorize | crates/nession-agent/src/p2p_credentials.rs:255-293 | what is honoured is the never-forgetting log's to say; a refusal is expired exactly when the credential was still held, and forgets it alone |
| Credentials.LastIsLast | crates/nession-agent/src/p2p_credentials.rs:199-209 | the last grant is the accepted one no later one replaces |
| Credentials.HeldExactly | crates/nession-agent/src/p2p_credentials.rs:195-209 | after any calls a grant is held exactly when it was accepted and no later call granted the string again or cleared it expired |
| Credentials.StoreRefinesLog | crates/nession-agent/src/p2p_credentials.rs:170-292 | over every run with a clock that does not go back, each answer, the reason of a refusal included, is that of a log that never forgets and the calls that cleared the store |
| Credentials.HonouredProves | crates/nession-agent/src/p2p_credentials.rs:255-320 | over every run, an honoured credential proves agent, session, scope and deadline of the last grant accepted for it |
| Credentials.LiveIsHonoured | crates/nession-agent/src/p2p_credentials.rs:255-280 | while the clock does not go back, a credential whose last accepted grant is live is honoured |
| CredentialRaces.ActKeepsInv | crates/nession-agent/src/p2p_credentials.rs:255-292 | every step of every interleaving keeps what is held and what calls have copied true to the log |
| CredentialRaces.HonouredMeansGranted | crates/nession-agent/src/p2p_credentials.rs:255-280 | an honoured call presents a live grant for this agent, the last one when it was read |
| CredentialRaces.HonouredProvesGrant | crates/nession-agent/src/p2p_credentials.rs:255-320 | over every interleaving, an honoured call answers field by field with the last grant that had arrived when it copied the entry |
| CredentialRaces.RefusalSays | crates/nession-agent/src/p2p_credentials.rs:271-280 | a call says unknown exactly when the string was not held as it was copied, and expired exactly when its deadline had passed |
| CredentialRaces.FinishAgreesExactly | crates/nession-agent/src/p2p_credentials.rs:258-292 | finishing a call breaks the agreement with the log exactly when the string was granted again after the call copied its expired entry, and that grant is live |
| CredentialRaces.RunAgreesExactly | crates/nession-agent/src/p2p_credentials.rs:258-292 | an interleaving agrees with the log throughout exactly when no call in it is overtaken so |
| CredentialRaces.EndAgreesExactly | crates/nession-agent/src/p2p_credentials.rs:258-292 | it ends in agreement exactly when no forgotten grant is still the last of its string and live |
| CredentialRaces.FreshCredentialsAgree | crates/nession-agent/src/p2p_credentials.rs:170-292 | with credentials granted at most once every interleaving agrees with the log |
| CredentialRaces.RegrantCanBeLost | crates/nession-agent/src/p2p_credentials.rs:272-292 | an interleaving in which a second grant is lost |
| Registry.WithVersionKeeps | crates/nession-agent/src/extension.rs:203-205 | pushing, sorting and deduplicating keeps a version list increasing and adds exactly one version |
| Registry.ClaimWire | crates/nession-agent/src/extension.rs:180-213 | a claim extends the routes by itself, or the wire belongs to another unit |
| Registry.ClaimUnit | crates/nession-agent/src/extension.rs:178-216 | a unit's claims extend the routes by exactly themselves, or one of them was another unit's before |
| Registry.AddUnit | crates/nession-agent/src/extension.rs:163-219 | a unit is taken in keeping the composition well-formed, or refused with a conflict that is there |
| Registry.ClaimCore | crates/nession-agent/src/extension.rs:246-282 | a core unit's wires meet no extension wire and no other core unit, or the conflict is reported |
| Registry.Compose | crates/nession-agent/src/extension.rs:142-290 | composition succeeds exactly when the declarations can be composed; the routes are then exactly the claims; a reported conflict is a real one |
| Registry.TruthfulRefutes | crates/nession-agent/src/extension.rs:82-86 | a conflict that is there rules composition out |
| RegistryLaws.RoutesExactly | crates/nession-agent/src/extension.rs:36-52 | a wire is routed exactly when declared, to one unit, with exactly the versions declared on it, sorted |
| RegistryLaws.DispatchExactly | crates/nession-agent/src/extension.rs:299-363 | a handler is reached exactly for declared wires and versions, and it is the declaring extension's |
| RegistryLaws.OrderDoesNotDecide | crates/nession-agent/src/extension.rs:1-8 | composition succeeds in every order or in none |
| RegistryLaws.OrderDoesNotShow | crates/nession-agent/src/extension.rs:1-8 | in every order the routes are the same relation, up to the numbering of extensions |
| Correlation.RequestIdInjective | crates/nession-client/src/connection.rs:214-225 | no two request numbers print alike |
| Correlation.ClientConnection.NextId | crates/nession-client/src/connection.rs:222-225 | the counter moves and names the request |
| Correlation.ClientConnection.RequestWithin | crates/nession-client/src/connection.rs:131-212 | one call consumes the frames up to its end and returns what that end means |
| Correlation.AwaitExactly | crates/nession-client/src/connection.rs:154-211 | a call is ended by the first event that may end it and by no other |
| Correlation.RepliedExactly | crates/nession-client/src/connection.rs:175-202 | a reply is returned exactly when the answer to this request comes before any failure |
| Correlation.OutcomeExactly | crates/nession-client/src/connection.rs:154-211 | what a caller gets is what its own answer decodes to, or the failure that came first; keepalives, pushes and other answers are none |
| Correlation.RunCorrelates | crates/nession-client/src/connection.rs:124-212 | over whole runs a payload returned for a call is an answer to that very call |
| Correlation.RunRepliesExactly | crates/nession-client/src/connection.rs:124-212 | the i-th call of a run returns a payload exactly when it was sent and its own answer comes, after what earlier calls consumed, before anything that ends it |
| Correlation.LateRepliesDoNotMatter | crates/nession-client/src/connection.rs:124-130 | late replies to abandoned calls are passed over and change nothing |
| Listing.ListingRevision | crates/nession-claude-code/src/agent.rs:729-752 | the loop feeds the hasher the listing's facts in order |
| Listing.TokensAreFacts | crates/nession-claude-code/src/agent.rs:723-752 | what is hashed is exactly what a client is shown |
| Listing.CursorRoundTrip | crates/nession-claude-code/src/agent.rs:371-393 | a cursor reads back as the revision and position it was made of |
| Listing.ConversationAnswers | crates/nession-claude-code/src/agent.rs:365-413 | for every cursor: a refusal for a changed listing, a refusal for what is no position, or the rows from there, each shown, with more, cursor and binding |
| Listing.TranscriptAnswers | crates/nession-claude-code/src/agent.rs:463-494 | the same without a revision, and showing all of a row |
| Listing.PageLimitExactly | crates/nession-claude-code/src/protocol/conversations/v1.rs:212-216 | the page size is the default, or what is asked for within its bounds |
| Listing.Continuation | crates/nession-claude-code/src/agent.rs:365-413 | a continuation is refused exactly when the facts have changed, and otherwise goes on where it stopped |
| Listing.FollowedIsOneSnapshot | crates/nession-claude-code/src/agent.rs:365-413 | a client that reaches the end has one snapshot, each row once and in order; it is stopped only by a change, and reaches the end without one |
| Listing.UnrevisionedCanRepeat | crates/nession-claude-code/src/agent.rs:463-494 | without a revision a row can come twice and another not at all |
| Listing.UnrevisionedExactly | crates/nession-claude-code/src/agent.rs:463-494 | a client is given a list exactly when each answer is the next part of it and the listing ends with it |
| Listing.UnchangedReadsAgree | crates/nession-claude-code/src/agent.rs:463-494 | while the shown rows do not change it is given them whole, once and in order |
| Markdown.Renderer.Flush | pages/knowledge.js:92-98 | a flush closes what is open and nothing else |
| Markdown.Renderer.Feed | pages/knowledge.js:99-119 | one line closes or continues what is open, and code, paragraph and list are never open together |
| Markdown.Renderer.FeedItem | pages/knowledge.js:107-114 | an item joins the open list of its kind or begins a new one |
| Markdown.Renderer.Finish | pages/knowledge.js:120-121 | the end closes what is open |
| Markdown.RenderMarkdown | pages/knowledge.js:89-122 | the line machine computes the recursive grouping of lines |
| Markdown.EveryLineOnce | pages/knowledge.js:99-121 | each line that is neither a fence nor blank outside code is shown once, in source order, and begins a block or joins the one before by what stands just before it |
| Markdown.AdjacentItemsShare | pages/knowledge.js:107-114 | items of one kind on consecutive lines share a list |

## Left out

- Paging.SelectRecords: lines are byte strings, so a file that is not UTF-8, whose decoded lines have other lengths, is not modelled; neither are read errors.
- Discovery of transcripts by their recorded directory (`transcripts_at`, `inspect`, head and tail facts): a filter and a sort over facts read from JSON, which would only add easy members.
- Pairing of tool calls with results and the adaptation of upstream records (`canonical`): the projections start from its entries.
- MemoryScan.ScanMemory: the tree does not change during a scan and every name is text; sizes are those of the tree.
- MemoryScanOrder.EnumerationDoesNotShow: the names in a directory are taken to be distinct, non-empty and free of separators, as a filesystem keeps them.
- Repository.RepositoryIdentity: the filesystem answers every question from one snapshot.
- Resolution.Resolve: the managed settings paths and the process home directory are given, and the text of refusals is not modelled.
- Projections.ProjectTranscript: page fields passed through unchanged and the mapping between equally named status and category tags are not modelled.
- Registry.Compose: a descriptor's self-check is a flag, and the manifest is the list of declarations it is derived from.
- Correlation.ClientConnection.NextId: the counter is unbounded, so the wrap after 2^64 requests on one connection is not modelled.
- Credentials.P2pCredentials.Authorize: the log tag derived from a credential is the credential itself, and lock poisoning is not modelled.
- Listing.ListingRevision: the digest is a parameter; that it does not collide is assumed where it is needed.
- The wires a credential's scope covers (`ConnectionAuthority::covers`): one comparison per kind of wire.
- Markdown.RenderMarkdown: the regular expressions are given as facts about each line, the document tree as a sequence of blocks, and inline markup as text.
- Sockets, tmux, process environments, JSON, logging and the web interface.
