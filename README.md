# Caption rating app: a verified model of its core logic

This project models, in Dafny, the parts of the caption-rating web app that
compute something rather than draw it:

- **The rating session** of `app/rate/page.tsx`. It holds a fixed list of
  caption rows, the user's votes, a cursor on the current row, and an undo
  stack. Guards sit around them:
  - `saving` allows one store write at a time;
  - `lastVoteAt` spaces votes at least 350 ms apart;
  - the restore flags make the resume-from-last-seen step run once per load.

  Each operation is a step function on a `SessionState` value. The `Session`
  class holds the same state in fields, and each of its methods is proved to
  perform exactly its step. An asynchronous operation is split at its
  `await`: `CastVote` runs up to the store write and `CompleteVote` resumes
  with the write's outcome. `Undo` and `CompleteUndo` are split the same way.
  The `caption_votes` table is a map keyed by (profile, caption), and the
  outcome of each store call is an input.
- **Caption post-processing** in `app/upload/page.tsx`:
  - `splitMaybeList` splits model output into list items;
  - `normalizeCaptions` flattens the shapes a caption can arrive in;
  - `uniqCaptions` dedupes by a normalisation key and caps the count;
  - the insert filter at the end of `runPipeline`;
  - the grouping of the caption history by image in `loadHistory`;
  - `captionCount`.
- **PKCE helpers** in `lib/pkce.ts`: `base64url`, and `randomString` with the
  random bytes as an input.
- **Auth helpers** in `lib/auth.ts`: the request origin, the login URL of the
  auth proxy, and the token carried in a callback fragment.
- **The home-page gallery** in `app/page.tsx`: which image URLs are accepted,
  the deduplicated pool, the 4 x 6 grid of tile spots, and `pickRandom` with
  the random draws as an input.
- **The dashboard** in `app/dashboard/page.tsx`: the `pickFirst` fallbacks for
  name, email and picture.
- **The session guard** in `app/middleware.ts` in front of `/dashboard`.

The central property is the cursor invariant. After every operation, the row
under the cursor, if there is one, has no vote. The `Session` methods carry
it as `Valid()`. Beside it are proved:

- the exact rollback of a failed vote;
- the vote-then-undo round trip for the votes, the cursor and the undo
  stack; in the store it holds only when the store had no record for the
  caption before the vote (see the Findings section);
- the resume cases.

The JavaScript built-ins the code relies on are stated over `seq<char>` in
module `JsString`: `trim`, the `\s` class, ASCII `toLowerCase`,
one-character `split`, `startsWith` and `endsWith`.

Three behaviours of the rating flow that are easy to miss:

- **A failed undo keeps its entry.** The code pops the entry only on success
  (`app/rate/page.tsx:448`), so a failed undo leaves the stack, the votes and
  the cursor as they were. The undo stack is a stack of any depth, not a
  single level.
- **Some marker writes skip the restore guard.** The rollback of a failed
  vote and a successful undo write the last-seen marker without the
  restore-complete check (`app/rate/page.tsx:416-417`, `452-453`). Only
  `jumpToIndex` checks it. `MarkRow` in `RollBackStep` and `UndoneStep`
  does the same.
- **A rolled-back vote keeps its time.** After a rollback, `lastVoteAt`
  stays at the time of the failed vote. Everything else is restored.

## Model

| member | source | states |
|---|---|---|
| RateSession.ParseVote | app/rate/page.tsx:318 | a stored value loads as no vote exactly when it is neither 1 nor -1; otherwise the vote with that value |
| RateSession.ParseValue | app/rate/page.tsx:318 | every vote's value parses back to that vote |
| RateSession.WithImage | app/rate/page.tsx:287 | the kept rows are exactly the fetched rows that have an image URL, never more of them |
| RateSession.WithImageAppend | app/rate/page.tsx:287 | the filter keeps a row exactly when it has an image URL and distributes over concatenation, so query order and repeats are kept |
| RateSession.FirstUnratedFrom | app/rate/page.tsx:133-143 | the result is the first index at or after the start whose row is unrated (a null vote counts as unrated), or the end; every row skipped is rated |
| RateSession.Session.ComputeNextUnratedIndex | app/rate/page.tsx:139-143 | the scanning loop from `max(0, start)` returns the first unrated index at or after it, or the number of rows |
| RateSession.VotesFrom | app/rate/page.tsx:316-320 | the vote map has exactly the caption ids of the loaded rows as keys |
| RateSession.LastRowWins | app/rate/page.tsx:316-320 | the vote loaded for a caption is the parsed value of its last row |
| RateSession.Session.LoadVoteMap | app/rate/page.tsx:316-320 | the loop over the vote rows builds that map |
| RateSession.WriteValue | app/rate/page.tsx:190-217 | without a user it fails with "Missing user"; a failed update fails with its error; when the update matched no record the insert runs, and its error is the result; it succeeds exactly when the update succeeds and either a record existed or the insert succeeds; then the store holds the record for (user, caption) with the written value and every other record unchanged |
| RateSession.WriteVote | app/rate/page.tsx:190-217 | the same for a vote: a failed insert after an update that matched nothing fails with the insert's error; on success the record holds the vote's value and every other record is unchanged |
| RateSession.DeleteVote | app/rate/page.tsx:219-227 | without a user it fails with "Missing user"; on success exactly the (user, caption) record is gone and every other record is unchanged |
| RateSession.DeleteAfterWrite | app/rate/page.tsx:190-227 | a delete after a write leaves the store from before the write without the (user, caption) record; that is the store from before exactly when it had no such record |
| RateSession.RestoreRecord | app/rate/page.tsx:190-227 | writing back a recorded value or deleting: the record for (user, caption) ends up as given and every other record is unchanged |
| RateSession.RestoreRecordUndoesWrite | app/rate/page.tsx:190-227 | writing back what the store held for (user, caption) before a vote gives back that store exactly, for every store |
| RateSession.IndexOfId | app/rate/page.tsx:339 | the index of the first row with the id, or the number of rows when there is none |
| RateSession.ResumeCases | app/rate/page.tsx:336-356 | a marker found at an unrated row resumes there; found at a rated row, it resumes at the first unrated row after it, every row between being rated; an empty or unknown marker scans from 0; the result is always an unrated row or the end |
| RateSession.RestoreOnce | app/rate/page.tsx:328-335 | the restore needs the loaded votes, a user and rows; it sets the restored flag, does nothing once the flag is set, and a second run changes nothing |
| RateSession.Session.Restore | app/rate/page.tsx:328-360 | the restore effect moves the cursor to the resume index, sets the flag and writes the marker for the new row, and leaves the cursor invariant holding |
| RateSession.Session.LoadVotes | app/rate/page.tsx:297-326 | loading the votes (keeping the old map when the query fails), marking them loaded, then the restore it enables, with the invariant kept |
| RateSession.Session.SetVotes | app/rate/page.tsx:321-322 | the vote map is replaced and marked loaded; nothing else changes |
| RateSession.Session.constructor | app/rate/page.tsx:257-293 | the session after the rows query: the rows with an image (none, and the error shown, when the query fails), no votes, cursor 0, an empty stack, flags cleared, and the invariant holding |
| RateSession.InitialInv | app/rate/page.tsx:257-293 | the state after the rows load satisfies the cursor invariant and the stack and pending-write invariants |
| RateSession.RestoreKeepsInv | app/rate/page.tsx:328-360 | the restore leaves the cursor on an unrated row or at the end, even when it started on a rated one |
| RateSession.LoadVotesKeepsInv | app/rate/page.tsx:297-360 | loading the votes and restoring keeps the invariant |
| RateSession.Session.JumpToIndex | app/rate/page.tsx:145-150 | the cursor moves, the pin is cleared, and the marker is written only once the restore is complete |
| RateSession.Session.RecordVote | app/rate/page.tsx:377-395 | an accepted vote sets the time, clears the error, pushes the entry (caption, previous vote, cursor), records the vote and marks the write pending |
| RateSession.Session.CastVote | app/rate/page.tsx:367-398 | `castVote` up to the store write performs the cast step and keeps the cursor invariant |
| RateSession.CastKeepsInv | app/rate/page.tsx:367-398 | a cast, accepted or not, keeps the invariant: the cursor lands on an unrated row or the end |
| RateSession.CastGuards | app/rate/page.tsx:367-376 | no current row, no user, or a write in flight: nothing changes; within 350 ms of the last accepted vote only the slow-down notice changes (votes, cursor, stack and `lastVoteAt` as before) |
| RateSession.CastAcceptedEffect | app/rate/page.tsx:377-398 | an accepted vote pushes exactly one entry for the current row, sets its vote and no other, moves the cursor forward past rated rows only to the next unrated one, stamps the time, marks saving, and leaves the marker alone before the restore is complete |
| RateSession.Session.RollBack | app/rate/page.tsx:403-420 | the failure branch shows the error, returns the cursor, pops the stack, puts the previous vote back (deleting the key when there was none), writes the marker and clears saving |
| RateSession.Session.CompleteVote | app/rate/page.tsx:400-421 | with the store's replies: success stores the vote; failure rolls back; the invariant is kept |
| RateSession.CompleteVoteKeepsInv | app/rate/page.tsx:400-421 | finishing a vote write, either way, keeps the invariant |
| RateSession.VoteRollbackRestores | app/rate/page.tsx:377-421 | a vote whose write fails leaves the votes, cursor, undo stack and store as before the vote, the vote map identical when the caption had no entry; only `lastVoteAt` stays advanced |
| RateSession.Session.Undo | app/rate/page.tsx:423-434 | `undo` up to the store call marks the top entry pending and clears the error; the invariant is kept |
| RateSession.UndoGuards | app/rate/page.tsx:423-428 | without a user, while saving, or with an empty stack, `undo` changes nothing |
| RateSession.UndoKeepsInv | app/rate/page.tsx:423-434 | starting an undo keeps the invariant |
| RateSession.Session.Undone | app/rate/page.tsx:436-455 | the success branch puts the previous vote back (deleting the key when there was none), pops the entry, returns the cursor, unpins, writes the marker and clears saving |
| RateSession.Session.CompleteUndo | app/rate/page.tsx:435-460 | with the store's replies: the previous vote is deleted or rewritten in the store; success undoes, failure only shows the error; the invariant is kept |
| RateSession.CompleteUndoKeepsInv | app/rate/page.tsx:435-460 | finishing an undo, either way, keeps the invariant |
| RateSession.FailedUndoKeepsEntry | app/rate/page.tsx:456-460 | a failed undo changes only the error message (never empty) and the saving flag; the entry stays on the stack |
| RateSession.VoteUndoRoundTrip | app/rate/page.tsx:367-461 | on a row with no vote in the map, a vote written and then undone leaves the votes, the cursor and the undo stack as they were; the store loses the (user, caption) record, so it is as it was exactly when it held no record before |
| RateSession.UndoDeletesUnloadedVote | app/rate/page.tsx:383-437 | a stored up-vote that the vote map does not show (the previous vote taken from the map at line 383, the delete at lines 436-437) is deleted by a down-vote and its undo |
| RateSession.KeyActionOf | app/rate/page.tsx:463-490 | while typing every key is ignored; otherwise the up arrow votes up, the down arrow votes down, `KeyZ` undoes and the space bar toggles the pin, each exactly for its key, and every other key is ignored |
| RateSession.Session.TogglePinned | app/rate/page.tsx:482-484 | the space bar flips the pin and changes nothing else |
| RateSession.Session.UnratedCount | app/rate/page.tsx:492-496 | the loop counts the rows without a vote |
| RateSession.Session.RatedCount | app/rate/page.tsx:498 | rows minus unrated is the number of rated rows |
| RateSession.RatedPlusUnrated | app/rate/page.tsx:492-498 | rated and unrated rows add up to all rows |
| RateSession.Session.UnratedPosition | app/rate/page.tsx:500-505 | 0 with no current row, else the unrated rows before the cursor plus one if the current row is unrated; under the invariant it lies between 1 and the unrated count |
| RateSession.PositionBounds | app/rate/page.tsx:500-505 | under the cursor invariant the position counts the current row and never exceeds the number of unrated rows |
| CaptionLists.BreakLen | app/upload/page.tsx:305 | the length of the match of `\r?\n+` at the start: zero exactly when the text starts with neither `\n` nor `\r\n`; otherwise an optional `\r` and then the whole run of `\n` that follows |
| CaptionLists.SplitLineBreaks | app/upload/page.tsx:305 | splitting at line-break runs gives at least one piece, and no piece holds a line break |
| CaptionLists.SplitJoinLines | app/upload/page.tsx:305 | splitting the `\n`-join of lines with no `\n`, none but the last ending in `\r`, and none but the first and last empty, gives the lines back |
| CaptionLists.JoinSplitLines | app/upload/page.tsx:305 | for text without `\r` and without two `\n` in a row, joining the pieces with `\n` gives the text back |
| CaptionLists.NumberedPrefixLen | app/upload/page.tsx:308 | a matched `N.`/`N)` prefix stays inside the line, ends in whitespace and stops before a character that is not whitespace |
| CaptionLists.NumberedPrefixMatches | app/upload/page.tsx:308 | a non-zero length is a match of whitespace, digits, `.` or `)`, and whitespace |
| CaptionLists.NumberedPrefixLongest | app/upload/page.tsx:308 | every match at that position is found and is no longer than the length; the match that stops before a character that is not whitespace is exactly the length |
| CaptionLists.BulletPrefixLen | app/upload/page.tsx:309 | a matched `-`/`•` prefix stays inside the line, ends in whitespace and stops before a character that is not whitespace |
| CaptionLists.BulletPrefixMatches | app/upload/page.tsx:309 | a non-zero length is a match of whitespace, `-` or `•`, and whitespace |
| CaptionLists.BulletPrefixLongest | app/upload/page.tsx:309 | every bullet match is found and is no longer than the length; the greedy one is exactly the length |
| CaptionLists.StripMarkers | app/upload/page.tsx:308-309 | removing the two prefixes leaves a suffix of the line |
| CaptionLists.StripNumbered | app/upload/page.tsx:306-311 | a line opening with a numbered prefix and no bullet after it loses exactly that prefix, and cleans to the trimmed rest |
| CaptionLists.StripNumberedBulleted | app/upload/page.tsx:306-311 | a numbered prefix followed directly by a bullet prefix: both go, and the line cleans to the trimmed rest |
| CaptionLists.StripBulleted | app/upload/page.tsx:306-311 | a line opening with a bullet prefix loses exactly that prefix |
| CaptionLists.StripUnmarked | app/upload/page.tsx:306-311 | a line opening with neither marker, nor whitespace, is kept and cleans to its trimmed self |
| CaptionLists.CleanLine | app/upload/page.tsx:306-311 | a cleaned line is trimmed |
| CaptionLists.CleanLineKeepsLast | app/upload/page.tsx:306-311 | a line ending in anything but whitespace keeps its last character through cleaning, so it is never emptied |
| CaptionLists.NonEmpty | app/upload/page.tsx:312 | `filter(Boolean)` keeps exactly the non-empty strings |
| CaptionLists.NonEmptyAppend | app/upload/page.tsx:312 | the filter keeps one string exactly when it is non-empty and distributes over concatenation, so order and repeats are kept |
| CaptionLists.NonEmptyKeepsAll | app/upload/page.tsx:312 | strings that are all non-empty are kept as they are |
| CaptionLists.SplitRaw | app/upload/page.tsx:297-323 | on trimmed input every item is non-empty and trimmed, and empty input gives no item |
| CaptionLists.SplitMaybeList | app/upload/page.tsx:295-324 | every item is non-empty and trimmed; blank input gives none |
| CaptionLists.NotBlankGivesItems | app/upload/page.tsx:295-324 | input with a character that is neither whitespace nor `;` gives at least one item |
| CaptionLists.ListBranch | app/upload/page.tsx:299-313 | list-like input (a newline, a numbered or a bulleted line) gives the non-empty cleaned lines, none holding a line break |
| CaptionLists.ListRoundTrip | app/upload/page.tsx:297-313 | two or more joinable lines whose joined text starts and ends with something other than whitespace, each cleaning to a non-empty item, give back exactly those items |
| CaptionLists.PlainListRoundTrip | app/upload/page.tsx:297-313 | two or more trimmed items, one per line, opening with neither a digit nor a bullet, come back unchanged |
| CaptionLists.BulletedListRoundTrip | app/upload/page.tsx:297-313 | two or more trimmed items written as `- item` lines come back without their bullets |
| CaptionLists.SemicolonBranch | app/upload/page.tsx:316-321 | otherwise, with at least two `;`, the items are the non-empty trimmed pieces, none holding a `;` |
| CaptionLists.SingleBranch | app/upload/page.tsx:323 | in every other case the one item is the trimmed input |
| CaptionLists.ItemText | app/upload/page.tsx:329-333 | a bare string is its own text; an object uses `content` when it is non-empty, else `caption` when it is non-empty, else `text`; the text is `""` exactly when none of the three is non-empty |
| CaptionLists.CaptionItems | app/upload/page.tsx:329-334 | each item of one caption is non-empty and trimmed |
| CaptionLists.NormalizeCaptions | app/upload/page.tsx:326-337 | the loop concatenates the per-item splits in input order; every result is non-empty and trimmed |
| CaptionLists.NormalizeAllAppend | app/upload/page.tsx:326-337 | normalising a concatenation concatenates the normalisations, so order is kept |
| CaptionKeys.Collapse | app/upload/page.tsx:349 | collapsing whitespace runs never lengthens the text and empties only the empty text |
| CaptionKeys.CollapseShape | app/upload/page.tsx:349 | the result holds whitespace only as single spaces, never two in a row, and starts with whitespace exactly when the input does |
| CaptionKeys.CollapseRun | app/upload/page.tsx:349 | a maximal whitespace run between two texts becomes one space, and each side collapses on its own |
| CaptionKeys.DropEndPunct | app/upload/page.tsx:352 | the result is a prefix that does not end in `.`, `!` or `?`, and everything removed is such punctuation |
| CaptionKeys.CollapseMapCommute | app/upload/page.tsx:348-351 | collapsing commutes with lower-casing and quote straightening |
| CaptionKeys.CollapseConcat | app/upload/page.tsx:349 | collapsing splits over a boundary that is not inside a whitespace run |
| CaptionKeys.KeyIgnoresCase | app/upload/page.tsx:347-348 | captions differing only in letter case share a key |
| CaptionKeys.KeyIgnoresWhitespaceRuns | app/upload/page.tsx:347-349 | two captions that differ only in one inner run of whitespace (any non-empty length, any kind) share a key |
| CaptionKeys.TrimAround | app/upload/page.tsx:347 | trimming text with a character that is not whitespace on each side of an inner part touches only the outer ends |
| CaptionKeys.KeyOfCollapsed | app/upload/page.tsx:347-352 | captions whose trimmed texts collapse to the same string share a key |
| CaptionKeys.KeyIgnoresCurlyQuotes | app/upload/page.tsx:350-351 | captions differing only in curly against straight quotes share a key |
| CaptionKeys.KeyIgnoresEndPunct | app/upload/page.tsx:352 | a caption followed by a run of `.`, `!`, `?` has the key of the caption alone |
| UploadCaptions.DedupeShape | app/upload/page.tsx:343-356 | the dedupe keeps only non-empty trimmed inputs, no two sharing a key |
| UploadCaptions.DedupeCovers | app/upload/page.tsx:343-356 | every non-blank input's key is the key of some kept caption |
| UploadCaptions.DedupeFirstWins | app/upload/page.tsx:354-356 | each kept caption is an input with no earlier non-blank input of the same key |
| UploadCaptions.DedupePrefix | app/upload/page.tsx:343-358 | deduplicating a prefix of the input gives a prefix of the dedupe, which is why stopping early caps correctly |
| UploadCaptions.UniqStopsEarly | app/upload/page.tsx:358-359 | once the dedupe of the inputs read so far has reached the cap, it is the capped dedupe of all inputs |
| UploadCaptions.UniqShape | app/upload/page.tsx:340-361 | at most `max(1, limit)` captions (at most `limit` when `limit` is at least 1), each a trimmed non-empty input, keys pairwise different, a prefix of the full dedupe in input order |
| UploadCaptions.UniqCaptions | app/upload/page.tsx:340-361 | the loop with the `seen` set and the early stop gives the capped dedupe |
| UploadCaptions.PlanInserts | app/upload/page.tsx:564-583 | one row per caption at most, each for the profile and image, private, unfeatured, created and modified at the one timestamp |
| UploadCaptions.PlanInsertsExact | app/upload/page.tsx:564-574 | a caption is inserted exactly when its key is non-empty and not already stored |
| UploadCaptions.FinishPipeline | app/upload/page.tsx:527-583 | "No captions returned." exactly when no caption survives; otherwise one to five captions and exactly their new rows to insert |
| UploadCaptions.GroupedOk | app/upload/page.tsx:395-429 | one group per image id, each with an id, a URL and at least one caption, its captions non-empty and with pairwise different keys |
| UploadCaptions.UnusableRowIgnored | app/upload/page.tsx:401 | a row missing its image id, content or URL changes nothing |
| UploadCaptions.AddRowKeepsGroup | app/upload/page.tsx:403-428 | adding a row keeps every existing group in place and forgets none of its keys |
| UploadCaptions.AddRowHolds | app/upload/page.tsx:403-428 | after a usable row its image has a group holding the row's key |
| UploadCaptions.GroupedCovers | app/upload/page.tsx:395-429 | every usable row is represented: its image has a group holding a caption with its key |
| UploadCaptions.GroupedOrder | app/upload/page.tsx:395-429 | the groups' image ids are the distinct image ids of the usable rows, in order of first appearance |
| UploadCaptions.GroupedExact | app/upload/page.tsx:395-429 | each group is made from exactly the usable rows about its image: the first such row's URL, the first non-empty time among them, and their contents with repeated keys dropped, in query order |
| UploadCaptions.AddRowPhases | app/upload/page.tsx:403-428 | one row's step is the two phases of the loop body: open an empty group for an unknown image, then update that image's group |
| UploadCaptions.AddRowTotal | app/upload/page.tsx:403-428 | one row adds at most one caption |
| UploadCaptions.MergeRow | app/upload/page.tsx:396-428 | the loop body on the map of groups, the `seen` sets and the insertion order performs one step of the grouping |
| UploadCaptions.LoadHistory | app/upload/page.tsx:395-431 | the loop over the rows, read out in insertion order, gives the groups in order of their image's first appearance |
| UploadCaptions.CaptionCount | app/upload/page.tsx:617-621 | the loop adds up the group sizes |
| UploadCaptions.CaptionCountBound | app/upload/page.tsx:395-429 | the history never counts more captions than rows read |
| Pkce.EncodeGroups | lib/pkce.ts:2-3 | the unpadded encoding has ceil(4n/3) characters, all from the alphabet |
| Pkce.DropTrailing | lib/pkce.ts:6 | removing a trailing run of `=` leaves a prefix that does not end in `=`, and everything removed is `=` |
| Pkce.EncodeGroupsUrlSafe | lib/pkce.ts:4-5 | replacing `+` and `/` in the standard encoding gives the URL-safe encoding |
| Pkce.DropPadding | lib/pkce.ts:6 | stripping the `=` run removes exactly the padding |
| Pkce.Base64UrlIsRfc | lib/pkce.ts:1-7 | `base64url` equals the unpadded base64url encoding of section 5 of RFC 4648 |
| Pkce.Base64UrlShape | lib/pkce.ts:1-7 | the output has ceil(4n/3) characters, all URL-safe, with no `+`, `/` or `=` |
| Pkce.VerifierCharsAreUnreserved | lib/pkce.ts:10 | the 66 characters are exactly the unreserved set of section 4.1 of RFC 7636, each once |
| Pkce.RandomString | lib/pkce.ts:9-16 | exactly `len` characters, character `i` being `chars[bytes[i] % 66]`, all unreserved, so a valid code verifier for a length in 43..128 |
| Pkce.DefaultLengthIsValid | lib/pkce.ts:9 | the default length 64 gives a valid code verifier |
| Auth.OriginFromRequestHeaders | lib/auth.ts:3-6 | the origin starts with the scheme and `://` (`http` only when the protocol is undefined) and ends with the host |
| Auth.OriginRoundTrip | lib/auth.ts:3-6 | scheme and host are recovered from the origin, an empty protocol kept as it is |
| Auth.GetAfterSet | lib/auth.ts:15-16 | after `set`, `get` of that key gives the value set, and other keys are unaffected |
| Auth.BuildLoginUrl | lib/auth.ts:8-19 | path `/google` on the proxy base; `client_id` is the client id, `redirect_uri` is the origin plus `/auth/callback`, and there are no other parameters |
| Auth.GetParam | lib/auth.ts:25-27 | `get` finds a value exactly when a pair has the key, and the value is that of the first such pair |
| Auth.StripHash | lib/auth.ts:22 | a leading `#` is removed; without one the fragment is unchanged |
| Auth.HashIsOptional | lib/auth.ts:21-30 | the token read from `#` plus a fragment is the one read from the fragment alone: the `token` value when non-empty, and `""` exactly when none of the three parameters is non-empty |
| Auth.StripHashOnce | lib/auth.ts:22 | exactly one `#` is removed: a second one stays |
| Auth.TokenPrecedence | lib/auth.ts:24-29 | `token`, then `access_token`, then `id_token`, an empty value falling through; `""` exactly when none is non-empty, otherwise the value of one of those three parameters |
| Middleware.Guard | app/middleware.ts:4-18 | paths outside `/dashboard` pass; a guarded path redirects exactly when the cookie is missing or empty, to `/auth` with the query cleared |
| Middleware.DecisionDependsOnPathAndCookie | app/middleware.ts:5-9 | whether a request passes depends only on its path and the cookie |
| Middleware.RedirectTargetPasses | app/middleware.ts:10-13 | the redirect target is not guarded, so the redirect cannot loop, and it keeps the origin and fragment |
| Dashboard.PickFirstBy | app/dashboard/page.tsx:5-11 | `""` exactly when no key qualifies (present and not blank after trimming); otherwise the untrimmed value of the first qualifying key in list order |
| Dashboard.PickFirstStep | app/dashboard/page.tsx:6-8 | the head key wins when it qualifies, else the scan continues |
| Dashboard.MissingKeySkipped | app/dashboard/page.tsx:7-8 | a missing key is skipped wherever it stands in the list |
| Dashboard.UserFromQuery | app/dashboard/page.tsx:19-23 | the name is never empty: the picked name, or "friend" when none qualifies |
| Dashboard.NameFallback | app/dashboard/page.tsx:19-21 | the name is taken from `name`, `full_name`, `display_name`, `given_name` in that order, then "friend" |
| Dashboard.EmailFallback | app/dashboard/page.tsx:22 | the email is taken from `email`, then `user_email`, then `""` |
| Dashboard.PictureFallback | app/dashboard/page.tsx:23 | the picture is taken from `picture`, `avatar`, `photo`, then `""` |
| HomeGallery.Extension | app/page.tsx:154-162 | none exactly when there is no dot; otherwise the dot-free text after the last dot |
| HomeGallery.EndsWithDotIff | app/page.tsx:155-161 | ending in `.` plus a dot-free suffix is having that extension |
| HomeGallery.SuffixIffExtension | app/page.tsx:154-162 | the `endsWith` chain holds exactly when the text after the last dot is one of the seven extensions |
| HomeGallery.SupportedIffExtension | app/page.tsx:150-163 | a URL is accepted exactly when its lower-cased path, cut at the first `?` and `#`, has one of the seven extensions |
| HomeGallery.IgnoresQuery | app/page.tsx:151 | what follows a `?` does not change acceptance |
| HomeGallery.IgnoresFragment | app/page.tsx:151 | what follows a `#` does not change acceptance |
| HomeGallery.IgnoresCase | app/page.tsx:151 | letter case does not change acceptance |
| HomeGallery.PoolUrls | app/page.tsx:195-199 | exactly the string URLs that are non-empty and accepted |
| HomeGallery.PoolUrlsAppend | app/page.tsx:195-199 | the filter keeps one value exactly when it is a non-empty supported URL and distributes over concatenation, so row order and repeats are kept |
| HomeGallery.PoolOrderIff | app/page.tsx:195-199 | of two kept URLs, one first appears before the other in the filtered list exactly when it first appears before it in the rows |
| HomeGallery.DistinctShape | app/page.tsx:201 | the set dedupe keeps each value exactly once, in order of first appearance |
| HomeGallery.PoolShape | app/page.tsx:195-201 | the pool holds each accepted, non-empty URL exactly once, and nothing else, in the order in which the rows first show them |
| HomeGallery.BuildSpots | app/page.tsx:117-148 | the two loops give 24 spots in row-major order, spot `idx` at left 10 + 16c and top 14 + 24r, width 190, its rotation and period |
| HomeGallery.SpotRanges | app/page.tsx:127-133 | every spot is on the grid lines, its period is in 1400..2450 ms, and it tilts 4 to 6 degrees, left at even indices and right at odd |
| HomeGallery.SpotsDistinct | app/page.tsx:125-141 | no two spots share a position |
| HomeGallery.FirstAcceptable | app/page.tsx:171-174 | the first of at most twenty draws that gives a non-empty image other than `exclude`, every earlier draw refused; none when all are refused |
| HomeGallery.FindOther | app/page.tsx:175 | the first element other than `exclude`; none exactly when every element is `exclude` |
| HomeGallery.PickRandom | app/page.tsx:165-176 | the loop with its early return and the fallback computes the pick |
| HomeGallery.PickFromPool | app/page.tsx:165-176 | an empty pool gives `""`, a one-image pool its image even when excluded, a larger pool one of its images |
| HomeGallery.PickAvoidsExclude | app/page.tsx:165-176 | on a pool as built (non-empty, no duplicates) of two or more images, the pick never repeats `exclude` |
| HomeGallery.FallbackRepeatsWithEmpty | app/page.tsx:175 | on a pool holding `""` the fallback can repeat `exclude`; the pool never holds `""` |

## Left out

- `sha256` (`lib/pkce.ts:18-22`) is not modelled. It calls the platform digest.
- `Buffer.toString("base64")` is modelled by its definition in section 4 of RFC 4648, not by the platform code.
- The network and every Supabase query are left out. Query results and store outcomes are inputs: `Replies`, the fetched rows and the vote rows. Filters applied on the server are not modelled: the `in` list, the `limit`, and the `not null`.
- Ordering by `created_datetime_utc` and timestamps are left out:
  - rows arrive already in query order;
  - the final date sort of the history groups (`app/upload/page.tsx:433-437`) is not modelled, so the groups come out in order of first appearance;
  - a timestamp is an opaque string.
- The percent-decoding of `URLSearchParams` is not modelled. `ParseTokenFromHash` takes the parser as a parameter.
- Non-string query values and JSON serialisation in the dashboard are left out. The `localStorage` writes and the final redirect are also left out.
- Lower-casing covers ASCII letters only. Unicode case mapping is not modelled.
- `Math.random` and `crypto.getRandomValues` are replaced by input sequences of draws and bytes.
- Timers are left out: the auto-hide of the slow-down notice and the per-tile swap timers and preloading of the gallery (`app/page.tsx:222-270`).
- Theme, layout, styling and the `getGoogleAvatar` helper are left out, along with the `loading`, `restoring` and `showSlow` display flags.
- The effect at `app/rate/page.tsx:153-158` that rewrites the marker when the current row changes is not modelled separately. Every cursor move in the model writes the marker itself, under the same restore-complete check where the code has one.
- Console logging is left out. `localStorage` exceptions are left out: the marker is a map that always answers.
- Interleaving of effects and asynchronous completions is left out. The session applies updates sequentially, and `LoadVotes` runs once per load (`requires !votesLoaded`).
- The rows load re-runs only when `sessionReady` changes. The constructor models the first load. A re-load of the same session is not modelled.
- RateSession.CastStep: the `extraRated` set (`app/rate/page.tsx:397`) is not modelled. The vote map is updated before the scan, which gives the same index.
- HomeGallery.BuildSpots: the page divides with floating point. The model uses integers, which give the same values because the divisions are exact for these constants.
- HomeGallery.PickAvoidsExclude: holds only for pools without `""`. `FallbackRepeatsWithEmpty` shows why.
- UploadCaptions.UniqCaptions: a non-array input (`arr || []`) and non-string entries are not modelled. Inputs are strings.

## Findings

| source | as written | input that shows it | evidently intended | confidence | as-written member | corrected member |
|---|---|---|---|---|---|---|
| app/rate/page.tsx:383, 436-437 | `castVote` records the previous vote from the vote map, and `undo` deletes the record when that was none; a record the map does not show (votes not loaded yet, their query failed, a stored value other than 1 and -1) is deleted by the undo | the store holds ("u", "c") = 1, the map is still empty, the user votes down and then undoes: the store ends empty | the undo gives back the store from before the vote | not executed | RateSession.UndoDeletesUnloadedVote | RateSession.RestoreRecordUndoesWrite |
