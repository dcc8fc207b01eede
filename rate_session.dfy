/** app/rate/page.tsx: the caption rating session. A fixed list of caption
    rows, the user's votes (`voteMap`), a cursor `i` on the current row, an
    undo stack, and the guards around them: `saving` lets one store write run
    at a time, `lastVoteAt` spaces votes at least 350 ms apart, and the restore
    flags make the resume-from-last-seen step run once per load.

    Each operation is a step function on a `SessionState` value; the
    `Session` class holds the same state in fields and its methods are proved
    to perform exactly those steps. An asynchronous operation is split at its
    `await`: `CastVote` runs up to the store write and `CompleteVote` runs with
    the write's outcome, and likewise `Undo` and `CompleteUndo`. */
module RateSession {
  import opened Wrappers

  /** `MIN_VOTE_GAP_MS`. */
  const MinVoteGapMs: int := 350
  const SlowDownText: string := "Slow down \U{1F642}"
  const UnknownError: string := "Unknown error"
  const MissingUser: string := "Missing user"

  /** `VoteValue`: an up-vote (1) or a down-vote (-1). */
  datatype Vote = Up | Down {
    function Value(): int {
      if Up? then 1 else -1
    }
  }

  /** `vote_value === 1 ? 1 : vote_value === -1 ? -1 : null`: a stored value
      other than 1 and -1 loads as no vote. */
  function ParseVote(x: int): (r: Option<Vote>)
    ensures r.None? <==> x != 1 && x != -1
    ensures r.Some? ==> r.value.Value() == x
  {
    if x == 1 then Some(Up) else if x == -1 then Some(Down) else None
  }

  lemma ParseValue(v: Vote)
    ensures ParseVote(v.Value()) == Some(v)
  {
  }

  // ----------------------------------------------------------------------- rows

  /** A caption row; `url` is the image URL, `""` when the join has none. */
  datatype Row = Row(id: string, content: string, url: string)

  /** `(data || []).filter((r) => r.images?.url)`. */
  function WithImage(raw: seq<Row>): (r: seq<Row>)
    ensures |r| <= |raw|
    ensures forall x :: x in r <==> x in raw && x.url != ""
  {
    if raw == [] then []
    else
      var rest := WithImage(raw[1..]);
      assert forall x :: x in raw <==> x == raw[0] || x in raw[1..];
      if raw[0].url != "" then [raw[0]] + rest else rest
  }

  /** The filter keeps the rows in query order, each as often as it comes:
      it works row by row and distributes over concatenation. */
  lemma {:induction false} WithImageAppend(a: seq<Row>, b: seq<Row>)
    ensures WithImage([]) == []
    ensures forall x :: WithImage([x]) == if x.url != "" then [x] else []
    ensures WithImage(a + b) == WithImage(a) + WithImage(b)
    decreases |a|
  {
    forall x ensures WithImage([x]) == if x.url != "" then [x] else [] {
      WithImageOne(x);
    }
    WithImageConcat(a, b);
  }

  lemma {:induction false} WithImageConcat(a: seq<Row>, b: seq<Row>)
    ensures WithImage(a + b) == WithImage(a) + WithImage(b)
    decreases |a|
  {
    if a != [] {
      var ab := a + b;
      assert ab[0] == a[0] && ab[1..] == a[1..] + b;
      WithImageConcat(a[1..], b);
      WithImageCons(ab);
      WithImageCons(a);
      SeqConsAssoc(if a[0].url != "" then [a[0]] else [], WithImage(a[1..]), WithImage(b));
    } else {
      assert a + b == b;
    }
  }

  lemma SeqConsAssoc(h: seq<Row>, x: seq<Row>, y: seq<Row>)
    ensures h + (x + y) == (h + x) + y
  {
  }

  lemma WithImageOne(x: Row)
    ensures WithImage([x]) == if x.url != "" then [x] else []
  {
    assert [x][1..] == [];
  }

  /** The filter takes the first row, then filters the rest. */
  lemma WithImageCons(raw: seq<Row>)
    requires raw != []
    ensures WithImage(raw) == (if raw[0].url != "" then [raw[0]] else []) + WithImage(raw[1..])
  {
  }

  // ---------------------------------------------------------------------- votes

  /** `voteMap`: a caption id maps to a vote, to `null`, or is absent. */
  type VoteMap = map<string, Option<Vote>>

  /** `voteMap[id] ?? null`. */
  function Lookup(m: VoteMap, id: string): Option<Vote> {
    if id in m then m[id] else None
  }

  /** `isRated`: `voteMap[id] != null`, so a `null` entry is unrated. */
  predicate IsRated(m: VoteMap, id: string) {
    Lookup(m, id).Some?
  }

  /** `computeNextUnratedIndex` from a non-negative start: the first unrated
      row at or after `s`, or the end of the rows. */
  function FirstUnratedFrom(rows: seq<Row>, m: VoteMap, s: nat): (r: nat)
    ensures s <= r
    ensures s <= |rows| ==> r <= |rows|
    ensures s >= |rows| ==> r == s
    ensures forall k :: s <= k < r && k < |rows| ==> IsRated(m, rows[k].id)
    ensures r < |rows| ==> !IsRated(m, rows[r].id)
    decreases |rows| - s
  {
    if s >= |rows| then s
    else if IsRated(m, rows[s].id) then FirstUnratedFrom(rows, m, s + 1)
    else s
  }

  /** One row of the vote query: a caption id and its stored `vote_value`. */
  datatype VoteRow = VoteRow(captionId: string, value: int)

  /** The map the vote-loading loop builds; a later row for the same caption
      overwrites an earlier one. */
  function VotesFrom(data: seq<VoteRow>): (m: VoteMap)
    ensures m.Keys == set k | 0 <= k < |data| :: data[k].captionId
  {
    if data == [] then map[]
    else
      var init := data[..|data| - 1];
      var last := data[|data| - 1];
      var m0 := VotesFrom(init);
      assert (set k | 0 <= k < |data| :: data[k].captionId)
          == (set k | 0 <= k < |init| :: init[k].captionId) + {last.captionId} by {
        forall k | 0 <= k < |init| ensures init[k] == data[k] { }
      }
      m0[last.captionId := ParseVote(last.value)]
  }

  /** The vote loaded for a caption is the parsed value of its last row. */
  lemma {:induction false} LastRowWins(data: seq<VoteRow>, k: nat)
    requires k < |data|
    requires forall j :: k < j < |data| ==> data[j].captionId != data[k].captionId
    ensures data[k].captionId in VotesFrom(data)
    ensures VotesFrom(data)[data[k].captionId] == ParseVote(data[k].value)
  {
    var init := data[..|data| - 1];
    if k < |data| - 1 {
      assert init[k] == data[k];
      LastRowWins(init, k);
    }
  }

  // ---------------------------------------------------------------------- store

  /** The `caption_votes` table: `vote_value` keyed by (profile, caption). */
  type Store = map<(string, string), int>

  /** The outcome of the store calls of one operation: the error of the first
      call (the update, or the delete), and the error of the insert that
      follows an update matching no record. */
  datatype Replies = Replies(first: Option<string>, second: Option<string>)

  /** The update-then-insert of `writeVote` for a raw `vote_value`: fails
      without a user; otherwise updates the record of the user and caption
      and, when the update matched none, inserts it. */
  function WriteValue(store: Store, uid: Option<string>, captionId: string, x: int, replies: Replies)
    : (r: Result<Store, string>)
    ensures uid.None? ==> r == Failure(MissingUser)
    ensures uid.Some? && replies.first.Some? ==> r == Failure(replies.first.value)
    ensures uid.Some? && replies.first.None? && (uid.value, captionId) !in store && replies.second.Some?
      ==> r == Failure(replies.second.value)
    ensures r.Success? <==>
      uid.Some? && replies.first.None? && ((uid.value, captionId) in store || replies.second.None?)
    ensures r.Success? ==> var key := (uid.value, captionId);
      && key in r.value && r.value[key] == x
      && r.value.Keys == store.Keys + {key}
      && (forall k :: k in store && k != key ==> r.value[k] == store[k])
  {
    if uid.None? then Failure(MissingUser)
    else if replies.first.Some? then Failure(replies.first.value)
    else
      var key := (uid.value, captionId);
      if key in store then Success(store[key := x])
      else if replies.second.Some? then Failure(replies.second.value)
      else Success(store[key := x])
  }

  /** `writeVote(captionId, v)`: after a success the store holds exactly one
      record for the user and caption, with the vote's value. */
  function WriteVote(store: Store, uid: Option<string>, captionId: string, v: Vote, replies: Replies)
    : (r: Result<Store, string>)
    ensures uid.None? ==> r == Failure(MissingUser)
    ensures uid.Some? && replies.first.Some? ==> r == Failure(replies.first.value)
    ensures uid.Some? && replies.first.None? && (uid.value, captionId) !in store && replies.second.Some?
      ==> r == Failure(replies.second.value)
    ensures r.Success? <==>
      uid.Some? && replies.first.None? && ((uid.value, captionId) in store || replies.second.None?)
    ensures r.Success? ==> var key := (uid.value, captionId);
      && key in r.value && r.value[key] == v.Value()
      && r.value.Keys == store.Keys + {key}
      && (forall k :: k in store && k != key ==> r.value[k] == store[k])
  {
    WriteValue(store, uid, captionId, v.Value(), replies)
  }

  /** `deleteVote`: fails without a user; otherwise removes the record of the
      user and caption. */
  function DeleteVote(store: Store, uid: Option<string>, captionId: string, replies: Replies)
    : (r: Result<Store, string>)
    ensures uid.None? ==> r == Failure(MissingUser)
    ensures r.Success? <==> uid.Some? && replies.first.None?
    ensures r.Success? ==>
      ((uid.value, captionId) !in r.value && r.value.Keys == store.Keys - {(uid.value, captionId)}
       && (forall k :: k in r.value ==> r.value[k] == store[k]))
  {
    if uid.None? then Failure(MissingUser)
    else if replies.first.Some? then Failure(replies.first.value)
    else Success(store - {(uid.value, captionId)})
  }

  /** A delete after a write leaves the store without the record of the
      user and caption, whatever it held before the write; so a delete
      gives the store back only when the write inserted the record. */
  lemma DeleteAfterWrite(store: Store, uid: string, captionId: string, v: Vote, r1: Replies, r2: Replies)
    requires WriteVote(store, Some(uid), captionId, v, r1).Success?
    requires DeleteVote(WriteVote(store, Some(uid), captionId, v, r1).value, Some(uid), captionId, r2).Success?
    ensures DeleteVote(WriteVote(store, Some(uid), captionId, v, r1).value, Some(uid), captionId, r2).value
      == store - {(uid, captionId)}
    ensures (uid, captionId) !in store ==>
      DeleteVote(WriteVote(store, Some(uid), captionId, v, r1).value, Some(uid), captionId, r2).value == store
  {
    var key := (uid, captionId);
    var w := WriteVote(store, Some(uid), captionId, v, r1).value;
    var d := DeleteVote(w, Some(uid), captionId, r2).value;
    assert d.Keys == (store - {key}).Keys;
    if key !in store {
      assert store - {key} == store;
    }
  }

  /** The record the store holds for the user and caption, if any. */
  function StoredValue(store: Store, uid: string, captionId: string): Option<int> {
    if (uid, captionId) in store then Some(store[(uid, captionId)]) else None
  }

  /** The store call an undo needs to give the store back: the record held
      before the vote is written back, or deleted when there was none. The
      page decides from the vote map instead (`UndoWriteResult`), which
      loses a stored record the map did not show. */
  function RestoreRecord(store: Store, uid: Option<string>, captionId: string, before: Option<int>, replies: Replies)
    : (r: Result<Store, string>)
    ensures uid.None? ==> r == Failure(MissingUser)
    ensures r.Success? ==> var key := (uid.value, captionId);
      && (before.None? ==> key !in r.value)
      && (before.Some? ==> key in r.value && r.value[key] == before.value)
      && (forall k :: k in store && k != key ==> k in r.value && r.value[k] == store[k])
      && (forall k :: k in r.value && k != key ==> k in store)
  {
    match before
    case None => DeleteVote(store, uid, captionId, replies)
    case Some(x) => WriteValue(store, uid, captionId, x, replies)
  }

  /** Writing back the record held before a vote undoes the vote's write
      exactly, for every store. */
  lemma RestoreRecordUndoesWrite(store: Store, uid: string, captionId: string, v: Vote, r1: Replies, r2: Replies)
    requires WriteVote(store, Some(uid), captionId, v, r1).Success?
    requires RestoreRecord(WriteVote(store, Some(uid), captionId, v, r1).value, Some(uid), captionId,
                           StoredValue(store, uid, captionId), r2).Success?
    ensures RestoreRecord(WriteVote(store, Some(uid), captionId, v, r1).value, Some(uid), captionId,
                          StoredValue(store, uid, captionId), r2).value == store
  {
    var w := WriteVote(store, Some(uid), captionId, v, r1).value;
    var d := RestoreRecord(w, Some(uid), captionId, StoredValue(store, uid, captionId), r2).value;
    assert d.Keys == store.Keys;
  }

  // ------------------------------------------------------------ last-seen marker

  /** `getLastSeen()`: the caption id stored for the user, `""` without a user
      or a stored id. */
  function Marker(lastSeen: map<string, string>, uid: Option<string>): string {
    if uid.Some? && uid.value in lastSeen then lastSeen[uid.value] else ""
  }

  /** `if (rows[idx]?.id) setLastSeen(rows[idx].id)`; `setLastSeen` does
      nothing without a user. */
  function MarkRow(lastSeen: map<string, string>, uid: Option<string>, rows: seq<Row>, idx: nat)
    : map<string, string>
  {
    if uid.Some? && idx < |rows| && rows[idx].id != "" then lastSeen[uid.value := rows[idx].id] else lastSeen
  }

  /** `rows.findIndex((r) => r.id === id)`, with `|rows|` for not found. */
  function IndexOfId(rows: seq<Row>, id: string): (k: nat)
    ensures k <= |rows|
    ensures k < |rows| ==> rows[k].id == id
    ensures forall j :: 0 <= j < k ==> rows[j].id != id
  {
    if rows == [] then 0 else if rows[0].id == id then 0 else 1 + IndexOfId(rows[1..], id)
  }

  /** The cursor the restore effect chooses for the marker. */
  function ResumeIndex(rows: seq<Row>, m: VoteMap, marker: string): nat {
    var k := IndexOfId(rows, marker);
    if marker != "" && k < |rows| then FirstUnratedFrom(rows, m, if IsRated(m, marker) then k + 1 else k)
    else FirstUnratedFrom(rows, m, 0)
  }

  /** Resuming: at the marker's row when it is unrated, else at the first
      unrated row after it, and from the top without a known marker. The
      result is always an unrated row or the end. */
  lemma ResumeCases(rows: seq<Row>, m: VoteMap, marker: string)
    ensures var r := ResumeIndex(rows, m, marker); var k := IndexOfId(rows, marker);
      && r <= |rows| && (r < |rows| ==> !IsRated(m, rows[r].id))
      && (marker == "" || k == |rows| ==> r == FirstUnratedFrom(rows, m, 0))
      && (marker != "" && k < |rows| && !IsRated(m, rows[k].id) ==> r == k)
      && (marker != "" && k < |rows| && IsRated(m, rows[k].id) ==>
            k < r && forall j :: k <= j < r && j < |rows| ==> IsRated(m, rows[j].id))
  {
  }

  // ------------------------------------------------------------ session state

  /** An entry of `undoStack`. */
  datatype UndoEntry = UndoEntry(captionId: string, prev: Option<Vote>, indexBefore: nat)

  /** The store write an operation is waiting for; `saving` is on exactly
      while there is one. */
  datatype PendingOp =
    | VoteWrite(captionId: string, v: Vote, prev: Option<Vote>, indexBefore: nat)
    | UndoWrite(entry: UndoEntry)

  /** The state of the page. `restored` stands for `didRestoreRef` and
      `restoreCompleteRef`, which the restore effect sets together and the
      row load clears together; `slowMsg` is the slow-down notice. */
  datatype SessionState = SessionState(
    rows: seq<Row>, userId: Option<string>, voteMap: VoteMap, votesLoaded: bool, i: nat,
    undoStack: seq<UndoEntry>, pending: Option<PendingOp>, lastVoteAt: int,
    errMsg: string, slowMsg: string, restored: bool, pinned: bool,
    lastSeen: map<string, string>, store: Store)

  /** `saving`. */
  predicate Saving(st: SessionState) {
    st.pending.Some?
  }

  /** Every undo entry names a row by its index and id, and, as a vote is only
      cast on an unrated row, records no previous vote. */
  predicate StackOk(rows: seq<Row>, stack: seq<UndoEntry>) {
    forall k :: 0 <= k < |stack| ==>
      stack[k].indexBefore < |rows| && rows[stack[k].indexBefore].id == stack[k].captionId && stack[k].prev.None?
  }

  /** A pending write belongs to the top of the undo stack. */
  predicate PendingOk(st: SessionState) {
    match st.pending
    case None => true
    case Some(op) =>
      && st.userId.Some? && st.undoStack != []
      && var top := st.undoStack[|st.undoStack| - 1];
         match op
         case VoteWrite(cid, _, prev, ib) => top == UndoEntry(cid, prev, ib)
         case UndoWrite(e) => top == e
  }

  /** The cursor invariant: the row at `i`, if there is one, is unrated. */
  predicate CursorOk(st: SessionState) {
    st.i <= |st.rows| && (st.i < |st.rows| ==> !IsRated(st.voteMap, st.rows[st.i].id))
  }

  predicate Inv(st: SessionState) {
    && CursorOk(st)
    && StackOk(st.rows, st.undoStack)
    && PendingOk(st)
    && (!st.votesLoaded ==> !st.restored)
  }

  /** The restore effect is about to move the cursor. */
  predicate RestoreRuns(st: SessionState) {
    st.userId.Some? && st.rows != [] && st.votesLoaded && !st.restored
  }

  /** What the restore effect needs: the invariant, except that the cursor
      may sit on a rated row when the restore is about to move it. */
  predicate RestoreReady(st: SessionState) {
    && st.i <= |st.rows|
    && (CursorOk(st) || RestoreRuns(st))
    && StackOk(st.rows, st.undoStack)
    && PendingOk(st)
    && (!st.votesLoaded ==> !st.restored)
  }

  /** `e?.message || "Unknown error"`. */
  function ErrorText(msg: string): string {
    if msg == "" then UnknownError else msg
  }

  /** Puts a vote back: the key is deleted when there was no vote. */
  function Restored(m: VoteMap, captionId: string, prev: Option<Vote>): VoteMap {
    match prev
    case None => m - {captionId}
    case Some(p) => m[captionId := Some(p)]
  }

  /** `s.slice(0, -1)`. */
  function Pop(stack: seq<UndoEntry>): seq<UndoEntry> {
    if stack == [] then [] else stack[..|stack| - 1]
  }

  /** The session once the rows query has answered: the rows that have an
      image, or no rows and the error message. */
  function Initial(uid: Option<string>, fetched: Result<seq<Row>, string>, store: Store, lastSeen: map<string, string>)
    : SessionState
  {
    var rows := if fetched.Success? then WithImage(fetched.value) else [];
    SessionState(rows, uid, map[], false, 0, [], None, 0,
                 if fetched.Failure? then fetched.error else "", "", false, false, lastSeen, store)
  }

  /** The restore effect: once per load, after the votes, move the cursor to
      the resume index and write the marker. */
  function RestoreStep(st: SessionState): SessionState {
    if st.userId.None? || st.rows == [] || !st.votesLoaded || st.restored then st
    else
      var next := ResumeIndex(st.rows, st.voteMap, Marker(st.lastSeen, st.userId));
      st.(restored := true, i := next, lastSeen := MarkRow(st.lastSeen, st.userId, st.rows, next))
  }

  /** The vote-loading effect followed by the restore effect it enables. */
  function LoadVotesStep(st: SessionState, data: Result<seq<VoteRow>, string>): SessionState {
    if st.userId.None? || st.rows == [] then st
    else
      var m := if data.Success? then VotesFrom(data.value) else st.voteMap;
      RestoreStep(st.(voteMap := m, votesLoaded := true))
  }

  /** `castVote` ignores the call: no current row, no user, or a write under way. */
  predicate CastIgnored(st: SessionState) {
    st.i >= |st.rows| || st.userId.None? || Saving(st)
  }

  /** `castVote` only shows the slow-down notice. */
  predicate CastTooSoon(st: SessionState, now: int) {
    !CastIgnored(st) && now - st.lastVoteAt < MinVoteGapMs
  }

  predicate CastAccepted(st: SessionState, now: int) {
    !CastIgnored(st) && now - st.lastVoteAt >= MinVoteGapMs
  }

  /** `jumpToIndex(idx)`: move the cursor, unpin, and write the marker once
      the restore is complete. */
  function JumpStep(st: SessionState, idx: nat): SessionState {
    st.(i := idx, pinned := false,
        lastSeen := if st.restored then MarkRow(st.lastSeen, st.userId, st.rows, idx) else st.lastSeen)
  }

  /** `castVote(v)` up to the store write. */
  function CastStep(st: SessionState, v: Vote, now: int): SessionState {
    if CastIgnored(st) then st
    else if now - st.lastVoteAt < MinVoteGapMs then st.(slowMsg := SlowDownText)
    else
      var cid := st.rows[st.i].id;
      var prev := Lookup(st.voteMap, cid);
      var m := st.voteMap[cid := Some(v)];
      var recorded := st.(lastVoteAt := now, errMsg := "",
                          undoStack := st.undoStack + [UndoEntry(cid, prev, st.i)], voteMap := m,
                          pending := Some(VoteWrite(cid, v, prev, st.i)));
      JumpStep(recorded, FirstUnratedFrom(st.rows, m, st.i + 1))
  }

  /** The failure branch of `castVote`: back to the row, the stack and the
      vote from before the vote, with the error shown. */
  function RollBackStep(st: SessionState, p: PendingOp, msg: string): SessionState
    requires p.VoteWrite?
  {
    st.(errMsg := ErrorText(msg), i := p.indexBefore, undoStack := Pop(st.undoStack),
        voteMap := Restored(st.voteMap, p.captionId, p.prev),
        lastSeen := MarkRow(st.lastSeen, st.userId, st.rows, p.indexBefore), pending := None)
  }

  /** The rest of `castVote`, once the store write has answered: done on
      success, rolled back on failure. */
  function CompleteVoteStep(st: SessionState, replies: Replies): SessionState
    requires st.pending.Some? && st.pending.value.VoteWrite?
  {
    var p := st.pending.value;
    var res := WriteVote(st.store, st.userId, p.captionId, p.v, replies);
    if res.Success? then st.(store := res.value, pending := None)
    else RollBackStep(st, p, res.error)
  }

  /** `undo()` up to the store call. */
  function UndoStep(st: SessionState): SessionState {
    if st.userId.None? || Saving(st) || st.undoStack == [] then st
    else st.(errMsg := "", pending := Some(UndoWrite(st.undoStack[|st.undoStack| - 1])))
  }

  /** The store call of `undo`: delete the vote when the entry had none,
      else write the previous vote back. */
  function UndoWriteResult(st: SessionState, e: UndoEntry, replies: Replies): Result<Store, string> {
    match e.prev
    case None => DeleteVote(st.store, st.userId, e.captionId, replies)
    case Some(p) => WriteVote(st.store, st.userId, e.captionId, p, replies)
  }

  /** The success branch of `undo`: the entry is popped and the vote, the
      cursor and the marker go back. */
  function UndoneStep(st: SessionState, e: UndoEntry): SessionState {
    st.(voteMap := Restored(st.voteMap, e.captionId, e.prev), undoStack := Pop(st.undoStack),
        i := e.indexBefore, pinned := false,
        lastSeen := MarkRow(st.lastSeen, st.userId, st.rows, e.indexBefore), pending := None)
  }

  /** The rest of `undo`: on failure only the message changes. */
  function CompleteUndoStep(st: SessionState, replies: Replies): SessionState
    requires st.pending.Some? && st.pending.value.UndoWrite?
  {
    var e := st.pending.value.entry;
    var res := UndoWriteResult(st, e, replies);
    if res.Failure? then st.(errMsg := ErrorText(res.error), pending := None)
    else UndoneStep(st.(store := res.value), e)
  }

  // ----------------------------------------------------------- invariant proofs

  lemma InitialInv(uid: Option<string>, fetched: Result<seq<Row>, string>, store: Store, lastSeen: map<string, string>)
    ensures Inv(Initial(uid, fetched, store, lastSeen))
  {
  }

  lemma RestoreKeepsInv(st: SessionState)
    requires RestoreReady(st)
    ensures Inv(RestoreStep(st))
  {
    if RestoreRuns(st) {
      ResumeCases(st.rows, st.voteMap, Marker(st.lastSeen, st.userId));
    }
  }

  lemma LoadVotesKeepsInv(st: SessionState, data: Result<seq<VoteRow>, string>)
    requires Inv(st) && !st.votesLoaded
    ensures Inv(LoadVotesStep(st, data))
  {
    if !(st.userId.None? || st.rows == []) {
      var m := if data.Success? then VotesFrom(data.value) else st.voteMap;
      RestoreKeepsInv(st.(voteMap := m, votesLoaded := true));
    }
  }

  /** An entry that names its row and records no vote may be pushed. */
  lemma StackPush(rows: seq<Row>, stack: seq<UndoEntry>, e: UndoEntry)
    requires StackOk(rows, stack)
    requires e.indexBefore < |rows| && rows[e.indexBefore].id == e.captionId && e.prev.None?
    ensures StackOk(rows, stack + [e])
  {
    forall k | 0 <= k < |stack + [e]|
      ensures (stack + [e])[k].indexBefore < |rows| && rows[(stack + [e])[k].indexBefore].id == (stack + [e])[k].captionId
        && (stack + [e])[k].prev.None?
    {
      if k < |stack| {
        assert (stack + [e])[k] == stack[k];
      }
    }
  }

  /** Popping keeps the stack well formed, and the popped entry names its row. */
  lemma StackPop(rows: seq<Row>, stack: seq<UndoEntry>)
    requires StackOk(rows, stack) && stack != []
    ensures StackOk(rows, Pop(stack))
    ensures var e := stack[|stack| - 1]; e.indexBefore < |rows| && rows[e.indexBefore].id == e.captionId && e.prev.None?
  {
    var p := Pop(stack);
    forall k | 0 <= k < |p|
      ensures p[k].indexBefore < |rows| && rows[p[k].indexBefore].id == p[k].captionId && p[k].prev.None?
    {
      assert p[k] == stack[k];
    }
  }

  lemma CastKeepsInv(st: SessionState, v: Vote, now: int)
    requires Inv(st)
    ensures Inv(CastStep(st, v, now))
  {
    if CastAccepted(st, now) {
      var cid := st.rows[st.i].id;
      assert Lookup(st.voteMap, cid).None?;
      StackPush(st.rows, st.undoStack, UndoEntry(cid, None, st.i));
    }
  }

  lemma CompleteVoteKeepsInv(st: SessionState, replies: Replies)
    requires Inv(st) && st.pending.Some? && st.pending.value.VoteWrite?
    ensures Inv(CompleteVoteStep(st, replies))
  {
    var p := st.pending.value;
    assert st.undoStack[|st.undoStack| - 1] == UndoEntry(p.captionId, p.prev, p.indexBefore);
    StackPop(st.rows, st.undoStack);
    var res := WriteVote(st.store, st.userId, p.captionId, p.v, replies);
    if res.Failure? {
      var st' := RollBackStep(st, p, res.error);
      assert st'.voteMap == st.voteMap - {p.captionId};
      assert CursorOk(st');
    }
  }

  lemma UndoKeepsInv(st: SessionState)
    requires Inv(st)
    ensures Inv(UndoStep(st))
  {
  }

  lemma CompleteUndoKeepsInv(st: SessionState, replies: Replies)
    requires Inv(st) && st.pending.Some? && st.pending.value.UndoWrite?
    ensures Inv(CompleteUndoStep(st, replies))
  {
    var e := st.pending.value.entry;
    assert st.undoStack[|st.undoStack| - 1] == e;
    StackPop(st.rows, st.undoStack);
    var res := UndoWriteResult(st, e, replies);
    if res.Success? {
      var st' := UndoneStep(st.(store := res.value), e);
      assert st'.voteMap == st.voteMap - {e.captionId};
      assert CursorOk(st');
    }
  }

  // ------------------------------------------------------------ session properties

  /** The guards of `castVote`: ignored without a current row or user or while
      saving; within 350 ms of the last accepted vote only the notice shows. */
  lemma CastGuards(st: SessionState, v: Vote, now: int)
    ensures CastIgnored(st) ==> CastStep(st, v, now) == st
    ensures CastTooSoon(st, now) ==> CastStep(st, v, now) == st.(slowMsg := SlowDownText)
  {
  }

  /** An accepted vote pushes one entry for the current row, records the
      vote, and moves the cursor past the rated rows to the next unrated one;
      the marker moves only once the restore is complete. */
  lemma CastAcceptedEffect(st: SessionState, v: Vote, now: int)
    requires Inv(st) && CastAccepted(st, now)
    ensures var st' := CastStep(st, v, now); var cid := st.rows[st.i].id;
      && st'.undoStack == st.undoStack + [UndoEntry(cid, None, st.i)]
      && Lookup(st'.voteMap, cid) == Some(v)
      && (forall id :: id != cid ==> Lookup(st'.voteMap, id) == Lookup(st.voteMap, id))
      && st.i < st'.i <= |st.rows|
      && (forall k :: st.i <= k < st'.i ==> IsRated(st'.voteMap, st.rows[k].id))
      && (st'.i < |st.rows| ==> !IsRated(st'.voteMap, st.rows[st'.i].id))
      && st'.lastVoteAt == now && Saving(st')
      && (!st.restored ==> st'.lastSeen == st.lastSeen)
  {
  }

  /** A failed vote write puts back the votes, the cursor, the undo stack and
      the store as they were before the vote; only `lastVoteAt` stays
      advanced. */
  lemma VoteRollbackRestores(st: SessionState, v: Vote, now: int, replies: Replies)
    requires Inv(st) && CastAccepted(st, now)
    requires WriteVote(st.store, st.userId, st.rows[st.i].id, v, replies).Failure?
    ensures var st2 := CompleteVoteStep(CastStep(st, v, now), replies);
      && st2.i == st.i && st2.undoStack == st.undoStack && st2.store == st.store
      && (forall id :: Lookup(st2.voteMap, id) == Lookup(st.voteMap, id))
      && (st.rows[st.i].id !in st.voteMap ==> st2.voteMap == st.voteMap)
      && st2.lastVoteAt == now && !Saving(st2)
  {
    var st1 := CastStep(st, v, now);
    var cid := st.rows[st.i].id;
    assert Lookup(st.voteMap, cid).None?;
    assert st1.undoStack[..|st1.undoStack| - 1] == st.undoStack;
    var st2 := CompleteVoteStep(st1, replies);
    assert st2.voteMap == st1.voteMap - {cid};
    forall id ensures Lookup(st2.voteMap, id) == Lookup(st.voteMap, id) {
      if id != cid {
        assert (id in st2.voteMap) == (id in st.voteMap);
      }
    }
  }

  /** A vote written and then undone leaves the votes, the cursor and the
      undo stack as they were. In the store the undo deletes the record of
      the user and caption, as the entry records no vote: the store is back
      as it was only when it held no record before the vote. */
  lemma VoteUndoRoundTrip(st: SessionState, v: Vote, now: int, r1: Replies, r2: Replies)
    requires Inv(st) && CastAccepted(st, now)
    requires WriteVote(st.store, st.userId, st.rows[st.i].id, v, r1).Success?
    requires DeleteVote(WriteVote(st.store, st.userId, st.rows[st.i].id, v, r1).value,
                        st.userId, st.rows[st.i].id, r2).Success?
    ensures var st2 := CompleteVoteStep(CastStep(st, v, now), r1);
      && UndoStep(st2).pending.Some? && UndoStep(st2).pending.value.UndoWrite?
      && var st4 := CompleteUndoStep(UndoStep(st2), r2);
         && st4.i == st.i && st4.undoStack == st.undoStack
         && (forall id :: Lookup(st4.voteMap, id) == Lookup(st.voteMap, id))
         && st4.store == st.store - {(st.userId.value, st.rows[st.i].id)}
         && ((st.userId.value, st.rows[st.i].id) !in st.store ==> st4.store == st.store)
         && !Saving(st4)
  {
    var cid := st.rows[st.i].id;
    var uid := st.userId.value;
    var st1 := CastStep(st, v, now);
    var st2 := CompleteVoteStep(st1, r1);
    assert st2.undoStack == st.undoStack + [UndoEntry(cid, None, st.i)];
    var st3 := UndoStep(st2);
    assert st3.pending == Some(UndoWrite(UndoEntry(cid, None, st.i)));
    var st4 := CompleteUndoStep(st3, r2);
    DeleteAfterWrite(st.store, uid, cid, v, r1, r2);
    assert st4.store == st.store - {(uid, cid)};
    assert st4.undoStack == st.undoStack by {
      assert (st.undoStack + [UndoEntry(cid, None, st.i)])[..|st.undoStack|] == st.undoStack;
    }
    assert Lookup(st.voteMap, cid).None?;
    forall id ensures Lookup(st4.voteMap, id) == Lookup(st.voteMap, id) {
      if id != cid {
        assert (id in st4.voteMap) == (id in st.voteMap);
      }
    }
  }

  /** A stored vote that the vote map does not show (the votes not loaded
      yet, their query failed, or a stored value other than 1 and -1) is
      lost by a vote and its undo: here the store holds an up-vote, the
      user votes down before the votes load, undoes, and the record is
      gone. */
  lemma UndoDeletesUnloadedVote()
    ensures var st0 := Initial(Some("u"), Success([Row("c", "x", "img")]), map[("u", "c") := 1], map[]);
      var st1 := CastStep(st0, Down, 1000);
      && st1.pending == Some(VoteWrite("c", Down, None, 0))
      && var st2 := CompleteVoteStep(st1, Replies(None, None));
         && st2.store == map[("u", "c") := -1]
         && UndoStep(st2).pending == Some(UndoWrite(UndoEntry("c", None, 0)))
         && var st4 := CompleteUndoStep(UndoStep(st2), Replies(None, None));
            st0.store == map[("u", "c") := 1] && st4.store == map[] && st4.i == 0 && st4.undoStack == []
  {
    var st0 := Initial(Some("u"), Success([Row("c", "x", "img")]), map[("u", "c") := 1], map[]);
    assert [Row("c", "x", "img")][1..] == [];
    assert st0.rows == [Row("c", "x", "img")];
    var st1 := CastStep(st0, Down, 1000);
    assert st1.undoStack == [UndoEntry("c", None, 0)];
    var st2 := CompleteVoteStep(st1, Replies(None, None));
    assert st2.store == map[("u", "c") := -1];
    var st4 := CompleteUndoStep(UndoStep(st2), Replies(None, None));
    assert st4.store.Keys == {};
  }

  /** A failed undo changes nothing but the error message and the saving flag:
      the entry stays on the stack. */
  lemma FailedUndoKeepsEntry(st: SessionState, replies: Replies)
    requires st.pending.Some? && st.pending.value.UndoWrite?
    requires UndoWriteResult(st, st.pending.value.entry, replies).Failure?
    ensures var st' := CompleteUndoStep(st, replies);
      st' == st.(errMsg := st'.errMsg, pending := None) && st'.errMsg != ""
  {
  }

  /** `undo` does nothing without a user, while saving, or on an empty stack. */
  lemma UndoGuards(st: SessionState)
    ensures st.userId.None? || Saving(st) || st.undoStack == [] ==> UndoStep(st) == st
  {
  }

  /** The restore runs once per load: it needs the votes, a second run
      changes nothing, and it is the only step that sets the flag. */
  lemma RestoreOnce(st: SessionState)
    ensures st.restored ==> RestoreStep(st) == st
    ensures st.userId.Some? && st.rows != [] && st.votesLoaded ==> RestoreStep(st).restored
    ensures !st.votesLoaded ==> RestoreStep(st) == st
    ensures RestoreStep(RestoreStep(st)) == RestoreStep(st)
  {
  }

  // ---------------------------------------------------------------- counters

  function CountUnrated(rows: seq<Row>, m: VoteMap): nat {
    if rows == [] then 0
    else CountUnrated(rows[..|rows| - 1], m) + (if IsRated(m, rows[|rows| - 1].id) then 0 else 1)
  }

  function CountRated(rows: seq<Row>, m: VoteMap): nat {
    if rows == [] then 0
    else (if IsRated(m, rows[0].id) then 1 else 0) + CountRated(rows[1..], m)
  }

  lemma {:induction false} CountRatedAppend(rows: seq<Row>, r: Row, m: VoteMap)
    ensures CountRated(rows + [r], m) == CountRated(rows, m) + (if IsRated(m, r.id) then 1 else 0)
  {
    if rows != [] {
      assert (rows + [r])[1..] == rows[1..] + [r];
      CountRatedAppend(rows[1..], r, m);
    }
  }

  /** Every row is rated or unrated: `ratedCount + unratedCount == rows.length`. */
  lemma {:induction false} RatedPlusUnrated(rows: seq<Row>, m: VoteMap)
    ensures CountRated(rows, m) + CountUnrated(rows, m) == |rows|
  {
    if rows != [] {
      var init := rows[..|rows| - 1];
      RatedPlusUnrated(init, m);
      CountRatedAppend(init, rows[|rows| - 1], m);
      assert init + [rows[|rows| - 1]] == rows;
    }
  }

  lemma {:induction false} CountUnratedPrefix(rows: seq<Row>, m: VoteMap, k: nat)
    requires k <= |rows|
    ensures CountUnrated(rows[..k], m) <= CountUnrated(rows, m)
    decreases |rows|
  {
    if k < |rows| {
      assert rows[..|rows| - 1][..k] == rows[..k];
      CountUnratedPrefix(rows[..|rows| - 1], m, k);
    } else {
      assert rows[..k] == rows;
    }
  }

  /** `unratedPosition`: 0 without a current row, else the unrated rows before
      the cursor, plus one when the current row is unrated. */
  function Position(rows: seq<Row>, m: VoteMap, i: nat): nat {
    if i >= |rows| then 0
    else CountUnrated(rows[..i], m) + (if IsRated(m, rows[i].id) then 0 else 1)
  }

  /** Under the cursor invariant the position counts the current row, and it
      never exceeds the number of unrated rows. */
  lemma PositionBounds(st: SessionState)
    requires Inv(st) && st.i < |st.rows|
    ensures Position(st.rows, st.voteMap, st.i) == CountUnrated(st.rows[..st.i], st.voteMap) + 1
    ensures 1 <= Position(st.rows, st.voteMap, st.i) <= CountUnrated(st.rows, st.voteMap)
  {
    assert st.rows[..st.i + 1][..st.i] == st.rows[..st.i];
    CountUnratedPrefix(st.rows, st.voteMap, st.i + 1);
  }

  // --------------------------------------------------------------- key handling

  datatype KeyAction = CastUp | CastDown | UndoLast | TogglePin | Ignore

  /** The `keydown` handler: nothing while typing in a field; the up and down
      arrows vote, `Z` undoes, the space bar pins the caption. */
  function KeyActionOf(code: string, typing: bool): (a: KeyAction)
    ensures typing ==> a == Ignore
    ensures a == CastUp <==> !typing && code == "ArrowUp"
    ensures a == CastDown <==> !typing && code == "ArrowDown"
    ensures a == UndoLast <==> !typing && code == "KeyZ"
    ensures a == TogglePin <==> !typing && code == "Space"
    ensures a == Ignore <==> typing || code !in {"ArrowUp", "ArrowDown", "KeyZ", "Space"}
  {
    if typing then Ignore
    else if code == "ArrowUp" then CastUp
    else if code == "ArrowDown" then CastDown
    else if code == "KeyZ" then UndoLast
    else if code == "Space" then TogglePin
    else Ignore
  }

  // -------------------------------------------------------------- the session

  class Session {
    const rows: seq<Row>
    const userId: Option<string>
    var voteMap: VoteMap
    var votesLoaded: bool
    var i: nat
    var undoStack: seq<UndoEntry>
    var pending: Option<PendingOp>
    var lastVoteAt: int
    var errMsg: string
    var slowMsg: string
    var restored: bool
    var pinned: bool
    var lastSeen: map<string, string>
    var store: Store

    ghost function State(): SessionState
      reads this
    {
      SessionState(rows, userId, voteMap, votesLoaded, i, undoStack, pending, lastVoteAt,
                   errMsg, slowMsg, restored, pinned, lastSeen, store)
    }

    ghost predicate Valid()
      reads this
    {
      Inv(State())
    }

    /** The session after the rows query (the load effect): flags cleared, no
        votes yet. */
    constructor(uid: Option<string>, fetched: Result<seq<Row>, string>, store0: Store, lastSeen0: map<string, string>)
      ensures State() == Initial(uid, fetched, store0, lastSeen0)
      ensures Valid()
    {
      userId := uid;
      rows := if fetched.Success? then WithImage(fetched.value) else [];
      voteMap, votesLoaded, i, undoStack, pending, lastVoteAt := map[], false, 0, [], None, 0;
      errMsg := if fetched.Failure? then fetched.error else "";
      slowMsg, restored, pinned := "", false, false;
      lastSeen, store := lastSeen0, store0;
      InitialInv(uid, fetched, store0, lastSeen0);
    }

    /** `computeNextUnratedIndex(start)`: the `while` loop bumping `idx`. */
    method ComputeNextUnratedIndex(start: int) returns (idx: nat)
      ensures idx == FirstUnratedFrom(rows, voteMap, if start < 0 then 0 else start)
    {
      idx := if start < 0 then 0 else start;
      ghost var s := idx;
      while idx < |rows| && IsRated(voteMap, rows[idx].id)
        invariant s <= idx
        invariant FirstUnratedFrom(rows, voteMap, s) == FirstUnratedFrom(rows, voteMap, idx)
        decreases |rows| - idx
      {
        idx := idx + 1;
      }
    }

    /** `jumpToIndex(idx)`. */
    method JumpToIndex(idx: nat)
      modifies this
      ensures State() == JumpStep(old(State()), idx)
    {
      var marker := if restored then MarkRow(lastSeen, userId, rows, idx) else lastSeen;
      i, pinned, lastSeen := idx, false, marker;
    }

    /** The restore effect. */
    method Restore()
      requires RestoreReady(State())
      modifies this
      ensures State() == RestoreStep(old(State()))
      ensures Valid()
    {
      RestoreKeepsInv(State());
      if userId.None? || |rows| == 0 || !votesLoaded || restored {
        return;
      }
      var lastId := Marker(lastSeen, userId);
      var nextIdx: nat;
      var idx := IndexOfId(rows, lastId);
      if lastId != "" && idx < |rows| {
        var start := if IsRated(voteMap, lastId) then idx + 1 else idx;
        nextIdx := ComputeNextUnratedIndex(start);
      } else {
        nextIdx := ComputeNextUnratedIndex(0);
      }
      restored, i, lastSeen := true, nextIdx, MarkRow(lastSeen, userId, rows, nextIdx);
    }

    /** The vote-loading loop: a later row for a caption overwrites an
        earlier one. */
    method LoadVoteMap(data: seq<VoteRow>) returns (nextMap: VoteMap)
      ensures nextMap == VotesFrom(data)
    {
      nextMap := map[];
      for k := 0 to |data|
        invariant nextMap == VotesFrom(data[..k])
      {
        assert data[..k + 1][..k] == data[..k];
        nextMap := nextMap[data[k].captionId := ParseVote(data[k].value)];
      }
      assert data[..|data|] == data;
    }

    /** The vote-loading effect, followed by the restore effect it enables:
        `data` is the answer of the vote query for the user and the rows. The
        effect runs once per load of the rows. */
    method LoadVotes(data: Result<seq<VoteRow>, string>)
      requires Valid() && !votesLoaded
      modifies this
      ensures State() == LoadVotesStep(old(State()), data)
      ensures Valid()
    {
      LoadVotesKeepsInv(State(), data);
      if userId.None? || |rows| == 0 {
        return;
      }
      var m := voteMap;
      if data.Success? {
        m := LoadVoteMap(data.value);
      }
      SetVotes(m);
      Restore();
    }

    /** `setVoteMap(nextMap)` and `setVotesLoaded(true)`. */
    method SetVotes(m: VoteMap)
      modifies this
      ensures State() == old(State()).(voteMap := m, votesLoaded := true)
    {
      voteMap, votesLoaded := m, true;
    }

    /** The bookkeeping of an accepted `castVote`: time, message, undo entry,
        vote and the pending write. */
    method RecordVote(captionId: string, v: Vote, now: int)
      modifies this
      ensures State() == old(State()).(lastVoteAt := now, errMsg := "",
        undoStack := old(undoStack) + [UndoEntry(captionId, Lookup(old(voteMap), captionId), old(i))],
        voteMap := old(voteMap)[captionId := Some(v)],
        pending := Some(VoteWrite(captionId, v, Lookup(old(voteMap), captionId), old(i))))
    {
      var prevVote := Lookup(voteMap, captionId);
      lastVoteAt, errMsg := now, "";
      undoStack := undoStack + [UndoEntry(captionId, prevVote, i)];
      voteMap := voteMap[captionId := Some(v)];
      pending := Some(VoteWrite(captionId, v, prevVote, i));
    }

    /** `castVote(v)` at time `now`, up to the store write. */
    method CastVote(v: Vote, now: int)
      requires Valid()
      modifies this
      ensures State() == CastStep(old(State()), v, now)
      ensures Valid()
    {
      CastKeepsInv(State(), v, now);
      if i >= |rows| || userId.None? {
        return;
      }
      if pending.Some? {
        return;
      }
      if now - lastVoteAt < MinVoteGapMs {
        slowMsg := SlowDownText;
        return;
      }
      var captionId := rows[i].id;
      RecordVote(captionId, v, now);
      var nextIdx := ComputeNextUnratedIndex(i + 1);
      JumpToIndex(nextIdx);
    }

    /** The failure branch of `castVote`. */
    method RollBack(p: PendingOp, msg: string)
      requires p.VoteWrite?
      modifies this
      ensures State() == RollBackStep(old(State()), p, msg)
    {
      var restoredMap: VoteMap;
      match p.prev {
        case None => restoredMap := voteMap - {p.captionId};
        case Some(x) => restoredMap := voteMap[p.captionId := Some(x)];
      }
      errMsg, i := ErrorText(msg), p.indexBefore;
      undoStack, voteMap := if undoStack == [] then [] else undoStack[..|undoStack| - 1], restoredMap;
      lastSeen, pending := MarkRow(lastSeen, userId, rows, p.indexBefore), None;
    }

    /** The rest of `castVote` with the replies of the store. */
    method CompleteVote(replies: Replies)
      requires Valid() && pending.Some? && pending.value.VoteWrite?
      modifies this
      ensures State() == CompleteVoteStep(old(State()), replies)
      ensures Valid()
    {
      CompleteVoteKeepsInv(State(), replies);
      var p := pending.value;
      var res := WriteVote(store, userId, p.captionId, p.v, replies);
      if res.Success? {
        store, pending := res.value, None;
      } else {
        RollBack(p, res.error);
      }
    }

    /** `undo()` up to the store call. */
    method Undo()
      requires Valid()
      modifies this
      ensures State() == UndoStep(old(State()))
      ensures Valid()
    {
      UndoKeepsInv(State());
      if userId.None? || pending.Some? {
        return;
      }
      if |undoStack| == 0 {
        return;
      }
      var last := undoStack[|undoStack| - 1];
      errMsg, pending := "", Some(UndoWrite(last));
    }

    /** The success branch of `undo`. */
    method Undone(e: UndoEntry)
      modifies this
      ensures State() == UndoneStep(old(State()), e)
    {
      var restoredMap: VoteMap;
      match e.prev {
        case None => restoredMap := voteMap - {e.captionId};
        case Some(x) => restoredMap := voteMap[e.captionId := Some(x)];
      }
      voteMap, undoStack := restoredMap, if undoStack == [] then [] else undoStack[..|undoStack| - 1];
      i, pinned := e.indexBefore, false;
      lastSeen, pending := MarkRow(lastSeen, userId, rows, e.indexBefore), None;
    }

    /** The rest of `undo` with the replies of the store. */
    method CompleteUndo(replies: Replies)
      requires Valid() && pending.Some? && pending.value.UndoWrite?
      modifies this
      ensures State() == CompleteUndoStep(old(State()), replies)
      ensures Valid()
    {
      CompleteUndoKeepsInv(State(), replies);
      var e := pending.value.entry;
      var res: Result<Store, string>;
      match e.prev {
        case None => res := DeleteVote(store, userId, e.captionId, replies);
        case Some(x) => res := WriteVote(store, userId, e.captionId, x, replies);
      }
      if res.Failure? {
        errMsg, pending := ErrorText(res.error), None;
      } else {
        store := res.value;
        Undone(e);
      }
    }

    /** The space bar: toggle the pinned caption. */
    method TogglePinned()
      modifies this
      ensures State() == old(State()).(pinned := !old(pinned))
    {
      pinned := !pinned;
    }

    /** `unratedCount`: the loop counting rows without a vote. */
    method UnratedCount() returns (c: nat)
      ensures c == CountUnrated(rows, voteMap)
    {
      c := 0;
      for k := 0 to |rows|
        invariant c == CountUnrated(rows[..k], voteMap)
      {
        assert rows[..k + 1][..k] == rows[..k];
        if !IsRated(voteMap, rows[k].id) {
          c := c + 1;
        }
      }
      assert rows[..|rows|] == rows;
    }

    /** `ratedCount`: the rows minus the unrated ones, which is the number of
        rated rows. */
    method RatedCount() returns (c: nat)
      ensures c == CountRated(rows, voteMap)
    {
      var u := UnratedCount();
      RatedPlusUnrated(rows, voteMap);
      c := |rows| - u;
    }

    /** `unratedPosition`: the loop over the rows before the cursor. */
    method UnratedPosition() returns (p: nat)
      ensures p == Position(rows, voteMap, i)
      ensures Valid() && i < |rows| ==> 1 <= p <= CountUnrated(rows, voteMap)
    {
      if i >= |rows| {
        return 0;
      }
      var before := 0;
      for k := 0 to i
        invariant before == CountUnrated(rows[..k], voteMap)
      {
        assert rows[..k + 1][..k] == rows[..k];
        if !IsRated(voteMap, rows[k].id) {
          before := before + 1;
        }
      }
      p := if IsRated(voteMap, rows[i].id) then before else before + 1;
      if Valid() {
        PositionBounds(State());
      }
    }
  }
}
