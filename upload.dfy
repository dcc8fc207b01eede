/** app/upload/page.tsx: what happens to captions after the model returns
    them (`uniqCaptions`, the end of `runPipeline`) and how the caption history
    is grouped by image (`loadHistory`, `captionCount`). The dedupe, the insert
    filter and the grouping are stated over any key function and used with
    `CaptionKey`, the key the page computes. */
module UploadCaptions {
  import opened Wrappers
  import opened JsString
  import opened CaptionKeys
  import opened CaptionLists

  /** The keys of a list of captions: the `seen` set of the page. */
  function KeysOf(key: string -> string, cs: seq<string>): set<string> {
    set c | c in cs :: key(c)
  }

  lemma KeysOfAppend(key: string -> string, cs: seq<string>, c: string)
    ensures KeysOf(key, cs + [c]) == KeysOf(key, cs) + {key(c)}
  {
  }

  // ---------------------------------------------------------------- uniqCaptions

  /** The cleaned, non-empty inputs whose key has not been seen earlier, in
      input order, with no cap; the page cleans with `Trim`. */
  function DedupeBy(clean: string -> string, key: string -> string, arr: seq<string>): seq<string> {
    if arr == [] then []
    else
      var d := DedupeBy(clean, key, arr[..|arr| - 1]);
      var s := clean(arr[|arr| - 1]);
      if s == "" || key(s) in KeysOf(key, d) then d else d + [s]
  }

  function Dedupe(arr: seq<string>): seq<string> {
    DedupeBy(Trim, CaptionKey, arr)
  }

  /** `limit` as the loop in `uniqCaptions` applies it: the length check comes
      after a push, so a limit below 1 still lets one caption through. */
  function Cap(limit: int): nat {
    if limit < 1 then 1 else limit
  }

  /** The first `Cap(limit)` elements of `d`. */
  function CapTo(d: seq<string>, limit: int): seq<string> {
    if |d| <= Cap(limit) then d else d[..Cap(limit)]
  }

  /** `uniqCaptions(arr, limit)`. */
  function Uniq(arr: seq<string>, limit: int): seq<string> {
    CapTo(Dedupe(arr), limit)
  }

  /** A prefix of the full length `Cap(limit)` is what capping gives. */
  lemma CapReached(d: seq<string>, p: seq<string>, limit: int)
    requires |p| == Cap(limit) && |p| <= |d| && d[..|p|] == p
    ensures CapTo(d, limit) == p
  {
  }

  /** A shorter input deduplicates to a prefix. */
  lemma {:induction false} DedupePrefix(clean: string -> string, key: string -> string, arr: seq<string>, j: nat)
    requires j <= |arr|
    ensures var p := DedupeBy(clean, key, arr[..j]);
      |p| <= |DedupeBy(clean, key, arr)| && DedupeBy(clean, key, arr)[..|p|] == p
    decreases |arr|
  {
    if j < |arr| {
      var init := arr[..|arr| - 1];
      assert init[..j] == arr[..j];
      DedupePrefix(clean, key, init, j);
    } else {
      assert arr[..j] == arr;
    }
  }

  /** The set of cleaned inputs. */
  function Cleaned(clean: string -> string, arr: seq<string>): set<string> {
    set x | x in arr :: clean(x)
  }

  /** Every element of `d` is non-empty and a member of `inputs`. */
  predicate AllFrom(d: seq<string>, inputs: set<string>) {
    forall k :: 0 <= k < |d| ==> d[k] != "" && d[k] in inputs
  }

  /** No two elements of `d` share a key. */
  predicate KeysDistinct(key: string -> string, d: seq<string>) {
    forall j, k :: 0 <= j < k < |d| ==> key(d[j]) != key(d[k])
  }

  lemma PushKeepsDistinct(key: string -> string, d: seq<string>, s: string)
    requires KeysDistinct(key, d) && key(s) !in KeysOf(key, d)
    ensures KeysDistinct(key, d + [s])
  {
    var d' := d + [s];
    forall j, k | 0 <= j < k < |d'| ensures key(d'[j]) != key(d'[k]) {
      if k == |d| {
        assert d'[j] == d[j] && d[j] in d;
      }
    }
  }

  /** The elements of the dedupe are non-empty cleaned inputs, pairwise of
      different keys. */
  lemma {:induction false} DedupeShape(clean: string -> string, key: string -> string, arr: seq<string>)
    ensures AllFrom(DedupeBy(clean, key, arr), Cleaned(clean, arr))
    ensures KeysDistinct(key, DedupeBy(clean, key, arr))
  {
    if arr != [] {
      var init := arr[..|arr| - 1];
      var x := arr[|arr| - 1];
      DedupeShape(clean, key, init);
      var d := DedupeBy(clean, key, init);
      var s := clean(x);
      assert arr == init + [x];
      assert Cleaned(clean, init) <= Cleaned(clean, arr);
      assert s in Cleaned(clean, arr);
      if s != "" && key(s) !in KeysOf(key, d) {
        assert DedupeBy(clean, key, arr) == d + [s];
        PushKeepsDistinct(key, d, s);
      } else {
        assert DedupeBy(clean, key, arr) == d;
      }
    }
  }

  /** No non-empty input is lost: its key is the key of some kept caption. */
  lemma {:induction false} DedupeCovers(clean: string -> string, key: string -> string, arr: seq<string>)
    ensures forall i :: 0 <= i < |arr| && clean(arr[i]) != "" ==>
      key(clean(arr[i])) in KeysOf(key, DedupeBy(clean, key, arr))
  {
    if arr != [] {
      var init := arr[..|arr| - 1];
      DedupeCovers(clean, key, init);
      var d := DedupeBy(clean, key, init);
      var s := clean(arr[|arr| - 1]);
      assert KeysOf(key, d) <= KeysOf(key, DedupeBy(clean, key, arr)) by {
        if s != "" && key(s) !in KeysOf(key, d) { KeysOfAppend(key, d, s); }
      }
      forall i | 0 <= i < |arr| && clean(arr[i]) != ""
        ensures key(clean(arr[i])) in KeysOf(key, DedupeBy(clean, key, arr))
      {
        if i < |arr| - 1 {
          assert arr[i] == init[i];
        } else if key(s) !in KeysOf(key, d) {
          KeysOfAppend(key, d, s);
        }
      }
    }
  }

  /** No non-empty input before index `i` has the key `v`. */
  predicate NoEarlierKey(clean: string -> string, key: string -> string, arr: seq<string>, i: nat, v: string) {
    forall j :: 0 <= j < i && j < |arr| && clean(arr[j]) != "" ==> key(clean(arr[j])) != v
  }

  /** The first occurrence wins: a kept caption is the cleaned form of an
      input, and no earlier non-empty input has its key. */
  lemma {:induction false} DedupeFirstWins(clean: string -> string, key: string -> string, arr: seq<string>, k: nat)
    returns (i: nat)
    requires k < |DedupeBy(clean, key, arr)|
    ensures i < |arr| && DedupeBy(clean, key, arr)[k] == clean(arr[i])
    ensures NoEarlierKey(clean, key, arr, i, key(DedupeBy(clean, key, arr)[k]))
  {
    var init := arr[..|arr| - 1];
    var d := DedupeBy(clean, key, init);
    var s := clean(arr[|arr| - 1]);
    if k < |d| {
      i := DedupeFirstWins(clean, key, init, k);
      var v := key(d[k]);
      assert DedupeBy(clean, key, arr)[k] == d[k];
      forall j | 0 <= j < i && j < |arr| && clean(arr[j]) != "" ensures key(clean(arr[j])) != v {
        assert arr[j] == init[j];
      }
    } else {
      assert DedupeBy(clean, key, arr) == d + [s];
      i := |arr| - 1;
      DedupeCovers(clean, key, init);
      forall j | 0 <= j < i && j < |arr| && clean(arr[j]) != "" ensures key(clean(arr[j])) != key(s) {
        assert arr[j] == init[j];
        assert key(clean(init[j])) in KeysOf(key, d);
      }
    }
  }

  /** Trimmed inputs are trimmed. */
  lemma TrimmedInputsAreTrimmed(arr: seq<string>)
    ensures forall t :: t in Cleaned(Trim, arr) ==> IsTrimmed(t)
  {
    forall t | t in Cleaned(Trim, arr) ensures IsTrimmed(t) {
      var x :| x in arr && t == Trim(x);
      TrimIsTrimmed(x);
    }
  }

  /** `uniqCaptions`: at most `max(1, limit)` captions, each a trimmed,
      non-empty input, no two with the same key, and a prefix of the uncapped
      dedupe. */
  lemma UniqShape(arr: seq<string>, limit: int)
    ensures var u := Uniq(arr, limit);
      && |u| <= Cap(limit) && (limit >= 1 ==> |u| <= limit)
      && (forall k :: 0 <= k < |u| ==> u[k] != "" && IsTrimmed(u[k]) && u[k] in Cleaned(Trim, arr))
      && KeysDistinct(CaptionKey, u)
      && u == Dedupe(arr)[..|u|]
  {
    var d := Dedupe(arr);
    var u := Uniq(arr, limit);
    DedupeShape(Trim, CaptionKey, arr);
    TrimmedInputsAreTrimmed(arr);
    assert u == d[..|u|];
    PrefixShape(CaptionKey, d, |u|, Cleaned(Trim, arr));
  }

  /** A prefix of a list keeps its elements' origin and distinct keys. */
  lemma PrefixShape(key: string -> string, d: seq<string>, n: nat, inputs: set<string>)
    requires n <= |d| && AllFrom(d, inputs) && KeysDistinct(key, d)
    ensures AllFrom(d[..n], inputs) && KeysDistinct(key, d[..n])
  {
  }

  /** One more input, one step of the dedupe. */
  lemma DedupeStep(clean: string -> string, key: string -> string, arr: seq<string>, i: nat)
    requires i < |arr|
    ensures var d := DedupeBy(clean, key, arr[..i]); var s := clean(arr[i]);
      DedupeBy(clean, key, arr[..i + 1]) == if s == "" || key(s) in KeysOf(key, d) then d else d + [s]
  {
    assert arr[..i + 1][..i] == arr[..i];
  }

  /** The loop computes the key of an already trimmed caption. */
  lemma KeyOfTrimmed(x: string)
    ensures NormalizeKey(Trim(x)) == CaptionKey(Trim(x))
  {
    TrimIdempotent(x);
  }

  /** Once the dedupe of the first `i` inputs is `Cap(limit)` long, it is
      the capped dedupe of all of them. */
  lemma UniqStopsEarly(arr: seq<string>, i: nat, out: seq<string>, limit: int)
    requires i <= |arr| && out == DedupeBy(Trim, CaptionKey, arr[..i]) && |out| == Cap(limit)
    ensures out == Uniq(arr, limit)
  {
    DedupePrefix(Trim, CaptionKey, arr, i);
    CapReached(Dedupe(arr), out, limit);
  }

  /** `uniqCaptions(arr, limit)` as the page runs it: a loop over the inputs
      with a `seen` set of keys that stops once `limit` captions are out. */
  method UniqCaptions(arr: seq<string>, limit: int := 5) returns (out: seq<string>)
    ensures out == Uniq(arr, limit)
  {
    var seen: set<string> := {};
    out := [];
    var i := 0;
    while i < |arr|
      invariant 0 <= i <= |arr|
      invariant out == DedupeBy(Trim, CaptionKey, arr[..i]) && seen == KeysOf(CaptionKey, out)
      invariant |out| < Cap(limit)
    {
      DedupeStep(Trim, CaptionKey, arr, i);
      var s := Trim(arr[i]);
      i := i + 1;
      if s == "" {
        continue;
      }
      var key := NormalizeKey(s);
      KeyOfTrimmed(arr[i - 1]);
      if key in seen {
        continue;
      }
      seen := seen + {key};
      KeysOfAppend(CaptionKey, out, s);
      out := out + [s];
      if |out| >= limit {
        UniqStopsEarly(arr, i, out, limit);
        return;
      }
    }
    assert arr[..i] == arr;
    assert out == Dedupe(arr);
  }

  // ------------------------------------------------------------ runPipeline tail

  /** One row of the `captions` insert. */
  datatype CaptionInsert = CaptionInsert(
    profileId: string, imageId: string, content: string,
    isPublic: bool, isFeatured: bool, created: string, modified: string)

  /** The insert filter: a caption is new when its key is not empty and not
      among the keys already stored. */
  predicate IsNew(key: string -> string, c: string, stored: set<string>) {
    key(c) != "" && key(c) !in stored
  }

  /** `captions.filter(...).map(...)`: one row per new caption, in order, all
      private, unfeatured, and stamped with the one timestamp `ts`. */
  function PlanInserts(key: string -> string, captions: seq<string>, stored: set<string>,
                       profileId: string, imageId: string, ts: string): (rows: seq<CaptionInsert>)
    ensures |rows| <= |captions|
    ensures forall k :: 0 <= k < |rows| ==>
      && rows[k].profileId == profileId && rows[k].imageId == imageId
      && !rows[k].isPublic && !rows[k].isFeatured
      && rows[k].created == ts && rows[k].modified == ts
  {
    if captions == [] then []
    else
      var head := if IsNew(key, captions[0], stored)
        then [CaptionInsert(profileId, imageId, captions[0], false, false, ts, ts)] else [];
      head + PlanInserts(key, captions[1..], stored, profileId, imageId, ts)
  }

  function Contents(rows: seq<CaptionInsert>): seq<string> {
    seq(|rows|, k requires 0 <= k < |rows| => rows[k].content)
  }

  /** Exactly the new captions are inserted. */
  lemma {:induction false} PlanInsertsExact(key: string -> string, captions: seq<string>, stored: set<string>,
                                            profileId: string, imageId: string, ts: string)
    ensures var rows := PlanInserts(key, captions, stored, profileId, imageId, ts);
      forall c :: c in Contents(rows) <==> c in captions && IsNew(key, c, stored)
  {
    if captions != [] {
      PlanInsertsExact(key, captions[1..], stored, profileId, imageId, ts);
      var rest := PlanInserts(key, captions[1..], stored, profileId, imageId, ts);
      var rows := PlanInserts(key, captions, stored, profileId, imageId, ts);
      assert captions == [captions[0]] + captions[1..];
      if IsNew(key, captions[0], stored) {
        assert Contents(rows) == [captions[0]] + Contents(rest);
      } else {
        assert Contents(rows) == Contents(rest);
      }
    }
  }

  /** The keys of the captions already stored for the profile and image. */
  function StoredKeys(existing: seq<string>): set<string> {
    set e | e in existing :: CaptionKey(e)
  }

  /** The outcome of `runPipeline` after step 4: the captions shown and the
      rows to insert. */
  datatype PipelineResult = PipelineResult(captions: seq<string>, inserts: seq<CaptionInsert>)

  /** `runPipeline` from the step-4 response on: normalise, keep five unique
      captions, fail with "No captions returned." when none is left, and
      otherwise plan the inserts against the captions already stored. */
  method FinishPipeline(step4: Step4Response, existing: seq<string>, profileId: string, imageId: string, ts: string)
    returns (r: Result<PipelineResult, string>)
    ensures r.Failure? <==> Uniq(NormalizeAll(Step4Items(step4)), 5) == []
    ensures r.Failure? ==> r.error == "No captions returned."
    ensures r.Success? ==>
      && r.value.captions == Uniq(NormalizeAll(Step4Items(step4)), 5)
      && 1 <= |r.value.captions| <= 5
      && r.value.inserts == PlanInserts(CaptionKey, r.value.captions, StoredKeys(existing), profileId, imageId, ts)
  {
    var normalized := NormalizeCaptions(Step4Items(step4));
    var captions := UniqCaptions(normalized, 5);
    UniqShape(normalized, 5);
    if |captions| == 0 {
      return Failure("No captions returned.");
    }
    var inserts := PlanInserts(CaptionKey, captions, StoredKeys(existing), profileId, imageId, ts);
    r := Success(PipelineResult(captions, inserts));
  }

  // ---------------------------------------------------------------- loadHistory

  /** One row of the history query; a missing field reads as `""`. */
  datatype HistoryRow = HistoryRow(imageId: string, content: string, created: string, url: string)

  /** One group of the history: an image and its captions. */
  datatype HistoryItem = HistoryItem(imageId: string, imageUrl: string, created: string, captions: seq<string>)

  /** A row is kept only with an image id, a content and an image URL. */
  predicate Usable(r: HistoryRow) {
    r.imageId != "" && r.content != "" && r.url != ""
  }

  /** Index of the group for `id`, or `|gs|` when there is none. */
  function GroupIndex(gs: seq<HistoryItem>, id: string): (k: nat)
    ensures k <= |gs|
    ensures k < |gs| ==> gs[k].imageId == id
    ensures forall j :: 0 <= j < k ==> gs[j].imageId != id
  {
    if gs == [] then 0
    else if gs[0].imageId == id then 0
    else 1 + GroupIndex(gs[1..], id)
  }

  /** The body of the loop of `loadHistory` for one row: a new image opens a
      group with the row's URL and time; a known one takes the row's time if
      it had none, and the caption unless its key is already there. */
  function AddRow(key: string -> string, gs: seq<HistoryItem>, r: HistoryRow): seq<HistoryItem> {
    if !Usable(r) then gs
    else
      var k := GroupIndex(gs, r.imageId);
      if k == |gs| then gs + [HistoryItem(r.imageId, r.url, r.created, [r.content])]
      else
        var g := gs[k];
        var g1 := if g.created == "" then g.(created := r.created) else g;
        if key(r.content) in KeysOf(key, g.captions) then gs[k := g1]
        else gs[k := g1.(captions := g1.captions + [r.content])]
  }

  /** The groups of `loadHistory`, in the order their image first appears. */
  function GroupedBy(key: string -> string, rows: seq<HistoryRow>): seq<HistoryItem> {
    if rows == [] then [] else AddRow(key, GroupedBy(key, rows[..|rows| - 1]), rows[|rows| - 1])
  }

  function Grouped(rows: seq<HistoryRow>): seq<HistoryItem> {
    GroupedBy(CaptionKey, rows)
  }

  /** What the page keeps per group: a non-empty id and URL, and captions that
      are non-empty with pairwise different keys. */
  predicate GroupOk(key: string -> string, g: HistoryItem) {
    && g.imageId != "" && g.imageUrl != "" && g.captions != []
    && (forall k :: 0 <= k < |g.captions| ==> g.captions[k] != "")
    && (forall j, k :: 0 <= j < k < |g.captions| ==> key(g.captions[j]) != key(g.captions[k]))
  }

  predicate GroupsOk(key: string -> string, gs: seq<HistoryItem>) {
    && (forall k :: 0 <= k < |gs| ==> GroupOk(key, gs[k]))
    && (forall j, k :: 0 <= j < k < |gs| ==> gs[j].imageId != gs[k].imageId)
  }

  lemma AddCaptionKeepsOk(key: string -> string, g: HistoryItem, c: string)
    requires GroupOk(key, g) && c != "" && key(c) !in KeysOf(key, g.captions)
    ensures GroupOk(key, g.(captions := g.captions + [c]))
  {
    var cs := g.captions + [c];
    forall j, i | 0 <= j < i < |cs| ensures key(cs[j]) != key(cs[i]) {
      if i == |g.captions| {
        assert cs[j] == g.captions[j] && g.captions[j] in g.captions;
      }
    }
  }

  lemma AddRowKeepsOk(key: string -> string, gs: seq<HistoryItem>, r: HistoryRow)
    requires GroupsOk(key, gs)
    ensures GroupsOk(key, AddRow(key, gs, r))
  {
    if Usable(r) {
      var k := GroupIndex(gs, r.imageId);
      if k < |gs| {
        var g := gs[k];
        var g1 := if g.created == "" then g.(created := r.created) else g;
        if key(r.content) !in KeysOf(key, g.captions) {
          AddCaptionKeepsOk(key, g1, r.content);
        }
      }
    }
  }

  /** One group per image id, and every group well formed. */
  lemma {:induction false} GroupedOk(key: string -> string, rows: seq<HistoryRow>)
    ensures GroupsOk(key, GroupedBy(key, rows))
  {
    if rows != [] {
      GroupedOk(key, rows[..|rows| - 1]);
      AddRowKeepsOk(key, GroupedBy(key, rows[..|rows| - 1]), rows[|rows| - 1]);
    }
  }

  /** A row without an image id, a content or a URL changes nothing. */
  lemma UnusableRowIgnored(rows: seq<HistoryRow>, r: HistoryRow)
    requires !Usable(r)
    ensures Grouped(rows + [r]) == Grouped(rows)
  {
    assert (rows + [r])[..|rows|] == rows;
  }

  lemma {:induction false} GroupIndexAppend(gs: seq<HistoryItem>, g: HistoryItem, id: string)
    ensures GroupIndex(gs + [g], id) ==
      if GroupIndex(gs, id) < |gs| then GroupIndex(gs, id) else if g.imageId == id then |gs| else |gs| + 1
  {
    if gs != [] {
      assert (gs + [g])[1..] == gs[1..] + [g];
      GroupIndexAppend(gs[1..], g, id);
    } else {
      assert [g][1..] == [];
    }
  }

  lemma {:induction false} GroupIndexUpdate(gs: seq<HistoryItem>, k: nat, g: HistoryItem, id: string)
    requires k < |gs| && g.imageId == gs[k].imageId
    ensures GroupIndex(gs[k := g], id) == GroupIndex(gs, id)
  {
    var gs' := gs[k := g];
    assert gs'[0].imageId == gs[0].imageId;
    if gs[0].imageId != id {
      if k == 0 {
        assert gs'[1..] == gs[1..];
      } else {
        assert gs'[1..] == gs[1..][k - 1 := g];
        GroupIndexUpdate(gs[1..], k - 1, g, id);
      }
    }
  }

  /** Adding a row keeps every group where it was and forgets no key. */
  lemma AddRowKeepsGroup(key: string -> string, gs: seq<HistoryItem>, r: HistoryRow, id: string)
    requires GroupIndex(gs, id) < |gs|
    ensures var gs' := AddRow(key, gs, r); var k := GroupIndex(gs, id);
      GroupIndex(gs', id) == k && KeysOf(key, gs[k].captions) <= KeysOf(key, gs'[k].captions)
  {
    if Usable(r) {
      var kr := GroupIndex(gs, r.imageId);
      if kr == |gs| {
        GroupIndexAppend(gs, HistoryItem(r.imageId, r.url, r.created, [r.content]), id);
      } else {
        var g := gs[kr];
        var g1 := if g.created == "" then g.(created := r.created) else g;
        if key(r.content) in KeysOf(key, g.captions) {
          GroupIndexUpdate(gs, kr, g1, id);
        } else {
          GroupIndexUpdate(gs, kr, g1.(captions := g1.captions + [r.content]), id);
          KeysOfAppend(key, g1.captions, r.content);
        }
      }
    }
  }

  /** After a usable row is added, its image has a group holding its key. */
  lemma AddRowHolds(key: string -> string, gs: seq<HistoryItem>, r: HistoryRow)
    requires Usable(r)
    ensures var gs' := AddRow(key, gs, r); var k := GroupIndex(gs', r.imageId);
      k < |gs'| && key(r.content) in KeysOf(key, gs'[k].captions)
  {
    var id := r.imageId;
    var k := GroupIndex(gs, id);
    if k == |gs| {
      GroupIndexAppend(gs, HistoryItem(r.imageId, r.url, r.created, [r.content]), id);
      assert KeysOf(key, [r.content]) == {key(r.content)};
    } else {
      var g := gs[k];
      var g1 := if g.created == "" then g.(created := r.created) else g;
      if key(r.content) in KeysOf(key, g.captions) {
        GroupIndexUpdate(gs, k, g1, id);
      } else {
        GroupIndexUpdate(gs, k, g1.(captions := g1.captions + [r.content]), id);
        KeysOfAppend(key, g1.captions, r.content);
      }
    }
  }

  /** Every usable row is represented: its image has a group, and that group
      holds a caption with the row's key. */
  lemma {:induction false} GroupedCovers(key: string -> string, rows: seq<HistoryRow>, i: nat)
    requires i < |rows| && Usable(rows[i])
    ensures var gs := GroupedBy(key, rows); var k := GroupIndex(gs, rows[i].imageId);
      k < |gs| && key(rows[i].content) in KeysOf(key, gs[k].captions)
  {
    var init := rows[..|rows| - 1];
    var r := rows[|rows| - 1];
    if i < |rows| - 1 {
      assert rows[i] == init[i];
      GroupedCovers(key, init, i);
      AddRowKeepsGroup(key, GroupedBy(key, init), r, rows[i].imageId);
    } else {
      AddRowHolds(key, GroupedBy(key, init), r);
    }
  }

  /** The identity, as a key or a clean function. */
  function Ident(s: string): string {
    s
  }

  /** The usable rows about image `id`, in query order. */
  function RowsFor(rows: seq<HistoryRow>, id: string): (rs: seq<HistoryRow>)
    ensures forall j :: 0 <= j < |rs| ==> Usable(rs[j]) && rs[j].imageId == id
  {
    if rows == [] then []
    else
      var r := rows[|rows| - 1];
      RowsFor(rows[..|rows| - 1], id) + if Usable(r) && r.imageId == id then [r] else []
  }

  /** The contents of some rows, in order. */
  function RowContents(rs: seq<HistoryRow>): (cs: seq<string>)
    ensures |cs| == |rs| && forall j :: 0 <= j < |rs| ==> cs[j] == rs[j].content
  {
    seq(|rs|, j requires 0 <= j < |rs| => rs[j].content)
  }

  /** The first non-empty `created` among some rows, or `""` when there is
      none. */
  function FirstCreated(rs: seq<HistoryRow>): string {
    if rs == [] then ""
    else
      var c := FirstCreated(rs[..|rs| - 1]);
      if c != "" then c else rs[|rs| - 1].created
  }

  /** The image ids of the usable rows, in query order, repeats included. */
  function UsableIds(rows: seq<HistoryRow>): seq<string> {
    if rows == [] then []
    else
      var r := rows[|rows| - 1];
      UsableIds(rows[..|rows| - 1]) + if Usable(r) then [r.imageId] else []
  }

  /** The image ids of the groups, in order. */
  function GroupIds(gs: seq<HistoryItem>): (ids: seq<string>)
    ensures |ids| == |gs| && forall k :: 0 <= k < |gs| ==> ids[k] == gs[k].imageId
  {
    seq(|gs|, k requires 0 <= k < |gs| => gs[k].imageId)
  }

  /** A usable row about `id` leaves a group for `id`. */
  lemma {:induction false} RowsGiveGroup(key: string -> string, rows: seq<HistoryRow>, id: string)
    ensures RowsFor(rows, id) != [] ==> GroupIndex(GroupedBy(key, rows), id) < |GroupedBy(key, rows)|
  {
    if RowsFor(rows, id) != [] {
      var i := RowsForWitness(rows, id);
      GroupedCovers(key, rows, i);
    }
  }

  lemma {:induction false} RowsForWitness(rows: seq<HistoryRow>, id: string) returns (i: nat)
    requires RowsFor(rows, id) != []
    ensures i < |rows| && Usable(rows[i]) && rows[i].imageId == id
  {
    var init := rows[..|rows| - 1];
    var r := rows[|rows| - 1];
    if Usable(r) && r.imageId == id {
      i := |rows| - 1;
    } else {
      i := RowsForWitness(init, id);
      assert rows[i] == init[i];
    }
  }

  /** The groups are the distinct image ids of the usable rows, in the order
      each id first appears. */
  lemma {:induction false} GroupedOrder(key: string -> string, rows: seq<HistoryRow>)
    ensures GroupIds(GroupedBy(key, rows)) == DedupeBy(Ident, Ident, UsableIds(rows))
  {
    if rows != [] {
      var init := rows[..|rows| - 1];
      var r := rows[|rows| - 1];
      var gs := GroupedBy(key, init);
      GroupedOrder(key, init);
      var u := UsableIds(init);
      var d := DedupeBy(Ident, Ident, u);
      if !Usable(r) {
        assert UsableIds(rows) == u + [] == u;
        assert GroupedBy(key, rows) == gs;
      } else {
        var id := r.imageId;
        assert UsableIds(rows) == u + [id];
        assert (u + [id])[..|u|] == u;
        assert Ident(id) == id;
        var kr := GroupIndex(gs, id);
        if kr == |gs| {
          assert id !in KeysOf(Ident, d);
          assert DedupeBy(Ident, Ident, UsableIds(rows)) == d + [id];
          assert GroupIds(GroupedBy(key, rows)) == GroupIds(gs) + [id];
        } else {
          assert d[kr] == id && Ident(d[kr]) == id;
          assert id in KeysOf(Ident, d);
          assert DedupeBy(Ident, Ident, UsableIds(rows)) == d;
        }
      }
    }
  }

  /** Group `g` is what the rows `rs` about its image make: there is at
      least one; the URL is the first row's, the time the first non-empty
      one, and the captions are the contents with repeated keys dropped, in
      query order. */
  predicate MadeFrom(key: string -> string, g: HistoryItem, rs: seq<HistoryRow>) {
    && rs != [] && g.imageUrl == rs[0].url && g.created == FirstCreated(rs)
    && g.captions == DedupeBy(Ident, key, RowContents(rs))
  }

  /** Every group is made from exactly the usable rows about its image. */
  lemma {:induction false} GroupedExact(key: string -> string, rows: seq<HistoryRow>, k: nat)
    requires k < |GroupedBy(key, rows)|
    ensures MadeFrom(key, GroupedBy(key, rows)[k], RowsFor(rows, GroupedBy(key, rows)[k].imageId))
    decreases |rows|
  {
    var init := rows[..|rows| - 1];
    var r := rows[|rows| - 1];
    var gs := GroupedBy(key, init);
    if !Usable(r) {
      assert GroupedBy(key, rows) == gs;
      GroupedExact(key, init, k);
      var rs := RowsFor(init, gs[k].imageId);
      assert RowsFor(rows, gs[k].imageId) == rs + [] == rs;
    } else {
      var id := r.imageId;
      var kr := GroupIndex(gs, id);
      if kr == |gs| && k == |gs| {
        GroupOpened(key, rows);
      } else if k == kr {
        GroupedExact(key, init, kr);
        GroupJoined(key, rows);
      } else {
        GroupedOk(key, init);
        assert k < |gs| && GroupedBy(key, rows)[k] == gs[k];
        assert gs[k].imageId != id by {
          if kr < |gs| {
            assert gs[k].imageId != gs[kr].imageId;
          }
        }
        GroupedExact(key, init, k);
        var rs := RowsFor(init, gs[k].imageId);
        assert RowsFor(rows, gs[k].imageId) == rs + [] == rs;
      }
    }
  }

  /** A usable last row whose image has no group yet opens one made from
      that row alone. */
  lemma {:induction false} GroupOpened(key: string -> string, rows: seq<HistoryRow>)
    requires rows != [] && Usable(rows[|rows| - 1])
    requires GroupIndex(GroupedBy(key, rows[..|rows| - 1]), rows[|rows| - 1].imageId) == |GroupedBy(key, rows[..|rows| - 1])|
    ensures var gs := GroupedBy(key, rows); var n := |GroupedBy(key, rows[..|rows| - 1])|;
      n < |gs| && MadeFrom(key, gs[n], RowsFor(rows, gs[n].imageId))
  {
    var init := rows[..|rows| - 1];
    var r := rows[|rows| - 1];
    var gs0 := GroupedBy(key, init);
    var g := HistoryItem(r.imageId, r.url, r.created, [r.content]);
    assert GroupedBy(key, rows) == gs0 + [g];
    RowsGiveGroup(key, init, r.imageId);
    assert RowsFor(rows, r.imageId) == [r];
    OneRowMakes(key, r);
  }

  /** A group opened by a usable row is made from that row. */
  lemma OneRowMakes(key: string -> string, r: HistoryRow)
    requires Usable(r)
    ensures MadeFrom(key, HistoryItem(r.imageId, r.url, r.created, [r.content]), [r])
  {
    assert RowContents([r]) == [r.content];
    assert [r][..0] == [] && [r.content][..0] == [];
    assert KeysOf(key, []) == {};
  }

  /** A usable last row whose image has a group adds itself to what that
      group is made from. */
  lemma {:induction false} GroupJoined(key: string -> string, rows: seq<HistoryRow>)
    requires rows != [] && Usable(rows[|rows| - 1])
    requires var gs := GroupedBy(key, rows[..|rows| - 1]); var id := rows[|rows| - 1].imageId;
      GroupIndex(gs, id) < |gs| && MadeFrom(key, gs[GroupIndex(gs, id)], RowsFor(rows[..|rows| - 1], id))
    ensures var gs := GroupedBy(key, rows[..|rows| - 1]); var id := rows[|rows| - 1].imageId;
      GroupIndex(gs, id) < |GroupedBy(key, rows)|
      && MadeFrom(key, GroupedBy(key, rows)[GroupIndex(gs, id)], RowsFor(rows, id))
  {
    var init := rows[..|rows| - 1];
    var r := rows[|rows| - 1];
    var gs := GroupedBy(key, init);
    var id := r.imageId;
    var kr := GroupIndex(gs, id);
    var g := gs[kr];
    var rs0 := RowsFor(init, id);
    var rs := rs0 + [r];
    assert RowsFor(rows, id) == rs;
    assert rs[..|rs0|] == rs0 && rs[0] == rs0[0];
    var cs := RowContents(rs0);
    assert RowContents(rs) == cs + [r.content];
    assert (cs + [r.content])[..|cs|] == cs;
    assert Ident(r.content) == r.content;
  }

  /** `AddRow` in the two phases of the loop body: first open an empty group
      for an unknown image, then update the group of the image. */
  lemma AddRowPhases(key: string -> string, gs: seq<HistoryItem>, r: HistoryRow)
    requires Usable(r)
    ensures var id := r.imageId;
      var gs1 := if GroupIndex(gs, id) == |gs| then gs + [HistoryItem(id, r.url, r.created, [])] else gs;
      var k := GroupIndex(gs1, id);
      && k < |gs1|
      && var g := gs1[k];
         var g1 := if g.created == "" then g.(created := r.created) else g;
         AddRow(key, gs, r) ==
           gs1[k := if key(r.content) in KeysOf(key, g.captions) then g1 else g1.(captions := g1.captions + [r.content])]
  {
    var id := r.imageId;
    var g0 := HistoryItem(id, r.url, r.created, []);
    if GroupIndex(gs, id) == |gs| {
      GroupIndexAppend(gs, g0, id);
      assert KeysOf(key, g0.captions) == {};
      assert GroupIndex(gs + [g0], id) == |gs|;
      assert g0.captions + [r.content] == [r.content];
      assert (gs + [g0])[|gs| := g0.(captions := [r.content])] == gs + [HistoryItem(id, r.url, r.created, [r.content])];
    }
  }

  /** The loop state of `loadHistory` stands for the groups `gs`: `order` lists
      their ids, each once; the map holds each group under its id, and `seen`
      holds the keys of its captions. */
  ghost predicate Tracks(key: string -> string, order: seq<string>, byId: map<string, HistoryItem>,
                         seen: map<string, set<string>>, gs: seq<HistoryItem>) {
    && |order| == |gs|
    && (forall k :: 0 <= k < |gs| ==> order[k] == gs[k].imageId && order[k] in byId && byId[order[k]] == gs[k])
    && (forall k :: 0 <= k < |gs| ==> order[k] in seen && seen[order[k]] == KeysOf(key, gs[k].captions))
    && (forall j, k :: 0 <= j < k < |order| ==> order[j] != order[k])
    && (forall id :: id in byId ==> id in order)
  }

  lemma TracksIndex(key: string -> string, order: seq<string>, byId: map<string, HistoryItem>,
                    seen: map<string, set<string>>, gs: seq<HistoryItem>, id: string)
    requires Tracks(key, order, byId, seen, gs)
    ensures id in byId ==> (GroupIndex(gs, id) < |gs| && byId[id] == gs[GroupIndex(gs, id)]
      && id in seen && seen[id] == KeysOf(key, gs[GroupIndex(gs, id)].captions))
    ensures id !in byId ==> GroupIndex(gs, id) == |gs|
  {
    if id in byId {
      var k :| 0 <= k < |order| && order[k] == id;
      assert gs[k].imageId == id;
      assert GroupIndex(gs, id) == k;
    }
  }

  /** Opening an empty group for an image not yet in the map. */
  lemma TracksOpen(key: string -> string, order: seq<string>, byId: map<string, HistoryItem>,
                   seen: map<string, set<string>>, gs: seq<HistoryItem>, g0: HistoryItem)
    requires Tracks(key, order, byId, seen, gs) && g0.imageId !in byId && g0.captions == []
    ensures Tracks(key, order + [g0.imageId], byId[g0.imageId := g0], seen[g0.imageId := {}], gs + [g0])
  {
    assert KeysOf(key, g0.captions) == {};
    forall k | 0 <= k < |gs| ensures order[k] != g0.imageId {
      assert order[k] in byId;
    }
  }

  /** Replacing the group of an image already in the map. */
  lemma TracksUpdate(key: string -> string, order: seq<string>, byId: map<string, HistoryItem>,
                     seen: map<string, set<string>>, gs: seq<HistoryItem>, g: HistoryItem)
    requires Tracks(key, order, byId, seen, gs) && g.imageId in byId
    ensures GroupIndex(gs, g.imageId) < |gs|
    ensures Tracks(key, order, byId[g.imageId := g], seen[g.imageId := KeysOf(key, g.captions)],
                   gs[GroupIndex(gs, g.imageId) := g])
  {
    TracksIndex(key, order, byId, seen, gs, g.imageId);
    TracksReplace(key, order, byId, seen, gs, GroupIndex(gs, g.imageId), g);
  }

  /** Replacing group `at` by a group for the same image. */
  lemma TracksReplace(key: string -> string, order: seq<string>, byId: map<string, HistoryItem>,
                      seen: map<string, set<string>>, gs: seq<HistoryItem>, at: nat, g: HistoryItem)
    requires Tracks(key, order, byId, seen, gs) && at < |gs| && gs[at].imageId == g.imageId
    ensures Tracks(key, order, byId[g.imageId := g], seen[g.imageId := KeysOf(key, g.captions)], gs[at := g])
  {
    var id := g.imageId;
    var gs' := gs[at := g];
    var byId' := byId[id := g];
    var seen' := seen[id := KeysOf(key, g.captions)];
    forall k | 0 <= k < |gs'|
      ensures order[k] == gs'[k].imageId && order[k] in byId' && byId'[order[k]] == gs'[k]
      ensures order[k] in seen' && seen'[order[k]] == KeysOf(key, gs'[k].captions)
    {
      if k != at {
        assert order[k] != order[at];
      }
    }
  }

  /** The body of the loop of `loadHistory` for one row, on the map of groups,
      the map of `seen` sets and the order in which the map was filled. */
  method MergeRow(byId: map<string, HistoryItem>, seen: map<string, set<string>>, order: seq<string>,
                  key: string -> string, r: HistoryRow, ghost gs: seq<HistoryItem>)
    returns (byId': map<string, HistoryItem>, seen': map<string, set<string>>, order': seq<string>)
    requires Tracks(key, order, byId, seen, gs)
    ensures Tracks(key, order', byId', seen', AddRow(key, gs, r))
  {
    byId', seen', order' := byId, seen, order;
    if !Usable(r) {
      return;
    }
    var id := r.imageId;
    TracksIndex(key, order', byId', seen', gs, id);
    AddRowPhases(key, gs, r);
    ghost var gs1 := gs;
    if id !in byId' {
      var g0 := HistoryItem(id, r.url, r.created, []);
      TracksOpen(key, order', byId', seen', gs, g0);
      byId' := byId'[id := g0];
      seen' := seen'[id := {}];
      order' := order' + [id];
      gs1 := gs + [g0];
    }
    TracksIndex(key, order', byId', seen', gs1, id);
    var g := byId'[id];
    if g.created == "" {
      g := g.(created := r.created);
    }
    var k := key(r.content);
    ghost var at := GroupIndex(gs1, id);
    if k in seen'[id] {
      assert AddRow(key, gs, r) == gs1[at := g];
      TracksUpdate(key, order', byId', seen', gs1, g);
      byId' := byId'[id := g];
    } else {
      KeysOfAppend(key, g.captions, r.content);
      var g2 := g.(captions := g.captions + [r.content]);
      assert AddRow(key, gs, r) == gs1[at := g2];
      TracksUpdate(key, order', byId', seen', gs1, g2);
      seen' := seen'[id := seen'[id] + {k}];
      byId' := byId'[id := g2];
    }
  }

  /** `loadHistory`: the rows in query order go through a `Map` of groups
      keyed by image id, each with a `seen` set of caption keys; the groups
      come out in the order their image first appeared. */
  method LoadHistory(rows: seq<HistoryRow>) returns (groups: seq<HistoryItem>)
    ensures groups == Grouped(rows)
  {
    var byId: map<string, HistoryItem> := map[];
    var seen: map<string, set<string>> := map[];
    var order: seq<string> := [];
    for i := 0 to |rows|
      invariant Tracks(CaptionKey, order, byId, seen, Grouped(rows[..i]))
    {
      assert rows[..i + 1][..i] == rows[..i];
      byId, seen, order := MergeRow(byId, seen, order, CaptionKey, rows[i], Grouped(rows[..i]));
    }
    assert rows[..|rows|] == rows;
    groups := [];
    for k := 0 to |order|
      invariant groups == Grouped(rows)[..k]
    {
      groups := groups + [byId[order[k]]];
    }
  }

  // ---------------------------------------------------------------- captionCount

  /** The number of captions over all groups. */
  function TotalCaptions(gs: seq<HistoryItem>): nat {
    if gs == [] then 0 else TotalCaptions(gs[..|gs| - 1]) + |gs[|gs| - 1].captions|
  }

  /** `captionCount`: the loop that adds up the group sizes. */
  method CaptionCount(history: seq<HistoryItem>) returns (n: nat)
    ensures n == TotalCaptions(history)
  {
    n := 0;
    for k := 0 to |history|
      invariant n == TotalCaptions(history[..k])
    {
      assert history[..k + 1][..k] == history[..k];
      n := n + |history[k].captions|;
    }
    assert history[..|history|] == history;
  }

  lemma {:induction false} TotalCaptionsUpdate(gs: seq<HistoryItem>, k: nat, g: HistoryItem)
    requires k < |gs|
    ensures TotalCaptions(gs[k := g]) + |gs[k].captions| == TotalCaptions(gs) + |g.captions|
  {
    var n := |gs| - 1;
    if k < n {
      assert gs[k := g][..n] == gs[..n][k := g];
      TotalCaptionsUpdate(gs[..n], k, g);
    } else {
      assert gs[k := g][..n] == gs[..n];
    }
  }

  /** Each usable row adds at most one caption to the history, so the count
      never exceeds the number of rows read. */
  lemma {:induction false} CaptionCountBound(key: string -> string, rows: seq<HistoryRow>)
    ensures TotalCaptions(GroupedBy(key, rows)) <= |rows|
  {
    if rows != [] {
      var init := rows[..|rows| - 1];
      CaptionCountBound(key, init);
      AddRowTotal(key, GroupedBy(key, init), rows[|rows| - 1]);
    }
  }

  /** One row adds at most one caption. */
  lemma AddRowTotal(key: string -> string, gs: seq<HistoryItem>, r: HistoryRow)
    ensures TotalCaptions(AddRow(key, gs, r)) <= TotalCaptions(gs) + 1
  {
    if Usable(r) {
      var k := GroupIndex(gs, r.imageId);
      if k < |gs| {
        var g := gs[k];
        var g1 := if g.created == "" then g.(created := r.created) else g;
        TotalCaptionsUpdate(gs, k, g1);
        TotalCaptionsUpdate(gs, k, g1.(captions := g1.captions + [r.content]));
      } else {
        assert (gs + [HistoryItem(r.imageId, r.url, r.created, [r.content])])[..|gs|] == gs;
      }
    }
  }
}
