/**
  The store's operations as they run: loops over batches and chunks of guids, each
  chunk one statement. Every method is proved to have the effect of a single step of
  the state machine.
 */
module CloudStore {
  import opened Collections
  import opened CloudDb
  import opened CloudRuns

  /** Keeps the newest record per GUID; a later record wins a tie. */
  function KeepNewest(rows: seq<CloudRow>): map<string, CloudRow> {
    if rows == [] then map[]
    else
      var kept, r := KeepNewest(rows[..|rows| - 1]), rows[|rows| - 1];
      if r.guid == "" || (r.guid in kept && r.timestampMs < kept[r.guid].timestampMs) then kept
      else kept[r.guid := r]
  }

  /** Which record of a batch is written for a GUID. */
  ghost predicate Newest(rows: seq<CloudRow>, i: nat)
    requires i < |rows|
  {
    && rows[i].guid != ""
    && forall j :: 0 <= j < |rows| && rows[j].guid == rows[i].guid ==>
         rows[j].timestampMs < rows[i].timestampMs || (rows[j].timestampMs == rows[i].timestampMs && j <= i)
  }

  predicate Occurs(rows: seq<CloudRow>, g: string) {
    exists i :: 0 <= i < |rows| && rows[i].guid == g
  }

  lemma {:induction false} KeepsEveryGuid(rows: seq<CloudRow>, g: string)
    ensures g in KeepNewest(rows) <==> g != "" && Occurs(rows, g)
  {
    if rows != [] {
      var k := |rows| - 1;
      KeepsEveryGuid(rows[..k], g);
      OccursSplit(rows, g);
    }
  }

  lemma OccursSplit(rows: seq<CloudRow>, g: string)
    requires rows != []
    ensures Occurs(rows, g) <==> Occurs(rows[..|rows| - 1], g) || rows[|rows| - 1].guid == g
  {
    var k := |rows| - 1;
    assert forall i :: 0 <= i < k ==> rows[..k][i] == rows[i];
    if Occurs(rows[..k], g) {
      var i :| 0 <= i < k && rows[..k][i].guid == g;
      assert rows[i].guid == g;
    }
    if Occurs(rows, g) && rows[k].guid != g {
      var i :| 0 <= i < |rows| && rows[i].guid == g;
      assert rows[..k][i].guid == g;
    }
  }

  /** What is written for a GUID is exactly its newest record, the last one on a tie. */
  lemma {:induction false} KeepsTheNewest(rows: seq<CloudRow>, g: string) returns (i: nat)
    requires g in KeepNewest(rows)
    ensures i < |rows| && Newest(rows, i) && rows[i].guid == g && KeepNewest(rows)[g] == rows[i]
  {
    var k := |rows| - 1;
    var init, r := rows[..k], rows[k];
    assert forall j :: 0 <= j < k ==> init[j] == rows[j];
    if g !in KeepNewest(init) {
      KeepsEveryGuid(init, g);
      forall j | 0 <= j < k
        ensures rows[j].guid != g
      {
        assert init[j].guid == rows[j].guid;
      }
      i := k;
    } else {
      i := KeepsTheNewest(init, g);
      forall j | 0 <= j < k && rows[j].guid == g
        ensures rows[j].timestampMs <= rows[i].timestampMs
        ensures rows[j].timestampMs == rows[i].timestampMs ==> j <= i
      {
        assert init[j].guid == init[i].guid;
      }
      if r.guid == g && r.timestampMs >= init[i].timestampMs {
        i := k;
      }
    }
  }

  lemma NewestIsKept(rows: seq<CloudRow>, i: nat)
    requires i < |rows| && Newest(rows, i)
    ensures rows[i].guid in KeepNewest(rows) && KeepNewest(rows)[rows[i].guid] == rows[i]
  {
    KeepsEveryGuid(rows, rows[i].guid);
    assert Occurs(rows, rows[i].guid);
    var j := KeepsTheNewest(rows, rows[i].guid);
    assert j == i;
  }

  // ---- What a stored row says ------------------------------------------------------------

  /** The record a stored row stands for, column by column. */
  function ReadBack(g: string, r: Row): CloudRow {
    CloudRow(guid := g,
             recordName := r.meta.recordName,
             chatId := Coalesce(r.meta.chatId),
             portalId := Coalesce(r.portalId),
             timestampMs := r.timestampMs,
             sender := Coalesce(r.sender),
             isFromMe := r.meta.isFromMe,
             text := Coalesce(r.text),
             subject := Coalesce(r.subject),
             service := Coalesce(r.meta.service),
             deleted := r.deleted,
             tapbackType := r.tapbackType,
             tapbackTarget := Coalesce(r.meta.tapbackTarget),
             tapbackEmoji := Coalesce(r.tapbackEmoji),
             attachments := Coalesce(r.attachments),
             dateReadMs := r.meta.dateReadMs,
             hasBody := r.meta.hasBody,
             replyGuid := Coalesce(r.meta.replyGuid),
             replyPart := Coalesce(r.meta.replyPart))
  }

  /** What the record becomes next to the row already there: deletion, read time and reply stick. */
  function Sticking(c: CloudRow, prior: CloudRow): CloudRow {
    c.(deleted := prior.deleted || c.deleted,
       dateReadMs := if c.dateReadMs > prior.dateReadMs then c.dateReadMs else prior.dateReadMs,
       replyGuid := if c.replyGuid != "" then c.replyGuid else prior.replyGuid,
       replyPart := if c.replyGuid != "" then c.replyPart else prior.replyPart)
  }

  /** A scrubbed row takes nothing that scrubbing removed. */
  function KeepingScrubbed(c: CloudRow, prior: CloudRow): CloudRow {
    c.(sender := prior.sender, text := prior.text, subject := prior.subject, tapbackEmoji := prior.tapbackEmoji)
  }

  /** After a write at the given time the record can be read back from the table. */
  ghost predicate Recorded(before: map<string, Row>, after: map<string, Row>, c: CloudRow, now: int) {
    c.guid in after &&
    var g := c.guid;
    var r := after[g];
    && r.updatedTs == now
    && if g !in before then
         ReadBack(g, r) == c && r.meta.createdTs == now && !r.scrubbed && !r.messageDeleted
       else
         var prior := ReadBack(g, before[g]);
         && ReadBack(g, r)
            == (if before[g].scrubbed then KeepingScrubbed(Sticking(c, prior), prior) else Sticking(c, prior))
         && r.meta.createdTs == before[g].meta.createdTs
         && r.scrubbed == before[g].scrubbed && r.messageDeleted == before[g].messageDeleted
  }

  lemma UpsertRecords(db: Db, rows: map<string, CloudRow>, now: int, g: string)
    requires g in rows && rows[g].guid == g
    ensures Recorded(db.msgs, Apply(db, Upsert(rows, now)).msgs, rows[g], now)
  {
    UpsertAt(db, rows, now, g);
  }

  /** Every record that counts can be read back after the batch, and no other row changes. */
  lemma BatchReadsBack(db: Db, rows: seq<CloudRow>, now: int)
    ensures var after := Apply(db, Upsert(KeepNewest(rows), now)).msgs;
      && (forall i: nat :: i < |rows| && Newest(rows, i) ==> Recorded(db.msgs, after, rows[i], now))
      && (forall g :: g == "" || !Occurs(rows, g) ==>
            (g in after <==> g in db.msgs) && (g in after ==> after[g] == db.msgs[g]))
  {
    var kept := KeepNewest(rows);
    UpsertKeys(db, kept, now);
    forall i: nat | i < |rows| && Newest(rows, i)
      ensures Recorded(db.msgs, Apply(db, Upsert(kept, now)).msgs, rows[i], now)
    {
      NewestIsKept(rows, i);
      UpsertRecords(db, kept, now, rows[i].guid);
    }
    forall g | g == "" || !Occurs(rows, g)
      ensures g !in kept
      ensures g in db.msgs ==> Apply(db, Upsert(kept, now)).msgs[g] == db.msgs[g]
    {
      KeepsEveryGuid(rows, g);
      if g in db.msgs {
        UpsertAt(db, kept, now, g);
      }
    }
  }

  function Guids(rows: seq<string>): set<string> {
    set g | g in rows
  }

  class Store {
    var msgs: map<string, Row>
    var chats: map<string, Chat>
    var delivered: set<Delivered>
    const bridgeFiltered: bool

    ghost function View(): Db
      reads this
    {
      Db(msgs, chats, delivered)
    }

    /** The deduplication loop of upsertMessageBatch. */
    static method Deduplicate(rows: seq<CloudRow>) returns (rowsByGuid: map<string, CloudRow>, order: seq<string>)
      ensures rowsByGuid == KeepNewest(rows)
      ensures Guids(order) == rowsByGuid.Keys
      ensures forall j, k :: 0 <= j < k < |order| ==> order[j] != order[k]
    {
      rowsByGuid, order := map[], [];
      for i := 0 to |rows|
        invariant rowsByGuid == KeepNewest(rows[..i])
        invariant Guids(order) == rowsByGuid.Keys
        invariant forall j, k :: 0 <= j < k < |order| ==> order[j] != order[k]
      {
        var row := rows[i];
        assert rows[..i + 1][..i] == rows[..i];
        if row.guid != "" {
          if row.guid !in rowsByGuid {
            assert row.guid !in Guids(order);
            rowsByGuid := rowsByGuid[row.guid := row];
            order := order + [row.guid];
          } else if row.timestampMs >= rowsByGuid[row.guid].timestampMs {
            rowsByGuid := rowsByGuid[row.guid := row];
          }
        }
      }
      assert rows[..|rows|] == rows;
    }

    /** The statement loop of upsertMessageBatch: one INSERT ... ON CONFLICT per GUID. */
    static method WriteRows(before: map<string, Row>, rows: map<string, CloudRow>, order: seq<string>, now: int)
      returns (msgs: map<string, Row>)
      requires Guids(order) == rows.Keys
      requires forall j, k :: 0 <= j < k < |order| ==> order[j] != order[k]
      ensures msgs.Keys == before.Keys + rows.Keys
      ensures forall g :: g in msgs ==> msgs[g] == Written(before, rows, order, g, now)
    {
      msgs := before;
      for i := 0 to |order|
        invariant msgs.Keys == before.Keys + Guids(order[..i])
        invariant forall g :: g in msgs ==> msgs[g] == Written(before, rows, order[..i], g, now)
      {
        var g := order[i];
        assert g in Guids(order) && g !in order[..i];
        assert order[..i + 1] == order[..i] + [g];
        WriteOne(before, rows, order[..i], g, now, msgs);
        msgs := msgs[g := if g in msgs then Merge(msgs[g], rows[g], now) else Fresh(rows[g], now)];
      }
      assert order[..|order|] == order;
    }

    /** One more statement writes one more GUID. */
    static lemma WriteOne(before: map<string, Row>, rows: map<string, CloudRow>, done: seq<string>, g: string, now: int,
                          msgs: map<string, Row>)
      requires g in rows && g !in done
      requires msgs.Keys == before.Keys + Guids(done)
      requires forall x :: x in msgs ==> msgs[x] == Written(before, rows, done, x, now)
      ensures var next := msgs[g := if g in msgs then Merge(msgs[g], rows[g], now) else Fresh(rows[g], now)];
        && next.Keys == before.Keys + Guids(done + [g])
        && forall x :: x in next ==> next[x] == Written(before, rows, done + [g], x, now)
    {
      assert g in Guids(done + [g]);
    }

    /** upsertMessageBatch. */
    method UpsertMessageBatch(rows: seq<CloudRow>, now: int)
      modifies this`msgs
      ensures View() == Apply(old(View()), Upsert(KeepNewest(rows), now))
      ensures forall i: nat :: i < |rows| && Newest(rows, i) ==> Recorded(old(msgs), msgs, rows[i], now)
      ensures forall g :: g == "" || !Occurs(rows, g) ==>
        (g in msgs <==> g in old(msgs)) && (g in msgs ==> msgs[g] == old(msgs)[g])
    {
      var rowsByGuid, order := Deduplicate(rows);
      ghost var before := View();
      BatchReadsBack(before, rows, now);
      msgs := WriteRows(msgs, rowsByGuid, order, now);
      UpsertedTable(before, rowsByGuid, order, msgs, now);
    }

    /** Value of row g once the guids in done have been written. */
    static function Written(before: map<string, Row>, rows: map<string, CloudRow>, done: seq<string>, g: string,
                            now: int): Row {
      if g in done && g in rows then
        if g in before then Merge(before[g], rows[g], now) else Fresh(rows[g], now)
      else if g in before then before[g]
      else Minimal(None, 0, false, now)
    }

    static lemma UpsertedTable(before: Db, rows: map<string, CloudRow>, order: seq<string>, msgs: map<string, Row>,
                               now: int)
      requires Guids(order) == rows.Keys
      requires msgs.Keys == before.msgs.Keys + rows.Keys
      requires forall g :: g in msgs ==> msgs[g] == Written(before.msgs, rows, order, g, now)
      ensures msgs == Apply(before, Upsert(rows, now)).msgs
    {
      var result := Apply(before, Upsert(rows, now)).msgs;
      UpsertKeys(before, rows, now);
      forall g | g in msgs
        ensures msgs[g] == result[g]
      {
        assert g in Guids(order) <==> g in rows.Keys;
        UpsertAt(before, rows, now, g);
      }
    }

    /** The UPDATE of softDeleteRow. */
    static function SoftDeleteSpellings(msgs: map<string, Row>, guid: string, portal: string,
                                        messageDeleted: bool): map<string, Row> {
      map g | g in msgs ::
        if Upper(g) == Upper(guid) then
          Scrub(msgs[g]).(deleted := true, messageDeleted := msgs[g].messageDeleted || messageDeleted,
                          portalId := RouteIfUnset(msgs[g].portalId, portal))
        else msgs[g]
    }

    static function Stub(portal: string, messageDeleted: bool, now: int): Row {
      Minimal(if portal == "" then None else Some(portal), now, false, now)
        .(deleted := true, messageDeleted := messageDeleted, scrubbed := true)
    }

    static lemma SoftDeleteStep(db: Db, guid: string, portal: string, messageDeleted: bool, now: int)
      ensures var updated := SoftDeleteSpellings(db.msgs, guid, portal, messageDeleted);
        var spelled := exists g :: g in db.msgs && Upper(g) == Upper(guid);
        Apply(db, SoftDelete(guid, portal, messageDeleted, now)).msgs
        == if spelled then updated else updated[guid := Stub(portal, messageDeleted, now)]
    {
      var step := SoftDelete(guid, portal, messageDeleted, now);
      SoftDeleteTouches(db, guid, portal, messageDeleted, now);
      SoftDeleteInserts(db, guid, portal, messageDeleted, now);
      assert Apply(db, step).msgs == SoftDeleteSpellings(db.msgs, guid, portal, messageDeleted) + Inserted(db, step);
    }

    static lemma SoftDeleteTouches(db: Db, guid: string, portal: string, messageDeleted: bool, now: int)
      ensures var step := SoftDelete(guid, portal, messageDeleted, now);
        SoftDeleteSpellings(db.msgs, guid, portal, messageDeleted)
        == map g | g in db.msgs && !Removed(db, step, g, db.msgs[g]) :: Touch(db, step, g, db.msgs[g])
    {}

    static lemma SoftDeleteInserts(db: Db, guid: string, portal: string, messageDeleted: bool, now: int)
      ensures Inserted(db, SoftDelete(guid, portal, messageDeleted, now))
           == if exists g :: g in db.msgs && Upper(g) == Upper(guid) then map[]
              else map[guid := Stub(portal, messageDeleted, now)]
    {}

    /** softDeleteRow: update every spelling, or insert a stub when no row was affected. */
    method SoftDeleteRow(guid: string, portal: string, messageDeleted: bool, now: int)
      modifies this`msgs
      ensures View() == Apply(old(View()), SoftDelete(guid, portal, messageDeleted, now))
    {
      ghost var before := View();
      SoftDeleteStep(before, guid, portal, messageDeleted, now);
      var affected := set g | g in msgs && Upper(g) == Upper(guid);
      msgs := SoftDeleteSpellings(msgs, guid, portal, messageDeleted);
      if affected != {} {
        ghost var g :| g in affected;
        assert g in before.msgs && Upper(g) == Upper(guid);
        return;
      }
      assert forall g :: g in before.msgs && Upper(g) == Upper(guid) ==> g in affected;
      if guid !in msgs {
        msgs := msgs[guid := Stub(portal, messageDeleted, now)];
      }
    }

    /** Statements whose second application to a row changes nothing. */
    static predicate Repeatable(step: Step) {
      step.UndeleteRecycle? || step.BeginRehydrate? || step.EndRehydrate?
    }

    static lemma TouchTwice(db: Db, step: Step, g: string, r: Row)
      requires Repeatable(step)
      ensures Touch(db, step, g, Touch(db, step, g, r)) == Touch(db, step, g, r)
    {}

    /** The shared chunk loop: one UPDATE ... WHERE guid IN (chunk) per chunk. */
    method UpdateInChunks(step: Step, guids: seq<string>, chunkSize: nat)
      requires Repeatable(step) && chunkSize > 0
      requires forall g :: g in msgs && g !in guids ==> Touch(View(), step, g, msgs[g]) == msgs[g]
      modifies this`msgs
      ensures View() == Apply(old(View()), step)
    {
      var before := Db(msgs, chats, delivered);
      var start := 0;
      while start < |guids|
        invariant 0 <= start <= |guids|
        invariant TouchedSoFar(before, step, guids[..start], msgs)
      {
        var end := if start + chunkSize < |guids| then start + chunkSize else |guids|;
        var chunk := guids[start..end];
        assert guids[..end] == guids[..start] + chunk;
        ChunkTouched(before, step, guids[..start], chunk, msgs);
        msgs := TouchChunk(before, step, chunk, msgs);
        start := end;
      }
      assert guids[..|guids|] == guids;
      AllTouched(before, step, guids, msgs);
      RepeatableResult(before, step, msgs);
    }

    /** The statement on one chunk. */
    static function TouchChunk(db: Db, step: Step, chunk: seq<string>, msgs: map<string, Row>): map<string, Row> {
      map g | g in msgs :: if g in chunk then Touch(db, step, g, msgs[g]) else msgs[g]
    }

    static ghost predicate TouchedSoFar(before: Db, step: Step, done: seq<string>, msgs: map<string, Row>) {
      && msgs.Keys == before.msgs.Keys
      && forall g :: g in msgs ==>
        msgs[g] == if g in done then Touch(before, step, g, before.msgs[g]) else before.msgs[g]
    }

    static lemma ChunkTouched(before: Db, step: Step, done: seq<string>, chunk: seq<string>, msgs: map<string, Row>)
      requires Repeatable(step) && TouchedSoFar(before, step, done, msgs)
      ensures TouchedSoFar(before, step, done + chunk, TouchChunk(before, step, chunk, msgs))
    {
      forall g | g in msgs
        ensures TouchChunk(before, step, chunk, msgs)[g]
             == if g in done + chunk then Touch(before, step, g, before.msgs[g]) else before.msgs[g]
      {
        TouchTwice(before, step, g, before.msgs[g]);
      }
    }

    static lemma AllTouched(before: Db, step: Step, guids: seq<string>, msgs: map<string, Row>)
      requires TouchedSoFar(before, step, guids, msgs)
      requires forall g :: g in before.msgs && g !in guids ==> Touch(before, step, g, before.msgs[g]) == before.msgs[g]
      ensures msgs.Keys == before.msgs.Keys
      ensures forall g :: g in msgs ==> msgs[g] == Touch(before, step, g, before.msgs[g])
    {}

    static lemma RepeatableResult(before: Db, step: Step, msgs: map<string, Row>)
      requires Repeatable(step)
      requires msgs.Keys == before.msgs.Keys
      requires forall g :: g in msgs ==> msgs[g] == Touch(before, step, g, before.msgs[g])
      ensures msgs == Apply(before, step).msgs
    {
      UpdatesOnly(before, step);
      assert Inserted(before, step) == map[];
    }

    /** Such a statement neither inserts nor removes. */
    static lemma UpdatesOnly(db: Db, step: Step)
      requires Repeatable(step)
      ensures Inserted(db, step) == map[]
      ensures forall g :: g in db.msgs ==> !Removed(db, step, g, db.msgs[g])
    {}

    /** undeleteRecycleBinMessages. */
    method UndeleteRecycleBinMessages(portal: string, guids: seq<string>, now: int)
      modifies this`msgs
      ensures View() == Apply(old(View()), UndeleteRecycle(portal, Guids(guids), now))
    {
      UpdateInChunks(UndeleteRecycle(portal, Guids(guids), now), guids, 500);
    }

    static function CapturedGuids(db: Db, portal: string, bridgeFiltered: bool): set<string> {
      set g | g in db.msgs && Captures(db, portal, bridgeFiltered, db.msgs[g])
    }

    static lemma CaptureIs(db: Db, portal: string, bridgeFiltered: bool, now: int)
      ensures Capture(db, portal, bridgeFiltered, now).rows
           == map g | g in CapturedGuids(db, portal, bridgeFiltered) :: db.msgs[g].updatedTs
    {}

    static lemma UncapturedUntouched(db: Db, portal: string, bridgeFiltered: bool, now: int, guids: seq<string>)
      requires forall g :: g in guids <==> g in CapturedGuids(db, portal, bridgeFiltered)
      ensures forall g :: g in db.msgs && g !in guids ==>
        Touch(db, BeginRehydrate(portal, bridgeFiltered, now), g, db.msgs[g]) == db.msgs[g]
    {}

    /** clearBodyScrubForRehydrate: list the rows, then clear exactly those in chunks. */
    method ClearBodyScrubForRehydrate(portal: string, now: int) returns (attempt: Attempt)
      modifies this`msgs
      ensures View() == Apply(old(View()), BeginRehydrate(portal, bridgeFiltered, now))
      ensures attempt == Capture(old(View()), portal, bridgeFiltered, now)
    {
      var before := Db(msgs, chats, delivered);
      var rows := CapturedGuids(before, portal, bridgeFiltered);
      attempt := Attempt(portal, map g | g in rows :: msgs[g].updatedTs, now - MARKER_AGE);
      var guids := ReadRows(rows);
      UncapturedUntouched(before, portal, bridgeFiltered, now, guids);
      CaptureIs(before, portal, bridgeFiltered, now);
      UpdateInChunks(BeginRehydrate(portal, bridgeFiltered, now), guids, 500);
    }

    /** rescrubClearedRows. */
    method RescrubClearedRows(attempt: Attempt)
      modifies this`msgs
      ensures View() == Apply(old(View()), EndRehydrate(attempt))
    {
      var guids := ReadRows(attempt.rows.Keys);
      forall g | g in msgs && g !in guids
        ensures g !in attempt.rows
      {
        assert g !in Guids(guids);
      }
      UpdateInChunks(EndRehydrate(attempt), guids, 200);
    }

    // ---- Deleting a chat -------------------------------------------------------

    static function ChatsOn(chats: map<string, Chat>, portal: string): set<string> {
      set id | id in chats && chats[id].portalId == portal
    }

    /** gidSiblingChatWhere. */
    static function SiblingChats(chats: map<string, Chat>, uuid: string): set<string> {
      set id | id in chats && (Lower(chats[id].groupId) == Lower(uuid) || Lower(id) == Lower(uuid))
    }

    static function PortalsOf(chats: map<string, Chat>, ids: set<string>): set<string> {
      set id | id in ids && id in chats :: chats[id].portalId
    }

    static predicate IsGroupPortal(portal: string) { "gid:" <= portal }

    static function GroupUuid(portal: string): string
      requires IsGroupPortal(portal)
    {
      portal[4..]
    }

    /** Every chat a chat delete covers: the portal's own, and its group's siblings. */
    static function CoveredChats(chats: map<string, Chat>, portal: string): set<string> {
      if IsGroupPortal(portal) then ChatsOn(chats, portal) + SiblingChats(chats, GroupUuid(portal))
      else ChatsOn(chats, portal)
    }

    static function CoveredPortals(chats: map<string, Chat>, portal: string): set<string> {
      if IsGroupPortal(portal) then {portal} + PortalsOf(chats, SiblingChats(chats, GroupUuid(portal))) else {portal}
    }

    static function FlagChats(chats: map<string, Chat>, ids: set<string>): map<string, Chat> {
      map id | id in chats :: if id in ids then chats[id].(deleted := true) else chats[id]
    }

    static function DeleteRowsIn(msgs: map<string, Row>, portals: set<string>, now: int): map<string, Row> {
      map g | g in msgs ::
        if msgs[g].portalId.Some? && msgs[g].portalId.value in portals && !msgs[g].deleted then
          Scrub(msgs[g]).(deleted := true, updatedTs := now)
        else msgs[g]
    }

    static lemma FlagTwice(chats: map<string, Chat>, a: set<string>, b: set<string>)
      ensures FlagChats(FlagChats(chats, a), b) == FlagChats(chats, a + b)
    {}

    static lemma FlagKeepsSiblings(chats: map<string, Chat>, ids: set<string>, uuid: string)
      ensures SiblingChats(FlagChats(chats, ids), uuid) == SiblingChats(chats, uuid)
    {}

    static lemma FlagKeepsPortals(chats: map<string, Chat>, ids: set<string>, some: set<string>)
      ensures PortalsOf(FlagChats(chats, ids), some) == PortalsOf(chats, some)
    {
      var flagged := FlagChats(chats, ids);
      assert forall id :: id in chats ==> flagged[id].portalId == chats[id].portalId;
    }

    /** Deleting the covered portals' rows is one step of the state machine. */
    static lemma DeleteRowsStep(db: Db, portals: set<string>, now: int)
      ensures Apply(db, DeletePortalRows(portals, now)).msgs == DeleteRowsIn(db.msgs, portals, now)
    {}

    static lemma DeleteRowsTwice(msgs: map<string, Row>, a: set<string>, b: set<string>, now: int)
      ensures DeleteRowsIn(DeleteRowsIn(msgs, a, now), b, now) == DeleteRowsIn(msgs, a + b, now)
    {}

    /** The chat belongs to the deleted portal: it is on it, or the portal is the group's and names it. */
    static ghost predicate Belongs(id: string, chat: Chat, portal: string) {
      chat.portalId == portal
      || ("gid:" <= portal && (Upper(chat.groupId) == Upper(portal[4..]) || Upper(id) == Upper(portal[4..])))
    }

    /**
      What a chat's deletion reaches: the rows on the portal and on the portals of all chats
      of its group, whose words it takes, and exactly the chats that belong to the portal.
     */
    static lemma DeleteReachesExactly(chats: map<string, Chat>, msgs: map<string, Row>, portal: string, now: int,
                                      g: string, id: string)
      requires g in msgs && id in chats
      ensures var after, r := DeleteRowsIn(msgs, CoveredPortals(chats, portal), now)[g], msgs[g];
        after == if !r.deleted && r.portalId.Some?
                    && (r.portalId.value == portal
                        || exists k :: k in chats && Belongs(k, chats[k], portal)
                                       && chats[k].portalId == r.portalId.value)
                 then Scrub(r).(deleted := true, updatedTs := now) else r
      ensures FlagChats(chats, CoveredChats(chats, portal))[id]
           == if Belongs(id, chats[id], portal) then chats[id].(deleted := true) else chats[id]
    {
      forall k | k in chats
        ensures k in CoveredChats(chats, portal) <==> Belongs(k, chats[k], portal)
      {
        if IsGroupPortal(portal) {
          FoldingAgrees(chats[k].groupId, GroupUuid(portal));
          FoldingAgrees(k, GroupUuid(portal));
        }
      }
      forall p
        ensures p in CoveredPortals(chats, portal) <==>
                p == portal || exists k :: k in chats && Belongs(k, chats[k], portal) && chats[k].portalId == p
      {
        CoveredPortalIs(chats, portal, p);
      }
    }

    static lemma CoveredPortalIs(chats: map<string, Chat>, portal: string, p: string)
      ensures p in CoveredPortals(chats, portal) <==>
              p == portal || exists k :: k in chats && Belongs(k, chats[k], portal) && chats[k].portalId == p
    {
      if IsGroupPortal(portal) {
        var siblings := SiblingChats(chats, GroupUuid(portal));
        forall k | k in chats
          ensures k in siblings || chats[k].portalId == portal <==> Belongs(k, chats[k], portal)
        {
          FoldingAgrees(chats[k].groupId, GroupUuid(portal));
          FoldingAgrees(k, GroupUuid(portal));
        }
        if k :| k in chats && Belongs(k, chats[k], portal) && chats[k].portalId == p && p != portal {
          assert k in siblings;
        }
      }
    }

    /**
      deleteLocalChatByPortalID: four statements that together delete every row of the
      portal and of its group's sibling portals, once, and flag all those chats.
     */
    method DeleteLocalChatByPortalID(portal: string, now: int)
      modifies this`msgs, this`chats
      ensures msgs == DeleteRowsIn(old(msgs), CoveredPortals(old(chats), portal), now)
      ensures chats == FlagChats(old(chats), CoveredChats(old(chats), portal))
    {
      var own := ChatsOn(chats, portal);
      chats := FlagChats(chats, own);
      msgs := DeleteRowsIn(msgs, {portal}, now);
      if IsGroupPortal(portal) {
        var siblings := SiblingChats(chats, GroupUuid(portal));
        FlagKeepsSiblings(old(chats), own, GroupUuid(portal));
        FlagTwice(old(chats), own, siblings);
        chats := FlagChats(chats, siblings);
        FlagKeepsPortals(old(chats), own + siblings, siblings);
        DeleteRowsTwice(old(msgs), {portal}, PortalsOf(old(chats), siblings), now);
        msgs := DeleteRowsIn(msgs, PortalsOf(chats, siblings), now);
      }
    }
  }
}
