/** The two-phase rehydrate protocol under concurrent CloudKit upserts. */
module CloudRehydrate {
  import opened Collections
  import opened CloudDb
  import opened CloudRuns

  /** One upsertMessageBatch call, after it has kept the newest row per GUID. */
  datatype Batch = Batch(rows: map<string, CloudRow>, now: int)

  ghost function AfterUpserts(db: Db, batches: seq<Batch>): Db
    decreases |batches|
  {
    if batches == [] then db
    else AfterUpserts(Apply(db, Upsert(batches[0].rows, batches[0].now)), batches[1..])
  }

  predicate Upserted(batches: seq<Batch>, g: string) {
    exists i :: 0 <= i < |batches| && g in batches[i].rows
  }

  /** The last record delivered for g. */
  function LastRecord(batches: seq<Batch>, g: string): CloudRow
    requires Upserted(batches, g)
    decreases |batches|
  {
    var last := batches[|batches| - 1];
    if g in last.rows then last.rows[g]
    else
      assert forall i :: 0 <= i < |batches| - 1 ==> batches[..|batches| - 1][i] == batches[i];
      LastRecord(batches[..|batches| - 1], g)
  }

  /** The upserts leave g on the portal being rehydrated, at or after its start. */
  predicate Unmoved(batches: seq<Batch>, g: string, portal: string, start: int) {
    forall i :: 0 <= i < |batches| && g in batches[i].rows ==>
      batches[i].rows[g].portalId == portal && batches[i].now >= start
  }

  function UpsertRow(r: Row, batches: seq<Batch>, g: string): Row
    decreases |batches|
  {
    if batches == [] then r
    else
      var before := UpsertRow(r, batches[..|batches| - 1], g);
      var last := batches[|batches| - 1];
      if g in last.rows then Merge(before, last.rows[g], last.now) else before
  }

  lemma {:induction false} UpsertRowFront(r: Row, b: Batch, rest: seq<Batch>, g: string)
    ensures UpsertRow(r, [b] + rest, g) == UpsertRow(if g in b.rows then Merge(r, b.rows[g], b.now) else r, rest, g)
    decreases |rest|
  {
    if rest == [] {
      assert [b] + rest == [b] && [b][..0] == [];
      assert UpsertRow(r, [b][..0], g) == r;
    } else {
      var k := |rest| - 1;
      assert ([b] + rest)[..k + 1] == [b] + rest[..k];
      UpsertRowFront(r, b, rest[..k], g);
    }
  }

  lemma {:induction false} UpsertsOnRow(db: Db, batches: seq<Batch>, g: string)
    requires g in db.msgs
    ensures g in AfterUpserts(db, batches).msgs
    ensures AfterUpserts(db, batches).msgs[g] == UpsertRow(db.msgs[g], batches, g)
    decreases |batches|
  {
    if batches != [] {
      var b, rest := batches[0], batches[1..];
      assert [b] + rest == batches;
      UpsertsOnRow(Apply(db, Upsert(b.rows, b.now)), rest, g);
      UpsertRowFront(db.msgs[g], b, rest, g);
    }
  }

  /** Through any upserts: read times only grow, replies and deletions stick, and creation time stands. */
  lemma {:induction false} UpsertsNeverForget(r: Row, batches: seq<Batch>, g: string)
    ensures var after := UpsertRow(r, batches, g);
      && after.meta.createdTs == r.meta.createdTs
      && after.meta.dateReadMs >= r.meta.dateReadMs
      && (forall b :: b in batches && g in b.rows ==> after.meta.dateReadMs >= b.rows[g].dateReadMs)
      && (Coalesce(r.meta.replyGuid) != "" ==> Coalesce(after.meta.replyGuid) != "")
      && (after.deleted <==> r.deleted || exists b :: b in batches && g in b.rows && b.rows[g].deleted)
    decreases |batches|
  {
    if batches != [] {
      var init, last := batches[..|batches| - 1], batches[|batches| - 1];
      UpsertsNeverForget(r, init, g);
      assert batches == init + [last];
    }
  }

  /** An unscrubbed row takes the content of the last record and stays unscrubbed. */
  ghost predicate Carries(r: Row, c: CloudRow, portal: string, start: int) {
    && !r.scrubbed && r.portalId == Some(portal) && r.updatedTs >= start
    && r.text == Some(c.text) && r.subject == Some(c.subject) && r.sender == Some(c.sender)
    && r.tapbackEmoji == Some(c.tapbackEmoji) && r.attachments == Some(c.attachments)
  }

  lemma {:induction false} UpsertedContent(r: Row, batches: seq<Batch>, g: string, portal: string, start: int)
    requires !r.scrubbed && Unmoved(batches, g, portal, start)
    ensures !Upserted(batches, g) ==> UpsertRow(r, batches, g) == r
    ensures Upserted(batches, g) ==> Carries(UpsertRow(r, batches, g), LastRecord(batches, g), portal, start)
    decreases |batches|
  {
    if batches != [] {
      var k := |batches| - 1;
      var init := batches[..k];
      assert forall i :: 0 <= i < k ==> init[i] == batches[i];
      UpsertedContent(r, init, g, portal, start);
      if g !in batches[k].rows && Upserted(batches, g) {
        assert Upserted(init, g);
      }
      if Upserted(init, g) {
        var i :| 0 <= i < |init| && g in init[i].rows;
        assert g in batches[i].rows;
      }
    }
  }

  /** The protocol's outcome for one captured row. */
  ghost predicate Settled(before: Row, after: Row, batches: seq<Batch>, g: string, portal: string, now: int) {
    if !Upserted(batches, g) then after == before
    else
      var c := LastRecord(batches, g);
      && Carries(after.(scrubbed := false), c, portal, now)
      && after.scrubbed == (c.text == "" && c.subject == "" && c.attachments == "")
  }

  lemma RehydrateRow(r: Row, a: Attempt, batches: seq<Batch>, g: string, now: int)
    requires r.scrubbed && r.portalId == Some(a.portal)
    requires g in a.rows && a.rows[g] == r.updatedTs && a.marker == now - MARKER_AGE
    requires Unmoved(batches, g, a.portal, now)
    ensures var cleared := r.(scrubbed := false, updatedTs := a.marker);
      Settled(r, Rescrub(a, g, UpsertRow(cleared, batches, g)), batches, g, a.portal, now)
  {
    var cleared := r.(scrubbed := false, updatedTs := a.marker);
    UpsertedContent(cleared, batches, g, a.portal, now);
  }

  /** Beginning a rehydrate clears exactly the rows it captures. */
  lemma BeginClearsCaptured(db: Db, portal: string, bridgeFiltered: bool, now: int, g: string)
    requires g in db.msgs
    ensures var a := Capture(db, portal, bridgeFiltered, now);
      var cleared := Apply(db, BeginRehydrate(portal, bridgeFiltered, now)).msgs;
      && g in cleared
      && (g !in a.rows ==> cleared[g] == db.msgs[g])
      && (g in a.rows ==> cleared[g] == db.msgs[g].(scrubbed := false, updatedTs := a.marker))
      && (g in a.rows ==> db.msgs[g].scrubbed && db.msgs[g].portalId == Some(portal))
      && (g in a.rows ==> a.rows[g] == db.msgs[g].updatedTs)
  {
    BeginOnRow(db, portal, bridgeFiltered, now, g);
  }

  /** It clears exactly the scrubbed, live and readable rows of the portal, dating each a second back. */
  lemma BeginClearsExactly(db: Db, portal: string, bridgeFiltered: bool, now: int, g: string)
    requires g in db.msgs
    ensures var r, cleared := db.msgs[g], Apply(db, BeginRehydrate(portal, bridgeFiltered, now)).msgs;
      && g in cleared
      && cleared[g]
         == if r.portalId == Some(portal) && r.scrubbed && !r.deleted && Readable(db.chats, bridgeFiltered, r)
            then r.(scrubbed := false, updatedTs := now - 1000) else r
  {
    BeginOnRow(db, portal, bridgeFiltered, now, g);
  }

  lemma BeginOnRow(db: Db, portal: string, bridgeFiltered: bool, now: int, g: string)
    requires g in db.msgs
    ensures var cleared := Apply(db, BeginRehydrate(portal, bridgeFiltered, now)).msgs;
      && g in cleared
      && cleared[g] == if Captures(db, portal, bridgeFiltered, db.msgs[g])
                       then db.msgs[g].(scrubbed := false, updatedTs := now - MARKER_AGE) else db.msgs[g]
  {}

  lemma EndTouchesRow(db: Db, a: Attempt, g: string)
    ensures g in Apply(db, EndRehydrate(a)).msgs <==> g in db.msgs
    ensures g in db.msgs ==> Apply(db, EndRehydrate(a)).msgs[g] == Rescrub(a, g, db.msgs[g])
  {}

  /**
    It ends by scrubbing again exactly the attempt's rows that are still on the portal and
    unscrubbed, and either untouched since or empty; an untouched one gets its old date back.
   */
  lemma EndRescrubsExactly(db: Db, a: Attempt, g: string)
    requires g in db.msgs
    ensures var r, after := db.msgs[g], Apply(db, EndRehydrate(a)).msgs;
      var untouched := r.updatedTs == a.marker;
      var empty := Coalesce(r.text) == "" && Coalesce(r.subject) == "" && Coalesce(r.attachments) == "";
      && g in after
      && after[g] == if g in a.rows && r.portalId == Some(a.portal) && !r.scrubbed && (untouched || empty)
                     then r.(scrubbed := true, updatedTs := if untouched then a.rows[g] else r.updatedTs) else r
  {
    EndTouchesRow(db, a, g);
  }

  /**
    For every captured row and any upserts in between: never upserted, it is exactly the
    row it was; upserted with content, it keeps that content unscrubbed; upserted empty,
    it is scrubbed again.
   */
  lemma RehydrateProtocol(db: Db, a: Attempt, bridgeFiltered: bool, now: int, batches: seq<Batch>, g: string)
    requires a == Capture(db, a.portal, bridgeFiltered, now)
    requires g in a.rows && Unmoved(batches, g, a.portal, now)
    ensures var cleared := Apply(db, BeginRehydrate(a.portal, bridgeFiltered, now));
      var done := Apply(AfterUpserts(cleared, batches), EndRehydrate(a));
      g in db.msgs && g in done.msgs && Settled(db.msgs[g], done.msgs[g], batches, g, a.portal, now)
  {
    var cleared := Apply(db, BeginRehydrate(a.portal, bridgeFiltered, now));
    BeginClearsCaptured(db, a.portal, bridgeFiltered, now, g);
    UpsertsOnRow(cleared, batches, g);
    EndTouchesRow(AfterUpserts(cleared, batches), a, g);
    RehydrateRow(db.msgs[g], a, batches, g, now);
  }

  /** Rows outside the attempt pass through both ends of the protocol untouched. */
  lemma RehydrateLeavesOthers(db: Db, a: Attempt, bridgeFiltered: bool, now: int, mid: Db, g: string)
    requires a == Capture(db, a.portal, bridgeFiltered, now) && g !in a.rows
    ensures var cleared := Apply(db, BeginRehydrate(a.portal, bridgeFiltered, now)).msgs;
      g in db.msgs ==> g in cleared && cleared[g] == db.msgs[g]
    ensures g in mid.msgs <==> g in Apply(mid, EndRehydrate(a)).msgs
    ensures g in mid.msgs ==> Apply(mid, EndRehydrate(a)).msgs[g] == mid.msgs[g]
  {
    EndTouchesRow(mid, a, g);
    if g in db.msgs {
      BeginClearsCaptured(db, a.portal, bridgeFiltered, now, g);
    }
  }
}
