/**
  What happens to one message over its life: which steps delete and revive its row, what
  the row still says after each, and how a deleted chat comes back.
 */
module CloudLives {
  import opened Collections
  import opened CloudDb
  import opened CloudRuns
  import opened CloudStore

  // ---- What a row still says ---------------------------------------------------------------

  /** A record without what scrubbing takes away. */
  function Wordless(c: CloudRow): CloudRow {
    c.(text := "", subject := "", sender := "", tapbackEmoji := "")
  }

  /** Scrubbing takes the words and nothing else. */
  lemma ScrubTakesWords(g: string, r: Row)
    ensures ReadBack(g, Scrub(r)) == Wordless(ReadBack(g, r))
    ensures Scrub(r).scrubbed && Scrub(r).messageDeleted == r.messageDeleted
    ensures Scrub(r).updatedTs == r.updatedTs && Scrub(r).meta == r.meta && Scrub(r).portalId == r.portalId
  {}

  /** The record of g after a step, for a row that the step leaves in the table. */
  ghost function RecordAfter(db: Db, step: Step, g: string): CloudRow
    requires g in db.msgs
  {
    ReadBack(g, Touch(db, step, g, db.msgs[g]))
  }

  /** A batch delete, and a portal delete, take the words of the live rows they name; they leave the others. */
  lemma DeletesTakeWords(db: Db, guids: set<string>, portals: set<string>, now: int, g: string)
    requires g in db.msgs
    ensures var record := ReadBack(g, db.msgs[g]);
      && RecordAfter(db, DeleteBatch(guids, now), g)
         == (if g in guids && !record.deleted then Wordless(record).(deleted := true) else record)
      && RecordAfter(db, DeletePortalRows(portals, now), g)
         == (if db.msgs[g].portalId.Some? && record.portalId in portals && !record.deleted
             then Wordless(record).(deleted := true) else record)
  {}

  /** Undeleting makes exactly the rows it names live, save those deleted one by one, and changes nothing else. */
  lemma UndeletesMakeLive(db: Db, portal: string, guids: set<string>, now: int, g: string)
    requires g in db.msgs
    ensures var r := db.msgs[g];
      var revived := ReadBack(g, r).(deleted := r.deleted && r.messageDeleted);
      && RecordAfter(db, UndeletePortal(portal, now), g)
         == (if r.portalId == Some(portal) then revived else ReadBack(g, r))
      && RecordAfter(db, UndeleteRecycle(portal, guids, now), g)
         == (if r.portalId == Some(portal) && g in guids then revived else ReadBack(g, r))
  {}

  /** Lifting the scrub flag leaves the record, and never touches a row deleted one by one. */
  lemma ClearsKeepRecord(s: State, portal: string, now: int, g: string)
    requires Inv(s) && g in s.db.msgs
    ensures RecordAfter(s.db, ClearScrub(portal, now), g) == ReadBack(g, s.db.msgs[g])
    ensures RecordAfter(s.db, ClearAllScrub(now), g) == ReadBack(g, s.db.msgs[g])
    ensures var r := s.db.msgs[g];
      && (Touch(s.db, ClearScrub(portal, now), g, r).scrubbed
          <==> r.scrubbed && (r.portalId != Some(portal) || r.messageDeleted))
      && (Touch(s.db, ClearAllScrub(now), g, r).scrubbed <==> r.scrubbed && r.deleted)
      && (r.messageDeleted ==> Touch(s.db, ClearScrub(portal, now), g, r) == r)
      && (r.messageDeleted ==> Touch(s.db, ClearAllScrub(now), g, r) == r)
  {
    assert RowOk(s.db.msgs[g]);
  }

  /** Scrubbing reactions takes text and subject of the old reactions named, and leaves sender and emoji. */
  lemma ReactionsLoseText(db: Db, guids: set<string>, cutoff: int, g: string)
    requires g in db.msgs
    ensures var r := db.msgs[g];
      RecordAfter(db, ScrubReactions(guids, cutoff), g)
      == if g in guids && !r.scrubbed && r.updatedTs < cutoff && r.tapbackType.Some? && r.tapbackType.value >= 2000
         then ReadBack(g, r).(text := "", subject := "") else ReadBack(g, r)
  {}

  /** Statements that date the rows they change; the others leave the date by which scrubbing goes. */
  lemma ChangesAreDated(db: Db, step: Step, g: string)
    requires g in db.msgs && Touch(db, step, g, db.msgs[g]) != db.msgs[g]
    ensures var date := Touch(db, step, g, db.msgs[g]).updatedTs;
      if step.Upsert? || step.DeleteBatch? || step.DeletePortalRows? || step.UndeletePortal? || step.UndeleteRecycle?
         || step.ClearScrub? || step.ClearAllScrub?
      then StepTime(step) == Some(date)
      else if step.BeginRehydrate? || step.EndRehydrate? then true
      else date == if step.Reroute? && step.stamp.Some? then step.stamp.value else db.msgs[g].updatedTs
  {}

  // ---- Rows that other steps plant ---------------------------------------------------------

  /** The GUID that a step plants, if it is one that plants a row. */
  function Planted(step: Step): Option<string> {
    match step
    case PersistUuid(guid, _, _, _, _) => Some(guid)
    case PersistTapback(guid, _, _, _, _, _) => Some(guid)
    case SeedRecycle(guid, _, _) => Some(guid)
    case _ => None
  }

  /** Such a step concerns one row and leaves it in the table. */
  lemma PlantsOne(db: Db, step: Step, guid: string)
    requires Planted(step) == Some(guid)
    ensures var after := Apply(db, step).msgs;
      && guid in after
      && (guid in db.msgs ==> after[guid] == Touch(db, step, guid, db.msgs[guid]))
      && (guid !in db.msgs ==> guid in Inserted(db, step) && after[guid] == Inserted(db, step)[guid])
      && (forall g :: g != guid ==> (g in after <==> g in db.msgs) && (g in after ==> after[g] == db.msgs[g]))
  {}

  /** An echo's GUID is known afterwards: a row that was there keeps its record and gains a portal if it had none. */
  lemma PersistedIsKnown(db: Db, guid: string, portal: string, timestampMs: int, isFromMe: bool, now: int)
    ensures var after := Apply(db, PersistUuid(guid, portal, timestampMs, isFromMe, now)).msgs;
      && guid in after
      && var record := ReadBack(guid, after[guid]);
      if guid in db.msgs then
        var prior := ReadBack(guid, db.msgs[guid]);
        record == prior.(portalId := if prior.portalId != "" then prior.portalId else portal)
      else
        && record.portalId == portal && record.timestampMs == timestampMs && record.isFromMe == isFromMe
        && !record.deleted && Wordless(record) == record
        && after[guid].updatedTs == after[guid].meta.createdTs == now
  {
    PlantsOne(db, PersistUuid(guid, portal, timestampMs, isFromMe, now), guid);
  }

  /** A reaction's echo is known too, with its kind; a row that was there is left alone. */
  lemma TapbackIsKnown(db: Db, guid: string, portal: string, timestampMs: int, isFromMe: bool, tapback: int, now: int)
    ensures var after := Apply(db, PersistTapback(guid, portal, timestampMs, isFromMe, tapback, now)).msgs;
      && guid in after
      && if guid in db.msgs then after[guid] == db.msgs[guid]
         else
           var record := ReadBack(guid, after[guid]);
           && record.portalId == portal && record.timestampMs == timestampMs && record.isFromMe == isFromMe
           && record.tapbackType == Some(tapback) && !record.deleted && Wordless(record) == record
           && after[guid].updatedTs == after[guid].meta.createdTs == now
  {
    PlantsOne(db, PersistTapback(guid, portal, timestampMs, isFromMe, tapback, now), guid);
  }

  /** A recycle-bin seed puts the row on its portal and makes it live, unless it was deleted one by one. */
  lemma SeededIsLive(db: Db, guid: string, seed: Seed, now: int)
    ensures var after := Apply(db, SeedRecycle(guid, seed, now)).msgs;
      && guid in after
      && var record := ReadBack(guid, after[guid]);
      if guid in db.msgs then
        record == ReadBack(guid, db.msgs[guid]).(deleted := db.msgs[guid].messageDeleted, portalId := seed.portalId)
      else
        && record.recordName == seed.recordName && record.chatId == seed.chatId
        && record.portalId == seed.portalId && record.timestampMs == seed.timestampMs
        && record.sender == seed.sender && record.isFromMe == seed.isFromMe && record.service == seed.service
        && record.text == record.subject == "" && !record.deleted && record.hasBody
        && after[guid].updatedTs == after[guid].meta.createdTs == now
  {
    PlantsOne(db, SeedRecycle(guid, seed, now), guid);
  }

  /** A per-message delete keeps the portal a row has, and gives it the caller's when it has none. */
  lemma SoftDeleteRoutes(db: Db, guid: string, portal: string, messageDeleted: bool, now: int, g: string)
    requires Upper(g) == Upper(guid)
    ensures var after := Apply(db, SoftDelete(guid, portal, messageDeleted, now)).msgs;
      && (g in db.msgs ==>
            var record := ReadBack(g, db.msgs[g]);
            && g in after
            && ReadBack(g, after[g])
               == Wordless(record).(deleted := true,
                                    portalId := if record.portalId != "" then record.portalId else portal)
            && (after[g].messageDeleted <==> db.msgs[g].messageDeleted || messageDeleted))
      && (g !in db.msgs && g in after ==>
            && g == guid && Coalesce(after[g].portalId) == portal && after[g].messageDeleted == messageDeleted
            && after[g].deleted && after[g].scrubbed && Wordless(ReadBack(g, after[g])) == ReadBack(g, after[g])
            && after[g].timestampMs == after[g].updatedTs == after[g].meta.createdTs == now)
  {}

  /** Orphans go exactly when named, deleted, not deleted one by one, and on a portal without chats. */
  lemma OrphansGoExactly(db: Db, guids: set<string>, g: string)
    requires g in db.msgs
    ensures var r := db.msgs[g];
      g !in Apply(db, DeleteOrphans(guids)).msgs <==>
      && g in guids && r.deleted && !r.messageDeleted && r.portalId.Some?
      && !exists id :: id in db.chats && db.chats[id].portalId == r.portalId.value
  {}

  // ---- A deleted chat comes back ---------------------------------------------------------------

  ghost function Restored(db: Db, portal: string, gone: int, back: int): Db {
    Apply(Apply(db, DeletePortalRows({portal}, gone)), UndeletePortal(portal, back))
  }

  /** A row deleted with its portal and undeleted again. */
  function Revived(r: Row, portal: string, gone: int, back: int): Row {
    if r.portalId != Some(portal) then r
    else if r.deleted then r.(deleted := false, updatedTs := back)
    else Scrub(r).(updatedTs := back)
  }

  lemma RestoredRow(db: Db, portal: string, gone: int, back: int, g: string)
    requires g in db.msgs && !db.msgs[g].messageDeleted
    ensures g in Restored(db, portal, gone, back).msgs
    ensures Restored(db, portal, gone, back).msgs[g] == Revived(db.msgs[g], portal, gone, back)
  {
    var mid := Apply(db, DeletePortalRows({portal}, gone));
    UpdatedRow(db, DeletePortalRows({portal}, gone), g);
    UpdatedRow(mid, UndeletePortal(portal, back), g);
    RevivedByTouches(db, mid, portal, gone, back, g);
  }

  lemma RevivedByTouches(db: Db, mid: Db, portal: string, gone: int, back: int, g: string)
    requires g in db.msgs && !db.msgs[g].messageDeleted && g in mid.msgs
    requires mid.msgs[g] == Touch(db, DeletePortalRows({portal}, gone), g, db.msgs[g])
    ensures Touch(mid, UndeletePortal(portal, back), g, mid.msgs[g]) == Revived(db.msgs[g], portal, gone, back)
  {}

  /** Steps that neither insert nor remove give every row its new value. */
  lemma UpdatedRow(db: Db, step: Step, g: string)
    requires step.DeletePortalRows? || step.UndeletePortal? || step.ClearScrub?
    requires g in db.msgs
    ensures g in Apply(db, step).msgs && Apply(db, step).msgs[g] == Touch(db, step, g, db.msgs[g])
  {
    assert Inserted(db, step) == map[] && !Removed(db, step, g, db.msgs[g]);
  }

  /** Deleting a portal's rows and undeleting them loses the words of the rows that were live, and nothing else. */
  lemma RestoreLosesWords(db: Db, portal: string, gone: int, back: int, g: string)
    requires g in db.msgs && !db.msgs[g].messageDeleted
    ensures g in Restored(db, portal, gone, back).msgs
    ensures var r, record := Restored(db, portal, gone, back).msgs[g], ReadBack(g, db.msgs[g]);
      ReadBack(g, r) == if db.msgs[g].portalId != Some(portal) then record
                        else if record.deleted then record.(deleted := false)
                        else Wordless(record)
  {
    RestoredRow(db, portal, gone, back, g);
    ScrubTakesWords(g, db.msgs[g]);
  }

  lemma LiftedRow(restored: Db, portal: string, cleared: int, g: string, r: Row, gone: int, back: int)
    requires r.portalId == Some(portal) && !r.messageDeleted
    requires g in restored.msgs && restored.msgs[g] == Revived(r, portal, gone, back)
    ensures var lifted := Apply(restored, ClearScrub(portal, cleared)).msgs;
      g in lifted && !lifted[g].scrubbed && !lifted[g].deleted && lifted[g].meta == r.meta
  {
    UpdatedRow(restored, ClearScrub(portal, cleared), g);
  }

  lemma RefilledRecord(before: map<string, Row>, after: map<string, Row>, c: CloudRow, now: int, r: Row)
    requires Recorded(before, after, c, now) && c.guid in before
    requires !before[c.guid].scrubbed && !before[c.guid].deleted && before[c.guid].meta == r.meta
    ensures ReadBack(c.guid, after[c.guid]) == Sticking(c, ReadBack(c.guid, r)).(deleted := c.deleted)
    ensures !after[c.guid].scrubbed
  {}

  /** Once the scrub flag is lifted as well, the next upsert of a message brings all of it back. */
  lemma RestoredChatRefills(db: Db, portal: string, gone: int, back: int, cleared: int, c: CloudRow, now: int)
    requires c.guid in db.msgs && !db.msgs[c.guid].messageDeleted && db.msgs[c.guid].portalId == Some(portal)
    ensures var final := Apply(Apply(Restored(db, portal, gone, back), ClearScrub(portal, cleared)),
                               Upsert(map[c.guid := c], now)).msgs;
      && c.guid in final
      && ReadBack(c.guid, final[c.guid]) == Sticking(c, ReadBack(c.guid, db.msgs[c.guid])).(deleted := c.deleted)
      && !final[c.guid].scrubbed
  {
    var restored := Restored(db, portal, gone, back);
    var lifted := Apply(restored, ClearScrub(portal, cleared));
    RestoredRow(db, portal, gone, back, c.guid);
    LiftedRow(restored, portal, cleared, c.guid, db.msgs[c.guid], gone, back);
    UpsertRecords(lifted, map[c.guid := c], now, c.guid);
    RefilledRecord(lifted.msgs, Apply(lifted, Upsert(map[c.guid := c], now)).msgs, c, now, db.msgs[c.guid]);
  }

  // ---- Who deletes and who revives -----------------------------------------------------------

  /** Steps that delete the row of g. */
  ghost predicate Kills(db: Db, step: Step, g: string)
    requires g in db.msgs
  {
    match step
    case Upsert(rows, _) => g in rows && rows[g].deleted
    case DeleteBatch(guids, _) => g in guids
    case SoftDelete(guid, _, _, _) => Upper(g) == Upper(guid)
    case DeletePortalRows(portals, _) => exists p :: p in portals && db.msgs[g].portalId == Some(p)
    case _ => false
  }

  /** Steps that make the row of g live. */
  ghost predicate Revives(db: Db, step: Step, g: string)
    requires g in db.msgs
  {
    && !db.msgs[g].messageDeleted
    && match step
       case UndeletePortal(portal, _) => db.msgs[g].portalId == Some(portal)
       case UndeleteRecycle(portal, guids, _) => db.msgs[g].portalId == Some(portal) && g in guids
       case SeedRecycle(guid, _, _) => guid == g
       case _ => false
  }

  ghost predicate Removes(db: Db, step: Step, g: string)
    requires g in db.msgs
  {
    g !in Apply(db, step).msgs
  }

  lemma StepDecidesLife(s: State, step: Step, g: string)
    requires Inv(s) && g in s.db.msgs && !Removes(s.db, step, g)
    ensures Next(s, step).db.msgs[g].deleted <==>
      Kills(s.db, step, g) || (s.db.msgs[g].deleted && !Revives(s.db, step, g))
  {
    assert RowOk(s.db.msgs[g]);
    KeptRow(s.db, step, g);
    TouchDecidesLife(s.db, step, g);
  }

  lemma KeptRow(db: Db, step: Step, g: string)
    requires g in db.msgs && !Removes(db, step, g)
    ensures Apply(db, step).msgs[g] == Touch(db, step, g, db.msgs[g])
  {
    assert g !in Inserted(db, step);
  }

  lemma TouchDecidesLife(db: Db, step: Step, g: string)
    requires g in db.msgs && RowOk(db.msgs[g])
    ensures Touch(db, step, g, db.msgs[g]).deleted <==>
      Kills(db, step, g) || (db.msgs[g].deleted && !Revives(db, step, g))
  {}

  /** A hard delete takes exactly the rows it names. */
  lemma HardDeletesExactly(db: Db, guids: set<string>, g: string)
    requires g in db.msgs
    ensures Removes(db, HardDelete(guids), g) <==> g in guids
  {}

  /** Only hard deletes and the orphan sweep take a row away. */
  lemma OnlySweepsRemove(db: Db, step: Step, g: string)
    requires g in db.msgs && Removes(db, step, g)
    ensures (step.HardDelete? && g in step.guids) || (step.DeleteOrphans? && g in step.guids)
  {
    assert Removed(db, step, g, db.msgs[g]);
  }

  /** No step of the run takes g away. */
  ghost predicate Stays(s: State, steps: seq<Step>, g: string)
    decreases |steps|
  {
    g in s.db.msgs && (steps != [] ==> !Removes(s.db, steps[0], g) && Stays(Next(s, steps[0]), steps[1..], g))
  }

  /** The i-th step of the run deletes g, or revives it. */
  ghost predicate DecidesAt(s: State, steps: seq<Step>, i: nat, g: string, kills: bool)
    requires i < |steps|
  {
    var db := After(s, steps[..i]).db;
    g in db.msgs && (if kills then Kills(db, steps[i], g) else Revives(db, steps[i], g))
  }

  /**
    Over a whole run that keeps its row, a message changes between live and deleted only
    through a step that deletes or revives it.
   */
  lemma {:induction false} LifeHasCause(s: State, steps: seq<Step>, g: string) returns (i: nat)
    requires Inv(s) && Runs(s, steps) && Stays(s, steps, g) && g in After(s, steps).db.msgs
    requires After(s, steps).db.msgs[g].deleted != s.db.msgs[g].deleted
    ensures i < |steps| && DecidesAt(s, steps, i, g, After(s, steps).db.msgs[g].deleted)
    decreases |steps|
  {
    assert steps != [] && steps[..0] == [];
    StepDecidesLife(s, steps[0], g);
    if Next(s, steps[0]).db.msgs[g].deleted != s.db.msgs[g].deleted {
      i := 0;
    } else {
      NextKeepsInv(s, steps[0]);
      i := LifeHasCause(Next(s, steps[0]), steps[1..], g);
      AfterPrefix(s, steps, i);
      i := i + 1;
    }
  }
}
