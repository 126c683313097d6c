/**
  The CloudKit message cache as a state machine. Rows of cloud_message are values,
  every SQL statement is one atomic step, and each step is given by what it does to
  one row (its WHERE and SET clauses) plus the rows it inserts or removes.
 */
module CloudDb {
  import opened Collections

  // ---- ASCII case folding, as UPPER and LOWER do it ------------------------------

  function UpperChar(c: char): char {
    if 'a' <= c <= 'z' then c - 32 as char else c
  }

  function LowerChar(c: char): char {
    if 'A' <= c <= 'Z' then c + 32 as char else c
  }

  function Upper(s: string): (u: string)
    ensures |u| == |s| && forall i :: 0 <= i < |s| ==> u[i] == UpperChar(s[i])
  {
    seq(|s|, i requires 0 <= i < |s| => UpperChar(s[i]))
  }

  function Lower(s: string): (l: string)
    ensures |l| == |s| && forall i :: 0 <= i < |s| ==> l[i] == LowerChar(s[i])
  {
    seq(|s|, i requires 0 <= i < |s| => LowerChar(s[i]))
  }

  // ---- Tables -------------------------------------------------------------------

  /** Columns of cloud_message that only upserts write. NULL is None. */
  datatype Meta = Meta(
    recordName: string, chatId: Option<string>, isFromMe: bool, service: Option<string>,
    tapbackTarget: Option<string>, dateReadMs: int, hasBody: bool,
    replyGuid: Option<string>, replyPart: Option<string>, createdTs: int)

  /** cloud_message without its key. */
  datatype Row = Row(
    meta: Meta, portalId: Option<string>, timestampMs: int,
    sender: Option<string>, text: Option<string>, subject: Option<string>,
    tapbackType: Option<int>, tapbackEmoji: Option<string>, attachments: Option<string>,
    deleted: bool, updatedTs: int, scrubbed: bool, messageDeleted: bool)

  /** A message as CloudKit delivers it. */
  datatype CloudRow = CloudRow(
    guid: string, recordName: string, chatId: string, portalId: string, timestampMs: int,
    sender: string, isFromMe: bool, text: string, subject: string, service: string, deleted: bool,
    tapbackType: Option<int>, tapbackTarget: string, tapbackEmoji: string,
    attachments: string, dateReadMs: int, hasBody: bool, replyGuid: string, replyPart: string)

  /** cloud_chat without its key cloud_chat_id. */
  datatype Chat = Chat(groupId: string, portalId: string, deleted: bool, filtered: bool, fwdDone: bool, createdTs: int)

  /** A row of bridgev2's message table that belongs to this login. */
  datatype Delivered = Delivered(id: string, room: string)

  datatype Db = Db(msgs: map<string, Row>, chats: map<string, Chat>, delivered: set<Delivered>)

  function Coalesce(s: Option<string>): string {
    if s.Some? then s.value else ""
  }

  /** body_scrubbed rows may keep attachments; this is what scrubbing must remove. */
  predicate NoWords(r: Row) {
    Coalesce(r.text) == "" && Coalesce(r.subject) == ""
  }

  predicate BodyFree(r: Row) {
    r.text.None? && r.subject.None? && Coalesce(r.sender) == "" && r.tapbackEmoji.None?
  }

  predicate AllEmpty(r: Row) {
    NoWords(r) && Coalesce(r.attachments) == ""
  }

  // ---- Readability (the WHERE builders) --------------------------------------------

  predicate SameChat(id: string, row: Row) {
    row.meta.chatId.Some? && Lower(id) == Lower(row.meta.chatId.value)
  }

  predicate SourceAnywhere(chats: map<string, Chat>, row: Row) {
    exists id :: id in chats && SameChat(id, row)
  }

  predicate SourceHere(chats: map<string, Chat>, row: Row) {
    exists id :: id in chats && SameChat(id, row) && row.portalId == Some(chats[id].portalId)
  }

  predicate EligibleHere(chats: map<string, Chat>, bridgeFiltered: bool, row: Row) {
    exists id :: id in chats && SameChat(id, row) && row.portalId == Some(chats[id].portalId)
      && !chats[id].deleted && (bridgeFiltered || !chats[id].filtered)
  }

  predicate Placeholder(id: string) {
    "synthetic:" <= id || "recycle:" <= id
  }

  /** A live filtered sibling on the row's portal. */
  predicate FilteredSibling(chats: map<string, Chat>, row: Row) {
    exists id :: id in chats && row.portalId == Some(chats[id].portalId)
      && !Placeholder(id) && !chats[id].deleted && chats[id].filtered
  }

  /** cloudMessageChatFilterWhere. */
  predicate Readable(chats: map<string, Chat>, bridgeFiltered: bool, row: Row) {
    || EligibleHere(chats, bridgeFiltered, row)
    || (!SourceAnywhere(chats, row) && (bridgeFiltered || !FilteredSibling(chats, row)))
  }

  /** permanentlyFilteredMessageWhere. */
  predicate PermanentlyFiltered(chats: map<string, Chat>, bridgeFiltered: bool, row: Row) {
    || (SourceHere(chats, row) && !EligibleHere(chats, bridgeFiltered, row))
    || (!bridgeFiltered && !SourceAnywhere(chats, row) && FilteredSibling(chats, row))
  }

  /**
    A row is never both readable and permanently filtered, and it is neither exactly
    when its source chat exists, but only on other portals.
   */
  lemma FilterClasses(chats: map<string, Chat>, bridgeFiltered: bool, row: Row)
    ensures !(Readable(chats, bridgeFiltered, row) && PermanentlyFiltered(chats, bridgeFiltered, row))
    ensures !Readable(chats, bridgeFiltered, row) && !PermanentlyFiltered(chats, bridgeFiltered, row)
      <==> SourceAnywhere(chats, row) && !SourceHere(chats, row)
  {
    if EligibleHere(chats, bridgeFiltered, row) {
      assert SourceHere(chats, row);
    }
    if SourceHere(chats, row) {
      assert SourceAnywhere(chats, row);
    }
  }

  /** The row names a chat by that id, in any letter case. */
  ghost predicate Cites(row: Row, id: string) {
    row.meta.chatId.Some? && Upper(id) == Upper(row.meta.chatId.value)
  }

  ghost predicate HasLiveChat(chats: map<string, Chat>, bridgeFiltered: bool, row: Row) {
    exists id :: id in chats && Cites(row, id) && row.portalId == Some(chats[id].portalId)
      && !chats[id].deleted && (chats[id].filtered ==> bridgeFiltered)
  }

  /** A live junk chat of the portal that is no stand-in for one. */
  ghost predicate HasJunkChat(chats: map<string, Chat>, row: Row) {
    exists id :: id in chats && row.portalId == Some(chats[id].portalId) && chats[id].filtered && !chats[id].deleted
      && !("synthetic:" <= id) && !("recycle:" <= id)
  }

  /**
    Which rows may be read: those of a known chat when it is live and wanted on their
    portal; those of an unknown chat unless junk is unwanted and the portal has a junk chat.
    Those of a known chat that was dropped from their portal are filtered for good, and so
    are the junk ones of an unknown chat.
   */
  lemma ReadableExactly(chats: map<string, Chat>, bridgeFiltered: bool, row: Row)
    ensures (exists id :: id in chats && Cites(row, id)) ==>
      && (Readable(chats, bridgeFiltered, row) <==> HasLiveChat(chats, bridgeFiltered, row))
      && (PermanentlyFiltered(chats, bridgeFiltered, row) <==>
            !HasLiveChat(chats, bridgeFiltered, row)
            && exists id :: id in chats && Cites(row, id) && row.portalId == Some(chats[id].portalId))
    ensures !(exists id :: id in chats && Cites(row, id)) ==>
      && (Readable(chats, bridgeFiltered, row) <==> bridgeFiltered || !HasJunkChat(chats, row))
      && (PermanentlyFiltered(chats, bridgeFiltered, row) <==> !bridgeFiltered && HasJunkChat(chats, row))
  {
    forall id
      ensures Cites(row, id) <==> SameChat(id, row)
    {
      if row.meta.chatId.Some? {
        FoldingAgrees(id, row.meta.chatId.value);
      }
    }
  }

  /** Equal in upper case is equal in lower case. */
  lemma FoldingAgrees(a: string, b: string)
    ensures Upper(a) == Upper(b) <==> Lower(a) == Lower(b)
  {
    if |a| == |b| {
      forall i | 0 <= i < |a|
        ensures UpperChar(a[i]) == UpperChar(b[i]) <==> LowerChar(a[i]) == LowerChar(b[i])
      {}
      if Upper(a) == Upper(b) {
        forall i | 0 <= i < |a|
          ensures Lower(a)[i] == Lower(b)[i]
        {
          assert Upper(a)[i] == Upper(b)[i];
        }
      }
      if Lower(a) == Lower(b) {
        forall i | 0 <= i < |a|
          ensures Upper(a)[i] == Upper(b)[i]
        {
          assert Lower(a)[i] == Lower(b)[i];
        }
      }
    }
  }

  // ---- Upsert --------------------------------------------------------------------

  /** The INSERT half of the upsert. */
  function Fresh(r: CloudRow, now: int): Row {
    Row(Meta(r.recordName, Some(r.chatId), r.isFromMe, Some(r.service), Some(r.tapbackTarget), r.dateReadMs, r.hasBody,
             Some(r.replyGuid), Some(r.replyPart), now),
        Some(r.portalId), r.timestampMs, Some(r.sender), Some(r.text), Some(r.subject),
        r.tapbackType, Some(r.tapbackEmoji), Some(r.attachments), r.deleted, now, false, false)
  }

  /** A reply seen once is kept when a later record comes without it; read times only grow. */
  function MergeMeta(m: Meta, r: CloudRow): Meta {
    Meta(r.recordName, Some(r.chatId), r.isFromMe, Some(r.service), Some(r.tapbackTarget),
         if r.dateReadMs > m.dateReadMs then r.dateReadMs else m.dateReadMs, r.hasBody,
         if r.replyGuid != "" then Some(r.replyGuid) else m.replyGuid,
         if r.replyGuid != "" then Some(r.replyPart) else m.replyPart, m.createdTs)
  }

  /** The ON CONFLICT half: scrubbed bodies and deletions are sticky. */
  function Merge(o: Row, r: CloudRow, now: int): Row {
    Row(MergeMeta(o.meta, r), Some(r.portalId), r.timestampMs,
        if o.scrubbed then o.sender else Some(r.sender),
        if o.scrubbed then o.text else Some(r.text),
        if o.scrubbed then o.subject else Some(r.subject),
        r.tapbackType,
        if o.scrubbed then o.tapbackEmoji else Some(r.tapbackEmoji),
        Some(r.attachments), o.deleted || r.deleted, now, o.scrubbed, o.messageDeleted)
  }

  // ---- Steps ----------------------------------------------------------------------

  /** What an automatic rehydrate cleared: guid to original updated_ts, and its marker. */
  datatype Attempt = Attempt(portal: string, rows: map<string, int>, marker: int)

  const MARKER_AGE := 1000

  /** What the recycle bin tells of a message. */
  datatype Seed = Seed(
    recordName: string, chatId: string, portalId: string, timestampMs: int,
    sender: string, isFromMe: bool, service: string)

  datatype Step =
    | Upsert(rows: map<string, CloudRow>, now: int)
    | DeleteBatch(guids: set<string>, now: int)
    | SoftDelete(guid: string, portal: string, messageDeleted: bool, now: int)
    | DeletePortalRows(portals: set<string>, now: int)
    | UndeletePortal(portal: string, now: int)
    | UndeleteRecycle(portal: string, guids: set<string>, now: int)
    | ClearScrub(portal: string, now: int)
    | ClearAllScrub(now: int)
    | BeginRehydrate(portal: string, bridgeFiltered: bool, now: int)
    | EndRehydrate(attempt: Attempt)
    | ScrubBodies(guids: set<string>)
    | ScrubReactions(guids: set<string>, cutoff: int)
    | Reroute(moves: map<string, string>, stamp: Option<int>)
    | PersistUuid(guid: string, portal: string, timestampMs: int, isFromMe: bool, now: int)
    | PersistTapback(guid: string, portal: string, timestampMs: int, isFromMe: bool, tapback: int, now: int)
    | SeedRecycle(guid: string, seed: Seed, now: int)
    | HardDelete(guids: set<string>)
    | DeleteOrphans(guids: set<string>)
    | OtherTables(chats: map<string, Chat>, delivered: set<Delivered>)

  /** SET text=NULL, subject=NULL, sender='', tapback_emoji=NULL, body_scrubbed=TRUE. */
  function Scrub(r: Row): Row {
    r.(text := None, subject := None, sender := Some(""), tapbackEmoji := None, scrubbed := true)
  }

  /** COALESCE(NULLIF(portal_id, ''), NULLIF(new, '')). */
  function RouteIfUnset(current: Option<string>, portal: string): Option<string> {
    if Coalesce(current) != "" then current else if portal != "" then Some(portal) else None
  }

  predicate IsReaction(r: Row) {
    r.tapbackType.Some? && r.tapbackType.value >= 2000
  }

  /** Rows captured by clearBodyScrubForRehydrate. */
  predicate Captures(db: Db, portal: string, bridgeFiltered: bool, r: Row) {
    r.portalId == Some(portal) && r.scrubbed && !r.deleted && Readable(db.chats, bridgeFiltered, r)
  }

  /** rescrubClearedRows on one row. */
  function Rescrub(a: Attempt, g: string, r: Row): Row {
    if g in a.rows && r.portalId == Some(a.portal) && !r.scrubbed && (r.updatedTs == a.marker || AllEmpty(r)) then
      r.(scrubbed := true, updatedTs := if r.updatedTs == a.marker then a.rows[g] else r.updatedTs)
    else r
  }

  /** The new value of an existing row. */
  function Touch(db: Db, step: Step, g: string, r: Row): Row {
    match step
    case Upsert(rows, now) => if g in rows then Merge(r, rows[g], now) else r
    case DeleteBatch(guids, now) =>
      if g in guids && !r.deleted then Scrub(r).(deleted := true, updatedTs := now) else r
    case SoftDelete(guid, portal, messageDeleted, now) =>
      if Upper(g) == Upper(guid) then
        Scrub(r).(deleted := true, messageDeleted := r.messageDeleted || messageDeleted,
                  portalId := RouteIfUnset(r.portalId, portal))
      else r
    case DeletePortalRows(portals, now) =>
      if r.portalId.Some? && r.portalId.value in portals && !r.deleted then
        Scrub(r).(deleted := true, updatedTs := now)
      else r
    case UndeletePortal(portal, now) =>
      if r.portalId == Some(portal) && r.deleted && !r.messageDeleted then r.(deleted := false, updatedTs := now) else r
    case UndeleteRecycle(portal, guids, now) =>
      if r.portalId == Some(portal) && g in guids && r.deleted && !r.messageDeleted then
        r.(deleted := false, updatedTs := now)
      else r
    case ClearScrub(portal, now) =>
      if r.portalId == Some(portal) && r.scrubbed && !r.messageDeleted then
        r.(scrubbed := false, updatedTs := now)
      else r
    case ClearAllScrub(now) =>
      if r.scrubbed && !r.deleted then r.(scrubbed := false, updatedTs := now) else r
    case BeginRehydrate(portal, bridgeFiltered, now) =>
      if Captures(db, portal, bridgeFiltered, r) then r.(scrubbed := false, updatedTs := now - MARKER_AGE) else r
    case EndRehydrate(a) => Rescrub(a, g, r)
    case ScrubBodies(guids) => if g in guids && !r.scrubbed && !IsReaction(r) then Scrub(r) else r
    case ScrubReactions(guids, cutoff) =>
      if g in guids && IsReaction(r) && !r.scrubbed && r.updatedTs < cutoff then
        r.(text := None, subject := None, scrubbed := true)
      else r
    case Reroute(moves, stamp) =>
      if g in moves then r.(portalId := Some(moves[g]), updatedTs := if stamp.Some? then stamp.value else r.updatedTs)
      else r
    case PersistUuid(guid, portal, _, _, _) =>
      if g == guid && Coalesce(r.portalId) == "" then r.(portalId := Some(portal)) else r
    case PersistTapback(_, _, _, _, _, _) => r
    case SeedRecycle(guid, seed, _) =>
      if g == guid then r.(deleted := r.messageDeleted, portalId := Some(seed.portalId)) else r
    case HardDelete(_) => r
    case DeleteOrphans(_) => r
    case OtherTables(_, _) => r
  }

  /** A row seeded from recycle-bin metadata. */
  function Seeded(seed: Seed, now: int): Row {
    Row(Meta(seed.recordName, Some(seed.chatId), seed.isFromMe, Some(seed.service), None, 0, true, None, None, now),
        Some(seed.portalId), seed.timestampMs, Some(seed.sender), None, None,
        None, None, None, false, now, false, false)
  }

  /** The columns a minimal INSERT leaves to their defaults. */
  function Minimal(portal: Option<string>, timestampMs: int, isFromMe: bool, now: int): Row {
    Row(Meta("", None, isFromMe, None, None, 0, true, None, None, now), portal, timestampMs,
        None, None, None, None, None, None, false, now, false, false)
  }

  /** Rows a step adds; each is absent from the table. */
  function Inserted(db: Db, step: Step): (added: map<string, Row>)
    ensures added.Keys !! db.msgs.Keys
  {
    match step
    case Upsert(rows, now) => map g | g in rows && g !in db.msgs :: Fresh(rows[g], now)
    case SoftDelete(guid, portal, messageDeleted, now) =>
      if exists g :: g in db.msgs && Upper(g) == Upper(guid) then map[]
      else map[guid := Minimal(if portal == "" then None else Some(portal), now, false, now)
                       .(deleted := true, messageDeleted := messageDeleted, scrubbed := true)]
    case PersistUuid(guid, portal, ts, fromMe, now) =>
      if guid in db.msgs then map[] else map[guid := Minimal(Some(portal), ts, fromMe, now)]
    case PersistTapback(guid, portal, ts, fromMe, tapback, now) =>
      if guid in db.msgs then map[]
      else map[guid := Minimal(Some(portal), ts, fromMe, now).(tapbackType := Some(tapback))]
    case SeedRecycle(guid, seed, now) => if guid in db.msgs then map[] else map[guid := Seeded(seed, now)]
    case _ => map[]
  }

  predicate Removed(db: Db, step: Step, g: string, r: Row) {
    match step
    case HardDelete(guids) => g in guids
    case DeleteOrphans(guids) =>
      g in guids && r.deleted && !r.messageDeleted && r.portalId.Some?
      && forall id :: id in db.chats ==> db.chats[id].portalId != r.portalId.value
    case _ => false
  }

  function Apply(db: Db, step: Step): Db {
    var kept := map g | g in db.msgs && !Removed(db, step, g, db.msgs[g]) :: Touch(db, step, g, db.msgs[g]);
    var msgs := kept + Inserted(db, step);
    if step.OtherTables? then Db(msgs, step.chats, step.delivered) else db.(msgs := msgs)
  }

  lemma UpsertKeys(db: Db, rows: map<string, CloudRow>, now: int)
    ensures Apply(db, Upsert(rows, now)).msgs.Keys == db.msgs.Keys + rows.Keys
  {
    var added := Inserted(db, Upsert(rows, now));
    assert added.Keys == rows.Keys - db.msgs.Keys;
  }

  lemma UpsertAt(db: Db, rows: map<string, CloudRow>, now: int, g: string)
    requires g in db.msgs || g in rows
    ensures var msgs := Apply(db, Upsert(rows, now)).msgs;
      && g in msgs
      && msgs[g] == if g !in db.msgs then Fresh(rows[g], now)
                    else if g in rows then Merge(db.msgs[g], rows[g], now)
                    else db.msgs[g]
  {}

  /** Reads a result set into a list, in the order the database happens to return it. */
  method ReadRows<T(==)>(s: set<T>) returns (list: seq<T>)
    ensures forall x :: x in list <==> x in s
  {
    var rest := s;
    list := [];
    while rest != {}
      invariant forall x :: x in s <==> x in list || x in rest
      decreases |rest|
    {
      var x :| x in rest;
      list := list + [x];
      rest := rest - {x};
    }
  }
}
