/**
  scrubBridgedBodies: listing candidates, collecting delivery witnesses, and scrubbing
  in batches that recheck every reason inside the UPDATE.
 */
module CloudScrub {
  import opened Collections
  import opened CloudDb
  import opened CloudStore

  // ---- WHERE clauses -----------------------------------------------------------------

  predicate OnPortal(chat: Chat, bridgeFiltered: bool, row: Row) {
    row.portalId == Some(chat.portalId) && !chat.deleted && (bridgeFiltered || !chat.filtered)
  }

  /** A live eligible chat of the portal is waiting for its forward backfill. */
  predicate Pending(chats: map<string, Chat>, bridgeFiltered: bool, hold: int, row: Row) {
    exists id :: id in chats && OnPortal(chats[id], bridgeFiltered, row)
      && (Coalesce(row.meta.chatId) == "" || SameChat(id, row) || !SourceHere(chats, row))
      && !chats[id].fwdDone && chats[id].createdTs >= hold
  }

  /** The row's own chat has finished its forward backfill. */
  predicate Backfilled(chats: map<string, Chat>, bridgeFiltered: bool, row: Row) {
    exists id :: id in chats && OnPortal(chats[id], bridgeFiltered, row)
      && Coalesce(row.meta.chatId) != "" && SameChat(id, row) && chats[id].fwdDone
  }

  /** pendingBackfillGateSQL together with cloudMessageChatFilterWhere. */
  predicate Open(chats: map<string, Chat>, bridgeFiltered: bool, hold: int, row: Row) {
    && !(Pending(chats, bridgeFiltered, hold, row) && !Backfilled(chats, bridgeFiltered, row))
    && Readable(chats, bridgeFiltered, row)
  }

  predicate Forced(chats: map<string, Chat>, bridgeFiltered: bool, row: Row) {
    row.deleted || PermanentlyFiltered(chats, bridgeFiltered, row)
  }

  predicate Aged(row: Row, cutoff: int) {
    !row.scrubbed && !IsReaction(row) && row.updatedTs < cutoff
  }

  /** A later clock only lets more rows through the pending gate. */
  lemma GateRelaxes(chats: map<string, Chat>, bridgeFiltered: bool, hold: int, later: int, row: Row)
    requires hold <= later && Open(chats, bridgeFiltered, hold, row)
    ensures Open(chats, bridgeFiltered, later, row)
  {}

  /** A chat the row names, live and eligible on the row's portal. */
  ghost predicate OwnChat(chats: map<string, Chat>, bridgeFiltered: bool, row: Row, id: string) {
    && id in chats && row.meta.chatId.Some? && Lower(id) == Lower(row.meta.chatId.value)
    && row.portalId == Some(chats[id].portalId)
    && !chats[id].deleted && (bridgeFiltered || !chats[id].filtered)
  }

  /** The row's own chat is still to be backfilled, was seen recently, and no spelling of it is done. */
  ghost predicate HeldByOwn(chats: map<string, Chat>, bridgeFiltered: bool, hold: int, row: Row) {
    && (exists id :: OwnChat(chats, bridgeFiltered, row, id) && !chats[id].fwdDone && chats[id].createdTs >= hold)
    && (forall id :: OwnChat(chats, bridgeFiltered, row, id) ==> !chats[id].fwdDone)
  }

  /** Some live and eligible chat of the portal is still to be backfilled and was seen recently. */
  ghost predicate HeldBySibling(chats: map<string, Chat>, bridgeFiltered: bool, hold: int, row: Row) {
    exists id :: id in chats && row.portalId == Some(chats[id].portalId)
      && !chats[id].deleted && (bridgeFiltered || !chats[id].filtered)
      && !chats[id].fwdDone && chats[id].createdTs >= hold
  }

  /** A row waits for its own chat when that is known on its portal, else for every chat of the portal. */
  ghost predicate Held(chats: map<string, Chat>, bridgeFiltered: bool, hold: int, row: Row) {
    if Coalesce(row.meta.chatId) != "" && SourceHere(chats, row) then HeldByOwn(chats, bridgeFiltered, hold, row)
    else HeldBySibling(chats, bridgeFiltered, hold, row)
  }

  /** The gate is open on exactly the readable rows that need not wait. */
  lemma GateExact(chats: map<string, Chat>, bridgeFiltered: bool, hold: int, row: Row)
    ensures Open(chats, bridgeFiltered, hold, row)
       <==> Readable(chats, bridgeFiltered, row) && !Held(chats, bridgeFiltered, hold, row)
  {
    if Coalesce(row.meta.chatId) != "" {
      OwnGate(chats, bridgeFiltered, hold, row);
    } else {
      SiblingGate(chats, bridgeFiltered, hold, row);
    }
  }

  lemma OwnGate(chats: map<string, Chat>, bridgeFiltered: bool, hold: int, row: Row)
    requires Coalesce(row.meta.chatId) != ""
    ensures Pending(chats, bridgeFiltered, hold, row) && !Backfilled(chats, bridgeFiltered, row)
       <==> Held(chats, bridgeFiltered, hold, row)
  {
    if SourceHere(chats, row) {
      forall id | id in chats && OnPortal(chats[id], bridgeFiltered, row) && SameChat(id, row)
        ensures OwnChat(chats, bridgeFiltered, row, id)
      {}
    } else {
      forall id | id in chats && OnPortal(chats[id], bridgeFiltered, row)
        ensures !SameChat(id, row)
      {}
      SiblingGate(chats, bridgeFiltered, hold, row);
    }
  }

  lemma SiblingGate(chats: map<string, Chat>, bridgeFiltered: bool, hold: int, row: Row)
    requires Coalesce(row.meta.chatId) == "" || !SourceHere(chats, row)
    ensures Pending(chats, bridgeFiltered, hold, row) <==> HeldBySibling(chats, bridgeFiltered, hold, row)
    ensures !Backfilled(chats, bridgeFiltered, row)
  {}

  // ---- Delivery witnesses ---------------------------------------------------------------

  /** strings.IndexByte(s, '_'). */
  function Underscore(s: string): (i: int)
    ensures -1 <= i < |s|
    ensures i >= 0 ==> s[i] == '_'
    ensures '_' !in s[..if i < 0 then |s| else i]
  {
    if s == "" then -1
    else if s[0] == '_' then 0
    else
      var i := Underscore(s[1..]);
      assert s == [s[0]] + s[1..];
      if i < 0 then -1 else i + 1
  }

  /** A delivered id stands for a GUID: the same spelling but for case, or that plus a part suffix. */
  predicate StandsFor(id: string, guid: string) {
    || Lower(id) == guid
    || (Underscore(Lower(id)) > 0 && Lower(id)[..Underscore(Lower(id))] == guid)
  }

  /** The id is the GUID, an underscore and a part. */
  ghost predicate IsPartOf(id: string, guid: string, part: string) {
    guid != "" && '_' !in guid && Upper(id) == Upper(guid + "_" + part)
  }

  /** For a GUID in lower case: the id spells it in any case, alone or followed by a part. */
  lemma StandsForExactly(id: string, guid: string)
    requires Lower(guid) == guid
    ensures StandsFor(id, guid) <==> Upper(id) == Upper(guid) || exists part :: IsPartOf(id, guid, part)
  {
    FoldingAgrees(id, guid);
    var i := Underscore(Lower(id));
    if i > 0 && Lower(id)[..i] == guid {
      PartAfter(id, guid, i);
    }
    if part :| IsPartOf(id, guid, part) {
      FoldingAgrees(id, guid + "_" + part);
      PartBefore(id, guid, part);
    }
  }

  lemma PartAfter(id: string, guid: string, i: nat)
    requires Lower(guid) == guid && 0 < i == Underscore(Lower(id)) && Lower(id)[..i] == guid
    ensures IsPartOf(id, guid, id[i + 1..])
  {
    var whole := guid + "_" + id[i + 1..];
    forall k | 0 <= k < |id|
      ensures Lower(id)[k] == Lower(whole)[k]
    {
      if k < i {
        assert Lower(id)[k] == Lower(id)[..i][k] == guid[k] == Lower(guid)[k];
      }
    }
    FoldingAgrees(id, whole);
  }

  lemma PartBefore(id: string, guid: string, part: string)
    requires guid != "" && '_' !in guid && Lower(guid) == guid && Lower(id) == Lower(guid + "_" + part)
    ensures Underscore(Lower(id)) == |guid| && Lower(id)[..|guid|] == guid
  {
    var whole := guid + "_" + part;
    forall k | 0 <= k < |guid|
      ensures Lower(id)[k] == guid[k]
    {
      assert Lower(whole)[k] == Lower(guid)[k];
    }
    assert Lower(id)[|guid|] == Lower(whole)[|guid|] == '_';
    assert Lower(id)[..|guid|] == guid;
    UnderscoreAt(Lower(id), |guid|);
  }

  lemma {:induction false} UnderscoreAt(s: string, k: nat)
    requires k < |s| && s[k] == '_' && '_' !in s[..k]
    ensures Underscore(s) == k
  {
    if k > 0 {
      assert s[0] in s[..k] && s[1..][..k - 1] == s[..k][1..];
      UnderscoreAt(s[1..], k - 1);
    }
  }

  datatype Key = Key(guid: string, portal: string)
  type Witnesses = map<Key, string>

  function AddIfAbsent(w: Witnesses, k: Key, id: string): Witnesses {
    if k in w then w else w[k := id]
  }

  /** The witnesses one delivered message contributes. */
  function AddWitness(w: Witnesses, m: Delivered): Witnesses {
    var normalized := Lower(m.id);
    var suffix := Underscore(normalized);
    var w1 := AddIfAbsent(w, Key(normalized, m.room), m.id);
    if suffix > 0 then AddIfAbsent(w1, Key(normalized[..suffix], m.room), m.id) else w1
  }

  ghost predicate HasMessage(messages: seq<Delivered>, k: Key) {
    exists m :: m in messages && m.room == k.portal && StandsFor(m.id, k.guid)
  }

  /** A witness for exactly the keys some delivered message stands for, each read from the table. */
  ghost predicate Witnessing(w: Witnesses, messages: seq<Delivered>) {
    && (forall k :: k in w <==> HasMessage(messages, k))
    && (forall k :: k in w ==> Delivered(w[k], k.portal) in messages && StandsFor(w[k], k.guid))
  }

  lemma WitnessingStep(w: Witnesses, messages: seq<Delivered>, m: Delivered)
    requires Witnessing(w, messages)
    ensures Witnessing(AddWitness(w, m), messages + [m])
  {
    var w', longer := AddWitness(w, m), messages + [m];
    forall k
      ensures k in w' <==> HasMessage(longer, k)
      ensures k in w' ==> Delivered(w'[k], k.portal) in longer && StandsFor(w'[k], k.guid)
    {
      if HasMessage(messages, k) {
        var n :| n in messages && n.room == k.portal && StandsFor(n.id, k.guid);
        assert n in longer;
      }
      assert m in longer;
    }
  }

  /** loadBridgedMessageIDs. */
  method LoadBridgedMessageIDs(messages: seq<Delivered>) returns (w: Witnesses)
    ensures Witnessing(w, messages)
  {
    w := map[];
    NoWitnesses();
    for i := 0 to |messages|
      invariant Witnessing(w, messages[..i])
    {
      w := LoadOne(messages, i, w);
    }
    assert messages[..|messages|] == messages;
  }

  /** One delivered message. */
  method LoadOne(messages: seq<Delivered>, i: nat, w: Witnesses) returns (more: Witnesses)
    requires i < |messages| && Witnessing(w, messages[..i])
    ensures Witnessing(more, messages[..i + 1])
  {
    WitnessingStep(w, messages[..i], messages[i]);
    assert messages[..i + 1] == messages[..i] + [messages[i]];
    more := AddWitness(w, messages[i]);
  }

  lemma NoWitnesses()
    ensures Witnessing(map[], [])
  {}

  // ---- Batches -----------------------------------------------------------------------------

  datatype Candidate = Candidate(guid: string, portal: string, force: bool)
  datatype Proof = Proof(guid: string, portal: string, id: string)

  /** What the UPDATE of one batch knows: GUIDs listed as forced, and delivery proofs. */
  datatype Batch = Batch(forced: set<string>, proofs: set<Proof>, cutoff: int, hold: int)

  /** WHERE proof.guid = guid AND proof.portal_id = portal_id, joined with message. */
  predicate Proves(db: Db, g: string, row: Row, p: Proof) {
    p.guid == g && row.portalId == Some(p.portal) && Delivered(p.id, p.portal) in db.delivered
  }

  predicate Proven(db: Db, b: Batch, g: string, row: Row) {
    exists p :: p in b.proofs && Proves(db, g, row, p)
  }

  predicate BatchSelects(db: Db, bridgeFiltered: bool, b: Batch, g: string, row: Row) {
    && Aged(row, b.cutoff)
    && (|| (g in b.forced && Forced(db.chats, bridgeFiltered, row))
        || (Proven(db, b, g, row) && Open(db.chats, bridgeFiltered, b.hold, row)))
  }

  /** The UPDATE of scrubBatchIfEligible. */
  function ScrubBatch(db: Db, bridgeFiltered: bool, b: Batch): map<string, Row> {
    map g | g in db.msgs :: if BatchSelects(db, bridgeFiltered, b, g, db.msgs[g]) then Scrub(db.msgs[g]) else db.msgs[g]
  }

  /** A proof carries an id that stands for its GUID. */
  ghost predicate ProofsSound(b: Batch) {
    forall p :: p in b.proofs ==> StandsFor(p.id, Lower(p.guid))
  }

  ghost predicate DeliveredTo(db: Db, g: string, row: Row) {
    exists m :: m in db.delivered && row.portalId == Some(m.room) && StandsFor(m.id, Lower(g))
  }

  /** A batch is a ScrubBodies step, so runs with scrubbing keep every run invariant. */
  lemma BatchIsStep(db: Db, bridgeFiltered: bool, b: Batch)
    ensures var chosen := set g | g in db.msgs && BatchSelects(db, bridgeFiltered, b, g, db.msgs[g]);
      Apply(db, ScrubBodies(chosen)).msgs == ScrubBatch(db, bridgeFiltered, b)
  {
    var chosen := set g | g in db.msgs && BatchSelects(db, bridgeFiltered, b, g, db.msgs[g]);
    ScrubStep(db, chosen);
    forall g | g in db.msgs
      ensures ScrubRow(chosen, g, db.msgs[g]) == ScrubBatch(db, bridgeFiltered, b)[g]
    {
      assert g in chosen <==> BatchSelects(db, bridgeFiltered, b, g, db.msgs[g]);
    }
  }

  function ScrubRow(guids: set<string>, g: string, r: Row): Row {
    if g in guids && !r.scrubbed && !IsReaction(r) then Scrub(r) else r
  }

  lemma ScrubStep(db: Db, guids: set<string>)
    ensures Apply(db, ScrubBodies(guids)).msgs == map g | g in db.msgs :: ScrubRow(guids, g, db.msgs[g])
  {}

  // ---- The pending gate on a batch ---------------------------------------------------------------

  /** A row that waits for its own chat is left alone, whatever its siblings and the delivery proofs say. */
  lemma OwnChatHolds(db: Db, bridgeFiltered: bool, b: Batch, g: string)
    requires g in db.msgs && !db.msgs[g].deleted && HeldByOwn(db.chats, bridgeFiltered, b.hold, db.msgs[g])
    ensures ScrubBatch(db, bridgeFiltered, b)[g] == db.msgs[g]
  {
    var row := db.msgs[g];
    var id :| OwnChat(db.chats, bridgeFiltered, row, id) && !db.chats[id].fwdDone && db.chats[id].createdTs >= b.hold;
    assert EligibleHere(db.chats, bridgeFiltered, row) by {
      assert SameChat(id, row);
    }
    FilterClasses(db.chats, bridgeFiltered, row);
    GateExact(db.chats, bridgeFiltered, b.hold, row);
  }

  /** So a backfilled sibling, or any other change to chats the row does not name, does not release it. */
  lemma SiblingsDoNotRelease(db: Db, chats: map<string, Chat>, bridgeFiltered: bool, b: Batch, g: string)
    requires g in db.msgs && !db.msgs[g].deleted && HeldByOwn(db.chats, bridgeFiltered, b.hold, db.msgs[g])
    requires forall id :: SameChat(id, db.msgs[g]) ==>
      (id in chats <==> id in db.chats) && (id in chats ==> chats[id] == db.chats[id])
    ensures ScrubBatch(db.(chats := chats), bridgeFiltered, b)[g] == db.msgs[g]
  {
    var row := db.msgs[g];
    var id :| OwnChat(db.chats, bridgeFiltered, row, id) && !db.chats[id].fwdDone && db.chats[id].createdTs >= b.hold;
    assert SameChat(id, row) && OwnChat(chats, bridgeFiltered, row, id);
    forall own | OwnChat(chats, bridgeFiltered, row, own)
      ensures OwnChat(db.chats, bridgeFiltered, row, own)
    {
      assert SameChat(own, row);
    }
    OwnChatHolds(db.(chats := chats), bridgeFiltered, b, g);
  }

  /** A row without a chat, or whose chat is unknown on its portal, waits for every chat of the portal. */
  lemma UnnamedRowWaits(db: Db, bridgeFiltered: bool, b: Batch, g: string)
    requires g in db.msgs && !db.msgs[g].deleted && !PermanentlyFiltered(db.chats, bridgeFiltered, db.msgs[g])
    requires Coalesce(db.msgs[g].meta.chatId) == "" || !SourceHere(db.chats, db.msgs[g])
    requires HeldBySibling(db.chats, bridgeFiltered, b.hold, db.msgs[g])
    ensures ScrubBatch(db, bridgeFiltered, b)[g] == db.msgs[g]
  {
    GateExact(db.chats, bridgeFiltered, b.hold, db.msgs[g]);
  }

  /** A readable row that need not wait is scrubbed as soon as a proof of its delivery holds. */
  lemma FreeRowIsScrubbed(db: Db, bridgeFiltered: bool, b: Batch, g: string)
    requires g in db.msgs && Aged(db.msgs[g], b.cutoff) && Proven(db, b, g, db.msgs[g])
    requires Readable(db.chats, bridgeFiltered, db.msgs[g]) && !Held(db.chats, bridgeFiltered, b.hold, db.msgs[g])
    ensures ScrubBatch(db, bridgeFiltered, b)[g] == Scrub(db.msgs[g])
  {
    GateExact(db.chats, bridgeFiltered, b.hold, db.msgs[g]);
  }

  /** Finishing the backfill of a row's own chat releases a delivered row. */
  lemma FinishingReleases(db: Db, bridgeFiltered: bool, b: Batch, g: string, id: string)
    requires g in db.msgs && Aged(db.msgs[g], b.cutoff) && Proven(db, b, g, db.msgs[g])
    requires Coalesce(db.msgs[g].meta.chatId) != "" && OwnChat(db.chats, bridgeFiltered, db.msgs[g], id)
    ensures var done := db.(chats := db.chats[id := db.chats[id].(fwdDone := true)]);
      ScrubBatch(done, bridgeFiltered, b)[g] == Scrub(db.msgs[g])
  {
    var row, done := db.msgs[g], db.(chats := db.chats[id := db.chats[id].(fwdDone := true)]);
    assert SameChat(id, row) && OwnChat(done.chats, bridgeFiltered, row, id);
    assert EligibleHere(done.chats, bridgeFiltered, row) && SourceHere(done.chats, row);
    var p :| p in b.proofs && Proves(db, g, row, p);
    assert Proves(done, g, row, p);
    FreeRowIsScrubbed(done, bridgeFiltered, b, g);
  }

  /** So does a hold that has passed the creation of every spelling of that chat. */
  lemma WaitingEnds(db: Db, bridgeFiltered: bool, b: Batch, g: string, id: string)
    requires g in db.msgs && Aged(db.msgs[g], b.cutoff) && Proven(db, b, g, db.msgs[g])
    requires Coalesce(db.msgs[g].meta.chatId) != "" && OwnChat(db.chats, bridgeFiltered, db.msgs[g], id)
    requires forall own :: OwnChat(db.chats, bridgeFiltered, db.msgs[g], own) ==> db.chats[own].createdTs < b.hold
    ensures ScrubBatch(db, bridgeFiltered, b)[g] == Scrub(db.msgs[g])
  {
    var row := db.msgs[g];
    assert SameChat(id, row);
    assert EligibleHere(db.chats, bridgeFiltered, row) && SourceHere(db.chats, row);
    FreeRowIsScrubbed(db, bridgeFiltered, b, g);
  }

  // ---- Splitting candidates into a batch -----------------------------------------------------

  ghost predicate IsForced(candidates: seq<Candidate>, g: string) {
    exists c :: c in candidates && c.force && c.guid == g
  }

  ghost predicate IsProof(candidates: seq<Candidate>, w: Witnesses, p: Proof) {
    exists c :: c in candidates && !c.force && Key(Lower(c.guid), c.portal) in w
      && p == Proof(c.guid, c.portal, w[Key(Lower(c.guid), c.portal)])
  }

  /** The first loop of scrubBatchIfEligible. */
  method SplitCandidates(candidates: seq<Candidate>, w: Witnesses, cutoff: int, hold: int) returns (b: Batch)
    ensures b.cutoff == cutoff && b.hold == hold
    ensures forall g :: g in b.forced <==> IsForced(candidates, g)
    ensures forall p :: p in b.proofs <==> IsProof(candidates, w, p)
    ensures (forall k :: k in w ==> StandsFor(w[k], k.guid)) ==> ProofsSound(b)
  {
    var forced: set<string>, proofs: set<Proof> := {}, {};
    for i := 0 to |candidates|
      invariant forall g :: g in forced <==> IsForced(candidates[..i], g)
      invariant forall p :: p in proofs <==> IsProof(candidates[..i], w, p)
    {
      var c := candidates[i];
      assert candidates[..i + 1] == candidates[..i] + [c];
      var key := Key(Lower(c.guid), c.portal);
      if c.force {
        forced := forced + {c.guid};
      } else if key in w {
        proofs := proofs + {Proof(c.guid, c.portal, w[key])};
      }
    }
    assert candidates[..|candidates|] == candidates;
    b := Batch(forced, proofs, cutoff, hold);
  }

  // ---- A whole pass on a quiet table -----------------------------------------------------------

  /** AND portal_id NOT IN (...), present only when there is something to exclude. */
  predicate NotExcluded(exclude: set<string>, row: Row) {
    exclude == {} || (row.portalId.Some? && row.portalId.value !in exclude)
  }

  /** The WHERE clause of scrubCandidates. */
  predicate Listed(db: Db, bridgeFiltered: bool, cutoff: int, hold: int, exclude: set<string>, row: Row) {
    && Aged(row, cutoff) && NotExcluded(exclude, row)
    && (Forced(db.chats, bridgeFiltered, row) || Open(db.chats, bridgeFiltered, hold, row))
  }

  function CandidateOf(db: Db, bridgeFiltered: bool, g: string, row: Row): Candidate {
    Candidate(g, Coalesce(row.portalId), Forced(db.chats, bridgeFiltered, row))
  }

  function Candidates(db: Db, bridgeFiltered: bool, cutoff: int, hold: int, exclude: set<string>): set<Candidate> {
    set g | g in db.msgs && Listed(db, bridgeFiltered, cutoff, hold, exclude, db.msgs[g])
      :: CandidateOf(db, bridgeFiltered, g, db.msgs[g])
  }

  /** What a pass should scrub, said without candidates, witnesses or batches. */
  ghost predicate PassSelects(db: Db, bridgeFiltered: bool, cutoff: int, hold: int, exclude: set<string>, g: string,
                              row: Row) {
    && Aged(row, cutoff) && NotExcluded(exclude, row)
    && (|| Forced(db.chats, bridgeFiltered, row)
        || (Open(db.chats, bridgeFiltered, hold, row) && DeliveredTo(db, g, row)))
  }

  /** A batch built from listed candidates and true witnesses, at a later clock. */
  ghost predicate BatchOf(db: Db, bridgeFiltered: bool, cutoff: int, hold: int, exclude: set<string>,
                          chunk: seq<Candidate>, w: Witnesses, b: Batch) {
    && b.cutoff == cutoff && hold <= b.hold
    && (forall c :: c in chunk ==> c in Candidates(db, bridgeFiltered, cutoff, hold, exclude))
    && (forall g :: g in b.forced <==> IsForced(chunk, g))
    && (forall p :: p in b.proofs <==> IsProof(chunk, w, p))
  }

  ghost predicate Lists(chunk: seq<Candidate>, g: string) {
    exists c :: c in chunk && c.guid == g
  }

  lemma ProofMeansDelivered(db: Db, w: Witnesses, messages: seq<Delivered>, chunk: seq<Candidate>, b: Batch,
                            g: string, row: Row)
    requires Witnessing(w, messages) && (forall m :: m in messages <==> m in db.delivered)
    requires forall p :: p in b.proofs <==> IsProof(chunk, w, p)
    requires forall c :: c in chunk && c.guid == g ==> !c.force && c.portal == Coalesce(row.portalId)
    ensures Proven(db, b, g, row) <==> Lists(chunk, g) && DeliveredTo(db, g, row)
  {
    if Proven(db, b, g, row) {
      var p :| p in b.proofs && Proves(db, g, row, p);
      var c :| c in chunk && !c.force && Key(Lower(c.guid), c.portal) in w
        && p == Proof(c.guid, c.portal, w[Key(Lower(c.guid), c.portal)]);
      var m := Delivered(p.id, p.portal);
      assert StandsFor(m.id, Lower(g));
    }
    if Lists(chunk, g) && DeliveredTo(db, g, row) {
      var m :| m in db.delivered && row.portalId == Some(m.room) && StandsFor(m.id, Lower(g));
      var k := Key(Lower(g), m.room);
      assert HasMessage(messages, k);
      var c :| c in chunk && c.guid == g;
      var p := Proof(g, m.room, w[k]);
      assert IsProof(chunk, w, p);
    }
  }

  /** Delivery witnesses were read, or no candidate needs one. */
  ghost predicate WitnessesReady(delivered: set<Delivered>, candidates: seq<Candidate>, w: Witnesses) {
    || (exists messages :: Witnessing(w, messages) && forall m :: m in messages <==> m in delivered)
    || (forall c :: c in candidates ==> c.force)
  }

  /** On an unchanged row a batch selects exactly the pass's rows among its candidates. */
  lemma BatchExact(db: Db, cur: Db, bridgeFiltered: bool, cutoff: int, hold: int, exclude: set<string>,
                   chunk: seq<Candidate>, w: Witnesses, b: Batch, g: string)
    requires cur.chats == db.chats && cur.delivered == db.delivered && g in db.msgs
    requires BatchOf(db, bridgeFiltered, cutoff, hold, exclude, chunk, w, b) && WitnessesReady(db.delivered, chunk, w)
    ensures BatchSelects(cur, bridgeFiltered, b, g, db.msgs[g])
       <==> Lists(chunk, g) && PassSelects(db, bridgeFiltered, cutoff, hold, exclude, g, db.msgs[g])
  {
    var row := db.msgs[g];
    if !Lists(chunk, g) {
      assert !IsForced(chunk, g);
      assert !Proven(cur, b, g, row);
    } else {
      var c :| c in chunk && c.guid == g;
      if Forced(db.chats, bridgeFiltered, row) {
        assert IsForced(chunk, g);
      } else {
        GateRelaxes(db.chats, bridgeFiltered, hold, b.hold, row);
        var messages :| Witnessing(w, messages) && forall m :: m in messages <==> m in db.delivered;
        forall d | d in chunk && d.guid == g
          ensures !d.force && d.portal == Coalesce(row.portalId)
        {}
        ProofMeansDelivered(cur, w, messages, chunk, b, g, row);
      }
    }
  }

  /**
    The rows a pass is for: unscrubbed, no reaction, old enough, on no excluded portal, and
    deleted, permanently filtered, or delivered, readable and not waiting for a chat.
   */
  ghost predicate PassIsFor(db: Db, bridgeFiltered: bool, cutoff: int, hold: int, exclude: set<string>, g: string,
                            row: Row) {
    && !row.scrubbed && (row.tapbackType.Some? ==> row.tapbackType.value < 2000) && row.updatedTs < cutoff
    && (exclude != {} ==> row.portalId.Some? && row.portalId.value !in exclude)
    && (|| row.deleted
        || PermanentlyFiltered(db.chats, bridgeFiltered, row)
        || (DeliveredTo(db, g, row) && Readable(db.chats, bridgeFiltered, row)
            && !Held(db.chats, bridgeFiltered, hold, row)))
  }

  lemma PassSelectsItsRows(db: Db, bridgeFiltered: bool, cutoff: int, hold: int, exclude: set<string>, g: string,
                           row: Row)
    ensures PassSelects(db, bridgeFiltered, cutoff, hold, exclude, g, row)
       <==> PassIsFor(db, bridgeFiltered, cutoff, hold, exclude, g, row)
  {
    GateExact(db.chats, bridgeFiltered, hold, row);
  }

  /** A row after a whole pass. */
  ghost function PassResult(db: Db, bridgeFiltered: bool, cutoff: int, hold: int, exclude: set<string>, g: string): Row
    requires g in db.msgs
  {
    var row := db.msgs[g];
    if PassIsFor(db, bridgeFiltered, cutoff, hold, exclude, g, row) then Scrub(row) else row
  }

  /** A row after some of the candidates have been worked off. */
  ghost function PassRow(db: Db, bridgeFiltered: bool, cutoff: int, hold: int, exclude: set<string>,
                         done: seq<Candidate>, g: string): Row
    requires g in db.msgs
  {
    var row := db.msgs[g];
    if Lists(done, g) && PassSelects(db, bridgeFiltered, cutoff, hold, exclude, g, row) then Scrub(row) else row
  }

  lemma BatchAdvances(db: Db, cur: Db, bridgeFiltered: bool, cutoff: int, hold: int, exclude: set<string>,
                      done: seq<Candidate>, chunk: seq<Candidate>, w: Witnesses, b: Batch, g: string)
    requires cur.chats == db.chats && cur.delivered == db.delivered && g in db.msgs && g in cur.msgs
    requires cur.msgs[g] == PassRow(db, bridgeFiltered, cutoff, hold, exclude, done, g)
    requires BatchOf(db, bridgeFiltered, cutoff, hold, exclude, chunk, w, b) && WitnessesReady(db.delivered, chunk, w)
    ensures ScrubBatch(cur, bridgeFiltered, b)[g] == PassRow(db, bridgeFiltered, cutoff, hold, exclude, done + chunk, g)
  {
    assert Lists(done + chunk, g) <==> Lists(done, g) || Lists(chunk, g);
    BatchExact(db, cur, bridgeFiltered, cutoff, hold, exclude, chunk, w, b, g);
  }

  lemma AllListed(db: Db, bridgeFiltered: bool, cutoff: int, hold: int, exclude: set<string>, all: seq<Candidate>,
                  g: string)
    requires forall c :: c in all <==> c in Candidates(db, bridgeFiltered, cutoff, hold, exclude)
    requires g in db.msgs && PassSelects(db, bridgeFiltered, cutoff, hold, exclude, g, db.msgs[g])
    ensures Lists(all, g)
  {
    var c := CandidateOf(db, bridgeFiltered, g, db.msgs[g]);
    assert c in Candidates(db, bridgeFiltered, cutoff, hold, exclude);
    assert c in all && c.guid == g;
  }

  /** Reads witnesses only when some candidate needs a delivery proof. */
  method WitnessesFor(delivered: set<Delivered>, candidates: seq<Candidate>) returns (w: Witnesses)
    ensures WitnessesReady(delivered, candidates, w)
    ensures forall k :: k in w ==> StandsFor(w[k], k.guid)
  {
    for i := 0 to |candidates|
      invariant forall c :: c in candidates[..i] ==> c.force
    {
      if !candidates[i].force {
        var messages := ReadRows(delivered);
        w := LoadBridgedMessageIDs(messages);
        return;
      }
      assert candidates[..i + 1] == candidates[..i] + [candidates[i]];
    }
    assert candidates[..|candidates|] == candidates;
    w := map[];
  }

  /** One batch of a quiet pass. */
  method ScrubNextChunk(store: Store, cutoff: int, ghost hold: int, ghost exclude: set<string>,
                        ghost done: seq<Candidate>, chunk: seq<Candidate>, w: Witnesses, holdNow: int, ghost db: Db)
    requires hold <= holdNow && store.chats == db.chats && store.delivered == db.delivered
    requires store.msgs.Keys == db.msgs.Keys
    requires forall g :: g in store.msgs ==>
      store.msgs[g] == PassRow(db, store.bridgeFiltered, cutoff, hold, exclude, done, g)
    requires forall c :: c in chunk ==> c in Candidates(db, store.bridgeFiltered, cutoff, hold, exclude)
    requires WitnessesReady(db.delivered, chunk, w)
    modifies store`msgs
    ensures store.msgs.Keys == db.msgs.Keys
    ensures forall g :: g in store.msgs ==>
      store.msgs[g] == PassRow(db, store.bridgeFiltered, cutoff, hold, exclude, done + chunk, g)
  {
    var b := SplitCandidates(chunk, w, cutoff, holdNow);
    var cur := Db(store.msgs, store.chats, store.delivered);
    forall g | g in store.msgs
      ensures ScrubBatch(cur, store.bridgeFiltered, b)[g]
           == PassRow(db, store.bridgeFiltered, cutoff, hold, exclude, done + chunk, g)
    {
      BatchAdvances(db, cur, store.bridgeFiltered, cutoff, hold, exclude, done, chunk, w, b, g);
    }
    store.msgs := ScrubBatch(cur, store.bridgeFiltered, b);
  }

  /**
    scrubBridgedBodies while nothing else writes: prefilter, witnesses and batches scrub
    exactly the rows the pass should, whatever the clock reads at each batch.
   */
  method ScrubBridgedBodies(store: Store, cutoff: int, hold: int, holdAt: nat -> int, exclude: set<string>)
    requires forall i: nat :: hold <= holdAt(i)
    modifies store`msgs
    ensures store.msgs.Keys == old(store.msgs.Keys)
    ensures forall g :: g in store.msgs ==>
      store.msgs[g] == PassResult(old(store.View()), store.bridgeFiltered, cutoff, hold, exclude, g)
  {
    ghost var db := store.View();
    var filtered := store.bridgeFiltered;
    var candidates := ReadRows(Candidates(Db(store.msgs, store.chats, store.delivered), filtered, cutoff, hold,
                                          exclude));
    var w := WitnessesFor(store.delivered, candidates);
    var start := 0;
    while start < |candidates|
      invariant 0 <= start <= |candidates|
      invariant store.msgs.Keys == db.msgs.Keys
      invariant forall g :: g in store.msgs ==>
        store.msgs[g] == PassRow(db, filtered, cutoff, hold, exclude, candidates[..start], g)
    {
      var end := if start + BATCH < |candidates| then start + BATCH else |candidates|;
      var chunk := candidates[start..end];
      assert candidates[..end] == candidates[..start] + chunk;
      ScrubNextChunk(store, cutoff, hold, exclude, candidates[..start], chunk, w, holdAt(start), db);
      start := end;
    }
    assert candidates[..|candidates|] == candidates;
    forall g | g in store.msgs
      ensures store.msgs[g] == PassResult(db, filtered, cutoff, hold, exclude, g)
    {
      PassSelectsItsRows(db, filtered, cutoff, hold, exclude, g, db.msgs[g]);
      if PassSelects(db, filtered, cutoff, hold, exclude, g, db.msgs[g]) {
        AllListed(db, filtered, cutoff, hold, exclude, candidates, g);
      }
    }
  }

  // ---- A whole pass among other writers ----------------------------------------------------------

  /** The batch holds the chunk's forced GUIDs and delivery proofs. */
  ghost predicate SplitFrom(b: Batch, chunk: seq<Candidate>, w: Witnesses) {
    && (forall g :: g in b.forced <==> IsForced(chunk, g))
    && (forall p :: p in b.proofs <==> IsProof(chunk, w, p))
  }

  /** At the moment of an UPDATE: deleted, permanently filtered, or readable and delivered in its own portal. */
  ghost predicate Justified(db: Db, bridgeFiltered: bool, g: string, row: Row) {
    || row.deleted
    || PermanentlyFiltered(db.chats, bridgeFiltered, row)
    || (DeliveredTo(db, g, row) && Readable(db.chats, bridgeFiltered, row))
  }

  /**
    What one UPDATE may do to the table it meets: some of the GUIDs that the listing named,
    each old enough, justified and not waiting for its chat there and then, are scrubbed,
    and nothing else changes.
   */
  ghost predicate ScrubsOnlyJustified(listing: Db, db: Db, bridgeFiltered: bool, cutoff: int, hold: int,
                                      after: map<string, Row>) {
    && after.Keys == db.msgs.Keys
    && forall g :: g in db.msgs && after[g] != db.msgs[g] ==>
      && after[g] == Scrub(db.msgs[g])
      && g in listing.msgs && Aged(listing.msgs[g], cutoff)
      && Aged(db.msgs[g], cutoff)
      && Justified(db, bridgeFiltered, g, db.msgs[g])
      && (db.msgs[g].deleted || PermanentlyFiltered(db.chats, bridgeFiltered, db.msgs[g])
          || !Held(db.chats, bridgeFiltered, hold, db.msgs[g]))
  }

  ghost predicate ListedOn(listing: Db, bridgeFiltered: bool, cutoff: int, hold: int, exclude: set<string>,
                           chunk: seq<Candidate>) {
    forall c :: c in chunk ==> c in Candidates(listing, bridgeFiltered, cutoff, hold, exclude)
  }

  /** The rows one batch scrubs were listed, and are justified on the table it meets, whatever others did meanwhile. */
  lemma BatchScrubsJustified(listing: Db, bridgeFiltered: bool, cutoff: int, hold: int, exclude: set<string>,
                             chunk: seq<Candidate>, w: Witnesses, b: Batch, db: Db)
    requires ListedOn(listing, bridgeFiltered, cutoff, hold, exclude, chunk)
    requires b.cutoff == cutoff && ProofsSound(b)
    requires SplitFrom(b, chunk, w)
    ensures ScrubsOnlyJustified(listing, db, bridgeFiltered, cutoff, b.hold, ScrubBatch(db, bridgeFiltered, b))
  {
    forall g | g in db.msgs && ScrubBatch(db, bridgeFiltered, b)[g] != db.msgs[g]
      ensures Justified(db, bridgeFiltered, g, db.msgs[g]) && Aged(db.msgs[g], cutoff)
      ensures g in listing.msgs && Aged(listing.msgs[g], cutoff)
      ensures db.msgs[g].deleted || PermanentlyFiltered(db.chats, bridgeFiltered, db.msgs[g])
           || !Held(db.chats, bridgeFiltered, b.hold, db.msgs[g])
    {
      GateExact(db.chats, bridgeFiltered, b.hold, db.msgs[g]);
      var c :| c in chunk && c.guid == g;
    }
  }

  /**
    A candidate is not passed over: if its row is still old enough and still forced, or still
    readable on the same portal, waiting for no chat, with every message that delivered it
    still there, it is scrubbed.
   */
  ghost predicate Attends(messages: set<Delivered>, db: Db, bridgeFiltered: bool, cutoff: int, hold: int,
                          c: Candidate, after: map<string, Row>) {
    c.guid in db.msgs && c.guid in after && Aged(db.msgs[c.guid], cutoff) ==>
      var row := db.msgs[c.guid];
      && (c.force && Forced(db.chats, bridgeFiltered, row) ==> after[c.guid] == Scrub(row))
      && (!c.force && row.portalId == Some(c.portal)
          && Readable(db.chats, bridgeFiltered, row) && !Held(db.chats, bridgeFiltered, hold, row)
          && (exists m :: Delivers(messages, c, m)) && (forall m :: Delivers(messages, c, m) ==> m in db.delivered)
          ==> after[c.guid] == Scrub(row))
  }

  predicate Delivers(messages: set<Delivered>, c: Candidate, m: Delivered) {
    m in messages && m.room == c.portal && StandsFor(m.id, Lower(c.guid))
  }

  lemma BatchAttends(messages: set<Delivered>, chunk: seq<Candidate>, w: Witnesses, b: Batch, bridgeFiltered: bool,
                     db: Db, c: Candidate)
    requires WitnessesReady(messages, chunk, w) && c in chunk
    requires SplitFrom(b, chunk, w)
    ensures Attends(messages, db, bridgeFiltered, b.cutoff, b.hold, c, ScrubBatch(db, bridgeFiltered, b))
  {
    if c.force {
      assert IsForced(chunk, c.guid);
    } else if m :| c.guid in db.msgs && Delivers(messages, c, m) {
      GateExact(db.chats, bridgeFiltered, b.hold, db.msgs[c.guid]);
      var list :| Witnessing(w, list) && forall m :: m in list <==> m in messages;
      var k := Key(Lower(c.guid), c.portal);
      assert HasMessage(list, k);
      assert Delivers(messages, c, Delivered(w[k], c.portal));
      assert IsProof(chunk, w, Proof(c.guid, c.portal, w[k]));
    }
  }

  /** One batch on the table it meets. */
  method ScrubChunk(listing: Db, bridgeFiltered: bool, cutoff: int, hold: int, exclude: set<string>,
                    chunk: seq<Candidate>, w: Witnesses, ghost messages: set<Delivered>, holdNow: int, db: Db)
    returns (after: map<string, Row>)
    requires ListedOn(listing, bridgeFiltered, cutoff, hold, exclude, chunk)
    requires WitnessesReady(messages, chunk, w) && forall k :: k in w ==> StandsFor(w[k], k.guid)
    ensures ScrubsOnlyJustified(listing, db, bridgeFiltered, cutoff, holdNow, after)
    ensures forall c :: c in chunk ==> Attends(messages, db, bridgeFiltered, cutoff, holdNow, c, after)
  {
    var b := SplitCandidates(chunk, w, cutoff, holdNow);
    BatchScrubsJustified(listing, bridgeFiltered, cutoff, hold, exclude, chunk, w, b, db);
    after := ScrubBatch(db, bridgeFiltered, b);
    forall c | c in chunk
      ensures Attends(messages, db, bridgeFiltered, cutoff, holdNow, c, after)
    {
      BatchAttends(messages, chunk, w, b, bridgeFiltered, db, c);
    }
  }

  const BATCH := 1000

  /** Each candidate is attended to by its own batch, on the table and clock that batch met. */
  ghost predicate AttendedInTurn(messages: set<Delivered>, tableAt: nat -> Db, holdAt: nat -> int, bridgeFiltered: bool,
                                 cutoff: int, candidates: seq<Candidate>, tables: seq<map<string, Row>>) {
    forall i: nat :: i < |candidates| ==>
      var k := i / BATCH;
      k < |tables|
      && Attends(messages, tableAt(k), bridgeFiltered, cutoff, holdAt(k), candidates[i], tables[k])
  }

  /**
    scrubBridgedBodies with any other writers in between: candidates listed on one
    snapshot, delivered messages read at another moment, and the k-th batch run on whatever
    table and clock it then meets. Every row it scrubs is justified at that moment, and no
    candidate that still qualifies is passed over.
   */
  method ScrubPass(listing: Db, messages: set<Delivered>, tableAt: nat -> Db, holdAt: nat -> int,
                   bridgeFiltered: bool, cutoff: int, hold: int, exclude: set<string>)
    returns (candidates: seq<Candidate>, tables: seq<map<string, Row>>)
    ensures forall c :: c in candidates <==> c in Candidates(listing, bridgeFiltered, cutoff, hold, exclude)
    ensures forall k: nat :: k < |tables| ==>
      ScrubsOnlyJustified(listing, tableAt(k), bridgeFiltered, cutoff, holdAt(k), tables[k])
    ensures AttendedInTurn(messages, tableAt, holdAt, bridgeFiltered, cutoff, candidates, tables)
  {
    candidates := ReadRows(Candidates(listing, bridgeFiltered, cutoff, hold, exclude));
    var w := WitnessesFor(messages, candidates);
    tables := [];
    var start := 0;
    while start < |candidates|
      invariant 0 <= start <= |candidates|
      invariant start < |candidates| ==> start == BATCH * |tables|
      invariant forall k: nat :: k < |tables| ==>
        ScrubsOnlyJustified(listing, tableAt(k), bridgeFiltered, cutoff, holdAt(k), tables[k])
      invariant AttendedInTurn(messages, tableAt, holdAt, bridgeFiltered, cutoff, candidates[..start], tables)
    {
      var end := if start + BATCH < |candidates| then start + BATCH else |candidates|;
      var chunk, k := candidates[start..end], |tables|;
      var after := ScrubChunk(listing, bridgeFiltered, cutoff, hold, exclude, chunk, w, messages, holdAt(k),
                              tableAt(k));
      NextTurn(messages, tableAt, holdAt, bridgeFiltered, cutoff, candidates, start, end, tables, after);
      tables := tables + [after];
      start := end;
    }
    assert candidates[..|candidates|] == candidates;
  }

  lemma NextTurn(messages: set<Delivered>, tableAt: nat -> Db, holdAt: nat -> int, bridgeFiltered: bool, cutoff: int,
                 candidates: seq<Candidate>, start: nat, end: nat, tables: seq<map<string, Row>>,
                 after: map<string, Row>)
    requires start <= end <= |candidates| && end <= start + BATCH && start == BATCH * |tables|
    requires AttendedInTurn(messages, tableAt, holdAt, bridgeFiltered, cutoff, candidates[..start], tables)
    requires forall c :: c in candidates[start..end] ==>
      Attends(messages, tableAt(|tables|), bridgeFiltered, cutoff, holdAt(|tables|), c, after)
    ensures AttendedInTurn(messages, tableAt, holdAt, bridgeFiltered, cutoff, candidates[..end], tables + [after])
  {
    var more := tables + [after];
    forall i: nat | i < end
      ensures var k := i / BATCH;
        k < |more| && Attends(messages, tableAt(k), bridgeFiltered, cutoff, holdAt(k), candidates[i], more[k])
    {
      if i < start {
        assert candidates[..start][i] == candidates[i];
      } else {
        assert i / BATCH == |tables|;
        assert candidates[start..end][i - start] == candidates[i];
      }
    }
  }
}
