/** What every interleaved run of store operations keeps. */
module CloudRuns {
  import opened Collections
  import opened CloudDb

  /** The store, the clock, and every rehydrate attempt begun so far. */
  datatype State = State(db: Db, clock: int, attempts: set<Attempt>)

  function StepTime(step: Step): Option<int> {
    match step
    case Upsert(_, now) => Some(now)
    case DeleteBatch(_, now) => Some(now)
    case SoftDelete(_, _, _, now) => Some(now)
    case DeletePortalRows(_, now) => Some(now)
    case UndeletePortal(_, now) => Some(now)
    case UndeleteRecycle(_, _, now) => Some(now)
    case ClearScrub(_, now) => Some(now)
    case ClearAllScrub(now) => Some(now)
    case BeginRehydrate(_, _, now) => Some(now)
    case Reroute(_, stamp) => stamp
    case PersistUuid(_, _, _, _, now) => Some(now)
    case PersistTapback(_, _, _, _, _, now) => Some(now)
    case SeedRecycle(_, _, now) => Some(now)
    case _ => None
  }

  /** The clock never goes back, and a rehydrate only ends after it began. */
  ghost predicate Enabled(s: State, step: Step) {
    && (StepTime(step).Some? ==> s.clock <= StepTime(step).value)
    && (step.EndRehydrate? ==> step.attempt in s.attempts)
  }

  /** The rows a rehydrate captures, with the write times to put back. */
  ghost function Capture(db: Db, portal: string, bridgeFiltered: bool, now: int): Attempt {
    Attempt(portal,
            map g | g in db.msgs && Captures(db, portal, bridgeFiltered, db.msgs[g]) :: db.msgs[g].updatedTs,
            now - MARKER_AGE)
  }

  ghost function Next(s: State, step: Step): State {
    State(Apply(s.db, step),
          if StepTime(step).Some? then StepTime(step).value else s.clock,
          if step.BeginRehydrate? then s.attempts + {Capture(s.db, step.portal, step.bridgeFiltered, step.now)}
          else s.attempts)
  }

  ghost predicate Runs(s: State, steps: seq<Step>)
    decreases |steps|
  {
    steps != [] ==> Enabled(s, steps[0]) && Runs(Next(s, steps[0]), steps[1..])
  }

  ghost function After(s: State, steps: seq<Step>): State
    decreases |steps|
  {
    if steps == [] then s else After(Next(s, steps[0]), steps[1..])
  }

  // ---- The invariant -----------------------------------------------------------------

  /** A per-message delete keeps its row dead and empty; a scrubbed row has no words. */
  predicate RowOk(r: Row) {
    && (r.messageDeleted ==> r.deleted && r.scrubbed && BodyFree(r))
    && (r.scrubbed ==> NoWords(r))
  }

  /** A captured row still carrying the attempt's marker has not been written since. */
  predicate MarkerOk(a: Attempt, g: string, r: Row) {
    g in a.rows && r.updatedTs == a.marker ==> NoWords(r)
  }

  ghost predicate Inv(s: State) {
    && (forall g :: g in s.db.msgs ==> RowOk(s.db.msgs[g]))
    && (forall a :: a in s.attempts ==> a.marker < s.clock)
    && (forall a, g :: a in s.attempts && g in s.db.msgs ==> MarkerOk(a, g, s.db.msgs[g]))
  }

  lemma TouchKeepsRow(s: State, step: Step, g: string, r: Row)
    requires Inv(s) && Enabled(s, step) && g in s.db.msgs && r == s.db.msgs[g]
    ensures RowOk(Touch(s.db, step, g, r))
  {
    assert RowOk(r);
    if step.EndRehydrate? {
      assert MarkerOk(step.attempt, g, r);
    }
  }

  lemma TouchKeepsMarker(s: State, step: Step, g: string, r: Row, a: Attempt)
    requires Inv(s) && Enabled(s, step) && g in s.db.msgs && r == s.db.msgs[g]
    requires a in s.attempts
    ensures MarkerOk(a, g, Touch(s.db, step, g, r))
  {
    assert RowOk(r) && MarkerOk(a, g, r);
    assert a.marker < s.clock;
    if step.EndRehydrate? {
      assert MarkerOk(step.attempt, g, r);
    }
  }

  lemma InsertedRows(s: State, step: Step, g: string)
    requires Inv(s) && Enabled(s, step) && g in Inserted(s.db, step)
    ensures RowOk(Inserted(s.db, step)[g])
    ensures Inserted(s.db, step)[g].updatedTs >= s.clock
  {}

  /** A fresh capture holds only rows that are scrubbed, so without words. */
  lemma CapturedRows(s: State, step: Step, g: string)
    requires Inv(s) && step.BeginRehydrate? && g in s.db.msgs
    ensures MarkerOk(Capture(s.db, step.portal, step.bridgeFiltered, step.now), g, Touch(s.db, step, g, s.db.msgs[g]))
  {
    assert RowOk(s.db.msgs[g]);
  }

  lemma NextKeepsInv(s: State, step: Step)
    requires Inv(s) && Enabled(s, step)
    ensures Inv(Next(s, step))
  {
    var s' := Next(s, step);
    forall g | g in s'.db.msgs
      ensures RowOk(s'.db.msgs[g])
    {
      if g in Inserted(s.db, step) {
        InsertedRows(s, step, g);
      } else {
        TouchKeepsRow(s, step, g, s.db.msgs[g]);
      }
    }
    forall a, g | a in s'.attempts && g in s'.db.msgs
      ensures MarkerOk(a, g, s'.db.msgs[g])
    {
      if g in Inserted(s.db, step) {
        InsertedRows(s, step, g);
      } else if a in s.attempts {
        TouchKeepsMarker(s, step, g, s.db.msgs[g], a);
      } else {
        CapturedRows(s, step, g);
      }
    }
  }

  /** Every reachable state satisfies the invariant. */
  lemma {:induction false} RunsKeepInv(s: State, steps: seq<Step>)
    requires Inv(s) && Runs(s, steps)
    ensures Inv(After(s, steps))
    decreases |steps|
  {
    if steps != [] {
      NextKeepsInv(s, steps[0]);
      RunsKeepInv(Next(s, steps[0]), steps[1..]);
    }
  }

  lemma EmptyStoreOk(clock: int, chats: map<string, Chat>, delivered: set<Delivered>)
    ensures Inv(State(Db(map[], chats, delivered), clock, {}))
  {}

  // ---- Individual deletes stick --------------------------------------------------------

  /** A row that says "this message was deleted", and nothing else about it. */
  predicate Tombstone(r: Row) {
    r.messageDeleted && r.deleted && r.scrubbed && BodyFree(r)
  }

  /** No step of the run hard-deletes g. */
  predicate NeverRemoved(steps: seq<Step>, g: string) {
    forall i :: 0 <= i < |steps| && steps[i].HardDelete? ==> g !in steps[i].guids
  }

  lemma TouchKeepsDelete(db: Db, step: Step, g: string, r: Row)
    requires r.messageDeleted
    ensures Touch(db, step, g, r).messageDeleted
  {}

  lemma MessageDeletedIsSticky(s: State, step: Step, g: string)
    requires Inv(s) && Enabled(s, step) && g in s.db.msgs && s.db.msgs[g].messageDeleted
    requires step.HardDelete? ==> g !in step.guids
    ensures g in Next(s, step).db.msgs && Next(s, step).db.msgs[g].messageDeleted
  {
    assert !Removed(s.db, step, g, s.db.msgs[g]);
    TouchKeepsDelete(s.db, step, g, s.db.msgs[g]);
  }

  /**
    Once a message is individually deleted, no run of upserts, portal deletes, restores,
    recycle-bin undeletes, scrub clears, rehydrates or reroutes makes its row live again
    or gives it text, subject, sender or emoji, unless the row itself is hard-deleted.
   */
  lemma {:induction false} TombstonesAreForever(s: State, steps: seq<Step>, g: string)
    requires Inv(s) && Runs(s, steps)
    requires g in s.db.msgs && s.db.msgs[g].messageDeleted
    requires NeverRemoved(steps, g)
    ensures g in After(s, steps).db.msgs && Tombstone(After(s, steps).db.msgs[g])
    decreases |steps|
  {
    if steps == [] {
      assert RowOk(s.db.msgs[g]);
    } else {
      MessageDeletedIsSticky(s, steps[0], g);
      NextKeepsInv(s, steps[0]);
      assert forall i :: 0 <= i < |steps[1..]| ==> steps[1..][i] == steps[i + 1];
      TombstonesAreForever(Next(s, steps[0]), steps[1..], g);
    }
  }

  /** A per-message delete leaves a tombstone on every stored spelling, or plants one. */
  lemma DeletePlantsTombstone(s: State, step: Step)
    requires step.SoftDelete? && step.messageDeleted
    ensures var msgs := Next(s, step).db.msgs;
      && (exists g :: g in msgs && Upper(g) == Upper(step.guid))
      && (forall g :: g in msgs && Upper(g) == Upper(step.guid) ==> Tombstone(msgs[g]))
      && (step.guid in msgs || step.guid !in s.db.msgs)
  {
    var msgs := Next(s, step).db.msgs;
    if !exists g :: g in s.db.msgs && Upper(g) == Upper(step.guid) {
      assert step.guid in msgs;
    } else {
      var g :| g in s.db.msgs && Upper(g) == Upper(step.guid);
      assert g in msgs;
    }
  }

  /**
    Delete first, arrive later: after a per-message delete, the message never comes
    back under a spelling the delete left in the table, through any run.
   */
  lemma DeletedBeforeArrival(s: State, step: Step, steps: seq<Step>, g: string)
    requires Inv(s) && Enabled(s, step) && step.SoftDelete? && step.messageDeleted
    requires Upper(g) == Upper(step.guid) && g in Next(s, step).db.msgs
    requires Runs(Next(s, step), steps) && NeverRemoved(steps, g)
    ensures g in After(Next(s, step), steps).db.msgs && Tombstone(After(Next(s, step), steps).db.msgs[g])
  {
    DeletePlantsTombstone(s, step);
    NextKeepsInv(s, step);
    TombstonesAreForever(Next(s, step), steps, g);
  }

  /** The i-th step of the run inserts g. */
  ghost predicate InsertedAt(s: State, steps: seq<Step>, i: nat, g: string)
    requires i < |steps|
  {
    g in Inserted(After(s, steps[..i]).db, steps[i])
  }

  /**
    Over whole runs: a spelling that the delete left tombstoned or absent is live, or has
    content, in a later state only if some step after the delete inserted that very spelling.
   */
  lemma {:induction false} LiveOnlyIfInsertedLater(s: State, steps: seq<Step>, g: string) returns (i: nat)
    requires Inv(s) && Runs(s, steps)
    requires g in s.db.msgs ==> s.db.msgs[g].messageDeleted
    requires g in After(s, steps).db.msgs && !Tombstone(After(s, steps).db.msgs[g])
    ensures i < |steps| && InsertedAt(s, steps, i, g)
    decreases |steps|
  {
    assert g in s.db.msgs ==> RowOk(s.db.msgs[g]);
    if steps == [] {
      assert false;
    }
    assert steps[..0] == [];
    if g in Inserted(s.db, steps[0]) {
      i := 0;
    } else {
      NextKeepsInv(s, steps[0]);
      StaysDeletedUnlessInserted(s, steps[0], g);
      i := LiveOnlyIfInsertedLater(Next(s, steps[0]), steps[1..], g);
      AfterPrefix(s, steps, i);
      i := i + 1;
    }
  }

  lemma StaysDeletedUnlessInserted(s: State, step: Step, g: string)
    requires g in s.db.msgs ==> s.db.msgs[g].messageDeleted
    requires g !in Inserted(s.db, step)
    ensures g in Next(s, step).db.msgs ==> Next(s, step).db.msgs[g].messageDeleted
  {
    if g in s.db.msgs {
      TouchKeepsDelete(s.db, step, g, s.db.msgs[g]);
    }
  }

  lemma AfterPrefix(s: State, steps: seq<Step>, i: nat)
    requires steps != [] && i < |steps| - 1
    ensures After(s, steps[..i + 1]) == After(Next(s, steps[0]), steps[1..][..i])
  {
    assert steps[..i + 1][1..] == steps[1..][..i];
  }

  /** After a per-message delete, so is every spelling of the message. */
  lemma RespelledOnlyByInsertion(s: State, step: Step, steps: seq<Step>, g: string) returns (i: nat)
    requires Inv(s) && Enabled(s, step) && step.SoftDelete? && step.messageDeleted && Upper(g) == Upper(step.guid)
    requires Runs(Next(s, step), steps)
    requires g in After(Next(s, step), steps).db.msgs && !Tombstone(After(Next(s, step), steps).db.msgs[g])
    ensures i < |steps| && InsertedAt(Next(s, step), steps, i, g)
  {
    DeletePlantsTombstone(s, step);
    NextKeepsInv(s, step);
    i := LiveOnlyIfInsertedLater(Next(s, step), steps, g);
  }

  /** Case matters to the primary key: a later arrival is live exactly when its spelling is new. */
  lemma LateArrivalIsLiveExactlyWhenRespelled(s: State, step: Step, r: CloudRow, now: int)
    requires step.SoftDelete? && step.messageDeleted
    requires Upper(r.guid) == Upper(step.guid) && !r.deleted
    ensures var deleted := Next(s, step);
      var arrived := Next(deleted, Upsert(map[r.guid := r], now)).db.msgs;
      r.guid in arrived && (!arrived[r.guid].deleted <==> r.guid !in deleted.db.msgs)
  {
    DeletePlantsTombstone(s, step);
  }

  /** The failing family is not empty: "a1" deleted, "A1" arrives. */
  lemma RespelledArrivalIsLive(r: CloudRow)
    requires r.guid == "A1" && !r.deleted
    ensures var s := State(Db(map[], map[], {}), 0, {});
      var deleted := Next(s, SoftDelete("a1", "", true, 0));
      var arrived := Next(deleted, Upsert(map["A1" := r], 0)).db.msgs;
      "A1" in arrived && !arrived["A1"].deleted
  {
    assert Upper("A1") == "A1";
    assert Upper("a1") == "A1";
    assert "a1"[0] != "A1"[0];
    LateArrivalIsLiveExactlyWhenRespelled(State(Db(map[], map[], {}), 0, {}), SoftDelete("a1", "", true, 0), r, 0);
  }
}
