/**
  scrubUnbridgedTail against listLatestMessages: the tail below the newest
  keepPerPortal rows is scrubbed, and nothing forward backfill can still read.
 */
module CloudTail {
  import opened Collections
  import opened CloudDb
  import opened CloudStore
  import opened CloudScrub
  import opened Keyset

  datatype Place = Place(timestampMs: int, guid: string)

  /** ORDER BY timestamp_ms DESC, guid DESC. */
  predicate Later(a: Place, b: Place) {
    a.timestampMs > b.timestampMs || (a.timestampMs == b.timestampMs && Before(b.guid, a.guid))
  }

  lemma LaterIsStrictTotal()
    ensures StrictTotal(Later)
  {
    BeforeIsStrictTotal();
  }

  /** The rows forward backfill reads: live, contentful and readable. */
  predicate Deliverable(chats: map<string, Chat>, bridgeFiltered: bool, portal: string, r: Row) {
    r.portalId == Some(portal) && !r.deleted && r.meta.recordName != "" && Readable(chats, bridgeFiltered, r)
  }

  function Population(db: Db, bridgeFiltered: bool, portal: string): set<Place> {
    set g | g in db.msgs && Deliverable(db.chats, bridgeFiltered, portal, db.msgs[g])
      :: Place(db.msgs[g].timestampMs, g)
  }

  function ListLatest(db: Db, bridgeFiltered: bool, portal: string, count: nat): seq<Place> {
    LaterIsStrictTotal();
    Page(Later, Population(db, bridgeFiltered, portal), count)
  }

  /** A row that forward backfill can read: live, not a bare tombstone of a record, and readable. */
  ghost predicate CanBackfill(db: Db, bridgeFiltered: bool, portal: string, g: string) {
    && g in db.msgs && db.msgs[g].portalId == Some(portal)
    && !db.msgs[g].deleted && db.msgs[g].meta.recordName != "" && Readable(db.chats, bridgeFiltered, db.msgs[g])
  }

  ghost predicate NewerThan(p: Place, q: Place) {
    p.timestampMs > q.timestampMs || (p.timestampMs == q.timestampMs && Before(q.guid, p.guid))
  }

  lemma PageMeans(places: set<Place>, count: nat)
    requires StrictTotal(Later)
    ensures var list := Page(Later, places, count);
      && |list| <= count
      && (forall i, j :: 0 <= i < j < |list| ==> Later(list[i], list[j]))
      && (forall p :: p in list ==> p in places)
      && (forall q :: q in places ==> q in list || (|list| == count && forall p :: p in list ==> Later(p, q)))
  {
    var list, all := Page(Later, places, count), Sorted(Later, places);
    PageIsPrefix(Later, places, count);
    SortedMembers(Later, places);
    SortedAscends(Later, places);
    assert list == all[..|list|];
    forall p | p in list
      ensures p in all
    {}
    forall q | q in places && q !in list
      ensures |list| == count && forall p :: p in list ==> Later(p, q)
    {
      assert q in all;
      var k :| 0 <= k < |all| && all[k] == q;
      assert forall m :: 0 <= m < |list| ==> list[m] == all[m];
      assert k >= |list|;
    }
  }

  /** The listing: only such rows, newest first, and none left out for an older one. */
  lemma ListLatestMeans(db: Db, bridgeFiltered: bool, portal: string, count: nat)
    ensures var list := ListLatest(db, bridgeFiltered, portal, count);
      && |list| <= count
      && (forall i, j :: 0 <= i < j < |list| ==> NewerThan(list[i], list[j]))
      && (forall p :: p in list ==>
            CanBackfill(db, bridgeFiltered, portal, p.guid) && db.msgs[p.guid].timestampMs == p.timestampMs)
      && (forall g :: CanBackfill(db, bridgeFiltered, portal, g) ==>
            var q := Place(db.msgs[g].timestampMs, g);
            q in list || (|list| == count && forall p :: p in list ==> NewerThan(p, q)))
  {
    LaterIsStrictTotal();
    PageMeans(Population(db, bridgeFiltered, portal), count);
    LaterMeans();
    PopulationIs(db, bridgeFiltered, portal);
  }

  lemma LaterMeans()
    ensures forall p, q :: Later(p, q) <==> NewerThan(p, q)
  {}

  lemma PopulationIs(db: Db, bridgeFiltered: bool, portal: string)
    ensures forall q :: q in Population(db, bridgeFiltered, portal) <==>
      CanBackfill(db, bridgeFiltered, portal, q.guid) && db.msgs[q.guid].timestampMs == q.timestampMs
  {}

  /** Timestamp of the keep-th newest row: LIMIT 1 OFFSET keep - 1. */
  function Threshold(places: set<Place>, keep: nat): Option<int>
    requires keep > 0
  {
    LaterIsStrictTotal();
    PageIsPrefix(Later, places, 0);
    if |places| < keep then None else Some(Sorted(Later, places)[keep - 1].timestampMs)
  }

  /** The WHERE clause of the tail UPDATE. */
  predicate InTail(chats: map<string, Chat>, bridgeFiltered: bool, portal: string, cutoff: int, threshold: int,
                   r: Row) {
    r.portalId == Some(portal) && Readable(chats, bridgeFiltered, r) && Aged(r, cutoff) && r.timestampMs < threshold
  }

  // ---- The tail never meets the newest rows -----------------------------------------------

  /** The first places of a population are no older than its threshold. */
  lemma NewestAboveThreshold(places: set<Place>, keep: nat, count: nat, p: Place)
    requires 0 < keep && count <= keep && Threshold(places, keep).Some?
    requires StrictTotal(Later) && p in Page(Later, places, count)
    ensures p.timestampMs >= Threshold(places, keep).value
  {
    PageIsPrefix(Later, places, count);
    SortedAscends(Later, places);
    var all := Sorted(Later, places);
    var i :| 0 <= i < |Page(Later, places, count)| && Page(Later, places, count)[i] == p;
    assert all[i] == p;
    assert i == keep - 1 || Later(all[i], all[keep - 1]);
  }

  /** On any snapshot no row that listLatestMessages returns, ties included, is in the tail. */
  lemma TailMissesLatest(db: Db, bridgeFiltered: bool, portal: string, keep: nat, count: nat, cutoff: int, p: Place)
    requires 0 < keep && count <= keep && Threshold(Population(db, bridgeFiltered, portal), keep).Some?
    requires p in ListLatest(db, bridgeFiltered, portal, count)
    ensures p.guid in db.msgs
    ensures !InTail(db.chats, bridgeFiltered, portal, cutoff,
                    Threshold(Population(db, bridgeFiltered, portal), keep).value, db.msgs[p.guid])
  {
    LaterIsStrictTotal();
    var places := Population(db, bridgeFiltered, portal);
    NewestAboveThreshold(places, keep, count, p);
    PageIsPrefix(Later, places, count);
    SortedMembers(Later, places);
    assert p in Sorted(Later, places);
  }

  // ---- Messages that arrive meanwhile ------------------------------------------------------------

  /** A place outside the first keep of a set has keep others before it. */
  lemma NewestOfMore(places: set<Place>, more: set<Place>, keep: nat, count: nat, p: Place)
    requires 0 < keep && count <= keep && places <= more && Threshold(places, keep).Some?
    requires StrictTotal(Later) && p in Page(Later, more, count)
    ensures p.timestampMs >= Threshold(places, keep).value
  {
    if p.timestampMs < Threshold(places, keep).value {
      var first := FirstOf(places, keep);
      var i := PlaceAt(more, count, p);
      var before := FirstOf(more, i);
      forall q | q in first
        ensures q in before
      {
        FirstAboveThreshold(places, keep, q);
        LaterIsBefore(more, i, q);
      }
      SubsetIsFewer(first, before);
    }
  }

  /** The first k places of a set, as a set. */
  ghost function FirstOf(places: set<Place>, k: nat): (first: set<Place>)
    requires StrictTotal(Later) && k <= |places|
    ensures |first| == k && first <= places
  {
    FirstHasSize(places, k);
    set q | q in Sorted(Later, places)[..k]
  }

  lemma FirstHasSize(places: set<Place>, k: nat)
    requires StrictTotal(Later) && k <= |places|
    ensures |Sorted(Later, places)| == |places|
    ensures var first := set q | q in Sorted(Later, places)[..k]; |first| == k && first <= places
  {
    SortedMembers(Later, places);
    SortedAscends(Later, places);
    var all := Sorted(Later, places);
    forall q | q in all[..k]
      ensures q in places
    {
      assert q in all;
    }
    forall i, j | 0 <= i < j < k
      ensures all[i] != all[j]
    {
      assert Later(all[i], all[j]);
    }
    DistinctSize(all[..k]);
  }

  lemma PlaceAt(places: set<Place>, count: nat, p: Place) returns (i: nat)
    requires StrictTotal(Later) && p in Page(Later, places, count)
    ensures |Sorted(Later, places)| == |places|
    ensures i < count && i < |places| && Sorted(Later, places)[i] == p
  {
    PageIsPrefix(Later, places, count);
    var page := Page(Later, places, count);
    i :| 0 <= i < |page| && page[i] == p;
  }

  lemma FirstAboveThreshold(places: set<Place>, keep: nat, q: Place)
    requires StrictTotal(Later) && 0 < keep <= |places| && q in FirstOf(places, keep)
    ensures q.timestampMs >= Threshold(places, keep).value
  {
    PageIsPrefix(Later, places, keep);
    NewestAboveThreshold(places, keep, keep, q);
  }

  /** What is later than the i-th place is among the first i. */
  lemma LaterIsBefore(places: set<Place>, i: nat, q: Place)
    requires StrictTotal(Later) && i < |places| && q in places
    requires |Sorted(Later, places)| == |places| && Later(q, Sorted(Later, places)[i])
    ensures q in FirstOf(places, i)
  {
    SortedMembers(Later, places);
    SortedAscends(Later, places);
    var all := Sorted(Later, places);
    var j :| 0 <= j < |all| && all[j] == q;
    assert j < i;
  }

  /**
    The threshold is read once and used for many chunks. As long as the population of the
    portal only grows in between, no chunk can touch a row that listLatestMessages would
    return at the moment the chunk runs.
   */
  lemma GrownTailMissesLatest(db: Db, now: Db, bridgeFiltered: bool, portal: string, keep: nat, count: nat, cutoff: int,
                              p: Place)
    requires 0 < keep && count <= keep && Threshold(Population(db, bridgeFiltered, portal), keep).Some?
    requires Population(db, bridgeFiltered, portal) <= Population(now, bridgeFiltered, portal)
    requires p in ListLatest(now, bridgeFiltered, portal, count)
    ensures p.guid in now.msgs
    ensures !InTail(now.chats, bridgeFiltered, portal, cutoff,
                    Threshold(Population(db, bridgeFiltered, portal), keep).value, now.msgs[p.guid])
  {
    LaterIsStrictTotal();
    var more := Population(now, bridgeFiltered, portal);
    NewestOfMore(Population(db, bridgeFiltered, portal), more, keep, count, p);
    PageIsPrefix(Later, more, count);
    SortedMembers(Later, more);
    assert p in Sorted(Later, more);
  }

  /** Not so when the newest row goes: with one row to keep, the next one is listed and below the threshold. */
  lemma ShrunkPopulationExposes(a: Place, b: Place)
    requires a.timestampMs > b.timestampMs
    ensures Threshold({a, b}, 1) == Some(a.timestampMs)
    ensures StrictTotal(Later) && Page(Later, {b}, 1) == [b] && b.timestampMs < a.timestampMs
  {
    LaterIsStrictTotal();
    SortedIs(Later, {a, b}, [a, b]);
    SortedIs(Later, {b}, [b]);
    PageIsPrefix(Later, {b}, 1);
  }

  // ---- Scrubbing moves neither population nor threshold ---------------------------------------

  /** Rows differ at most by having been scrubbed. */
  ghost predicate OnlyScrubbed(before: map<string, Row>, now: map<string, Row>) {
    now.Keys == before.Keys && forall g :: g in now ==> now[g] == before[g] || now[g] == Scrub(before[g])
  }

  lemma ScrubKeepsPopulation(db: Db, now: Db, bridgeFiltered: bool, portal: string)
    requires now.chats == db.chats && OnlyScrubbed(db.msgs, now.msgs)
    ensures Population(now, bridgeFiltered, portal) == Population(db, bridgeFiltered, portal)
  {
    forall g | g in now.msgs
      ensures Deliverable(db.chats, bridgeFiltered, portal, now.msgs[g])
         <==> Deliverable(db.chats, bridgeFiltered, portal, db.msgs[g])
      ensures now.msgs[g].timestampMs == db.msgs[g].timestampMs
    {}
  }

  // ---- The chunk loop ----------------------------------------------------------------------------

  const CHUNK := 1000

  /** SELECT ... LIMIT n, in whatever order the database likes. */
  method SelectSome(s: set<string>, n: nat) returns (some: set<string>)
    ensures some <= s && |some| == if |s| < n then |s| else n
  {
    some := {};
    var rest := s;
    while |some| < n && rest != {}
      invariant some <= s && rest == s - some && |some| <= n
      invariant |some| + |rest| == |s|
      decreases |rest|
    {
      var x :| x in rest;
      some, rest := some + {x}, rest - {x};
    }
  }

  function TailOf(chats: map<string, Chat>, msgs: map<string, Row>, bridgeFiltered: bool, portal: string, cutoff: int,
                  threshold: int): set<string> {
    set g | g in msgs && InTail(chats, bridgeFiltered, portal, cutoff, threshold, msgs[g])
  }

  function ScrubSet(msgs: map<string, Row>, guids: set<string>): map<string, Row> {
    map g | g in msgs :: if g in guids then Scrub(msgs[g]) else msgs[g]
  }

  lemma ScrubSetUnion(msgs: map<string, Row>, a: set<string>, b: set<string>)
    requires a !! b
    ensures ScrubSet(ScrubSet(msgs, a), b) == ScrubSet(msgs, a + b)
  {}

  lemma WholeSubset(s: set<string>, t: set<string>)
    requires t <= s && |t| == |s|
    ensures t == s
  {
    assert s == t + (s - t);
  }

  /** Scrubbing some of the selected rows leaves exactly the others selected. */
  ghost predicate Shrinks(select: map<string, Row> -> set<string>) {
    forall msgs, some :: some <= select(msgs) ==> select(ScrubSet(msgs, some)) == select(msgs) - some
  }

  /** One UPDATE: scrubs as many of the rows still selected as a chunk holds. */
  method ScrubChunk(store: Store, select: map<string, Row> -> set<string>, ghost before: map<string, Row>,
                    ghost done: set<string>)
    returns (n: nat, ghost more: set<string>)
    requires Shrinks(select) && done <= select(before) && store.msgs == ScrubSet(before, done)
    modifies store`msgs
    ensures done <= more <= select(before) && store.msgs == ScrubSet(before, more)
    ensures n < CHUNK ==> more == select(before)
    ensures n >= CHUNK ==> more != done
  {
    var rest := select(store.msgs);
    assert rest == select(before) - done;
    var chunk := SelectSome(rest, CHUNK);
    ScrubSetUnion(before, done, chunk);
    store.msgs := ScrubSet(store.msgs, chunk);
    n, more := |chunk|, done + chunk;
    if n < CHUNK {
      WholeSubset(rest, chunk);
    }
  }

  /** Chunks until a short one scrub exactly the rows selected at the start. */
  method ScrubInChunks(store: Store, select: map<string, Row> -> set<string>)
    requires Shrinks(select)
    modifies store`msgs
    ensures store.msgs == ScrubSet(old(store.msgs), select(old(store.msgs)))
  {
    ghost var before := store.msgs;
    ghost var done: set<string> := {};
    assert ScrubSet(before, {}) == before;
    var n := CHUNK;
    while n >= CHUNK
      invariant done <= select(before)
      invariant store.msgs == ScrubSet(before, done)
      invariant n < CHUNK ==> done == select(before)
      decreases n >= CHUNK, select(before) - done
    {
      n, done := ScrubChunk(store, select, before, done);
    }
  }

  /** The update loop of one portal. */
  method ScrubPortalTail(store: Store, portal: string, cutoff: int, threshold: int)
    modifies store`msgs
    ensures store.msgs
         == ScrubSet(old(store.msgs),
                     TailOf(store.chats, old(store.msgs), store.bridgeFiltered, portal, cutoff, threshold))
  {
    var chats, filtered := store.chats, store.bridgeFiltered;
    ScrubInChunks(store, msgs => TailOf(chats, msgs, filtered, portal, cutoff, threshold));
  }

  // ---- All portals -----------------------------------------------------------------------------

  /** Deliverable rows past the pending gate, by which a portal's tail is found. */
  function GatedRows(db: Db, bridgeFiltered: bool, hold: int, portal: string): set<string> {
    set g | g in db.msgs && Deliverable(db.chats, bridgeFiltered, portal, db.msgs[g])
      && Open(db.chats, bridgeFiltered, hold, db.msgs[g])
  }

  /** HAVING COUNT(*) > keepPerPortal. */
  function TailPortals(db: Db, bridgeFiltered: bool, hold: int, keep: nat): set<string> {
    set g | g in db.msgs && db.msgs[g].portalId.Some?
      && |GatedRows(db, bridgeFiltered, hold, db.msgs[g].portalId.value)| > keep :: db.msgs[g].portalId.value
  }

  /** The tail rows of one portal, by its threshold. */
  function PortalTail(db: Db, bridgeFiltered: bool, cutoff: int, keep: nat, portal: string): set<string>
    requires keep > 0
  {
    match Threshold(Population(db, bridgeFiltered, portal), keep)
    case None => {}
    case Some(t) => TailOf(db.chats, db.msgs, bridgeFiltered, portal, cutoff, t)
  }

  function Tails(db: Db, bridgeFiltered: bool, cutoff: int, keep: nat, portals: set<string>): set<string>
    requires keep > 0
  {
    set portal, g | portal in portals && g in PortalTail(db, bridgeFiltered, cutoff, keep, portal) :: g
  }

  /** How many rows that forward backfill can read are newer than a time. */
  ghost function NewerRows(places: set<Place>, timestampMs: int): set<Place> {
    set q | q in places && q.timestampMs > timestampMs
  }

  /** Below the threshold lies exactly what has keep newer rows. */
  lemma BelowThreshold(places: set<Place>, keep: nat, timestampMs: int)
    requires keep > 0
    ensures |NewerRows(places, timestampMs)| >= keep
       <==> Threshold(places, keep).Some? && timestampMs < Threshold(places, keep).value
  {
    LaterIsStrictTotal();
    SubsetIsFewer(NewerRows(places, timestampMs), places);
    if Threshold(places, keep).Some? {
      if timestampMs < Threshold(places, keep).value {
        var first := FirstOf(places, keep);
        forall q | q in first
          ensures q in NewerRows(places, timestampMs)
        {
          FirstAboveThreshold(places, keep, q);
        }
        SubsetIsFewer(first, NewerRows(places, timestampMs));
      } else {
        FirstHasSize(places, keep - 1);
        var before := FirstOf(places, keep - 1);
        forall q | q in NewerRows(places, timestampMs)
          ensures q in before
        {
          LaterIsBefore(places, keep - 1, q);
        }
        SubsetIsFewer(NewerRows(places, timestampMs), before);
      }
    }
  }

  ghost function FreeRows(db: Db, bridgeFiltered: bool, hold: int, portal: string): set<string> {
    set g | g in db.msgs && CanBackfill(db, bridgeFiltered, portal, g)
      && !Held(db.chats, bridgeFiltered, hold, db.msgs[g])
  }

  /**
    The pass takes a row exactly when it is readable, unscrubbed, no reaction and old
    enough, its portal is not excluded and has more than keep rows that backfill can read
    and need not wait, and at least keep of the portal's readable rows are newer than it.
   */
  lemma TailRowExactly(db: Db, bridgeFiltered: bool, cutoff: int, hold: int, keep: nat, exclude: set<string>,
                       g: string, portal: string)
    requires keep > 0 && g in db.msgs && db.msgs[g].portalId == Some(portal)
    ensures g in Tails(db, bridgeFiltered, cutoff, keep, TailPortals(db, bridgeFiltered, hold, keep) - exclude) <==>
      var row := db.msgs[g];
      && Readable(db.chats, bridgeFiltered, row) && !row.scrubbed && row.updatedTs < cutoff
      && (row.tapbackType.Some? ==> row.tapbackType.value < 2000)
      && portal !in exclude && |FreeRows(db, bridgeFiltered, hold, portal)| > keep
      && |NewerRows(Population(db, bridgeFiltered, portal), row.timestampMs)| >= keep
  {
    BelowThreshold(Population(db, bridgeFiltered, portal), keep, db.msgs[g].timestampMs);
    GatedAreFree(db, bridgeFiltered, hold, portal);
    TailsAt(db, bridgeFiltered, cutoff, keep, TailPortals(db, bridgeFiltered, hold, keep) - exclude, g, portal);
    TailPortalsAt(db, bridgeFiltered, hold, keep, g, portal);
  }

  /** A row can only be in the tail of its own portal. */
  lemma TailsAt(db: Db, bridgeFiltered: bool, cutoff: int, keep: nat, portals: set<string>, g: string, portal: string)
    requires keep > 0 && g in db.msgs && db.msgs[g].portalId == Some(portal)
    ensures g in Tails(db, bridgeFiltered, cutoff, keep, portals)
       <==> portal in portals && g in PortalTail(db, bridgeFiltered, cutoff, keep, portal)
  {
    forall p | p in portals && g in PortalTail(db, bridgeFiltered, cutoff, keep, p)
      ensures p == portal
    {}
  }

  lemma TailPortalsAt(db: Db, bridgeFiltered: bool, hold: int, keep: nat, g: string, portal: string)
    requires g in db.msgs && db.msgs[g].portalId == Some(portal)
    ensures portal in TailPortals(db, bridgeFiltered, hold, keep)
       <==> |GatedRows(db, bridgeFiltered, hold, portal)| > keep
  {}

  lemma GatedAreFree(db: Db, bridgeFiltered: bool, hold: int, portal: string)
    ensures GatedRows(db, bridgeFiltered, hold, portal) == FreeRows(db, bridgeFiltered, hold, portal)
  {
    forall g | g in db.msgs
      ensures g in GatedRows(db, bridgeFiltered, hold, portal) <==> g in FreeRows(db, bridgeFiltered, hold, portal)
    {
      GateExact(db.chats, bridgeFiltered, hold, db.msgs[g]);
    }
  }

  /** Scrubbing other portals' tails changes nothing for a portal not yet visited. */
  lemma TailUnmoved(db: Db, bridgeFiltered: bool, cutoff: int, keep: nat, done: set<string>, portal: string, now: Db)
    requires keep > 0 && portal !in done
    requires now == db.(msgs := ScrubSet(db.msgs, Tails(db, bridgeFiltered, cutoff, keep, done)))
    ensures Population(now, bridgeFiltered, portal) == Population(db, bridgeFiltered, portal)
    ensures PortalTail(now, bridgeFiltered, cutoff, keep, portal)
         == PortalTail(db, bridgeFiltered, cutoff, keep, portal)
    ensures PortalTail(db, bridgeFiltered, cutoff, keep, portal) !! Tails(db, bridgeFiltered, cutoff, keep, done)
  {
    ScrubKeepsPopulation(db, now, bridgeFiltered, portal);
    var scrubbed := Tails(db, bridgeFiltered, cutoff, keep, done);
    forall g | g in db.msgs && db.msgs[g].portalId == Some(portal)
      ensures g !in scrubbed
    {}
    forall g | g in db.msgs
      ensures now.msgs[g].portalId == db.msgs[g].portalId
      ensures now.msgs[g].portalId == Some(portal) ==> now.msgs[g] == db.msgs[g]
    {}
  }

  lemma TailsGrow(db: Db, bridgeFiltered: bool, cutoff: int, keep: nat, done: set<string>, portal: string)
    requires keep > 0
    ensures Tails(db, bridgeFiltered, cutoff, keep, done + {portal})
         == Tails(db, bridgeFiltered, cutoff, keep, done) + PortalTail(db, bridgeFiltered, cutoff, keep, portal)
  {
    forall g
      ensures g in Tails(db, bridgeFiltered, cutoff, keep, done + {portal})
         <==> g in Tails(db, bridgeFiltered, cutoff, keep, done)
              || g in PortalTail(db, bridgeFiltered, cutoff, keep, portal)
    {
      if g in PortalTail(db, bridgeFiltered, cutoff, keep, portal) {
        assert portal in done + {portal};
      }
    }
  }

  /** One portal of scrubUnbridgedTail: find the threshold, then update in chunks. */
  method ScrubOnePortal(store: Store, portal: string, keep: nat, cutoff: int)
    requires keep > 0
    modifies store`msgs
    ensures store.msgs
         == ScrubSet(old(store.msgs), PortalTail(old(store.View()), store.bridgeFiltered, cutoff, keep, portal))
  {
    var threshold := Threshold(Population(Db(store.msgs, store.chats, store.delivered), store.bridgeFiltered, portal),
                               keep);
    if threshold.Some? {
      ScrubPortalTail(store, portal, cutoff, threshold.value);
    } else {
      assert ScrubSet(store.msgs, {}) == store.msgs;
    }
  }

  /** A portal's tail is still the snapshot's when its turn comes. */
  method ScrubNextPortal(store: Store, portal: string, keep: nat, cutoff: int, ghost db: Db, ghost done: set<string>)
    requires keep > 0 && portal !in done
    requires store.View() == db.(msgs := ScrubSet(db.msgs, Tails(db, store.bridgeFiltered, cutoff, keep, done)))
    modifies store`msgs
    ensures store.View()
         == db.(msgs := ScrubSet(db.msgs, Tails(db, store.bridgeFiltered, cutoff, keep, done + {portal})))
  {
    TailUnmoved(db, store.bridgeFiltered, cutoff, keep, done, portal, store.View());
    ScrubOnePortal(store, portal, keep, cutoff);
    ScrubSetUnion(db.msgs, Tails(db, store.bridgeFiltered, cutoff, keep, done),
                  PortalTail(db, store.bridgeFiltered, cutoff, keep, portal));
    TailsGrow(db, store.bridgeFiltered, cutoff, keep, done, portal);
  }

  /** The loop over portals, in whatever order they come. */
  method ScrubTails(store: Store, portals: set<string>, keep: nat, cutoff: int)
    requires keep > 0
    modifies store`msgs
    ensures store.View()
         == old(store.View()).(msgs := ScrubSet(old(store.msgs),
                                                Tails(old(store.View()), store.bridgeFiltered, cutoff, keep, portals)))
  {
    ghost var db := store.View();
    var rest := portals;
    ghost var done: set<string> := {};
    while rest != {}
      invariant done !! rest && done + rest == portals
      invariant store.View() == db.(msgs := ScrubSet(db.msgs, Tails(db, store.bridgeFiltered, cutoff, keep, done)))
      decreases |rest|
    {
      var portal :| portal in rest;
      ScrubNextPortal(store, portal, keep, cutoff, db, done);
      rest, done := rest - {portal}, done + {portal};
    }
    assert done == portals;
  }

  /**
    scrubUnbridgedTail on a snapshot: it scrubs exactly the tails that the snapshot's own
    thresholds give, on the portals over the cap that are not excluded.
   */
  method ScrubUnbridgedTail(store: Store, keep: int, cutoff: int, hold: int, exclude: set<string>)
    modifies store`msgs
    ensures keep <= 0 ==> store.msgs == old(store.msgs)
    ensures keep > 0 ==>
      var db := old(store.View());
      store.View() == db.(msgs := ScrubSet(db.msgs, Tails(db, store.bridgeFiltered, cutoff, keep,
                                                          TailPortals(db, store.bridgeFiltered, hold, keep) - exclude)))
  {
    if keep > 0 {
      var portals := TailPortals(Db(store.msgs, store.chats, store.delivered), store.bridgeFiltered, hold, keep);
      ScrubTails(store, portals - exclude, keep, cutoff);
    }
  }

  /**
    The pass is invisible to forward backfill: every portal's newest rows, up to keep of
    them, are the same rows as before and none of them was scrubbed by it.
   */
  lemma TailPassKeepsLatest(db: Db, bridgeFiltered: bool, cutoff: int, keep: nat, portals: set<string>,
                            portal: string, count: nat, now: Db)
    requires 0 < keep && count <= keep
    requires now == db.(msgs := ScrubSet(db.msgs, Tails(db, bridgeFiltered, cutoff, keep, portals)))
    ensures ListLatest(now, bridgeFiltered, portal, count) == ListLatest(db, bridgeFiltered, portal, count)
    ensures forall p :: p in ListLatest(db, bridgeFiltered, portal, count) ==>
      p.guid in db.msgs && p.guid in now.msgs && now.msgs[p.guid] == db.msgs[p.guid]
  {
    ScrubKeepsPopulation(db, now, bridgeFiltered, portal);
    forall p | p in ListLatest(db, bridgeFiltered, portal, count)
      ensures p.guid in db.msgs && now.msgs[p.guid] == db.msgs[p.guid]
    {
      LatestOutsideTails(db, bridgeFiltered, cutoff, keep, portals, portal, count, p);
    }
  }

  lemma LatestOutsideTails(db: Db, bridgeFiltered: bool, cutoff: int, keep: nat, portals: set<string>,
                           portal: string, count: nat, p: Place)
    requires 0 < keep && count <= keep && p in ListLatest(db, bridgeFiltered, portal, count)
    ensures p.guid in db.msgs && p.guid !in Tails(db, bridgeFiltered, cutoff, keep, portals)
  {
    LaterIsStrictTotal();
    var places := Population(db, bridgeFiltered, portal);
    PageIsPrefix(Later, places, count);
    SortedMembers(Later, places);
    assert p in Sorted(Later, places);
    assert db.msgs[p.guid].portalId == Some(portal);
    forall other | other in portals
      ensures p.guid !in PortalTail(db, bridgeFiltered, cutoff, keep, other)
    {
      if other == portal && Threshold(places, keep).Some? {
        TailMissesLatest(db, bridgeFiltered, portal, keep, count, cutoff, p);
      }
    }
  }

  // ---- One portal among other writers ----------------------------------------------------------

  /** A chunk scrubs only rows, and none that listLatestMessages would return at its moment. */
  ghost predicate SparesLatest(db: Db, bridgeFiltered: bool, portal: string, keep: nat, after: map<string, Row>) {
    && OnlyScrubbed(db.msgs, after)
    && forall count: nat, p :: count <= keep && p in ListLatest(db, bridgeFiltered, portal, count) ==>
      p.guid in db.msgs && p.guid in after && after[p.guid] == db.msgs[p.guid]
  }

  lemma GrownChunkSpares(db: Db, now: Db, bridgeFiltered: bool, portal: string, keep: nat, cutoff: int, threshold: int,
                         chunk: set<string>)
    requires 0 < keep && Threshold(Population(db, bridgeFiltered, portal), keep) == Some(threshold)
    requires Population(db, bridgeFiltered, portal) <= Population(now, bridgeFiltered, portal)
    requires chunk <= TailOf(now.chats, now.msgs, bridgeFiltered, portal, cutoff, threshold)
    ensures SparesLatest(now, bridgeFiltered, portal, keep, ScrubSet(now.msgs, chunk))
  {
    forall count: nat, p | count <= keep && p in ListLatest(now, bridgeFiltered, portal, count)
      ensures p.guid in now.msgs && p.guid !in chunk
    {
      GrownTailMissesLatest(db, now, bridgeFiltered, portal, keep, count, cutoff, p);
    }
  }

  /** One chunk of the update loop on the table as it then stands; the last when not full. */
  method ScrubOneChunk(db: Db, now: Db, bridgeFiltered: bool, portal: string, keep: nat, cutoff: int, threshold: int)
    returns (table: map<string, Row>, last: bool)
    requires keep > 0 && Threshold(Population(db, bridgeFiltered, portal), keep) == Some(threshold)
    requires Population(db, bridgeFiltered, portal) <= Population(now, bridgeFiltered, portal)
    ensures SparesLatest(now, bridgeFiltered, portal, keep, table)
  {
    var tail := TailOf(now.chats, now.msgs, bridgeFiltered, portal, cutoff, threshold);
    var chunk := SelectSome(tail, CHUNK);
    GrownChunkSpares(db, now, bridgeFiltered, portal, keep, cutoff, threshold, chunk);
    table, last := ScrubSet(now.msgs, chunk), |chunk| < CHUNK;
  }

  /**
    The update loop of one portal with other writers between the threshold and each chunk,
    none of whom takes a row out of the portal's population.
   */
  method ScrubPortalAmong(db: Db, tableAt: nat -> Db, bridgeFiltered: bool, portal: string, keep: nat, cutoff: int,
                          chunks: nat)
    returns (tables: seq<map<string, Row>>)
    requires keep > 0
    requires forall k: nat :: Population(db, bridgeFiltered, portal) <= Population(tableAt(k), bridgeFiltered, portal)
    ensures forall k: nat :: k < |tables| ==> SparesLatest(tableAt(k), bridgeFiltered, portal, keep, tables[k])
  {
    tables := [];
    var threshold := Threshold(Population(db, bridgeFiltered, portal), keep);
    if threshold.None? {
      return;
    }
    for k := 0 to chunks
      invariant |tables| == k
      invariant forall j: nat :: j < k ==> SparesLatest(tableAt(j), bridgeFiltered, portal, keep, tables[j])
    {
      var table, last := ScrubOneChunk(db, tableAt(k), bridgeFiltered, portal, keep, cutoff, threshold.value);
      tables := tables + [table];
      if last {
        return;
      }
    }
  }
}
