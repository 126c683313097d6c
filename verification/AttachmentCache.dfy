/**
  pruneOrphanedAttachmentCache: a paged scan of the attachment references of live
  messages, then a paged sweep over the cache. Every page may see a different table.
 */
module AttachmentCache {
  import opened Collections
  import opened CloudDb
  import opened CloudTail
  import opened Keyset

  /** ORDER BY timestamp_ms, guid. */
  predicate Earlier(a: Place, b: Place) {
    Later(b, a)
  }

  lemma EarlierIsStrictTotal()
    ensures StrictTotal(Earlier)
  {
    LaterIsStrictTotal();
  }

  /** Live rows with attachments: position and attachments_json. */
  type References = map<Place, string>

  function ReferencesOf(db: Db): References {
    map g | g in db.msgs && !db.msgs[g].deleted && Coalesce(db.msgs[g].attachments) != ""
      :: Place(db.msgs[g].timestampMs, g) := Coalesce(db.msgs[g].attachments)
  }

  /** json.Unmarshal: the record names of an attachment list, or an error. */
  type Parser = string -> Option<set<string>>

  const START := Place(0, "")

  function PageAfter(rows: References, cursor: Place, chunk: nat): seq<Place> {
    EarlierIsStrictTotal();
    Page(Earlier, Past(Earlier, rows.Keys, cursor), chunk)
  }

  datatype Scan = Unfinished | Failed | Done(referenced: set<string>)

  predicate AllParse(rows: References, page: seq<Place>, parse: Parser) {
    forall p :: p in page && p in rows ==> parse(rows[p]).Some?
  }

  /** The record names one row refers to; empty names do not count. */
  function NamesOf(json: string, parse: Parser): set<string> {
    if parse(json).Some? then parse(json).value - {""} else {}
  }

  function Names(rows: References, page: seq<Place>, parse: Parser): set<string> {
    set p, n | p in page && p in rows && n in NamesOf(rows[p], parse) :: n
  }

  /** The reference scan, one snapshot of the table per page, until a short page. */
  function ScanFrom(snapshots: seq<References>, cursor: Place, chunk: nat, parse: Parser): Scan
    requires chunk > 0
  {
    if snapshots == [] then Unfinished
    else
      var rows := snapshots[0];
      var page := PageAfter(rows, cursor, chunk);
      if !AllParse(rows, page, parse) then Failed
      else if |page| < chunk then Done(Names(rows, page, parse))
      else
        match ScanFrom(snapshots[1..], page[|page| - 1], chunk, parse)
        case Unfinished => Unfinished
        case Failed => Failed
        case Done(names) => Done(Names(rows, page, parse) + names)
  }

  /** A row past the cursor is on the page, or past its last row and the page is full. */
  lemma ReferencePage(rows: References, cursor: Place, chunk: nat, p: Place)
    requires chunk > 0 && p in rows && Earlier(cursor, p)
    ensures var page := PageAfter(rows, cursor, chunk);
      p in page || (|page| == chunk && Earlier(page[chunk - 1], p))
  {
    EarlierIsStrictTotal();
    PageReaches(Earlier, rows.Keys, cursor, chunk, p);
  }

  // ---- Concurrent writers -------------------------------------------------------------------

  /**
    Whatever is inserted, deleted or edited around it while the scan runs, a row that
    stays put in every snapshot has its references counted.
   */
  lemma {:induction false} StableRowIsSeen(snapshots: seq<References>, cursor: Place, chunk: nat, parse: Parser,
                                           p: Place, json: string)
    requires chunk > 0 && Earlier(cursor, p)
    requires forall i :: 0 <= i < |snapshots| ==> p in snapshots[i] && snapshots[i][p] == json
    requires ScanFrom(snapshots, cursor, chunk, parse).Done?
    ensures NamesOf(json, parse) <= ScanFrom(snapshots, cursor, chunk, parse).referenced
  {
    var rows := snapshots[0];
    var page := PageAfter(rows, cursor, chunk);
    ReferencePage(rows, cursor, chunk, p);
    if p in page {
      assert NamesOf(rows[p], parse) <= Names(rows, page, parse);
    } else {
      assert forall i :: 0 <= i < |snapshots[1..]| ==> snapshots[1..][i] == snapshots[i + 1];
      StableRowIsSeen(snapshots[1..], page[|page| - 1], chunk, parse, p, json);
    }
  }

  predicate RefersTo(rows: References, parse: Parser, n: string) {
    exists p :: p in rows && n in NamesOf(rows[p], parse)
  }

  /** The references of a store are the parsed attachment lists of its live messages, empty names apart. */
  lemma ReferencesAre(db: Db, parse: Parser, n: string)
    ensures RefersTo(ReferencesOf(db), parse, n) <==>
      n != "" && exists g :: g in db.msgs && !db.msgs[g].deleted && Attaches(db.msgs[g], parse, n)
  {
    var rows := ReferencesOf(db);
    if RefersTo(rows, parse, n) {
      var p :| p in rows && n in NamesOf(rows[p], parse);
      assert Attaches(db.msgs[p.guid], parse, n);
    }
    if g :| n != "" && g in db.msgs && !db.msgs[g].deleted && Attaches(db.msgs[g], parse, n) {
      var p := Place(db.msgs[g].timestampMs, g);
      assert p in rows && n in NamesOf(rows[p], parse);
    }
  }

  predicate Attaches(r: Row, parse: Parser, n: string) {
    r.attachments.Some? && r.attachments.value != ""
    && parse(r.attachments.value).Some? && n in parse(r.attachments.value).value
  }

  /** Nothing is counted that no snapshot referenced. */
  lemma {:induction false} SeenWasReferenced(snapshots: seq<References>, cursor: Place, chunk: nat, parse: Parser,
                                             n: string)
    requires chunk > 0 && ScanFrom(snapshots, cursor, chunk, parse).Done?
    requires n in ScanFrom(snapshots, cursor, chunk, parse).referenced
    ensures exists i :: 0 <= i < |snapshots| && RefersTo(snapshots[i], parse, n)
  {
    var rows := snapshots[0];
    var page := PageAfter(rows, cursor, chunk);
    if n in Names(rows, page, parse) {
      assert RefersTo(snapshots[0], parse, n);
    } else {
      SeenWasReferenced(snapshots[1..], page[|page| - 1], chunk, parse, n);
      var i :| 0 <= i < |snapshots[1..]| && RefersTo(snapshots[1..][i], parse, n);
      assert snapshots[1..][i] == snapshots[i + 1];
    }
  }

  // ---- A quiet table -------------------------------------------------------------------------

  /** Every row past the cursor parses. */
  predicate ParsesPast(rows: References, cursor: Place, parse: Parser) {
    forall p :: p in rows && Earlier(cursor, p) ==> parse(rows[p]).Some?
  }

  function NamesPast(rows: References, cursor: Place, parse: Parser): set<string> {
    set p, n | p in rows && Earlier(cursor, p) && n in NamesOf(rows[p], parse) :: n
  }

  /** What lies past the cursor is the page and what lies past its end. */
  lemma PageSplits(rows: References, cursor: Place, page: seq<Place>, last: Place, parse: Parser)
    requires Earlier(cursor, last)
    requires forall p :: p in page ==> p in rows && Earlier(cursor, p)
    requires forall p :: p in rows && Earlier(cursor, p) ==> p in page || Earlier(last, p)
    ensures Names(rows, page, parse) + NamesPast(rows, last, parse) == NamesPast(rows, cursor, parse)
    ensures ParsesPast(rows, cursor, parse) <==> AllParse(rows, page, parse) && ParsesPast(rows, last, parse)
  {
    EarlierIsStrictTotal();
    forall p | p in rows && Earlier(last, p)
      ensures Earlier(cursor, p)
    {}
  }

  lemma FewerPast(rows: References, cursor: Place, chunk: nat)
    requires chunk > 0 && |PageAfter(rows, cursor, chunk)| == chunk
    ensures var last := PageAfter(rows, cursor, chunk)[chunk - 1];
      Earlier(cursor, last) && |Past(Earlier, rows.Keys, last)| < |Past(Earlier, rows.Keys, cursor)|
  {
    EarlierIsStrictTotal();
    PageAdvances(Earlier, rows.Keys, cursor, chunk);
  }

  lemma RowsReached(rows: References, cursor: Place, chunk: nat)
    requires chunk > 0
    ensures var page := PageAfter(rows, cursor, chunk);
      && |page| <= chunk
      && (forall p :: p in page ==> p in rows && Earlier(cursor, p))
      && (forall p :: p in rows && Earlier(cursor, p) ==> p in page || (|page| == chunk && Earlier(page[chunk - 1], p)))
  {
    EarlierIsStrictTotal();
    PageSound(Earlier, rows.Keys, cursor, chunk);
    forall p | p in rows && Earlier(cursor, p)
      ensures var page := PageAfter(rows, cursor, chunk);
        p in page || (|page| == chunk && Earlier(page[chunk - 1], p))
    {
      ReferencePage(rows, cursor, chunk, p);
    }
  }

  /** On an unchanging table the scan sees every row past its start, or fails on one that does not parse. */
  lemma {:induction false} QuietScan(rows: References, snapshots: seq<References>, cursor: Place, chunk: nat,
                                     parse: Parser)
    requires chunk > 0 && |Past(Earlier, rows.Keys, cursor)| < |snapshots|
    requires forall i :: 0 <= i < |snapshots| ==> snapshots[i] == rows
    ensures ScanFrom(snapshots, cursor, chunk, parse)
         == if ParsesPast(rows, cursor, parse) then Done(NamesPast(rows, cursor, parse)) else Failed
    decreases |snapshots|
  {
    var page := PageAfter(rows, cursor, chunk);
    RowsReached(rows, cursor, chunk);
    if |page| < chunk {
    } else {
      var last := page[chunk - 1];
      FewerPast(rows, cursor, chunk);
      QuietScan(rows, snapshots[1..], last, chunk, parse);
      PageSplits(rows, cursor, page, last, parse);
    }
  }

  // ---- The scan loop ---------------------------------------------------------------------------

  lemma NamesAppend(rows: References, page: seq<Place>, p: Place, parse: Parser)
    requires p in rows
    ensures Names(rows, page + [p], parse) == Names(rows, page, parse) + NamesOf(rows[p], parse)
  {
    assert p in page + [p];
  }

  /** The inner loop: parse the rows of one page, stopping at the first failure. */
  method CollectPage(rows: References, page: seq<Place>, parse: Parser) returns (ok: bool, names: set<string>)
    requires forall p :: p in page ==> p in rows
    ensures ok <==> AllParse(rows, page, parse)
    ensures ok ==> names == Names(rows, page, parse)
  {
    names := {};
    for i := 0 to |page|
      invariant AllParse(rows, page[..i], parse)
      invariant names == Names(rows, page[..i], parse)
    {
      assert page[i] in page;
      var parsed := parse(rows[page[i]]);
      if parsed.None? {
        return false, {};
      }
      assert page[..i + 1] == page[..i] + [page[i]];
      NamesAppend(rows, page[..i], page[i], parse);
      names := names + (parsed.value - {""});
    }
    assert page[..|page|] == page;
    ok := true;
  }

  function Prepend(names: set<string>, scan: Scan): Scan {
    if scan.Done? then Done(names + scan.referenced) else scan
  }

  /** The reference scan of pruneOrphanedAttachmentCache. */
  method ScanReferences(snapshots: seq<References>, chunk: nat, parse: Parser) returns (scan: Scan)
    requires chunk > 0
    ensures scan == ScanFrom(snapshots, START, chunk, parse)
  {
    var referenced, cursor := {}, START;
    for i := 0 to |snapshots|
      invariant ScanFrom(snapshots, START, chunk, parse)
             == Prepend(referenced, ScanFrom(snapshots[i..], cursor, chunk, parse))
    {
      var rows := snapshots[i];
      var page := PageAfter(rows, cursor, chunk);
      RowsReached(rows, cursor, chunk);
      var ok, names := CollectPage(rows, page, parse);
      if !ok {
        return Failed;
      }
      ghost var before, found := referenced, names;
      referenced := referenced + names;
      if |page| < chunk {
        return Done(referenced);
      }
      cursor := page[|page| - 1];
    }
    scan := Unfinished;
  }

  // ---- The sweep --------------------------------------------------------------------------------

  /** cloud_attachment_cache: record name to created_ts. */
  type Cache = map<string, int>

  predicate Orphan(cache: Cache, referenced: set<string>, scanStart: int, n: string) {
    n in cache && n != "" && cache[n] < scanStart && n !in referenced
  }

  /** Entries the sweep should leave. */
  function Swept(cache: Cache, referenced: set<string>, scanStart: int): Cache {
    map n | n in cache && !Orphan(cache, referenced, scanStart, n) :: cache[n]
  }

  /** DELETE ... WHERE created_ts < cutoff AND record_name IN (names). */
  function DeleteOld(cache: Cache, names: set<string>, cutoff: int): Cache {
    map n | n in cache && !(n in names && cache[n] < cutoff) :: cache[n]
  }

  function ToSet(names: seq<string>): set<string> {
    set n | n in names
  }

  function Stale(cache: Cache, scanStart: int): set<string> {
    set n | n in cache && cache[n] < scanStart
  }

  /** The cache once every name up to the cursor has been dealt with. */
  ghost predicate SweptUpTo(before: Cache, cache: Cache, referenced: set<string>, scanStart: int, cursor: string) {
    && (forall n :: n in cache <==> n in before && !(Orphan(before, referenced, scanStart, n) && !Before(cursor, n)))
    && (forall n :: n in cache ==> cache[n] == before[n])
  }

  function NamesAfter(cache: Cache, scanStart: int, cursor: string, chunk: nat): seq<string> {
    BeforeIsStrictTotal();
    Page(Before, Past(Before, Stale(cache, scanStart), cursor), chunk)
  }

  /** Facts about one listing page of stale names. */
  ghost predicate ListingPage(cache: Cache, scanStart: int, cursor: string, chunk: nat, page: seq<string>) {
    && 0 < chunk && |page| <= chunk
    && (forall n :: n in page ==> n in Stale(cache, scanStart) && Before(cursor, n))
    && (forall n :: n in Stale(cache, scanStart) && Before(cursor, n) ==>
          n in page || (|page| == chunk && Before(page[chunk - 1], n)))
    && (|page| == chunk ==> forall n :: n in page ==> !Before(page[chunk - 1], n))
  }

  lemma PageOfNames(cache: Cache, scanStart: int, cursor: string, chunk: nat)
    requires chunk > 0
    ensures ListingPage(cache, scanStart, cursor, chunk, NamesAfter(cache, scanStart, cursor, chunk))
  {
    BeforeIsStrictTotal();
    var stale := Stale(cache, scanStart);
    var page := NamesAfter(cache, scanStart, cursor, chunk);
    PageSound(Before, stale, cursor, chunk);
    forall n | n in stale && Before(cursor, n)
      ensures n in page || (|page| == chunk && Before(page[chunk - 1], n))
    {
      PageReaches(Before, stale, cursor, chunk, n);
    }
    if |page| == chunk {
      PageAdvances(Before, stale, cursor, chunk);
    }
  }

  /** Deleting a page's orphans sweeps up to its last name, or everything when it was short. */
  lemma SweepAdvances(before: Cache, cache: Cache, referenced: set<string>, scanStart: int, cursor: string,
                      chunk: nat, page: seq<string>)
    requires chunk > 0 && SweptUpTo(before, cache, referenced, scanStart, cursor)
    requires ListingPage(cache, scanStart, cursor, chunk, page)
    ensures var next := DeleteOld(cache, ToSet(page) - referenced, scanStart);
      && (|page| < chunk ==> next == Swept(before, referenced, scanStart))
      && (|page| == chunk ==> SweptUpTo(before, next, referenced, scanStart, page[chunk - 1]))
  {
    var next := DeleteOld(cache, ToSet(page) - referenced, scanStart);
    forall n | n in before
      ensures |page| < chunk ==> (n in next <==> !Orphan(before, referenced, scanStart, n))
      ensures |page| == chunk ==>
        (n in next <==> !(Orphan(before, referenced, scanStart, n) && !Before(page[chunk - 1], n)))
    {
      SweptName(before, cache, referenced, scanStart, cursor, chunk, page, n);
    }
  }

  lemma SweptName(before: Cache, cache: Cache, referenced: set<string>, scanStart: int, cursor: string, chunk: nat,
                  page: seq<string>, n: string)
    requires chunk > 0 && SweptUpTo(before, cache, referenced, scanStart, cursor) && n in before
    requires ListingPage(cache, scanStart, cursor, chunk, page)
    ensures var next := DeleteOld(cache, ToSet(page) - referenced, scanStart);
      && (|page| < chunk ==> (n in next <==> !Orphan(before, referenced, scanStart, n)))
      && (|page| == chunk ==>
            (n in next <==> !(Orphan(before, referenced, scanStart, n) && !Before(page[chunk - 1], n))))
  {
    if |page| == chunk {
      assert page[chunk - 1] in page;
      if !Before(cursor, n) && Before(page[chunk - 1], n) {
        BeforeTransitive(cursor, page[chunk - 1], n);
      }
    }
    if n != "" && Orphan(before, referenced, scanStart, n) && Before(cursor, n) {
      assert n in cache && n in Stale(cache, scanStart);
    }
  }

  /** The names of one listing page that the scan did not see. */
  method PickOrphans(page: seq<string>, referenced: set<string>) returns (orphans: seq<string>)
    ensures forall n :: n in orphans <==> n in page && n !in referenced
  {
    orphans := [];
    for i := 0 to |page|
      invariant forall n :: n in orphans <==> n in page[..i] && n !in referenced
    {
      assert page[..i + 1] == page[..i] + [page[i]];
      if page[i] !in referenced {
        orphans := orphans + [page[i]];
      }
    }
    assert page[..|page|] == page;
  }

  class CacheTable {
    var cache: Cache

    /** The delete loop: keyed deletes in small transactions. */
    method DeleteInChunks(orphans: seq<string>, cutoff: int, chunk: nat)
      requires chunk > 0
      modifies this
      ensures cache == DeleteOld(old(cache), ToSet(orphans), cutoff)
    {
      var start := 0;
      ghost var before := cache;
      while start < |orphans|
        invariant 0 <= start <= |orphans|
        invariant cache == DeleteOld(before, ToSet(orphans[..start]), cutoff)
      {
        var end := if start + chunk < |orphans| then start + chunk else |orphans|;
        assert orphans[..end] == orphans[..start] + orphans[start..end];
        cache := DeleteOld(cache, ToSet(orphans[start..end]), cutoff);
        start := end;
      }
      assert orphans[..|orphans|] == orphans;
    }

    /** The listing loop: keyset pages of stale names, each page's orphans deleted before the next. */
    method Sweep(referenced: set<string>, scanStart: int, readChunk: nat, deleteChunk: nat)
      requires readChunk > 0 && deleteChunk > 0
      modifies this
      ensures cache == Swept(old(cache), referenced, scanStart)
    {
      var cursor := "";
      ghost var before := cache;
      var more := true;
      while more
        invariant more ==> SweptUpTo(before, cache, referenced, scanStart, cursor)
        invariant !more ==> cache == Swept(before, referenced, scanStart)
        decreases more, NamesPastCursor(before, scanStart, cursor)
      {
        var page := NamesAfter(cache, scanStart, cursor, readChunk);
        PageOfNames(cache, scanStart, cursor, readChunk);
        SweepAdvances(before, cache, referenced, scanStart, cursor, readChunk, page);
        var orphans := PickOrphans(page, referenced);
        assert ToSet(orphans) == ToSet(page) - referenced;
        more := |page| == readChunk;
        if more {
          FewerNames(before, cache, referenced, scanStart, cursor, page[readChunk - 1]);
        }
        DeleteInChunks(orphans, scanStart, deleteChunk);
        cursor := if more then page[readChunk - 1] else cursor;
      }
    }

    /**
      pruneOrphanedAttachmentCache with each reference page read from its own snapshot
      (readChunk is 500 and deleteChunk 250 in the bridge). A scan that fails deletes nothing.
     */
    method PruneOrphaned(snapshots: seq<References>, parse: Parser, scanStart: int, readChunk: nat, deleteChunk: nat)
      returns (scan: Scan)
      requires readChunk > 0 && deleteChunk > 0
      modifies this
      ensures scan == ScanFrom(snapshots, START, readChunk, parse)
      ensures scan.Done? ==> cache == Swept(old(cache), scan.referenced, scanStart)
      ensures !scan.Done? ==> cache == old(cache)
    {
      scan := ScanReferences(snapshots, readChunk, parse);
      if scan.Done? {
        Sweep(scan.referenced, scanStart, readChunk, deleteChunk);
      }
    }
  }

  ghost function NamesPastCursor(cache: Cache, scanStart: int, cursor: string): set<string> {
    Past(Before, Stale(cache, scanStart), cursor)
  }

  lemma FewerNames(before: Cache, cache: Cache, referenced: set<string>, scanStart: int, cursor: string, last: string)
    requires SweptUpTo(before, cache, referenced, scanStart, cursor)
    requires last in Stale(cache, scanStart) && Before(cursor, last)
    ensures NamesPastCursor(before, scanStart, last) < NamesPastCursor(before, scanStart, cursor)
  {
    assert last in NamesPastCursor(before, scanStart, cursor);
    BeforeIrreflexive(last);
    forall n | n in NamesPastCursor(before, scanStart, last)
      ensures n in NamesPastCursor(before, scanStart, cursor)
    {
      BeforeTransitive(cursor, last, n);
    }
  }

  // ---- What a prune amounts to --------------------------------------------------------------------

  function AllNames(rows: References, parse: Parser): set<string> {
    set p, n | p in rows && n in NamesOf(rows[p], parse) :: n
  }

  /** Live attachment rows that the scan starts before: nonnegative timestamps and nonempty GUIDs. */
  predicate InScanRange(db: Db) {
    forall g :: g in db.msgs && !db.msgs[g].deleted ==> db.msgs[g].timestampMs >= 0 && g != ""
  }

  /** The sweep depends only on which of the stale, named entries count as referenced. */
  lemma SameSweep(cache: Cache, a: set<string>, b: set<string>, scanStart: int)
    ensures Swept(cache, a, scanStart) == Swept(cache, b, scanStart)
       <==> forall n :: n in cache && n != "" && cache[n] < scanStart ==> (n in a <==> n in b)
  {
    var x, y := Swept(cache, a, scanStart), Swept(cache, b, scanStart);
    if x == y {
      forall n | n in cache && n != "" && cache[n] < scanStart
        ensures n in a <==> n in b
      {
        assert n in x <==> n in y;
      }
    }
  }

  /** Rows the scan never reads: before the epoch, or at it with an empty GUID. */
  predicate BeforeStart(p: Place) {
    p.timestampMs < 0 || (p.timestampMs == 0 && p.guid == "")
  }

  /** Live rows refer to the name, but only such rows. */
  predicate ReferredToOnlyBeforeStart(rows: References, parse: Parser, n: string) {
    RefersTo(rows, parse, n) && forall p :: p in rows && n in NamesOf(rows[p], parse) ==> BeforeStart(p)
  }

  /** The prune is right for this table and cache: no stale entry is referred to only by rows it never reads. */
  predicate NothingMissed(rows: References, parse: Parser, cache: Cache, scanStart: int) {
    forall n :: n in cache && n != "" && cache[n] < scanStart ==> !ReferredToOnlyBeforeStart(rows, parse, n)
  }

  /** The sweep by what the scan saw is the sweep by all references exactly when nothing was missed. */
  lemma QuietPruneExact(rows: References, parse: Parser, cache: Cache, scanStart: int)
    ensures Swept(cache, NamesPast(rows, START, parse), scanStart) == Swept(cache, AllNames(rows, parse), scanStart)
       <==> NothingMissed(rows, parse, cache, scanStart)
  {
    SameSweep(cache, NamesPast(rows, START, parse), AllNames(rows, parse), scanStart);
    forall n | n in cache
      ensures (n in NamesPast(rows, START, parse) <==> n in AllNames(rows, parse))
         <==> !ReferredToOnlyBeforeStart(rows, parse, n)
    {}
  }

  /** In range, nothing is missed. */
  lemma InRangeSeesAll(db: Db, parse: Parser, cache: Cache, scanStart: int)
    requires InScanRange(db)
    ensures NothingMissed(ReferencesOf(db), parse, cache, scanStart)
  {
    var rows := ReferencesOf(db);
    forall p | p in rows
      ensures !BeforeStart(p)
    {
      assert p.guid in db.msgs && p.timestampMs == db.msgs[p.guid].timestampMs;
    }
  }

  /** Gone are exactly the stale, named entries to which no live row refers. */
  predicate PrunedExactly(before: Cache, after: Cache, rows: References, parse: Parser, scanStart: int) {
    after == Swept(before, AllNames(rows, parse), scanStart)
  }

  /** Every row the scan reads parses. */
  predicate ParsesFromStart(rows: References, parse: Parser) {
    forall p :: p in rows && !BeforeStart(p) ==> parse(rows[p]).Some?
  }

  /**
    pruneOrphanedAttachmentCache while nothing else writes. It deletes exactly the stale
    entries to which no live row refers if and only if no stale entry is referred to only by
    rows before the scan's start, so always when the rows are in range; it deletes nothing
    when a row it reads does not parse.
   */
  method PruneQuietly(table: CacheTable, db: Db, parse: Parser, scanStart: int, readChunk: nat, deleteChunk: nat)
    returns (scan: Scan)
    requires readChunk > 0 && deleteChunk > 0
    modifies table
    ensures !ParsesFromStart(ReferencesOf(db), parse) ==> scan == Failed && table.cache == old(table.cache)
    ensures ParsesFromStart(ReferencesOf(db), parse) ==>
      (PrunedExactly(old(table.cache), table.cache, ReferencesOf(db), parse, scanStart)
       <==> NothingMissed(ReferencesOf(db), parse, old(table.cache), scanStart))
    ensures ParsesFromStart(ReferencesOf(db), parse) ==>
      table.cache == Swept(old(table.cache), NamesPast(ReferencesOf(db), START, parse), scanStart)
    ensures ParsesFromStart(ReferencesOf(db), parse) && InScanRange(db) ==>
      PrunedExactly(old(table.cache), table.cache, ReferencesOf(db), parse, scanStart)
  {
    var rows := ReferencesOf(db);
    ghost var before := table.cache;
    var snapshots := seq(|rows.Keys| + 1, i => rows);
    PastIsFewer(rows, START);
    QuietScan(rows, snapshots, START, readChunk, parse);
    QuietPruneExact(rows, parse, before, scanStart);
    if InScanRange(db) {
      InRangeSeesAll(db, parse, before, scanStart);
    }
    scan := table.PruneOrphaned(snapshots, parse, scanStart, readChunk, deleteChunk);
  }

  lemma PastIsFewer(rows: References, cursor: Place)
    ensures |Past(Earlier, rows.Keys, cursor)| <= |rows.Keys|
  {
    SubsetIsFewer(Past(Earlier, rows.Keys, cursor), rows.Keys);
  }

  /** Out of range: the one live message, at timestamp -1, refers to the one entry, and the prune deletes it. */
  method NegativeTimestampIsMissed(table: CacheTable, row: Row, parse: Parser, n: string)
    requires !row.deleted && row.timestampMs == -1 && Coalesce(row.attachments) != ""
    requires n != "" && n in NamesOf(Coalesce(row.attachments), parse) && table.cache == map[n := 0]
    modifies table
    ensures RefersTo(ReferencesOf(Db(map["m" := row], map[], {})), parse, n)
    ensures table.cache == map[]
  {
    var db := Db(map["m" := row], map[], {});
    var rows := ReferencesOf(db);
    assert rows == map[Place(-1, "m") := Coalesce(row.attachments)] by {
      assert "m" in db.msgs;
    }
    assert Place(-1, "m") in rows && BeforeStart(Place(-1, "m"));
    assert NamesPast(rows, START, parse) == {};
    var scan := PruneQuietly(table, db, parse, 1, 500, 250);
  }

  // ---- Writers during the sweep ---------------------------------------------------------------------

  /** Other writers save entries; the sweep's deletes carry its cutoff. */
  datatype Event = Save(name: string, now: int) | Delete(names: set<string>)

  function Happen(cache: Cache, event: Event, scanStart: int): Cache {
    match event
    case Save(name, now) => cache[name := now]
    case Delete(names) => DeleteOld(cache, names, scanStart)
  }

  function HappenAll(cache: Cache, events: seq<Event>, scanStart: int): Cache
    decreases |events|
  {
    if events == [] then cache else HappenAll(Happen(cache, events[0], scanStart), events[1..], scanStart)
  }

  /** Saves happen after the scan started, and the sweep deletes only what the scan did not see. */
  predicate SweepRun(events: seq<Event>, referenced: set<string>, scanStart: int) {
    forall i :: 0 <= i < |events| ==>
      match events[i] case Save(_, now) => now >= scanStart case Delete(names) => names !! referenced
  }

  lemma {:induction false} EntriesSurvive(cache: Cache, events: seq<Event>, referenced: set<string>, scanStart: int,
                                          n: string)
    requires SweepRun(events, referenced, scanStart)
    requires n in cache && (n in referenced || cache[n] >= scanStart)
    ensures n in HappenAll(cache, events, scanStart)
    ensures cache[n] >= scanStart ==> HappenAll(cache, events, scanStart)[n] >= scanStart
    decreases |events|
  {
    if events != [] {
      assert forall i :: 0 <= i < |events[1..]| ==> events[1..][i] == events[i + 1];
      EntriesSurvive(Happen(cache, events[0], scanStart), events[1..], referenced, scanStart, n);
    }
  }

  /** An entry written or refreshed since the scan started is never deleted. */
  lemma FreshEntrySurvives(cache: Cache, events: seq<Event>, i: nat, referenced: set<string>, scanStart: int)
    requires SweepRun(events, referenced, scanStart) && i < |events| && events[i].Save?
    ensures events[i].name in HappenAll(cache, events, scanStart)
    decreases i
  {
    var tail := events[1..];
    assert forall j :: 0 <= j < |tail| ==> tail[j] == events[j + 1];
    var next := Happen(cache, events[0], scanStart);
    if i == 0 {
      EntriesSurvive(next, tail, referenced, scanStart, events[0].name);
    } else {
      FreshEntrySurvives(next, tail, i - 1, referenced, scanStart);
    }
  }

  // ---- A whole prune among other writers ----------------------------------------------------------------

  /** The keyed deletes for one page: its orphans in groups of at most a chunk. */
  method GroupNames(orphans: seq<string>, chunk: nat) returns (groups: seq<set<string>>)
    requires chunk > 0
    ensures forall d, n :: d in groups && n in d ==> n in orphans
    ensures forall n :: n in orphans ==> exists d :: d in groups && n in d
  {
    groups := [];
    var start := 0;
    while start < |orphans|
      invariant 0 <= start <= |orphans|
      invariant forall d, n :: d in groups && n in d ==> n in orphans
      invariant forall n :: n in orphans[..start] ==> exists d :: d in groups && n in d
    {
      var end := if start + chunk < |orphans| then start + chunk else |orphans|;
      var group := ToSet(orphans[start..end]);
      assert orphans[..end] == orphans[..start] + orphans[start..end];
      assert group in groups + [group];
      groups := groups + [group];
      start := end;
    }
    assert orphans[..|orphans|] == orphans;
  }

  /** A name that every listing of the sweep shows as stale. */
  ghost predicate StaleThroughout(listings: seq<Cache>, scanStart: int, n: string) {
    n != "" && forall i :: 0 <= i < |listings| ==> n in Stale(listings[i], scanStart)
  }

  /** The deletes touch only names that a listing showed stale and the scan did not see. */
  ghost predicate DeletesOrphans(deletes: seq<set<string>>, listings: seq<Cache>, referenced: set<string>,
                                 scanStart: int) {
    forall d, n :: d in deletes && n in d ==>
      n !in referenced && exists i :: 0 <= i < |listings| && n in Stale(listings[i], scanStart)
  }

  predicate Deleted(deletes: seq<set<string>>, n: string) {
    exists d :: d in deletes && n in d
  }

  /**
    The sweep with the cache listed afresh, and changed by anyone, at every page. It is
    finished when a listing comes back short.
   */
  method SweepAmong(referenced: set<string>, listings: seq<Cache>, scanStart: int, readChunk: nat, deleteChunk: nat)
    returns (finished: bool, deletes: seq<set<string>>)
    requires readChunk > 0 && deleteChunk > 0
    ensures DeletesOrphans(deletes, listings, referenced, scanStart)
    ensures finished ==> forall n :: StaleThroughout(listings, scanStart, n) && n !in referenced ==> Deleted(deletes, n)
  {
    finished, deletes := false, [];
    var cursor := "";
    for i := 0 to |listings|
      invariant DeletesOrphans(deletes, listings, referenced, scanStart)
      invariant forall n :: StaleThroughout(listings, scanStart, n) && n !in referenced && !Before(cursor, n) ==>
        Deleted(deletes, n)
    {
      var page := NamesAfter(listings[i], scanStart, cursor, readChunk);
      PageOfNames(listings[i], scanStart, cursor, readChunk);
      var orphans := PickOrphans(page, referenced);
      var groups := GroupNames(orphans, deleteChunk);
      PageDeleted(listings, i, referenced, scanStart, cursor, readChunk, page, orphans, groups, deletes);
      deletes := deletes + groups;
      if |page| < readChunk {
        finished := true;
        return;
      }
      cursor := page[readChunk - 1];
    }
  }

  /** The page ends at or after the name, or is the last. */
  predicate Passed(page: seq<string>, chunk: nat, n: string)
    requires |page| <= chunk && chunk > 0
  {
    |page| < chunk || !Before(page[chunk - 1], n)
  }

  /** One page's deletes deal with every stale name up to its last, or with all when it was short. */
  lemma PageDeleted(listings: seq<Cache>, i: nat, referenced: set<string>, scanStart: int, cursor: string, chunk: nat,
                    page: seq<string>, orphans: seq<string>, groups: seq<set<string>>, deletes: seq<set<string>>)
    requires i < |listings| && ListingPage(listings[i], scanStart, cursor, chunk, page)
    requires forall n :: n in orphans <==> n in page && n !in referenced
    requires forall d, n :: d in groups && n in d ==> n in orphans
    requires forall n :: n in orphans ==> exists d :: d in groups && n in d
    requires DeletesOrphans(deletes, listings, referenced, scanStart)
    requires forall n :: StaleThroughout(listings, scanStart, n) && n !in referenced && !Before(cursor, n) ==>
      Deleted(deletes, n)
    ensures DeletesOrphans(deletes + groups, listings, referenced, scanStart)
    ensures forall n :: StaleThroughout(listings, scanStart, n) && n !in referenced && Passed(page, chunk, n) ==>
      Deleted(deletes + groups, n)
  {
    forall n | StaleThroughout(listings, scanStart, n) && n !in referenced && Passed(page, chunk, n)
      ensures Deleted(deletes + groups, n)
    {
      if Before(cursor, n) {
        assert n in Stale(listings[i], scanStart);
        assert n in orphans;
        var d :| d in groups && n in d;
        assert d in deletes + groups;
      } else {
        var d :| d in deletes && n in d;
        assert d in deletes + groups;
      }
    }
  }

  /** The sweep's own deletes, in any order and with any saves since the scan started in between. */
  predicate Interleaves(events: seq<Event>, deletes: seq<set<string>>, scanStart: int) {
    forall i :: 0 <= i < |events| ==>
      match events[i] case Save(_, now) => now >= scanStart case Delete(names) => names in deletes
  }

  /** A row that stayed put in every snapshot of the scan refers to the name. */
  ghost predicate ReferredThroughout(snapshots: seq<References>, parse: Parser, n: string) {
    exists p, json :: Earlier(START, p) && n in NamesOf(json, parse)
      && forall i :: 0 <= i < |snapshots| ==> p in snapshots[i] && snapshots[i][p] == json
  }

  predicate NeverReferred(snapshots: seq<References>, parse: Parser, n: string) {
    forall i :: 0 <= i < |snapshots| ==> !RefersTo(snapshots[i], parse, n)
  }

  /** Whatever cache the run meets: a name referred to throughout, or written since the scan started, stays. */
  ghost predicate KeepsLive(snapshots: seq<References>, parse: Parser, deletes: seq<set<string>>, scanStart: int) {
    forall cache: Cache, events: seq<Event>, n: string ::
      Interleaves(events, deletes, scanStart) && n in cache
      && (ReferredThroughout(snapshots, parse, n) || cache[n] >= scanStart)
      ==> n in HappenAll(cache, events, scanStart)
  }

  /**
    pruneOrphanedAttachmentCache among other writers: every page of messages and every
    listing of the cache is read from its own snapshot, and the deletes meet whatever cache
    there then is.
   */
  method PruneAmong(snapshots: seq<References>, listings: seq<Cache>, parse: Parser, scanStart: int,
                    readChunk: nat, deleteChunk: nat)
    returns (scan: Scan, finished: bool, deletes: seq<set<string>>)
    requires readChunk > 0 && deleteChunk > 0
    ensures scan == ScanFrom(snapshots, START, readChunk, parse)
    ensures !scan.Done? ==> deletes == []
    ensures KeepsLive(snapshots, parse, deletes, scanStart)
    ensures scan.Done? && finished ==>
      forall n :: StaleThroughout(listings, scanStart, n) && NeverReferred(snapshots, parse, n) ==> Deleted(deletes, n)
  {
    scan := ScanReferences(snapshots, readChunk, parse);
    finished, deletes := false, [];
    if scan.Done? {
      finished, deletes := SweepAmong(scan.referenced, listings, scanStart, readChunk, deleteChunk);
      forall n | NeverReferred(snapshots, parse, n)
        ensures n !in scan.referenced
      {
        if n in scan.referenced {
          SeenWasReferenced(snapshots, START, readChunk, parse, n);
        }
      }
    }
    SweepKeepsLive(snapshots, listings, parse, scanStart, readChunk, deletes);
  }

  lemma SweepKeepsLive(snapshots: seq<References>, listings: seq<Cache>, parse: Parser, scanStart: int, chunk: nat,
                       deletes: seq<set<string>>)
    requires chunk > 0
    requires match ScanFrom(snapshots, START, chunk, parse)
      case Done(referenced) => DeletesOrphans(deletes, listings, referenced, scanStart)
      case _ => deletes == []
    ensures KeepsLive(snapshots, parse, deletes, scanStart)
  {
    var scan := ScanFrom(snapshots, START, chunk, parse);
    forall cache: Cache, events: seq<Event>, n: string |
        Interleaves(events, deletes, scanStart) && n in cache
        && (ReferredThroughout(snapshots, parse, n) || cache[n] >= scanStart)
      ensures n in HappenAll(cache, events, scanStart)
    {
      if scan.Done? && ReferredThroughout(snapshots, parse, n) {
        SeenThroughout(snapshots, chunk, parse, n);
      }
      var referenced := if scan.Done? then scan.referenced else {n};
      EntriesSurvive(cache, events, referenced, scanStart, n);
    }
  }

  lemma SeenThroughout(snapshots: seq<References>, chunk: nat, parse: Parser, n: string)
    requires chunk > 0 && ReferredThroughout(snapshots, parse, n) && ScanFrom(snapshots, START, chunk, parse).Done?
    ensures n in ScanFrom(snapshots, START, chunk, parse).referenced
  {
    var p, json :| Earlier(START, p) && n in NamesOf(json, parse)
      && forall i :: 0 <= i < |snapshots| ==> p in snapshots[i] && snapshots[i][p] == json;
    StableRowIsSeen(snapshots, START, chunk, parse, p, json);
  }

  /** And garbage goes: a stale entry that no snapshot referred to is swept, whatever changed meanwhile. */
  lemma NeverReferencedIsSwept(snapshots: seq<References>, chunk: nat, parse: Parser, cache: Cache, scanStart: int,
                               n: string)
    requires chunk > 0 && ScanFrom(snapshots, START, chunk, parse).Done?
    requires n in cache && n != "" && cache[n] < scanStart
    requires forall i :: 0 <= i < |snapshots| ==> !RefersTo(snapshots[i], parse, n)
    ensures n !in Swept(cache, ScanFrom(snapshots, START, chunk, parse).referenced, scanStart)
  {
    if n in ScanFrom(snapshots, START, chunk, parse).referenced {
      SeenWasReferenced(snapshots, START, chunk, parse, n);
    }
  }
}
