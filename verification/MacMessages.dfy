/**
  The chat.db queries: newest-first order, limits and keyset cursors over the rows of
  each chat, and the probe for backfillable content. Times are Unix nanoseconds; the
  queries shift them by the constant Apple epoch, which changes no comparison.
 */
module MacMessages {
  import opened Keyset

  /** Position of a chat.db message: its date and ROWID. */
  datatype Pos = Pos(time: int, rowId: int)

  /** ORDER BY message.date DESC, message.ROWID DESC. */
  predicate Newer(a: Pos, b: Pos) {
    a.time > b.time || (a.time == b.time && a.rowId > b.rowId)
  }

  lemma NewerIsStrictTotal()
    ensures StrictTotal(Newer)
  {}

  type Table = map<string, set<Pos>>

  function RowsOf(db: Table, guid: string): set<Pos> {
    if guid in db then db[guid] else {}
  }

  function OlderThan(db: Table, guid: string, anchor: int): set<Pos> {
    set p | p in RowsOf(db, guid) && p.time < anchor
  }

  /** GetMessagesBeforeWithLimit. */
  function BeforeWithLimit(db: Table, guid: string, anchor: int, limit: nat): seq<Pos> {
    NewerIsStrictTotal();
    Page(Newer, OlderThan(db, guid, anchor), limit)
  }

  /** GetMessagesBeforeCursor: strictly older than the position. */
  function BeforeCursor(db: Table, guid: string, c: Pos, limit: nat): seq<Pos> {
    NewerIsStrictTotal();
    Page(Newer, Past(Newer, RowsOf(db, guid), c), limit)
  }

  /** Everything a chat has before the anchor, newest first. */
  function History(db: Table, guid: string, anchor: int): seq<Pos> {
    NewerIsStrictTotal();
    Sorted(Newer, OlderThan(db, guid, anchor))
  }

  function Clip(n: nat, size: nat): nat {
    if n < size then n else size
  }

  /** At most count entries of h, after the first seen. */
  function Slice(h: seq<Pos>, seen: nat, count: nat): seq<Pos> {
    h[Clip(seen, |h|)..Clip(seen + count, |h|)]
  }

  /** The history is exactly the older rows, each once, strictly newest first. */
  lemma HistoryIsComplete(db: Table, g: string, anchor: int)
    ensures var h := History(db, g, anchor);
      && (forall p :: p in h <==> p in RowsOf(db, g) && p.time < anchor)
      && (forall i, j :: 0 <= i < j < |h| ==>
            h[i].time > h[j].time || (h[i].time == h[j].time && h[i].rowId > h[j].rowId))
  {
    NewerIsStrictTotal();
    SortedMembers(Newer, OlderThan(db, g, anchor));
    SortedAscends(Newer, OlderThan(db, g, anchor));
  }

  lemma LimitIsFirstSlice(db: Table, g: string, anchor: int, n: nat)
    ensures BeforeWithLimit(db, g, anchor, n) == Slice(History(db, g, anchor), 0, n)
  {
    NewerIsStrictTotal();
    PageIsPrefix(Newer, OlderThan(db, g, anchor), n);
  }

  /** Resuming from the k-th row of the history gives the slice after it. */
  lemma CursorIsNextSlice(db: Table, g: string, anchor: int, k: nat, n: nat)
    requires 0 < k <= |History(db, g, anchor)|
    ensures BeforeCursor(db, g, History(db, g, anchor)[k - 1], n) == Slice(History(db, g, anchor), k, n)
  {
    NewerIsStrictTotal();
    var rows, h := OlderThan(db, g, anchor), History(db, g, anchor);
    SortedMembers(Newer, rows);
    var c := h[k - 1];
    assert c in h;
    assert Past(Newer, RowsOf(db, g), c) == Past(Newer, rows, c);
    NextSlice(Newer, rows, k, n);
  }

  // ---- Probing for backfillable content ----------------------------------------------

  const MAX_INT := 0x7FFF_FFFF_FFFF_FFFF
  const PROBE_PAGE := 500

  /** hasBackfillableMessage. */
  method AnyBackfillable(page: seq<Pos>, canBackfill: Pos -> bool) returns (found: bool)
    ensures found <==> exists p :: p in page && canBackfill(p)
  {
    for i := 0 to |page|
      invariant forall p :: p in page[..i] ==> !canBackfill(p)
    {
      if canBackfill(page[i]) {
        return true;
      }
      assert page[..i + 1] == page[..i] + [page[i]];
    }
    assert page[..|page|] == page;
    found := false;
  }

  /** Pages until one holds a backfillable message: the answer covers every row past the start. */
  method ProbePages(rows: set<Pos>, start: Pos, pageSize: nat, canBackfill: Pos -> bool) returns (found: bool)
    requires pageSize > 0
    ensures found <==> exists p :: p in rows && Newer(start, p) && canBackfill(p)
  {
    NewerIsStrictTotal();
    var at := start;
    while true
      invariant at == start || Newer(start, at)
      invariant forall p :: p in rows && Newer(start, p) && canBackfill(p) ==> Newer(at, p)
      decreases |Past(Newer, rows, at)|
    {
      var page := Page(Newer, Past(Newer, rows, at), pageSize);
      PageSound(Newer, rows, at, pageSize);
      found := AnyBackfillable(page, canBackfill);
      if found {
        return;
      }
      forall p | p in rows && Newer(at, p)
        ensures p in page || (|page| == pageSize && Newer(page[pageSize - 1], p))
      {
        PageReaches(Newer, rows, at, pageSize, p);
      }
      if |page| < pageSize {
        return;
      }
      PageAdvances(Newer, rows, at, pageSize);
      at := page[pageSize - 1];
    }
  }

  /**
    The uncapped probe of hasDecodedBackfillableMessagesBefore. It starts at the bound
    with the largest row id, so its answer covers every row at or before the bound, save
    one at the bound that has that very row id.
   */
  method HasBackfillableBefore(rows: set<Pos>, before: int, canBackfill: Pos -> bool) returns (found: bool)
    ensures found <==> exists p :: p in rows && AtOrBefore(p, before) && canBackfill(p)
  {
    found := ProbePages(rows, Pos(before, MAX_INT), PROBE_PAGE, canBackfill);
    assert forall p :: p in rows ==> (Newer(Pos(before, MAX_INT), p) <==> AtOrBefore(p, before));
  }

  predicate AtOrBefore(p: Pos, before: int) {
    p.time < before || (p.time == before && p.rowId < MAX_INT)
  }
}
