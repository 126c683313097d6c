/**
  Backward backfill from chat.db: per-GUID keyset cursors, exhausted GUIDs, and the
  session that follows the cursor until it is empty.
 */
module ChatDbPaging {
  import opened MacMessages
  import Keyset

  /** The part of imessage.API that backward paging uses. */
  datatype Api = Api(beforeLimit: (string, int, nat) -> seq<Pos>, beforeCursor: (string, Pos, nat) -> seq<Pos>)

  type Cursor = map<string, Pos>
  type Histories = map<string, seq<Pos>>

  /** decodeChatDBBackfillCursor on a per-GUID cursor: entries at time zero are dropped. */
  function Decode(cursor: Cursor): Cursor {
    map g | g in cursor && cursor[g].time != 0 :: cursor[g]
  }

  /** The page of one GUID: resume, anchored start, or nothing once exhausted. */
  function GuidPage(api: Api, guid: string, anchor: int, times: Cursor, count: nat): seq<Pos> {
    if guid in times then api.beforeCursor(guid, times[guid], count)
    else if times != map[] then []
    else api.beforeLimit(guid, anchor, count)
  }

  /** The oldest message of a page, found by scanning it. */
  method OldestOf(page: seq<Pos>) returns (oldest: Pos)
    requires page != []
    ensures oldest in page && forall p :: p in page ==> p == oldest || Newer(p, oldest)
  {
    oldest := page[0];
    for i := 1 to |page|
      invariant oldest in page[..i]
      invariant forall p :: p in page[..i] ==> p == oldest || Newer(p, oldest)
    {
      var msg := page[i];
      assert page[..i + 1] == page[..i] + [msg];
      if msg.time < oldest.time || (msg.time == oldest.time && msg.rowId < oldest.rowId) {
        oldest := msg;
      }
    }
    assert page[..|page|] == page;
  }

  /** One anchored backward session: the API, its chats, the anchor and the page size. */
  datatype Query = Query(api: Api, guids: set<string>, anchor: int, count: nat)

  function PageOf(q: Query, times: Cursor, g: string): seq<Pos> {
    GuidPage(q.api, g, q.anchor, times, q.count)
  }

  /** Pages come newest first. */
  ghost predicate Descends(page: seq<Pos>) {
    forall i, j :: 0 <= i < j < |page| ==> Newer(page[i], page[j])
  }

  /** One fetch: the page of every GUID from the decoded cursor. */
  function PagesFrom(q: Query, times: Cursor): map<string, seq<Pos>> {
    map g | g in q.guids :: PageOf(q, times, g)
  }

  /** A GUID stays in the cursor, at its oldest message, when its page was full. */
  function NextCursor(pages: map<string, seq<Pos>>, count: nat): Cursor
    requires count > 0
  {
    map g | g in pages && |pages[g]| >= count :: pages[g][|pages[g]| - 1]
  }

  /** encodeChatDBBackfillCursor. */
  method EncodeCursor(pages: map<string, seq<Pos>>, guids: seq<string>, count: nat) returns (next: Cursor)
    requires count > 0 && pages.Keys == set g | g in guids
    requires forall g :: g in pages ==> Descends(pages[g])
    ensures next == NextCursor(pages, count)
  {
    next := map[];
    for i := 0 to |guids|
      invariant forall g :: g in next <==> g in guids[..i] && |pages[g]| >= count
      invariant forall g :: g in next ==> next[g] == pages[g][|pages[g]| - 1]
    {
      var g := guids[i];
      assert guids[..i + 1] == guids[..i] + [g];
      if |pages[g]| >= count {
        var oldest := OldestOf(pages[g]);
        assert pages[g][|pages[g]| - 1] in pages[g];
        next := next[g := oldest];
      }
    }
    assert guids[..|guids|] == guids;
  }

  /** The paging part of FetchMessages for a backward request with an anchor. */
  method FetchPage(q: Query, guids: seq<string>, cursor: Cursor)
    returns (pages: map<string, seq<Pos>>, next: Cursor)
    requires q.count > 0 && q.guids == set g | g in guids
    requires forall g :: g in q.guids ==> Descends(PageOf(q, Decode(cursor), g))
    ensures pages == PagesFrom(q, Decode(cursor))
    ensures next == NextCursor(pages, q.count)
  {
    var times := Decode(cursor);
    pages := map[];
    for i := 0 to |guids|
      invariant forall g :: g in pages <==> g in guids[..i]
      invariant forall g :: g in pages ==> pages[g] == PageOf(q, times, g)
    {
      assert guids[..i + 1] == guids[..i] + [guids[i]];
      pages := pages[guids[i] := PageOf(q, times, guids[i])];
    }
    assert guids[..|guids|] == guids;
    next := EncodeCursor(pages, guids, q.count);
  }

  // ---- Where a session stands ---------------------------------------------------------

  /** The API answers for one chat with slices of a fixed history, newest first. */
  ghost predicate ServesChat(api: Api, anchor: int, g: string, h: seq<Pos>) {
    && (forall n: nat :: api.beforeLimit(g, anchor, n) == Slice(h, 0, n))
    && (forall k: nat, n: nat :: 0 < k <= |h| ==> api.beforeCursor(g, h[k - 1], n) == Slice(h, k, n))
    && Descends(h)
  }

  ghost predicate Serves(q: Query, hist: Histories) {
    && hist.Keys == q.guids
    && forall g :: g in hist ==> ServesChat(q.api, q.anchor, g, hist[g])
  }

  /** The cursor after every GUID has been asked for its first seen messages. */
  function CursorAt(hist: Histories, seen: nat): Cursor {
    if seen == 0 then map[]
    else map g | g in hist && |hist[g]| >= seen :: hist[g][seen - 1]
  }

  /** Decoded cursor entries from which one chat resumes after its first seen messages. */
  predicate ResumesAt(times: Cursor, g: string, h: seq<Pos>, seen: nat) {
    if g in times then 0 < seen <= |h| && times[g] == h[seen - 1]
    else if times == map[] then seen == 0
    else |h| <= seen
  }

  lemma PageIsSlice(q: Query, times: Cursor, g: string, h: seq<Pos>, seen: nat)
    requires ServesChat(q.api, q.anchor, g, h) && ResumesAt(times, g, h, seen)
    ensures PageOf(q, times, g) == Slice(h, seen, q.count)
  {}

  /**
    The cursor survives its encoding: the encoding drops entries at the Unix epoch, so
    some entry must lie elsewhere, and any dropped one must be the end of its history.
   */
  ghost predicate Survives(hist: Histories, seen: nat) {
    && seen > 0
    && (exists g :: g in hist && |hist[g]| >= seen && hist[g][seen - 1].time != 0)
    && (forall g :: g in hist && |hist[g]| > seen ==> hist[g][seen - 1].time != 0)
  }

  lemma SurvivorsResume(hist: Histories, seen: nat, g: string)
    requires g in hist && (seen == 0 || Survives(hist, seen))
    ensures ResumesAt(Decode(CursorAt(hist, seen)), g, hist[g], seen)
  {
    if seen > 0 {
      var h :| h in hist && |hist[h]| >= seen && hist[h][seen - 1].time != 0;
      assert h in Decode(CursorAt(hist, seen));
    }
  }

  lemma PageAtStanding(q: Query, hist: Histories, seen: nat, times: Cursor, g: string)
    requires Serves(q, hist) && g in hist && (seen == 0 || Survives(hist, seen))
    requires times == Decode(CursorAt(hist, seen))
    ensures PageOf(q, times, g) == Slice(hist[g], seen, q.count)
  {
    SurvivorsResume(hist, seen, g);
    PageIsSlice(q, times, g, hist[g], seen);
  }

  /** From a surviving cursor every chat gives its next slice. */
  lemma PagesAreSlices(q: Query, hist: Histories, seen: nat, times: Cursor)
    requires Serves(q, hist) && (seen == 0 || Survives(hist, seen))
    requires times == Decode(CursorAt(hist, seen))
    ensures PagesFrom(q, times) == Slices(hist, seen, q.count)
    ensures forall g :: g in hist ==> PageOf(q, times, g) == Slice(hist[g], seen, q.count)
  {
    forall g | g in hist
      ensures PageOf(q, times, g) == Slice(hist[g], seen, q.count)
    {
      PageAtStanding(q, hist, seen, times, g);
    }
  }

  function Slices(hist: Histories, seen: nat, count: nat): map<string, seq<Pos>> {
    map g | g in hist :: Slice(hist[g], seen, count)
  }

  /** Full slices leave the cursor one page further on. */
  lemma SlicesAdvance(hist: Histories, seen: nat, count: nat)
    requires count > 0 && forall g :: g in hist ==> Descends(hist[g])
    ensures NextCursor(Slices(hist, seen, count), count) == CursorAt(hist, seen + count)
  {
    var next, at := NextCursor(Slices(hist, seen, count), count), CursorAt(hist, seen + count);
    forall g | g in hist
      ensures g in next <==> g in at
      ensures g in next ==> next[g] == at[g]
    {}
  }

  // ---- A whole session ------------------------------------------------------------------

  /**
    A session by its decoded cursors: where it starts, the cursor after a fetch, whether
    that fetch reported an empty cursor, and the page it gave each GUID.
   */
  datatype Session<!S> = Session(start: S, step: S -> S, done: S -> bool, page: (S, string) -> seq<Pos>)

  function At<S>(x: Session<S>, n: nat): S {
    if n == 0 then x.start else x.step(At(x, n - 1))
  }

  function Delivered<S>(x: Session<S>, n: nat, g: string): seq<Pos> {
    if n == 0 then [] else Delivered(x, n - 1, g) + x.page(At(x, n - 1), g)
  }

  /** The n-th fetch is the first to report an empty cursor. */
  ghost predicate Ends<S>(x: Session<S>, n: nat) {
    n > 0 && x.done(At(x, n - 1)) && forall i: nat :: i < n - 1 ==> !x.done(At(x, i))
  }

  lemma {:induction false} Repeats<S>(x: Session<S>, m: nat, i: nat)
    requires At(x, m) == x.start
    ensures At(x, m + i) == At(x, i)
  {
    if i > 0 {
      Repeats(x, m, i - 1);
    }
  }

  /** A session back at its start never ends. */
  lemma NoRestartBeforeEnd<S>(x: Session<S>, n: nat, m: nat)
    requires Ends(x, n) && 0 < m < n
    ensures At(x, m) != x.start
  {
    if At(x, m) == x.start {
      Repeats(x, m, n - 1 - m);
    }
  }

  /** A GUID for which the cursor has no entry gives nothing and gets none, except at the start. */
  ghost predicate Skips<S(!new)>(x: Session<S>, absent: (S, string) -> bool, g: string) {
    forall s :: s != x.start && absent(s, g) ==> x.page(s, g) == [] && absent(x.step(s), g)
  }

  lemma {:induction false} LostStaysLost<S(!new)>(x: Session<S>, absent: (S, string) -> bool, g: string,
                                                  m: nat, n: nat, stop: nat)
    requires Skips(x, absent, g) && Ends(x, stop) && 0 < m <= n <= stop && absent(At(x, m), g)
    ensures absent(At(x, n), g) && Delivered(x, n, g) == Delivered(x, m, g)
  {
    if m < n {
      LostStaysLost(x, absent, g, m, n - 1, stop);
      NoRestartBeforeEnd(x, stop, n - 1);
    }
  }

  function Seen(count: nat, fetches: nat): nat {
    if fetches == 0 then 0 else Seen(count, fetches - 1) + count
  }

  lemma {:induction false} SeenGrows(count: nat, i: nat, j: nat)
    requires count > 0 && i <= j
    ensures Seen(count, i) <= Seen(count, j) && i <= Seen(count, i)
  {
    if i < j {
      SeenGrows(count, i, j - 1);
    } else if i > 0 {
      SeenGrows(count, i - 1, i - 1);
    }
  }

  /**
    What is known of the cursor once k rows of every GUID have been seen: its decoded
    form, whether that still resumes every GUID, and whether the cursor was empty.
   */
  datatype Course<!S> = Course(standing: nat -> S, good: nat -> bool, last: nat -> bool)

  /** From a good standing a fetch moves on by one page. */
  ghost predicate StepsOn<S>(x: Session<S>, c: Course<S>, count: nat, k: nat) {
    && x.step(c.standing(k)) == c.standing(k + count)
    && (x.done(c.standing(k)) <==> c.last(k + count))
  }

  ghost predicate GivesSlices<S>(x: Session<S>, c: Course<S>, hist: Histories, count: nat, k: nat) {
    forall g :: g in hist ==> x.page(c.standing(k), g) == Slice(hist[g], k, count)
  }

  ghost predicate Tracks<S(!new)>(x: Session<S>, c: Course<S>, hist: Histories, count: nat) {
    && x.start == c.standing(0)
    && forall k: nat :: k == 0 || c.good(k) ==> StepsOn(x, c, count, k) && GivesSlices(x, c, hist, count, k)
  }

  lemma WalksAt<S(!new)>(x: Session<S>, c: Course<S>, hist: Histories, count: nat, n: nat)
    requires count > 0 && Tracks(x, c, hist, count)
    requires forall i: nat :: 0 < i < n ==> c.good(Seen(count, i))
    ensures At(x, n) == c.standing(Seen(count, n))
  {
    if n > 0 {
      WalksAt(x, c, hist, count, n - 1);
      assert StepsOn(x, c, count, Seen(count, n - 1));
    }
  }

  lemma StandingPage<S(!new)>(x: Session<S>, c: Course<S>, hist: Histories, count: nat, k: nat,
                                                 g: string)
    requires Tracks(x, c, hist, count) && g in hist && (k == 0 || c.good(k))
    ensures x.page(c.standing(k), g) == Slice(hist[g], k, count)
  {
    assert GivesSlices(x, c, hist, count, k);
  }

  lemma {:induction false} SlicesAddUp<S(!new)>(x: Session<S>, h: seq<Pos>, count: nat, n: nat, g: string)
    requires forall m: nat :: m < n ==> x.page(At(x, m), g) == Slice(h, Seen(count, m), count)
    ensures Delivered(x, n, g) == Slice(h, 0, Seen(count, n))
  {
    if n > 0 {
      SlicesAddUp(x, h, count, n - 1, g);
    }
  }

  lemma WalksHistory<S(!new)>(x: Session<S>, c: Course<S>, hist: Histories, count: nat, n: nat,
                                                 g: string)
    requires count > 0 && Tracks(x, c, hist, count) && g in hist
    requires forall i: nat :: 0 < i < n ==> c.good(Seen(count, i))
    ensures Delivered(x, n, g) == Slice(hist[g], 0, Seen(count, n))
  {
    forall m: nat | m < n
      ensures x.page(At(x, m), g) == Slice(hist[g], Seen(count, m), count)
    {
      WalksAt(x, c, hist, count, m);
      StandingPage(x, c, hist, count, Seen(count, m), g);
    }
    SlicesAddUp(x, hist[g], count, n, g);
  }

  /** While the standing is good, a session walks every history in step. */
  lemma Walks<S(!new)>(x: Session<S>, c: Course<S>, hist: Histories, count: nat, n: nat)
    requires count > 0 && Tracks(x, c, hist, count)
    requires forall i: nat :: 0 < i < n ==> c.good(Seen(count, i))
    ensures At(x, n) == c.standing(Seen(count, n))
    ensures n > 0 ==> (x.done(At(x, n - 1)) <==> c.last(Seen(count, n)))
    ensures forall g :: g in hist ==> Delivered(x, n, g) == Slice(hist[g], 0, Seen(count, n))
  {
    WalksAt(x, c, hist, count, n);
    if n > 0 {
      WalksAt(x, c, hist, count, n - 1);
      assert StepsOn(x, c, count, Seen(count, n - 1));
    }
    forall g | g in hist
      ensures Delivered(x, n, g) == Slice(hist[g], 0, Seen(count, n))
    {
      WalksHistory(x, c, hist, count, n, g);
    }
  }

  /** The session ends, and every GUID has then delivered exactly its history. */
  ghost predicate Completes<S>(x: Session<S>, hist: Histories, n: nat) {
    Ends(x, n) && forall g :: g in hist ==> Delivered(x, n, g) == hist[g]
  }

  /** Every non-empty cursor on the way is good. */
  ghost predicate StaysGood<S>(c: Course<S>, count: nat) {
    forall i: nat :: i > 0 && !c.last(Seen(count, i)) ==> c.good(Seen(count, i))
  }

  /** The cursor is empty exactly when every history is shorter. */
  ghost predicate LastMeansShorter<S>(c: Course<S>, hist: Histories) {
    forall k: nat :: k > 0 ==> (c.last(k) <==> forall g :: g in hist ==> |hist[g]| < k)
  }

  /** The first fetch after which a property of the rows seen holds. */
  lemma {:induction false} FirstAt(count: nat, p: nat -> bool, n: nat) returns (first: nat)
    requires n > 0 && p(Seen(count, n))
    ensures 0 < first <= n && p(Seen(count, first))
    ensures forall i: nat :: 0 < i < first ==> !p(Seen(count, i))
  {
    if i: nat :| 0 < i < n && p(Seen(count, i)) {
      first := FirstAt(count, p, i);
    } else {
      first := n;
    }
  }

  lemma GoodCompletes<S(!new)>(x: Session<S>, c: Course<S>, hist: Histories, count: nat, longest: nat) returns (n: nat)
    requires count > 0 && Tracks(x, c, hist, count) && LastMeansShorter(c, hist) && StaysGood(c, count)
    requires forall g :: g in hist ==> |hist[g]| <= longest
    ensures Completes(x, hist, n) && n <= longest + 1
  {
    SeenGrows(count, longest + 1, longest + 1);
    n := FirstAt(count, c.last, longest + 1);
    assert forall i: nat :: 0 < i < n ==> c.good(Seen(count, i));
    EndsAtLast(x, c, hist, count, n);
    DeliversAllAtLast(x, c, hist, count, n);
  }

  lemma DeliversAllAtLast<S(!new)>(x: Session<S>, c: Course<S>, hist: Histories, count: nat, n: nat)
    requires count > 0 && n > 0 && Tracks(x, c, hist, count) && LastMeansShorter(c, hist)
    requires forall i: nat :: 0 < i < n ==> c.good(Seen(count, i))
    requires c.last(Seen(count, n))
    ensures forall g :: g in hist ==> Delivered(x, n, g) == hist[g]
  {
    SeenGrows(count, n, n);
    Walks(x, c, hist, count, n);
  }

  lemma EndsAtLast<S(!new)>(x: Session<S>, c: Course<S>, hist: Histories, count: nat, n: nat)
    requires count > 0 && n > 0 && Tracks(x, c, hist, count)
    requires forall i: nat :: 0 < i < n ==> c.good(Seen(count, i)) && !c.last(Seen(count, i))
    requires c.last(Seen(count, n))
    ensures Ends(x, n)
  {
    forall i: nat | i < n
      ensures x.done(At(x, i)) <==> i == n - 1
    {
      Walks(x, c, hist, count, i + 1);
    }
  }

  /** A cursor that is neither empty nor good is back at the start or has lost a GUID with rows left. */
  ghost predicate BadLoses<S(!new)>(x: Session<S>, c: Course<S>, absent: (S, string) -> bool, hist: Histories) {
    forall k: nat :: k > 0 && !c.last(k) && !c.good(k) && c.standing(k) != x.start ==>
      exists g :: g in hist && |hist[g]| > k && absent(c.standing(k), g)
  }

  lemma CompleteMeansGood<S(!new)>(x: Session<S>, c: Course<S>, absent: (S, string) -> bool,
                                   hist: Histories, count: nat, n: nat)
    requires count > 0 && Tracks(x, c, hist, count) && LastMeansShorter(c, hist)
    requires BadLoses(x, c, absent, hist)
    requires forall g :: g in hist ==> Skips(x, absent, g)
    requires Completes(x, hist, n)
    ensures StaysGood(c, count)
  {
    if j: nat :| j > 0 && !c.last(Seen(count, j)) && !c.good(Seen(count, j)) {
      var bad := (k: nat) => !c.last(k) && !c.good(k);
      var i := FirstAt(count, bad, j);
      var k := Seen(count, i);
      SeenGrows(count, i, i);
      NotLastBefore(c, hist, count, i);
      StillRunning(x, c, hist, count, i, n);
      Walks(x, c, hist, count, i);
      NoRestartBeforeEnd(x, n, i);
      var g :| g in hist && |hist[g]| > k && absent(c.standing(k), g);
      LostStaysLost(x, absent, g, i, n, n);
    }
  }

  lemma StillRunning<S(!new)>(x: Session<S>, c: Course<S>, hist: Histories, count: nat, i: nat, n: nat)
    requires count > 0 && Tracks(x, c, hist, count) && Ends(x, n)
    requires forall m: nat :: 0 < m < i ==> c.good(Seen(count, m))
    requires forall m: nat :: 0 < m <= i ==> !c.last(Seen(count, m))
    ensures i < n
  {
    if n <= i {
      Walks(x, c, hist, count, n);
    }
  }

  lemma NotLastBefore<S>(c: Course<S>, hist: Histories, count: nat, i: nat)
    requires count > 0 && i > 0 && LastMeansShorter(c, hist) && !c.last(Seen(count, i))
    ensures forall m: nat :: 0 < m <= i ==> !c.last(Seen(count, m))
  {
    SeenGrows(count, i, i);
    var g :| g in hist && |hist[g]| >= Seen(count, i);
    forall m: nat | 0 < m <= i
      ensures !c.last(Seen(count, m))
    {
      SeenGrows(count, m, i);
    }
  }

  // ---- The backfill session ---------------------------------------------------------------

  /** A session over decoded cursors, from the cursor and pages that a fetch reports. */
  function SessionOf(next: Cursor -> Cursor, page: (Cursor, string) -> seq<Pos>): Session<Cursor> {
    Session(map[], times => Decode(next(times)), times => next(times) == map[], page)
  }

  function BackfillSession(q: Query): Session<Cursor>
    requires q.count > 0
  {
    SessionOf(times => CursorFrom(q, times), (times, g) => PageOf(q, times, g))
  }

  ghost function BackfillCourse(hist: Histories): Course<Cursor> {
    Course((k: nat) => Decode(CursorAt(hist, k)), (k: nat) => Survives(hist, k), (k: nat) => CursorAt(hist, k) == map[])
  }

  /** The cursor that a fetch from the decoded cursor reports. */
  function CursorFrom(q: Query, times: Cursor): Cursor
    requires q.count > 0
  {
    NextCursor(PagesFrom(q, times), q.count)
  }

  lemma CursorAdvances(q: Query, hist: Histories, k: nat, times: Cursor)
    requires q.count > 0 && Serves(q, hist) && (k == 0 || Survives(hist, k))
    requires times == Decode(CursorAt(hist, k))
    ensures CursorFrom(q, times) == CursorAt(hist, k + q.count)
  {
    PagesAreSlices(q, hist, k, times);
    SlicesAdvance(hist, k, q.count);
  }

  lemma BackfillSteps(next: Cursor -> Cursor, page: (Cursor, string) -> seq<Pos>, hist: Histories, count: nat, k: nat)
    requires next(Decode(CursorAt(hist, k))) == CursorAt(hist, k + count)
    ensures StepsOn(SessionOf(next, page), BackfillCourse(hist), count, k)
  {}

  lemma BackfillSlices(q: Query, hist: Histories, k: nat)
    requires q.count > 0 && Serves(q, hist) && (k == 0 || Survives(hist, k))
    ensures GivesSlices(BackfillSession(q), BackfillCourse(hist), hist, q.count, k)
  {
    PagesAreSlices(q, hist, k, Decode(CursorAt(hist, k)));
  }

  lemma BackfillTracks(q: Query, hist: Histories)
    requires q.count > 0 && Serves(q, hist)
    ensures Tracks(BackfillSession(q), BackfillCourse(hist), hist, q.count)
  {
    var x, c := BackfillSession(q), BackfillCourse(hist);
    forall k: nat | k == 0 || c.good(k)
      ensures StepsOn(x, c, q.count, k) && GivesSlices(x, c, hist, q.count, k)
    {
      CursorAdvances(q, hist, k, c.standing(k));
      BackfillSteps(times => CursorFrom(q, times), (times, g) => PageOf(q, times, g), hist, q.count, k);
      BackfillSlices(q, hist, k);
    }
  }

  lemma CursorIsLast(hist: Histories)
    ensures LastMeansShorter(BackfillCourse(hist), hist)
  {
    forall k: nat | k > 0
      ensures CursorAt(hist, k) == map[] <==> forall g :: g in hist ==> |hist[g]| < k
    {
      if g :| g in hist && |hist[g]| >= k {
        assert g in CursorAt(hist, k);
      }
    }
  }

  /** A cursor that does not survive, yet decodes to something, has lost a GUID with rows left. */
  lemma DroppedLoses(hist: Histories, k: nat)
    requires k > 0 && !Survives(hist, k) && Decode(CursorAt(hist, k)) != map[]
    ensures exists g :: g in hist && |hist[g]| > k && g !in Decode(CursorAt(hist, k))
  {
    var times := Decode(CursorAt(hist, k));
    var h :| h in times;
    assert h in hist && |hist[h]| >= k && hist[h][k - 1].time != 0;
    var g :| g in hist && |hist[g]| > k && hist[g][k - 1].time == 0;
    assert g !in times;
  }

  lemma BackfillLoses(q: Query, hist: Histories)
    requires q.count > 0
    ensures BadLoses(BackfillSession(q), BackfillCourse(hist), AbsentFrom, hist)
  {
    var x, c := BackfillSession(q), BackfillCourse(hist);
    forall k: nat | k > 0 && !c.good(k) && c.standing(k) != x.start
      ensures exists g :: g in hist && |hist[g]| > k && AbsentFrom(c.standing(k), g)
    {
      DroppedLoses(hist, k);
      var g :| g in hist && |hist[g]| > k && g !in Decode(CursorAt(hist, k));
      assert AbsentFrom(c.standing(k), g);
    }
  }

  predicate AbsentFrom(times: Cursor, g: string) {
    g !in times
  }

  lemma AbsentSkips(q: Query, g: string)
    requires q.count > 0
    ensures Skips(BackfillSession(q), AbsentFrom, g)
  {
    forall s: Cursor | s != map[] && g !in s
      ensures PageOf(q, s, g) == [] && g !in Decode(CursorFrom(q, s))
    {
      AbsentGivesNothing(q, s, g);
    }
  }

  lemma AbsentGivesNothing(q: Query, times: Cursor, g: string)
    requires q.count > 0 && times != map[] && g !in times
    ensures PageOf(q, times, g) == [] && g !in Decode(CursorFrom(q, times))
  {}

  /** Every non-empty cursor that a session of this page size reaches survives its encoding. */
  ghost predicate Resumable(hist: Histories, count: nat) {
    StaysGood(BackfillCourse(hist), count)
  }

  ghost predicate CompletesWithin<S>(x: Session<S>, hist: Histories, fetches: nat) {
    exists n: nat :: n <= fetches && Completes(x, hist, n)
  }

  lemma CompletesExactlyWhenGood<S(!new)>(x: Session<S>, c: Course<S>, absent: (S, string) -> bool,
                                          hist: Histories, count: nat, longest: nat)
    requires count > 0 && Tracks(x, c, hist, count) && LastMeansShorter(c, hist)
    requires BadLoses(x, c, absent, hist)
    requires forall g :: g in hist ==> Skips(x, absent, g)
    requires forall g :: g in hist ==> |hist[g]| <= longest
    ensures StaysGood(c, count) ==> CompletesWithin(x, hist, longest + 1)
    ensures forall n: nat :: Completes(x, hist, n) ==> StaysGood(c, count)
  {
    if StaysGood(c, count) {
      var n := GoodCompletes(x, c, hist, count, longest);
    }
    if n: nat :| Completes(x, hist, n) {
      CompleteMeansGood(x, c, absent, hist, count, n);
    }
  }

  /**
    An anchored backward session ends with every GUID's exact history delivered if and
    only if every page boundary survives the cursor encoding. It then needs at most one
    fetch more than the longest history has rows.
   */
  lemma SessionCompletesExactly(q: Query, hist: Histories, longest: nat)
    requires q.count > 0 && Serves(q, hist)
    requires forall g :: g in hist ==> |hist[g]| <= longest
    ensures Resumable(hist, q.count) ==> CompletesWithin(BackfillSession(q), hist, longest + 1)
    ensures forall n: nat :: Completes(BackfillSession(q), hist, n) ==> Resumable(hist, q.count)
  {
    BackfillTracks(q, hist);
    CursorIsLast(hist);
    BackfillLoses(q, hist);
    forall g | g in hist
      ensures Skips(BackfillSession(q), AbsentFrom, g)
    {
      AbsentSkips(q, g);
    }
    CompletesExactlyWhenGood(BackfillSession(q), BackfillCourse(hist), AbsentFrom, hist, q.count, longest);
  }

  /**
    A GUID that has left the decoded cursor stays out of it and delivers nothing more,
    up to the end of the session, whatever the data and whatever the API answers.
   */
  lemma ExhaustedStaysExhausted(q: Query, g: string, m: nat, n: nat, stop: nat)
    requires q.count > 0 && Ends(BackfillSession(q), stop) && 0 < m <= n <= stop
    requires g !in At(BackfillSession(q), m)
    ensures g !in At(BackfillSession(q), n)
    ensures Delivered(BackfillSession(q), n, g) == Delivered(BackfillSession(q), m, g)
  {
    AbsentSkips(q, g);
    LostStaysLost(BackfillSession(q), AbsentFrom, g, m, n, stop);
  }

  /** Two messages newest first, the newer at the epoch, one per page: the session never completes. */
  lemma EpochRowRestarts(q: Query, p: Pos, older: Pos, n: nat)
    requires q.count == 1 && p.time == 0 && Serves(q, map["chat" := [p, older]])
    ensures Decode(CursorAt(map["chat" := [p, older]], 1)) == map[]
    ensures !Completes(BackfillSession(q), map["chat" := [p, older]], n)
  {
    var hist: Histories := map["chat" := [p, older]];
    assert Seen(1, 0) == 0;
    assert Seen(1, 1) == 1;
    assert hist["chat"][0].time == 0;
    assert !Survives(hist, 1);
    assert "chat" in CursorAt(hist, 1);
    var c := BackfillCourse(hist);
    assert !c.last(Seen(1, 1)) && !c.good(Seen(1, 1));
    SessionCompletesExactly(q, hist, 2);
  }

  // ---- Against the chat.db queries ---------------------------------------------------------

  function SqlApi(db: Table): Api {
    Api((g: string, anchor: int, n: nat) => BeforeWithLimit(db, g, anchor, n),
        (g: string, c: Pos, n: nat) => BeforeCursor(db, g, c, n))
  }

  function AllHistories(db: Table, guids: set<string>, anchor: int): Histories {
    map g | g in guids :: History(db, g, anchor)
  }

  lemma QueriesServeHistory(db: Table, g: string, anchor: int)
    ensures ServesChat(SqlApi(db), anchor, g, History(db, g, anchor))
  {
    var api, h := SqlApi(db), History(db, g, anchor);
    forall n: nat
      ensures api.beforeLimit(g, anchor, n) == Slice(h, 0, n)
    {
      LimitIsFirstSlice(db, g, anchor, n);
    }
    forall k: nat, n: nat | 0 < k <= |h|
      ensures api.beforeCursor(g, h[k - 1], n) == Slice(h, k, n)
    {
      CursorIsNextSlice(db, g, anchor, k, n);
    }
    HistoryIsComplete(db, g, anchor);
  }

  lemma QueriesServe(db: Table, guids: set<string>, anchor: int, count: nat)
    ensures Serves(Query(SqlApi(db), guids, anchor, count), AllHistories(db, guids, anchor))
  {
    forall g | g in guids
      ensures ServesChat(SqlApi(db), anchor, g, History(db, g, anchor))
    {
      QueriesServeHistory(db, g, anchor);
    }
  }

  /** chat.db with two messages, the newer one at the Unix epoch: one-message pages never complete. */
  lemma EpochSessionFails(n: nat)
    ensures var db := map["chat" := {Pos(0, 1), Pos(-1, 1)}];
      var q := Query(SqlApi(db), {"chat"}, 1, 1);
      !Completes(BackfillSession(q), AllHistories(db, {"chat"}, 1), n)
  {
    var db := map["chat" := {Pos(0, 1), Pos(-1, 1)}];
    EpochHistory(db);
    QueriesServe(db, {"chat"}, 1, 1);
    assert AllHistories(db, {"chat"}, 1) == map["chat" := [Pos(0, 1), Pos(-1, 1)]];
    EpochRowRestarts(Query(SqlApi(db), {"chat"}, 1, 1), Pos(0, 1), Pos(-1, 1), n);
  }

  lemma EpochHistory(db: Table)
    requires db == map["chat" := {Pos(0, 1), Pos(-1, 1)}]
    ensures History(db, "chat", 1) == [Pos(0, 1), Pos(-1, 1)]
  {
    NewerIsStrictTotal();
    assert OlderThan(db, "chat", 1) == {Pos(0, 1), Pos(-1, 1)};
    Keyset.SortedIs(Newer, OlderThan(db, "chat", 1), [Pos(0, 1), Pos(-1, 1)]);
  }

  /**
    Over fixed chat.db data: a session over any chats, anchor and page size completes, in
    a bounded number of fetches, exactly when every page boundary survives encoding.
   */
  lemma ChatDbSessionExact(db: Table, guids: set<string>, anchor: int, count: nat, longest: nat)
    requires count > 0 && forall g :: g in guids ==> |History(db, g, anchor)| <= longest
    ensures var q, hist := Query(SqlApi(db), guids, anchor, count), AllHistories(db, guids, anchor);
      && (Resumable(hist, count) ==> CompletesWithin(BackfillSession(q), hist, longest + 1))
      && (forall n: nat :: Completes(BackfillSession(q), hist, n) ==> Resumable(hist, count))
  {
    QueriesServe(db, guids, anchor, count);
    SessionCompletesExactly(Query(SqlApi(db), guids, anchor, count), AllHistories(db, guids, anchor), longest);
  }

  /** With no row at the Unix epoch every session completes. */
  lemma EpochFreeResumes(db: Table, guids: set<string>, anchor: int, count: nat)
    requires count > 0 && forall g, p: Pos :: g in guids && p in RowsOf(db, g) ==> p.time != 0
    ensures Resumable(AllHistories(db, guids, anchor), count)
  {
    var hist: Histories := AllHistories(db, guids, anchor);
    forall i: nat | i > 0 && CursorAt(hist, Seen(count, i)) != map[]
      ensures Survives(hist, Seen(count, i))
    {
      SeenGrows(count, i, i);
      BoundaryOffEpoch(db, guids, anchor, Seen(count, i));
    }
  }

  lemma BoundaryOffEpoch(db: Table, guids: set<string>, anchor: int, k: nat)
    requires k > 0 && CursorAt(AllHistories(db, guids, anchor), k) != map[]
    requires forall g, p: Pos :: g in guids && p in RowsOf(db, g) ==> p.time != 0
    ensures Survives(AllHistories(db, guids, anchor), k)
  {
    var hist: Histories := AllHistories(db, guids, anchor);
    forall g: string | g in hist && |hist[g]| >= k
      ensures hist[g][k - 1].time != 0
    {
      HistoryIsComplete(db, g, anchor);
      assert hist[g][k - 1] in History(db, g, anchor);
    }
    var h :| h in CursorAt(hist, k);
  }
}
