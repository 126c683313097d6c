/**
  Carrier-route checks: a rolling-hour ceiling on lookups, and per-key memos that keep
  one lookup an hour apart from the next. Times are nanoseconds of one clock.
 */
module CarrierRoute {
  const HOUR := 3_600_000_000_000
  const MAX_PER_HOUR := 60

  // ---- The ceiling -----------------------------------------------------------------------

  /** Entries strictly after the cutoff, in order. */
  function KeepAfter(log: seq<int>, cutoff: int): seq<int> {
    if log == [] then []
    else
      var last := log[|log| - 1];
      KeepAfter(log[..|log| - 1], cutoff) + if last > cutoff then [last] else []
  }

  lemma {:induction false} KeepAfterLength(log: seq<int>, cutoff: int)
    ensures |KeepAfter(log, cutoff)| <= |log|
  {
    if log != [] {
      KeepAfterLength(log[..|log| - 1], cutoff);
    }
  }

  lemma KeepAfterAppend(log: seq<int>, x: int, cutoff: int)
    ensures KeepAfter(log + [x], cutoff) == KeepAfter(log, cutoff) + if x > cutoff then [x] else []
  {
    assert (log + [x])[..|log|] == log;
  }

  lemma KeepAfterStep(log: seq<int>, i: nat, cutoff: int)
    requires i < |log|
    ensures KeepAfter(log[..i + 1], cutoff)
         == if log[i] > cutoff then KeepAfter(log[..i], cutoff) + [log[i]] else KeepAfter(log[..i], cutoff)
  {
    assert log[..i + 1] == log[..i] + [log[i]];
    KeepAfterAppend(log[..i], log[i], cutoff);
  }

  /** Filtering again with a later cutoff forgets the first filter. */
  lemma {:induction false} KeepAfterTwice(log: seq<int>, c: int, d: int)
    requires c <= d
    ensures KeepAfter(KeepAfter(log, c), d) == KeepAfter(log, d)
  {
    if log != [] {
      var init, last := log[..|log| - 1], log[|log| - 1];
      KeepAfterTwice(init, c, d);
      if last > c {
        KeepAfterAppend(KeepAfter(init, c), last, d);
      } else {
        assert KeepAfter(log, c) == KeepAfter(init, c);
      }
    }
  }

  /** The log after a reservation that read the clock at now and, if granted, again at stamp. */
  function Reserved(log: seq<int>, now: int, stamp: int): (seq<int>, bool) {
    var kept := KeepAfter(log, now - HOUR);
    if |kept| >= MAX_PER_HOUR then (kept, false) else (kept + [stamp], true)
  }

  /** carrierCheckLog: a slice over a backing array, filtered in place. */
  class CheckLog {
    var entries: array<int>
    var len: nat

    ghost predicate Valid()
      reads this
    {
      len <= entries.Length
    }

    ghost function Contents(): seq<int>
      reads this, entries
      requires Valid()
    {
      entries[..len]
    }

    constructor ()
      ensures Valid() && fresh(entries) && Contents() == []
    {
      entries := new int[4];
      len := 0;
    }

    /** kept := log[:0], appending over the entries already read. */
    method FilterInPlace(cutoff: int)
      requires Valid()
      modifies this`len, entries
      ensures Valid() && Contents() == KeepAfter(old(Contents()), cutoff)
    {
      ghost var before := entries[..len];
      ghost var out: seq<int> := [];
      var kept, n := 0, len;
      for i := 0 to n
        invariant 0 <= kept <= i && len == n && |out| == kept
        invariant out == KeepAfter(before[..i], cutoff)
        invariant forall j :: 0 <= j < kept ==> entries[j] == out[j]
        invariant forall j :: i <= j < n ==> entries[j] == before[j]
      {
        KeepAfterStep(before, i, cutoff);
        var at := entries[i];
        if at > cutoff {
          entries[kept] := at;
          out := out + [at];
          kept := kept + 1;
        }
      }
      assert before[..n] == before;
      len := kept;
    }

    /** append: into the backing array while it has room, else into a larger one. */
    method Append(x: int)
      requires Valid()
      modifies this, entries
      ensures Valid() && Contents() == old(Contents()) + [x]
      ensures entries == old(entries) || fresh(entries)
    {
      if len == entries.Length {
        var larger := new int[2 * len + 1];
        forall i | 0 <= i < len {
          larger[i] := entries[i];
        }
        assert larger[..len] == entries[..len];
        entries := larger;
      }
      entries[len] := x;
      len := len + 1;
    }

    /** reserveCarrierCheck. */
    method Reserve(now: int, stamp: int) returns (granted: bool)
      requires Valid()
      modifies this, entries
      ensures Valid() && (entries == old(entries) || fresh(entries))
      ensures (Contents(), granted) == Reserved(old(Contents()), now, stamp)
    {
      FilterInPlace(now - HOUR);
      if len >= MAX_PER_HOUR {
        return false;
      }
      Append(stamp);
      granted := true;
    }
  }

  // ---- Any rolling hour --------------------------------------------------------------------

  /** The two clock readings of one reservation. */
  datatype Attempt = Attempt(now: int, stamp: int)

  /** A nondecreasing clock. */
  predicate Ordered(runs: seq<Attempt>) {
    && (forall i :: 0 <= i < |runs| ==> runs[i].now <= runs[i].stamp)
    && (forall i :: 0 < i < |runs| ==> runs[i - 1].stamp <= runs[i].now)
  }

  /** The log after a run that started empty. */
  function LogAfter(runs: seq<Attempt>): seq<int> {
    if runs == [] then []
    else
      var last := runs[|runs| - 1];
      Reserved(LogAfter(runs[..|runs| - 1]), last.now, last.stamp).0
  }

  /** When lookups were granted. */
  function Grants(runs: seq<Attempt>): seq<int> {
    if runs == [] then []
    else
      var init, last := runs[..|runs| - 1], runs[|runs| - 1];
      Extended(Grants(init), LogAfter(init), last.now, last.stamp)
  }

  function Extended(grants: seq<int>, log: seq<int>, now: int, stamp: int): seq<int> {
    if Reserved(log, now, stamp).1 then grants + [stamp] else grants
  }

  /** Grants in the half-open hour from t. */
  function InHour(grants: seq<int>, t: int): nat {
    if grants == [] then 0
    else
      var last := grants[|grants| - 1];
      InHour(grants[..|grants| - 1], t) + if t <= last < t + HOUR then 1 else 0
  }

  lemma InHourAppend(grants: seq<int>, x: int, t: int)
    ensures InHour(grants + [x], t) == InHour(grants, t) + if t <= x < t + HOUR then 1 else 0
  {
    assert (grants + [x])[..|grants|] == grants;
  }

  lemma ReservedKeepsHistory(log: seq<int>, grants: seq<int>, now: int, stamp: int, cutoff: int)
    requires now - HOUR <= cutoff && KeepAfter(log, cutoff) == KeepAfter(grants, cutoff)
    ensures KeepAfter(Reserved(log, now, stamp).0, cutoff) == KeepAfter(Extended(grants, log, now, stamp), cutoff)
  {
    KeepAfterTwice(log, now - HOUR, cutoff);
    KeepAfterAppend(KeepAfter(log, now - HOUR), stamp, cutoff);
    KeepAfterAppend(grants, stamp, cutoff);
  }

  /** From any later cutoff on, the log is the whole grant history filtered. */
  lemma {:induction false} LogIsHistory(runs: seq<Attempt>, cutoff: int)
    requires Ordered(runs) && (runs != [] ==> runs[|runs| - 1].now - HOUR <= cutoff)
    ensures KeepAfter(LogAfter(runs), cutoff) == KeepAfter(Grants(runs), cutoff)
    decreases |runs|
  {
    if runs != [] {
      var init, last := runs[..|runs| - 1], runs[|runs| - 1];
      LogIsHistory(init, cutoff);
      ReservedKeepsHistory(LogAfter(init), Grants(init), last.now, last.stamp, cutoff);
    }
  }

  /** The grants of an hour that is not over are still in the filtered history. */
  lemma {:induction false} RecentGrantsKept(grants: seq<int>, t: int, cutoff: int)
    requires cutoff < t
    ensures InHour(grants, t) <= |KeepAfter(grants, cutoff)|
  {
    if grants != [] {
      RecentGrantsKept(grants[..|grants| - 1], t, cutoff);
    }
  }

  lemma GrantKeepsCeiling(log: seq<int>, grants: seq<int>, now: int, stamp: int, t: int)
    requires now <= stamp && KeepAfter(log, now - HOUR) == KeepAfter(grants, now - HOUR)
    requires InHour(grants, t) <= MAX_PER_HOUR
    ensures InHour(Extended(grants, log, now, stamp), t) <= MAX_PER_HOUR
  {
    InHourAppend(grants, stamp, t);
    if t <= stamp < t + HOUR {
      RecentGrantsKept(grants, t, now - HOUR);
    }
  }

  /** No half-open hour ever contains more than sixty granted lookups. */
  lemma {:induction false} HourlyCeiling(runs: seq<Attempt>, t: int)
    requires Ordered(runs)
    ensures InHour(Grants(runs), t) <= MAX_PER_HOUR
    decreases |runs|
  {
    if runs != [] {
      var init, last := runs[..|runs| - 1], runs[|runs| - 1];
      HourlyCeiling(init, t);
      LogIsHistory(init, last.now - HOUR);
      GrantKeepsCeiling(LogAfter(init), Grants(init), last.now, last.stamp, t);
    }
  }

  // ---- Memos and the order of the gates ---------------------------------------------------------

  datatype Key = Key(portal: string, target: string)
  type Memo = map<Key, int>

  predicate Recent(m: Memo, k: Key, now: int) {
    k in m && now - m[k] < HOUR
  }

  /** The entry is stored, then every entry found expired when the loop reaches it is dropped. */
  function Noted(m: Memo, k: Key, now: int, reading: Key -> int): Memo {
    map x | x in m[k := now] && reading(x) - m[k := now][x] < HOUR :: m[k := now][x]
  }

  /** One outbound message, with every clock reading and answer it meets. */
  datatype Send = Send(
    key: Key, eligible: bool, verifiedRead: int, checkedRead: int, connected: bool, reserve: Attempt,
    cancelled: bool, lookup: int, reachable: bool, note: int, pruneRead: Key -> int, end: int)

  datatype Memos = Memos(log: seq<int>, checkedAt: Memo, verifiedAt: Memo)
  datatype Outcome = Outcome(route: bool, lookedUp: bool)

  /** checkCarrierRoute: the cheap gates, the memos, the ceiling, then the lookup. */
  function Decide(m: Memos, s: Send): (Memos, Outcome) {
    if !s.eligible then (m, Outcome(false, false))
    else if Recent(m.verifiedAt, s.key, s.verifiedRead) then (m, Outcome(true, false))
    else if Recent(m.checkedAt, s.key, s.checkedRead) || !s.connected then (m, Outcome(false, false))
    else
      var (log, granted) := Reserved(m.log, s.reserve.now, s.reserve.stamp);
      if !granted || s.cancelled then (m.(log := log), Outcome(false, false))
      else if s.reachable then
        (Memos(log, m.checkedAt, Noted(m.verifiedAt, s.key, s.note, s.pruneRead)), Outcome(true, true))
      else
        (Memos(log, Noted(m.checkedAt, s.key, s.note, s.pruneRead), m.verifiedAt), Outcome(false, true))
  }

  /** The prune loop of noteCheckedUnreachable and noteVerifiedIMessage. */
  method Note(m: Memo, k: Key, now: int, reading: Key -> int) returns (noted: Memo)
    ensures noted == Noted(m, k, now, reading)
  {
    var all := m[k := now];
    noted := all;
    var rest := all.Keys;
    while rest != {}
      invariant rest <= all.Keys
      invariant forall x :: x in noted <==> x in all && (x in rest || reading(x) - all[x] < HOUR)
      invariant forall x :: x in noted ==> noted[x] == all[x]
      decreases |rest|
    {
      var x :| x in rest;
      if reading(x) - all[x] >= HOUR {
        noted := noted - {x};
      }
      rest := rest - {x};
    }
  }

  class Router {
    const log: CheckLog
    var checkedAt: Memo
    var verifiedAt: Memo

    ghost predicate Valid()
      reads this, log
    {
      log.Valid()
    }

    ghost function View(): Memos
      reads this, log, log.entries
      requires Valid()
    {
      Memos(log.Contents(), checkedAt, verifiedAt)
    }

    constructor ()
      ensures Valid() && fresh(log) && fresh(log.entries) && View() == Memos([], map[], map[])
    {
      log := new CheckLog();
      checkedAt, verifiedAt := map[], map[];
    }

    method CheckCarrierRoute(s: Send) returns (o: Outcome)
      requires Valid()
      modifies this, log, log.entries
      ensures Valid() && (log.entries == old(log.entries) || fresh(log.entries))
      ensures (View(), o) == Decide(old(View()), s)
    {
      if !s.eligible {
        return Outcome(false, false);
      }
      if Recent(verifiedAt, s.key, s.verifiedRead) {
        return Outcome(true, false);
      }
      if Recent(checkedAt, s.key, s.checkedRead) || !s.connected {
        return Outcome(false, false);
      }
      var granted := log.Reserve(s.reserve.now, s.reserve.stamp);
      if !granted || s.cancelled {
        return Outcome(false, false);
      }
      if !s.reachable {
        checkedAt := Note(checkedAt, s.key, s.note, s.pruneRead);
        return Outcome(false, true);
      }
      verifiedAt := Note(verifiedAt, s.key, s.note, s.pruneRead);
      o := Outcome(true, true);
    }
  }

  // ---- Sequential runs -----------------------------------------------------------------------------

  ghost predicate Timed(s: Send) {
    && s.verifiedRead <= s.checkedRead <= s.reserve.now <= s.reserve.stamp <= s.lookup <= s.note <= s.end
    && forall k :: s.note <= s.pruneRead(k) <= s.end
  }

  /** One send after the other, under a nondecreasing clock. */
  ghost predicate Sequential(sends: seq<Send>) {
    && (forall i :: 0 <= i < |sends| ==> Timed(sends[i]))
    && (forall i :: 0 < i < |sends| ==> sends[i - 1].end <= sends[i].verifiedRead)
  }

  function After(sends: seq<Send>): Memos {
    if sends == [] then Memos([], map[], map[])
    else Decide(After(sends[..|sends| - 1]), sends[|sends| - 1]).0
  }

  /** A lookup that was made: when, when it was noted, and its answer. */
  datatype Lookup = Lookup(key: Key, at: int, note: int, reachable: bool)

  function Lookups(sends: seq<Send>): seq<Lookup> {
    if sends == [] then []
    else
      var init, s := sends[..|sends| - 1], sends[|sends| - 1];
      Lookups(init) + if Decide(After(init), s).1.lookedUp then [Lookup(s.key, s.lookup, s.note, s.reachable)] else []
  }

  /** A past lookup is remembered by a memo at least as new, or lies an hour back. */
  predicate Remembered(m: Memos, l: Lookup, now: int) {
    && l.at <= now
    && (|| (l.key in m.verifiedAt && m.verifiedAt[l.key] >= l.at)
        || (l.key in m.checkedAt && m.checkedAt[l.key] >= l.at)
        || l.at + HOUR <= now)
  }

  lemma {:induction false} LookupsRemembered(sends: seq<Send>, now: int, i: nat)
    requires Sequential(sends) && (sends != [] ==> sends[|sends| - 1].end <= now) && i < |Lookups(sends)|
    ensures Remembered(After(sends), Lookups(sends)[i], now)
    decreases |sends|
  {
    var init, s := sends[..|sends| - 1], sends[|sends| - 1];
    var l := Lookups(sends)[i];
    if i < |Lookups(init)| {
      LookupsRemembered(init, s.verifiedRead, i);
    }
  }

  /** In a sequential run, two lookups for the same portal and target are at least an hour apart. */
  lemma {:induction false} LookupsAnHourApart(sends: seq<Send>, i: nat, j: nat)
    requires Sequential(sends) && i < j < |Lookups(sends)| && Lookups(sends)[i].key == Lookups(sends)[j].key
    ensures Lookups(sends)[i].at + HOUR <= Lookups(sends)[j].at
    decreases |sends|
  {
    var init, s := sends[..|sends| - 1], sends[|sends| - 1];
    if j < |Lookups(init)| {
      LookupsAnHourApart(init, i, j);
    } else {
      LookupsRemembered(init, s.verifiedRead, i);
    }
  }

  /** Every positive memo comes from a lookup that found the target reachable. */
  lemma {:induction false} VerifiedWasReachable(sends: seq<Send>, k: Key)
    requires k in After(sends).verifiedAt
    ensures exists l :: l in Lookups(sends) && l.key == k && l.reachable && l.note == After(sends).verifiedAt[k]
    decreases |sends|
  {
    var init, s := sends[..|sends| - 1], sends[|sends| - 1];
    var d := Decide(After(init), s);
    var mine := Lookup(s.key, s.lookup, s.note, s.reachable);
    if d.1.lookedUp && s.reachable && k == s.key {
      assert mine in Lookups(sends);
    } else {
      VerifiedWasReachable(init, k);
      var l :| l in Lookups(init) && l.key == k && l.reachable && l.note == After(init).verifiedAt[k];
      assert l in Lookups(sends);
    }
  }

  /** A message leaves over iMessage only if its own lookup, or one noted within the hour, said so. */
  lemma RouteIsBackedByLookup(sends: seq<Send>, s: Send)
    requires Decide(After(sends), s).1.route
    ensures (Decide(After(sends), s).1.lookedUp && s.reachable)
      || exists l :: l in Lookups(sends) && l.key == s.key && l.reachable && s.verifiedRead - l.note < HOUR
  {
    if !Decide(After(sends), s).1.lookedUp {
      VerifiedWasReachable(sends, s.key);
    }
  }

  // ---- Exactly which messages leave over iMessage ---------------------------------------------------

  /** A lookup for the key with the given answer, noted less than an hour (in nanoseconds) before now. */
  ghost predicate AnsweredRecently(sends: seq<Send>, k: Key, reachable: bool, now: int) {
    exists l :: l in Lookups(sends) && l.key == k && l.reachable == reachable && now - l.note < 3600 * 1_000_000_000
  }

  lemma {:induction false} LookupsBefore(sends: seq<Send>, now: int)
    requires Sequential(sends) && (sends != [] ==> sends[|sends| - 1].end <= now)
    ensures forall l :: l in Lookups(sends) ==> l.note <= now
    decreases |sends|
  {
    if sends != [] {
      LookupsBefore(sends[..|sends| - 1], sends[|sends| - 1].verifiedRead);
    }
  }

  /** The memo of one answer, after it may have been noted anew. */
  lemma NotedIsRecent(m: Memo, k: Key, note: int, reading: Key -> int, x: Key, now: int)
    requires note <= now && forall y :: note <= reading(y) <= now
    ensures Recent(Noted(m, k, note, reading), x, now)
       <==> if x == k then now - note < HOUR else Recent(m, x, now)
  {}

  lemma OneMoreAnswer(init: seq<Send>, s: Send, k: Key, reachable: bool, now: int)
    requires Sequential(init + [s]) && s.end <= now
    ensures AnsweredRecently(init + [s], k, reachable, now)
       <==> AnsweredRecently(init, k, reachable, now)
            || (Decide(After(init), s).1.lookedUp && k == s.key && s.reachable == reachable && now - s.note < HOUR)
  {
    assert (init + [s])[..|init|] == init;
    var mine := Lookup(s.key, s.lookup, s.note, s.reachable);
    if Decide(After(init), s).1.lookedUp {
      assert Lookups(init + [s]) == Lookups(init) + [mine];
      assert mine in Lookups(init + [s]);
    }
    if l :| l in Lookups(init) && l.key == k && l.reachable == reachable && now - l.note < HOUR {
      assert l in Lookups(init + [s]);
    }
  }

  /** What one send does to the memos. */
  lemma MemosAfter(init: seq<Send>, s: Send)
    ensures var d := Decide(After(init), s).1;
      && After(init + [s]).verifiedAt
         == (if d.lookedUp && s.reachable then Noted(After(init).verifiedAt, s.key, s.note, s.pruneRead)
             else After(init).verifiedAt)
      && After(init + [s]).checkedAt
         == (if d.lookedUp && !s.reachable then Noted(After(init).checkedAt, s.key, s.note, s.pruneRead)
             else After(init).checkedAt)
  {
    assert (init + [s])[..|init|] == init;
  }

  lemma MemoAnswers(init: seq<Send>, s: Send, k: Key, reachable: bool, memo: Memo, memo': Memo, now: int)
    requires Sequential(init + [s]) && s.end <= now
    requires Recent(memo, k, now) <==> AnsweredRecently(init, k, reachable, now)
    requires memo' == if Decide(After(init), s).1.lookedUp && s.reachable == reachable
                      then Noted(memo, s.key, s.note, s.pruneRead) else memo
    ensures Recent(memo', k, now) <==> AnsweredRecently(init + [s], k, reachable, now)
  {
    SequentialInit(init, s);
    OneMoreAnswer(init, s, k, reachable, now);
    NotedIsRecent(memo, s.key, s.note, s.pruneRead, k, now);
    if now - s.note >= HOUR {
      NewestAnswer(init, s, k, now);
    }
  }

  /** The two memos hold exactly the answers of the past hour. */
  lemma {:induction false} MemosAreAnswers(sends: seq<Send>, k: Key, now: int)
    requires Sequential(sends) && (sends != [] ==> sends[|sends| - 1].end <= now)
    ensures Recent(After(sends).verifiedAt, k, now) <==> AnsweredRecently(sends, k, true, now)
    ensures Recent(After(sends).checkedAt, k, now) <==> AnsweredRecently(sends, k, false, now)
    decreases |sends|
  {
    if sends != [] {
      var init, s := sends[..|sends| - 1], sends[|sends| - 1];
      assert sends == init + [s];
      SequentialInit(init, s);
      MemosAreAnswers(init, k, now);
      MemosAfter(init, s);
      MemoAnswers(init, s, k, true, After(init).verifiedAt, After(sends).verifiedAt, now);
      MemoAnswers(init, s, k, false, After(init).checkedAt, After(sends).checkedAt, now);
    }
  }

  /** No earlier answer is recent when a new one is not. */
  lemma NewestAnswer(init: seq<Send>, s: Send, k: Key, now: int)
    requires Sequential(init + [s]) && s.end <= now && now - s.note >= HOUR
    ensures !AnsweredRecently(init, k, true, now) && !AnsweredRecently(init, k, false, now)
  {
    SequentialInit(init, s);
    LookupsBefore(init, s.verifiedRead);
  }

  lemma SequentialInit(init: seq<Send>, s: Send)
    requires Sequential(init + [s])
    ensures Sequential(init) && Timed(s) && (init != [] ==> init[|init| - 1].end <= s.verifiedRead)
  {
    var all := init + [s];
    assert all[|init|] == s && forall i :: 0 <= i < |init| ==> all[i] == init[i];
  }

  /** Lookups granted in the hour before now. */
  function GrantedInHour(sends: seq<Send>, now: int): nat {
    CountSince(Grants(Reservations(sends)), now - 3600 * 1_000_000_000)
  }

  /** How many of the times lie strictly after a moment. */
  function CountSince(times: seq<int>, moment: int): nat {
    if times == [] then 0
    else CountSince(times[..|times| - 1], moment) + if times[|times| - 1] > moment then 1 else 0
  }

  lemma {:induction false} KeptAreCounted(log: seq<int>, cutoff: int)
    ensures |KeepAfter(log, cutoff)| == CountSince(log, cutoff)
  {
    if log != [] {
      KeptAreCounted(log[..|log| - 1], cutoff);
    }
  }

  /**
    A message leaves over iMessage exactly when it is eligible and either a lookup found
    its target reachable within the hour, or one is made now and finds it so; and one is
    made exactly when no answer is recent, the client is connected, fewer than sixty
    lookups were granted in the hour, and the send is not cancelled.
   */
  lemma RoutesExactly(sends: seq<Send>, s: Send)
    requires Sequential(sends + [s])
    ensures var o := Decide(After(sends), s).1;
      && (o.lookedUp <==>
            && s.eligible && s.connected && !s.cancelled
            && !AnsweredRecently(sends, s.key, true, s.verifiedRead)
            && !AnsweredRecently(sends, s.key, false, s.checkedRead)
            && GrantedInHour(sends, s.reserve.now) < 60)
      && (o.route <==> s.eligible && (AnsweredRecently(sends, s.key, true, s.verifiedRead)
                                      || (o.lookedUp && s.reachable)))
  {
    SequentialInit(sends, s);
    MemosAreAnswers(sends, s.key, s.verifiedRead);
    MemosAreAnswers(sends, s.key, s.checkedRead);
    LogIsGrants(sends, s.verifiedRead, s.reserve.now);
    DecidesBy(After(sends), s, GrantedInHour(sends, s.reserve.now),
              AnsweredRecently(sends, s.key, true, s.verifiedRead),
              AnsweredRecently(sends, s.key, false, s.checkedRead));
  }

  lemma LogIsGrants(sends: seq<Send>, before: int, now: int)
    requires Sequential(sends) && (sends != [] ==> sends[|sends| - 1].end <= before) && before <= now
    ensures |KeepAfter(After(sends).log, now - HOUR)| == GrantedInHour(sends, now)
  {
    ReservationsLogged(sends);
    ReservationsOrdered(sends, before);
    KeptIsCount(Reservations(sends), now, now - HOUR);
  }

  lemma KeptIsCount(runs: seq<Attempt>, now: int, cutoff: int)
    requires Ordered(runs) && (forall r :: r in runs ==> r.stamp <= now) && now - HOUR <= cutoff
    ensures |KeepAfter(LogAfter(runs), cutoff)| == CountSince(Grants(runs), cutoff)
  {
    assert runs != [] ==> runs[|runs| - 1] in runs;
    LogIsHistory(runs, cutoff);
    KeptAreCounted(Grants(runs), cutoff);
  }

  lemma DecidesBy(m: Memos, s: Send, granted: nat, verified: bool, checked: bool)
    requires |KeepAfter(m.log, s.reserve.now - HOUR)| == granted
    requires verified == Recent(m.verifiedAt, s.key, s.verifiedRead)
    requires checked == Recent(m.checkedAt, s.key, s.checkedRead)
    ensures var o := Decide(m, s).1;
      && (o.lookedUp <==> s.eligible && s.connected && !s.cancelled && !verified && !checked && granted < 60)
      && (o.route <==> s.eligible && (verified || (o.lookedUp && s.reachable)))
  {}

  /** The send gets as far as the ceiling. */
  predicate Reserves(m: Memos, s: Send) {
    && s.eligible && s.connected
    && !Recent(m.verifiedAt, s.key, s.verifiedRead) && !Recent(m.checkedAt, s.key, s.checkedRead)
  }

  function Reservations(sends: seq<Send>): seq<Attempt> {
    if sends == [] then []
    else
      var init, s := sends[..|sends| - 1], sends[|sends| - 1];
      Reservations(init) + if Reserves(After(init), s) then [s.reserve] else []
  }

  /** The router's log is the log of its reservations. */
  lemma {:induction false} ReservationsLogged(sends: seq<Send>)
    ensures LogAfter(Reservations(sends)) == After(sends).log
    decreases |sends|
  {
    if sends != [] {
      var init, s := sends[..|sends| - 1], sends[|sends| - 1];
      ReservationsLogged(init);
      var before := Reservations(init);
      assert Reservations(sends) == if Reserves(After(init), s) then before + [s.reserve] else before;
    }
  }

  lemma OrderedOneMore(runs: seq<Attempt>, a: Attempt)
    requires Ordered(runs) && a.now <= a.stamp && forall r :: r in runs ==> r.stamp <= a.now
    ensures Ordered(runs + [a])
  {
    assert runs != [] ==> runs[|runs| - 1] in runs;
  }

  /** Reservations come in clock order. */
  lemma {:induction false} ReservationsOrdered(sends: seq<Send>, now: int)
    requires Sequential(sends) && (sends != [] ==> sends[|sends| - 1].end <= now)
    ensures Ordered(Reservations(sends)) && forall r :: r in Reservations(sends) ==> r.stamp <= now
    decreases |sends|
  {
    if sends != [] {
      var init, s := sends[..|sends| - 1], sends[|sends| - 1];
      ReservationsOrdered(init, s.verifiedRead);
      OrderedOneMore(Reservations(init), s.reserve);
    }
  }

  /** Whole runs of sends stay under the ceiling. */
  lemma SendsUnderCeiling(sends: seq<Send>, t: int)
    requires Sequential(sends)
    ensures LogAfter(Reservations(sends)) == After(sends).log
    ensures InHour(Grants(Reservations(sends)), t) <= MAX_PER_HOUR
  {
    ReservationsLogged(sends);
    ReservationsOrdered(sends, if sends == [] then 0 else sends[|sends| - 1].end);
    HourlyCeiling(Reservations(sends), t);
  }
}
