/**
  normalizeGroupMessagePortalIDs: an index over the chats in order gives every gid:
  portal its canonical portal, and one statement moves all rows at once.
 */
module CloudRekey {
  import opened Collections
  import opened CloudDb
  import opened CloudStore
  import opened Keyset

  // ---- The chats in order ----------------------------------------------------------------

  datatype ChatKey = ChatKey(portal: string, id: string)

  /** ORDER BY portal_id, cloud_chat_id. */
  predicate KeyBefore(a: ChatKey, b: ChatKey) {
    Before(a.portal, b.portal) || (a.portal == b.portal && Before(a.id, b.id))
  }

  lemma KeyBeforeIsStrictTotal()
    ensures StrictTotal(KeyBefore)
  {
    BeforeIsStrictTotal();
  }

  /** One row of the chat query, keys folded to lower case. */
  datatype Ref = Ref(portal: string, groupId: string, chatId: string)

  function ChatKeys(chats: map<string, Chat>): set<ChatKey> {
    set id | id in chats && chats[id].portalId != "" :: ChatKey(chats[id].portalId, id)
  }

  function RefOf(chats: map<string, Chat>, k: ChatKey): Ref {
    Ref(k.portal, if k.id in chats then Lower(chats[k.id].groupId) else "", Lower(k.id))
  }

  ghost predicate PortalsAscend(refs: seq<Ref>) {
    forall i, j :: 0 <= i < j < |refs| ==>
      refs[i].portal == refs[j].portal || Before(refs[i].portal, refs[j].portal)
  }

  /** The chat query: rows in key order. */
  ghost predicate IsListing(chats: map<string, Chat>, refs: seq<Ref>) {
    && (forall r :: r in refs <==> exists k :: k in ChatKeys(chats) && r == RefOf(chats, k))
    && PortalsAscend(refs)
  }

  method ListChats(chats: map<string, Chat>) returns (refs: seq<Ref>)
    ensures IsListing(chats, refs)
  {
    var keys := OrderedKeys(chats);
    refs := ReadRefs(chats, keys);
  }

  method ReadRefs(chats: map<string, Chat>, keys: seq<ChatKey>) returns (refs: seq<Ref>)
    ensures |refs| == |keys| && forall j :: 0 <= j < |keys| ==> refs[j] == RefOf(chats, keys[j])
  {
    refs := [];
    for i := 0 to |keys|
      invariant |refs| == i
      invariant forall j :: 0 <= j < i ==> refs[j] == RefOf(chats, keys[j])
    {
      refs := refs + [RefOf(chats, keys[i])];
    }
  }

  function OrderedKeys(chats: map<string, Chat>): (keys: seq<ChatKey>)
    ensures forall k :: k in keys <==> k in ChatKeys(chats)
    ensures forall i, j :: 0 <= i < j < |keys| ==> KeyBefore(keys[i], keys[j])
  {
    KeyBeforeIsStrictTotal();
    SortedMembers(KeyBefore, ChatKeys(chats));
    SortedAscends(KeyBefore, ChatKeys(chats));
    Sorted(KeyBefore, ChatKeys(chats))
  }

  // ---- The index ---------------------------------------------------------------------------

  /** The portals indexed under a key, in listing order. */
  function PortalsUnder(refs: seq<Ref>, key: string): seq<string> {
    if refs == [] then []
    else
      var last := refs[|refs| - 1];
      PortalsUnder(refs[..|refs| - 1], key)
      + (if last.groupId == key then [last.portal] else [])
      + (if last.chatId == key then [last.portal] else [])
  }

  function Under(canonical: map<string, seq<string>>, key: string): seq<string> {
    if key in canonical then canonical[key] else []
  }

  function Append(canonical: map<string, seq<string>>, key: string, portal: string): map<string, seq<string>> {
    if key == "" then canonical else canonical[key := Under(canonical, key) + [portal]]
  }

  lemma AppendUnder(canonical: map<string, seq<string>>, key: string, portal: string, k: string)
    ensures Under(Append(canonical, key, portal), k)
         == Under(canonical, k) + if k == key && k != "" then [portal] else []
  {}

  /** The first loop: each chat is filed under its group id and its chat id. */
  method BuildCanonical(refs: seq<Ref>) returns (canonical: map<string, seq<string>>)
    ensures forall key :: Under(canonical, key) == if key == "" then [] else PortalsUnder(refs, key)
  {
    canonical := map[];
    for i := 0 to |refs|
      invariant forall key :: Under(canonical, key) == if key == "" then [] else PortalsUnder(refs[..i], key)
    {
      assert refs[..i + 1][..i] == refs[..i];
      var ref := refs[i];
      ghost var before := canonical;
      canonical := Append(Append(canonical, ref.groupId, ref.portal), ref.chatId, ref.portal);
      forall key
        ensures Under(canonical, key) == if key == "" then [] else PortalsUnder(refs[..i + 1], key)
      {
        AppendUnder(before, ref.groupId, ref.portal, key);
        AppendUnder(Append(before, ref.groupId, ref.portal), ref.chatId, ref.portal, key);
      }
    }
    assert refs[..|refs|] == refs;
  }

  /** The first portal of a list that differs from the current one. */
  ghost predicate IsFirstOther(portals: seq<string>, current: string, target: Option<string>) {
    match target
    case None => forall p :: p in portals ==> p == current
    case Some(t) => t != current && exists i :: IsFirstAt(portals, current, i) && portals[i] == t
  }

  ghost predicate IsFirstAt(portals: seq<string>, current: string, i: int) {
    0 <= i < |portals| && forall j :: 0 <= j < i ==> portals[j] == current
  }

  method FirstOther(portals: seq<string>, current: string) returns (target: Option<string>)
    ensures IsFirstOther(portals, current, target)
  {
    for i := 0 to |portals|
      invariant forall j :: 0 <= j < i ==> portals[j] == current
    {
      if portals[i] != current {
        assert IsFirstAt(portals, current, i);
        return Some(portals[i]);
      }
    }
    target := None;
  }

  // ---- What the target is ---------------------------------------------------------------------

  predicate Names(id: string, chat: Chat, uuid: string) {
    uuid != "" && (Lower(chat.groupId) == uuid || Lower(id) == uuid)
  }

  /** The other portals of chats that a group UUID names. */
  function OtherPortals(chats: map<string, Chat>, uuid: string, current: string): set<string> {
    set id | id in chats && chats[id].portalId != "" && chats[id].portalId != current && Names(id, chats[id], uuid)
      :: chats[id].portalId
  }

  function GroupUuidOf(portal: string): string {
    if "gid:" <= portal then Lower(portal[4..]) else ""
  }

  /** The canonical portal: the least other portal among the chats that the UUID names. */
  function Target(chats: map<string, Chat>, portal: string): Option<string> {
    BeforeIsStrictTotal();
    var others := OtherPortals(chats, GroupUuidOf(portal), portal);
    if others == {} then None else Some(Min(Before, others))
  }

  ghost predicate FiledUnder(refs: seq<Ref>, key: string, p: string) {
    exists r :: r in refs && r.portal == p && (r.groupId == key || r.chatId == key)
  }

  lemma {:induction false} PortalsUnderMembers(refs: seq<Ref>, key: string)
    ensures forall p :: p in PortalsUnder(refs, key) <==> FiledUnder(refs, key, p)
  {
    if refs != [] {
      var init, last := refs[..|refs| - 1], refs[|refs| - 1];
      PortalsUnderMembers(init, key);
      assert refs == init + [last];
    }
  }

  ghost predicate Ascending(portals: seq<string>) {
    forall i, j :: 0 <= i < j < |portals| ==> portals[i] == portals[j] || Before(portals[i], portals[j])
  }

  lemma {:induction false} PortalsUnderAscend(refs: seq<Ref>, key: string)
    requires PortalsAscend(refs)
    ensures Ascending(PortalsUnder(refs, key))
  {
    if refs != [] {
      var init, last := refs[..|refs| - 1], refs[|refs| - 1];
      PortalsUnderAscend(init, key);
      PortalsUnderMembers(init, key);
      var front := PortalsUnder(init, key);
      forall i | 0 <= i < |front|
        ensures front[i] == last.portal || Before(front[i], last.portal)
      {
        assert front[i] in front;
      }
    }
  }

  lemma IndexedAreNamed(chats: map<string, Chat>, refs: seq<Ref>, uuid: string, current: string, p: string)
    requires IsListing(chats, refs) && uuid != "" && p != current
    ensures p in PortalsUnder(refs, uuid) <==> p in OtherPortals(chats, uuid, current)
  {
    PortalsUnderMembers(refs, uuid);
    if p in PortalsUnder(refs, uuid) {
      var r :| r in refs && r.portal == p && (r.groupId == uuid || r.chatId == uuid);
      var k :| k in ChatKeys(chats) && r == RefOf(chats, k);
      assert k.id in chats && Names(k.id, chats[k.id], uuid);
    }
    if p in OtherPortals(chats, uuid, current) {
      var id :| id in chats && chats[id].portalId != "" && chats[id].portalId == p && Names(id, chats[id], uuid);
      var k := ChatKey(p, id);
      assert k in ChatKeys(chats) && RefOf(chats, k) in refs;
    }
  }

  lemma BeforeAsymmetric(a: string, b: string)
    requires Before(a, b)
    ensures !Before(b, a)
  {
    if Before(b, a) {
      BeforeTransitive(a, b, a);
    }
    BeforeIrreflexive(a);
  }

  /** The first differing indexed portal is the least one a scan over all chats would find. */
  lemma FirstOtherIsTarget(chats: map<string, Chat>, refs: seq<Ref>, portal: string, found: Option<string>)
    requires IsListing(chats, refs) && GroupUuidOf(portal) != ""
    requires IsFirstOther(PortalsUnder(refs, GroupUuidOf(portal)), portal, found)
    ensures found == Target(chats, portal)
  {
    var uuid := GroupUuidOf(portal);
    var under, others := PortalsUnder(refs, uuid), OtherPortals(chats, uuid, portal);
    if found.None? {
      if p :| p in others {
        IndexedAreNamed(chats, refs, uuid, portal, p);
      }
    } else {
      var i :| IsFirstAt(under, portal, i) && under[i] == found.value;
      assert under[i] in under;
      IndexedAreNamed(chats, refs, uuid, portal, found.value);
      var least := Target(chats, portal).value;
      IndexedAreNamed(chats, refs, uuid, portal, least);
      var m :| 0 <= m < |under| && under[m] == least;
      PortalsUnderAscend(refs, uuid);
      FirstIsLeast(under, i, m);
    }
  }

  lemma FirstIsLeast(under: seq<string>, i: int, m: int)
    requires Ascending(under) && 0 <= i <= m < |under|
    requires under[m] == under[i] || Before(under[m], under[i])
    ensures under[m] == under[i]
  {
    if under[m] != under[i] {
      BeforeAsymmetric(under[m], under[i]);
    }
  }

  // ---- Moving the rows -------------------------------------------------------------------------

  /** SELECT DISTINCT portal_id with the gid: prefix. */
  function GroupPortals(msgs: map<string, Row>): set<string> {
    set g | g in msgs && "gid:" <= Coalesce(msgs[g].portalId) :: Coalesce(msgs[g].portalId)
  }

  /** The second loop: a move for every portal with a canonical portal elsewhere. */
  method FindMoves(chats: map<string, Chat>, portals: seq<string>, canonical: map<string, seq<string>>,
                   ghost refs: seq<Ref>)
    returns (moves: map<string, string>)
    requires IsListing(chats, refs)
    requires forall key :: Under(canonical, key) == if key == "" then [] else PortalsUnder(refs, key)
    ensures forall p :: p in moves <==> p in portals && Target(chats, p).Some?
    ensures forall p :: p in moves ==> Target(chats, p) == Some(moves[p])
  {
    moves := map[];
    for i := 0 to |portals|
      invariant forall p :: p in moves <==> p in portals[..i] && Target(chats, p).Some?
      invariant forall p :: p in moves ==> Target(chats, p) == Some(moves[p])
    {
      var portal := portals[i];
      assert portals[..i + 1] == portals[..i] + [portal];
      var target := FirstOther(Under(canonical, GroupUuidOf(portal)), portal);
      if GroupUuidOf(portal) != "" {
        FirstOtherIsTarget(chats, refs, portal, target);
      }
      if target.Some? {
        moves := moves[portal := target.value];
      }
    }
    assert portals[..|portals|] == portals;
  }

  /** The chat is filed on another portal, and is the one the portal's UUID names, in any letter case. */
  ghost predicate FiledElsewhere(chats: map<string, Chat>, portal: string, id: string) {
    && "gid:" <= portal && |portal| > 4 && id in chats
    && chats[id].portalId != "" && chats[id].portalId != portal
    && (Upper(chats[id].groupId) == Upper(portal[4..]) || Upper(id) == Upper(portal[4..]))
  }

  /** The target of a portal is the least portal on which such a chat is filed, and there is none without one. */
  lemma TargetExactly(chats: map<string, Chat>, portal: string)
    ensures Target(chats, portal).None? <==> forall id :: !FiledElsewhere(chats, portal, id)
    ensures Target(chats, portal).Some? ==>
      var t := Target(chats, portal).value;
      && (exists id :: FiledElsewhere(chats, portal, id) && chats[id].portalId == t)
      && (forall id :: FiledElsewhere(chats, portal, id) ==> t == chats[id].portalId || Before(t, chats[id].portalId))
  {
    BeforeIsStrictTotal();
    var uuid := GroupUuidOf(portal);
    var others := OtherPortals(chats, uuid, portal);
    forall id | id in chats
      ensures FiledElsewhere(chats, portal, id) <==>
              chats[id].portalId != "" && chats[id].portalId != portal && Names(id, chats[id], uuid)
    {
      if "gid:" <= portal {
        LowerTwice(portal[4..]);
        FoldingAgrees(chats[id].groupId, portal[4..]);
        FoldingAgrees(id, portal[4..]);
      }
    }
    assert forall id :: FiledElsewhere(chats, portal, id) ==> chats[id].portalId in others;
  }

  lemma LowerTwice(s: string)
    ensures Lower(s) == "" <==> s == ""
  {
    assert |Lower(s)| == |s|;
  }

  /** Where a row ends up: one substitution of the portal it had. */
  function Moved(chats: map<string, Chat>, r: Row): Row {
    if r.portalId.None? then r
    else match Target(chats, r.portalId.value)
      case None => r
      case Some(target) => r.(portalId := Some(target))
  }

  /** The table after one run. */
  function Rekeyed(chats: map<string, Chat>, msgs: map<string, Row>): map<string, Row> {
    map g | g in msgs :: Moved(chats, msgs[g])
  }

  function Relocate(moves: map<string, string>, r: Row): Row {
    if r.portalId.Some? && r.portalId.value in moves then r.(portalId := Some(moves[r.portalId.value])) else r
  }

  /** The UPDATE: (guid, target) pairs are fixed from the original portals before any write. */
  method MoveRows(msgs: map<string, Row>, moves: map<string, string>) returns (moved: map<string, Row>)
    ensures moved.Keys == msgs.Keys
    ensures forall g :: g in msgs ==> moved[g] == Relocate(moves, msgs[g])
  {
    var pairs := map g | g in msgs && msgs[g].portalId.Some? && msgs[g].portalId.value in moves
                   :: moves[msgs[g].portalId.value];
    var order := ReadRows(pairs.Keys);
    moved := msgs;
    for i := 0 to |order|
      invariant moved.Keys == msgs.Keys
      invariant forall g :: g in msgs ==>
        moved[g] == if g in order[..i] then msgs[g].(portalId := Some(pairs[g])) else msgs[g]
    {
      var g := order[i];
      assert g in order && order[..i + 1] == order[..i] + [g];
      moved := moved[g := moved[g].(portalId := Some(pairs[g]))];
    }
    assert order[..|order|] == order;
  }

  /** normalizeGroupMessagePortalIDs. */
  method NormalizeGroupMessagePortalIDs(store: Store)
    modifies store`msgs
    ensures store.msgs == Rekeyed(store.chats, old(store.msgs))
  {
    var chats := store.chats;
    var refs := ListChats(chats);
    var canonical := BuildCanonical(refs);
    var portals := ReadRows(GroupPortals(store.msgs));
    var moves := FindMoves(chats, portals, canonical, refs);
    var moved := MoveRows(store.msgs, moves);
    MovesReachTargets(chats, store.msgs, portals, moves, moved);
    store.msgs := moved;
  }

  /** The moves found for the distinct gid: portals send every row to its target. */
  lemma MovesReachTargets(chats: map<string, Chat>, msgs: map<string, Row>, portals: seq<string>,
                          moves: map<string, string>, moved: map<string, Row>)
    requires forall p :: p in portals <==> p in GroupPortals(msgs)
    requires forall p :: p in moves <==> p in portals && Target(chats, p).Some?
    requires forall p :: p in moves ==> Target(chats, p) == Some(moves[p])
    requires moved.Keys == msgs.Keys && forall g :: g in msgs ==> moved[g] == Relocate(moves, msgs[g])
    ensures moved == Rekeyed(chats, msgs)
  {
    forall g | g in msgs
      ensures Relocate(moves, msgs[g]) == Moved(chats, msgs[g])
    {
      MoveIsTarget(chats, msgs, portals, moves, g);
    }
  }

  lemma MoveIsTarget(chats: map<string, Chat>, msgs: map<string, Row>, portals: seq<string>, moves: map<string, string>,
                     g: string)
    requires g in msgs && forall p :: p in portals <==> p in GroupPortals(msgs)
    requires forall p :: p in moves <==> p in portals && Target(chats, p).Some?
    requires forall p :: p in moves ==> Target(chats, p) == Some(moves[p])
    ensures Relocate(moves, msgs[g]) == Moved(chats, msgs[g])
  {
    if msgs[g].portalId.Some? && "gid:" <= msgs[g].portalId.value {
      assert msgs[g].portalId.value in GroupPortals(msgs);
    }
  }

  /** A run is one Reroute step of the store. */
  lemma RekeyIsStep(db: Db)
    ensures var moves := map g | g in db.msgs && Moved(db.chats, db.msgs[g]) != db.msgs[g]
                           :: Coalesce(Moved(db.chats, db.msgs[g]).portalId);
      Apply(db, Reroute(moves, None)).msgs == Rekeyed(db.chats, db.msgs)
  {
    var moves := map g | g in db.msgs && Moved(db.chats, db.msgs[g]) != db.msgs[g]
                   :: Coalesce(Moved(db.chats, db.msgs[g]).portalId);
    RerouteStep(db, moves);
  }

  lemma RerouteStep(db: Db, moves: map<string, string>)
    ensures Apply(db, Reroute(moves, None)).msgs
         == map g | g in db.msgs :: if g in moves then db.msgs[g].(portalId := Some(moves[g])) else db.msgs[g]
  {}

  lemma RunAgain(chats: map<string, Chat>, r: Row)
    ensures Moved(chats, Moved(chats, r)) == Moved(chats, r) <==> Settles(chats, r)
  {
    var once := Moved(chats, r);
    if once.portalId.Some? {
      FiledHasNoTarget(chats, once.portalId.value);
      TargetDiffers(chats, once.portalId.value);
    }
  }

  lemma TargetDiffers(chats: map<string, Chat>, portal: string)
    ensures Target(chats, portal).Some? ==> Target(chats, portal).value != portal
  {}

  /** Every chat that the portal's UUID names is filed on that portal, or on none. */
  predicate Filed(chats: map<string, Chat>, portal: string) {
    forall id :: id in chats && Names(id, chats[id], GroupUuidOf(portal)) ==> chats[id].portalId in {"", portal}
  }

  lemma FiledHasNoTarget(chats: map<string, Chat>, portal: string)
    ensures Filed(chats, portal) <==> Target(chats, portal).None?
  {
    if Target(chats, portal).None? {
      forall id | id in chats && Names(id, chats[id], GroupUuidOf(portal))
        ensures chats[id].portalId in {"", portal}
      {
        assert chats[id].portalId !in OtherPortals(chats, GroupUuidOf(portal), portal);
      }
    }
  }

  /** The portal the row is on after a run is the one that all chats named by its UUID are filed on. */
  predicate Settles(chats: map<string, Chat>, r: Row) {
    var moved := Moved(chats, r);
    moved.portalId.Some? ==> Filed(chats, moved.portalId.value)
  }

  /** A second run changes nothing exactly when every row was left on a portal where its chats are filed. */
  lemma SecondRunIdleExactly(chats: map<string, Chat>, msgs: map<string, Row>)
    ensures Rekeyed(chats, Rekeyed(chats, msgs)) == Rekeyed(chats, msgs)
       <==> forall g :: g in msgs ==> Settles(chats, msgs[g])
  {
    var once := Rekeyed(chats, msgs);
    var twice := Rekeyed(chats, once);
    forall g | g in msgs
      ensures twice[g] == once[g] <==> Settles(chats, msgs[g])
    {
      RunAgain(chats, msgs[g]);
    }
    if twice == once {
      forall g | g in msgs
        ensures Settles(chats, msgs[g])
      {
        assert twice[g] == once[g];
      }
    }
  }

  /** Two group chats filed under each other's UUID trade their messages on every run. */
  lemma SwapNeverSettles(a: Chat, b: Chat, r: Row)
    requires a.groupId == "b" && a.portalId == "gid:a" && b.groupId == "a" && b.portalId == "gid:b"
    requires r.portalId == Some("gid:a")
    ensures var chats := map["x" := a, "y" := b];
      && Moved(chats, r) == r.(portalId := Some("gid:b"))
      && Moved(chats, Moved(chats, r)) == r
      && !Settles(chats, r)
  {
    var chats := map["x" := a, "y" := b];
    assert Lower("a") == "a" && Lower("b") == "b" && Lower("x") == "x" && Lower("y") == "y";
    assert "gid:a"[4..] == "a" && "gid:b"[4..] == "b";
    assert GroupUuidOf("gid:a") == "a" && GroupUuidOf("gid:b") == "b";
    assert "gid:a"[4] != "gid:b"[4];
    assert Names("y", b, "a") && Names("x", a, "b");
    assert "x"[0] != "y"[0];
    assert chats["x"] == a && chats["y"] == b;
    assert chats["y"].portalId in OtherPortals(chats, "a", "gid:a");
    assert chats["x"].portalId in OtherPortals(chats, "b", "gid:b");
    assert "a"[0] != "b"[0] && "x"[0] != "b"[0] && "y"[0] != "a"[0];
    assert OtherPortals(chats, "a", "gid:a") == {"gid:b"};
    assert OtherPortals(chats, "b", "gid:b") == {"gid:a"};
  }
}
