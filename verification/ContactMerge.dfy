/**
  One room per contact: live routing with a fast path, and batch canonicalisation at
  initial sync, must pick the same portal over the same rooms. The identifier and phone
  normalisers are parameters.
 */
module ContactMerge {
  import opened Keyset

  // ---- Choosing among existing rooms ---------------------------------------------------------

  /** existingDMPortalCandidate; an empty ID is no room. */
  datatype Room = NoRoom | Room(id: string, populated: bool)

  type Finder = string -> Room

  /** The first candidate whose room is populated, else the first that has a room. */
  function Best(candidates: seq<string>, find: Finder): Room {
    if candidates == [] then NoRoom
    else
      var first, rest := find(candidates[0]), Best(candidates[1..], find);
      if first.Room? && (first.populated || !(rest.Room? && rest.populated)) then first else rest
  }

  ghost predicate AnyPopulated(candidates: seq<string>, find: Finder) {
    exists c :: c in candidates && find(c).Room? && find(c).populated
  }

  lemma {:induction false} BestPopulated(candidates: seq<string>, find: Finder)
    ensures Best(candidates, find).NoRoom? <==> forall c :: c in candidates ==> find(c).NoRoom?
    ensures Best(candidates, find).Room? && Best(candidates, find).populated <==> AnyPopulated(candidates, find)
  {
    if candidates != [] {
      BestPopulated(candidates[1..], find);
      assert candidates == [candidates[0]] + candidates[1..];
    }
  }

  /** What best means, without the recursion. */
  lemma {:induction false} BestIs(candidates: seq<string>, find: Finder)
    requires Best(candidates, find).Room?
    ensures exists i :: IsBestAt(candidates, find, i) && find(candidates[i]) == Best(candidates, find)
  {
    var first, tail := find(candidates[0]), candidates[1..];
    var rest := Best(tail, find);
    BestPopulated(candidates, find);
    if first.Room? && (first.populated || !(rest.Room? && rest.populated)) {
      assert IsBestAt(candidates, find, 0);
    } else {
      BestIs(tail, find);
      var i :| IsBestAt(tail, find, i) && find(tail[i]) == rest;
    }
  }

  /** Nothing earlier is as good: no earlier room is populated, and an unpopulated pick is the only kind there is. */
  ghost predicate IsBestAt(candidates: seq<string>, find: Finder, i: int) {
    && 0 <= i < |candidates| && find(candidates[i]).Room?
    && (forall j :: 0 <= j < i ==> !(find(candidates[j]).Room? && find(candidates[j]).populated))
    && (!find(candidates[i]).populated ==>
          (forall j :: 0 <= j < i ==> find(candidates[j]).NoRoom?)
          && (forall c :: c in candidates && find(c).Room? ==> !find(c).populated))
  }

  /** The room to keep when another candidate's turns up. */
  function Better(chosen: Room, existing: Room): Room {
    if existing.Room? && (chosen.NoRoom? || (!chosen.populated && existing.populated)) then existing else chosen
  }

  lemma {:induction false} BestAppend(candidates: seq<string>, c: string, find: Finder)
    ensures Best(candidates + [c], find)
         == Better(Best(candidates, find), find(c))
  {
    if candidates == [] {
      assert candidates + [c] == [c];
      assert [c][1..] == [];
    } else {
      assert (candidates + [c])[1..] == candidates[1..] + [c];
      BestAppend(candidates[1..], c, find);
    }
  }

  /** preferredExistingDMPortalCandidate. */
  method PreferredExisting(candidates: seq<string>, find: Finder) returns (chosen: Room)
    ensures chosen == Best(candidates, find)
  {
    chosen := NoRoom;
    for i := 0 to |candidates|
      invariant chosen == Best(candidates[..i], find)
    {
      BestAppend(candidates[..i], candidates[i], find);
      assert candidates[..i + 1] == candidates[..i] + [candidates[i]];
      var existing := find(candidates[i]);
      if existing.NoRoom? {
        continue;
      }
      if chosen.NoRoom? || (!chosen.populated && existing.populated) {
        chosen := existing;
      }
    }
    assert candidates[..|candidates|] == candidates;
  }

  // ---- Spellings of one identifier --------------------------------------------------------------

  predicate IsNumeric(s: string) {
    s != "" && forall c :: c in s ==> '0' <= c <= '9'
  }

  function Add(variants: seq<string>, v: string): seq<string> {
    if v != "" && v !in variants then variants + [v] else variants
  }

  /** existingDMPortalIDVariants. */
  function Variants(identifier: string, normalize: string -> string): seq<string> {
    var normalized := normalize(identifier);
    var exact := Add(Add([], identifier), normalized);
    if !("tel:" <= normalized) then exact
    else
      var local := normalized[4..];
      if "+" <= local then
        var bare := Add(exact, "tel:" + local[1..]);
        if "+1" <= local && |local| == 12 then Add(bare, "tel:" + local[2..]) else bare
      else if IsNumeric(local) then
        var ten := if |local| == 10 then Add(exact, "tel:1" + local) else exact;
        if |local| == 11 && "1" <= local then Add(ten, "tel:" + local[1..]) else ten
      else exact
  }

  /** The given spelling first, the normal form included, none empty or repeated, extras only phone spellings. */
  ghost predicate Spells(vs: seq<string>, identifier: string, normal: string) {
    && (identifier != "" ==> vs != [] && vs[0] == identifier)
    && (normal != "" ==> normal in vs)
    && "" !in vs
    && (forall i, j :: 0 <= i < j < |vs| ==> vs[i] != vs[j])
    && (forall v :: v in vs ==> v == identifier || v == normal || "tel:" <= v)
  }

  lemma AddKeepsSpells(vs: seq<string>, identifier: string, normal: string, v: string)
    requires Spells(vs, identifier, normal) && "tel:" <= v
    ensures Spells(Add(vs, v), identifier, normal)
  {}

  lemma VariantsShape(identifier: string, normalize: string -> string)
    ensures Spells(Variants(identifier, normalize), identifier, normalize(identifier))
  {
    var normal := normalize(identifier);
    var exact := Add(Add([], identifier), normal);
    assert Spells(exact, identifier, normal);
    if "tel:" <= normal {
      var local := normal[4..];
      if "+" <= local {
        AddKeepsSpells(exact, identifier, normal, "tel:" + local[1..]);
        if "+1" <= local {
          AddKeepsSpells(Add(exact, "tel:" + local[1..]), identifier, normal, "tel:" + local[2..]);
        }
      } else {
        AddKeepsSpells(exact, identifier, normal, "tel:1" + local);
        if "1" <= local {
          AddKeepsSpells(exact, identifier, normal, "tel:" + local[1..]);
        }
      }
    }
  }

  /** A phone number written another way: without its plus sign, or with or without the country code 1. */
  ghost predicate Respells(normal: string, v: string, x: string) {
    || (normal == "tel:+" + x && v == "tel:" + x)
    || (normal == "tel:+1" + x && |x| == 10 && v == "tel:" + x)
    || (normal == "tel:" + x && |x| == 10 && IsNumeric(x) && v == "tel:1" + x)
    || (normal == "tel:1" + x && |x| == 10 && IsNumeric(x) && v == "tel:" + x)
  }

  lemma NumericTail(x: string)
    requires x != ""
    ensures IsNumeric("1" + x) <==> IsNumeric(x)
    ensures IsNumeric(x) ==> !("+" <= x)
  {
    assert forall c :: c in "1" + x <==> c == '1' || c in x;
    assert x[0] in x;
  }

  /** What may follow tel: in another spelling. */
  predicate OtherLocal(local: string, other: string) {
    if "+" <= local then other == local[1..] || ("+1" <= local && |local| == 12 && other == local[2..])
    else
      && IsNumeric(local)
      && ((|local| == 10 && other == "1" + local) || (|local| == 11 && "1" <= local && other == local[1..]))
  }

  lemma TriedIsOther(identifier: string, normalize: string -> string, v: string) returns (other: string)
    requires v in Variants(identifier, normalize) && v != identifier && v != normalize(identifier)
    ensures "tel:" <= normalize(identifier) && OtherLocal(normalize(identifier)[4..], other) && v == "tel:" + other
  {
    other := v[4..];
    assert "tel:1" + normalize(identifier)[4..] == "tel:" + ("1" + normalize(identifier)[4..]);
  }

  lemma OtherIsRespelled(local: string, other: string) returns (x: string)
    requires OtherLocal(local, other)
    ensures Respells("tel:" + local, "tel:" + other, x)
  {
    if "+" <= local {
      x := other;
      assert local == "+" + local[1..];
      assert "tel:" + ("+" + local[1..]) == "tel:+" + local[1..];
      if other != local[1..] {
        assert local == "+1" + x;
        assert "tel:" + ("+1" + x) == "tel:+1" + x;
      }
    } else if |local| == 10 {
      x := local;
      assert "tel:" + ("1" + local) == "tel:1" + local;
    } else {
      x := local[1..];
      assert local == "1" + x;
      assert "tel:" + ("1" + x) == "tel:1" + x;
      NumericTail(x);
    }
  }

  lemma RespelledIsTried(identifier: string, normalize: string -> string, v: string, x: string)
    requires Respells(normalize(identifier), v, x)
    ensures v in Variants(identifier, normalize)
  {
    var normal := normalize(identifier);
    var local := normal[4..];
    if normal == "tel:+" + x && v == "tel:" + x {
      assert local == "+" + x && local[1..] == x;
    } else if normal == "tel:+1" + x && v == "tel:" + x {
      assert local == "+1" + x && local[2..] == x;
    } else if normal == "tel:" + x {
      NumericTail(x);
      assert local == x;
    } else {
      NumericTail(x);
      assert local == "1" + x && local[1..] == x;
    }
  }

  /** The spellings tried: the one given, its normal form, and of a phone number the other ways to write it. */
  lemma VariantsExactly(identifier: string, normalize: string -> string, v: string)
    ensures v in Variants(identifier, normalize) <==>
      v != "" && (v == identifier || v == normalize(identifier) || exists x :: Respells(normalize(identifier), v, x))
  {
    VariantsShape(identifier, normalize);
    if v in Variants(identifier, normalize) && v != identifier && v != normalize(identifier) {
      var other := TriedIsOther(identifier, normalize, v);
      var x := OtherIsRespelled(normalize(identifier)[4..], other);
      assert normalize(identifier) == "tel:" + normalize(identifier)[4..];
    }
    if x :| Respells(normalize(identifier), v, x) {
      RespelledIsTried(identifier, normalize, v, x);
    }
  }

  /** A North American number is tried with and without its country code, whatever the spelling given. */
  lemma AmericanSpellings(identifier: string, normalize: string -> string, ten: string)
    requires |ten| == 10 && normalize(identifier) == "tel:+1" + ten
    ensures "tel:1" + ten in Variants(identifier, normalize) && "tel:" + ten in Variants(identifier, normalize)
  {
    var local := normalize(identifier)[4..];
    assert local == "+1" + ten && local[1..] == "1" + ten && local[2..] == ten;
    assert "tel:" + ("1" + ten) == "tel:1" + ten;
  }

  /** Rooms by portal id, with whether each has messages. */
  type Rooms = map<string, bool>

  function Lookup(rooms: Rooms, id: string): Room {
    if id != "" && id in rooms then Room(id, rooms[id]) else NoRoom
  }

  /** Portals with the same normal form, sorted. */
  function NormalizedMatches(rooms: Rooms, normalize: string -> string, identifier: string): seq<string> {
    BeforeIsStrictTotal();
    Sorted(Before, set id | id in rooms && normalize(id) == normalize(identifier))
  }

  ghost predicate Distinct(ids: seq<string>) {
    forall i, j :: 0 <= i < j < |ids| ==> ids[i] != ids[j]
  }

  ghost predicate InOrder(ids: seq<string>) {
    forall i, j :: 0 <= i < j < |ids| ==> Before(ids[i], ids[j])
  }

  /** The variants, then every other match once, in the order of the matches. */
  ghost predicate Extends(candidates: seq<string>, variants: seq<string>, matches: seq<string>) {
    && variants <= candidates
    && (forall x :: x in candidates <==> x in variants || x in matches)
    && (forall x :: x in candidates[|variants|..] ==> x in matches && x !in variants)
    && (Distinct(variants) ==> Distinct(candidates))
    && (InOrder(matches) ==> InOrder(candidates[|variants|..]))
  }

  lemma {:induction false} UnseenExtends(variants: seq<string>, matches: seq<string>)
    ensures Extends(Unseen(variants, matches), variants, matches)
  {
    if matches != [] {
      var rest, m := matches[..|matches| - 1], matches[|matches| - 1];
      UnseenExtends(variants, rest);
      assert matches == rest + [m];
      if m !in Unseen(variants, rest) {
        AppendExtends(Unseen(variants, rest), variants, rest, m);
      }
    } else {
      assert variants[|variants|..] == [];
    }
  }

  lemma AppendExtends(candidates: seq<string>, variants: seq<string>, matches: seq<string>,
                                         m: string)
    requires Extends(candidates, variants, matches) && m !in candidates
    ensures Extends(candidates + [m], variants, matches + [m])
  {
    var added := candidates[|variants|..];
    assert (candidates + [m])[|variants|..] == added + [m];
    if InOrder(matches + [m]) {
      assert forall i :: 0 <= i < |matches| ==> (matches + [m])[i] == matches[i];
      forall i | 0 <= i < |added|
        ensures Before(added[i], m)
      {
        assert added[i] in added;
        var k :| 0 <= k < |matches| && matches[k] == added[i];
        assert Before((matches + [m])[k], (matches + [m])[|matches|]);
      }
      assert InOrder(matches);
    }
  }

  /** The extra spellings, each once, behind the variants. */
  method AppendUnseen(variants: seq<string>, matches: seq<string>) returns (candidates: seq<string>)
    ensures Extends(candidates, variants, matches)
    ensures candidates == Unseen(variants, matches)
  {
    candidates := variants;
    for i := 0 to |matches|
      invariant candidates == Unseen(variants, matches[..i])
    {
      assert matches[..i + 1][..i] == matches[..i];
      if matches[i] !in candidates {
        candidates := candidates + [matches[i]];
      }
    }
    assert matches[..|matches|] == matches;
    UnseenExtends(variants, matches);
  }

  function Unseen(variants: seq<string>, matches: seq<string>): seq<string> {
    if matches == [] then variants
    else
      var init, m := Unseen(variants, matches[..|matches| - 1]), matches[|matches| - 1];
      if m in init then init else init + [m]
  }

  /** preferredExistingDMPortalSpelling. */
  function Spelling(rooms: Rooms, normalize: string -> string, identifier: string): Room {
    var candidates := Unseen(Variants(identifier, normalize), NormalizedMatches(rooms, normalize, identifier));
    Best(candidates, id => Lookup(rooms, id))
  }

  method PreferredSpelling(rooms: Rooms, normalize: string -> string, identifier: string) returns (chosen: Room)
    ensures chosen == Spelling(rooms, normalize, identifier)
  {
    var candidates := AppendUnseen(Variants(identifier, normalize), NormalizedMatches(rooms, normalize, identifier));
    chosen := PreferredExisting(candidates, id => Lookup(rooms, id));
  }

  /** The room of an identifier, over one room table. */
  function RoomFinder(rooms: Rooms, normalize: string -> string): Finder {
    id => Spelling(rooms, normalize, id)
  }

  // ---- The fast path -------------------------------------------------------------------------------

  /** Every contact alias is looked up by its best spelling. */
  function Enumerate(rooms: Rooms, normalize: string -> string, identifiers: seq<string>): Room {
    Best(identifiers, RoomFinder(rooms, normalize))
  }

  /** A populated room among the leading candidates is the best of all of them. */
  lemma {:induction false} LeadingPopulatedWins(front: seq<string>, all: seq<string>, find: Finder, i: nat)
    requires front <= all && i < |front| && find(front[i]).Room? && find(front[i]).populated
    requires forall j :: 0 <= j < i ==> !(find(front[j]).Room? && find(front[j]).populated)
    ensures Best(all, find) == find(front[i])
  {
    assert all[0] == front[0];
    if i > 0 {
      assert front[1..] <= all[1..];
      LeadingPopulatedWins(front[1..], all[1..], find, i - 1);
    }
  }

  /**
    findExistingDMPortalCandidateWithFastPath: trying the first identifier's variants
    directly gives what enumerating every room would, when direct lookups see the same rooms.
   */
  method FindWithFastPath(rooms: Rooms, normalize: string -> string, identifiers: seq<string>) returns (chosen: Room)
    ensures chosen == Enumerate(rooms, normalize, identifiers)
  {
    if |identifiers| > 0 {
      var i := FirstPopulated(Variants(identifiers[0], normalize), id => Lookup(rooms, id));
      if i >= 0 {
        FastPathIsExact(rooms, normalize, identifiers, i);
        return Lookup(rooms, Variants(identifiers[0], normalize)[i]);
      }
    }
    chosen := PreferredExisting(identifiers, RoomFinder(rooms, normalize));
  }

  /** The direct lookups of the fast path: the first populated room, or -1. */
  method FirstPopulated(variants: seq<string>, direct: Finder) returns (i: int)
    ensures -1 <= i < |variants|
    ensures i >= 0 ==> direct(variants[i]).Room? && direct(variants[i]).populated
    ensures i >= 0 ==> forall j :: 0 <= j < i ==> !(direct(variants[j]).Room? && direct(variants[j]).populated)
  {
    for k := 0 to |variants|
      invariant forall j :: 0 <= j < k ==> !(direct(variants[j]).Room? && direct(variants[j]).populated)
    {
      var existing := direct(variants[k]);
      if existing.Room? && existing.populated {
        return k;
      }
    }
    i := -1;
  }

  lemma FastPathIsExact(rooms: Rooms, normalize: string -> string, identifiers: seq<string>, i: nat)
    requires identifiers != [] && i < |Variants(identifiers[0], normalize)|
    requires var room := Lookup(rooms, Variants(identifiers[0], normalize)[i]); room.Room? && room.populated
    requires forall j :: 0 <= j < i ==>
      var room := Lookup(rooms, Variants(identifiers[0], normalize)[j]); !(room.Room? && room.populated)
    ensures Enumerate(rooms, normalize, identifiers) == Lookup(rooms, Variants(identifiers[0], normalize)[i])
  {
    var first := identifiers[0];
    var variants, matches := Variants(first, normalize), NormalizedMatches(rooms, normalize, first);
    UnseenExtends(variants, matches);
    LeadingPopulatedWins(variants, Unseen(variants, matches), id => Lookup(rooms, id), i);
    LeadingPopulatedWins([first], identifiers, RoomFinder(rooms, normalize), 0);
  }

  // ---- Contacts ---------------------------------------------------------------------------------------

  /** Portal ids of the contact's usable phones and e-mail addresses, as normalised. */
  datatype Contact = Unknown | Contact(named: bool, phones: seq<string>, emails: seq<string>)

  /** The phone and e-mail normalisers; an empty result is no handle. */
  datatype Rules = Rules(phone: string -> string, email: string -> string)

  function Handles(c: Contact, n: Rules): set<string> {
    if c.Unknown? then {}
    else
      (set p | p in c.phones && n.phone(p) != "" :: "tel:" + n.phone(p))
      + (set e | e in c.emails && n.email(e) != "" :: "mailto:" + n.email(e))
  }

  predicate IsHandle(prefix: string, raw: seq<string>, norm: string -> string, x: string) {
    exists r :: r in raw && norm(r) != "" && x == prefix + norm(r)
  }

  method AddHandles(ids: seq<string>, prefix: string, raw: seq<string>,
                    norm: string -> string) returns (more: seq<string>)
    requires forall i, j :: 0 <= i < j < |ids| ==> ids[i] != ids[j]
    ensures forall i, j :: 0 <= i < j < |more| ==> more[i] != more[j]
    ensures forall x :: x in more <==> x in ids || IsHandle(prefix, raw, norm, x)
  {
    more := ids;
    for i := 0 to |raw|
      invariant forall i, j :: 0 <= i < j < |more| ==> more[i] != more[j]
      invariant forall x :: x in more <==> x in ids || IsHandle(prefix, raw[..i], norm, x)
    {
      assert raw[..i + 1] == raw[..i] + [raw[i]];
      if norm(raw[i]) != "" && prefix + norm(raw[i]) !in more {
        more := more + [prefix + norm(raw[i])];
      }
    }
    assert raw[..|raw|] == raw;
  }

  /** contactPortalIDs: every handle once. */
  method ContactPortalIDs(c: Contact, n: Rules) returns (ids: seq<string>)
    ensures forall i, j :: 0 <= i < j < |ids| ==> ids[i] != ids[j]
    ensures forall x :: x in ids <==> x in Handles(c, n)
  {
    ids := [];
    if c.Contact? {
      ids := AddHandles(ids, "tel:", c.phones, n.phone);
      ids := AddHandles(ids, "mailto:", c.emails, n.email);
    }
  }

  /** Phones before e-mail addresses, each kind sorted. */
  predicate PhoneFirst(a: string, b: string) {
    if ("tel:" <= a) != ("tel:" <= b) then "tel:" <= a else Before(a, b)
  }

  lemma PhoneFirstIsStrictTotal()
    ensures StrictTotal(PhoneFirst)
  {
    BeforeIsStrictTotal();
  }

  /** preferredContactPortalIDs: sorting the distinct handles. */
  function PreferredIDs(c: Contact, n: Rules): seq<string> {
    PhoneFirstIsStrictTotal();
    Sorted(PhoneFirst, Handles(c, n))
  }

  function JoinBars(ids: seq<string>): string {
    if ids == [] then "" else if |ids| == 1 then ids[0] else ids[0] + "|" + JoinBars(ids[1..])
  }

  predicate Mergeable(c: Contact, n: Rules) {
    c.Contact? && c.named && |Handles(c, n)| > 1
  }

  /** contactKeyFromContact; empty when there is nothing to merge. */
  function KeyOf(c: Contact, n: Rules): string {
    BeforeIsStrictTotal();
    if Mergeable(c, n) then JoinBars(Sorted(Before, Handles(c, n))) else ""
  }

  predicate BarFree(c: Contact, n: Rules) {
    forall h :: h in Handles(c, n) ==> '|' !in h
  }

  lemma BarEndsHead(a: string, b: string, s: string, t: string)
    requires '|' !in b && |a| < |b|
    ensures a + "|" + s != b + "|" + t
  {
    assert (a + "|" + s)[|a|] == '|';
    assert (b + "|" + t)[|a|] == b[|a|];
  }

  lemma SameHead(a: string, b: string, s: string, t: string)
    requires '|' !in a && '|' !in b && a + "|" + s == b + "|" + t
    ensures a == b && s == t
  {
    var x, y := a + "|" + s, b + "|" + t;
    if |a| < |b| {
      BarEndsHead(a, b, s, t);
    } else if |b| < |a| {
      BarEndsHead(b, a, t, s);
    }
    assert a == x[..|a|] && b == y[..|b|];
    assert s == x[|a| + 1..] && t == y[|b| + 1..];
  }

  lemma BarlessHead(a: string, b: string, t: string)
    requires '|' !in a
    ensures a != b + "|" + t
  {
    assert (b + "|" + t)[|b|] == '|';
  }

  /** Joining bar-free ids loses nothing. */
  lemma {:induction false} JoinInjective(a: seq<string>, b: seq<string>)
    requires a != [] && b != [] && JoinBars(a) == JoinBars(b)
    requires (forall x :: x in a ==> '|' !in x) && (forall x :: x in b ==> '|' !in x)
    ensures a == b
  {
    if |a| == 1 && |b| > 1 {
      BarlessHead(a[0], b[0], JoinBars(b[1..]));
    } else if |b| == 1 && |a| > 1 {
      BarlessHead(b[0], a[0], JoinBars(a[1..]));
    } else if |a| > 1 {
      SameHead(a[0], b[0], JoinBars(a[1..]), JoinBars(b[1..]));
      JoinInjective(a[1..], b[1..]);
      assert a == [a[0]] + a[1..] && b == [b[0]] + b[1..];
    }
  }

  /** Contacts with the same key have the same handles, as long as no handle contains a bar. */
  lemma KeyDeterminesHandles(c: Contact, d: Contact, n: Rules)
    requires Mergeable(c, n) && Mergeable(d, n) && BarFree(c, n) && BarFree(d, n) && KeyOf(c, n) == KeyOf(d, n)
    ensures Handles(c, n) == Handles(d, n)
  {
    BeforeIsStrictTotal();
    SortedMembers(Before, Handles(c, n));
    SortedMembers(Before, Handles(d, n));
    JoinInjective(Sorted(Before, Handles(c, n)), Sorted(Before, Handles(d, n)));
  }

  // ---- Live routing -----------------------------------------------------------------------------------

  predicate HasSelf(c: Contact, n: Rules, isSelf: string -> bool) {
    exists h :: h in Handles(c, n) && isSelf(h)
  }

  /** The room of the best candidate, or the first candidate for a fresh contact. */
  function Pick(candidates: seq<string>, find: Finder, default: string): string {
    var chosen := Best(candidates, find);
    if chosen.Room? then chosen.id else default
  }

  /** resolveContactPortalID through chooseContactPortalID and liveContactPortalIDCandidates. */
  method LivePortal(identifier: string, c: Contact, n: Rules, isSelf: string -> bool, rooms: Rooms,
                    normalize: string -> string)
    returns (portal: string)
    ensures portal == Live(identifier, c, n, isSelf, RoomFinder(rooms, normalize))
    ensures ',' !in identifier && MergesLive(identifier, c, n, isSelf) ==>
              IsPortalOf(Handles(c, n), RoomFinder(rooms, normalize), portal)
  {
    LiveIsPortal(identifier, c, n, isSelf, RoomFinder(rooms, normalize));
    if ',' in identifier {
      return identifier;
    }
    var candidates, preferFresh := [identifier], false;
    if !isSelf(identifier) && c.Contact? && c.named {
      var ids := ContactPortalIDs(c, n);
      HandleCount(ids, Handles(c, n));
      if |ids| > 1 && !HasSelf(c, n, isSelf) {
        candidates, preferFresh := PreferredIDs(c, n), true;
        PreferredNonEmpty(c, n);
      }
    }
    var chosen := FindWithFastPath(rooms, normalize, candidates);
    if chosen.Room? {
      return chosen.id;
    }
    portal := if preferFresh then candidates[0] else identifier;
  }

  lemma {:induction false} HandleCount(ids: seq<string>, handles: set<string>)
    requires (forall i, j :: 0 <= i < j < |ids| ==> ids[i] != ids[j]) && forall x :: x in ids <==> x in handles
    ensures |ids| == |handles|
  {
    if ids == [] {
      assert handles == {};
    } else {
      var rest := ids[1..];
      assert ids == [ids[0]] + rest;
      assert ids[0] !in rest;
      HandleCount(rest, handles - {ids[0]});
    }
  }

  lemma PreferredNonEmpty(c: Contact, n: Rules)
    ensures |PreferredIDs(c, n)| == |Handles(c, n)|
  {
    PhoneFirstIsStrictTotal();
    SortedMembers(PhoneFirst, Handles(c, n));
  }

  predicate MergesLive(identifier: string, c: Contact, n: Rules, isSelf: string -> bool) {
    !isSelf(identifier) && Mergeable(c, n) && !HasSelf(c, n, isSelf)
  }

  function Live(identifier: string, c: Contact, n: Rules, isSelf: string -> bool, find: Finder): string {
    if ',' in identifier then identifier
    else if MergesLive(identifier, c, n, isSelf) then
      PreferredNonEmpty(c, n);
      Pick(PreferredIDs(c, n), find, PreferredIDs(c, n)[0])
    else Pick([identifier], find, identifier)
  }

  // ---- Initial sync -----------------------------------------------------------------------------------

  /** Group chats are left alone. */
  predicate IsGroup(portal: string) {
    ',' in portal || "gid:" <= portal
  }

  /** The key under which an entry is grouped, empty for none. */
  function EntryKey(portal: string, lookup: string -> Contact, n: Rules): string {
    if IsGroup(portal) then "" else KeyOf(lookup(portal), n)
  }

  datatype Group = Group(contact: Contact, indices: seq<nat>)

  /** The positions before a bound that carry a key, in order. */
  function Positions(portals: seq<string>, key: string -> string, k: string): seq<nat> {
    if portals == [] then []
    else
      var i := |portals| - 1;
      Positions(portals[..i], key, k) + if key(portals[i]) == k then [i] else []
  }

  ghost predicate Rising(ps: seq<nat>) {
    forall i, j :: 0 <= i < j < |ps| ==> ps[i] < ps[j]
  }

  lemma {:induction false} PositionsFacts(portals: seq<string>, key: string -> string, k: string)
    ensures forall i: nat :: i in Positions(portals, key, k) <==> i < |portals| && key(portals[i]) == k
    ensures Rising(Positions(portals, key, k))
  {
    if portals != [] {
      var i := |portals| - 1;
      PositionsFacts(portals[..i], key, k);
      var front, all := Positions(portals[..i], key, k), Positions(portals, key, k);
      assert forall j: nat :: j < i ==> portals[..i][j] == portals[j];
      assert all == front + if key(portals[i]) == k then [i] else [];
      forall x: nat
        ensures x in all <==> x < |portals| && key(portals[x]) == k
      {
        assert x in front <==> x < i && key(portals[x]) == k;
      }
      forall j | 0 <= j < |front|
        ensures front[j] < i
      {
        assert front[j] in front;
      }
    }
  }

  lemma FirstPosition(portals: seq<string>, key: string -> string, i: nat)
    requires i < |portals|
    ensures var ps := Positions(portals, key, key(portals[i]));
      && ps != [] && ps[0] <= i && key(portals[ps[0]]) == key(portals[i])
      && forall j: nat :: j < ps[0] ==> key(portals[j]) != key(portals[i])
  {
    var ps := Positions(portals, key, key(portals[i]));
    PositionsFacts(portals, key, key(portals[i]));
    assert i in ps;
    assert ps[0] in ps;
    forall j: nat | j in ps
      ensures ps[0] <= j
    {
      var m :| 0 <= m < |ps| && ps[m] == j;
    }
  }

  /** An entry joins the group of its key, or opens it. */
  function AddEntry(groups: map<string, Group>, k: string, i: nat, contact: Contact): map<string, Group> {
    if k == "" then groups
    else if k in groups then groups[k := Group(groups[k].contact, groups[k].indices + [i])]
    else groups[k := Group(contact, [i])]
  }

  ghost predicate Grouped(groups: map<string, Group>, portals: seq<string>, key: string -> string,
                          lookup: string -> Contact) {
    && (forall k :: k in groups <==> k != "" && Positions(portals, key, k) != [])
    && (forall k :: k in groups ==> IsGroupOf(groups[k], portals, key, lookup, k))
  }

  lemma PositionsGrow(portals: seq<string>, portal: string, key: string -> string, k: string)
    ensures Positions(portals + [portal], key, k)
         == Positions(portals, key, k) + if key(portal) == k then [|portals|] else []
  {
    assert (portals + [portal])[..|portals|] == portals;
  }

  lemma GroupGrows(groups: map<string, Group>, portals: seq<string>, portal: string, key: string -> string,
                   lookup: string -> Contact, k: string)
    requires Grouped(groups, portals, key, lookup)
    ensures var more, all := AddEntry(groups, key(portal), |portals|, lookup(portal)), portals + [portal];
      && (k in more <==> k != "" && Positions(all, key, k) != [])
      && (k in more ==> IsGroupOf(more[k], all, key, lookup, k))
  {
    PositionsGrow(portals, portal, key, k);
    assert k in groups ==> IsGroupOf(groups[k], portals, key, lookup, k);
  }

  /** The grouping loop. */
  method GroupEntries(portals: seq<string>, key: string -> string,
                      lookup: string -> Contact) returns (groups: map<string, Group>)
    ensures Grouped(groups, portals, key, lookup)
  {
    groups := map[];
    for i := 0 to |portals|
      invariant Grouped(groups, portals[..i], key, lookup)
    {
      var portal := portals[i];
      assert portals[..i + 1] == portals[..i] + [portal];
      forall k
        ensures var more := AddEntry(groups, key(portal), i, lookup(portal));
          && (k in more <==> k != "" && Positions(portals[..i + 1], key, k) != [])
          && (k in more ==> IsGroupOf(more[k], portals[..i + 1], key, lookup, k))
      {
        GroupGrows(groups, portals[..i], portal, key, lookup, k);
      }
      groups := AddEntry(groups, key(portal), i, lookup(portal));
    }
    assert portals[..|portals|] == portals;
  }

  /** A group holds its entries in order and the contact of the first. */
  ghost predicate IsGroupOf(g: Group, portals: seq<string>, key: string -> string, lookup: string -> Contact,
                            k: string) {
    && g.indices == Positions(portals, key, k) && g.indices != []
    && g.indices[0] < |portals| && g.contact == lookup(portals[g.indices[0]])
  }

  /** The plan for one contact: its portal, or nothing when it is the user's own. */
  function Chosen(c: Contact, n: Rules, isSelf: string -> bool, find: Finder): (plan: seq<string>)
    ensures |plan| <= 1
  {
    PreferredNonEmpty(c, n);
    if Handles(c, n) == {} || HasSelf(c, n, isSelf) then []
    else [Pick(PreferredIDs(c, n), find, PreferredIDs(c, n)[0])]
  }

  /** The inner loop: every entry of the group gets the portal, all but the first are skipped. */
  method Assign(canonical: seq<string>, skip: set<nat>, indices: seq<nat>, portal: string)
    returns (canonical': seq<string>, skip': set<nat>)
    requires indices != [] && forall i: nat :: i in indices ==> i < |canonical|
    requires forall i, j :: 0 <= i < j < |indices| ==> indices[i] < indices[j]
    ensures |canonical'| == |canonical|
    ensures forall i: nat :: i < |canonical| ==> canonical'[i] == if i in indices then portal else canonical[i]
    ensures forall i: nat :: i in skip' <==> i in skip || (i in indices && i != indices[0])
  {
    canonical', skip' := canonical, skip;
    for position := 0 to |indices|
      invariant |canonical'| == |canonical|
      invariant forall i: nat :: i < |canonical| ==>
        canonical'[i] == if i in indices[..position] then portal else canonical[i]
      invariant forall i: nat :: i in skip' <==> i in skip || (i in indices[..position] && i != indices[0])
    {
      var i := indices[position];
      assert i in indices && indices[..position + 1] == indices[..position] + [i];
      canonical' := canonical'[i := portal];
      if position > 0 {
        assert i > indices[0];
        skip' := skip' + {i};
      }
    }
    assert indices[..|indices|] == indices;
  }

  /** The first entry of an entry's group. */
  function Leader(portals: seq<string>, key: string -> string, i: nat): (leader: nat)
    requires i < |portals|
    ensures leader <= i && key(portals[leader]) == key(portals[i])
    ensures forall j: nat :: j < leader ==> key(portals[j]) != key(portals[i])
  {
    FirstPosition(portals, key, i);
    Positions(portals, key, key(portals[i]))[0]
  }

  /** What initial sync should make of an entry, said without groups or an order of contacts. */
  function BatchPlan(portals: seq<string>, key: string -> string, plan: Planner, i: nat): seq<string>
    requires i < |portals|
  {
    if key(portals[i]) == "" then [] else plan(portals[Leader(portals, key, i)])
  }

  /** The plan for the contact of an entry. */
  type Planner = string -> seq<string>

  ghost predicate Settled(portals: seq<string>, key: string -> string, plan: Planner, done: set<string>,
                          canonical: seq<string>, skip: set<nat>) {
    && |canonical| == |portals|
    && (forall i: nat :: i < |portals| ==>
          var p := if key(portals[i]) in done then BatchPlan(portals, key, plan, i) else [];
          canonical[i] == if p == [] then portals[i] else p[0])
    && (forall i: nat :: i in skip <==> i < |portals| && key(portals[i]) in done && Trails(portals, key, plan, i))
  }

  /** An entry that a merge leaves without a portal of its own. */
  predicate Trails(portals: seq<string>, key: string -> string, plan: Planner, i: nat)
    requires i < |portals|
  {
    BatchPlan(portals, key, plan, i) != [] && Leader(portals, key, i) != i
  }

  /** One group, whichever comes next. */
  method SettleGroup(portals: seq<string>, key: string -> string, plan: Planner, ghost done: set<string>, k: string,
                     indices: seq<nat>, chosen: seq<string>, canonical: seq<string>, skip: set<nat>)
    returns (canonical': seq<string>, skip': set<nat>)
    requires k != "" && k !in done && indices == Positions(portals, key, k) && indices != []
    requires indices[0] < |portals| && chosen == plan(portals[indices[0]])
    requires Settled(portals, key, plan, done, canonical, skip)
    ensures Settled(portals, key, plan, done + {k}, canonical', skip')
  {
    PositionsFacts(portals, key, k);
    assert indices[0] in indices;
    forall i: nat | i < |portals| && key(portals[i]) == k
      ensures Leader(portals, key, i) == indices[0]
    {}
    if chosen == [] {
      canonical', skip' := canonical, skip;
    } else {
      canonical', skip' := Assign(canonical, skip, indices, chosen[0]);
    }
  }

  /** The group under one key. */
  method SettleKey(portals: seq<string>, key: string -> string, lookup: string -> Contact,
                   choose: Contact -> seq<string>,
                   plan: Planner, group: Group, k: string, ghost done: set<string>,
                   canonical: seq<string>, skip: set<nat>)
    returns (canonical': seq<string>, skip': set<nat>)
    requires k != "" && k !in done && IsGroupOf(group, portals, key, lookup, k)
    requires forall p :: plan(p) == choose(lookup(p))
    requires Settled(portals, key, plan, done, canonical, skip)
    ensures Settled(portals, key, plan, done + {k}, canonical', skip')
  {
    canonical', skip' := SettleGroup(portals, key, plan, done, k, group.indices, choose(group.contact), canonical,
                                     skip);
  }

  lemma NothingSettled(portals: seq<string>, key: string -> string, plan: Planner)
    ensures Settled(portals, key, plan, {}, portals, {})
  {}

  /** The loop over groups, in whatever order the map gives them. */
  method SettleAll(portals: seq<string>, key: string -> string, lookup: string -> Contact,
                   choose: Contact -> seq<string>,
                   plan: Planner, groups: map<string, Group>)
    returns (canonical: seq<string>, skip: set<nat>)
    requires forall k :: k in groups ==> k != "" && IsGroupOf(groups[k], portals, key, lookup, k)
    requires forall p :: plan(p) == choose(lookup(p))
    ensures Settled(portals, key, plan, groups.Keys, canonical, skip)
  {
    canonical, skip := portals, {};
    NothingSettled(portals, key, plan);
    var rest := groups.Keys;
    assert groups.Keys - rest == {};
    while rest != {}
      invariant rest <= groups.Keys
      invariant Settled(portals, key, plan, groups.Keys - rest, canonical, skip)
      decreases rest
    {
      var k :| k in rest;
      assert (groups.Keys - rest) + {k} == groups.Keys - (rest - {k});
      canonical, skip := SettleKey(portals, key, lookup, choose, plan, groups[k], k, groups.Keys - rest, canonical,
                                   skip);
      rest := rest - {k};
    }
    assert groups.Keys - rest == groups.Keys;
  }

  /** An entry of initial sync: what it stands for and what its contact's plan is. */
  datatype Sync = Sync(lookup: string -> Contact, rules: Rules, isSelf: string -> bool, find: Finder)

  function KeyFunction(lookup: string -> Contact, n: Rules): string -> string {
    p => EntryKey(p, lookup, n)
  }

  function SyncKey(x: Sync): string -> string {
    KeyFunction(x.lookup, x.rules)
  }

  function SyncPlan(x: Sync): Planner {
    p => Chosen(x.lookup(p), x.rules, x.isSelf, x.find)
  }

  function BatchPortal(portals: seq<string>, x: Sync, i: nat): string
    requires i < |portals|
  {
    var p := BatchPlan(portals, SyncKey(x), SyncPlan(x), i);
    if p == [] then portals[i] else p[0]
  }

  /** canonicalizeChatDBInitialSyncDMPortalIDs. */
  method Canonicalize(portals: seq<string>, x: Sync) returns (canonical: seq<string>, skip: set<nat>)
    ensures |canonical| == |portals|
    ensures forall i: nat :: i < |portals| ==> canonical[i] == BatchPortal(portals, x, i)
    ensures forall i: nat :: i in skip <==> i < |portals| && Trails(portals, SyncKey(x), SyncPlan(x), i)
    ensures forall i: nat :: i < |portals| ==> FollowsLeader(portals, x, i, canonical[i])
  {
    forall i: nat | i < |portals|
      ensures FollowsLeader(portals, x, i, BatchPortal(portals, x, i))
    {
      BatchFollowsLeader(portals, x, i);
    }
    var groups := GroupEntries(portals, SyncKey(x), x.lookup);
    canonical, skip := SettleAll(portals, SyncKey(x), x.lookup, c => Chosen(c, x.rules, x.isSelf, x.find),
                                 SyncPlan(x), groups);
    EveryKeyDone(portals, SyncKey(x), x, groups.Keys, canonical, skip);
  }

  lemma EveryKeyDone(portals: seq<string>, key: string -> string, x: Sync, keys: set<string>,
                                        canonical: seq<string>, skip: set<nat>)
    requires key == SyncKey(x)
    requires forall k :: k in keys <==> k != "" && Positions(portals, key, k) != []
    requires Settled(portals, key, SyncPlan(x), keys, canonical, skip)
    ensures forall i: nat :: i < |portals| ==> canonical[i] == BatchPortal(portals, x, i)
    ensures forall i: nat :: i in skip <==> i < |portals| && Trails(portals, key, SyncPlan(x), i)
  {
    forall i: nat | i < |portals|
      ensures key(portals[i]) == "" || key(portals[i]) in keys
    {
      FirstPosition(portals, key, i);
    }
  }

  // ---- What the portal is --------------------------------------------------------------------------------

  predicate IsPhone(h: string) {
    "tel:" <= h
  }

  /** The least phone handle when there is a phone, else the least address. */
  ghost predicate FirstChoice(handles: set<string>, h: string) {
    && h in handles
    && (IsPhone(h) <==> exists x :: x in handles && IsPhone(x))
    && forall x :: x in handles && IsPhone(x) == IsPhone(h) ==> x == h || Before(h, x)
  }

  ghost function WithRoom(handles: set<string>, find: Finder): set<string> {
    set h | h in handles && find(h).Room?
  }

  ghost function WithMessages(handles: set<string>, find: Finder): set<string> {
    set h | h in handles && find(h).Room? && find(h).populated
  }

  /**
    The portal of a merged contact: the room of its first choice among the handles whose room
    has messages; with none, among those that have a room at all; with none, the first choice itself.
   */
  ghost predicate IsPortalOf(handles: set<string>, find: Finder, portal: string) {
    if WithMessages(handles, find) != {} then
      exists h :: FirstChoice(WithMessages(handles, find), h) && find(h).id == portal
    else if WithRoom(handles, find) != {} then
      exists h :: FirstChoice(WithRoom(handles, find), h) && find(h).id == portal
    else FirstChoice(handles, portal)
  }

  lemma LeastIsFirstChoice(handles: set<string>, h: string)
    requires h in handles && forall x :: x in handles ==> x == h || PhoneFirst(h, x)
    ensures FirstChoice(handles, h)
  {}

  /** In a list in order of preference nothing comes after a better one. */
  lemma ListedFirst(list: seq<string>, handles: set<string>, i: nat)
    requires forall j, k :: 0 <= j < k < |list| ==> PhoneFirst(list[j], list[k])
    requires i < |list| && list[i] in handles
    requires forall x :: x in handles ==> x in list[i..]
    ensures FirstChoice(handles, list[i])
  {
    forall x | x in handles
      ensures x == list[i] || PhoneFirst(list[i], x)
    {
      var k :| 0 <= k < |list[i..]| && list[i..][k] == x;
      assert x == list[i + k];
    }
    LeastIsFirstChoice(handles, list[i]);
  }

  lemma NotBefore(list: seq<string>, i: nat, x: string)
    requires i < |list| && x in list && x !in list[..i]
    ensures x in list[i..]
  {
    assert list == list[..i] + list[i..];
  }

  lemma BestIsFirstChoice(list: seq<string>, handles: set<string>, find: Finder)
    requires forall j, k :: 0 <= j < k < |list| ==> PhoneFirst(list[j], list[k])
    requires list != [] && forall x :: x in list <==> x in handles
    ensures IsPortalOf(handles, find, Pick(list, find, list[0]))
  {
    BestPopulated(list, find);
    if Best(list, find).NoRoom? {
      ListedFirst(list, handles, 0);
    } else {
      BestIs(list, find);
      var i :| IsBestAt(list, find, i) && find(list[i]) == Best(list, find);
      var chosen := if find(list[i]).populated then WithMessages(handles, find) else WithRoom(handles, find);
      forall x | x in chosen
        ensures x in list[i..]
      {
        NotBefore(list, i, x);
      }
      ListedFirst(list, chosen, i);
    }
  }

  lemma ChosenIsPortal(c: Contact, n: Rules, isSelf: string -> bool, find: Finder)
    requires Handles(c, n) != {} && !HasSelf(c, n, isSelf)
    ensures |Chosen(c, n, isSelf, find)| == 1 && IsPortalOf(Handles(c, n), find, Chosen(c, n, isSelf, find)[0])
  {
    PhoneFirstIsStrictTotal();
    PreferredNonEmpty(c, n);
    SortedMembers(PhoneFirst, Handles(c, n));
    SortedAscends(PhoneFirst, Handles(c, n));
    BestIsFirstChoice(PreferredIDs(c, n), Handles(c, n), find);
  }

  lemma LiveIsPortal(identifier: string, c: Contact, n: Rules, isSelf: string -> bool, find: Finder)
    ensures ',' !in identifier && MergesLive(identifier, c, n, isSelf) ==>
              IsPortalOf(Handles(c, n), find, Live(identifier, c, n, isSelf, find))
  {
    if ',' !in identifier && MergesLive(identifier, c, n, isSelf) {
      ChosenIsPortal(c, n, isSelf, find);
    }
  }

  /**
    An entry of a direct chat whose contact has a name and several handles gets the portal
    of its leader's contact, unless that is the user's own; any other entry keeps its own.
   */
  ghost predicate FollowsLeader(portals: seq<string>, x: Sync, i: nat, canonical: string)
    requires i < |portals|
  {
    var own := x.lookup(portals[i]);
    if ',' !in portals[i] && !("gid:" <= portals[i]) && own.Contact? && own.named && |Handles(own, x.rules)| > 1 then
      var leader := LeaderContact(portals, x, i);
      if exists h :: h in Handles(leader, x.rules) && x.isSelf(h) then canonical == portals[i]
      else IsPortalOf(Handles(leader, x.rules), x.find, canonical)
    else canonical == portals[i]
  }

  lemma BatchFollowsLeader(portals: seq<string>, x: Sync, i: nat)
    requires i < |portals|
    ensures FollowsLeader(portals, x, i, BatchPortal(portals, x, i))
  {
    var own := x.lookup(portals[i]);
    MergeableHasKey(own, x.rules);
    if !IsGroup(portals[i]) && Mergeable(own, x.rules) {
      LeaderIsMergeable(portals, x, i);
      var leader := LeaderContact(portals, x, i);
      if !HasSelf(leader, x.rules, x.isSelf) {
        ChosenIsPortal(leader, x.rules, x.isSelf, x.find);
      }
    }
  }

  /** With no room for any spelling of its handles, a contact's portal is its first choice. */
  lemma FreshContactPortal(identifier: string, c: Contact, n: Rules, isSelf: string -> bool, rooms: Rooms,
                           normalize: string -> string)
    requires ',' !in identifier && MergesLive(identifier, c, n, isSelf)
    requires forall h, r :: h in Handles(c, n) && r in rooms && r != "" ==> !Reaches(h, r, normalize)
    ensures FirstChoice(Handles(c, n), Live(identifier, c, n, isSelf, RoomFinder(rooms, normalize)))
  {
    var find := RoomFinder(rooms, normalize);
    LiveIsPortal(identifier, c, n, isSelf, find);
    forall h | h in Handles(c, n)
      ensures find(h).NoRoom?
    {
      SpellingMeans(rooms, normalize, h);
    }
    assert WithRoom(Handles(c, n), find) == {} && WithMessages(Handles(c, n), find) == {};
  }

  /** A room that one of the identifier's spellings reaches. */
  ghost predicate RoomReached(rooms: Rooms, normalize: string -> string, identifier: string, r: string) {
    r != "" && r in rooms && Reaches(identifier, r, normalize)
  }

  /**
    The room of an identifier is one it reaches, with messages if any such room has some,
    and it is the identifier's own room if that has.
   */
  lemma SpellingMeans(rooms: Rooms, normalize: string -> string, identifier: string)
    ensures var room := Spelling(rooms, normalize, identifier);
      && (room.Room? <==> exists r :: RoomReached(rooms, normalize, identifier, r))
      && (room.Room? ==> RoomReached(rooms, normalize, identifier, room.id) && rooms[room.id] == room.populated)
      && (room.Room? && room.populated <==>
            exists r :: RoomReached(rooms, normalize, identifier, r) && rooms[r])
      && (identifier != "" && identifier in rooms && rooms[identifier] ==> room == Room(identifier, true))
  {
    CandidatesReach(rooms, normalize, identifier);
    BestRoomMeans(rooms, Candidates(rooms, normalize, identifier), identifier);
  }

  /** The candidates of an identifier, best spelling first. */
  function Candidates(rooms: Rooms, normalize: string -> string, identifier: string): seq<string> {
    Unseen(Variants(identifier, normalize), NormalizedMatches(rooms, normalize, identifier))
  }

  lemma CandidatesReach(rooms: Rooms, normalize: string -> string, identifier: string)
    ensures var candidates := Candidates(rooms, normalize, identifier);
      && (forall r :: RoomReached(rooms, normalize, identifier, r) <==> r != "" && r in rooms && r in candidates)
      && (identifier != "" ==> candidates != [] && candidates[0] == identifier)
  {
    UnseenExtends(Variants(identifier, normalize), NormalizedMatches(rooms, normalize, identifier));
    VariantsShape(identifier, normalize);
    MatchesAre(rooms, normalize, identifier);
  }

  /** The best of some candidates, by the rooms among them. */
  lemma BestRoomMeans(rooms: Rooms, candidates: seq<string>, first: string)
    requires first != "" ==> candidates != [] && candidates[0] == first
    ensures var room := Best(candidates, id => Lookup(rooms, id));
      && (room.Room? <==> exists r :: r != "" && r in rooms && r in candidates)
      && (room.Room? ==> room.id != "" && room.id in rooms && room.id in candidates && rooms[room.id] == room.populated)
      && (room.Room? && room.populated <==> exists r :: r != "" && r in rooms && r in candidates && rooms[r])
      && (first != "" && first in rooms && rooms[first] ==> room == Room(first, true))
  {
    var find: Finder := id => Lookup(rooms, id);
    BestPopulated(candidates, find);
    if Best(candidates, find).Room? {
      BestIs(candidates, find);
    }
    if first != "" && first in rooms && rooms[first] {
      LeadingPopulatedWins([first], candidates, find, 0);
    }
  }

  lemma MatchesAre(rooms: Rooms, normalize: string -> string, identifier: string)
    ensures forall m :: m in NormalizedMatches(rooms, normalize, identifier) <==>
              m in rooms && normalize(m) == normalize(identifier)
  {
    BeforeIsStrictTotal();
    SortedMembers(Before, set id | id in rooms && normalize(id) == normalize(identifier));
  }

  /**
    Identities are never mixed: an identifier that is the user's own, or whose contact is
    unknown, unnamed, has one handle or one of the user's own, goes to a room it reaches or
    stays as it is.
   */
  lemma UnmergedStays(identifier: string, c: Contact, n: Rules, isSelf: string -> bool, rooms: Rooms,
                      normalize: string -> string)
    requires isSelf(identifier) || c.Unknown? || !c.named || |Handles(c, n)| <= 1
          || exists h :: h in Handles(c, n) && isSelf(h)
    ensures var portal := Live(identifier, c, n, isSelf, RoomFinder(rooms, normalize));
      portal == identifier || (',' !in identifier && RoomReached(rooms, normalize, identifier, portal))
  {
    var find := RoomFinder(rooms, normalize);
    assert [identifier][1..] == [] && Best([identifier][1..], find) == NoRoom;
    assert Pick([identifier], find, identifier) == if find(identifier).Room? then find(identifier).id else identifier;
    SpellingMeans(rooms, normalize, identifier);
  }

  // ---- Both choose alike ---------------------------------------------------------------------------------

  lemma MergeableHasKey(c: Contact, n: Rules)
    ensures KeyOf(c, n) != "" <==> Mergeable(c, n)
  {
    if Mergeable(c, n) {
      BeforeIsStrictTotal();
      SortedMembers(Before, Handles(c, n));
      var ids := Sorted(Before, Handles(c, n));
      assert JoinBars(ids) == ids[0] + "|" + JoinBars(ids[1..]);
    }
  }

  lemma SameHandlesSameChoice(c: Contact, d: Contact, n: Rules, isSelf: string -> bool, find: Finder)
    requires Handles(c, n) == Handles(d, n)
    ensures PreferredIDs(c, n) == PreferredIDs(d, n)
    ensures Chosen(c, n, isSelf, find) == Chosen(d, n, isSelf, find)
  {}

  /** Whatever rooms exist, initial sync sends the entry where live routing would. */
  ghost predicate AlwaysAgrees(portals: seq<string>, x: Sync, normalize: string -> string, i: nat)
    requires i < |portals|
  {
    forall rooms: Rooms :: AgreesOver(portals, x, RoomFinder(rooms, normalize), i)
  }

  predicate AgreesOver(portals: seq<string>, x: Sync, find: Finder, i: nat)
    requires i < |portals|
  {
    BatchPortal(portals, x.(find := find), i) == Live(portals[i], x.lookup(portals[i]), x.rules, x.isSelf, find)
  }

  function LeaderContact(portals: seq<string>, x: Sync, i: nat): Contact
    requires i < |portals|
  {
    x.lookup(portals[Leader(portals, SyncKey(x), i)])
  }

  /** The entry's own plan and its leader's, in terms of their contacts. */
  lemma PlansCompared(portals: seq<string>, x: Sync, i: nat)
    requires i < |portals| && !IsGroup(portals[i]) && MergesLive(portals[i], x.lookup(portals[i]), x.rules, x.isSelf)
    ensures var plan := Chosen(LeaderContact(portals, x, i), x.rules, x.isSelf, x.find);
      BatchPortal(portals, x, i) == if plan == [] then portals[i] else plan[0]
    ensures Chosen(x.lookup(portals[i]), x.rules, x.isSelf, x.find)
         == [Live(portals[i], x.lookup(portals[i]), x.rules, x.isSelf, x.find)]
  {
    MergeableHasKey(x.lookup(portals[i]), x.rules);
    PreferredNonEmpty(x.lookup(portals[i]), x.rules);
  }

  // ---- One room tells contacts apart ---------------------------------------------------------------------

  /** The room h is one of the spellings tried for an identifier. */
  predicate Reaches(identifier: string, h: string, normalize: string -> string) {
    h in Variants(identifier, normalize) || normalize(h) == normalize(identifier)
  }

  /** Candidates that find one room, if any. */
  lemma OnlyOne(candidates: seq<string>, find: Finder, h: string)
    requires forall c :: c in candidates ==> find(c).NoRoom? || find(c) == Room(h, true)
    ensures Best(candidates, find) == if exists c :: c in candidates && find(c).Room? then Room(h, true) else NoRoom
  {
    BestPopulated(candidates, find);
    if Best(candidates, find).Room? {
      BestIs(candidates, find);
      var i :| IsBestAt(candidates, find, i) && find(candidates[i]) == Best(candidates, find);
      assert candidates[i] in candidates;
    }
  }

  lemma MatchesOfOne(h: string, normalize: string -> string, identifier: string)
    ensures var matches := NormalizedMatches(map[h := true], normalize, identifier);
      forall m :: m in matches <==> m == h && normalize(h) == normalize(identifier)
  {
    BeforeIsStrictTotal();
    SortedMembers(Before, set id | id in map[h := true] && normalize(id) == normalize(identifier));
  }

  lemma SpellingOfOne(h: string, normalize: string -> string, identifier: string)
    requires h != ""
    ensures Spelling(map[h := true], normalize, identifier)
         == if Reaches(identifier, h, normalize) then Room(h, true) else NoRoom
  {
    var variants := Variants(identifier, normalize);
    var matches := NormalizedMatches(map[h := true], normalize, identifier);
    MatchesOfOne(h, normalize, identifier);
    UnseenExtends(variants, matches);
    OnlyOne(Unseen(variants, matches), id => Lookup(map[h := true], id), h);
    assert h in Unseen(variants, matches) <==> Reaches(identifier, h, normalize);
  }

  lemma BestOfOne(candidates: seq<string>, h: string, normalize: string -> string)
    requires h != ""
    ensures Best(candidates, RoomFinder(map[h := true], normalize))
         == if exists c :: c in candidates && Reaches(c, h, normalize) then Room(h, true) else NoRoom
  {
    forall c | c in candidates
      ensures RoomFinder(map[h := true], normalize)(c) == if Reaches(c, h, normalize) then Room(h, true) else NoRoom
    {
      SpellingOfOne(h, normalize, c);
    }
    OnlyOne(candidates, RoomFinder(map[h := true], normalize), h);
  }

  lemma PreferredMembers(c: Contact, n: Rules)
    ensures |PreferredIDs(c, n)| == |Handles(c, n)| && forall h :: h in PreferredIDs(c, n) <==> h in Handles(c, n)
  {
    PhoneFirstIsStrictTotal();
    SortedMembers(PhoneFirst, Handles(c, n));
  }

  /** With h the only room, a contact that has the handle h is sent there. */
  lemma HandleIsChosen(c: Contact, n: Rules, isSelf: string -> bool, h: string,
                                          normalize: string -> string)
    requires h in Handles(c, n) && !HasSelf(c, n, isSelf)
    ensures Chosen(c, n, isSelf, RoomFinder(map[h := true], normalize)) == [h]
  {
    PreferredMembers(c, n);
    VariantsShape(h, normalize);
    assert h in PreferredIDs(c, n) && Reaches(h, h, normalize);
    BestOfOne(PreferredIDs(c, n), h, normalize);
  }

  /** A contact none of whose handles reaches the room h is not sent there. */
  lemma StrangerIsNotChosen(c: Contact, n: Rules, isSelf: string -> bool, h: string,
                                               normalize: string -> string)
    requires h != "" && h !in Handles(c, n)
    requires forall k :: k in Handles(c, n) ==> !Reaches(k, h, normalize)
    ensures Chosen(c, n, isSelf, RoomFinder(map[h := true], normalize)) != [h]
  {
    PreferredMembers(c, n);
    BestOfOne(PreferredIDs(c, n), h, normalize);
    if Handles(c, n) != {} {
      assert PreferredIDs(c, n)[0] in PreferredIDs(c, n);
    }
  }

  /**
    A handle as the bridge's normalisers leave it: in normal form, and a phone number is a
    plus sign followed by anything but another.
   */
  predicate NormalHandle(h: string, normalize: string -> string) {
    normalize(h) == h && ("tel:" <= h ==> |h| > 4 && h[4] == '+' && '+' !in h[5..])
  }

  ghost predicate NormalContact(c: Contact, n: Rules, normalize: string -> string) {
    forall h :: h in Handles(c, n) ==> NormalHandle(h, normalize)
  }

  /** Handles in normal form have disjoint spellings. */
  lemma NormalHandlesAreSeparate(h: string, k: string, normalize: string -> string)
    requires NormalHandle(h, normalize) && NormalHandle(k, normalize) && h != k
    ensures !Reaches(k, h, normalize)
  {
    if "tel:" <= k {
      var local := k[4..];
      assert local[0] == '+' && local[1..] == k[5..];
      if |local| >= 2 {
        assert local[2..] == local[1..][1..];
      }
    }
  }

  /** A handle that the entry's own contact and its leader's do not share, and neither set reaches from outside. */
  ghost predicate Tells(mine: set<string>, theirs: set<string>, h: string, normalize: string -> string) {
    && h != "" && (h in mine) != (h in theirs)
    && forall k :: k in mine + theirs && k != h ==> !Reaches(k, h, normalize)
  }

  /** Such a handle, as the only room, draws one contact and not the other. */
  lemma OneRoomDivides(c: Contact, d: Contact, n: Rules, isSelf: string -> bool, h: string,
                                          normalize: string -> string)
    requires Tells(Handles(c, n), Handles(d, n), h, normalize) && !HasSelf(c, n, isSelf) && !HasSelf(d, n, isSelf)
    ensures var find := RoomFinder(map[h := true], normalize);
      (Chosen(c, n, isSelf, find) == [h]) != (Chosen(d, n, isSelf, find) == [h])
  {
    if h in Handles(c, n) {
      HandleIsChosen(c, n, isSelf, h, normalize);
      StrangerIsNotChosen(d, n, isSelf, h, normalize);
    } else {
      StrangerIsNotChosen(c, n, isSelf, h, normalize);
      HandleIsChosen(d, n, isSelf, h, normalize);
    }
  }

  /** An entry and its leader of different handles, over a table of one room. */
  lemma OneRoomDisagrees(portals: seq<string>, y: Sync, normalize: string -> string, i: nat,
                                            h: string)
    requires i < |portals| && !IsGroup(portals[i]) && MergesLive(portals[i], y.lookup(portals[i]), y.rules, y.isSelf)
    requires y.find == RoomFinder(map[h := true], normalize)
    requires !HasSelf(LeaderContact(portals, y, i), y.rules, y.isSelf)
    requires Tells(Handles(y.lookup(portals[i]), y.rules), Handles(LeaderContact(portals, y, i), y.rules), h, normalize)
    ensures BatchPortal(portals, y, i) != Live(portals[i], y.lookup(portals[i]), y.rules, y.isSelf, y.find)
  {
    var leader := LeaderContact(portals, y, i);
    PlansCompared(portals, y, i);
    LeaderIsMergeable(portals, y, i);
    OneRoomDivides(y.lookup(portals[i]), leader, y.rules, y.isSelf, h, normalize);
    assert |Chosen(leader, y.rules, y.isSelf, y.find)| == 1;
  }

  /** Contacts of different handles can be told apart by a table of one room. */
  lemma DifferentHandlesDisagree(portals: seq<string>, x: Sync, normalize: string -> string,
                                                    i: nat, h: string)
    requires i < |portals| && !IsGroup(portals[i]) && MergesLive(portals[i], x.lookup(portals[i]), x.rules, x.isSelf)
    requires !HasSelf(LeaderContact(portals, x, i), x.rules, x.isSelf)
    requires Tells(Handles(x.lookup(portals[i]), x.rules), Handles(LeaderContact(portals, x, i), x.rules), h, normalize)
    ensures !AlwaysAgrees(portals, x, normalize, i)
  {
    var find := RoomFinder(map[h := true], normalize);
    var y := x.(find := find);
    assert LeaderContact(portals, y, i) == LeaderContact(portals, x, i);
    OneRoomDisagrees(portals, y, normalize, i, h);
    assert !AgreesOver(portals, x, find, i);
  }

  /** So can a contact whose leader is the user's own, which initial sync leaves alone. */
  lemma OwnLeaderDisagrees(portals: seq<string>, x: Sync, normalize: string -> string, i: nat,
                                              h: string)
    requires i < |portals| && !IsGroup(portals[i]) && MergesLive(portals[i], x.lookup(portals[i]), x.rules, x.isSelf)
    requires HasSelf(LeaderContact(portals, x, i), x.rules, x.isSelf)
    requires h in Handles(x.lookup(portals[i]), x.rules) && h != portals[i]
    ensures !AlwaysAgrees(portals, x, normalize, i)
  {
    var find := RoomFinder(map[h := true], normalize);
    var y := x.(find := find);
    assert LeaderContact(portals, y, i) == LeaderContact(portals, x, i);
    PlansCompared(portals, y, i);
    HandleIsChosen(x.lookup(portals[i]), x.rules, x.isSelf, h, normalize);
    assert !AgreesOver(portals, x, find, i);
  }

  lemma LeaderIsMergeable(portals: seq<string>, x: Sync, i: nat)
    requires i < |portals| && !IsGroup(portals[i]) && Mergeable(x.lookup(portals[i]), x.rules)
    ensures Mergeable(LeaderContact(portals, x, i), x.rules)
    ensures KeyOf(LeaderContact(portals, x, i), x.rules) == KeyOf(x.lookup(portals[i]), x.rules)
  {
    var leader := Leader(portals, SyncKey(x), i);
    assert SyncKey(x)(portals[leader]) == SyncKey(x)(portals[i]);
    MergeableHasKey(x.lookup(portals[i]), x.rules);
    MergeableHasKey(x.lookup(portals[leader]), x.rules);
  }

  /** Where the first entry of the group has the same handles, both agree over every room table. */
  lemma SameHandlesAgree(portals: seq<string>, x: Sync, find: Finder, i: nat)
    requires i < |portals| && !IsGroup(portals[i]) && MergesLive(portals[i], x.lookup(portals[i]), x.rules, x.isSelf)
    requires Handles(LeaderContact(portals, x, i), x.rules) == Handles(x.lookup(portals[i]), x.rules)
    ensures AgreesOver(portals, x, find, i)
  {
    var y := x.(find := find);
    assert LeaderContact(portals, y, i) == LeaderContact(portals, x, i);
    PlansCompared(portals, y, i);
    SameHandlesSameChoice(x.lookup(portals[i]), LeaderContact(portals, x, i), x.rules, x.isSelf, find);
  }

  /**
    For every named multi-handle contact with none of the user's own handles, live routing
    and initial sync choose the same portal over every room table, if and only if the first
    entry of its group belongs to a contact with the same handles. The contacts' handles are
    in normal form.
   */
  lemma LiveAgreesExactly(portals: seq<string>, x: Sync, normalize: string -> string, i: nat)
    requires i < |portals| && !IsGroup(portals[i]) && MergesLive(portals[i], x.lookup(portals[i]), x.rules, x.isSelf)
    requires NormalContact(x.lookup(portals[i]), x.rules, normalize)
    requires NormalContact(LeaderContact(portals, x, i), x.rules, normalize)
    ensures AlwaysAgrees(portals, x, normalize, i)
       <==> Handles(LeaderContact(portals, x, i), x.rules) == Handles(x.lookup(portals[i]), x.rules)
  {
    if Handles(LeaderContact(portals, x, i), x.rules) == Handles(x.lookup(portals[i]), x.rules) {
      forall rooms: Rooms
        ensures AgreesOver(portals, x, RoomFinder(rooms, normalize), i)
      {
        SameHandlesAgree(portals, x, RoomFinder(rooms, normalize), i);
      }
    } else {
      OtherHandlesDisagree(portals, x, normalize, i);
    }
  }

  lemma OtherHandlesDisagree(portals: seq<string>, x: Sync, normalize: string -> string, i: nat)
    requires i < |portals| && !IsGroup(portals[i]) && MergesLive(portals[i], x.lookup(portals[i]), x.rules, x.isSelf)
    requires NormalContact(x.lookup(portals[i]), x.rules, normalize)
    requires NormalContact(LeaderContact(portals, x, i), x.rules, normalize)
    requires Handles(LeaderContact(portals, x, i), x.rules) != Handles(x.lookup(portals[i]), x.rules)
    ensures !AlwaysAgrees(portals, x, normalize, i)
  {
    var mine, theirs := Handles(x.lookup(portals[i]), x.rules), Handles(LeaderContact(portals, x, i), x.rules);
    if HasSelf(LeaderContact(portals, x, i), x.rules, x.isSelf) {
      var h := OtherHandle(mine, portals[i]);
      OwnLeaderDisagrees(portals, x, normalize, i, h);
    } else {
      NoEmptyHandle(x.lookup(portals[i]), x.rules);
      NoEmptyHandle(LeaderContact(portals, x, i), x.rules);
      var h := TellingHandle(mine, theirs, normalize);
      DifferentHandlesDisagree(portals, x, normalize, i, h);
    }
  }

  lemma NoEmptyHandle(c: Contact, n: Rules)
    ensures "" !in Handles(c, n)
  {}

  lemma TellingHandle(mine: set<string>, theirs: set<string>,
                                         normalize: string -> string) returns (h: string)
    requires mine != theirs && forall k :: k in mine + theirs ==> k != "" && NormalHandle(k, normalize)
    ensures Tells(mine, theirs, h, normalize)
  {
    if k :| k in mine && k !in theirs {
      h := k;
    } else {
      h :| h in theirs && h !in mine;
    }
    assert h in mine + theirs;
    forall k | k in mine + theirs && k != h
      ensures !Reaches(k, h, normalize)
    {
      NormalHandlesAreSeparate(h, k, normalize);
    }
  }

  lemma OtherHandle(handles: set<string>, p: string) returns (h: string)
    requires |handles| > 1
    ensures h in handles && h != p
  {
    var rest := handles - {p};
    assert p in handles ==> |rest| == |handles| - 1;
    assert p !in handles ==> rest == handles;
    h :| h in rest;
  }

  /** Handles without a bar are enough: equal keys then mean equal handles. */
  lemma BarFreeAgrees(portals: seq<string>, x: Sync, find: Finder, i: nat)
    requires i < |portals| && !IsGroup(portals[i]) && MergesLive(portals[i], x.lookup(portals[i]), x.rules, x.isSelf)
    requires forall p :: p in portals ==> BarFree(x.lookup(p), x.rules)
    ensures Handles(LeaderContact(portals, x, i), x.rules) == Handles(x.lookup(portals[i]), x.rules)
    ensures AgreesOver(portals, x, find, i)
  {
    LeaderIsMergeable(portals, x, i);
    assert portals[Leader(portals, SyncKey(x), i)] in portals && portals[i] in portals;
    KeyDeterminesHandles(LeaderContact(portals, x, i), x.lookup(portals[i]), x.rules);
    SameHandlesAgree(portals, x, find, i);
  }

  /**
    Initial sync of a batch and live traffic for one of its entries, over the same rooms,
    end in one portal when the first entry of the group has the same handles.
   */
  method SyncThenLive(portals: seq<string>, x: Sync, rooms: Rooms, normalize: string -> string, i: nat)
    returns (canonical: seq<string>, skip: set<nat>, live: string)
    requires i < |portals| && x.find == RoomFinder(rooms, normalize)
    ensures |canonical| == |portals|
    ensures
      && !IsGroup(portals[i]) && MergesLive(portals[i], x.lookup(portals[i]), x.rules, x.isSelf)
      && Handles(LeaderContact(portals, x, i), x.rules) == Handles(x.lookup(portals[i]), x.rules)
      ==> live == canonical[i]
  {
    canonical, skip := Canonicalize(portals, x);
    live := LivePortal(portals[i], x.lookup(portals[i]), x.rules, x.isSelf, rooms, normalize);
    if !IsGroup(portals[i]) && MergesLive(portals[i], x.lookup(portals[i]), x.rules, x.isSelf) {
      if Handles(LeaderContact(portals, x, i), x.rules) == Handles(x.lookup(portals[i]), x.rules) {
        SameHandlesAgree(portals, x, x.find, i);
      }
    }
  }

  /** Of the entries merged under one key exactly the first keeps its place. */
  lemma OneEntryPerContact(portals: seq<string>, x: Sync, i: nat, j: nat)
    requires i < |portals| && j < |portals| && SyncKey(x)(portals[i]) == SyncKey(x)(portals[j])
    requires BatchPlan(portals, SyncKey(x), SyncPlan(x), i) != []
    requires !Trails(portals, SyncKey(x), SyncPlan(x), i) && !Trails(portals, SyncKey(x), SyncPlan(x), j)
    ensures i == j
  {}

  // ---- A bar in an address ------------------------------------------------------------------------------

  function Mail(address: string): string {
    "mailto:" + address
  }

  function PlainRules(): Rules {
    Rules(phone => "", email => email)
  }

  /** One address that looks like two. */
  function Barred(b: string, c: string): string {
    b + "|" + Mail(c)
  }

  predicate Addresses(a: string, b: string, c: string) {
    a != "" && b != "" && c != "" && Before(a, b) && Before(b, c) && ',' !in b && ',' !in c
  }

  lemma MailInjective(x: string, y: string)
    ensures Mail(x) == Mail(y) ==> x == y
  {
    assert Mail(x)[7..] == x && Mail(y)[7..] == y;
  }

  lemma BarredKey(a: string, b: string, c: string)
    requires Addresses(a, b, c)
    ensures Handles(Contact(true, [], [a, Barred(b, c)]), PlainRules()) == {Mail(a), Mail(Barred(b, c))}
    ensures Mergeable(Contact(true, [], [a, Barred(b, c)]), PlainRules())
    ensures KeyOf(Contact(true, [], [a, Barred(b, c)]), PlainRules()) == JoinBars([Mail(a), Mail(Barred(b, c))])
  {
    BeforeAppend(a, b, "|" + Mail(c));
    assert b + ("|" + Mail(c)) == Barred(b, c);
    PairKey(a, Barred(b, c));
  }

  /** The key of a contact whose handles are listed in order. */
  lemma KeyOfList(c: Contact, n: Rules, ids: seq<string>)
    requires c.Contact? && c.named && |ids| > 1 && InOrder(ids) && forall x :: x in ids <==> x in Handles(c, n)
    ensures Mergeable(c, n) && KeyOf(c, n) == JoinBars(ids)
  {
    BeforeIsStrictTotal();
    SortedIs(Before, Handles(c, n), ids);
    SortedMembers(Before, Handles(c, n));
  }

  lemma PairHandles(a: string, b: string)
    requires a != "" && b != ""
    ensures Handles(Contact(true, [], [a, b]), PlainRules()) == {Mail(a), Mail(b)}
  {
    assert a in [a, b] && b in [a, b];
  }

  lemma PairKey(a: string, b: string)
    requires a != "" && b != "" && Before(a, b)
    ensures Handles(Contact(true, [], [a, b]), PlainRules()) == {Mail(a), Mail(b)}
    ensures Mergeable(Contact(true, [], [a, b]), PlainRules())
    ensures KeyOf(Contact(true, [], [a, b]), PlainRules()) == JoinBars([Mail(a), Mail(b)])
  {
    PairHandles(a, b);
    assert Before(Mail(a), Mail(b)) by {
      BeforeUnderPrefix("mailto:", a, b);
    }
    KeyOfList(Contact(true, [], [a, b]), PlainRules(), [Mail(a), Mail(b)]);
  }

  lemma ThreeInOrder(x: string, y: string, z: string)
    requires Before(x, y) && Before(y, z)
    ensures InOrder([x, y, z])
  {
    BeforeTransitive(x, y, z);
  }

  lemma TripleHandles(a: string, b: string, c: string)
    requires a != "" && b != "" && c != ""
    ensures Handles(Contact(true, [], [a, b, c]), PlainRules()) == {Mail(a), Mail(b), Mail(c)}
  {
    assert a in [a, b, c] && b in [a, b, c] && c in [a, b, c];
  }

  lemma TripleKey(a: string, b: string, c: string)
    requires Addresses(a, b, c)
    ensures Mergeable(Contact(true, [], [a, b, c]), PlainRules())
    ensures KeyOf(Contact(true, [], [a, b, c]), PlainRules()) == JoinBars([Mail(a), Mail(b), Mail(c)])
  {
    TripleHandles(a, b, c);
    BeforeUnderPrefix("mailto:", a, b);
    BeforeUnderPrefix("mailto:", b, c);
    ThreeInOrder(Mail(a), Mail(b), Mail(c));
    KeyOfList(Contact(true, [], [a, b, c]), PlainRules(), [Mail(a), Mail(b), Mail(c)]);
  }

  /** What follows a greater string does not matter. */
  lemma {:induction false} BeforeAppend(a: string, b: string, t: string)
    requires Before(a, b)
    ensures Before(a, b + t)
  {
    if a != "" && a[0] == b[0] {
      BeforeAppend(a[1..], b[1..], t);
      assert (b + t)[1..] == b[1..] + t;
    }
  }

  /** The two contacts share a key. */
  lemma BarsCollide(a: string, b: string, c: string)
    ensures JoinBars([Mail(a), Mail(Barred(b, c))]) == JoinBars([Mail(a), Mail(b), Mail(c)])
  {
    var x, y := [Mail(a), Mail(Barred(b, c))], [Mail(a), Mail(b), Mail(c)];
    assert x[1..] == [Mail(Barred(b, c))] && y[1..] == [Mail(b), Mail(c)] && y[1..][1..] == [Mail(c)];
    assert JoinBars(y[1..]) == Mail(b) + "|" + JoinBars([Mail(c)]);
    assert Mail(b) + "|" + Mail(c) == Mail(Barred(b, c));
    assert JoinBars(x) == x[0] + "|" + JoinBars(x[1..]) && JoinBars(y) == y[0] + "|" + JoinBars(y[1..]);
  }

  /** An entry of each contact, the barred one first, and a room for the second contact's b. */
  function BarredSync(a: string, b: string, c: string): Sync {
    Sync(id => Contact(true, [], if id == Mail(Barred(b, c)) then [a, Barred(b, c)] else [a, b, c]),
         PlainRules(), id => false, RoomFinder(map[Mail(b) := true], Same))
  }

  function Same(id: string): string {
    id
  }

  lemma MailIsNormal(address: string)
    ensures NormalHandle(Mail(address), Same) && !("gid:" <= Mail(address)) && !("tel:" <= Mail(address))
  {
    assert Mail(address)[0] == 'm';
  }

  /** The handle b tells the two contacts apart. */
  lemma MiddleTells(a: string, b: string, c: string)
    requires Addresses(a, b, c)
    ensures Tells({Mail(a), Mail(b), Mail(c)}, {Mail(a), Mail(Barred(b, c))}, Mail(b), Same)
  {
    BeforeIrreflexive(b);
    MailInjective(b, a);
    MailInjective(b, Barred(b, c));
    assert |Barred(b, c)| > |b|;
    forall k | k in {Mail(a), Mail(b), Mail(c)} + {Mail(a), Mail(Barred(b, c))} && k != Mail(b)
      ensures !Reaches(k, Mail(b), Same)
    {
      MailIsNormal(a);
      MailIsNormal(b);
      MailIsNormal(c);
      MailIsNormal(Barred(b, c));
      NormalHandlesAreSeparate(Mail(b), k, Same);
    }
  }

  /** Both entries are grouped under the barred one. */
  lemma BarredLeads(a: string, b: string, c: string)
    requires Addresses(a, b, c)
    ensures var portals, x := [Mail(Barred(b, c)), Mail(b)], BarredSync(a, b, c);
      && !IsGroup(portals[0]) && !IsGroup(portals[1])
      && x.lookup(portals[1]) == Contact(true, [], [a, b, c])
      && LeaderContact(portals, x, 1) == Contact(true, [], [a, Barred(b, c)])
  {
    var portals, x := [Mail(Barred(b, c)), Mail(b)], BarredSync(a, b, c);
    MailInjective(b, Barred(b, c));
    assert |Barred(b, c)| > |b|;
    MailIsNoGroup(b);
    BarredIsNoGroup(b, c);
    BarredKey(a, b, c);
    TripleKey(a, b, c);
    BarsCollide(a, b, c);
    SecondIsLed(portals, SyncKey(x));
  }

  lemma SecondIsLed(portals: seq<string>, key: string -> string)
    requires |portals| == 2 && key(portals[0]) == key(portals[1])
    ensures Leader(portals, key, 1) == 0
  {}

  lemma MailIsNoGroup(address: string)
    requires ',' !in address
    ensures !IsGroup(Mail(address))
  {
    MailIsNormal(address);
  }

  lemma BarredIsNoGroup(b: string, c: string)
    requires ',' !in b && ',' !in c
    ensures !IsGroup(Mail(Barred(b, c)))
  {
    MailIsNoGroup(c);
    MailIsNoGroup(Barred(b, c));
  }

  /**
    A family of failures: for any addresses a, b and c in order, a contact with the address
    "b|mailto:c" draws the entry of another contact away from that contact's only room.
   */
  lemma BarPartsSyncFromLive(a: string, b: string, c: string)
    requires Addresses(a, b, c)
    ensures var portals, x := [Mail(Barred(b, c)), Mail(b)], BarredSync(a, b, c);
      && Live(portals[1], x.lookup(portals[1]), x.rules, x.isSelf, x.find) == Mail(b)
      && BatchPortal(portals, x, 1) != Mail(b)
  {
    var portals, x := [Mail(Barred(b, c)), Mail(b)], BarredSync(a, b, c);
    BarredLeads(a, b, c);
    BarredKey(a, b, c);
    TripleKey(a, b, c);
    TripleHandles(a, b, c);
    MiddleTells(a, b, c);
    OneRoomDisagrees(portals, x, Same, 1, Mail(b));
    HandleIsChosen(x.lookup(portals[1]), x.rules, x.isSelf, Mail(b), Same);
    PlansCompared(portals, x, 1);
  }

  /** At the addresses a, b and c. */
  lemma BarWitness()
    ensures var portals, x := [Mail(Barred("b", "c")), Mail("b")], BarredSync("a", "b", "c");
      BatchPortal(portals, x, 1) != Live(portals[1], x.lookup(portals[1]), x.rules, x.isSelf, x.find)
  {
    assert Before("a", "b") && Before("b", "c");
    BarPartsSyncFromLive("a", "b", "c");
  }
}
