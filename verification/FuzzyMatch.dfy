/**
  Contact search by name: edit distance by a two-row dynamic program, and a word matcher
  that skips words whose length alone rules them out. Words are sequences of bytes.
 */
module FuzzyMatch {
  function Min3(x: int, y: int, z: int): int {
    if x <= y && x <= z then x else if y <= z then y else z
  }

  function Init(s: string): string
    requires s != ""
  {
    s[..|s| - 1]
  }

  function Last(s: string): char
    requires s != ""
  {
    s[|s| - 1]
  }

  function Cost(a: string, b: string): int
    requires a != "" && b != ""
  {
    if Last(a) == Last(b) then 0 else 1
  }

  /** Edit distance, by the last bytes. */
  function Distance(a: string, b: string): int
    decreases |a| + |b|
  {
    if a == "" then |b|
    else if b == "" then |a|
    else Min3(Distance(Init(a), b) + 1, Distance(a, Init(b)) + 1, Distance(Init(a), Init(b)) + Cost(a, b))
  }

  // ---- The dynamic program ---------------------------------------------------------------

  lemma DistanceOfPrefixes(a: string, b: string, i: nat, j: nat)
    requires 0 < i <= |a| && 0 < j <= |b|
    ensures Distance(a[..i], b[..j])
         == Min3(Distance(a[..i - 1], b[..j]) + 1, Distance(a[..i], b[..j - 1]) + 1,
                 Distance(a[..i - 1], b[..j - 1]) + if a[i - 1] == b[j - 1] then 0 else 1)
  {
    assert Init(a[..i]) == a[..i - 1] && Init(b[..j]) == b[..j - 1];
  }

  lemma {:induction false} DistanceToSelf(a: string)
    ensures Distance(a, a) == 0
  {
    if a != "" {
      DistanceToSelf(Init(a));
      DistanceNonNegative(Init(a), a);
      DistanceNonNegative(a, Init(a));
    }
  }

  lemma {:induction false} DistanceNonNegative(a: string, b: string)
    ensures Distance(a, b) >= 0
    decreases |a| + |b|
  {
    if a != "" && b != "" {
      DistanceNonNegative(Init(a), b);
      DistanceNonNegative(a, Init(b));
      DistanceNonNegative(Init(a), Init(b));
    }
  }

  /** One row of the table. */
  method FillRow(a: string, b: string, i: nat, prev: array<int>, curr: array<int>)
    requires 0 < i <= |a| && prev != curr && prev.Length == curr.Length == |b| + 1
    requires forall j :: 0 <= j <= |b| ==> prev[j] == Distance(a[..i - 1], b[..j])
    modifies curr
    ensures forall j :: 0 <= j <= |b| ==> curr[j] == Distance(a[..i], b[..j])
  {
    curr[0] := i;
    for j := 1 to |b| + 1
      invariant forall k :: 0 <= k < j ==> curr[k] == Distance(a[..i], b[..k])
    {
      DistanceOfPrefixes(a, b, i, j);
      var cost := if a[i - 1] == b[j - 1] then 0 else 1;
      curr[j] := Min3(prev[j] + 1, curr[j - 1] + 1, prev[j - 1] + cost);
    }
  }

  /** levenshtein: two rows, swapped after each. */
  method Levenshtein(a: string, b: string) returns (d: int)
    ensures d == Distance(a, b)
  {
    if a == b {
      DistanceToSelf(a);
      return 0;
    }
    if a == "" || b == "" {
      return |a| + |b|;
    }
    var prev, curr := new int[|b| + 1], new int[|b| + 1];
    for j := 0 to |b| + 1
      invariant forall k :: 0 <= k < j ==> prev[k] == k
    {
      prev[j] := j;
    }
    for i := 1 to |a| + 1
      invariant fresh(prev) && fresh(curr) && prev != curr && prev.Length == curr.Length == |b| + 1
      invariant forall j :: 0 <= j <= |b| ==> prev[j] == Distance(a[..i - 1], b[..j])
    {
      FillRow(a, b, i, prev, curr);
      prev, curr := curr, prev;
    }
    assert a[..|a|] == a && b[..|b|] == b;
    d := prev[|b|];
  }

  // ---- What the distance means -------------------------------------------------------------

  /** A single-byte change. */
  datatype Edit = Insert(at: nat, c: char) | Delete(at: nat) | Replace(at: nat, c: char)

  predicate Fits(s: string, e: Edit) {
    if e.Insert? then e.at <= |s| else e.at < |s|
  }

  function Change(s: string, e: Edit): string
    requires Fits(s, e)
  {
    match e
    case Insert(i, c) => s[..i] + [c] + s[i..]
    case Delete(i) => s[..i] + s[i + 1..]
    case Replace(i, c) => s[..i] + [c] + s[i + 1..]
  }

  /** A series of edits turns s into t. */
  predicate Turns(s: string, edits: seq<Edit>, t: string)
    decreases |edits|
  {
    if edits == [] then s == t
    else Fits(s, edits[0]) && Turns(Change(s, edits[0]), edits[1..], t)
  }

  lemma ChangeUnderSuffix(s: string, e: Edit, c: char)
    requires Fits(s, e)
    ensures Fits(s + [c], e) && Change(s + [c], e) == Change(s, e) + [c]
  {
    var t := s + [c];
    assert t[..e.at] == s[..e.at];
    match e
    case Insert(i, x) => assert t[i..] == s[i..] + [c];
    case Delete(i) => assert t[i + 1..] == s[i + 1..] + [c];
    case Replace(i, x) => assert t[i + 1..] == s[i + 1..] + [c];
  }

  /** Appending the same byte on both sides changes no edit. */
  lemma {:induction false} TurnsUnderSuffix(s: string, edits: seq<Edit>, t: string, c: char)
    requires Turns(s, edits, t)
    ensures Turns(s + [c], edits, t + [c])
    decreases |edits|
  {
    if edits != [] {
      var e := edits[0];
      TurnsUnderSuffix(Change(s, e), edits[1..], t, c);
      ChangeUnderSuffix(s, e, c);
    }
  }

  lemma {:induction false} TurnsThen(s: string, edits: seq<Edit>, t: string, e: Edit)
    requires Turns(s, edits, t) && Fits(t, e)
    ensures Turns(s, edits + [e], Change(t, e))
    decreases |edits|
  {
    if edits == [] {
      assert Turns(Change(t, e), [], Change(t, e));
      assert (edits + [e])[1..] == [];
    } else {
      TurnsThen(Change(s, edits[0]), edits[1..], t, e);
      assert (edits + [e])[1..] == edits[1..] + [e];
    }
  }

  lemma DropLast(a: string, rest: seq<Edit>, b: string)
    requires a != "" && Turns(Init(a), rest, b)
    ensures Turns(a, [Delete(|a| - 1)] + rest, b)
  {
    assert Change(a, Delete(|a| - 1)) == Init(a);
  }

  lemma AddLast(a: string, rest: seq<Edit>, b: string)
    requires b != "" && Turns(a, rest, Init(b))
    ensures Turns(a, rest + [Insert(|b| - 1, Last(b))], b)
  {
    assert Change(Init(b), Insert(|b| - 1, Last(b))) == b;
    TurnsThen(a, rest, Init(b), Insert(|b| - 1, Last(b)));
  }

  lemma InitLast(s: string)
    requires s != ""
    ensures Init(s) + [Last(s)] == s
  {}

  lemma KeepLast(a: string, rest: seq<Edit>, b: string)
    requires a != "" && b != "" && Turns(Init(a), rest, Init(b))
    ensures Turns(a, rest, Init(b) + [Last(a)])
    ensures Last(a) == Last(b) ==> Turns(a, rest, b)
  {
    InitLast(a);
    InitLast(b);
    TurnsUnderSuffix(Init(a), rest, Init(b), Last(a));
  }

  lemma ReplaceLast(s: string, c: char, d: char)
    ensures Fits(s + [c], Replace(|s|, d)) && Change(s + [c], Replace(|s|, d)) == s + [d]
  {}

  lemma SwapLast(a: string, rest: seq<Edit>, b: string)
    requires a != "" && b != "" && Turns(Init(a), rest, Init(b))
    ensures Turns(a, rest + [Replace(|b| - 1, Last(b))], b)
  {
    KeepLast(a, rest, b);
    ReplaceLast(Init(b), Last(a), Last(b));
    InitLast(b);
    TurnsThen(a, rest, Init(b) + [Last(a)], Replace(|b| - 1, Last(b)));
  }

  /** As many edits as the distance suffice. */
  lemma {:induction false} DistanceSuffices(a: string, b: string) returns (edits: seq<Edit>)
    ensures |edits| == Distance(a, b) && Turns(a, edits, b)
    decreases |a| + |b|
  {
    if a == "" && b == "" {
      edits := [];
    } else if a != "" && (b == "" || Distance(a, b) == Distance(Init(a), b) + 1) {
      edits := DistanceSuffices(Init(a), b);
      DropLast(a, edits, b);
      edits := [Delete(|a| - 1)] + edits;
    } else if a == "" || Distance(a, b) == Distance(a, Init(b)) + 1 {
      edits := DistanceSuffices(a, Init(b));
      AddLast(a, edits, b);
      edits := edits + [Insert(|b| - 1, Last(b))];
    } else {
      edits := DistanceSuffices(Init(a), Init(b));
      KeepLast(a, edits, b);
      if Last(a) != Last(b) {
        SwapLast(a, edits, b);
        edits := edits + [Replace(|b| - 1, Last(b))];
      }
    }
  }

  /** What the recursive case chooses from. */
  lemma DistanceChoices(a: string, b: string)
    requires a != "" && b != ""
    ensures Distance(a, b) <= Distance(Init(a), b) + 1
    ensures Distance(a, b) <= Distance(a, Init(b)) + 1
    ensures Distance(a, b) <= Distance(Init(a), Init(b)) + Cost(a, b)
    ensures || Distance(a, b) == Distance(Init(a), b) + 1
            || Distance(a, b) == Distance(a, Init(b)) + 1
            || Distance(a, b) == Distance(Init(a), Init(b)) + Cost(a, b)
  {}

  /** An edit that fits without the last byte leaves that byte alone. */
  lemma ChangeKeepsLast(b: string, e: Edit)
    requires b != "" && Fits(Init(b), e)
    ensures Fits(b, e) && Change(b, e) != ""
    ensures Init(Change(b, e)) == Change(Init(b), e) && Last(Change(b, e)) == Last(b)
  {
    ChangeUnderSuffix(Init(b), e, Last(b));
    InitLast(b);
  }

  lemma {:induction false} InnerEdit(a: string, b: string, c: string)
    requires a != "" && b != "" && c != "" && Last(b) == Last(c)
    requires Distance(Init(a), c) <= Distance(Init(a), b) + 1
    requires Distance(a, Init(c)) <= Distance(a, Init(b)) + 1
    requires Distance(Init(a), Init(c)) <= Distance(Init(a), Init(b)) + 1
    ensures Distance(a, c) <= Distance(a, b) + 1
  {
    DistanceChoices(a, b);
    DistanceChoices(a, c);
  }

  /** One edit of the target moves the distance by at most one. */
  lemma {:induction false} EditMovesByOne(a: string, b: string, e: Edit)
    requires Fits(b, e)
    ensures Distance(a, Change(b, e)) <= Distance(a, b) + 1
    decreases |a| + |b|
  {
    if a == "" {
    } else if b != "" && Fits(Init(b), e) {
      ChangeKeepsLast(b, e);
      EditMovesByOne(Init(a), b, e);
      EditMovesByOne(a, Init(b), e);
      EditMovesByOne(Init(a), Init(b), e);
      InnerEdit(a, b, Change(b, e));
    } else {
      EditAtEnd(a, b, e);
    }
  }

  /** The case of an edit at the end of the target. */
  lemma {:induction false} EditAtEnd(a: string, b: string, e: Edit)
    requires Fits(b, e) && (if e.Insert? then e.at == |b| else e.at + 1 == |b|)
    ensures Distance(a, Change(b, e)) <= Distance(a, b) + 1
    decreases |a|
  {
    var c := Change(b, e);
    match e
    case Insert(_, x) =>
      assert Init(c) == b;
      if a == "" {
      }
    case Delete(_) =>
      assert c == Init(b);
      if a != "" {
        EditAtEnd(Init(a), b, e);
      }
    case Replace(_, x) =>
      assert Init(c) == Init(b);
      if a != "" {
        EditAtEnd(Init(a), b, e);
      }
  }

  /** No series of edits is shorter than the distance. */
  lemma {:induction false} DistanceIsLeast(a: string, edits: seq<Edit>, s: string, b: string)
    requires Turns(s, edits, b)
    ensures Distance(a, b) <= Distance(a, s) + |edits|
    decreases |edits|
  {
    if edits != [] {
      EditMovesByOne(a, s, edits[0]);
      DistanceIsLeast(a, edits[1..], Change(s, edits[0]), b);
    }
  }

  /** The distance is the least number of single-byte insertions, deletions and replacements. */
  lemma DistanceMeansFewestEdits(a: string, b: string)
    ensures exists edits :: |edits| == Distance(a, b) && Turns(a, edits, b)
    ensures forall edits :: Turns(a, edits, b) ==> |edits| >= Distance(a, b)
  {
    var edits := DistanceSuffices(a, b);
    forall edits | Turns(a, edits, b)
      ensures |edits| >= Distance(a, b)
    {
      DistanceIsLeast(a, edits, a, b);
      DistanceToSelf(a);
    }
  }

  /** Each edit changes the length by at most one byte. */
  lemma {:induction false} EditsBoundLength(s: string, edits: seq<Edit>, t: string)
    requires Turns(s, edits, t)
    ensures |s| - |t| <= |edits| && |t| - |s| <= |edits|
    decreases |edits|
  {
    if edits != [] {
      EditsBoundLength(Change(s, edits[0]), edits[1..], t);
    }
  }

  lemma DistanceAtLeastLengthDifference(a: string, b: string)
    ensures |a| - |b| <= Distance(a, b) && |b| - |a| <= Distance(a, b)
  {
    var edits := DistanceSuffices(a, b);
    EditsBoundLength(a, edits, b);
  }

  lemma ZeroMeansEqual(a: string, b: string)
    ensures Distance(a, b) == 0 <==> a == b
  {
    if Distance(a, b) == 0 {
      var edits := DistanceSuffices(a, b);
    } else if a == b {
      DistanceToSelf(a);
    }
  }

  // ---- Matching ------------------------------------------------------------------------------

  /** fuzzyEditThreshold. */
  function EditThreshold(n: nat): nat {
    if n <= 2 then 0 else if n <= 5 then 1 else 2
  }

  /** The rule without shortcuts: a prefix, or few enough edits for the length. */
  predicate FuzzyMatches(query: string, word: string) {
    || query <= word
    || (EditThreshold(|query|) > 0 && Distance(query, word) <= EditThreshold(|query|))
  }

  /** So many edits at most lead from one word to the other. */
  ghost predicate WithinEdits(query: string, word: string, n: nat) {
    exists edits :: |edits| <= n && Turns(query, edits, word)
  }

  /**
    A query matches the words it begins; from three bytes on also those one edit away,
    and from six bytes on those two edits away.
   */
  lemma FuzzyMeans(query: string, word: string)
    ensures FuzzyMatches(query, word) <==>
      || query <= word
      || (3 <= |query| <= 5 && WithinEdits(query, word, 1))
      || (6 <= |query| && WithinEdits(query, word, 2))
  {
    WithinIsDistance(query, word, 1);
    WithinIsDistance(query, word, 2);
  }

  lemma WithinIsDistance(query: string, word: string, n: nat)
    ensures WithinEdits(query, word, n) <==> Distance(query, word) <= n
  {
    DistanceMeansFewestEdits(query, word);
  }

  /** anyNameWordFuzzyMatches: the length prefilter drops no match. */
  method AnyNameWordFuzzyMatches(query: string, words: seq<string>) returns (found: bool)
    ensures found <==> MatchesSome(query, words)
  {
    var threshold := EditThreshold(|query|);
    for i := 0 to |words|
      invariant forall w :: w in words[..i] ==> !FuzzyMatches(query, w)
    {
      var word := words[i];
      assert words[..i + 1] == words[..i] + [word];
      if query <= word {
        assert FuzzyMatches(query, word);
        return true;
      }
      if |query| - |word| > threshold || |word| - |query| > threshold {
        DistanceAtLeastLengthDifference(query, word);
        continue;
      }
      if threshold > 0 {
        var d := Levenshtein(query, word);
        if d <= threshold {
          return true;
        }
      }
    }
    assert words[..|words|] == words;
    found := false;
  }

  datatype Match = NoMatch | Fuzzy | Exact

  predicate Contains(s: string, t: string) {
    exists i :: 0 <= i <= |s| && t <= s[i..]
  }

  ghost predicate MatchesSome(query: string, words: seq<string>) {
    exists w :: w in words && FuzzyMatches(query, w)
  }

  /** What a contact with these lower-cased names is worth for a query. */
  ghost function Score(name: string, nick: string, query: string, fields: string -> seq<string>): Match {
    var words := fields(name) + if nick != "" then fields(nick) else [];
    if Contains(name, query) || (nick != "" && Contains(nick, query)) then Exact
    else if fields(query) != [] && forall q :: q in fields(query) ==> MatchesSome(q, words) then Fuzzy
    else NoMatch
  }

  ghost predicate SplitsAround(s: string, a: string, t: string, b: string) {
    s == a + t + b
  }

  /** One string occurs in another. */
  ghost predicate Within(t: string, s: string) {
    exists a, b :: SplitsAround(s, a, t, b)
  }

  lemma ContainsIsWithin(s: string, t: string)
    ensures Contains(s, t) <==> Within(t, s)
  {
    if i :| 0 <= i <= |s| && t <= s[i..] {
      assert SplitsAround(s, s[..i], t, s[i + |t|..]);
    }
    if a, b :| SplitsAround(s, a, t, b) {
      assert s[|a|..] == t + b;
    }
  }

  lemma ScoreMeans(name: string, nick: string, query: string, fields: string -> seq<string>)
    ensures var m := Score(name, nick, query, fields);
      && (m == Exact <==> Within(query, name) || (nick != "" && Within(query, nick)))
      && (m == Fuzzy <==> m != Exact && fields(query) != [] && forall q :: q in fields(query) ==>
            exists w :: (w in fields(name) || (nick != "" && w in fields(nick))) && FuzzyMatches(q, w))
  {
    ContainsIsWithin(name, query);
    ContainsIsWithin(nick, query);
    var words := fields(name) + if nick != "" then fields(nick) else [];
    assert forall w :: w in words <==> w in fields(name) || (nick != "" && w in fields(nick));
  }

  /** contactMatchScore, with the word splitter as a parameter. */
  method ContactMatchScore(name: string, nick: string, query: string, fields: string -> seq<string>) returns (m: Match)
    ensures m == Score(name, nick, query, fields)
    ensures m == Exact <==> Within(query, name) || (nick != "" && Within(query, nick))
    ensures m == Fuzzy <==> m != Exact && fields(query) != [] && forall q :: q in fields(query) ==>
      exists w :: (w in fields(name) || (nick != "" && w in fields(nick))) && FuzzyMatches(q, w)
  {
    ScoreMeans(name, nick, query, fields);
    if Contains(name, query) {
      return Exact;
    }
    if nick != "" && Contains(nick, query) {
      return Exact;
    }
    var queryWords := fields(query);
    if |queryWords| == 0 {
      return NoMatch;
    }
    var nameWords := fields(name);
    if nick != "" {
      nameWords := nameWords + fields(nick);
    }
    assert nameWords == fields(name) + if nick != "" then fields(nick) else [];
    for i := 0 to |queryWords|
      invariant forall q :: q in queryWords[..i] ==> MatchesSome(q, nameWords)
    {
      var found := AnyNameWordFuzzyMatches(queryWords[i], nameWords);
      if !found {
        assert queryWords[i] in queryWords;
        return NoMatch;
      }
      assert queryWords[..i + 1] == queryWords[..i] + [queryWords[i]];
    }
    assert queryWords[..|queryWords|] == queryWords;
    m := Fuzzy;
  }
}
