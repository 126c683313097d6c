/** Next-fit grouping of a list into consecutive runs, for any fitting rule. */
module Greedy {
  import opened Collections

  /** Group the remaining items, with some already held for the open group. */
  function Group<T>(fits: (seq<T>, T) -> bool, items: seq<T>, held: seq<T>): seq<seq<T>>
    decreases |items|
  {
    if items == [] then
      if held == [] then [] else [held]
    else if held != [] && !fits(held, items[0]) then
      [held] + Group(fits, items[1..], [items[0]])
    else
      Group(fits, items[1..], held + [items[0]])
  }

  /** The groups are the items, in order, and none is empty. */
  lemma {:induction false} GroupPartitions<T>(fits: (seq<T>, T) -> bool, items: seq<T>, held: seq<T>)
    ensures Flatten(Group(fits, items, held)) == held + items
    ensures held + items != [] ==> Group(fits, items, held) != []
    ensures forall g :: g in Group(fits, items, held) ==> g != []
    decreases |items|
  {
    if items == [] {
      assert [held][1..] == [];
      assert held + items == held;
    } else {
      var x, rest := items[0], items[1..];
      if held != [] && !fits(held, x) {
        GroupPartitions(fits, rest, [x]);
        assert ([held] + Group(fits, rest, [x]))[1..] == Group(fits, rest, [x]);
        assert held + ([x] + rest) == held + items;
      } else {
        GroupPartitions(fits, rest, held + [x]);
        assert (held + [x]) + rest == held + items;
      }
    }
  }

  /** The break before group j was forced: its first item did not fit the group before it. */
  ghost predicate ForcedBreak<T>(fits: (seq<T>, T) -> bool, groups: seq<seq<T>>, j: nat)
    requires 0 < j < |groups|
  {
    groups[j] != [] && !fits(groups[j - 1], groups[j][0])
  }

  lemma {:induction false} GroupIsGreedy<T>(fits: (seq<T>, T) -> bool, items: seq<T>, held: seq<T>)
    ensures held != [] ==> Group(fits, items, held) != [] && held <= Group(fits, items, held)[0]
    ensures forall j :: 0 < j < |Group(fits, items, held)| ==> ForcedBreak(fits, Group(fits, items, held), j)
    decreases |items|
  {
    if items != [] {
      var x, rest := items[0], items[1..];
      if held != [] && !fits(held, x) {
        GroupIsGreedy(fits, rest, [x]);
        var tail := Group(fits, rest, [x]);
        assert tail[0][0] == x;
        forall j | 0 < j < |[held] + tail|
          ensures ForcedBreak(fits, [held] + tail, j)
        {
          if j > 1 {
            assert ForcedBreak(fits, tail, j - 1);
          }
        }
      } else {
        GroupIsGreedy(fits, rest, held + [x]);
      }
    }
  }

  /** One iteration of a grouping loop that has closed some groups and holds an open one. */
  lemma GroupStep<T>(fits: (seq<T>, T) -> bool, items: seq<T>, i: nat, held: seq<T>, closed: seq<seq<T>>)
    requires i < |items|
    requires Group(fits, items, []) == closed + Group(fits, items[i..], held)
    ensures held != [] && !fits(held, items[i]) ==>
              Group(fits, items, []) == (closed + [held]) + Group(fits, items[i + 1..], [] + [items[i]])
    ensures held == [] || fits(held, items[i]) ==>
              Group(fits, items, []) == closed + Group(fits, items[i + 1..], held + [items[i]])
  {
    var rest := items[i..];
    assert rest[0] == items[i] && rest[1..] == items[i + 1..];
    if held != [] && !fits(held, items[i]) {
      assert [] + [items[i]] == [items[i]];
      var tail := Group(fits, items[i + 1..], [items[i]]);
      assert Group(fits, rest, held) == [held] + tail;
      assert closed + ([held] + tail) == (closed + [held]) + tail;
    }
  }
}
