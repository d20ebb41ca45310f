/** The list and selection edits shared by the inventory and students
    pages: id allocation, edit by id, delete by selection, checkbox toggles,
    select-all, and the case-insensitive search. Each is stated once over
    any record type, given how to read a record's id. */
module Collections {
  import opened Common
  import opened JsText

  /** The ids of a list, in order. */
  function Ids<T>(xs: seq<T>, idOf: T -> int): (r: seq<int>)
    ensures |r| == |xs|
    ensures forall i :: 0 <= i < |xs| ==> r[i] == idOf(xs[i])
  {
    MapSeq(xs, idOf)
  }

  /** No two records share an id. */
  ghost predicate DistinctIds<T>(xs: seq<T>, idOf: T -> int)
  {
    forall i, j :: 0 <= i < j < |xs| ==> idOf(xs[i]) != idOf(xs[j])
  }

  /** `Math.max(...ids) + 1` on a non-empty list: above every id, and one
      more than the largest. */
  function NextId<T>(xs: seq<T>, idOf: T -> int): (r: int)
    requires |xs| > 0
    ensures forall x :: x in xs ==> idOf(x) < r
    ensures exists x :: x in xs && idOf(x) == r - 1
  {
    var ids := Ids(xs, idOf);
    assert forall x :: x in xs ==> idOf(x) in ids by {
      forall x | x in xs ensures idOf(x) in ids {
        var i :| 0 <= i < |xs| && xs[i] == x;
        assert ids[i] == idOf(x);
      }
    }
    var m := MaxOf(ids);
    var i :| 0 <= i < |ids| && ids[i] == m;
    assert xs[i] in xs && idOf(xs[i]) == m;
    m + 1
  }

  /** Appending records whose ids are distinct among themselves and from
      every existing id keeps the ids distinct. */
  lemma AppendKeepsDistinct<T>(xs: seq<T>, ys: seq<T>, idOf: T -> int)
    requires DistinctIds(xs, idOf) && DistinctIds(ys, idOf)
    requires forall x, y :: x in xs && y in ys ==> idOf(x) != idOf(y)
    ensures DistinctIds(xs + ys, idOf)
  {
    var zs := xs + ys;
    forall i, j | 0 <= i < j < |zs| ensures idOf(zs[i]) != idOf(zs[j]) {
      if j < |xs| {
        assert zs[i] == xs[i] && zs[j] == xs[j];
      } else if i >= |xs| {
        assert zs[i] == ys[i - |xs|] && zs[j] == ys[j - |xs|];
      } else {
        assert zs[i] == xs[i] && zs[j] == ys[j - |xs|];
        assert xs[i] in xs && ys[j - |xs|] in ys;
      }
    }
  }

  /** Edit: every record with `updated`'s id is replaced by `updated`; the
      length, the order and every id stay as they were. */
  function ReplaceById<T>(xs: seq<T>, updated: T, idOf: T -> int): (r: seq<T>)
    ensures |r| == |xs|
    ensures forall i :: 0 <= i < |xs| ==> r[i] == if idOf(xs[i]) == idOf(updated) then updated else xs[i]
    ensures Ids(r, idOf) == Ids(xs, idOf)
  {
    MapSeq(xs, (x: T) => if idOf(x) == idOf(updated) then updated else x)
  }

  /** Editing twice with the same record changes nothing more, and an edit
      whose id matches no record changes nothing. */
  lemma ReplaceByIdSettles<T>(xs: seq<T>, updated: T, idOf: T -> int)
    ensures ReplaceById(ReplaceById(xs, updated, idOf), updated, idOf) == ReplaceById(xs, updated, idOf)
    ensures (forall x :: x in xs ==> idOf(x) != idOf(updated)) ==> ReplaceById(xs, updated, idOf) == xs
  {
    if forall x :: x in xs ==> idOf(x) != idOf(updated) {
      var r := ReplaceById(xs, updated, idOf);
      forall i | 0 <= i < |xs| ensures r[i] == xs[i] {
        assert xs[i] in xs;
      }
    }
  }

  /** Delete-selected: exactly the records whose id is not selected, in
      their original order. */
  function RemoveSelected<T>(xs: seq<T>, selected: set<int>, idOf: T -> int): (r: seq<T>)
    ensures forall x :: x in r ==> x in xs && idOf(x) !in selected
    ensures forall x :: x in xs && idOf(x) !in selected ==> x in r
    ensures forall x :: x in r ==> multiset(r)[x] == multiset(xs)[x]
    ensures |r| <= |xs| && IsSubsequence(r, xs)
  {
    FilterIsSubsequence(xs, (x: T) => idOf(x) !in selected);
    FilterSeq(xs, (x: T) => idOf(x) !in selected)
  }

  /** Removing records keeps the remaining ids distinct. */
  lemma {:induction false} FilterKeepsDistinct<T>(xs: seq<T>, keep: T -> bool, idOf: T -> int)
    requires DistinctIds(xs, idOf)
    ensures DistinctIds(FilterSeq(xs, keep), idOf)
  {
    if xs != [] {
      var rest := xs[1..];
      assert DistinctIds(rest, idOf) by {
        forall i, j | 0 <= i < j < |rest| ensures idOf(rest[i]) != idOf(rest[j]) {
          assert rest[i] == xs[i + 1] && rest[j] == xs[j + 1];
        }
      }
      FilterKeepsDistinct(rest, keep, idOf);
      if keep(xs[0]) {
        var f := FilterSeq(rest, keep);
        forall y | y in f ensures idOf(y) != idOf(xs[0]) {
          var k :| 0 <= k < |rest| && rest[k] == y;
          assert xs[k + 1] == y;
        }
        AppendKeepsDistinct([xs[0]], f, idOf);
      }
    }
  }

  /** Deleting the selected records keeps the remaining ids distinct. */
  lemma RemoveSelectedKeepsDistinct<T>(xs: seq<T>, selected: set<int>, idOf: T -> int)
    requires DistinctIds(xs, idOf)
    ensures DistinctIds(RemoveSelected(xs, selected, idOf), idOf)
  {
    FilterKeepsDistinct(xs, (x: T) => idOf(x) !in selected, idOf);
  }

  /** `handleSelect`: flips whether `id` is selected and leaves every other
      id as it was. */
  function Toggle(selected: set<int>, id: int): (r: set<int>)
    ensures id in r <==> id !in selected
    ensures forall x :: x != id ==> (x in r <==> x in selected)
  {
    if id in selected then selected - {id} else selected + {id}
  }

  /** Toggling the same checkbox twice restores the selection. */
  lemma ToggleTwice(selected: set<int>, id: int)
    ensures Toggle(Toggle(selected, id), id) == selected
  {
    var r := Toggle(Toggle(selected, id), id);
    assert forall x :: x in r <==> x in selected;
  }

  /** `handleSelectAll`: clears the selection when it has as many ids as
      there are visible records; otherwise selects exactly the visible ids.
      Only the sizes are compared, not which ids are selected. */
  function SelectAll(selected: set<int>, visibleIds: seq<int>): (r: set<int>)
    ensures |selected| == |visibleIds| ==> r == {}
    ensures |selected| != |visibleIds| ==> forall x :: x in r <==> x in visibleIds
  {
    if |selected| == |visibleIds| then {} else set x | x in visibleIds
  }

  /** A list of distinct ids has as many members as positions. */
  lemma {:induction false} DistinctCard(ids: seq<int>)
    requires forall i, j :: 0 <= i < j < |ids| ==> ids[i] != ids[j]
    ensures |set x | x in ids| == |ids|
  {
    if ids != [] {
      var rest := ids[1..];
      DistinctCard(rest);
      assert (set x | x in ids) == {ids[0]} + (set x | x in rest);
      forall k | 0 <= k < |rest| ensures rest[k] != ids[0] {
        assert rest[k] == ids[k + 1];
      }
    }
  }

  /** With distinct visible ids and at least one visible record, pressing
      select-all twice from a partial selection selects everything and then
      clears. */
  lemma SelectAllTwiceClears(selected: set<int>, visibleIds: seq<int>)
    requires forall i, j :: 0 <= i < j < |visibleIds| ==> visibleIds[i] != visibleIds[j]
    requires |selected| != |visibleIds|
    ensures SelectAll(selected, visibleIds) == set x | x in visibleIds
    ensures SelectAll(SelectAll(selected, visibleIds), visibleIds) == {}
  {
    DistinctCard(visibleIds);
  }

  /** The search test: the lower-cased field contains the lower-cased term. */
  function Matches(field: string, term: string): (r: bool)
    ensures r <==> exists i :: OccursAt(Lower(field), Lower(term), i)
  {
    Includes(Lower(field), Lower(term))
  }

  /** An empty search matches everything, and the search does not depend on
      the case of the term's letters. */
  lemma MatchesProperties(field: string, term: string)
    ensures Matches(field, "")
    ensures Matches(field, Lower(term)) == Matches(field, term)
  {
    IncludesEmpty(Lower(field));
    LowerIdempotent(term);
  }
}
