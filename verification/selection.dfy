/**
 * The selection updaters of the grid component.
 *
 * `select` appends a cell index to the selection, or, while the Meta key is
 * held, takes the symmetric difference with that one index. The symmetric
 * difference is Ramda's: `symmetricDifference(a, b)` is
 * `difference(a, b)` followed by `difference(b, a)`, where `difference(first,
 * second)` walks `first` left to right and keeps each element that is neither
 * in `second` nor already kept, so its result has no duplicates and keeps the
 * order of first occurrences.
 */
module Selection {

  /** No index occurs twice. */
  predicate Distinct(s: seq<nat>)
  {
    forall p, q :: 0 <= p < q < |s| ==> s[p] != s[q]
  }

  /** The set of the elements of a list. */
  function Elements(s: seq<nat>): (e: set<nat>)
    ensures forall j :: j in e <==> j in s
  {
    set j | j in s
  }

  /**
   * Ramda's `difference` loop: `seen` starts as the elements of the second list
   * and grows by every element kept.
   */
  function DifferenceFrom(s: seq<nat>, seen: set<nat>): (r: seq<nat>)
    ensures forall j :: j in r <==> j in s && j !in seen
    ensures Distinct(r)
    decreases |s|
  {
    if s == [] then []
    else if s[0] in seen then DifferenceFrom(s[1..], seen)
    else [s[0]] + DifferenceFrom(s[1..], seen + {s[0]})
  }

  /** The elements of `first` not in `second`, each once, in order of first occurrence. */
  function Difference(first: seq<nat>, second: seq<nat>): (r: seq<nat>)
    ensures forall j :: j in r <==> j in first && j !in second
    ensures Distinct(r)
  {
    DifferenceFrom(first, Elements(second))
  }

  /** The elements in exactly one of the two lists, each once. */
  function SymmetricDifference(a: seq<nat>, b: seq<nat>): (r: seq<nat>)
    ensures forall j :: j in r <==> (j in a) != (j in b)
    ensures Distinct(r)
  {
    var left, right := Difference(a, b), Difference(b, a);
    assert forall p, q :: 0 <= p < |left| && 0 <= q < |right| ==> left[p] != right[q] by {
      forall p, q | 0 <= p < |left| && 0 <= q < |right|
        ensures left[p] != right[q]
      {
        assert left[p] in left && right[q] in right;
      }
    }
    left + right
  }

  /**
   * The selection after `select` of the cell index `cell`: with Meta held the
   * index is toggled, otherwise it is appended at the end.
   */
  function Select(selected: seq<nat>, metaPressed: bool, cell: nat): (r: seq<nat>)
    ensures metaPressed ==> forall j :: j in r <==> (j in selected) != (j == cell)
    ensures metaPressed ==> Distinct(r)
    ensures !metaPressed ==> |r| == |selected| + 1 && r[..|selected|] == selected && r[|selected|] == cell
  {
    if metaPressed then SymmetricDifference(selected, [cell]) else selected + [cell]
  }

  /** Selecting never introduces an index other than the one selected. */
  lemma SelectStaysInBounds(selected: seq<nat>, metaPressed: bool, cell: nat, bound: nat)
    requires forall k :: 0 <= k < |selected| ==> selected[k] < bound
    requires cell < bound
    ensures forall k :: 0 <= k < |Select(selected, metaPressed, cell)| ==> Select(selected, metaPressed, cell)[k] < bound
  {
    var r := Select(selected, metaPressed, cell);
    forall k | 0 <= k < |r|
      ensures r[k] < bound
    {
      assert r[k] in r;
      if !metaPressed && k < |selected| {
        assert r[k] == r[..|selected|][k];
      }
    }
  }

  /** A list of distinct indices, none already seen, comes through the difference loop whole. */
  lemma {:induction false} DifferenceFromKeeps(s: seq<nat>, seen: set<nat>)
    requires Distinct(s)
    requires forall k :: 0 <= k < |s| ==> s[k] !in seen
    ensures DifferenceFrom(s, seen) == s
    decreases |s|
  {
    if s != [] {
      forall k | 0 <= k < |s[1..]|
        ensures s[1..][k] !in seen + {s[0]}
      {
        assert s[1..][k] == s[k + 1];
      }
      DifferenceFromKeeps(s[1..], seen + {s[0]});
    }
  }

  /**
   * A list of distinct indices of which exactly the one at position `p` has
   * been seen loses exactly that element in the difference loop.
   */
  lemma {:induction false} DifferenceFromDrops(s: seq<nat>, seen: set<nat>, p: nat)
    requires Distinct(s) && p < |s| && s[p] in seen
    requires forall k :: 0 <= k < |s| && k != p ==> s[k] !in seen
    ensures DifferenceFrom(s, seen) == s[..p] + s[p + 1..]
    decreases |s|
  {
    if p == 0 {
      forall k | 0 <= k < |s[1..]|
        ensures s[1..][k] !in seen
      {
        assert s[1..][k] == s[k + 1];
      }
      DifferenceFromKeeps(s[1..], seen);
    } else {
      var t := s[1..];
      forall k | 0 <= k < |t| && k != p - 1
        ensures t[k] !in seen + {s[0]}
      {
        assert t[k] == s[k + 1];
      }
      DifferenceFromDrops(t, seen + {s[0]}, p - 1);
      assert [s[0]] + (t[..p - 1] + t[p..]) == s[..p] + s[p + 1..];
    }
  }

  /**
   * With Meta held, selecting an index that is not selected yet appends it to
   * a duplicate-free selection: {3} then 5 gives [3, 5].
   */
  lemma ToggleAddsAbsent(selected: seq<nat>, cell: nat)
    requires Distinct(selected) && cell !in selected
    ensures Select(selected, true, cell) == selected + [cell]
  {
    forall k | 0 <= k < |selected|
      ensures selected[k] !in Elements([cell])
    {
      assert selected[k] in selected;
    }
    DifferenceFromKeeps(selected, Elements([cell]));
    assert Difference([cell], selected) == [cell] by {
      DifferenceFromKeeps([cell], Elements(selected));
    }
  }

  /**
   * With Meta held, selecting an index that is already selected removes it
   * from a duplicate-free selection and keeps the order of the others:
   * {3} then 3 gives [].
   */
  lemma ToggleRemovesPresent(selected: seq<nat>, p: nat)
    requires Distinct(selected) && p < |selected|
    ensures Select(selected, true, selected[p]) == selected[..p] + selected[p + 1..]
  {
    var cell := selected[p];
    DifferenceFromDrops(selected, Elements([cell]), p);
    assert cell in selected;
    var rest := Difference([cell], selected);
    if rest != [] {
      assert rest[0] in rest;
    }
  }

  /** With Meta held, selecting the same index twice restores which indices are selected. */
  lemma ToggleTwiceRestoresMembership(selected: seq<nat>, cell: nat)
    ensures forall j :: j in Select(Select(selected, true, cell), true, cell) <==> j in selected
  {
  }
}
