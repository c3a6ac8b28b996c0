/** Order-preserving selection: the items whose flag is set, in their original order.
    Both the metadata header lines and the optional imports are built this way. */
module Selection {

  function CountTrue(keep: seq<bool>): nat
  {
    if keep == [] then 0
    else CountTrue(keep[..|keep| - 1]) + (if keep[|keep| - 1] then 1 else 0)
  }

  /** The items whose flag is set, in order (built by appending, like a loop would). */
  function Select<T>(items: seq<T>, keep: seq<bool>): (r: seq<T>)
    requires |keep| == |items|
  {
    if items == [] then []
    else
      var n := |items| - 1;
      Select(items[..n], keep[..n]) + (if keep[n] then [items[n]] else [])
  }

  /** One more item considered: it is appended exactly when its flag is set. */
  lemma {:induction false} SelectSnoc<T>(items: seq<T>, keep: seq<bool>, i: nat)
    requires |keep| == |items| && i < |items|
    ensures Select(items[..i + 1], keep[..i + 1])
         == Select(items[..i], keep[..i]) + (if keep[i] then [items[i]] else [])
  {
    assert items[..i + 1][..i] == items[..i];
    assert keep[..i + 1][..i] == keep[..i];
  }

  /** Exactly one output element per set flag. */
  lemma {:induction false} SelectLength<T>(items: seq<T>, keep: seq<bool>)
    requires |keep| == |items|
    ensures |Select(items, keep)| == CountTrue(keep)
  {
    if items != [] {
      SelectLength(items[..|items| - 1], keep[..|keep| - 1]);
    }
  }

  /** The item with the i-th flag set lands at the position given by the number of
      set flags before it. With SelectLength this determines the whole output: the
      selected items, each once, in their original order. */
  lemma {:induction false} SelectAt<T>(items: seq<T>, keep: seq<bool>, i: nat)
    requires |keep| == |items| && i < |items| && keep[i]
    ensures CountTrue(keep[..i]) < |Select(items, keep)|
    ensures Select(items, keep)[CountTrue(keep[..i])] == items[i]
  {
    var n := |items| - 1;
    SelectLength(items, keep);
    if i == n {
      SelectLength(items[..n], keep[..n]);
    } else {
      SelectAt(items[..n], keep[..n], i);
      assert keep[..n][..i] == keep[..i];
    }
  }

  /** Every output element is a selected item. */
  lemma {:induction false} SelectFrom<T>(items: seq<T>, keep: seq<bool>, p: nat)
    requires |keep| == |items| && p < |Select(items, keep)|
    ensures exists i :: 0 <= i < |items| && keep[i] && Select(items, keep)[p] == items[i]
  {
    var n := |items| - 1;
    var front := Select(items[..n], keep[..n]);
    if p < |front| {
      SelectFrom(items[..n], keep[..n], p);
      var i :| 0 <= i < n && keep[..n][i] && front[p] == items[..n][i];
      assert keep[i] && Select(items, keep)[p] == items[i];
    } else {
      assert keep[n] && Select(items, keep)[p] == items[n];
    }
  }

  /** No flag set: nothing selected. */
  lemma {:induction false} SelectNone<T>(items: seq<T>, keep: seq<bool>)
    requires |keep| == |items|
    requires forall i :: 0 <= i < |keep| ==> !keep[i]
    ensures Select(items, keep) == []
  {
    if items != [] {
      SelectNone(items[..|items| - 1], keep[..|keep| - 1]);
    }
  }

  /** Every flag set: everything selected, in order. */
  lemma {:induction false} SelectAll<T>(items: seq<T>, keep: seq<bool>)
    requires |keep| == |items|
    requires forall i :: 0 <= i < |keep| ==> keep[i]
    ensures Select(items, keep) == items
  {
    if items != [] {
      var n := |items| - 1;
      SelectAll(items[..n], keep[..n]);
      assert items[..n] + [items[n]] == items;
    }
  }

  /** `x` is one of the items whose flag is set. */
  ghost predicate IsSelected<T>(items: seq<T>, keep: seq<bool>, x: T)
    requires |keep| == |items|
  {
    exists i :: 0 <= i < |items| && keep[i] && x == items[i]
  }

  /** The output placed after a fixed prefix: the prefix first, then one element per set
      flag, the i-th selected item after the prefix and the selected items before it,
      and nothing that is not a selected item. */
  lemma {:induction false} PrefixSelectShape<T>(prefix: seq<T>, items: seq<T>, keep: seq<bool>)
    requires |keep| == |items|
    ensures (prefix + Select(items, keep))[..|prefix|] == prefix
    ensures |prefix + Select(items, keep)| == |prefix| + CountTrue(keep)
    ensures forall i :: 0 <= i < |items| && keep[i] ==>
      && |prefix| + CountTrue(keep[..i]) < |prefix + Select(items, keep)|
      && (prefix + Select(items, keep))[|prefix| + CountTrue(keep[..i])] == items[i]
    ensures forall p :: |prefix| <= p < |prefix + Select(items, keep)| ==>
      IsSelected(items, keep, (prefix + Select(items, keep))[p])
  {
    var out := prefix + Select(items, keep);
    assert out[..|prefix|] == prefix;
    SelectLength(items, keep);
    forall i | 0 <= i < |items| && keep[i]
      ensures |prefix| + CountTrue(keep[..i]) < |out|
      ensures out[|prefix| + CountTrue(keep[..i])] == items[i]
    {
      SelectAt(items, keep, i);
    }
    forall p | |prefix| <= p < |out|
      ensures IsSelected(items, keep, out[p])
    {
      SelectFrom(items, keep, p - |prefix|);
      var i :| 0 <= i < |items| && keep[i] && Select(items, keep)[p - |prefix|] == items[i];
      assert out[p] == items[i];
    }
  }
}
