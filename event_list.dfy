/**
  The three list transformations the calendar applies to its event list.
  None of them mutates its argument: each builds a new sequence, as the
  spread, `map` and `filter` expressions of the component do. Elements are
  compared with `==`, which on objects is reference equality, the meaning of
  JavaScript's `===` and `!==` on event objects.
 */
module EventList {

  /** `[...s, x]`: the old list followed by one new element. */
  function Append<T>(s: seq<T>, x: T): (r: seq<T>)
    ensures |r| == |s| + 1
    ensures r[..|s|] == s && r[|s|] == x
    ensures multiset(r) == multiset(s) + multiset{x}
  {
    s + [x]
  }

  /** `s.map(e => e === target ? replacement : e)`: every position holding
      `target` now holds `replacement`; all other positions are kept. */
  function ReplaceAll<T(==)>(s: seq<T>, target: T, replacement: T): (r: seq<T>)
    ensures |r| == |s|
    ensures forall i :: 0 <= i < |s| ==> r[i] == (if s[i] == target then replacement else s[i])
  {
    if s == [] then []
    else [if s[0] == target then replacement else s[0]] + ReplaceAll(s[1..], target, replacement)
  }

  /** `s.filter(e => e !== target)`: every occurrence of `target` is dropped,
      every other element is kept as often as it occurred. */
  function RemoveAll<T(==)>(s: seq<T>, target: T): (r: seq<T>)
    ensures target !in r
    ensures forall x :: x in r ==> x in s
    ensures multiset(r) == multiset(s)[target := 0]
    ensures |r| == |s| - multiset(s)[target]
  {
    if s == [] then []
    else
      assert s == [s[0]] + s[1..];
      if s[0] == target then RemoveAll(s[1..], target)
      else [s[0]] + RemoveAll(s[1..], target)
  }

  /** Removal works piecewise, so the kept elements stay in their original order. */
  lemma {:induction false} RemoveAllConcat<T>(a: seq<T>, b: seq<T>, target: T)
    ensures RemoveAll(a + b, target) == RemoveAll(a, target) + RemoveAll(b, target)
  {
    if a == [] {
      assert a + b == b;
    } else {
      assert (a + b)[0] == a[0];
      assert (a + b)[1..] == a[1..] + b;
      RemoveAllConcat(a[1..], b, target);
    }
  }

  /** Removing leaves the list as it was exactly when the target does not occur. */
  lemma {:induction false} RemoveAllUnchanged<T>(s: seq<T>, target: T)
    ensures RemoveAll(s, target) == s <==> target !in s
  {
    if s != [] {
      RemoveAllUnchanged(s[1..], target);
      if target !in s {
        assert target !in s[1..];
      }
    }
  }

  /** Removing an element that was just appended, and occurred nowhere before,
      gives back the list from before the append. */
  lemma RemoveAllAfterAppend<T>(s: seq<T>, x: T)
    requires x !in s
    ensures RemoveAll(Append(s, x), x) == s
  {
    RemoveAllConcat(s, [x], x);
    RemoveAllUnchanged(s, x);
    assert RemoveAll([x], x) == [];
  }

  /** Replacing changes the list exactly when the target occurs and differs from its replacement. */
  lemma {:induction false} ReplaceAllUnchanged<T>(s: seq<T>, target: T, replacement: T)
    ensures ReplaceAll(s, target, replacement) == s <==> (target !in s || target == replacement)
  {
    var r := ReplaceAll(s, target, replacement);
    if target in s && target != replacement {
      var i :| 0 <= i < |s| && s[i] == target;
      assert r[i] != s[i];
    } else {
      assert forall i :: 0 <= i < |s| ==> r[i] == s[i];
    }
  }

  /** Every occurrence of the target is counted again as an occurrence of the replacement. */
  lemma {:induction false} ReplaceAllMultiset<T>(s: seq<T>, target: T, replacement: T)
    requires target != replacement
    ensures multiset(ReplaceAll(s, target, replacement))
         == multiset(s)[target := 0][replacement := multiset(s)[replacement] + multiset(s)[target]]
  {
    if s != [] {
      assert s == [s[0]] + s[1..];
      ReplaceAllMultiset(s[1..], target, replacement);
    }
  }

  /** Deleting a replacement that occurred nowhere before gives the same list
      as deleting the element it replaced. */
  lemma {:induction false} RemoveAllAfterReplaceAll<T>(s: seq<T>, target: T, replacement: T)
    requires replacement !in s
    ensures RemoveAll(ReplaceAll(s, target, replacement), replacement) == RemoveAll(s, target)
  {
    if s != [] {
      assert replacement !in s[1..];
      RemoveAllAfterReplaceAll(s[1..], target, replacement);
    }
  }
}
