/** Sequence operations the pages build on: `Array.prototype.filter`,
    `Array.prototype.map` with an id test, `Array.from(new Set(...))`,
    the `['All', ...]` option lists, and sorting distinct strings. */
module Collections {
  import opened Text

  /** `a` can be obtained from `b` by deleting elements: the order of what
      remains is the order in `b`. */
  predicate IsSubsequence<T(==)>(a: seq<T>, b: seq<T>)
    decreases |b|
  {
    || a == []
    || (b != [] && ((a[0] == b[0] && IsSubsequence(a[1..], b[1..])) || IsSubsequence(a, b[1..])))
  }

  /** `s.filter(p)`: exactly the elements satisfying `p`, in their order. */
  function Filter<T(!new)>(s: seq<T>, p: T -> bool): (r: seq<T>)
    ensures |r| <= |s|
    ensures forall x :: x in r <==> x in s && p(x)
    ensures IsSubsequence(r, s)
    ensures (forall i :: 0 <= i < |s| ==> p(s[i])) ==> r == s
    ensures forall x :: multiset(r)[x] == if p(x) then multiset(s)[x] else 0
    decreases |s|
  {
    if s == [] then []
    else
      var rest := Filter(s[1..], p);
      MultisetCons(s);
      if p(s[0]) then
        assert multiset([s[0]] + rest) == multiset([s[0]]) + multiset(rest);
        [s[0]] + rest
      else rest
  }

  /** The multiset of a non-empty sequence splits at its head. */
  lemma MultisetCons<T>(s: seq<T>)
    requires s != []
    ensures multiset(s) == multiset([s[0]]) + multiset(s[1..])
  {
    assert s == [s[0]] + s[1..];
  }

  /** `s.map(x => hit(x) ? f(x) : x)`: the shape of every in-place update in
      the console. */
  function MapWhere<T>(s: seq<T>, hit: T -> bool, f: T -> T): (r: seq<T>)
    ensures |r| == |s|
    ensures forall i :: 0 <= i < |s| ==> r[i] == (if hit(s[i]) then f(s[i]) else s[i])
  {
    seq(|s|, i requires 0 <= i < |s| => if hit(s[i]) then f(s[i]) else s[i])
  }

  /** `s.map(f)`. */
  function MapSeq<T, U(!new)>(s: seq<T>, f: T -> U): (r: seq<U>)
    ensures |r| == |s|
    ensures forall i :: 0 <= i < |s| ==> r[i] == f(s[i])
    ensures forall y :: y in r <==> exists i :: 0 <= i < |s| && f(s[i]) == y
  {
    var r := seq(|s|, i requires 0 <= i < |s| => f(s[i]));
    assert forall i :: 0 <= i < |s| ==> r[i] == f(s[i]);
    r
  }

  /** `s.filter(item => item !== x)`: every copy of `x` removed. */
  function RemoveAll<T(==,!new)>(s: seq<T>, x: T): (r: seq<T>)
    ensures x !in r
    ensures forall y :: y in r <==> y in s && y != x
    ensures IsSubsequence(r, s)
    ensures x !in s ==> r == s
    ensures forall y :: multiset(r)[y] == if y == x then 0 else multiset(s)[y]
    decreases |s|
  {
    if s == [] then []
    else
      var rest := RemoveAll(s[1..], x);
      MultisetCons(s);
      if s[0] == x then rest
      else
        assert multiset([s[0]] + rest) == multiset([s[0]]) + multiset(rest);
        [s[0]] + rest
  }

  /** Removing an element that was appended to a sequence not holding it
      gives the sequence back. */
  lemma {:induction false} RemoveAllAppended<T(!new)>(s: seq<T>, x: T)
    requires x !in s
    ensures RemoveAll(s + [x], x) == s
    decreases |s|
  {
    if s == [] {
      assert [x][1..] == [];
    } else {
      assert (s + [x])[1..] == s[1..] + [x];
      RemoveAllAppended(s[1..], x);
    }
  }

  predicate NoDuplicates<T(==)>(s: seq<T>) {
    forall i, j :: 0 <= i < j < |s| ==> s[i] != s[j]
  }

  /** Position of the first occurrence of `x` in `s`. */
  function FirstIndex<T(==)>(s: seq<T>, x: T): (k: nat)
    requires x in s
    ensures k < |s| && s[k] == x
    ensures forall i :: 0 <= i < k ==> s[i] != x
    decreases |s|
  {
    if s[0] == x then 0 else 1 + FirstIndex(s[1..], x)
  }

  /** Appending to a sequence moves no first occurrence of what it holds. */
  lemma FirstIndexAppend<T>(p: seq<T>, y: T, x: T)
    requires x in p
    ensures FirstIndex(p + [y], x) == FirstIndex(p, x)
  {
    var k := FirstIndex(p, x);
    var k' := FirstIndex(p + [y], x);
    assert (p + [y])[k] == x;
    assert k' <= k;
    assert p[k'] == x;
  }

  /** `r` lists its elements in the order of their first occurrence in `s`. */
  predicate FirstOccurrenceOrder<T(==)>(r: seq<T>, s: seq<T>) {
    forall i, j :: 0 <= i < j < |r| && r[i] in s && r[j] in s ==>
      FirstIndex(s, r[i]) < FirstIndex(s, r[j])
  }

  /** `Array.from(new Set(s))`: the distinct elements of `s`, each once, in
      first-occurrence order (the iteration order of a JavaScript `Set`). */
  function Distinct<T(==,!new)>(s: seq<T>): (r: seq<T>)
    ensures NoDuplicates(r)
    ensures forall x :: x in r <==> x in s
    ensures FirstOccurrenceOrder(r, s)
    decreases |s|
  {
    if s == [] then []
    else
      var p := s[..|s| - 1];
      var y := s[|s| - 1];
      assert s == p + [y];
      var d := Distinct(p);
      DistinctStep(p, y, d);
      if y in d then d else d + [y]
  }

  /** The inductive step of `Distinct`: adding the last element keeps the
      first-occurrence order. */
  lemma DistinctStep<T>(p: seq<T>, y: T, d: seq<T>)
    requires forall x :: x in d <==> x in p
    requires FirstOccurrenceOrder(d, p)
    ensures FirstOccurrenceOrder(if y in d then d else d + [y], p + [y])
  {
    var s := p + [y];
    forall x | x in p
      ensures FirstIndex(s, x) == FirstIndex(p, x)
    {
      FirstIndexAppend(p, y, x);
    }
    if y !in d {
      var r := d + [y];
      assert FirstIndex(s, y) == |p| by {
        assert s[|p|] == y;
      }
      forall i, j | 0 <= i < j < |r| && r[i] in s && r[j] in s
        ensures FirstIndex(s, r[i]) < FirstIndex(s, r[j])
      {
        if j < |d| {
          assert r[i] == d[i] && r[j] == d[j];
        } else {
          assert r[i] == d[i] && d[i] in p;
        }
      }
    }
  }

  /** The option list of a filter drop-down: `['All', ...distinct values]`. */
  function Options(values: seq<string>): (r: seq<string>)
    ensures |r| >= 1 && r[0] == "All"
    ensures NoDuplicates(r[1..])
    ensures forall v :: v in r[1..] <==> v in values
    ensures FirstOccurrenceOrder(r[1..], values)
  {
    var d := Distinct(values);
    assert (["All"] + d)[1..] == d;
    ["All"] + d
  }

  /** Strictly ascending in the string order, hence free of duplicates. */
  predicate StrictlySorted(s: seq<string>) {
    forall i, j :: 0 <= i < j < |s| ==> LexLess(s[i], s[j])
  }

  lemma StrictlySortedNoDuplicates(s: seq<string>)
    requires StrictlySorted(s)
    ensures NoDuplicates(s)
  {
    forall i, j | 0 <= i < j < |s|
      ensures s[i] != s[j]
    {
      LexLessIrreflexive(s[i]);
    }
  }

  /** Inserts `x` into a strictly ascending sequence, unless already there. */
  function InsertSorted(x: string, s: seq<string>): (r: seq<string>)
    requires StrictlySorted(s)
    ensures StrictlySorted(r)
    ensures forall y :: y in r <==> y == x || y in s
    decreases |s|
  {
    if s == [] then [x]
    else if x == s[0] then s
    else if LexLess(x, s[0]) then
      InsertFrontSorted(x, s);
      [x] + s
    else
      var t := InsertSorted(x, s[1..]);
      LexLessTotal(x, s[0]);
      InsertBehindSorted(s, x, t);
      [s[0]] + t
  }

  lemma InsertFrontSorted(x: string, s: seq<string>)
    requires StrictlySorted(s) && s != [] && LexLess(x, s[0])
    ensures StrictlySorted([x] + s)
  {
    var r := [x] + s;
    forall i, j | 0 <= i < j < |r|
      ensures LexLess(r[i], r[j])
    {
      if i == 0 {
        LexLessTransitive(x, s[0], s[j - 1]);
      } else {
        assert r[i] == s[i - 1] && r[j] == s[j - 1];
      }
    }
  }

  lemma InsertBehindSorted(s: seq<string>, x: string, t: seq<string>)
    requires StrictlySorted(s) && s != [] && LexLess(s[0], x)
    requires StrictlySorted(t)
    requires forall y :: y in t <==> y == x || y in s[1..]
    ensures StrictlySorted([s[0]] + t)
  {
    forall j | 0 <= j < |t|
      ensures LexLess(s[0], t[j])
    {
      assert t[j] in t;
      if t[j] != x {
        var k :| 0 <= k < |s[1..]| && s[1..][k] == t[j];
        assert s[k + 1] == t[j];
      }
    }
  }

  /** The `.sort()` of distinct strings: strictly ascending, same elements. */
  function SortStrings(s: seq<string>): (r: seq<string>)
    ensures StrictlySorted(r)
    ensures forall y :: y in r <==> y in s
    decreases |s|
  {
    if s == [] then [] else InsertSorted(s[0], SortStrings(s[1..]))
  }

  /** `.reverse()`. */
  function Reverse<T>(s: seq<T>): (r: seq<T>)
    ensures |r| == |s|
    ensures forall i :: 0 <= i < |s| ==> r[i] == s[|s| - 1 - i]
  {
    seq(|s|, i requires 0 <= i < |s| => s[|s| - 1 - i])
  }
}
