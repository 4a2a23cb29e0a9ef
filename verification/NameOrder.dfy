/**
 Contact records and the stable order by name: the specification of the contact book's `sort`.
 */
module NameOrder {
  import opened CStrings

  datatype Sub = Sub(name: string, surename: string, number: string)

  predicate Precedes(x: Sub, y: Sub) {
    Before(x.name, y.name)
  }

  /** Put `x` in front of the first record whose name does not come before x's. */
  function Insert(x: Sub, s: seq<Sub>): seq<Sub> {
    if s == [] || !Precedes(s[0], x) then [x] + s else [s[0]] + Insert(x, s[1..])
  }

  function StableSort(s: seq<Sub>): seq<Sub> {
    if s == [] then [] else Insert(s[0], StableSort(s[1..]))
  }

  /** No name is smaller, by the sign of `strcmp`, than one that stands before it. */
  ghost predicate SortedByName(s: seq<Sub>) {
    forall i, j :: 0 <= i < j < |s| ==> !(StrCmp(s[j].name, s[i].name) < 0)
  }

  /** The same in terms of characters. */
  ghost predicate InDictionaryOrder(s: seq<Sub>) {
    forall i, j :: 0 <= i < j < |s| ==> s[i].name == s[j].name || DictionaryBefore(s[i].name, s[j].name)
  }

  /** The records called `n`, in their order. */
  function WithName(s: seq<Sub>, n: string): seq<Sub> {
    if s == [] then []
    else (if s[0].name == n then [s[0]] else []) + WithName(s[1..], n)
  }

  /** `t` is a stable rearrangement of `s`: each name's records appear in the same order. */
  ghost predicate StablyRearranges(t: seq<Sub>, s: seq<Sub>) {
    && multiset(t) == multiset(s)
    && forall n :: WithName(t, n) == WithName(s, n)
  }

  lemma ConcatAssociates(a: seq<Sub>, b: seq<Sub>, c: seq<Sub>)
    ensures (a + b) + c == a + (b + c)
  {
  }

  // ----- Insertion

  lemma NotBeforeTransitive(x: Sub, y: Sub, z: Sub)
    requires !Precedes(y, x) && !Precedes(z, y)
    ensures !Precedes(z, x)
    ensures Precedes(x, y) ==> !Precedes(z, x) && x.name != z.name
  {
    StrCmpAntisymmetric(y.name, x.name);
    StrCmpAntisymmetric(z.name, y.name);
    StrCmpAntisymmetric(z.name, x.name);
    StrCmpTransitive(x.name, y.name, z.name);
    StrCmpZeroIsEquality(x.name, z.name);
  }

  lemma SortedCons(x: Sub, s: seq<Sub>)
    requires SortedByName(s)
    requires forall y :: y in s ==> !Precedes(y, x)
    ensures SortedByName([x] + s)
  {
    var t := [x] + s;
    forall i, j | 0 <= i < j < |t|
      ensures !(StrCmp(t[j].name, t[i].name) < 0)
    {
      assert t[j] == s[j - 1];
      if i == 0 {
        assert !Precedes(s[j - 1], x);
      } else {
        assert t[i] == s[i - 1];
      }
    }
  }

  lemma SortedTail(s: seq<Sub>)
    requires SortedByName(s) && s != []
    ensures SortedByName(s[1..])
    ensures forall y :: y in s[1..] ==> !Precedes(y, s[0])
  {
    forall y | y in s[1..]
      ensures !Precedes(y, s[0])
    {
      var j :| 0 <= j < |s[1..]| && s[1..][j] == y;
      assert s[j + 1] == y;
    }
  }

  lemma {:induction false} InsertKeepsRecords(x: Sub, s: seq<Sub>)
    ensures multiset(Insert(x, s)) == multiset([x] + s)
    ensures |Insert(x, s)| == |s| + 1
  {
    if s != [] && Precedes(s[0], x) {
      InsertKeepsRecords(x, s[1..]);
      assert s == [s[0]] + s[1..];
      assert multiset([x] + s) == multiset{x} + multiset{s[0]} + multiset(s[1..]);
    }
  }

  lemma {:induction false} InsertSorts(x: Sub, s: seq<Sub>)
    requires SortedByName(s)
    ensures SortedByName(Insert(x, s))
  {
    if s == [] {
    } else if Precedes(s[0], x) {
      var t := Insert(x, s[1..]);
      SortedTail(s);
      InsertSorts(x, s[1..]);
      InsertKeepsRecords(x, s[1..]);
      StrCmpAntisymmetric(s[0].name, x.name);
      forall y | y in t
        ensures !Precedes(y, s[0])
      {
        assert y in multiset(t);
        assert y == x || y in s[1..];
      }
      SortedCons(s[0], t);
    } else {
      SortedTail(s);
      forall y | y in s
        ensures !Precedes(y, x)
      {
        if y != s[0] {
          NotBeforeTransitive(x, s[0], y);
        }
      }
      SortedCons(x, s);
    }
  }

  lemma {:induction false} InsertIsStable(x: Sub, s: seq<Sub>, n: string)
    ensures WithName(Insert(x, s), n) == WithName([x] + s, n)
  {
    assert ([x] + s)[1..] == s;
    if s != [] && Precedes(s[0], x) {
      InsertIsStable(x, s[1..], n);
      assert ([x] + s[1..])[1..] == s[1..];
      StrCmpZeroIsEquality(s[0].name, x.name);
      var t := Insert(x, s[1..]);
      assert ([s[0]] + t)[1..] == t;
    }
  }

  // ----- The inner pass

  /** One left-to-right pass of neighbour swaps, carrying `a` in. */
  function BubblePass(a: Sub, rest: seq<Sub>): seq<Sub>
    decreases |rest|
  {
    if rest == [] then [a]
    else if Precedes(rest[0], a) then [rest[0]] + BubblePass(a, rest[1..])
    else [a] + BubblePass(rest[0], rest[1..])
  }

  function Without(s: seq<Sub>, i: nat): (r: seq<Sub>)
    requires i < |s|
    ensures |r| == |s| - 1
  {
    s[..i] + s[i + 1..]
  }

  function Swapped(s: seq<Sub>, a: nat, b: nat): seq<Sub>
    requires a < |s| && b < |s|
  {
    s[a := s[b]][b := s[a]]
  }

  /** What the pass makes of the array from the comparison at `j` on. */
  function PassFrom(s: seq<Sub>, j: nat): seq<Sub>
    requires j >= 1
    decreases |s| - j
  {
    if j >= |s| then s
    else PassFrom(if Precedes(s[j], s[j - 1]) then Swapped(s, j - 1, j) else s, j + 1)
  }

  lemma SwapShifts(front: seq<Sub>, a: Sub, b: Sub, more: seq<Sub>)
    ensures Swapped(front + ([a] + ([b] + more)), |front|, |front| + 1) == (front + [b]) + ([a] + more)
  {
  }

  lemma KeepShifts(front: seq<Sub>, a: Sub, more: seq<Sub>)
    ensures front + ([a] + more) == (front + [a]) + more
  {
  }

  lemma {:induction false} PassFromBubbles(front: seq<Sub>, a: Sub, rest: seq<Sub>)
    ensures PassFrom(front + ([a] + rest), |front| + 1) == front + BubblePass(a, rest)
    decreases |rest|
  {
    if rest == [] {
      assert [a] + rest == [a];
    } else {
      var b, more := rest[0], rest[1..];
      assert rest == [b] + more;
      var s := front + ([a] + ([b] + more));
      assert s[|front|] == a && s[|front| + 1] == b;
      if Precedes(b, a) {
        SwapShifts(front, a, b, more);
        PassFromBubbles(front + [b], a, more);
        KeepShifts(front, b, BubblePass(a, more));
      } else {
        KeepShifts(front, a, [b] + more);
        PassFromBubbles(front + [a], b, more);
        KeepShifts(front, a, BubblePass(b, more));
      }
    }
  }

  lemma PassFromIndex(s: seq<Sub>, i: nat)
    requires i < |s|
    ensures PassFrom(s, i + 1) == s[..i] + BubblePass(s[i], s[i + 1..])
  {
    SplitAt(s, i);
    PassFromBubbles(s[..i], s[i], s[i + 1..]);
  }

  lemma SplitAt(s: seq<Sub>, i: nat)
    requires i < |s|
    ensures s == s[..i] + ([s[i]] + s[i + 1..])
  {
  }

  lemma {:induction false} PassOverSortedInserts(a: Sub, rest: seq<Sub>)
    requires SortedByName(rest)
    ensures BubblePass(a, rest) == Insert(a, rest)
    decreases |rest|
  {
    if rest != [] {
      if Precedes(rest[0], a) {
        PassOverSortedInserts(a, rest[1..]);
      } else {
        PassOverSortedInserts(rest[0], rest[1..]);
        assert rest == [rest[0]] + rest[1..];
      }
    }
  }

  /** After `x` has been swapped with the head of a sorted list, the pass carries it to its place. */
  lemma PassAfterSwapInserts(x: Sub, t: seq<Sub>)
    requires t != [] && SortedByName(t) && Precedes(t[0], x)
    ensures BubblePass(t[0], [x] + t[1..]) == Insert(x, t)
  {
    StrCmpAntisymmetric(x.name, t[0].name);
    PassOverSortedInserts(x, t[1..]);
    assert ([x] + t[1..])[1..] == t[1..];
  }

  // ----- The sort

  lemma {:induction false} SortIsStableSort(s: seq<Sub>)
    ensures SortedByName(StableSort(s))
    ensures StablyRearranges(StableSort(s), s)
    ensures |StableSort(s)| == |s|
  {
    if s != [] {
      var t := StableSort(s[1..]);
      SortIsStableSort(s[1..]);
      InsertSorts(s[0], t);
      InsertKeepsRecords(s[0], t);
      assert s == [s[0]] + s[1..];
      forall n
        ensures WithName(Insert(s[0], t), n) == WithName(s, n)
      {
        InsertIsStable(s[0], t, n);
        assert ([s[0]] + t)[1..] == t;
      }
    }
  }

  /** The half of the previous lemma that most callers need. */
  lemma SortSorts(s: seq<Sub>)
    ensures SortedByName(StableSort(s)) && |StableSort(s)| == |s|
  {
    SortIsStableSort(s);
  }

  lemma SortedIsDictionaryOrder(s: seq<Sub>)
    ensures SortedByName(s) <==> InDictionaryOrder(s)
  {
    forall i, j | 0 <= i < j < |s|
      ensures !(StrCmp(s[j].name, s[i].name) < 0)
              <==> s[i].name == s[j].name || DictionaryBefore(s[i].name, s[j].name)
    {
      StrCmpAntisymmetric(s[i].name, s[j].name);
      StrCmpZeroIsEquality(s[i].name, s[j].name);
      BeforeIsDictionaryOrder(s[i].name, s[j].name);
    }
  }

  /** The sort leaves dictionary order: a name stands before every name that is greater character by character. */
  lemma SortInDictionaryOrder(s: seq<Sub>)
    ensures InDictionaryOrder(StableSort(s))
  {
    SortSorts(s);
    SortedIsDictionaryOrder(StableSort(s));
  }

  lemma {:induction false} WithNameOccurs(s: seq<Sub>, n: string)
    ensures forall i :: 0 <= i < |WithName(s, n)| ==> WithName(s, n)[i].name == n && WithName(s, n)[i] in s
    ensures (exists x :: x in s && x.name == n) ==> |WithName(s, n)| > 0
  {
    if s != [] {
      WithNameOccurs(s[1..], n);
    }
  }

  /** A sorted list is determined by its per-name sublists: there is only one stable sort. */
  lemma {:induction false} SortedIsUnique(s: seq<Sub>, t: seq<Sub>)
    requires SortedByName(s) && SortedByName(t)
    requires forall n :: WithName(s, n) == WithName(t, n)
    ensures s == t
  {
    if s == [] {
      if t != [] {
        WithNameOccurs(t, t[0].name);
        assert false;
      }
    } else {
      WithNameOccurs(s, s[0].name);
      WithNameOccurs(t, s[0].name);
      assert s[0] in s;
      var u := WithName(t, s[0].name)[0];
      assert u in t && u.name == s[0].name;
      WithNameOccurs(s, t[0].name);
      assert t[0] in t;
      WithNameOccurs(t, t[0].name);
      var v := WithName(s, t[0].name)[0];
      assert v in s && v.name == t[0].name;
      HeadIsLeast(s, v);
      HeadIsLeast(t, u);
      StrCmpAntisymmetric(s[0].name, t[0].name);
      StrCmpZeroIsEquality(s[0].name, t[0].name);
      assert WithName(s, s[0].name)[0] == s[0] && WithName(t, s[0].name)[0] == t[0];
      forall n
        ensures WithName(s[1..], n) == WithName(t[1..], n)
      {
        var front := if s[0].name == n then [s[0]] else [];
        assert WithName(s, n) == front + WithName(s[1..], n);
        assert WithName(t, n) == front + WithName(t[1..], n);
        assert WithName(s[1..], n) == WithName(s, n)[|front|..];
      }
      SortedIsUnique(s[1..], t[1..]);
      assert s == [s[0]] + s[1..] && t == [t[0]] + t[1..];
    }
  }

  lemma HeadIsLeast(s: seq<Sub>, x: Sub)
    requires SortedByName(s) && x in s
    ensures !Precedes(x, s[0])
  {
    StrCmpZeroIsEquality(s[0].name, s[0].name);
  }

  lemma SortOfSorted(s: seq<Sub>)
    requires SortedByName(s)
    ensures StableSort(s) == s
  {
    SortIsStableSort(s);
    SortedIsUnique(StableSort(s), s);
  }

  lemma {:induction false} WithNameAppend(s: seq<Sub>, t: seq<Sub>, n: string)
    ensures WithName(s + t, n) == WithName(s, n) + WithName(t, n)
  {
    if s == [] {
      assert s + t == t;
    } else {
      assert (s + t)[1..] == s[1..] + t;
      WithNameAppend(s[1..], t, n);
      var head := if s[0].name == n then [s[0]] else [];
      ConcatAssociates(head, WithName(s[1..], n), WithName(t, n));
    }
  }

  /** Sorting after every insertion comes to the same as one stable sort at the end. */
  lemma SortAbsorbsSort(s: seq<Sub>, t: seq<Sub>)
    ensures StableSort(StableSort(s) + t) == StableSort(s + t)
  {
    SortIsStableSort(s);
    SortIsStableSort(StableSort(s) + t);
    SortIsStableSort(s + t);
    forall n
      ensures WithName(StableSort(StableSort(s) + t), n) == WithName(StableSort(s + t), n)
    {
      WithNameAppend(StableSort(s), t, n);
      WithNameAppend(s, t, n);
    }
    SortedIsUnique(StableSort(StableSort(s) + t), StableSort(s + t));
  }

  /** `cur` is `orig` with everything after index `i` sorted. */
  ghost predicate SortReached(orig: seq<Sub>, cur: seq<Sub>, i: int) {
    && |cur| == |orig| && -1 <= i < |orig|
    && cur == orig[..i + 1] + StableSort(orig[i + 1..])
  }

  /** One turn of the outer loop when the neighbour is not smaller: nothing moves. */
  lemma SortStepKeeps(orig: seq<Sub>, cur: seq<Sub>, i: nat)
    requires SortReached(orig, cur, i) && i + 1 < |orig|
    requires !Precedes(cur[i + 1], cur[i])
    ensures SortReached(orig, cur, i - 1)
  {
    SortIsStableSort(orig[i + 1..]);
    assert orig[i..][1..] == orig[i + 1..];
    assert cur[i + 1] == StableSort(orig[i + 1..])[0];
    assert cur == orig[..i] + ([orig[i]] + StableSort(orig[i + 1..]));
  }

  /** One turn of the outer loop when it is: after the swap, the pass inserts. */
  lemma SwappedParts(orig: seq<Sub>, cur: seq<Sub>, i: nat)
    requires SortReached(orig, cur, i) && i + 1 < |orig|
    ensures var t, s := StableSort(orig[i + 1..]), Swapped(cur, i, i + 1);
            t != [] && s[..i] == orig[..i] && s[i] == t[0] && s[i + 1..] == [orig[i]] + t[1..]
            && cur[i] == orig[i] && cur[i + 1] == t[0]
  {
    SortSorts(orig[i + 1..]);
  }

  lemma SortStepCarries(orig: seq<Sub>, cur: seq<Sub>, i: nat)
    requires SortReached(orig, cur, i) && i + 1 < |orig|
    requires Precedes(cur[i + 1], cur[i])
    ensures var s := Swapped(cur, i, i + 1);
            SortReached(orig, s[..i] + BubblePass(s[i], s[i + 1..]), i - 1)
  {
    var x, t, s := orig[i], StableSort(orig[i + 1..]), Swapped(cur, i, i + 1);
    SortSorts(orig[i + 1..]);
    SwappedParts(orig, cur, i);
    assert s[..i] + BubblePass(s[i], s[i + 1..]) == orig[..i] + StableSort(orig[i..]) by {
      PassAfterSwapInserts(x, t);
      assert orig[i..][1..] == orig[i + 1..];
    }
    SortSorts(orig[i..]);
  }
}
