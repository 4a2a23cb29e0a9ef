/**
 The contact book in a fixed array. Its `del_sub` shrinks the array inside its own scan and
 does not stop: the record that slides into the gap is stepped over unexamined.
 */
module ArrayBook {
  import opened CStrings
  import opened NameOrder
  import opened BookFile
  import opened ContactBook
  import T = Tokenizer

  /** The scan as a function of the list: a match is dropped together with its turn. */
  function ScanDelete(s: seq<Sub>, name: string, surename: string): seq<Sub> {
    if s == [] then []
    else if !Matches(s[0], name, surename) then [s[0]] + ScanDelete(s[1..], name, surename)
    else if |s| == 1 then []
    else [s[1]] + ScanDelete(s[2..], name, surename)
  }

  /** The inner loop of `del_sub`: move the records after `i` one place down. */
  method CloseGap(contact: array<Sub>, i: nat, size: nat)
    requires i < size <= contact.Length
    modifies contact
    ensures contact[..size - 1] == Without(old(contact[..size]), i)
  {
    ghost var before := contact[..size];
    var j := i;
    while j < size - 1
      invariant i <= j <= size - 1
      invariant contact[..j] == before[..i] + before[i + 1..j + 1]
      invariant contact[j + 1..size] == before[j + 1..]
    {
      assert contact[j + 1] == contact[j + 1..size][0];
      contact[j] := contact[j + 1];
      j := j + 1;
    }
  }

  /**
   `del_sub`: works in place; `size'` records remain. `kept` lists the places they came from:
   all but the first, third, fifth and so on of each run of adjacent records with that name
   and surname.
   */
  method DelSub(contact: array<Sub>, size: nat, name: string, surename: string)
    returns (size': nat, flag: bool, ghost kept: seq<nat>)
    requires size <= contact.Length
    modifies contact
    ensures size' <= size
    ensures contact[..size'] == ScanDelete(old(contact[..size]), name, surename)
    ensures flag <==> exists x :: x in old(contact[..size]) && x.name == name && x.surename == surename
    ensures Picks(old(contact[..size]), 0, kept, contact[..size'])
    ensures forall i: nat :: i < size ==> (i in kept <==> !OddInRun(old(contact[..size]), i, name, surename))
  {
    ghost var before := contact[..size];
    ScanWhole(before, name, surename);
    size', flag := size, false;
    var i := 0;
    while i < size'
      invariant size' <= size && (flag <==> size' < size)
      invariant ScanFrom(contact[..size'], i, name, surename) == ScanFrom(before, 0, name, surename)
      decreases size' + 1 - i
    {
      if Matches(contact[i], name, surename) {
        flag := true;
        CloseGap(contact, i, size');
        size' := size' - 1;
      }
      i := i + 1;
    }
    AnyMatchNames(before, name, surename);
    kept := KeptPlaces(before, name, surename);
  }

  /** Record `i` has the name and surname and stands at an even distance from the start of its run of such records. */
  ghost predicate OddInRun(s: seq<Sub>, i: nat, name: string, surename: string) {
    exists a: nat :: RunFrom(s, a, i, name, surename) && (i - a) % 2 == 0
  }

  /** The run of adjacent records with that name and surname that contains `i` starts at `a`. */
  ghost predicate RunFrom(s: seq<Sub>, a: nat, i: nat, name: string, surename: string) {
    && a <= i < |s|
    && (forall k :: a <= k <= i ==> s[k].name == name && s[k].surename == surename)
    && (a > 0 ==> !(s[a - 1].name == name && s[a - 1].surename == surename))
  }

  lemma AnyMatchNames(s: seq<Sub>, name: string, surename: string)
    ensures (exists x :: x in s && Matches(x, name, surename))
            <==> exists x :: x in s && x.name == name && x.surename == surename
  {
    forall x | x in s
      ensures Matches(x, name, surename) <==> x.name == name && x.surename == surename
    {
      MatchesIsEquality(x, name, surename);
    }
  }

  lemma {:induction false} RunStart(s: seq<Sub>, i: nat, name: string, surename: string) returns (a: nat)
    requires i < |s| && s[i].name == name && s[i].surename == surename
    ensures RunFrom(s, a, i, name, surename)
  {
    if i == 0 || !(s[i - 1].name == name && s[i - 1].surename == surename) {
      a := i;
    } else {
      a := RunStart(s, i - 1, name, surename);
    }
  }

  lemma SurvivesInRun(s: seq<Sub>, a: nat, i: nat, name: string, surename: string)
    requires RunFrom(s, a, i, name, surename)
    ensures Survives(s, i, name, surename) <==> (i - a) % 2 == 1
  {
    forall k | 0 <= k <= i
      ensures Matches(s[k], name, surename) <==> s[k].name == name && s[k].surename == surename
    {
      MatchesIsEquality(s[k], name, surename);
    }
    SurvivalAlternates(s, a, i - a, name, surename);
  }

  /** Survival in terms of the fields and the run a record stands in. */
  lemma SurvivesIff(s: seq<Sub>, i: nat, name: string, surename: string)
    requires i < |s|
    ensures Survives(s, i, name, surename) <==> !OddInRun(s, i, name, surename)
  {
    MatchesIsEquality(s[i], name, surename);
    if Matches(s[i], name, surename) {
      var a := RunStart(s, i, name, surename);
      SurvivesInRun(s, a, i, name, surename);
      forall b: nat | RunFrom(s, b, i, name, surename)
        ensures (i - b) % 2 == (i - a) % 2
      {
        SurvivesInRun(s, b, i, name, surename);
      }
    }
  }

  /** The places of the survivors from `i` on. */
  lemma {:induction false} SurvivorPlaces(s: seq<Sub>, i: nat, name: string, surename: string) returns (places: seq<nat>)
    requires i <= |s|
    ensures Picks(s, i, places, Survivors(s, i, name, surename))
    ensures forall j: nat :: i <= j < |s| ==> (j in places <==> Survives(s, j, name, surename))
    decreases |s| - i
  {
    places := [];
    if i < |s| {
      var later := SurvivorPlaces(s, i + 1, name, surename);
      PickFirst(s, i, later, Survivors(s, i + 1, name, surename));
      places := if Survives(s, i, name, surename) then [i] + later else later;
    }
  }

  lemma KeptPlaces(s: seq<Sub>, name: string, surename: string) returns (kept: seq<nat>)
    ensures Picks(s, 0, kept, ScanDelete(s, name, surename))
    ensures forall i: nat :: i < |s| ==> (i in kept <==> !OddInRun(s, i, name, surename))
  {
    kept := SurvivorPlaces(s, 0, name, surename);
    ScanKeepsSurvivors(s, 0, name, surename);
    assert s[0..] == s;
    forall i: nat | i < |s|
      ensures i in kept <==> !OddInRun(s, i, name, surename)
    {
      SurvivesIff(s, i, name, surename);
    }
  }

  /** The scan from the first record on, and how its length tells whether anything matched. */
  lemma ScanWhole(s: seq<Sub>, name: string, surename: string)
    ensures ScanFrom(s, 0, name, surename) == ScanDelete(s, name, surename)
    ensures |ScanDelete(s, name, surename)| < |s| <==> exists x :: x in s && Matches(x, name, surename)
  {
    ScanFromDeletes([], s, name, surename);
    assert [] + s == s;
    ScanDeleteShrinks(s, name, surename);
  }

  /** What the scan makes of the array from index `i` on; the index moves on after a removal too. */
  function ScanFrom(s: seq<Sub>, i: nat, name: string, surename: string): seq<Sub>
    decreases |s| - i
  {
    if i >= |s| then s
    else ScanFrom(if Matches(s[i], name, surename) then Without(s, i) else s, i + 1, name, surename)
  }

  lemma KeepMovesOn(front: seq<Sub>, rest: seq<Sub>)
    requires rest != []
    ensures front + rest == (front + [rest[0]]) + rest[1..]
  {
  }

  lemma RemoveMovesOn(front: seq<Sub>, rest: seq<Sub>)
    requires |rest| >= 2
    ensures Without(front + rest, |front|) == (front + [rest[1]]) + rest[2..]
  {
  }

  lemma {:induction false} ScanFromDeletes(front: seq<Sub>, rest: seq<Sub>, name: string, surename: string)
    ensures ScanFrom(front + rest, |front|, name, surename) == front + ScanDelete(rest, name, surename)
    decreases |rest|
  {
    if rest == [] {
    } else if !Matches(rest[0], name, surename) {
      KeepMovesOn(front, rest);
      ScanFromDeletes(front + [rest[0]], rest[1..], name, surename);
      KeepMovesOn(front, [rest[0]] + ScanDelete(rest[1..], name, surename));
    } else if |rest| == 1 {
      assert Without(front + rest, |front|) == front;
    } else {
      RemoveMovesOn(front, rest);
      ScanFromDeletes(front + [rest[1]], rest[2..], name, surename);
      KeepMovesOn(front, [rest[1]] + ScanDelete(rest[2..], name, surename));
    }
  }

  // ----- Which records survive

  /** A record survives unless it matches and the record before it was not itself deleted. */
  predicate Survives(s: seq<Sub>, i: nat, name: string, surename: string)
    requires i < |s|
  {
    !Matches(s[i], name, surename) ||
    (i > 0 && Matches(s[i - 1], name, surename) && !Survives(s, i - 1, name, surename))
  }

  /** The survivors among the records from `i` on, in order. */
  function Survivors(s: seq<Sub>, i: nat, name: string, surename: string): seq<Sub>
    requires i <= |s|
    decreases |s| - i
  {
    if i == |s| then []
    else (if Survives(s, i, name, surename) then [s[i]] else []) + Survivors(s, i + 1, name, surename)
  }

  /** The scan keeps exactly the survivors, in their order. */
  lemma {:induction false} ScanKeepsSurvivors(s: seq<Sub>, i: nat, name: string, surename: string)
    requires i <= |s|
    requires i == 0 || Survives(s, i - 1, name, surename)
    ensures ScanDelete(s[i..], name, surename) == Survivors(s, i, name, surename)
    decreases |s| - i
  {
    if i < |s| {
      if !Matches(s[i], name, surename) {
        ScanKeepsSurvivors(s, i + 1, name, surename);
        assert s[i..][1..] == s[i + 1..];
      } else if i + 1 < |s| {
        assert !Survives(s, i, name, surename) && Survives(s, i + 1, name, surename) by {
          SurvivesAfterSurvivor(s, i, name, surename);
        }
        ScanKeepsSurvivors(s, i + 2, name, surename);
        assert s[i..][2..] == s[i + 2..] && s[i..][1] == s[i + 1];
        assert Survivors(s, i, name, surename) == [] + ([s[i + 1]] + Survivors(s, i + 2, name, surename));
      } else {
        SurvivesAfterSurvivor(s, i, name, surename);
        assert Survivors(s, i, name, surename) == [] + Survivors(s, i + 1, name, surename);
      }
    }
  }

  lemma SurvivesAfterSurvivor(s: seq<Sub>, i: nat, name: string, surename: string)
    requires i < |s| && Matches(s[i], name, surename)
    requires i == 0 || Survives(s, i - 1, name, surename)
    ensures !Survives(s, i, name, surename)
    ensures i + 1 < |s| ==> Survives(s, i + 1, name, surename)
  {
  }

  /** In a run of adjacent matches that starts at `a`, every second one survives. */
  lemma {:induction false} SurvivalAlternates(s: seq<Sub>, a: nat, k: nat, name: string, surename: string)
    requires a + k < |s|
    requires a == 0 || !Matches(s[a - 1], name, surename)
    requires forall i :: a <= i <= a + k ==> Matches(s[i], name, surename)
    ensures Survives(s, a + k, name, surename) <==> k % 2 == 1
  {
    if k > 0 {
      SurvivalAlternates(s, a, k - 1, name, surename);
    }
  }

  ghost predicate AllMatch(s: seq<Sub>, name: string, surename: string) {
    forall x :: x in s ==> Matches(x, name, surename)
  }

  /** The second, fourth, ... elements. */
  function EverySecond(s: seq<Sub>): (r: seq<Sub>)
    ensures |r| == |s| / 2
    ensures forall k :: 0 <= k < |r| ==> r[k] == s[2 * k + 1]
  {
    if |s| < 2 then [] else [s[1]] + EverySecond(s[2..])
  }

  /** A maximal run of r adjacent matches leaves r / 2 of them: the second, the fourth and so on. */
  lemma {:induction false} RunKeepsHalf(run: seq<Sub>, rest: seq<Sub>, name: string, surename: string)
    requires AllMatch(run, name, surename)
    requires rest == [] || !Matches(rest[0], name, surename)
    ensures ScanDelete(run + rest, name, surename) == EverySecond(run) + ScanDelete(rest, name, surename)
    decreases |run|
  {
    var s := run + rest;
    if run == [] {
      assert s == rest;
    } else if |run| == 1 {
      if rest != [] {
        assert s[1] == rest[0] && s[2..] == rest[1..];
      }
    } else {
      RunKeepsHalf(run[2..], rest, name, surename);
      assert s[2..] == run[2..] + rest && s[1] == run[1];
    }
  }

  lemma {:induction false} ScanSkipsNonMatches(front: seq<Sub>, rest: seq<Sub>, name: string, surename: string)
    requires forall x :: x in front ==> !Matches(x, name, surename)
    ensures ScanDelete(front + rest, name, surename) == front + ScanDelete(rest, name, surename)
  {
    if front == [] {
      assert front + rest == rest;
    } else {
      assert (front + rest)[1..] == front[1..] + rest;
      ScanSkipsNonMatches(front[1..], rest, name, surename);
      assert front == [front[0]] + front[1..];
    }
  }

  lemma {:induction false} ScanDeleteShrinks(s: seq<Sub>, name: string, surename: string)
    ensures |ScanDelete(s, name, surename)| <= |s|
    ensures |ScanDelete(s, name, surename)| == |s| <==> forall x :: x in s ==> !Matches(x, name, surename)
    ensures forall x :: x in ScanDelete(s, name, surename) ==> x in s
    decreases |s|
  {
    if s != [] {
      if !Matches(s[0], name, surename) {
        ScanDeleteShrinks(s[1..], name, surename);
        assert s == [s[0]] + s[1..];
      } else if |s| > 1 {
        ScanDeleteShrinks(s[2..], name, surename);
      }
    }
  }

  /** Name order survives the scan. */
  lemma {:induction false} ScanDeleteKeepsOrder(s: seq<Sub>, name: string, surename: string)
    requires SortedByName(s)
    ensures SortedByName(ScanDelete(s, name, surename))
    decreases |s|
  {
    if s != [] {
      if !Matches(s[0], name, surename) {
        ScanDeleteKeepsOrder(s[1..], name, surename);
        ScanDeleteShrinks(s[1..], name, surename);
        SortedCons(s[0], ScanDelete(s[1..], name, surename));
      } else if |s| > 1 {
        ScanDeleteKeepsOrder(s[2..], name, surename);
        ScanDeleteShrinks(s[2..], name, surename);
        SortedCons(s[1], ScanDelete(s[2..], name, surename));
      }
    }
  }

  /** The scan leaves a match behind exactly when two matching records are adjacent. */
  lemma {:induction false} ScanDeletesAllIff(s: seq<Sub>, name: string, surename: string)
    ensures (forall x :: x in ScanDelete(s, name, surename) ==> !Matches(x, name, surename))
            <==> (forall i :: 0 <= i < |s| - 1 ==> !(Matches(s[i], name, surename) && Matches(s[i + 1], name, surename)))
    decreases |s|
  {
    if s != [] {
      var out := ScanDelete(s, name, surename);
      if !Matches(s[0], name, surename) {
        var t := s[1..];
        ScanDeletesAllIff(t, name, surename);
        assert out == [s[0]] + ScanDelete(t, name, surename);
        PairsOfTail(s, 1, name, surename);
      } else if |s| > 1 {
        var t := s[2..];
        ScanDeletesAllIff(t, name, surename);
        assert out == [s[1]] + ScanDelete(t, name, surename);
        PairsOfTail(s, 2, name, surename);
        if Matches(s[1], name, surename) {
          assert s[1] in out;
        } else {
          assert forall i :: 0 <= i < 2 && i < |s| - 1 ==> !(Matches(s[i], name, surename) && Matches(s[i + 1], name, surename));
        }
      }
    }
  }

  lemma PairsOfTail(s: seq<Sub>, d: nat, name: string, surename: string)
    requires d <= |s|
    ensures (forall i :: 0 <= i < |s[d..]| - 1 ==> !(Matches(s[d..][i], name, surename) && Matches(s[d..][i + 1], name, surename)))
            <==> (forall i :: d <= i < |s| - 1 ==> !(Matches(s[i], name, surename) && Matches(s[i + 1], name, surename)))
  {
    var t := s[d..];
    if forall i :: 0 <= i < |t| - 1 ==> !(Matches(t[i], name, surename) && Matches(t[i + 1], name, surename)) {
      forall i | d <= i < |s| - 1
        ensures !(Matches(s[i], name, surename) && Matches(s[i + 1], name, surename))
      {
        assert t[i - d] == s[i] && t[i - d + 1] == s[i + 1];
      }
    }
  }

  /**
   The two versions of `del_sub` agree exactly when nothing matches after the record that
   follows the first match.
   */
  lemma AgreesWithHeapDeleteIff(s: seq<Sub>, name: string, surename: string, i: nat)
    requires FirstMatch(s, name, surename, i)
    ensures ScanDelete(s, name, surename) == DeleteFirst(s, name, surename)
            <==> forall k :: i + 2 <= k < |s| ==> !Matches(s[k], name, surename)
  {
    DeleteFirstAt(s, name, surename, i);
    ScanAfterFirstMatch(s, name, surename, i);
    if i + 1 < |s| {
      var t := s[i + 2..];
      assert s[i + 1..] == [s[i + 1]] + t;
      SamePrefix(s[..i], s[i + 1], ScanDelete(t, name, surename), t);
      ScanKeepsAllIff(t, name, surename);
      assert forall k :: i + 2 <= k < |s| ==> s[k] == t[k - i - 2];
    }
  }

  lemma SamePrefix(front: seq<Sub>, x: Sub, a: seq<Sub>, b: seq<Sub>)
    ensures front + ([x] + a) == front + ([x] + b) <==> a == b
  {
    var n := |front| + 1;
    assert (front + ([x] + a))[n..] == a && (front + ([x] + b))[n..] == b;
  }

  lemma ScanKeepsAllIff(t: seq<Sub>, name: string, surename: string)
    ensures ScanDelete(t, name, surename) == t <==> forall k :: 0 <= k < |t| ==> !Matches(t[k], name, surename)
  {
    ScanDeleteShrinks(t, name, surename);
    if forall k :: 0 <= k < |t| ==> !Matches(t[k], name, surename) {
      ScanSkipsNonMatches(t, [], name, surename);
      assert t + [] == t;
    }
  }

  lemma ScanAfterFirstMatch(s: seq<Sub>, name: string, surename: string, i: nat)
    requires FirstMatch(s, name, surename, i)
    ensures ScanDelete(s, name, surename) ==
            if i + 1 < |s| then s[..i] + ([s[i + 1]] + ScanDelete(s[i + 2..], name, surename)) else s[..i]
  {
    assert s == s[..i] + s[i..];
    ScanSkipsNonMatches(s[..i], s[i..], name, surename);
    if i + 1 < |s| {
      assert s[i..][2..] == s[i + 2..] && s[i..][1] == s[i + 1];
    }
  }

  // ----- Loading and saving

  /** Size of the words array: a third of the line buffer. */
  const WORDS: nat := CONTACT_SIZE / 3

  /** One turn of the loading loop: a line of three fields goes to the next place, any other is passed over. */
  method LoadLine(contacts: array<Sub>, size: nat, mass: array<char>, ghost line: string) returns (size': nat)
    requires Holds(mass[..], 0, line) && LineFitsIn(line, WORDS)
    requires size + |ParseLine(line)| <= contacts.Length
    modifies contacts, mass
    ensures size' == size + |ParseLine(line)|
    ensures contacts[..size'] == old(contacts[..size]) + ParseLine(line)
  {
    HoldsReads(mass[..], 0, line);
    StrCmpZeroIsEquality(line, "\n");
    size' := size;
    if StrCmp(CStr(mass[..], 0), "\n") != 0 {
      var words := new nat[WORDS];
      assert mass[|line|] == NUL;
      var count := T.StokByPointer(mass, 0, ' ', words);
      if count == 3 {
        contacts[size] := Sub(CStr(mass[..], words[0]), CStr(mass[..], words[1]), CStr(mass[..], words[2]));
        size' := size + 1;
      }
    }
  }

  /** The loading loop: the three-field lines in file order, unsorted. */
  method Load(contacts: array<Sub>, file: string) returns (size: nat)
    requires NUL !in file && FileFitsIn(file, WORDS)
    requires |ParseFile(file)| <= contacts.Length
    modifies contacts
    ensures size <= contacts.Length && contacts[..size] == ParseFile(file)
  {
    var mass := new char[CONTACT_SIZE];
    var rest := file;
    size := 0;
    assert contacts[..0] == [];
    while rest != []
      invariant size <= contacts.Length
      invariant NUL !in rest && FileFitsIn(rest, WORDS)
      invariant contacts[..size] + ParseFile(rest) == ParseFile(file)
      decreases |rest|
    {
      var n := ReadLength(rest, CONTACT_SIZE - 1);
      ghost var line, done := rest[..n], contacts[..size];
      assert ParseFile(rest) == ParseLine(line) + ParseFile(rest[n..]);
      assert |done| + |ParseLine(line)| + |ParseFile(rest[n..])| == |ParseFile(file)|;
      Fgets(mass, rest, n);
      size := LoadLine(contacts, size, mass, line);
      ConcatAssociates(done, ParseLine(line), ParseFile(rest[n..]));
      rest := rest[n..];
    }
  }

  /**
   Here save and load restore the book, in any order of names, exactly if every record but the
   last ends its line. Otherwise merged lines are passed over, and records are missing.
   */
  lemma SaveLoadUnsorted(s: seq<Sub>)
    requires forall x :: x in s ==> PlainRecord(x)
    ensures ParseFile(BookText(s)) == s <==> LinesSeparated(s)
    ensures !LinesSeparated(s) ==> |ParseFile(BookText(s))| < |s|
    ensures LinesSeparated(s) ==> FileFitsIn(BookText(s), WORDS)
  {
    if LinesSeparated(s) {
      SavedBookParses(s);
      WiderFits(BookText(s), 3, WORDS);
    } else {
      UnseparatedLosesRecords(s);
      BookTextSpaces(s);
    }
  }

  lemma {:induction false} WiderFits(file: string, few: nat, many: nat)
    requires few <= many && FileFitsIn(file, few)
    ensures FileFitsIn(file, many)
  {
    if file != [] {
      WiderFits(file[ReadLength(file, CONTACT_SIZE - 1)..], few, many);
    }
  }
}
