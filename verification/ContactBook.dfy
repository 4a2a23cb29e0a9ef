/** The contact book on the heap: a growing array of records kept in name order. */
module ContactBook {
  import opened CStrings
  import opened NameOrder
  import opened BookFile
  import T = Tokenizer

  predicate Matches(x: Sub, name: string, surename: string) {
    StrCmp(x.name, name) == 0 && StrCmp(x.surename, surename) == 0
  }

  lemma MatchesIsEquality(x: Sub, name: string, surename: string)
    ensures Matches(x, name, surename) <==> x.name == name && x.surename == surename
  {
    StrCmpZeroIsEquality(x.name, name);
    StrCmpZeroIsEquality(x.surename, surename);
  }

  /** The records with that name and surname, in order. */
  function Found(s: seq<Sub>, name: string, surename: string): seq<Sub> {
    if s == [] then []
    else (if Matches(s[0], name, surename) then [s[0]] else []) + Found(s[1..], name, surename)
  }

  /** Places in a list of `bound` records, in order. */
  ghost predicate Increasing(places: seq<nat>, bound: nat) {
    && (forall k, l :: 0 <= k < l < |places| ==> places[k] < places[l])
    && (forall k :: 0 <= k < |places| ==> places[k] < bound)
  }

  /** `picked` are the records of `s` at `places`, all at or beyond `i`. */
  ghost predicate Picks(s: seq<Sub>, i: nat, places: seq<nat>, picked: seq<Sub>) {
    && |picked| == |places| && Increasing(places, |s|)
    && forall k :: 0 <= k < |places| ==> i <= places[k] && picked[k] == s[places[k]]
  }

  lemma PickFirst(s: seq<Sub>, i: nat, places: seq<nat>, picked: seq<Sub>)
    requires i < |s| && Picks(s, i + 1, places, picked)
    ensures Picks(s, i, [i] + places, [s[i]] + picked)
    ensures forall j: nat :: j in [i] + places <==> j == i || j in places
  {
  }

  lemma PickLater(s: seq<Sub>, i: nat, places: seq<nat>, picked: seq<Sub>)
    requires i < |s| && Picks(s, i + 1, places, picked)
    ensures Picks(s, i, places, picked) && i !in places
  {
  }

  lemma FoundFrom(s: seq<Sub>, i: nat, name: string, surename: string)
    requires i < |s|
    ensures Found(s[i..], name, surename)
            == if s[i].name == name && s[i].surename == surename then [s[i]] + Found(s[i + 1..], name, surename)
               else Found(s[i + 1..], name, surename)
  {
    assert s[i..][1..] == s[i + 1..];
    MatchesIsEquality(s[i], name, surename);
  }

  /** `places` are all the places from `i` on with that name and surname. */
  ghost predicate AllPlaces(s: seq<Sub>, i: nat, places: seq<nat>, name: string, surename: string) {
    forall j: nat :: i <= j < |s| ==> (j in places <==> s[j].name == name && s[j].surename == surename)
  }

  lemma PlacesStep(s: seq<Sub>, i: nat, later: seq<nat>, rest: seq<Sub>, name: string, surename: string)
    returns (places: seq<nat>)
    requires i < |s| && Picks(s, i + 1, later, rest) && AllPlaces(s, i + 1, later, name, surename)
    ensures Picks(s, i, places, if s[i].name == name && s[i].surename == surename then [s[i]] + rest else rest)
    ensures AllPlaces(s, i, places, name, surename)
  {
    if s[i].name == name && s[i].surename == surename {
      PickFirst(s, i, later, rest);
      places := [i] + later;
    } else {
      PickLater(s, i, later, rest);
      places := later;
    }
  }

  /** `Found` prints the records at the places with that name and surname, from `i` on. */
  lemma {:induction false} FoundPlaces(s: seq<Sub>, i: nat, name: string, surename: string) returns (places: seq<nat>)
    requires i <= |s|
    ensures Picks(s, i, places, Found(s[i..], name, surename)) && AllPlaces(s, i, places, name, surename)
    decreases |s| - i
  {
    if i == |s| {
      places := [];
    } else {
      var later := FoundPlaces(s, i + 1, name, surename);
      FoundFrom(s, i, name, surename);
      places := PlacesStep(s, i, later, Found(s[i + 1..], name, surename), name, surename);
    }
  }

  lemma FoundAllPlaces(s: seq<Sub>, name: string, surename: string) returns (places: seq<nat>)
    ensures Picks(s, 0, places, Found(s, name, surename)) && AllPlaces(s, 0, places, name, surename)
  {
    places := FoundPlaces(s, 0, name, surename);
    assert s[0..] == s;
  }

  /** `i` is the first match, or the length if there is none. */
  ghost predicate FirstMatch(s: seq<Sub>, name: string, surename: string, i: nat) {
    && i <= |s|
    && (forall k :: 0 <= k < i ==> !Matches(s[k], name, surename))
    && (i < |s| ==> Matches(s[i], name, surename))
  }

  /** What a first match says about the fields themselves. */
  lemma FirstMatchNames(s: seq<Sub>, name: string, surename: string, i: nat)
    requires FirstMatch(s, name, surename, i)
    ensures forall k :: 0 <= k < i ==> !(s[k].name == name && s[k].surename == surename)
    ensures i < |s| ==> s[i].name == name && s[i].surename == surename
  {
    forall k | 0 <= k <= i && k < |s|
      ensures Matches(s[k], name, surename) <==> s[k].name == name && s[k].surename == surename
    {
      MatchesIsEquality(s[k], name, surename);
    }
  }

  function DeleteFirst(s: seq<Sub>, name: string, surename: string): seq<Sub> {
    if s == [] then []
    else if Matches(s[0], name, surename) then s[1..]
    else [s[0]] + DeleteFirst(s[1..], name, surename)
  }

  lemma {:induction false} DeleteFirstSkips(front: seq<Sub>, rest: seq<Sub>, name: string, surename: string)
    requires forall k :: 0 <= k < |front| ==> !Matches(front[k], name, surename)
    ensures DeleteFirst(front + rest, name, surename) == front + DeleteFirst(rest, name, surename)
  {
    if front == [] {
      assert front + rest == rest;
    } else {
      assert (front + rest)[1..] == front[1..] + rest;
      DeleteFirstSkips(front[1..], rest, name, surename);
      ConcatAssociates([front[0]], front[1..], DeleteFirst(rest, name, surename));
      assert [front[0]] + front[1..] == front;
    }
  }

  lemma DeleteFirstAt(s: seq<Sub>, name: string, surename: string, i: nat)
    requires FirstMatch(s, name, surename, i)
    ensures DeleteFirst(s, name, surename) == if i < |s| then Without(s, i) else s
  {
    assert s == s[..i] + s[i..];
    DeleteFirstSkips(s[..i], s[i..], name, surename);
    if i < |s| {
      assert s[i..][1..] == s[i + 1..];
    }
  }

  /** With `rest` still to be read, the book holds in order what was read so far. */
  ghost predicate LoadReached(file: string, rest: string, book: seq<Sub>) {
    SortedByName(book) && StableSort(book + ParseFile(rest)) == LoadedBook(file)
  }

  lemma LoadReachedStep(file: string, rest: string, book: seq<Sub>)
    requires rest != [] && LoadReached(file, rest, book)
    ensures var n := ReadLength(rest, CONTACT_SIZE - 1);
            var p := ParseLine(rest[..n]);
            LoadReached(file, rest[n..], if p == [] then book else StableSort(book + p))
  {
    var n := ReadLength(rest, CONTACT_SIZE - 1);
    var p, later := ParseLine(rest[..n]), ParseFile(rest[n..]);
    assert ParseFile(rest) == p + later;
    if p == [] {
      assert p + later == later;
    } else {
      SortSorts(book + p);
      SortAbsorbsSort(book + p, later);
      assert book + p + later == book + (p + later);
    }
  }

  lemma LoadReachedEnd(file: string, book: seq<Sub>)
    requires LoadReached(file, [], book)
    ensures book == LoadedBook(file)
  {
    assert book + [] == book;
    SortOfSorted(book);
  }

  class Book {
    var size: nat
    var arr: array<Sub>

    ghost predicate Valid()
      reads this
    {
      size <= arr.Length
    }

    ghost function Contents(): seq<Sub>
      requires Valid()
      reads this, arr
    {
      arr[..size]
    }

    constructor ()
      ensures Valid() && fresh(arr) && Contents() == []
    {
      size := 0;
      arr := new Sub[0];
    }

    /** Exchange two records through a temporary, as the three `copy_sub` calls do. */
    method Exchange(a: nat, b: nat)
      requires Valid() && a < size && b < size
      modifies arr
      ensures Contents() == Swapped(old(Contents()), a, b)
    {
      var tmp := arr[b];
      arr[b] := arr[a];
      arr[a] := tmp;
    }

    /** The inner loop of `sort`, over the records from `i` on. */
    method CarryRight(i: nat)
      requires Valid() && i < size
      modifies arr
      ensures var was := old(Contents());
              Contents() == was[..i] + BubblePass(was[i], was[i + 1..])
    {
      ghost var was := Contents();
      PassFromIndex(was, i);
      var j := i + 1;
      while j < size
        invariant i + 1 <= j <= size
        invariant PassFrom(Contents(), j) == PassFrom(was, i + 1)
      {
        if Precedes(arr[j], arr[j - 1]) {
          Exchange(j - 1, j);
        }
        j := j + 1;
      }
    }

    /** `sort`: any array becomes its stable sort by name. */
    method Sort()
      requires Valid()
      modifies arr
      ensures Contents() == StableSort(old(Contents())) && InDictionaryOrder(Contents())
    {
      ghost var orig := Contents();
      var i: int := size - 2;
      if size > 0 {
        assert orig[size - 1..] == [orig[size - 1]];
        assert StableSort(orig[size - 1..]) == Insert(orig[size - 1], StableSort([]));
      }
      while i >= 0
        invariant size == 0 || SortReached(orig, Contents(), i)
        invariant size == 0 ==> i == -2 && Contents() == []
      {
        if Precedes(arr[i + 1], arr[i]) {
          SortStepCarries(orig, Contents(), i);
          Exchange(i, i + 1);
          CarryRight(i);
        } else {
          SortStepKeeps(orig, Contents(), i);
        }
        i := i - 1;
      }
      assert orig[0..] == orig;
      SortInDictionaryOrder(orig);
    }

    /** Append a record and restore name order; with one record there is nothing to sort. */
    method Add(sb: Sub)
      requires Valid()
      modifies this, arr
      ensures Valid() && fresh(arr)
      ensures Contents() == StableSort(old(Contents()) + [sb]) && InDictionaryOrder(Contents())
    {
      ghost var before := Contents();
      if size > 0 {
        Resize(size + 1);
        arr[size] := sb;
        size := size + 1;
        assert Contents() == before + [sb];
        Sort();
      } else {
        arr := new Sub[1];
        arr[size] := sb;
        size := size + 1;
        assert Contents() == [sb] == before + [sb];
        assert StableSort([sb]) == Insert(sb, StableSort([])) == [sb];
      }
    }

    /** `realloc`: a new block of `n` records that keeps the old records that fit. */
    method Resize(n: nat)
      requires Valid() && size <= n
      modifies `arr
      ensures Valid() && fresh(arr) && arr.Length == n
      ensures Contents() == old(Contents())
    {
      var block := new Sub[n];
      forall k | 0 <= k < size {
        block[k] := arr[k];
      }
      arr := block;
    }

    /** The inner loop of `del_sub`: move the records after `i` one place down and shrink. */
    method CloseGap(i: nat)
      requires Valid() && i < size
      modifies this, arr
      ensures Valid() && arr == old(arr) && size == old(size) - 1
      ensures Contents() == Without(old(Contents()), i)
    {
      ghost var before := Contents();
      var j := i;
      while j < size - 1
        invariant Valid() && arr == old(arr) && size == old(size)
        invariant i <= j <= size - 1
        invariant arr[..j] == before[..i] + before[i + 1..j + 1]
        invariant arr[j + 1..size] == before[j + 1..]
      {
        assert arr[j + 1] == arr[j + 1..size][0];
        arr[j] := arr[j + 1];
        j := j + 1;
      }
      size := size - 1;
    }

    /**
     `del_sub`: remove the first record with that name and surname, closing the gap; the result
     says whether there was one. `at` is its place, or the size if there is none.
     */
    method Delete(name: string, surename: string) returns (found: bool, ghost at: nat)
      requires Valid()
      modifies this, arr
      ensures Valid()
      ensures Contents() == DeleteFirst(old(Contents()), name, surename)
      ensures var was := old(Contents());
              && at <= |was| && (found <==> at < |was|)
              && (forall k :: 0 <= k < at ==> !(was[k].name == name && was[k].surename == surename))
              && (found ==> was[at].name == name && was[at].surename == surename)
              && Contents() == if found then was[..at] + was[at + 1..] else was
    {
      ghost var before := Contents();
      found := false;
      var i := 0;
      while i < size
        invariant 0 <= i <= size
        invariant forall k :: 0 <= k < i ==> !Matches(before[k], name, surename)
      {
        if Matches(arr[i], name, surename) {
          found, at := true, i;
          CloseGap(i);
          Resize(size + 1);
          FirstMatchNames(before, name, surename, i);
          DeleteFirstAt(before, name, surename, i);
          return;
        }
        i := i + 1;
      }
      at := size;
      FirstMatchNames(before, name, surename, size);
      DeleteFirstAt(before, name, surename, size);
    }

    /** `lookup`: the records it prints. `places` lists where the records with that name and surname stand. */
    method Lookup(name: string, surename: string) returns (printed: seq<Sub>, ghost places: seq<nat>)
      requires Valid()
      ensures printed == Found(Contents(), name, surename)
      ensures Picks(Contents(), 0, places, printed)
      ensures AllPlaces(Contents(), 0, places, name, surename)
    {
      ghost var all := Contents();
      printed := [];
      var i := 0;
      while i < size
        invariant 0 <= i <= size
        invariant printed + Found(all[i..], name, surename) == Found(all, name, surename)
      {
        FoundFrom(all, i, name, surename);
        MatchesIsEquality(arr[i], name, surename);
        if Matches(arr[i], name, surename) {
          printed := printed + [arr[i]];
        }
        i := i + 1;
      }
      places := FoundAllPlaces(all, name, surename);
    }

    /** One turn of the loading loop: `mass` holds a line; tokenise it in place, add it if it has three fields. */
    method LoadLine(mass: array<char>, ghost line: string)
      requires Valid()
      requires Holds(mass[..], 0, line) && LineFits(line)
      modifies this, arr, mass
      ensures Valid() && (arr == old(arr) || fresh(arr))
      ensures Contents() == if ParseLine(line) == [] then old(Contents())
                            else StableSort(old(Contents()) + ParseLine(line))
    {
      HoldsReads(mass[..], 0, line);
      StrCmpZeroIsEquality(line, "\n");
      if StrCmp(CStr(mass[..], 0), "\n") != 0 {
        var words := new nat[3];
        assert mass[|line|] == NUL;
        var count := T.StokByPointer(mass, 0, ' ', words);
        assert Contents() == old(Contents());
        if count == 3 {
          var tmp := Sub(CStr(mass[..], words[0]), CStr(mass[..], words[1]), CStr(mass[..], words[2]));
          assert ParseLine(line) == [tmp];
          Add(tmp);
        }
      }
    }

    /** The loading loop of `main`. */
    method Load(file: string)
      requires Valid() && size == 0
      requires NUL !in file && FileFits(file)
      modifies this, arr
      ensures Valid() && Contents() == LoadedBook(file) && InDictionaryOrder(Contents())
    {
      var mass := new char[CONTACT_SIZE];
      var rest := file;
      assert Contents() + ParseFile(rest) == ParseFile(file);
      while rest != []
        invariant Valid() && (arr == old(arr) || fresh(arr))
        invariant NUL !in rest && FileFits(rest)
        invariant LoadReached(file, rest, Contents())
        decreases |rest|
      {
        var n := ReadLength(rest, CONTACT_SIZE - 1);
        ghost var line := rest[..n];
        Fgets(mass, rest, n);
        LoadReachedStep(file, rest, Contents());
        LoadLine(mass, line);
        rest := rest[n..];
      }
      LoadReachedEnd(file, Contents());
      SortInDictionaryOrder(ParseFile(file));
    }

    /** The saving loop of `main`: the text written to the file. */
    method Save() returns (file: string)
      requires Valid()
      requires forall x :: x in Contents() ==> FieldsFit(x)
      ensures file == BookText(Contents())
    {
      ghost var all := Contents();
      file := [];
      var i := 0;
      while i < size
        invariant 0 <= i <= size
        invariant file + BookText(all[i..]) == BookText(all)
      {
        assert all[i..][1..] == all[i + 1..] && arr[i] == all[i];
        var text := arr[i].name + " ";
        text := text + arr[i].surename + " ";
        text := text + arr[i].number;
        file := file + text;
        i := i + 1;
      }
    }
  }

  /** `fgets`: copy the next `n` characters of the file and terminate them. */
  method Fgets(mass: array<char>, rest: string, n: nat)
    requires n <= |rest| && n < mass.Length && NUL !in rest
    modifies mass
    ensures Holds(mass[..], 0, rest[..n])
  {
    forall k | 0 <= k < n {
      mass[k] := rest[k];
    }
    mass[n] := NUL;
    assert mass[..][0..n] == rest[..n];
  }
}
