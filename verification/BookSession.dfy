/** Whole runs of the contact book: what any sequence of commands keeps, and what lookups then print. */
module BookSession {
  import opened CStrings
  import opened NameOrder
  import opened BookFile
  import opened ContactBook

  /** The commands that change the book, with the words `scanf` read; `add` appends the newline itself. */
  datatype Command =
    | AddContact(name: string, surename: string, number: string)
    | DeleteContact(name: string, surename: string)

  /** White space as `scanf` skips it: blank, tab, newline and the three control characters after it. */
  predicate Space(c: char) {
    c == ' ' || 9 <= c as int <= 13
  }

  /** What `%s` can read: at least one character, none of them white space. */
  predicate TypedWord(w: string) {
    w != [] && forall i :: 0 <= i < |w| ==> !Space(w[i]) && w[i] != NUL
  }

  /** An added contact's words hold no separator, and with the number's newline they fit a record. */
  predicate Storable(c: Command) {
    c.AddContact? ==>
      PlainWord(c.name) && PlainWord(c.surename) && PlainWord(c.number)
      && FieldsFit(Sub(c.name, c.surename, c.number + "\n"))
  }

  /** A command whose contact can be typed. */
  predicate Typed(c: Command) {
    Storable(c) && (c.AddContact? ==> TypedWord(c.name) && TypedWord(c.surename) && TypedWord(c.number))
  }

  function Apply(book: seq<Sub>, c: Command): seq<Sub> {
    match c
    case AddContact(n, u, d) => StableSort(book + [Sub(n, u, d + "\n")])
    case DeleteContact(n, u) => DeleteFirst(book, n, u)
  }

  function Run(book: seq<Sub>, cs: seq<Command>): seq<Sub>
    decreases |cs|
  {
    if cs == [] then book else Run(Apply(book, cs[0]), cs[1..])
  }

  /** In name order, with fields as the program produces them. */
  ghost predicate WellFormed(book: seq<Sub>) {
    SortedByName(book) && forall x :: x in book ==> PlainRecord(x)
  }

  ghost predicate AllEndLines(s: seq<Sub>) {
    forall x :: x in s ==> EndsLine(x)
  }

  /** The next start of the program reads the book back as it was saved. */
  predicate Persists(book: seq<Sub>) {
    FileFits(BookText(book)) && LoadedBook(BookText(book)) == book
  }

  lemma {:induction false} DeleteFirstKeeps(s: seq<Sub>, n: string, u: string)
    ensures forall x :: x in DeleteFirst(s, n, u) ==> x in s
    ensures SortedByName(s) ==> SortedByName(DeleteFirst(s, n, u))
  {
    if s != [] && !Matches(s[0], n, u) {
      DeleteFirstKeeps(s[1..], n, u);
      if SortedByName(s) {
        SortedCons(s[0], DeleteFirst(s[1..], n, u));
      }
    }
  }

  lemma AddKeeps(book: seq<Sub>, n: string, u: string, d: string)
    requires WellFormed(book) && Storable(AddContact(n, u, d))
    ensures var x := Sub(n, u, d + "\n");
            var next := Apply(book, AddContact(n, u, d));
            && PlainRecord(x) && EndsLine(x) && WellFormed(next)
            && (forall y :: y in next <==> y in book || y == x)
  {
    var x := Sub(n, u, d + "\n");
    assert x.number[..|x.number| - 1] == d;
    SortIsStableSort(book + [x]);
    forall y
      ensures y in StableSort(book + [x]) <==> y in book || y == x
    {
      assert y in StableSort(book + [x]) <==> y in multiset(StableSort(book + [x]));
      assert y in book + [x] <==> y in multiset(book + [x]);
    }
  }

  lemma ApplyKeeps(book: seq<Sub>, c: Command)
    requires WellFormed(book) && AllEndLines(book) && Storable(c)
    ensures WellFormed(Apply(book, c)) && AllEndLines(Apply(book, c))
  {
    match c
    case AddContact(n, u, d) => AddKeeps(book, n, u, d);
    case DeleteContact(n, u) => DeleteFirstKeeps(book, n, u);
  }

  predicate TypedAll(cs: seq<Command>) {
    forall i :: 0 <= i < |cs| ==> Typed(cs[i])
  }

  /** No sequence of commands on a book of ended lines produces one that is not read back unchanged. */
  lemma {:induction false} SessionsPersist(book: seq<Sub>, cs: seq<Command>)
    requires WellFormed(book) && AllEndLines(book)
    requires forall i :: 0 <= i < |cs| ==> Storable(cs[i])
    ensures WellFormed(Run(book, cs)) && AllEndLines(Run(book, cs)) && Persists(Run(book, cs))
    decreases |cs|
  {
    if cs == [] {
      SaveLoadRoundTrip(book);
    } else {
      ApplyKeeps(book, cs[0]);
      SessionsPersist(Apply(book, cs[0]), cs[1..]);
    }
  }

  // ----- A record that does not end its line

  /** A word that can be typed and does not come before `w`: white space gives way to a visible character. */
  function Visible(w: string): (v: string)
    ensures |v| == |w|
  {
    seq(|w|, i requires 0 <= i < |w| => if Space(w[i]) then '!' else w[i])
  }

  lemma {:induction false} VisibleNotBefore(w: string)
    ensures !Before(Visible(w), w)
  {
    if w != [] && !Space(w[0]) {
      assert Visible(w)[1..] == Visible(w[1..]);
      VisibleNotBefore(w[1..]);
    }
  }

  lemma WithNameLast(s: seq<Sub>)
    requires s != []
    ensures var x := s[|s| - 1];
            var same := WithName(s, x.name);
            same != [] && same[|same| - 1] == x
  {
    var front, x := s[..|s| - 1], s[|s| - 1];
    assert s == front + [x];
    WithNameAppend(front, [x], x.name);
    assert [x][1..] == [];
    assert WithName([x], x.name) == [x] + WithName([], x.name);
  }

  lemma AddedIsLastOfName(book: seq<Sub>, y: Sub)
    ensures var same := WithName(StableSort(book + [y]), y.name);
            same != [] && same[|same| - 1] == y
  {
    SortIsStableSort(book + [y]);
    WithNameLast(book + [y]);
  }

  lemma SortKeepsMember(s: seq<Sub>, y: Sub)
    requires y in s
    ensures y in StableSort(s)
  {
    SortIsStableSort(s);
    assert y in multiset(StableSort(s));
  }

  lemma LastIsGreatest(s: seq<Sub>, y: Sub)
    requires SortedByName(s) && y in s
    requires !Precedes(y, s[|s| - 1])
    ensures s[|s| - 1].name == y.name
  {
    var x := s[|s| - 1];
    var j :| 0 <= j < |s| && s[j] == y;
    StrCmpZeroIsEquality(x.name, y.name);
    if j < |s| - 1 {
      assert !Precedes(s[|s| - 1], s[j]);
      StrCmpAntisymmetric(x.name, y.name);
    }
  }

  /** A contact added with a name not before x's comes after x, so x is not the last record. */
  lemma AddedComesAfter(book: seq<Sub>, x: Sub, y: Sub)
    requires x != y && !Precedes(y, x)
    ensures StableSort(book + [y]) != []
    ensures var next := StableSort(book + [y]);
            next[|next| - 1] != x
  {
    var next := StableSort(book + [y]);
    SortKeepsMember(book + [y], y);
    if next[|next| - 1] == x {
      assert x.name == y.name by {
        SortSorts(book + [y]);
        LastIsGreatest(next, y);
      }
      WithNameLast(next);
      AddedIsLastOfName(book, y);
    }
  }

  lemma UnendedBeforeLast(s: seq<Sub>, x: Sub)
    requires x in s && !EndsLine(x) && s[|s| - 1] != x
    ensures !LinesSeparated(s)
  {
    var i :| 0 <= i < |s| && s[i] == x;
    assert i < |s| - 1;
  }

  /** A name to type: the record's own, made visible, or anything if it has none. */
  function NameAfter(w: string): (n: string)
    requires |w| < FIELD_SIZE && NUL !in w
    ensures TypedWord(n) && |n| < FIELD_SIZE
  {
    if w == [] then "a" else Visible(w)
  }

  lemma NameAfterNotBefore(w: string)
    requires |w| < FIELD_SIZE && NUL !in w
    ensures !Before(NameAfter(w), w)
  {
    if w != [] {
      VisibleNotBefore(w);
    }
  }

  lemma ShortContactIsTyped(name: string)
    requires TypedWord(name) && |name| < FIELD_SIZE
    ensures Typed(AddContact(name, "a", "1"))
  {
  }

  lemma AddedSeparatesNot(book: seq<Sub>, x: Sub, y: Sub)
    requires x in book && !EndsLine(x) && EndsLine(y) && !Precedes(y, x)
    requires x in StableSort(book + [y])
    ensures !LinesSeparated(StableSort(book + [y]))
  {
    AddedComesAfter(book, x, y);
    UnendedBeforeLast(StableSort(book + [y]), x);
  }

  /** One typed contact is enough to make such a book unreadable. */
  lemma UnendedRecordBreaks(book: seq<Sub>, x: Sub) returns (c: Command)
    requires WellFormed(book) && x in book && !EndsLine(x)
    ensures Typed(c) && !Persists(Apply(book, c))
  {
    var name := NameAfter(x.name);
    c := AddContact(name, "a", "1");
    ShortContactIsTyped(name);
    AddKeeps(book, name, "a", "1");
    NameAfterNotBefore(x.name);
    AddedSeparatesNot(book, x, Sub(name, "a", "1" + "\n"));
    UnseparatedDoesNotFit(Apply(book, c));
  }

  /** All sequences of commands lead to books that are read back unchanged exactly if every record ends its line. */
  lemma SessionsPersistIff(book: seq<Sub>)
    requires WellFormed(book)
    ensures (forall cs :: TypedAll(cs) ==> Persists(Run(book, cs))) <==> AllEndLines(book)
  {
    if AllEndLines(book) {
      forall cs | TypedAll(cs)
        ensures Persists(Run(book, cs))
      {
        SessionsPersist(book, cs);
      }
    } else {
      var x :| x in book && !EndsLine(x);
      var c := UnendedRecordBreaks(book, x);
      assert TypedAll([c]) && [c][1..] == [];
      assert Run(book, [c]) == Run(Apply(book, c), []);
    }
  }

  /**
   The whole program, from one start to the next: whatever is typed in between, the file
   written is read back as the book, exactly if every contact line of the first file ends in
   a newline.
   */
  lemma ProgramsPersistIff(file: string)
    requires NUL !in file && FileFits(file)
    ensures (forall cs :: TypedAll(cs) ==> Persists(Run(LoadedBook(file), cs))) <==> AllEndLines(ParseFile(file))
  {
    var book := LoadedBook(file);
    FittingFilesArePlain(file, 3);
    SortIsStableSort(ParseFile(file));
    forall x
      ensures x in book <==> x in ParseFile(file)
    {
      assert x in book <==> x in multiset(book);
      assert x in ParseFile(file) <==> x in multiset(ParseFile(file));
    }
    SessionsPersistIff(book);
  }

  // ----- Lookups

  lemma {:induction false} FoundIsWithinName(s: seq<Sub>, n: string, u: string)
    ensures Found(s, n, u) == Found(WithName(s, n), n, u)
  {
    if s != [] {
      FoundIsWithinName(s[1..], n, u);
      StrCmpZeroIsEquality(s[0].name, n);
      if s[0].name == n {
        assert ([s[0]] + WithName(s[1..], n))[1..] == WithName(s[1..], n);
      } else {
        assert WithName(s, n) == WithName(s[1..], n);
        assert Found(s, n, u) == Found(s[1..], n, u);
      }
    }
  }

  lemma {:induction false} FoundAppend(s: seq<Sub>, t: seq<Sub>, n: string, u: string)
    ensures Found(s + t, n, u) == Found(s, n, u) + Found(t, n, u)
  {
    if s == [] {
      assert s + t == t;
    } else {
      assert (s + t)[1..] == s[1..] + t;
      FoundAppend(s[1..], t, n, u);
      var head := if Matches(s[0], n, u) then [s[0]] else [];
      ConcatAssociates(head, Found(s[1..], n, u), Found(t, n, u));
    }
  }

  lemma {:induction false} FoundAfterDelete(s: seq<Sub>, n: string, u: string, n': string, u': string)
    ensures Found(DeleteFirst(s, n, u), n', u') ==
            if n == n' && u == u' && Found(s, n, u) != [] then Found(s, n, u)[1..] else Found(s, n', u')
  {
    if s != [] {
      var x := s[0];
      StrCmpZeroIsEquality(x.name, n);
      StrCmpZeroIsEquality(x.surename, u);
      StrCmpZeroIsEquality(x.name, n');
      StrCmpZeroIsEquality(x.surename, u');
      FoundAfterDelete(s[1..], n, u, n', u');
      if !Matches(x, n, u) {
        assert ([x] + DeleteFirst(s[1..], n, u))[1..] == DeleteFirst(s[1..], n, u);
      }
    }
  }

  /**
   For every pair of names, the book behaves as a queue of the contacts added under them:
   adding puts a contact at the end of what a lookup prints, deleting takes the first away,
   and neither touches any other pair.
   */
  lemma LookupIsAQueue(book: seq<Sub>, c: Command, n: string, u: string)
    ensures Found(Apply(book, c), n, u) ==
            match c {
              case AddContact(a, b, d) =>
                Found(book, n, u) + if a == n && b == u then [Sub(a, b, d + "\n")] else []
              case DeleteContact(a, b) =>
                if a == n && b == u && Found(book, n, u) != [] then Found(book, n, u)[1..] else Found(book, n, u)
            }
  {
    match c
    case AddContact(a, b, d) =>
      var x := Sub(a, b, d + "\n");
      SortIsStableSort(book + [x]);
      FoundIsWithinName(StableSort(book + [x]), n, u);
      FoundIsWithinName(book + [x], n, u);
      FoundAppend(book, [x], n, u);
      StrCmpZeroIsEquality(a, n);
      StrCmpZeroIsEquality(b, u);
      assert [x][1..] == [];
      assert Found([x], n, u) == (if Matches(x, n, u) then [x] else []) + Found([], n, u);
    case DeleteContact(a, b) =>
      FoundAfterDelete(book, a, b, n, u);
  }
}
