/**
 The text format of `book.txt`: how the contact book writes its records and how `fgets`,
 the tokeniser and the field count read them back.
 */
module BookFile {
  import opened CStrings
  import opened NameOrder
  import T = Tokenizer

  const CONTACT_SIZE: nat := 100
  const FIELD_SIZE: nat := 20

  // ----- Reading

  /** How many characters `fgets` takes with room for `room` of them: through the first newline, if any. */
  function ReadLength(file: string, room: nat): (n: nat)
    ensures n <= |file| && n <= room
    ensures file != [] && room > 0 ==> n > 0
  {
    if file == [] || room == 0 then 0
    else if file[0] == '\n' then 1
    else 1 + ReadLength(file[1..], room - 1)
  }

  /** The record a line stands for: three fields between two spaces; other lines are passed over. */
  function ParseLine(line: string): seq<Sub> {
    var ps := T.Split(line, ' ');
    if line != "\n" && |ps| == 3 then [Sub(ps[0], ps[1], ps[2])] else []
  }

  /** The record's fields, with their terminators, fit the three 20-character members. */
  predicate FieldsFit(x: Sub) {
    |x.name| < FIELD_SIZE && |x.surename| < FIELD_SIZE && |x.number| < FIELD_SIZE
  }

  /** Reading the line stays inside a words array of that size and inside the members of a record. */
  predicate LineFitsIn(line: string, words: nat) {
    && (line == "\n" || |T.Split(line, ' ')| <= words)
    && (forall x :: x in ParseLine(line) ==> FieldsFit(x))
  }

  /** The same for the `words[3]` of the book on the heap. */
  predicate LineFits(line: string) {
    LineFitsIn(line, 3)
  }

  /** The records of a file in file order. */
  function ParseFile(file: string): seq<Sub> {
    if file == [] then []
    else
      var n := ReadLength(file, CONTACT_SIZE - 1);
      ParseLine(file[..n]) + ParseFile(file[n..])
  }

  /** Every line the loader sees stays inside its buffers. */
  predicate FileFitsIn(file: string, words: nat) {
    file == [] ||
    var n := ReadLength(file, CONTACT_SIZE - 1);
    LineFitsIn(file[..n], words) && FileFitsIn(file[n..], words)
  }

  predicate FileFits(file: string) {
    FileFitsIn(file, 3)
  }

  // ----- Writing

  function RecordText(x: Sub): string {
    x.name + " " + x.surename + " " + x.number
  }

  function BookText(s: seq<Sub>): string {
    if s == [] then [] else RecordText(s[0]) + BookText(s[1..])
  }

  // ----- The round trip

  predicate PlainWord(w: string) {
    NUL !in w && ' ' !in w && '\n' !in w
  }

  predicate EndsLine(x: Sub) {
    x.number != [] && x.number[|x.number| - 1] == '\n'
  }

  /** Fields as the program produces them: no separators inside, at most one newline, at the number's end. */
  predicate PlainRecord(x: Sub) {
    && FieldsFit(x)
    && PlainWord(x.name)
    && PlainWord(x.surename)
    && PlainWord(if EndsLine(x) then x.number[..|x.number| - 1] else x.number)
  }

  /** Every record but possibly the last ends its line. */
  predicate LinesSeparated(s: seq<Sub>) {
    forall i :: 0 <= i < |s| - 1 ==> EndsLine(s[i])
  }

  lemma {:induction false} ReadLengthLine(line: string, rest: string, room: nat)
    requires '\n' !in line && |line| < room
    ensures ReadLength(line + "\n" + rest, room) == |line| + 1
    ensures ReadLength(line, room) == |line|
  {
    if line != [] {
      assert (line + "\n" + rest)[1..] == line[1..] + "\n" + rest;
      ReadLengthLine(line[1..], rest, room - 1);
    }
  }

  lemma {:induction false} ReadLengthAtLeast(start: string, rest: string, room: nat)
    requires '\n' !in start && |start| <= room
    ensures ReadLength(start + rest, room) >= |start|
  {
    if start != [] {
      assert (start + rest)[1..] == start[1..] + rest;
      ReadLengthAtLeast(start[1..], rest, room - 1);
    }
  }

  lemma SplitOfRecord(x: Sub)
    requires PlainRecord(x)
    ensures T.Split(RecordText(x), ' ') == [x.name, x.surename, x.number]
    ensures ParseLine(RecordText(x)) == [x] && LineFits(RecordText(x))
    ensures |RecordText(x)| <= 59
  {
    assert ' ' !in x.number;
    SplitOfText(x);
    assert RecordText(x)[|x.name|] == ' ';
  }

  lemma SplitOfText(x: Sub)
    requires ' ' !in x.name && ' ' !in x.surename && ' ' !in x.number
    ensures T.Split(RecordText(x), ' ') == [x.name, x.surename, x.number]
  {
    var ps := [x.name, x.surename, x.number];
    assert ps[1..] == [x.surename, x.number] && ps[1..][1..] == [x.number];
    assert T.Join(ps[1..], ' ') == x.surename + [' '] + x.number;
    assert T.Join(ps, ' ') == x.name + [' '] + (x.surename + [' '] + x.number);
    assert T.Join(ps, ' ') == RecordText(x);
    T.SplitIsTheOnlySplit(ps, ' ');
  }

  /** The first line of a saved book whose first record ends its line is that record. */
  lemma SavedLine(x: Sub, rest: string)
    requires PlainRecord(x)
    requires EndsLine(x) || rest == []
    ensures ReadLength(RecordText(x) + rest, CONTACT_SIZE - 1) == |RecordText(x)|
  {
    SplitOfRecord(x);
    var text := RecordText(x);
    if EndsLine(x) {
      var line := x.name + " " + x.surename + " " + x.number[..|x.number| - 1];
      assert text == line + "\n";
      assert text + rest == line + "\n" + rest;
      ReadLengthLine(line, rest, CONTACT_SIZE - 1);
    } else {
      assert text + rest == text;
      ReadLengthLine(text, [], CONTACT_SIZE - 1);
    }
  }

  lemma {:induction false} SavedBookParses(s: seq<Sub>)
    requires forall x :: x in s ==> PlainRecord(x)
    requires LinesSeparated(s)
    ensures FileFits(BookText(s)) && ParseFile(BookText(s)) == s
  {
    if s != [] {
      var text, rest := RecordText(s[0]), BookText(s[1..]);
      SavedLine(s[0], rest);
      SplitOfRecord(s[0]);
      SavedBookParses(s[1..]);
      assert (text + rest)[..|text|] == text && (text + rest)[|text|..] == rest;
      assert s == [s[0]] + s[1..];
    }
  }

  lemma RecordSpaces(x: Sub, name: string)
    requires PlainRecord(x)
    ensures T.Occurrences(RecordText(x) + name + " ", ' ') >= 3
  {
    SplitOfRecord(x);
    T.SplitIsASplit(RecordText(x), ' ');
    T.OccurrencesAppend(RecordText(x) + name, " ", ' ');
    T.OccurrencesAppend(RecordText(x), name, ' ');
  }

  lemma OverlongLine(start: string, rest: string)
    requires '\n' !in start && |start| <= CONTACT_SIZE - 1
    requires T.Occurrences(start, ' ') >= 3
    ensures !FileFits(start + rest)
  {
    var file := start + rest;
    var n := ReadLength(file, CONTACT_SIZE - 1);
    ReadLengthAtLeast(start, rest, CONTACT_SIZE - 1);
    var line := file[..n];
    assert line == start + line[|start|..];
    T.OccurrencesAppend(start, line[|start|..], ' ');
    T.SplitIsASplit(line, ' ');
    assert T.Occurrences("\n", ' ') == 0 + T.Occurrences([], ' ') by {
      assert "\n"[1..] == [];
    }
  }

  /** A record that does not end its line, with another after it, makes a line of at least four fields. */
  lemma MergedLineOverflows(x: Sub, y: Sub, rest: string)
    requires PlainRecord(x) && PlainRecord(y) && !EndsLine(x)
    ensures !FileFits(RecordText(x) + (RecordText(y) + rest))
  {
    var start, more := RecordText(x) + y.name + " ", y.surename + " " + y.number + rest;
    assert RecordText(x) + (RecordText(y) + rest) == start + more;
    SplitOfRecord(x);
    RecordSpaces(x, y.name);
    OverlongLine(start, more);
  }

  lemma {:induction false} UnseparatedDoesNotFit(s: seq<Sub>)
    requires forall x :: x in s ==> PlainRecord(x)
    requires !LinesSeparated(s)
    ensures !FileFits(BookText(s))
  {
    var text, rest := RecordText(s[0]), BookText(s[1..]);
    if EndsLine(s[0]) {
      assert !LinesSeparated(s[1..]) by {
        var i :| 0 <= i < |s| - 1 && !EndsLine(s[i]);
        assert s[i] == s[1..][i - 1];
      }
      SavedLine(s[0], rest);
      UnseparatedDoesNotFit(s[1..]);
      assert (text + rest)[|text|..] == rest;
    } else {
      assert s[1..][0] == s[1];
      MergedLineOverflows(s[0], s[1], BookText(s[1..][1..]));
    }
  }

  // ----- What a fitting file holds

  /** `fgets` stops right after the first newline, at the end of the file, or when the room is used up. */
  lemma {:induction false} ReadLengthIs(file: string, room: nat)
    ensures var n := ReadLength(file, room);
            && (forall i :: 0 <= i < n - 1 ==> file[i] != '\n')
            && (n < room && n < |file| ==> n > 0 && file[n - 1] == '\n')
  {
    if file != [] && room > 0 && file[0] != '\n' {
      ReadLengthIs(file[1..], room - 1);
      forall i | 0 <= i < ReadLength(file, room) - 1
        ensures file[i] != '\n'
      {
        assert i > 0 ==> file[i] == file[1..][i - 1];
      }
    }
  }

  /** A line the loader reads has at most 99 characters; a shorter one ends in a newline or ends the file. */
  lemma LineRead(file: string)
    requires file != []
    ensures var n := ReadLength(file, CONTACT_SIZE - 1);
            && 0 < n <= 99 && n <= |file|
            && (forall i :: 0 <= i < n - 1 ==> file[i] != '\n')
            && (n == 99 || n == |file| || file[n - 1] == '\n')
  {
    ReadLengthIs(file, CONTACT_SIZE - 1);
  }

  /** A line stands for a record exactly if it has two spaces, and then for its three fields. */
  lemma ParseLineIff(line: string, x: Sub)
    ensures |ParseLine(line)| == if T.Occurrences(line, ' ') == 2 then 1 else 0
    ensures ParseLine(line) == [x]
            <==> line == RecordText(x) && ' ' !in x.name && ' ' !in x.surename && ' ' !in x.number
  {
    T.SplitIsASplit(line, ' ');
    assert "\n"[1..] == [] && T.Occurrences("\n", ' ') == T.Occurrences([], ' ');
    if ParseLine(line) == [x] {
      ParsedLineText(line, x);
      TextParts(x);
    }
    if line == RecordText(x) && ' ' !in x.name && ' ' !in x.surename && ' ' !in x.number {
      SplitOfText(x);
      assert line[|x.name|] == ' ';
    }
  }

  lemma TextParts(x: Sub)
    ensures RecordText(x) == x.name + ([' '] + (x.surename + ([' '] + x.number)))
  {
  }

  /** A three-field line is its record's text. */
  lemma ParsedLineText(line: string, x: Sub)
    requires x in ParseLine(line)
    ensures line == x.name + ([' '] + (x.surename + ([' '] + x.number)))
    ensures ' ' !in x.name && ' ' !in x.surename && ' ' !in x.number
  {
    var ps := T.Split(line, ' ');
    T.SplitIsASplit(line, ' ');
    assert x == Sub(ps[0], ps[1], ps[2]);
    var qs := ps[1..];
    assert qs[0] == ps[1] && qs[1..] == [ps[2]];
    assert T.Join(qs, ' ') == ps[1] + [' '] + T.Join([ps[2]], ' ');
    assert T.Join(ps, ' ') == ps[0] + [' '] + T.Join(qs, ' ');
  }

  /** No NUL, and no newline but possibly as the last character. */
  ghost predicate OneLine(l: string) {
    NUL !in l && forall i :: 0 <= i < |l| - 1 ==> l[i] != '\n'
  }

  lemma OneLineParts(p: string, rest: string)
    requires OneLine(p + rest)
    ensures NUL !in p && (rest != [] ==> '\n' !in p) && OneLine(rest)
  {
    forall i | 0 <= i < |p|
      ensures p[i] == (p + rest)[i]
    {
    }
    forall i | 0 <= i < |rest|
      ensures rest[i] == (p + rest)[|p| + i]
    {
    }
  }

  lemma FittingLineIsPlain(line: string, words: nat)
    requires OneLine(line) && LineFitsIn(line, words)
    ensures forall x :: x in ParseLine(line) ==> PlainRecord(x)
  {
    forall x | x in ParseLine(line)
      ensures PlainRecord(x)
    {
      ParsedLineText(line, x);
      var last := [' '] + x.number;
      OneLineParts(x.name, [' '] + (x.surename + last));
      OneLineParts([' '], x.surename + last);
      OneLineParts(x.surename, last);
      OneLineParts([' '], x.number);
    }
  }

  /** Fields inside the buffers are all a file needs for its records to be plain. */
  lemma {:induction false} FittingFilesArePlain(file: string, words: nat)
    requires NUL !in file && FileFitsIn(file, words)
    ensures forall x :: x in ParseFile(file) ==> PlainRecord(x)
  {
    if file != [] {
      var n := ReadLength(file, CONTACT_SIZE - 1);
      LineRead(file);
      FittingLineIsPlain(file[..n], words);
      FittingFilesArePlain(file[n..], words);
    }
  }

  // ----- Reading back without sorting

  /** Every record read accounts for two of the file's spaces. */
  lemma {:induction false} RecordsTakeSpaces(file: string)
    ensures 2 * |ParseFile(file)| <= T.Occurrences(file, ' ')
  {
    if file != [] {
      var n := ReadLength(file, CONTACT_SIZE - 1);
      assert file == file[..n] + file[n..];
      T.OccurrencesAppend(file[..n], file[n..], ' ');
      T.SplitIsASplit(file[..n], ' ');
      RecordsTakeSpaces(file[n..]);
    }
  }

  lemma {:induction false} BookTextSpaces(s: seq<Sub>)
    requires forall x :: x in s ==> PlainRecord(x)
    ensures T.Occurrences(BookText(s), ' ') == 2 * |s|
  {
    if s != [] {
      SplitOfRecord(s[0]);
      T.SplitIsASplit(RecordText(s[0]), ' ');
      T.OccurrencesAppend(RecordText(s[0]), BookText(s[1..]), ' ');
      BookTextSpaces(s[1..]);
    }
  }

  /** A start with three spaces and no newline stands for no record, so records are missing. */
  lemma OverlongLineLosesRecords(start: string, rest: string)
    requires '\n' !in start && |start| <= CONTACT_SIZE - 1
    requires T.Occurrences(start, ' ') >= 3
    ensures 2 * |ParseFile(start + rest)| < T.Occurrences(start + rest, ' ')
  {
    var file := start + rest;
    var n := ReadLength(file, CONTACT_SIZE - 1);
    ReadLengthAtLeast(start, rest, CONTACT_SIZE - 1);
    var line := file[..n];
    assert line == start + line[|start|..];
    T.OccurrencesAppend(start, line[|start|..], ' ');
    T.SplitIsASplit(line, ' ');
    assert file == line + file[n..];
    T.OccurrencesAppend(line, file[n..], ' ');
    RecordsTakeSpaces(file[n..]);
  }

  lemma MergedLineLosesRecords(x: Sub, y: Sub, rest: string)
    requires PlainRecord(x) && PlainRecord(y) && !EndsLine(x)
    ensures var text := RecordText(x) + (RecordText(y) + rest);
            2 * |ParseFile(text)| < T.Occurrences(text, ' ')
  {
    var start, more := RecordText(x) + y.name + " ", y.surename + " " + y.number + rest;
    assert RecordText(x) + (RecordText(y) + rest) == start + more;
    SplitOfRecord(x);
    RecordSpaces(x, y.name);
    OverlongLineLosesRecords(start, more);
  }

  lemma {:induction false} UnseparatedLosesRecords(s: seq<Sub>)
    requires forall x :: x in s ==> PlainRecord(x)
    requires !LinesSeparated(s)
    ensures 2 * |ParseFile(BookText(s))| < T.Occurrences(BookText(s), ' ')
  {
    var text, rest := RecordText(s[0]), BookText(s[1..]);
    if EndsLine(s[0]) {
      assert !LinesSeparated(s[1..]) by {
        var i :| 0 <= i < |s| - 1 && !EndsLine(s[i]);
        assert s[i] == s[1..][i - 1];
      }
      SavedLine(s[0], rest);
      SplitOfRecord(s[0]);
      UnseparatedLosesRecords(s[1..]);
      assert (text + rest)[..|text|] == text && (text + rest)[|text|..] == rest;
      T.SplitIsASplit(text, ' ');
      T.OccurrencesAppend(text, rest, ' ');
    } else {
      assert s[1..][0] == s[1];
      MergedLineLosesRecords(s[0], s[1], BookText(s[1..][1..]));
    }
  }

  /** What `main` has in memory after reading a file into an empty book. */
  function LoadedBook(file: string): seq<Sub> {
    StableSort(ParseFile(file))
  }

  /**
   Save then load is the identity exactly for books that are in name order and whose records,
   except possibly the last, end in a newline; otherwise the saved file either overruns the
   three-word array when it is read back or comes back in another order.
   */
  lemma SaveLoadRoundTrip(s: seq<Sub>)
    requires forall x :: x in s ==> PlainRecord(x)
    ensures FileFits(BookText(s)) && LoadedBook(BookText(s)) == s <==> SortedByName(s) && LinesSeparated(s)
  {
    if LinesSeparated(s) {
      SavedBookParses(s);
      SortIsStableSort(s);
      if SortedByName(s) {
        SortOfSorted(s);
      }
    } else {
      UnseparatedDoesNotFit(s);
    }
  }

  /** The smallest book that is lost: a file without a final newline whose last line sorts first. */
  lemma MissingNewlineLosesTheBook()
    ensures var file := "B b 2\nA a 1";
            && FileFits(file)
            && LoadedBook(file) == [Sub("A", "a", "1"), Sub("B", "b", "2\n")]
            && !FileFits(BookText(LoadedBook(file)))
  {
    var a, b := Sub("A", "a", "1"), Sub("B", "b", "2\n");
    assert RecordText(b) == "B b 2\n" && RecordText(a) == "A a 1";
    assert [b, a][1..] == [a] && [a][1..] == [];
    assert "B b 2\nA a 1" == RecordText(b) + (RecordText(a) + []);
    assert BookText([a]) == RecordText(a) + BookText([]);
    assert BookText([b, a]) == RecordText(b) + BookText([a]);
    SavedBookParses([b, a]);
    assert StableSort([b, a]) == [a, b] by {
      assert StableSort([a]) == Insert(a, StableSort([])) == [a];
      assert StableSort([b, a]) == Insert(b, [a]);
      assert Precedes(a, b);
      assert Insert(b, [a]) == [a] + Insert(b, []);
    }
    assert !EndsLine([a, b][0]);
    UnseparatedDoesNotFit([a, b]);
  }
}
