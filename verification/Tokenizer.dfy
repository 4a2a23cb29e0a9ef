/**
 The two in-place tokenisers, `stok`, of the contact books and of the command interpreter.
 Both overwrite separators with NUL and record where the words start; both are proved to
 compute `Split`, which the lemmas below characterise completely.
 */
module Tokenizer {
  import opened CStrings

  /** The pieces of `s` between separators; n separators make n + 1 pieces, empty ones included. */
  function Split(s: string, sep: char): (ps: seq<string>)
    ensures |ps| >= 1
  {
    if s == [] then [[]]
    else
      var ps := Split(s[1..], sep);
      if s[0] == sep then [[]] + ps else [[s[0]] + ps[0]] + ps[1..]
  }

  function Join(ps: seq<string>, sep: char): string
    requires |ps| >= 1
  {
    if |ps| == 1 then ps[0] else ps[0] + [sep] + Join(ps[1..], sep)
  }

  function Occurrences(s: string, c: char): nat {
    if s == [] then 0 else (if s[0] == c then 1 else 0) + Occurrences(s[1..], c)
  }

  lemma {:induction false} SplitIsASplit(s: string, sep: char)
    ensures |Split(s, sep)| == Occurrences(s, sep) + 1
    ensures Join(Split(s, sep), sep) == s
    ensures forall i :: 0 <= i < |Split(s, sep)| ==> sep !in Split(s, sep)[i]
  {
    if s != [] {
      SplitIsASplit(s[1..], sep);
      var ps := Split(s[1..], sep);
      JoinGrows(ps, s[0], sep);
      assert s == [s[0]] + s[1..];
    }
  }

  lemma JoinGrows(ps: seq<string>, c: char, sep: char)
    requires |ps| >= 1
    ensures Join([[]] + ps, sep) == [sep] + Join(ps, sep)
    ensures Join([[c] + ps[0]] + ps[1..], sep) == [c] + Join(ps, sep)
  {
    assert ([[]] + ps)[1..] == ps;
    var qs := [[c] + ps[0]] + ps[1..];
    assert qs[1..] == ps[1..];
    if |ps| > 1 {
      assert Join(qs, sep) == [c] + ps[0] + [sep] + Join(ps[1..], sep);
    }
  }

  lemma {:induction false} SplitOfClean(p: string, sep: char)
    requires sep !in p
    ensures Split(p, sep) == [p]
  {
    if p != [] {
      SplitOfClean(p[1..], sep);
      assert p == [p[0]] + p[1..];
    }
  }

  lemma {:induction false} SplitOfPiece(p: string, sep: char, rest: string)
    requires sep !in p
    ensures Split(p + [sep] + rest, sep) == [p] + Split(rest, sep)
  {
    var s := p + [sep] + rest;
    if p == [] {
      assert s[1..] == rest;
    } else {
      assert s[1..] == p[1..] + [sep] + rest;
      SplitOfPiece(p[1..], sep, rest);
      assert p == [p[0]] + p[1..];
    }
  }

  /** Only one list of separator-free pieces rejoins to a given string: the one `Split` returns. */
  lemma {:induction false} SplitIsTheOnlySplit(ps: seq<string>, sep: char)
    requires |ps| >= 1
    requires forall i :: 0 <= i < |ps| ==> sep !in ps[i]
    ensures Split(Join(ps, sep), sep) == ps
  {
    if |ps| == 1 {
      SplitOfClean(ps[0], sep);
    } else {
      SplitIsTheOnlySplit(ps[1..], sep);
      SplitOfPiece(ps[0], sep, Join(ps[1..], sep));
    }
  }

  lemma {:induction false} OccurrencesAppend(a: string, b: string, c: char)
    ensures Occurrences(a + b, c) == Occurrences(a, c) + Occurrences(b, c)
  {
    if a == [] {
      assert a + b == b;
    } else {
      assert (a + b)[1..] == a[1..] + b;
      OccurrencesAppend(a[1..], b, c);
    }
  }

  lemma {:induction false} OccurrencesOfClean(a: string, c: char)
    ensures Occurrences(a, c) == 0 <==> c !in a
  {
    if a != [] {
      OccurrencesOfClean(a[1..], c);
      assert a == [a[0]] + a[1..];
    }
  }

  // ----- Where the words start

  /** The offsets just after each separator, for a string placed at offset `at`. */
  function LaterStarts(s: string, sep: char, at: nat): seq<nat> {
    if s == [] then []
    else if s[0] == sep then [at + 1] + LaterStarts(s[1..], sep, at + 1)
    else LaterStarts(s[1..], sep, at + 1)
  }

  /** `b` is what tokenising leaves of the string `s` that stood at offset `at`. */
  ghost predicate Cut(b: seq<char>, at: nat, s: string, sep: char) {
    && NUL !in s
    && at + |s| < |b|
    && b[at + |s|] == NUL
    && forall i :: 0 <= i < |s| ==> b[at + i] == if s[i] == sep then NUL else s[i]
  }

  /** Reading a C string at each recorded start gives back exactly the pieces. */
  lemma {:induction false} WordsRead(b: seq<char>, at: nat, s: string, sep: char)
    requires Cut(b, at, s, sep)
    ensures |LaterStarts(s, sep, at)| + 1 == |Split(s, sep)|
    ensures CStr(b, at) == Split(s, sep)[0]
    ensures forall i :: 0 <= i < |LaterStarts(s, sep, at)| ==>
                          LaterStarts(s, sep, at)[i] <= |b|
                          && CStr(b, LaterStarts(s, sep, at)[i]) == Split(s, sep)[i + 1]
    decreases |s|
  {
    if s != [] {
      assert b[at + 0] == if s[0] == sep then NUL else s[0];
      forall i | 0 <= i < |s[1..]|
        ensures b[at + 1 + i] == if s[1..][i] == sep then NUL else s[1..][i]
      {
        assert b[at + (i + 1)] == if s[i + 1] == sep then NUL else s[i + 1];
      }
      WordsRead(b, at + 1, s[1..], sep);
    }
  }

  /** The state both tokenisers promise to leave, in terms of the state they found. */
  ghost predicate Tokenised(before: seq<char>, at: nat, sep: char, after: seq<char>, words: seq<nat>)
    requires Terminated(before, at)
  {
    var s := CStr(before, at);
    && |after| == |before|
    && words == [at] + LaterStarts(s, sep, at)
    && (forall k :: 0 <= k < |before| ==>
        after[k] == if at <= k < at + |s| && before[k] == sep then NUL else before[k])
  }

  /** What a caller reads at the word starts is the split of the string it passed in. */
  lemma TokenisedWords(before: seq<char>, at: nat, sep: char, after: seq<char>, words: seq<nat>)
    requires Terminated(before, at)
    requires Tokenised(before, at, sep, after, words)
    ensures |words| == |Split(CStr(before, at), sep)|
    ensures forall i :: 0 <= i < |words| ==>
                          words[i] <= |after| && CStr(after, words[i]) == Split(CStr(before, at), sep)[i]
  {
    var s := CStr(before, at);
    TerminatedHolds(before, at);
    forall i | 0 <= i < |s|
      ensures after[at + i] == if s[i] == sep then NUL else s[i]
    {
      assert before[at + i] == before[at..at + |s|][i];
    }
    WordsRead(after, at, s, sep);
  }

  /** The two tokenisers agree: buffer and word starts are determined by the buffer passed in. */
  lemma TokenisersAgree(before: seq<char>, at: nat, sep: char, after: seq<char>, words: seq<nat>,
                        after': seq<char>, words': seq<nat>)
    requires Terminated(before, at)
    requires Tokenised(before, at, sep, after, words) && Tokenised(before, at, sep, after', words')
    ensures after == after' && words == words'
  {
    forall k | 0 <= k < |before|
      ensures after[k] == after'[k]
    {
    }
  }

  // ----- The loops

  /** What the scan makes of buffer and word starts from position `p` on. */
  function Scan(b: seq<char>, sep: char, p: nat, ws: seq<nat>): (r: (seq<char>, seq<nat>))
    ensures |r.1| >= |ws|
    decreases |b| - p
  {
    if p >= |b| || b[p] == NUL then (b, ws)
    else if b[p] == sep then Scan(b[p := NUL], sep, p + 1, ws + [p + 1])
    else Scan(b, sep, p + 1, ws)
  }

  lemma {:induction false} ScanCuts(b: seq<char>, sep: char, p: nat, ws: seq<nat>)
    requires Terminated(b, p)
    ensures var s := CStr(b, p);
            && Scan(b, sep, p, ws).1 == ws + LaterStarts(s, sep, p)
            && |Scan(b, sep, p, ws).0| == |b|
            && (forall k :: 0 <= k < |b| ==>
                Scan(b, sep, p, ws).0[k] == if p <= k < p + |s| && b[k] == sep then NUL else b[k])
    decreases |b| - p
  {
    if b[p] == NUL {
    } else if b[p] == sep {
      var c := b[p := NUL];
      CStrFrom(b, c, p + 1);
      ScanCuts(c, sep, p + 1, ws + [p + 1]);
    } else {
      ScanCuts(b, sep, p + 1, ws);
    }
  }

  lemma {:induction false} CStrFrom(b: seq<char>, c: seq<char>, p: nat)
    requires p <= |b| == |c| && forall k :: p <= k < |b| ==> b[k] == c[k]
    ensures CStr(b, p) == CStr(c, p)
    decreases |b| - p
  {
    if p < |b| && b[p] != NUL {
      CStrFrom(b, c, p + 1);
    }
  }

  /** The scan of a whole string leaves the buffer tokenised. */
  lemma ScanTokenises(b: seq<char>, start: nat, sep: char)
    requires Terminated(b, start)
    ensures var (after, words) := Scan(b, sep, start, [start]);
            && Tokenised(b, start, sep, after, words)
            && |words| == |Split(CStr(b, start), sep)|
            && forall i :: 0 <= i < |words| ==>
                             words[i] <= |after| && CStr(after, words[i]) == Split(CStr(b, start), sep)[i]
  {
    ScanCuts(b, sep, start, [start]);
    var (after, words) := Scan(b, sep, start, [start]);
    TokenisedWords(b, start, sep, after, words);
  }

  /** `stok` of the contact books: the pointer `str` walks over the buffer. */
  method StokByPointer(buf: array<char>, start: nat, symbol: char, words: array<nat>) returns (count: nat)
    requires Terminated(buf[..], start)
    requires |Split(CStr(buf[..], start), symbol)| <= words.Length
    modifies buf, words
    ensures count <= words.Length
    ensures Tokenised(old(buf[..]), start, symbol, buf[..], words[..count])
    ensures count == |Split(CStr(old(buf[..]), start), symbol)|
    ensures forall i :: 0 <= i < count ==>
                          words[i] <= buf.Length
                          && CStr(buf[..], words[i]) == Split(CStr(old(buf[..]), start), symbol)[i]
  {
    ghost var goal := Scan(buf[..], symbol, start, [start]);
    ScanTokenises(buf[..], start, symbol);
    ghost var end :| start <= end < buf.Length && buf[end] == NUL;
    var str := start;
    count := 1;
    words[0] := str;
    assert words[..count] == [start];
    while buf[str] != NUL
      invariant start <= str <= end && buf[end] == NUL
      invariant 1 <= count <= words.Length
      invariant Scan(buf[..], symbol, str, words[..count]) == goal
      decreases end - str
    {
      if buf[str] == symbol {
        ghost var b, ws := buf[..], words[..count];
        buf[str] := NUL;
        assert buf[..] == b[str := NUL];
        str := str + 1;
        assert |ws + [str]| <= |goal.1|;
        words[count] := str;
        count := count + 1;
        assert words[..count] == ws + [str];
      } else {
        str := str + 1;
      }
    }
    assert goal == (buf[..], words[..count]);
    assert forall i :: 0 <= i < count ==> words[i] == words[..count][i];
  }

  /** `stok` of the command interpreter: the index `i` walks over the buffer from its beginning. */
  method StokByIndex(src: array<char>, symb: char, strs: array<nat>) returns (numstrs: nat)
    requires Terminated(src[..], 0)
    requires |Split(CStr(src[..], 0), symb)| <= strs.Length
    modifies src, strs
    ensures numstrs <= strs.Length
    ensures Tokenised(old(src[..]), 0, symb, src[..], strs[..numstrs])
    ensures numstrs == |Split(CStr(old(src[..]), 0), symb)|
    ensures forall i :: 0 <= i < numstrs ==>
                          strs[i] <= src.Length
                          && CStr(src[..], strs[i]) == Split(CStr(old(src[..]), 0), symb)[i]
  {
    ghost var goal := Scan(src[..], symb, 0, [0]);
    ScanTokenises(src[..], 0, symb);
    ghost var end :| 0 <= end < src.Length && src[end] == NUL;
    var i := 0;
    numstrs := 1;
    strs[i] := 0;
    assert strs[..numstrs] == [0];
    while src[i] != NUL
      invariant 0 <= i <= end && src[end] == NUL
      invariant 1 <= numstrs <= strs.Length
      invariant Scan(src[..], symb, i, strs[..numstrs]) == goal
      decreases end - i
    {
      if src[i] == symb {
        ghost var b, ws := src[..], strs[..numstrs];
        src[i] := NUL;
        assert src[..] == b[i := NUL];
        assert |ws + [i + 1]| <= |goal.1|;
        strs[numstrs] := i + 1;
        numstrs := numstrs + 1;
        assert strs[..numstrs] == ws + [i + 1];
      }
      i := i + 1;
    }
    assert goal == (src[..], strs[..numstrs]);
    assert forall j :: 0 <= j < numstrs ==> strs[j] == strs[..numstrs][j];
  }

  /** Both tokenisers on two copies of a buffer leave the same buffer, the same count and the same word starts. */
  method TokeniseTwice(one: array<char>, two: array<char>, sep: char, words: array<nat>, strs: array<nat>)
    returns (count: nat, numstrs: nat)
    requires one != two && words != strs && one[..] == two[..]
    requires Terminated(one[..], 0)
    requires |Split(CStr(one[..], 0), sep)| <= words.Length && |Split(CStr(one[..], 0), sep)| <= strs.Length
    modifies one, two, words, strs
    ensures one[..] == two[..]
    ensures count == numstrs <= words.Length && numstrs <= strs.Length && words[..count] == strs[..numstrs]
  {
    ghost var before := one[..];
    count := StokByPointer(one, 0, sep, words);
    ghost var after, starts := one[..], words[..count];
    numstrs := StokByIndex(two, sep, strs);
    assert one[..] == after && words[..count] == starts;
    TokenisersAgree(before, 0, sep, after, starts, two[..], strs[..numstrs]);
  }
}
