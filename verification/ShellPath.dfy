/**
 The command interpreter's idea of the current directory: a path string that ends in a slash
 and the cached position of the last slash before that one.
 */
module ShellPath {
  import opened CStrings
  import T = Tokenizer

  const SIZE: nat := 255

  /** Position of the last slash, 0 if there is none: what `find_last_slesh` returns. */
  function LastSlash(s: string): nat {
    if s == [] then 0
    else if s[|s| - 1] == '/' then |s| - 1
    else LastSlash(s[..|s| - 1])
  }

  datatype Cwd = Cwd(path: string, poz: nat)

  /** `main` before its loop: the working directory with a slash put after it. */
  function Start(dir: string): Cwd {
    Cwd(dir + "/", LastSlash(dir))
  }

  /** `cd word`, with the answer `opendir` gives: cut at the cached slash, or append the word. */
  function Cd(c: Cwd, word: string, exists_: bool): Cwd
    requires c.poz <= |c.path|
  {
    if word == ".." then Start(c.path[..c.poz])
    else if exists_ then Start(c.path + word)
    else c
  }

  // ----- The component stack

  predicate Components(cs: seq<string>) {
    forall i :: 0 <= i < |cs| ==> '/' !in cs[i]
  }

  /** Each component preceded by a slash. */
  function Slashed(cs: seq<string>): string {
    if cs == [] then [] else "/" + cs[0] + Slashed(cs[1..])
  }

  function Pop(cs: seq<string>): seq<string> {
    if cs == [] then [] else cs[..|cs| - 1]
  }

  /** The path spells the stack, and the cached position is that of the top component's slash. */
  ghost predicate Represents(c: Cwd, cs: seq<string>) {
    && Components(cs)
    && c.path == Slashed(cs) + "/"
    && c.poz == |Slashed(Pop(cs))| <= |c.path|
  }

  /** What `cd` means on the stack: a word may push several components at once. */
  function CdStack(cs: seq<string>, word: string, exists_: bool): seq<string> {
    if word == ".." then Pop(cs)
    else if exists_ then cs + T.Split(word, '/')
    else cs
  }

  lemma {:induction false} SlashedAppend(cs: seq<string>, ds: seq<string>)
    ensures Slashed(cs + ds) == Slashed(cs) + Slashed(ds)
  {
    if cs == [] {
      assert cs + ds == ds;
    } else {
      assert (cs + ds)[1..] == cs[1..] + ds;
      SlashedAppend(cs[1..], ds);
    }
  }

  lemma SlashedTop(cs: seq<string>)
    requires cs != []
    ensures Slashed(cs) == Slashed(Pop(cs)) + ("/" + cs[|cs| - 1])
  {
    var top := cs[|cs| - 1];
    assert cs == Pop(cs) + [top];
    SlashedAppend(Pop(cs), [top]);
    SlashedOne(top);
  }

  lemma SlashedOne(c: string)
    ensures Slashed([c]) == "/" + c
  {
    assert [c][1..] == [];
    assert Slashed([c]) == "/" + c + Slashed([]);
  }

  lemma {:induction false} SlashedJoins(ps: seq<string>)
    requires |ps| >= 1
    ensures Slashed(ps) == "/" + T.Join(ps, '/')
  {
    if |ps| == 1 {
      assert ps[1..] == [];
    } else {
      SlashedJoins(ps[1..]);
    }
  }

  lemma {:induction false} LastSlashBeforeName(q: string, w: string)
    requires '/' !in w
    ensures LastSlash(q + ("/" + w)) == |q|
    decreases |w|
  {
    var s := q + ("/" + w);
    if w == [] {
      assert s[|s| - 1] == '/';
    } else {
      assert s[|s| - 1] == w[|w| - 1];
      assert s[..|s| - 1] == q + ("/" + w[..|w| - 1]);
      LastSlashBeforeName(q, w[..|w| - 1]);
    }
  }

  /** Whatever the stack, looking for the last slash of its spelling finds the top component's slash. */
  lemma StartRepresents(cs: seq<string>)
    requires Components(cs)
    ensures Represents(Start(Slashed(cs)), cs)
  {
    if cs != [] {
      SlashedTop(cs);
      LastSlashBeforeName(Slashed(Pop(cs)), cs[|cs| - 1]);
    }
  }

  /** Any absolute working directory is a stack to begin with; the root is the stack of one empty component. */
  lemma AbsoluteStartRepresents(rest: string)
    ensures Represents(Start("/" + rest), T.Split(rest, '/'))
  {
    T.SplitIsASplit(rest, '/');
    SlashedJoins(T.Split(rest, '/'));
    StartRepresents(T.Split(rest, '/'));
  }

  /** One `cd` on the strings is one `cd` on the stack; popping the empty stack changes nothing. */
  lemma CdRefines(c: Cwd, cs: seq<string>, word: string, exists_: bool)
    requires Represents(c, cs)
    ensures Represents(Cd(c, word, exists_), CdStack(cs, word, exists_))
  {
    if cs == [] {
      assert Slashed(Pop(cs)) == [];
    } else {
      SlashedTop(cs);
      assert c.path[..c.poz] == Slashed(Pop(cs));
    }
    if word == ".." {
      assert c.path[..c.poz] == Slashed(Pop(cs));
      StartRepresents(Pop(cs));
    } else if exists_ {
      var ps := T.Split(word, '/');
      T.SplitIsASplit(word, '/');
      SlashedJoins(ps);
      SlashedAppend(cs, ps);
      assert c.path + word == Slashed(cs + ps);
      StartRepresents(cs + ps);
    }
  }

  /** What one `cd` does to the path itself: `..` takes the last name and its slash off, the root stays. */
  lemma CdOnPath(c: Cwd, cs: seq<string>, word: string, exists_: bool)
    requires Represents(c, cs)
    ensures var next := Cd(c, word, exists_).path;
            if word == ".." then
              (c.path == "/" == next || exists top :: '/' !in top && c.path == next + (top + "/"))
            else next == c.path + if exists_ then word + "/" else ""
  {
    var next := Cd(c, word, exists_).path;
    if word == ".." && cs != [] {
      var top := cs[|cs| - 1];
      SlashedTop(cs);
      CdRefines(c, cs, word, exists_);
      assert c.path == next + (top + "/");
    }
  }

  datatype Command = Command(word: string, exists_: bool)

  function CdStacks(cs: seq<string>, cmds: seq<Command>): seq<string>
    decreases |cmds|
  {
    if cmds == [] then cs else CdStacks(CdStack(cs, cmds[0].word, cmds[0].exists_), cmds[1..])
  }

  /** A whole session of `cd` commands. */
  ghost predicate Session(c: Cwd, cmds: seq<Command>, final: Cwd)
    decreases |cmds|
  {
    if cmds == [] then final == c
    else c.poz <= |c.path| && Session(Cd(c, cmds[0].word, cmds[0].exists_), cmds[1..], final)
  }

  /** Every session can be run, and it ends in the state that spells the stack's final value. */
  lemma {:induction false} SessionsRefine(c: Cwd, cs: seq<string>, cmds: seq<Command>)
    requires Represents(c, cs)
    ensures exists final :: Session(c, cmds, final) && Represents(final, CdStacks(cs, cmds))
    decreases |cmds|
  {
    if cmds == [] {
      assert Session(c, cmds, c);
    } else {
      var next := CdStack(cs, cmds[0].word, cmds[0].exists_);
      CdRefines(c, cs, cmds[0].word, cmds[0].exists_);
      SessionsRefine(Cd(c, cmds[0].word, cmds[0].exists_), next, cmds[1..]);
      var final :| Session(Cd(c, cmds[0].word, cmds[0].exists_), cmds[1..], final)
                   && Represents(final, CdStacks(next, cmds[1..]));
      assert Session(c, cmds, final);
    }
  }

  /** A state spells at most one stack. */
  lemma RepresentsIsInjective(c: Cwd, cs: seq<string>, ds: seq<string>)
    requires Represents(c, cs) && Represents(c, ds)
    ensures cs == ds
  {
    assert Slashed(cs) == c.path[..|c.path| - 1] == Slashed(ds);
    if cs != [] && ds != [] {
      SlashedJoins(cs);
      SlashedJoins(ds);
      assert T.Join(cs, '/') == Slashed(cs)[1..] == T.Join(ds, '/');
      T.SplitIsTheOnlySplit(cs, '/');
      T.SplitIsTheOnlySplit(ds, '/');
    }
  }

  /** `cd ..` undoes a successful `cd word` exactly when the word is a single component. */
  lemma CdUpUndoesIff(c: Cwd, cs: seq<string>, word: string, b: bool)
    requires Represents(c, cs) && word != ".."
    ensures var d := Cd(c, word, true);
            d.poz <= |d.path| && (Cd(d, "..", b) == c <==> '/' !in word)
  {
    var d, ps := Cd(c, word, true), T.Split(word, '/');
    CdRefines(c, cs, word, true);
    CdRefines(d, cs + ps, "..", b);
    T.SplitIsASplit(word, '/');
    T.OccurrencesOfClean(word, '/');
    var e := Cd(d, "..", b);
    if '/' !in word {
      assert Pop(cs + ps) == cs;
    } else if e == c {
      RepresentsIsInjective(c, cs, Pop(cs + ps));
    }
  }

  // ----- The interpreter's buffers

  /** `strcpy` of the whole string `t` to the front of the buffer. */
  method StrCpy(buf: array<char>, t: string)
    requires NUL !in t && |t| < buf.Length
    modifies buf
    ensures Holds(buf[..], 0, t)
  {
    forall k | 0 <= k < |t| {
      buf[k] := t[k];
    }
    buf[|t|] := NUL;
    assert buf[..][0..|t|] == t;
  }

  /** `strcat`: append `t` at the terminator of the string `s` the buffer holds. */
  method StrCat(buf: array<char>, ghost s: string, t: string)
    requires Holds(buf[..], 0, s)
    requires NUL !in t && |s| + |t| < buf.Length
    modifies buf
    ensures Holds(buf[..], 0, s + t)
  {
    HoldsReads(buf[..], 0, s);
    var len := |CStr(buf[..], 0)|;
    ghost var before := buf[..];
    forall k | 0 <= k < |t| {
      buf[len + k] := t[k];
    }
    buf[len + |t|] := NUL;
    assert buf[..len] == before[..len] == s;
    assert buf[..][0..|s + t|] == s + t;
  }

  /** `find_last_slesh` */
  method FindLastSlesh(str: array<char>, ghost s: string) returns (poz: nat)
    requires Holds(str[..], 0, s)
    ensures poz == LastSlash(s)
  {
    HoldsReads(str[..], 0, s);
    var len := |CStr(str[..], 0)|;
    poz := 0;
    var i := 0;
    assert s[..0] == [];
    while i < len
      invariant 0 <= i <= len
      invariant poz == LastSlash(s[..i])
    {
      assert str[i] == str[..][0..|s|][i] == s[i];
      assert s[..i + 1][..i] == s[..i];
      if str[i] == '/' {
        poz := i;
      }
      i := i + 1;
    }
    assert s[..len] == s;
  }

  class Shell {
    const path: array<char>
    var pozOfSlesh: nat
    ghost var cwd: Cwd

    ghost predicate Valid()
      reads this, path
    {
      path.Length == SIZE && Holds(path[..], 0, cwd.path) && cwd.poz == pozOfSlesh < |cwd.path|
    }

    /** `getcwd`, then the slash; the directory and its slash fit the buffer. */
    constructor (dir: string)
      requires NUL !in dir && |dir| + 1 < SIZE
      ensures Valid() && fresh(path) && cwd == Start(dir)
    {
      path := new char[SIZE];
      new;
      cwd := Start(dir);
      StrCpy(path, dir);
      pozOfSlesh := FindLastSlesh(path, dir);
      LastSlashInside(dir);
      StrCat(path, dir, "/");
    }

    /** Appending the word must stay inside the buffer, and so must the slash if the directory is entered. */
    ghost predicate RoomFor(word: string, found: bool)
      reads this
    {
      word == ".." || |cwd.path| + |word| + (if found then 1 else 0) < SIZE
    }

    /** The `cd` branch of `main`: `word` is the second token, `found` whether `opendir` succeeds. */
    method ChangeDir(word: string, found: bool)
      requires Valid()
      requires NUL !in word && RoomFor(word, found)
      modifies this, path
      ensures Valid() && cwd == Cd(old(cwd), word, found)
    {
      ghost var c := cwd;
      HoldsReads(path[..], 0, c.path);
      var tmpPath := new char[SIZE];
      StrCpy(tmpPath, CStr(path[..], 0));
      StrCmpZeroIsEquality(word, "..");
      if StrCmp(word, "..") == 0 {
        path[pozOfSlesh] := NUL;
        ghost var cut := c.path[..c.poz];
        assert path[..][0..|cut|] == cut;
        pozOfSlesh := FindLastSlesh(path, cut);
        LastSlashInside(cut);
        StrCat(path, cut, "/");
        cwd := Start(cut);
      } else {
        StrCat(tmpPath, c.path, word);
        if found {
          ghost var longer := c.path + word;
          HoldsReads(tmpPath[..], 0, longer);
          StrCpy(path, CStr(tmpPath[..], 0));
          pozOfSlesh := FindLastSlesh(path, longer);
          LastSlashInside(longer);
          StrCat(path, longer, "/");
          cwd := Start(longer);
        }
      }
    }

    /** A command line with at least one space: tokenise it in place and obey `cd`. */
    method Interpret(comand: array<char>, found: bool)
      requires Valid() && comand != path && comand.Length <= SIZE
      requires Terminated(comand[..], 0)
      requires var ps := T.Split(CStr(comand[..], 0), ' ');
               |ps| >= 2 && ps[0] == "cd" ==> RoomFor(ps[1], found)
      modifies this, path, comand
      ensures Valid()
      ensures var ps := old(T.Split(CStr(comand[..], 0), ' '));
              cwd == if |ps| >= 2 && ps[0] == "cd" then Cd(old(cwd), ps[1], found) else old(cwd)
    {
      var words := new nat[SIZE];
      TokensFit(comand[..]);
      var n := T.StokByIndex(comand, ' ', words);
      if n != 1 {
        StrCmpZeroIsEquality(CStr(comand[..], words[0]), "cd");
        if StrCmp(CStr(comand[..], words[0]), "cd") == 0 {
          ChangeDir(CStr(comand[..], words[1]), found);
        }
      }
    }
  }

  lemma {:induction false} LastSlashInside(s: string)
    ensures LastSlash(s) <= |s|
  {
    if s != [] {
      LastSlashInside(s[..|s| - 1]);
    }
  }

  /** A command that fits its buffer never has more tokens than the 255 pointers reserved for them. */
  lemma TokensFit(comand: seq<char>)
    requires Terminated(comand, 0) && |comand| <= SIZE
    ensures |T.Split(CStr(comand, 0), ' ')| <= SIZE
  {
    var s := CStr(comand, 0);
    TerminatedHolds(comand, 0);
    T.SplitIsASplit(s, ' ');
    OccurrencesAtMost(s, ' ');
  }

  lemma {:induction false} OccurrencesAtMost(s: string, c: char)
    ensures T.Occurrences(s, c) <= |s|
  {
    if s != [] {
      OccurrencesAtMost(s[1..], c);
    }
  }
}
