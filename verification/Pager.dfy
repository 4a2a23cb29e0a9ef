/**
 The two-pane file manager: a cursor row, and for each pane a list of names, the absolute
 index of the selected one, a path, and a window of at most thirty lines.
 */
module Pager {

  const PAGE: int := 30

  /** A printed name, with the path whose `opendir` chose its colour. */
  datatype Line = Line(name: string, probe: string)

  /** `str[1..poz]` are the names; index 0 is not used. `window` is what was last printed. */
  datatype Pane = Pane(poz: int, local: int, str: seq<string>, path: string, window: seq<Line>)

  datatype Screen = Screen(row: int, side: int, list: seq<Pane>)

  /** Keys, with what the file system answers: a directory's names, or the names of both panes after a file was run. */
  datatype Key =
    | Tab
    | Up
    | Down
    | EnterDirectory(names: seq<string>)
    | OpenFile(names0: seq<string>, names1: seq<string>)
    | OtherKey

  function Min(a: int, b: int): int {
    if a < b then a else b
  }

  // ----- What is drawn

  /** The lines printed for the indices `from` to `to - 1`; all of them are names of the listing. */
  function Draw(p: Pane, from: int, to: int): (w: seq<Line>)
    requires 1 <= from <= to <= p.poz <= |p.str|
    ensures |w| == to - from
  {
    seq(to - from, i requires 0 <= i < to - from => Line(p.str[from + i], p.path + p.str[from + i]))
  }

  /** The pane listing `names`, selected and drawn from the first. */
  function Listed(p: Pane, path: string, names: seq<string>): Pane
    requires |p.str| >= 1
  {
    var q := Pane(|names| + 1, 1, FillNames(p.str, names), path, []);
    q.(window := Draw(q, 1, Min(q.poz, PAGE + 1)))
  }

  /** The names go to places 1, 2, ...; whatever stood beyond them stays. */
  function FillNames(str: seq<string>, names: seq<string>): (r: seq<string>)
    requires |str| >= 1
    ensures |r| >= |names| + 1
    ensures r[1..|names| + 1] == names
  {
    [str[0]] + names + if |str| > |names| + 1 then str[|names| + 1..] else []
  }

  // ----- Well-formed screens

  /** A listing with at least one name, and the selected name inside it. */
  predicate PaneOk(p: Pane) {
    1 <= p.local <= p.poz - 1 && p.poz <= |p.str|
  }

  /** Both panes are in range, and the cursor row is that of the active pane's selected name on its page. */
  predicate ScreenOk(s: Screen) {
    && 0 <= s.side <= 1 && |s.list| == 2
    && PaneOk(s.list[0]) && PaneOk(s.list[1])
    && s.row == (s.list[s.side].local - 1) % PAGE + 1
  }

  predicate KeyOk(k: Key) {
    && (k.EnterDirectory? ==> k.names != [])
    && (k.OpenFile? ==> k.names0 != [] && k.names1 != [])
  }

  // ----- The key loop

  function Active(s: Screen): Pane
    requires ScreenOk(s)
  {
    s.list[s.side]
  }

  function SetActive(s: Screen, row: int, p: Pane): Screen
    requires 0 <= s.side < |s.list|
  {
    Screen(row, s.side, s.list[s.side := p])
  }

  function PressTab(s: Screen): Screen
    requires ScreenOk(s)
  {
    var other := 1 - s.side;
    Screen(1, other, s.list[other := s.list[other].(local := 1)])
  }

  function PressUp(s: Screen): Screen
    requires ScreenOk(s)
  {
    var p := Active(s);
    if s.row > 1 then SetActive(s, s.row - 1, p.(local := p.local - 1))
    else if p.local > 1 then SetActive(s, PAGE, p.(window := Draw(p, p.local - PAGE, p.local), local := p.local - 1))
    else s
  }

  function PressDown(s: Screen): Screen
    requires ScreenOk(s)
  {
    var p := Active(s);
    if p.poz - 1 < PAGE then
      if s.row < p.poz - 1 then SetActive(s, s.row + 1, p.(local := p.local + 1)) else s
    else if s.row < PAGE && p.local < p.poz - 1 then SetActive(s, s.row + 1, p.(local := p.local + 1))
    else if p.local < p.poz - 1 then
      var q := p.(local := p.local + 1);
      SetActive(s, 1, q.(window := Draw(q, q.local, Min(q.poz, q.local + PAGE))))
    else s
  }

  function PressEnter(s: Screen, names: seq<string>): Screen
    requires ScreenOk(s)
  {
    var p := Active(s);
    SetActive(s, 1, Listed(p, p.path + p.str[p.local] + "/", names))
  }

  /** The file is run or edited; then both panes are listed again from their unchanged paths. */
  function Relist(s: Screen, names0: seq<string>, names1: seq<string>): Screen
    requires ScreenOk(s)
  {
    Screen(1, s.side, [Listed(s.list[0], s.list[0].path, names0), Listed(s.list[1], s.list[1].path, names1)])
  }

  function Press(s: Screen, k: Key): Screen
    requires ScreenOk(s)
  {
    match k
    case Tab => PressTab(s)
    case Up => PressUp(s)
    case Down => PressDown(s)
    case EnterDirectory(names) => PressEnter(s, names)
    case OpenFile(names0, names1) => Relist(s, names0, names1)
    case OtherKey => s
  }

  lemma NeighbourRows(local: int)
    ensures local % PAGE == if (local - 1) % PAGE + 1 < PAGE then (local - 1) % PAGE + 1 else 0
  {
  }

  lemma UpKeepsScreen(s: Screen)
    requires ScreenOk(s)
    ensures ScreenOk(PressUp(s))
  {
    NeighbourRows(Active(s).local - 1);
  }

  lemma DownKeepsScreen(s: Screen)
    requires ScreenOk(s)
    ensures ScreenOk(PressDown(s))
  {
    NeighbourRows(Active(s).local);
  }

  lemma EnterKeepsScreen(s: Screen, names: seq<string>)
    requires ScreenOk(s) && names != []
    ensures ScreenOk(PressEnter(s, names))
  {
  }

  lemma RelistKeepsScreen(s: Screen, names0: seq<string>, names1: seq<string>)
    requires ScreenOk(s) && names0 != [] && names1 != []
    ensures ScreenOk(Relist(s, names0, names1))
  {
  }

  /** What a well-formed screen means for the active pane. */
  lemma RowOnPage(s: Screen)
    requires ScreenOk(s)
    ensures 1 <= s.row <= 30 && Active(s).local == 30 * ((Active(s).local - 1) / 30) + s.row
  {
  }

  /**
   Every key keeps both selected names inside their listings and the row in step with the
   active one: local = 30 * page + row with 1 <= row <= 30. All redraws stay inside the listing,
   which `Draw` demands.
   */
  lemma PressKeepsScreen(s: Screen, k: Key)
    requires ScreenOk(s) && KeyOk(k)
    ensures ScreenOk(Press(s, k))
    ensures var t := Press(s, k);
            1 <= t.row <= 30 && Active(t).local == 30 * ((Active(t).local - 1) / 30) + t.row
  {
    match k {
      case Up => UpKeepsScreen(s);
      case Down => DownKeepsScreen(s);
      case EnterDirectory(names) => EnterKeepsScreen(s, names);
      case OpenFile(names0, names1) => RelistKeepsScreen(s, names0, names1);
      case _ =>
    }
    RowOnPage(Press(s, k));
  }

  /** Whole key sequences; the screen stays well-formed throughout. */
  function PressAll(s: Screen, keys: seq<Key>): (t: Screen)
    requires ScreenOk(s) && forall k :: k in keys ==> KeyOk(k)
    ensures ScreenOk(t)
    decreases |keys|
  {
    if keys == [] then s
    else
      PressKeepsScreen(s, keys[0]);
      PressAll(Press(s, keys[0]), keys[1..])
  }

  /**
   What a key leaves alone: only Tab changes the active side, only Tab and running a file touch
   the other pane, and redraws give the path back as they found it. Enter on a directory
   extends the path by the selected name and a slash and replaces the listing.
   */
  lemma PressFrame(s: Screen, k: Key)
    requires ScreenOk(s) && KeyOk(k)
    ensures ScreenOk(Press(s, k))
    ensures Press(s, k).side != s.side <==> k.Tab?
    ensures !k.Tab? && !k.OpenFile? ==> Press(s, k).list[1 - s.side] == s.list[1 - s.side]
    ensures forall i :: 0 <= i < 2 && !(k.EnterDirectory? && i == s.side) ==>
              Press(s, k).list[i].path == s.list[i].path
              && (k.OpenFile? || Press(s, k).list[i] == s.list[i].(local := Press(s, k).list[i].local,
                                                                   window := Press(s, k).list[i].window))
    ensures k.EnterDirectory? ==>
              Active(Press(s, k)).path == Active(s).path + Active(s).str[Active(s).local] + "/"
              && Active(Press(s, k)).str[1..Active(Press(s, k)).poz] == k.names
  {
    PressKeepsScreen(s, k);
  }

  /**
   What a key selects: Down and Up the next and the previous name, and at the last and the
   first name the screen stays as it is; Tab, a directory and a file that was run select the
   first name.
   */
  lemma PressSelects(s: Screen, k: Key)
    requires ScreenOk(s) && KeyOk(k)
    ensures ScreenOk(Press(s, k))
    ensures k.Down? && Active(s).local < Active(s).poz - 1 ==> Active(Press(s, k)).local == Active(s).local + 1
    ensures k.Down? && Active(s).local == Active(s).poz - 1 ==> Press(s, k) == s
    ensures k.Up? && Active(s).local > 1 ==> Active(Press(s, k)).local == Active(s).local - 1
    ensures k.Up? && Active(s).local == 1 ==> Press(s, k) == s
    ensures k.Tab? ==> Active(Press(s, k)).local == 1 && Press(s, k).list[s.side] == s.list[s.side]
    ensures k.EnterDirectory? ==> Active(Press(s, k)).local == 1
    ensures k.OpenFile? ==> forall i :: 0 <= i < 2 ==>
              var p := Press(s, k).list[i];
              p.local == 1 && p.str[1..p.poz] == if i == 0 then k.names0 else k.names1
    ensures k.OtherKey? ==> Press(s, k) == s
    ensures k.Tab? || k.EnterDirectory? || k.OpenFile? ==> Press(s, k).row == 1
  {
    PressKeepsScreen(s, k);
  }

  // ----- Whether the window shows what is selected

  function PageOf(p: Pane): int {
    (p.local - 1) / PAGE
  }

  function PageLines(p: Pane, q: int): seq<Line>
    requires PaneOk(p) && 0 <= q && PAGE * q + 1 <= p.poz
  {
    Draw(p, PAGE * q + 1, Min(p.poz, PAGE * q + 1 + PAGE))
  }

  /** The window holds the page of the selected name. */
  ghost predicate InStep(p: Pane) {
    PaneOk(p) && p.window == PageLines(p, PageOf(p))
  }

  ghost predicate Distinct(p: Pane) {
    PaneOk(p) && forall i, j :: 1 <= i < j < p.poz ==> p.str[i] != p.str[j]
  }

  ghost predicate DistinctNames(names: seq<string>) {
    forall i, j :: 0 <= i < j < |names| ==> names[i] != names[j]
  }

  /** In step means what the user sees: the line under the cursor is the selected name. */
  lemma InStepShowsSelected(s: Screen)
    requires ScreenOk(s) && InStep(Active(s))
    ensures var p := Active(s);
            s.row <= |p.window| && p.window[s.row - 1] == Line(p.str[p.local], p.path + p.str[p.local])
  {
  }

  lemma ListedIsInStep(p: Pane, path: string, names: seq<string>)
    requires |p.str| >= 1 && names != []
    ensures InStep(Listed(p, path, names))
  {
  }

  /** The window holds page `q`, whichever name is selected. */
  ghost predicate Shows(p: Pane, q: int) {
    PaneOk(p) && 0 <= q && PAGE * q + 1 < p.poz && p.window == PageLines(p, q)
  }

  /** With page `q` in the window, the cursor is on the selected name exactly if that name is on page `q`. */
  lemma CursorOnSelectedIff(s: Screen, q: int)
    requires ScreenOk(s) && Distinct(Active(s)) && Shows(Active(s), q)
    ensures var p := Active(s);
            s.row <= |p.window| && p.window[s.row - 1].name == p.str[p.local] <==> q == PageOf(p)
  {
    var p := Active(s);
    if s.row <= |p.window| {
      assert p.window[s.row - 1].name == p.str[PAGE * q + s.row];
    }
  }

  ghost predicate BothShowPages(s: Screen) {
    && ScreenOk(s)
    && (exists q :: Shows(s.list[0], q))
    && (exists q :: Shows(s.list[1], q))
  }

  lemma InStepShows(p: Pane)
    requires InStep(p)
    ensures Shows(p, PageOf(p))
  {
  }

  lemma ReselectedShows(p: Pane, q: Pane, page: int)
    requires Shows(p, page) && PaneOk(q)
    requires p.poz == q.poz && p.str == q.str && p.path == q.path && p.window == q.window
    ensures Shows(q, page)
  {
    SameListingSameLines(p, q, page);
  }

  /** A redraw over a page boundary always leaves the pane in step. */
  lemma UpRedrawInStep(s: Screen)
    requires ScreenOk(s) && s.row == 1 && Active(s).local > 1
    ensures ScreenOk(PressUp(s)) && InStep(Active(PressUp(s)))
  {
    UpKeepsScreen(s);
    var p, q := Active(s), Active(PressUp(s));
    assert PageOf(q) == PageOf(p) - 1 && PAGE * PageOf(q) + 1 == p.local - PAGE;
  }

  lemma DownRedrawInStep(s: Screen)
    requires ScreenOk(s) && s.row == PAGE && Active(s).local < Active(s).poz - 1
    ensures ScreenOk(PressDown(s)) && InStep(Active(PressDown(s)))
  {
    DownKeepsScreen(s);
    var p, q := Active(s), Active(PressDown(s));
    assert PageOf(q) == PageOf(p) + 1 && PAGE * PageOf(q) + 1 == q.local;
  }

  lemma ScrollKeepsPage(s: Screen, k: Key, q: int)
    requires ScreenOk(s) && (k.Up? || k.Down?) && Shows(Active(s), q)
    ensures ScreenOk(Press(s, k)) && exists q' :: Shows(Active(Press(s, k)), q')
  {
    PressKeepsScreen(s, k);
    var p, t := Active(s), Active(Press(s, k));
    if k.Up? && s.row == 1 && p.local > 1 {
      UpRedrawInStep(s);
      InStepShows(t);
    } else if k.Down? && s.row == PAGE && p.local < p.poz - 1 {
      DownRedrawInStep(s);
      InStepShows(t);
    } else {
      ReselectedShows(p, t, q);
    }
  }

  /** Whatever the keys, a window always holds one whole page of its current listing. */
  lemma PressKeepsPages(s: Screen, k: Key)
    requires BothShowPages(s) && KeyOk(k)
    ensures BothShowPages(Press(s, k))
  {
    PressKeepsScreen(s, k);
    var q :| Shows(Active(s), q);
    var o :| Shows(s.list[1 - s.side], o);
    match k
    case Tab => ReselectedShows(s.list[1 - s.side], Active(PressTab(s)), o);
    case EnterDirectory(names) =>
      ListedIsInStep(Active(s), Active(s).path + Active(s).str[Active(s).local] + "/", names);
      InStepShows(Active(Press(s, k)));
    case OpenFile(names0, names1) =>
      ListedIsInStep(s.list[0], s.list[0].path, names0);
      ListedIsInStep(s.list[1], s.list[1].path, names1);
      InStepShows(Press(s, k).list[0]);
      InStepShows(Press(s, k).list[1]);
    case OtherKey =>
    case _ => ScrollKeepsPage(s, k, q);
  }

  ghost predicate BothInStep(s: Screen) {
    ScreenOk(s) && InStep(s.list[0]) && InStep(s.list[1]) && Distinct(s.list[0]) && Distinct(s.list[1])
  }

  lemma OtherPageDiffers(p: Pane, q: int)
    requires Distinct(p) && 0 < q && PAGE * q + 1 < p.poz
    ensures PageLines(p, q) != PageLines(p, 0)
  {
    assert PageLines(p, q)[0].name == p.str[PAGE * q + 1];
    assert PageLines(p, 0)[0].name == p.str[1];
  }

  ghost predicate KeyDistinct(k: Key) {
    && (k.EnterDirectory? ==> DistinctNames(k.names))
    && (k.OpenFile? ==> DistinctNames(k.names0) && DistinctNames(k.names1))
  }

  lemma ListedInStep(p: Pane, path: string, names: seq<string>)
    requires |p.str| >= 1 && names != [] && DistinctNames(names)
    ensures InStep(Listed(p, path, names)) && Distinct(Listed(p, path, names))
  {
    var q := Listed(p, path, names);
    assert forall i :: 1 <= i < q.poz ==> q.str[i] == q.str[1..|names| + 1][i - 1];
  }

  /** What is drawn depends on the listing only, not on the selection. */
  lemma SameListingSameLines(p: Pane, q: Pane, page: int)
    requires PaneOk(p) && PaneOk(q) && 0 <= page && PAGE * page + 1 <= p.poz
    requires p.poz == q.poz && p.str == q.str && p.path == q.path
    ensures PageLines(p, page) == PageLines(q, page)
  {
  }

  // ----- Exactly when a key leaves the active pane in step

  /** The keys that print the active window anew: a listing, or Up and Down over a page boundary. */
  predicate Redraws(s: Screen, k: Key)
    requires ScreenOk(s)
  {
    || k.EnterDirectory? || k.OpenFile?
    || (k.Up? && s.row == 1 && Active(s).local > 1)
    || (k.Down? && s.row == PAGE && Active(s).local < Active(s).poz - 1)
  }

  /** Tab would enter a pane whose window holds its first page. */
  predicate OtherOnFirstPage(s: Screen)
    requires ScreenOk(s)
  {
    s.list[1 - s.side].window == PageLines(s.list[1 - s.side], 0)
  }

  lemma RedrawInStep(s: Screen, k: Key)
    requires ScreenOk(s) && KeyOk(k) && Redraws(s, k)
    ensures ScreenOk(Press(s, k)) && InStep(Active(Press(s, k)))
  {
    PressKeepsScreen(s, k);
    match k
    case Up => UpRedrawInStep(s);
    case Down => DownRedrawInStep(s);
    case EnterDirectory(names) => ListedIsInStep(Active(s), Active(s).path + Active(s).str[Active(s).local] + "/", names);
    case OpenFile(names0, names1) =>
      ListedIsInStep(Active(s), Active(s).path, if s.side == 0 then names0 else names1);
  }

  /** No window changes but by a redraw, and running a file leaves both in step. */
  lemma PressWindows(s: Screen, k: Key)
    requires ScreenOk(s) && KeyOk(k)
    ensures ScreenOk(Press(s, k))
    ensures !Redraws(s, k) ==> forall i :: 0 <= i < 2 ==> Press(s, k).list[i].window == s.list[i].window
    ensures k.OpenFile? ==> forall i :: 0 <= i < 2 ==> InStep(Press(s, k).list[i])
  {
    PressKeepsScreen(s, k);
    if k.OpenFile? {
      ListedIsInStep(s.list[0], s.list[0].path, k.names0);
      ListedIsInStep(s.list[1], s.list[1].path, k.names1);
    }
  }

  lemma MoveKeepsInStep(s: Screen, k: Key)
    requires ScreenOk(s) && KeyOk(k) && !k.Tab? && !Redraws(s, k)
    ensures ScreenOk(Press(s, k))
    ensures InStep(Active(Press(s, k))) <==> InStep(Active(s))
  {
    PressKeepsScreen(s, k);
    var p, q := Active(s), Active(Press(s, k));
    assert PageOf(q) == PageOf(p);
    SameListingSameLines(p, q, PageOf(p));
  }

  lemma TabInStepIff(s: Screen)
    requires ScreenOk(s)
    ensures ScreenOk(PressTab(s))
    ensures InStep(Active(PressTab(s))) <==> OtherOnFirstPage(s)
  {
    PressKeepsScreen(s, Tab);
    SameListingSameLines(s.list[1 - s.side], Active(PressTab(s)), 0);
  }

  /** The state of the active window after any key, from any screen, in step or not. */
  lemma ActiveInStepIff(s: Screen, k: Key)
    requires ScreenOk(s) && KeyOk(k)
    ensures ScreenOk(Press(s, k))
    ensures InStep(Active(Press(s, k))) <==>
            if k.Tab? then OtherOnFirstPage(s) else Redraws(s, k) || InStep(Active(s))
  {
    if k.Tab? {
      TabInStepIff(s);
    } else if Redraws(s, k) {
      RedrawInStep(s, k);
    } else {
      MoveKeepsInStep(s, k);
    }
  }

  /** No key of the run is a Tab or a redraw. */
  predicate OnlyMoves(s: Screen, keys: seq<Key>)
    requires ScreenOk(s) && forall k :: k in keys ==> KeyOk(k)
    decreases |keys|
  {
    keys == [] ||
    (!keys[0].Tab? && !Redraws(s, keys[0]) && OnlyMoves(PressAll(s, [keys[0]]), keys[1..]))
  }

  lemma PressAllOne(s: Screen, k: Key)
    requires ScreenOk(s) && KeyOk(k)
    ensures PressAll(s, [k]) == Press(s, k)
  {
    PressKeepsScreen(s, k);
    assert [k][1..] == [];
  }

  lemma {:induction false} MovesKeepInStep(s: Screen, keys: seq<Key>)
    requires ScreenOk(s) && forall k :: k in keys ==> KeyOk(k)
    requires OnlyMoves(s, keys)
    ensures InStep(Active(PressAll(s, keys))) <==> InStep(Active(s))
    decreases |keys|
  {
    if keys != [] {
      PressAllOne(s, keys[0]);
      MoveKeepsInStep(s, keys[0]);
      MovesKeepInStep(Press(s, keys[0]), keys[1..]);
    }
  }

  lemma {:induction false} PressAllAppend(s: Screen, a: seq<Key>, b: seq<Key>)
    requires ScreenOk(s) && (forall k :: k in a ==> KeyOk(k)) && (forall k :: k in b ==> KeyOk(k))
    ensures PressAll(s, a + b) == PressAll(PressAll(s, a), b)
    decreases |a|
  {
    if a == [] {
      assert a + b == b;
    } else {
      assert (a + b)[1..] == a[1..] + b;
      PressKeepsScreen(s, a[0]);
      PressAllAppend(Press(s, a[0]), a[1..], b);
    }
  }

  /**
   After a whole run the active window is in step exactly if the last Tab or redraw in it was a
   redraw, or a Tab into a pane showing its first page. `MovesKeepInStep` is the case of none.
   */
  lemma RunEndsInStepIff(s: Screen, before: seq<Key>, k: Key, after: seq<Key>)
    requires ScreenOk(s)
    requires forall key :: key in before || key == k || key in after ==> KeyOk(key)
    requires var t := PressAll(s, before);
             (k.Tab? || Redraws(t, k)) && OnlyMoves(PressAll(t, [k]), after)
    ensures var t := PressAll(s, before);
            InStep(Active(PressAll(s, before + ([k] + after)))) <==> Redraws(t, k) || (k.Tab? && OtherOnFirstPage(t))
  {
    var t := PressAll(s, before);
    PressAllAppend(s, before, [k] + after);
    PressAllAppend(t, [k], after);
    PressAllOne(t, k);
    ActiveInStepIff(t, k);
    MovesKeepInStep(Press(t, k), after);
  }

  // ----- Runs in which both panes are always in step

  /** The one key press that breaks the display: tabbing into a pane that was left beyond its first page. */
  predicate TabsIntoScrolled(s: Screen, k: Key)
    requires ScreenOk(s)
  {
    k.Tab? && s.list[1 - s.side].local > PAGE
  }

  lemma TabIntoInStepIff(s: Screen)
    requires BothInStep(s)
    ensures OtherOnFirstPage(s) <==> s.list[1 - s.side].local <= PAGE
  {
    var other := s.list[1 - s.side];
    if other.local > PAGE {
      OtherPageDiffers(other, PageOf(other));
    }
  }

  lemma EnterBothInStep(s: Screen, names: seq<string>)
    requires BothInStep(s) && names != [] && DistinctNames(names)
    ensures BothInStep(PressEnter(s, names))
  {
    EnterKeepsScreen(s, names);
    ListedInStep(Active(s), Active(s).path + Active(s).str[Active(s).local] + "/", names);
  }

  lemma RelistBothInStep(s: Screen, names0: seq<string>, names1: seq<string>)
    requires BothInStep(s) && names0 != [] && names1 != []
    requires DistinctNames(names0) && DistinctNames(names1)
    ensures BothInStep(Relist(s, names0, names1))
  {
    RelistKeepsScreen(s, names0, names1);
    ListedInStep(s.list[0], s.list[0].path, names0);
    ListedInStep(s.list[1], s.list[1].path, names1);
  }

  lemma ScrollBothInStep(s: Screen, k: Key)
    requires BothInStep(s) && (k.Up? || k.Down?)
    ensures ScreenOk(Press(s, k)) && BothInStep(Press(s, k))
  {
    ActiveInStepIff(s, k);
    PressFrame(s, k);
  }

  lemma TabBothInStepIff(s: Screen)
    requires BothInStep(s)
    ensures BothInStep(PressTab(s)) <==> s.list[1 - s.side].local <= PAGE
  {
    TabInStepIff(s);
    TabIntoInStepIff(s);
  }

  /** One key keeps both displays right unless it is that one. */
  lemma PressInStepIff(s: Screen, k: Key)
    requires BothInStep(s) && KeyOk(k) && KeyDistinct(k)
    ensures BothInStep(Press(s, k)) <==> !TabsIntoScrolled(s, k)
  {
    match k
    case Tab => TabBothInStepIff(s);
    case Up => ScrollBothInStep(s, k);
    case Down => ScrollBothInStep(s, k);
    case EnterDirectory(names) => EnterBothInStep(s, names);
    case OpenFile(names0, names1) => RelistBothInStep(s, names0, names1);
    case OtherKey =>
  }

  /** The display is right after every key of the run. */
  ghost predicate StaysInStep(s: Screen, keys: seq<Key>)
    requires ScreenOk(s) && forall k :: k in keys ==> KeyOk(k)
    decreases |keys|
  {
    BothInStep(s) &&
    (keys != [] ==>
       ScreenOk(Press(s, keys[0])) && StaysInStep(Press(s, keys[0]), keys[1..]))
  }

  ghost predicate NeverTabsIntoScrolled(s: Screen, keys: seq<Key>)
    requires ScreenOk(s) && forall k :: k in keys ==> KeyOk(k)
    decreases |keys|
  {
    keys != [] ==>
      !TabsIntoScrolled(s, keys[0]) &&
      ScreenOk(Press(s, keys[0])) && NeverTabsIntoScrolled(Press(s, keys[0]), keys[1..])
  }

  /** Over whole runs: the windows stay right exactly as long as Tab never returns to a scrolled pane. */
  lemma {:induction false} RunInStepIff(s: Screen, keys: seq<Key>)
    requires BothInStep(s)
    requires forall k :: k in keys ==> KeyOk(k) && KeyDistinct(k)
    ensures StaysInStep(s, keys) <==> NeverTabsIntoScrolled(s, keys)
    decreases |keys|
  {
    if keys != [] {
      PressInStepIff(s, keys[0]);
      PressKeepsScreen(s, keys[0]);
      if !TabsIntoScrolled(s, keys[0]) {
        RunInStepIff(Press(s, keys[0]), keys[1..]);
      }
    }
  }

  // ----- Down and Up undo each other

  /** Down then Up restores row, selection, window and path, over page boundaries exactly if the pane was in step. */
  lemma DownThenUpIff(s: Screen)
    requires ScreenOk(s) && Active(s).local < Active(s).poz - 1
    ensures ScreenOk(PressDown(s))
    ensures PressUp(PressDown(s)) == s <==> s.row < PAGE || InStep(Active(s))
  {
    DownKeepsScreen(s);
    var p := Active(s);
    if s.row == PAGE {
      var t := PressDown(s);
      assert Draw(Active(t), Active(t).local - PAGE, Active(t).local) == PageLines(p, PageOf(p));
      assert PressUp(t).list == s.list[s.side := p.(window := PageLines(p, PageOf(p)))];
    } else {
      assert PressUp(PressDown(s)).list == s.list;
    }
  }

  lemma UpThenDownIff(s: Screen)
    requires ScreenOk(s) && Active(s).local > 1
    ensures ScreenOk(PressUp(s))
    ensures PressDown(PressUp(s)) == s <==> s.row > 1 || InStep(Active(s))
  {
    UpKeepsScreen(s);
    var p := Active(s);
    if s.row == 1 {
      var t := PressUp(s);
      var q := Active(t).(local := p.local);
      assert Draw(q, q.local, Min(q.poz, q.local + PAGE)) == PageLines(p, PageOf(p));
      assert PressDown(t).list == s.list[s.side := p.(window := PageLines(p, PageOf(p)))];
    } else {
      assert PressDown(PressUp(s)).list == s.list;
    }
  }

  // ----- The program

  class FileManager {
    var row: int
    var side: int
    var list: seq<Pane>

    ghost function View(): Screen
      reads this
    {
      Screen(row, side, list)
    }

    /** Both windows as first listed, from the names `scandir` finds in both panes' paths. */
    constructor (path: string, names0: seq<string>, names1: seq<string>)
      requires names0 != [] && names1 != []
      ensures ScreenOk(View()) && side == 0
      ensures list[0] == Listed(Pane(1, 1, [""], path, []), path, names0)
      ensures list[1] == Listed(Pane(1, 1, [""], path, []), path, names1)
      ensures DistinctNames(names0) && DistinctNames(names1) ==> BothInStep(View())
    {
      row, side := 1, 0;
      var blank := Pane(1, 1, [""], path, []);
      list := [Listed(blank, path, names0), Listed(blank, path, names1)];
      if DistinctNames(names0) && DistinctNames(names1) {
        ListedInStep(blank, path, names0);
        ListedInStep(blank, path, names1);
      }
    }

    /**
     The redraw loops: clear the window, then for each index append the name to the path, ask
     whether that is a directory, print the name and cut the path back.
     */
    method Redraw(from: int, to: int)
      requires 0 <= side < |list|
      requires 1 <= from <= to <= list[side].poz <= |list[side].str|
      modifies `list
      ensures list == old(list)[side := old(list[side]).(window := Draw(old(list[side]), from, to))]
    {
      ghost var before := list;
      ghost var p := list[side];
      list := list[side := list[side].(window := [])];
      var len := |list[side].path|;
      var i := from;
      while i < to
        invariant from <= i <= to
        invariant list == before[side := p.(window := Draw(p, from, i))]
      {
        var name := list[side].str[i];
        list := list[side := list[side].(path := list[side].path + name)];
        list := list[side := list[side].(window := list[side].window + [Line(name, list[side].path)])];
        list := list[side := list[side].(path := list[side].path[..len])];
        assert p.path == (p.path + name)[..len];
        assert list[side].window == Draw(p, from, i + 1);
        i := i + 1;
      }
    }

    method KeyTab()
      requires ScreenOk(View())
      modifies this
      ensures View() == PressTab(old(View()))
    {
      if side == 0 {
        side := 1;
      } else {
        side := 0;
      }
      row := 1;
      list := list[side := list[side].(local := 1)];
    }

    method KeyUp()
      requires ScreenOk(View())
      modifies this
      ensures View() == PressUp(old(View()))
    {
      if row > 1 {
        row := row - 1;
        list := list[side := list[side].(local := list[side].local - 1)];
      } else if list[side].local > 1 {
        row := PAGE;
        Redraw(list[side].local - PAGE, list[side].local);
        list := list[side := list[side].(local := list[side].local - 1)];
      }
    }

    method KeyDown()
      requires ScreenOk(View())
      modifies this
      ensures View() == PressDown(old(View()))
    {
      if list[side].poz - 1 < PAGE {
        if row < list[side].poz - 1 {
          row := row + 1;
          list := list[side := list[side].(local := list[side].local + 1)];
        }
      } else if row < PAGE && list[side].local < list[side].poz - 1 {
        row := row + 1;
        list := list[side := list[side].(local := list[side].local + 1)];
      } else if list[side].local < list[side].poz - 1 {
        row := 1;
        list := list[side := list[side].(local := list[side].local + 1)];
        Redraw(list[side].local, Min(list[side].poz, list[side].local + PAGE));
      }
    }

    /** The drawing loop of Enter: the first page of `names`, each probed under the new path. */
    method DrawEntered(p: Pane, entered: string, names: seq<string>) returns (window: seq<Line>, path: string)
      requires |p.str| >= 1 && names != []
      ensures path == entered && window == Listed(p, entered + "/", names).window
    {
      path := entered;
      window := [];
      var tlen := |path|;
      var i := 1;
      ghost var q := Listed(p, entered + "/", names);
      while i < Min(|names| + 1, PAGE + 1)
        invariant 1 <= i <= Min(|names| + 1, PAGE + 1)
        invariant path == entered
        invariant window == Draw(q, 1, i)
      {
        path := path + "/";
        path := path + names[i - 1];
        window := window + [Line(names[i - 1], path)];
        assert q.str[i] == q.str[1..|names| + 1][i - 1];
        path := path[..tlen];
        i := i + 1;
      }
    }

    /** The copying loop of Enter: the names one by one to places 1, 2, ... */
    method CopyNames(str0: seq<string>, names: seq<string>) returns (str: seq<string>, poz: int)
      requires |str0| >= 1
      ensures poz == |names| + 1 && str == FillNames(str0, names)
    {
      str, poz := str0, 1;
      while poz < |names| + 1
        invariant 1 <= poz <= |names| + 1
        invariant |str| >= poz
        invariant str == FillNames(str0, names[..poz - 1])
      {
        str := if poz < |str| then str[poz := names[poz - 1]] else str + [names[poz - 1]];
        poz := poz + 1;
        assert str == FillNames(str0, names[..poz - 1]);
      }
      assert names[..poz - 1] == names;
    }

    /** Enter on a directory: list it from its first name, then put the slash after its path. */
    method KeyEnter(names: seq<string>)
      requires ScreenOk(View()) && names != []
      modifies this
      ensures View() == PressEnter(old(View()), names)
    {
      var p := list[side];
      var window, path := DrawEntered(p, p.path + p.str[p.local], names);
      var str, poz := CopyNames(p.str, names);
      row := 1;
      list := list[side := Pane(poz, 1, str, path + "/", window)];
    }
  }
}
