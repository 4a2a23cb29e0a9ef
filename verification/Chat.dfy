/**
 The shared-memory chat: one message slot that any client may overwrite at any time, a server
 that spins on it and appends to a log, and readers that poll the published count and repaint.
 One step is one access to shared memory; string copies are atomic. Runs start after the
 server has put the sentinel in the slot and zeroed the count.
 */
module Chat {

  /** The sentinel that marks the slot empty. */
  const WOR: string := "12plkopl21"

  /** Rows of 100 characters in the 9000 bytes of the log segment. */
  const CAPACITY: nat := 90

  /** A text in shared memory; `id` is history: which client write it comes from, 0 for none. */
  datatype Entry = Entry(text: string, id: nat)

  type Rows = a: seq<Entry> | |a| == CAPACITY witness seq(CAPACITY, _ => Entry([], 0))

  datatype ServerPc =
    | Spinning     // about to compare the slot with the sentinel
    | Copying      // has seen a message, about to copy the slot to the next row
    | Counting     // the row is filled, about to count it privately
    | Publishing   // about to publish the private count
    | Resetting    // about to put the sentinel back in the slot

  datatype ReaderPc =
    | Waiting          // about to compare the published count with its own
    | Painting(i: nat) // screen cleared, about to print row i or, after the last, to wait again

  /** A client's printing thread; `from` is history: the count it attached at. */
  datatype Reader = Reader(k: nat, pc: ReaderPc, screen: seq<Entry>, from: nat)

  /** `written` lists the texts of all client writes so far, `clobbers` counts those that hit a slot in use. */
  datatype State = State(text: Entry, arr: Rows, co: nat, count: nat, spc: ServerPc,
                         readers: seq<Reader>, written: seq<string>, clobbers: nat)

  datatype Action =
    | Write(m: string)   // any client overwrites the slot
    | Serve              // the server's next step
    | Attach             // a new client takes the count as its own
    | Read(c: nat)       // the next step of reader c

  function StepServer(s: State): State
    requires s.spc == Copying ==> s.co < CAPACITY
  {
    match s.spc
    case Spinning => if s.text.text == WOR then s else s.(spc := Copying)
    case Copying => s.(arr := s.arr[s.co := s.text], spc := Counting)
    case Counting => s.(co := s.co + 1, spc := Publishing)
    case Publishing => s.(count := s.co, spc := Resetting)
    case Resetting => s.(text := Entry(WOR, 0), spc := Spinning)
  }

  /** The second test of the painting loop never decides: no count exceeds the capacity. */
  function StepReader(s: State, r: Reader): Reader {
    match r.pc
    case Waiting => if s.count == r.k then r else r.(k := r.k + 1, screen := [], pc := Painting(0))
    case Painting(i) =>
      if i < r.k && i < CAPACITY then r.(screen := r.screen + [s.arr[i]], pc := Painting(i + 1))
      else r.(pc := Waiting)
  }

  /** Clients only write texts that differ from the sentinel, and the server copies only to rows that exist. */
  predicate Allowed(s: State, a: Action) {
    && (a.Write? ==> a.m != WOR)
    && (a.Serve? && s.spc == Copying ==> s.co < CAPACITY)
  }

  function Step(s: State, a: Action): State
    requires Allowed(s, a)
  {
    match a
    case Write(m) =>
      s.(text := Entry(m, |s.written| + 1), written := s.written + [m],
      clobbers := s.clobbers + if s.text.text == WOR then 0 else 1)
    case Serve => StepServer(s)
    case Attach => s.(readers := s.readers + [Reader(s.count, Waiting, [], s.count)])
    case Read(c) => if c < |s.readers| then s.(readers := s.readers[c := StepReader(s, s.readers[c])]) else s
  }

  /** Every step of the run is allowed where it is taken; `NinetyWritesFit` says which runs are. */
  predicate RunAllowed(s: State, acts: seq<Action>)
    decreases |acts|
  {
    acts == [] || (Allowed(s, acts[0]) && RunAllowed(Step(s, acts[0]), acts[1..]))
  }

  function Run(s: State, acts: seq<Action>): State
    requires RunAllowed(s, acts)
    decreases |acts|
  {
    if acts == [] then s else Run(Step(s, acts[0]), acts[1..])
  }

  // ----- What clients write

  function Greeting(name: string): string {
    "New user - " + name
  }

  /** The name's last character, its newline, becomes a colon. */
  function ChatLine(name: string, buf: string): string
    requires name != []
  {
    name[..|name| - 1] + ":" + " " + buf
  }

  /** No text a client can produce is taken for an empty slot. */
  lemma ClientTextsAreMessages(name: string, buf: string)
    requires name != []
    ensures Greeting(name) != WOR && ChatLine(name, buf) != WOR
    ensures |Greeting(name)| == 11 + |name| && Greeting(name)[..11] == "New user - " && Greeting(name)[11..] == name
    ensures var line, n := ChatLine(name, buf), |name| - 1;
            && |line| == n + 2 + |buf| && line[..n] == name[..n]
            && line[n] == ':' && line[n + 1] == ' ' && line[n + 2..] == buf
  {
    assert Greeting(name)[0] == 'N';
    assert ChatLine(name, buf)[|name| - 1] == ':';
  }

  // ----- The log

  /** Rows filled so far, published or not. */
  function Logged(s: State): nat {
    if s.spc == Counting then s.co + 1 else s.co
  }

  function LastId(s: State): nat {
    if 1 <= Logged(s) <= CAPACITY then s.arr[Logged(s) - 1].id else 0
  }

  /** The slot holds a client's text that is not in the log. */
  predicate Pending(s: State) {
    s.text.id > LastId(s)
  }

  predicate AfterCopy(s: State) {
    s.spc == Counting || s.spc == Publishing || s.spc == Resetting
  }

  ghost predicate CountsAgree(s: State) {
    && Logged(s) <= CAPACITY
    && s.count == (if s.spc == Publishing then s.co - 1 else s.co)
    && s.count >= 0
  }

  ghost predicate IsWrite(s: State, e: Entry) {
    1 <= e.id <= |s.written| && e.text == s.written[e.id - 1] && e.text != WOR
  }

  ghost predicate SlotSafe(s: State) {
    && (s.text == Entry(WOR, 0) || IsWrite(s, s.text))
    && (s.spc == Copying ==> s.text.id > 0)
    && (AfterCopy(s) ==> Logged(s) >= 1 && s.text.id >= LastId(s) > 0)
    && (!AfterCopy(s) && s.text.id > 0 ==> s.text.id > LastId(s))
    && LastId(s) <= |s.written|
  }

  /** Every row is a client's write, verbatim, and the rows are in the order of the writes. */
  ghost predicate LogSafe(s: State) {
    && Logged(s) <= CAPACITY
    && (forall i :: 0 <= i < Logged(s) ==> IsWrite(s, s.arr[i]))
    && (forall i, j :: 0 <= i < j < Logged(s) ==> s.arr[i].id < s.arr[j].id)
  }

  /** Writes that are neither in the log nor in the slot. */
  function Lost(s: State): int {
    |s.written| - Logged(s) - if Pending(s) then 1 else 0
  }

  /** A text that reached the slot between the copy and the reset will be wiped. */
  function Doomed(s: State): int {
    if AfterCopy(s) && Pending(s) then 1 else 0
  }

  /** Each write to a slot in use costs exactly one message. */
  ghost predicate LossesCounted(s: State) {
    Lost(s) + Doomed(s) == s.clobbers
  }

  ghost predicate ReaderSafe(s: State, r: Reader) {
    && r.from <= r.k <= s.count <= CAPACITY
    && match r.pc {
         case Waiting => r.screen == if r.k == r.from then [] else s.arr[..r.k]
         case Painting(i) => r.from < r.k && i <= r.k && r.screen == s.arr[..i]
       }
  }

  ghost predicate ReadersSafe(s: State) {
    forall c :: 0 <= c < |s.readers| ==> ReaderSafe(s, s.readers[c])
  }

  ghost predicate Inv(s: State) {
    CountsAgree(s) && SlotSafe(s) && LogSafe(s) && LossesCounted(s) && ReadersSafe(s)
  }

  /** Published rows are never overwritten and the published count never goes down. */
  lemma PublishedRowsStay(s: State, a: Action)
    requires CountsAgree(s) && Allowed(s, a)
    ensures var s' := Step(s, a);
            s.count <= s'.count && s.count <= CAPACITY && s'.arr[..s.count] == s.arr[..s.count]
  {
  }

  lemma SlotStep(s: State, a: Action)
    requires CountsAgree(s) && SlotSafe(s) && Allowed(s, a)
    ensures CountsAgree(Step(s, a)) && SlotSafe(Step(s, a))
  {
  }

  lemma LogStep(s: State, a: Action)
    requires CountsAgree(s) && SlotSafe(s) && LogSafe(s) && Allowed(s, a)
    ensures LogSafe(Step(s, a))
  {
    var s' := Step(s, a);
    forall i | 0 <= i < Logged(s')
      ensures IsWrite(s', s'.arr[i])
    {
      if i < Logged(s) {
        assert IsWrite(s, s.arr[i]);
      }
    }
  }

  lemma LossStep(s: State, a: Action)
    requires CountsAgree(s) && SlotSafe(s) && LossesCounted(s) && Allowed(s, a)
    ensures LossesCounted(Step(s, a))
  {
  }

  lemma ReaderStep(s: State, a: Action)
    requires CountsAgree(s) && ReadersSafe(s) && Allowed(s, a)
    ensures ReadersSafe(Step(s, a))
  {
    var s' := Step(s, a);
    PublishedRowsStay(s, a);
    forall c | 0 <= c < |s'.readers|
      ensures ReaderSafe(s', s'.readers[c])
    {
      if c < |s.readers| {
        assert ReaderSafe(s, s.readers[c]);
        ReaderKeeps(s, s', s.readers[c]);
        ReaderPaints(s, s.readers[c]);
      }
    }
  }

  lemma ReaderKeeps(s: State, s': State, r: Reader)
    requires ReaderSafe(s, r)
    requires s.count <= s'.count <= CAPACITY && s'.arr[..s.count] == s.arr[..s.count]
    ensures ReaderSafe(s', r)
  {
    assert forall n :: 0 <= n <= s.count ==> s.arr[..n] == s.arr[..s.count][..n];
    assert forall n :: 0 <= n <= s.count ==> s'.arr[..n] == s'.arr[..s.count][..n];
  }

  /** A reader's own step; every repaint shows exactly one entry more than the one before. */
  lemma ReaderPaints(s: State, r: Reader)
    requires ReaderSafe(s, r)
    ensures ReaderSafe(s, StepReader(s, r))
    ensures StepReader(s, r).k == if r.pc.Waiting? && r.k < s.count then r.k + 1 else r.k
    ensures r.pc.Painting? && StepReader(s, r).pc.Waiting? ==> StepReader(s, r).screen == s.arr[..r.k]
  {
  }

  lemma InvStep(s: State, a: Action)
    requires Inv(s) && Allowed(s, a)
    ensures Inv(Step(s, a))
  {
    SlotStep(s, a);
    LogStep(s, a);
    LossStep(s, a);
    ReaderStep(s, a);
  }

  lemma {:induction false} InvRun(s: State, acts: seq<Action>)
    requires Inv(s) && RunAllowed(s, acts)
    ensures Inv(Run(s, acts))
    decreases |acts|
  {
    if acts != [] {
      InvStep(s, acts[0]);
      InvRun(Step(s, acts[0]), acts[1..]);
    }
  }

  // ----- What the server and the clients do

  const FIVE: seq<Action> := [Serve, Serve, Serve, Serve, Serve]

  /**
   One round of the server left to itself: a message in the slot goes to the next row and is
   published, and the slot is empty again; nothing else changes.
   */
  lemma ServerRound(s: State)
    requires CountsAgree(s) && s.spc == Spinning && s.text.text != WOR && s.co < CAPACITY
    ensures RunAllowed(s, FIVE)
    ensures Run(s, FIVE) == s.(arr := s.arr[s.co := s.text], co := s.co + 1, count := s.count + 1, text := Entry(WOR, 0))
  {
  }

  /** With the slot empty a spinning server changes nothing. */
  lemma ServerWaits(s: State)
    requires s.spc == Spinning && s.text.text == WOR
    ensures Step(s, Serve) == s
  {
  }

  /**
   What each action leaves alone: only clients write texts, over whatever the slot holds, only
   the server touches rows and counts, and a reader only itself. A new reader starts at the
   published count, so it waits until something more is published.
   */
  lemma StepFrame(s: State, a: Action)
    requires Allowed(s, a)
    ensures var s' := Step(s, a);
            && (a.Write? ==> s' == s.(text := s'.text, written := s.written + [a.m], clobbers := s'.clobbers)
                             && s'.text.text == a.m && s'.text.id == |s'.written|)
            && (a.Serve? ==> s'.readers == s.readers && s'.written == s.written && s'.clobbers == s.clobbers)
            && (a.Attach? ==> s' == s.(readers := s'.readers) && s'.readers[..|s'.readers| - 1] == s.readers
                              && |s'.readers| == |s.readers| + 1 && Step(s', Read(|s.readers|)) == s')
            && (a.Read? ==> s' == s.(readers := s'.readers) && |s'.readers| == |s.readers|
                            && forall c :: 0 <= c < |s.readers| && c != a.c ==> s'.readers[c] == s.readers[c])
  {
  }

  /** The server has just initialised the segments; no client is attached; the rows hold anything. */
  ghost predicate Initial(s: State) {
    && s.text == Entry(WOR, 0) && s.spc == Spinning
    && s.co == 0 && s.count == 0
    && s.readers == [] && s.written == [] && s.clobbers == 0
  }

  /** In every run each log row is a distinct client write, verbatim, in write order; readers show prefixes of it. */
  lemma EveryRunIsSafe(start: State, acts: seq<Action>)
    requires Initial(start) && RunAllowed(start, acts)
    ensures var s := Run(start, acts);
            && Inv(s)
            && Logged(s) <= 90
            && (forall i :: 0 <= i < Logged(s) ==> IsWrite(s, s.arr[i]))
            && (forall i, j :: 0 <= i < j < Logged(s) ==> s.arr[i].id < s.arr[j].id)
            && (forall c :: 0 <= c < |s.readers| ==> s.readers[c].k <= s.count)
            && Lost(s) + Doomed(s) == s.clobbers
  {
    InvRun(start, acts);
    var s := Run(start, acts);
    forall c | 0 <= c < |s.readers|
      ensures s.readers[c].k <= s.count
    {
      assert ReaderSafe(s, s.readers[c]);
    }
  }

  // ----- What is lost

  function LogTexts(s: State): (ts: seq<string>)
    requires Logged(s) <= CAPACITY
    ensures |ts| == Logged(s)
  {
    seq(Logged(s), i requires 0 <= i < Logged(s) => s.arr[i].text)
  }

  lemma {:induction false} IdsAreDense(s: State, i: nat)
    requires LogSafe(s) && i < Logged(s)
    ensures i + 1 <= s.arr[i].id
    ensures Logged(s) == |s.written| ==> s.arr[i].id == i + 1
    decreases i
  {
    assert IsWrite(s, s.arr[i]);
    if i > 0 {
      IdsAreDense(s, i - 1);
    }
    if Logged(s) == |s.written| {
      IdsAtMost(s, i);
    }
  }

  lemma {:induction false} IdsAtMost(s: State, i: nat)
    requires LogSafe(s) && i < Logged(s)
    ensures s.arr[i].id <= |s.written| - (Logged(s) - 1 - i)
    decreases Logged(s) - i
  {
    assert IsWrite(s, s.arr[i]);
    if i + 1 < Logged(s) {
      IdsAtMost(s, i + 1);
    }
  }

  /**
   With the server waiting on an empty slot, the log is exactly the sequence of all texts
   written if and only if every write found the slot empty.
   */
  lemma NothingLostIff(s: State)
    requires Inv(s) && s.spc == Spinning && s.text.text == WOR
    ensures LogTexts(s) == s.written <==> s.clobbers == 0
  {
    if s.clobbers == 0 {
      forall i | 0 <= i < Logged(s)
        ensures LogTexts(s)[i] == s.written[i]
      {
        IdsAreDense(s, i);
        assert IsWrite(s, s.arr[i]);
      }
    }
  }

  function IdsOf(rows: seq<Entry>): set<nat> {
    set e | e in rows :: e.id
  }

  lemma {:induction false} IdsCount(rows: seq<Entry>)
    requires forall i, j :: 0 <= i < j < |rows| ==> rows[i].id < rows[j].id
    ensures |IdsOf(rows)| == |rows|
  {
    if rows != [] {
      var front, last := rows[..|rows| - 1], rows[|rows| - 1];
      IdsCount(front);
      assert rows == front + [last];
      assert IdsOf(rows) == IdsOf(front) + {last.id};
      assert last.id !in IdsOf(front);
    }
  }

  /** The ids of the first `n` writes. */
  function FirstIds(n: nat): (ids: set<nat>)
    ensures forall k: nat :: k in ids <==> 1 <= k <= n
    ensures |ids| == n
  {
    if n == 0 then {} else FirstIds(n - 1) + {n}
  }

  lemma LoggedIdsAreWrites(s: State)
    requires LogSafe(s)
    ensures forall k :: k in IdsOf(s.arr[..Logged(s)]) ==> 1 <= k <= |s.written| && k <= LastId(s)
    ensures IdsOf(s.arr[..Logged(s)]) <= FirstIds(|s.written|)
    ensures |IdsOf(s.arr[..Logged(s)])| == Logged(s)
    ensures Logged(s) > 0 ==> LastId(s) in IdsOf(s.arr[..Logged(s)])
  {
    var rows := s.arr[..Logged(s)];
    IdsCount(rows);
    forall e | e in rows
      ensures 1 <= e.id <= |s.written| && e.id <= LastId(s)
    {
      var i :| 0 <= i < |rows| && rows[i] == e;
      assert IsWrite(s, s.arr[i]);
    }
    if Logged(s) > 0 {
      assert s.arr[Logged(s) - 1] in rows;
    }
  }

  /** `Lost` counts what its name says: the writes found neither in the log nor in the slot. */
  lemma LostIsMissing(s: State)
    requires Inv(s)
    ensures Lost(s) == |FirstIds(|s.written|) - IdsOf(s.arr[..Logged(s)]) - {s.text.id}|
  {
    var logged, all := IdsOf(s.arr[..Logged(s)]), FirstIds(|s.written|);
    LoggedIdsAreWrites(s);
    SubsetDifference(all, logged);
    SlotIdIsMissingIff(s);
    if Pending(s) {
      SubsetDifference(all - logged, {s.text.id});
    } else {
      assert all - logged - {s.text.id} == all - logged;
    }
  }

  lemma SlotIdIsMissingIff(s: State)
    requires SlotSafe(s) && LogSafe(s)
    ensures s.text.id in FirstIds(|s.written|) - IdsOf(s.arr[..Logged(s)]) <==> Pending(s)
  {
    LoggedIdsAreWrites(s);
  }

  lemma SubsetDifference(a: set<nat>, b: set<nat>)
    requires b <= a
    ensures |a - b| == |a| - |b|
  {
  }

  // ----- The fate of one write

  function LoggedIds(s: State): set<nat>
    requires Logged(s) <= CAPACITY
  {
    IdsOf(s.arr[..Logged(s)])
  }

  lemma LoggedIdsStep(s: State, a: Action)
    requires Inv(s) && Allowed(s, a)
    ensures Logged(s) <= CAPACITY && Logged(Step(s, a)) <= CAPACITY
    ensures LoggedIds(Step(s, a)) == LoggedIds(s) + if a.Serve? && s.spc == Copying then {s.text.id} else {}
  {
    var s' := Step(s, a);
    if a.Serve? && s.spc == Copying {
      assert s'.arr[..Logged(s')] == s.arr[..Logged(s)] + [s.text];
    } else {
      assert s'.arr[..Logged(s')] == s.arr[..Logged(s)];
    }
  }

  /** Write `w` is past deciding: it is logged, or it has left the slot. */
  ghost predicate Gone(s: State, w: nat) {
    Inv(s) && 1 <= w <= |s.written| && (s.text.id != w || w in LoggedIds(s))
  }

  lemma GoneStep(s: State, a: Action, w: nat)
    requires Gone(s, w) && Allowed(s, a)
    ensures Gone(Step(s, a), w) && (w in LoggedIds(Step(s, a)) <==> w in LoggedIds(s))
  {
    InvStep(s, a);
    LoggedIdsStep(s, a);
  }

  /** Such a write keeps its place in or out of the log. */
  lemma {:induction false} GoneWritesStay(s: State, acts: seq<Action>, w: nat)
    requires Gone(s, w) && RunAllowed(s, acts)
    ensures Inv(Run(s, acts)) && (w in LoggedIds(Run(s, acts)) <==> w in LoggedIds(s))
    decreases |acts|
  {
    if acts != [] {
      GoneStep(s, acts[0], w);
      GoneWritesStay(Step(s, acts[0]), acts[1..], w);
    }
  }

  /** Of another write, the server's copy and its reset, the copy comes first. */
  predicate CopiedFirst(s: State, acts: seq<Action>)
    requires RunAllowed(s, acts)
    decreases |acts|
  {
    acts != [] && !acts[0].Write? && (acts[0].Serve? ==> s.spc != Resetting) &&
    ((acts[0].Serve? && s.spc == Copying) || CopiedFirst(Step(s, acts[0]), acts[1..]))
  }

  /** The steps that decide what becomes of a message in the slot. */
  predicate Decides(s: State, a: Action) {
    a.Write? || (a.Serve? && (s.spc == Resetting || s.spc == Copying))
  }

  lemma PendingIsUnlogged(s: State)
    requires Inv(s) && Pending(s)
    ensures s.text.id !in LoggedIds(s)
  {
    LoggedIdsAreWrites(s);
  }

  lemma OtherStepsKeepPending(s: State, a: Action)
    requires Inv(s) && Allowed(s, a) && s.text.id > 0 && Pending(s) && !Decides(s, a)
    ensures Step(s, a).text == s.text && Pending(Step(s, a))
  {
    InvStep(s, a);
  }

  lemma {:induction false} HeldWriteFate(s: State, acts: seq<Action>)
    requires Inv(s) && RunAllowed(s, acts) && s.text.id > 0 && Pending(s)
    ensures Inv(Run(s, acts)) && (s.text.id in LoggedIds(Run(s, acts)) <==> CopiedFirst(s, acts))
    decreases |acts|
  {
    PendingIsUnlogged(s);
    if acts != [] {
      InvStep(s, acts[0]);
      if Decides(s, acts[0]) {
        LoggedIdsStep(s, acts[0]);
        GoneWritesStay(Step(s, acts[0]), acts[1..], s.text.id);
      } else {
        OtherStepsKeepPending(s, acts[0]);
        HeldWriteFate(Step(s, acts[0]), acts[1..]);
      }
    }
  }

  /**
   What becomes of one message: it ends in the log exactly if, after it was written, the
   server copies the slot before any client writes again and before the server resets it.
   */
  lemma WriteFate(s: State, m: string, acts: seq<Action>)
    requires Inv(s) && m != WOR && RunAllowed(Step(s, Write(m)), acts)
    ensures var s' := Step(s, Write(m));
            Inv(Run(s', acts)) && (s'.text.id in LoggedIds(Run(s', acts)) <==> CopiedFirst(s', acts))
  {
    InvStep(s, Write(m));
    HeldWriteFate(Step(s, Write(m)), acts);
  }

  // ----- Capacity

  function Writes(acts: seq<Action>): nat {
    if acts == [] then 0 else (if acts[0].Write? then 1 else 0) + Writes(acts[1..])
  }

  /** The server never has more to copy than was written, so a row is free while at most 90 texts were. */
  lemma CopyHasRoom(s: State)
    requires Inv(s) && s.spc == Copying && |s.written| <= CAPACITY
    ensures s.co < CAPACITY
  {
    if s.co > 0 {
      IdsAreDense(s, s.co - 1);
    }
  }

  /** Runs in which clients write at most 90 messages stay inside the log, in every interleaving. */
  lemma {:induction false} NinetyWritesFit(s: State, acts: seq<Action>)
    requires Inv(s)
    requires forall a :: a in acts && a.Write? ==> a.m != WOR
    requires |s.written| + Writes(acts) <= CAPACITY
    ensures RunAllowed(s, acts)
    decreases |acts|
  {
    if acts != [] {
      if s.spc == Copying {
        CopyHasRoom(s);
      }
      InvStep(s, acts[0]);
      NinetyWritesFit(Step(s, acts[0]), acts[1..]);
    }
  }

  // ----- Readers catch up

  /** Steps reader `c` needs to show everything published so far. */
  function Behind(s: State, r: Reader): int {
    (s.count - r.k) * 100 + match r.pc { case Waiting => 0 case Painting(i) => r.k - i + 1 }
  }

  /** Left to run, a reader brings its screen up to the whole published log. */
  lemma {:induction false} ReaderCatchesUp(s: State, c: nat) returns (acts: seq<Action>)
    requires Inv(s) && c < |s.readers|
    ensures RunAllowed(s, acts)
    ensures var s' := Run(s, acts);
            && s' == s.(readers := s'.readers) && c < |s'.readers| && ReaderSafe(s', s'.readers[c])
            && s'.readers[c].pc.Waiting? && s'.readers[c].k == s.count && s'.readers[c].from == s.readers[c].from
    decreases Behind(s, s.readers[c])
  {
    var r := s.readers[c];
    assert ReaderSafe(s, r);
    if r.pc.Waiting? && r.k == s.count {
      acts := [];
    } else {
      InvStep(s, Read(c));
      var more := ReaderCatchesUp(Step(s, Read(c)), c);
      acts := [Read(c)] + more;
    }
  }
}
