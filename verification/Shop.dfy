/**
 The shop simulation: three shoppers and a delivery thread over four stocks, each behind a
 mutex taken with `trylock`, and a counter `glob` that the shoppers bump without any lock.
 One step is one access to shared memory; a run is any sequence of steps of any threads.
 */
module Shop {

  const TOTAL_BASKET := 10000

  type ShopId = i: int | 0 <= i < 4
  type NextShop = i: int | 0 <= i <= 4
  type ShopperId = t: int | 0 <= t < 3

  datatype ShopperPc =
    | Deciding                                    // the test of the while loop, then the first trylock or the load of glob
    | Trying(next: NextShop)                       // about to trylock shop i; after the last one, back to the test
    | Checking(i: ShopId)                         // holds shop i, about to read its stock
    | Taking(i: ShopId, tmp: nat, seen: int)      // has read the stock, about to store it less tmp
    | Bagging(i: ShopId, tmp: nat)                // about to put tmp in the basket
    | Leaving(i: ShopId)                          // about to unlock and break
    | PassingOn(i: ShopId)                        // about to unlock and try the next shop
    | Storing(seen: int)                          // has loaded glob, about to store it plus one
    | Finished

  datatype DeliveryPc =
    | Polling                                     // the test glob != 3
    | Visiting(next: NextShop)                     // about to trylock shop i
    | Loading(i: ShopId)                          // holds shop i, about to read its stock
    | Restocking(i: ShopId, tmp: nat, seen: int)  // about to store the stock plus tmp
    | Departing(i: ShopId)                        // about to unlock and break
    | Gone

  datatype Owner = Free | Shopper(t: ShopperId) | Delivery

  type Stocks = s: seq<int> | |s| == 4 witness [0, 0, 0, 0]
  type Owners = s: seq<Owner> | |s| == 4 witness [Free, Free, Free, Free]
  type Baskets = s: seq<int> | |s| == 3 witness [0, 0, 0]
  type Pcs = s: seq<ShopperPc> | |s| == 3 witness [Deciding, Deciding, Deciding]

  /** `delivered` is history: everything the delivery thread has added so far. */
  datatype State = State(stock: Stocks, owner: Owners, glob: int, baskets: Baskets, pcs: Pcs,
                         dpc: DeliveryPc, delivered: int)

  predicate Initial(s: State) {
    && s.stock == [1000, 1000, 1000, 1000]
    && s.owner == [Free, Free, Free, Free]
    && s.glob == 0
    && s.baskets == [0, 0, 0]
    && s.pcs == [Deciding, Deciding, Deciding]
    && s.dpc == Polling
    && s.delivered == 0
  }

  function Goto(s: State, t: ShopperId, pc: ShopperPc): State {
    s.(pcs := s.pcs[t := pc])
  }

  /** One step of shopper `t`; `r` is what `rand()` returns if the step draws. */
  function StepShopper(s: State, t: ShopperId, r: nat): State {
    match s.pcs[t]
    case Deciding =>
      if s.baskets[t] < TOTAL_BASKET then Goto(s, t, Trying(0)) else Goto(s, t, Storing(s.glob))
    case Trying(i) =>
      if i == 4 then Goto(s, t, Deciding)
      else if s.owner[i] == Free then Goto(s, t, Checking(i)).(owner := s.owner[i := Shopper(t)])
      else Goto(s, t, Trying(i + 1))
    case Checking(i) =>
      if s.stock[i] >= 500 then Goto(s, t, Taking(i, r % 500, s.stock[i])) else Goto(s, t, PassingOn(i))
    case Taking(i, tmp, seen) => Goto(s, t, Bagging(i, tmp)).(stock := s.stock[i := seen - tmp])
    case Bagging(i, tmp) => Goto(s, t, Leaving(i)).(baskets := s.baskets[t := s.baskets[t] + tmp])
    case Leaving(i) => Goto(s, t, Deciding).(owner := s.owner[i := Free])
    case PassingOn(i) => Goto(s, t, Trying(i + 1)).(owner := s.owner[i := Free])
    case Storing(seen) => Goto(s, t, Finished).(glob := seen + 1)
    case Finished => s
  }

  function StepDelivery(s: State, r: nat): State {
    match s.dpc
    case Polling => s.(dpc := if s.glob != 3 then Visiting(0) else Gone)
    case Visiting(i) =>
      if i == 4 then s.(dpc := Polling)
      else if s.owner[i] == Free then s.(dpc := Loading(i), owner := s.owner[i := Delivery])
      else s.(dpc := Visiting(i + 1))
    case Loading(i) => s.(dpc := Restocking(i, r % 1000, s.stock[i]))
    case Restocking(i, tmp, seen) =>
      s.(dpc := Departing(i), stock := s.stock[i := seen + tmp], delivered := s.delivered + tmp)
    case Departing(i) => s.(dpc := Polling, owner := s.owner[i := Free])
    case Gone => s
  }

  datatype Action = Shop(t: ShopperId, r: nat) | Deliver(r: nat)

  function Step(s: State, a: Action): State {
    match a
    case Shop(t, r) => StepShopper(s, t, r)
    case Deliver(r) => StepDelivery(s, r)
  }

  function Run(s: State, acts: seq<Action>): State
    decreases |acts|
  {
    if acts == [] then s else Run(Step(s, acts[0]), acts[1..])
  }

  lemma {:induction false} RunAppend(s: State, a: seq<Action>, b: seq<Action>)
    ensures Run(s, a + b) == Run(Run(s, a), b)
    decreases |a|
  {
    if a == [] {
      assert a + b == b;
    } else {
      assert (a + b)[1..] == a[1..] + b;
      RunAppend(Step(s, a[0]), a[1..], b);
    }
  }

  // ----- The invariant

  function HeldBy(pc: ShopperPc): int {
    match pc
    case Checking(i) => i
    case Taking(i, _, _) => i
    case Bagging(i, _) => i
    case Leaving(i) => i
    case PassingOn(i) => i
    case _ => -1
  }

  function HeldByDelivery(pc: DeliveryPc): int {
    match pc
    case Loading(i) => i
    case Restocking(i, _, _) => i
    case Departing(i) => i
    case _ => -1
  }

  ghost predicate LockMatches(s: State, i: ShopId, t: ShopperId) {
    && (s.owner[i] == Shopper(t) <==> HeldBy(s.pcs[t]) == i)
    && (s.owner[i] == Delivery <==> HeldByDelivery(s.dpc) == i)
  }

  /** The owner of a mutex is exactly the thread whose program point lies in its critical section. */
  ghost predicate LocksMatch(s: State) {
    forall i: ShopId, t: ShopperId :: LockMatches(s, i, t)
  }

  /** Inside its critical section a thread's copy of the stock is current, and the stock never runs out. */
  ghost predicate StocksSafe(s: State) {
    && (forall i: ShopId :: s.stock[i] >= 1)
    && (forall t: ShopperId :: s.pcs[t].Taking? ==>
          s.pcs[t].seen == s.stock[s.pcs[t].i] && s.pcs[t].seen >= 500 && s.pcs[t].tmp < 500)
    && (forall t: ShopperId :: s.pcs[t].Bagging? ==> s.pcs[t].tmp < 500)
    && (s.dpc.Restocking? ==> s.dpc.seen == s.stock[s.dpc.i] && s.dpc.tmp < 1000)
  }

  ghost predicate BasketsSafe(s: State) {
    forall t: ShopperId ::
      && 0 <= s.baskets[t] <= 10498
      && ((HeldBy(s.pcs[t]) >= 0 && !s.pcs[t].Leaving?) || s.pcs[t].Trying? ==> s.baskets[t] < TOTAL_BASKET)
      && (s.pcs[t].Storing? || s.pcs[t].Finished? ==> s.baskets[t] >= TOTAL_BASKET)
  }

  function InHand(pc: ShopperPc): int {
    if pc.Bagging? then pc.tmp else 0
  }

  function Sum4(s: Stocks): int {
    s[0] + s[1] + s[2] + s[3]
  }

  function Sum3(b: Baskets): int {
    b[0] + b[1] + b[2]
  }

  function SumInHand(pcs: Pcs): int {
    InHand(pcs[0]) + InHand(pcs[1]) + InHand(pcs[2])
  }

  /** Nothing is created or lost but by deliveries. */
  ghost predicate Conserved(s: State) {
    Sum4(s.stock) + Sum3(s.baskets) + SumInHand(s.pcs) == 4000 + s.delivered
  }

  function FinishedIn(pcs: Pcs): nat {
    (if pcs[0].Finished? then 1 else 0) + (if pcs[1].Finished? then 1 else 0) + (if pcs[2].Finished? then 1 else 0)
  }

  function StoringIn(pcs: Pcs): nat {
    (if pcs[0].Storing? then 1 else 0) + (if pcs[1].Storing? then 1 else 0) + (if pcs[2].Storing? then 1 else 0)
  }

  ghost predicate AllFinished(s: State) {
    forall t: ShopperId :: s.pcs[t].Finished?
  }

  ghost predicate CopyLags(s: State, t: ShopperId) {
    s.pcs[t].Storing? ==>
      0 <= s.pcs[t].seen <= FinishedIn(s.pcs) && (s.pcs[t].seen == FinishedIn(s.pcs) ==> s.glob == FinishedIn(s.pcs))
  }

  /** `glob` and every loaded copy of it lag behind the number of finished shoppers. */
  ghost predicate CounterLags(s: State) {
    && 0 <= s.glob <= FinishedIn(s.pcs)
    && (FinishedIn(s.pcs) > 0 ==> s.glob >= 1)
    && (forall t: ShopperId :: CopyLags(s, t))
    && (s.dpc.Gone? ==> s.glob == 3 && AllFinished(s))
  }

  ghost predicate Inv(s: State) {
    LocksMatch(s) && StocksSafe(s) && BasketsSafe(s) && Conserved(s) && CounterLags(s)
  }

  lemma StepSetsOnePc(s: State, t: ShopperId, r: nat)
    ensures StepShopper(s, t, r).pcs == s.pcs[t := StepShopper(s, t, r).pcs[t]]
  {
  }

  lemma LockStepShopper(s: State, u: ShopperId, r: nat, i: ShopId, t: ShopperId)
    requires LockMatches(s, i, t) && LockMatches(s, i, u)
    ensures LockMatches(StepShopper(s, u, r), i, t)
  {
  }

  lemma LockStepDelivery(s: State, r: nat, i: ShopId, t: ShopperId)
    requires LockMatches(s, i, t)
    ensures LockMatches(StepDelivery(s, r), i, t)
  {
  }

  lemma LocksStep(s: State, a: Action)
    requires LocksMatch(s)
    ensures LocksMatch(Step(s, a))
  {
    forall i: ShopId, t: ShopperId
      ensures LockMatches(Step(s, a), i, t)
    {
      assert LockMatches(s, i, t);
      if a.Shop? {
        assert LockMatches(s, i, a.t);
        LockStepShopper(s, a.t, a.r, i, t);
      } else {
        LockStepDelivery(s, a.r, i, t);
      }
    }
  }

  lemma StocksStepShopper(s: State, u: ShopperId, r: nat)
    requires LocksMatch(s) && StocksSafe(s)
    ensures StocksSafe(StepShopper(s, u, r))
  {
    var s' := StepShopper(s, u, r);
    StepSetsOnePc(s, u, r);
    if s.pcs[u].Taking? {
      assert LockMatches(s, s.pcs[u].i, u);
      forall t: ShopperId | t != u && s.pcs[t].Taking?
        ensures s.pcs[t].i != s.pcs[u].i
      {
        assert LockMatches(s, s.pcs[t].i, t);
      }
    }
  }

  lemma StocksStepDelivery(s: State, r: nat)
    requires LocksMatch(s) && StocksSafe(s)
    ensures StocksSafe(StepDelivery(s, r))
  {
    if s.dpc.Restocking? {
      forall t: ShopperId | s.pcs[t].Taking?
        ensures s.pcs[t].i != s.dpc.i
      {
        assert LockMatches(s, s.pcs[t].i, t);
      }
    }
  }

  lemma StocksStep(s: State, a: Action)
    requires LocksMatch(s) && StocksSafe(s)
    ensures StocksSafe(Step(s, a))
  {
    match a
    case Shop(t, r) => StocksStepShopper(s, t, r);
    case Deliver(r) => StocksStepDelivery(s, r);
  }

  lemma BasketsStep(s: State, a: Action)
    requires StocksSafe(s) && BasketsSafe(s)
    ensures BasketsSafe(Step(s, a))
  {
  }

  lemma ConservedStepShopper(s: State, t: ShopperId, r: nat)
    requires StocksSafe(s) && Conserved(s)
    ensures Conserved(StepShopper(s, t, r))
  {
    StepSetsOnePc(s, t, r);
    PcUpdate(s.pcs, t, StepShopper(s, t, r).pcs[t]);
    match s.pcs[t]
    case Taking(i, tmp, seen) => StockUpdate(s.stock, i, seen - tmp);
    case Bagging(_, tmp) => BasketUpdate(s.baskets, t, s.baskets[t] + tmp);
    case _ =>
  }

  lemma ConservedStep(s: State, a: Action)
    requires StocksSafe(s) && Conserved(s)
    ensures Conserved(Step(s, a))
  {
    match a
    case Shop(t, r) => ConservedStepShopper(s, t, r);
    case Deliver(r) =>
      if s.dpc.Restocking? {
        StockUpdate(s.stock, s.dpc.i, s.dpc.seen + s.dpc.tmp);
      }
  }

  lemma StockUpdate(s: Stocks, i: ShopId, v: int)
    ensures Sum4(s[i := v]) == Sum4(s) - s[i] + v
  {
  }

  lemma BasketUpdate(b: Baskets, t: ShopperId, v: int)
    ensures Sum3(b[t := v]) == Sum3(b) - b[t] + v
  {
  }

  lemma PcUpdate(pcs: Pcs, t: ShopperId, pc: ShopperPc)
    ensures SumInHand(pcs[t := pc]) == SumInHand(pcs) - InHand(pcs[t]) + InHand(pc)
    ensures FinishedIn(pcs[t := pc]) ==
            FinishedIn(pcs) - (if pcs[t].Finished? then 1 else 0) + (if pc.Finished? then 1 else 0)
    ensures StoringIn(pcs[t := pc]) ==
            StoringIn(pcs) - (if pcs[t].Storing? then 1 else 0) + (if pc.Storing? then 1 else 0)
  {
  }

  lemma CopyStep(s: State, u: ShopperId, r: nat, t: ShopperId)
    requires CopyLags(s, t) && CopyLags(s, u) && 0 <= s.glob <= FinishedIn(s.pcs)
    ensures CopyLags(StepShopper(s, u, r), t)
  {
    StepSetsOnePc(s, u, r);
    PcUpdate(s.pcs, u, StepShopper(s, u, r).pcs[u]);
  }

  lemma GlobStep(s: State, u: ShopperId, r: nat)
    requires CopyLags(s, u) && 0 <= s.glob <= FinishedIn(s.pcs) && (FinishedIn(s.pcs) > 0 ==> s.glob >= 1)
    ensures var s' := StepShopper(s, u, r);
            0 <= s'.glob <= FinishedIn(s'.pcs) && (FinishedIn(s'.pcs) > 0 ==> s'.glob >= 1)
  {
    StepSetsOnePc(s, u, r);
    PcUpdate(s.pcs, u, StepShopper(s, u, r).pcs[u]);
  }

  lemma CounterStep(s: State, a: Action)
    requires CounterLags(s)
    ensures CounterLags(Step(s, a))
  {
    forall t: ShopperId
      ensures CopyLags(Step(s, a), t)
    {
      assert CopyLags(s, t);
      if a.Shop? {
        assert CopyLags(s, a.t);
        CopyStep(s, a.t, a.r, t);
      }
    }
    if a.Shop? {
      assert CopyLags(s, a.t);
      GlobStep(s, a.t, a.r);
    }
  }

  lemma InvStep(s: State, a: Action)
    requires Inv(s)
    ensures Inv(Step(s, a))
  {
    LocksStep(s, a);
    StocksStep(s, a);
    BasketsStep(s, a);
    ConservedStep(s, a);
    CounterStep(s, a);
  }

  lemma {:induction false} InvRun(s: State, acts: seq<Action>)
    requires Inv(s)
    ensures Inv(Run(s, acts))
    decreases |acts|
  {
    if acts != [] {
      InvStep(s, acts[0]);
      InvRun(Step(s, acts[0]), acts[1..]);
    }
  }

  lemma InitialInv(s: State)
    requires Initial(s)
    ensures Inv(s)
  {
  }

  // ----- Safety of every run

  /** What holds after any sequence of steps from the start. */
  lemma EveryRunIsSafe(start: State, acts: seq<Action>)
    requires Initial(start)
    ensures var s := Run(start, acts);
            && Inv(s)
            && (forall i: ShopId :: s.stock[i] >= 1)
            && (forall t: ShopperId :: 0 <= s.baskets[t] <= 10498)
            && (forall t: ShopperId :: s.pcs[t].Finished? ==> s.baskets[t] >= 10000)
            && Sum4(s.stock) + Sum3(s.baskets) + SumInHand(s.pcs) == 4000 + s.delivered
            && s.glob <= FinishedIn(s.pcs)
            && (FinishedIn(s.pcs) > 0 ==> s.glob >= 1)
            && (s.dpc.Gone? ==> AllFinished(s))
  {
    InitialInv(start);
    InvRun(start, acts);
  }

  /** At most one thread is inside the critical section of a shop. */
  lemma MutualExclusion(s: State, t: ShopperId, u: ShopperId)
    requires LocksMatch(s) && HeldBy(s.pcs[t]) >= 0
    ensures HeldBy(s.pcs[u]) == HeldBy(s.pcs[t]) ==> t == u
    ensures HeldByDelivery(s.dpc) != HeldBy(s.pcs[t])
  {
    assert LockMatches(s, HeldBy(s.pcs[t]), t) && LockMatches(s, HeldBy(s.pcs[t]), u);
  }

  function ThreadOf(a: Action): Owner {
    if a.Shop? then Shopper(a.t) else Delivery
  }

  /**
   Only the holder of a shop's mutex changes its stock, and by exactly what it drew: the
   load and the store of `shops[i] -= tmp` act as one step, unlike those of `glob++`.
   */
  lemma OnlyHolderTouches(s: State, a: Action, i: ShopId)
    requires Inv(s)
    ensures var s' := Step(s, a);
            s'.stock[i] != s.stock[i] ==> s.owner[i] == ThreadOf(a) && s'.owner[i] == ThreadOf(a)
    ensures a.Shop? && s.pcs[a.t].Taking? && s.pcs[a.t].i == i ==> Step(s, a).stock[i] == s.stock[i] - s.pcs[a.t].tmp
    ensures a.Deliver? && s.dpc.Restocking? && s.dpc.i == i ==> Step(s, a).stock[i] == s.stock[i] + s.dpc.tmp
  {
    if a.Shop? {
      assert LockMatches(s, i, a.t);
    } else {
      assert LockMatches(s, i, 0);
    }
  }

  // ----- Bringing threads to rest

  predicate Resting(pc: ShopperPc) {
    pc.Deciding? || pc.Finished?
  }

  /** Steps a shopper can still take before it is back at the loop test or finished. */
  function Rank(pc: ShopperPc): nat {
    match pc
    case Deciding => 0
    case Trying(i) => 10 * (4 - i) + 1
    case Checking(i) => 10 * (4 - i)
    case Taking(i, _, _) => 10 * (4 - i) - 1
    case Bagging(i, _) => 10 * (4 - i) - 2
    case Leaving(i) => 10 * (4 - i) - 3
    case PassingOn(i) => 10 * (4 - i) - 1
    case Storing(_) => 1
    case Finished => 0
  }

  function DeliveryRank(pc: DeliveryPc): nat {
    match pc
    case Polling => 0
    case Visiting(i) => 4 * (4 - i) + 1
    case Loading(i) => 4 * (4 - i)
    case Restocking(i, _, _) => 4 * (4 - i) - 1
    case Departing(i) => 4 * (4 - i) - 2
    case Gone => 0
  }

  /** No update of `glob` has been lost, and none is about to be. */
  ghost predicate Intact(s: State) {
    && s.glob == FinishedIn(s.pcs)
    && (forall t: ShopperId :: s.pcs[t].Storing? ==> s.pcs[t].seen == s.glob)
    && StoringIn(s.pcs) <= 1
  }

  /** A step of a shopper that is not at rest brings it nearer, and loads no copy of `glob`. */
  lemma RestStep(s: State, t: ShopperId)
    requires !Resting(s.pcs[t])
    ensures var s' := StepShopper(s, t, 0);
            && Rank(s'.pcs[t]) < Rank(s.pcs[t]) && s'.dpc == s.dpc
            && (forall u: ShopperId :: u != t ==> s'.pcs[u] == s.pcs[u])
  {
  }

  lemma SoleStorer(pcs: Pcs, t: ShopperId, u: ShopperId)
    requires StoringIn(pcs) <= 1 && pcs[t].Storing? && pcs[u].Storing?
    ensures t == u
  {
  }

  lemma StoreKeepsIntact(s: State, t: ShopperId, r: nat)
    requires s.pcs[t].Storing? && Intact(s)
    ensures Intact(StepShopper(s, t, r))
  {
    var s' := StepShopper(s, t, r);
    PcUpdate(s.pcs, t, Finished);
    forall u: ShopperId | s'.pcs[u].Storing?
      ensures false
    {
      SoleStorer(s.pcs, t, u);
    }
  }

  lemma OtherStepKeepsIntact(s: State, t: ShopperId, r: nat)
    requires !s.pcs[t].Storing? && Intact(s) && StoringIn(StepShopper(s, t, r).pcs) <= 1
    ensures Intact(StepShopper(s, t, r))
  {
    StepSetsOnePc(s, t, r);
    PcUpdate(s.pcs, t, StepShopper(s, t, r).pcs[t]);
  }

  lemma RestStepIntact(s: State, t: ShopperId)
    requires !Resting(s.pcs[t]) && Intact(s)
    ensures Intact(StepShopper(s, t, 0))
  {
    if s.pcs[t].Storing? {
      StoreKeepsIntact(s, t, 0);
    } else {
      StepSetsOnePc(s, t, 0);
      PcUpdate(s.pcs, t, StepShopper(s, t, 0).pcs[t]);
      OtherStepKeepsIntact(s, t, 0);
    }
  }

  lemma {:induction false} RestShopper(s: State, t: ShopperId) returns (acts: seq<Action>)
    ensures var s' := Run(s, acts);
            && Resting(s'.pcs[t]) && s'.dpc == s.dpc
            && (forall u: ShopperId :: u != t ==> s'.pcs[u] == s.pcs[u])
            && (Intact(s) ==> Intact(s'))
    decreases Rank(s.pcs[t])
  {
    if Resting(s.pcs[t]) {
      acts := [];
    } else {
      var s1 := StepShopper(s, t, 0);
      RestStep(s, t);
      if Intact(s) {
        RestStepIntact(s, t);
      }
      var more := RestShopper(s1, t);
      acts := [Shop(t, 0)] + more;
    }
  }

  lemma {:induction false} RestDelivery(s: State) returns (acts: seq<Action>)
    ensures var s' := Run(s, acts);
            && (s'.dpc.Polling? || s'.dpc.Gone?)
            && s'.pcs == s.pcs && s'.glob == s.glob
    decreases DeliveryRank(s.dpc)
  {
    if s.dpc.Polling? || s.dpc.Gone? {
      acts := [];
    } else {
      var more := RestDelivery(StepDelivery(s, 0));
      acts := [Deliver(0)] + more;
    }
  }

  // ----- What a thread does on its own

  function Repeated(a: Action, n: nat): seq<Action> {
    if n == 0 then [] else [a] + Repeated(a, n - 1)
  }

  lemma RunRepeated(s: State, a: Action, n: nat)
    ensures Run(s, Repeated(a, n + 1)) == Run(Step(s, a), Repeated(a, n))
  {
    assert Repeated(a, n + 1)[1..] == Repeated(a, n);
  }

  /** The shop's mutex is free and it has stock enough to be taken from. */
  predicate Open(s: State, i: ShopId) {
    s.owner[i] == Free && s.stock[i] >= 500
  }

  /** `s` after shopper `t` has taken `tmp` from shop `j` and is back at the loop test. */
  function Bought(s: State, t: ShopperId, j: ShopId, tmp: nat): State {
    Goto(s, t, Deciding).(stock := s.stock[j := s.stock[j] - tmp], baskets := s.baskets[t := s.baskets[t] + tmp])
  }

  /** On its own, shopper `t` is at the loop test for the first time after `n` steps, and then in state `end`. */
  ghost predicate ComesToRest(s: State, t: ShopperId, r: nat, n: nat, end: State) {
    && Run(s, Repeated(Shop(t, r), n)) == end && Resting(end.pcs[t])
    && forall k :: 0 <= k < n ==> !Resting(Run(s, Repeated(Shop(t, r), k)).pcs[t])
  }

  lemma RestsOneLater(s: State, t: ShopperId, r: nat, n: nat, end: State)
    requires !Resting(s.pcs[t]) && ComesToRest(StepShopper(s, t, r), t, r, n, end)
    ensures ComesToRest(s, t, r, n + 1, end)
  {
    RunRepeated(s, Shop(t, r), n);
    forall k | 0 <= k < n + 1
      ensures !Resting(Run(s, Repeated(Shop(t, r), k)).pcs[t])
    {
      if k > 0 {
        RunRepeated(s, Shop(t, r), k - 1);
      }
    }
  }

  lemma AlreadyAtRest(s: State, t: ShopperId, r: nat)
    requires Resting(s.pcs[t])
    ensures ComesToRest(s, t, r, 0, s)
  {
  }

  /** In an open shop: take, bag, unlock. */
  lemma BuysAt(s: State, t: ShopperId, r: nat, j: ShopId) returns (n: nat)
    requires s.pcs[t] == Trying(j) && Open(s, j)
    ensures ComesToRest(s, t, r, n, Bought(s, t, j, r % 500))
  {
    var s1 := StepShopper(s, t, r);
    var s2 := StepShopper(s1, t, r);
    var s3 := StepShopper(s2, t, r);
    var s4 := StepShopper(s3, t, r);
    var s5 := StepShopper(s4, t, r);
    assert s5 == Bought(s, t, j, r % 500) by {
      assert s5.pcs == Bought(s, t, j, r % 500).pcs && s5.owner == s.owner;
    }
    AlreadyAtRest(s5, t, r);
    RestsOneLater(s4, t, r, 0, s5);
    RestsOneLater(s3, t, r, 1, s5);
    RestsOneLater(s2, t, r, 2, s5);
    RestsOneLater(s1, t, r, 3, s5);
    RestsOneLater(s, t, r, 4, s5);
    n := 5;
  }

  /** Past a shop that is not open, busy or short of stock: on to the next one, nothing changed. */
  lemma PassesBy(s: State, t: ShopperId, r: nat, i: ShopId, n: nat, end: State) returns (n': nat)
    requires s.pcs[t] == Trying(i) && !Open(s, i)
    requires ComesToRest(Goto(s, t, Trying(i + 1)), t, r, n, end)
    ensures ComesToRest(s, t, r, n', end)
  {
    var s1 := StepShopper(s, t, r);
    if s.owner[i] == Free {
      var s2 := StepShopper(s1, t, r);
      var s3 := StepShopper(s2, t, r);
      assert s3.pcs == Goto(s, t, Trying(i + 1)).pcs && s3.owner == s.owner;
      RestsOneLater(s2, t, r, n, end);
      RestsOneLater(s1, t, r, n + 1, end);
      RestsOneLater(s, t, r, n + 2, end);
      n' := n + 3;
    } else {
      RestsOneLater(s, t, r, n, end);
      n' := n + 1;
    }
  }

  /**
   The walk over the shops: left to itself from shop `i` on, a shopper takes `r % 500` from the
   first open shop, and if none is open it changes nothing; either way it comes back to the
   loop test with every mutex as it was.
   */
  lemma {:induction false} ShopperWalk(s: State, t: ShopperId, r: nat) returns (j: NextShop, n: nat)
    requires s.pcs[t].Trying?
    ensures s.pcs[t].next <= j
    ensures forall k :: s.pcs[t].next <= k < j ==> !(s.owner[k] == Free && s.stock[k] >= 500)
    ensures j < 4 ==> s.owner[j] == Free && s.stock[j] >= 500
    ensures ComesToRest(s, t, r, n, if j < 4 then Bought(s, t, j, r % 500) else Goto(s, t, Deciding))
    decreases 4 - s.pcs[t].next
  {
    var i := s.pcs[t].next;
    if i == 4 {
      j := 4;
      AlreadyAtRest(Goto(s, t, Deciding), t, r);
      RestsOneLater(s, t, r, 0, Goto(s, t, Deciding));
      n := 1;
    } else if Open(s, i) {
      j := i;
      n := BuysAt(s, t, r, i);
    } else {
      var next := Goto(s, t, Trying(i + 1));
      var m;
      j, m := ShopperWalk(next, t, r);
      var end := if j < 4 then Bought(s, t, j, r % 500) else Goto(s, t, Deciding);
      assert next.pcs[t := Deciding] == s.pcs[t := Deciding];
      n := PassesBy(s, t, r, i, m, end);
    }
  }

  /** The loop test: with room in the basket the walk starts at shop 0, otherwise `glob` is loaded, bumped and stored. */
  lemma ShopperDecides(s: State, t: ShopperId, r: nat)
    requires s.pcs[t].Deciding?
    ensures s.baskets[t] < 10000 ==> Run(s, [Shop(t, r)]) == Goto(s, t, Trying(0))
    ensures s.baskets[t] >= 10000 ==>
              Run(s, [Shop(t, r), Shop(t, r)]) == Goto(s, t, Finished).(glob := s.glob + 1)
  {
    var s1 := Step(s, Shop(t, r));
    assert [Shop(t, r)][1..] == [] && [Shop(t, r), Shop(t, r)][1..] == [Shop(t, r)];
    assert Run(s1, []) == s1;
    assert Run(s1, [Shop(t, r)]) == Run(Step(s1, Shop(t, r)), []);
    assert s.baskets[t] >= 10000 ==> Step(s1, Shop(t, r)).pcs == s.pcs[t := Finished];
  }

  // The same for the delivery thread.

  ghost predicate DeliveryRests(s: State, r: nat, n: nat, end: State) {
    && Run(s, Repeated(Deliver(r), n)) == end && end.dpc.Polling?
    && forall k :: 0 <= k < n ==> !Run(s, Repeated(Deliver(r), k)).dpc.Polling?
  }

  lemma DeliveryOneLater(s: State, r: nat, n: nat, end: State)
    requires !s.dpc.Polling? && DeliveryRests(StepDelivery(s, r), r, n, end)
    ensures DeliveryRests(s, r, n + 1, end)
  {
    RunRepeated(s, Deliver(r), n);
    forall k | 0 <= k < n + 1
      ensures !Run(s, Repeated(Deliver(r), k)).dpc.Polling?
    {
      if k > 0 {
        RunRepeated(s, Deliver(r), k - 1);
      }
    }
  }

  /** `s` after `tmp` has been delivered to shop `j`. */
  function Delivered(s: State, j: ShopId, tmp: nat): State {
    s.(dpc := Polling, stock := s.stock[j := s.stock[j] + tmp], delivered := s.delivered + tmp)
  }

  lemma DeliversAt(s: State, r: nat, j: ShopId) returns (n: nat)
    requires s.dpc == Visiting(j) && s.owner[j] == Free
    ensures DeliveryRests(s, r, n, Delivered(s, j, r % 1000))
  {
    var s1 := StepDelivery(s, r);
    var s2 := StepDelivery(s1, r);
    var s3 := StepDelivery(s2, r);
    var s4 := StepDelivery(s3, r);
    assert s4.owner == s.owner && s4 == Delivered(s, j, r % 1000);
    assert DeliveryRests(s4, r, 0, s4);
    DeliveryOneLater(s3, r, 0, s4);
    DeliveryOneLater(s2, r, 1, s4);
    DeliveryOneLater(s1, r, 2, s4);
    DeliveryOneLater(s, r, 3, s4);
    n := 4;
  }

  /** Left to itself, the delivery thread adds `r % 1000` to the first free shop, if there is one, and polls again. */
  lemma {:induction false} DeliveryWalk(s: State, r: nat) returns (j: NextShop, n: nat)
    requires s.dpc.Visiting?
    ensures s.dpc.next <= j && forall k :: s.dpc.next <= k < j ==> s.owner[k] != Free
    ensures j < 4 ==> s.owner[j] == Free
    ensures DeliveryRests(s, r, n, if j < 4 then Delivered(s, j, r % 1000) else s.(dpc := Polling))
    decreases 4 - s.dpc.next
  {
    var i := s.dpc.next;
    if i == 4 {
      j := 4;
      assert DeliveryRests(s.(dpc := Polling), r, 0, s.(dpc := Polling));
      DeliveryOneLater(s, r, 0, s.(dpc := Polling));
      n := 1;
    } else if s.owner[i] == Free {
      j := i;
      n := DeliversAt(s, r, i);
    } else {
      var m;
      j, m := DeliveryWalk(s.(dpc := Visiting(i + 1)), r);
      DeliveryOneLater(s, r, m, if j < 4 then Delivered(s, j, r % 1000) else s.(dpc := Polling));
      n := m + 1;
    }
  }

  /** The delivery's loop test: it leaves at three, and otherwise starts at shop 0. */
  lemma DeliveryPolls(s: State, r: nat)
    requires s.dpc.Polling?
    ensures Run(s, [Deliver(r)]) == s.(dpc := if s.glob == 3 then Gone else Visiting(0))
  {
    assert [Deliver(r)][1..] == [];
    assert Run(Step(s, Deliver(r)), []) == Step(s, Deliver(r));
  }

  // ----- All threads at rest

  ghost predicate Settled(s: State) {
    && Inv(s)
    && (forall t: ShopperId :: Resting(s.pcs[t]))
    && (s.dpc.Polling? || s.dpc.Gone?)
  }

  /** Every holder can reach its unlock: all threads can be brought to rest, in particular out of all locks. */
  lemma Settle(s: State) returns (acts: seq<Action>)
    requires Inv(s)
    ensures Settled(Run(s, acts))
    ensures Intact(s) ==> Intact(Run(s, acts))
  {
    var a0 := RestShopper(s, 0);
    var s0 := Run(s, a0);
    var a1 := RestShopper(s0, 1);
    var s1 := Run(s0, a1);
    var a2 := RestShopper(s1, 2);
    var s2 := Run(s1, a2);
    var a3 := RestDelivery(s2);
    acts := a0 + (a1 + (a2 + a3));
    RunAppend(s, a0, a1 + (a2 + a3));
    RunAppend(s0, a1, a2 + a3);
    RunAppend(s1, a2, a3);
    InvRun(s, acts);
  }

  lemma SettledIsUnlocked(s: State, i: ShopId)
    requires Settled(s)
    ensures s.owner[i] == Free
  {
    assert LockMatches(s, i, 0) && LockMatches(s, i, 1) && LockMatches(s, i, 2);
  }

  // ----- A shopper can always go on

  /** A delivery round at shop 0, open while some shopper is unfinished. */
  lemma Restock(s: State) returns (acts: seq<Action>)
    requires Settled(s) && !AllFinished(s)
    ensures var s' := Run(s, acts);
            Settled(s') && s'.stock[0] >= 1000
            && s'.pcs == s.pcs && s'.baskets == s.baskets && s'.glob == s.glob
  {
    SettledIsUnlocked(s, 0);
    acts := [Deliver(0), Deliver(0), Deliver(999), Deliver(0), Deliver(0)];
    var s1 := Step(s, acts[0]);
    var s2 := Step(s1, acts[1]);
    var s3 := Step(s2, acts[2]);
    var s4 := Step(s3, acts[3]);
    var s5 := Step(s4, acts[4]);
    RunFive(s, acts);
    InvRun(s, acts);
    assert s5.stock[0] == s.stock[0] + 999;
  }

  lemma RunFive(s: State, acts: seq<Action>)
    requires |acts| == 5
    ensures Run(s, acts) == Step(Step(Step(Step(Step(s, acts[0]), acts[1]), acts[2]), acts[3]), acts[4])
  {
    var s1 := Step(s, acts[0]);
    var s2 := Step(s1, acts[1]);
    var s3 := Step(s2, acts[2]);
    var s4 := Step(s3, acts[3]);
    assert acts[1..][1..] == acts[2..] && acts[2..][1..] == acts[3..] && acts[3..][1..] == acts[4..] && acts[4..][1..] == [];
    assert Run(s1, acts[1..]) == Run(s2, acts[2..]);
    assert Run(s2, acts[2..]) == Run(s3, acts[3..]);
    assert Run(s3, acts[3..]) == Run(s4, acts[4..]);
    assert Run(s4, acts[4..]) == Run(Step(s4, acts[4]), []);
  }

  lemma PurchaseSteps(s: State, t: ShopperId)
    requires s.owner[0] == Free && s.stock[0] >= 500 && s.pcs[t].Deciding? && s.baskets[t] < TOTAL_BASKET
    ensures var s1 := Step(s, Shop(t, 0));
            Step(Step(Step(Step(Step(s1, Shop(t, 0)), Shop(t, 499)), Shop(t, 0)), Shop(t, 0)), Shop(t, 0))
            == s.(stock := s.stock[0 := s.stock[0] - 499], baskets := s.baskets[t := s.baskets[t] + 499])
  {
    var s3 := Step(Step(Step(s, Shop(t, 0)), Shop(t, 0)), Shop(t, 499));
    assert s3 == Goto(s, t, Taking(0, 499, s.stock[0])).(owner := s.owner[0 := Shopper(t)]);
    var s6 := Step(Step(Step(s3, Shop(t, 0)), Shop(t, 0)), Shop(t, 0));
    assert s6.pcs == s.pcs && s6.owner == s.owner;
  }

  /** With shop 0 stocked and free, a shopper takes 499 from it. */
  lemma Purchase(s: State, t: ShopperId) returns (acts: seq<Action>)
    requires Settled(s) && s.stock[0] >= 500 && s.pcs[t].Deciding? && s.baskets[t] < TOTAL_BASKET
    ensures var s' := Run(s, acts);
            Settled(s') && s'.pcs == s.pcs && s'.glob == s.glob && s'.baskets == s.baskets[t := s.baskets[t] + 499]
  {
    SettledIsUnlocked(s, 0);
    acts := [Shop(t, 0)] + [Shop(t, 0), Shop(t, 499), Shop(t, 0), Shop(t, 0), Shop(t, 0)];
    var s1 := Step(s, Shop(t, 0));
    RunAppend(s, [Shop(t, 0)], [Shop(t, 0), Shop(t, 499), Shop(t, 0), Shop(t, 0), Shop(t, 0)]);
    RunFive(s1, [Shop(t, 0), Shop(t, 499), Shop(t, 0), Shop(t, 0), Shop(t, 0)]);
    PurchaseSteps(s, t);
    InvRun(s, acts);
  }

  /** A shopper can fill its basket while the others rest. */
  lemma {:induction false} FillBasket(s: State, t: ShopperId) returns (acts: seq<Action>)
    requires Settled(s) && s.pcs[t].Deciding?
    ensures var s' := Run(s, acts);
            && Settled(s') && s'.pcs == s.pcs && s'.glob == s.glob && s'.baskets[t] >= TOTAL_BASKET
            && (forall u: ShopperId :: u != t ==> s'.baskets[u] == s.baskets[u])
    decreases TOTAL_BASKET - s.baskets[t]
  {
    if s.baskets[t] >= TOTAL_BASKET {
      acts := [];
    } else {
      var a := Restock(s);
      var s1 := Run(s, a);
      var b := Purchase(s1, t);
      var s2 := Run(s1, b);
      var c := FillBasket(s2, t);
      acts := a + (b + c);
      RunAppend(s, a, b + c);
      RunAppend(s1, b, c);
    }
  }

  /** A resting shopper can finish without any update of `glob` being lost on the way. */
  lemma FinishShopper(s: State, t: ShopperId) returns (acts: seq<Action>)
    requires Settled(s)
    ensures var s' := Run(s, acts);
            && Settled(s') && s'.pcs == s.pcs[t := Finished]
            && (Intact(s) ==> Intact(s'))
  {
    if s.pcs[t].Finished? {
      acts := [];
    } else {
      var a := FillBasket(s, t);
      var s1 := Run(s, a);
      acts := a + ([Shop(t, 0)] + [Shop(t, 0)]);
      RunAppend(s, a, [Shop(t, 0)] + [Shop(t, 0)]);
      RunAppend(s1, [Shop(t, 0)], [Shop(t, 0)]);
      InvRun(s, acts);
      PcUpdate(s1.pcs, t, Finished);
    }
  }

  lemma FinishAll(s: State) returns (acts: seq<Action>)
    requires Inv(s)
    ensures var s' := Run(s, acts);
            Settled(s') && AllFinished(s') && (Intact(s) ==> Intact(s'))
  {
    var a := Settle(s);
    var s0 := Run(s, a);
    var a0 := FinishShopper(s0, 0);
    var s1 := Run(s0, a0);
    var a1 := FinishShopper(s1, 1);
    var s2 := Run(s1, a1);
    var a2 := FinishShopper(s2, 2);
    acts := a + (a0 + (a1 + a2));
    RunAppend(s, a, a0 + (a1 + a2));
    RunAppend(s0, a0, a1 + a2);
    RunAppend(s1, a1, a2);
  }

  /** From every reachable state some continuation finishes all three shoppers. */
  lemma ShoppersCanAlwaysFinish(s: State)
    requires Inv(s)
    ensures exists acts :: AllFinished(Run(s, acts))
  {
    var acts := FinishAll(s);
  }

  // ----- Whether the delivery thread can ever leave

  ghost predicate Terminated(s: State) {
    AllFinished(s) && s.dpc.Gone?
  }

  lemma LostAtStore(s: State, u: ShopperId, r: nat)
    requires Inv(s) && s.pcs[u].Storing? && Intact(StepShopper(s, u, r))
    ensures Intact(s)
  {
    var s' := StepShopper(s, u, r);
    PcUpdate(s.pcs, u, Finished);
    assert CopyLags(s, u);
    forall t: ShopperId | t != u
      ensures !s.pcs[t].Storing?
    {
      assert CopyLags(s, t);
      assert s'.pcs[t] == s.pcs[t];
    }
  }

  lemma LostElsewhere(s: State, u: ShopperId, r: nat)
    requires !s.pcs[u].Storing? && Intact(StepShopper(s, u, r))
    ensures Intact(s)
  {
    var s' := StepShopper(s, u, r);
    StepSetsOnePc(s, u, r);
    PcUpdate(s.pcs, u, s'.pcs[u]);
    forall t: ShopperId | s.pcs[t].Storing?
      ensures s'.pcs[t] == s.pcs[t]
    {
    }
  }

  /** A lost update is lost for good. */
  lemma LostStaysLost(s: State, a: Action)
    requires Inv(s) && !Intact(s)
    ensures !Intact(Step(s, a))
  {
    if a.Shop? && Intact(Step(s, a)) {
      if s.pcs[a.t].Storing? {
        LostAtStore(s, a.t, a.r);
      } else {
        LostElsewhere(s, a.t, a.r);
      }
    }
  }

  lemma {:induction false} LostForever(s: State, acts: seq<Action>)
    requires Inv(s) && !Intact(s)
    ensures !Intact(Run(s, acts)) && !Terminated(Run(s, acts))
    decreases |acts|
  {
    InvRun(s, acts);
    if acts != [] {
      LostStaysLost(s, acts[0]);
      InvStep(s, acts[0]);
      LostForever(Step(s, acts[0]), acts[1..]);
    }
  }

  /** The whole program can still end exactly when no update of `glob` has been lost or is about to be. */
  lemma CanTerminateIff(s: State)
    requires Inv(s)
    ensures (exists acts :: Terminated(Run(s, acts))) <==> Intact(s)
  {
    if Intact(s) {
      var a := FinishAll(s);
      var s1 := Run(s, a);
      RunAppend(s, a, [Deliver(0)]);
      assert FinishedIn(s1.pcs) == 3;
      assert Run(s1, [Deliver(0)]) == Step(s1, Deliver(0));
      assert Terminated(Run(s, a + [Deliver(0)]));
    } else {
      forall acts
        ensures !Terminated(Run(s, acts))
      {
        LostForever(s, acts);
      }
    }
  }

  /** Three shoppers with full baskets load `glob` one after the other, then store. */
  lemma Race(s: State) returns (acts: seq<Action>)
    requires s.glob == 0
    requires forall t: ShopperId :: s.pcs[t].Deciding? && s.baskets[t] >= TOTAL_BASKET
    ensures Run(s, acts).glob == 1 && AllFinished(Run(s, acts))
  {
    var rest := [Shop(1, 0), Shop(2, 0), Shop(0, 0), Shop(1, 0), Shop(2, 0)];
    acts := [Shop(0, 0)] + rest;
    var s1 := Step(s, Shop(0, 0));
    RunAppend(s, [Shop(0, 0)], rest);
    RunFive(s1, rest);
    var s3 := Step(Step(s1, Shop(1, 0)), Shop(2, 0));
    assert s3.pcs == [Storing(0), Storing(0), Storing(0)];
  }

  lemma FillAll(s: State) returns (acts: seq<Action>)
    requires Settled(s) && forall t: ShopperId :: s.pcs[t].Deciding?
    ensures var s' := Run(s, acts);
            && Settled(s') && s'.glob == s.glob && s'.pcs == s.pcs
            && (forall t: ShopperId :: s'.baskets[t] >= TOTAL_BASKET)
  {
    var a0 := FillBasket(s, 0);
    var s0 := Run(s, a0);
    var a1 := FillBasket(s0, 1);
    var s1 := Run(s0, a1);
    var a2 := FillBasket(s1, 2);
    acts := a0 + (a1 + a2);
    RunAppend(s, a0, a1 + a2);
    RunAppend(s0, a1, a2);
  }

  /** At no point of the run are two shoppers between their load of `glob` and their store. */
  ghost predicate NeverTwoStoring(s: State, acts: seq<Action>) {
    forall k :: 0 <= k <= |acts| ==> StoringIn(Run(s, acts[..k]).pcs) <= 1
  }

  lemma NeverTwoStoringTail(s: State, acts: seq<Action>)
    requires acts != []
    ensures NeverTwoStoring(s, acts) <==> StoringIn(s.pcs) <= 1 && NeverTwoStoring(Step(s, acts[0]), acts[1..])
  {
    var s1, rest := Step(s, acts[0]), acts[1..];
    forall k | 0 <= k <= |rest|
      ensures Run(s, acts[..k + 1]) == Run(s1, rest[..k])
    {
      assert acts[..k + 1][0] == acts[0] && acts[..k + 1][1..] == rest[..k];
    }
    assert Run(s, acts[..0]) == s;
    if StoringIn(s.pcs) <= 1 && NeverTwoStoring(s1, rest) {
      forall k | 0 <= k <= |acts|
        ensures StoringIn(Run(s, acts[..k]).pcs) <= 1
      {
        if k > 0 {
          assert Run(s, acts[..k - 1 + 1]) == Run(s1, rest[..k - 1]);
        }
      }
    }
    if NeverTwoStoring(s, acts) {
      forall k | 0 <= k <= |rest|
        ensures StoringIn(Run(s1, rest[..k]).pcs) <= 1
      {
        assert StoringIn(Run(s, acts[..k + 1]).pcs) <= 1;
      }
    }
  }

  /** A step that leaves at most one copy of `glob` loaded loses nothing. */
  lemma OneCopyKeepsIntact(s: State, a: Action)
    requires Intact(s) && StoringIn(Step(s, a).pcs) <= 1
    ensures Intact(Step(s, a))
  {
    if a.Shop? {
      if s.pcs[a.t].Storing? {
        StoreKeepsIntact(s, a.t, a.r);
      } else {
        OtherStepKeepsIntact(s, a.t, a.r);
      }
    }
  }

  lemma {:induction false} RunIntactIff(s: State, acts: seq<Action>)
    requires Inv(s) && Intact(s)
    ensures Intact(Run(s, acts)) <==> NeverTwoStoring(s, acts)
    decreases |acts|
  {
    if acts == [] {
      assert forall k :: 0 <= k <= |acts| ==> acts[..k] == [];
    } else {
      var s1 := Step(s, acts[0]);
      NeverTwoStoringTail(s, acts);
      InvStep(s, acts[0]);
      if StoringIn(s1.pcs) <= 1 {
        OneCopyKeepsIntact(s, acts[0]);
        RunIntactIff(s1, acts[1..]);
      } else {
        LostForever(s1, acts[1..]);
        assert Run(s1, acts[1..][..0]) == s1;
      }
    }
  }

  /**
   After any run from the start the program can still end exactly if that run never had two
   shoppers between load and store of `glob` at once.
   */
  lemma RunCanTerminateIff(start: State, acts: seq<Action>)
    requires Initial(start)
    ensures (exists more :: Terminated(Run(Run(start, acts), more))) <==> NeverTwoStoring(start, acts)
  {
    InitialInv(start);
    InvRun(start, acts);
    RunIntactIff(start, acts);
    CanTerminateIff(Run(start, acts));
  }

  /** All shoppers finished, the counter short of three, and no continuation that ends. */
  ghost predicate StuckAtOne(s: State) {
    AllFinished(s) && s.glob == 1 && forall more :: !Terminated(Run(s, more))
  }

  lemma CanStick(s: State) returns (acts: seq<Action>)
    requires Settled(s) && s.glob == 0 && forall t: ShopperId :: s.pcs[t].Deciding?
    ensures StuckAtOne(Run(s, acts))
  {
    var a := FillAll(s);
    var b := Race(Run(s, a));
    acts := a + b;
    RunAppend(s, a, b);
    InvRun(s, acts);
    forall more
      ensures !Terminated(Run(Run(s, acts), more))
    {
      LostForever(Run(s, acts), more);
    }
  }

  /** The program may end, but it also may not: all shoppers can finish with `glob` at 1, for ever. */
  lemma DeliveryMayNeverLeave(start: State)
    requires Initial(start)
    ensures exists acts :: Terminated(Run(start, acts))
    ensures exists acts :: StuckAtOne(Run(start, acts))
  {
    InitialInv(start);
    CanTerminateIff(start);
    var acts := CanStick(start);
  }
}
