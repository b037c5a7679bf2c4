/**
 The scopes of the demo app: what trades and cash flows change in each portfolio, and in the
 scope that stands for all of them.
 */
module DemoWealth {

  datatype Trade = Trade(portfolio: string, buy: bool, gross: real, fees: real, cashImpact: real)

  datatype CashFlow = CashFlow(id: string, portfolio: string, cashImpact: real)

  datatype Seed = Seed(id: string, name: string, value: real)

  /** Newest entries first; created portfolios by name, oldest first. */
  datatype State = State(trades: seq<Trade>, cashFlows: seq<CashFlow>, created: seq<string>)

  datatype Scope = Scope(all: bool, name: string, before: real, value: real)

  const ALL := "all"

  // ---- The memo ----

  /** What an entry does to the value of the portfolio it is booked to. */
  datatype Entry = Entry(portfolio: string, impact: real)

  function TradeEntries(trades: seq<Trade>): seq<Entry> {
    if trades == [] then []
    else
      var t := trades[0];
      [Entry(t.portfolio, if t.buy then -t.fees else t.cashImpact - t.gross)] + TradeEntries(trades[1..])
  }

  function FlowEntries(flows: seq<CashFlow>): seq<Entry> {
    if flows == [] then [] else [Entry(flows[0].portfolio, flows[0].cashImpact)] + FlowEntries(flows[1..])
  }

  /** Filter by portfolio, then reduce. */
  function ImpactFor(entries: seq<Entry>, name: string): real {
    if entries == [] then 0.0
    else (if entries[0].portfolio == name then entries[0].impact else 0.0) + ImpactFor(entries[1..], name)
  }

  function Total(entries: seq<Entry>): real {
    if entries == [] then 0.0 else entries[0].impact + Total(entries[1..])
  }

  function ImpactOn(s: State, name: string): real {
    ImpactFor(FlowEntries(s.cashFlows), name) + ImpactFor(TradeEntries(s.trades), name)
  }

  function ScopeOfSeed(s: State, seed: Seed): Scope {
    var impact :=
      if seed.id == ALL then Total(FlowEntries(s.cashFlows)) + Total(TradeEntries(s.trades)) else ImpactOn(s, seed.name);
    Scope(seed.id == ALL, seed.name, seed.value, seed.value + impact)
  }

  function SeededScopes(s: State, seeds: seq<Seed>): seq<Scope> {
    if seeds == [] then [] else [ScopeOfSeed(s, seeds[0])] + SeededScopes(s, seeds[1..])
  }

  function CreatedScopes(s: State, created: seq<string>): seq<Scope> {
    if created == [] then []
    else [Scope(false, created[0], 0.0, ImpactOn(s, created[0]))] + CreatedScopes(s, created[1..])
  }

  /** `allScopes`: seeded scopes, then created portfolios. */
  function AllScopes(s: State, seeds: seq<Seed>): seq<Scope> {
    SeededScopes(s, seeds) + CreatedScopes(s, s.created)
  }

  // ---- Conservation ----

  /** The summed change of every scope but the one for all. */
  function ChangeOfOthers(scopes: seq<Scope>): real {
    if scopes == [] then 0.0
    else (if scopes[0].all then 0.0 else scopes[0].value - scopes[0].before) + ChangeOfOthers(scopes[1..])
  }

  /** The names of those scopes. */
  function OtherNames(seeds: seq<Seed>): seq<string> {
    if seeds == [] then [] else (if seeds[0].id == ALL then [] else [seeds[0].name]) + OtherNames(seeds[1..])
  }

  function Names(s: State, seeds: seq<Seed>): seq<string> {
    OtherNames(seeds) + s.created
  }

  /** How many scopes go by the name. */
  function Count(names: seq<string>, name: string): nat {
    if names == [] then 0 else (if names[0] == name then 1 else 0) + Count(names[1..], name)
  }

  function Times(count: nat, x: real): real {
    count as real * x
  }

  /** Every entry, as often as scopes go by the name it is booked to. */
  function Booked(entries: seq<Entry>, names: seq<string>): real {
    if entries == [] then 0.0
    else Times(Count(names, entries[0].portfolio), entries[0].impact) + Booked(entries[1..], names)
  }

  function Entries(s: State): seq<Entry> {
    FlowEntries(s.cashFlows) + TradeEntries(s.trades)
  }

  lemma {:induction false} ImpactConcat(a: seq<Entry>, b: seq<Entry>, name: string)
    ensures ImpactFor(a + b, name) == ImpactFor(a, name) + ImpactFor(b, name)
    ensures Total(a + b) == Total(a) + Total(b)
  {
    if a == [] {
      assert a + b == b;
    } else {
      assert (a + b)[1..] == a[1..] + b;
      ImpactConcat(a[1..], b, name);
    }
  }

  function SumOver(entries: seq<Entry>, names: seq<string>): real {
    if names == [] then 0.0 else ImpactFor(entries, names[0]) + SumOver(entries, names[1..])
  }

  lemma {:induction false} SumOverConcat(entries: seq<Entry>, a: seq<string>, b: seq<string>)
    ensures SumOver(entries, a + b) == SumOver(entries, a) + SumOver(entries, b)
  {
    if a == [] {
      assert a + b == b;
    } else {
      assert (a + b)[1..] == a[1..] + b;
      SumOverConcat(entries, a[1..], b);
    }
  }

  /** Summing per scope counts every entry once for each scope of its name. */
  lemma {:induction false} SumOverIsBooked(entries: seq<Entry>, names: seq<string>)
    ensures SumOver(entries, names) == Booked(entries, names)
    decreases |names|
  {
    if names == [] {
      NothingBooked(entries);
    } else {
      SumOverIsBooked(entries, names[1..]);
      OneMoreName(entries, names);
    }
  }

  lemma {:induction false} NothingBooked(entries: seq<Entry>)
    ensures Booked(entries, []) == 0.0
  {
    if entries != [] {
      NothingBooked(entries[1..]);
    }
  }

  lemma {:induction false} OneMoreName(entries: seq<Entry>, names: seq<string>)
    requires names != []
    ensures Booked(entries, names) == ImpactFor(entries, names[0]) + Booked(entries, names[1..])
  {
    hide Times;
    if entries != [] {
      OneMoreName(entries[1..], names);
      var e, c := entries[0], Count(names[1..], entries[0].portfolio);
      OnceMore(c, e.impact);
      assert Count(names, e.portfolio) == if names[0] == e.portfolio then 1 + c else c;
    }
  }

  lemma OnceMore(c: nat, x: real)
    ensures Times(1 + c, x) == x + Times(c, x)
  {
    assert (1 + c) as real == 1.0 + c as real;
  }

  lemma {:induction false} CreatedChangesAddUp(s: State, created: seq<string>)
    ensures ChangeOfOthers(CreatedScopes(s, created)) == SumOver(Entries(s), created)
  {
    if created != [] {
      ImpactConcat(FlowEntries(s.cashFlows), TradeEntries(s.trades), created[0]);
      CreatedChangesAddUp(s, created[1..]);
    }
  }

  lemma {:induction false} ChangesAddUp(s: State, seeds: seq<Seed>, rest: seq<Scope>)
    ensures ChangeOfOthers(SeededScopes(s, seeds) + rest) == SumOver(Entries(s), OtherNames(seeds)) + ChangeOfOthers(rest)
  {
    if seeds == [] {
      assert SeededScopes(s, seeds) + rest == rest;
    } else {
      assert (SeededScopes(s, seeds) + rest)[1..] == SeededScopes(s, seeds[1..]) + rest;
      ChangesAddUp(s, seeds[1..], rest);
      ImpactConcat(FlowEntries(s.cashFlows), TradeEntries(s.trades), seeds[0].name);
      if seeds[0].id == ALL {
        assert OtherNames(seeds) == OtherNames(seeds[1..]);
      }
    }
  }

  /** What the wealth of all portfolios changed by, as its scope shows it. */
  function TotalChange(s: State): real {
    Total(FlowEntries(s.cashFlows)) + Total(TradeEntries(s.trades))
  }

  /**
   The scopes' changes, all but the total, add up to every entry's impact taken once for each
   scope of the name it is booked to.
   */
  lemma ScopesCountEntriesByName(s: State, seeds: seq<Seed>)
    ensures ChangeOfOthers(AllScopes(s, seeds)) == Booked(Entries(s), Names(s, seeds))
    ensures TotalChange(s) == Total(Entries(s))
  {
    ChangesAddUp(s, seeds, CreatedScopes(s, s.created));
    CreatedChangesAddUp(s, s.created);
    SumOverConcat(Entries(s), OtherNames(seeds), s.created);
    SumOverIsBooked(Entries(s), Names(s, seeds));
    ImpactConcat(FlowEntries(s.cashFlows), TradeEntries(s.trades), "");
  }

  /** Every entry is booked to exactly one scope. */
  ghost predicate BookedOnce(s: State, seeds: seq<Seed>) {
    forall e :: e in Entries(s) ==> Count(Names(s, seeds), e.portfolio) == 1
  }

  lemma {:induction false} BookedOnceIsTotal(entries: seq<Entry>, names: seq<string>)
    requires forall e :: e in entries ==> Count(names, e.portfolio) == 1
    ensures Booked(entries, names) == Total(entries)
  {
    if entries != [] {
      assert entries[0] in entries;
      BookedOnceIsTotal(entries[1..], names);
    }
  }

  /** Conservation: the total changed by what the portfolios changed by. */
  lemma WealthIsConserved(s: State, seeds: seq<Seed>)
    requires BookedOnce(s, seeds)
    ensures Conserved(s, seeds)
  {
    ScopesCountEntriesByName(s, seeds);
    BookedOnceIsTotal(Entries(s), Names(s, seeds));
  }

  /**
   The condition cannot be weakened: wherever wealth is conserved, completing a cash flow of any
   amount, new or in place of an earlier one, keeps it so exactly when one scope goes by its name.
   */
  lemma ConservedExactlyWhenNamedOnce(s: State, seeds: seq<Seed>, id: string, name: string)
    requires Conserved(s.(cashFlows := Without(s.cashFlows, id)), seeds)
    ensures Count(Names(s, seeds), name) == 1 <==>
            forall amount :: Conserved(Next(s, CompleteCashFlow(CashFlow(id, name, amount))), seeds)
  {
    hide AllScopes, ChangeOfOthers, Count, TotalChange, Next, Without;
    var count := Count(Names(s, seeds), name);
    forall amount
      ensures Conserved(Next(s, CompleteCashFlow(CashFlow(id, name, amount))), seeds) <==> Times(count, amount) == amount
    {
      OneMoreFlow(s, seeds, CashFlow(id, name, amount));
    }
    if forall amount :: Conserved(Next(s, CompleteCashFlow(CashFlow(id, name, amount))), seeds) {
      assert Conserved(Next(s, CompleteCashFlow(CashFlow(id, name, 1.0))), seeds);
    }
  }

  ghost predicate Conserved(s: State, seeds: seq<Seed>) {
    ChangeOfOthers(AllScopes(s, seeds)) == TotalChange(s)
  }

  /** What a completed cash flow adds to either side of the balance. */
  lemma OneMoreFlow(s: State, seeds: seq<Seed>, flow: CashFlow)
    ensures var before, after := s.(cashFlows := Without(s.cashFlows, flow.id)), Next(s, CompleteCashFlow(flow));
            && ChangeOfOthers(AllScopes(after, seeds)) ==
               Times(Count(Names(s, seeds), flow.portfolio), flow.cashImpact) + ChangeOfOthers(AllScopes(before, seeds))
            && TotalChange(after) == flow.cashImpact + TotalChange(before)
  {
    hide AllScopes, ChangeOfOthers, Count, TotalChange, Without;
    var before, after := s.(cashFlows := Without(s.cashFlows, flow.id)), Next(s, CompleteCashFlow(flow));
    ScopesCountEntriesByName(before, seeds);
    ScopesCountEntriesByName(after, seeds);
    var e := Entry(flow.portfolio, flow.cashImpact);
    assert after.cashFlows[1..] == before.cashFlows;
    assert Entries(after) == [e] + Entries(before);
    assert Entries(after)[1..] == Entries(before);
  }

  /** The scope for all shows the total change. */
  lemma {:induction false} AllScopeShowsTotal(s: State, seeds: seq<Seed>, i: nat)
    requires i < |AllScopes(s, seeds)| && AllScopes(s, seeds)[i].all
    ensures AllScopes(s, seeds)[i].value - AllScopes(s, seeds)[i].before == TotalChange(s)
  {
    if i < |SeededScopes(s, seeds)| {
      SeededAt(s, seeds, i);
    } else {
      CreatedAt(s, s.created, i - |SeededScopes(s, seeds)|);
    }
  }

  lemma {:induction false} SeededAt(s: State, seeds: seq<Seed>, i: nat)
    requires i < |SeededScopes(s, seeds)|
    ensures i < |seeds| && SeededScopes(s, seeds)[i] == ScopeOfSeed(s, seeds[i])
  {
    if i > 0 {
      SeededAt(s, seeds[1..], i - 1);
    }
  }

  lemma {:induction false} CreatedAt(s: State, created: seq<string>, i: nat)
    requires i < |CreatedScopes(s, created)|
    ensures !CreatedScopes(s, created)[i].all
  {
    if i > 0 {
      CreatedAt(s, created[1..], i - 1);
    }
  }

  // ---- Every reachable state ----

  datatype Event = CompleteTrade(trade: Trade) | CompleteCashFlow(flow: CashFlow) | CompletePortfolio(name: string)

  function Without(flows: seq<CashFlow>, id: string): seq<CashFlow> {
    if flows == [] then [] else (if flows[0].id == id then [] else [flows[0]]) + Without(flows[1..], id)
  }

  function Next(s: State, e: Event): State {
    match e
    case CompleteTrade(trade) => s.(trades := [trade] + s.trades)
    case CompleteCashFlow(flow) => s.(cashFlows := [flow] + Without(s.cashFlows, flow.id))
    case CompletePortfolio(name) => s.(created := s.created + [name])
  }

  function Run(s: State, events: seq<Event>): State
    decreases |events|
  {
    if events == [] then s else Run(Next(s, events[0]), events[1..])
  }

  predicate Distinct(names: seq<string>) {
    forall i, j :: 0 <= i < j < |names| ==> names[i] != names[j]
  }

  /** Scope names are distinct, and entries are booked to scopes there are. */
  ghost predicate InOrder(s: State, seeds: seq<Seed>) {
    && Distinct(Names(s, seeds))
    && forall e :: e in Entries(s) ==> e.portfolio in Names(s, seeds)
  }

  /** A new portfolio has a new name; an entry names a scope there is. */
  predicate Fits(s: State, seeds: seq<Seed>, e: Event) {
    match e
    case CompleteTrade(trade) => trade.portfolio in Names(s, seeds)
    case CompleteCashFlow(flow) => flow.portfolio in Names(s, seeds)
    case CompletePortfolio(name) => name !in Names(s, seeds)
  }

  predicate AllFit(s: State, seeds: seq<Seed>, events: seq<Event>)
    decreases |events|
  {
    events == [] || (Fits(s, seeds, events[0]) && AllFit(Next(s, events[0]), seeds, events[1..]))
  }

  lemma {:induction false} DistinctCount(names: seq<string>, name: string)
    requires Distinct(names)
    ensures Count(names, name) == if name in names then 1 else 0
  {
    if names != [] {
      assert Distinct(names[1..]);
      DistinctCount(names[1..], name);
      assert name in names <==> name == names[0] || name in names[1..];
    }
  }

  lemma {:induction false} WithoutKeeps(flows: seq<CashFlow>, id: string)
    ensures forall e :: e in FlowEntries(Without(flows, id)) ==> e in FlowEntries(flows)
  {
    if flows != [] {
      WithoutKeeps(flows[1..], id);
      var rest := Without(flows[1..], id);
      assert Without(flows, id) == (if flows[0].id == id then [] else [flows[0]]) + rest;
      if flows[0].id == id {
        assert Without(flows, id) == rest;
      } else {
        assert Without(flows, id)[1..] == rest;
      }
    }
  }

  lemma StaysInOrder(s: State, seeds: seq<Seed>, e: Event)
    requires InOrder(s, seeds) && Fits(s, seeds, e)
    ensures InOrder(Next(s, e), seeds)
  {
    var t := Next(s, e);
    match e
    case CompleteTrade(trade) =>
      assert t.trades[1..] == s.trades;
      forall x | x in Entries(t) ensures x.portfolio in Names(t, seeds) {
        if x in TradeEntries(s.trades) || x in FlowEntries(s.cashFlows) {
          assert x in Entries(s);
        }
      }
    case CompleteCashFlow(flow) =>
      WithoutKeeps(s.cashFlows, flow.id);
      assert t.cashFlows[1..] == Without(s.cashFlows, flow.id);
      forall x | x in Entries(t) ensures x.portfolio in Names(t, seeds) {
        if x in TradeEntries(s.trades) || x in FlowEntries(s.cashFlows) {
          assert x in Entries(s);
        }
      }
    case CompletePortfolio(name) =>
      assert Names(t, seeds) == Names(s, seeds) + [name];
  }

  /**
   After any sequence of trades, cash flows (also ones replacing an earlier entry) and new
   portfolios under fresh names, the total's change is the sum of the portfolios' changes.
   */
  lemma {:induction false} AlwaysConserved(s: State, seeds: seq<Seed>, events: seq<Event>)
    requires InOrder(s, seeds) && AllFit(s, seeds, events)
    ensures Conserved(Run(s, events), seeds)
    decreases |events|
  {
    if events == [] {
      forall e | e in Entries(s) ensures Count(Names(s, seeds), e.portfolio) == 1 {
        DistinctCount(Names(s, seeds), e.portfolio);
      }
      WealthIsConserved(s, seeds);
    } else {
      StaysInOrder(s, seeds, events[0]);
      AlwaysConserved(Next(s, events[0]), seeds, events[1..]);
    }
  }

  // ---- What an entry is worth ----

  /**
   A trade changes the value of its portfolio, and of all wealth, by the cash it moves and the value
   it moves: a sale always, and a buy, which costs its gross and its fees.
   */
  lemma TradeIsCashAndValue(s: State, t: Trade, name: string)
    requires t.buy ==> t.cashImpact == -(t.gross + t.fees)
    ensures var after, moved := Next(s, CompleteTrade(t)), t.cashImpact + (if t.buy then t.gross else -t.gross);
            && TotalChange(after) == TotalChange(s) + moved
            && ImpactOn(after, name) == ImpactOn(s, name) + if t.portfolio == name then moved else 0.0
  {
    var after := Next(s, CompleteTrade(t));
    assert after.trades[1..] == s.trades;
    assert TradeEntries(after.trades)[1..] == TradeEntries(s.trades);
  }

  /** A cash flow under a new id changes it by the cash it moves. */
  lemma FlowIsCash(s: State, flow: CashFlow, name: string)
    requires forall i :: 0 <= i < |s.cashFlows| ==> s.cashFlows[i].id != flow.id
    ensures var after := Next(s, CompleteCashFlow(flow));
            && TotalChange(after) == TotalChange(s) + flow.cashImpact
            && ImpactOn(after, name) == ImpactOn(s, name) + if flow.portfolio == name then flow.cashImpact else 0.0
  {
    var after := Next(s, CompleteCashFlow(flow));
    WithoutNone(s.cashFlows, flow.id);
    assert after.cashFlows[1..] == s.cashFlows;
    assert FlowEntries(after.cashFlows)[1..] == FlowEntries(s.cashFlows);
  }

  lemma {:induction false} WithoutNone(flows: seq<CashFlow>, id: string)
    requires forall i :: 0 <= i < |flows| ==> flows[i].id != id
    ensures Without(flows, id) == flows
  {
    if flows != [] {
      WithoutNone(flows[1..], id);
    }
  }

  lemma {:induction false} WithoutTwice(flows: seq<CashFlow>, id: string)
    ensures forall i :: 0 <= i < |Without(flows, id)| ==> Without(flows, id)[i].id != id
  {
    if flows != [] {
      WithoutTwice(flows[1..], id);
    }
  }

  /** One under an id that was there takes the place of the earlier one. */
  lemma LaterFlowReplaces(s: State, earlier: CashFlow, later: CashFlow)
    requires earlier.id == later.id
    ensures Next(Next(s, CompleteCashFlow(earlier)), CompleteCashFlow(later)) == Next(s, CompleteCashFlow(later))
  {
    hide Without;
    var flows := Without(s.cashFlows, earlier.id);
    WithoutTwice(s.cashFlows, earlier.id);
    WithoutNone(flows, earlier.id);
    WithoutFirst(earlier, flows);
  }

  lemma WithoutFirst(flow: CashFlow, flows: seq<CashFlow>)
    ensures Without([flow] + flows, flow.id) == Without(flows, flow.id)
  {
    assert ([flow] + flows)[1..] == flows;
    assert [] + Without(flows, flow.id) == Without(flows, flow.id);
  }
}
