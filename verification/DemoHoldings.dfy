/**
 The holdings table of the demo app: trades, newest first, replayed oldest first over the seed
 rows, and allocations shown to two decimals. Numbers are reals.
 */
module DemoHoldings {
  import opened Outcomes

  datatype Row = Row(symbol: string, value: real, allocation: real)

  datatype Trade = Trade(symbol: string, buy: bool, gross: real)

  /** The index of the row of a symbol. */
  function Find(rows: seq<Row>, symbol: string): (i: Option<nat>)
    ensures i.Some? ==> i.value < |rows| && rows[i.value].symbol == symbol
    ensures i.Some? ==> forall j :: 0 <= j < i.value ==> rows[j].symbol != symbol
    ensures i.None? ==> forall j :: 0 <= j < |rows| ==> rows[j].symbol != symbol
  {
    if rows == [] then None
    else if rows[0].symbol == symbol then Some(0)
    else
      match Find(rows[1..], symbol)
      case Some(i) => Some(i + 1)
      case None => None
  }

  function Clamped(x: real): real {
    if x > 0.0 then x else 0.0
  }

  function Signed(t: Trade): real {
    if t.buy then t.gross else -t.gross
  }

  /** One trade: an existing row is moved and clamped; a buy of something new adds a row. */
  function Apply(rows: seq<Row>, t: Trade): seq<Row> {
    match Find(rows, t.symbol)
    case Some(i) => rows[i := rows[i].(value := Clamped(rows[i].value + Signed(t)))]
    case None => if t.buy then rows + [Row(t.symbol, t.gross, 0.0)] else rows
  }

  /** The rows after trades given oldest first. */
  function Replay(rows: seq<Row>, trades: seq<Trade>): seq<Row>
    decreases |trades|
  {
    if trades == [] then rows else Replay(Apply(rows, trades[0]), trades[1..])
  }

  function Reversed(trades: seq<Trade>): seq<Trade> {
    if trades == [] then [] else Reversed(trades[1..]) + [trades[0]]
  }

  /** The oldest trade, the last in the list, comes first. */
  lemma {:induction false} OldestFirst(trades: seq<Trade>, k: nat)
    requires k < |trades|
    ensures |Reversed(trades)| == |trades| && Reversed(trades)[k] == trades[|trades| - 1 - k]
  {
    if |trades| > 1 {
      OldestFirst(trades[1..], if k < |trades| - 1 then k else 0);
    }
  }

  // ---- The value of one symbol ----

  /**
   A position on its own: nothing until first bought, then what each trade makes of it, never
   below zero.
   */
  function Position(held: Option<real>, trades: seq<Trade>, symbol: string): Option<real>
    decreases |trades|
  {
    if trades == [] then held
    else
      var t := trades[0];
      var next :=
        if t.symbol != symbol then held
        else if held.Some? then Some(Clamped(held.value + Signed(t)))
        else if t.buy then Some(t.gross)
        else None;
      Position(next, trades[1..], symbol)
  }

  function ValueOf(rows: seq<Row>, symbol: string): Option<real> {
    match Find(rows, symbol) case Some(i) => Some(rows[i].value) case None => None
  }

  predicate Unique(rows: seq<Row>) {
    forall i, j :: 0 <= i < j < |rows| ==> rows[i].symbol != rows[j].symbol
  }

  predicate NonNegative(rows: seq<Row>) {
    forall i :: 0 <= i < |rows| ==> rows[i].value >= 0.0
  }

  predicate Sound(trades: seq<Trade>) {
    forall i :: 0 <= i < |trades| ==> trades[i].gross >= 0.0
  }

  lemma {:induction false} ReplayKeepsRowsSound(rows: seq<Row>, trades: seq<Trade>)
    requires Unique(rows) && NonNegative(rows) && Sound(trades)
    ensures Unique(Replay(rows, trades)) && NonNegative(Replay(rows, trades))
    decreases |trades|
  {
    if trades != [] {
      ReplayKeepsRowsSound(Apply(rows, trades[0]), trades[1..]);
    }
  }

  lemma ApplyIsPosition(rows: seq<Row>, t: Trade, symbol: string)
    requires Unique(rows)
    ensures Unique(Apply(rows, t))
    ensures ValueOf(Apply(rows, t), symbol) == Position(ValueOf(rows, symbol), [t], symbol)
  {
    var next := Apply(rows, t);
    assert [t][1..] == [];
    if t.symbol == symbol {
      if Find(rows, symbol).Some? {
        FindIs(next, symbol, Find(rows, symbol).value);
      } else if t.buy {
        FindIs(next, symbol, |rows|);
      }
    } else if Find(rows, symbol).Some? {
      FindIs(next, symbol, Find(rows, symbol).value);
    }
  }

  lemma FindIs(rows: seq<Row>, symbol: string, i: nat)
    requires Unique(rows) && i < |rows| && rows[i].symbol == symbol
    ensures Find(rows, symbol) == Some(i)
  {
  }

  /** Symbols do not interfere: each row is its own position replayed on its own. */
  lemma {:induction false} ReplayIsPerSymbol(rows: seq<Row>, trades: seq<Trade>, symbol: string)
    requires Unique(rows)
    ensures ValueOf(Replay(rows, trades), symbol) == Position(ValueOf(rows, symbol), trades, symbol)
    decreases |trades|
  {
    if trades != [] {
      ApplyIsPosition(rows, trades[0], symbol);
      assert [trades[0]][1..] == [];
      ReplayIsPerSymbol(Apply(rows, trades[0]), trades[1..], symbol);
    }
  }

  /**
   A buy raises the value of its symbol by what was paid, from nothing if it is new; a sale lowers
   it by what was got, to nothing at most; and no trade moves another symbol.
   */
  lemma TradesMoveTheirSymbol(rows: seq<Row>, t: Trade, other: string)
    requires Unique(rows) && NonNegative(rows) && t.gross >= 0.0 && other != t.symbol
    ensures var held, after := ValueOf(rows, t.symbol), ValueOf(Apply(rows, t), t.symbol);
            && (t.buy ==> after == Some((if held.Some? then held.value else 0.0) + t.gross))
            && (!t.buy && held.Some? ==> after == Some(if held.value >= t.gross then held.value - t.gross else 0.0))
            && (!t.buy && held.None? ==> after == None)
    ensures ValueOf(Apply(rows, t), other) == ValueOf(rows, other)
  {
    ApplyIsPosition(rows, t, t.symbol);
    ApplyIsPosition(rows, t, other);
    assert [t][1..] == [];
    assert forall held, s :: Position(held, [], s) == held;
  }

  // ---- Allocations ----

  function Total(rows: seq<Row>): real {
    if rows == [] then 0.0 else rows[0].value + Total(rows[1..])
  }

  function Shown(rows: seq<Row>): real {
    if rows == [] then 0.0 else rows[0].allocation + Shown(rows[1..])
  }

  /** `toFixed(2)`: the nearest hundredth, the larger one on a tie. */
  function ToFixed2(x: real): real {
    (x * 100.0 + 0.5).Floor as real / 100.0
  }

  predicate Hundredths(x: real, k: int) {
    x == k as real / 100.0
  }

  lemma ToFixed2IsNearest(x: real)
    ensures -0.005 <= ToFixed2(x) - x <= 0.005
    ensures exists k: int :: Hundredths(ToFixed2(x), k)
  {
    var k := (x * 100.0 + 0.5).Floor;
    assert k as real <= x * 100.0 + 0.5 < k as real + 1.0;
    assert Hundredths(ToFixed2(x), k);
  }

  function Allocation(value: real, total: real): real {
    if total == 0.0 then 0.0 else ToFixed2(value / total * 100.0)
  }

  function Allocated(rows: seq<Row>, total: real): seq<Row> {
    if rows == [] then [] else [rows[0].(allocation := Allocation(rows[0].value, total))] + Allocated(rows[1..], total)
  }

  lemma {:induction false} AllocatedAt(rows: seq<Row>, total: real, i: nat)
    requires i < |rows|
    ensures |Allocated(rows, total)| == |rows|
    ensures Allocated(rows, total)[i] == rows[i].(allocation := Allocation(rows[i].value, total))
  {
    if i > 0 {
      AllocatedAt(rows[1..], total, i - 1);
    } else if |rows| > 1 {
      AllocatedAt(rows[1..], total, 0);
    }
  }

  /** `part` of the rows: their shown shares are off by half a hundredth each at most. */
  lemma {:induction false} ShownIsClose(part: seq<Row>, total: real)
    requires total > 0.0
    ensures var exact := Total(part) / total * 100.0;
            var off := 0.005 * |part| as real;
            exact - off <= Shown(Allocated(part, total)) <= exact + off
  {
    if part != [] {
      ShownIsClose(part[1..], total);
      var v, rest := part[0].value, Total(part[1..]);
      ToFixed2IsNearest(v / total * 100.0);
      Share(v, rest, total);
      assert |part| as real == 1.0 + |part[1..]| as real;
      assert Allocated(part, total)[1..] == Allocated(part[1..], total);
    }
  }

  lemma Share(x: real, y: real, total: real)
    requires total > 0.0
    ensures (x + y) / total * 100.0 == x / total * 100.0 + y / total * 100.0
  {
    assert (x + y) / total == x / total + y / total;
  }

  /** The shown allocations of n rows sum to 100 within half a hundredth for each. */
  lemma AllocationsSumToHundred(rows: seq<Row>)
    requires Total(rows) > 0.0
    ensures var shown := Shown(Allocated(rows, Total(rows)));
            100.0 - 0.005 * |rows| as real <= shown <= 100.0 + 0.005 * |rows| as real
  {
    hide Total, Shown, Allocated;
    ShownIsClose(rows, Total(rows));
    WholeIsHundred(Total(rows));
  }

  lemma WholeIsHundred(total: real)
    requires total > 0.0
    ensures total / total * 100.0 == 100.0
  {
  }

  // ---- The component's computation ----

  lemma {:induction false} ReplayConcat(rows: seq<Row>, some: seq<Trade>, others: seq<Trade>)
    ensures Replay(rows, some + others) == Replay(Replay(rows, some), others)
    decreases |some|
  {
    if some == [] {
      assert some + others == others;
    } else {
      assert (some + others)[1..] == some[1..] + others;
      ReplayConcat(Apply(rows, some[0]), some[1..], others);
    }
  }

  lemma ReplayNone(rows: seq<Row>)
    ensures Replay(rows, Reversed([])) == rows
  {
  }

  /** One more trade, older than none of those replayed so far. */
  lemma ReplayNext(rows: seq<Row>, trades: seq<Trade>, k: nat)
    requires k < |trades|
    ensures Replay(rows, Reversed(trades[k..])) == Apply(Replay(rows, Reversed(trades[k + 1..])), trades[k])
  {
    hide Apply;
    var before := Replay(rows, Reversed(trades[k + 1..]));
    assert trades[k..][0] == trades[k] && trades[k..][1..] == trades[k + 1..];
    ReplayConcat(rows, Reversed(trades[k + 1..]), [trades[k]]);
    assert [trades[k]][1..] == [];
    assert Replay(before, [trades[k]]) == Replay(Apply(before, trades[k]), []);
  }

  /** The rows `HoldingsTable` shows: the replay, then every allocation of the total. */
  method Adjust(holdings: seq<Row>, trades: seq<Trade>) returns (adjusted: seq<Row>)
    ensures adjusted == Allocated(Replay(holdings, Reversed(trades)), Total(Replay(holdings, Reversed(trades))))
    ensures Unique(holdings) && NonNegative(holdings) && Sound(trades) ==> Unique(adjusted) && NonNegative(adjusted)
    ensures Total(adjusted) > 0.0 ==>
              100.0 - 0.005 * |adjusted| as real <= Shown(adjusted) <= 100.0 + 0.005 * |adjusted| as real
  {
    hide Replay, Reversed;
    adjusted := holdings;
    var k := |trades|;
    ReplayNone(holdings);
    assert trades[|trades|..] == [];
    while k > 0
      invariant 0 <= k <= |trades|
      invariant adjusted == Replay(holdings, Reversed(trades[k..]))
    {
      k := k - 1;
      var trade := trades[k];
      ReplayNext(holdings, trades, k);
      match Find(adjusted, trade.symbol) {
        case Some(i) =>
          adjusted := adjusted[i := adjusted[i].(value := Clamped(adjusted[i].value + Signed(trade)))];
        case None =>
          if trade.buy {
            adjusted := adjusted + [Row(trade.symbol, trade.gross, 0.0)];
          }
      }
    }
    assert trades[0..] == trades;
    ghost var replayed := adjusted;
    if Unique(holdings) && NonNegative(holdings) && Sound(trades) {
      ReversedIsSound(trades);
      ReplayKeepsRowsSound(holdings, Reversed(trades));
    }

    var total := 0.0;
    var i := 0;
    assert adjusted[0..] == adjusted;
    while i < |adjusted|
      invariant 0 <= i <= |adjusted| && total + Total(adjusted[i..]) == Total(adjusted)
    {
      assert adjusted[i..][1..] == adjusted[i + 1..];
      total := total + adjusted[i].value;
      i := i + 1;
    }
    assert adjusted[|adjusted|..] == [];
    i := 0;
    while i < |adjusted|
      invariant 0 <= i <= |adjusted| == |replayed|
      invariant forall j :: 0 <= j < i ==> adjusted[j] == replayed[j].(allocation := Allocation(replayed[j].value, total))
      invariant forall j :: i <= j < |replayed| ==> adjusted[j] == replayed[j]
    {
      adjusted := adjusted[i := adjusted[i].(allocation := Allocation(adjusted[i].value, total))];
      i := i + 1;
    }
    AllocatedLength(replayed, total);
    forall j | 0 <= j < |replayed| ensures adjusted[j] == Allocated(replayed, total)[j] {
      AllocatedAt(replayed, total, j);
    }
    assert adjusted == Allocated(replayed, total);
    TotalStays(replayed, total);
    if total > 0.0 {
      AllocationsSumToHundred(replayed);
    }
  }

  lemma {:induction false} AllocatedLength(rows: seq<Row>, total: real)
    ensures |Allocated(rows, total)| == |rows|
  {
    if rows != [] {
      AllocatedLength(rows[1..], total);
    }
  }

  lemma {:induction false} TotalStays(rows: seq<Row>, total: real)
    ensures Total(Allocated(rows, total)) == Total(rows)
  {
    if rows != [] {
      TotalStays(rows[1..], total);
      assert Allocated(rows, total)[1..] == Allocated(rows[1..], total);
    }
  }

  lemma {:induction false} ReversedIsSound(trades: seq<Trade>)
    requires Sound(trades)
    ensures Sound(Reversed(trades)) && |Reversed(trades)| == |trades|
  {
    if trades != [] {
      ReversedIsSound(trades[1..]);
    }
  }
}
