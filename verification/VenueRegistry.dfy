/** Instrument ids: venue index in the high 16 bits, symbol index in the low 16. */
module VenueRegistries {
  import opened Options
  import opened ByteOrder

  const LIMIT: nat := 0x1_0000
  /** The character ':'. */
  const COLON: byte := 58

  datatype StreamRow = StreamRow(exchange: Bytes, symbol: Bytes)

  /** A count stored in 16 bits. */
  function Wrap16(x: nat): nat { x % LIMIT }

  function Pack(venue: nat, symbol: nat): nat { venue * LIMIT + symbol }
  function VenueOf(id: nat): nat { id / LIMIT }
  function SymbolOf(id: nat): nat { id % LIMIT }

  function Key(exchange: Bytes, symbol: Bytes): Bytes { exchange + [COLON] + symbol }
  function RowKey(r: StreamRow): Bytes { Key(r.exchange, r.symbol) }

  datatype Tables = Tables(instruments: map<Bytes, nat>, venueIds: map<Bytes, nat>, nextSymbol: map<nat, nat>)

  const NO_TABLES := Tables(map[], map[], map[])

  /** get_or_add_venue: a new venue takes the current count, cut to 16 bits, and restarts its symbols. */
  function AddVenue(t: Tables, exchange: Bytes): Tables {
    if exchange in t.venueIds then t
    else
      var vid := Wrap16(|t.venueIds|);
      t.(venueIds := t.venueIds[exchange := vid], nextSymbol := t.nextSymbol[vid := 0])
  }

  /** One row of the constructor's loop; an absent counter reads as 0. */
  function AddRow(t: Tables, r: StreamRow): Tables {
    var t1 := AddVenue(t, r.exchange);
    var vid := t1.venueIds[r.exchange];
    var sid := if vid in t1.nextSymbol then t1.nextSymbol[vid] else 0;
    t1.(nextSymbol := t1.nextSymbol[vid := Wrap16(sid + 1)],
        instruments := t1.instruments[RowKey(r) := Pack(vid, sid)])
  }

  function Build(rows: seq<StreamRow>): Tables {
    if rows == [] then NO_TABLES
    else AddRow(Build(rows[..|rows| - 1]), rows[|rows| - 1])
  }

  class VenueRegistry {
    var instruments: map<Bytes, nat>
    var venueIds: map<Bytes, nat>
    var nextSymbol: map<nat, nat>

    function State(): Tables
      reads this
    {
      Tables(instruments, venueIds, nextSymbol)
    }

    constructor (rows: seq<StreamRow>)
      ensures State() == Build(rows)
    {
      hide Build, Pack, RowKey, Wrap16;
      instruments, venueIds, nextSymbol := map[], map[], map[];
      new;
      assert rows[..0] == [] && Build([]) == NO_TABLES by { NothingBuilt(); }
      for i := 0 to |rows|
        invariant State() == Build(rows[..i])
      {
        BuildSnoc(rows[..i], rows[i]);
        assert rows[..i + 1] == rows[..i] + [rows[i]];
        var vid := GetOrAddVenue(rows[i].exchange);
        var sid := if vid in nextSymbol then nextSymbol[vid] else 0;
        nextSymbol := nextSymbol[vid := Wrap16(sid + 1)];
        instruments := instruments[RowKey(rows[i]) := Pack(vid, sid)];
      }
      assert rows[..|rows|] == rows;
    }

    method GetOrAddVenue(exchange: Bytes) returns (vid: nat)
      modifies this
      ensures State() == AddVenue(old(State()), exchange)
      ensures exchange in venueIds && vid == venueIds[exchange]
    {
      if exchange !in venueIds {
        vid := Wrap16(|venueIds|);
        venueIds := venueIds[exchange := vid];
        nextSymbol := nextSymbol[vid := 0];
      }
      vid := venueIds[exchange];
    }
  }

  // ----- keys -----

  /** No exchange name begins with another one followed by a colon. */
  ghost predicate NoNameExtends(exchanges: set<Bytes>) {
    forall e, f :: e in exchanges && f in exchanges ==> !(e + [58] <= f)
  }

  ghost predicate KeysDetermineRows(exchanges: set<Bytes>) {
    forall r: StreamRow, s: StreamRow :: r.exchange in exchanges && s.exchange in exchanges && RowKey(r) == RowKey(s) ==> r == s
  }

  /** Of two rows with one key, either the rows are the same or the shorter exchange name, with a colon,
      begins the longer one. */
  lemma SameKey(r: StreamRow, s: StreamRow)
    requires RowKey(r) == RowKey(s) && |r.exchange| <= |s.exchange|
    ensures r == s || r.exchange + [COLON] <= s.exchange
  {
    var a, k := |r.exchange|, RowKey(r);
    assert k[..a] == r.exchange && k[a] == COLON && k[a + 1..] == r.symbol;
    assert RowKey(s)[..|s.exchange|] == s.exchange && RowKey(s)[|s.exchange| + 1..] == s.symbol;
    if a < |s.exchange| {
      assert s.exchange[..a + 1] == k[..a + 1] == r.exchange + [COLON];
    }
  }

  /** For which exchange names the lookup key determines the row, whatever the symbols. */
  lemma KeysDetermineRowsExactly(exchanges: set<Bytes>)
    ensures KeysDetermineRows(exchanges) <==> NoNameExtends(exchanges)
  {
    if NoNameExtends(exchanges) {
      forall r: StreamRow, s: StreamRow
        | r.exchange in exchanges && s.exchange in exchanges && RowKey(r) == RowKey(s) ensures r == s
      {
        if |r.exchange| <= |s.exchange| { SameKey(r, s); } else { SameKey(s, r); }
      }
    } else {
      var e, f :| e in exchanges && f in exchanges && e + [COLON] <= f;
      var r, s := StreamRow(e, f[|e| + 1..] + [COLON]), StreamRow(f, []);
      assert f == e + [COLON] + f[|e| + 1..];
      assert RowKey(r) == RowKey(s) && r != s;
    }
  }

  ghost predicate ColonFree(name: Bytes) {
    forall i :: 0 <= i < |name| ==> name[i] != COLON
  }

  /** In particular names without a colon, the usual case. */
  lemma ColonFreeNames(exchanges: set<Bytes>)
    requires forall e :: e in exchanges ==> ColonFree(e)
    ensures NoNameExtends(exchanges)
  {
    forall e, f | e in exchanges && f in exchanges ensures !(e + [COLON] <= f) {
      assert (e + [COLON])[|e|] == COLON;
    }
  }

  /** What goes wrong otherwise: the second row takes over the first row's key, and the first venue's
      symbol is then looked up under the second venue. */
  lemma ColonConfusesVenues()
    ensures var a, b := StreamRow([65], [66, COLON, 67]), StreamRow([65, COLON, 66], [67]);
            var t := Build([a, b]);
            && RowKey(a) == RowKey(b) && RowKey(a) in t.instruments
            && a.exchange in t.venueIds && VenueOf(t.instruments[RowKey(a)]) != t.venueIds[a.exchange]
  {
    var a, b := StreamRow([65], [66, COLON, 67]), StreamRow([65, COLON, 66], [67]);
    BuildSnoc([], a);
    BuildSnoc([a], b);
    assert [] + [a] == [a] && [a] + [b] == [a, b];
    var t1, k := Build([a]), RowKey(a);
    assert k == [65, COLON, 66, COLON, 67] == RowKey(b);
    assert a.exchange != b.exchange;
    assert t1.venueIds == map[a.exchange := 0];
    assert |t1.venueIds| == 1;
    SecondVenue(t1, b);
  }

  lemma SecondVenue(t: Tables, r: StreamRow)
    requires r.exchange !in t.venueIds && |t.venueIds| == 1
    ensures AddRow(t, r).instruments[RowKey(r)] == Pack(1, 0)
    ensures forall e :: e in t.venueIds ==> AddRow(t, r).venueIds[e] == t.venueIds[e]
    ensures VenueOf(Pack(1, 0)) == 1
  {
  }

  lemma {:induction false} BuildSnoc(rows: seq<StreamRow>, r: StreamRow)
    ensures Build(rows + [r]) == AddRow(Build(rows), r)
  {
    assert (rows + [r])[..|rows|] == rows;
  }

  lemma PackFields(venue: nat, symbol: nat)
    requires symbol < 65536
    ensures Pack(venue, symbol) == 65536 * venue + symbol
    ensures VenueOf(Pack(venue, symbol)) == venue && SymbolOf(Pack(venue, symbol)) == symbol
  {
  }

  // ----- ids are distinct exactly within the 16-bit limits -----

  ghost function Exchanges(rows: seq<StreamRow>): set<Bytes> {
    set r | r in rows :: r.exchange
  }

  function CountOf(rows: seq<StreamRow>, exchange: Bytes): nat {
    if rows == [] then 0
    else CountOf(rows[..|rows| - 1], exchange) + (if rows[|rows| - 1].exchange == exchange then 1 else 0)
  }

  /** At most 65536 venues, and at most 65536 rows for each. */
  ghost predicate WithinLimits(rows: seq<StreamRow>) {
    |Exchanges(rows)| <= 65536 && forall e :: e in Exchanges(rows) ==> CountOf(rows, e) <= 65536
  }

  ghost predicate DistinctKeys(rows: seq<StreamRow>) {
    forall i, j :: 0 <= i < j < |rows| ==> RowKey(rows[i]) != RowKey(rows[j])
  }

  ghost function IdAt(rows: seq<StreamRow>, i: nat): nat
    requires i < |rows| && RowKey(rows[i]) in Build(rows).instruments
  {
    Build(rows).instruments[RowKey(rows[i])]
  }

  /** The state of the tables after rows that stay within the limits. */
  ghost predicate UniqueVenueIds(t: Tables) {
    && (forall e :: e in t.venueIds ==> t.venueIds[e] < |t.venueIds|)
    && (forall e, f :: e in t.venueIds && f in t.venueIds && t.venueIds[e] == t.venueIds[f] ==> e == f)
  }

  ghost predicate CountersInv(t: Tables, rows: seq<StreamRow>) {
    forall e :: e in t.venueIds ==>
      t.venueIds[e] in t.nextSymbol && t.nextSymbol[t.venueIds[e]] == Wrap16(CountOf(rows, e))
  }

  ghost predicate VenuesInv(t: Tables, rows: seq<StreamRow>) {
    && t.venueIds.Keys == Exchanges(rows)
    && UniqueVenueIds(t)
    && CountersInv(t, rows)
    && (rows != [] ==> rows[0].exchange in t.venueIds && t.venueIds[rows[0].exchange] == 0)
  }

  /** The id of a row: its venue's index and its ordinal within the venue. */
  ghost predicate RowOk(t: Tables, r: StreamRow, before: seq<StreamRow>) {
    && RowKey(r) in t.instruments && CountOf(before, r.exchange) < LIMIT && r.exchange in t.venueIds
    && t.instruments[RowKey(r)] == Pack(t.venueIds[r.exchange], CountOf(before, r.exchange))
  }

  /** No later row has the same key: of several, the last one's id stays in the table. */
  ghost predicate IsLast(rows: seq<StreamRow>, i: nat)
    requires i < |rows|
  {
    forall j :: i < j < |rows| ==> RowKey(rows[j]) != RowKey(rows[i])
  }

  ghost predicate RowsInv(t: Tables, rows: seq<StreamRow>) {
    forall i :: 0 <= i < |rows| && IsLast(rows, i) ==> RowOk(t, rows[i], rows[..i])
  }

  ghost predicate Inv(t: Tables, rows: seq<StreamRow>) {
    VenuesInv(t, rows) && RowsInv(t, rows)
  }

  lemma ExchangesSnoc(rows: seq<StreamRow>, r: StreamRow)
    ensures Exchanges(rows + [r]) == Exchanges(rows) + {r.exchange}
  {
    var all := rows + [r];
    forall e | e in Exchanges(rows) + {r.exchange} ensures e in Exchanges(all) {
      if e == r.exchange { assert r in all; }
      else { var x :| x in rows && x.exchange == e; assert x in all; }
    }
  }

  lemma {:induction false} CountSnoc(rows: seq<StreamRow>, r: StreamRow, e: Bytes)
    ensures CountOf(rows + [r], e) == CountOf(rows, e) + (if r.exchange == e then 1 else 0)
  {
    assert (rows + [r])[..|rows|] == rows;
  }

  lemma {:induction false} CountAbsent(rows: seq<StreamRow>, e: Bytes)
    requires e !in Exchanges(rows)
    ensures CountOf(rows, e) == 0
    decreases |rows|
  {
    if rows != [] {
      var prefix, r := rows[..|rows| - 1], rows[|rows| - 1];
      assert rows == prefix + [r];
      ExchangesSnoc(prefix, r);
      CountAbsent(prefix, e);
    }
  }

  /** The first row of a present exchange has ordinal 0. */
  lemma {:induction false} FirstRowOf(rows: seq<StreamRow>, e: Bytes) returns (j: nat)
    requires e in Exchanges(rows)
    ensures j < |rows| && rows[j].exchange == e && CountOf(rows[..j], e) == 0
    decreases |rows|
  {
    var x :| x in rows && x.exchange == e;
    var prefix, r := rows[..|rows| - 1], rows[|rows| - 1];
    assert rows == prefix + [r];
    ExchangesSnoc(prefix, r);
    if e in Exchanges(prefix) {
      j := FirstRowOf(prefix, e);
      assert rows[..j] == prefix[..j];
    } else {
      j := |prefix|;
      CountAbsent(prefix, e);
    }
  }

  lemma {:induction false} OrdinalsGrow(rows: seq<StreamRow>, i: nat, j: nat)
    requires i < j <= |rows|
    ensures CountOf(rows[..i], rows[i].exchange) < CountOf(rows[..j], rows[i].exchange)
    decreases j
  {
    assert rows[..j] == rows[..j - 1] + [rows[j - 1]];
    CountSnoc(rows[..j - 1], rows[j - 1], rows[i].exchange);
    if i < j - 1 { OrdinalsGrow(rows, i, j - 1); }
  }

  lemma {:induction false} LimitsOfPrefix(rows: seq<StreamRow>, r: StreamRow)
    requires WithinLimits(rows + [r])
    ensures WithinLimits(rows)
    ensures r.exchange !in Exchanges(rows) ==> |Exchanges(rows)| < LIMIT
    ensures CountOf(rows, r.exchange) < LIMIT
  {
    ExchangesSnoc(rows, r);
    assert |Exchanges(rows)| <= |Exchanges(rows + [r])| by { SubsetSize(Exchanges(rows), Exchanges(rows + [r])); }
    forall e | e in Exchanges(rows) ensures CountOf(rows, e) <= LIMIT {
      CountSnoc(rows, r, e);
    }
    CountSnoc(rows, r, r.exchange);
  }

  lemma SubsetSize<T>(a: set<T>, b: set<T>)
    requires a <= b
    ensures |a| <= |b|
  {
    assert b == a + (b - a);
  }

  lemma InvStep(t: Tables, rows: seq<StreamRow>, r: StreamRow)
    requires Inv(t, rows) && WithinLimits(rows + [r])
    ensures Inv(AddRow(t, r), rows + [r])
  {
    VenuesStep(t, rows, r);
    RowsStep(t, rows, r);
  }

  lemma {:induction false} AddRowParts(t: Tables, rows: seq<StreamRow>, r: StreamRow)
    requires VenuesInv(t, rows) && WithinLimits(rows + [r])
    ensures var vid := if r.exchange in t.venueIds then t.venueIds[r.exchange] else |t.venueIds|;
            && vid < LIMIT && AddRow(t, r).venueIds == t.venueIds[r.exchange := vid]
            && AddRow(t, r).instruments == t.instruments[RowKey(r) := Pack(vid, CountOf(rows, r.exchange))]
            && AddRow(t, r).nextSymbol == t.nextSymbol[vid := Wrap16(CountOf(rows, r.exchange) + 1)]
  {
    hide Pack, RowKey, CountOf, Exchanges;
    LimitsOfPrefix(rows, r);
    if r.exchange !in Exchanges(rows) { CountAbsent(rows, r.exchange); }
    assert |t.venueIds| == |t.venueIds.Keys|;
  }

  lemma VenuesStep(t: Tables, rows: seq<StreamRow>, r: StreamRow)
    requires VenuesInv(t, rows) && WithinLimits(rows + [r])
    ensures VenuesInv(AddRow(t, r), rows + [r])
  {
    hide Pack, RowKey, CountOf, Exchanges, AddRow, Wrap16, WithinLimits, CountersInv, UniqueVenueIds;
    AddRowParts(t, rows, r);
    ExchangesSnoc(rows, r);
    NoExchanges(rows);
    CountersStep(t, rows, r);
    UniqueStep(t, AddRow(t, r), r.exchange);
    assert |t.venueIds| == |t.venueIds.Keys|;
    assert (rows + [r])[0] == if rows == [] then r else rows[0];
  }

  lemma UniqueStep(t: Tables, t': Tables, e: Bytes)
    requires UniqueVenueIds(t)
    requires t'.venueIds == t.venueIds[e := if e in t.venueIds then t.venueIds[e] else |t.venueIds|]
    ensures UniqueVenueIds(t')
  {
    if e in t.venueIds {
      assert t'.venueIds == t.venueIds;
    } else {
      OneMore(t.venueIds, e, |t.venueIds|);
      forall x | x in t.venueIds ensures t'.venueIds[x] == t.venueIds[x] < |t.venueIds| {
      }
    }
  }

  lemma OneMore(m: map<Bytes, nat>, k: Bytes, v: nat)
    requires k !in m
    ensures |m[k := v]| == |m| + 1
  {
    assert m[k := v].Keys == m.Keys + {k};
    assert |m| == |m.Keys| && |m[k := v]| == |m[k := v].Keys|;
  }

  lemma CountersStep(t: Tables, rows: seq<StreamRow>, r: StreamRow)
    requires VenuesInv(t, rows) && WithinLimits(rows + [r])
    ensures CountersInv(AddRow(t, r), rows + [r])
  {
    hide Pack, RowKey, CountOf, Exchanges, AddRow, Wrap16, WithinLimits;
    AddRowParts(t, rows, r);
    var t' := AddRow(t, r);
    forall e | e in t'.venueIds
      ensures t'.venueIds[e] in t'.nextSymbol
      ensures t'.nextSymbol[t'.venueIds[e]] == Wrap16(CountOf(rows + [r], e))
    {
      CountSnoc(rows, r, e);
    }
  }

  lemma RowsStep(t: Tables, rows: seq<StreamRow>, r: StreamRow)
    requires Inv(t, rows) && WithinLimits(rows + [r])
    ensures RowsInv(AddRow(t, r), rows + [r])
  {
    hide Pack, RowKey, CountOf, Exchanges, AddRow, Wrap16, CountersInv, UniqueVenueIds, WithinLimits;
    var all, t' := rows + [r], AddRow(t, r);
    AddRowParts(t, rows, r);
    LimitsOfPrefix(rows, r);
    assert all[..|rows|] == rows;
    forall i | 0 <= i < |all| && IsLast(all, i) ensures RowOk(t', all[i], all[..i])
    {
      if i < |rows| {
        assert all[..i] == rows[..i] && all[i] == rows[i] && RowKey(all[|rows|]) != RowKey(all[i]);
        assert forall j :: i < j < |rows| ==> all[j] == rows[j];
        assert RowOk(t, rows[i], rows[..i]);
      }
    }
  }

  lemma NoExchanges(rows: seq<StreamRow>)
    ensures Exchanges(rows) == {} <==> rows == []
    ensures forall i :: 0 <= i < |rows| ==> rows[i].exchange in Exchanges(rows)
  {
    if rows != [] { assert rows[0].exchange in Exchanges(rows); }
  }

  lemma {:induction false} InvHolds(rows: seq<StreamRow>)
    requires WithinLimits(rows)
    ensures Inv(Build(rows), rows)
    decreases |rows|
  {
    hide Pack, RowKey, AddRow, Inv, WithinLimits, Build;
    if rows == [] {
      NothingBuilt();
    } else {
      var prefix, r := rows[..|rows| - 1], rows[|rows| - 1];
      assert rows == prefix + [r];
      LimitsOfPrefix(prefix, r);
      InvHolds(prefix);
      BuildSnoc(prefix, r);
      InvStep(Build(prefix), prefix, r);
    }
  }

  lemma NothingBuilt()
    ensures Build([]) == NO_TABLES && Inv(Build([]), [])
  {
    NoExchanges([]);
  }

  lemma {:induction false} KeysPresent(rows: seq<StreamRow>)
    ensures forall i :: 0 <= i < |rows| ==> RowKey(rows[i]) in Build(rows).instruments
    decreases |rows|
  {
    hide RowKey, Pack;
    if rows != [] {
      KeysPresent(rows[..|rows| - 1]);
    }
  }

  ghost predicate IdsDistinct(rows: seq<StreamRow>) {
    KeysPresent(rows);
    forall i, j :: 0 <= i < j < |rows| ==> IdAt(rows, i) != IdAt(rows, j)
  }

  lemma {:induction false} LastRow(rows: seq<StreamRow>, i: nat) returns (j: nat)
    requires i < |rows|
    ensures i <= j < |rows| && RowKey(rows[j]) == RowKey(rows[i]) && IsLast(rows, j)
    decreases |rows| - i
  {
    j := i;
    if !IsLast(rows, i) {
      var k :| i < k < |rows| && RowKey(rows[k]) == RowKey(rows[i]);
      j := LastRow(rows, k);
    }
  }

  /** Within the limits, whatever is repeated: two rows have one id exactly when they have one key. */
  lemma {:induction false} SameIdSameKey(rows: seq<StreamRow>, i: nat, j: nat)
    requires WithinLimits(rows) && i < |rows| && j < |rows|
    ensures RowKey(rows[i]) in Build(rows).instruments && RowKey(rows[j]) in Build(rows).instruments
    ensures IdAt(rows, i) == IdAt(rows, j) <==> RowKey(rows[i]) == RowKey(rows[j])
  {
    hide Build, RowKey, Pack;
    KeysPresent(rows);
    InvHolds(rows);
    var a := LastRow(rows, i);
    var b := LastRow(rows, j);
    assert RowOk(Build(rows), rows[a], rows[..a]) && RowOk(Build(rows), rows[b], rows[..b]);
    if a < b { OrdinalsGrow(rows, a, b); }
    if b < a { OrdinalsGrow(rows, b, a); }
    PackFields(Build(rows).venueIds[rows[a].exchange], CountOf(rows[..a], rows[a].exchange));
    PackFields(Build(rows).venueIds[rows[b].exchange], CountOf(rows[..b], rows[b].exchange));
  }

  lemma WithinLimitsDistinct(rows: seq<StreamRow>)
    requires WithinLimits(rows) && DistinctKeys(rows)
    ensures IdsDistinct(rows)
  {
    hide Build, RowKey;
    KeysPresent(rows);
    forall i, j | 0 <= i < j < |rows| ensures IdAt(rows, i) != IdAt(rows, j) {
      SameIdSameKey(rows, i, j);
    }
  }

  /** The row that breaks a limit gets an id that is already taken. */
  lemma OverflowCollides(t: Tables, rows: seq<StreamRow>, r: StreamRow) returns (j: nat)
    requires Inv(t, rows) && WithinLimits(rows) && !WithinLimits(rows + [r]) && DistinctKeys(rows)
    ensures j < |rows| && RowKey(rows[j]) in t.instruments
    ensures AddRow(t, r).instruments[RowKey(r)] == t.instruments[RowKey(rows[j])]
  {
    hide Pack, RowKey, CountOf, Exchanges;
    ExchangesSnoc(rows, r);
    forall e ensures CountOf(rows + [r], e) == CountOf(rows, e) + (if r.exchange == e then 1 else 0) {
      CountSnoc(rows, r, e);
    }
    NoExchanges(rows);
    if r.exchange in Exchanges(rows) {
      assert Exchanges(rows + [r]) == Exchanges(rows);
      j := FirstRowOf(rows, r.exchange);
    } else {
      CountAbsent(rows, r.exchange);
      assert |t.venueIds| == |t.venueIds.Keys|;
      assert |Exchanges(rows + [r])| == |Exchanges(rows)| + 1;
      assert |Exchanges(rows)| == LIMIT;
      j := 0;
      EmptyCount(rows, rows[0].exchange);
    }
  }

  lemma {:induction false} EmptyCount(rows: seq<StreamRow>, e: Bytes)
    ensures CountOf(rows[..0], e) == 0
  {
  }

  lemma EmptyWithinLimits()
    ensures WithinLimits([])
  {
    NoExchanges([]);
  }

  lemma OtherKeysKept(t: Tables, r: StreamRow, k: Bytes)
    requires k in t.instruments && k != RowKey(r)
    ensures k in AddRow(t, r).instruments && AddRow(t, r).instruments[k] == t.instruments[k]
  {
  }

  lemma {:induction false} BeyondLimitsCollide(rows: seq<StreamRow>)
    requires DistinctKeys(rows) && !WithinLimits(rows)
    ensures !IdsDistinct(rows)
    decreases |rows|
  {
    hide Pack, RowKey, AddRow, Build;
    KeysPresent(rows);
    EmptyWithinLimits();
    if rows != [] {
      var prefix, r := rows[..|rows| - 1], rows[|rows| - 1];
      assert rows == prefix + [r];
      KeysPresent(prefix);
      BuildSnoc(prefix, r);
      assert forall i :: 0 <= i < |prefix| ==> prefix[i] == rows[i] && RowKey(prefix[i]) != RowKey(r);
      forall i: nat | i < |prefix| ensures IdAt(rows, i) == IdAt(prefix, i) {
        assert prefix[i] == rows[i];
        OtherKeysKept(Build(prefix), r, RowKey(rows[i]));
      }
      if WithinLimits(prefix) {
        InvHolds(prefix);
        var j := OverflowCollides(Build(prefix), prefix, r);
        assert IdAt(rows, j) == IdAt(rows, |prefix|);
      } else {
        BeyondLimitsCollide(prefix);
        var i, j :| 0 <= i < j < |prefix| && IdAt(prefix, i) == IdAt(prefix, j);
        assert IdAt(rows, i) == IdAt(rows, j);
      }
    }
  }

  /** For all rows whatsoever: the ids are pairwise different if and only if the keys are and there are
      at most 65536 venues with at most 65536 rows each. */
  lemma IdsAreDistinctExactlyWithinLimits(rows: seq<StreamRow>)
    ensures IdsDistinct(rows) <==> WithinLimits(rows) && DistinctKeys(rows)
  {
    hide RowKey, Build;
    if !DistinctKeys(rows) {
      KeysPresent(rows);
      var i, j :| 0 <= i < j < |rows| && RowKey(rows[i]) == RowKey(rows[j]);
      assert IdAt(rows, i) == IdAt(rows, j);
    } else if WithinLimits(rows) {
      WithinLimitsDistinct(rows);
    } else {
      BeyondLimitsCollide(rows);
    }
  }

  /** Where an exchange is named first. */
  ghost function FirstIndex(rows: seq<StreamRow>, e: Bytes): (j: nat)
    requires e in Exchanges(rows)
    ensures j < |rows| && rows[j].exchange == e && e !in Exchanges(rows[..j])
    decreases |rows|
  {
    var prefix, r := rows[..|rows| - 1], rows[|rows| - 1];
    assert rows == prefix + [r];
    ExchangesSnoc(prefix, r);
    if e in Exchanges(prefix) then
      var j := FirstIndex(prefix, e);
      assert rows[..j] == prefix[..j];
      j
    else |prefix|
  }

  /** Venues are numbered in the order in which the rows name them. */
  lemma {:induction false} VenuesInOrder(rows: seq<StreamRow>, e: Bytes)
    requires WithinLimits(rows) && e in Exchanges(rows)
    ensures e in Build(rows).venueIds && Build(rows).venueIds[e] == |Exchanges(rows[..FirstIndex(rows, e)])|
    decreases |rows|
  {
    hide Pack, RowKey, AddRow, Build, Exchanges, CountOf, WithinLimits;
    NoExchanges(rows);
    var prefix, r := rows[..|rows| - 1], rows[|rows| - 1];
    assert rows == prefix + [r];
    LimitsOfPrefix(prefix, r);
    InvHolds(prefix);
    BuildSnoc(prefix, r);
    ExchangesSnoc(prefix, r);
    AddRowParts(Build(prefix), prefix, r);
    assert |Build(prefix).venueIds| == |Build(prefix).venueIds.Keys|;
    if e in Exchanges(prefix) {
      VenuesInOrder(prefix, e);
      var j := FirstIndex(prefix, e);
      assert rows[..j] == prefix[..j];
    } else {
      assert rows[..|prefix|] == prefix;
    }
  }

  /** The id of a row in full, the last one of its key if it is repeated: 65536 times the number of
      exchanges named before its own, plus the number of earlier rows of its own exchange. */
  lemma {:induction false} IdInFull(rows: seq<StreamRow>, i: nat)
    requires WithinLimits(rows) && i < |rows| && IsLast(rows, i)
    ensures RowKey(rows[i]) in Build(rows).instruments && rows[i].exchange in Exchanges(rows)
    ensures IdAt(rows, i) == 65536 * |Exchanges(rows[..FirstIndex(rows, rows[i].exchange)])| + CountOf(rows[..i], rows[i].exchange)
  {
    hide Build, RowKey, Exchanges, CountOf, Pack;
    NoExchanges(rows);
    InvHolds(rows);
    KeysPresent(rows);
    VenuesInOrder(rows, rows[i].exchange);
    assert RowOk(Build(rows), rows[i], rows[..i]);
    PackFields(Build(rows).venueIds[rows[i].exchange], CountOf(rows[..i], rows[i].exchange));
  }

  /** The venue half of two ids is the same exactly when the rows name the same exchange; of rows with
      one key, this speaks of the last. */
  lemma {:induction false} VenueHalf(rows: seq<StreamRow>, i: nat, j: nat)
    requires WithinLimits(rows) && i < |rows| && j < |rows| && IsLast(rows, i) && IsLast(rows, j)
    ensures RowKey(rows[i]) in Build(rows).instruments && RowKey(rows[j]) in Build(rows).instruments
    ensures VenueOf(IdAt(rows, i)) == VenueOf(IdAt(rows, j)) <==> rows[i].exchange == rows[j].exchange
  {
    InvHolds(rows);
    assert RowOk(Build(rows), rows[i], rows[..i]) && RowOk(Build(rows), rows[j], rows[..j]);
    PackFields(Build(rows).venueIds[rows[i].exchange], CountOf(rows[..i], rows[i].exchange));
    PackFields(Build(rows).venueIds[rows[j].exchange], CountOf(rows[..j], rows[j].exchange));
  }

  // ----- lookups -----

  /** lookup: the id of a symbol received from a venue; None for the exception. */
  function Lookup(t: Tables, exchange: Bytes, symbol: Bytes): Option<nat> {
    if Key(exchange, symbol) in t.instruments then Some(t.instruments[Key(exchange, symbol)]) else None
  }

  /** All lookups of one venue as a map. */
  ghost function SymbolTable(t: Tables, exchange: Bytes): (m: map<Bytes, int>)
    ensures forall symbol :: symbol in m <==> Lookup(t, exchange, symbol).Some?
    ensures forall symbol :: symbol in m ==> m[symbol] == Lookup(t, exchange, symbol).value
  {
    var symbols := set k | k in t.instruments && exchange + [COLON] <= k :: k[|exchange| + 1..];
    forall symbol ensures symbol in symbols <==> Lookup(t, exchange, symbol).Some? {
      var k := Key(exchange, symbol);
      assert k[|exchange| + 1..] == symbol && exchange + [COLON] <= k;
      if symbol in symbols {
        var l :| l in t.instruments && exchange + [COLON] <= l && symbol == l[|exchange| + 1..];
        assert l == k;
      }
    }
    map symbol | symbol in symbols :: Lookup(t, exchange, symbol).value
  }

  /** Only keys of rows are in the table. */
  lemma {:induction false} KeysOfRows(rows: seq<StreamRow>, k: Bytes) returns (j: nat)
    requires k in Build(rows).instruments
    ensures j < |rows| && RowKey(rows[j]) == k
    decreases |rows|
  {
    hide Pack, RowKey;
    var prefix, r := rows[..|rows| - 1], rows[|rows| - 1];
    if k == RowKey(r) { j := |rows| - 1; } else { j := KeysOfRows(prefix, k); }
  }

  /** A configuration: at most 65536 rows, repeated or not, and no exchange name extending another. */
  ghost predicate Configured(rows: seq<StreamRow>) {
    |rows| <= 65536 && NoNameExtends(Exchanges(rows))
  }

  lemma {:induction false} CountAtMost(rows: seq<StreamRow>, e: Bytes)
    ensures CountOf(rows, e) <= |rows| && |Exchanges(rows)| <= |rows|
    decreases |rows|
  {
    if rows == [] {
      NoExchanges(rows);
    } else {
      var prefix, r := rows[..|rows| - 1], rows[|rows| - 1];
      assert rows == prefix + [r];
      CountAtMost(prefix, e);
      ExchangesSnoc(prefix, r);
    }
  }

  lemma ConfiguredIsUsable(rows: seq<StreamRow>)
    requires Configured(rows)
    ensures WithinLimits(rows)
  {
    hide CountOf, Exchanges;
    CountAtMost(rows, []);
    forall e | e in Exchanges(rows) ensures CountOf(rows, e) <= LIMIT { CountAtMost(rows, e); }
  }

  /** In a configuration two rows have one id exactly when they are the same row, repeated. */
  lemma {:induction false} SameIdSameRow(rows: seq<StreamRow>, i: nat, j: nat)
    requires Configured(rows) && i < |rows| && j < |rows|
    ensures RowKey(rows[i]) in Build(rows).instruments && RowKey(rows[j]) in Build(rows).instruments
    ensures IdAt(rows, i) == IdAt(rows, j) <==> rows[i] == rows[j]
  {
    hide Build, RowKey, Exchanges;
    ConfiguredIsUsable(rows);
    SameIdSameKey(rows, i, j);
    NoExchanges(rows);
    KeysDetermineRowsExactly(Exchanges(rows));
  }

  /** A venue's lookups find exactly its own rows: a symbol is known if and only if the venue has a row
      for it, and the id is that row's, with the venue's index in its upper half. */
  lemma {:induction false} LookupFindsOwnRow(rows: seq<StreamRow>, exchange: Bytes, symbol: Bytes)
    requires Configured(rows) && exchange in Exchanges(rows)
    ensures exchange in Build(rows).venueIds
    ensures Lookup(Build(rows), exchange, symbol).Some? <==> StreamRow(exchange, symbol) in rows
    ensures forall j :: 0 <= j < |rows| && rows[j] == StreamRow(exchange, symbol) ==>
              && RowKey(rows[j]) in Build(rows).instruments
              && Lookup(Build(rows), exchange, symbol) == Some(IdAt(rows, j))
              && VenueOf(IdAt(rows, j)) == Build(rows).venueIds[exchange]
  {
    hide Build, CountOf, Exchanges;
    ConfiguredIsUsable(rows);
    InvHolds(rows);
    KeysPresent(rows);
    KeysDetermineRowsExactly(Exchanges(rows));
    NoExchanges(rows);
    var row := StreamRow(exchange, symbol);
    assert RowKey(row) == Key(exchange, symbol);
    if RowKey(row) in Build(rows).instruments {
      var j := KeysOfRows(rows, RowKey(row));
      assert rows[j] == row;
    }
    forall j | 0 <= j < |rows| && rows[j] == row
      ensures VenueOf(IdAt(rows, j)) == Build(rows).venueIds[exchange]
    {
      var l := LastRow(rows, j);
      assert rows[l] == row;
      assert RowOk(Build(rows), rows[l], rows[..l]);
      PackFields(Build(rows).venueIds[exchange], CountOf(rows[..l], exchange));
    }
  }
}
