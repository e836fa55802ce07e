/** The alarm and telemetry matching in closed form, and that no other matching by name pairs
    more rows. */
module JoinRanks {
  import opened Prelude
  import opened Rows
  import opened JoinSpec

  /** What is left of `rows` after each asking row has taken the first row of its name. */
  function Rest(asks: seq<IecRow>, rows: seq<ModbusRow>): seq<ModbusRow> {
    if asks == [] then rows else DropKey(Rest(asks[..|asks| - 1], rows), asks[|asks| - 1].name.key)
  }

  /** How many of `asks` carry the key. */
  function Count(asks: seq<IecRow>, key: string): (n: nat)
    ensures n <= |asks|
  {
    if asks == [] then 0 else Count(asks[..|asks| - 1], key) + if asks[|asks| - 1].name.key == key then 1 else 0
  }

  function Min(a: nat, b: nat): nat {
    if a < b then a else b
  }

  lemma {:induction false} RestQueue(asks: seq<IecRow>, rows: seq<ModbusRow>, key: string)
    ensures WithKey(Rest(asks, rows), key) == WithKey(rows, key)[Min(Count(asks, key), |WithKey(rows, key)|)..]
  {
    if asks != [] {
      var init, last := asks[..|asks| - 1], asks[|asks| - 1].name.key;
      RestQueue(init, rows, key);
      QueueAfterDrop(Rest(init, rows), last, key);
    }
  }

  /** The partner of the r-th asking row of a name is the r-th row of that name. */
  function Partner(asks: seq<IecRow>, rows: seq<ModbusRow>, i: nat): Option<ModbusRow>
    requires i < |asks|
  {
    var queue, r := WithKey(rows, asks[i].name.key), Count(asks[..i], asks[i].name.key);
    if r < |queue| then Some(queue[r]) else None
  }

  lemma HeadIsPartner(asks: seq<IecRow>, rows: seq<ModbusRow>, i: nat)
    requires i < |asks|
    ensures HeadOf(Rest(asks[..i], rows), asks[i].name.key) == Partner(asks, rows, i)
  {
    var key := asks[i].name.key;
    HeadIsQueueHead(Rest(asks[..i], rows), key);
    RestQueue(asks[..i], rows, key);
  }

  // ---- The second pass is two such matchings ----

  function Alarms(iec: seq<IecRow>): seq<IecRow> {
    if iec == [] then []
    else
      var init, last := Alarms(iec[..|iec| - 1]), iec[|iec| - 1];
      if ClassOf(last) == Alarm then init + [last] else init
  }

  /** Telemetry rows other than readback duplicates. */
  function Asking(iec: seq<IecRow>, claimed: map<int, int>): seq<IecRow> {
    if iec == [] then []
    else
      var init, last := Asking(iec[..|iec| - 1], claimed), iec[|iec| - 1];
      if ClassOf(last) == Telemetry && last.address !in claimed then init + [last] else init
  }

  /** The claims of the rows that asked one of the pools. */
  function Asked(claims: seq<Claim>, cls: PointClass, claimed: map<int, int>): seq<Claim> {
    if claims == [] then []
    else
      var init, last := Asked(claims[..|claims| - 1], cls, claimed), claims[|claims| - 1];
      if ClassOf(last.iec) == cls && (cls == Alarm || last.iec.address !in claimed) then init + [last] else init
  }

  function Paired(asks: seq<IecRow>, rows: seq<ModbusRow>): (r: seq<Claim>)
    ensures |r| == |asks|
  {
    seq(|asks|, i requires 0 <= i < |asks| => Claim(asks[i], Partner(asks, rows, i)))
  }

  lemma PairedAppend(asks: seq<IecRow>, rows: seq<ModbusRow>, row: IecRow)
    ensures Paired(asks + [row], rows) == Paired(asks, rows) + [Claim(row, HeadOf(Rest(asks, rows), row.name.key))]
  {
    var longer := asks + [row];
    assert longer[..|asks|] == asks;
    HeadIsPartner(longer, rows, |asks|);
    forall i | 0 <= i < |asks|
      ensures Partner(longer, rows, i) == Partner(asks, rows, i)
    {
      assert longer[..i] == asks[..i];
    }
  }

  lemma AskedAppend(claims: seq<Claim>, c: Claim, cls: PointClass, claimed: map<int, int>)
    ensures Asked(claims + [c], cls, claimed) ==
            Asked(claims, cls, claimed) + if ClassOf(c.iec) == cls && (cls == Alarm || c.iec.address !in claimed) then [c] else []
  {
    assert (claims + [c])[..|claims|] == claims;
  }

  /** Each alarm is paired by rank within its name against class 2, each telemetry row that is no
      readback duplicate against class 4; duplicates take nothing wherever they stand. */
  predicate ByRank(iec: seq<IecRow>, modbus: seq<ModbusRow>, claimed: map<int, int>, st: Pass2) {
    && st.alarms == Rest(Alarms(iec), OfClass(modbus, 2))
    && st.telemetry == Rest(Asking(iec, claimed), OfClass(modbus, 4))
    && Asked(st.claims, Alarm, claimed) == Paired(Alarms(iec), OfClass(modbus, 2))
    && Asked(st.claims, Telemetry, claimed) == Paired(Asking(iec, claimed), OfClass(modbus, 4))
    && forall c :: c in st.claims && ClassOf(c.iec) == Telemetry && c.iec.address in claimed ==> c.modbus.None?
  }

  lemma AskersAppend(iec: seq<IecRow>, row: IecRow, claimed: map<int, int>)
    ensures Alarms(iec + [row]) == Alarms(iec) + if ClassOf(row) == Alarm then [row] else []
    ensures Asking(iec + [row], claimed) ==
            Asking(iec, claimed) + if ClassOf(row) == Telemetry && row.address !in claimed then [row] else []
  {
    assert (iec + [row])[..|iec|] == iec;
  }

  lemma AlarmRankStep(iec: seq<IecRow>, modbus: seq<ModbusRow>, claimed: map<int, int>, st: Pass2, n: Pass2,
                      row: IecRow)
    requires ByRank(iec, modbus, claimed, st) && ClassOf(row) == Alarm
    requires n.alarms == DropKey(st.alarms, row.name.key) && n.telemetry == st.telemetry
    requires n.claims == st.claims + [Claim(row, HeadOf(st.alarms, row.name.key))]
    ensures ByRank(iec + [row], modbus, claimed, n)
  {
    AskersAppend(iec, row, claimed);
    AskedAppend(st.claims, n.claims[|st.claims|], Alarm, claimed);
    AskedAppend(st.claims, n.claims[|st.claims|], Telemetry, claimed);
    PairedAppend(Alarms(iec), OfClass(modbus, 2), row);
    RestAppend(Alarms(iec), OfClass(modbus, 2), row);
  }

  lemma TelemetryRankStep(iec: seq<IecRow>, modbus: seq<ModbusRow>, claimed: map<int, int>, st: Pass2, n: Pass2,
                          row: IecRow)
    requires ByRank(iec, modbus, claimed, st) && ClassOf(row) == Telemetry && row.address !in claimed
    requires n.alarms == st.alarms && n.telemetry == DropKey(st.telemetry, row.name.key)
    requires n.claims == st.claims + [Claim(row, HeadOf(st.telemetry, row.name.key))]
    ensures ByRank(iec + [row], modbus, claimed, n)
  {
    AskersAppend(iec, row, claimed);
    AskedAppend(st.claims, n.claims[|st.claims|], Alarm, claimed);
    AskedAppend(st.claims, n.claims[|st.claims|], Telemetry, claimed);
    PairedAppend(Asking(iec, claimed), OfClass(modbus, 4), row);
    RestAppend(Asking(iec, claimed), OfClass(modbus, 4), row);
  }

  lemma DuplicateRankStep(iec: seq<IecRow>, modbus: seq<ModbusRow>, claimed: map<int, int>, st: Pass2, n: Pass2,
                          row: IecRow)
    requires ByRank(iec, modbus, claimed, st) && ClassOf(row) == Telemetry && row.address in claimed
    requires n.alarms == st.alarms && n.telemetry == st.telemetry && n.claims == st.claims + [Claim(row, None)]
    ensures ByRank(iec + [row], modbus, claimed, n)
  {
    AskersAppend(iec, row, claimed);
    AskedAppend(st.claims, Claim(row, None), Alarm, claimed);
    AskedAppend(st.claims, Claim(row, None), Telemetry, claimed);
  }

  lemma RankStep(device: string, iec: seq<IecRow>, modbus: seq<ModbusRow>, claimed: map<int, int>, st: Pass2,
                 row: IecRow)
    requires InPools(st) && ByRank(iec, modbus, claimed, st)
    ensures ByRank(iec + [row], modbus, claimed, Step2(device, claimed, st, row))
  {
    var n := Step2(device, claimed, st, row);
    match ClassOf(row)
    case Setpoint => AskersAppend(iec, row, claimed);
    case Alarm => AlarmRankStep(iec, modbus, claimed, st, n, row);
    case Telemetry =>
      if row.address in claimed {
        DuplicateRankStep(iec, modbus, claimed, st, n, row);
      } else {
        TelemetryRankStep(iec, modbus, claimed, st, n, row);
      }
  }

  lemma {:induction false} SecondPassPairsByRank(device: string, iec: seq<IecRow>, modbus: seq<ModbusRow>,
                                                 claimed: map<int, int>, points: map<int, JoinedPoint>)
    ensures ByRank(iec, modbus, claimed, Second(device, iec, modbus, claimed, points))
  {
    if iec != [] {
      var init, row := iec[..|iec| - 1], iec[|iec| - 1];
      assert iec == init + [row];
      SecondPassPairsByRank(device, init, modbus, claimed, points);
      RankStep(device, init, modbus, claimed, Second(device, init, modbus, claimed, points), row);
    }
  }

  lemma RestAppend(asks: seq<IecRow>, rows: seq<ModbusRow>, row: IecRow)
    ensures Rest(asks + [row], rows) == DropKey(Rest(asks, rows), row.name.key)
  {
    assert (asks + [row])[..|asks|] == asks;
  }

  // ---- No matching by name is larger ----

  /** A one-to-one pairing of asking rows with rows of their names. */
  predicate Matching(m: map<nat, nat>, asks: seq<IecRow>, rows: seq<ModbusRow>) {
    && (forall i :: i in m ==> i < |asks| && m[i] < |rows| && asks[i].name.key == rows[m[i]].name.key)
    && (forall i, j :: i in m && j in m && i != j ==> m[i] != m[j])
  }

  /** The asking rows the join gives a partner. */
  function Made(asks: seq<IecRow>, rows: seq<ModbusRow>): set<nat> {
    set i: nat | i < |asks| && Partner(asks, rows, i).Some?
  }

  /** The position of the r-th asking row of a name. */
  function NthAsk(asks: seq<IecRow>, key: string, r: nat): (i: nat)
    requires r < Count(asks, key)
    ensures i < |asks| && asks[i].name.key == key && Count(asks[..i], key) == r
  {
    var n := |asks| - 1;
    if r < Count(asks[..n], key) then
      var i := NthAsk(asks[..n], key, r);
      assert asks[..n][..i] == asks[..i];
      i
    else n
  }

  /** How many earlier rows share the row's name. */
  function RankOf(rows: seq<ModbusRow>, j: nat): nat
    requires j < |rows|
  {
    |WithKey(rows[..j], rows[j].name.key)|
  }

  lemma {:induction false} WithKeySplit(a: seq<ModbusRow>, b: seq<ModbusRow>, key: string)
    ensures WithKey(a + b, key) == WithKey(a, key) + WithKey(b, key)
  {
    if a == [] {
      assert a + b == b;
    } else {
      WithKeySplit(a[1..], b, key);
      assert (a + b)[1..] == a[1..] + b;
    }
  }

  lemma RankBelowQueue(rows: seq<ModbusRow>, j: nat)
    requires j < |rows|
    ensures RankOf(rows, j) < |WithKey(rows, rows[j].name.key)|
  {
    var key := rows[j].name.key;
    assert rows == rows[..j] + rows[j..];
    WithKeySplit(rows[..j], rows[j..], key);
    assert WithKey(rows[j..], key) == [rows[j]] + WithKey(rows[j..][1..], key);
  }

  lemma RankRises(rows: seq<ModbusRow>, i: nat, j: nat)
    requires i < j < |rows| && rows[i].name.key == rows[j].name.key
    ensures RankOf(rows, i) < RankOf(rows, j)
  {
    assert rows[..j][..i] == rows[..i] && rows[..j][i] == rows[i];
    RankBelowQueue(rows[..j], i);
  }

  /** Where the join's matching accounts for a pair of another one: at its asking row while the
      name has rows to spare, else at the asking row the join gave the pair's register row. */
  function Account(asks: seq<IecRow>, rows: seq<ModbusRow>, i: nat, j: nat): nat
    requires i < |asks| && j < |rows| && asks[i].name.key == rows[j].name.key
  {
    var key := asks[i].name.key;
    if Count(asks, key) <= |WithKey(rows, key)| || RankOf(rows, j) >= Count(asks, key) then i
    else NthAsk(asks, key, RankOf(rows, j))
  }

  lemma {:induction false} CountGrows(asks: seq<IecRow>, key: string, i: nat)
    requires i < |asks|
    ensures Count(asks[..i], key) + (if asks[i].name.key == key then 1 else 0) <= Count(asks, key)
    decreases |asks|
  {
    var n := |asks| - 1;
    if i < n {
      CountGrows(asks[..n], key, i);
      assert asks[..n][..i] == asks[..i];
    }
  }

  lemma AccountIsMade(asks: seq<IecRow>, rows: seq<ModbusRow>, i: nat, j: nat)
    requires i < |asks| && j < |rows| && asks[i].name.key == rows[j].name.key
    ensures Account(asks, rows, i, j) in Made(asks, rows)
    ensures asks[Account(asks, rows, i, j)].name.key == asks[i].name.key
  {
    RankBelowQueue(rows, j);
    CountGrows(asks, asks[i].name.key, i);
  }

  lemma {:induction false} NoMoreThan(m: map<nat, nat>, s: set<nat>)
    requires forall i :: i in m ==> m[i] in s
    requires forall i, j :: i in m && j in m && i != j ==> m[i] != m[j]
    ensures |m| <= |s|
    decreases |m|
  {
    if m != map[] {
      var i :| i in m;
      var fewer := m - {i};
      assert fewer.Keys == m.Keys - {i};
      NoMoreThan(fewer, s - {m[i]});
    }
  }

  /** The greedy matching is a largest one. */
  lemma NoLargerMatching(m: map<nat, nat>, asks: seq<IecRow>, rows: seq<ModbusRow>)
    requires Matching(m, asks, rows)
    ensures |m| <= |Made(asks, rows)|
  {
    var account := map i | i in m :: Account(asks, rows, i, m[i]);
    forall i | i in account
      ensures account[i] in Made(asks, rows)
    {
      AccountIsMade(asks, rows, i, m[i]);
    }
    forall i, j | i in account && j in account && i != j
      ensures account[i] != account[j]
    {
      AccountIsMade(asks, rows, i, m[i]);
      AccountIsMade(asks, rows, j, m[j]);
      RankBelowQueue(rows, m[i]);
      RankBelowQueue(rows, m[j]);
      if asks[i].name.key == asks[j].name.key {
        if m[i] < m[j] {
          RankRises(rows, m[i], m[j]);
        } else {
          RankRises(rows, m[j], m[i]);
        }
      }
    }
    assert account.Keys == m.Keys;
    NoMoreThan(account, Made(asks, rows));
  }
}
