/** The per-name queues the join consumes, as a view of the one list of rows not yet taken. */
module NamePools {
  import opened Prelude
  import opened Rows

  /** The distinct keys in order of first appearance. */
  function KeysInOrder(rows: seq<ModbusRow>): (r: seq<string>)
    ensures forall m :: m in rows ==> m.name.key in r
    ensures forall i, j :: 0 <= i < j < |r| ==> r[i] != r[j]
  {
    if rows == [] then []
    else
      var init, last := KeysInOrder(rows[..|rows| - 1]), rows[|rows| - 1];
      assert rows == rows[..|rows| - 1] + [last];
      if last.name.key in init then init else init + [last.name.key]
  }

  /** What is left, queue by queue. */
  function Gathered(keys: seq<string>, rest: seq<ModbusRow>): seq<ModbusRow> {
    if keys == [] then [] else Gathered(keys[..|keys| - 1], rest) + WithKey(rest, keys[|keys| - 1])
  }

  lemma {:induction false} WithKeyAppend(rows: seq<ModbusRow>, m: ModbusRow, key: string)
    ensures WithKey(rows + [m], key) == WithKey(rows, key) + if m.name.key == key then [m] else []
  {
    if rows == [] {
      assert rows + [m] == [m];
      assert [m][1..] == [];
    } else {
      WithKeyAppend(rows[1..], m, key);
      assert (rows + [m])[1..] == rows[1..] + [m];
    }
  }

  lemma {:induction false} GatheredEmpty(keys: seq<string>, more: seq<string>, rest: seq<ModbusRow>)
    requires forall k :: k in more ==> WithKey(rest, k) == []
    ensures Gathered(keys + more, rest) == Gathered(keys, rest)
  {
    if more == [] {
      assert keys + more == keys;
    } else {
      var init := more[..|more| - 1];
      GatheredEmpty(keys, init, rest);
      assert (keys + more)[..|keys + more| - 1] == keys + init;
      assert more[|more| - 1] in more;
    }
  }

  lemma NoMembers(rows: seq<ModbusRow>)
    requires forall m :: m !in rows
    ensures rows == []
  {
    if rows != [] {
      FirstIsMember(rows);
      assert false;
    }
  }

  lemma FirstIsMember(rows: seq<ModbusRow>)
    requires rows != []
    ensures rows[0] in rows
  {
  }

  function Uncounted(rows: seq<ModbusRow>, key: string): seq<ModbusRow> {
    if rows == [] then []
    else if rows[0].name.key == key then Uncounted(rows[1..], key)
    else [rows[0]] + Uncounted(rows[1..], key)
  }

  lemma {:induction false} UncountedSplits(rows: seq<ModbusRow>, key: string, k: string)
    ensures multiset(rows) == multiset(WithKey(rows, key)) + multiset(Uncounted(rows, key))
    ensures k != key ==> WithKey(Uncounted(rows, key), k) == WithKey(rows, k)
    ensures forall m :: m in Uncounted(rows, key) <==> m in rows && m.name.key != key
  {
    if rows != [] {
      assert rows == [rows[0]] + rows[1..];
      UncountedSplits(rows[1..], key, k);
      if rows[0].name.key != key {
        assert Uncounted(rows, key)[1..] == Uncounted(rows[1..], key);
      }
    }
  }

  lemma {:induction false} GatheredElsewhere(keys: seq<string>, rest: seq<ModbusRow>, key: string)
    requires key !in keys
    ensures Gathered(keys, Uncounted(rest, key)) == Gathered(keys, rest)
  {
    if keys != [] {
      UncountedSplits(rest, key, keys[|keys| - 1]);
      GatheredElsewhere(keys[..|keys| - 1], rest, key);
    }
  }

  /** Going through the queues loses and repeats nothing. */
  lemma {:induction false} GatheredIsEverything(keys: seq<string>, rest: seq<ModbusRow>)
    requires forall i, j :: 0 <= i < j < |keys| ==> keys[i] != keys[j]
    requires forall m :: m in rest ==> m.name.key in keys
    ensures multiset(Gathered(keys, rest)) == multiset(rest)
    decreases |keys|
  {
    if keys == [] {
      NoMembers(rest);
    } else {
      var init, last := keys[..|keys| - 1], keys[|keys| - 1];
      var others := Uncounted(rest, last);
      UncountedSplits(rest, last, last);
      assert keys == init + [last];
      GatheredIsEverything(init, others);
      GatheredElsewhere(init, rest, last);
    }
  }

  lemma NoKeyNoQueue(rows: seq<ModbusRow>, key: string)
    requires forall m :: m in rows ==> m.name.key != key
    ensures WithKey(rows, key) == []
  {
    NoMembers(WithKey(rows, key));
  }

  /** The queues hold `rest` by key. Their order of creation starts with the keys the pool was
      built from; queues made later, by looking a name up, are empty. */
  ghost predicate Holds(queues: map<string, seq<ModbusRow>>, order: seq<string>, initial: seq<ModbusRow>,
                        rest: seq<ModbusRow>) {
    && (forall k :: k in queues <==> k in order)
    && (forall k :: k in queues ==> queues[k] == WithKey(rest, k))
    && (forall m :: m in rest ==> m in initial)
    && KeysInOrder(initial) <= order
    && (forall k :: k in order[|KeysInOrder(initial)|..] ==> WithKey(rest, k) == [])
  }

  lemma KeysMore(rows: seq<ModbusRow>, m: ModbusRow)
    ensures KeysInOrder(rows + [m])
            == if m.name.key in KeysInOrder(rows) then KeysInOrder(rows) else KeysInOrder(rows) + [m.name.key]
  {
    assert (rows + [m])[..|rows|] == rows;
  }

  lemma QueuesMore(queues: map<string, seq<ModbusRow>>, rows: seq<ModbusRow>, m: ModbusRow, queue: seq<ModbusRow>)
    requires forall k :: k in queues ==> queues[k] == WithKey(rows, k)
    requires queue == WithKey(rows, m.name.key)
    ensures forall k :: k in queues[m.name.key := queue + [m]]
              ==> queues[m.name.key := queue + [m]][k] == WithKey(rows + [m], k)
  {
    forall k | k in queues[m.name.key := queue + [m]]
      ensures queues[m.name.key := queue + [m]][k] == WithKey(rows + [m], k)
    {
      WithKeyAppend(rows, m, k);
    }
  }

  /** A pool as built from `rows`, none of them taken. */
  ghost predicate Fresh(queues: map<string, seq<ModbusRow>>, order: seq<string>, rows: seq<ModbusRow>) {
    && order == KeysInOrder(rows)
    && (forall k :: k in queues <==> k in order)
    && (forall k :: k in queues ==> queues[k] == WithKey(rows, k))
  }

  lemma FreshHolds(queues: map<string, seq<ModbusRow>>, order: seq<string>, rows: seq<ModbusRow>)
    requires Fresh(queues, order, rows)
    ensures Holds(queues, order, rows, rows)
  {
    assert order[|order|..] == [];
  }

  lemma FreshMore(queues: map<string, seq<ModbusRow>>, order: seq<string>, rows: seq<ModbusRow>, m: ModbusRow)
    requires Fresh(queues, order, rows)
    ensures var key := m.name.key;
            var queue := if key in queues then queues[key] else [];
            Fresh(queues[key := queue + [m]], if key in queues then order else order + [key], rows + [m])
  {
    var key := m.name.key;
    KeysMore(rows, m);
    if key in queues {
      QueuesMore(queues, rows, m, queues[key]);
    } else {
      NoKeyNoQueue(rows, key);
      QueuesMore(queues, rows, m, []);
    }
  }

  lemma HoldsTouched(queues: map<string, seq<ModbusRow>>, order: seq<string>, initial: seq<ModbusRow>,
                     rest: seq<ModbusRow>, key: string)
    requires Holds(queues, order, initial, rest) && key !in queues
    ensures Holds(queues[key := []], order + [key], initial, rest)
  {
    NoKeyNoQueue(rest, key);
    var n := |KeysInOrder(initial)|;
    assert (order + [key])[n..] == order[n..] + [key];
  }

  lemma HoldsFewer(queues: map<string, seq<ModbusRow>>, order: seq<string>, initial: seq<ModbusRow>,
                   rest: seq<ModbusRow>,
                   key: string, queue: seq<ModbusRow>, fewer: seq<ModbusRow>)
    requires Holds(queues, order, initial, rest) && key in queues
    requires forall k :: WithKey(fewer, k) == if k == key then queue else WithKey(rest, k)
    requires forall m :: m in fewer ==> m in rest
    ensures Holds(queues[key := queue], order, initial, fewer)
  {
    forall k | k in order[|KeysInOrder(initial)|..]
      ensures WithKey(fewer, k) == []
    {
      assert forall m :: m in WithKey(fewer, k) ==> m in WithKey(rest, k);
      NoMembers(WithKey(fewer, k));
    }
  }

  lemma HoldsPopped(queues: map<string, seq<ModbusRow>>, order: seq<string>, initial: seq<ModbusRow>,
                    rest: seq<ModbusRow>, key: string)
    requires Holds(queues, order, initial, rest) && key in queues && queues[key] != []
    ensures Holds(queues[key := queues[key][1..]], order, initial, DropKey(rest, key))
  {
    forall k
      ensures WithKey(DropKey(rest, key), k) == if k == key then queues[key][1..] else WithKey(rest, k)
    {
      QueueAfterDrop(rest, key, k);
    }
    HoldsFewer(queues, order, initial, rest, key, queues[key][1..], DropKey(rest, key));
  }

  lemma HoldsRemoved(queues: map<string, seq<ModbusRow>>, order: seq<string>, initial: seq<ModbusRow>,
                     rest: seq<ModbusRow>, row: ModbusRow)
    requires Holds(queues, order, initial, rest) && row.name.key in queues
    ensures Holds(queues[row.name.key := RemoveFirst(queues[row.name.key], row)], order, initial, RemoveFirst(rest, row))
    ensures row !in queues[row.name.key] ==> RemoveFirst(rest, row) == rest
  {
    var key := row.name.key;
    RemoveCount(rest, row);
    forall k
      ensures WithKey(RemoveFirst(rest, row), k) == if k == key then RemoveFirst(queues[key], row) else WithKey(rest, k)
    {
      QueueAfterRemove(rest, row, k);
    }
    HoldsFewer(queues, order, initial, rest, key, RemoveFirst(queues[key], row), RemoveFirst(rest, row));
  }

  lemma TouchedKeysAreEmpty(queues: map<string, seq<ModbusRow>>, order: seq<string>, initial: seq<ModbusRow>,
                            rest: seq<ModbusRow>)
    requires Holds(queues, order, initial, rest)
    ensures Gathered(order, rest) == Gathered(KeysInOrder(initial), rest)
  {
    var keys := KeysInOrder(initial);
    assert order == keys + order[|keys|..];
    GatheredEmpty(keys, order[|keys|..], rest);
  }

  class NamePool {
    var queues: map<string, seq<ModbusRow>>
    var order: seq<string>
    ghost var rest: seq<ModbusRow>
    ghost const initial: seq<ModbusRow>

    ghost predicate Valid()
      reads this
    {
      Holds(queues, order, initial, rest)
    }

    constructor (rows: seq<ModbusRow>, regClass: int)
      ensures Valid() && initial == rest == OfClass(rows, regClass)
    {
      initial := OfClass(rows, regClass);
      rest := [];
      queues, order := map[], [];
      new;
      for i := 0 to |rows|
        invariant rest == OfClass(rows[..i], regClass)
        invariant Fresh(queues, order, rest)
      {
        assert rows[..i + 1][..i] == rows[..i];
        if rows[i].regClass == regClass {
          Append(rows[i]);
        }
      }
      assert rows[..|rows|] == rows;
      FreshHolds(queues, order, rest);
    }

    /** Queues a row while the pool is being built. */
    method Append(row: ModbusRow)
      requires Fresh(queues, order, rest)
      modifies this
      ensures Fresh(queues, order, rest) && rest == old(rest) + [row]
    {
      FreshMore(queues, order, rest, row);
      var key := row.name.key;
      var queue := if key in queues then queues[key] else [];
      order := if key in queues then order else order + [key];
      queues := queues[key := queue + [row]];
      rest := rest + [row];
    }

    /** Looking a name up leaves an empty queue behind where there was none. */
    method Touch(key: string)
      requires Valid()
      modifies this`queues, this`order
      ensures Valid() && key in queues && rest == old(rest)
    {
      if key !in queues {
        HoldsTouched(queues, order, initial, rest, key);
        queues, order := queues[key := []], order + [key];
      }
    }

    method PopLeft(key: string) returns (r: Option<ModbusRow>)
      requires Valid()
      modifies this
      ensures Valid() && r == HeadOf(old(rest), key) && rest == DropKey(old(rest), key)
    {
      Touch(key);
      HeadIsQueueHead(rest, key);
      if queues[key] == [] {
        DropCount(rest, key);
        return None;
      }
      r := Some(queues[key][0]);
      HoldsPopped(queues, order, initial, rest, key);
      queues := queues[key := queues[key][1..]];
      rest := DropKey(rest, key);
    }

    /** Takes one copy of the row out, if there is one. */
    method Remove(row: ModbusRow)
      requires Valid()
      modifies this
      ensures Valid() && rest == RemoveFirst(old(rest), row)
    {
      var key := row.name.key;
      Touch(key);
      HoldsRemoved(queues, order, initial, rest, row);
      if row in queues[key] {
        queues := queues[key := RemoveFirst(queues[key], row)];
        rest := RemoveFirst(rest, row);
      }
    }

    method Leftovers() returns (r: seq<ModbusRow>)
      requires Valid()
      ensures r == Gathered(KeysInOrder(initial), rest)
    {
      r := [];
      for i := 0 to |order|
        invariant r == Gathered(order[..i], rest)
      {
        assert order[..i + 1][..i] == order[..i];
        r := r + queues[order[i]];
      }
      assert order[..|order|] == order;
      TouchedKeysAreEmpty(queues, order, initial, rest);
    }
  }
}
