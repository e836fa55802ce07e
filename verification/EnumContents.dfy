/** What the generated package declares, record by record. */
module EnumContents {
  import opened FreshNames
  import opened Prelude
  import opened EnumNames

  // ---- Address constants ----

  function NamesOf(constants: seq<Constant>): seq<string> {
    seq(|constants|, i requires 0 <= i < |constants| => constants[i].name)
  }

  lemma {:induction false} ConstantsAreClaims(records: seq<Record>)
    ensures NamesOf(Constants(records)) == AllConstantClaims(records)
  {
    if records != [] {
      ConstantsAreClaims(records[..|records| - 1]);
    }
  }

  lemma ValueInConcat(a: seq<Constant>, b: seq<Constant>, name: string)
    ensures name in NamesOf(a) ==> ValueOf(a + b, name) == ValueOf(a, name)
    ensures name !in NamesOf(a) ==> ValueOf(a + b, name) == ValueOf(b, name)
    decreases |a|
  {
    if a == [] {
      assert a + b == b;
    } else {
      assert (a + b)[1..] == a[1..] + b;
      assert NamesOf(a) == [a[0].name] + NamesOf(a[1..]);
      ValueInConcat(a[1..], b, name);
    }
  }

  lemma {:induction false} MemberHasValue(constants: seq<Constant>, c: Constant)
    requires c in constants && forall i, j :: 0 <= i < j < |constants| ==> constants[i].name != constants[j].name
    ensures ValueOf(constants, c.name) == Some(c.value)
  {
    var k :| 0 <= k < |constants| && constants[k] == c;
    ValueOfDeclared(constants, k);
  }

  lemma {:induction false} RecordsDeclare(records: seq<Record>)
    ensures forall r :: r in records ==> Constant(r.ident, r.iec104Addr) in Constants(records)
    ensures forall r :: r in records && r.modbusAddr.Some? ==>
              Constant(r.ident + "Modbus", r.modbusAddr.value) in Constants(records)
  {
    if records != [] {
      var init, last := records[..|records| - 1], records[|records| - 1];
      assert forall r :: r in records <==> r in init || r == last by {
        assert records == init + [last];
      }
      RecordsDeclare(init);
      LastDeclares(Constants(init), last);
    }
  }

  ghost predicate DeclaredBy(records: seq<Record>, c: Constant) {
    exists r :: r in records && Declares(r, c)
  }

  lemma {:induction false} NothingElse(records: seq<Record>)
    ensures forall c :: c in Constants(records) ==> DeclaredBy(records, c)
  {
    if records != [] {
      var init, last := records[..|records| - 1], records[|records| - 1];
      NothingElse(init);
      LastDeclares(Constants(init), last);
      forall c | c in Constants(records)
        ensures DeclaredBy(records, c)
      {
        if c in Constants(init) {
          var r :| r in init && Declares(r, c);
          assert r in records;
        } else {
          assert last in records && Declares(last, c);
        }
      }
    }
  }

  /** The constant is the record's IEC-104 address under its identifier, or its Modbus address under
      the identifier with `Modbus` after it. */
  predicate Declares(r: Record, c: Constant) {
    (c.name == r.ident && c.value == r.iec104Addr)
    || (c.name == r.ident + "Modbus" && r.modbusAddr == Some(c.value))
  }

  lemma LastDeclares(before: seq<Constant>, r: Record)
    ensures Constant(r.ident, r.iec104Addr) in before + ConstantsOf(r)
    ensures r.modbusAddr.Some? ==> Constant(r.ident + "Modbus", r.modbusAddr.value) in before + ConstantsOf(r)
    ensures forall c :: c in ConstantsOf(r) ==> Declares(r, c)
  {
    var more := ConstantsOf(r);
    assert more[0] in more && (|more| > 1 ==> more[1] in more);
  }

  /** Where the identifiers differ, as a successful run makes sure, each record's identifier stands for
      its IEC-104 address and, if it has a Modbus address, the identifier with `Modbus` after it stands
      for that; nothing else is declared. */
  lemma AddressesDeclared(records: seq<Record>)
    requires Claimable(AllConstantClaims(records), {})
    ensures forall r :: r in records ==> ValueOf(Constants(records), r.ident) == Some(r.iec104Addr)
    ensures forall r :: r in records && r.modbusAddr.Some? ==>
              ValueOf(Constants(records), r.ident + "Modbus") == r.modbusAddr
    ensures forall c :: c in Constants(records) ==> DeclaredBy(records, c)
  {
    ConstantsAreClaims(records);
    RecordsDeclare(records);
    NothingElse(records);
    var all := Constants(records);
    assert forall i :: 0 <= i < |all| ==> all[i].name == AllConstantClaims(records)[i];
    forall r | r in records
      ensures ValueOf(all, r.ident) == Some(r.iec104Addr)
      ensures r.modbusAddr.Some? ==> ValueOf(all, r.ident + "Modbus") == r.modbusAddr
    {
      MemberHasValue(all, Constant(r.ident, r.iec104Addr));
      if r.modbusAddr.Some? {
        MemberHasValue(all, Constant(r.ident + "Modbus", r.modbusAddr.value));
      }
    }
  }

  // ---- Enumerations ----

  /** In record order, the records that have items. */
  function WithItems(records: seq<Record>): seq<Record> {
    if records == [] then []
    else
      var last := records[|records| - 1];
      WithItems(records[..|records| - 1]) + if last.items == [] then [] else [last]
  }

  /** The enumeration of a record: its type name, one value an item with the item's code, and one case
      an item with the item's text. */
  ghost predicate Enumerates(r: Record, pascal: string -> string, d: EnumDecl) {
    && d.typeName == r.ident + "Enum" && |d.values| == |d.cases| == |r.items|
    && forall i :: 0 <= i < |r.items| ==>
         && d.values[i].value == r.items[i].code && d.cases[i].text == r.items[i].text
         && Named(r, pascal, d, i)
  }

  /** A value's name is the type's name and its label's, unless an earlier value has that; then the
      first free number from two on comes after it. */
  ghost predicate Named(r: Record, pascal: string -> string, d: EnumDecl, i: nat)
    requires i < |d.values| && i < |r.items|
  {
    exists n: nat :: n >= 1 && IsNumbered(NamesOf(d.values), i, r.ident + "Enum" + pascal(r.items[i].text), n)
  }

  function Numbered(base: string, n: nat): string {
    if n <= 1 then base else base + Decimal(n)
  }

  /** The i-th name is the base numbered `n`, new, and all numbers before were taken. */
  ghost predicate IsNumbered(names: seq<string>, i: nat, base: string, n: nat)
    requires i < |names|
  {
    && names[i] == Numbered(base, n) && names[i] !in names[..i]
    && forall k :: 1 <= k < n ==> Numbered(base, k) in names[..i]
  }

  lemma NameAt(typeName: string, items: seq<Item>, pascal: string -> string, i: nat)
    requires i < |items|
    ensures var names := ValueNames(typeName, items, pascal);
            names[i] == FreeName(typeName + pascal(items[i].text), "", Members(names[..i]))
  {
    ValueNamesGrow(typeName, items, pascal, i);
    ValueNamesGrow(typeName, items, pascal, i + 1);
    ValueNamesSnoc(typeName, items[..i], pascal, items[i]);
    assert items[..i + 1] == items[..i] + [items[i]];
    assert ValueNames(typeName, items, pascal)[..i + 1][i] == ValueNames(typeName, items, pascal)[i];
  }

  lemma CandidateIs(base: string, k: nat)
    requires k >= 1
    ensures Candidate(base, "", k) == Numbered(base, k)
  {
    assert base + "" == base;
  }

  lemma EnumIsNamed(r: Record, pascal: string -> string, i: nat)
    requires i < |r.items|
    ensures Named(r, pascal, Enum(r, pascal), i)
  {
    var names := ValueNames(r.ident + "Enum", r.items, pascal);
    assert NamesOf(Enum(r, pascal).values) == names;
    NameIsNumbered(r.ident + "Enum", r.items, pascal, i);
  }

  lemma NameIsNumbered(typeName: string, items: seq<Item>, pascal: string -> string, i: nat)
    requires i < |items|
    ensures exists n: nat :: n >= 1
              && IsNumbered(ValueNames(typeName, items, pascal), i, typeName + pascal(items[i].text), n)
  {
    var names, base := ValueNames(typeName, items, pascal), typeName + pascal(items[i].text);
    NameAt(typeName, items, pascal, i);
    var n := FreeNameIsCandidate(base, "", Members(names[..i]));
    CandidateIs(base, n);
    forall k | 1 <= k < n
      ensures Numbered(base, k) in names[..i]
    {
      CandidateIs(base, k);
    }
    assert IsNumbered(names, i, base, n);
  }

  lemma EnumEnumerates(r: Record, pascal: string -> string)
    ensures Enumerates(r, pascal, Enum(r, pascal))
  {
    forall i | 0 <= i < |r.items|
      ensures Named(r, pascal, Enum(r, pascal), i)
    {
      EnumIsNamed(r, pascal, i);
    }
  }

  /** The package has one enumeration for each record with items, in record order. */
  lemma {:induction false} EnumsDeclared(records: seq<Record>, pascal: string -> string)
    ensures |Enums(records, pascal)| == |WithItems(records)|
    ensures forall i :: 0 <= i < |WithItems(records)| ==>
              Enumerates(WithItems(records)[i], pascal, Enums(records, pascal)[i])
  {
    if records != [] {
      var last := records[|records| - 1];
      EnumsDeclared(records[..|records| - 1], pascal);
      EnumEnumerates(last, pascal);
    }
  }
}
