/** The identifiers the code generator emits, and what a generated enumeration's names decode to. */
module EnumNames {
  import opened FreshNames
  import opened Prelude

  datatype Collision = Collision(name: string, wantedBy: string, claimedBy: string)

  /** One enumeration value as the catalogue gives it; items come sorted by code. */
  datatype Item = Item(code: int, text: string)

  /** A catalogue record: where it comes from, its identifier and what the generators read. */
  datatype Record = Record(path: string, ident: string, iec104Addr: int, modbusAddr: Option<int>, items: seq<Item>)

  datatype Constant = Constant(name: string, value: int)

  datatype Case = Case(name: string, text: string)

  datatype EnumDecl = EnumDecl(typeName: string, values: seq<Constant>, cases: seq<Case>)

  // ---- Claiming names ----

  function Members(names: seq<string>): set<string> {
    set n | n in names
  }

  /** Pairwise distinct, and none taken before. */
  predicate Claimable(names: seq<string>, taken: set<string>) {
    && (forall i :: 0 <= i < |names| ==> names[i] !in taken)
    && (forall i, j :: 0 <= i < j < |names| ==> names[i] != names[j])
  }

  lemma ClaimableSnoc(names: seq<string>, name: string, taken: set<string>)
    ensures Claimable(names + [name], taken) <==> Claimable(names, taken) && name !in taken + Members(names)
    ensures Members(names + [name]) == Members(names) + {name}
  {
    var all := names + [name];
    if Claimable(all, taken) {
      assert all[|names|] == name;
      forall i | 0 <= i < |names|
        ensures names[i] !in taken && names[i] != name
      {
        assert all[i] == names[i];
      }
      forall i, j | 0 <= i < j < |names|
        ensures names[i] != names[j]
      {
        assert all[i] == names[i] && all[j] == names[j];
      }
    }
  }

  lemma ClaimablePrefix(names: seq<string>, all: seq<string>, taken: set<string>)
    requires names <= all && Claimable(all, taken)
    ensures Claimable(names, taken)
  {
    assert forall i :: 0 <= i < |names| ==> names[i] == all[i];
  }

  class NameRegistry {
    var seen: map<string, string>

    constructor ()
      ensures seen == map[]
    {
      seen := map[];
    }

    method Claim(name: string, context: string) returns (r: Result<string, Collision>)
      modifies this
      ensures r.Success? <==> name !in old(seen)
      ensures r.Success? ==> r.value == name && seen == old(seen)[name := context]
      ensures r.Failure? ==> r.error == Collision(name, context, old(seen)[name]) && seen == old(seen)
    {
      if name in seen {
        return Failure(Collision(name, context, seen[name]));
      }
      seen := seen[name := context];
      r := Success(name);
    }
  }

  // ---- Address constants ----

  function ConstantsOf(r: Record): seq<Constant> {
    [Constant(r.ident, r.iec104Addr)] + if r.modbusAddr.Some? then [Constant(r.ident + "Modbus", r.modbusAddr.value)] else []
  }

  function Constants(records: seq<Record>): seq<Constant> {
    if records == [] then [] else Constants(records[..|records| - 1]) + ConstantsOf(records[|records| - 1])
  }

  /** The identifiers one record's constants claim, in order. */
  function ConstantClaims(r: Record): seq<string> {
    [r.ident] + if r.modbusAddr.Some? then [r.ident + "Modbus"] else []
  }

  function AllConstantClaims(records: seq<Record>): seq<string> {
    if records == [] then [] else AllConstantClaims(records[..|records| - 1]) + ConstantClaims(records[|records| - 1])
  }

  lemma {:induction false} ConstantClaimsGrow(records: seq<Record>, i: nat)
    requires i < |records|
    ensures AllConstantClaims(records[..i + 1]) == AllConstantClaims(records[..i]) + ConstantClaims(records[i])
    ensures Constants(records[..i + 1]) == Constants(records[..i]) + ConstantsOf(records[i])
    ensures AllConstantClaims(records[..i + 1]) <= AllConstantClaims(records)
  {
    assert records[..i + 1][..i] == records[..i];
    if i + 1 == |records| {
      assert records[..i + 1] == records;
    } else {
      var init := records[..|records| - 1];
      ConstantClaimsGrow(init, i);
      assert init[..i + 1] == records[..i + 1];
    }
  }

  // ---- Enumerations ----

  /** Each label's name within its type, numbered when an earlier label took it. */
  ghost function ValueNames(typeName: string, items: seq<Item>, pascal: string -> string): (names: seq<string>)
    ensures |names| == |items|
  {
    if items == [] then []
    else
      var names := ValueNames(typeName, items[..|items| - 1], pascal);
      names + [FreeName(typeName + pascal(items[|items| - 1].text), "", Members(names))]
  }

  /** The name each code ends up with; a repeated code keeps the last. */
  function NameTable(items: seq<Item>, names: seq<string>): map<int, string>
    requires |names| == |items|
  {
    if items == [] then map[]
    else
      var n := |items| - 1;
      NameTable(items[..n], names[..n])[items[n].code := names[n]]
  }

  /** Every code has a name, given to one of its own items. */
  lemma {:induction false} NameTableCovers(items: seq<Item>, names: seq<string>)
    requires |names| == |items|
    ensures forall i :: 0 <= i < |items| ==> items[i].code in NameTable(items, names)
    ensures forall code :: code in NameTable(items, names) ==>
      exists i :: 0 <= i < |items| && items[i].code == code && names[i] == NameTable(items, names)[code]
  {
    if items != [] {
      var n := |items| - 1;
      NameTableCovers(items[..n], names[..n]);
      forall code | code in NameTable(items, names)
        ensures exists i :: 0 <= i < |items| && items[i].code == code && names[i] == NameTable(items, names)[code]
      {
        if code == items[n].code {
          assert names[n] == NameTable(items, names)[code];
        } else {
          var i :| 0 <= i < n && items[..n][i].code == code && names[..n][i] == NameTable(items[..n], names[..n])[code];
          assert items[i].code == code && names[i] == NameTable(items, names)[code];
        }
      }
      forall i | 0 <= i < |items|
        ensures items[i].code in NameTable(items, names)
      {
        if i < n {
          assert items[..n][i].code in NameTable(items[..n], names[..n]);
        }
      }
    }
  }

  function ValuesDeclared(items: seq<Item>, names: seq<string>): seq<Constant>
    requires |names| == |items|
  {
    seq(|items|, i requires 0 <= i < |items| => Constant(names[i], items[i].code))
  }

  function CasesDeclared(items: seq<Item>, table: map<int, string>): seq<Case>
    requires forall i :: 0 <= i < |items| ==> items[i].code in table
  {
    seq(|items|, i requires 0 <= i < |items| => Case(table[items[i].code], items[i].text))
  }

  ghost function Enum(r: Record, pascal: string -> string): EnumDecl {
    var typeName := r.ident + "Enum";
    var names := ValueNames(typeName, r.items, pascal);
    NameTableCovers(r.items, names);
    EnumDecl(typeName, ValuesDeclared(r.items, names), CasesDeclared(r.items, NameTable(r.items, names)))
  }

  /** Nothing for a record without items. */
  ghost function EnumOf(r: Record, pascal: string -> string): seq<EnumDecl> {
    if r.items == [] then [] else [Enum(r, pascal)]
  }

  ghost function Enums(records: seq<Record>, pascal: string -> string): seq<EnumDecl> {
    if records == [] then []
    else Enums(records[..|records| - 1], pascal) + EnumOf(records[|records| - 1], pascal)
  }

  /** The identifiers one enumeration claims, in order. */
  ghost function EnumClaims(r: Record, pascal: string -> string): seq<string> {
    if r.items == [] then [] else [r.ident + "Enum"] + ValueNames(r.ident + "Enum", r.items, pascal)
  }

  ghost function AllEnumClaims(records: seq<Record>, pascal: string -> string): seq<string> {
    if records == [] then []
    else AllEnumClaims(records[..|records| - 1], pascal) + EnumClaims(records[|records| - 1], pascal)
  }

  method ClaimName(registry: NameRegistry, name: string, context: string, ghost claimed: seq<string>,
                   ghost taken: set<string>)
    returns (error: Option<Collision>)
    requires Claimable(claimed, taken) && registry.seen.Keys == taken + Members(claimed)
    modifies registry
    ensures error.None? <==> Claimable(claimed + [name], taken)
    ensures error.None? ==> registry.seen.Keys == taken + Members(claimed + [name])
  {
    ClaimableSnoc(claimed, name, taken);
    var r := registry.Claim(name, context);
    error := if r.Success? then None else Some(r.error);
  }

  lemma RefusedSoFar(names: seq<string>, all: seq<string>, taken: set<string>)
    requires names <= all && !Claimable(names, taken)
    ensures !Claimable(all, taken)
  {
    if Claimable(all, taken) {
      ClaimablePrefix(names, all, taken);
    }
  }

  method ConstantsOfRecord(rec: Record, registry: NameRegistry, ghost claimed: seq<string>, ghost taken: set<string>)
    returns (out: seq<Constant>, error: Option<Collision>)
    requires Claimable(claimed, taken) && registry.seen.Keys == taken + Members(claimed)
    modifies registry
    ensures error.None? <==> Claimable(claimed + ConstantClaims(rec), taken)
    ensures error.None? ==> out == ConstantsOf(rec)
                            && registry.seen.Keys == taken + Members(claimed + ConstantClaims(rec))
  {
    out := [];
    error := ClaimName(registry, rec.ident, rec.path + " iec104_addr const", claimed, taken);
    if error.Some? {
      RefusedSoFar(claimed + [rec.ident], claimed + ConstantClaims(rec), taken);
      return;
    }
    out := [Constant(rec.ident, rec.iec104Addr)];
    if rec.modbusAddr.Some? {
      error := ClaimName(registry, rec.ident + "Modbus", rec.path + " modbus_addr const", claimed + [rec.ident], taken);
      assert claimed + [rec.ident] + [rec.ident + "Modbus"] == claimed + ConstantClaims(rec);
      out := out + [Constant(rec.ident + "Modbus", rec.modbusAddr.value)];
    } else {
      assert ConstantClaims(rec) == [rec.ident];
    }
  }

  method GenConstants(records: seq<Record>, registry: NameRegistry) returns (r: Result<seq<Constant>, Collision>)
    modifies registry
    ensures r.Success? <==> Claimable(AllConstantClaims(records), old(registry.seen.Keys))
    ensures r.Success? ==> r.value == Constants(records)
                           && registry.seen.Keys == old(registry.seen.Keys) + Members(AllConstantClaims(records))
  {
    var out: seq<Constant> := [];
    ghost var taken := registry.seen.Keys;
    for i := 0 to |records|
      invariant out == Constants(records[..i])
      invariant Claimable(AllConstantClaims(records[..i]), taken)
      invariant registry.seen.Keys == taken + Members(AllConstantClaims(records[..i]))
    {
      ghost var claimed := AllConstantClaims(records[..i]);
      ConstantClaimsGrow(records, i);
      var more, error := ConstantsOfRecord(records[i], registry, claimed, taken);
      if error.Some? {
        RefusedSoFar(AllConstantClaims(records[..i + 1]), AllConstantClaims(records), taken);
        return Failure(error.value);
      }
      out := out + more;
    }
    assert records[..|records|] == records;
    r := Success(out);
  }

  // ---- Generating the enumerations ----

  lemma {:induction false} ValueNamesGrow(typeName: string, items: seq<Item>, pascal: string -> string, i: nat)
    requires i <= |items|
    ensures ValueNames(typeName, items[..i], pascal) == ValueNames(typeName, items, pascal)[..i]
  {
    if i == |items| {
      assert items[..i] == items;
    } else {
      var init := items[..|items| - 1];
      ValueNamesGrow(typeName, init, pascal, i);
      assert init[..i] == items[..i];
    }
  }

  lemma ValueNamesSnoc(typeName: string, items: seq<Item>, pascal: string -> string, item: Item)
    ensures ValueNames(typeName, items + [item], pascal)
            == ValueNames(typeName, items, pascal)
               + [FreeName(typeName + pascal(item.text), "", Members(ValueNames(typeName, items, pascal)))]
  {
    assert (items + [item])[..|items|] == items;
  }

  lemma NameTableSnoc(items: seq<Item>, names: seq<string>, item: Item, name: string)
    requires |names| == |items|
    ensures NameTable(items + [item], names + [name]) == NameTable(items, names)[item.code := name]
  {
    assert (items + [item])[..|items|] == items && (names + [name])[..|items|] == names;
  }

  /** The accumulators of the value loop after `items`. */
  ghost predicate Accumulated(typeName: string, items: seq<Item>, pascal: string -> string, names: seq<string>,
                              seenNames: set<string>, values: seq<Constant>, valueNames: map<int, string>) {
    && names == ValueNames(typeName, items, pascal)
    && seenNames == Members(names)
    && values == ValuesDeclared(items, names)
    && valueNames == NameTable(items, names)
  }

  lemma AccumulatedNone(typeName: string, items: seq<Item>, pascal: string -> string)
    ensures Accumulated(typeName, items[..0], pascal, [], {}, [], map[])
  {
  }

  lemma AccumulatedNext(typeName: string, items: seq<Item>, pascal: string -> string, i: nat, names: seq<string>,
                        seenNames: set<string>, values: seq<Constant>, valueNames: map<int, string>, name: string)
    requires i < |items| && Accumulated(typeName, items[..i], pascal, names, seenNames, values, valueNames)
    requires name == FreeName(typeName + pascal(items[i].text), "", seenNames)
    ensures Accumulated(typeName, items[..i + 1], pascal, names + [name], seenNames + {name},
                        values + [Constant(name, items[i].code)], valueNames[items[i].code := name])
  {
    ValueNamesSnoc(typeName, items[..i], pascal, items[i]);
    NameTableSnoc(items[..i], names, items[i], name);
    assert items[..i + 1] == items[..i] + [items[i]];
    MembersSnoc(names, name);
    ValuesDeclaredSnoc(items[..i], names, items[i], name);
  }

  lemma MembersSnoc(names: seq<string>, name: string)
    ensures Members(names + [name]) == Members(names) + {name}
  {
  }

  lemma ValuesDeclaredSnoc(items: seq<Item>, names: seq<string>, item: Item, name: string)
    requires |names| == |items|
    ensures ValuesDeclared(items + [item], names + [name]) == ValuesDeclared(items, names) + [Constant(name, item.code)]
  {
  }

  /** One value: its free name, claimed after `names`. */
  method NameValue(registry: NameRegistry, base: string, seenNames: set<string>, context: string,
                   ghost claimed: seq<string>, ghost names: seq<string>, ghost taken: set<string>)
    returns (name: string, error: Option<Collision>)
    requires Claimable(claimed + names, taken) && registry.seen.Keys == taken + Members(claimed + names)
    modifies registry
    ensures name == FreeName(base, "", seenNames)
    ensures error.None? <==> Claimable(claimed + (names + [name]), taken)
    ensures error.None? ==> registry.seen.Keys == taken + Members(claimed + (names + [name]))
  {
    name := NextFree(base, "", seenNames);
    error := ClaimName(registry, name, context, claimed + names, taken);
    assert claimed + names + [name] == claimed + (names + [name]);
  }

  /** Names and declares the values of one enumeration. */
  method DeclareValues(rec: Record, typeName: string, registry: NameRegistry, pascal: string -> string,
                       ghost claimed: seq<string>, ghost taken: set<string>)
    returns (values: seq<Constant>, valueNames: map<int, string>, error: Option<Collision>)
    requires Claimable(claimed, taken) && registry.seen.Keys == taken + Members(claimed)
    modifies registry
    ensures error.None? <==> Claimable(claimed + ValueNames(typeName, rec.items, pascal), taken)
    ensures error.None? ==> registry.seen.Keys == taken + Members(claimed + ValueNames(typeName, rec.items, pascal))
    ensures error.None? ==> exists names, seenNames :: Accumulated(typeName, rec.items, pascal, names, seenNames, values, valueNames)
  {
    var seenNames: set<string> := {};
    ghost var names: seq<string> := [];
    values, valueNames, error := [], map[], None;
    assert claimed + [] == claimed;
    AccumulatedNone(typeName, rec.items, pascal);
    for i := 0 to |rec.items|
      invariant Accumulated(typeName, rec.items[..i], pascal, names, seenNames, values, valueNames)
      invariant error.None? && Claimable(claimed + names, taken) && registry.seen.Keys == taken + Members(claimed + names)
    {
      var item, name := rec.items[i], "";
      name, error := NameValue(registry, typeName + pascal(item.text), seenNames, rec.path + " enum value", claimed, names, taken);
      AccumulatedNext(typeName, rec.items, pascal, i, names, seenNames, values, valueNames, name);
      seenNames := seenNames + {name};
      valueNames := valueNames[item.code := name];
      names := names + [name];
      values := values + [Constant(name, item.code)];
      if error.Some? {
        RefusedValue(typeName, rec.items, pascal, i + 1, names, claimed, taken);
        return;
      }
    }
    assert rec.items[..|rec.items|] == rec.items;
  }

  lemma RefusedValue(typeName: string, items: seq<Item>, pascal: string -> string, i: nat, names: seq<string>,
                     claimed: seq<string>, taken: set<string>)
    requires i <= |items| && names == ValueNames(typeName, items[..i], pascal) && !Claimable(claimed + names, taken)
    ensures !Claimable(claimed + ValueNames(typeName, items, pascal), taken)
  {
    ValueNamesGrow(typeName, items, pascal, i);
    RefusedSoFar(claimed + names, claimed + ValueNames(typeName, items, pascal), taken);
  }

  method CasesOf(items: seq<Item>, valueNames: map<int, string>) returns (cases: seq<Case>)
    requires forall i :: 0 <= i < |items| ==> items[i].code in valueNames
    ensures cases == CasesDeclared(items, valueNames)
  {
    cases := [];
    for i := 0 to |items|
      invariant |cases| == i && forall k :: 0 <= k < i ==> cases[k] == Case(valueNames[items[k].code], items[k].text)
    {
      cases := cases + [Case(valueNames[items[i].code], items[i].text)];
    }
  }

  method EnumOfRecord(rec: Record, registry: NameRegistry, pascal: string -> string, ghost claimed: seq<string>,
                      ghost taken: set<string>)
    returns (out: seq<EnumDecl>, error: Option<Collision>)
    requires Claimable(claimed, taken) && registry.seen.Keys == taken + Members(claimed)
    modifies registry
    ensures error.None? <==> Claimable(claimed + EnumClaims(rec, pascal), taken)
    ensures error.None? ==> out == EnumOf(rec, pascal)
                            && registry.seen.Keys == taken + Members(claimed + EnumClaims(rec, pascal))
  {
    out, error := [], None;
    if rec.items == [] {
      assert claimed + EnumClaims(rec, pascal) == claimed;
      return;
    }
    var typeName := rec.ident + "Enum";
    ghost var withType := claimed + [typeName];
    assert withType + ValueNames(typeName, rec.items, pascal) == claimed + EnumClaims(rec, pascal);
    error := ClaimName(registry, typeName, rec.path + " enum type", claimed, taken);
    if error.Some? {
      RefusedSoFar(withType, claimed + EnumClaims(rec, pascal), taken);
      return;
    }
    var values, valueNames;
    values, valueNames, error := DeclareValues(rec, typeName, registry, pascal, withType, taken);
    if error.None? {
      NameTableCovers(rec.items, ValueNames(typeName, rec.items, pascal));
      var cases := CasesOf(rec.items, valueNames);
      out := [EnumDecl(typeName, values, cases)];
    }
  }

  lemma EnumClaimsSnoc(records: seq<Record>, pascal: string -> string, i: nat)
    requires i < |records|
    ensures AllEnumClaims(records[..i + 1], pascal)
            == AllEnumClaims(records[..i], pascal) + EnumClaims(records[i], pascal)
  {
    assert records[..i + 1][..i] == records[..i];
  }

  lemma {:induction false} EnumClaimsPrefix(records: seq<Record>, pascal: string -> string, i: nat)
    requires i <= |records|
    ensures AllEnumClaims(records[..i], pascal) <= AllEnumClaims(records, pascal)
  {
    if i == |records| {
      assert records[..i] == records;
    } else {
      var init := records[..|records| - 1];
      EnumClaimsPrefix(init, pascal, i);
      assert init[..i] == records[..i];
    }
  }

  lemma EnumsGrow(records: seq<Record>, pascal: string -> string, i: nat)
    requires i < |records|
    ensures Enums(records[..i + 1], pascal) == Enums(records[..i], pascal) + EnumOf(records[i], pascal)
  {
    assert records[..i + 1][..i] == records[..i];
  }

  method GenEnums(records: seq<Record>, registry: NameRegistry, pascal: string -> string)
    returns (r: Result<seq<EnumDecl>, Collision>)
    modifies registry
    ensures r.Success? <==> Claimable(AllEnumClaims(records, pascal), old(registry.seen.Keys))
    ensures r.Success? ==> r.value == Enums(records, pascal)
  {
    var out: seq<EnumDecl> := [];
    ghost var taken := registry.seen.Keys;
    for i := 0 to |records|
      invariant out == Enums(records[..i], pascal)
      invariant Claimable(AllEnumClaims(records[..i], pascal), taken)
      invariant registry.seen.Keys == taken + Members(AllEnumClaims(records[..i], pascal))
    {
      ghost var claimed := AllEnumClaims(records[..i], pascal);
      EnumClaimsSnoc(records, pascal, i);
      EnumClaimsPrefix(records, pascal, i + 1);
      EnumsGrow(records, pascal, i);
      var more, error := EnumOfRecord(records[i], registry, pascal, claimed, taken);
      if error.Some? {
        RefusedSoFar(AllEnumClaims(records[..i + 1], pascal), AllEnumClaims(records, pascal), taken);
        return Failure(error.value);
      }
      out := out + more;
    }
    assert records[..|records|] == records;
    r := Success(out);
  }

  datatype Package = Package(constants: seq<Constant>, enums: seq<EnumDecl>)

  /** Every identifier of a run, in the order it is claimed. */
  ghost function AllClaims(records: seq<Record>, pascal: string -> string): seq<string> {
    AllConstantClaims(records) + AllEnumClaims(records, pascal)
  }

  /** A run through one registry succeeds exactly when all its identifiers are distinct. */
  method Generate(records: seq<Record>, pascal: string -> string) returns (r: Result<Package, Collision>)
    ensures r.Success? <==> Claimable(AllClaims(records, pascal), {})
    ensures r.Success? ==> r.value == Package(Constants(records), Enums(records, pascal))
  {
    var registry := new NameRegistry();
    var constants := GenConstants(records, registry);
    ClaimableConcat(AllConstantClaims(records), AllEnumClaims(records, pascal));
    if constants.Failure? {
      return Failure(constants.error);
    }
    var enums := GenEnums(records, registry, pascal);
    if enums.Failure? {
      return Failure(enums.error);
    }
    r := Success(Package(constants.value, enums.value));
  }

  lemma ClaimableConcat(a: seq<string>, b: seq<string>)
    ensures Claimable(a + b, {}) <==> Claimable(a, {}) && Claimable(b, Members(a))
  {
    var all := a + b;
    if Claimable(all, {}) {
      ClaimablePrefix(a, all, {});
      forall i | 0 <= i < |b|
        ensures b[i] !in Members(a)
      {
        assert all[|a| + i] == b[i];
        assert forall k :: 0 <= k < |a| ==> all[k] == a[k];
      }
      forall i, j | 0 <= i < j < |b|
        ensures b[i] != b[j]
      {
        assert all[|a| + i] == b[i] && all[|a| + j] == b[j];
      }
    }
  }

  // ---- What the generated names decode to ----

  predicate Distinct(names: seq<string>) {
    forall i, j :: 0 <= i < j < |names| ==> names[i] != names[j]
  }

  /** Whatever the labels, the values of one enumeration have distinct names. */
  lemma {:induction false} ValueNamesAreDistinct(typeName: string, items: seq<Item>, pascal: string -> string)
    ensures Distinct(ValueNames(typeName, items, pascal))
  {
    if items != [] {
      ValueNamesAreDistinct(typeName, items[..|items| - 1], pascal);
    }
  }

  /** The value a name was declared with. */
  function ValueOf(values: seq<Constant>, name: string): Option<int> {
    if values == [] then None
    else if values[0].name == name then Some(values[0].value)
    else ValueOf(values[1..], name)
  }

  /** The generated `String` method: the first case whose constant equals the value. */
  function StringOf(values: seq<Constant>, cases: seq<Case>, v: int): Option<string> {
    if cases == [] then None
    else if ValueOf(values, cases[0].name) == Some(v) then Some(cases[0].text)
    else StringOf(values, cases[1..], v)
  }

  predicate FitsInt32(v: int) {
    -0x8000_0000 <= v < 0x8000_0000
  }

  /** A constant that overflows the declared `int32`, or two equal constants in one switch, do not
      compile. */
  predicate Compiles(d: EnumDecl) {
    && (forall c :: c in d.values ==> FitsInt32(c.value))
    && (forall i, j :: 0 <= i < j < |d.cases| ==>
          ValueOf(d.values, d.cases[i].name) != ValueOf(d.values, d.cases[j].name))
  }

  predicate CodesDiffer(items: seq<Item>) {
    forall i, j :: 0 <= i < j < |items| ==> items[i].code != items[j].code
  }

  predicate CodesFit(items: seq<Item>) {
    forall i :: 0 <= i < |items| ==> FitsInt32(items[i].code)
  }

  lemma {:induction false} ValueOfDeclared(values: seq<Constant>, k: nat)
    requires k < |values| && forall i, j :: 0 <= i < j < |values| ==> values[i].name != values[j].name
    ensures ValueOf(values, values[k].name) == Some(values[k].value)
  {
    if k > 0 {
      ValueOfDeclared(values[1..], k - 1);
    }
  }

  /** Each case carries its item's code, even where a repeated code replaced the name. */
  lemma CaseCarriesItsCode(r: Record, pascal: string -> string, i: nat)
    requires i < |r.items|
    ensures ValueOf(Enum(r, pascal).values, Enum(r, pascal).cases[i].name) == Some(r.items[i].code)
  {
    var names := ValueNames(r.ident + "Enum", r.items, pascal);
    ValueNamesAreDistinct(r.ident + "Enum", r.items, pascal);
    NameTableCovers(r.items, names);
    var k :| 0 <= k < |r.items| && r.items[k].code == r.items[i].code && names[k] == NameTable(r.items, names)[r.items[i].code];
    ValueOfDeclared(ValuesDeclared(r.items, names), k);
  }

  lemma DeclaredCodes(items: seq<Item>, names: seq<string>)
    requires |names| == |items|
    ensures (forall c :: c in ValuesDeclared(items, names) ==> FitsInt32(c.value)) <==> CodesFit(items)
  {
    var values := ValuesDeclared(items, names);
    forall i | 0 <= i < |items|
      ensures values[i] in values && values[i].value == items[i].code
    {
    }
  }

  /** The generated enumeration compiles exactly when the codes differ and fit the type declared. */
  lemma EnumCompilesIff(r: Record, pascal: string -> string)
    ensures Compiles(Enum(r, pascal)) <==> CodesDiffer(r.items) && CodesFit(r.items)
  {
    var d := Enum(r, pascal);
    DeclaredCodes(r.items, ValueNames(r.ident + "Enum", r.items, pascal));
    forall i | 0 <= i < |r.items|
      ensures ValueOf(d.values, d.cases[i].name) == Some(r.items[i].code)
    {
      CaseCarriesItsCode(r, pascal, i);
    }
  }

  /** With distinct codes every code maps back to its own label, and any other value to none. */
  lemma CodesMapToOwnLabels(r: Record, pascal: string -> string, v: int)
    requires CodesDiffer(r.items)
    ensures StringOf(Enum(r, pascal).values, Enum(r, pascal).cases, v)
            == if exists i :: 0 <= i < |r.items| && r.items[i].code == v
               then Some((var i :| 0 <= i < |r.items| && r.items[i].code == v; r.items[i].text))
               else None
  {
    var d := Enum(r, pascal);
    forall i | 0 <= i < |r.items|
      ensures ValueOf(d.values, d.cases[i].name) == Some(r.items[i].code)
    {
      CaseCarriesItsCode(r, pascal, i);
    }
    FirstMatch(d.values, d.cases, v, r.items);
  }

  lemma {:induction false} FirstMatch(values: seq<Constant>, cases: seq<Case>, v: int, items: seq<Item>)
    requires |cases| == |items| && CodesDiffer(items)
    requires forall i :: 0 <= i < |items|
               ==> cases[i].text == items[i].text && ValueOf(values, cases[i].name) == Some(items[i].code)
    ensures (forall i :: 0 <= i < |items| ==> items[i].code != v) ==> StringOf(values, cases, v) == None
    ensures forall i :: 0 <= i < |items| && items[i].code == v ==> StringOf(values, cases, v) == Some(items[i].text)
  {
    if cases != [] {
      FirstMatch(values, cases[1..], v, items[1..]);
      forall i | 0 <= i < |items| && items[i].code == v
        ensures StringOf(values, cases, v) == Some(items[i].text)
      {
        if i > 0 {
          assert items[1..][i - 1] == items[i];
        }
      }
    }
  }
}
