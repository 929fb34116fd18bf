/**
 The consensus subset of a coin bundle, and what a node's pin says about it.

 The pin is the SHA-256 of the canonical text of the subset; taking the hash to be collision
 free, two bundles pin alike exactly when those texts are equal.
 */
module ConsensusPin {
  import opened Sequences
  import opened Wrappers
  import opened JsonValue
  import opened CanonicalJson

  datatype NetBlock = NetBlock(net: Json, firstBlock: Json, addresses: seq<Field<Json>>)

  /** A coin file: its networks, the blocks it may omit, and its other properties by name. */
  datatype Coin = Coin(networks: map<string, NetBlock>, displayOnlyRoles: Option<seq<string>>, slash: Option<Json>,
                       fullnode: Option<seq<Field<Json>>>, props: map<string, Json>)

  /** A property the file does not set reads as undefined. */
  function Prop(coin: Coin, name: string): Json {
    if name in coin.props then coin.props[name] else Undefined
  }

  function DisplayRoles(coin: Coin): seq<string> {
    if coin.displayOnlyRoles.Some? then coin.displayOnlyRoles.value else ["EXPLORER"]
  }

  /** The addresses without the display-only roles, in order. */
  function ConsensusAddresses(addresses: seq<Field<Json>>, roles: seq<string>): seq<Field<Json>> {
    if addresses == [] then []
    else (if addresses[0].key in roles then [] else [addresses[0]]) + ConsensusAddresses(addresses[1..], roles)
  }

  /** The fields whose name does not start with a dollar sign. */
  function StripDescriptors(fields: seq<Field<Json>>): seq<Field<Json>> {
    if fields == [] then []
    else (if fields[0].key != "" && fields[0].key[0] == '$' then [] else [fields[0]]) + StripDescriptors(fields[1..])
  }

  /** The names taken from the coin as they are. */
  const COIN_FIELDS: seq<string> :=
    ["wireFormat", "legacyFees", "GAS_PRICE", "UNIFIED_EXPIRATION_FEE_FREE_DAYS", "FEE_TOLERANCE_MIN",
     "FEE_TOLERANCE_MAX", "ORACLE_MAX_PRICE_AGE_SECONDS", "ORACLE_MAX_PRICE_AGE_HOURLY_SECONDS",
     "VALIDATOR_QUERY_LIMIT", "GAS_SCHEDULE", "STAKING"]

  function PlainFields(coin: Coin, block: NetBlock): (r: seq<Field<Json>>)
    ensures |r| == 14
  {
    [Field("net", block.net),
     Field("wireFormat", Prop(coin, "wireFormat")),
     Field("firstBlock", block.firstBlock),
     Field("addresses", Obj(ConsensusAddresses(block.addresses, DisplayRoles(coin)))),
     Field("legacyFees", Prop(coin, "legacyFees")),
     Field("GAS_PRICE", Prop(coin, "GAS_PRICE")),
     Field("UNIFIED_EXPIRATION_FEE_FREE_DAYS", Prop(coin, "UNIFIED_EXPIRATION_FEE_FREE_DAYS")),
     Field("FEE_TOLERANCE_MIN", Prop(coin, "FEE_TOLERANCE_MIN")),
     Field("FEE_TOLERANCE_MAX", Prop(coin, "FEE_TOLERANCE_MAX")),
     Field("ORACLE_MAX_PRICE_AGE_SECONDS", Prop(coin, "ORACLE_MAX_PRICE_AGE_SECONDS")),
     Field("ORACLE_MAX_PRICE_AGE_HOURLY_SECONDS", Prop(coin, "ORACLE_MAX_PRICE_AGE_HOURLY_SECONDS")),
     Field("VALIDATOR_QUERY_LIMIT", Prop(coin, "VALIDATOR_QUERY_LIMIT")),
     Field("GAS_SCHEDULE", Prop(coin, "GAS_SCHEDULE")),
     Field("STAKING", Prop(coin, "STAKING"))]
  }

  /** The two blocks that are left out where the file has none. */
  function OptionalFields(coin: Coin): seq<Field<Json>> {
    (match coin.slash case None => [] case Some(v) => [Field("CONFIG_SLASH", v)])
    + (match coin.fullnode case None => [] case Some(f) => [Field("FULLNODE", Obj(StripDescriptors(f)))])
  }

  function SubsetFields(coin: Coin, block: NetBlock): seq<Field<Json>> {
    PlainFields(coin, block) + OptionalFields(coin)
  }

  /** None where the source throws on an unknown network. */
  function ConsensusSubset(coin: Coin, network: string): Option<Json> {
    if network in coin.networks then Some(Obj(SubsetFields(coin, coin.networks[network]))) else None
  }

  lemma AddressStep(addresses: seq<Field<Json>>, roles: seq<string>, i: nat, kept: seq<Field<Json>>)
    requires i < |addresses|
    ensures kept + ConsensusAddresses(addresses[i..], roles) ==
            (if addresses[i].key in roles then kept else kept + [addresses[i]]) + ConsensusAddresses(addresses[i + 1..], roles)
  {
    assert addresses[i..][0] == addresses[i] && addresses[i..][1..] == addresses[i + 1..];
  }

  lemma DescriptorStep(fields: seq<Field<Json>>, i: nat, kept: seq<Field<Json>>)
    requires i < |fields|
    ensures kept + StripDescriptors(fields[i..]) ==
            (if fields[i].key != "" && fields[i].key[0] == '$' then kept else kept + [fields[i]]) + StripDescriptors(fields[i + 1..])
  {
    assert fields[i..][0] == fields[i] && fields[i..][1..] == fields[i + 1..];
  }

  /** The loop that drops the display-only roles. */
  method CollectAddresses(addresses: seq<Field<Json>>, roles: seq<string>) returns (kept: seq<Field<Json>>)
    ensures kept == ConsensusAddresses(addresses, roles)
  {
    kept := [];
    for i := 0 to |addresses|
      invariant kept + ConsensusAddresses(addresses[i..], roles) == ConsensusAddresses(addresses, roles)
    {
      AddressStep(addresses, roles, i, kept);
      if addresses[i].key !in roles {
        kept := kept + [addresses[i]];
      }
    }
  }

  /** The loop that drops the descriptors. */
  method CollectPlain(fields: seq<Field<Json>>) returns (kept: seq<Field<Json>>)
    ensures kept == StripDescriptors(fields)
  {
    kept := [];
    for i := 0 to |fields|
      invariant kept + StripDescriptors(fields[i..]) == StripDescriptors(fields)
    {
      DescriptorStep(fields, i, kept);
      if fields[i].key == "" || fields[i].key[0] != '$' {
        kept := kept + [fields[i]];
      }
    }
  }

  /** Kept are, in order and each once, exactly the entries under no display-only role. */
  lemma {:induction false} AddressesKept(addresses: seq<Field<Json>>, roles: seq<string>) returns (at: seq<nat>)
    ensures PickedAt(addresses, ConsensusAddresses(addresses, roles), at)
    ensures forall p | 0 <= p < |addresses| :: p in at <==> addresses[p].key !in roles
  {
    if addresses == [] {
      at := [];
    } else {
      var tail := addresses[1..];
      var rest := AddressesKept(tail, roles);
      var first := addresses[0].key !in roles;
      PickedStep(addresses, ConsensusAddresses(tail, roles), rest, first);
      at := Moved(rest, first);
      forall p | 0 < p < |addresses|
        ensures p in at <==> addresses[p].key !in roles
      {
        assert tail[p - 1] == addresses[p];
      }
    }
  }

  predicate Descriptor(name: string) {
    name != "" && name[0] == '$'
  }

  lemma {:induction false} DescriptorsDropped(fields: seq<Field<Json>>) returns (at: seq<nat>)
    ensures PickedAt(fields, StripDescriptors(fields), at)
    ensures forall p | 0 <= p < |fields| :: p in at <==> !Descriptor(fields[p].key)
  {
    if fields == [] {
      at := [];
    } else {
      var tail := fields[1..];
      var rest := DescriptorsDropped(tail);
      var first := !Descriptor(fields[0].key);
      PickedStep(fields, StripDescriptors(tail), rest, first);
      at := Moved(rest, first);
      forall p | 0 < p < |fields|
        ensures p in at <==> !Descriptor(fields[p].key)
      {
        assert tail[p - 1] == fields[p];
      }
    }
  }

  lemma DollarInFront(name: string)
    ensures "$" <= name <==> Descriptor(name)
  {
  }

  /** Kept are, in order and each once, exactly the fields whose name has no dollar sign in front. */
  lemma PlainFieldsKept(fields: seq<Field<Json>>) returns (at: seq<nat>)
    ensures PickedAt(fields, StripDescriptors(fields), at)
    ensures forall p | 0 <= p < |fields| :: p in at <==> !("$" <= fields[p].key)
  {
    at := DescriptorsDropped(fields);
    forall p | 0 <= p < |fields|
      ensures p in at <==> !("$" <= fields[p].key)
    {
      DollarInFront(fields[p].key);
    }
  }

  function Lookup(fields: seq<Field<Json>>, name: string): Option<Json> {
    if fields == [] then None else if fields[0].key == name then Some(fields[0].value) else Lookup(fields[1..], name)
  }

  lemma {:induction false} LookupIsMember(fields: seq<Field<Json>>, name: string)
    requires DistinctKeys(fields)
    ensures forall i | 0 <= i < |fields| && fields[i].key == name :: Lookup(fields, name) == Some(fields[i].value)
    ensures Lookup(fields, name).Some? ==> exists i :: 0 <= i < |fields| && fields[i] == Field(name, Lookup(fields, name).value)
  {
    if fields == [] {
    } else {
      LookupIsMember(fields[1..], name);
      forall i | 0 <= i < |fields| && fields[i].key == name
        ensures Lookup(fields, name) == Some(fields[i].value)
      {
        if i > 0 {
          assert fields[1..][i - 1] == fields[i];
        }
      }
      if fields[0].key != name && Lookup(fields, name).Some? {
        var i :| 0 <= i < |fields[1..]| && fields[1..][i] == Field(name, Lookup(fields, name).value);
        assert fields[i + 1] == Field(name, Lookup(fields, name).value);
      } else if fields[0].key == name {
        assert fields[0] == Field(name, Lookup(fields, name).value);
      }
    }
  }

  /** Objects that are the same have the same names, with the same values under them. */
  lemma SameLookup(a: seq<Field<Json>>, b: seq<Field<Json>>, name: string)
    requires Valid(Obj(a)) && Valid(Obj(b)) && Same(Obj(a), Obj(b))
    ensures Lookup(a, name).Some? ==> Lookup(b, name).Some? && Same(Lookup(a, name).value, Lookup(b, name).value)
    ensures Lookup(b, name).Some? ==> Lookup(a, name).Some?
  {
    LookupIsMember(a, name);
    LookupIsMember(b, name);
    SameExactly(Obj(a), Obj(b));
    SameExactly(Obj(b), Obj(a));
    if Lookup(a, name).Some? {
      var i :| 0 <= i < |a| && a[i] == Field(name, Lookup(a, name).value);
      assert HasLike(a[i], b);
      var j :| 0 <= j < |b| && a[i].key == b[j].key && Same(a[i].value, b[j].value);
    }
    if Lookup(b, name).Some? {
      var i :| 0 <= i < |b| && b[i] == Field(name, Lookup(b, name).value);
      assert HasLike(b[i], a);
      var j :| 0 <= j < |a| && b[i].key == a[j].key && Same(b[i].value, a[j].value);
    }
  }

  /** Fields with plain distinct names, whatever the coin holds. */
  const SUBSET_NAMES: seq<string> :=
    ["net", "wireFormat", "firstBlock", "addresses", "legacyFees", "GAS_PRICE", "UNIFIED_EXPIRATION_FEE_FREE_DAYS",
     "FEE_TOLERANCE_MIN", "FEE_TOLERANCE_MAX", "ORACLE_MAX_PRICE_AGE_SECONDS", "ORACLE_MAX_PRICE_AGE_HOURLY_SECONDS",
     "VALIDATOR_QUERY_LIMIT", "GAS_SCHEDULE", "STAKING", "CONFIG_SLASH", "FULLNODE"]

  lemma NamesDiffer(i: nat, j: nat)
    requires i < j < |SUBSET_NAMES|
    ensures SUBSET_NAMES[i] != SUBSET_NAMES[j]
  {
  }

  lemma SubsetName(coin: Coin, block: NetBlock, i: nat) returns (k: nat)
    requires i < |SubsetFields(coin, block)|
    ensures k == (if i == 14 && coin.slash.None? then 15 else i) && k < |SUBSET_NAMES|
    ensures SubsetFields(coin, block)[i].key == SUBSET_NAMES[k]
  {
    k := if i == 14 && coin.slash.None? then 15 else i;
  }

  lemma SubsetNamesDistinct(coin: Coin, block: NetBlock)
    ensures DistinctKeys(SubsetFields(coin, block))
  {
    var f := SubsetFields(coin, block);
    forall i, j | 0 <= i < j < |f|
      ensures f[i].key != f[j].key
    {
      var k := SubsetName(coin, block, i);
      var m := SubsetName(coin, block, j);
      NamesDiffer(k, m);
    }
  }

  /** Part by part, the two subsets hold the same values up to key order. */
  ghost predicate PartsMatch(a: Coin, na: NetBlock, b: Coin, nb: NetBlock) {
    && Same(na.net, nb.net) && Same(na.firstBlock, nb.firstBlock)
    && (forall name | name in COIN_FIELDS :: Same(Prop(a, name), Prop(b, name)))
    && Same(Obj(ConsensusAddresses(na.addresses, DisplayRoles(a))), Obj(ConsensusAddresses(nb.addresses, DisplayRoles(b))))
    && (a.slash.Some? <==> b.slash.Some?) && (a.slash.Some? ==> Same(a.slash.value, b.slash.value))
    && (a.fullnode.Some? <==> b.fullnode.Some?)
    && (a.fullnode.Some? ==> Same(Obj(StripDescriptors(a.fullnode.value)), Obj(StripDescriptors(b.fullnode.value))))
  }

  lemma MatchExactly(a: Coin, b: Coin, network: string)
    requires ConsensusSubset(a, network).Some? && ConsensusSubset(b, network).Some?
    requires Valid(ConsensusSubset(a, network).value) && Valid(ConsensusSubset(b, network).value)
    ensures CanonicalText(ConsensusSubset(a, network).value) == CanonicalText(ConsensusSubset(b, network).value) <==>
            PartsMatch(a, a.networks[network], b, b.networks[network])
  {
    var na, nb := a.networks[network], b.networks[network];
    TextExactly(ConsensusSubset(a, network).value, ConsensusSubset(b, network).value);
    if PartsMatch(a, na, b, nb) {
      AgreeingSubsets(a, na, b, nb);
    }
    if Same(Obj(SubsetFields(a, na)), Obj(SubsetFields(b, nb))) {
      SubsetsAgree(a, na, b, nb);
    }
  }

  lemma SubsetsAgree(a: Coin, na: NetBlock, b: Coin, nb: NetBlock)
    requires Valid(Obj(SubsetFields(a, na))) && Valid(Obj(SubsetFields(b, nb)))
    requires Same(Obj(SubsetFields(a, na)), Obj(SubsetFields(b, nb)))
    ensures PartsMatch(a, na, b, nb)
  {
    SameBlock(a, na, b, nb);
    forall name | name in COIN_FIELDS
      ensures Same(Prop(a, name), Prop(b, name))
    {
      SameProp(a, na, b, nb, name);
    }
    SameOptional(a, na, b, nb);
  }

  ghost predicate AlikeAt(fa: seq<Field<Json>>, fb: seq<Field<Json>>, i: nat)
    requires i < |fa| == |fb|
  {
    fa[i].key == fb[i].key && Same(fa[i].value, fb[i].value)
  }

  lemma BlockAt(coin: Coin, block: NetBlock)
    ensures
      var f := PlainFields(coin, block);
      && f[0] == Field("net", block.net) && f[2] == Field("firstBlock", block.firstBlock)
      && f[3] == Field("addresses", Obj(ConsensusAddresses(block.addresses, DisplayRoles(coin))))
  {
  }

  lemma AgreeingBlock(a: Coin, na: NetBlock, b: Coin, nb: NetBlock, i: nat)
    requires PartsMatch(a, na, b, nb) && i in {0, 2, 3}
    ensures AlikeAt(PlainFields(a, na), PlainFields(b, nb), i)
  {
    BlockAt(a, na);
    BlockAt(b, nb);
    if i == 0 {} else if i == 2 {} else {}
  }

  lemma AgreeingProp(a: Coin, na: NetBlock, b: Coin, nb: NetBlock, i: nat)
    requires PartsMatch(a, na, b, nb) && (i == 1 || 4 <= i < 14)
    ensures AlikeAt(PlainFields(a, na), PlainFields(b, nb), i)
  {
    var k := if i == 1 then 0 else i - 3;
    PropAt(a, na, k);
    PropAt(b, nb, k);
    assert COIN_FIELDS[k] in COIN_FIELDS;
  }

  lemma AgreeingOptional(a: Coin, na: NetBlock, b: Coin, nb: NetBlock, i: nat)
    requires PartsMatch(a, na, b, nb) && i < |OptionalFields(a)|
    ensures |OptionalFields(a)| == |OptionalFields(b)|
    ensures AlikeAt(OptionalFields(a), OptionalFields(b), i)
  {
  }

  lemma AgreeingAt(a: Coin, na: NetBlock, b: Coin, nb: NetBlock, i: nat)
    requires PartsMatch(a, na, b, nb) && i < |SubsetFields(a, na)|
    ensures |SubsetFields(a, na)| == |SubsetFields(b, nb)| && AlikeAt(SubsetFields(a, na), SubsetFields(b, nb), i)
  {
    if i >= 14 {
      AgreeingOptional(a, na, b, nb, i - 14);
    } else if i in {0, 2, 3} {
      AgreeingBlock(a, na, b, nb, i);
    } else {
      AgreeingProp(a, na, b, nb, i);
    }
  }

  /** Field by field, the subsets of agreeing bundles line up. */
  lemma AgreeingSubsets(a: Coin, na: NetBlock, b: Coin, nb: NetBlock)
    requires PartsMatch(a, na, b, nb)
    ensures Same(Obj(SubsetFields(a, na)), Obj(SubsetFields(b, nb)))
  {
    var fa, fb := SubsetFields(a, na), SubsetFields(b, nb);
    assert |OptionalFields(a)| == |OptionalFields(b)|;
    forall i | 0 <= i < |fa|
      ensures HasLike(fa[i], fb)
    {
      AgreeingAt(a, na, b, nb, i);
    }
  }

  lemma SamePart(a: Coin, na: NetBlock, b: Coin, nb: NetBlock, name: string, i: nat)
    requires Valid(Obj(SubsetFields(a, na))) && Valid(Obj(SubsetFields(b, nb)))
    requires Same(Obj(SubsetFields(a, na)), Obj(SubsetFields(b, nb)))
    requires i < 14 && SubsetFields(a, na)[i].key == SubsetFields(b, nb)[i].key == name
    ensures Same(SubsetFields(a, na)[i].value, SubsetFields(b, nb)[i].value)
  {
    FieldLookup(a, na, name, i);
    FieldLookup(b, nb, name, i);
    SameLookup(SubsetFields(a, na), SubsetFields(b, nb), name);
  }

  lemma SameBlock(a: Coin, na: NetBlock, b: Coin, nb: NetBlock)
    requires Valid(Obj(SubsetFields(a, na))) && Valid(Obj(SubsetFields(b, nb)))
    requires Same(Obj(SubsetFields(a, na)), Obj(SubsetFields(b, nb)))
    ensures Same(na.net, nb.net) && Same(na.firstBlock, nb.firstBlock)
    ensures Same(Obj(ConsensusAddresses(na.addresses, DisplayRoles(a))), Obj(ConsensusAddresses(nb.addresses, DisplayRoles(b))))
  {
    SamePart(a, na, b, nb, "net", 0);
    SamePart(a, na, b, nb, "firstBlock", 2);
    SamePart(a, na, b, nb, "addresses", 3);
  }

  lemma SameProp(a: Coin, na: NetBlock, b: Coin, nb: NetBlock, name: string)
    requires Valid(Obj(SubsetFields(a, na))) && Valid(Obj(SubsetFields(b, nb)))
    requires Same(Obj(SubsetFields(a, na)), Obj(SubsetFields(b, nb))) && name in COIN_FIELDS
    ensures Same(Prop(a, name), Prop(b, name))
  {
    var i :| 0 <= i < |COIN_FIELDS| && COIN_FIELDS[i] == name;
    var k := if i == 0 then 1 else i + 3;
    PropAt(a, na, i);
    PropAt(b, nb, i);
    SamePart(a, na, b, nb, name, k);
  }

  lemma PropAt(coin: Coin, block: NetBlock, i: nat)
    requires i < |COIN_FIELDS|
    ensures PlainFields(coin, block)[if i == 0 then 1 else i + 3] == Field(COIN_FIELDS[i], Prop(coin, COIN_FIELDS[i]))
  {
  }

  lemma SameOptional(a: Coin, na: NetBlock, b: Coin, nb: NetBlock)
    requires Valid(Obj(SubsetFields(a, na))) && Valid(Obj(SubsetFields(b, nb)))
    requires Same(Obj(SubsetFields(a, na)), Obj(SubsetFields(b, nb)))
    ensures (a.slash.Some? <==> b.slash.Some?) && (a.slash.Some? ==> Same(a.slash.value, b.slash.value))
    ensures a.fullnode.Some? <==> b.fullnode.Some?
    ensures a.fullnode.Some? ==> Same(Obj(StripDescriptors(a.fullnode.value)), Obj(StripDescriptors(b.fullnode.value)))
  {
    OptionalLookup(a, na);
    OptionalLookup(b, nb);
    SameLookup(SubsetFields(a, na), SubsetFields(b, nb), "CONFIG_SLASH");
    SameLookup(SubsetFields(a, na), SubsetFields(b, nb), "FULLNODE");
  }

  lemma FieldLookup(coin: Coin, block: NetBlock, name: string, i: nat)
    requires i < 14 && SubsetFields(coin, block)[i].key == name
    ensures Lookup(SubsetFields(coin, block), name) == Some(SubsetFields(coin, block)[i].value)
  {
    SubsetNamesDistinct(coin, block);
    LookupIsMember(SubsetFields(coin, block), name);
  }

  lemma NoPlainName(coin: Coin, block: NetBlock, i: nat)
    requires i < 14
    ensures PlainFields(coin, block)[i].key != "CONFIG_SLASH" && PlainFields(coin, block)[i].key != "FULLNODE"
  {
  }

  lemma {:induction false} LookupAppend(a: seq<Field<Json>>, b: seq<Field<Json>>, name: string)
    requires forall i | 0 <= i < |a| :: a[i].key != name
    ensures Lookup(a + b, name) == Lookup(b, name)
  {
    if a == [] {
      assert a + b == b;
    } else {
      assert (a + b)[1..] == a[1..] + b;
      LookupAppend(a[1..], b, name);
    }
  }

  lemma OptionalLookup(coin: Coin, block: NetBlock)
    ensures Lookup(SubsetFields(coin, block), "CONFIG_SLASH") == coin.slash
    ensures Lookup(SubsetFields(coin, block), "FULLNODE") ==
            match coin.fullnode case None => None case Some(f) => Some(Obj(StripDescriptors(f)))
  {
    forall i | 0 <= i < 14
      ensures PlainFields(coin, block)[i].key != "CONFIG_SLASH" && PlainFields(coin, block)[i].key != "FULLNODE"
    {
      NoPlainName(coin, block, i);
    }
    LookupAppend(PlainFields(coin, block), OptionalFields(coin), "CONFIG_SLASH");
    LookupAppend(PlainFields(coin, block), OptionalFields(coin), "FULLNODE");
    OptionalOnly(coin);
  }

  lemma OptionalOnly(coin: Coin)
    ensures Lookup(OptionalFields(coin), "CONFIG_SLASH") == coin.slash
    ensures Lookup(OptionalFields(coin), "FULLNODE") ==
            match coin.fullnode case None => None case Some(f) => Some(Obj(StripDescriptors(f)))
  {
    var f := OptionalFields(coin);
    if coin.slash.Some? && coin.fullnode.Some? {
      assert f[1..] == [Field("FULLNODE", Obj(StripDescriptors(coin.fullnode.value)))];
      assert f[1..][1..] == [];
    } else if |f| == 1 {
      assert f[1..] == [];
    }
  }

  // ---- The pin in the coin file's own terms ----

  ghost predicate Alike(x: Option<Json>, y: Option<Json>) {
    (x.Some? <==> y.Some?) && (x.Some? ==> Same(x.value, y.value))
  }

  ghost predicate AlikeUnder(a: seq<Field<Json>>, b: seq<Field<Json>>, name: string) {
    Alike(Lookup(a, name), Lookup(b, name))
  }

  lemma {:induction false} AddressLookup(addresses: seq<Field<Json>>, roles: seq<string>, name: string)
    ensures Lookup(ConsensusAddresses(addresses, roles), name) == if name in roles then None else Lookup(addresses, name)
  {
    if addresses == [] {
    } else {
      var rest := ConsensusAddresses(addresses[1..], roles);
      AddressLookup(addresses[1..], roles, name);
      assert ([addresses[0]] + rest)[1..] == rest && [] + rest == rest;
    }
  }

  lemma {:induction false} DescriptorLookup(fields: seq<Field<Json>>, name: string)
    ensures Lookup(StripDescriptors(fields), name) == if "$" <= name then None else Lookup(fields, name)
  {
    if fields == [] {
    } else {
      var rest := StripDescriptors(fields[1..]);
      DescriptorLookup(fields[1..], name);
      DollarInFront(fields[0].key);
      assert ([fields[0]] + rest)[1..] == rest && [] + rest == rest;
    }
  }

  ghost function Names(fields: seq<Field<Json>>): (r: seq<string>)
    ensures |r| == |fields|
  {
    seq(|fields|, i requires 0 <= i < |fields| => fields[i].key)
  }

  /** Distinct names of one object are no more than those of another that has them all. */
  lemma NoMoreNames(a: seq<Field<Json>>, b: seq<Field<Json>>)
    requires DistinctKeys(a) && forall i | 0 <= i < |a| :: a[i].key in Names(b)
    ensures |a| <= |b|
  {
    NoRepeatsCount(Names(a));
    MembersBound(Names(b));
    SubsetSize(Members(Names(a)), Members(Names(b)));
  }

  lemma HasName(fields: seq<Field<Json>>, name: string)
    requires DistinctKeys(fields) && Lookup(fields, name).Some?
    ensures name in Names(fields)
  {
    LookupIsMember(fields, name);
    var i :| 0 <= i < |fields| && fields[i] == Field(name, Lookup(fields, name).value);
    assert Names(fields)[i] == name;
  }

  lemma AlikeIsSame(a: seq<Field<Json>>, b: seq<Field<Json>>)
    requires Valid(Obj(a)) && Valid(Obj(b)) && forall name :: AlikeUnder(a, b, name)
    ensures Same(Obj(a), Obj(b))
  {
    LookupsAreMembers(a);
    LookupsAreMembers(b);
    forall i | 0 <= i < |a|
      ensures HasLike(a[i], b) && a[i].key in Names(b)
    {
      var name := a[i].key;
      assert AlikeUnder(a, b, name);
      var j :| 0 <= j < |b| && b[j] == Field(name, Lookup(b, name).value);
      assert Names(b)[j] == name;
    }
    forall j | 0 <= j < |b|
      ensures b[j].key in Names(a)
    {
      assert AlikeUnder(a, b, b[j].key);
      HasName(a, b[j].key);
    }
    NoMoreNames(a, b);
    NoMoreNames(b, a);
  }

  /** Two objects are the same exactly when they hold the same under every name. */
  lemma SameByName(a: seq<Field<Json>>, b: seq<Field<Json>>)
    requires Valid(Obj(a)) && Valid(Obj(b))
    ensures Same(Obj(a), Obj(b)) <==> forall name :: AlikeUnder(a, b, name)
  {
    if Same(Obj(a), Obj(b)) {
      forall name
        ensures AlikeUnder(a, b, name)
      {
        SameLookup(a, b, name);
      }
    } else if forall name :: AlikeUnder(a, b, name) {
      AlikeIsSame(a, b);
    }
  }

  lemma LookupsAreMembers(fields: seq<Field<Json>>)
    requires DistinctKeys(fields)
    ensures forall i | 0 <= i < |fields| :: Lookup(fields, fields[i].key) == Some(fields[i].value)
    ensures forall name | Lookup(fields, name).Some? ::
              exists i :: 0 <= i < |fields| && fields[i] == Field(name, Lookup(fields, name).value)
  {
    forall i | 0 <= i < |fields|
      ensures Lookup(fields, fields[i].key) == Some(fields[i].value)
    {
      LookupIsMember(fields, fields[i].key);
    }
    forall name | Lookup(fields, name).Some?
      ensures exists i :: 0 <= i < |fields| && fields[i] == Field(name, Lookup(fields, name).value)
    {
      LookupIsMember(fields, name);
    }
  }

  /** The roles a coin file shows only: those it declares, or EXPLORER where it declares none. */
  ghost predicate ShownOnly(coin: Coin, role: string) {
    match coin.displayOnlyRoles
    case Some(roles) => role in roles
    case None => role == "EXPLORER"
  }

  /** The address a bundle pins for a role. */
  ghost function PinnedAddress(coin: Coin, block: NetBlock, role: string): Option<Json> {
    if ShownOnly(coin, role) then None else Lookup(block.addresses, role)
  }

  ghost predicate AlikeAddress(a: Coin, na: NetBlock, b: Coin, nb: NetBlock, role: string) {
    Alike(PinnedAddress(a, na, role), PinnedAddress(b, nb, role))
  }

  /** What a full-node block pins under a name. */
  ghost function PinnedSetting(fields: seq<Field<Json>>, name: string): Option<Json> {
    if "$" <= name then None else Lookup(fields, name)
  }

  ghost predicate AlikeSetting(a: seq<Field<Json>>, b: seq<Field<Json>>, name: string) {
    Alike(PinnedSetting(a, name), PinnedSetting(b, name))
  }

  /**
   What two bundles must agree on, up to key order: the network's parameters, its address under
   every role that is not shown only, each named property of the coin, set or not, the slash block,
   and the full-node block but for the names with a dollar sign in front.
   */
  ghost predicate PartsAgree(a: Coin, na: NetBlock, b: Coin, nb: NetBlock) {
    && Same(na.net, nb.net) && Same(na.firstBlock, nb.firstBlock)
    && (forall role :: AlikeAddress(a, na, b, nb, role))
    && (forall name | name in COIN_FIELDS ::
          Same(if name in a.props then a.props[name] else Undefined, if name in b.props then b.props[name] else Undefined))
    && Alike(a.slash, b.slash)
    && (a.fullnode.Some? <==> b.fullnode.Some?)
    && (a.fullnode.Some? ==>
          forall name :: AlikeSetting(a.fullnode.value, b.fullnode.value, name))
  }

  lemma SubsetPartsValid(coin: Coin, block: NetBlock)
    requires Valid(Obj(SubsetFields(coin, block)))
    ensures Valid(Obj(ConsensusAddresses(block.addresses, DisplayRoles(coin))))
    ensures coin.fullnode.Some? ==> Valid(Obj(StripDescriptors(coin.fullnode.value)))
  {
    var f := SubsetFields(coin, block);
    BlockAt(coin, block);
    assert f[3] == PlainFields(coin, block)[3];
    if coin.fullnode.Some? {
      assert f[|f| - 1] == Field("FULLNODE", Obj(StripDescriptors(coin.fullnode.value)));
    }
  }

  lemma PinnedAddressIs(coin: Coin, block: NetBlock, role: string)
    ensures Lookup(ConsensusAddresses(block.addresses, DisplayRoles(coin)), role) == PinnedAddress(coin, block, role)
  {
    AddressLookup(block.addresses, DisplayRoles(coin), role);
  }

  lemma SameAddresses(a: Coin, na: NetBlock, b: Coin, nb: NetBlock)
    requires Valid(Obj(SubsetFields(a, na))) && Valid(Obj(SubsetFields(b, nb)))
    ensures Same(Obj(ConsensusAddresses(na.addresses, DisplayRoles(a))), Obj(ConsensusAddresses(nb.addresses, DisplayRoles(b))))
            <==> forall role :: AlikeAddress(a, na, b, nb, role)
  {
    SubsetPartsValid(a, na);
    SubsetPartsValid(b, nb);
    var fa, fb := ConsensusAddresses(na.addresses, DisplayRoles(a)), ConsensusAddresses(nb.addresses, DisplayRoles(b));
    SameByName(fa, fb);
    forall role: string
      ensures AlikeUnder(fa, fb, role) <==> AlikeAddress(a, na, b, nb, role)
    {
      PinnedAddressIs(a, na, role);
      PinnedAddressIs(b, nb, role);
    }
  }

  lemma SameFullnode(fa: seq<Field<Json>>, fb: seq<Field<Json>>)
    requires Valid(Obj(StripDescriptors(fa))) && Valid(Obj(StripDescriptors(fb)))
    ensures Same(Obj(StripDescriptors(fa)), Obj(StripDescriptors(fb))) <==>
            forall name :: AlikeSetting(fa, fb, name)
  {
    var ga, gb := StripDescriptors(fa), StripDescriptors(fb);
    SameByName(ga, gb);
    forall name: string
      ensures AlikeUnder(ga, gb, name) <==> AlikeSetting(fa, fb, name)
    {
      DescriptorLookup(fa, name);
      DescriptorLookup(fb, name);
    }
  }

  lemma MatchIsAgreement(a: Coin, na: NetBlock, b: Coin, nb: NetBlock)
    requires Valid(Obj(SubsetFields(a, na))) && Valid(Obj(SubsetFields(b, nb)))
    ensures PartsMatch(a, na, b, nb) <==> PartsAgree(a, na, b, nb)
  {
    SameAddresses(a, na, b, nb);
    SubsetPartsValid(a, na);
    SubsetPartsValid(b, nb);
    if a.fullnode.Some? && b.fullnode.Some? {
      SameFullnode(a.fullnode.value, b.fullnode.value);
    }
  }

  /** Two bundles have the same pin input exactly when they agree on every part of the consensus subset. */
  lemma PinExactly(a: Coin, b: Coin, network: string)
    requires ConsensusSubset(a, network).Some? && ConsensusSubset(b, network).Some?
    requires Valid(ConsensusSubset(a, network).value) && Valid(ConsensusSubset(b, network).value)
    ensures CanonicalText(ConsensusSubset(a, network).value) == CanonicalText(ConsensusSubset(b, network).value) <==>
            PartsAgree(a, a.networks[network], b, b.networks[network])
  {
    var na, nb := a.networks[network], b.networks[network];
    MatchExactly(a, b, network);
    MatchIsAgreement(a, na, b, nb);
  }

  /** Under one bundle, two address lists pin alike exactly when they differ in nothing but roles shown only. */
  lemma AddressPinExactly(a: Coin, network: string, addresses: seq<Field<Json>>)
    requires network in a.networks && Valid(ConsensusSubset(a, network).value)
    requires
      var b := a.(networks := a.networks[network := a.networks[network].(addresses := addresses)]);
      Valid(ConsensusSubset(b, network).value)
    ensures
      var b := a.(networks := a.networks[network := a.networks[network].(addresses := addresses)]);
      CanonicalText(ConsensusSubset(a, network).value) == CanonicalText(ConsensusSubset(b, network).value) <==>
      forall role | !ShownOnly(a, role) :: AlikeUnder(a.networks[network].addresses, addresses, role)
  {
    var block := a.networks[network];
    var other := block.(addresses := addresses);
    var b := a.(networks := a.networks[network := other]);
    PinExactly(a, b, network);
    PinExactly(a, a, network);
    assert PartsAgree(a, block, a, block);
    forall role: string
      ensures AlikeAddress(a, block, b, other, role) <==> ShownOnly(a, role) || AlikeUnder(block.addresses, addresses, role)
    {
    }
  }
}
