/** Redirecting backends: the in-place rewriting of backend declarations that `pkg/vclmod` applies to a parsed
    VCL file, and what it guarantees. */
module BackendRewrite {
  /** Absolute path of a file. */
  type FilePath = string

  datatype Value = StringLiteral(text: string) | Expression(text: string)

  datatype Property = Property(name: string, value: Value)

  /** A declaration.  The path of an include is already resolved, once against the directory of the including file
      and once against that of the main file. */
  datatype Decl =
    | Backend(name: string, properties: seq<Property>)
    | Include(target: FilePath, fromMain: FilePath)
    | Other(text: string)

  datatype Address = Address(host: string, port: string)

  type Addresses = map<string, Address>

  // ---------------------------------------------------------------- rewriting over values

  function RewriteProperty(p: Property, a: Address): Property {
    if p.name == "host" then p.(value := StringLiteral(a.host))
    else if p.name == "port" then p.(value := StringLiteral(a.port))
    else p
  }

  predicate Names(ps: seq<Property>, name: string) {
    exists i :: 0 <= i < |ps| && ps[i].name == name
  }

  function RewriteEach(ps: seq<Property>, a: Address): seq<Property> {
    seq(|ps|, i requires 0 <= i < |ps| => RewriteProperty(ps[i], a))
  }

  function Missing(ps: seq<Property>, a: Address): seq<Property> {
    (if Names(ps, "host") then [] else [Property("host", StringLiteral(a.host))])
    + (if Names(ps, "port") then [] else [Property("port", StringLiteral(a.port))])
  }

  function RewriteProperties(ps: seq<Property>, a: Address): seq<Property> {
    RewriteEach(ps, a) + Missing(ps, a)
  }

  function RewriteDecl(d: Decl, addresses: Addresses): Decl {
    if d.Backend? && d.name in addresses
    then d.(properties := RewriteProperties(d.properties, addresses[d.name]))
    else d
  }

  function Rewrite(decls: seq<Decl>, addresses: Addresses): seq<Decl> {
    seq(|decls|, i requires 0 <= i < |decls| => RewriteDecl(decls[i], addresses))
  }

  // ---------------------------------------------------------------- rewriting in place

  /** A parsed file, whose declarations the rewriting updates in place. */
  class Program {
    var declarations: seq<Decl>

    constructor (declarations: seq<Decl>)
      ensures this.declarations == declarations
    {
      this.declarations := declarations;
    }

    method ModifyBackends(addresses: Addresses)
      modifies this
      ensures declarations == Rewrite(old(declarations), addresses)
    {
      for i := 0 to |declarations|
        invariant |declarations| == |old(declarations)|
        invariant forall k :: 0 <= k < i ==> declarations[k] == RewriteDecl(old(declarations)[k], addresses)
        invariant forall k :: i <= k < |declarations| ==> declarations[k] == old(declarations)[k]
      {
        if declarations[i].Backend? && declarations[i].name in addresses {
          Redirect(i, addresses[declarations[i].name]);
        }
      }
    }

    /** Point one backend declaration at an address. */
    method Redirect(index: nat, address: Address)
      requires index < |declarations| && declarations[index].Backend?
      modifies this
      ensures var before := old(declarations);
              declarations ==
              before[index := before[index].(properties := RewriteProperties(before[index].properties, address))]
    {
      var properties := declarations[index].properties;
      ghost var before := properties;
      var hostFound, portFound := false, false;
      for i := 0 to |properties|
        invariant |properties| == |before|
        invariant forall k :: 0 <= k < i ==> properties[k] == RewriteProperty(before[k], address)
        invariant forall k :: i <= k < |properties| ==> properties[k] == before[k]
        invariant hostFound <==> exists k :: 0 <= k < i && before[k].name == "host"
        invariant portFound <==> exists k :: 0 <= k < i && before[k].name == "port"
      {
        if properties[i].name == "host" {
          properties := properties[i := properties[i].(value := StringLiteral(address.host))];
          hostFound := true;
        } else if properties[i].name == "port" {
          properties := properties[i := properties[i].(value := StringLiteral(address.port))];
          portFound := true;
        }
      }
      assert properties == RewriteEach(before, address);
      if !hostFound {
        properties := properties + [Property("host", StringLiteral(address.host))];
      }
      if !portFound {
        properties := properties + [Property("port", StringLiteral(address.port))];
      }
      assert properties == RewriteProperties(before, address);
      declarations := declarations[index := declarations[index].(properties := properties)];
    }
  }

  // ---------------------------------------------------------------- what rewriting guarantees

  predicate IsAddress(p: Property) {
    p.name == "host" || p.name == "port"
  }

  function Unrelated(ps: seq<Property>): seq<Property> {
    if ps == [] then []
    else (if IsAddress(ps[0]) then [] else [ps[0]]) + Unrelated(ps[1..])
  }

  lemma {:induction false} UnrelatedConcat(a: seq<Property>, b: seq<Property>)
    ensures Unrelated(a + b) == Unrelated(a) + Unrelated(b)
    decreases |a|
  {
    if a == [] {
      assert a + b == b;
    } else {
      assert (a + b)[1..] == a[1..] + b;
      UnrelatedConcat(a[1..], b);
    }
  }

  lemma {:induction false} UnrelatedKept(ps: seq<Property>, a: Address)
    ensures Unrelated(RewriteEach(ps, a)) == Unrelated(ps)
    decreases |ps|
  {
    if ps != [] {
      assert RewriteEach(ps, a)[1..] == RewriteEach(ps[1..], a);
      UnrelatedKept(ps[1..], a);
    }
  }

  lemma {:induction false} NothingUnrelated(ps: seq<Property>)
    requires forall i :: 0 <= i < |ps| ==> IsAddress(ps[i])
    ensures Unrelated(ps) == []
    decreases |ps|
  {
    if ps != [] {
      NothingUnrelated(ps[1..]);
    }
  }

  lemma MissingAdds(ps: seq<Property>, a: Address, name: string)
    requires name == "host" || name == "port"
    ensures Names(ps, name) || Names(Missing(ps, a), name)
  {
    var missing := Missing(ps, a);
    if !Names(ps, name) {
      var k := if name == "host" then 0 else |missing| - 1;
      assert missing[k].name == name;
    }
  }

  lemma RewriteNames(ps: seq<Property>, a: Address, name: string)
    requires name == "host" || name == "port"
    ensures Names(RewriteProperties(ps, a), name)
  {
    var after, each, missing := RewriteProperties(ps, a), RewriteEach(ps, a), Missing(ps, a);
    MissingAdds(ps, a, name);
    if Names(ps, name) {
      var i :| 0 <= i < |ps| && ps[i].name == name;
      assert after[i].name == name;
    } else {
      var i :| 0 <= i < |missing| && missing[i].name == name;
      assert after[|each| + i].name == name;
    }
  }

  lemma RewriteKeepsUnrelated(ps: seq<Property>, a: Address)
    ensures Unrelated(RewriteProperties(ps, a)) == Unrelated(ps)
  {
    UnrelatedConcat(RewriteEach(ps, a), Missing(ps, a));
    UnrelatedKept(ps, a);
    NothingUnrelated(Missing(ps, a));
  }

  /** Carries the new address if it is a host or port property. */
  predicate Redirected(p: Property, a: Address) {
    && (p.name == "host" ==> p.value == StringLiteral(a.host))
    && (p.name == "port" ==> p.value == StringLiteral(a.port))
  }

  /** Every host and port property carries the new address, there is at least one of each, and all other
      properties stay, in order; the properties there were keep their places. */
  lemma RewriteMeansRedirected(ps: seq<Property>, a: Address)
    ensures var after := RewriteProperties(ps, a);
            && (forall i :: 0 <= i < |after| ==> Redirected(after[i], a))
            && Names(after, "host") && Names(after, "port")
            && Unrelated(after) == Unrelated(ps)
            && (forall i :: 0 <= i < |ps| ==> after[i].name == ps[i].name)
            && after[|ps|..] == (if Names(ps, "host") then [] else [Property("host", StringLiteral(a.host))])
                                + (if Names(ps, "port") then [] else [Property("port", StringLiteral(a.port))])
  {
    RewriteNames(ps, a, "host");
    RewriteNames(ps, a, "port");
    RewriteKeepsUnrelated(ps, a);
    var after, each, missing := RewriteProperties(ps, a), RewriteEach(ps, a), Missing(ps, a);
    forall i | 0 <= i < |after| ensures Redirected(after[i], a) {
      if i < |each| {
        assert after[i] == RewriteProperty(ps[i], a);
      } else {
        assert after[i] == missing[i - |each|];
      }
    }
  }

  lemma RewritePropertyTwice(p: Property, first: Address, second: Address)
    ensures RewriteProperty(RewriteProperty(p, first), second) == RewriteProperty(p, second)
  {
  }

  lemma RewriteEachTwice(ps: seq<Property>, first: Address, second: Address)
    ensures RewriteEach(RewriteEach(ps, first), second) == RewriteEach(ps, second)
  {
    forall i | 0 <= i < |ps|
      ensures RewriteEach(RewriteEach(ps, first), second)[i] == RewriteEach(ps, second)[i]
    {
      RewritePropertyTwice(ps[i], first, second);
    }
  }

  lemma RewriteEachConcat(a: seq<Property>, b: seq<Property>, address: Address)
    ensures RewriteEach(a + b, address) == RewriteEach(a, address) + RewriteEach(b, address)
  {
  }

  lemma RewriteMissing(ps: seq<Property>, first: Address, second: Address)
    ensures RewriteEach(Missing(ps, first), second) == Missing(ps, second)
  {
    var host, port := Property("host", StringLiteral(first.host)), Property("port", StringLiteral(first.port));
    assert RewriteProperty(host, second) == Property("host", StringLiteral(second.host));
    assert RewriteProperty(port, second) == Property("port", StringLiteral(second.port));
  }

  lemma NothingMissing(ps: seq<Property>, a: Address)
    requires Names(ps, "host") && Names(ps, "port")
    ensures Missing(ps, a) == []
  {
  }

  lemma RewritePropertiesTwice(ps: seq<Property>, first: Address, second: Address)
    ensures RewriteProperties(RewriteProperties(ps, first), second) == RewriteProperties(ps, second)
  {
    RewriteNames(ps, first, "host");
    RewriteNames(ps, first, "port");
    var once := RewriteProperties(ps, first);
    NothingMissing(once, second);
    RewriteEachConcat(RewriteEach(ps, first), Missing(ps, first), second);
    RewriteEachTwice(ps, first, second);
    RewriteMissing(ps, first, second);
  }

  /** A second rewriting whose names cover the first's gives what the second alone gives; with equal addresses,
      rewriting is idempotent. */
  lemma RewriteTwice(decls: seq<Decl>, first: Addresses, second: Addresses)
    requires first.Keys <= second.Keys
    ensures Rewrite(Rewrite(decls, first), second) == Rewrite(decls, second)
  {
    forall i | 0 <= i < |decls|
      ensures RewriteDecl(RewriteDecl(decls[i], first), second) == RewriteDecl(decls[i], second)
    {
      var d := decls[i];
      if d.Backend? && d.name in first {
        RewritePropertiesTwice(d.properties, first[d.name], second[d.name]);
      }
    }
  }

  /** Declarations keep their places, their kinds and, unless they are mapped backends, their contents. */
  lemma RewriteKeepsTheRest(decls: seq<Decl>, addresses: Addresses, i: nat)
    requires i < |decls|
    ensures var d := Rewrite(decls, addresses)[i];
            && (d != decls[i] ==> decls[i].Backend? && decls[i].name in addresses)
            && (decls[i].Backend? <==> d.Backend?)
            && (d.Backend? ==> d.name == decls[i].name)
            && (d.Backend? && d.name in addresses ==>
                  Unrelated(d.properties) == Unrelated(decls[i].properties)
                  && Property("host", StringLiteral(addresses[d.name].host)) in d.properties
                  && Property("port", StringLiteral(addresses[d.name].port)) in d.properties)
  {
    var d := decls[i];
    if d.Backend? && d.name in addresses {
      var a := addresses[d.name];
      RewriteMeansRedirected(d.properties, a);
      var after := RewriteProperties(d.properties, a);
      var h :| 0 <= h < |after| && after[h].name == "host";
      var p :| 0 <= p < |after| && after[p].name == "port";
      assert Redirected(after[h], a) && Redirected(after[p], a);
      assert after[h] == Property("host", StringLiteral(a.host));
      assert after[p] == Property("port", StringLiteral(a.port));
    }
  }
}
