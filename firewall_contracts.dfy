/**
 * What the firewall tests require of the libvirt firewall drivers, stated
 * over abstract states: the network-filter registry of `NWFilterFakes` and
 * an iptables filter table of chains and rules.  The drivers' own code is
 * not part of this model; each operation here does what the tests observe
 * and no more.
 */
module FirewallContracts {
  import opened Wrappers
  import Text
  import opened NWFilterFakes
  import DefineOrder

  // ---------------------------------------------------------------------
  // An abstract list of the filter documents a basic-filtering setup defines

  /** A network interface: its MAC address and the DHCP server of its IPv4
      subnet, if it has one. */
  datatype Vif = Vif(address: string, dhcpServer: Option<string>)

  const NOVA_BASE: string := "nova-base"
  const NOVA_NODHCP: string := "nova-nodhcp"
  const ALLOW_DHCP_SERVER: string := "allow-dhcp-server"
  const ANTI_SPOOFING: seq<string> := ["no-mac-spoofing", "no-ip-spoofing", "no-arp-spoofing"]

  /** The static filters, defined before any instance filter: `nova-base`
      allows a DHCP server, `nova-nodhcp` does not. */
  function StaticFilters(): seq<FilterXml> {
    [FilterXml(NOVA_BASE, None, ANTI_SPOOFING + [ALLOW_DHCP_SERVER]),
     FilterXml(NOVA_NODHCP, None, ANTI_SPOOFING)]
  }

  /** `vif['address'].replace(':', '')`. */
  function NicId(vif: Vif): string {
    Text.Without(vif.address, ':')
  }

  /** `_instance_filter_name`: `nova-instance-<name>-<nic id>`. */
  function InstanceFilterName(instanceName: string, nicId: string): string {
    "nova-instance-" + instanceName + "-" + nicId
  }

  /** The base filter an interface's filter references, chosen by that
      interface's own subnet. */
  function BaseFilter(vif: Vif): string {
    if vif.dhcpServer.Some? then NOVA_BASE else NOVA_NODHCP
  }

  function InstanceFilter(instanceName: string, vif: Vif): FilterXml {
    FilterXml(InstanceFilterName(instanceName, NicId(vif)), None, [BaseFilter(vif)])
  }

  /** The abstract document list the tests' observations of
      `setup_basic_filtering` allow: the two static filters, then one filter
      per interface.  The driver's actual documents are not part of this
      model. */
  function SetupDocs(instanceName: string, vifs: seq<Vif>): seq<FilterXml> {
    StaticFilters() + seq(|vifs|, k requires 0 <= k < |vifs| => InstanceFilter(instanceName, vifs[k]))
  }

  /** The layout of the list, for the proofs below. */
  lemma SetupDocsShape(instanceName: string, vifs: seq<Vif>)
    ensures var docs := SetupDocs(instanceName, vifs);
      && |docs| == 2 + |vifs|
      && docs[..2] == StaticFilters()
      && forall k :: 0 <= k < |vifs| ==> docs[2 + k] == InstanceFilter(instanceName, vifs[k])
  {
  }

  /** An instance filter's name is none of the static or built-in names. */
  lemma InstanceFilterNameFresh(instanceName: string, nicId: string)
    ensures InstanceFilterName(instanceName, nicId) !in [NOVA_BASE, NOVA_NODHCP] + DefineOrder.BUILTIN
  {
    var n := InstanceFilterName(instanceName, nicId);
    assert n[2] == 'v' && n[5] == 'i';
    assert NOVA_BASE[5] == 'b' && NOVA_NODHCP[5] == 'n';
    assert forall b :: b in DefineOrder.BUILTIN ==> b[2] != 'v';
  }

  /** Interfaces with different NIC ids get differently named filters. */
  lemma InstanceFilterNameInjective(instanceName: string, a: string, b: string)
    requires a != b
    ensures InstanceFilterName(instanceName, a) != InstanceFilterName(instanceName, b)
  {
    var p := "nova-instance-" + instanceName + "-";
    assert InstanceFilterName(instanceName, a) == p + a;
    assert InstanceFilterName(instanceName, b) == p + b;
    assert (p + a)[|p|..] == a && (p + b)[|p|..] == b;
  }

  // ---------------------------------------------------------------------
  // The define-order check (`test_creates_base_rule_first`)

  /** The state of the checker once the built-in filters are there with no
      dependencies of their own. */
  predicate BuiltinReady(s: DefineOrder.CheckerState) {
    DefineOrder.Consistent(s)
    && forall b :: b in DefineOrder.BUILTIN ==> b in s.defined && b in s.depends && s.depends[b] == []
  }

  /** Defining the documents of one interface passes the define-order check,
      and the interface's filter then depends, through its base filter, on
      the three anti-spoofing filters, and on `allow-dhcp-server` exactly when
      its subnet has a DHCP server.  The checker is ready for the next run. */
  lemma {:induction false} DhcpDepends(s: DefineOrder.CheckerState, instanceName: string, vif: Vif)
    requires BuiltinReady(s)
    ensures DefineOrder.DefineAll(s, SetupDocs(instanceName, [vif])).Ok?
    ensures var t := DefineOrder.DefineAll(s, SetupDocs(instanceName, [vif])).value;
      var name := InstanceFilterName(instanceName, NicId(vif));
      BuiltinReady(t) && name in t.depends
      && (forall a :: a in ANTI_SPOOFING ==> a in t.depends[name])
      && (ALLOW_DHCP_SERVER in t.depends[name] <==> vif.dhcpServer.Some?)
  {
    var inst := InstanceFilter(instanceName, vif);
    assert SetupDocs(instanceName, [vif]) == StaticFilters() + [inst];
    var s2 := DefineStatics(s, [inst]);
    var s3 := DefineInstance(s2, instanceName, vif);
  }

  /** Defining an interface's filter once both base filters are there. */
  lemma DefineInstance(s2: DefineOrder.CheckerState, instanceName: string, vif: Vif)
    returns (s3: DefineOrder.CheckerState)
    requires BuiltinReady(s2) && NOVA_BASE in s2.defined && NOVA_NODHCP in s2.defined
    requires NOVA_BASE in s2.depends && NOVA_NODHCP in s2.depends
    requires forall x :: x in s2.depends[NOVA_BASE] <==> x in DefineOrder.BUILTIN
    requires forall x :: x in s2.depends[NOVA_NODHCP] <==> x in ANTI_SPOOFING
    ensures var name := InstanceFilterName(instanceName, NicId(vif));
      DefineOrder.DefineAll(s2, [InstanceFilter(instanceName, vif)]) == Ok(s3)
      && BuiltinReady(s3) && name in s3.depends
      && (forall a :: a in ANTI_SPOOFING ==> a in s3.depends[name])
      && (ALLOW_DHCP_SERVER in s3.depends[name] <==> vif.dhcpServer.Some?)
  {
    var inst := InstanceFilter(instanceName, vif);
    InstanceFilterNameFresh(instanceName, NicId(vif));
    DefineOrder.DefineStepDepends(s2, inst);
    s3 := DefineOrder.DefineStep(s2, inst).value;
    assert DefineOrder.DefineAll(s2, [inst]) == Ok(s3) by {
      assert [inst][1..] == [];
    }
    DependsThroughBase(s2, s3, inst.name, vif);
  }

  /** Defining the two static filters on a ready checker: `nova-base` then
      depends on the built-in filters and `nova-nodhcp` on the anti-spoofing
      ones; what follows is defined from there. */
  lemma DefineStatics(s: DefineOrder.CheckerState, rest: seq<FilterXml>) returns (s2: DefineOrder.CheckerState)
    requires BuiltinReady(s)
    ensures BuiltinReady(s2) && NOVA_BASE in s2.defined && NOVA_NODHCP in s2.defined
    ensures NOVA_BASE in s2.depends && NOVA_NODHCP in s2.depends
    ensures forall x :: x in s2.depends[NOVA_BASE] <==> x in DefineOrder.BUILTIN
    ensures forall x :: x in s2.depends[NOVA_NODHCP] <==> x in ANTI_SPOOFING
    ensures DefineOrder.DefineAll(s, StaticFilters() + rest) == DefineOrder.DefineAll(s2, rest)
  {
    var s1 := DefineBase(s);
    s2 := DefineNodhcp(s1);
    var docs := StaticFilters() + rest;
    assert docs[0] == StaticFilters()[0] && docs[1..][0] == StaticFilters()[1] && docs[1..][1..] == rest;
  }

  /** The dependencies of an interface's filter, given those of the two base
      filters. */
  lemma DependsThroughBase(s2: DefineOrder.CheckerState, s3: DefineOrder.CheckerState, name: string, vif: Vif)
    requires NOVA_BASE in s2.depends && NOVA_NODHCP in s2.depends && name in s3.depends
    requires forall x :: x in s2.depends[NOVA_BASE] <==> x in DefineOrder.BUILTIN
    requires forall x :: x in s2.depends[NOVA_NODHCP] <==> x in ANTI_SPOOFING
    requires forall x :: x in s3.depends[name] <==>
      exists ref :: ref in [BaseFilter(vif)] && (x == ref || x in s2.depends[ref])
    ensures forall a :: a in ANTI_SPOOFING ==> a in s3.depends[name]
    ensures ALLOW_DHCP_SERVER in s3.depends[name] <==> vif.dhcpServer.Some?
  {
    var b := BaseFilter(vif);
    assert b in [b];
    forall a | a in ANTI_SPOOFING ensures a in s3.depends[name] {
      assert a in s2.depends[b];
    }
    if vif.dhcpServer.Some? {
      assert ALLOW_DHCP_SERVER in s2.depends[b];
    } else {
      assert ALLOW_DHCP_SERVER !in ANTI_SPOOFING;
      assert ALLOW_DHCP_SERVER != b;
      assert ALLOW_DHCP_SERVER !in s2.depends[b];
      assert forall ref :: ref in [b] ==> ref == b;
    }
  }

  /** Defining `nova-base` on a ready checker: its dependencies are the
      built-in filters. */
  lemma DefineBase(s: DefineOrder.CheckerState) returns (t: DefineOrder.CheckerState)
    requires BuiltinReady(s)
    ensures DefineOrder.DefineStep(s, StaticFilters()[0]) == Ok(t)
    ensures BuiltinReady(t) && NOVA_BASE in t.defined && NOVA_BASE in t.depends
    ensures forall x :: x in t.depends[NOVA_BASE] <==> x in DefineOrder.BUILTIN
  {
    var doc := StaticFilters()[0];
    assert doc.filterrefs == DefineOrder.BUILTIN;
    DefineOrder.DefineStepDepends(s, doc);
    t := DefineOrder.DefineStep(s, doc).value;
  }

  /** Defining `nova-nodhcp` after `nova-base`: its dependencies are the
      anti-spoofing filters, and those of `nova-base` stay. */
  lemma DefineNodhcp(s: DefineOrder.CheckerState) returns (t: DefineOrder.CheckerState)
    requires BuiltinReady(s) && NOVA_BASE in s.defined && NOVA_BASE in s.depends
    requires forall x :: x in s.depends[NOVA_BASE] <==> x in DefineOrder.BUILTIN
    ensures DefineOrder.DefineStep(s, StaticFilters()[1]) == Ok(t)
    ensures BuiltinReady(t) && NOVA_BASE in t.defined && NOVA_NODHCP in t.defined
    ensures NOVA_BASE in t.depends && NOVA_NODHCP in t.depends
    ensures forall x :: x in t.depends[NOVA_BASE] <==> x in DefineOrder.BUILTIN
    ensures forall x :: x in t.depends[NOVA_NODHCP] <==> x in ANTI_SPOOFING
  {
    var doc := StaticFilters()[1];
    assert doc.filterrefs == ANTI_SPOOFING;
    DefineOrder.DefineStepDepends(s, doc);
    t := DefineOrder.DefineStep(s, doc).value;
  }

  // ---------------------------------------------------------------------
  // Defining and undefining through the registry

  /** The driver's define: the document carries the uuid already stored
      under its name, a uuids one otherwise, so a redefinition keeps it. */
  function DefineFilter(filters: Registry, doc: FilterXml, freshUuid: string): Defined {
    var u := if doc.name in filters then filters[doc.name].uuid else freshUuid;
    DefineXml(filters, doc.(uuid := Some(u)), freshUuid)
  }

  /** The registry after defining the documents in order, with one uuids
      uuid per define. */
  function DefineFilters(filters: Registry, docs: seq<FilterXml>, uuids: seq<string>): Result<Registry, LibvirtError>
    requires |uuids| == |docs|
    decreases docs
  {
    if docs == [] then Ok(filters)
    else
      var d := DefineFilter(filters, docs[0], uuids[0]);
      match d.result
      case Err(e) => Err(e)
      case Ok(_) => DefineFilters(d.filters, docs[1..], uuids[1..])
  }

  /** Defining never fails; afterwards the registry holds exactly the names
      it held and the defined names, each defined name with the references of
      its last document, and the names not defined untouched. */
  lemma {:induction false} DefineFiltersSucceed(filters: Registry, docs: seq<FilterXml>, uuids: seq<string>)
    requires |uuids| == |docs|
    ensures DefineFilters(filters, docs, uuids).Ok?
    ensures var r := DefineFilters(filters, docs, uuids).value;
      r.Keys == filters.Keys + DocNames(docs)
      && (forall n :: n in filters && (forall k :: 0 <= k < |docs| ==> docs[k].name != n) ==> r[n] == filters[n])
      && forall k :: 0 <= k < |docs| && (forall j :: k < j < |docs| ==> docs[j].name != docs[k].name) ==>
           r[docs[k].name].xml.filterrefs == docs[k].filterrefs
    decreases docs
  {
    if docs != [] {
      var d := DefineFilter(filters, docs[0], uuids[0]);
      assert d.result == Ok(true);
      assert d.filters.Keys == filters.Keys + {docs[0].name};
      DefineFiltersSucceed(d.filters, docs[1..], uuids[1..]);
      var r := DefineFilters(filters, docs, uuids).value;
      var tail := docs[1..];
      DocNamesCons(docs);
      forall n | n in filters && (forall k :: 0 <= k < |docs| ==> docs[k].name != n)
        ensures r[n] == filters[n]
      {
        assert docs[0].name != n;
        forall k | 0 <= k < |tail| ensures tail[k].name != n {
          assert tail[k] == docs[k + 1];
        }
      }
      forall k | 0 <= k < |docs| && (forall j :: k < j < |docs| ==> docs[j].name != docs[k].name)
        ensures r[docs[k].name].xml.filterrefs == docs[k].filterrefs
      {
        if k == 0 {
          forall j | 0 <= j < |tail| ensures tail[j].name != docs[0].name {
            assert tail[j] == docs[j + 1];
          }
          assert docs[0].name in d.filters;
        } else {
          assert tail[k - 1] == docs[k];
          forall j | k - 1 < j < |tail| ensures tail[j].name != tail[k - 1].name {
            assert tail[j] == docs[j + 1];
          }
        }
      }
    }
  }

  function DocNames(docs: seq<FilterXml>): set<string> {
    set k | 0 <= k < |docs| :: docs[k].name
  }

  lemma DocNamesCons(docs: seq<FilterXml>)
    requires docs != []
    ensures DocNames(docs) == {docs[0].name} + DocNames(docs[1..])
  {
    var tail := docs[1..];
    forall x | x in DocNames(docs) ensures x in {docs[0].name} + DocNames(tail) {
      var k :| 0 <= k < |docs| && docs[k].name == x;
      if k > 0 {
        assert tail[k - 1] == docs[k];
      }
    }
    forall x | x in DocNames(tail) ensures x in DocNames(docs) {
      var k :| 0 <= k < |tail| && tail[k].name == x;
      assert docs[k + 1] == tail[k];
    }
  }

  /** `setup_basic_filtering`, over the abstract document list. */
  function SetupBasicFiltering(filters: Registry, instanceName: string, vifs: seq<Vif>, uuids: seq<string>): Result<Registry, LibvirtError>
    requires |uuids| == 2 + |vifs|
  {
    DefineFilters(filters, SetupDocs(instanceName, vifs), uuids)
  }

  /** Setting up twice succeeds both times, and the second run leaves the
      number of filters as the first left it. */
  lemma SetupTwice(filters: Registry, instanceName: string, vifs: seq<Vif>, uuids1: seq<string>, uuids2: seq<string>)
    requires |uuids1| == 2 + |vifs| && |uuids2| == 2 + |vifs|
    ensures SetupBasicFiltering(filters, instanceName, vifs, uuids1).Ok?
    ensures var r1 := SetupBasicFiltering(filters, instanceName, vifs, uuids1).value;
      SetupBasicFiltering(r1, instanceName, vifs, uuids2).Ok?
      && SetupBasicFiltering(r1, instanceName, vifs, uuids2).value.Keys == r1.Keys
      && |SetupBasicFiltering(r1, instanceName, vifs, uuids2).value| == |r1|
  {
    var docs := SetupDocs(instanceName, vifs);
    DefineFiltersSucceed(filters, docs, uuids1);
    var r1 := SetupBasicFiltering(filters, instanceName, vifs, uuids1).value;
    DefineFiltersSucceed(r1, docs, uuids2);
    var r2 := SetupBasicFiltering(r1, instanceName, vifs, uuids2).value;
    assert r2.Keys == r1.Keys;
    assert |r2.Keys| == |r1.Keys|;
  }

  /** Distinct NIC ids. */
  predicate DistinctNics(vifs: seq<Vif>) {
    forall i, j :: 0 <= i < j < |vifs| ==> NicId(vifs[i]) != NicId(vifs[j])
  }

  /** With several interfaces, each interface's filter references just the
      base filter its own subnet calls for: `nova-base` with a DHCP server,
      `nova-nodhcp` without. */
  lemma MultinicBaseFilter(filters: Registry, instanceName: string, vifs: seq<Vif>, uuids: seq<string>, k: nat)
    requires |uuids| == 2 + |vifs| && k < |vifs| && DistinctNics(vifs)
    ensures SetupBasicFiltering(filters, instanceName, vifs, uuids).Ok?
    ensures var r := SetupBasicFiltering(filters, instanceName, vifs, uuids).value;
      var found := Lookup(r, InstanceFilterName(instanceName, NicId(vifs[k])));
      found.Ok? && found.value.xml.filterrefs == [if vifs[k].dhcpServer.Some? then NOVA_BASE else NOVA_NODHCP]
  {
    var docs := SetupDocs(instanceName, vifs);
    SetupDocsShape(instanceName, vifs);
    DefineFiltersSucceed(filters, docs, uuids);
    forall j | 2 + k < j < |docs| ensures docs[j].name != docs[2 + k].name {
      assert docs[j] == InstanceFilter(instanceName, vifs[j - 2]);
      InstanceFilterNameInjective(instanceName, NicId(vifs[k]), NicId(vifs[j - 2]));
    }
    assert 2 + k < |docs|;
  }

  /** `unfilter_instance`: the filter of each interface is looked up and
      undefined; a filter that cannot be found is an error. */
  function UnfilterInstance(filters: Registry, instanceName: string, vifs: seq<Vif>): Result<Registry, LibvirtError> {
    if vifs == [] then Ok(filters)
    else
      var name := InstanceFilterName(instanceName, NicId(vifs[0]));
      match Lookup(filters, name)
      case Err(e) => Err(e)
      case Ok(_) =>
        match Undefine(filters, name)
        case Err(e) => Err(e)
        case Ok(rest) => UnfilterInstance(rest, instanceName, vifs[1..])
  }

  /** Unfiltering removes exactly the interfaces' filters: one filter fewer
      per interface. */
  lemma {:induction false} UnfilterRemovesOnePerNic(filters: Registry, instanceName: string, vifs: seq<Vif>)
    requires DistinctNics(vifs)
    requires forall k :: 0 <= k < |vifs| ==> InstanceFilterName(instanceName, NicId(vifs[k])) in filters
    ensures UnfilterInstance(filters, instanceName, vifs).Ok?
    ensures var r := UnfilterInstance(filters, instanceName, vifs).value;
      r.Keys == filters.Keys - NicNames(instanceName, vifs)
      && |r| == |filters| - |vifs|
  {
    if vifs != [] {
      var name := InstanceFilterName(instanceName, NicId(vifs[0]));
      UndefineRemovesOne(filters, name);
      var rest := filters - {name};
      var tail := vifs[1..];
      forall k | 0 <= k < |tail| ensures InstanceFilterName(instanceName, NicId(tail[k])) in rest {
        assert tail[k] == vifs[k + 1];
        InstanceFilterNameInjective(instanceName, NicId(vifs[0]), NicId(vifs[k + 1]));
      }
      UnfilterRemovesOnePerNic(rest, instanceName, tail);
      NicNamesCons(instanceName, vifs);
      assert |rest| == |filters| - 1;
    }
  }

  function NicNames(instanceName: string, vifs: seq<Vif>): set<string> {
    set k | 0 <= k < |vifs| :: InstanceFilterName(instanceName, NicId(vifs[k]))
  }

  lemma NicNamesCons(instanceName: string, vifs: seq<Vif>)
    requires vifs != []
    ensures NicNames(instanceName, vifs)
      == {InstanceFilterName(instanceName, NicId(vifs[0]))} + NicNames(instanceName, vifs[1..])
  {
    var tail := vifs[1..];
    forall x | x in NicNames(instanceName, vifs)
      ensures x in {InstanceFilterName(instanceName, NicId(vifs[0]))} + NicNames(instanceName, tail)
    {
      var k :| 0 <= k < |vifs| && InstanceFilterName(instanceName, NicId(vifs[k])) == x;
      if k > 0 {
        assert tail[k - 1] == vifs[k];
      }
    }
    forall x | x in NicNames(instanceName, tail) ensures x in NicNames(instanceName, vifs) {
      var k :| 0 <= k < |tail| && InstanceFilterName(instanceName, NicId(tail[k])) == x;
      assert vifs[k + 1] == tail[k];
    }
  }

  /** After setting up an instance with one interface, unfiltering it
      leaves exactly one filter fewer. */
  lemma UnfilterAfterSetup(filters: Registry, instanceName: string, vif: Vif, uuids: seq<string>)
    requires |uuids| == 3
    ensures SetupBasicFiltering(filters, instanceName, [vif], uuids).Ok?
    ensures var r := SetupBasicFiltering(filters, instanceName, [vif], uuids).value;
      UnfilterInstance(r, instanceName, [vif]).Ok?
      && |r| - |UnfilterInstance(r, instanceName, [vif]).value| == 1
  {
    var docs := SetupDocs(instanceName, [vif]);
    DefineFiltersSucceed(filters, docs, uuids);
    assert docs[2].name == InstanceFilterName(instanceName, NicId(vif));
    UnfilterRemovesOnePerNic(SetupBasicFiltering(filters, instanceName, [vif], uuids).value, instanceName, [vif]);
  }
}
