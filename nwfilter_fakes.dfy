/**
 * `NWFilterFakes`: the in-memory stand-in for libvirt's network-filter
 * registry that the firewall tests install.  It maps a filter name to the
 * filter's uuid and document; defining a name again must keep its uuid.
 * An XML document is represented by what the fake reads from it: the
 * `name` attribute, the optional `uuid` element and its `filterref`s.
 */
module NWFilterFakes {
  import opened Wrappers

  /** A filter document; `filterrefs` are the `filter` attributes of its
      `filterref` elements, in document order. */
  datatype FilterXml = FilterXml(name: string, uuid: Option<string>, filterrefs: seq<string>)

  /** `FakeNWFilterInternal`: the stored uuid and document of a name. */
  datatype FakeFilter = FakeFilter(uuid: string, xml: FilterXml)

  datatype LibvirtError =
    | FilterNotFound                                            // 'Filter Not Found'
    | MismatchingUuid(name: string, stored: string, given: string)
    | KeyError(name: string)                                    // `del` of a name already gone

  type Registry = map<string, FakeFilter>

  /** `nwfilterLookupByName`. */
  function Lookup(filters: Registry, name: string): Result<FakeFilter, LibvirtError> {
    if name in filters then Ok(filters[name]) else Err(FilterNotFound)
  }

  /** The registry after a define, and what the define returned. */
  datatype Defined = Defined(result: Result<bool, LibvirtError>, filters: Registry)

  /** `filterDefineXMLMock(xml)`; `freshUuid` stands for `uuid.uuid4().hex`,
      used when the document has no uuid element. */
  function DefineXml(filters: Registry, doc: FilterXml, freshUuid: string): Defined {
    var u := if doc.uuid.Some? then doc.uuid.value else freshUuid;
    if doc.name !in filters then Defined(Ok(true), filters[doc.name := FakeFilter(u, doc)])
    else if filters[doc.name].uuid != u then
      Defined(Err(MismatchingUuid(doc.name, filters[doc.name].uuid, u)), filters)
    else Defined(Ok(true), filters[doc.name := filters[doc.name].(xml := doc)])
  }

  /** `undefine()` of the filter stored under `name`. */
  function Undefine(filters: Registry, name: string): Result<Registry, LibvirtError> {
    if name in filters then Ok(filters - {name}) else Err(KeyError(name))
  }

  /** Defining a new name adds exactly that one entry, with the document's
      uuid or else the fresh one; nothing else changes. */
  lemma DefineNew(filters: Registry, doc: FilterXml, freshUuid: string)
    requires doc.name !in filters
    ensures var d := DefineXml(filters, doc, freshUuid);
      d.result == Ok(true)
      && d.filters.Keys == filters.Keys + {doc.name}
      && |d.filters| == |filters| + 1
      && d.filters[doc.name] == FakeFilter(if doc.uuid.None? then freshUuid else doc.uuid.value, doc)
      && forall n :: n in filters ==> d.filters[n] == filters[n]
  {
  }

  /** Redefining a name with its stored uuid only replaces the document: the
      names, the count and the uuid stay as they were. */
  lemma RedefineSameUuid(filters: Registry, doc: FilterXml, freshUuid: string)
    requires doc.name in filters
    requires (if doc.uuid.Some? then doc.uuid.value else freshUuid) == filters[doc.name].uuid
    ensures var d := DefineXml(filters, doc, freshUuid);
      d.result == Ok(true)
      && d.filters.Keys == filters.Keys
      && |d.filters| == |filters|
      && d.filters[doc.name] == FakeFilter(filters[doc.name].uuid, doc)
      && forall n :: n in filters && n != doc.name ==> d.filters[n] == filters[n]
  {
  }

  /** Redefining a name with another uuid raises and changes nothing; in
      particular a document without a uuid element is refused whenever the
      fresh uuid differs from the stored one. */
  lemma RedefineOtherUuid(filters: Registry, doc: FilterXml, freshUuid: string)
    requires doc.name in filters
    requires (if doc.uuid.Some? then doc.uuid.value else freshUuid) != filters[doc.name].uuid
    ensures var d := DefineXml(filters, doc, freshUuid);
      d.result.Err? && d.result.error.MismatchingUuid? && d.filters == filters
  {
  }

  /** A define fails only on a uuid mismatch, and a failed define leaves the
      registry as it was. */
  lemma DefineFails(filters: Registry, doc: FilterXml, freshUuid: string)
    ensures var d := DefineXml(filters, doc, freshUuid);
      (d.result.Err? <==> (doc.name in filters
        && filters[doc.name].uuid != (if doc.uuid.Some? then doc.uuid.value else freshUuid)))
      && (d.result.Err? ==> d.filters == filters)
      && (d.result.Ok? ==> Lookup(d.filters, doc.name).Ok? && Lookup(d.filters, doc.name).value.xml == doc)
  {
  }

  /** Undefining removes exactly its own name, one entry fewer; a lookup of
      it then fails. */
  lemma UndefineRemovesOne(filters: Registry, name: string)
    requires name in filters
    ensures Undefine(filters, name).Ok?
    ensures var after := Undefine(filters, name).value;
      after.Keys == filters.Keys - {name}
      && |after| == |filters| - 1
      && Lookup(after, name) == Err(FilterNotFound)
      && forall n :: n in after ==> after[n] == filters[n]
  {
    var after := filters - {name};
    assert after.Keys == filters.Keys - {name};
    assert |after.Keys| == |filters.Keys| - 1;
  }

  /** The fake itself: a dictionary of filters that defines insert into and
      update, and undefines delete from. */
  class Fakes {
    var filters: Registry

    constructor ()
      ensures filters == map[]
    {
      filters := map[];
    }

    function NwfilterLookupByName(name: string): (r: Result<FakeFilter, LibvirtError>)
      reads this
      ensures r == Lookup(filters, name)
    {
      Lookup(filters, name)
    }

    method FilterDefineXmlMock(doc: FilterXml, freshUuid: string) returns (r: Result<bool, LibvirtError>)
      modifies this
      ensures r == DefineXml(old(filters), doc, freshUuid).result
      ensures filters == DefineXml(old(filters), doc, freshUuid).filters
    {
      var u := if doc.uuid.Some? then doc.uuid.value else freshUuid;
      if doc.name !in filters {
        filters := filters[doc.name := FakeFilter(u, doc)];
      } else {
        if filters[doc.name].uuid != u {
          return Err(MismatchingUuid(doc.name, filters[doc.name].uuid, u));
        }
        filters := filters[doc.name := filters[doc.name].(xml := doc)];
      }
      return Ok(true);
    }

    /** `undefine()` called on the filter object stored under `name`. */
    method UndefineFilter(name: string) returns (r: Result<(), LibvirtError>)
      modifies this
      ensures r.Ok? <==> Undefine(old(filters), name).Ok?
      ensures r.Ok? ==> filters == Undefine(old(filters), name).value
      ensures r.Err? ==> r.error == Undefine(old(filters), name).error && filters == old(filters)
    {
      if name !in filters {
        return Err(KeyError(name));
      }
      filters := filters - {name};
      return Ok(());
    }
  }
}
