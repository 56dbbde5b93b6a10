/**
 * The define-order checker of `test_creates_base_rule_first`: it stands in
 * for `nwfilterDefineXML`, refuses a filter that references a filter not
 * yet defined, and records for every filter the filters it depends on,
 * directly or through the filters it references.
 */
module DefineOrder {
  import opened Wrappers
  import opened NWFilterFakes

  /** The filters libvirt defines itself. */
  const BUILTIN: seq<string> := ["no-mac-spoofing", "no-ip-spoofing", "no-arp-spoofing", "allow-dhcp-server"]

  /** The failed `assertTrue(ref in self.defined_filters)`. */
  datatype DefineError = UndefinedReference(name: string, ref: string)

  /** `recursive_depends`: for each filter, its dependencies with repeats. */
  type Depends = map<string, seq<string>>

  /** `defined_filters` and `recursive_depends`. */
  datatype CheckerState = CheckerState(defined: seq<string>, depends: Depends)

  /** Every defined filter has a dependency list. */
  predicate Consistent(s: CheckerState) {
    forall n :: n in s.defined ==> n in s.depends
  }

  function Initial(): (s: CheckerState)
    ensures Consistent(s)
  {
    CheckerState(BUILTIN, map n | n in BUILTIN :: [])
  }

  /** `recursive_depends` after the loop has gone through `refs`: each
      reference adds itself and the dependencies that reference has at that
      moment to the list of `name`. */
  function Accumulate(rd: Depends, name: string, refs: seq<string>): (r: Depends)
    requires name in rd && forall ref :: ref in refs ==> ref in rd
    ensures r.Keys == rd.Keys
  {
    if refs == [] then rd
    else
      var prev := Accumulate(rd, name, refs[..|refs| - 1]);
      var ref := refs[|refs| - 1];
      prev[name := prev[name] + ([ref] + prev[ref])]
  }

  /** The position of the first reference that is not defined. */
  function FirstUndefined(defined: seq<string>, refs: seq<string>): (r: Option<nat>)
    ensures r.Some? ==> (r.value < |refs| && refs[r.value] !in defined
      && forall k :: 0 <= k < r.value ==> refs[k] in defined)
    ensures r.None? ==> forall ref :: ref in refs ==> ref in defined
  {
    if refs == [] then None
    else if refs[0] !in defined then Some(0)
    else
      match FirstUndefined(defined, refs[1..])
      case None => None
      case Some(k) => Some(k + 1)
  }

  /** One call of `_filterDefineXMLMock`. */
  function DefineStep(s: CheckerState, doc: FilterXml): Result<CheckerState, DefineError>
    requires Consistent(s)
  {
    match FirstUndefined(s.defined, doc.filterrefs)
    case Some(k) => Err(UndefinedReference(doc.name, doc.filterrefs[k]))
    case None =>
      Ok(CheckerState(s.defined + [doc.name],
                      Accumulate(s.depends[doc.name := []], doc.name, doc.filterrefs)))
  }

  /** A define passes the check exactly when all its references are defined;
      it then appends the name, keeps the state consistent, and leaves every
      other name's dependencies alone. */
  lemma DefineStepChecks(s: CheckerState, doc: FilterXml)
    requires Consistent(s)
    ensures DefineStep(s, doc).Ok? <==> forall ref :: ref in doc.filterrefs ==> ref in s.defined
    ensures DefineStep(s, doc).Ok? ==>
      var t := DefineStep(s, doc).value;
      t.defined == s.defined + [doc.name] && Consistent(t)
      && forall n :: n in s.depends && n != doc.name ==> n in t.depends && t.depends[n] == s.depends[n]
  {
    if DefineStep(s, doc).Ok? {
      AccumulateOthers(s.depends[doc.name := []], doc.name, doc.filterrefs);
    }
  }

  lemma {:induction false} AccumulateOthers(rd: Depends, name: string, refs: seq<string>)
    requires name in rd && forall ref :: ref in refs ==> ref in rd
    ensures forall n :: n in rd && n != name ==> Accumulate(rd, name, refs)[n] == rd[n]
  {
    if refs != [] {
      AccumulateOthers(rd, name, refs[..|refs| - 1]);
    }
  }

  /** When a filter does not reference itself, its dependencies are exactly
      its references and their own dependencies. */
  lemma {:induction false} AccumulateDepends(rd: Depends, name: string, refs: seq<string>, x: string)
    requires name in rd && forall ref :: ref in refs ==> ref in rd
    requires name !in refs
    ensures x in Accumulate(rd, name, refs)[name] <==>
      (x in rd[name] || exists ref :: ref in refs && (x == ref || x in rd[ref]))
  {
    if refs != [] {
      var init := refs[..|refs| - 1];
      var ref := refs[|refs| - 1];
      assert forall r :: r in init ==> r in refs;
      AccumulateDepends(rd, name, init, x);
      AccumulateOthers(rd, name, init);
      assert refs == init + [ref];
    }
  }

  /** One define of a filter that does not reference itself and whose
      references are all defined: it passes, and the filter's dependencies
      are then exactly its references and, for each, that reference's own
      dependencies. */
  lemma DefineStepDepends(s: CheckerState, doc: FilterXml)
    requires Consistent(s) && doc.name !in doc.filterrefs
    requires forall ref :: ref in doc.filterrefs ==> ref in s.defined
    ensures DefineStep(s, doc).Ok?
    ensures var t := DefineStep(s, doc).value;
      t.defined == s.defined + [doc.name] && Consistent(t) && doc.name in t.depends
      && (forall n :: n in s.depends && n != doc.name ==> n in t.depends && t.depends[n] == s.depends[n])
      && forall x :: x in t.depends[doc.name] <==>
           exists ref :: ref in doc.filterrefs && (x == ref || x in s.depends[ref])
  {
    DefineStepChecks(s, doc);
    var rd := s.depends[doc.name := []];
    forall x ensures x in DefineStep(s, doc).value.depends[doc.name] <==>
        exists ref :: ref in doc.filterrefs && (x == ref || x in s.depends[ref])
    {
      AccumulateDepends(rd, doc.name, doc.filterrefs, x);
    }
  }

  /** The checker of the test, with `defined_filters` and
      `recursive_depends` as fields. */
  class Checker {
    var definedFilters: seq<string>
    var recursiveDepends: Depends

    function State(): CheckerState
      reads this
    {
      CheckerState(definedFilters, recursiveDepends)
    }

    constructor ()
      ensures State() == Initial()
    {
      definedFilters := BUILTIN;
      recursiveDepends := map n | n in BUILTIN :: [];
    }

    /** `_filterDefineXMLMock(xml)`: on success it returns True with the state
      `DefineStep` gives; on a failed check the list of defined filters is
      unchanged. */
    method FilterDefineXml(doc: FilterXml) returns (r: Result<bool, DefineError>)
      requires Consistent(State())
      modifies this
      ensures Consistent(State())
      ensures r.Ok? <==> DefineStep(old(State()), doc).Ok?
      ensures r.Ok? ==> r.value && State() == DefineStep(old(State()), doc).value
      ensures r.Err? ==> r.error == DefineStep(old(State()), doc).error && definedFilters == old(definedFilters)
    {
      var refs := doc.filterrefs;
      recursiveDepends := recursiveDepends[doc.name := []];
      ghost var rd := recursiveDepends;
      var i := 0;
      while i < |refs|
        invariant 0 <= i <= |refs|
        invariant definedFilters == old(definedFilters)
        invariant forall k :: 0 <= k < i ==> refs[k] in definedFilters
        invariant forall ref :: ref in refs[..i] ==> ref in rd
        invariant recursiveDepends == Accumulate(rd, doc.name, refs[..i])
      {
        var ref := refs[i];
        if ref !in definedFilters {
          FirstUndefinedAt(definedFilters, refs, i);
          return Err(UndefinedReference(doc.name, ref));
        }
        var done := refs[..i + 1];
        assert done[..i] == refs[..i] && done[i] == ref;
        var dependencies := [ref] + recursiveDepends[ref];
        recursiveDepends := recursiveDepends[doc.name := recursiveDepends[doc.name] + dependencies];
        assert recursiveDepends == Accumulate(rd, doc.name, done);
        i := i + 1;
      }
      assert refs[..i] == refs;
      definedFilters := definedFilters + [doc.name];
      return Ok(true);
    }
  }

  /** The first undefined reference is the one the loop stops at. */
  lemma {:induction false} FirstUndefinedAt(defined: seq<string>, refs: seq<string>, i: nat)
    requires i < |refs| && refs[i] !in defined
    requires forall k :: 0 <= k < i ==> refs[k] in defined
    ensures FirstUndefined(defined, refs) == Some(i)
  {
    if i > 0 {
      FirstUndefinedAt(defined, refs[1..], i - 1);
    }
  }

  /** A run of defines; the first failed check ends it. */
  function DefineAll(s: CheckerState, docs: seq<FilterXml>): Result<CheckerState, DefineError>
    requires Consistent(s)
    decreases docs
  {
    if docs == [] then Ok(s)
    else
      match DefineStep(s, docs[0])
      case Err(e) => Err(e)
      case Ok(t) =>
        DefineStepChecks(s, docs[0]);
        DefineAll(t, docs[1..])
  }
}
