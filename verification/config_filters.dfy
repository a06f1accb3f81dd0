/** The filter section of the configuration (common/tr_config_filters.c): constraints,
    filters and the filter set, built from an already-decoded JSON tree. */
module ConfigFilters {
  import opened Base
  import opened Json
  import opened Filter

  /** TR_CFG_RC, as far as the filter loader uses it. */
  datatype CfgRc = CfgSuccess | CfgError | CfgNoParse | CfgNoMem

  // ---------------------------------------------------------------------------------------
  // Constraints

  /** The text of every element, in order, or None when some element is not a string. */
  function Strings(elems: seq<Json>): (r: Option<seq<Name>>)
    ensures r.Some? <==> forall k :: 0 <= k < |elems| ==> elems[k].JString?
    ensures r.Some? ==> |r.value| == |elems| && forall k :: 0 <= k < |elems| ==> r.value[k] == elems[k].s
  {
    if |elems| == 0 then Some([])
    else if !elems[0].JString? then None
    else
      var rest := Strings(elems[1..]);
      assert forall k :: 1 <= k < |elems| ==> elems[k] == elems[1..][k - 1];
      if rest.None? then None else Some([elems[0].s] + rest.value)
  }

  datatype ConsResult = ConsResult(rc: CfgRc, cons: Option<Constraint>)

  /** A constraint array as tr_cfg_parse_one_constraint accepts it: non-empty, with a string
      first element. */
  predicate ConstraintShape(jc: Json)
  {
    jc.JArray? && |jc.elems| > 0 && jc.elems[0].JString?
  }

  /** tr_cfg_parse_one_constraint. A value that is not a non-empty array with a string first
      element is NOPARSE. Each element becomes a pattern; a later element that is not a
      string yields no name, which tr_constraint_add_match refuses, and that is reported as
      NOMEM. */
  function ParseOneConstraint(ctype: Name, jc: Json): (r: ConsResult)
    ensures r.cons.Some? <==> r.rc == CfgSuccess
    ensures !ConstraintShape(jc) ==> r.rc == CfgNoParse
    ensures ConstraintShape(jc) && r.rc != CfgSuccess ==> r.rc == CfgNoMem
    ensures r.rc == CfgSuccess <==> ConstraintShape(jc) && forall k :: 0 <= k < |jc.elems| ==> jc.elems[k].JString?
    ensures r.rc == CfgSuccess ==>
              && r.cons.value.ctype == ctype
              && |r.cons.value.matches| == |jc.elems|
              && forall k :: 0 <= k < |jc.elems| ==> r.cons.value.matches[k] == jc.elems[k].s
  {
    if !ConstraintShape(jc) then ConsResult(CfgNoParse, None)
    else
      match Strings(jc.elems)
      case None => ConsResult(CfgNoMem, None)
      case Some(names) => ConsResult(CfgSuccess, Some(Constraint(ctype, names)))
  }

  /** The outcome of an optional constraint attribute of a filter line. */
  datatype ConsAttr = ConsAttr(ok: bool, cons: Option<Constraint>)

  /** realm_constraints / domain_constraints. Absent or an empty array: no constraint. Not an
      array, or a non-empty array that does not parse: the line fails. */
  function ParseConsAttr(jl: Json, attr: string, ctype: Name): (r: ConsAttr)
    ensures Get(jl, attr).None? ==> r.ok && r.cons.None?
    ensures Get(jl, attr).Some? && !Get(jl, attr).value.JArray? ==> !r.ok
    ensures r.ok && r.cons.Some? <==>
              Get(jl, attr).Some? && Get(jl, attr).value.JArray? && |Get(jl, attr).value.elems| > 0 &&
              ParseOneConstraint(ctype, Get(jl, attr).value).rc == CfgSuccess
    ensures r.ok && r.cons.Some? ==> r.cons == ParseOneConstraint(ctype, Get(jl, attr).value).cons
    ensures !r.ok ==> r.cons.None?
  {
    match Get(jl, attr)
    case None => ConsAttr(true, None)
    case Some(v) =>
      if !v.JArray? then ConsAttr(false, None)
      else if |v.elems| == 0 then ConsAttr(true, None)
      else
        var c := ParseOneConstraint(ctype, v);
        if c.rc == CfgSuccess then ConsAttr(true, c.cons) else ConsAttr(false, None)
  }

  // ---------------------------------------------------------------------------------------
  // Specs

  /** The patterns a `match` attribute names: one for a string, one per element for an
      array (None when an element is not a string), and nothing for any other value. */
  function Patterns(m: Json): Option<seq<Name>>
  {
    match m
    case JString(s) => Some([s])
    case JArray(elems) => Strings(elems)
    case _ => None
  }

  datatype SpecResult = SpecResult(rc: CfgRc, spec: Option<Spec>)

  /** One spec of a filter line. `field` must be a string and `match` present and a string
      or an array (NOPARSE otherwise). An array element that is not a string is NOMEM. The
      patterns fill the slots in order and those beyond the last slot are dropped. A field
      not registered for the filter type is TR_CFG_ERROR. */
  function ParseSpec(js: Json, ftype: FilterType): (r: SpecResult)
    ensures r.spec.Some? <==> r.rc == CfgSuccess
    ensures Get(js, "field").None? || !Get(js, "field").value.JString? ==> r.rc == CfgNoParse
    ensures Get(js, "field").Some? && Get(js, "field").value.JString? && Get(js, "match").None? ==> r.rc == CfgNoParse
    ensures (Get(js, "field").Some? && Get(js, "field").value.JString? && Get(js, "match").Some? &&
             !(Get(js, "match").value.JString? || Get(js, "match").value.JArray?)) ==> r.rc == CfgNoParse
    ensures (Get(js, "field").Some? && Get(js, "field").value.JString? && Get(js, "match").Some? &&
             Get(js, "match").value.JArray? && Patterns(Get(js, "match").value).None?) ==> r.rc == CfgNoMem
    ensures (Get(js, "field").Some? && Get(js, "field").value.JString? && Get(js, "match").Some? &&
             Patterns(Get(js, "match").value).Some? && !Registered(ftype, Get(js, "field").value.s)) ==> r.rc == CfgError
    ensures r.rc in {CfgSuccess, CfgNoParse, CfgNoMem, CfgError}
    ensures r.rc == CfgSuccess ==>
              && Get(js, "field").Some? && Get(js, "field").value.JString?
              && r.spec.value.field == Get(js, "field").value.s
              && Registered(ftype, r.spec.value.field)
              && Get(js, "match").Some? && Patterns(Get(js, "match").value).Some?
    ensures r.rc == CfgSuccess ==>
              var ps := Patterns(Get(js, "match").value).value;
              && |r.spec.value.matches| == MaxMatches
              && (forall k :: 0 <= k < MaxMatches && k < |ps| ==> r.spec.value.matches[k] == Some(ps[k]))
              && (forall k :: |ps| <= k < MaxMatches ==> r.spec.value.matches[k].None?)
  {
    var jfield := Get(js, "field");
    if jfield.None? || !jfield.value.JString? then SpecResult(CfgNoParse, None)
    else
      var jmatch := Get(js, "match");
      if jmatch.None? || !(jmatch.value.JString? || jmatch.value.JArray?) then SpecResult(CfgNoParse, None)
      else
        match Patterns(jmatch.value)
        case None => SpecResult(CfgNoMem, None)
        case Some(ps) =>
          var spec := SpecFor(jfield.value.s, ps);
          if !ValidateSpecField(ftype, Some(spec)) then SpecResult(CfgError, None)
          else SpecResult(CfgSuccess, Some(spec))
  }

  /** A fresh spec for `field` with the patterns added one by one: they take the slots in
      order, those beyond the last slot are dropped and the rest stay empty. */
  function SpecFor(field: Name, ps: seq<Name>): (r: Spec)
    ensures r.field == field && |r.matches| == MaxMatches
    ensures forall k :: 0 <= k < MaxMatches && k < |ps| ==> r.matches[k] == Some(ps[k])
    ensures forall k :: |ps| <= k < MaxMatches ==> r.matches[k].None?
  {
    AddMatchesInOrder(NewSpec(field), ps, 0);
    AddMatches(NewSpec(field), ps)
  }

  /** A spec parser hands back a spec exactly when it succeeds, as ParseSpec does. */
  ghost predicate SpecParser(parse: (Json, FilterType) -> SpecResult)
  {
    forall j, t :: parse(j, t).spec.Some? <==> parse(j, t).rc == CfgSuccess
  }

  datatype LineResult = LineResult(rc: CfgRc, line: Option<Line>)

  /** The spec loop of a filter line: each spec is parsed by `parse` and added in order; the
      first failure ends the line with its code. */
  function ParseSpecs(line: Line, js: seq<Json>, ftype: FilterType, parse: (Json, FilterType) -> SpecResult): (r: LineResult)
    requires SpecParser(parse)
    ensures r.line.Some? <==> r.rc == CfgSuccess
    ensures r.rc == CfgSuccess <==> forall k :: 0 <= k < |js| ==> parse(js[k], ftype).rc == CfgSuccess
    ensures r.rc == CfgSuccess ==>
              && r.line.value.action == line.action
              && r.line.value.realmCons == line.realmCons
              && r.line.value.domainCons == line.domainCons
              && |r.line.value.specs| == |line.specs|
    decreases |js|
  {
    if |js| == 0 then LineResult(CfgSuccess, Some(line))
    else
      var s := parse(js[0], ftype);
      if s.rc != CfgSuccess then LineResult(s.rc, None)
      else
        assert forall k :: 1 <= k < |js| ==> js[k] == js[1..][k - 1];
        ParseSpecs(AddSpec(line, s.spec.value), js[1..], ftype, parse)
  }

  /** A failed spec loop reports the code of the first spec that did not parse. */
  lemma {:induction false} ParseSpecsFirstFailure(line: Line, js: seq<Json>, ftype: FilterType, parse: (Json, FilterType) -> SpecResult)
    requires SpecParser(parse)
    requires ParseSpecs(line, js, ftype, parse).rc != CfgSuccess
    ensures exists k :: 0 <= k < |js| && ParseSpecs(line, js, ftype, parse).rc == parse(js[k], ftype).rc &&
                        forall p :: 0 <= p < k ==> parse(js[p], ftype).rc == CfgSuccess
    decreases |js|
  {
    var s := parse(js[0], ftype);
    if s.rc == CfgSuccess {
      var line' := AddSpec(line, s.spec.value);
      ParseSpecsFirstFailure(line', js[1..], ftype, parse);
      var k :| 0 <= k < |js[1..]| && ParseSpecs(line', js[1..], ftype, parse).rc == parse(js[1..][k], ftype).rc &&
               forall p :: 0 <= p < k ==> parse(js[1..][p], ftype).rc == CfgSuccess;
      assert js[k + 1] == js[1..][k];
      assert forall p :: 1 <= p < k + 1 ==> js[p] == js[1..][p - 1];
    }
  }

  /** The specs a successful spec loop parsed, in order. */
  function Parsed(js: seq<Json>, ftype: FilterType, parse: (Json, FilterType) -> SpecResult): (r: seq<Spec>)
    requires SpecParser(parse)
    requires forall k :: 0 <= k < |js| ==> parse(js[k], ftype).rc == CfgSuccess
    ensures |r| == |js| && forall k :: 0 <= k < |js| ==> Some(r[k]) == parse(js[k], ftype).spec
  {
    seq(|js|, k requires 0 <= k < |js| => parse(js[k], ftype).spec.value)
  }

  /** A successful spec loop puts the parsed specs into the line's slots as FillAll does. */
  lemma {:induction false} ParseSpecsFill(line: Line, js: seq<Json>, ftype: FilterType, parse: (Json, FilterType) -> SpecResult)
    requires SpecParser(parse)
    requires ParseSpecs(line, js, ftype, parse).rc == CfgSuccess
    ensures ParseSpecs(line, js, ftype, parse).line.value.specs == FillAll(line.specs, Parsed(js, ftype, parse))
    decreases |js|
  {
    if |js| > 0 {
      var ps := Parsed(js, ftype, parse);
      var line' := AddSpec(line, ps[0]);
      ParseSpecsFill(line', js[1..], ftype, parse);
      assert ps[1..] == Parsed(js[1..], ftype, parse);
    }
  }

  /** Specs land in order: on a line whose filled slots are exactly the first `n`, the k-th
      parsed spec takes slot n + k while slots remain, and the ones beyond are dropped. */
  lemma ParseSpecsInOrder(line: Line, js: seq<Json>, ftype: FilterType, parse: (Json, FilterType) -> SpecResult, n: nat)
    requires SpecParser(parse)
    requires ParseSpecs(line, js, ftype, parse).rc == CfgSuccess
    requires FilledPrefix(line.specs, n)
    ensures var out := ParseSpecs(line, js, ftype, parse).line.value.specs;
            && (forall q :: 0 <= q < n ==> out[q] == line.specs[q])
            && (forall k :: 0 <= k < |js| && n + k < |out| ==> out[n + k] == parse(js[k], ftype).spec)
            && (forall q :: n + |js| <= q < |out| ==> out[q].None?)
  {
    var ps := Parsed(js, ftype, parse);
    ParseSpecsFill(line, js, ftype, parse);
    FillAllInOrder(line.specs, ps, n);
    var out := ParseSpecs(line, js, ftype, parse).line.value.specs;
    forall k | 0 <= k < |js| && n + k < |out|
      ensures out[n + k] == parse(js[k], ftype).spec
    {
      assert out[n + k] == Some(ps[n + k - n]);
    }
  }

  /** A spec parser whose successes name fields registered for the filter type, as
      ParseSpec's do. */
  ghost predicate RegisteringParser(parse: (Json, FilterType) -> SpecResult, ftype: FilterType)
    requires SpecParser(parse)
  {
    forall j :: parse(j, ftype).rc == CfgSuccess ==> Registered(ftype, parse(j, ftype).spec.value.field)
  }

  /** The spec loop of tr_cfg_parse_one_filter on a line with no spec yet: the k-th spec
      takes slot k while slots remain, later slots stay empty, and every filled slot names
      a field registered for the filter type. */
  function ParseLineSpecs(line: Line, js: seq<Json>, ftype: FilterType, parse: (Json, FilterType) -> SpecResult): (r: LineResult)
    requires SpecParser(parse) && RegisteringParser(parse, ftype)
    requires FilledPrefix(line.specs, 0)
    ensures r.line.Some? <==> r.rc == CfgSuccess
    ensures r.rc == CfgSuccess <==> forall k :: 0 <= k < |js| ==> parse(js[k], ftype).rc == CfgSuccess
    ensures r.rc == CfgSuccess ==>
              && r.line.value.action == line.action
              && r.line.value.realmCons == line.realmCons
              && r.line.value.domainCons == line.domainCons
              && |r.line.value.specs| == |line.specs|
              && (forall k :: 0 <= k < |js| && k < |line.specs| ==> r.line.value.specs[k] == parse(js[k], ftype).spec)
              && (forall q :: |js| <= q < |line.specs| ==> r.line.value.specs[q].None?)
              && (forall q :: 0 <= q < |line.specs| && r.line.value.specs[q].Some? ==> Registered(ftype, r.line.value.specs[q].value.field))
  {
    var r := ParseSpecs(line, js, ftype, parse);
    if r.rc == CfgSuccess then
      ParseSpecsInOrder(line, js, ftype, parse, 0);
      SlotsRegistered(r.line.value.specs, js, ftype, parse);
      r
    else r
  }

  /** Slots holding successfully parsed specs name registered fields. */
  lemma SlotsRegistered(out: seq<Option<Spec>>, js: seq<Json>, ftype: FilterType, parse: (Json, FilterType) -> SpecResult)
    requires SpecParser(parse) && RegisteringParser(parse, ftype)
    requires forall k :: 0 <= k < |js| ==> parse(js[k], ftype).rc == CfgSuccess
    requires forall k :: 0 <= k < |js| && k < |out| ==> out[k] == parse(js[k], ftype).spec
    requires forall q :: |js| <= q < |out| ==> out[q].None?
    ensures forall q :: 0 <= q < |out| && out[q].Some? ==> Registered(ftype, out[q].value.field)
  {
    forall q | 0 <= q < |out| && out[q].Some?
      ensures Registered(ftype, out[q].value.field)
    {
      assert q < |js|;
      assert out[q] == parse(js[q], ftype).spec;
    }
  }

  /** The action named by a line, if it is one of the two known ones. */
  function ActionOf(s: string): Action
  {
    if s == "accept" then Accept else if s == "reject" then Reject else ActUnknown
  }

  /** One filter line, checked in the order of tr_cfg_parse_one_filter: `action` present
      and a string, `specs` present, an array and non-empty, the action "accept" or
      "reject", then the optional realm and domain constraints (all NOPARSE when they fail),
      then the specs. */
  function ParseLine(jl: Json, ftype: FilterType): (r: LineResult)
    ensures r.line.Some? <==> r.rc == CfgSuccess
    ensures Get(jl, "action").None? || !Get(jl, "action").value.JString? ==> r.rc == CfgNoParse
    ensures Get(jl, "specs").None? || !Get(jl, "specs").value.JArray? || |Get(jl, "specs").value.elems| == 0 ==>
              r.rc == CfgNoParse
    ensures (Get(jl, "action").Some? && Get(jl, "action").value.JString? &&
             ActionOf(Get(jl, "action").value.s) == ActUnknown) ==> r.rc == CfgNoParse
    ensures !ParseConsAttr(jl, "realm_constraints", "realm").ok ==> r.rc == CfgNoParse
    ensures !ParseConsAttr(jl, "domain_constraints", "domain").ok ==> r.rc == CfgNoParse
    ensures r.rc == CfgSuccess ==>
              && Get(jl, "action").Some? && Get(jl, "action").value.JString?
              && (r.line.value.action == Accept <==> Get(jl, "action").value.s == "accept")
              && (r.line.value.action == Reject <==> Get(jl, "action").value.s == "reject")
              && (r.line.value.action == Accept || r.line.value.action == Reject)
              && Get(jl, "specs").Some? && Get(jl, "specs").value.JArray?
              && |Get(jl, "specs").value.elems| > 0
              && (forall k :: 0 <= k < |Get(jl, "specs").value.elems| ==> ParseSpec(Get(jl, "specs").value.elems[k], ftype).rc == CfgSuccess)
              && r.line.value.realmCons == ParseConsAttr(jl, "realm_constraints", "realm").cons
              && r.line.value.domainCons == ParseConsAttr(jl, "domain_constraints", "domain").cons
              && |r.line.value.specs| == MaxSpecs
              && (forall k :: 0 <= k < MaxSpecs && r.line.value.specs[k].Some? ==> Registered(ftype, r.line.value.specs[k].value.field))
  {
    var jaction := Get(jl, "action");
    if jaction.None? || !jaction.value.JString? then LineResult(CfgNoParse, None)
    else
      var jspecs := Get(jl, "specs");
      if jspecs.None? || !jspecs.value.JArray? || |jspecs.value.elems| == 0 then LineResult(CfgNoParse, None)
      else
        var action := ActionOf(jaction.value.s);
        if action == ActUnknown then LineResult(CfgNoParse, None)
        else
          var realm := ParseConsAttr(jl, "realm_constraints", "realm");
          if !realm.ok then LineResult(CfgNoParse, None)
          else
            var domain := ParseConsAttr(jl, "domain_constraints", "domain");
            if !domain.ok then LineResult(CfgNoParse, None)
            else
              var line := NewLine().(action := action, realmCons := realm.cons, domainCons := domain.cons);
              ParseLineSpecs(line, jspecs.value.elems, ftype, ParseSpec)
  }
  /** A parsed line holds the k-th spec of `specs` in slot k, and the slots after the last
      spec stay empty. */
  lemma ParseLineSlots(jl: Json, ftype: FilterType)
    requires ParseLine(jl, ftype).rc == CfgSuccess
    ensures var js := Get(jl, "specs").value.elems;
            var specs := ParseLine(jl, ftype).line.value.specs;
            && (forall k :: 0 <= k < |js| && k < MaxSpecs ==> specs[k] == ParseSpec(js[k], ftype).spec)
            && (forall q :: |js| <= q < MaxSpecs ==> specs[q].None?)
  {
  }


  /** A failed line whose action, specs and constraints are well formed failed at its first
      spec that did not parse, with that spec's code. */
  lemma LineFailsAtFirstSpec(jl: Json, ftype: FilterType)
    requires Get(jl, "action").Some? && Get(jl, "action").value.JString?
    requires ActionOf(Get(jl, "action").value.s) != ActUnknown
    requires Get(jl, "specs").Some? && Get(jl, "specs").value.JArray? && |Get(jl, "specs").value.elems| > 0
    requires ParseConsAttr(jl, "realm_constraints", "realm").ok && ParseConsAttr(jl, "domain_constraints", "domain").ok
    requires ParseLine(jl, ftype).rc != CfgSuccess
    ensures var js := Get(jl, "specs").value.elems;
            exists k :: 0 <= k < |js| && ParseLine(jl, ftype).rc == ParseSpec(js[k], ftype).rc &&
                        forall p :: 0 <= p < k ==> ParseSpec(js[p], ftype).rc == CfgSuccess
  {
    var line := NewLine().(action := ActionOf(Get(jl, "action").value.s),
                           realmCons := ParseConsAttr(jl, "realm_constraints", "realm").cons,
                           domainCons := ParseConsAttr(jl, "domain_constraints", "domain").cons);
    ParseSpecsFirstFailure(line, Get(jl, "specs").value.elems, ftype, ParseSpec);
  }

  // ---------------------------------------------------------------------------------------
  // Filters

  datatype FilterResult = FilterResult(rc: CfgRc, filt: Option<Filter>)

  /** A line parser hands back a line exactly when it succeeds, as ParseLine does. */
  ghost predicate LineParser(parse: (Json, FilterType) -> LineResult)
  {
    forall j, t :: parse(j, t).line.Some? <==> parse(j, t).rc == CfgSuccess
  }

  /** A filter parser hands back a filter exactly when it succeeds, as ParseOneFilter does. */
  ghost predicate FilterParser(parse: (Json, FilterType) -> FilterResult)
  {
    forall j, t :: parse(j, t).filt.Some? <==> parse(j, t).rc == CfgSuccess
  }

  /** The line loop of tr_cfg_parse_one_filter: each line is parsed by `parse` and added in
      order; the first failure ends the filter with its code. */
  function ParseLines(f: Filter, jls: seq<Json>, ftype: FilterType, parse: (Json, FilterType) -> LineResult): (r: FilterResult)
    requires LineParser(parse)
    ensures r.filt.Some? <==> r.rc == CfgSuccess
    ensures r.rc == CfgSuccess <==> forall k :: 0 <= k < |jls| ==> parse(jls[k], ftype).rc == CfgSuccess
    ensures r.rc == CfgSuccess ==>
              && r.filt.value.ftype == f.ftype
              && |r.filt.value.lines| == |f.lines| + |jls|
              && (forall k :: 0 <= k < |f.lines| ==> r.filt.value.lines[k] == f.lines[k])
              && forall k :: 0 <= k < |jls| ==> Some(r.filt.value.lines[|f.lines| + k]) == parse(jls[k], ftype).line
    decreases |jls|
  {
    if |jls| == 0 then FilterResult(CfgSuccess, Some(f))
    else
      var l := parse(jls[0], ftype);
      if l.rc != CfgSuccess then FilterResult(l.rc, None)
      else
        assert forall k :: 1 <= k < |jls| ==> jls[k] == jls[1..][k - 1];
        ParseLines(AddLine(f, l.line.value), jls[1..], ftype, parse)
  }

  /** A failed line loop reports the code of the first line that did not parse. */
  lemma {:induction false} ParseLinesFirstFailure(f: Filter, jls: seq<Json>, ftype: FilterType, parse: (Json, FilterType) -> LineResult)
    requires LineParser(parse)
    requires ParseLines(f, jls, ftype, parse).rc != CfgSuccess
    ensures exists k :: 0 <= k < |jls| && ParseLines(f, jls, ftype, parse).rc == parse(jls[k], ftype).rc &&
                        forall p :: 0 <= p < k ==> parse(jls[p], ftype).rc == CfgSuccess
    decreases |jls|
  {
    var l := parse(jls[0], ftype);
    if l.rc == CfgSuccess {
      var f' := AddLine(f, l.line.value);
      ParseLinesFirstFailure(f', jls[1..], ftype, parse);
      var k :| 0 <= k < |jls[1..]| && ParseLines(f', jls[1..], ftype, parse).rc == parse(jls[1..][k], ftype).rc &&
               forall p :: 0 <= p < k ==> parse(jls[1..][p], ftype).rc == CfgSuccess;
      assert jls[k + 1] == jls[1..][k];
      assert forall p :: 1 <= p < k + 1 ==> jls[p] == jls[1..][p - 1];
    }
  }

  /** Every filled spec slot of a line holds at least one pattern. */
  predicate SpecsHavePatterns(l: Line)
  {
    forall j :: 0 <= j < |l.specs| && l.specs[j].Some? ==>
      exists m :: 0 <= m < |l.specs[j].value.matches| && l.specs[j].value.matches[m].Some?
  }

  /** tr_cfg_parse_one_filter: the lines of `jfilt` (no lines when it is not an array), then
      tr_filter_validate on the result; a filter that does not validate is TR_CFG_ERROR. The
      filter is handed back only on success. */
  function ParseOneFilter(jfilt: Json, ftype: FilterType): (r: FilterResult)
    ensures r.filt.Some? <==> r.rc == CfgSuccess
    ensures r.rc == CfgSuccess ==>
              && ValidFilter(r.filt)
              && r.filt.value.ftype == ftype
              && |r.filt.value.lines| == |Elems(jfilt)|
              && forall k :: 0 <= k < |Elems(jfilt)| ==> Some(r.filt.value.lines[k]) == ParseLine(Elems(jfilt)[k], ftype).line
    ensures (forall k :: 0 <= k < |Elems(jfilt)| ==> ParseLine(Elems(jfilt)[k], ftype).rc == CfgSuccess) ==>
              r.rc == CfgSuccess || r.rc == CfgError
  {
    var r := ParseLines(NewFilter(ftype), Elems(jfilt), ftype, ParseLine);
    if r.rc != CfgSuccess then FilterResult(r.rc, None)
    else if !ValidFilter(r.filt) then FilterResult(CfgError, None)
    else r
  }

  /** A filter with a line that does not parse fails with the code of its first such line. */
  lemma FilterFailsAtFirstLine(jfilt: Json, ftype: FilterType)
    requires exists k :: 0 <= k < |Elems(jfilt)| && ParseLine(Elems(jfilt)[k], ftype).rc != CfgSuccess
    ensures exists k :: 0 <= k < |Elems(jfilt)| && ParseOneFilter(jfilt, ftype).rc == ParseLine(Elems(jfilt)[k], ftype).rc &&
                        forall p :: 0 <= p < k ==> ParseLine(Elems(jfilt)[p], ftype).rc == CfgSuccess
  {
    ParseLinesFirstFailure(NewFilter(ftype), Elems(jfilt), ftype, ParseLine);
  }

  /** A parsed line of a known filter type validates exactly when each of its specs holds
      a pattern: its action and fields are already checked by the parser. */
  lemma ParsedLineValidIff(jl: Json, ftype: FilterType)
    requires KnownType(ftype)
    requires ParseLine(jl, ftype).rc == CfgSuccess
    ensures LineValid(ftype, ParseLine(jl, ftype).line.value) <==> SpecsHavePatterns(ParseLine(jl, ftype).line.value)
  {
  }

  /** The lines a line loop builds validate exactly when each parsed line passes `ok`, for
      any test `ok` that agrees with LineValid on those lines. */
  lemma {:induction false} LinesValidIff(jls: seq<Json>, ftype: FilterType, parse: (Json, FilterType) -> LineResult, ok: Line -> bool)
    requires LineParser(parse) && KnownType(ftype)
    requires ParseLines(NewFilter(ftype), jls, ftype, parse).rc == CfgSuccess
    requires forall k :: 0 <= k < |jls| ==> (LineValid(ftype, parse(jls[k], ftype).line.value) <==> ok(parse(jls[k], ftype).line.value))
    ensures ValidFilter(ParseLines(NewFilter(ftype), jls, ftype, parse).filt) <==>
              forall i :: 0 <= i < |jls| ==> ok(parse(jls[i], ftype).line.value)
  {
    var f := ParseLines(NewFilter(ftype), jls, ftype, parse).filt.value;
    assert |f.lines| == |jls| && f.ftype == ftype;
    forall i | 0 <= i < |jls|
      ensures f.lines[i] == parse(jls[i], ftype).line.value
    {
      assert Some(f.lines[0 + i]) == parse(jls[i], ftype).line;
    }
  }

  /** For a known filter type whose lines all parse, the filter is accepted exactly when no
      parsed spec is left without a pattern; otherwise it is TR_CFG_ERROR. */
  lemma ParsedFilterValidIff(jfilt: Json, ftype: FilterType)
    requires KnownType(ftype)
    requires forall k :: 0 <= k < |Elems(jfilt)| ==> ParseLine(Elems(jfilt)[k], ftype).rc == CfgSuccess
    ensures ParseOneFilter(jfilt, ftype).rc == CfgSuccess <==>
              forall i :: 0 <= i < |Elems(jfilt)| ==> SpecsHavePatterns(ParseLine(Elems(jfilt)[i], ftype).line.value)
    ensures ParseOneFilter(jfilt, ftype).rc != CfgSuccess ==> ParseOneFilter(jfilt, ftype).rc == CfgError
  {
    var jls := Elems(jfilt);
    forall k | 0 <= k < |jls|
      ensures LineValid(ftype, ParseLine(jls[k], ftype).line.value) <==> SpecsHavePatterns(ParseLine(jls[k], ftype).line.value)
    {
      ParsedLineValidIff(jls[k], ftype);
    }
    LinesValidIff(jls, ftype, ParseLine, SpecsHavePatterns);
  }

  /** A parsed spec holds a pattern exactly when its `match` names at least one. */
  lemma SpecHasPatternIff(js: Json, ftype: FilterType)
    requires ParseSpec(js, ftype).rc == CfgSuccess
    ensures (exists m :: 0 <= m < |ParseSpec(js, ftype).spec.value.matches| && ParseSpec(js, ftype).spec.value.matches[m].Some?) <==>
            |Patterns(Get(js, "match").value).value| > 0
  {
    var ms := ParseSpec(js, ftype).spec.value.matches;
    var ps := Patterns(Get(js, "match").value).value;
    if |ps| > 0 {
      assert ms[0] == Some(ps[0]);
    }
  }

  // ---------------------------------------------------------------------------------------
  // The filter set

  datatype SetResult = SetResult(rc: CfgRc, fset: Option<FilterSet>)

  /** The member loop of tr_cfg_parse_filters: every label must name a filter type and every
      filter must parse with `parse` (NOPARSE otherwise); the filters are added in member
      order. `ty` reads a label as a filter type. */
  function AddFilters(fs: FilterSet, members: seq<(string, Json)>, ty: string -> FilterType, parse: (Json, FilterType) -> FilterResult): (r: SetResult)
    requires SetShape(fs) && FilterParser(parse)
    ensures r.fset.Some? <==> r.rc == CfgSuccess
    ensures r.rc != CfgSuccess ==> r.rc == CfgNoParse
    ensures r.rc == CfgSuccess <==>
              forall k :: 0 <= k < |members| ==>
                ty(members[k].0) != FtUnknown &&
                parse(members[k].1, ty(members[k].0)).rc == CfgSuccess
    ensures r.rc == CfgSuccess ==>
              && SetShape(r.fset.value)
              && |Filters(r.fset.value)| == |Filters(fs)| + |members|
              && (forall k :: 0 <= k < |Filters(fs)| ==> Filters(r.fset.value)[k] == Filters(fs)[k])
              && forall k :: 0 <= k < |members| ==>
                   Some(Filters(r.fset.value)[|Filters(fs)| + k]) == parse(members[k].1, ty(members[k].0)).filt
    decreases |members|
  {
    if |members| == 0 then SetResult(CfgSuccess, Some(fs))
    else
      var ftype := ty(members[0].0);
      if ftype == FtUnknown then SetResult(CfgNoParse, None)
      else
        var f := parse(members[0].1, ftype);
        if f.rc != CfgSuccess then SetResult(CfgNoParse, None)
        else
          SetAddAppends(fs, f.filt.value);
          assert forall k :: 1 <= k < |members| ==> members[k] == members[1..][k - 1];
          AddFilters(SetAdd(fs, f.filt.value), members[1..], ty, parse)
  }

  /** tr_cfg_parse_filters. No filter section is SUCCESS without a set; a value that is not
      an object has no members and gives an empty set. Any failure is NOPARSE and no set. */
  function ParseFilters(jfilts: Option<Json>): (r: SetResult)
    ensures jfilts.None? ==> r.rc == CfgSuccess && r.fset.None?
    ensures r.rc != CfgSuccess ==> r.rc == CfgNoParse && r.fset.None?
    ensures jfilts.Some? ==> (r.fset.Some? <==> r.rc == CfgSuccess)
    ensures jfilts.Some? ==>
              (r.rc == CfgSuccess <==>
                 forall k :: 0 <= k < |Members(jfilts.value)| ==>
                   FilterTypeFromString(Members(jfilts.value)[k].0) != FtUnknown &&
                   ParseOneFilter(Members(jfilts.value)[k].1, FilterTypeFromString(Members(jfilts.value)[k].0)).rc == CfgSuccess)
    ensures jfilts.Some? && r.rc == CfgSuccess ==>
              && SetShape(r.fset.value)
              && |Filters(r.fset.value)| == |Members(jfilts.value)|
              && forall k :: 0 <= k < |Members(jfilts.value)| ==>
                   Some(Filters(r.fset.value)[k]) == ParseOneFilter(Members(jfilts.value)[k].1, FilterTypeFromString(Members(jfilts.value)[k].0)).filt
  {
    match jfilts
    case None => SetResult(CfgSuccess, None)
    case Some(j) => AddFilters(NewSet(), Members(j), FilterTypeFromString, ParseOneFilter)
  }

  /** Every filter of a set the loader builds has the type its label names and validates. */
  lemma LoadedFiltersValid(jfilts: Json)
    requires ParseFilters(Some(jfilts)).rc == CfgSuccess
    ensures var fs := Filters(ParseFilters(Some(jfilts)).fset.value);
            forall k :: 0 <= k < |fs| ==>
              fs[k].ftype == FilterTypeFromString(Members(jfilts)[k].0) && ValidFilter(Some(fs[k]))
  {
    var ms := Members(jfilts);
    var fs := Filters(ParseFilters(Some(jfilts)).fset.value);
    forall k | 0 <= k < |fs|
      ensures fs[k].ftype == FilterTypeFromString(ms[k].0) && ValidFilter(Some(fs[k]))
    {
      assert Some(fs[k]) == ParseOneFilter(ms[k].1, FilterTypeFromString(ms[k].0)).filt;
    }
  }
}
