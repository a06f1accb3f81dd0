/** The filter engine (common/tr_filter.c): the field registry, spec and line matching,
    filter application, validation, filter sets and the filter-type labels. */
module Filter {
  import opened Base
  import opened CommMemb
  import opened TrpMsg

  datatype FilterType = FtUnknown | TidInbound | TrpInbound | TrpOutbound
  datatype Action = ActUnknown | Accept | Reject

  /** TR_MAX_FILTER_SPECS and TR_MAX_FILTER_SPEC_MATCHES. The header defining them is not
      part of this model; no property below depends on the values. */
  const MaxSpecs: nat := 8
  const MaxMatches: nat := 8

  /** A filter spec: a field name and a fixed array of pattern slots (NULL = empty). */
  datatype Spec = Spec(field: Name, matches: seq<Option<Name>>)

  /** A constraint (TR_CONSTRAINT): its type ("realm" or "domain") and its patterns. */
  datatype Constraint = Constraint(ctype: Name, matches: seq<Name>)

  /** A filter line: an action, optional realm and domain constraints, and a fixed array of
      spec slots. */
  datatype Line = Line(action: Action, realmCons: Option<Constraint>, domainCons: Option<Constraint>, specs: seq<Option<Spec>>)

  datatype Filter = Filter(ftype: FilterType, lines: seq<Line>)

  // ---------------------------------------------------------------------------------------
  // Filter targets and the values the registry extracts from them

  /** The parts of a TID request a filter can look at. */
  datatype TidReq = TidReq(realm: Option<Name>, comm: Option<Name>, rpRealm: Option<Name>, origCoi: Option<Name>)

  /** The parts of a TRP inforec a filter can look at; `apcs` lists the ids of its APCs.
      `infoTypeName` is the name trp_inforec_type_to_string gives the inforec's type (that
      function is not part of this model), None when it gives NULL. */
  datatype InfoRec = InfoRec(
    infoTypeName: Option<Name>,
    commType: CommType,
    role: RealmRole,
    apcs: seq<Name>,
    trustRouter: Option<Name>,
    ownerRealm: Option<Name>,
    ownerContact: Option<Name>)

  /** TR_FILTER_TARGET: a TID request, or a TRP inforec with the realm and community of the
      update that carries it. */
  datatype Target =
    | TidTarget(req: TidReq)
    | TrpTarget(updRealm: Option<Name>, updComm: Option<Name>, rec: InfoRec)

  /** The `get` handlers of the registry. */
  datatype Getter =
    | TidRealm | TidComm | TidRpRealm | TidOrigCoi
    | TrpRealm | TrpComm | TrpCommType | TrpRealmRole | TrpApc
    | TrpTrustRouter | TrpOwnerRealm | TrpOwnerContact | TrpInfoType

  /** The community-type extractor: "apc" or "coi", nothing for an unknown type. */
  function CommTypeName(t: CommType): (r: Option<Name>)
    ensures r.None? <==> t == CommUnknown
    ensures r.Some? ==> CommTypeFromStr(r.value) == t
  {
    match t
    case Apc => Some("apc")
    case Coi => Some("coi")
    case CommUnknown => None
  }

  /** The realm-role extractor: "idp" or "rp", nothing for an unknown role. */
  function RealmRoleName(role: RealmRole): (r: Option<Name>)
    ensures r.None? <==> role == RoleUnknown
    ensures r.Some? ==> RealmRoleFromStr(r.value) == role
  {
    match role
    case RoleIdp => Some("idp")
    case RoleRp => Some("rp")
    case RoleUnknown => None
  }

  /** Runs a `get` handler. Only the first APC is looked at. A TID handler applied to a TRP
      target (or the reverse) would read through a NULL pointer in the source; callers
      build the target for the filter's type, and the model yields no value there. */
  function Extract(g: Getter, target: Target): (r: Option<Name>)
    ensures r.Some? ==> (target.TidTarget? <==> g in {TidRealm, TidComm, TidRpRealm, TidOrigCoi})
    ensures target.TidTarget? && g == TidRealm ==> r == target.req.realm
    ensures target.TidTarget? && g == TidComm ==> r == target.req.comm
    ensures target.TidTarget? && g == TidRpRealm ==> r == target.req.rpRealm
    ensures target.TidTarget? && g == TidOrigCoi ==> r == target.req.origCoi
    ensures target.TrpTarget? && g == TrpRealm ==> r == target.updRealm
    ensures target.TrpTarget? && g == TrpComm ==> r == target.updComm
    ensures target.TrpTarget? && g == TrpCommType ==>
              (r.None? <==> target.rec.commType == CommUnknown) &&
              (r.Some? ==> CommTypeFromStr(r.value) == target.rec.commType)
    ensures target.TrpTarget? && g == TrpRealmRole ==>
              (r.None? <==> target.rec.role == RoleUnknown) &&
              (r.Some? ==> RealmRoleFromStr(r.value) == target.rec.role)
    ensures target.TrpTarget? && g == TrpApc ==>
              (if |target.rec.apcs| == 0 then r.None? else r == Some(target.rec.apcs[0]))
    ensures target.TrpTarget? && g == TrpTrustRouter ==> r == target.rec.trustRouter
    ensures target.TrpTarget? && g == TrpOwnerRealm ==> r == target.rec.ownerRealm
    ensures target.TrpTarget? && g == TrpOwnerContact ==> r == target.rec.ownerContact
    ensures target.TrpTarget? && g == TrpInfoType ==> r == target.rec.infoTypeName
  {
    match target
    case TidTarget(req) =>
      (match g
       case TidRealm => req.realm
       case TidComm => req.comm
       case TidRpRealm => req.rpRealm
       case TidOrigCoi => req.origCoi
       case _ => None)
    case TrpTarget(realm, comm, rec) =>
      (match g
       case TrpRealm => realm
       case TrpComm => comm
       case TrpCommType => CommTypeName(rec.commType)
       case TrpRealmRole => RealmRoleName(rec.role)
       case TrpApc => if |rec.apcs| == 0 then None else Some(rec.apcs[0])
       case TrpTrustRouter => rec.trustRouter
       case TrpOwnerRealm => rec.ownerRealm
       case TrpOwnerContact => rec.ownerContact
       case TrpInfoType => rec.infoTypeName
       case _ => None)
  }

  // ---------------------------------------------------------------------------------------
  // The field registry

  datatype FieldEntry = FieldEntry(ftype: FilterType, name: string, getter: Getter)

  /** tr_filter_field_table without its sentinel, in table order. */
  const FieldTable: seq<FieldEntry> := [
    FieldEntry(TidInbound, "realm", TidRealm),
    FieldEntry(TrpInbound, "realm", TrpRealm),
    FieldEntry(TrpOutbound, "realm", TrpRealm),
    FieldEntry(TidInbound, "comm", TidComm),
    FieldEntry(TrpInbound, "comm", TrpComm),
    FieldEntry(TrpOutbound, "comm", TrpComm),
    FieldEntry(TrpInbound, "comm_type", TrpCommType),
    FieldEntry(TrpOutbound, "comm_type", TrpCommType),
    FieldEntry(TrpInbound, "realm_role", TrpRealmRole),
    FieldEntry(TrpOutbound, "realm_role", TrpRealmRole),
    FieldEntry(TrpInbound, "apc", TrpApc),
    FieldEntry(TrpOutbound, "apc", TrpApc),
    FieldEntry(TrpInbound, "trust_router", TrpTrustRouter),
    FieldEntry(TrpOutbound, "trust_router", TrpTrustRouter),
    FieldEntry(TrpInbound, "owner_realm", TrpOwnerRealm),
    FieldEntry(TrpOutbound, "owner_realm", TrpOwnerRealm),
    FieldEntry(TrpInbound, "owner_contact", TrpOwnerContact),
    FieldEntry(TrpOutbound, "owner_contact", TrpOwnerContact),
    FieldEntry(TidInbound, "rp_realm", TidRpRealm),
    FieldEntry(TidInbound, "original_coi", TidOrigCoi),
    FieldEntry(TrpInbound, "info_type", TrpInfoType),
    FieldEntry(TrpOutbound, "info_type", TrpInfoType)
  ]

  /** The walk of tr_filter_field_entry: the first entry for this type and field name. */
  function FindEntry(table: seq<FieldEntry>, ftype: FilterType, field: Name): (r: Option<FieldEntry>)
    ensures r.Some? ==> r.value in table && r.value.ftype == ftype && r.value.name == field
    ensures r.None? ==> forall k :: 0 <= k < |table| ==> table[k].ftype != ftype || table[k].name != field
  {
    if |table| == 0 then None
    else if table[0].ftype == ftype && table[0].name == field then Some(table[0])
    else FindEntry(table[1..], ftype, field)
  }

  /** tr_filter_field_entry */
  function FieldEntryFor(ftype: FilterType, field: Name): (r: Option<FieldEntry>)
    ensures r.Some? ==> r.value.ftype == ftype && r.value.name == field
  {
    FindEntry(FieldTable, ftype, field)
  }

  /** The fields each filter type may test, listed by field. */
  predicate Registered(ftype: FilterType, field: Name)
  {
    var trp := ftype == TrpInbound || ftype == TrpOutbound;
    || ((field == "realm" || field == "comm") && ftype != FtUnknown)
    || ((field == "rp_realm" || field == "original_coi") && ftype == TidInbound)
    || ((field == "comm_type" || field == "realm_role" || field == "apc" || field == "trust_router" ||
         field == "owner_realm" || field == "owner_contact" || field == "info_type") && trp)
  }

  /** Every entry of the table is a registered pair. */
  lemma EntryRegistered(k: nat)
    requires k < |FieldTable|
    ensures Registered(FieldTable[k].ftype, FieldTable[k].name)
  {
    if k < 11 {
      EntryRegisteredLow(k);
    } else {
      EntryRegisteredHigh(k);
    }
  }

  lemma EntryRegisteredLow(k: nat)
    requires k < 11
    ensures Registered(FieldTable[k].ftype, FieldTable[k].name)
  {
    if k == 0 {
    } else if k == 1 {
    } else if k == 2 {
    } else if k == 3 {
    } else if k == 4 {
    } else if k == 5 {
    } else if k == 6 {
    } else if k == 7 {
    } else if k == 8 {
    } else if k == 9 {
    } else {
      assert k == 10;
    }
  }

  lemma EntryRegisteredHigh(k: nat)
    requires 11 <= k < |FieldTable|
    ensures Registered(FieldTable[k].ftype, FieldTable[k].name)
  {
    if k == 11 {
    } else if k == 12 {
    } else if k == 13 {
    } else if k == 14 {
    } else if k == 15 {
    } else if k == 16 {
    } else if k == 17 {
    } else if k == 18 {
    } else if k == 19 {
    } else if k == 20 {
    } else {
      assert k == 21;
    }
  }


  /** Every registered pair has its entry in the table. */
  lemma RegisteredHasEntry(ftype: FilterType, field: Name) returns (k: nat)
    requires Registered(ftype, field)
    ensures k < |FieldTable| && FieldTable[k].ftype == ftype && FieldTable[k].name == field
  {
    var trp := if ftype == TrpInbound then 0 else 1;
    if field == "realm" {
      k := if ftype == TidInbound then 0 else 1 + trp;
    } else if field == "comm" {
      k := if ftype == TidInbound then 3 else 4 + trp;
    } else if field == "comm_type" {
      k := 6 + trp;
    } else if field == "realm_role" {
      k := 8 + trp;
    } else if field == "apc" {
      k := 10 + trp;
    } else if field == "trust_router" {
      k := 12 + trp;
    } else if field == "owner_realm" {
      k := 14 + trp;
    } else if field == "owner_contact" {
      k := 16 + trp;
    } else if field == "rp_realm" {
      k := 18;
    } else if field == "original_coi" {
      k := 19;
    } else {
      k := 20 + trp;
    }
  }

  /** A pair that no table entry carries is not registered. */
  lemma UnlistedNotRegistered(ftype: FilterType, field: Name)
    requires forall k :: 0 <= k < |FieldTable| ==> FieldTable[k].ftype != ftype || FieldTable[k].name != field
    ensures !Registered(ftype, field)
  {
    if Registered(ftype, field) {
      var k := RegisteredHasEntry(ftype, field);
    }
  }

  /** The registry resolves exactly the registered (type, field) pairs. */
  lemma RegistryIsExact(ftype: FilterType, field: Name)
    ensures FieldEntryFor(ftype, field).Some? <==> Registered(ftype, field)
  {
    var r := FieldEntryFor(ftype, field);
    if r.Some? {
      var k :| 0 <= k < |FieldTable| && FieldTable[k] == r.value;
      EntryRegistered(k);
    } else {
      UnlistedNotRegistered(ftype, field);
    }
  }

  /** The handlers that read a TID request. */
  predicate ReadsTidRequest(g: Getter)
  {
    g.TidRealm? || g.TidComm? || g.TidRpRealm? || g.TidOrigCoi?
  }

  /** A registered field of a TID filter reads the TID request, and one of a TRP filter
      reads the inforec or its update. */
  lemma RegistryGettersFitType(ftype: FilterType, field: Name)
    requires FieldEntryFor(ftype, field).Some?
    ensures ftype == TidInbound <==> ReadsTidRequest(FieldEntryFor(ftype, field).value.getter)
  {
    var r := FieldEntryFor(ftype, field).value;
    var k :| 0 <= k < |FieldTable| && FieldTable[k] == r;
    EntryFits(k);
  }

  lemma EntryFits(k: nat)
    requires k < |FieldTable|
    ensures FieldTable[k].ftype == TidInbound <==> ReadsTidRequest(FieldTable[k].getter)
  {
    if k < 11 {
      EntryFitsLow(k);
    } else {
      EntryFitsHigh(k);
    }
  }

  lemma EntryFitsLow(k: nat)
    requires k < 11
    ensures FieldTable[k].ftype == TidInbound <==> ReadsTidRequest(FieldTable[k].getter)
  {
    if k == 0 {
    } else if k == 1 {
    } else if k == 2 {
    } else if k == 3 {
    } else if k == 4 {
    } else if k == 5 {
    } else if k == 6 {
    } else if k == 7 {
    } else if k == 8 {
    } else if k == 9 {
    } else {
      assert k == 10;
    }
  }

  lemma EntryFitsHigh(k: nat)
    requires 11 <= k < |FieldTable|
    ensures FieldTable[k].ftype == TidInbound <==> ReadsTidRequest(FieldTable[k].getter)
  {
    if k == 11 {
    } else if k == 12 {
    } else if k == 13 {
    } else if k == 14 {
    } else if k == 15 {
    } else if k == 16 {
    } else if k == 17 {
    } else if k == 18 {
    } else if k == 19 {
    } else if k == 20 {
    } else {
      assert k == 21;
    }
  }


  /** The value a registered field has in the target, if any. */
  function FieldValue(ftype: FilterType, field: Name, target: Target): Option<Name>
  {
    match FieldEntryFor(ftype, field)
    case None => None
    case Some(e) => Extract(e.getter, target)
  }

  // ---------------------------------------------------------------------------------------
  // Specs and lines

  /** Does some non-empty slot hold a pattern that `wc` (the prefix-wildcard match of
      tr_name.c, value first) accepts for `v`? */
  function AnyMatch(slots: seq<Option<Name>>, v: Name, wc: (Name, Name) -> bool): (r: bool)
    ensures r <==> exists k :: 0 <= k < |slots| && slots[k].Some? && wc(v, slots[k].value)
  {
    if |slots| == 0 then false
    else if slots[0].Some? && wc(v, slots[0].value) then true
    else
      var r := AnyMatch(slots[1..], v, wc);
      assert forall k :: 1 <= k < |slots| ==> slots[k] == slots[1..][k - 1];
      r
  }

  /** tr_fspec_matches: false for an empty spec, a field not registered for the filter type,
      or a target without a value for the field; otherwise whether some pattern matches. */
  function SpecMatches(spec: Option<Spec>, ftype: FilterType, target: Target, wc: (Name, Name) -> bool): (r: bool)
    ensures spec.None? ==> !r
    ensures spec.Some? && !Registered(ftype, spec.value.field) ==> !r
    ensures r <==> spec.Some? && FieldValue(ftype, spec.value.field, target).Some? &&
                   exists k :: 0 <= k < |spec.value.matches| && spec.value.matches[k].Some? &&
                               wc(FieldValue(ftype, spec.value.field, target).value, spec.value.matches[k].value)
  {
    if spec.None? then false
    else
      RegistryIsExact(ftype, spec.value.field);
      match FieldEntryFor(ftype, spec.value.field)
      case None => false
      case Some(e) =>
        match Extract(e.getter, target)
        case None => false
        case Some(v) => AnyMatch(spec.value.matches, v, wc)
  }

  /** The spec loop of tr_filter_apply: every non-empty spec slot must match. */
  function AllSpecsMatch(specs: seq<Option<Spec>>, ftype: FilterType, target: Target, wc: (Name, Name) -> bool): (r: bool)
    ensures r <==> forall k :: 0 <= k < |specs| && specs[k].Some? ==> SpecMatches(specs[k], ftype, target, wc)
  {
    AllFilled(specs, s => SpecMatches(s, ftype, target, wc))
  }

  /** The walk over a slot array that stops at the first non-empty slot failing `ok`. */
  function AllFilled<T>(slots: seq<Option<T>>, ok: Option<T> -> bool): (r: bool)
    ensures r <==> forall k :: 0 <= k < |slots| && slots[k].Some? ==> ok(slots[k])
  {
    if |slots| == 0 then true
    else if slots[0].Some? && !ok(slots[0]) then false
    else
      var r := AllFilled(slots[1..], ok);
      assert forall k :: 1 <= k < |slots| ==> slots[k] == slots[1..][k - 1];
      r
  }

  predicate LineMatches(l: Line, ftype: FilterType, target: Target, wc: (Name, Name) -> bool)
  {
    AllSpecsMatch(l.specs, ftype, target, wc)
  }

  /** A line without specs matches every target. */
  lemma EmptyLineMatches(l: Line, ftype: FilterType, target: Target, wc: (Name, Name) -> bool)
    requires forall k :: 0 <= k < |l.specs| ==> l.specs[k].None?
    ensures LineMatches(l, ftype, target, wc)
  {
  }

  /** The position of the first empty slot, if any. */
  function FirstEmpty<T>(slots: seq<Option<T>>): (r: Option<nat>)
    ensures r.Some? ==> r.value < |slots| && slots[r.value].None?
    ensures r.Some? ==> forall p :: 0 <= p < r.value ==> slots[p].Some?
    ensures r.None? ==> forall k :: 0 <= k < |slots| ==> slots[k].Some?
  {
    if |slots| == 0 then None
    else if slots[0].None? then Some(0)
    else
      match FirstEmpty(slots[1..])
      case None => None
      case Some(k) => Some(k + 1)
  }

  /** Puts `x` into the first empty slot; when every slot is taken, `x` is dropped. */
  function FillFirst<T>(slots: seq<Option<T>>, x: T): (r: seq<Option<T>>)
    ensures |r| == |slots|
    ensures FirstEmpty(slots).None? ==> r == slots
    ensures FirstEmpty(slots).Some? ==> r == slots[FirstEmpty(slots).value := Some(x)]
  {
    if |slots| == 0 then slots
    else if slots[0].None? then slots[0 := Some(x)]
    else
      var rest := FillFirst(slots[1..], x);
      assert slots == [slots[0]] + slots[1..];
      [slots[0]] + rest
  }

  /** tr_fspec_new followed by setting the field. */
  function NewSpec(field: Name): (r: Spec)
    ensures r.field == field && |r.matches| == MaxMatches
    ensures forall k :: 0 <= k < |r.matches| ==> r.matches[k].None?
  {
    Spec(field, seq(MaxMatches, _ => None))
  }

  /** tr_fspec_add_match */
  function AddMatch(s: Spec, m: Name): (r: Spec)
    ensures r.field == s.field && |r.matches| == |s.matches|
    ensures forall k :: 0 <= k < |s.matches| && s.matches[k].Some? ==> r.matches[k] == s.matches[k]
  {
    var slots := FillFirst(s.matches, m);
    Spec(s.field, slots)
  }

  /** Patterns added one by one to a fresh spec fill its slots in order; those beyond the
      last slot are dropped. */
  function AddMatches(s: Spec, ms: seq<Name>): Spec
    decreases |ms|
  {
    if |ms| == 0 then s else AddMatches(AddMatch(s, ms[0]), ms[1..])
  }

  /** The slots filled are exactly the first `n`. */
  predicate FilledPrefix<T>(slots: seq<Option<T>>, n: nat)
  {
    n <= |slots| && forall q :: 0 <= q < |slots| ==> (slots[q].Some? <==> q < n)
  }

  /** On slots whose filled ones are the first `n`, FillFirst fills slot `n`, if any. */
  lemma FillFirstAtPrefix<T>(slots: seq<Option<T>>, x: T, n: nat)
    requires FilledPrefix(slots, n)
    ensures n < |slots| ==> FillFirst(slots, x) == slots[n := Some(x)] && FilledPrefix(FillFirst(slots, x), n + 1)
    ensures n == |slots| ==> FillFirst(slots, x) == slots
  {
    if n < |slots| {
      assert slots[n].None?;
      assert FirstEmpty(slots) == Some(n);
    }
  }

  /** Each element of `xs` in turn goes into the first empty slot. */
  function FillAll<T>(slots: seq<Option<T>>, xs: seq<T>): seq<Option<T>>
    decreases |xs|
  {
    if |xs| == 0 then slots else FillAll(FillFirst(slots, xs[0]), xs[1..])
  }

  /** On slots whose filled ones are the first `n`, the elements land in order from slot n;
      those beyond the last slot are dropped and later slots stay empty. */
  lemma {:induction false} FillAllInOrder<T>(slots: seq<Option<T>>, xs: seq<T>, n: nat)
    requires FilledPrefix(slots, n)
    ensures var r := FillAll(slots, xs);
            && |r| == |slots|
            && (forall k :: 0 <= k < n ==> r[k] == slots[k])
            && (forall k :: n <= k < |slots| && k - n < |xs| ==> r[k] == Some(xs[k - n]))
            && (forall k :: n + |xs| <= k < |slots| ==> r[k].None?)
    decreases |xs|
  {
    if |xs| > 0 {
      var slots' := FillFirst(slots, xs[0]);
      FillFirstAtPrefix(slots, xs[0], n);
      var n' := if n < |slots| then n + 1 else n;
      FillAllInOrder(slots', xs[1..], n');
      var r := FillAll(slots, xs);
      assert r == FillAll(slots', xs[1..]);
      forall k | n <= k < |slots| && k - n < |xs|
        ensures r[k] == Some(xs[k - n])
      {
        if k > n {
          assert xs[k - n] == xs[1..][k - n'];
        }
      }
    }
  }

  /** Adding patterns one by one fills the spec's slots as FillAll does. */
  lemma {:induction false} AddMatchesFill(s: Spec, ms: seq<Name>)
    ensures AddMatches(s, ms) == Spec(s.field, FillAll(s.matches, ms))
    decreases |ms|
  {
    if |ms| > 0 {
      AddMatchesFill(AddMatch(s, ms[0]), ms[1..]);
    }
  }

  /** Patterns added one by one to a spec whose filled slots are the first `used` land in
      order; those beyond the last slot are dropped and later slots stay empty. */
  lemma AddMatchesInOrder(s: Spec, ms: seq<Name>, used: nat)
    requires FilledPrefix(s.matches, used)
    ensures var r := AddMatches(s, ms);
            && r.field == s.field && |r.matches| == |s.matches|
            && (forall k :: 0 <= k < used ==> r.matches[k] == s.matches[k])
            && (forall k :: used <= k < |s.matches| && k - used < |ms| ==> r.matches[k] == Some(ms[k - used]))
            && (forall k :: used + |ms| <= k < |s.matches| ==> r.matches[k].None?)
  {
    AddMatchesFill(s, ms);
    FillAllInOrder(s.matches, ms, used);
  }

  /** tr_fline_new */
  function NewLine(): (r: Line)
    ensures r.action == ActUnknown && r.realmCons.None? && r.domainCons.None?
    ensures |r.specs| == MaxSpecs && forall k :: 0 <= k < |r.specs| ==> r.specs[k].None?
  {
    Line(ActUnknown, None, None, seq(MaxSpecs, _ => None))
  }

  /** tr_fline_add_spec (its body is not part of this model): the spec goes into the first
      empty slot and is dropped when all slots are taken, as tr_fspec_add_match does for
      patterns. */
  function AddSpec(l: Line, s: Spec): (r: Line)
    ensures r.action == l.action && r.realmCons == l.realmCons && r.domainCons == l.domainCons
    ensures |r.specs| == |l.specs|
    ensures forall k :: 0 <= k < |l.specs| && l.specs[k].Some? ==> r.specs[k] == l.specs[k]
  {
    l.(specs := FillFirst(l.specs, s))
  }

  /** tr_filter_new followed by setting the type. */
  function NewFilter(ftype: FilterType): (r: Filter)
    ensures r.ftype == ftype && r.lines == []
  {
    Filter(ftype, [])
  }

  /** tr_filter_add_line: lines are kept in the order they are added. */
  function AddLine(f: Filter, l: Line): (r: Filter)
    ensures r.ftype == f.ftype && |r.lines| == |f.lines| + 1
    ensures r.lines[..|f.lines|] == f.lines && r.lines[|f.lines|] == l
  {
    Filter(f.ftype, f.lines + [l])
  }

  // ---------------------------------------------------------------------------------------
  // Applying a filter

  datatype FilterRc = NoMatch | Match

  /** The result of tr_filter_apply: its return code, *out_action, and the constraint set
      (a NULL set is the empty sequence). */
  datatype Applied = Applied(rc: FilterRc, action: Action, cons: seq<Constraint>)

  /** The constraints a line contributes; a missing one adds nothing. */
  function LineCons(l: Line): seq<Constraint>
  {
    (if l.realmCons.Some? then [l.realmCons.value] else []) +
    (if l.domainCons.Some? then [l.domainCons.value] else [])
  }

  /** The line test tr_filter_apply uses for a filter of type `ftype`. */
  function Matcher(ftype: FilterType, target: Target, wc: (Name, Name) -> bool): Line -> bool
  {
    l => LineMatches(l, ftype, target, wc)
  }

  /** The index of the first line from `from` on that passes `ok`. */
  function FirstMatch(lines: seq<Line>, from: nat, ok: Line -> bool): (r: Option<nat>)
    requires from <= |lines|
    ensures r.Some? ==> from <= r.value < |lines| && ok(lines[r.value]) &&
                        forall p :: from <= p < r.value ==> !ok(lines[p])
    ensures r.None? <==> forall p :: from <= p < |lines| ==> !ok(lines[p])
    decreases |lines| - from
  {
    if from == |lines| then None
    else if ok(lines[from]) then Some(from)
    else FirstMatch(lines, from + 1, ok)
  }

  /** tr_filter_apply as its documentation describes it. The action defaults to REJECT; a
      missing filter or one of unknown type matches nothing. Otherwise the first line all of
      whose specs match decides the action, and, when constraints are tracked, its realm
      and domain constraints are added to the set. Without a match the set is untouched. */
  function Apply(f: Option<Filter>, target: Target, tracking: bool, cons: seq<Constraint>, wc: (Name, Name) -> bool): (r: Applied)
    ensures r.rc == Match <==>
              f.Some? && f.value.ftype != FtUnknown &&
              exists i :: 0 <= i < |f.value.lines| && LineMatches(f.value.lines[i], f.value.ftype, target, wc)
    ensures r.rc == NoMatch ==> r.action == Reject && r.cons == cons
    ensures r.rc == Match ==>
              exists i :: 0 <= i < |f.value.lines| && LineMatches(f.value.lines[i], f.value.ftype, target, wc) &&
                          (forall p :: 0 <= p < i ==> !LineMatches(f.value.lines[p], f.value.ftype, target, wc)) &&
                          r.action == f.value.lines[i].action &&
                          r.cons == (if tracking then cons + LineCons(f.value.lines[i]) else cons)
  {
    if f.None? || f.value.ftype == FtUnknown then Applied(NoMatch, Reject, cons)
    else
      match FirstMatch(f.value.lines, 0, Matcher(f.value.ftype, target, wc))
      case None => Applied(NoMatch, Reject, cons)
      case Some(i) =>
        var l := f.value.lines[i];
        Applied(Match, l.action, if tracking then cons + LineCons(l) else cons)
  }

  /** tr_filter_apply as written: the line loop never fetches the next line, so when the
      first line does not match it tests that same line forever. */
  function ApplyAsWritten(f: Option<Filter>, target: Target, tracking: bool, cons: seq<Constraint>, wc: (Name, Name) -> bool): Run<Applied>
  {
    if f.None? || f.value.ftype == FtUnknown then Returns(Applied(NoMatch, Reject, cons))
    else if |f.value.lines| == 0 then Returns(Applied(NoMatch, Reject, cons))
    else
      var l := f.value.lines[0];
      if LineMatches(l, f.value.ftype, target, wc) then
        Returns(Applied(Match, l.action, if tracking then cons + LineCons(l) else cons))
      else Loops
  }

  /** Whenever the code as written returns, it agrees with the documented behaviour; it
      fails to return exactly when the first line does not match. */
  lemma ApplyAsWrittenAgrees(f: Option<Filter>, target: Target, tracking: bool, cons: seq<Constraint>, wc: (Name, Name) -> bool)
    ensures ApplyAsWritten(f, target, tracking, cons, wc).Returns? ==>
              ApplyAsWritten(f, target, tracking, cons, wc).result == Apply(f, target, tracking, cons, wc)
    ensures ApplyAsWritten(f, target, tracking, cons, wc).Loops? <==>
              f.Some? && f.value.ftype != FtUnknown && |f.value.lines| > 0 &&
              !LineMatches(f.value.lines[0], f.value.ftype, target, wc)
  {
    if f.Some? && f.value.ftype != FtUnknown && |f.value.lines| > 0 &&
       LineMatches(f.value.lines[0], f.value.ftype, target, wc) {
      assert FirstMatch(f.value.lines, 0, Matcher(f.value.ftype, target, wc)) == Some(0);
    }
  }

  /** A TID filter whose first line rejects realm "b" and whose second line has no specs:
      the documented behaviour matches on the second line, the code as written never
      returns. */
  lemma ApplyAsWrittenLoopsOnSecondLine()
    ensures var eq := (v: Name, p: Name) => v == p;
            var spec := AddMatch(NewSpec("realm"), "b");
            var l1 := AddSpec(NewLine(), spec).(action := Reject);
            var l2 := NewLine().(action := Accept);
            var f := Some(Filter(TidInbound, [l1, l2]));
            var t := TidTarget(TidReq(Some("a"), None, None, None));
            && ApplyAsWritten(f, t, false, [], eq).Loops?
            && Apply(f, t, false, [], eq) == Applied(Match, Accept, [])
  {
    var eq := (v: Name, p: Name) => v == p;
    var l1 := AddSpec(NewLine(), AddMatch(NewSpec("realm"), "b")).(action := Reject);
    var l2 := NewLine().(action := Accept);
    var t := TidTarget(TidReq(Some("a"), None, None, None));
    RealmBLineMisses(l1, t, eq);
    EmptyLineMatches(l2, TidInbound, t, eq);
    SecondLineDecides(l1, l2, TidInbound, t, eq);
  }

  /** When only the second of two lines matches, the documented behaviour takes that line's
      action and the code as written never returns. */
  lemma SecondLineDecides(l1: Line, l2: Line, ftype: FilterType, target: Target, wc: (Name, Name) -> bool)
    requires ftype != FtUnknown
    requires !LineMatches(l1, ftype, target, wc) && LineMatches(l2, ftype, target, wc)
    ensures ApplyAsWritten(Some(Filter(ftype, [l1, l2])), target, false, [], wc).Loops?
    ensures Apply(Some(Filter(ftype, [l1, l2])), target, false, [], wc) == Applied(Match, l2.action, [])
  {
    assert FirstMatch([l1, l2], 0, Matcher(ftype, target, wc)) == Some(1);
  }

  /** A line whose one spec asks for realm "b" does not match a request from realm "a" when
      "a" does not match the pattern "b". */
  lemma RealmBLineMisses(l: Line, t: Target, eq: (Name, Name) -> bool)
    requires l == AddSpec(NewLine(), AddMatch(NewSpec("realm"), "b")).(action := Reject)
    requires t == TidTarget(TidReq(Some("a"), None, None, None))
    requires !eq("a", "b")
    ensures !LineMatches(l, TidInbound, t, eq)
  {
    var spec := AddMatch(NewSpec("realm"), "b");
    assert spec.matches == NewSpec("realm").matches[0 := Some("b")];
    assert l.specs == NewLine().specs[0 := Some(spec)];
    assert FieldEntryFor(TidInbound, "realm") == Some(FieldTable[0]);
    assert !SpecMatches(l.specs[0], TidInbound, t, eq);
  }

  // ---------------------------------------------------------------------------------------
  // Validation

  /** tr_filter_validate_spec_field */
  function ValidateSpecField(ftype: FilterType, spec: Option<Spec>): (r: bool)
    ensures r <==> spec.Some? && Registered(ftype, spec.value.field)
  {
    if spec.None? then false
    else
      RegistryIsExact(ftype, spec.value.field);
      FieldEntryFor(ftype, spec.value.field).Some?
  }

  predicate KnownType(t: FilterType)
  {
    t == TidInbound || t == TrpInbound || t == TrpOutbound
  }

  /** A spec can be processed: its field is registered for the type and it holds at least
      one pattern. */
  predicate SpecValid(ftype: FilterType, s: Spec)
  {
    Registered(ftype, s.field) && exists k :: 0 <= k < |s.matches| && s.matches[k].Some?
  }

  predicate LineValid(ftype: FilterType, l: Line)
  {
    && (l.action == Accept || l.action == Reject)
    && forall j :: 0 <= j < |l.specs| && l.specs[j].Some? ==> SpecValid(ftype, l.specs[j].value)
  }

  /** A filter that can be processed. */
  predicate ValidFilter(f: Option<Filter>)
  {
    && f.Some?
    && KnownType(f.value.ftype)
    && forall i :: 0 <= i < |f.value.lines| ==> LineValid(f.value.ftype, f.value.lines[i])
  }

  /** The match loop of tr_filter_validate: some pattern slot is non-empty. */
  method HasPattern(spec: Spec) returns (ok: bool)
    ensures ok <==> exists k :: 0 <= k < |spec.matches| && spec.matches[k].Some?
  {
    var k := 0;
    while k < |spec.matches| && spec.matches[k].None?
      invariant 0 <= k <= |spec.matches|
      invariant forall p :: 0 <= p < k ==> spec.matches[p].None?
    {
      k := k + 1;
    }
    ok := k < |spec.matches|;
  }

  /** One spec slot of tr_filter_validate: an empty slot is valid; a filled one needs a
      registered field and a pattern. */
  method ValidateSlot(ftype: FilterType, spec: Option<Spec>) returns (ok: bool)
    ensures ok <==> spec.None? || SpecValid(ftype, spec.value)
  {
    if spec.None? {
      return true;
    }
    var known := ValidateSpecField(ftype, spec);
    if !known {
      return false;
    }
    ok := HasPattern(spec.value);
  }

  /** The body of the line loop of tr_filter_validate. */
  method ValidateLine(ftype: FilterType, line: Line) returns (ok: bool)
    ensures ok <==> LineValid(ftype, line)
  {
    if !(line.action == Accept || line.action == Reject) {
      return false;
    }
    var j := 0;
    while j < |line.specs|
      invariant 0 <= j <= |line.specs|
      invariant forall q :: 0 <= q < j && line.specs[q].Some? ==> SpecValid(ftype, line.specs[q].value)
    {
      var slotOk := ValidateSlot(ftype, line.specs[j]);
      if !slotOk {
        return false;
      }
      j := j + 1;
    }
    return true;
  }

  /** tr_filter_validate: 1 exactly for a filter that can be processed. */
  method Validate(f: Option<Filter>) returns (ok: bool)
    ensures ok <==> ValidFilter(f)
  {
    if f.None? {
      return false;
    }
    var filt := f.value;
    if !(filt.ftype == TidInbound || filt.ftype == TrpInbound || filt.ftype == TrpOutbound) {
      return false;
    }
    var i := 0;
    while i < |filt.lines|
      invariant 0 <= i <= |filt.lines|
      invariant forall p :: 0 <= p < i ==> LineValid(filt.ftype, filt.lines[p])
    {
      var lineOk := ValidateLine(filt.ftype, filt.lines[i]);
      if !lineOk {
        return false;
      }
      i := i + 1;
    }
    return true;
  }

  // ---------------------------------------------------------------------------------------
  // Filter sets

  /** TR_FILTER_SET: a linked list of nodes, each holding a filter or NULL. A new set is one
      node holding NULL. */
  datatype FilterSet = FilterSet(nodes: seq<Option<Filter>>)

  /** tr_filter_set_new */
  function NewSet(): (r: FilterSet)
    ensures SetShape(r) && Filters(r) == []
  {
    FilterSet([None])
  }

  /** The shape every set built by NewSet and SetAdd has: only the head may be empty, and
      only while it is the sole node. */
  predicate SetShape(s: FilterSet)
  {
    && |s.nodes| >= 1
    && (s.nodes[0].None? ==> |s.nodes| == 1)
    && forall k :: 1 <= k < |s.nodes| ==> s.nodes[k].Some?
  }

  /** The filters held by the nodes, in list order. */
  function Present(nodes: seq<Option<Filter>>): seq<Filter>
  {
    if |nodes| == 0 then []
    else (if nodes[0].Some? then [nodes[0].value] else []) + Present(nodes[1..])
  }

  function Filters(s: FilterSet): seq<Filter>
  {
    Present(s.nodes)
  }

  /** tr_filter_set_add: the first filter goes into the head node, later ones into a new
      node at the tail. */
  function SetAdd(s: FilterSet, f: Filter): (r: FilterSet)
    requires |s.nodes| >= 1
    ensures |r.nodes| >= 1
  {
    if s.nodes[0].None? then FilterSet(s.nodes[0 := Some(f)])
    else FilterSet(s.nodes + [Some(f)])
  }

  lemma {:induction false} PresentAppend(a: seq<Option<Filter>>, b: seq<Option<Filter>>)
    ensures Present(a + b) == Present(a) + Present(b)
    decreases |a|
  {
    if |a| > 0 {
      assert (a + b)[1..] == a[1..] + b;
      PresentAppend(a[1..], b);
    } else {
      assert a + b == b;
    }
  }

  lemma PresentAllSome(nodes: seq<Option<Filter>>)
    requires forall k :: 0 <= k < |nodes| ==> nodes[k].Some?
    ensures |Present(nodes)| == |nodes|
    ensures forall k :: 0 <= k < |nodes| ==> Present(nodes)[k] == nodes[k].value
    decreases |nodes|
  {
    if |nodes| > 0 {
      PresentAllSome(nodes[1..]);
    }
  }

  /** Adding keeps the shape and appends the filter to the filters held, in order. */
  lemma SetAddAppends(s: FilterSet, f: Filter)
    requires SetShape(s)
    ensures SetShape(SetAdd(s, f))
    ensures Filters(SetAdd(s, f)) == Filters(s) + [f]
  {
    var n := s.nodes;
    if n[0].None? {
      assert n == [None];
      assert SetAdd(s, f).nodes == [Some(f)];
      assert Present([None]) == [] + Present([]);
      assert Present([Some(f)]) == [f] + Present([]);
    } else {
      PresentAppend(n, [Some(f)]);
    }
  }

  /** tr_filter_set_get: the filter of the first node, from node `from` on, that holds a
      filter of the requested type. */
  function SetGetFrom(nodes: seq<Option<Filter>>, t: FilterType, from: nat): (r: Option<Filter>)
    requires from <= |nodes|
    ensures r.Some? ==> r.value.ftype == t &&
                        exists k :: from <= k < |nodes| && nodes[k] == r &&
                                    forall p :: from <= p < k ==> nodes[p].None? || nodes[p].value.ftype != t
    ensures r.None? <==> forall k :: from <= k < |nodes| ==> nodes[k].None? || nodes[k].value.ftype != t
    decreases |nodes| - from
  {
    if from == |nodes| then None
    else if nodes[from].Some? && nodes[from].value.ftype == t then nodes[from]
    else SetGetFrom(nodes, t, from + 1)
  }

  function SetGet(s: FilterSet, t: FilterType): Option<Filter>
  {
    SetGetFrom(s.nodes, t, 0)
  }

  /** The first filter of a type in the sequence, if any. */
  function FirstOfType(fs: seq<Filter>, t: FilterType): Option<Filter>
  {
    if |fs| == 0 then None else if fs[0].ftype == t then Some(fs[0]) else FirstOfType(fs[1..], t)
  }

  lemma {:induction false} SetGetIsFirstOfType(nodes: seq<Option<Filter>>, t: FilterType, from: nat)
    requires from <= |nodes|
    ensures SetGetFrom(nodes, t, from) == FirstOfType(Present(nodes[from..]), t)
    decreases |nodes| - from
  {
    if from < |nodes| {
      var x := nodes[from];
      var rest := Present(nodes[from + 1..]);
      assert nodes[from..] == [x] + nodes[from + 1..];
      PresentAppend([x], nodes[from + 1..]);
      assert [x][1..] == [];
      SetGetIsFirstOfType(nodes, t, from + 1);
      if x.Some? {
        assert Present(nodes[from..]) == [x.value] + rest;
        assert ([x.value] + rest)[1..] == rest;
      } else {
        assert Present(nodes[from..]) == rest;
      }
    } else {
      assert nodes[from..] == [];
    }
  }

  /** After an add, a get finds the earlier filter of that type if there is one, else the
      added filter if it has that type. */
  lemma GetAfterAdd(s: FilterSet, f: Filter, t: FilterType)
    requires SetShape(s)
    ensures SetGet(SetAdd(s, f), t) ==
              if SetGet(s, t).Some? then SetGet(s, t) else if f.ftype == t then Some(f) else None
  {
    SetAddAppends(s, f);
    SetGetIsFirstOfType(s.nodes, t, 0);
    SetGetIsFirstOfType(SetAdd(s, f).nodes, t, 0);
    assert s.nodes[0..] == s.nodes;
    assert SetAdd(s, f).nodes[0..] == SetAdd(s, f).nodes;
    FirstOfTypeAppend(Filters(s), f, t);
  }

  lemma {:induction false} FirstOfTypeAppend(fs: seq<Filter>, f: Filter, t: FilterType)
    ensures FirstOfType(fs + [f], t) ==
              if FirstOfType(fs, t).Some? then FirstOfType(fs, t) else if f.ftype == t then Some(f) else None
    decreases |fs|
  {
    if |fs| > 0 {
      assert (fs + [f])[1..] == fs[1..] + [f];
      FirstOfTypeAppend(fs[1..], f, t);
    }
  }

  // ---------------------------------------------------------------------------------------
  // Filter-type labels

  /** filter_type / filter_label, paired. */
  const FilterLabels: seq<(string, FilterType)> :=
    [("tid_inbound", TidInbound), ("trp_inbound", TrpInbound), ("trp_outbound", TrpOutbound)]

  /** tr_filter_type_to_string: "unknown" for any other code. */
  function FilterTypeToString(t: FilterType): (r: string)
    ensures t == FtUnknown <==> r == "unknown"
  {
    var name := NameOf(FilterLabels, t);
    assert name.Some? ==> FilterLabels[0].1 == t || FilterLabels[1].1 == t || FilterLabels[2].1 == t;
    assert t != FtUnknown ==> FilterLabels[0].1 == t || FilterLabels[1].1 == t || FilterLabels[2].1 == t;
    if name.Some? then name.value else "unknown"
  }

  /** tr_filter_type_from_string: UNKNOWN for any other string. */
  function FilterTypeFromString(s: string): (r: FilterType)
    ensures r == TidInbound <==> s == "tid_inbound"
    ensures r == TrpInbound <==> s == "trp_inbound"
    ensures r == TrpOutbound <==> s == "trp_outbound"
  {
    CodeOf(FilterLabels, s, FtUnknown)
  }

  /** Labels and codes round-trip. */
  lemma FilterTypeRoundTrip(t: FilterType, s: string)
    ensures t != FtUnknown ==> FilterTypeFromString(FilterTypeToString(t)) == t
    ensures FilterTypeFromString(s) != FtUnknown ==> FilterTypeToString(FilterTypeFromString(s)) == s
  {
  }

  // ---------------------------------------------------------------------------------------
  // The filter-line iterator

  /** TR_FILTER_ITER: the filter being walked and the index of the next line. */
  datatype LineIter = LineIter(filter: Filter, ii: nat)

  /** tr_filter_iter_next */
  function IterNext(it: LineIter): (r: (Option<Line>, LineIter))
    ensures r.0.Some? <==> it.ii < |it.filter.lines|
    ensures r.0.Some? ==> r.0.value == it.filter.lines[it.ii] && r.1 == LineIter(it.filter, it.ii + 1)
    ensures r.0.None? ==> r.1 == it
  {
    if it.ii < |it.filter.lines| then (Some(it.filter.lines[it.ii]), LineIter(it.filter, it.ii + 1))
    else (None, it)
  }

  /** tr_filter_iter_first */
  function IterFirst(f: Filter): (Option<Line>, LineIter)
  {
    IterNext(LineIter(f, 0))
  }

  /** Walking the iterator from first to exhaustion yields the lines in order. */
  method CollectLines(f: Filter) returns (lines: seq<Line>)
    ensures lines == f.lines
  {
    lines := [];
    var r := IterFirst(f);
    while r.0.Some?
      invariant r.1.filter == f && r.1.ii <= |f.lines|
      invariant r.0.Some? ==> 1 <= r.1.ii && r.0.value == f.lines[r.1.ii - 1] && lines == f.lines[..r.1.ii - 1]
      invariant r.0.None? ==> lines == f.lines
      decreases |f.lines| - r.1.ii + (if r.0.Some? then 1 else 0)
    {
      lines := lines + [r.0.value];
      assert lines == f.lines[..r.1.ii];
      r := IterNext(r.1);
      if r.0.None? {
        assert lines == f.lines[..|f.lines|];
      }
    }
  }
}
