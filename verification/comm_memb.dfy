/** A community membership record (TR_COMM_MEMB) on its own: its realm and community
    references with their reference counts, its provenance and origin, and expiry. */
module CommMemb {
  import opened Base

  datatype CommType = CommUnknown | Apc | Coi
  datatype RealmRole = RoleUnknown | RoleIdp | RoleRp

  /** struct timespec */
  datatype Timespec = Timespec(sec: int, nsec: int)

  /** A membership. `rp` and `idp` hold the id of the referenced RP or IdP realm (at most
      one is set by the setters below); `comm` holds the id of the referenced community.
      Realm and community objects are identified by their ids. */
  datatype Memb = Memb(
    rp: Option<Name>,
    idp: Option<Name>,
    comm: Option<Name>,
    origin: Option<Name>,
    provenance: Option<seq<Name>>,
    interval: nat,
    expiry: Option<Timespec>)

  /** Reference counts of RP realms, IdP realms and communities, by id. An id that is not
      in a map has count 0. */
  datatype RefCounts = RefCounts(rp: map<Name, nat>, idp: map<Name, nat>, comm: map<Name, nat>)

  /** A membership together with the reference counts after an operation on it. */
  datatype Held = Held(memb: Memb, refs: RefCounts)

  function Count(m: map<Name, nat>, k: Name): nat
  {
    if k in m then m[k] else 0
  }

  /** 1 when the optional reference `o` refers to `k`, else 0. */
  function Holds(o: Option<Name>, k: Name): nat
  {
    if o == Some(k) then 1 else 0
  }

  /** tr_comm_incref (and the realm equivalents). */
  function Incref(m: map<Name, nat>, k: Name): (r: map<Name, nat>)
    ensures Count(r, k) == Count(m, k) + 1
    ensures forall x :: x != k ==> Count(r, x) == Count(m, x)
  {
    m[k := Count(m, k) + 1]
  }

  /** tr_comm_decref (and the realm equivalents): never goes below zero. */
  function Decref(m: map<Name, nat>, k: Name): (r: map<Name, nat>)
    ensures Count(m, k) > 0 ==> Count(r, k) + 1 == Count(m, k)
    ensures Count(m, k) == 0 ==> Count(r, k) == 0
    ensures forall x :: x != k ==> Count(r, x) == Count(m, x)
  {
    if Count(m, k) > 0 then m[k := Count(m, k) - 1] else m
  }

  /** Decrement the count of the object `o` refers to, if any. */
  function Release(m: map<Name, nat>, o: Option<Name>): (r: map<Name, nat>)
    ensures forall k :: Count(m, k) >= Holds(o, k) ==> Count(r, k) == Count(m, k) - Holds(o, k)
  {
    if o.Some? then Decref(m, o.value) else m
  }

  /** tr_comm_memb_new */
  function NewMemb(): Memb
  {
    Memb(None, None, None, None, None, 0, None)
  }

  /** tr_comm_memb_get_role: derived from which realm pointer is set. */
  function Role(m: Memb): RealmRole
  {
    if m.rp.Some? then RoleRp else if m.idp.Some? then RoleIdp else RoleUnknown
  }

  /** tr_comm_memb_get_realm_id: the RP realm's id if set, else the IdP realm's id. */
  function RealmId(m: Memb): Option<Name>
  {
    if m.rp.Some? then m.rp else m.idp
  }

  /** tr_comm_memb_set_rp_realm: clears the IdP realm (releasing it), releases any previous
      RP realm, and takes a reference to the new one. */
  function SetRpRealm(m: Memb, realm: Name, rc: RefCounts): (r: Held)
    ensures r.memb.rp == Some(realm) && r.memb.idp.None?
    ensures Role(r.memb) == RoleRp && RealmId(r.memb) == Some(realm)
    ensures r.memb.comm == m.comm && r.memb.origin == m.origin && r.memb.provenance == m.provenance
    ensures r.memb.interval == m.interval && r.memb.expiry == m.expiry
    ensures r.refs.comm == rc.comm
    ensures forall k :: Count(rc.idp, k) >= Holds(m.idp, k) ==>
              Count(r.refs.idp, k) == Count(rc.idp, k) - Holds(m.idp, k)
    ensures forall k :: Count(rc.rp, k) >= Holds(m.rp, k) ==>
              Count(r.refs.rp, k) == Count(rc.rp, k) - Holds(m.rp, k) + Holds(Some(realm), k)
  {
    var idp := Release(rc.idp, m.idp);
    var rp := Incref(Release(rc.rp, m.rp), realm);
    Held(m.(rp := Some(realm), idp := None), RefCounts(rp, idp, rc.comm))
  }

  /** tr_comm_memb_set_idp_realm: the mirror image of SetRpRealm. */
  function SetIdpRealm(m: Memb, realm: Name, rc: RefCounts): (r: Held)
    ensures r.memb.idp == Some(realm) && r.memb.rp.None?
    ensures Role(r.memb) == RoleIdp && RealmId(r.memb) == Some(realm)
    ensures r.memb.comm == m.comm && r.memb.origin == m.origin && r.memb.provenance == m.provenance
    ensures r.memb.interval == m.interval && r.memb.expiry == m.expiry
    ensures r.refs.comm == rc.comm
    ensures forall k :: Count(rc.rp, k) >= Holds(m.rp, k) ==>
              Count(r.refs.rp, k) == Count(rc.rp, k) - Holds(m.rp, k)
    ensures forall k :: Count(rc.idp, k) >= Holds(m.idp, k) ==>
              Count(r.refs.idp, k) == Count(rc.idp, k) - Holds(m.idp, k) + Holds(Some(realm), k)
  {
    var rp := Release(rc.rp, m.rp);
    var idp := Incref(Release(rc.idp, m.idp), realm);
    Held(m.(idp := Some(realm), rp := None), RefCounts(rp, idp, rc.comm))
  }

  /** tr_comm_memb_set_comm: releases the old community and references the new one. */
  function SetComm(m: Memb, comm: Name, rc: RefCounts): (r: Held)
    ensures r.memb == m.(comm := Some(comm))
    ensures r.refs.rp == rc.rp && r.refs.idp == rc.idp
    ensures forall k :: Count(rc.comm, k) >= Holds(m.comm, k) ==>
              Count(r.refs.comm, k) == Count(rc.comm, k) - Holds(m.comm, k) + Holds(Some(comm), k)
  {
    Held(m.(comm := Some(comm)), rc.(comm := Incref(Release(rc.comm, m.comm), comm)))
  }

  /** The three kinds of reference a membership holds. */
  datatype RefKind = RpRef | IdpRef | CommRef

  function RefOf(m: Memb, f: RefKind): Option<Name>
  {
    match f
    case RpRef => m.rp
    case IdpRef => m.idp
    case CommRef => m.comm
  }

  function CountOf(rc: RefCounts, f: RefKind, k: Name): nat
  {
    match f
    case RpRef => Count(rc.rp, k)
    case IdpRef => Count(rc.idp, k)
    case CommRef => Count(rc.comm, k)
  }

  /** tr_comm_memb_destructor: releases every reference the membership holds. */
  function Destroy(m: Memb, rc: RefCounts): (r: RefCounts)
    ensures forall f, k :: CountOf(rc, f, k) >= Holds(RefOf(m, f), k) ==>
              CountOf(r, f, k) == CountOf(rc, f, k) - Holds(RefOf(m, f), k)
  {
    RefCounts(Release(rc.rp, m.rp), Release(rc.idp, m.idp), Release(rc.comm, m.comm))
  }

  /** The origin is the first provenance entry, and absent when there is none. */
  predicate OriginAgrees(m: Memb)
  {
    m.origin == (if m.provenance.Some? && |m.provenance.value| > 0 then Some(m.provenance.value[0]) else None)
  }

  /** tr_comm_memb_provenance_len */
  function ProvenanceLen(m: Memb): nat
  {
    if m.provenance.None? then 0 else |m.provenance.value|
  }

  /** tr_comm_memb_set_provenance. The origin is taken from element 0 of the provenance
      array; an empty array yields no origin. */
  function SetProvenance(m: Memb, prov: Option<seq<Name>>): (r: Memb)
    ensures OriginAgrees(r)
    ensures r.provenance == prov
    ensures ProvenanceLen(r) == (if prov.Some? then |prov.value| else 0)
    ensures r.(origin := m.origin, provenance := m.provenance) == m
  {
    match prov
    case None => m.(provenance := None, origin := None)
    case Some(p) => m.(provenance := prov, origin := if |p| > 0 then Some(p[0]) else None)
  }

  /** tr_comm_memb_add_to_provenance as written: the origin is set only when the provenance
      pointer was NULL, not when it pointed at an empty array. */
  function AddToProvenanceAsWritten(m: Memb, hop: Name): (r: Memb)
    ensures r.provenance.Some? && r.provenance.value == (if m.provenance.Some? then m.provenance.value else []) + [hop]
    ensures m.provenance.None? ==> r.origin == Some(hop)
    ensures m.provenance.Some? ==> r.origin == m.origin
  {
    if m.provenance.None? then m.(provenance := Some([hop]), origin := Some(hop))
    else m.(provenance := Some(m.provenance.value + [hop]))
  }

  /** An empty provenance array followed by one hop leaves the origin absent while the
      provenance starts with that hop. */
  lemma AddToProvenanceLosesOrigin()
    ensures var m := AddToProvenanceAsWritten(SetProvenance(NewMemb(), Some([])), "hop1");
            m.provenance == Some(["hop1"]) && m.origin.None? && !OriginAgrees(m)
  {
    var empty: seq<Name> := [];
    assert empty + ["hop1"] == ["hop1"];
  }

  /** tr_comm_memb_add_to_provenance as intended: the first hop of an empty provenance
      becomes the origin whether the list was NULL or empty. */
  function AddToProvenance(m: Memb, hop: Name): (r: Memb)
    ensures r.provenance.Some? && r.provenance.value == (if m.provenance.Some? then m.provenance.value else []) + [hop]
    ensures ProvenanceLen(r) == ProvenanceLen(m) + 1
    ensures OriginAgrees(m) ==> OriginAgrees(r)
    ensures ProvenanceLen(m) > 0 ==> r.origin == m.origin
  {
    if m.provenance.None? || |m.provenance.value| == 0 then m.(provenance := Some([hop]), origin := Some(hop))
    else m.(provenance := Some(m.provenance.value + [hop]))
  }

  const NanosPerSecond: int := 1_000_000_000

  predicate ValidTimespec(t: Timespec)
  {
    0 <= t.nsec < NanosPerSecond
  }

  /** The instant as a single count of nanoseconds. */
  function Nanos(t: Timespec): int
  {
    t.sec * NanosPerSecond + t.nsec
  }

  /** tr_comm_memb_is_expired: the expiry must be set (the source dereferences it). Expired
      means the current time is at or after the expiry. */
  function IsExpired(m: Memb, now: Timespec): (r: bool)
    requires m.expiry.Some?
    ensures ValidTimespec(now) && ValidTimespec(m.expiry.value) ==> (r <==> Nanos(now) >= Nanos(m.expiry.value))
    ensures now == m.expiry.value ==> r
  {
    var e := m.expiry.value;
    now.sec > e.sec || (now.sec == e.sec && now.nsec >= e.nsec)
  }

  /** The boundary: one nanosecond before the expiry is not expired, the expiry itself is. */
  lemma ExpiryBoundary(m: Memb, now: Timespec)
    requires m.expiry.Some? && ValidTimespec(now) && ValidTimespec(m.expiry.value)
    ensures Nanos(now) + 1 == Nanos(m.expiry.value) ==> !IsExpired(m, now)
    ensures Nanos(now) == Nanos(m.expiry.value) ==> IsExpired(m, now)
  {
  }

  /** tr_comm_type_to_str */
  function CommTypeToStr(t: CommType): string
  {
    match t
    case CommUnknown => "unknown"
    case Apc => "apc"
    case Coi => "coi"
  }

  /** tr_comm_type_from_str */
  function CommTypeFromStr(s: string): CommType
  {
    if s == "apc" then Apc else if s == "coi" then Coi else CommUnknown
  }

  lemma CommTypeRoundTrip(t: CommType, s: string)
    ensures CommTypeFromStr(CommTypeToStr(t)) == t
    ensures CommTypeFromStr(s) != CommUnknown ==> CommTypeToStr(CommTypeFromStr(s)) == s
    ensures CommTypeFromStr(s) == CommUnknown <==> s != "apc" && s != "coi"
  {
  }

  /** tr_realm_role_to_str: no name for an unknown role. */
  function RealmRoleToStr(r: RealmRole): Option<string>
  {
    match r
    case RoleIdp => Some("idp")
    case RoleRp => Some("rp")
    case RoleUnknown => None
  }

  /** tr_realm_role_from_str */
  function RealmRoleFromStr(s: string): RealmRole
  {
    if s == "idp" then RoleIdp else if s == "rp" then RoleRp else RoleUnknown
  }

  lemma RealmRoleRoundTrip(r: RealmRole, s: string)
    ensures RealmRoleToStr(r).Some? ==> RealmRoleFromStr(RealmRoleToStr(r).value) == r
    ensures RealmRoleToStr(r).None? <==> r == RoleUnknown
    ensures RealmRoleFromStr(s) != RoleUnknown ==> RealmRoleToStr(RealmRoleFromStr(s)) == Some(s)
  {
  }
}
