/** The community table (TR_COMM_TABLE): the community list and the membership list.
    The membership list is a main list whose nodes may each carry an origin chain; here
    it is a sequence of chains, chain i being main-list node i followed by its origin
    chain in `origin_next` order. */
module CommTable {
  import opened Base
  import opened CommMemb
  import opened CommList

  datatype Table = Table(comms: seq<Comm>, chains: seq<seq<Memb>>)

  /** tr_comm_table_new */
  function NewTable(): Table
  {
    Table([], [])
  }

  /** Every membership of the table, main-list and origin-chain nodes alike, in
      main-list order with each origin chain after its main-list node. */
  function Flat(chains: seq<seq<Memb>>): seq<Memb>
  {
    if |chains| == 0 then [] else chains[0] + Flat(chains[1..])
  }

  function Members(t: Table): multiset<Memb>
  {
    multiset(Flat(t.chains))
  }

  /** Which lookup is meant: tr_comm_table_find_memb (any role), ..._find_idp_memb or
      ..._find_rp_memb. */
  datatype RoleSel = AnyRole | IdpOnly | RpOnly

  /** Does main-list membership `m` answer a lookup for (realm, comm) under `sel`? */
  predicate HeadMatches(m: Memb, sel: RoleSel, realm: Name, comm: Name)
  {
    && m.comm == Some(comm)
    && match sel
       case AnyRole => RealmId(m) == Some(realm)
       case IdpOnly => m.idp == Some(realm)
       case RpOnly => m.rp == Some(realm)
  }

  predicate HeadAt(chains: seq<seq<Memb>>, i: int, sel: RoleSel, realm: Name, comm: Name)
  {
    0 <= i < |chains| && |chains[i]| > 0 && HeadMatches(chains[i][0], sel, realm, comm)
  }

  /** The main-list walk of the tr_comm_table_find_*memb functions, from position `from`. */
  function FindHeadFrom(chains: seq<seq<Memb>>, sel: RoleSel, realm: Name, comm: Name, from: nat): (r: Option<nat>)
    requires from <= |chains|
    ensures r.Some? ==> from <= r.value && HeadAt(chains, r.value, sel, realm, comm)
    ensures r.Some? ==> forall k :: from <= k < r.value ==> !HeadAt(chains, k, sel, realm, comm)
    ensures r.None? ==> forall k :: from <= k < |chains| ==> !HeadAt(chains, k, sel, realm, comm)
    decreases |chains| - from
  {
    if from == |chains| then None
    else if HeadAt(chains, from, sel, realm, comm) then Some(from)
    else FindHeadFrom(chains, sel, realm, comm, from + 1)
  }

  /** tr_comm_table_find_memb, tr_comm_table_find_idp_memb and tr_comm_table_find_rp_memb:
      the first main-list membership of the realm in the community (restricted by role
      as `sel` says), or None. Origin chains are not searched. */
  function FindHead(t: Table, sel: RoleSel, realm: Name, comm: Name): (r: Option<nat>)
    ensures r.Some? ==> HeadAt(t.chains, r.value, sel, realm, comm)
    ensures r.Some? ==> forall k :: 0 <= k < r.value ==> !HeadAt(t.chains, k, sel, realm, comm)
    ensures r.None? ==> forall k :: 0 <= k < |t.chains| ==> !HeadAt(t.chains, k, sel, realm, comm)
  {
    FindHeadFrom(t.chains, sel, realm, comm, 0)
  }

  /** The origin test of the find_*_memb_origin functions, as the source spells it. */
  predicate OriginMatches(origin: Option<Name>, cur: Option<Name>)
  {
    || (origin.None? && cur.None?)
    || (origin.Some? && cur.Some? && origin.value == cur.value)
  }

  /** An absent origin matches only an absent origin; a present one matches by name. */
  lemma OriginMatchesIsEquality(origin: Option<Name>, cur: Option<Name>)
    ensures OriginMatches(origin, cur) <==> origin == cur
  {
  }

  /** The origin-chain walk: the first position at or after `from` whose origin matches. */
  function FindInChain(chain: seq<Memb>, origin: Option<Name>, from: nat): (r: Option<nat>)
    requires from <= |chain|
    ensures r.Some? ==> from <= r.value < |chain| && chain[r.value].origin == origin
    ensures r.Some? ==> forall j :: from <= j < r.value ==> chain[j].origin != origin
    ensures r.None? ==> forall j :: from <= j < |chain| ==> chain[j].origin != origin
    decreases |chain| - from
  {
    if from == |chain| then None
    else if OriginMatches(origin, chain[from].origin) then Some(from)
    else FindInChain(chain, origin, from + 1)
  }

  /** tr_comm_table_find_idp_memb_origin, tr_comm_table_find_rp_memb_origin and (as
      intended) tr_comm_table_find_memb_origin: the membership with the given origin in
      the origin chain of the first matching main-list node, as (chain, position). */
  function FindOrigin(t: Table, sel: RoleSel, realm: Name, comm: Name, origin: Option<Name>): (r: Option<(nat, nat)>)
    ensures r.Some? ==> FindHead(t, sel, realm, comm) == Some(r.value.0)
    ensures r.Some? ==> r.value.1 < |t.chains[r.value.0]| && t.chains[r.value.0][r.value.1].origin == origin
    ensures r.Some? ==> forall j :: 0 <= j < r.value.1 ==> t.chains[r.value.0][j].origin != origin
    ensures r.None? && FindHead(t, sel, realm, comm).Some? ==>
              var i := FindHead(t, sel, realm, comm).value;
              forall j :: 0 <= j < |t.chains[i]| ==> t.chains[i][j].origin != origin
  {
    match FindHead(t, sel, realm, comm)
    case None => None
    case Some(i) =>
      match FindInChain(t.chains[i], origin, 0)
      case None => None
      case Some(j) => Some((i, j))
  }

  /** tr_comm_table_find_memb_origin as written: `cur_orig` is never loaded from the
      membership, so it stays NULL for the whole walk. */
  function FindMembOriginAsWritten(t: Table, realm: Name, comm: Name, origin: Option<Name>): (r: Option<(nat, nat)>)
    ensures origin.Some? ==> r.None?
  {
    match FindHead(t, AnyRole, realm, comm)
    case None => None
    case Some(i) =>
      match OriginWalkAsWritten(t.chains[i], origin, None, 0)
      case None => None
      case Some(j) => Some((i, j))
  }

  function OriginWalkAsWritten(chain: seq<Memb>, origin: Option<Name>, curOrig: Option<Name>, from: nat): (r: Option<nat>)
    requires from <= |chain|
    ensures origin.Some? && curOrig.None? ==> r.None?
    decreases |chain| - from
  {
    if from == |chain| then None
    else if OriginMatches(origin, curOrig) then Some(from)
    else OriginWalkAsWritten(chain, origin, curOrig, from + 1)
  }

  /** With one membership whose origin is "hop1", the as-written lookup returns it for an
      absent origin and misses it for "hop1"; the intended lookup does the opposite. */
  lemma FindMembOriginDefect()
    ensures var m := Memb(None, Some("idp.example.org"), Some("coi.alpha"), Some("hop1"), Some(["hop1"]), 0, None);
            var t := Table([], [[m]]);
            && FindMembOriginAsWritten(t, "idp.example.org", "coi.alpha", None) == Some((0, 0))
            && FindMembOriginAsWritten(t, "idp.example.org", "coi.alpha", Some("hop1")).None?
            && FindOrigin(t, AnyRole, "idp.example.org", "coi.alpha", None).None?
            && FindOrigin(t, AnyRole, "idp.example.org", "coi.alpha", Some("hop1")) == Some((0, 0))
  {
    var m := Memb(None, Some("idp.example.org"), Some("coi.alpha"), Some("hop1"), Some(["hop1"]), 0, None);
    var t := Table([], [[m]]);
    assert HeadAt(t.chains, 0, AnyRole, "idp.example.org", "coi.alpha");
  }

  lemma {:induction false} FlatAppend(a: seq<seq<Memb>>, b: seq<seq<Memb>>)
    ensures Flat(a + b) == Flat(a) + Flat(b)
  {
    if |a| == 0 {
      assert a + b == b;
    } else {
      assert (a + b)[1..] == a[1..] + b;
      FlatAppend(a[1..], b);
    }
  }

  /** Chain i sits in the flattened table between the chains before and after it. */
  lemma FlatSplit(chains: seq<seq<Memb>>, i: nat)
    requires i < |chains|
    ensures Flat(chains) == Flat(chains[..i]) + chains[i] + Flat(chains[i + 1..])
  {
    assert chains == chains[..i] + chains[i..];
    FlatAppend(chains[..i], chains[i..]);
    assert chains[i..][1..] == chains[i + 1..];
  }

  /** Extending chain i by one membership adds exactly that membership to the table. */
  lemma MembersExtend(chains: seq<seq<Memb>>, i: nat, m: Memb)
    requires i < |chains|
    ensures multiset(Flat(chains[i := chains[i] + [m]])) == multiset(Flat(chains)) + multiset{m}
  {
    var chains' := chains[i := chains[i] + [m]];
    FlatSplit(chains, i);
    FlatSplit(chains', i);
    assert chains'[..i] == chains[..i] && chains'[i + 1..] == chains[i + 1..];
    var p, q := Flat(chains[..i]), Flat(chains[i + 1..]);
    assert Flat(chains') == p + (chains[i] + [m]) + q;
  }

  /** The chains after unlinking position j of chain i: the chain shrinks, or leaves the
      main list when it held only that membership. */
  function Unlink(chains: seq<seq<Memb>>, i: nat, j: nat): seq<seq<Memb>>
    requires i < |chains| && j < |chains[i]|
  {
    var c := chains[i][..j] + chains[i][j + 1..];
    if |c| == 0 then chains[..i] + chains[i + 1..] else chains[i := c]
  }

  /** Unlinking position j of chain i removes exactly that membership from the table. */
  lemma MembersRemoveAt(chains: seq<seq<Memb>>, i: nat, j: nat)
    requires i < |chains| && j < |chains[i]|
    ensures multiset(Flat(Unlink(chains, i, j))) + multiset{chains[i][j]} == multiset(Flat(chains))
  {
    var c := chains[i][..j] + chains[i][j + 1..];
    var x := chains[i][j];
    assert chains[i] == chains[i][..j] + [x] + chains[i][j + 1..];
    assert multiset(chains[i]) == multiset(c) + multiset{x};
    FlatSplit(chains, i);
    var p, q := Flat(chains[..i]), Flat(chains[i + 1..]);
    if |c| == 0 {
      FlatAppend(chains[..i], chains[i + 1..]);
    } else {
      var chains' := chains[i := c];
      FlatSplit(chains', i);
      assert chains'[..i] == chains[..i] && chains'[i + 1..] == chains[i + 1..];
      assert Flat(chains') == p + c + q;
    }
  }

  /** Every position of the table holds one of its members. */
  lemma InMembers(chains: seq<seq<Memb>>, i: nat, j: nat)
    requires i < |chains| && j < |chains[i]|
    ensures chains[i][j] in multiset(Flat(chains))
  {
    FlatSplit(chains, i);
    assert chains[i][j] in chains[i];
  }

  lemma FlatSingle(c: seq<Memb>)
    ensures Flat([c]) == c
  {
    assert [c][1..] == [];
  }

  /** The main-list node that a new membership joins in tr_comm_table_add_memb: the
      first one with the same realm, community and role. A membership of unknown role
      joins none. */
  function SameKeyHead(t: Table, m: Memb): Option<nat>
    requires Role(m) != RoleUnknown ==> m.comm.Some?
  {
    match Role(m)
    case RoleRp => FindHead(t, RpOnly, m.rp.value, m.comm.value)
    case RoleIdp => FindHead(t, IdpOnly, m.idp.value, m.comm.value)
    case RoleUnknown => None
  }

  /** tr_comm_table_add_memb. The source logs an error for a membership of unknown role
      but still appends it to the main list. */
  function AddMemb(t: Table, m: Memb): (r: Table)
    requires Role(m) != RoleUnknown ==> m.comm.Some?
    ensures r.comms == t.comms
    ensures Members(r) == Members(t) + multiset{m}
    ensures |t.chains| == 0 ==> r.chains == [[m]]
    ensures |t.chains| > 0 && SameKeyHead(t, m).None? ==> r.chains == t.chains + [[m]]
    ensures |t.chains| > 0 && SameKeyHead(t, m).Some? ==>
              var i := SameKeyHead(t, m).value;
              && |r.chains| == |t.chains|
              && r.chains[i] == t.chains[i] + [m]
              && forall k :: 0 <= k < |t.chains| && k != i ==> r.chains[k] == t.chains[k]
  {
    if |t.chains| == 0 then
      FlatSingle([m]);
      t.(chains := [[m]])
    else
      match SameKeyHead(t, m)
      case None =>
        FlatAppend(t.chains, [[m]]);
        FlatSingle([m]);
        t.(chains := t.chains + [[m]])
      case Some(i) =>
        MembersExtend(t.chains, i, m);
        t.(chains := t.chains[i := t.chains[i] + [m]])
  }

  /** Unlink the membership at position j of chain i, as tr_comm_table_remove_memb is
      meant to: an origin-chain node is spliced out; a main-list node is replaced by its
      first origin-chain successor, or dropped from the main list when it has none. */
  function RemoveAt(t: Table, i: nat, j: nat): (r: Table)
    requires i < |t.chains| && j < |t.chains[i]|
    ensures r.comms == t.comms
    ensures Members(r) + multiset{t.chains[i][j]} == Members(t)
    ensures |t.chains[i]| > 1 ==>
              && |r.chains| == |t.chains|
              && r.chains[i] == t.chains[i][..j] + t.chains[i][j + 1..]
              && forall k :: 0 <= k < |t.chains| && k != i ==> r.chains[k] == t.chains[k]
    ensures |t.chains[i]| == 1 ==> r.chains == t.chains[..i] + t.chains[i + 1..]
  {
    MembersRemoveAt(t.chains, i, j);
    t.(chains := Unlink(t.chains, i, j))
  }

  function IndexOf(s: seq<Memb>, m: Memb): (r: nat)
    requires m in s
    ensures r < |s| && s[r] == m
  {
    if s[0] == m then 0 else 1 + IndexOf(s[1..], m)
  }

  /** The first position, in main-list order, holding membership `m`. */
  function Locate(chains: seq<seq<Memb>>, m: Memb): (r: Option<(nat, nat)>)
    ensures r.Some? ==> r.value.0 < |chains| && r.value.1 < |chains[r.value.0]|
    ensures r.Some? ==> chains[r.value.0][r.value.1] == m
    ensures r.None? ==> m !in multiset(Flat(chains))
  {
    if |chains| == 0 then None
    else if m in chains[0] then Some((0, IndexOf(chains[0], m)))
    else
      match Locate(chains[1..], m)
      case None => None
      case Some(loc) => Some((loc.0 + 1, loc.1))
  }

  /** tr_comm_table_remove_memb as intended: a NULL membership, an empty table or a
      membership that is not in the table leave it unchanged; otherwise exactly that
      membership is unlinked and nothing is freed. */
  function RemoveMemb(t: Table, memb: Option<Memb>): (r: Table)
    ensures memb.None? ==> r == t
    ensures memb.Some? ==> Members(r) == Members(t) - multiset{memb.value}
    ensures memb.Some? && memb.value !in Members(t) ==> r == t
  {
    if memb.None? || |t.chains| == 0 then t
    else
      match Locate(t.chains, memb.value)
      case None => t
      case Some(loc) =>
        InMembers(t.chains, loc.0, loc.1);
        RemoveAt(t, loc.0, loc.1)
  }

  /** The membership pointer handed to tr_comm_table_remove_memb. */
  datatype MembPtr = NullPtr | NotInTable | At(i: nat, j: nat)

  predicate ValidPtr(t: Table, p: MembPtr)
  {
    p.At? ==> p.i < |t.chains| && p.j < |t.chains[p.i]|
  }

  /** tr_comm_table_remove_memb as written. The head case is right. The loop over the
      first node's origin chain reloads the chain head every time, so it either finds
      the first origin-chain node (and then only points it at its own successor) or
      spins forever. The remaining walk never enters any other origin chain. */
  function RemoveMembAsWritten(t: Table, p: MembPtr): (r: Run<Table>)
    requires ValidPtr(t, p)
    ensures p == At(0, 0) ==> r == Returns(RemoveAt(t, 0, 0))
  {
    if p.NullPtr? || |t.chains| == 0 then Returns(t)
    else if p == At(0, 0) then Returns(RemoveAt(t, 0, 0))
    else if |t.chains[0]| > 1 then
      if p == At(0, 1) then Returns(t) else Loops
    else MainWalkAsWritten(t, p, 0)
  }

  /** The main-list walk of tr_comm_table_remove_memb with `cur` at main node k. */
  function MainWalkAsWritten(t: Table, p: MembPtr, k: nat): Run<Table>
    requires ValidPtr(t, p) && k < |t.chains|
    decreases |t.chains| - k
  {
    if k + 1 >= |t.chains| then Returns(t)
    else if p == At(k + 1, 0) then Returns(RemoveAt(t, k + 1, 0))
    else
      match InnerWalkAsWritten(t, p, k)
      case Some(q) => Returns(t.(chains := t.chains[..q] + t.chains[q + 1..]))
      case None => MainWalkAsWritten(t, p, k + 1)
  }

  /** The inner loop meant for the origin chain, which follows `next` and so walks the
      main list from node q; when it meets memb it unlinks memb's whole chain. */
  function InnerWalkAsWritten(t: Table, p: MembPtr, q: nat): (r: Option<nat>)
    requires q < |t.chains|
    ensures r.Some? ==> q < r.value < |t.chains| && p == At(r.value, 0)
    decreases |t.chains| - q
  {
    if q + 1 >= |t.chains| then None
    else if p == At(q + 1, 0) then Some(q + 1)
    else InnerWalkAsWritten(t, p, q + 1)
  }

  function SampleMemb(realm: Name, origin: Name): Memb
  {
    Memb(None, Some(realm), Some("coi.alpha"), Some(origin), Some([origin]), 0, None)
  }

  /** Removing a third main-list node unlinks its origin chain with it. */
  lemma RemoveMembLosesChain()
    ensures var a := SampleMemb("a", "o1");
            var b := SampleMemb("b", "o1");
            var d := SampleMemb("d", "o1");
            var d2 := SampleMemb("d", "o2");
            && RemoveMembAsWritten(Table([], [[a], [b], [d, d2]]), At(2, 0)) == Returns(Table([], [[a], [b]]))
            && RemoveAt(Table([], [[a], [b], [d, d2]]), 2, 0) == Table([], [[a], [b], [d2]])
  {
    var a := SampleMemb("a", "o1");
    var b := SampleMemb("b", "o1");
    var d := SampleMemb("d", "o1");
    var d2 := SampleMemb("d", "o2");
    var t := Table([], [[a], [b], [d, d2]]);
    assert t.chains[..2] + t.chains[3..] == [[a], [b]];
    assert [d, d2][..0] + [d, d2][1..] == [d2];
  }

  /** Removing the third node of the first origin chain spins forever. */
  lemma RemoveMembLoops()
    ensures var a := SampleMemb("a", "o1");
            var a2 := SampleMemb("a", "o2");
            var a3 := SampleMemb("a", "o3");
            RemoveMembAsWritten(Table([], [[a, a2, a3]]), At(0, 2)) == Loops
  {
  }

  /** Removing the second node of the first origin chain leaves it in the table. */
  lemma RemoveMembKeepsOriginNode()
    ensures var a := SampleMemb("a", "o1");
            var a2 := SampleMemb("a", "o2");
            && RemoveMembAsWritten(Table([], [[a, a2]]), At(0, 1)) == Returns(Table([], [[a, a2]]))
            && RemoveAt(Table([], [[a, a2]]), 0, 1) == Table([], [[a]])
  {
    var a := SampleMemb("a", "o1");
    var a2 := SampleMemb("a", "o2");
    assert [a, a2][..1] + [a, a2][2..] == [a];
  }

  /** At most one of the two realm references is set (the setters guarantee it). */
  predicate AtMostOneRealm(m: Memb)
  {
    !(m.rp.Some? && m.idp.Some?)
  }

  /** Same role, same realm id, same community. */
  predicate SameKey(a: Memb, b: Memb)
  {
    Role(a) == Role(b) && RealmId(a) == RealmId(b) && a.comm == b.comm
  }

  /** The lookup that tr_comm_table_add_memb and the add_*_realm functions use for a
      membership of the given role. */
  function Sel(role: RealmRole): RoleSel
  {
    match role
    case RoleRp => RpOnly
    case RoleIdp => IdpOnly
    case RoleUnknown => AnyRole
  }

  /** A membership that can be keyed: known role, one realm, a community. */
  predicate Keyed(m: Memb)
  {
    AtMostOneRealm(m) && Role(m) != RoleUnknown && m.comm.Some?
  }

  /** One chain of a consistent table: non-empty; every node holds at most one realm and
      has its main-list node's (role, realm, community) key; origins are distinct. */
  predicate ChainOk(c: seq<Memb>)
  {
    && |c| > 0
    && (forall j :: 0 <= j < |c| ==> AtMostOneRealm(c[j]) && SameKey(c[j], c[0]))
    && (forall j1, j2 :: 0 <= j1 < j2 < |c| ==> c[j1].origin != c[j2].origin)
  }

  /** No two main-list nodes of known role share a key. */
  predicate HeadsDistinct(cs: seq<seq<Memb>>)
  {
    forall i1, i2 :: 0 <= i1 < i2 < |cs| && |cs[i1]| > 0 && |cs[i2]| > 0 && Role(cs[i1][0]) != RoleUnknown ==>
      !SameKey(cs[i1][0], cs[i2][0])
  }

  /** The table invariant the add and remove operations keep. It gives at most one
      membership per (realm, community, role, origin). */
  predicate Valid(t: Table)
  {
    && (forall i :: 0 <= i < |t.chains| ==> ChainOk(t.chains[i]))
    && HeadsDistinct(t.chains)
  }

  /** The role-restricted lookup for a keyed membership's key finds exactly the main-list
      nodes with that key. */
  lemma HeadMatchesIsSameKey(h: Memb, m: Memb)
    requires AtMostOneRealm(h) && Keyed(m)
    ensures HeadMatches(h, Sel(Role(m)), RealmId(m).value, m.comm.value) <==> SameKey(h, m)
  {
  }

  lemma SameKeyHeadIsFindHead(t: Table, m: Memb)
    requires Keyed(m)
    ensures SameKeyHead(t, m) == FindHead(t, Sel(Role(m)), RealmId(m).value, m.comm.value)
  {
  }

  /** In a valid table, the lookup for m's key stops at the one main-list node with that key. */
  lemma FindHeadIsKeyedChain(t: Table, m: Memb, i: nat)
    requires Valid(t) && Keyed(m) && i < |t.chains| && SameKey(t.chains[i][0], m)
    ensures FindHead(t, Sel(Role(m)), RealmId(m).value, m.comm.value) == Some(i)
  {
    HeadMatchesIsSameKey(t.chains[i][0], m);
    var r := FindHead(t, Sel(Role(m)), RealmId(m).value, m.comm.value);
    assert HeadAt(t.chains, i, Sel(Role(m)), RealmId(m).value, m.comm.value);
  }

  /** In a valid table with no main-list node keyed like m, the lookup finds nothing. */
  lemma FindHeadNoKeyedChain(t: Table, m: Memb)
    requires Valid(t) && Keyed(m)
    requires forall i :: 0 <= i < |t.chains| ==> !SameKey(t.chains[i][0], m)
    ensures FindHead(t, Sel(Role(m)), RealmId(m).value, m.comm.value).None?
  {
    var r := FindHead(t, Sel(Role(m)), RealmId(m).value, m.comm.value);
    if r.Some? {
      HeadMatchesIsSameKey(t.chains[r.value][0], m);
    }
  }

  /** A new main-list node whose key no existing node has keeps the table valid. */
  lemma ValidAppendChain(t: Table, m: Memb)
    requires Valid(t) && Keyed(m)
    requires forall i :: 0 <= i < |t.chains| ==> !SameKey(t.chains[i][0], m)
    ensures Valid(t.(chains := t.chains + [[m]]))
  {
    var c := t.chains + [[m]];
    assert forall i :: 0 <= i < |t.chains| ==> c[i] == t.chains[i];
  }

  /** A new origin-chain node with its chain's key and a fresh origin keeps the table valid. */
  lemma ValidExtendChain(t: Table, i: nat, m: Memb)
    requires Valid(t) && AtMostOneRealm(m) && i < |t.chains| && SameKey(m, t.chains[i][0])
    requires forall j :: 0 <= j < |t.chains[i]| ==> t.chains[i][j].origin != m.origin
    ensures Valid(t.(chains := t.chains[i := t.chains[i] + [m]]))
  {
    var c := t.chains[i := t.chains[i] + [m]];
    assert forall k :: 0 <= k < |c| ==> c[k][0] == t.chains[k][0];
    assert forall j :: 0 <= j < |t.chains[i]| ==> c[i][j] == t.chains[i][j];
  }

  /** tr_comm_table_add_memb on a valid table, for a keyed membership whose origin is not yet
      present under its key (the add_*_realm functions check this first): the table stays
      valid and the origin lookup for the membership's key and origin now returns it. */
  lemma AddMembFindsNew(t: Table, m: Memb)
    requires Valid(t) && Keyed(m)
    requires FindOrigin(t, Sel(Role(m)), RealmId(m).value, m.comm.value, m.origin).None?
    ensures Valid(AddMemb(t, m))
    ensures var loc := FindOrigin(AddMemb(t, m), Sel(Role(m)), RealmId(m).value, m.comm.value, m.origin);
            loc.Some? && AddMemb(t, m).chains[loc.value.0][loc.value.1] == m
  {
    var r := AddMemb(t, m);
    SameKeyHeadIsFindHead(t, m);
    if |t.chains| == 0 {
      FindHeadIsKeyedChain(r, m, 0);
    } else if SameKeyHead(t, m).None? {
      var n := |t.chains|;
      forall i | 0 <= i < n
        ensures !SameKey(t.chains[i][0], m)
      {
        assert !HeadAt(t.chains, i, Sel(Role(m)), RealmId(m).value, m.comm.value);
      }
      ValidAppendChain(t, m);
      FindHeadIsKeyedChain(r, m, n);
      assert r.chains[n] == [m];
    } else {
      var i := SameKeyHead(t, m).value;
      HeadMatchesIsSameKey(t.chains[i][0], m);
      ValidExtendChain(t, i, m);
      FindHeadIsKeyedChain(r, m, i);
      assert r.chains[i][|t.chains[i]|] == m;
    }
  }

  lemma ChainOkRemove(c: seq<Memb>, j: nat)
    requires ChainOk(c) && j < |c| && |c| > 1
    ensures ChainOk(c[..j] + c[j + 1..])
    ensures SameKey((c[..j] + c[j + 1..])[0], c[0])
  {
    var d := c[..j] + c[j + 1..];
    assert forall k :: 0 <= k < |d| ==> d[k] == c[if k < j then k else k + 1];
  }

  lemma HeadsDistinctDrop(cs: seq<seq<Memb>>, i: nat)
    requires HeadsDistinct(cs) && i < |cs|
    ensures HeadsDistinct(cs[..i] + cs[i + 1..])
  {
    var d := cs[..i] + cs[i + 1..];
    assert forall k :: 0 <= k < |d| ==> d[k] == cs[if k < i then k else k + 1];
  }

  lemma HeadsDistinctReplace(cs: seq<seq<Memb>>, i: nat, c: seq<Memb>)
    requires HeadsDistinct(cs) && i < |cs| && |cs[i]| > 0 && |c| > 0 && SameKey(c[0], cs[i][0])
    ensures HeadsDistinct(cs[i := c])
  {
  }

  /** Unlinking any membership keeps a valid table valid. */
  lemma ValidRemoveAt(t: Table, i: nat, j: nat)
    requires Valid(t) && i < |t.chains| && j < |t.chains[i]|
    ensures Valid(RemoveAt(t, i, j))
  {
    var r := RemoveAt(t, i, j);
    if |t.chains[i]| == 1 {
      HeadsDistinctDrop(t.chains, i);
      assert forall k :: 0 <= k < |r.chains| ==> r.chains[k] == t.chains[if k < i then k else k + 1];
    } else {
      ChainOkRemove(t.chains[i], j);
      HeadsDistinctReplace(t.chains, i, r.chains[i]);
      assert r.chains == t.chains[i := r.chains[i]];
    }
  }

  /** In a valid table the origin walk finds the one position holding the origin. */
  lemma FindInChainUnique(t: Table, i: nat, p: nat)
    requires Valid(t) && i < |t.chains| && p < |t.chains[i]|
    ensures FindInChain(t.chains[i], t.chains[i][p].origin, 0) == Some(p)
  {
  }

  /** Unlinking the membership that the origin lookup returns leaves a valid table in which
      the same lookup finds nothing: at most one membership per key and origin. */
  lemma RemoveFoundIsGone(t: Table, m: Memb)
    requires Valid(t) && Keyed(m)
    requires FindOrigin(t, Sel(Role(m)), RealmId(m).value, m.comm.value, m.origin).Some?
    ensures var loc := FindOrigin(t, Sel(Role(m)), RealmId(m).value, m.comm.value, m.origin).value;
            var r := RemoveAt(t, loc.0, loc.1);
            Valid(r) && FindOrigin(r, Sel(Role(m)), RealmId(m).value, m.comm.value, m.origin).None?
  {
    var loc := FindOrigin(t, Sel(Role(m)), RealmId(m).value, m.comm.value, m.origin).value;
    var (i, j) := (loc.0, loc.1);
    ValidRemoveAt(t, i, j);
    assert HeadAt(t.chains, i, Sel(Role(m)), RealmId(m).value, m.comm.value);
    HeadMatchesIsSameKey(t.chains[i][0], m);
    if |t.chains[i]| == 1 {
      GoneWithChain(t, RemoveAt(t, i, j), m, i);
    } else {
      GoneFromChain(t, RemoveAt(t, i, j), m, i, j);
    }
  }

  /** Dropping the only chain keyed like m leaves no main-list node for m's key. */
  lemma GoneWithChain(t: Table, r: Table, m: Memb, i: nat)
    requires Valid(t) && Valid(r) && Keyed(m) && i < |t.chains| && SameKey(t.chains[i][0], m)
    requires r.chains == t.chains[..i] + t.chains[i + 1..]
    ensures FindHead(r, Sel(Role(m)), RealmId(m).value, m.comm.value).None?
  {
    forall k | 0 <= k < |r.chains|
      ensures !SameKey(r.chains[k][0], m)
    {
      assert r.chains[k] == t.chains[if k < i then k else k + 1];
    }
    FindHeadNoKeyedChain(r, m);
  }

  /** Splicing the node with m's origin out of the chain keyed like m leaves that chain with
      no node of m's origin. */
  lemma GoneFromChain(t: Table, r: Table, m: Memb, i: nat, j: nat)
    requires Valid(t) && Valid(r) && Keyed(m) && i < |t.chains| && j < |t.chains[i]|
    requires SameKey(t.chains[i][0], m) && t.chains[i][j].origin == m.origin
    requires |r.chains| == |t.chains| && r.chains[i] == t.chains[i][..j] + t.chains[i][j + 1..]
    ensures FindOrigin(r, Sel(Role(m)), RealmId(m).value, m.comm.value, m.origin).None?
  {
    var c := r.chains[i];
    assert forall k :: 0 <= k < |c| ==> c[k] == t.chains[i][if k < j then k else k + 1];
    assert SameKey(c[0], m);
    FindHeadIsKeyedChain(r, m, i);
  }

  /** In a valid table the origin lookup for m's key and origin returns the position of any
      membership with that key and origin. */
  lemma FindOriginAt(t: Table, m: Memb, a: nat, b: nat)
    requires Valid(t) && Keyed(m) && a < |t.chains| && b < |t.chains[a]|
    requires SameKey(t.chains[a][0], m) && t.chains[a][b].origin == m.origin
    ensures FindOrigin(t, Sel(Role(m)), RealmId(m).value, m.comm.value, m.origin) == Some((a, b))
  {
    FindHeadIsKeyedChain(t, m, a);
    FindInChainUnique(t, a, b);
  }

  /** Where a membership other than the unlinked one sits after unlinking: the same value,
      under a main-list node with the same key. */
  lemma UnlinkMoves(chains: seq<seq<Memb>>, i: nat, j: nat, a: nat, b: nat) returns (a': nat, b': nat)
    requires i < |chains| && j < |chains[i]| && ChainOk(chains[i])
    requires a < |chains| && b < |chains[a]| && (a, b) != (i, j)
    ensures var r := Unlink(chains, i, j);
            && a' < |r| && b' < |r[a']|
            && r[a'][b'] == chains[a][b]
            && SameKey(r[a'][0], chains[a][0])
  {
    var ch := chains[i];
    var c := ch[..j] + ch[j + 1..];
    if a != i {
      b' := b;
      if |c| == 0 {
        a' := if a > i then a - 1 else a;
        var r := chains[..i] + chains[i + 1..];
        assert Unlink(chains, i, j) == r;
        assert r[a'] == chains[a];
      } else {
        a' := a;
        assert Unlink(chains, i, j) == chains[i := c];
      }
    } else {
      assert Unlink(chains, i, j) == chains[i := c];
      a' := i;
      b' := if b > j then b - 1 else b;
      assert c[b'] == ch[b];
      assert c[0] == ch[if j == 0 then 1 else 0];
    }
  }

  /** Unlinking one membership leaves every other membership findable under its own key and
      origin. */
  lemma RemoveKeepsOthers(t: Table, i: nat, j: nat, m: Memb)
    requires Valid(t) && i < |t.chains| && j < |t.chains[i]| && Keyed(m)
    requires FindOrigin(t, Sel(Role(m)), RealmId(m).value, m.comm.value, m.origin).Some?
    requires FindOrigin(t, Sel(Role(m)), RealmId(m).value, m.comm.value, m.origin).value != (i, j)
    ensures var loc := FindOrigin(t, Sel(Role(m)), RealmId(m).value, m.comm.value, m.origin).value;
            var r := RemoveAt(t, i, j);
            var loc' := FindOrigin(r, Sel(Role(m)), RealmId(m).value, m.comm.value, m.origin);
            loc'.Some? && r.chains[loc'.value.0][loc'.value.1] == t.chains[loc.0][loc.1]
  {
    var loc := FindOrigin(t, Sel(Role(m)), RealmId(m).value, m.comm.value, m.origin).value;
    var (a, b) := (loc.0, loc.1);
    var r := RemoveAt(t, i, j);
    ValidRemoveAt(t, i, j);
    assert HeadAt(t.chains, a, Sel(Role(m)), RealmId(m).value, m.comm.value);
    HeadMatchesIsSameKey(t.chains[a][0], m);
    var a', b' := UnlinkMoves(t.chains, i, j, a, b);
    FindOriginAt(r, m, a', b');
  }

  /** Adding a membership under a fresh key and origin leaves every membership that was
      findable findable, with the same value. */
  lemma AddMembKeepsOthers(t: Table, m: Memb, q: Memb)
    requires Valid(t) && Keyed(m) && Keyed(q)
    requires FindOrigin(t, Sel(Role(m)), RealmId(m).value, m.comm.value, m.origin).None?
    requires FindOrigin(t, Sel(Role(q)), RealmId(q).value, q.comm.value, q.origin).Some?
    ensures var loc := FindOrigin(t, Sel(Role(q)), RealmId(q).value, q.comm.value, q.origin).value;
            var r := AddMemb(t, m);
            var loc' := FindOrigin(r, Sel(Role(q)), RealmId(q).value, q.comm.value, q.origin);
            loc'.Some? && r.chains[loc'.value.0][loc'.value.1] == t.chains[loc.0][loc.1]
  {
    var loc := FindOrigin(t, Sel(Role(q)), RealmId(q).value, q.comm.value, q.origin).value;
    var (a, b) := (loc.0, loc.1);
    var r := AddMemb(t, m);
    AddMembFindsNew(t, m);
    assert HeadAt(t.chains, a, Sel(Role(q)), RealmId(q).value, q.comm.value);
    HeadMatchesIsSameKey(t.chains[a][0], q);
    assert r.chains[a][0] == t.chains[a][0] && r.chains[a][b] == t.chains[a][b];
    FindHeadIsKeyedChain(r, q, a);
    FindInChainUnique(r, a, b);
  }

  /** The result of tr_comm_add_idp_realm / tr_comm_add_rp_realm: the table and the
      reference counts. */
  datatype Update = Update(table: Table, refs: RefCounts)

  /** The membership the add_*_realm functions build before looking for an existing one,
      with the references it takes on its realm and community. */
  function Candidate(role: RealmRole, realm: Name, comm: Name, prov: Option<seq<Name>>,
                     expiry: Option<Timespec>, rc: RefCounts): (r: Held)
    requires role != RoleUnknown
    ensures Keyed(r.memb) && Role(r.memb) == role
    ensures RealmId(r.memb) == Some(realm) && r.memb.comm == Some(comm)
    ensures OriginAgrees(r.memb) && r.memb.provenance == prov && r.memb.expiry == expiry
    ensures forall f, k :: CountOf(r.refs, f, k) == CountOf(rc, f, k) + Holds(RefOf(r.memb, f), k)
  {
    var h1 := if role == RoleIdp then SetIdpRealm(NewMemb(), realm, rc) else SetRpRealm(NewMemb(), realm, rc);
    var h2 := SetComm(h1.memb, comm, h1.refs);
    Held(SetProvenance(h2.memb, prov).(expiry := expiry), h2.refs)
  }

  /** tr_comm_add_if_shorter followed by the release of the candidate when the table did not
      take it: a new key and origin is added; an existing membership is replaced only by one
      with a strictly shorter provenance. */
  function AddIfShorter(t: Table, existing: Option<(nat, nat)>, m: Memb, rc: RefCounts): (r: Update)
    requires existing.Some? ==> existing.value.0 < |t.chains| && existing.value.1 < |t.chains[existing.value.0]|
    requires Role(m) != RoleUnknown ==> m.comm.Some?
    ensures existing.None? ==> Members(r.table) == Members(t) + multiset{m} && r.refs == rc
    ensures existing.Some? ==>
              var prev := t.chains[existing.value.0][existing.value.1];
              if ProvenanceLen(m) < ProvenanceLen(prev)
              then Members(r.table) == Members(t) - multiset{prev} + multiset{m} && r.refs == Destroy(prev, rc)
              else r.table == t && r.refs == Destroy(m, rc)
  {
    match existing
    case None => Update(AddMemb(t, m), rc)
    case Some(loc) =>
      var prev := t.chains[loc.0][loc.1];
      if ProvenanceLen(m) < ProvenanceLen(prev) then
        Update(AddMemb(RemoveAt(t, loc.0, loc.1), m), Destroy(prev, rc))
      else
        Update(t, Destroy(m, rc))
  }

  /** tr_comm_add_idp_realm (role RoleIdp) and tr_comm_add_rp_realm (role RoleRp). */
  function AddRealm(t: Table, rc: RefCounts, role: RealmRole, realm: Name, comm: Name,
                    prov: Option<seq<Name>>, expiry: Option<Timespec>): (r: Update)
    requires role != RoleUnknown
    ensures r.table.comms == t.comms
    ensures var c := Candidate(role, realm, comm, prov, expiry, rc).memb;
            var ex := FindOrigin(t, Sel(role), realm, comm, c.origin);
            |Members(r.table)| == |Members(t)| + (if ex.None? then 1 else 0)
  {
    var h := Candidate(role, realm, comm, prov, expiry, rc);
    var ex := FindOrigin(t, Sel(role), realm, comm, h.memb.origin);
    match ex
    case None => AddIfShorter(t, ex, h.memb, h.refs)
    case Some(loc) =>
      InMembers(t.chains, loc.0, loc.1);
      AddIfShorter(t, ex, h.memb, h.refs)
  }

  /** The table AddRealm builds: the candidate appended when its key and origin are new,
      replacing the existing membership when its provenance is strictly shorter, and the
      table unchanged otherwise. */
  lemma AddRealmTable(t: Table, rc: RefCounts, role: RealmRole, realm: Name, comm: Name,
                      prov: Option<seq<Name>>, expiry: Option<Timespec>)
    requires role != RoleUnknown
    ensures var c := Candidate(role, realm, comm, prov, expiry, rc).memb;
            var ex := FindOrigin(t, Sel(role), realm, comm, c.origin);
            var r := AddRealm(t, rc, role, realm, comm, prov, expiry).table;
            && (ex.None? ==> r == AddMemb(t, c))
            && (ex.Some? && ProvenanceLen(c) < ProvenanceLen(t.chains[ex.value.0][ex.value.1]) ==>
                  r == AddMemb(RemoveAt(t, ex.value.0, ex.value.1), c))
            && (ex.Some? && ProvenanceLen(c) >= ProvenanceLen(t.chains[ex.value.0][ex.value.1]) ==> r == t)
  {
  }

  /** After adding, the table is still valid and holds exactly one membership for the
      candidate's realm, community, role and origin: the candidate if there was none or the
      candidate's provenance is strictly shorter, otherwise the one that was there. */
  lemma AddRealmShortestWins(t: Table, rc: RefCounts, role: RealmRole, realm: Name, comm: Name,
                             prov: Option<seq<Name>>, expiry: Option<Timespec>)
    requires Valid(t) && role != RoleUnknown
    ensures var c := Candidate(role, realm, comm, prov, expiry, rc).memb;
            var ex := FindOrigin(t, Sel(role), realm, comm, c.origin);
            var r := AddRealm(t, rc, role, realm, comm, prov, expiry).table;
            var found := FindOrigin(r, Sel(role), realm, comm, c.origin);
            && Valid(r)
            && found.Some?
            && r.chains[found.value.0][found.value.1] ==
                 (if ex.None? || ProvenanceLen(c) < ProvenanceLen(t.chains[ex.value.0][ex.value.1])
                  then c else t.chains[ex.value.0][ex.value.1])
  {
    var c := Candidate(role, realm, comm, prov, expiry, rc).memb;
    var ex := FindOrigin(t, Sel(role), realm, comm, c.origin);
    AddRealmTable(t, rc, role, realm, comm, prov, expiry);
    if ex.None? {
      AddMembFindsNew(t, c);
    } else {
      var (i, j) := (ex.value.0, ex.value.1);
      if ProvenanceLen(c) < ProvenanceLen(t.chains[i][j]) {
        RemoveFoundIsGone(t, c);
        AddMembFindsNew(RemoveAt(t, i, j), c);
      }
    }
  }

  /** Adding a realm leaves every other membership findable, with the same value. */
  lemma AddRealmKeepsOthers(t: Table, rc: RefCounts, role: RealmRole, realm: Name, comm: Name,
                            prov: Option<seq<Name>>, expiry: Option<Timespec>, q: Memb)
    requires Valid(t) && role != RoleUnknown && Keyed(q)
    requires FindOrigin(t, Sel(Role(q)), RealmId(q).value, q.comm.value, q.origin).Some?
    requires var c := Candidate(role, realm, comm, prov, expiry, rc).memb;
             FindOrigin(t, Sel(Role(q)), RealmId(q).value, q.comm.value, q.origin)
               != FindOrigin(t, Sel(role), realm, comm, c.origin)
    ensures var loc := FindOrigin(t, Sel(Role(q)), RealmId(q).value, q.comm.value, q.origin).value;
            var r := AddRealm(t, rc, role, realm, comm, prov, expiry).table;
            var loc' := FindOrigin(r, Sel(Role(q)), RealmId(q).value, q.comm.value, q.origin);
            loc'.Some? && r.chains[loc'.value.0][loc'.value.1] == t.chains[loc.0][loc.1]
  {
    var c := Candidate(role, realm, comm, prov, expiry, rc).memb;
    var ex := FindOrigin(t, Sel(role), realm, comm, c.origin);
    var loc := FindOrigin(t, Sel(Role(q)), RealmId(q).value, q.comm.value, q.origin).value;
    AddRealmTable(t, rc, role, realm, comm, prov, expiry);
    if ex.None? {
      AddMembKeepsOthers(t, c, q);
    } else {
      var (i, j) := (ex.value.0, ex.value.1);
      if ProvenanceLen(c) < ProvenanceLen(t.chains[i][j]) {
        var t' := RemoveAt(t, i, j);
        RemoveFoundIsGone(t, c);
        RemoveKeepsOthers(t, i, j, q);
        AddMembKeepsOthers(t', c, q);
      }
    }
  }

  /** How many memberships of `s` hold a reference of kind `f` to `k`. */
  function Holders(s: seq<Memb>, f: RefKind, k: Name): nat
  {
    if |s| == 0 then 0 else Holds(RefOf(s[0], f), k) + Holders(s[1..], f, k)
  }

  lemma {:induction false} HoldersAppend(a: seq<Memb>, b: seq<Memb>, f: RefKind, k: Name)
    ensures Holders(a + b, f, k) == Holders(a, f, k) + Holders(b, f, k)
    decreases |a|
  {
    if |a| == 0 {
      assert a + b == b;
    } else {
      assert (a + b)[1..] == a[1..] + b;
      HoldersAppend(a[1..], b, f, k);
    }
  }

  lemma MultisetRemoveAt(b: seq<Memb>, p: nat)
    requires p < |b|
    ensures multiset(b[..p] + b[p + 1..]) == multiset(b) - multiset{b[p]}
  {
    assert b == b[..p] + [b[p]] + b[p + 1..];
  }

  lemma HoldersRemoveAt(b: seq<Memb>, p: nat, f: RefKind, k: Name)
    requires p < |b|
    ensures Holders(b, f, k) == Holds(RefOf(b[p], f), k) + Holders(b[..p] + b[p + 1..], f, k)
  {
    assert b == b[..p] + [b[p]] + b[p + 1..];
    HoldersAppend(b[..p] + [b[p]], b[p + 1..], f, k);
    HoldersAppend(b[..p], [b[p]], f, k);
    HoldersAppend(b[..p], b[p + 1..], f, k);
  }

  /** The holder count depends only on the multiset of memberships. */
  lemma {:induction false} HoldersPerm(a: seq<Memb>, b: seq<Memb>, f: RefKind, k: Name)
    requires multiset(a) == multiset(b)
    ensures Holders(a, f, k) == Holders(b, f, k)
    decreases |a|
  {
    if |a| == 0 {
      assert |multiset(b)| == |b|;
    } else {
      var x := a[0];
      assert x in multiset(b);
      var p := IndexOf(b, x);
      var b' := b[..p] + b[p + 1..];
      MultisetRemoveAt(b, p);
      assert a == [x] + a[1..];
      assert multiset(a[1..]) == multiset(b');
      HoldersPerm(a[1..], b', f, k);
      HoldersRemoveAt(b, p, f, k);
    }
  }

  /** How many memberships in the table hold a reference of kind `f` to `k`. */
  function TableHolders(t: Table, f: RefKind, k: Name): nat
  {
    Holders(Flat(t.chains), f, k)
  }

  lemma HoldersAdd(t: Table, r: Table, m: Memb, f: RefKind, k: Name)
    requires Members(r) == Members(t) + multiset{m}
    ensures TableHolders(r, f, k) == TableHolders(t, f, k) + Holds(RefOf(m, f), k)
  {
    HoldersPerm(Flat(r.chains), Flat(t.chains) + [m], f, k);
    HoldersAppend(Flat(t.chains), [m], f, k);
  }

  lemma HoldersRemove(t: Table, r: Table, m: Memb, f: RefKind, k: Name)
    requires Members(r) + multiset{m} == Members(t)
    ensures TableHolders(t, f, k) == TableHolders(r, f, k) + Holds(RefOf(m, f), k)
  {
    HoldersAdd(r, t, m, f, k);
  }

  /** AddIfShorter keeps the counts balanced when the candidate's own references are
      counted on top of the table's. */
  lemma AddIfShorterBalanced(t: Table, ex: Option<(nat, nat)>, m: Memb, rc: RefCounts, f: RefKind, k: Name)
    requires ex.Some? ==> ex.value.0 < |t.chains| && ex.value.1 < |t.chains[ex.value.0]|
    requires Role(m) != RoleUnknown ==> m.comm.Some?
    requires CountOf(rc, f, k) >= TableHolders(t, f, k) + Holds(RefOf(m, f), k)
    ensures var u := AddIfShorter(t, ex, m, rc);
            && CountOf(u.refs, f, k) >= TableHolders(u.table, f, k)
            && CountOf(u.refs, f, k) - TableHolders(u.table, f, k)
               == CountOf(rc, f, k) - TableHolders(t, f, k) - Holds(RefOf(m, f), k)
  {
    var u := AddIfShorter(t, ex, m, rc);
    if ex.None? {
      HoldersAdd(t, u.table, m, f, k);
    } else {
      var (i, j) := (ex.value.0, ex.value.1);
      var prev := t.chains[i][j];
      var t' := RemoveAt(t, i, j);
      HoldersRemove(t, t', prev, f, k);
      if ProvenanceLen(m) < ProvenanceLen(prev) {
        assert u == Update(AddMemb(t', m), Destroy(prev, rc));
        HoldersAdd(t', u.table, m, f, k);
      } else {
        assert u == Update(t, Destroy(m, rc));
      }
    }
  }

  /** Reference counting stays balanced: if every reference the table's memberships hold is
      counted, the add_*_realm functions change each count by exactly the change in the
      number of table memberships holding that reference, so a replaced or discarded
      membership's references are released and the kept one's are taken once. */
  lemma AddRealmBalanced(t: Table, rc: RefCounts, role: RealmRole, realm: Name, comm: Name,
                         prov: Option<seq<Name>>, expiry: Option<Timespec>, f: RefKind, k: Name)
    requires role != RoleUnknown
    requires CountOf(rc, f, k) >= TableHolders(t, f, k)
    ensures var u := AddRealm(t, rc, role, realm, comm, prov, expiry);
            && CountOf(u.refs, f, k) >= TableHolders(u.table, f, k)
            && CountOf(u.refs, f, k) - TableHolders(u.table, f, k) == CountOf(rc, f, k) - TableHolders(t, f, k)
  {
    var h := Candidate(role, realm, comm, prov, expiry, rc);
    var ex := FindOrigin(t, Sel(role), realm, comm, h.memb.origin);
    AddIfShorterBalanced(t, ex, h.memb, h.refs, f, k);
  }
}
