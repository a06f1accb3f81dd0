/** The iterators of common/tr_comm.c: a cursor over the main list of the membership table
    (communities of a realm, realms of a community), over the community list, and along
    one origin chain. Only main-list nodes are ever visited by the main-list iterators. */
module CommIter {
  import opened Base
  import opened CommMemb
  import opened CommList
  import opened CommTable

  /** What a main-list iterator looks for, and under which role restriction. */
  datatype Query =
    | CommsOf(realm: Name, sel: RoleSel)   // tr_comm_iter_first/next and the _rp/_idp variants
    | RealmsOf(comm: Name, sel: RoleSel)   // tr_realm_iter_*, tr_rp_realm_iter_*, tr_idp_realm_iter_*

  predicate RoleOk(m: Memb, sel: RoleSel)
  {
    match sel
    case AnyRole => true
    case RpOnly => m.rp.Some?
    case IdpOnly => m.idp.Some?
  }

  /** Does the main-list membership `m` answer the query? The community iterators compare
      the membership's realm id; the realm iterators compare its community's id. */
  predicate Hit(m: Memb, q: Query)
  {
    match q
    case CommsOf(realm, sel) => RoleOk(m, sel) && RealmId(m) == Some(realm)
    case RealmsOf(comm, sel) => RoleOk(m, sel) && m.comm == Some(comm)
  }

  /** What the iterator hands back for a hit: the community, or the RP realm, the IdP realm,
      or (tr_realm_iter) whichever realm is set. An absent value is the NULL that ends the
      caller's loop. */
  function Yield(m: Memb, q: Query): Option<Name>
  {
    match q
    case CommsOf(_, _) => m.comm
    case RealmsOf(_, sel) =>
      match sel
      case AnyRole => RealmId(m)
      case RpOnly => m.rp
      case IdpOnly => m.idp
  }

  predicate HitAt(chains: seq<seq<Memb>>, p: int, q: Query)
  {
    0 <= p < |chains| && |chains[p]| > 0 && Hit(chains[p][0], q)
  }

  /** The cursor walk shared by every first/next pair: the first main-list position at or
      after `from` that answers the query. */
  function ScanFrom(chains: seq<seq<Memb>>, q: Query, from: nat): (r: Option<nat>)
    requires from <= |chains|
    ensures r.Some? ==> from <= r.value && HitAt(chains, r.value, q)
    ensures r.Some? ==> forall p :: from <= p < r.value ==> !HitAt(chains, p, q)
    ensures r.None? ==> forall p :: from <= p < |chains| ==> !HitAt(chains, p, q)
    decreases |chains| - from
  {
    if from == |chains| then None
    else if |chains[from]| > 0 && Hit(chains[from][0], q) then Some(from)
    else ScanFrom(chains, q, from + 1)
  }

  /** The iterator state after a call: the current main-list position (NULL at the end) and
      the value returned. */
  datatype Step = Step(cursor: Option<nat>, item: Option<Name>)

  function StepAt(chains: seq<seq<Memb>>, q: Query, pos: Option<nat>): Step
    requires pos.Some? ==> HitAt(chains, pos.value, q)
  {
    match pos
    case None => Step(None, None)
    case Some(p) => Step(pos, Yield(chains[p][0], q))
  }

  /** The *_iter_first functions. */
  function IterFirst(t: Table, q: Query): (r: Step)
    ensures r.cursor.Some? ==> HitAt(t.chains, r.cursor.value, q) && r.item == Yield(t.chains[r.cursor.value][0], q)
    ensures r.cursor.Some? ==> forall p :: 0 <= p < r.cursor.value ==> !HitAt(t.chains, p, q)
    ensures r.cursor.None? <==> forall p :: 0 <= p < |t.chains| ==> !HitAt(t.chains, p, q)
    ensures r.cursor.None? ==> r.item.None?
  {
    StepAt(t.chains, q, ScanFrom(t.chains, q, 0))
  }

  /** The *_iter_next functions. They start from the current node's successor, so the caller
      must not call them once the cursor is NULL (the source would dereference it). */
  function IterNext(t: Table, q: Query, cur: nat): (r: Step)
    requires cur < |t.chains|
    ensures r.cursor.Some? ==> cur < r.cursor.value && HitAt(t.chains, r.cursor.value, q)
    ensures r.cursor.Some? ==> r.item == Yield(t.chains[r.cursor.value][0], q)
    ensures r.cursor.Some? ==> forall p :: cur < p < r.cursor.value ==> !HitAt(t.chains, p, q)
    ensures r.cursor.None? <==> forall p :: cur < p < |t.chains| ==> !HitAt(t.chains, p, q)
    ensures r.cursor.None? ==> r.item.None?
  {
    StepAt(t.chains, q, ScanFrom(t.chains, q, cur + 1))
  }

  /** The reference: the values of the main-list hits at or after `from`, in main-list order. */
  function Yields(chains: seq<seq<Memb>>, q: Query, from: nat): seq<Option<Name>>
    decreases |chains| - from
  {
    if from >= |chains| then []
    else if |chains[from]| > 0 && Hit(chains[from][0], q) then [Yield(chains[from][0], q)] + Yields(chains, q, from + 1)
    else Yields(chains, q, from + 1)
  }

  /** The values a caller's `for (x = first; x != NULL; x = next)` loop sees: everything up
      to the first NULL. */
  function TakeWhileSome(s: seq<Option<Name>>): (r: seq<Name>)
    ensures |r| <= |s|
    ensures forall k :: 0 <= k < |r| ==> s[k] == Some(r[k])
    ensures |r| < |s| ==> s[|r|].None?
  {
    if |s| == 0 || s[0].None? then [] else [s[0].value] + TakeWhileSome(s[1..])
  }

  /** The cursor walk and the reference agree: the values from `from` on are the value at the
      next hit followed by the values after it. */
  lemma {:induction false} YieldsFromScan(chains: seq<seq<Memb>>, q: Query, from: nat)
    requires from <= |chains|
    ensures var s := ScanFrom(chains, q, from);
            Yields(chains, q, from) ==
              (if s.None? then [] else [Yield(chains[s.value][0], q)] + Yields(chains, q, s.value + 1))
    decreases |chains| - from
  {
    if from == |chains| {
    } else if |chains[from]| > 0 && Hit(chains[from][0], q) {
      assert ScanFrom(chains, q, from) == Some(from);
    } else {
      assert ScanFrom(chains, q, from) == ScanFrom(chains, q, from + 1);
      assert Yields(chains, q, from) == Yields(chains, q, from + 1);
      YieldsFromScan(chains, q, from + 1);
    }
  }

  /** The values still to come after a step, per the reference. */
  function Pending(t: Table, q: Query, s: Step): seq<Option<Name>>
  {
    if s.cursor.None? then [] else [s.item] + Yields(t.chains, q, s.cursor.value + 1)
  }

  lemma FirstPending(t: Table, q: Query)
    ensures Pending(t, q, IterFirst(t, q)) == Yields(t.chains, q, 0)
  {
    YieldsFromScan(t.chains, q, 0);
  }

  lemma NextPending(t: Table, q: Query, s: Step)
    requires s.cursor.Some? && s.cursor.value < |t.chains| && s.item.Some?
    ensures TakeWhileSome(Pending(t, q, s)) == [s.item.value] + TakeWhileSome(Pending(t, q, IterNext(t, q, s.cursor.value)))
  {
    var rest := Yields(t.chains, q, s.cursor.value + 1);
    NextIsRest(t, q, s.cursor.value);
    TakeWhileSomeCons(s.item.value, rest);
  }

  /** After the cursor at `cur`, what is still to come is the reference from `cur + 1` on. */
  lemma NextIsRest(t: Table, q: Query, cur: nat)
    requires cur < |t.chains|
    ensures Pending(t, q, IterNext(t, q, cur)) == Yields(t.chains, q, cur + 1)
  {
    YieldsFromScan(t.chains, q, cur + 1);
  }

  lemma TakeWhileSomeCons(x: Name, rest: seq<Option<Name>>)
    ensures TakeWhileSome([Some(x)] + rest) == [x] + TakeWhileSome(rest)
  {
    var all := [Some(x)] + rest;
    assert all[1..] == rest;
  }

  /** A caller's loop over first/next: it collects exactly the values of the main-list hits,
      in main-list order, up to the first NULL. */
  method Collect(t: Table, q: Query) returns (items: seq<Name>)
    ensures items == TakeWhileSome(Yields(t.chains, q, 0))
  {
    items := [];
    var step := IterFirst(t, q);
    FirstPending(t, q);
    while step.item.Some?
      invariant step.cursor.None? ==> step.item.None?
      invariant step.cursor.Some? ==> step.cursor.value < |t.chains|
      invariant TakeWhileSome(Yields(t.chains, q, 0)) == items + TakeWhileSome(Pending(t, q, step))
      decreases if step.cursor.None? then 0 else |t.chains| - step.cursor.value
    {
      CollectStep(t, q, step, items);
      items := items + [step.item.value];
      step := IterNext(t, q, step.cursor.value);
    }
    DonePending(t, q, step);
  }

  /** One turn of the caller's loop moves the current value from the pending ones to the
      collected ones. */
  lemma CollectStep(t: Table, q: Query, s: Step, items: seq<Name>)
    requires s.cursor.Some? && s.cursor.value < |t.chains| && s.item.Some?
    ensures items + TakeWhileSome(Pending(t, q, s)) ==
              (items + [s.item.value]) + TakeWhileSome(Pending(t, q, IterNext(t, q, s.cursor.value)))
  {
    NextPending(t, q, s);
    var later := TakeWhileSome(Pending(t, q, IterNext(t, q, s.cursor.value)));
    assert items + ([s.item.value] + later) == (items + [s.item.value]) + later;
  }

  /** Once the iterator returns NULL, the caller's loop sees nothing more. */
  lemma DonePending(t: Table, q: Query, s: Step)
    requires s.item.None?
    ensures TakeWhileSome(Pending(t, q, s)) == []
  {
    if s.cursor.Some? {
      assert Pending(t, q, s)[0].None?;
    }
  }

  /** Every value in the reference comes from a main-list hit at or after `from`. */
  lemma {:induction false} YieldsFromHits(chains: seq<seq<Memb>>, q: Query, from: nat, x: Option<Name>)
    requires x in Yields(chains, q, from)
    ensures exists p :: from <= p < |chains| && HitAt(chains, p, q) && Yield(chains[p][0], q) == x
    decreases |chains| - from
  {
    if from < |chains| {
      if |chains[from]| > 0 && Hit(chains[from][0], q) && Yield(chains[from][0], q) == x {
      } else {
        YieldsFromHits(chains, q, from + 1, x);
      }
    }
  }

  predicate NoDup(s: seq<Option<Name>>)
  {
    forall a, b :: 0 <= a < b < |s| ==> s[a] != s[b]
  }

  /** In a valid table the role-restricted iterators never yield a value twice: the main
      list holds one node per (realm, community, role). */
  lemma {:induction false} RoleIterDistinct(t: Table, q: Query, from: nat)
    requires Valid(t) && q.sel != AnyRole
    ensures NoDup(Yields(t.chains, q, from))
    decreases |t.chains| - from
  {
    if from < |t.chains| {
      RoleIterDistinct(t, q, from + 1);
      var rest := Yields(t.chains, q, from + 1);
      if |t.chains[from]| > 0 && Hit(t.chains[from][0], q) {
        var y := Yield(t.chains[from][0], q);
        if y in rest {
          YieldsFromHits(t.chains, q, from + 1, y);
          assert false;
        }
        var s := [y] + rest;
        assert Yields(t.chains, q, from) == s;
        forall a, b | 0 <= a < b < |s|
          ensures s[a] != s[b]
        {
          assert s[b] == rest[b - 1];
          if a == 0 {
            assert s[a] == y;
          } else {
            assert s[a] == rest[a - 1];
          }
        }
      } else {
        assert Yields(t.chains, q, from) == rest;
      }
    }
  }

  /** For the role-restricted realm iterators no value is NULL, so the caller's loop sees
      every hit; tr_comm_find_idp / _rp therefore succeed exactly when some main-list node
      of that role links the realm to the community. */
  lemma RoleIterSeesAll(chains: seq<seq<Memb>>, comm: Name, realm: Name, sel: RoleSel, from: nat)
    requires sel != AnyRole
    ensures realm in TakeWhileSome(Yields(chains, RealmsOf(comm, sel), from)) <==>
            exists p :: from <= p < |chains| && HitAt(chains, p, RealmsOf(comm, sel)) &&
                        Yield(chains[p][0], RealmsOf(comm, sel)) == Some(realm)
  {
    SeesAllHits(chains, RealmsOf(comm, sel), realm, from);
  }

  /** When every hit yields a value, the caller's loop sees the value of each hit. */
  lemma SeesAllHits(chains: seq<seq<Memb>>, q: Query, x: Name, from: nat)
    requires forall p :: from <= p < |chains| && HitAt(chains, p, q) ==> Yield(chains[p][0], q).Some?
    ensures x in TakeWhileSome(Yields(chains, q, from)) <==>
            exists p :: from <= p < |chains| && HitAt(chains, p, q) && Yield(chains[p][0], q) == Some(x)
  {
    if x in TakeWhileSome(Yields(chains, q, from)) {
      var p := SeenIsHit(chains, q, x, from);
    }
    if p :| from <= p < |chains| && HitAt(chains, p, q) && Yield(chains[p][0], q) == Some(x) {
      HitIsSeen(chains, q, from, p);
    }
  }

  /** Every value the loop sees comes from a hit at or after the start. */
  lemma {:induction false} SeenIsHit(chains: seq<seq<Memb>>, q: Query, x: Name, from: nat) returns (p: nat)
    requires x in TakeWhileSome(Yields(chains, q, from))
    ensures from <= p < |chains| && HitAt(chains, p, q) && Yield(chains[p][0], q) == Some(x)
    decreases |chains| - from
  {
    if from >= |chains| {
      assert false;
    } else if HitAt(chains, from, q) && Yield(chains[from][0], q) == Some(x) {
      p := from;
    } else {
      if HitAt(chains, from, q) {
        var y := Yield(chains[from][0], q);
        assert Yields(chains, q, from) == [y] + Yields(chains, q, from + 1);
        if y.Some? {
          TakeWhileSomeCons(y.value, Yields(chains, q, from + 1));
        } else {
          assert false;
        }
      } else {
        assert Yields(chains, q, from) == Yields(chains, q, from + 1);
      }
      p := SeenIsHit(chains, q, x, from + 1);
    }
  }

  /** When no hit from the start on yields NULL, the loop sees the value of each of them. */
  lemma {:induction false} HitIsSeen(chains: seq<seq<Memb>>, q: Query, from: nat, p: nat)
    requires forall k :: from <= k < |chains| && HitAt(chains, k, q) ==> Yield(chains[k][0], q).Some?
    requires from <= p < |chains| && HitAt(chains, p, q)
    ensures Yield(chains[p][0], q).value in TakeWhileSome(Yields(chains, q, from))
    decreases |chains| - from
  {
    if p == from {
      SeenAtHit(chains, q, from);
    } else {
      HitIsSeen(chains, q, from + 1, p);
      SeenKept(chains, q, from, Yield(chains[p][0], q).value);
    }
  }

  /** A value seen from the next position on is seen from here, unless this position is a
      hit yielding NULL. */
  lemma SeenKept(chains: seq<seq<Memb>>, q: Query, from: nat, x: Name)
    requires from < |chains| && (HitAt(chains, from, q) ==> Yield(chains[from][0], q).Some?)
    requires x in TakeWhileSome(Yields(chains, q, from + 1))
    ensures x in TakeWhileSome(Yields(chains, q, from))
  {
    if HitAt(chains, from, q) {
      SeenAtHit(chains, q, from);
    } else {
      assert Yields(chains, q, from) == Yields(chains, q, from + 1);
    }
  }

  /** At a hit that yields a value, the loop sees that value and then whatever it sees from
      the next position on. */
  lemma SeenAtHit(chains: seq<seq<Memb>>, q: Query, from: nat)
    requires HitAt(chains, from, q) && Yield(chains[from][0], q).Some?
    ensures TakeWhileSome(Yields(chains, q, from)) ==
              [Yield(chains[from][0], q).value] + TakeWhileSome(Yields(chains, q, from + 1))
  {
    var y := Yield(chains[from][0], q);
    var rest := Yields(chains, q, from + 1);
    assert Yields(chains, q, from) == [Some(y.value)] + rest;
    TakeWhileSomeCons(y.value, rest);
  }

  /** tr_comm_find_idp (sel IdpOnly) and tr_comm_find_rp (sel RpOnly): walk the realms of
      the community and return the one whose id equals `realm`. */
  function FindRealmInComm(t: Table, comm: Name, realm: Name, sel: RoleSel): (r: Option<Name>)
    requires sel != AnyRole
    ensures r.Some? ==> r.value == realm
    ensures r.Some? <==> exists p :: 0 <= p < |t.chains| && HitAt(t.chains, p, RealmsOf(comm, sel)) &&
                                     Yield(t.chains[p][0], RealmsOf(comm, sel)) == Some(realm)
  {
    RoleIterSeesAll(t.chains, comm, realm, sel, 0);
    if realm in TakeWhileSome(Yields(t.chains, RealmsOf(comm, sel), 0)) then Some(realm) else None
  }

  /** tr_comm_table_iter_first / _next: the community list in order. */
  method CollectComms(t: Table) returns (items: seq<Comm>)
    ensures items == t.comms
    ensures forall k :: 0 <= k < |items| ==> Lookup(t.comms, items[k].id).Some?
    ensures forall id :: Lookup(t.comms, id).Some? ==> items[Lookup(t.comms, id).value].id == id
  {
    items := [];
    var i := 0;
    while i < |t.comms|
      invariant 0 <= i <= |t.comms|
      invariant items == t.comms[..i]
    {
      items := items + [t.comms[i]];
      i := i + 1;
    }
  }

  /** tr_comm_memb_iter_first / _next from the main-list node of chain i: the node and then
      its origin chain, in order. */
  method CollectChain(t: Table, i: nat) returns (items: seq<Memb>)
    requires i < |t.chains|
    ensures items == t.chains[i]
    ensures multiset(items) <= Members(t)
  {
    items := [];
    var j := 0;
    while j < |t.chains[i]|
      invariant 0 <= j <= |t.chains[i]|
      invariant items == t.chains[i][..j]
    {
      items := items + [t.chains[i][j]];
      j := j + 1;
    }
    assert t.chains[i][..j] == t.chains[i];
    FlatSplit(t.chains, i);
  }
}
