/** The community list of a community table (TR_COMM records linked through `next`),
    modelled as a sequence in list order. */
module CommList {
  import opened Base
  import opened CommMemb

  /** A community. Its reference count is kept in a RefCounts store under its id. */
  datatype Comm = Comm(
    id: Name,
    kind: CommType,
    ownerRealm: Option<Name>,
    ownerContact: Option<Name>,
    expirationInterval: nat)

  /** tr_comm_new: an empty community of unknown type. */
  function NewComm(id: Name): (c: Comm)
    ensures c.id == id && c.kind == CommUnknown && c.ownerRealm.None? && c.ownerContact.None?
  {
    Comm(id, CommUnknown, None, None, 0)
  }

  /** tr_comm_lookup / tr_comm_table_find_comm: the first community with the given id. */
  function Lookup(comms: seq<Comm>, id: Name): (r: Option<nat>)
    ensures r.Some? ==> r.value < |comms| && comms[r.value].id == id
    ensures r.Some? ==> forall k :: 0 <= k < r.value ==> comms[k].id != id
    ensures r.None? ==> forall k :: 0 <= k < |comms| ==> comms[k].id != id
  {
    if |comms| == 0 then None
    else if comms[0].id == id then Some(0)
    else
      match Lookup(comms[1..], id)
      case None => None
      case Some(k) => Some(k + 1)
  }

  /** tr_comm_add_func / tr_comm_table_add_comm: `news` (a community and whatever is
      linked after it) is appended at the tail. */
  function Add(comms: seq<Comm>, news: seq<Comm>): (r: seq<Comm>)
    ensures |r| == |comms| + |news|
    ensures r[..|comms|] == comms && r[|comms|..] == news
  {
    comms + news
  }

  /** Appending never hides an existing community from lookup, and makes an added one
      findable when no earlier community has its id. */
  lemma {:induction false} LookupAfterAdd(comms: seq<Comm>, news: seq<Comm>, id: Name)
    ensures Lookup(comms, id).Some? ==> Lookup(Add(comms, news), id) == Lookup(comms, id)
    ensures Lookup(comms, id).None? && Lookup(news, id).Some? ==>
              Lookup(Add(comms, news), id) == Some(|comms| + Lookup(news, id).value)
    ensures Lookup(comms, id).None? && Lookup(news, id).None? ==> Lookup(Add(comms, news), id).None?
  {
    var all := Add(comms, news);
    if |comms| > 0 {
      assert all[0] == comms[0];
      if comms[0].id != id {
        assert all[1..] == Add(comms[1..], news);
        LookupAfterAdd(comms[1..], news, id);
      }
    } else {
      assert all == news;
    }
  }

  /** tr_comm_table_size: counts the communities by walking the list. */
  method Size(comms: seq<Comm>) returns (count: nat)
    ensures count == |comms|
  {
    count := 0;
    var rest := comms;
    while rest != []
      invariant count + |rest| == |comms|
      decreases |rest|
    {
      rest := rest[1..];
      count := count + 1;
    }
  }

  /** tr_comm_remove_func as written. Removing the head returns an empty list, and after
      unlinking the tail the loop steps onto NULL and dereferences it. */
  function RemoveAsWritten(comms: seq<Comm>, remove: Comm): (r: Run<seq<Comm>>)
    ensures |comms| > 0 && comms[0] == remove ==> r == Returns([])
  {
    if |comms| == 0 || comms[0] == remove then Returns([])
    else RemoveWalk(comms, 0, remove)
  }

  /** The loop of tr_comm_remove_func with `this` at position `p`. */
  function RemoveWalk(l: seq<Comm>, p: nat, remove: Comm): Run<seq<Comm>>
    requires p < |l|
    decreases |l| - p
  {
    if p + 1 >= |l| then Returns(l)
    else
      var l' := if l[p + 1] == remove then l[..p + 1] + l[p + 2..] else l;
      if p + 1 >= |l'| then Faults
      else RemoveWalk(l', p + 1, remove)
  }

  /** Removing the head of a two-community list drops the other community too, and
      removing the tail faults. */
  lemma RemoveAsWrittenDefects(a: Comm, b: Comm)
    requires a != b
    ensures RemoveAsWritten([a, b], a) == Returns([])
    ensures RemoveAsWritten([a, b], b) == Faults
  {
    assert [a, b][..1] + [a, b][2..] == [a];
  }

  /** tr_comm_remove_func as intended: every occurrence of `remove` is unlinked and the
      other communities keep their order. */
  function Remove(comms: seq<Comm>, remove: Comm): (r: seq<Comm>)
    ensures forall c :: c in r <==> c in comms && c != remove
  {
    if |comms| == 0 then []
    else
      var rest := Remove(comms[1..], remove);
      assert comms == [comms[0]] + comms[1..];
      if comms[0] == remove then rest else [comms[0]] + rest
  }

  /** Removal drops every copy of `remove` and keeps every other community as often as it
      occurred. */
  lemma {:induction false} RemoveCounts(comms: seq<Comm>, remove: Comm)
    ensures multiset(Remove(comms, remove)) == multiset(comms)[remove := 0]
    ensures |Remove(comms, remove)| == |comms| - multiset(comms)[remove]
  {
    if |comms| > 0 {
      var rest := Remove(comms[1..], remove);
      RemoveCounts(comms[1..], remove);
      assert comms == [comms[0]] + comms[1..];
      if comms[0] != remove {
        assert Remove(comms, remove) == [comms[0]] + rest;
      }
    }
  }

  /** Removal keeps the order of the other communities: it works piecewise over a split of
      the list (and RemoveOne says what it does to one community). */
  lemma {:induction false} RemoveKeepsOrder(a: seq<Comm>, b: seq<Comm>, remove: Comm)
    ensures Remove(a + b, remove) == Remove(a, remove) + Remove(b, remove)
  {
    if |a| > 0 {
      var ab := a + b;
      assert ab[0] == a[0] && ab[1..] == a[1..] + b;
      RemoveKeepsOrder(a[1..], b, remove);
      var ra, rb := Remove(a[1..], remove), Remove(b, remove);
      if a[0] != remove {
        assert Remove(ab, remove) == [a[0]] + (ra + rb);
        assert Remove(a, remove) == [a[0]] + ra;
      }
    } else {
      assert a + b == b;
    }
  }

  /** A single community is kept exactly when it is not the removed one. */
  lemma RemoveOne(c: Comm, remove: Comm)
    ensures Remove([c], remove) == (if c == remove then [] else [c])
  {
    assert [c][1..] == [];
  }

  /** Lookup of any other id is unaffected by removing a community whose id differs. */
  lemma {:induction false} LookupAfterRemove(comms: seq<Comm>, remove: Comm, id: Name)
    requires remove.id != id
    ensures Lookup(Remove(comms, remove), id).Some? <==> Lookup(comms, id).Some?
    ensures Lookup(comms, id).Some? ==>
              Remove(comms, remove)[Lookup(Remove(comms, remove), id).value] == comms[Lookup(comms, id).value]
  {
    if |comms| > 0 {
      var c, tail := comms[0], comms[1..];
      var rest := Remove(tail, remove);
      LookupAfterRemove(tail, remove, id);
      if c.id == id {
        assert c != remove;
        var r := [c] + rest;
        assert Remove(comms, remove) == r;
        assert Lookup(r, id) == Some(0);
      } else {
        assert Lookup(comms, id).Some? <==> Lookup(tail, id).Some?;
        if c != remove {
          var r := [c] + rest;
          assert Remove(comms, remove) == r;
          assert r[1..] == rest;
          assert Lookup(r, id).Some? <==> Lookup(rest, id).Some?;
        } else {
          assert Remove(comms, remove) == rest;
        }
      }
    }
  }
}
