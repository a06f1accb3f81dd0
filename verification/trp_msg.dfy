/** TRP messages (trp/trp_msg.c) from the decoded JSON tree onward: the message-type and
    info-type tables, route records, the update-body parser and the message parser. */
module TrpMsg {
  import opened Base
  import opened Json

  datatype MsgType = MsgUnknown | Update | RouteReq
  datatype InfoType = InfoUnknown | InfoRoute | InfoCommunity

  /** TRP_RC: the result codes the parsers use. */
  datatype TrpRc = Success | Error | NoMem | BadType | NoParse | Unsupported

  /** trp_msg_type_table without its NULL sentinel, in table order. */
  const MsgTypeTable: seq<(string, MsgType)> := [("update", Update), ("route_req", RouteReq)]

  /** trp_msg_info_type_table without its NULL sentinel, in table order. */
  const InfoTypeTable: seq<(string, InfoType)> := [("route_info", InfoRoute), ("comm_info", InfoCommunity)]

  /** TRP_METRIC_INFINITY. The header defining it is not part of this model; the value is
      the one the trust router documents for an unreachable route. */
  const MetricInfinity: int := 0xFFFF

  /** The walk of *_from_string: the code of the first entry whose name is `s`, or the
      sentinel's code. */
  function CodeOf<T>(table: seq<(string, T)>, s: string, unknown: T): (r: T)
    ensures (exists k :: 0 <= k < |table| && table[k].0 == s) ==>
              exists k :: 0 <= k < |table| && table[k] == (s, r)
    ensures (forall k :: 0 <= k < |table| ==> table[k].0 != s) ==> r == unknown
  {
    if |table| == 0 then unknown
    else if table[0].0 == s then table[0].1
    else CodeOf(table[1..], s, unknown)
  }

  /** The walk of *_to_string: the name of the first entry with code `t`, or the sentinel's
      NULL name. */
  function NameOf<T(==)>(table: seq<(string, T)>, t: T): (r: Option<string>)
    ensures r.Some? ==> exists k :: 0 <= k < |table| && table[k] == (r.value, t)
    ensures r.None? ==> forall k :: 0 <= k < |table| ==> table[k].1 != t
  {
    if |table| == 0 then None
    else if table[0].1 == t then Some(table[0].0)
    else NameOf(table[1..], t)
  }

  /** trp_msg_type_from_string */
  function MsgTypeFromString(s: string): (r: MsgType)
    ensures r == Update <==> s == "update"
    ensures r == RouteReq <==> s == "route_req"
  {
    CodeOf(MsgTypeTable, s, MsgUnknown)
  }

  /** trp_msg_type_to_string: NULL for the unknown code. */
  function MsgTypeToString(t: MsgType): (r: Option<string>)
    ensures r.None? <==> t == MsgUnknown
  {
    var r := NameOf(MsgTypeTable, t);
    assert r.Some? ==> MsgTypeTable[0].1 == t || MsgTypeTable[1].1 == t;
    assert t != MsgUnknown ==> MsgTypeTable[0].1 == t || MsgTypeTable[1].1 == t;
    r
  }

  /** trp_msg_info_type_from_string */
  function InfoTypeFromString(s: string): (r: InfoType)
    ensures r == InfoRoute <==> s == "route_info"
    ensures r == InfoCommunity <==> s == "comm_info"
  {
    CodeOf(InfoTypeTable, s, InfoUnknown)
  }

  /** trp_msg_info_type_to_string: NULL for the unknown code. */
  function InfoTypeToString(t: InfoType): (r: Option<string>)
    ensures r.None? <==> t == InfoUnknown
  {
    var r := NameOf(InfoTypeTable, t);
    assert r.Some? ==> InfoTypeTable[0].1 == t || InfoTypeTable[1].1 == t;
    assert t != InfoUnknown ==> InfoTypeTable[0].1 == t || InfoTypeTable[1].1 == t;
    r
  }

  /** Every known code survives a trip through its name, and every known name a trip
      through its code. */
  lemma MsgTypeRoundTrip(t: MsgType, s: string)
    ensures t != MsgUnknown ==> MsgTypeFromString(MsgTypeToString(t).value) == t
    ensures MsgTypeFromString(s) != MsgUnknown ==> MsgTypeToString(MsgTypeFromString(s)) == Some(s)
  {
  }

  lemma InfoTypeRoundTrip(t: InfoType, s: string)
    ensures t != InfoUnknown ==> InfoTypeFromString(InfoTypeToString(t).value) == t
    ensures InfoTypeFromString(s) != InfoUnknown ==> InfoTypeToString(InfoTypeFromString(s)) == Some(s)
  {
  }

  /** A route record (TRP_MSG_INFO_ROUTE). The integer fields hold C `int` values. */
  datatype RouteRec = RouteRec(
    infoType: InfoType,
    community: Option<Name>,
    realm: Option<Name>,
    trustRouter: Option<Name>,
    metric: int,
    interval: int)

  /** trp_msg_info_route_new */
  function NewRouteRec(): (r: RouteRec)
    ensures r.metric == MetricInfinity && r.interval == 0
    ensures r.infoType == InfoUnknown && r.community.None? && r.realm.None? && r.trustRouter.None?
  {
    RouteRec(InfoUnknown, None, None, None, MetricInfinity, 0)
  }

  const Two32: int := 0x1_0000_0000
  const Two31: int := 0x8000_0000

  /** Storing a JSON integer (json_int_t) in a C `int`: reduction modulo 2^32 into the
      signed 32-bit range. */
  function ToInt32(x: int): (r: int)
    ensures -Two31 <= r < Two31
    ensures (x - r) % Two32 == 0
    ensures -Two31 <= x < Two31 ==> r == x
  {
    (x + Two31) % Two32 - Two31
  }

  /** The outcome of reading one attribute. */
  datatype Got<T> = Got(value: T) | Failed(rc: TrpRc)

  /** trp_get_json_string: NOPARSE when absent, BADTYPE when not a string. */
  function GetString(j: Json, attr: string): (r: Got<string>)
    ensures r.Failed? ==> r.rc == NoParse || r.rc == BadType
    ensures r.Failed? && r.rc == NoParse <==> Get(j, attr).None?
    ensures r.Got? <==> Get(j, attr).Some? && Get(j, attr).value.JString?
    ensures r.Got? ==> Get(j, attr).value.s == r.value
  {
    match Get(j, attr)
    case None => Failed(NoParse)
    case Some(v) => if v.JString? then Got(v.s) else Failed(BadType)
  }

  /** trp_get_json_integer: NOPARSE when absent, BADTYPE when not an integer. */
  function GetInteger(j: Json, attr: string): (r: Got<int>)
    ensures r.Failed? ==> r.rc == NoParse || r.rc == BadType
    ensures r.Failed? && r.rc == NoParse <==> Get(j, attr).None?
    ensures r.Got? <==> Get(j, attr).Some? && Get(j, attr).value.JInt?
    ensures r.Got? ==> r.value == ToInt32(Get(j, attr).value.i)
  {
    match Get(j, attr)
    case None => Failed(NoParse)
    case Some(v) => if v.JInt? then Got(ToInt32(v.i)) else Failed(BadType)
  }

  /** The string value of an attribute, if it is present and a string. */
  function TextOf(j: Json, attr: string): Option<string>
  {
    match Get(j, attr)
    case Some(JString(s)) => Some(s)
    case _ => None
  }

  /** The integer value of an attribute, if it is present and an integer. */
  function IntOf(j: Json, attr: string): Option<int>
  {
    match Get(j, attr)
    case Some(JInt(i)) => Some(i)
    case _ => None
  }

  /** The elements of an attribute, if it is present and an array. */
  function ArrayOf(j: Json, attr: string): Option<seq<Json>>
  {
    match Get(j, attr)
    case Some(JArray(elems)) => Some(elems)
    case _ => None
  }

  /** The required attributes of a route record after `record_type`, in the order they are
      checked, with the JSON type each must have. */
  datatype Kind = Text | Integer

  const RecordFields: seq<(string, Kind)> :=
    [("community", Text), ("realm", Text), ("trust_router", Text), ("metric", Integer), ("interval", Integer)]

  /** What reading one attribute of the given kind reports. */
  function FieldStatus(j: Json, f: (string, Kind)): TrpRc
  {
    match Get(j, f.0)
    case None => NoParse
    case Some(v) => if (f.1 == Text && v.JString?) || (f.1 == Integer && v.JInt?) then Success else BadType
  }

  /** The attribute check of trp_parse_update_record on message `j`. */
  function Status(j: Json): ((string, Kind)) -> TrpRc
  {
    f => FieldStatus(j, f)
  }

  /** The status of the first attribute in `fields` that fails `st`, or SUCCESS. */
  function FirstFailure(st: ((string, Kind)) -> TrpRc, fields: seq<(string, Kind)>): (r: TrpRc)
    ensures r == Success <==> forall k :: 0 <= k < |fields| ==> st(fields[k]) == Success
  {
    if |fields| == 0 then Success
    else if st(fields[0]) != Success then st(fields[0])
    else
      var r := FirstFailure(st, fields[1..]);
      assert forall k :: 1 <= k < |fields| ==> fields[k] == fields[1..][k - 1];
      r
  }

  /** A failure code is the code of a field all of whose predecessors passed. */
  lemma {:induction false} FirstFailureIsFirst(st: ((string, Kind)) -> TrpRc, fields: seq<(string, Kind)>)
    ensures FirstFailure(st, fields) != Success ==>
              exists k :: 0 <= k < |fields| && st(fields[k]) == FirstFailure(st, fields) &&
                          forall p :: 0 <= p < k ==> st(fields[p]) == Success
  {
    if |fields| > 0 && FirstFailure(st, fields) != Success && st(fields[0]) == Success {
      var rest := fields[1..];
      FirstFailureIsFirst(st, rest);
      var k :| 0 <= k < |rest| && st(rest[k]) == FirstFailure(st, rest) &&
               forall p :: 0 <= p < k ==> st(rest[p]) == Success;
      assert forall p :: 1 <= p <= k + 1 ==> fields[p] == rest[p - 1];
    }
  }

  /** The reference for a record: the code trp_parse_update_record must report, derived from
      the record_type rule and the ordered field list. */
  function ExpectedRecordRc(j: Json): TrpRc
  {
    match GetString(j, "record_type")
    case Failed(rc) => rc
    case Got(s) => if InfoTypeFromString(s) != InfoRoute then Unsupported else FirstFailure(Status(j), RecordFields)
  }

  datatype RecResult = RecResult(rc: TrpRc, rec: RouteRec)

  /** A failed record parse: the names are released, the rest of the record is kept. */
  function Cleared(rc: TrpRc, rec: RouteRec): (r: RecResult)
    ensures r.rc == rc && r.rec.community.None? && r.rec.realm.None? && r.rec.trustRouter.None?
    ensures r.rec.infoType == rec.infoType && r.rec.metric == rec.metric && r.rec.interval == rec.interval
  {
    RecResult(rc, rec.(community := None, realm := None, trustRouter := None))
  }

  /** Stores the value just read for field `f` into the record field of that name. */
  function Store(rec: RouteRec, j: Json, f: (string, Kind)): RouteRec
  {
    if f.0 == "community" then rec.(community := TextOf(j, f.0))
    else if f.0 == "realm" then rec.(realm := TextOf(j, f.0))
    else if f.0 == "trust_router" then rec.(trustRouter := TextOf(j, f.0))
    else if f.0 == "metric" && IntOf(j, f.0).Some? then rec.(metric := ToInt32(IntOf(j, f.0).value))
    else if f.0 == "interval" && IntOf(j, f.0).Some? then rec.(interval := ToInt32(IntOf(j, f.0).value))
    else rec
  }

  /** The record holds the (wrapped) value of field `f` of `j`. */
  predicate Stored(rec: RouteRec, j: Json, f: (string, Kind))
  {
    if f.0 == "community" then rec.community.Some? && rec.community == TextOf(j, f.0)
    else if f.0 == "realm" then rec.realm.Some? && rec.realm == TextOf(j, f.0)
    else if f.0 == "trust_router" then rec.trustRouter.Some? && rec.trustRouter == TextOf(j, f.0)
    else if f.0 == "metric" then IntOf(j, f.0).Some? && rec.metric == ToInt32(IntOf(j, f.0).value)
    else if f.0 == "interval" then IntOf(j, f.0).Some? && rec.interval == ToInt32(IntOf(j, f.0).value)
    else false
  }

  /** Storing one field leaves what is stored for a differently named field alone. */
  lemma StoreKeeps(rec: RouteRec, j: Json, f: (string, Kind), g: (string, Kind))
    requires f.0 != g.0 && Stored(rec, j, g)
    ensures Stored(Store(rec, j, f), j, g)
  {
  }

  predicate DistinctNames(fields: seq<(string, Kind)>)
  {
    forall k1, k2 :: 0 <= k1 < k2 < |fields| ==> fields[k1].0 != fields[k2].0
  }

  /** Reads and stores the fields in order; the first one that is absent or of the wrong
      type ends the parse with its code and the names cleared. */
  function ReadFields(rec: RouteRec, j: Json, fields: seq<(string, Kind)>): (r: RecResult)
    requires DistinctNames(fields)
    requires forall k :: 0 <= k < |fields| ==> fields[k] in RecordFields
    ensures r.rc == FirstFailure(Status(j), fields)
    ensures r.rc != Success ==> r.rec.community.None? && r.rec.realm.None? && r.rec.trustRouter.None?
    ensures r.rec.infoType == rec.infoType
    ensures r.rc == Success ==> forall k :: 0 <= k < |fields| ==> Stored(r.rec, j, fields[k])
    decreases |fields|, 0
  {
    if |fields| == 0 then RecResult(Success, rec)
    else if FieldStatus(j, fields[0]) != Success then Cleared(FieldStatus(j, fields[0]), rec)
    else
      var rec' := Store(rec, j, fields[0]);
      assert Stored(rec', j, fields[0]);
      assert forall k :: 1 <= k < |fields| ==> fields[k] == fields[1..][k - 1];
      var r := ReadFields(rec', j, fields[1..]);
      if r.rc == Success then
        assert Stored(r.rec, j, fields[0]) by {
          ReadFieldsKeeps(rec', j, fields[1..], fields[0]);
        }
        r
      else r
  }

  /** A successful read of `fields` keeps what was stored for a field not among them. */
  lemma {:induction false} ReadFieldsKeeps(rec: RouteRec, j: Json, fields: seq<(string, Kind)>, g: (string, Kind))
    requires DistinctNames(fields)
    requires forall k :: 0 <= k < |fields| ==> fields[k] in RecordFields
    requires forall k :: 0 <= k < |fields| ==> fields[k].0 != g.0
    requires Stored(rec, j, g)
    ensures ReadFields(rec, j, fields).rc == Success ==> Stored(ReadFields(rec, j, fields).rec, j, g)
    decreases |fields|, 1
  {
    if |fields| > 0 && FieldStatus(j, fields[0]) == Success {
      StoreKeeps(rec, j, fields[0], g);
      assert forall k :: 1 <= k < |fields| ==> fields[k] == fields[1..][k - 1];
      ReadFieldsKeeps(Store(rec, j, fields[0]), j, fields[1..], g);
    }
  }

  /** trp_parse_update_record. `record_type` must be the string "route_info" (any other
      string, "comm_info" included, is UNSUPPORTED); then community, realm and trust_router
      must be strings and metric and interval integers, checked in that order. Each field is
      stored as soon as it is read; on failure the three names are cleared. */
  function ParseRecord(rec: RouteRec, j: Json): (r: RecResult)
    ensures r.rc == ExpectedRecordRc(j)
    ensures r.rc != Success ==> r.rec.community.None? && r.rec.realm.None? && r.rec.trustRouter.None?
    ensures r.rc == Success ==> r.rec.infoType == InfoRoute
    ensures r.rc == Success ==> forall k :: 0 <= k < |RecordFields| ==> Stored(r.rec, j, RecordFields[k])
  {
    match GetString(j, "record_type")
    case Failed(rc) => Cleared(rc, rec)
    case Got(t) =>
      var rec := rec.(infoType := InfoTypeFromString(t));
      if rec.infoType != InfoRoute then Cleared(Unsupported, rec)
      else ReadFields(rec, j, RecordFields)
  }

  /** What a successful parse stores, field by field. */
  lemma ParsedRecordFields(rec: RouteRec, j: Json)
    requires ParseRecord(rec, j).rc == Success
    ensures var r := ParseRecord(rec, j).rec;
            && r.infoType == InfoRoute
            && r.community.Some? && r.community == TextOf(j, "community")
            && r.realm.Some? && r.realm == TextOf(j, "realm")
            && r.trustRouter.Some? && r.trustRouter == TextOf(j, "trust_router")
            && IntOf(j, "metric").Some? && r.metric == ToInt32(IntOf(j, "metric").value)
            && IntOf(j, "interval").Some? && r.interval == ToInt32(IntOf(j, "interval").value)
  {
    var r := ParseRecord(rec, j).rec;
    assert Stored(r, j, RecordFields[0]) && Stored(r, j, RecordFields[1]) && Stored(r, j, RecordFields[2]);
    assert Stored(r, j, RecordFields[3]) && Stored(r, j, RecordFields[4]);
  }

  /** Does the record parse? */
  predicate RecordOk(j: Json)
  {
    ParseFresh(j).rc == Success
  }

  /** One element of the records array parsed into a newly allocated record. */
  function ParseFresh(j: Json): RecResult
  {
    ParseRecord(NewRouteRec(), j)
  }

  /** A well-formed route record in the terms of the message format: a route_info record
      with three string names and two integers. */
  predicate WellFormedRecord(j: Json)
  {
    && GetString(j, "record_type") == Got("route_info")
    && (forall k :: 0 <= k < |RecordFields| ==> FieldStatus(j, RecordFields[k]) == Success)
  }

  lemma RecordOkIsWellFormed(j: Json)
    ensures RecordOk(j) <==> WellFormedRecord(j)
  {
  }

  /** The reference for the records loop: the whole batch parsed by `parse`, or None as
      soon as one record fails. */
  function ParseAll(parse: Json -> RecResult, elems: seq<Json>): Option<seq<RouteRec>>
    decreases |elems|
  {
    if |elems| == 0 then Some([])
    else
      match ParseAll(parse, elems[..|elems| - 1])
      case None => None
      case Some(rs) =>
        var p := parse(elems[|elems| - 1]);
        if p.rc == Success then Some(rs + [p.rec]) else None
  }

  /** The batch parses exactly when every record does. */
  lemma {:induction false} ParseAllOk(parse: Json -> RecResult, elems: seq<Json>)
    ensures ParseAll(parse, elems).Some? <==> forall k :: 0 <= k < |elems| ==> parse(elems[k]).rc == Success
    decreases |elems|
  {
    if |elems| > 0 {
      var init := elems[..|elems| - 1];
      ParseAllOk(parse, init);
      assert forall k :: 0 <= k < |init| ==> init[k] == elems[k];
    }
  }

  /** A parsed batch holds one record per element, in array order. */
  lemma {:induction false} ParseAllRecords(parse: Json -> RecResult, elems: seq<Json>)
    ensures ParseAll(parse, elems).Some? ==>
              |ParseAll(parse, elems).value| == |elems| &&
              forall k :: 0 <= k < |elems| ==> ParseAll(parse, elems).value[k] == parse(elems[k]).rec
    decreases |elems|
  {
    if |elems| > 0 && ParseAll(parse, elems).Some? {
      var init := elems[..|elems| - 1];
      ParseAllRecords(parse, init);
      assert forall k :: 0 <= k < |init| ==> init[k] == elems[k];
    }
  }

  /** Once a prefix fails, the whole batch fails. */
  lemma {:induction false} ParseAllPrefixFails(parse: Json -> RecResult, elems: seq<Json>, i: nat)
    requires i <= |elems|
    requires ParseAll(parse, elems[..i]).None?
    ensures ParseAll(parse, elems).None?
    decreases |elems| - i
  {
    if i < |elems| {
      assert elems[..i + 1][..i] == elems[..i];
      ParseAllPrefixFails(parse, elems, i + 1);
    } else {
      assert elems[..i] == elems;
    }
  }

  /** The records loop of trp_parse_update: every element is parsed into a fresh record,
      in array order, and the first failure abandons the whole batch. */
  method ParseRecords(elems: seq<Json>) returns (ok: bool, records: seq<RouteRec>)
    ensures ok <==> ParseAll(ParseFresh, elems).Some?
    ensures ok ==> records == ParseAll(ParseFresh, elems).value
    ensures !ok ==> records == []
  {
    records := [];
    var i := 0;
    while i < |elems|
      invariant 0 <= i <= |elems|
      invariant ParseAll(ParseFresh, elems[..i]) == Some(records)
    {
      var r := ParseFresh(elems[i]);
      var pre := elems[..i + 1];
      assert pre[..|pre| - 1] == elems[..i] && pre[|pre| - 1] == elems[i];
      if r.rc != Success {
        assert ParseAll(ParseFresh, pre).None?;
        ParseAllPrefixFails(ParseFresh, elems, i + 1);
        return false, [];
      }
      records := records + [r.rec];
      assert ParseAll(ParseFresh, pre) == Some(records);
      i := i + 1;
    }
    assert elems[..i] == elems;
    ok := true;
  }

  /** trp_parse_update. The message must be an update with an update body (BADTYPE
      otherwise), and `records` must be present and an array (NOPARSE otherwise). Records
      are parsed in array order; the first failure makes the whole body NOPARSE with no
      records. */
  method ParseUpdate(msgType: MsgType, bodyIsUpdate: bool, jbody: Json) returns (rc: TrpRc, records: seq<RouteRec>)
    ensures msgType != Update || !bodyIsUpdate ==> rc == BadType
    ensures msgType == Update && bodyIsUpdate && ArrayOf(jbody, "records").None? ==> rc == NoParse
    ensures rc == Success || rc == BadType || rc == NoParse
    ensures rc == BadType <==> msgType != Update || !bodyIsUpdate
    ensures rc != Success ==> records == []
    ensures rc == Success <==>
              && msgType == Update && bodyIsUpdate && ArrayOf(jbody, "records").Some?
              && forall k :: 0 <= k < |ArrayOf(jbody, "records").value| ==> RecordOk(ArrayOf(jbody, "records").value[k])
    ensures rc == Success ==>
              |records| == |ArrayOf(jbody, "records").value| &&
              forall k :: 0 <= k < |records| ==> records[k] == ParseFresh(ArrayOf(jbody, "records").value[k]).rec
  {
    if msgType != Update || !bodyIsUpdate {
      return BadType, [];
    }
    var jrecords := ArrayOf(jbody, "records");
    if jrecords.None? {
      return NoParse, [];
    }
    var ok;
    ok, records := ParseRecords(jrecords.value);
    ParseAllOk(ParseFresh, jrecords.value);
    ParseAllRecords(ParseFresh, jrecords.value);
    rc := if ok then Success else NoParse;
  }

  /** A decoded message: its type and, for an update, its records. */
  datatype Msg = Msg(msgType: MsgType, records: seq<RouteRec>)

  /** A message the parser accepts, in the terms of the message format: an "update" whose
      body holds an array of well-formed records. */
  predicate WellFormedMsg(j: Json)
  {
    && GetString(j, "message_type") == Got("update")
    && Get(j, "body").Some?
    && var jr := ArrayOf(Get(j, "body").value, "records");
       jr.Some? && forall k :: 0 <= k < |jr.value| ==> RecordOk(jr.value[k])
  }

  /** trp_parse_msg from the decoded tree on; `jmsg` is None when the bytes were not JSON.
      A missing, non-string or unknown `message_type`, or a missing `body`, is NOPARSE. A
      body the body parser rejects gives TRP_ERROR; route_req bodies are always rejected.
      The message is handed back only on success. */
  method ParseMsg(jmsg: Option<Json>) returns (rc: TrpRc, msg: Option<Msg>)
    ensures jmsg.None? ==> rc == NoParse
    ensures jmsg.Some? && GetString(jmsg.value, "message_type").Failed? ==> rc == NoParse
    ensures jmsg.Some? && GetString(jmsg.value, "message_type").Got? ==>
              (MsgTypeFromString(GetString(jmsg.value, "message_type").value) == MsgUnknown ==> rc == NoParse)
    ensures jmsg.Some? && GetString(jmsg.value, "message_type") == Got("route_req") ==> rc != Success
    ensures (jmsg.Some? && GetString(jmsg.value, "message_type").Got? &&
             MsgTypeFromString(GetString(jmsg.value, "message_type").value) != MsgUnknown) ==>
              (Get(jmsg.value, "body").None? ==> rc == NoParse) &&
              (Get(jmsg.value, "body").Some? && rc != Success ==> rc == Error)
    ensures rc == Success || rc == NoParse || rc == Error
    ensures msg.Some? <==> rc == Success
    ensures rc == Success <==> jmsg.Some? && WellFormedMsg(jmsg.value)
    ensures rc == Success ==> msg.value.msgType == Update
    ensures rc == Success ==>
              var jr := ArrayOf(Get(jmsg.value, "body").value, "records").value;
              |msg.value.records| == |jr| &&
              forall k :: 0 <= k < |jr| ==> msg.value.records[k] == ParseFresh(jr[k]).rec
  {
    msg := None;
    if jmsg.None? {
      return NoParse, None;
    }
    var j := jmsg.value;
    var s := GetString(j, "message_type");
    if s.Failed? {
      return NoParse, None;
    }
    var t := MsgTypeFromString(s.value);
    if t == MsgUnknown {
      return NoParse, None;
    }
    var jbody := Get(j, "body");
    if jbody.None? {
      return NoParse, None;
    }
    if t == RouteReq {
      // trp_parse_route_req always reports TRP_ERROR.
      return Error, None;
    }
    var brc, records := ParseUpdate(t, true, jbody.value);
    if brc != Success {
      return Error, None;
    }
    rc, msg := Success, Some(Msg(t, records));
  }
}
