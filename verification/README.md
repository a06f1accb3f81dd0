# Trust router core: community table, filters, TRP update parsing, filter configuration

This project is a Dafny model of four parts of the trust router. Each part has proofs about its model.

- **Community membership table** (`common/tr_comm.c`). Communities, and memberships linking RP or IdP realms to communities.
  - Memberships are reference counted.
  - Each main-list membership may carry an origin chain: further memberships for the same realm, community and role that arrived via different origins.
  - The model proves that the table stays consistent (one membership per realm, community, role and origin). It also proves that the add-realm path keeps the membership with the shortest provenance, and that reference counts stay balanced.
- **Filter engine** (`common/tr_filter.c`):
  - the field registry, which says which fields each filter type may test;
  - spec and line matching;
  - applying a filter: the first matching line decides, and the default is reject;
  - validation, filter sets and the filter-type labels.
- **TRP message parser** (`trp/trp_msg.c`): message and info-type tables, route-record parsing in the order the fields are checked, update bodies, and whole messages.
- **Filter configuration loader** (`common/tr_config_filters.c`): constraints, spec and line parsing, filter validation, and building the filter set with its error codes.

## How the model is built

- **Modules.** One module per file:
  - `Base`: Option, names, and `Run<T>`, the outcome of code that may loop or fault;
  - `Json`: a decoded JSON tree;
  - `CommMemb`, `CommList`, `CommTable` and `CommIter`: the community code;
  - `Filter`, `TrpMsg` and `ConfigFilters`.
- **Linked lists become sequences in list order.** The membership table is a sequence of chains. Chain *i* is main-list node *i* followed by its origin chain.
- **Object identity is the object's id.** Realms and communities are referred to by id.
- **Reference counts live in a separate map, keyed by id.** This lets a contract state "every count changes by exactly the change in holders".
- **Pure functions.** Every operation is a pure function or a method with real out-parameters. Loops over records, specs, lines and filters are written generically over the per-element parser. Lemmas connect each loop to a reference definition, such as the first failure or one element per slot in order.
- **Parameters instead of outside code.** The prefix-wildcard name match of `tr_name.c` is a parameter `wc`. The current time is a parameter of `IsExpired`.

## Model

| member | source | states |
|---|---|---|
| CommMemb.Incref | common/tr_comm.c:90-93 | The count of the referenced object rises by one; no other count changes. |
| CommMemb.Decref | common/tr_comm.c:95-99 | A positive count falls by one and a zero count stays zero; no other count changes. |
| CommMemb.SetRpRealm | common/tr_comm.c:728-740 | After the call the membership is an RP membership of the new realm, and the IdP realm is cleared. The old realms' counts fall by one and the new realm's rises by one. Every other field and count is unchanged. |
| CommMemb.SetIdpRealm | common/tr_comm.c:747-758 | The mirror image of SetRpRealm for IdP realms. |
| CommMemb.SetComm | common/tr_comm.c:765-771 | Only the community changes. The old community loses one reference and the new one gains one. |
| CommMemb.Destroy | common/tr_comm.c:680-695 | Every reference the membership held (RP realm, IdP realm, community) is released exactly once. |
| CommMemb.SetProvenance | common/tr_comm.c:804-819 | The provenance is stored; the origin becomes its first hop, or none for an empty or absent list; nothing else changes. |
| CommMemb.AddToProvenanceAsWritten | common/tr_comm.c:821-840 | The hop is appended. The origin is set only when there was no provenance at all. |
| CommMemb.AddToProvenanceLosesOrigin | common/tr_comm.c:804-840 | An empty provenance plus one hop leaves the origin absent while the provenance starts with that hop. |
| CommMemb.AddToProvenance | common/tr_comm.c:821-847 | The hop is appended and the length grows by one. The origin always stays the first hop, and an existing origin is kept. |
| CommMemb.IsExpired | common/tr_comm.c:869-874 | For normalised times, a membership is expired exactly when now is at or after the expiry. |
| CommMemb.ExpiryBoundary | common/tr_comm.c:869-874 | One nanosecond before the expiry is not expired; the expiry instant is. |
| CommMemb.CommTypeRoundTrip | common/tr_comm.c:638-677 | Community types and their names round-trip. Exactly "apc" and "coi" are known. |
| CommMemb.RealmRoleRoundTrip | common/tr_comm.c:1149-1168 | Realm roles and their names round-trip. Only the unknown role has no name. |
| CommList.NewComm | common/tr_comm.c:61-76 | A new community has the given id, unknown type and no owner. |
| CommList.Lookup | common/tr_comm.c:339-348 | Returns the first community with the id, or none when no community has it. |
| CommList.Add | common/tr_comm.c:242-269 | The added communities follow the existing ones, in order. |
| CommList.LookupAfterAdd | common/tr_comm.c:1121-1129 | Adding never hides an existing community from lookup. An added community is findable unless an earlier one has its id. |
| CommList.Size | common/tr_comm.c:1137-1146 | The walk counts every community. |
| CommList.RemoveAsWritten | common/tr_comm.c:273-285 | Removing the head of the list returns an empty list. |
| CommList.RemoveAsWrittenDefects | common/tr_comm.c:273-285 | In a two-community list, removing the head drops both communities, and removing the tail dereferences NULL. |
| CommList.Remove | common/tr_comm.c:273-285 | A community is in the result exactly when it was in the list and is not the removed one. |
| CommList.RemoveKeepsOrder | common/tr_comm.c:270-285 | Removal works piecewise over any split of the list, so the other communities keep their order. |
| CommList.RemoveOne | common/tr_comm.c:270-285 | A single community is kept exactly when it is not the removed one. |
| CommList.RemoveCounts | common/tr_comm.c:273-285 | Every copy of the removed community goes and every other community stays as often as it occurred, so the list shrinks by the number of copies. |
| CommList.LookupAfterRemove | common/tr_comm.c:1131-1134 | Removing a community does not change lookup of any other id. |
| CommTable.FindHead | common/tr_comm.c:1007-1024 | Returns the first main-list membership of the realm in the community with the requested role, or none when there is none. Origin chains are not searched. |
| CommTable.OriginMatchesIsEquality | common/tr_comm.c:1065-1081 | The source's NULL-aware origin comparison is equality of optional names. |
| CommTable.FindOrigin | common/tr_comm.c:1065-1119 | Returns the first membership with the given origin in the chain of the first matching main-list node. None means no membership in that chain has the origin. |
| CommTable.FindMembOriginAsWritten | common/tr_comm.c:1027-1042 | With a named origin the lookup never finds anything. |
| CommTable.FindMembOriginDefect | common/tr_comm.c:1027-1042 | On a one-membership table the as-written lookup finds the membership only for an absent origin. The intended lookup finds it only for its real origin. |
| CommTable.AddMemb | common/tr_comm.c:901-943 | The new membership joins the chain of the first main-list node with its realm, community and role, or starts a new main-list node. The table gains exactly that membership and nothing else moves. |
| CommTable.RemoveAt | common/tr_comm.c:946-996 | The table loses exactly the membership at that position. An origin node is spliced out; a main node with no chain leaves the main list. |
| CommTable.RemoveMemb | common/tr_comm.c:946-996 | A NULL or absent membership leaves the table unchanged; otherwise exactly that one membership is removed. |
| CommTable.RemoveMembAsWritten | common/tr_comm.c:946-996 | Removing the first main node is right. Other removals can loop, keep the node, or drop whole chains (see the lemmas below). |
| CommTable.RemoveMembLosesChain | common/tr_comm.c:975-995 | Removing a later main node also drops its origin chain, where the intended removal keeps the chain. |
| CommTable.RemoveMembLoops | common/tr_comm.c:965-973 | Removing the third node of the first origin chain never returns. |
| CommTable.RemoveMembKeepsOriginNode | common/tr_comm.c:965-973 | Removing the second node of the first origin chain leaves it in the table. |
| CommTable.FindHeadIsKeyedChain | common/tr_comm.c:1046-1100 | In a consistent table, the role lookup for a key finds the one main node with that key. |
| CommTable.ValidAppendChain | common/tr_comm.c:901-943 | A main node with a new key keeps the table consistent. |
| CommTable.ValidExtendChain | common/tr_comm.c:901-943 | An origin node with its chain's key and a new origin keeps the table consistent. |
| CommTable.AddMembFindsNew | common/tr_comm.c:901-943 | Adding a membership whose key and origin are new keeps the table consistent and makes the membership findable by origin. |
| CommTable.ValidRemoveAt | common/tr_comm.c:946-996 | Removing any membership keeps a consistent table consistent. |
| CommTable.FindInChainUnique | common/tr_comm.c:1065-1081 | In a consistent table each origin occurs once per chain. |
| CommTable.RemoveFoundIsGone | common/tr_comm.c:946-996 | After the membership found for a key and origin is removed, the same lookup finds nothing. |
| CommTable.RemoveKeepsOthers | common/tr_comm.c:946-996 | Removing one membership leaves every other membership findable, with the same value. |
| CommTable.AddMembKeepsOthers | common/tr_comm.c:901-943 | Adding a new key and origin leaves every findable membership findable, with the same value. |
| CommTable.Candidate | common/tr_comm.c:183-210 | The membership built by add_*_realm has the given role, realm, community, provenance and expiry. Its origin is its first hop, and it holds exactly one new reference to its realm and community. |
| CommTable.AddIfShorter | common/tr_comm.c:167-180 | With no existing membership, the candidate is added. With one, the existing membership is replaced only by a strictly shorter provenance; the loser's references are released. |
| CommTable.AddRealm | common/tr_comm.c:183-240 | The table grows by one membership exactly when its key and origin were new; communities are untouched. |
| CommTable.AddRealmShortestWins | common/tr_comm.c:167-240 | After adding, the table is consistent and holds one membership for the key and origin: the one with the shorter provenance, or the old one on a tie. |
| CommTable.AddRealmKeepsOthers | common/tr_comm.c:183-240 | Adding a realm leaves every membership with another key or origin findable, with the same value. |
| CommTable.HoldersPerm | common/tr_comm.c:680-695 | The count of holders of a reference depends only on the multiset of memberships. |
| CommTable.AddIfShorterBalanced | common/tr_comm.c:167-180 | Each reference count minus the number of table memberships holding it changes by exactly the candidate's share. |
| CommTable.AddRealmBalanced | common/tr_comm.c:167-240 | Adding a realm never changes any reference count minus the number of memberships holding it. Leaked and dangling references are ruled out. |
| CommIter.ScanFrom | common/tr_comm.c:368-447 | The cursor stops at the first main-list hit at or after its start, or reports that there is none. |
| CommIter.IterFirst | common/tr_comm.c:368-380 | The first main-list node answering the query, with the value it yields; NULL exactly when no node answers. |
| CommIter.IterNext | common/tr_comm.c:382-391 | The next main-list node after the cursor that answers the query; NULL exactly when none is left. |
| CommIter.YieldsFromScan | common/tr_comm.c:509-624 | The cursor walk produces exactly the reference sequence of hits. |
| CommIter.Collect | common/tr_comm.c:394-447 | A first/next loop collects the yields of the main-list hits, in order, up to the first NULL. |
| CommIter.RoleIterDistinct | common/tr_comm.c:572-624 | In a consistent table the role-restricted iterators never yield a value twice. |
| CommIter.SeesAllHits | common/tr_comm.c:394-447 | When no hit yields NULL, a first/next loop sees a value exactly when some main-list hit at or after the start yields it. |
| CommIter.RoleIterSeesAll | common/tr_comm.c:572-624 | A role-restricted realm iterator reaches a realm exactly when some main node of that role links it to the community. |
| CommIter.FindRealmInComm | common/tr_comm.c:287-337 | find_idp / find_rp succeed exactly when a main-list node of that role links the realm to the community, and return that realm. |
| CommIter.CollectComms | common/tr_comm.c:627-636 | The table iterator visits every community in list order; every visited id is found by the community lookup, and the position the lookup returns is visited with that id. |
| CommIter.CollectChain | common/tr_comm.c:657-668 | The membership iterator visits a main node and then its origin chain, in order, all of them table members. |
| TrpMsg.MsgTypeFromString | trp/trp_msg.c:86-95 | Exactly "update" and "route_req" are known message types. |
| TrpMsg.MsgTypeToString | trp/trp_msg.c:98-102 | Only the unknown type has no name. |
| TrpMsg.InfoTypeFromString | trp/trp_msg.c:105-114 | Exactly "route_info" and "comm_info" are known info types. |
| TrpMsg.InfoTypeToString | trp/trp_msg.c:117-121 | Only the unknown info type has no name. |
| TrpMsg.MsgTypeRoundTrip | trp/trp_msg.c:86-102 | Message types and names round-trip. |
| TrpMsg.InfoTypeRoundTrip | trp/trp_msg.c:105-121 | Info types and names round-trip. |
| TrpMsg.NewRouteRec | trp/trp_msg.c:210-225 | A new route record has infinite metric, zero interval and no names. |
| TrpMsg.ToInt32 | trp/trp_msg.c:144-160 | A JSON integer stored in a C int lands in the signed 32-bit range, is congruent modulo 2^32 to the input, and is unchanged when it fits. |
| TrpMsg.GetString | trp/trp_msg.c:164-182 | An absent attribute is NOPARSE, a non-string is BADTYPE, and otherwise the text is returned. |
| TrpMsg.GetInteger | trp/trp_msg.c:144-160 | An absent attribute is NOPARSE, a non-integer is BADTYPE, and otherwise the value is returned wrapped to 32 bits. |
| TrpMsg.FirstFailure | trp/trp_msg.c:248-289 | Success exactly when every listed field is present with its type. |
| TrpMsg.FirstFailureIsFirst | trp/trp_msg.c:248-289 | A failure code is the code of a field all of whose predecessors passed. |
| TrpMsg.ReadFields | trp/trp_msg.c:248-309 | Fields are read in order and the first failure decides the code. On failure the names are cleared; on success every field is stored. |
| TrpMsg.ParseRecord | trp/trp_msg.c:228-310 | The code is exactly the one the record_type rule and the ordered field checks give. A success is a route_info record holding every field. A failure clears the names. |
| TrpMsg.ParsedRecordFields | trp/trp_msg.c:228-310 | A parsed record holds the record's community, realm and trust_router text, and its metric and interval wrapped to 32 bits. |
| TrpMsg.RecordOkIsWellFormed | trp/trp_msg.c:228-310 | A record parses exactly when it is a route_info record with three string names and two integers. |
| TrpMsg.ParseAllOk | trp/trp_msg.c:357-375 | A batch parses exactly when every record does. |
| TrpMsg.ParseAllRecords | trp/trp_msg.c:357-375 | A parsed batch holds one record per array element, in array order. |
| TrpMsg.ParseRecords | trp/trp_msg.c:357-375 | The loop yields the reference batch; the first failing record abandons every record. |
| TrpMsg.ParseUpdate | trp/trp_msg.c:328-389 | Returns BADTYPE for a non-update and NOPARSE for missing or non-array records. BADTYPE is returned exactly in that first case, so a failing record gives NOPARSE. Success means every record is well formed, with the records in order; failure returns none. |
| TrpMsg.ParseMsg | trp/trp_msg.c:437-557 | Success exactly for an update message whose body holds an array of well-formed records. A success returns those records in order. A missing or unknown type or body is NOPARSE; a rejected body (every route_req) is TRP_ERROR. |
| Filter.Extract | common/tr_filter.c:104-314 | A getter yields a value only on the target kind it belongs to. TID getters read the request's realm, community, RP realm or originating COI. TRP getters read the update's realm or community, or the inforec's community type, realm role, first APC, trust router, owner realm, owner contact or type name. An unknown community type or role, or no APC, yields nothing. |
| Filter.CommTypeName | common/tr_filter.c:189-206 | Only the unknown community type has no value; a value names the type back. |
| Filter.RealmRoleName | common/tr_filter.c:223-240 | Only the unknown role has no value; a value names the role back. |
| Filter.FindEntry | common/tr_filter.c:376-387 | Returns the first registry entry for the type and field, or none when no entry has them. |
| Filter.RegistryIsExact | common/tr_filter.c:325-387 | The registry resolves exactly the registered pairs. "realm" and "comm" are registered for every known type. rp_realm and original_coi are TID-only; the inforec fields are TRP-only. |
| Filter.RegistryGettersFitType | common/tr_filter.c:325-372 | A TID filter's fields read the TID request, and a TRP filter's fields read the inforec or its update. |
| Filter.AnyMatch | common/tr_filter.c:508-554 | True exactly when some non-empty slot holds a pattern the value matches. |
| Filter.SpecMatches | common/tr_filter.c:508-554 | A spec matches exactly when it is present, its field is registered for the filter type, the target has a value for the field, and some pattern matches that value. |
| Filter.AllSpecsMatch | common/tr_filter.c:406-459 | A line matches exactly when every present spec matches. |
| Filter.EmptyLineMatches | common/tr_filter.c:406-459 | A line without specs matches every target. |
| Filter.FillFirst | common/tr_filter.c:495-505 | The item goes into the first empty slot; when every slot is taken it is dropped. |
| Filter.NewSpec | common/tr_filter.c:480-493 | A new spec has the field and all MaxMatches slots empty. |
| Filter.AddMatch | common/tr_filter.c:495-505 | Adding a pattern keeps the field and every filled slot. |
| Filter.FillAllInOrder | common/tr_filter.c:495-505 | Adding items one by one to slots whose first n are taken puts item k into slot n+k; slots below n are unchanged and slots past the last item stay empty. |
| Filter.AddMatchesInOrder | common/tr_filter.c:495-505 | Patterns added one by one fill the slots in order. Patterns beyond the last slot are dropped, and the remaining slots stay empty. |
| Filter.NewLine | common/tr_filter.c:561-574 | A new line has unknown action, no constraints and MaxSpecs empty slots. |
| Filter.NewFilter | common/tr_filter.c:576-589 | A new filter has the type and no lines. |
| Filter.AddLine | common/tr_filter.c:615-623 | The line is appended after the existing lines. |
| Filter.FirstMatch | common/tr_filter.c:406-459 | Returns the first matching line, or none when no line matches. |
| Filter.Apply | common/tr_filter.c:389-459 | A match happens exactly when the filter exists, has a known type and some line matches. On a match, the first matching line's action applies, and its realm and domain constraints are added when tracked. Without a match, the action is reject and the constraints are untouched. |
| Filter.ApplyAsWrittenAgrees | common/tr_filter.c:406-459 | When the code as written returns, it returns the documented result. It never returns exactly when the first line does not match. |
| Filter.ApplyAsWrittenLoopsOnSecondLine | common/tr_filter.c:406-459 | Suppose the first line rejects realm "b" and the second line has no specs. For realm "a" the documented behaviour accepts, but the code as written never returns. |
| Filter.ValidateSpecField | common/tr_filter.c:736-742 | True exactly for a present spec whose field is registered for the type. |
| Filter.HasPattern | common/tr_filter.c:718-726 | True exactly when some pattern slot is filled. |
| Filter.ValidateLine | common/tr_filter.c:698-727 | A line is valid exactly when its action is accept or reject and every present spec is registered and holds a pattern. |
| Filter.Validate | common/tr_filter.c:671-734 | A filter is valid exactly when it exists, has a known type and every line is valid. |
| Filter.NewSet | common/tr_filter.c:750-758 | A new set is well shaped and holds no filters. |
| Filter.SetAddAppends | common/tr_filter.c:790-806 | Adding keeps the set well shaped and appends the filter to the filters held. |
| Filter.SetGetFrom | common/tr_filter.c:815-824 | Returns the first held filter of the type, or none when no filter has it. |
| Filter.SetGetIsFirstOfType | common/tr_filter.c:815-824 | The node walk agrees with "first filter of that type among those held". |
| Filter.GetAfterAdd | common/tr_filter.c:790-824 | After an add, a get returns the earlier filter of that type if there is one, else the added filter if it has that type. |
| Filter.FilterTypeToString | common/tr_filter.c:834-843 | Only the unknown type gets "unknown". |
| Filter.FilterTypeFromString | common/tr_filter.c:845-854 | Exactly the three labels are known. |
| Filter.FilterTypeRoundTrip | common/tr_filter.c:826-854 | Filter types and labels round-trip. |
| Filter.IterNext | common/tr_filter.c:645-653 | Yields the next line and advances, or NULL at the end without moving. |
| Filter.CollectLines | common/tr_filter.c:645-663 | Walking the iterator from first to NULL yields every line in order. |
| ConfigFilters.Strings | common/tr_config_filters.c:80-87 | Defined exactly when every element is a string; then the texts, in order. |
| ConfigFilters.ParseOneConstraint | common/tr_config_filters.c:48-90 | A value that is not a non-empty array starting with a string is NOPARSE, and a later non-string element is NOMEM. Success means every element is a string, and the constraint holds them in order. |
| ConfigFilters.ParseConsAttr | common/tr_config_filters.c:162-189 | An absent attribute or an empty array means no constraint. A non-array, or a non-empty array that does not parse, fails the line. Otherwise the parsed constraint is returned. |
| ConfigFilters.ParseSpec | common/tr_config_filters.c:193-262 | A missing or non-string field, or a missing match or one that is neither a string nor an array, is NOPARSE. A match array with a non-string element is NOMEM, and an unregistered field is TR_CFG_ERROR. On success the field is registered for the type, and the slots hold the first MaxMatches patterns in order. |
| ConfigFilters.ParseSpecs | common/tr_config_filters.c:193-266 | A line's specs parse exactly when each spec does; on success the action, constraints and slot count are kept. |
| ConfigFilters.ParseSpecsFirstFailure | common/tr_config_filters.c:193-266 | A failed spec loop reports the code of its first failing spec. |
| ConfigFilters.ParseSpecsInOrder | common/tr_config_filters.c:262-266 | Parsed specs fill the free slots in order; specs beyond the last slot are dropped. |
| ConfigFilters.ParseLine | common/tr_config_filters.c:126-266 | A missing, non-string or unknown action, missing, non-array or empty specs, or a realm or domain constraint attribute that is not an array or does not parse, is NOPARSE. On success the action and constraints come from the line and every spec parsed. |
| ConfigFilters.ParseLineSlots | common/tr_config_filters.c:193-266 | Slot k of a parsed line holds the k-th spec of `specs`; the slots after the last spec stay empty. |
| ConfigFilters.ParseLineSpecs | common/tr_config_filters.c:193-266 | The spec loop succeeds exactly when every spec parses. Slot k then holds the k-th spec, later slots stay empty, and every filled slot names a field registered for the filter type. |
| ConfigFilters.LineFailsAtFirstSpec | common/tr_config_filters.c:193-262 | A line that is well formed up to its specs fails with the code of its first failing spec. |
| ConfigFilters.ParseLines | common/tr_config_filters.c:126-275 | A filter's lines parse exactly when each line does; on success the filter holds the parsed lines in order. |
| ConfigFilters.ParseOneFilter | common/tr_config_filters.c:92-290 | Only a success returns a filter. It is valid, has the requested type, and holds the parsed lines in order. When every line parses, the result is success or TR_CFG_ERROR. |
| ConfigFilters.FilterFailsAtFirstLine | common/tr_config_filters.c:126-290 | A filter with a bad line fails with the code of its first bad line. |
| ConfigFilters.ParsedFilterValidIff | common/tr_config_filters.c:276-283 | For a known type whose lines all parse, the filter is accepted exactly when no parsed spec lacks a pattern; otherwise it is TR_CFG_ERROR. |
| ConfigFilters.SpecHasPatternIff | common/tr_config_filters.c:233-251 | A parsed spec holds a pattern exactly when its match names at least one. |
| ConfigFilters.AddFilters | common/tr_config_filters.c:316-345 | The set is built exactly when every label names a filter type and every filter parses, and holds the filters in member order. Any failure is NOPARSE. |
| ConfigFilters.ParseFilters | common/tr_config_filters.c:292-359 | No filter section is success without a set, and any failure is NOPARSE without a set. On success the set holds the filters in member order. |
| ConfigFilters.LoadedFiltersValid | common/tr_config_filters.c:292-359 | Every loaded filter has the type its label names and is valid. |

## Findings

| source | as written | input that shows it | evidently intended | confidence | as-written member | corrected member |
|---|---|---|---|---|---|---|
| common/tr_comm.c:946-996 | The loop over the first main node's origin chain re-reads the chain head on every pass, so it never advances. Removing a later main node unlinks that node's whole origin chain. The first origin-chain node is never unlinked. | A table whose only chain is a, a2, a3, removing a3 (never returns); a table [a], [b], [d, d2], removing d (d2 is lost); a table whose only chain is a, a2, removing a2 (a2 stays) | Exactly the given membership leaves the table. A main node is replaced by its first origin-chain node. | high; not executed | CommTable.RemoveMembAsWritten, CommTable.RemoveMembLoops, CommTable.RemoveMembLosesChain, CommTable.RemoveMembKeepsOriginNode | CommTable.RemoveMemb, CommTable.RemoveAt |
| common/tr_comm.c:1027-1042 | `cur_orig` is never loaded from the membership, so the origin test always compares against NULL | A table with one membership whose origin is "hop1": looking up origin "hop1" finds nothing, looking up no origin finds it | Compare each chain node's own origin, as the IdP and RP variants do | high; not executed | CommTable.FindMembOriginAsWritten, CommTable.FindMembOriginDefect | CommTable.FindOrigin |
| common/tr_filter.c:406-459 | The line loop never fetches the next line | A TID filter whose first line rejects realm "b" and whose second line has no specs, applied to realm "a": never returns | The first matching line decides, as the function's documentation says | high; not executed | Filter.ApplyAsWritten, Filter.ApplyAsWrittenAgrees, Filter.ApplyAsWrittenLoopsOnSecondLine | Filter.Apply |
| common/tr_comm.c:273-285 | Removing the head returns NULL, dropping the rest of the list. After unlinking the tail the loop steps onto NULL and dereferences it. | Communities [a, b]: removing a gives the empty list; removing b dereferences NULL | Unlink only the given community | high; not executed | CommList.RemoveAsWritten, CommList.RemoveAsWrittenDefects | CommList.Remove |
| common/tr_comm.c:821-840 | The origin is set only when the provenance pointer is NULL, not when it points to an empty array | set_provenance with an empty array, then add hop "hop1": provenance ["hop1"], origin absent | The first hop becomes the origin | medium; not executed | CommMemb.AddToProvenanceAsWritten, CommMemb.AddToProvenanceLosesOrigin | CommMemb.AddToProvenance |

The rest of the model uses the corrected members: the add-realm path, the consistency lemmas and filter loading.

## Left out

- Memory and I/O:
  - allocation, talloc contexts and every out-of-memory branch that an allocation failure triggers, such as trp_msg_info_route_new failing and tr_filter_add_line failing in the loader;
  - freeing;
  - logging;
  - decoding JSON text (json_loadb). The parser starts from an already decoded tree, and an undecodable buffer is an absent tree.
- NULL-argument checks (TR_CFG_BAD_PARAMS for a NULL filter or return-code pointer) and the NULL `jfilt` check of tr_cfg_parse_filters. The JSON object iteration never yields NULL.
- Header constants. TR_MAX_FILTER_SPECS, TR_MAX_FILTER_SPEC_MATCHES and TRP_METRIC_INFINITY come from headers that are not part of this model. They are taken as 8, 8 and 0xFFFF, and no proof depends on these values.
- Functions outside these four files:
  - The wildcard name match and tr_new_name (`tr_name.c`) are not part of this model. The match is a parameter, and tr_new_name of a non-string element is taken to fail, which the loader reports as NOMEM.
  - tr_fline_add_spec is not part of this model either. It is taken to fill the first empty slot and drop the spec when the line is full, as tr_fspec_add_match does.
  - Constraint capacity is not modelled: tr_constraint_add_match is taken to store every pattern.
- The registry's `cmp` handlers, including the info-type comparison that returns non-zero for equal values. Matching goes through the `get` handlers and the wildcard match, as tr_fspec_matches does.
- CommList.Remove: communities are compared by value, not by node identity. A list holding two equal records loses both, where the source unlinks the one node it is given; a C list never holds the same node twice.
- Filter.Extract: a getter applied to a target of the other kind reads through a NULL pointer in the source. The model yields no value instead, and callers always build the target that matches the filter type. trp_inforec_type_to_string and the inforec type enumeration are not part of this model, so an inforec carries the name that function gives its type (no name for a NULL result). Which `info_type` patterns can match therefore depends on that name, which the model does not fix.
- Filter targets: building them (tr_filter_target_tid_req, tr_filter_target_trp_inforec) and the APC list beyond its first entry.
- Trivial setters and getters: the community owner, type and id, the membership interval and expiry, and the realm name accessors.
- Monitoring and printing functions (trp_msg_print and the like).
- CommTable.AddMemb: a membership of unknown role is logged and appended to the main list, as in the source. The consistency invariant and its lemmas cover only keyed memberships.
- CommMemb.SetProvenance: provenance hops are names. A non-string element 0 of the JSON array, for which the source would take the origin from NULL, is not modelled.
- CommMemb.IsExpired requires the expiry to be set, because the source dereferences it unconditionally.
- CommIter.IterNext requires a current node, because the source dereferences the cursor. A caller may not call next after NULL.
- Two defects that lie outside the modelled paths:
  - trp_msg_body_update_new has no return statement. The model of trp_parse_msg takes it as returning the body it builds.
  - tr_comm_memb_new does not initialise `origin_next`. The model starts every membership without an origin chain.
