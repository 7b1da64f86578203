# UniFi provider write and read-back model

A Dafny model of how the Terraform provider for UniFi turns a declared
configuration into controller writes and turns the controller's answer back
into state. Four connected parts are modelled and proved:

1. **Port overrides and radios** (`field_sets.dfy`, `declared_writes.dfy`,
   `port_overrides.dfy`, `radio_table.dfy`). Blocks are encoded together with
   the members they declare, deduplicated by key, dropped when they declare
   nothing, grouped by declared member set, and sent as one masked call per
   group. A call overwrites its entries crossed with its mask, at the zero value
   for a masked member an entry never assigned. The whole write is proved to be
   the per-key overlay of the last block naming each key, in any order of the
   calls and all-or-nothing per key when a call is refused; applying and then
   refreshing is proved to show no difference exactly under stated conditions.
2. **Client groups** (`rate_names.dfy`, `group_protocol.dfy`,
   `client_groups.dfy`, `group_cache.dfy`). Any number of operations resolve
   group names from stale vocabularies and create on a miss under a mutex. The
   protocol is a step relation; an invariant gives unique names, mutual
   exclusion, no self-lock and positionally correct ids in every reachable
   state; an operation fails exactly when a call of its own was refused, only
   what some operation asked for is ever written, and every run is finite and
   never stuck.
3. **Port-profile VLAN translation** (`port_profile.dfy`). The inclusion set
   becomes mode, exclusion list and forward over the eligible networks and is
   translated back.
4. **Network positional slots** (`network_slots.dfy`). Lists are spread over
   fixed slots and compacted on read; guarding does not clear unused slots and
   keeps them out of the mask.

`terraform.dfy` holds attribute values (null, unknown, known), wire values and
the conversions shared by both device blocks. Block members are kept as a map
from wire name to value, with a table giving each member's type: the tables of
the provider are `PortOverrides.PORT_OVERRIDE` and `RadioTable.RADIO`, and the
results hold for every table of the same shape.

What the environment does is a parameter everywhere: which calls are refused,
what a read answers, which ids a create is given, and how operations interleave.

Some properties one might expect hold only under a condition the code does not
check. They are stated as exact conditions:

- `op_mode = "switch"` is never written, so a port already in another mode keeps
  it and reads back different (`PortOverrides.ApplyThenRefreshIff`).
- A declared empty string, or a member not resolved yet, never reads back as
  configured (`Terraform.WriteThenReconcile`). Once an answer reports a declared
  radio member empty it stays null whatever later answers say
  (`RadioTable.RunIsLastAnswer`).
- A radio member the pre-write guard drops reads back as configured only if the
  controller already held it (`RadioTable.ApplyThenRefreshIff`).
- A list shorter than the guarding slots leaves the old trailing servers, which
  then read back (`NetworkSlots.GuardingRestoresIff`).
- Group names read back through a vocabulary listed before the groups were
  created show ids for exactly the groups created since
  (`ClientGroups.ReadBackIff`).
- The grouping key is a comma join, so it separates member sets only because
  wire names are not empty and have no comma (`FieldSets.CommaBreaksTheKey`).

## Model

| member | source | states |
|---|---|---|
| FieldSets.CanonicalIff | unifi/device_port_overrides_grouping.go:50-52 | sorting then compacting is canonical: two field lists become the same list exactly when they name the same set |
| FieldSets.CanonicalListsTheSet | unifi/device_port_overrides_grouping.go:50-52 | the mask is strictly sorted and lists exactly the declared set |
| FieldSets.JoinIsInjective | unifi/device_port_overrides_grouping.go:53 | the comma join loses nothing on names that are not empty and have no comma |
| FieldSets.GroupKeyIff | unifi/device_port_overrides_grouping.go:40-53 | the grouping key is the set of names, not their order or repetition |
| FieldSets.CommaBreaksTheKey | unifi/device_port_overrides_grouping.go:53 | with a comma in a name two different sets share a key, for any two names |
| DeclaredWrites.DedupeDeclared | unifi/device_descriptor.go:563-579 | the loop with its index map computes the one-entry-per-key list |
| DeclaredWrites.DedupeKeepsLast | unifi/device_descriptor.go:556-579 | one entry per key, keys in first-appearance order, key-less entries all kept in order, and as a map the fold of right-biased updates over the input |
| DeclaredWrites.AsMapIsLast | unifi/device_descriptor.go:556-558 | that map holds the last declaration of each key |
| DeclaredWrites.DeclaredWithFields | unifi/device_descriptor.go:588-597 | the loop keeps exactly the sendable entries in order |
| DeclaredWrites.WithFieldsAsMap | unifi/device_descriptor.go:581-597 | what is sent under a key is its last block if that declares anything; an earlier block never resurfaces |
| DeclaredWrites.GroupByFieldSet | unifi/device_port_overrides_grouping.go:45-69 | the loop over the order list and the group map computes the groups |
| DeclaredWrites.SharedGroupIff | unifi/device_port_overrides_grouping.go:30-44 | two entries go to the same group exactly when their declared sets are equal |
| DeclaredWrites.GroupingIsStablePartition | unifi/device_radio_table_grouping.go:30-69 | grouping is a stable partition by declared set: sorted distinct masks, each entry in its group in order, groups by first appearance, as many calls as distinct sets |
| DeclaredWrites.OneMaskIff | unifi/device_port_overrides_grouping.go:33-44 | one call under one mask is right, whatever the controller held, exactly when every entry declares that mask |
| DeclaredWrites.MaskedCell | unifi/device_port_overrides_grouping.go:33-41 | a call overwrites exactly its entries crossed with its mask, at the zero for a masked member never assigned |
| DeclaredWrites.UpdateGrouped | unifi/device_port_overrides_grouping.go:77-101 | one call per group in order; the first refused call stops it with the earlier groups' calls applied; nothing declared is an error without a call |
| DeclaredWrites.AnyOrderWritesOverlay | unifi/device_port_overrides_grouping.go:91-100 | if all calls succeed every order of the groups leaves the same store, the overlay |
| DeclaredWrites.SelectedCallsCell | unifi/device_port_overrides_grouping.go:91-100 | after any selection of the calls in any order a key holds the overlay if its call was among them and is untouched otherwise |
| DeclaredWrites.PrefixWritesOverlay | unifi/device_port_overrides_grouping.go:91-99 | when a call fails the store is the overlay of the earlier groups, each key fully written or untouched |
| DeclaredWrites.SentMasksNotEmpty | unifi/device_descriptor.go:305-313 | dropping empty declarations is what keeps every call's mask non-empty |
| DeclaredWrites.WriteDeclared | unifi/device_descriptor.go:299-318 | dedupe, drop-empty, group and call together: fails only if the controller refuses a call; success is the overlay of the last block per key; failure is all or nothing per key |
| PortOverrides.PortOverrideIsValid | unifi/device_descriptor.go:487-554 | the provider's member table qualifies: wire names, and op_mode apart |
| PortOverrides.DeclaredFieldsIff | unifi/device_descriptor.go:460-554 | a member is in the mask exactly when the block sets it, op_mode exactly when known, not empty and not the default |
| PortOverrides.DeclaredFromConfig | unifi/device_descriptor.go:801-841 | every block of a known set is encoded in order; a null or unknown set declares nothing |
| PortOverrides.WritePortOverrides | unifi/device_descriptor.go:289-318 | fails only if the controller refuses a call; on success every cell holds what the last block naming its port sets it to and otherwise what it held, said on the blocks; on failure each port is written whole or not at all |
| PortOverrides.OverlayIsConfigured | unifi/device_descriptor.go:556-579 | the per-port overlay of the encoded blocks is what the blocks themselves ask for, op_mode included |
| PortOverrides.LastBlockIsLast | unifi/device_descriptor.go:556-558 | the block that speaks for a port is the last one naming it |
| PortOverrides.EncodeAddresses | unifi/device_descriptor.go:445-457 | an entry is addressed by its block's index, and an unresolved index declares nothing |
| PortOverrides.UnresolvedIsNotSent | unifi/device_descriptor.go:447-456 | every entry sent encodes a block with a resolved index that sets something |
| PortOverrides.AllUnresolvedNoCall | unifi/device_descriptor.go:447-456 | blocks whose indexes are all unresolved cause no call |
| PortOverrides.ReconcilePortOverrides | unifi/device_descriptor.go:606-799 | the reconcile loop: same length and order, each block refreshed by the answer for its port |
| PortOverrides.RefreshedShows | unifi/device_descriptor.go:636-778 | the whole refreshed block on the raw answer: a null member stays null, a blank reads as null, a set ascending, anything else as reported; op_mode as reported with "switch" for empty; index and tagged ids kept; the last entry for a port decides |
| PortOverrides.EncodeThenReconcileIff | unifi/device_descriptor.go:369-458 | an echoed block reconciles to itself exactly when no member is unknown or the empty string and op_mode is set |
| PortOverrides.ReadsBackWritten | unifi/device_descriptor.go:599-605 | after the write a port reports each declared member at its configured value, and op_mode as written or as stored |
| PortOverrides.ApplyThenRefreshIff | unifi/device_descriptor.go:764-776 | writing the blocks and refreshing shows no difference for the last block of a port exactly when its members are restorable and its op_mode survives |
| Terraform.WriteThenReconcile | unifi/device_descriptor.go:636-685 | writing one member and reading that value back changes it exactly when it is unknown or the empty string |
| Terraform.ReconcileExactly | unifi/device_descriptor.go:636-685 | what any reported value becomes for any prior one: null stays null, otherwise null exactly for the empty text and the absent number, the ascending permutation for a set, the value itself for the rest |
| Terraform.ReconcileMembersIff | unifi/device_descriptor.go:626-635 | the same for all members of a block, whatever undeclared members read |
| RadioTable.RadioIsValid | unifi/device_descriptor.go:1041-1074 | the provider's radio member table qualifies |
| RadioTable.SanitizeRadioForUpdate | unifi/device_descriptor.go:902-950 | the in-place guard: the struct after it and the warnings it raises |
| RadioTable.SanitizeOnce | unifi/device_descriptor.go:897-957 | the guard keeps a value exactly when it is in range and enabled and replaces any other by nil, a second pass changes nothing and warns no more, and a warning is raised exactly for an out-of-range value that was meant |
| RadioTable.WarnedIff | unifi/device_descriptor.go:902-950 | which warnings a block raises, on its own attributes, an unresolved number reaching the guard as 0 |
| RadioTable.EncodeRadio | unifi/device_descriptor.go:976-1017 | encoding one block through the guard: addressed by the block's name, nothing declared for an unresolved one |
| RadioTable.EncodeAddresses | unifi/device_descriptor.go:999-1015 | an entry is keyed by a name exactly when the block has that name and it is not empty |
| RadioTable.RadioMaskIsLegal | unifi/device_descriptor.go:1019-1074 | every masked member is legal to send and holds the configured value, and a set member is masked exactly when the controller takes its value |
| RadioTable.TakesIff | unifi/device_descriptor.go:917-948 | which values the controller takes, on the block's own attributes: the four ranges, and a threshold only beside its flag |
| RadioTable.EveryCallIsLegal | unifi/device_descriptor.go:1132-1147 | after dedupe, dropping and grouping every call names a radio in each entry and is legal for each entry and masked member |
| RadioTable.RadiosDeclaredFromConfig | unifi/device_descriptor.go:1082-1108 | every block of a known list is encoded in order |
| RadioTable.WriteRadioTable | unifi/device_descriptor.go:320-344 | fails only if the controller refuses a call; on success every cell holds what the last block naming its radio sets it to, if legal, and otherwise what it held; on failure each radio is written whole or not at all |
| RadioTable.OverlayIsWanted | unifi/device_descriptor.go:1110-1130 | the per-radio overlay of the encoded blocks is what the blocks themselves ask for |
| RadioTable.LastBlockIsLast | unifi/device_descriptor.go:1110-1113 | the block that speaks for a radio is the last one naming it |
| RadioTable.ReconcileRadioTable | unifi/device_descriptor.go:1159-1267 | the reconcile loop over the prior list: same length and order |
| RadioTable.RefreshedShows | unifi/device_descriptor.go:1182-1247 | the whole refreshed block on the raw answer: a null member stays null, a blank reads as null, anything else as reported; dfs taken only when unresolved; the last entry for a radio decides |
| RadioTable.RefreshStep | unifi/device_descriptor.go:1206-1247 | a refresh keeps name, typing and a set dfs, and repeating the same answer changes nothing |
| RadioTable.RunIsLastAnswer | unifi/device_descriptor.go:1179-1247 | the exact state after any run of refreshes: null stays null, otherwise the last reported value unless some answer blanked it, an unresolved dfs the first reported one, and nothing unknown once reported |
| RadioTable.ApplyThenRefreshIff | unifi/device_descriptor.go:1149-1158 | writing the blocks and refreshing leaves the last block of a radio as it was exactly when dfs is resolved, no member is unknown or empty, and each one the guard dropped was already stored |
| RateNames.DecimalIsInjective | unifi/client_descriptor.go:356 | decimal formatting loses nothing over all integers |
| RateNames.DecimalSpells | unifi/client_descriptor.go:356 | a formatted number is its plain decimal spelling: sign only when negative, no leading zero, that value |
| RateNames.RateNameExactly | unifi/client_descriptor.go:347-357 | a given name is used as it is; without one the name is the two limits spelled out, -1 for an unset one |
| RateNames.DerivedNameIsInjective | unifi/client_descriptor.go:347-357 | different limit pairs never share a derived name |
| RateNames.RateNameIff | unifi/client_descriptor.go:326-357 | two blocks without id and name share a group name exactly when their defaulted limits are equal |
| GroupProtocol.StepKeepsInv | unifi/client_descriptor.go:195-242 | every step of any operation keeps unique names, mutual exclusion and never-wrong vocabularies |
| GroupProtocol.ReachableInv | unifi/client_descriptor.go:105-110 | the invariant holds in every reachable state |
| GroupProtocol.Safety | unifi/client_descriptor.go:160-242 | in every reachable state names are distinct, one holder at most, nobody waits for a mutex it holds, and a finished operation has the right non-empty id at each name's place |
| GroupProtocol.FailsIffRefused | unifi/client_descriptor.go:212-239 | in every run an operation fails exactly when the controller refused one of its own calls |
| GroupProtocol.OnlyRequestsAreWritten | unifi/client_descriptor.go:195-199 | in every run member groups are only added, each under a requested name, and each usergroup is as the site had it or carries the limits of some operation's block of its name |
| GroupProtocol.FinishedSite | unifi/client_descriptor.go:219-240 | when all operations have finished the site has exactly its first names and the requested ones |
| GroupProtocol.EveryBlockWasServed | unifi/client_descriptor.go:359-411 | whatever copies were stale, each operation's usergroup has at some moment of the run been on the site with the block's name and limits |
| GroupProtocol.ReratedExactly | unifi/client_descriptor.go:426-439 | re-rating keeps id and name, sets the upload and download limits the block sets and keeps the others; nothing changes exactly when those already agree |
| GroupProtocol.LimitsOfExactly | unifi/client_descriptor.go:395-403 | a created usergroup has the block's limits and none where the block leaves one unset |
| GroupProtocol.EqualLimitsShareAGroup | unifi/client_descriptor.go:326-364 | two finished operations without id and name share a usergroup exactly when their limits agree |
| GroupProtocol.NoDeadlock | unifi/client_descriptor.go:105-110 | while an operation is unfinished some operation can step |
| GroupProtocol.RunsEnd | unifi/client_descriptor.go:111-193 | every run is bounded by the work its operations start with |
| ClientGroups.ResolveMemberGroupsLocked | unifi/client_descriptor.go:200-242 | the miss path fails exactly when a call of its own was refused; it resolves every name otherwise, creates exactly the names the misses call for, only absent requested ones and each once, and releases the lock |
| ClientGroups.CreatesExactly | unifi/client_descriptor.go:219-240 | those creates: distinct, requested, absent before, and all such names when no create is refused |
| ClientGroups.UpdateGroupIfNeeded | unifi/client_descriptor.go:416-448 | one update exactly when a limit the block sets disagrees, of that record only, limit by limit; fails exactly when the update is refused |
| ClientGroups.ResolveGroupLocked | unifi/client_descriptor.go:371-411 | the locked re-list re-rates the group of the name or adds one with the block's limits and no others, leaving every other group as it was; fails, changing nothing, exactly when a call was refused |
| ClientGroups.ResolveGroup | unifi/client_descriptor.go:330-364 | a usergroup id for the block: the given id, or its name's group, the only one touched, with the block's limits unless the prefetched copy was stale; fails exactly when a call was refused |
| ClientGroups.ResolveNames | unifi/client_descriptor.go:160-190 | every name gets the id of its group, by position, failing exactly when a call was refused; names already known cost no call and never take the lock |
| ClientGroups.BeforeSend | unifi/client_descriptor.go:146-192 | fails exactly when a call was refused; on success ids match names by position and the usergroup has the block's limits; only requested names are created and only the block's usergroup is touched in any case |
| ClientGroups.AfterReceive | unifi/client_descriptor.go:291-323 | the usergroup and the names loop: null for an unlisted usergroup or no ids, an unlisted group shown as its id |
| ClientGroups.QosReadBack | unifi/client_descriptor.go:291-304 | a resolved usergroup reads back from a later listing with its name, each limit the block sets, and no other limit on a group created for it |
| ClientGroups.ReadBackIff | unifi/client_descriptor.go:306-323 | resolved ids read back as the requested names exactly when each group was in the vocabulary used |
| ClientGroups.FreshReadBack | unifi/client_descriptor.go:306-323 | with a fresh vocabulary a non-empty request reads back as written |
| GroupCache.ClientListDataSource.ResolveGroupID | unifi/client_list_data_source.go:115-148 | one cached lookup under its mutex: the answer and the cache after it |
| GroupCache.CreateKeepsSoundIff | unifi/client_list_data_source.go:126-141 | creating a group keeps the cache right exactly when its name was not cached there or has the cached id |
| GroupCache.CacheAgrees | unifi/client_list_data_source.go:113-148 | in any run with unique names every answer is what a scan gives at that moment, not-found included, or the failure of a listing that was not answered |
| GroupCache.LaterLookups | unifi/client_list_data_source.go:126-141 | after a lookup finds a name, or lists a site having it, later lookups of it answer the same id even where a listing would fail |
| GroupCache.FoundStaysFound | unifi/client_list_data_source.go:126-130 | from an empty cache a name answered once is answered the same ever after |
| GroupCache.CachedRunIsTruth | unifi/client_list_data_source.go:113-148 | when listings succeed the cached run is the scanning run |
| PortProfile.TaggedNetworkUniverse | unifi/port_profile_resource.go:170-183 | the loop and sort compute the universe |
| PortProfile.UniverseIff | unifi/port_profile_resource.go:168-183 | the universe is sorted and has exactly the ids of the eligible networks |
| PortProfile.ExcludedNetworkIDs | unifi/port_profile_resource.go:187-212 | the sorted complement of the selection and the sorted ids outside the universe |
| PortProfile.ActualTaggedNetworkIDs | unifi/port_profile_resource.go:216-237 | the tagged set a mode and exclusion list mean |
| PortProfile.ReadExactly | unifi/port_profile_resource.go:136-166 | what a read shows, id by id on the inventory: every taggable network in auto, none in block_all, those not excluded in custom, null in other modes |
| PortProfile.ConfigFromModelIff | unifi/port_profile_resource.go:311-388 | resolving succeeds exactly on known, consistent attributes, with the mode the lists call for, and the validator gives the same verdict and error |
| PortProfile.ConfigErrorIff | unifi/port_profile_resource.go:311-388 | which error is reported for which contradiction, in order of precedence |
| PortProfile.ForwardForIff | unifi/port_profile_resource.go:279-290 | the three pairs of mode and forward: auto all, block_all native, custom customize, and no other |
| PortProfile.PortProfileAPI.ApplyVLANConfig | unifi/port_profile_resource.go:390-431 | the in-place assignment, and no change when refused |
| PortProfile.PortProfileAPI.BeforeSend | unifi/port_profile_resource.go:112-134 | the write of a configuration over the site's networks |
| PortProfile.PortProfileAPI.AfterReceive | unifi/port_profile_resource.go:136-166 | the two set attributes a read gives |
| PortProfile.SentIff | unifi/port_profile_resource.go:239-300 | a write is refused exactly on unknown or inconsistent attributes or an ineligible tagged id, which the error names; otherwise mode and forward are the derived ones |
| PortProfile.SentExactly | unifi/port_profile_resource.go:390-431 | the whole profile an accepted write leaves: mode, forward, and the exclusion list as complement, as configured, cleared or untouched |
| PortProfile.InclusionRoundTrip | unifi/port_profile_resource.go:390-455 | an accepted tagged set reads back as exactly that set, the empty one through block_all |
| PortProfile.ExclusionRoundTrip | unifi/port_profile_resource.go:420-431 | an accepted exclusion list reads back as itself and the tagged set is its complement |
| PortProfile.ReadWriteRead | unifi/port_profile_resource.go:214-237 | writing back the tagged set just read is accepted and reads the same, for any stored profile |
| PortProfile.UnconfiguredLeavesAlone | unifi/port_profile_resource.go:400-408 | with no VLAN attribute configured nothing but a configured forward changes |
| NetworkSlots.WriteSlots | unifi/network_resource.go:350-377 | the slot writer of the DNS, DHCPv6 DNS and NTP lists: values in order, the rest cleared |
| NetworkSlots.EverySlotIsWritten | unifi/network_resource.go:350-377 | every slot is written: the list's elements in order and the empty string, never nil, beyond them |
| NetworkSlots.CollectNonEmptyStringPointers | unifi/network_data_source.go:379-387 | the compacting loop over nil or empty slots |
| NetworkSlots.CollectNonEmptyStrings | unifi/network_data_source.go:368-376 | the compacting loop over plain slots |
| NetworkSlots.SlotsFromNetwork | unifi/network_resource.go:381-389 | reading slots: the compacted list, null when empty |
| NetworkSlots.ReadAfterWrite | unifi/network_resource.go:346-389 | reading after writing gives the non-empty elements that had a slot, in order, null when none |
| NetworkSlots.SlotsRestoreIff | unifi/network_resource.go:346-389 | a list reads back as written exactly when it is not empty, fits, and has no empty element |
| NetworkSlots.ReadIsFixedPoint | unifi/network_resource.go:346-355 | whatever the slots hold, read, write and read again gives the same list |
| NetworkSlots.WinsMembers.Write | unifi/network_resource.go:481-520 | the WINS writer: flag and slots, an absent block disabling and clearing |
| NetworkSlots.WinsRestoreIff | unifi/network_resource.go:479-538 | a WINS block reads back as written exactly when its flag is known and its addresses are null or a restorable pair |
| NetworkSlots.GuardingServersToNetwork | unifi/network_resource.go:309-332 | the guarding writer fills the first slots and leaves the rest |
| NetworkSlots.WireTravelsIffAssigned | unifi/network_descriptor.go:431-445 | a slot's wire joins the mask exactly when the encoder assigns that slot |
| NetworkSlots.MaskedGuardingExactly | unifi/network_descriptor.go:716-739 | the masked update on the raw object: with a known servers list slot i becomes its element or stays; without one, or of another type, nothing changes and no slot is masked |
| NetworkSlots.MaskedGuardingIsInPlace | unifi/network_descriptor.go:716-739 | the masked update is the encoder run on the controller's own slots: the first min(3, n) change, the rest are kept |
| NetworkSlots.GuardingRestoresIff | unifi/network_resource.go:307-344 | a guarding list reads back as written exactly when it fits, has no empty element, and the slots beyond it were empty |

## Left out

- The go-unifi SDK and HTTP: a masked call is modelled by the semantics the repository's comments state (it overwrites its entries crossed with its mask; an empty mask is refused; a refused call stores nothing); the SDK source is not part of this model.
- DeclaredWrites.GroupByFieldSet: groups are values in a map, so the aliasing of the source's map of pointers is not modelled.
- DeclaredWrites.WriteDeclared: the entries' declared names are required to be non-empty and comma-free, which the two encoders are proved to give; port entries without an index address no cell.
- RadioTable.RadiosDeclaredFromConfig: the accumulation of warning diagnostics over blocks is left out; each block's warnings are in RadioTable.EncodeRadio.
- Adoption, retries and waiting in the device hook, and that radios are written only after the port calls succeeded.
- GroupProtocol.Safety: no claim that limits are still in force when an operation finishes; a known group is re-rated from a prefetched copy outside the lock, as in the source, so another operation may have replaced them (GroupProtocol.EveryBlockWasServed states what holds). Groups created, deleted or renamed by others are outside the model.
- ClientGroups.BeforeSend: the companion enable flags of fixed IP, DNS record, access point and network override are left out as simple members, and so are the create defaults AfterReceive fills in.
- GroupCache.CacheAgrees: groups are only added and uniquely named per site; deletion and renaming outside the provider make a cached id stale by design.
- Durations are whole seconds; the conversion from Go durations is not modelled.
- Terraform's set attributes are element lists compared without order; nil and empty Go slices are the same except where the source tells them apart.
- Integers are unbounded: the source never computes with the modelled numbers beyond comparing and formatting them.
- DHCP relay, boot, VLAN purpose, the prior-null rule and the vlan-only preservation of the network resource: member-wise copies without a cross-member property.
- Schemas, validators other than the VLAN one, identity, import, state upgrade, and diagnostic text.
