// port_override blocks of unifi_device: encoding one block, the members it
// declares, and rebuilding state from the prior blocks on read.

module PortOverrides {
  import opened FieldSets
  import opened Terraform
  import opened DeclaredWrites

  const TEXT_MEMBERS: seq<string> := [
    "name", "portconf_id", "poe_mode", "dot1x_ctrl", "fec_mode", "forward", "native_networkconf_id",
    "setting_preference", "stormctrl_type", "tagged_vlan_mgmt", "voice_networkconf_id"]

  const LINK_FLAGS: seq<string> := [
    "autoneg", "egress_rate_limit_kbps_enabled", "flow_control_enabled", "full_duplex", "isolation",
    "lldpmed_enabled", "lldpmed_notify_enabled"]

  const GUARD_FLAGS: seq<string> := [
    "port_keepalive_enabled", "port_security_enabled", "stormctrl_bcast_enabled",
    "stormctrl_mcast_enabled", "stormctrl_ucast_enabled", "stp_port_mode"]

  const NUMBER_MEMBERS: seq<string> := [
    "egress_rate_limit_kbps", "mirror_port_idx", "priority_queue1_level", "priority_queue2_level",
    "priority_queue3_level", "priority_queue4_level", "speed", "stormctrl_bcast_level",
    "stormctrl_bcast_rate", "stormctrl_mcast_level", "stormctrl_mcast_rate", "stormctrl_ucast_level",
    "stormctrl_ucast_rate"]

  const OTHER_MEMBERS: seq<string> := [
    "dot1x_idle_timeout", "aggregate_members", "excluded_networkconf_ids",
    "multicast_router_networkconf_ids", "port_security_mac_address"]

  const OP_MODE: string := "op_mode"

  // The members a masked call can write besides op_mode, in the order the
  // declared-field pass visits them (op_mode comes between head and tail), and
  // how each is typed. index addresses the entry and tagged_networkconf_ids is
  // never written, so neither is a member. The results below hold for any table.
  datatype Schema = Schema(head: seq<string>, tail: seq<string>, kinds: map<string, Kind>) {
    ghost predicate Valid() {
      (forall m :: m in kinds <==> m in head || m in tail) &&
      (forall m :: m in kinds ==> WireName(m)) &&
      OP_MODE !in kinds
    }
  }

  function OtherKind(m: string): Kind {
    if m == "dot1x_idle_timeout" then ADuration
    else if m == "aggregate_members" then ANumberList
    else if m == "port_security_mac_address" then ATextList
    else ATextSet
  }

  function SchemaOf(texts: seq<string>, flags: seq<string>, numbers: seq<string>, others: seq<string>): Schema {
    Schema(texts + flags + numbers, others,
           (map m | m in texts :: AText) + (map m | m in flags :: AFlag) +
           (map m | m in numbers :: ANumber) + (map m | m in others :: OtherKind(m)))
  }

  const PORT_OVERRIDE: Schema := SchemaOf(
    TEXT_MEMBERS, LINK_FLAGS + GUARD_FLAGS, NUMBER_MEMBERS, OTHER_MEMBERS)

  predicate MemberName(m: string) {
    WireName(m) && m != OP_MODE
  }

  lemma SchemaOfIsValid(texts: seq<string>, flags: seq<string>, numbers: seq<string>, others: seq<string>)
    requires forall m :: m in texts || m in flags || m in numbers || m in others ==> MemberName(m)
    ensures SchemaOf(texts, flags, numbers, others).Valid()
  {
  }

  lemma TextNames()
    ensures forall m :: m in TEXT_MEMBERS ==> MemberName(m)
  {
  }

  lemma LinkFlagNames()
    ensures forall m :: m in LINK_FLAGS ==> MemberName(m)
  {
  }

  lemma GuardFlagNames()
    ensures forall m :: m in GUARD_FLAGS ==> MemberName(m)
  {
  }

  lemma NumberNames()
    ensures forall m :: m in NUMBER_MEMBERS ==> MemberName(m)
  {
  }

  lemma OtherNames()
    ensures forall m :: m in OTHER_MEMBERS ==> MemberName(m)
  {
  }

  // The provider's own table qualifies.
  lemma PortOverrideIsValid()
    ensures PORT_OVERRIDE.Valid()
  {
    TextNames();
    LinkFlagNames();
    GuardFlagNames();
    NumberNames();
    OtherNames();
    SchemaOfIsValid(TEXT_MEMBERS, LINK_FLAGS + GUARD_FLAGS, NUMBER_MEMBERS, OTHER_MEMBERS);
  }

  // One block. Durations are whole seconds.
  datatype PortBlock = PortBlock(
    index: Attr<int>,
    opMode: Attr<string>,
    tagged: Attr<seq<string>>,
    members: map<string, Attr<Wire>>)
  {
    // What the schema guarantees about a decoded block.
    ghost predicate Typed(s: Schema) {
      s.Valid() && TypedMembers(s.kinds, members)
    }
  }

  // op_mode is written only for a non-default mode.
  function WrittenMode(b: PortBlock): string {
    var mode := b.opMode.Or("");
    if mode != "switch" then mode else ""
  }

  // The members whose configuration is neither null nor unknown, plus op_mode
  // when it is written.
  function DeclaredFields(s: Schema, b: PortBlock): seq<string>
    requires b.Typed(s)
  {
    DeclaredAmong(b.members, s.head)
    + (if WrittenMode(b) != "" then [OP_MODE] else [])
    + DeclaredAmong(b.members, s.tail)
  }

  // An index that is not resolved yet addresses no port, so nothing is declared.
  function Encode(s: Schema, b: PortBlock): Declared<int>
    requires b.Typed(s)
  {
    var values := ToWires(s.kinds, b.members)[OP_MODE := Text(WrittenMode(b))];
    if b.index.Known? then Declared(Entry(Some(b.index.value), values), DeclaredFields(s, b))
    else Declared(Entry(None, values), if b.index.Unknown? then [] else DeclaredFields(s, b))
  }

  // The mask names a member exactly when the block set it, and op_mode exactly
  // when it is known, not empty and not the default; every name is a wire name.
  lemma DeclaredFieldsIff(s: Schema, b: PortBlock)
    requires b.Typed(s)
    ensures forall m :: m in DeclaredFields(s, b) <==>
      (m in s.kinds && b.members[m].Known?) ||
      (m == OP_MODE && b.opMode.Known? && b.opMode.value != "" && b.opMode.value != "switch")
    ensures WireNames(DeclaredFields(s, b))
  {
    forall m ensures m in DeclaredFields(s, b) <==>
      (m in s.kinds && b.members[m].Known?) || (m == OP_MODE && WrittenMode(b) != "")
    {
      DeclaredAmongIff(b.members, s.head, m);
      DeclaredAmongIff(b.members, s.tail, m);
    }
  }

  ghost predicate AllTyped(s: Schema, blocks: seq<PortBlock>) {
    forall b :: b in blocks ==> b.Typed(s)
  }

  function EncodeAll(s: Schema, blocks: seq<PortBlock>): seq<Declared<int>>
    requires AllTyped(s, blocks)
  {
    seq(|blocks|, i requires 0 <= i < |blocks| => Encode(s, blocks[i]))
  }

  lemma EncodeAllWireNames(s: Schema, blocks: seq<PortBlock>)
    requires AllTyped(s, blocks)
    ensures AllWireNames(EncodeAll(s, blocks))
  {
    forall i | 0 <= i < |blocks| ensures WireNames(Encode(s, blocks[i]).fields) {
      DeclaredFieldsIff(s, blocks[i]);
    }
  }

  // A null or unknown set declares nothing.
  method DeclaredFromConfig(s: Schema, config: Attr<seq<PortBlock>>) returns (out: seq<Declared<int>>)
    requires AllTyped(s, config.Or([]))
    ensures out == EncodeAll(s, config.Or([]))
    ensures AllWireNames(out)
  {
    if !config.Known? { return []; }
    out := [];
    for i := 0 to |config.value|
      invariant |out| == i
      invariant forall j :: 0 <= j < i ==> out[j] == Encode(s, config.value[j])
    {
      out := out + [Encode(s, config.value[i])];
    }
    EncodeAllWireNames(s, config.value);
  }

  // The block that speaks for port k: the last one naming it.
  function LastBlock(blocks: seq<PortBlock>, k: int): (r: Option<PortBlock>)
    ensures r.Some? ==> r.value in blocks && r.value.index == Known(k)
    ensures r.None? ==> forall b :: b in blocks ==> b.index != Known(k)
  {
    if blocks == [] then None
    else if blocks[|blocks| - 1].index == Known(k) then Some(blocks[|blocks| - 1])
    else LastBlock(blocks[..|blocks| - 1], k)
  }

  lemma {:induction false} LastBlockIsLast(blocks: seq<PortBlock>, k: int, i: nat)
    requires i < |blocks| && blocks[i].index == Known(k)
    requires forall j :: i < j < |blocks| ==> blocks[j].index != Known(k)
    ensures LastBlock(blocks, k) == Some(blocks[i])
  {
    if i < |blocks| - 1 { LastBlockIsLast(blocks[..|blocks| - 1], k, i); }
  }

  // What the blocks ask a cell to hold: what the last block naming the port
  // sets the member to, and otherwise what was there. The default op_mode is
  // no request.
  function Configured(s: Schema, blocks: seq<PortBlock>, before: Cells<int>, k: int, m: string): Option<Wire>
    requires AllTyped(s, blocks)
  {
    match LastBlock(blocks, k)
    case None => Cell(before, k, m)
    case Some(b) =>
      if m == OP_MODE && b.opMode.Known? && b.opMode.value !in {"", "switch"} then Some(Text(b.opMode.value))
      else if m in s.kinds && b.members[m].Known? then Some(b.members[m].value)
      else Cell(before, k, m)
  }

  ghost predicate Written(s: Schema, blocks: seq<PortBlock>, before: Cells<int>, after: Cells<int>, k: int)
    requires AllTyped(s, blocks)
  {
    forall m :: Cell(after, k, m) == Configured(s, blocks, before, k, m)
  }

  // An entry is addressed by its block's index, and one not resolved yet
  // declares nothing.
  lemma EncodeAddresses(s: Schema, b: PortBlock, k: int)
    requires b.Typed(s)
    ensures Encode(s, b).entry.key == Some(k) <==> b.index == Known(k)
    ensures b.index.Unknown? ==> Encode(s, b).fields == []
    ensures !b.index.Unknown? ==> Encode(s, b).fields == DeclaredFields(s, b)
  {
  }

  lemma {:induction false} LastBlockIsSent(s: Schema, blocks: seq<PortBlock>, k: int)
    requires AllTyped(s, blocks)
    ensures k in AsMap(EncodeAll(s, blocks)) <==> LastBlock(blocks, k).Some?
    ensures k in AsMap(EncodeAll(s, blocks)) ==> AsMap(EncodeAll(s, blocks))[k] == Encode(s, LastBlock(blocks, k).value)
  {
    if blocks != [] {
      var n := |blocks| - 1;
      LastBlockIsSent(s, blocks[..n], k);
      assert EncodeAll(s, blocks)[..n] == EncodeAll(s, blocks[..n]);
      EncodeAddresses(s, blocks[n], k);
    }
  }

  // The overlay of the encoded blocks is what the blocks themselves ask for.
  lemma OverlayIsConfigured(s: Schema, blocks: seq<PortBlock>, before: Cells<int>, k: int, m: string)
    requires AllTyped(s, blocks)
    ensures Overlay(before, EncodeAll(s, blocks), k, m) == Configured(s, blocks, before, k, m)
  {
    LastBlockIsSent(s, blocks, k);
    var last := LastBlock(blocks, k);
    if last.Some? {
      DeclaredFieldsIff(s, last.value);
      assert m in s.kinds ==> Fits(s.kinds[m], last.value.members[m]);
    }
  }

  // A block whose index is not resolved reaches no call; every entry in a call
  // encodes a block that sets something.
  lemma UnresolvedIsNotSent(s: Schema, blocks: seq<PortBlock>, d: Declared<int>)
    requires AllTyped(s, blocks) && d in Sent(EncodeAll(s, blocks), false)
    ensures exists b :: b in blocks && !b.index.Unknown? && d == Encode(s, b) && DeclaredFields(s, b) != []
  {
    EncodeAllWireNames(s, blocks);
    SentIsLegal(EncodeAll(s, blocks), false);
    var i :| 0 <= i < |blocks| && d == Encode(s, blocks[i]);
    EncodeAddresses(s, blocks[i], 0);
    assert blocks[i] in blocks;
  }

  lemma AllUnresolvedNoCall(s: Schema, blocks: seq<PortBlock>)
    requires AllTyped(s, blocks) && forall b :: b in blocks ==> b.index.Unknown?
    ensures Grouped(Sent(EncodeAll(s, blocks), false)) == []
  {
    var sent := Sent(EncodeAll(s, blocks), false);
    if sent != [] { UnresolvedIsNotSent(s, blocks, sent[0]); }
  }

  // The write half of BeforeSend for ports. It fails only when the controller
  // refuses a call; on success every cell holds what the blocks ask for, and on
  // failure each port is written whole or not at all.
  method WritePortOverrides(s: Schema, controller: Controller<int>, config: Attr<seq<PortBlock>>)
    returns (failed: bool)
    requires AllTyped(s, config.Or([]))
    modifies controller
    ensures failed <==> RefusesAny(
      controller.refused, old(controller.calls), |Grouped(Sent(EncodeAll(s, config.Or([])), false))|)
    ensures !failed ==> forall k :: Written(s, config.Or([]), old(controller.cells), controller.cells, k)
    ensures forall k ::
      (Written(s, config.Or([]), old(controller.cells), controller.cells, k) ||
       forall m :: Cell(controller.cells, k, m) == Cell(old(controller.cells), k, m))
  {
    ghost var before := controller.cells;
    var declared := DeclaredFromConfig(s, config);
    failed := WriteDeclared(controller, declared, false);
    forall k, m ensures Overlay(before, declared, k, m) == Configured(s, config.Or([]), before, k, m) {
      OverlayIsConfigured(s, config.Or([]), before, k, m);
    }
    forall k ensures
      (Written(s, config.Or([]), before, controller.cells, k) ||
       forall m :: Cell(controller.cells, k, m) == Cell(before, k, m))
    {
      assert AllOrNothing(before, declared, controller.cells, k);
    }
  }

  // ---------------------------------------------------------------------
  // Reading back
  // ---------------------------------------------------------------------

  // An entry as go-unifi decodes it: every member present in its own shape.
  ghost predicate Decoded(s: Schema, e: Entry<int>) {
    DecodedMembers(s.kinds, e.values) && OP_MODE in e.values && e.values[OP_MODE].Text?
  }

  ghost predicate AllDecoded(s: Schema, answer: seq<Entry<int>>) {
    forall e :: e in answer ==> Decoded(s, e)
  }

  function ReconcileBlock(s: Schema, b: PortBlock, e: Entry<int>): PortBlock
    requires b.Typed(s) && Decoded(s, e)
  {
    var mode := e.values[OP_MODE].text;
    b.(members := ReconcileMembers(s.kinds, b.members, e.values),
       opMode := Known(if mode == "" then "switch" else mode))
  }

  // State for one block after a read: unchanged when its port is not reported.
  function Refreshed(s: Schema, b: PortBlock, answer: seq<Entry<int>>): PortBlock
    requires b.Typed(s) && AllDecoded(s, answer)
  {
    ByKeyIsFromAnswer(answer);
    var k := b.index.Or(0);
    if k in ByKey(answer) then ReconcileBlock(s, b, ByKey(answer)[k]) else b
  }

  method ReconcilePortOverrides(s: Schema, prior: seq<PortBlock>, answer: seq<Entry<int>>)
    returns (out: seq<PortBlock>)
    requires AllTyped(s, prior) && AllDecoded(s, answer)
    ensures |out| == |prior|
    ensures forall i :: 0 <= i < |prior| ==> out[i] == Refreshed(s, prior[i], answer)
  {
    var apiByIndex := IndexByKey(answer);
    ByKeyIsFromAnswer(answer);
    out := [];
    for i := 0 to |prior|
      invariant |out| == i
      invariant forall j :: 0 <= j < i ==> out[j] == Refreshed(s, prior[j], answer)
    {
      var idx := prior[i].index.Or(0);
      if idx !in apiByIndex {
        out := out + [prior[i]];
        continue;
      }
      out := out + [ReconcileBlock(s, prior[i], apiByIndex[idx])];
    }
  }

  // What a block must show once its port is reported: each member it manages,
  // and op_mode, as reported.
  ghost predicate ShowsEntry(s: Schema, b: PortBlock, e: Entry<int>, r: PortBlock)
    requires b.Typed(s) && Decoded(s, e)
  {
    r.index == b.index && r.tagged == b.tagged && r.members.Keys == b.members.Keys &&
    r.opMode == Known(if e.values[OP_MODE] == Text("") then "switch" else e.values[OP_MODE].text) &&
    forall m :: m in b.members ==>
      if b.members[m].Null? then r.members[m] == Null else ReadsAs(s.kinds[m], e.values[m], r.members[m])
  }

  // The last entry for the port decides; without one the block stays as it was.
  ghost predicate Shows(s: Schema, b: PortBlock, answer: seq<Entry<int>>, r: PortBlock)
    requires b.Typed(s)
  {
    ((forall e :: e in answer ==> e.key != Some(b.index.Or(0))) ==> r == b) &&
    forall i :: ReportedAt(answer, b.index.Or(0), i) ==> Decoded(s, answer[i]) && ShowsEntry(s, b, answer[i], r)
  }

  lemma RefreshedShows(s: Schema, b: PortBlock, answer: seq<Entry<int>>)
    requires b.Typed(s) && AllDecoded(s, answer)
    ensures Shows(s, b, answer, Refreshed(s, b, answer))
  {
    var k := b.index.Or(0);
    ByKeyIff(answer, k);
    ByKeyIsFromAnswer(answer);
    if k in ByKey(answer) {
      var e := ByKey(answer)[k];
      assert e in answer && e.key == Some(k);
      forall m | m in b.members && !b.members[m].Null?
        ensures ReadsAs(s.kinds[m], e.values[m], ReconcileBlock(s, b, e).members[m])
      {
        ReconcileExactly(s.kinds[m], b.members[m], e.values[m]);
      }
    }
  }

  // The same block, with the element order of set members ignored.
  ghost predicate SameBlock(s: Schema, a: PortBlock, b: PortBlock) {
    a.index == b.index && a.opMode == b.opMode && a.tagged == b.tagged &&
    SameMembers(s.kinds, a.members, b.members)
  }

  lemma ReconcileBlockIff(s: Schema, b: PortBlock, e: Entry<int>)
    requires b.Typed(s) && Decoded(s, e)
    requires forall m :: m in s.kinds && b.members[m].Known? ==> e.values[m] == b.members[m].value
    ensures SameBlock(s, ReconcileBlock(s, b, e), b) <==>
      AllRestorable(b.members) &&
      b.opMode == Known(if e.values[OP_MODE] == Text("") then "switch" else e.values[OP_MODE].text)
  {
    ReconcileMembersIff(s.kinds, b.members, e.values);
  }

  // If the controller echoes what Encode produced, reading restores the block
  // exactly when no member is unknown or the empty string and op_mode is set. A
  // block without a resolved index addresses no port and is always kept.
  lemma EncodeThenReconcileIff(s: Schema, b: PortBlock)
    requires b.Typed(s)
    ensures AllDecoded(s, [Encode(s, b).entry])
    ensures SameBlock(s, Refreshed(s, b, [Encode(s, b).entry]), b) <==>
      (b.index.Known? ==> AllRestorable(b.members) && b.opMode.Known? && b.opMode.value != "")
  {
    var e := Encode(s, b).entry;
    ToWiresDecoded(s.kinds, b.members);
    assert Decoded(s, e);
    assert [e][..0] == [];
    assert ByKey([e]) == if e.key.Some? then map[e.key.value := e] else map[];
    if b.index.Known? {
      ReconcileBlockIff(s, b, e);
    }
  }

  // What op_mode needs to survive: a written mode always does; the default is
  // never written, so the port must have been in it already.
  predicate ModeSurvives(b: PortBlock, before: Cells<int>, k: int) {
    b.opMode.Known? && b.opMode.value != "" &&
    (b.opMode.value == "switch" ==>
       match Cell(before, k, OP_MODE)
       case Some(Text(mode)) => mode == "" || mode == "switch"
       case _ => true)
  }

  // The device the controller reports: every entry shows what is stored.
  ghost predicate Reports(s: Schema, cells: Cells<int>, answer: seq<Entry<int>>) {
    forall e :: e in answer && e.key.Some? ==>
      OP_MODE in e.values && e.values[OP_MODE] == Stored(AText, cells, e.key.value, OP_MODE) &&
      forall m :: m in s.kinds ==> m in e.values && e.values[m] == Stored(s.kinds[m], cells, e.key.value, m)
  }

  // Applying the blocks and refreshing shows no difference for a block, the
  // last to name its port, exactly when its members are restorable and its
  // op_mode survives -- whatever the controller held and however it answers.
  lemma ApplyThenRefreshIff(
    s: Schema, blocks: seq<PortBlock>, b: PortBlock, k: int,
    before: Cells<int>, after: Cells<int>, answer: seq<Entry<int>>)
    requires AllTyped(s, blocks) && LastBlock(blocks, k) == Some(b)
    requires Written(s, blocks, before, after, k)
    requires AllDecoded(s, answer) && Reports(s, after, answer)
    ensures SameBlock(s, Refreshed(s, b, answer), b) <==>
      (k in ByKey(answer) ==> AllRestorable(b.members) && ModeSurvives(b, before, k))
  {
    if k in ByKey(answer) {
      ByKeyIsFromAnswer(answer);
      ReadsBackWritten(s, blocks, b, k, before, after, ByKey(answer)[k]);
      ReconcileBlockIff(s, b, ByKey(answer)[k]);
    }
  }

  // What the controller reports for a port after the write: each declared
  // member at its configured value, and op_mode as the mask carried it.
  lemma ReadsBackWritten(
    s: Schema, blocks: seq<PortBlock>, b: PortBlock, k: int,
    before: Cells<int>, after: Cells<int>, e: Entry<int>)
    requires AllTyped(s, blocks) && LastBlock(blocks, k) == Some(b)
    requires Written(s, blocks, before, after, k)
    requires e.key == Some(k) && Decoded(s, e) && Reports(s, after, [e])
    ensures forall m :: m in s.kinds && b.members[m].Known? ==> e.values[m] == b.members[m].value
    ensures e.values[OP_MODE] ==
      if b.opMode.Known? && b.opMode.value !in {"", "switch"} then Text(b.opMode.value)
      else Stored(AText, before, k, OP_MODE)
  {
    assert e in [e];
    forall m | m in s.kinds && b.members[m].Known? ensures e.values[m] == b.members[m].value {
      assert Cell(after, k, m) == Configured(s, blocks, before, k, m);
      assert Fits(s.kinds[m], b.members[m]);
    }
    assert Cell(after, k, OP_MODE) == Configured(s, blocks, before, k, OP_MODE);
  }
}
