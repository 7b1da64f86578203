// radio_table blocks of unifi_device: the pre-write guard, the declared mask,
// and rebuilding state from the prior list on read. Radios are keyed by name
// and written through the same grouped calls as port overrides.

module RadioTable {
  import opened FieldSets
  import opened Terraform
  import opened DeclaredWrites

  const FIRST_MEMBERS: seq<string> := [
    "radio", "channel", "ht", "tx_power", "tx_power_mode", "min_rssi_enabled", "min_rssi", "antenna_gain"]

  const LAST_MEMBERS: seq<string> := [
    "antenna_id", "hard_noise_floor_enabled", "loadbalance_enabled", "maxsta", "sens_level",
    "sens_level_enabled", "vwire_enabled"]

  // The channel widths the controller accepts.
  const VALID_HT: set<int> := {20, 40, 80, 160, 240, 320, 1080, 2160, 4320}

  function RadioKind(m: string): Kind {
    if m in {"radio", "channel", "tx_power", "tx_power_mode"} then AText
    else if m in {"ht", "min_rssi", "antenna_gain", "antenna_id", "maxsta", "sens_level"} then ANumber
    else AFlag
  }

  // The members in the order the declared-field pass visits them, their types,
  // and the wire names of the ones treated specially. The results below hold
  // for any table.
  datatype Schema = Schema(
    order: seq<string>, kinds: map<string, Kind>,
    minRssiEnabled: string, minRssi: string, maxsta: string,
    sensLevelEnabled: string, sensLevel: string, ht: string, dfs: string)
  {
    ghost predicate Ordered() {
      forall m :: m in kinds <==> m in order
    }

    ghost predicate Valid() {
      Ordered() &&
      (forall m :: m in kinds ==> WireName(m) && kinds[m] in {AText, AFlag, ANumber}) &&
      dfs !in kinds &&
      {minRssiEnabled, sensLevelEnabled, minRssi, maxsta, sensLevel, ht} <= kinds.Keys &&
      kinds[minRssiEnabled] == kinds[sensLevelEnabled] == AFlag &&
      kinds[minRssi] == kinds[maxsta] == kinds[sensLevel] == kinds[ht] == ANumber &&
      minRssi != maxsta && minRssi != sensLevel && minRssi != ht && maxsta != sensLevel &&
      maxsta != ht && sensLevel != ht
    }

    // Whether the guard may clear a member.
    predicate Guarded(m: string) {
      m == minRssi || m == maxsta || m == sensLevel || m == ht
    }
  }

  function RadioOver(order: seq<string>): Schema {
    Schema(order, map m | m in order :: RadioKind(m),
           "min_rssi_enabled", "min_rssi", "maxsta", "sens_level_enabled", "sens_level", "ht", "dfs")
  }

  const RADIO: Schema := RadioOver(FIRST_MEMBERS + LAST_MEMBERS)

  lemma FirstNames()
    ensures forall m :: m in FIRST_MEMBERS ==> WireName(m) && m != "dfs"
    ensures {"ht", "min_rssi_enabled", "min_rssi"} <= Elements(FIRST_MEMBERS)
  {
    assert FIRST_MEMBERS[2] == "ht" && FIRST_MEMBERS[5] == "min_rssi_enabled" && FIRST_MEMBERS[6] == "min_rssi";
  }

  lemma LastNames()
    ensures forall m :: m in LAST_MEMBERS ==> WireName(m) && m != "dfs"
    ensures {"maxsta", "sens_level", "sens_level_enabled"} <= Elements(LAST_MEMBERS)
  {
    assert LAST_MEMBERS[3] == "maxsta" && LAST_MEMBERS[4] == "sens_level" && LAST_MEMBERS[5] == "sens_level_enabled";
  }

  lemma GuardedKinds()
    ensures RadioKind("min_rssi_enabled") == RadioKind("sens_level_enabled") == AFlag
    ensures RadioKind("min_rssi") == RadioKind("maxsta") == RadioKind("sens_level") == RadioKind("ht") == ANumber
  {
  }

  lemma RadioOverIsValid(first: seq<string>, last: seq<string>)
    requires forall m :: m in first || m in last ==> WireName(m) && m != "dfs"
    requires {"ht", "min_rssi_enabled", "min_rssi"} <= Elements(first)
    requires {"maxsta", "sens_level", "sens_level_enabled"} <= Elements(last)
    ensures RadioOver(first + last).Valid()
  {
    GuardedKinds();
    assert forall m :: m in RadioOver(first + last).kinds ==> RadioKind(m) in {AText, AFlag, ANumber};
  }

  // The provider's own table qualifies.
  lemma RadioIsValid()
    ensures RADIO.Valid()
  {
    FirstNames();
    LastNames();
    RadioOverIsValid(FIRST_MEMBERS, LAST_MEMBERS);
  }

  datatype RadioBlock = RadioBlock(name: Attr<string>, dfs: Attr<bool>, members: Members) {
    ghost predicate Typed(s: Schema) {
      s.Ordered() && TypedMembers(s.kinds, members)
    }
  }

  // ---------------------------------------------------------------------
  // The guard before a write
  // ---------------------------------------------------------------------

  // The members the guard reads and may clear.
  datatype Guarded = Guarded(
    minRssiEnabled: bool, minRssi: Option<int>, maxsta: Option<int>,
    sensLevelEnabled: bool, sensLevel: Option<int>, ht: Option<int>)

  datatype GuardedField = MinRssi | Maxsta | SensLevel

  datatype Warning = Warning(field: GuardedField, value: int, lo: int, hi: int)

  predicate InRange(v: Option<int>, lo: int, hi: int) {
    v.Some? && lo <= v.value <= hi
  }

  function Sanitized(g: Guarded): Guarded {
    g.(minRssi := if g.minRssiEnabled && InRange(g.minRssi, -90, -67) then g.minRssi else None,
       maxsta := if InRange(g.maxsta, 1, 200) then g.maxsta else None,
       sensLevel := if g.sensLevelEnabled && InRange(g.sensLevel, -90, -50) then g.sensLevel else None,
       ht := if g.ht.Some? && g.ht.value in VALID_HT then g.ht else None)
  }

  function Warn(meant: bool, field: GuardedField, v: Option<int>, lo: int, hi: int): seq<Warning> {
    if meant && v.Some? && !InRange(v, lo, hi) then [Warning(field, v.value, lo, hi)] else []
  }

  // A reported maxsta of 0 means unset, so only another value is warned about.
  function Warnings(g: Guarded): seq<Warning> {
    Warn(g.minRssiEnabled, MinRssi, g.minRssi, -90, -67)
    + Warn(g.maxsta != Some(0), Maxsta, g.maxsta, 1, 200)
    + Warn(g.sensLevelEnabled, SensLevel, g.sensLevel, -90, -50)
  }

  // The part of the wire struct the guard edits in place.
  class DeviceRadio {
    var minRssiEnabled: bool
    var minRssi: Option<int>
    var maxsta: Option<int>
    var sensLevelEnabled: bool
    var sensLevel: Option<int>
    var ht: Option<int>

    constructor (g: Guarded)
      ensures State() == g
    {
      minRssiEnabled, minRssi, maxsta := g.minRssiEnabled, g.minRssi, g.maxsta;
      sensLevelEnabled, sensLevel, ht := g.sensLevelEnabled, g.sensLevel, g.ht;
    }

    function State(): Guarded
      reads this
    {
      Guarded(minRssiEnabled, minRssi, maxsta, sensLevelEnabled, sensLevel, ht)
    }
  }

  method SanitizeRadioForUpdate(radio: DeviceRadio) returns (warnings: seq<Warning>)
    modifies radio
    ensures radio.State() == Sanitized(old(radio.State()))
    ensures warnings == Warnings(old(radio.State()))
  {
    warnings := [];
    warnings := warnings + Warn(radio.minRssiEnabled, MinRssi, radio.minRssi, -90, -67);
    if !radio.minRssiEnabled || !InRange(radio.minRssi, -90, -67) {
      radio.minRssi := None;
    }
    warnings := warnings + Warn(radio.maxsta != Some(0), Maxsta, radio.maxsta, 1, 200);
    if !InRange(radio.maxsta, 1, 200) {
      radio.maxsta := None;
    }
    warnings := warnings + Warn(radio.sensLevelEnabled, SensLevel, radio.sensLevel, -90, -50);
    if !radio.sensLevelEnabled || !InRange(radio.sensLevel, -90, -50) {
      radio.sensLevel := None;
    }
    if radio.ht.Some? && radio.ht.value !in VALID_HT {
      radio.ht := None;
    }
  }

  // The guard only ever replaces a value by nil; a second pass changes nothing
  // and warns about nothing; and a warning is raised exactly for a number that
  // is dropped for its range, a disabled threshold and the unset 0 staying silent.
  lemma SanitizeOnce(g: Guarded, w: Warning)
    ensures var r := Sanitized(g);
      Sanitized(r) == r && Warnings(r) == [] &&
      r.minRssi in {g.minRssi, None} && r.maxsta in {g.maxsta, None} &&
      r.sensLevel in {g.sensLevel, None} && r.ht in {g.ht, None} &&
      r.minRssiEnabled == g.minRssiEnabled && r.sensLevelEnabled == g.sensLevelEnabled
    ensures var r := Sanitized(g);
      (r.minRssi.Some? <==> g.minRssiEnabled && g.minRssi.Some? && -90 <= g.minRssi.value <= -67) &&
      (r.maxsta.Some? <==> g.maxsta.Some? && 1 <= g.maxsta.value <= 200) &&
      (r.sensLevel.Some? <==> g.sensLevelEnabled && g.sensLevel.Some? && -90 <= g.sensLevel.value <= -50) &&
      (r.ht.Some? <==> g.ht.Some? && g.ht.value in VALID_HT)
    ensures w in Warnings(g) <==>
      !(w.lo <= w.value <= w.hi) &&
      match w.field
      case MinRssi => w.lo == -90 && w.hi == -67 && g.minRssi == Some(w.value) && g.minRssiEnabled
      case Maxsta => w.lo == 1 && w.hi == 200 && g.maxsta == Some(w.value) && w.value != 0
      case SensLevel => w.lo == -90 && w.hi == -50 && g.sensLevel == Some(w.value) && g.sensLevelEnabled
  {
  }

  // ---------------------------------------------------------------------
  // Encoding
  // ---------------------------------------------------------------------

  function NumberOf(values: map<string, Wire>, m: string): Option<int> {
    if m in values && values[m].Number? then values[m].number else None
  }

  function FlagOf(values: map<string, Wire>, m: string): bool {
    m in values && values[m].Flag? && values[m].flag
  }

  function GuardedOf(s: Schema, values: map<string, Wire>): Guarded {
    Guarded(FlagOf(values, s.minRssiEnabled), NumberOf(values, s.minRssi), NumberOf(values, s.maxsta),
            FlagOf(values, s.sensLevelEnabled), NumberOf(values, s.sensLevel), NumberOf(values, s.ht))
  }

  function WithGuarded(s: Schema, values: map<string, Wire>, g: Guarded): map<string, Wire> {
    values[s.minRssi := Number(g.minRssi)][s.maxsta := Number(g.maxsta)]
    [s.sensLevel := Number(g.sensLevel)][s.ht := Number(g.ht)]
  }

  // A guarded member the guard cleared is left out of the mask.
  function DeclaredRadioFields(s: Schema, ms: Members, values: map<string, Wire>, names: seq<string>): seq<string>
    requires forall m :: m in names ==> m in ms
  {
    if names == [] then []
    else
      var rest := DeclaredRadioFields(s, ms, values, names[1..]);
      var kept := s.Guarded(names[0]) ==> NumberOf(values, names[0]).Some?;
      if ms[names[0]].IsSet() && kept then [names[0]] + rest else rest
  }

  // The struct as configured, before the guard.
  function Configured(s: Schema, b: RadioBlock): map<string, Wire>
    requires b.Typed(s)
  {
    ToWires(s.kinds, b.members)[s.dfs := Flag(b.dfs.Or(false))]
  }

  // An unresolved name addresses no radio, so nothing is declared; an empty
  // name is no key.
  function EncodedRadio(s: Schema, b: RadioBlock): Declared<string>
    requires b.Typed(s)
  {
    var values := WithGuarded(s, Configured(s, b), Sanitized(GuardedOf(s, Configured(s, b))));
    Declared(Entry(if b.name.Or("") == "" then None else Some(b.name.value), values),
             if b.name.Unknown? then [] else DeclaredRadioFields(s, b.members, values, s.order))
  }

  method EncodeRadio(s: Schema, b: RadioBlock) returns (d: Declared<string>, warnings: seq<Warning>)
    requires b.Typed(s)
    ensures d == EncodedRadio(s, b) && warnings == Warnings(GuardedOf(s, Configured(s, b)))
    ensures d.entry.key == if b.name.Known? && b.name.value != "" then Some(b.name.value) else None
    ensures b.name.Unknown? ==> d.fields == []
  {
    var radio := new DeviceRadio(GuardedOf(s, Configured(s, b)));
    warnings := SanitizeRadioForUpdate(radio);
    var values := WithGuarded(s, Configured(s, b), radio.State());
    var key := if b.name.Or("") == "" then None else Some(b.name.value);
    var fields := DeclaredRadioFields(s, b.members, values, s.order);
    d := Declared(Entry(key, values), if b.name.Unknown? then [] else fields);
  }

  lemma {:induction false} DeclaredRadioFieldsIff(
    s: Schema, ms: Members, values: map<string, Wire>, names: seq<string>, m: string)
    requires forall n :: n in names ==> n in ms
    ensures m in DeclaredRadioFields(s, ms, values, names) <==>
      m in names && ms[m].Known? && (s.Guarded(m) ==> NumberOf(values, m).Some?)
  {
    if names != [] {
      DeclaredRadioFieldsIff(s, ms, values, names[1..], m);
      assert m in names <==> m == names[0] || m in names[1..];
    }
  }

  // What the controller accepts for a masked member: no null number, the four
  // guarded ones in their ranges, and a threshold only beside its enable flag.
  predicate LegalMember(s: Schema, values: map<string, Wire>, m: string)
    requires m in s.kinds
  {
    var v := NumberOf(values, m);
    (s.kinds[m] == ANumber ==> v.Some?) &&
    (m == s.minRssi ==> InRange(v, -90, -67) && FlagOf(values, s.minRssiEnabled)) &&
    (m == s.maxsta ==> InRange(v, 1, 200)) &&
    (m == s.sensLevel ==> InRange(v, -90, -50) && FlagOf(values, s.sensLevelEnabled)) &&
    (m == s.ht ==> v.Some? && v.value in VALID_HT)
  }

  // A member the block sets to a value the controller takes, said on the block:
  // min_rssi and sens_level need their enable flag set to true beside them.
  predicate Takes(s: Schema, ms: Members, m: string) {
    m in ms && ms[m].Known? &&
    (m == s.minRssi ==> Between(ms[m].value, -90, -67) && On(ms, s.minRssiEnabled)) &&
    (m == s.maxsta ==> Between(ms[m].value, 1, 200)) &&
    (m == s.sensLevel ==> Between(ms[m].value, -90, -50) && On(ms, s.sensLevelEnabled)) &&
    (m == s.ht ==> ms[m].value.Number? && ms[m].value.number.Or(0) in VALID_HT)
  }

  predicate Between(w: Wire, lo: int, hi: int) {
    w.Number? && w.number.Some? && lo <= w.number.value <= hi
  }

  predicate On(ms: Members, m: string) {
    m in ms && ms[m] == Known(Flag(true))
  }

  lemma TakesIff(s: Schema, b: RadioBlock, m: string)
    requires s.Valid() && b.Typed(s) && m in s.kinds
    ensures Takes(s, b.members, m) <==> b.members[m].Known? && LegalMember(s, Configured(s, b), m)
  {
    assert Fits(s.kinds[m], b.members[m]);
    assert Fits(s.kinds[s.minRssiEnabled], b.members[s.minRssiEnabled]);
    assert Fits(s.kinds[s.sensLevelEnabled], b.members[s.sensLevelEnabled]);
  }

  // The number a member of the block reaches the guard as, if it does: the one
  // it sets, or 0 when it is not resolved yet.
  predicate Carries(a: Attr<Wire>, v: int) {
    a == Known(Number(Some(v))) || (a.Unknown? && v == 0)
  }

  // Which warnings a block raises.
  lemma WarnedIff(s: Schema, b: RadioBlock, w: Warning)
    requires s.Valid() && b.Typed(s)
    ensures w in Warnings(GuardedOf(s, Configured(s, b))) <==>
      !(w.lo <= w.value <= w.hi) &&
      match w.field
      case MinRssi =>
        w.lo == -90 && w.hi == -67 && Carries(b.members[s.minRssi], w.value) && On(b.members, s.minRssiEnabled)
      case Maxsta => w.lo == 1 && w.hi == 200 && Carries(b.members[s.maxsta], w.value) && w.value != 0
      case SensLevel =>
        w.lo == -90 && w.hi == -50 && Carries(b.members[s.sensLevel], w.value) && On(b.members, s.sensLevelEnabled)
  {
    SanitizeOnce(GuardedOf(s, Configured(s, b)), w);
    FlagCarried(s, b, s.minRssiEnabled);
    FlagCarried(s, b, s.sensLevelEnabled);
    NumberCarried(s, b, s.minRssi, w.value);
    NumberCarried(s, b, s.maxsta, w.value);
    NumberCarried(s, b, s.sensLevel, w.value);
  }

  lemma FlagCarried(s: Schema, b: RadioBlock, m: string)
    requires s.Valid() && b.Typed(s) && m in s.kinds && s.kinds[m] == AFlag
    ensures FlagOf(Configured(s, b), m) <==> On(b.members, m)
  {
    assert Fits(s.kinds[m], b.members[m]);
  }

  lemma NumberCarried(s: Schema, b: RadioBlock, m: string, v: int)
    requires s.Valid() && b.Typed(s) && m in s.kinds && s.kinds[m] == ANumber
    ensures NumberOf(Configured(s, b), m) == Some(v) <==> Carries(b.members[m], v)
  {
    assert Fits(s.kinds[m], b.members[m]);
  }

  lemma GuardKeepsLegal(s: Schema, values: map<string, Wire>, m: string)
    requires s.Valid() && m in s.kinds
    ensures var after := WithGuarded(s, values, Sanitized(GuardedOf(s, values)));
      (LegalMember(s, values, m) ==> LegalMember(s, after, m) && (m in values ==> after[m] == values[m])) &&
      (s.Guarded(m) ==> (NumberOf(after, m).Some? <==> LegalMember(s, values, m))) &&
      (!s.Guarded(m) ==> (m in after <==> m in values) && (m in values ==> after[m] == values[m]))
  {
  }

  // Every member a block's mask names is legal to send at the configured value,
  // and a member the block set is named exactly when the controller takes it.
  lemma RadioMaskIsLegal(s: Schema, b: RadioBlock, m: string)
    requires s.Valid()
    requires b.Typed(s)
    ensures m in EncodedRadio(s, b).fields ==>
      m in s.kinds && b.members[m].Known? && WireName(m) && m in EncodedRadio(s, b).entry.values &&
      LegalMember(s, EncodedRadio(s, b).entry.values, m)
    ensures m in EncodedRadio(s, b).fields ==> EncodedRadio(s, b).entry.values[m] == b.members[m].value
    ensures !b.name.Unknown? ==> (m in EncodedRadio(s, b).fields <==> Takes(s, b.members, m))
  {
    if m in s.kinds { TakesIff(s, b, m); }
    DeclaredRadioFieldsIff(s, b.members, EncodedRadio(s, b).entry.values, s.order, m);
    if m in s.kinds {
      GuardKeepsLegal(s, Configured(s, b), m);
      assert Fits(s.kinds[m], b.members[m]);
    }
  }

  ghost predicate AllTyped(s: Schema, blocks: seq<RadioBlock>) {
    forall b :: b in blocks ==> b.Typed(s)
  }

  function EncodedRadios(s: Schema, blocks: seq<RadioBlock>): seq<Declared<string>>
    requires AllTyped(s, blocks)
  {
    seq(|blocks|, i requires 0 <= i < |blocks| => EncodedRadio(s, blocks[i]))
  }

  method RadiosDeclaredFromConfig(s: Schema, config: Attr<seq<RadioBlock>>) returns (out: seq<Declared<string>>)
    requires AllTyped(s, config.Or([]))
    ensures out == EncodedRadios(s, config.Or([]))
  {
    if !config.Known? { return []; }
    ghost var encoded := EncodedRadios(s, config.value);
    out := [];
    for i := 0 to |config.value|
      invariant out == encoded[..i]
    {
      var d, warnings := EncodeRadio(s, config.value[i]);
      out := out + [d];
    }
  }

  lemma RadiosWireNames(s: Schema, blocks: seq<RadioBlock>)
    requires s.Valid()
    requires AllTyped(s, blocks)
    ensures AllWireNames(EncodedRadios(s, blocks))
  {
    forall i, m | 0 <= i < |blocks| ensures m in EncodedRadio(s, blocks[i]).fields ==> WireName(m) {
      RadioMaskIsLegal(s, blocks[i], m);
    }
  }

  // The block that speaks for a radio: the last one naming it.
  function LastBlock(blocks: seq<RadioBlock>, name: string): (r: Option<RadioBlock>)
    ensures r.Some? ==> r.value in blocks && r.value.name == Known(name)
    ensures r.None? ==> forall b :: b in blocks ==> b.name != Known(name)
  {
    if blocks == [] then None
    else if blocks[|blocks| - 1].name == Known(name) then Some(blocks[|blocks| - 1])
    else LastBlock(blocks[..|blocks| - 1], name)
  }

  lemma {:induction false} LastBlockIsLast(blocks: seq<RadioBlock>, name: string, i: nat)
    requires i < |blocks| && blocks[i].name == Known(name)
    requires forall j :: i < j < |blocks| ==> blocks[j].name != Known(name)
    ensures LastBlock(blocks, name) == Some(blocks[i])
  {
    if i < |blocks| - 1 { LastBlockIsLast(blocks[..|blocks| - 1], name, i); }
  }

  // What the blocks ask a cell to hold: what the last block naming the radio
  // sets the member to, if the controller takes that, and otherwise what was
  // there. The empty name names no radio.
  function Wanted(s: Schema, blocks: seq<RadioBlock>, before: Cells<string>, name: string, m: string): Option<Wire>
  {
    match LastBlock(blocks, name)
    case None => Cell(before, name, m)
    case Some(b) => if name != "" && Takes(s, b.members, m) then Some(b.members[m].value) else Cell(before, name, m)
  }

  ghost predicate Written(
    s: Schema, blocks: seq<RadioBlock>, before: Cells<string>, after: Cells<string>, name: string)
  {
    forall m :: Cell(after, name, m) == Wanted(s, blocks, before, name, m)
  }

  // An entry is addressed by its block's name.
  lemma EncodeAddresses(s: Schema, b: RadioBlock, name: string)
    requires b.Typed(s)
    ensures EncodedRadio(s, b).entry.key == Some(name) <==> b.name == Known(name) && name != ""
    ensures b.name.Unknown? ==> EncodedRadio(s, b).fields == []
  {
  }

  lemma {:induction false} LastBlockIsSent(s: Schema, blocks: seq<RadioBlock>, name: string)
    requires AllTyped(s, blocks)
    ensures name in AsMap(EncodedRadios(s, blocks)) <==> name != "" && LastBlock(blocks, name).Some?
    ensures name in AsMap(EncodedRadios(s, blocks)) ==>
      AsMap(EncodedRadios(s, blocks))[name] == EncodedRadio(s, LastBlock(blocks, name).value)
  {
    if blocks != [] {
      var n := |blocks| - 1;
      LastBlockIsSent(s, blocks[..n], name);
      assert EncodedRadios(s, blocks)[..n] == EncodedRadios(s, blocks[..n]);
      EncodeAddresses(s, blocks[n], name);
    }
  }

  // The overlay of the encoded blocks is what the blocks themselves ask for.
  lemma OverlayIsWanted(s: Schema, blocks: seq<RadioBlock>, before: Cells<string>, name: string, m: string)
    requires s.Valid() && AllTyped(s, blocks)
    ensures Overlay(before, EncodedRadios(s, blocks), name, m) == Wanted(s, blocks, before, name, m)
  {
    LastBlockIsSent(s, blocks, name);
    var last := LastBlock(blocks, name);
    if last.Some? { RadioMaskIsLegal(s, last.value, m); }
  }

  // The write half of BeforeSend for radios. It fails only when the controller
  // refuses a call; on success every cell holds what the blocks ask for, and on
  // failure each radio is written whole or not at all.
  method WriteRadioTable(s: Schema, controller: Controller<string>, config: Attr<seq<RadioBlock>>)
    returns (failed: bool)
    requires s.Valid()
    requires AllTyped(s, config.Or([]))
    modifies controller
    ensures failed <==> RefusesAny(
      controller.refused, old(controller.calls), |Grouped(Sent(EncodedRadios(s, config.Or([])), true))|)
    ensures !failed ==> forall name :: Written(s, config.Or([]), old(controller.cells), controller.cells, name)
    ensures forall name ::
      (Written(s, config.Or([]), old(controller.cells), controller.cells, name) ||
       forall m :: Cell(controller.cells, name, m) == Cell(old(controller.cells), name, m))
  {
    ghost var before := controller.cells;
    var declared := RadiosDeclaredFromConfig(s, config);
    RadiosWireNames(s, config.Or([]));
    failed := WriteDeclared(controller, declared, true);
    forall name, m ensures Overlay(before, declared, name, m) == Wanted(s, config.Or([]), before, name, m) {
      OverlayIsWanted(s, config.Or([]), before, name, m);
    }
    forall name ensures
      (Written(s, config.Or([]), before, controller.cells, name) ||
       forall m :: Cell(controller.cells, name, m) == Cell(before, name, m))
    {
      assert AllOrNothing(before, declared, controller.cells, name);
    }
  }

  // Every entry of a call encodes a block that names a radio and whose mask is
  // the call's.
  lemma CalledBlock(s: Schema, blocks: seq<RadioBlock>, g: nat, e: Entry<string>) returns (b: RadioBlock)
    requires s.Valid() && AllTyped(s, blocks) && g < |Grouped(Sent(EncodedRadios(s, blocks), true))|
    requires e in Grouped(Sent(EncodedRadios(s, blocks), true))[g].entries
    ensures b in blocks && e == EncodedRadio(s, b).entry && e.key.Some?
    ensures Elements(EncodedRadio(s, b).fields) == Elements(Grouped(Sent(EncodedRadios(s, blocks), true))[g].mask)
    ensures StrictlyAscending(Grouped(Sent(EncodedRadios(s, blocks), true))[g].mask)
  {
    var declared := EncodedRadios(s, blocks);
    var sent := Sent(declared, true);
    RadiosWireNames(s, blocks);
    SentIsLegal(declared, true);
    GroupForIsDeclaring(sent, GroupKeys(sent)[g]);
    DeclaringIff(sent, Elements(Grouped(sent)[g].mask), e);
    var i :| 0 <= i < |sent| && sent[i].entry == e && Elements(sent[i].fields) == Elements(Grouped(sent)[g].mask);
    assert sent[i] in sent;
    var j :| 0 <= j < |declared| && declared[j] == sent[i];
    b := blocks[j];
  }

  // Whatever the blocks, every call that goes out has a sorted non-empty mask,
  // names a radio in each entry, and is legal for each entry and masked member.
  lemma EveryCallIsLegal(s: Schema, blocks: seq<RadioBlock>, g: nat, e: Entry<string>, m: string)
    requires s.Valid()
    requires AllTyped(s, blocks) && g < |Grouped(Sent(EncodedRadios(s, blocks), true))|
    requires e in Grouped(Sent(EncodedRadios(s, blocks), true))[g].entries
    requires m in Grouped(Sent(EncodedRadios(s, blocks), true))[g].mask
    ensures e.key.Some? && m in s.kinds && LegalMember(s, e.values, m)
    ensures StrictlyAscending(Grouped(Sent(EncodedRadios(s, blocks), true))[g].mask)
  {
    var b := CalledBlock(s, blocks, g, e);
    RadioMaskIsLegal(s, b, m);
    assert m in Elements(Grouped(Sent(EncodedRadios(s, blocks), true))[g].mask);
  }

  // ---------------------------------------------------------------------
  // Reading back
  // ---------------------------------------------------------------------

  ghost predicate Decoded(s: Schema, e: Entry<string>) {
    DecodedMembers(s.kinds, e.values) && s.dfs in e.values && e.values[s.dfs].Flag? && e.key != Some("")
  }

  ghost predicate AllDecoded(s: Schema, answer: seq<Entry<string>>) {
    forall e :: e in answer ==> Decoded(s, e)
  }

  // dfs is discarded on write, so only an unresolved one takes the answer.
  function ReconcileRadio(s: Schema, b: RadioBlock, e: Entry<string>): RadioBlock
    requires b.Typed(s) && Decoded(s, e) && e.key.Some?
  {
    RadioBlock(
      if b.name.Null? then b.name else Known(e.key.value),
      if b.dfs.Unknown? then Known(e.values[s.dfs].flag) else b.dfs,
      ReconcileMembers(s.kinds, b.members, e.values))
  }

  function Refreshed(s: Schema, b: RadioBlock, answer: seq<Entry<string>>): RadioBlock
    requires b.Typed(s) && AllDecoded(s, answer)
  {
    ByKeyIsFromAnswer(answer);
    var name := b.name.Or("");
    if name in ByKey(answer) then ReconcileRadio(s, b, ByKey(answer)[name]) else b
  }

  method ReconcileRadioTable(s: Schema, prior: seq<RadioBlock>, answer: seq<Entry<string>>)
    returns (out: seq<RadioBlock>)
    requires AllTyped(s, prior) && AllDecoded(s, answer)
    ensures |out| == |prior|
    ensures forall i :: 0 <= i < |prior| ==> out[i] == Refreshed(s, prior[i], answer)
  {
    var apiByName := IndexByKey(answer);
    ByKeyIsFromAnswer(answer);
    out := [];
    for i := 0 to |prior|
      invariant |out| == i
      invariant forall j :: 0 <= j < i ==> out[j] == Refreshed(s, prior[j], answer)
    {
      var name := prior[i].name.Or("");
      if name !in apiByName {
        out := out + [prior[i]];
        continue;
      }
      out := out + [ReconcileRadio(s, prior[i], apiByName[name])];
    }
  }

  // What a radio block must show once its radio is reported: each member it
  // manages as reported, and dfs only if it was not resolved.
  ghost predicate ShowsEntry(s: Schema, b: RadioBlock, e: Entry<string>, r: RadioBlock)
    requires b.Typed(s) && Decoded(s, e)
  {
    r.name == b.name && r.members.Keys == b.members.Keys &&
    r.dfs == (if b.dfs.Unknown? then Known(e.values[s.dfs] == Flag(true)) else b.dfs) &&
    forall m :: m in b.members ==>
      if b.members[m].Null? then r.members[m] == Null else ReadsAs(s.kinds[m], e.values[m], r.members[m])
  }

  // The last entry for the radio decides; without one the block stays as it was.
  ghost predicate Shows(s: Schema, b: RadioBlock, answer: seq<Entry<string>>, r: RadioBlock)
    requires b.Typed(s)
  {
    ((forall e :: e in answer ==> e.key != Some(b.name.Or(""))) ==> r == b) &&
    forall i :: ReportedAt(answer, b.name.Or(""), i) ==> Decoded(s, answer[i]) && ShowsEntry(s, b, answer[i], r)
  }

  lemma RefreshedShows(s: Schema, b: RadioBlock, answer: seq<Entry<string>>)
    requires b.Typed(s) && AllDecoded(s, answer)
    ensures Shows(s, b, answer, Refreshed(s, b, answer))
  {
    var name := b.name.Or("");
    ByKeyIff(answer, name);
    ByKeyIsFromAnswer(answer);
    if name in ByKey(answer) {
      var e := ByKey(answer)[name];
      assert e in answer && e.key == Some(name);
      forall m | m in b.members && !b.members[m].Null?
        ensures ReadsAs(s.kinds[m], e.values[m], ReconcileRadio(s, b, e).members[m])
      {
        ReconcileExactly(s.kinds[m], b.members[m], e.values[m]);
      }
    }
  }

  // Whether an answer reports the block's radio.
  predicate Covers(b: RadioBlock, answer: seq<Entry<string>>) {
    b.name.Or("") in ByKey(answer)
  }

  lemma RefreshStep(s: Schema, b: RadioBlock, answer: seq<Entry<string>>)
    requires s.Valid()
    requires b.Typed(s) && AllDecoded(s, answer)
    ensures var r := Refreshed(s, b, answer);
      r.Typed(s) && r.name == b.name && (b.dfs.Unknown? || r.dfs == b.dfs)
    ensures Refreshed(s, Refreshed(s, b, answer), answer) == Refreshed(s, b, answer)
  {
    ByKeyIsFromAnswer(answer);
    if Covers(b, answer) {
      var e := ByKey(answer)[b.name.Or("")];
      var r := ReconcileRadio(s, b, e);
      forall m | m in b.members
        ensures Fits(s.kinds[m], r.members[m])
        ensures Reconcile(s.kinds[m], r.members[m], e.values[m]) == r.members[m]
      {
        ReconcileResolves(s.kinds[m], b.members[m], e.values[m]);
      }
      assert ReconcileMembers(s.kinds, r.members, e.values) == r.members;
    }
  }

  ghost predicate AllAnswers(s: Schema, answers: seq<seq<Entry<string>>>) {
    forall a :: a in answers ==> AllDecoded(s, a)
  }

  // State after a run of refreshes.
  function Run(s: Schema, b: RadioBlock, answers: seq<seq<Entry<string>>>): (r: RadioBlock)
    requires s.Valid()
    requires b.Typed(s) && AllAnswers(s, answers)
    ensures r.Typed(s)
  {
    if answers == [] then b
    else
      var before := Run(s, b, answers[..|answers| - 1]);
      RefreshStep(s, before, answers[|answers| - 1]);
      Refreshed(s, before, answers[|answers| - 1])
  }

  // The value one answer reports for a member of a radio, if it reports it.
  function Reads(s: Schema, answer: seq<Entry<string>>, name: string, m: string): (w: Option<Wire>)
    requires AllDecoded(s, answer) && m in s.kinds
    ensures w.Some? ==> Shaped(s.kinds[m], w.value)
  {
    ByKeyIsFromAnswer(answer);
    if name in ByKey(answer) then Some(ByKey(answer)[name].values[m]) else None
  }

  // The last value reported in a run.
  function LastRead(s: Schema, answers: seq<seq<Entry<string>>>, name: string, m: string): Option<Wire>
    requires AllAnswers(s, answers) && m in s.kinds
  {
    if answers == [] then None
    else
      var last := Reads(s, answers[|answers| - 1], name, m);
      if last.Some? then last else LastRead(s, answers[..|answers| - 1], name, m)
  }

  function DfsRead(s: Schema, answer: seq<Entry<string>>, name: string): Option<bool>
    requires AllDecoded(s, answer)
  {
    ByKeyIsFromAnswer(answer);
    if name in ByKey(answer) then Some(ByKey(answer)[name].values[s.dfs].flag) else None
  }

  // The first dfs reported in a run.
  function FirstDfs(s: Schema, answers: seq<seq<Entry<string>>>, name: string): Option<bool>
    requires AllAnswers(s, answers)
  {
    if answers == [] then None
    else
      var first := FirstDfs(s, answers[..|answers| - 1], name);
      if first.Some? then first else DfsRead(s, answers[|answers| - 1], name)
  }

  // Whether some answer of the run reported the member blank.
  ghost predicate Blanked(s: Schema, answers: seq<seq<Entry<string>>>, name: string, m: string)
    requires AllAnswers(s, answers) && m in s.kinds
  {
    exists a :: a in answers && Reads(s, a, name, m).Some? && Blank(Reads(s, a, name, m).value)
  }

  // Any run of refreshes, with any answers: the name and a set dfs never
  // change, and an unresolved dfs takes the first one reported; a null member
  // stays null; another holds the last value reported, except that once an
  // answer reported it blank it is null for good.
  lemma {:induction false} RunIsLastAnswer(s: Schema, b: RadioBlock, answers: seq<seq<Entry<string>>>, m: string)
    requires s.Valid()
    requires b.Typed(s) && AllAnswers(s, answers) && m in s.kinds
    ensures var r, name := Run(s, b, answers), b.name.Or("");
      r.name == b.name &&
      r.dfs == (if b.dfs.Unknown? && FirstDfs(s, answers, name).Some? then Known(FirstDfs(s, answers, name).value)
                else b.dfs) &&
      r.members[m] ==
        if b.members[m].Null? || Blanked(s, answers, name, m) then Null
        else if LastRead(s, answers, name, m).Some? then Known(LastRead(s, answers, name, m).value)
        else b.members[m]
    ensures (exists a :: a in answers && Covers(b, a)) ==>
      !Run(s, b, answers).members[m].Unknown? && !Run(s, b, answers).dfs.Unknown?
  {
    if answers != [] {
      var n := |answers| - 1;
      var before, last, name := answers[..n], answers[n], b.name.Or("");
      RunIsLastAnswer(s, b, before, m);
      RefreshStep(s, Run(s, b, before), last);
      assert forall a :: a in answers <==> a in before || a == last;
      RefreshReads(s, Run(s, b, before), last, m);
    }
  }

  lemma RefreshReads(s: Schema, b: RadioBlock, answer: seq<Entry<string>>, m: string)
    requires s.Valid()
    requires b.Typed(s) && AllDecoded(s, answer) && m in s.kinds
    ensures var r, got := Refreshed(s, b, answer), Reads(s, answer, b.name.Or(""), m);
      r.members[m] == (if b.members[m].Null? || got.None? then b.members[m]
                       else if Blank(got.value) then Null else Known(got.value))
    ensures var r, got := Refreshed(s, b, answer), DfsRead(s, answer, b.name.Or(""));
      r.dfs == (if b.dfs.Unknown? && got.Some? then Known(got.value) else b.dfs)
    ensures Covers(b, answer) <==> Reads(s, answer, b.name.Or(""), m).Some?
    ensures Covers(b, answer) <==> DfsRead(s, answer, b.name.Or("")).Some?
  {
    ByKeyIsFromAnswer(answer);
    if Covers(b, answer) {
      ReconcileExactly(s.kinds[m], b.members[m], ByKey(answer)[b.name.Or("")].values[m]);
    }
  }

  // ---------------------------------------------------------------------
  // Applying and refreshing
  // ---------------------------------------------------------------------

  // The device the controller reports: every entry shows what is stored.
  ghost predicate Reports(s: Schema, cells: Cells<string>, answer: seq<Entry<string>>) {
    forall e :: e in answer && e.key.Some? ==>
      forall m :: m in s.kinds ==> m in e.values && e.values[m] == Stored(s.kinds[m], cells, e.key.value, m)
  }

  // A null member is not managed. A known one must not be empty, and one the
  // guard drops must already be what the controller holds.
  ghost predicate MemberSurvives(s: Schema, b: RadioBlock, before: Cells<string>, name: string, m: string)
    requires b.Typed(s) && m in s.kinds
  {
    match b.members[m]
    case Null => true
    case Unknown => false
    case Known(w) => w != Text("") && (Takes(s, b.members, m) || Cell(before, name, m) == Some(w))
  }

  lemma RadioReadsBack(
    s: Schema, blocks: seq<RadioBlock>, b: RadioBlock, name: string,
    before: Cells<string>, after: Cells<string>, e: Entry<string>, m: string)
    requires s.Valid()
    requires AllTyped(s, blocks) && LastBlock(blocks, name) == Some(b)
    requires Written(s, blocks, before, after, name) && m in s.kinds
    requires e.key == Some(name) && Decoded(s, e) && Reports(s, after, [e])
    ensures e.values[m] ==
      if Takes(s, b.members, m) then b.members[m].value
      else Stored(s.kinds[m], before, name, m)
  {
    assert e in [e];
    assert Cell(after, name, m) == Wanted(s, blocks, before, name, m);
    assert Fits(s.kinds[m], b.members[m]);
  }

  // Applying the blocks and refreshing leaves a radio block, the last to name
  // its radio, as it was exactly when its dfs is resolved and every member
  // survives -- whatever the controller held and however it answers.
  lemma ApplyThenRefreshIff(
    s: Schema, blocks: seq<RadioBlock>, b: RadioBlock, name: string,
    before: Cells<string>, after: Cells<string>, answer: seq<Entry<string>>)
    requires s.Valid()
    requires AllTyped(s, blocks) && LastBlock(blocks, name) == Some(b)
    requires Written(s, blocks, before, after, name)
    requires AllDecoded(s, answer) && Reports(s, after, answer)
    ensures Refreshed(s, b, answer) == b <==>
      (name in ByKey(answer) ==>
        !b.dfs.Unknown? && forall m :: m in s.kinds ==> MemberSurvives(s, b, before, name, m))
  {
    if name in ByKey(answer) {
      ByKeyIsFromAnswer(answer);
      var e := ByKey(answer)[name];
      assert Reports(s, after, [e]);
      MembersSurviveIff(s, blocks, b, name, before, after, e);
    }
  }

  lemma MembersSurviveIff(
    s: Schema, blocks: seq<RadioBlock>, b: RadioBlock, name: string,
    before: Cells<string>, after: Cells<string>, e: Entry<string>)
    requires s.Valid() && AllTyped(s, blocks) && LastBlock(blocks, name) == Some(b)
    requires Written(s, blocks, before, after, name)
    requires e.key == Some(name) && Decoded(s, e) && Reports(s, after, [e])
    ensures ReconcileMembers(s.kinds, b.members, e.values) == b.members <==>
      forall m :: m in s.kinds ==> MemberSurvives(s, b, before, name, m)
  {
    var r := ReconcileMembers(s.kinds, b.members, e.values);
    forall m | m in s.kinds ensures r[m] == b.members[m] <==> MemberSurvives(s, b, before, name, m) {
      RadioReadsBack(s, blocks, b, name, before, after, e, m);
      MemberSurvivesIff(s, b, name, before, e, m);
    }
    SameMaps(r, b.members);
  }

  lemma MemberSurvivesIff(
    s: Schema, b: RadioBlock, name: string, before: Cells<string>, e: Entry<string>, m: string)
    requires s.Valid() && b.Typed(s) && Decoded(s, e) && m in s.kinds
    requires e.values[m] ==
      if Takes(s, b.members, m) then b.members[m].value
      else Stored(s.kinds[m], before, name, m)
    ensures Reconcile(s.kinds[m], b.members[m], e.values[m]) == b.members[m] <==> MemberSurvives(s, b, before, name, m)
  {
    ReconcileResolves(s.kinds[m], b.members[m], e.values[m]);
    assert Fits(s.kinds[m], b.members[m]);
  }

  lemma SameMaps(a: Members, b: Members)
    requires a.Keys == b.Keys
    ensures a == b <==> forall m :: m in b ==> a[m] == b[m]
  {
  }
}
