// Lists spread over the network object's fixed positional slots and compacted
// on read: DHCP DNS, DHCPv6 DNS, NTP, WINS, and the guarding servers, whose
// unused slots are left alone and kept out of the mask.

module NetworkSlots {
  import opened Terraform

  // ---------------------------------------------------------------------
  // Slots a write fills and clears
  // ---------------------------------------------------------------------

  function SlotValues(list: Attr<seq<string>>, n: nat): seq<Option<string>> {
    seq(n, i => Some(if list.Known? && 0 <= i < |list.value| then list.value[i] else ""))
  }

  // Every slot is written: the list's elements in order, and the empty string,
  // never nil, in each slot the list does not reach.
  lemma EverySlotIsWritten(list: Attr<seq<string>>, n: nat, i: nat)
    requires i < n
    ensures |SlotValues(list, n)| == n
    ensures list.Known? && i < |list.value| ==> SlotValues(list, n)[i] == Some(list.value[i])
    ensures !list.Known? || i >= |list.value| ==> SlotValues(list, n)[i] == Some("")
  {
  }

  // The writer of the four DNS and DHCPv6 DNS slots and the two NTP slots.
  method WriteSlots(slots: array<Option<string>>, list: Attr<seq<string>>)
    modifies slots
    ensures slots[..] == SlotValues(list, slots.Length)
  {
    if !list.Known? {
      for i := 0 to slots.Length
        invariant forall j :: 0 <= j < i ==> slots[j] == Some("")
      {
        slots[i] := Some("");
      }
      return;
    }
    for i := 0 to slots.Length
      invariant forall j :: 0 <= j < i ==> slots[j] == SlotValues(list, slots.Length)[j]
    {
      if i < |list.value| {
        slots[i] := Some(list.value[i]);
        continue;
      }
      slots[i] := Some("");
    }
  }

  function NonEmpty(vals: seq<string>): seq<string> {
    if vals == [] then []
    else if vals[|vals| - 1] != "" then NonEmpty(vals[..|vals| - 1]) + [vals[|vals| - 1]]
    else NonEmpty(vals[..|vals| - 1])
  }

  // A nil slot reads like an empty one.
  function Texts(slots: seq<Option<string>>): seq<string> {
    seq(|slots|, i requires 0 <= i < |slots| => slots[i].Or(""))
  }

  method CollectNonEmptyStringPointers(ptrs: seq<Option<string>>) returns (result: seq<string>)
    ensures result == NonEmpty(Texts(ptrs))
  {
    result := [];
    for i := 0 to |ptrs|
      invariant result == NonEmpty(Texts(ptrs)[..i])
    {
      assert Texts(ptrs)[..i + 1][..i] == Texts(ptrs)[..i];
      if ptrs[i].Some? && ptrs[i].value != "" {
        result := result + [ptrs[i].value];
      }
    }
    assert Texts(ptrs)[..|ptrs|] == Texts(ptrs);
  }

  method CollectNonEmptyStrings(vals: seq<string>) returns (result: seq<string>)
    ensures result == NonEmpty(vals)
  {
    result := [];
    for i := 0 to |vals|
      invariant result == NonEmpty(vals[..i])
    {
      assert vals[..i + 1][..i] == vals[..i];
      if vals[i] != "" {
        result := result + [vals[i]];
      }
    }
    assert vals[..|vals|] == vals;
  }

  function ListOrNull(values: seq<string>): Attr<seq<string>> {
    if values == [] then Null else Known(values)
  }

  function ReadSlots(slots: seq<Option<string>>): Attr<seq<string>> {
    ListOrNull(NonEmpty(Texts(slots)))
  }

  method SlotsFromNetwork(slots: array<Option<string>>) returns (list: Attr<seq<string>>)
    ensures list == ReadSlots(slots[..])
  {
    var values := CollectNonEmptyStringPointers(slots[..]);
    list := ListOrNull(values);
  }

  function Take(values: seq<string>, n: nat): seq<string> {
    if |values| < n then values else values[..n]
  }

  lemma {:induction false} NonEmptyConcat(a: seq<string>, b: seq<string>)
    ensures NonEmpty(a + b) == NonEmpty(a) + NonEmpty(b)
  {
    if b == [] {
      assert a + b == a;
    } else {
      var n := |b| - 1;
      assert (a + b)[..|a| + n] == a + b[..n];
      NonEmptyConcat(a, b[..n]);
    }
  }

  lemma {:induction false} NonEmptyIff(vals: seq<string>)
    ensures "" !in NonEmpty(vals) && |NonEmpty(vals)| <= |vals|
    ensures NonEmpty(vals) == vals <==> "" !in vals
    ensures NonEmpty(vals) == [] <==> forall v :: v in vals ==> v == ""
  {
    if vals != [] {
      var n := |vals| - 1;
      NonEmptyIff(vals[..n]);
      assert vals[n] in vals;
      assert forall v :: v in vals <==> v in vals[..n] || v == vals[n];
    }
  }

  lemma PadReads(values: seq<string>, n: nat)
    ensures NonEmpty(Texts(SlotValues(Known(values), n))) == NonEmpty(Take(values, n))
  {
    var kept := Take(values, n);
    var pad := seq(n - |kept|, _ => "");
    assert Texts(SlotValues(Known(values), n)) == kept + pad;
    NonEmptyConcat(kept, pad);
    NonEmptyIff(pad);
  }

  // Reading after writing gives the non-empty elements that had a slot, in
  // order, and null when there are none; a null or unknown list clears all.
  lemma ReadAfterWrite(list: Attr<seq<string>>, n: nat)
    ensures ReadSlots(SlotValues(list, n)) == ListOrNull(NonEmpty(Take(list.Or([]), n)))
  {
    assert SlotValues(list, n) == SlotValues(Known(list.Or([])), n);
    PadReads(list.Or([]), n);
  }

  lemma TakeIsAll(values: seq<string>, n: nat)
    ensures |Take(values, n)| <= n
    ensures |values| <= n ==> Take(values, n) == values
    ensures |values| > n ==> |Take(values, n)| < |values|
  {
  }

  // A list reads back as written exactly when it is not empty, fits the slots
  // and has no empty element.
  lemma SlotsRestoreIff(values: seq<string>, n: nat)
    ensures ReadSlots(SlotValues(Known(values), n)) == Known(values) <==> 0 < |values| <= n && "" !in values
  {
    ReadAfterWrite(Known(values), n);
    TakeIsAll(values, n);
    NonEmptyIff(Take(values, n));
  }

  // Whatever the slots hold, gaps included, writing what was read and reading
  // again gives the same list.
  lemma ReadIsFixedPoint(slots: seq<Option<string>>)
    ensures ReadSlots(SlotValues(ReadSlots(slots), |slots|)) == ReadSlots(slots)
  {
    var values := NonEmpty(Texts(slots));
    NonEmptyIff(Texts(slots));
    if values == [] {
      ReadAfterWrite(Null, |slots|);
    } else {
      SlotsRestoreIff(values, |slots|);
    }
  }

  // ---------------------------------------------------------------------
  // WINS: an enable flag over two slots
  // ---------------------------------------------------------------------

  datatype Wins = Wins(enabled: Attr<bool>, addresses: Attr<seq<string>>)

  class WinsMembers {
    var enabled: bool
    const slots: array<Option<string>>

    constructor ()
      ensures !enabled && slots.Length == 2 && fresh(slots)
    {
      enabled := false;
      slots := new Option<string>[2](_ => None);
    }

    // An absent block disables WINS and clears both slots.
    method Write(wins: Attr<Wins>)
      modifies this`enabled, slots
      ensures enabled == (wins.Known? && wins.value.enabled.Or(false))
      ensures slots[..] == SlotValues(if wins.Known? then wins.value.addresses else Null, slots.Length)
    {
      if !wins.Known? {
        enabled := false;
        WriteSlots(slots, Null);
        return;
      }
      enabled := wins.value.enabled.Or(false);
      WriteSlots(slots, wins.value.addresses);
    }

    method Read() returns (wins: Wins)
      ensures wins == Wins(Known(enabled), ReadSlots(slots[..]))
    {
      var addresses := SlotsFromNetwork(slots);
      wins := Wins(Known(enabled), addresses);
    }
  }

  // A WINS block reads back as written exactly when its flag is known and its
  // addresses are null or a restorable pair.
  lemma WinsRestoreIff(w: Wins)
    ensures Wins(Known(w.enabled.Or(false)), ReadSlots(SlotValues(w.addresses, 2))) == w <==>
      w.enabled.Known? &&
      (w.addresses.Null? || (w.addresses.Known? && 0 < |w.addresses.value| <= 2 && "" !in w.addresses.value))
  {
    ReadAfterWrite(w.addresses, 2);
    if w.addresses.Known? { SlotsRestoreIff(w.addresses.value, 2); }
  }

  // ---------------------------------------------------------------------
  // Guarding servers: unused slots are left alone
  // ---------------------------------------------------------------------

  // A nested object's member: a list, or something of another type.
  datatype ObjectMember = ListMember(list: Attr<seq<string>>) | OtherMember

  function ObjectListMember(block: map<string, ObjectMember>, name: string): Attr<seq<string>> {
    if name in block && block[name].ListMember? then block[name].list else Null
  }

  const SERVERS: string := "servers"

  function DhcpGuardingServerCount(block: map<string, ObjectMember>): nat {
    var list := ObjectListMember(block, SERVERS);
    if list.Known? then |list.value| else 0
  }

  // The condition under which slot i's wire joins the mask.
  predicate WireTravels(block: map<string, ObjectMember>, i: nat) {
    DhcpGuardingServerCount(block) > i
  }

  const SLOTS: nat := 3

  function Guarded(slots: seq<string>, servers: Attr<seq<string>>): (r: seq<string>)
    ensures |r| == |slots|
  {
    seq(|slots|, i requires 0 <= i < |slots| =>
      if servers.Known? && i < |servers.value| then servers.value[i] else slots[i])
  }

  method GuardingServersToNetwork(slots: array<string>, servers: Attr<seq<string>>)
    requires slots.Length == SLOTS
    modifies slots
    ensures slots[..] == Guarded(old(slots[..]), servers)
  {
    if !servers.Known? { return; }
    var values := servers.value;
    if |values| > 0 { slots[0] := values[0]; }
    if |values| > 1 { slots[1] := values[1]; }
    if |values| > 2 { slots[2] := values[2]; }
  }

  // The object sent for an update starts from some record, the encoder writes
  // onto it, and the controller takes only the masked wires.
  function MaskedGuarding(block: map<string, ObjectMember>, record: seq<string>, held: seq<string>): seq<string>
    requires |record| == |held| == SLOTS
  {
    var sent := Guarded(record, ObjectListMember(block, SERVERS));
    seq(SLOTS, i requires 0 <= i < SLOTS => if WireTravels(block, i) then sent[i] else held[i])
  }

  // A slot's wire travels exactly when the encoder assigns that slot: when what
  // ends up there does not depend on what was there.
  lemma WireTravelsIffAssigned(block: map<string, ObjectMember>, i: nat)
    requires i < SLOTS
    ensures WireTravels(block, i) <==>
      forall a: seq<string>, b: seq<string> :: |a| == |b| == SLOTS ==>
        Guarded(a, ObjectListMember(block, SERVERS))[i] == Guarded(b, ObjectListMember(block, SERVERS))[i]
  {
    var servers := ObjectListMember(block, SERVERS);
    if !WireTravels(block, i) {
      var a, b := ["", "", ""], ["x", "x", "x"];
      assert a[i] != b[i];
      assert Guarded(a, servers)[i] != Guarded(b, servers)[i];
    }
  }

  // The object's servers member: a known list, or nothing to write.
  predicate Lists(block: map<string, ObjectMember>, values: seq<string>) {
    "servers" in block && block["servers"] == ListMember(Known(values))
  }

  // The whole masked update, whatever record it was built from: with a list of
  // servers the first slots are its elements and the others as held; without
  // one, or with servers of another type, nothing changes.
  lemma MaskedGuardingExactly(
    block: map<string, ObjectMember>, record: seq<string>, held: seq<string>, values: seq<string>, i: nat)
    requires |record| == |held| == SLOTS && i < SLOTS
    ensures |MaskedGuarding(block, record, held)| == 3
    ensures Lists(block, values) ==>
      MaskedGuarding(block, record, held)[i] == (if i < |values| then values[i] else held[i]) &&
      (WireTravels(block, i) <==> i < |values|)
    ensures (forall vs :: !Lists(block, vs)) ==>
      MaskedGuarding(block, record, held) == held && !WireTravels(block, i)
  {
    var servers := ObjectListMember(block, SERVERS);
    if servers.Known? { assert Lists(block, servers.value); }
  }

  // The masked update is the encoder run on the controller's own slots,
  // whatever record it was built from: the first min(3, n) slots become the
  // list's and the rest keep what the controller held.
  lemma MaskedGuardingIsInPlace(block: map<string, ObjectMember>, record: seq<string>, held: seq<string>)
    requires |record| == |held| == SLOTS
    ensures var values := Take(ObjectListMember(block, SERVERS).Or([]), SLOTS);
      MaskedGuarding(block, record, held) == Guarded(held, ObjectListMember(block, SERVERS)) &&
      MaskedGuarding(block, record, held) == values + held[|values|..] &&
      NonEmpty(MaskedGuarding(block, record, held)) == NonEmpty(values) + NonEmpty(held[|values|..])
  {
    var values := Take(ObjectListMember(block, SERVERS).Or([]), SLOTS);
    assert MaskedGuarding(block, record, held) == values + held[|values|..];
    NonEmptyConcat(values, held[|values|..]);
  }

  // A configured list reads back as written exactly when it is not empty, fits,
  // has no empty element, and the slots beyond it were already empty.
  lemma GuardingRestoresIff(
    block: map<string, ObjectMember>, record: seq<string>, held: seq<string>, values: seq<string>)
    requires |record| == |held| == SLOTS && Lists(block, values)
    ensures ListOrNull(NonEmpty(MaskedGuarding(block, record, held))) == Known(values) <==>
      0 < |values| <= SLOTS && "" !in values && forall v :: v in held[|Take(values, SLOTS)|..] ==> v == ""
  {
    MaskedGuardingIsInPlace(block, record, held);
    var kept := Take(values, SLOTS);
    var rest := held[|kept|..];
    TakeIsAll(values, SLOTS);
    NonEmptyIff(kept);
    NonEmptyIff(rest);
    NonEmptyIff(MaskedGuarding(block, record, held));
    if NonEmpty(kept) + NonEmpty(rest) == values {
      assert "" !in values;
      KeptIsAll(kept, rest, values);
    }
  }

  lemma KeptIsAll(kept: seq<string>, rest: seq<string>, values: seq<string>)
    requires NonEmpty(kept) + NonEmpty(rest) == values && "" !in values && kept <= values
    requires |values| <= SLOTS ==> kept == values
    requires |kept| + |rest| == SLOTS
    ensures kept == values && NonEmpty(rest) == []
  {
    NonEmptyIff(kept);
    NonEmptyIff(rest);
    assert forall v :: v in kept ==> v in values;
    assert NonEmpty(kept) == kept;
  }
}
