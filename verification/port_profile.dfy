// port_profile's VLAN translation: the practitioner's inclusion set becomes a
// mode, an exclusion list and a forwarding mode over the site's eligible
// networks, and is translated back on read.

module PortProfile {
  import opened FieldSets
  import opened Terraform

  datatype Purpose = Corporate | Guest | VLANOnly | OtherPurpose

  datatype Network = Network(id: string, purpose: Purpose, vlan: Option<int>)

  // tagged_vlan_mgmt and forward. Unset and NoForward are the empty string, the
  // last constructor of each is any text not listed before it.
  datatype Mode = Unset | Auto | BlockAll | Custom | OtherMode(text: string)

  datatype Forward = NoForward | All | Native | Customize | OtherForward(text: string)

  datatype VLANError =
    | UnknownValue
    | BothConfigured
    | ModeConflict
    | ForwardConflict
    | NotEligible(ids: seq<string>)

  // ---------------------------------------------------------------------
  // The tagged networks
  // ---------------------------------------------------------------------

  predicate Eligible(n: Network, native: string) {
    n.id != "" && n.id != native && n.vlan.Some? && !n.purpose.OtherPurpose?
  }

  function EligibleIds(networks: seq<Network>, native: string): seq<string> {
    if networks == [] then []
    else
      var n := networks[|networks| - 1];
      var ids := EligibleIds(networks[..|networks| - 1], native);
      if Eligible(n, native) then ids + [n.id] else ids
  }

  function Universe(networks: seq<Network>, native: string): seq<string> {
    Sort(EligibleIds(networks, native))
  }

  method TaggedNetworkUniverse(networks: seq<Network>, native: string) returns (ids: seq<string>)
    ensures ids == Universe(networks, native)
  {
    ids := [];
    for i := 0 to |networks|
      invariant ids == EligibleIds(networks[..i], native)
    {
      assert networks[..i + 1][..i] == networks[..i];
      var n := networks[i];
      if n.id == "" || n.id == native || n.vlan.None? { continue; }
      match n.purpose
      case Corporate => ids := ids + [n.id];
      case Guest => ids := ids + [n.id];
      case VLANOnly => ids := ids + [n.id];
      case OtherPurpose =>
    }
    assert networks[..|networks|] == networks;
    ids := Sort(ids);
  }

  // The universe is the sorted list of the eligible networks' ids.
  lemma {:induction false} UniverseIff(networks: seq<Network>, native: string, id: string)
    ensures id in Universe(networks, native) <==> exists n :: n in networks && Eligible(n, native) && n.id == id
    ensures Ascending(Universe(networks, native))
  {
    var ids := EligibleIds(networks, native);
    SortIsPermutation(ids);
    SameElements(Sort(ids), ids);
    assert id in Elements(Sort(ids)) <==> id in Elements(ids);
    SortAscends(ids);
    EligibleIdsIff(networks, native, id);
  }

  lemma {:induction false} EligibleIdsIff(networks: seq<Network>, native: string, id: string)
    ensures id in EligibleIds(networks, native) <==> exists n :: n in networks && Eligible(n, native) && n.id == id
  {
    if networks != [] {
      var k := |networks| - 1;
      EligibleIdsIff(networks[..k], native, id);
      assert forall n :: n in networks <==> n in networks[..k] || n == networks[k];
    }
  }

  function Without(s: seq<string>, drop: set<string>): seq<string> {
    if s == [] then []
    else if s[|s| - 1] in drop then Without(s[..|s| - 1], drop)
    else Without(s[..|s| - 1], drop) + [s[|s| - 1]]
  }

  lemma {:induction false} WithoutIff(s: seq<string>, drop: set<string>)
    ensures Elements(Without(s, drop)) == Elements(s) - drop
  {
    if s != [] {
      var n := |s| - 1;
      WithoutIff(s[..n], drop);
      assert s == s[..n] + [s[n]];
      assert Elements(s) == Elements(s[..n]) + {s[n]};
      var kept := Without(s[..n], drop);
      assert Elements(kept + [s[n]]) == Elements(kept) + {s[n]};
    }
  }

  lemma SortKeeps(s: seq<string>)
    ensures Elements(Sort(s)) == Elements(s) && (Sort(s) == [] <==> s == [])
  {
    SortIsPermutation(s);
    SameElements(Sort(s), s);
  }

  // The exclusion list for a selection, and the selected ids outside the universe.
  method ExcludedNetworkIDs(universe: seq<string>, included: seq<string>)
    returns (excluded: seq<string>, invalid: seq<string>)
    ensures excluded == Sort(Without(universe, Elements(included)))
    ensures invalid == Sort(Without(included, Elements(universe)))
  {
    var eligible: set<string> := {};
    for i := 0 to |universe|
      invariant eligible == Elements(universe[..i])
    {
      assert universe[..i + 1] == universe[..i] + [universe[i]];
      eligible := eligible + {universe[i]};
    }
    assert universe[..|universe|] == universe;
    var selected: set<string> := {};
    invalid := [];
    for i := 0 to |included|
      invariant selected == Elements(included[..i]) * eligible
      invariant invalid == Without(included[..i], eligible)
    {
      assert included[..i + 1] == included[..i] + [included[i]];
      assert included[..i + 1][..i] == included[..i];
      if included[i] !in eligible {
        invalid := invalid + [included[i]];
        continue;
      }
      selected := selected + {included[i]};
    }
    assert included[..|included|] == included;
    excluded := [];
    for i := 0 to |universe|
      invariant excluded == Without(universe[..i], Elements(included))
    {
      assert universe[..i + 1][..i] == universe[..i];
      assert universe[i] in Elements(universe);
      if universe[i] !in selected {
        excluded := excluded + [universe[i]];
      }
    }
    excluded, invalid := Sort(excluded), Sort(invalid);
  }

  // What users see: nothing known (None) for a mode outside the three.
  function Actual(mode: Mode, universe: seq<string>, excluded: seq<string>): Option<seq<string>> {
    match mode
    case Auto => Some(universe)
    case BlockAll => Some([])
    case Custom => Some(Without(universe, Elements(excluded)))
    case Unset => None
    case OtherMode(_) => None
  }

  method ActualTaggedNetworkIDs(mode: Mode, universe: seq<string>, excluded: seq<string>)
    returns (ids: Option<seq<string>>)
    ensures ids == Actual(mode, universe, excluded)
  {
    match mode
    case Auto => return Some(universe);
    case BlockAll => return Some([]);
    case Custom =>
      var blocked: set<string> := {};
      for i := 0 to |excluded|
        invariant blocked == Elements(excluded[..i])
      {
        assert excluded[..i + 1] == excluded[..i] + [excluded[i]];
        blocked := blocked + {excluded[i]};
      }
      assert excluded[..|excluded|] == excluded;
      var included: seq<string> := [];
      for i := 0 to |universe|
        invariant included == Without(universe[..i], blocked)
      {
        assert universe[..i + 1][..i] == universe[..i];
        if universe[i] !in blocked {
          included := included + [universe[i]];
        }
      }
      assert universe[..|universe|] == universe;
      return Some(included);
    case Unset => return None;
    case OtherMode(_) => return None;
  }

  // ---------------------------------------------------------------------
  // Mode and forward
  // ---------------------------------------------------------------------

  function ResolveMode(tagged: Option<nat>, excludedConfigured: bool, configured: Mode): Result<Mode, VLANError> {
    if tagged.Some? && excludedConfigured then Err(BothConfigured)
    else if tagged.Some? then
      var derived := if tagged.value == 0 then BlockAll else Custom;
      if configured != Unset && configured != derived then Err(ModeConflict) else Ok(derived)
    else if excludedConfigured then
      if configured != Unset && configured != Custom then Err(ModeConflict) else Ok(Custom)
    else Ok(configured)
  }

  function ForwardFor(mode: Mode): Forward {
    match mode
    case Auto => All
    case BlockAll => Native
    case Custom => Customize
    case Unset => NoForward
    case OtherMode(_) => NoForward
  }

  function ResolveForward(mode: Mode, configured: Forward): Result<Forward, VLANError> {
    var derived := ForwardFor(mode);
    if derived == NoForward then Ok(configured)
    else if configured != NoForward && configured != derived then Err(ForwardConflict)
    else Ok(derived)
  }

  datatype VLANConfig = VLANConfig(
    tagged: Option<seq<string>>, excluded: Option<seq<string>>, mode: Mode, forward: Forward)

  // The four attributes of the configuration.
  datatype ProfileModel = ProfileModel(
    tagged: Attr<seq<string>>, excluded: Attr<seq<string>>, mode: Attr<Mode>, forward: Attr<Forward>)
  {
    predicate HasUnknown() {
      tagged.Unknown? || excluded.Unknown? || mode.Unknown? || forward.Unknown?
    }
  }

  function Listed(a: Attr<seq<string>>): Option<seq<string>> {
    if a.Known? then Some(a.value) else None
  }

  function Count(a: Attr<seq<string>>): Option<nat> {
    if a.Known? then Some(|a.value|) else None
  }

  function ConfigFromModel(model: ProfileModel): Result<VLANConfig, VLANError> {
    if model.HasUnknown() then Err(UnknownValue)
    else
      match ResolveMode(Count(model.tagged), model.excluded.Known?, model.mode.Or(Unset))
      case Err(e) => Err(e)
      case Ok(mode) =>
        match ResolveForward(mode, model.forward.Or(NoForward))
        case Err(e) => Err(e)
        case Ok(forward) => Ok(VLANConfig(Listed(model.tagged), Listed(model.excluded), mode, forward))
  }

  // The plan-time validator gives up on unknown values.
  function Validate(model: ProfileModel): Option<VLANError> {
    if model.HasUnknown() then None
    else
      match ResolveMode(Count(model.tagged), model.excluded.Known?, model.mode.Or(Unset))
      case Err(e) => Some(e)
      case Ok(mode) =>
        var forward := ResolveForward(mode, model.forward.Or(NoForward));
        if forward.Err? then Some(forward.error) else None
  }

  // The mode the configured lists call for, if one of them is configured.
  function DerivedMode(model: ProfileModel): Mode {
    if model.tagged.Known? then (if model.tagged.value == [] then BlockAll else Custom)
    else if model.excluded.Known? then Custom
    else model.mode.Or(Unset)
  }

  // What the practitioner must not contradict.
  predicate Consistent(model: ProfileModel) {
    !(model.tagged.Known? && model.excluded.Known?) &&
    model.mode.Or(Unset) in {Unset, DerivedMode(model)} &&
    (ForwardFor(DerivedMode(model)) == NoForward ||
     model.forward.Or(NoForward) in {NoForward, ForwardFor(DerivedMode(model))})
  }

  // Auto, block_all and custom each have their own forwarding mode; no other
  // mode has one.
  lemma ForwardForIff(mode: Mode)
    ensures ForwardFor(mode) == All <==> mode == Auto
    ensures ForwardFor(mode) == Native <==> mode == BlockAll
    ensures ForwardFor(mode) == Customize <==> mode == Custom
    ensures ForwardFor(mode) == NoForward <==> mode !in {Auto, BlockAll, Custom}
  {
  }

  // Which of several contradictions is reported, in order of precedence.
  lemma ConfigErrorIff(model: ProfileModel)
    ensures model.HasUnknown() <==> ConfigFromModel(model) == Err(UnknownValue)
    ensures ConfigFromModel(model) == Err(BothConfigured) <==>
      !model.HasUnknown() && model.tagged.Known? && model.excluded.Known?
    ensures ConfigFromModel(model) == Err(ModeConflict) <==>
      !model.HasUnknown() && !(model.tagged.Known? && model.excluded.Known?) &&
      model.mode.Known? && model.mode.value !in {Unset, DerivedMode(model)}
    ensures ConfigFromModel(model).Err? ==>
      ConfigFromModel(model).error in {UnknownValue, BothConfigured, ModeConflict, ForwardConflict}
  {
  }

  // Resolving succeeds exactly on fully known, consistent attributes, with the
  // mode the lists call for; on known attributes the validator agrees.
  lemma ConfigFromModelIff(model: ProfileModel)
    ensures ConfigFromModel(model).Ok? <==> !model.HasUnknown() && Consistent(model)
    ensures ConfigFromModel(model).Ok? ==> ConfigFromModel(model).value.mode == DerivedMode(model)
    ensures !model.HasUnknown() ==> (Validate(model).None? <==> ConfigFromModel(model).Ok?)
    ensures !model.HasUnknown() && ConfigFromModel(model).Err? ==> Validate(model) == Some(ConfigFromModel(model).error)
  {
  }

  // ---------------------------------------------------------------------
  // Applying a configuration
  // ---------------------------------------------------------------------

  // The part of the API's port profile the translation touches or reads.
  datatype Profile = Profile(mode: Mode, excluded: seq<string>, forward: Forward, native: string)

  function Applied(config: VLANConfig, universe: seq<string>, p: Profile): Result<Profile, VLANError> {
    match ResolveForward(config.mode, config.forward)
    case Err(e) => Err(e)
    case Ok(forward) =>
      var q := if forward != NoForward then p.(forward := forward) else p;
      if config.mode == Unset && config.tagged.None? && config.excluded.None? then Ok(q)
      else if config.tagged.Some? && config.mode == Custom then
        var invalid := Sort(Without(config.tagged.value, Elements(universe)));
        if invalid != [] then Err(NotEligible(invalid))
        else Ok(q.(mode := config.mode, excluded := Sort(Without(universe, Elements(config.tagged.value)))))
      else Ok(q.(mode := config.mode, excluded := if config.excluded.Some? then Sort(config.excluded.value) else []))
  }

  class PortProfileAPI {
    var taggedVLANMgmt: Mode
    var excludedNetworkIDs: seq<string>
    var forward: Forward
    const nativeNetworkID: string

    constructor (p: Profile)
      ensures State() == p
    {
      taggedVLANMgmt, excludedNetworkIDs, forward, nativeNetworkID := p.mode, p.excluded, p.forward, p.native;
    }

    function State(): Profile
      reads this
    {
      Profile(taggedVLANMgmt, excludedNetworkIDs, forward, nativeNetworkID)
    }

    // Assigns in place; a refused configuration leaves the profile as it was.
    method ApplyVLANConfig(config: VLANConfig, universe: seq<string>) returns (error: Option<VLANError>)
      modifies this
      ensures match Applied(config, universe, old(State()))
        case Ok(p) => error == None && State() == p
        case Err(e) => error == Some(e) && State() == old(State())
    {
      var resolved := ResolveForward(config.mode, config.forward);
      if resolved.Err? { return Some(resolved.error); }
      if config.mode == Unset && config.tagged.None? && config.excluded.None? {
        if resolved.value != NoForward { forward := resolved.value; }
        return None;
      }
      var excluded: seq<string> := [];
      if config.tagged.Some? && config.mode == Custom {
        var invalid;
        excluded, invalid := ExcludedNetworkIDs(universe, config.tagged.value);
        if |invalid| > 0 { return Some(NotEligible(invalid)); }
      } else if config.excluded.Some? {
        excluded := Sort(config.excluded.value);
      }
      taggedVLANMgmt := config.mode;
      excludedNetworkIDs := excluded;
      if resolved.value != NoForward { forward := resolved.value; }
      return None;
    }

    method BeforeSend(config: ProfileModel, networks: seq<Network>) returns (error: Option<VLANError>)
      modifies this
      ensures match Sent(config, networks, old(State()))
        case Ok(p) => error == None && State() == p
        case Err(e) => error == Some(e) && State() == old(State())
    {
      var resolved := ConfigFromModel(config);
      if resolved.Err? { return Some(resolved.error); }
      var universe := TaggedNetworkUniverse(networks, nativeNetworkID);
      error := ApplyVLANConfig(resolved.value, universe);
    }

    // The two set attributes a read puts in state.
    method AfterReceive(networks: seq<Network>) returns (tagged: Attr<seq<string>>, excluded: Attr<seq<string>>)
      ensures tagged == TaggedRead(State(), networks) && excluded == ExcludedRead(State())
    {
      var universe := TaggedNetworkUniverse(networks, nativeNetworkID);
      var ids := ActualTaggedNetworkIDs(taggedVLANMgmt, universe, excludedNetworkIDs);
      tagged := if ids.None? then Null else Known(ids.value);
      excluded := if taggedVLANMgmt == Custom then Known(excludedNetworkIDs) else Null;
    }
  }

  function Sent(model: ProfileModel, networks: seq<Network>, p: Profile): Result<Profile, VLANError> {
    match ConfigFromModel(model)
    case Err(e) => Err(e)
    case Ok(config) => Applied(config, Universe(networks, p.native), p)
  }

  function TaggedRead(p: Profile, networks: seq<Network>): Attr<seq<string>> {
    var ids := Actual(p.mode, Universe(networks, p.native), p.excluded);
    if ids.None? then Null else Known(ids.value)
  }

  function ExcludedRead(p: Profile): Attr<seq<string>> {
    if p.mode == Custom then Known(p.excluded) else Null
  }

  // Equality of set attributes.
  predicate SameSet(a: Attr<seq<string>>, b: Attr<seq<string>>) {
    if a.Known? && b.Known? then Elements(a.value) == Elements(b.value) else a == b
  }

  // ---------------------------------------------------------------------
  // Round trips
  // ---------------------------------------------------------------------

  lemma InvalidIff(included: seq<string>, universe: seq<string>)
    ensures Sort(Without(included, Elements(universe))) == [] <==> Elements(included) <= Elements(universe)
    ensures Elements(Sort(Without(included, Elements(universe)))) == Elements(included) - Elements(universe)
  {
    WithoutIff(included, Elements(universe));
    SortKeeps(Without(included, Elements(universe)));
    NoElements(Without(included, Elements(universe)));
  }

  // Excluding the complement and then excluding that gives the selection back.
  lemma ComplementTwice(universe: seq<string>, included: seq<string>)
    requires Elements(included) <= Elements(universe)
    ensures var excluded := Sort(Without(universe, Elements(included)));
      Elements(Without(universe, Elements(excluded))) == Elements(included)
  {
    WithoutIff(universe, Elements(included));
    SortKeeps(Without(universe, Elements(included)));
    WithoutIff(universe, Elements(Sort(Without(universe, Elements(included)))));
  }

  // A write fails exactly when the attributes are unknown or inconsistent, or a
  // tagged id is not eligible in this site; in that case the error names the
  // ineligible ids.
  lemma SentIff(model: ProfileModel, networks: seq<Network>, p: Profile)
    ensures var universe := Universe(networks, p.native);
      (Sent(model, networks, p).Ok? <==>
        !model.HasUnknown() && Consistent(model) &&
        (model.tagged.Known? ==> Elements(model.tagged.value) <= Elements(universe))) &&
      (Sent(model, networks, p).Err? && Sent(model, networks, p).error.NotEligible? ==>
        model.tagged.Known? &&
        Elements(Sent(model, networks, p).error.ids) == Elements(model.tagged.value) - Elements(universe))
    ensures Sent(model, networks, p).Ok? ==>
      Sent(model, networks, p).value.native == p.native &&
      (DerivedMode(model) != Unset ==> Sent(model, networks, p).value.mode == DerivedMode(model)) &&
      (ForwardFor(DerivedMode(model)) != NoForward ==>
        Sent(model, networks, p).value.forward == ForwardFor(DerivedMode(model)))
  {
    ConfigFromModelIff(model);
    if model.tagged.Known? {
      InvalidIff(model.tagged.value, Universe(networks, p.native));
      NoElements(model.tagged.value);
    }
  }

  // The whole profile an accepted write leaves. The lists decide the mode; a
  // configured mode alone is stored with no exclusions; with neither, nothing
  // but a configured forward changes.
  lemma SentExactly(model: ProfileModel, networks: seq<Network>, p: Profile)
    requires Sent(model, networks, p).Ok?
    ensures var q, mode, given := Sent(model, networks, p).value, DerivedMode(model), model.forward.Or(NoForward);
      q.native == p.native &&
      q.mode == (if mode == Unset then p.mode else mode) &&
      q.forward == match mode
        case Auto => All
        case BlockAll => Native
        case Custom => Customize
        case _ => if given != NoForward then given else p.forward
    ensures var q := Sent(model, networks, p).value;
      if model.tagged.Known? && model.tagged.value != [] then
        Ascending(q.excluded) &&
        Elements(q.excluded) == Elements(Universe(networks, p.native)) - Elements(model.tagged.value)
      else if model.excluded.Known? then
        Ascending(q.excluded) && multiset(q.excluded) == multiset(model.excluded.value)
      else q.excluded == if DerivedMode(model) == Unset then p.excluded else []
  {
    SentIff(model, networks, p);
    ConfigFromModelIff(model);
    ForwardForIff(DerivedMode(model));
    if model.tagged.Known? {
      var kept := Without(Universe(networks, p.native), Elements(model.tagged.value));
      WithoutIff(Universe(networks, p.native), Elements(model.tagged.value));
      SortKeeps(kept);
      SortAscends(kept);
    } else if model.excluded.Known? {
      SortIsPermutation(model.excluded.value);
      SortAscends(model.excluded.value);
    }
  }

  // A network whose traffic can be tagged on the profile's ports.
  ghost predicate Taggable(networks: seq<Network>, native: string, id: string) {
    exists n :: n in networks && n.id == id && id != "" && id != native && n.vlan.Some? &&
      n.purpose in {Corporate, Guest, VLANOnly}
  }

  // What a read shows, for any stored profile and inventory: sets only in the
  // three modes, with every taggable network in auto, none in block_all, and the
  // ones not excluded in custom; the exclusion list itself only in custom.
  lemma ReadExactly(p: Profile, networks: seq<Network>, id: string)
    ensures TaggedRead(p, networks).Known? <==> p.mode in {Auto, BlockAll, Custom}
    ensures !TaggedRead(p, networks).Unknown?
    ensures TaggedRead(p, networks).Known? ==>
      (id in TaggedRead(p, networks).value <==>
        Taggable(networks, p.native, id) && (p.mode == Auto || (p.mode == Custom && id !in p.excluded)))
    ensures ExcludedRead(p) == if p.mode == Custom then Known(p.excluded) else Null
  {
    var universe := Universe(networks, p.native);
    UniverseIff(networks, p.native, id);
    assert id in universe <==> Taggable(networks, p.native, id);
    WithoutIff(universe, Elements(p.excluded));
    assert id in Elements(Without(universe, Elements(p.excluded))) <==> id in universe && id !in p.excluded;
  }

  // Inclusion round trip: for any inventory, native network and tagged set, a
  // write that is accepted reads back as exactly that set, an empty set going
  // through block_all.
  lemma InclusionRoundTrip(model: ProfileModel, networks: seq<Network>, p: Profile)
    requires model.tagged.Known? && Sent(model, networks, p).Ok?
    ensures SameSet(TaggedRead(Sent(model, networks, p).value, networks), model.tagged)
    ensures Sent(model, networks, p).value.mode == if model.tagged.value == [] then BlockAll else Custom
  {
    SentIff(model, networks, p);
    if model.tagged.value != [] {
      ComplementTwice(Universe(networks, p.native), model.tagged.value);
    }
  }

  // Exclusion round trip: a configured exclusion list reads back as itself, and
  // the tagged set is what it leaves of the universe.
  lemma ExclusionRoundTrip(model: ProfileModel, networks: seq<Network>, p: Profile)
    requires model.excluded.Known? && Sent(model, networks, p).Ok?
    ensures SameSet(ExcludedRead(Sent(model, networks, p).value), model.excluded)
    ensures TaggedRead(Sent(model, networks, p).value, networks).Known? &&
      Elements(TaggedRead(Sent(model, networks, p).value, networks).value) ==
      Elements(Universe(networks, p.native)) - Elements(model.excluded.value)
  {
    SentIff(model, networks, p);
    SortKeeps(model.excluded.value);
    WithoutIff(Universe(networks, p.native), Elements(Sort(model.excluded.value)));
  }

  // Read, write, read: whatever the profile holds, writing the tagged set it
  // reads as the only configured attribute is accepted and reads back the same,
  // even where the stored mode changes.
  lemma ReadWriteRead(networks: seq<Network>, p: Profile)
    ensures var read := TaggedRead(p, networks);
      var sent := Sent(ProfileModel(read, Null, Null, Null), networks, p);
      sent.Ok? && SameSet(TaggedRead(sent.value, networks), read)
    ensures TaggedRead(p, networks).Null? ==>
      Sent(ProfileModel(Null, Null, Null, Null), networks, p) == Ok(p)
  {
    var read := TaggedRead(p, networks);
    var model := ProfileModel(read, Null, Null, Null);
    WithoutIff(Universe(networks, p.native), Elements(p.excluded));
    SentIff(model, networks, p);
    if read.Known? { InclusionRoundTrip(model, networks, p); }
  }

  // A configuration that mentions none of the VLAN attributes writes nothing
  // but a configured forward.
  lemma UnconfiguredLeavesAlone(forward: Attr<Forward>, networks: seq<Network>, p: Profile)
    requires !forward.Unknown?
    ensures Sent(ProfileModel(Null, Null, Null, forward), networks, p) ==
      Ok(if forward.Or(NoForward) == NoForward then p else p.(forward := forward.value))
  {
  }
}
