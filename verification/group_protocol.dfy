// Creating client groups on a miss, with any number of operations interleaved:
// each prefetches both vocabularies, resolves its qos_rate block and its group
// names, and takes the shared mutex only around a re-list and the creates that
// are still needed. One API call, lock or unlock is one step.

module GroupProtocol {
  import opened Terraform
  import opened RateNames

  datatype Limits = Limits(up: Option<int>, down: Option<int>)

  // A usergroup or network-members group; the latter has no limits.
  datatype Group = Group(id: string, name: string, limits: Limits)

  const UNLIMITED: Limits := Limits(None, None)

  // What an operation is about to do. Between LockX and UnlockX it holds the mutex.
  datatype Pc =
    | ListRates
    | ListMembers
    | ResolveRate
    | UpdateRate(group: Group)
    | LockRates(name: string)
    | RelistRates(name: string)
    | UpdateLocked(group: Group)
    | CreateRate(name: string)
    | UnlockRates(found: Option<string>)
    | ResolveMembers
    | LockMembers(misses: seq<string>)
    | RelistMembers(misses: seq<string>)
    | CreateMembers(todo: seq<string>, listed: map<string, string>, resolved: map<string, string>, failed: bool)
    | UnlockMembers(resolved: map<string, string>, failed: bool)
    | Finished
    | Failed

  // One client operation: what it was asked for, the vocabularies it
  // prefetched, and what it has put in the client record.
  datatype Op = Op(
    pc: Pc,
    qos: Option<Qos>, names: Option<seq<string>>,
    byName: map<string, Group>, idByName: map<string, string>,
    userGroup: Option<string>, ids: Option<seq<string>>)

  datatype State = State(members: seq<Group>, rates: seq<Group>, holder: Option<nat>, ops: seq<Op>)

  // How the controller answers the call a step makes; id is the one a create
  // was given. Steps that make no call ignore it.
  datatype Answer = Accepted(id: string) | Refused

  // ---------------------------------------------------------------------
  // Vocabularies
  // ---------------------------------------------------------------------

  // Filled by a loop over the listing, so a later group replaces an earlier one.
  function ByName(gs: seq<Group>): map<string, Group> {
    if gs == [] then map[]
    else ByName(gs[..|gs| - 1])[gs[|gs| - 1].name := gs[|gs| - 1]]
  }

  function IdByName(gs: seq<Group>): map<string, string> {
    if gs == [] then map[]
    else IdByName(gs[..|gs| - 1])[gs[|gs| - 1].name := gs[|gs| - 1].id]
  }

  // The first listed group of a name.
  function FirstNamed(gs: seq<Group>, name: string): (r: Option<Group>)
    ensures r.Some? ==> r.value in gs && r.value.name == name
    ensures r.None? ==> forall g :: g in gs ==> g.name != name
  {
    if gs == [] then None
    else if gs[0].name == name then Some(gs[0])
    else FirstNamed(gs[1..], name)
  }

  // The group with the limits the block sets; the others stay.
  function Rerated(g: Group, q: Qos): Group {
    g.(limits := Limits(if q.up.Known? then Some(q.up.value) else g.limits.up,
                        if q.down.Known? then Some(q.down.value) else g.limits.down))
  }

  function LimitsOf(q: Qos): Limits {
    Rerated(Group("", "", UNLIMITED), q).limits
  }

  // Limits that agree with every limit the block sets.
  predicate Carries(l: Limits, q: Qos) {
    (q.up.Known? ==> l.up == Some(q.up.value)) && (q.down.Known? ==> l.down == Some(q.down.value))
  }

  // The same group with the block's upload and download limits where it sets
  // them and its own where it does not.
  predicate ReratedTo(g: Group, h: Group, q: Qos) {
    h.id == g.id && h.name == g.name && Carries(h.limits, q) &&
    (!q.up.Known? ==> h.limits.up == g.limits.up) && (!q.down.Known? ==> h.limits.down == g.limits.down)
  }

  lemma ReratedExactly(g: Group, h: Group, q: Qos)
    ensures h == Rerated(g, q) <==> ReratedTo(g, h, q)
    ensures Rerated(g, q) == g <==> Carries(g.limits, q)
  {
  }

  // A new group carries the block's limits and no others.
  lemma LimitsOfExactly(q: Qos)
    ensures Carries(LimitsOf(q), q)
    ensures !q.up.Known? ==> LimitsOf(q).up == None
    ensures !q.down.Known? ==> LimitsOf(q).down == None
  {
  }

  // A whole-record update, addressed by id.
  function Replaced(gs: seq<Group>, g: Group): seq<Group> {
    seq(|gs|, i requires 0 <= i < |gs| => if gs[i].id == g.id then g else gs[i])
  }

  function Misses(names: seq<string>, known: map<string, string>): (r: seq<string>)
    ensures |r| <= |names|
    ensures forall n :: n in r <==> n in names && n !in known
  {
    if names == [] then []
    else if names[0] in known then Misses(names[1..], known)
    else [names[0]] + Misses(names[1..], known)
  }

  function Lookup(names: seq<string>, known: map<string, string>): (ids: seq<string>)
    ensures |ids| == |names|
    ensures forall k :: 0 <= k < |names| && names[k] in known ==> ids[k] == known[names[k]]
  {
    seq(|names|, k requires 0 <= k < |names| => if names[k] in known then known[names[k]] else "")
  }

  // ---------------------------------------------------------------------
  // Steps
  // ---------------------------------------------------------------------

  predicate Critical(pc: Pc) {
    pc.RelistRates? || pc.UpdateLocked? || pc.CreateRate? || pc.UnlockRates? ||
    pc.RelistMembers? || pc.CreateMembers? || pc.UnlockMembers?
  }

  predicate AtLock(pc: Pc) {
    pc.LockRates? || pc.LockMembers?
  }

  predicate Done(pc: Pc) {
    pc.Finished? || pc.Failed?
  }

  predicate NewId(gs: seq<Group>, id: string) {
    id != "" && forall g :: g in gs ==> g.id != id
  }

  // Whether the step creates a network-members group.
  predicate CreatesMember(pc: Pc) {
    pc.CreateMembers? && pc.todo != [] && pc.todo[0] !in pc.listed
  }

  // A lock needs the mutex free; a created group gets an id of its own.
  predicate Enabled(s: State, i: nat, a: Answer) {
    i < |s.ops| && !Done(s.ops[i].pc) &&
    (AtLock(s.ops[i].pc) ==> s.holder.None?) &&
    (a.Accepted? && s.ops[i].pc.CreateRate? ==> NewId(s.rates, a.id)) &&
    (a.Accepted? && CreatesMember(s.ops[i].pc) ==> NewId(s.members, a.id))
  }

  function Resolved(op: Op, group: Option<string>): Op {
    if group.Some? then op.(userGroup := group, pc := ResolveMembers) else op.(pc := Failed)
  }

  function AfterRate(s: State, op: Op): Op {
    if op.qos.None? then op.(pc := ResolveMembers)
    else if op.qos.value.id != "" then Resolved(op, Some(op.qos.value.id))
    else
      var q := op.qos.value;
      var name := RateName(q);
      if name !in op.byName then op.(pc := LockRates(name))
      else
        var g := op.byName[name];
        if Rerated(g, q) != g then op.(pc := UpdateRate(Rerated(g, q))) else Resolved(op, Some(g.id))
  }

  function AfterRelist(s: State, op: Op, name: string): Op
    requires op.qos.Some?
  {
    match FirstNamed(s.rates, name)
    case None => op.(pc := CreateRate(name))
    case Some(g) =>
      if Rerated(g, op.qos.value) != g then op.(pc := UpdateLocked(Rerated(g, op.qos.value)))
      else op.(pc := UnlockRates(Some(g.id)))
  }

  function AfterMembers(op: Op): Op {
    if op.names.None? then op.(pc := Finished)
    else
      var misses := Misses(op.names.value, op.idByName);
      if misses != [] then op.(pc := LockMembers(misses))
      else op.(pc := Finished, ids := Some(Lookup(op.names.value, op.idByName)))
  }

  function AfterMember(op: Op, a: Answer): Op
    requires op.pc.CreateMembers?
  {
    var CreateMembers(todo, listed, resolved, failed) := op.pc;
    if todo == [] then op.(pc := UnlockMembers(resolved, failed))
    else if todo[0] in listed then
      op.(pc := CreateMembers(todo[1..], listed, resolved[todo[0] := listed[todo[0]]], failed))
    else match a
      case Refused => op.(pc := CreateMembers(todo[1..], listed, resolved, true))
      case Accepted(id) =>
        op.(pc := CreateMembers(todo[1..], listed[todo[0] := id], resolved[todo[0] := id], failed))
  }

  function AfterUnlock(op: Op): Op
    requires op.pc.UnlockMembers? && op.names.Some?
  {
    if op.pc.failed then op.(pc := Failed)
    else
      var known := op.idByName + op.pc.resolved;
      op.(pc := Finished, idByName := known, ids := Some(Lookup(op.names.value, known)))
  }

  // What the stepping operation becomes.
  function NextOp(s: State, op: Op, a: Answer): Op {
    match op.pc
    case ListRates => if a.Refused? then op.(pc := Failed) else op.(pc := ListMembers, byName := ByName(s.rates))
    case ListMembers =>
        if a.Refused? then op.(pc := Failed) else op.(pc := ResolveRate, idByName := IdByName(s.members))
    case ResolveRate => AfterRate(s, op)
    case UpdateRate(g) => Resolved(op, if a.Refused? then None else Some(g.id))
    case LockRates(name) => op.(pc := RelistRates(name))
    case RelistRates(name) =>
        if a.Refused? || op.qos.None? then op.(pc := UnlockRates(None)) else AfterRelist(s, op, name)
    case UpdateLocked(g) => op.(pc := UnlockRates(if a.Refused? then None else Some(g.id)))
    case CreateRate(name) => op.(pc := UnlockRates(if a.Refused? then None else Some(a.id)))
    case UnlockRates(found) => Resolved(op, found)
    case ResolveMembers => AfterMembers(op)
    case LockMembers(misses) => op.(pc := RelistMembers(misses))
    case RelistMembers(misses) =>
      if a.Refused? then op.(pc := UnlockMembers(map[], true))
      else op.(pc := CreateMembers(misses, IdByName(s.members), map[], false))
    case CreateMembers(_, _, _, _) => AfterMember(op, a)
    case UnlockMembers(_, _) => if op.names.None? then op.(pc := Failed) else AfterUnlock(op)
    case Finished => op
    case Failed => op
  }

  function NextMembers(s: State, op: Op, a: Answer): seq<Group> {
    if a.Accepted? && CreatesMember(op.pc) then s.members + [Group(a.id, op.pc.todo[0], UNLIMITED)] else s.members
  }

  function NextRates(s: State, op: Op, a: Answer): seq<Group> {
    if a.Refused? then s.rates
    else match op.pc
      case UpdateRate(g) => Replaced(s.rates, g)
      case UpdateLocked(g) => Replaced(s.rates, g)
      case CreateRate(name) =>
        s.rates + [Group(a.id, name, if op.qos.Some? then LimitsOf(op.qos.value) else UNLIMITED)]
      case _ => s.rates
  }

  function NextHolder(s: State, i: nat, op: Op): Option<nat> {
    if AtLock(op.pc) then Some(i)
    else if op.pc.UnlockRates? || op.pc.UnlockMembers? then None
    else s.holder
  }

  function Step(s: State, i: nat, a: Answer): State
    requires Enabled(s, i, a)
  {
    var op := s.ops[i];
    State(NextMembers(s, op, a), NextRates(s, op, a), NextHolder(s, i, op), s.ops[i := NextOp(s, op, a)])
  }

  // ---------------------------------------------------------------------
  // The invariant
  // ---------------------------------------------------------------------

  ghost predicate Has(gs: seq<Group>, id: string, name: string) {
    exists g :: g in gs && g.id == id && g.name == name
  }

  // Names and ids are pairwise distinct and no id is empty.
  ghost predicate Unique(gs: seq<Group>) {
    (forall i, j :: 0 <= i < j < |gs| ==> gs[i].name != gs[j].name && gs[i].id != gs[j].id) &&
    (forall g {:trigger g in gs} :: g in gs ==> g.id != "")
  }

  ghost predicate Listed(known: map<string, string>, gs: seq<Group>) {
    forall n :: n in known ==> Has(gs, known[n], n)
  }

  ghost predicate ForBlock(op: Op, name: string) {
    op.qos.Some? && op.qos.value.id == "" && name == RateName(op.qos.value)
  }

  ghost predicate Covered(op: Op, known: map<string, string>, todo: seq<string>) {
    op.names.Some? && forall n :: n in op.names.value ==> n in op.idByName || n in known || n in todo
  }

  // The usergroup is set, and unless the block named an id it is the group of
  // the block's name.
  ghost predicate RateResolved(op: Op, rates: seq<Group>) {
    (op.qos.Some? <==> op.userGroup.Some?) &&
    (op.qos.Some? && op.qos.value.id == "" ==> Has(rates, op.userGroup.value, RateName(op.qos.value))) &&
    (op.qos.Some? && op.qos.value.id != "" ==> op.userGroup == Some(op.qos.value.id))
  }

  // The id list has the names' groups in the names' order.
  ghost predicate MembersResolved(op: Op, members: seq<Group>) {
    (op.names.Some? <==> op.ids.Some?) &&
    (op.names.Some? ==> |op.ids.value| == |op.names.value|) &&
    (op.names.Some? ==>
       forall k :: 0 <= k < |op.names.value| ==> Has(members, op.ids.value[k], op.names.value[k]))
  }

  ghost predicate PcOk(op: Op, members: seq<Group>, rates: seq<Group>) {
    match op.pc
    case ListRates => op.userGroup.None? && op.ids.None?
    case ListMembers => op.userGroup.None? && op.ids.None?
    case ResolveRate => op.userGroup.None? && op.ids.None?
    case UpdateRate(g) => ForBlock(op, g.name) && Has(rates, g.id, g.name) && op.ids.None?
    case LockRates(name) => ForBlock(op, name) && op.ids.None?
    case RelistRates(name) => ForBlock(op, name) && op.ids.None?
    case UpdateLocked(g) => ForBlock(op, g.name) && Has(rates, g.id, g.name) && op.ids.None?
    case CreateRate(name) => ForBlock(op, name) && op.ids.None?
    case UnlockRates(found) =>
      op.ids.None? && op.qos.Some? && op.qos.value.id == "" &&
      (found.Some? ==> Has(rates, found.value, RateName(op.qos.value)))
    case ResolveMembers => op.ids.None? && RateResolved(op, rates)
    case LockMembers(misses) => RateResolved(op, rates) && Covered(op, map[], misses)
    case RelistMembers(misses) => RateResolved(op, rates) && Covered(op, map[], misses)
    case CreateMembers(todo, listed, resolved, failed) =>
      RateResolved(op, rates) && op.names.Some? && Listed(resolved, members) &&
      (!failed ==> Covered(op, resolved, todo))
    case UnlockMembers(resolved, failed) =>
      RateResolved(op, rates) && op.names.Some? && Listed(resolved, members) &&
      (!failed ==> Covered(op, resolved, []))
    case Finished => RateResolved(op, rates) && MembersResolved(op, members)
    case Failed => true
  }

  ghost predicate OpOk(op: Op, members: seq<Group>, rates: seq<Group>) {
    Listed(op.idByName, members) &&
    (forall n :: n in op.byName ==> op.byName[n].name == n && Has(rates, op.byName[n].id, n)) &&
    PcOk(op, members, rates)
  }

  // What only the mutex holder knows: its re-listing is still current.
  ghost predicate Current(op: Op, members: seq<Group>, rates: seq<Group>) {
    (op.pc.CreateRate? ==> forall g :: g in rates ==> g.name != op.pc.name) &&
    (op.pc.CreateMembers? ==> Listed(op.pc.listed, members) && forall g :: g in members ==> g.name in op.pc.listed)
  }

  ghost predicate Inv(s: State) {
    Unique(s.members) && Unique(s.rates) &&
    (s.holder.Some? ==> s.holder.value < |s.ops|) &&
    forall i :: 0 <= i < |s.ops| ==>
      OpOk(s.ops[i], s.members, s.rates) && Current(s.ops[i], s.members, s.rates) &&
      (Critical(s.ops[i].pc) <==> s.holder == Some(i))
  }

  // The start: any site whose groups are uniquely named, and any operations.
  ghost predicate Init(s: State) {
    Unique(s.members) && Unique(s.rates) && s.holder.None? &&
    forall op :: op in s.ops ==>
      op.pc.ListRates? && op.byName == map[] && op.idByName == map[] && op.userGroup.None? && op.ids.None?
  }

  // ---------------------------------------------------------------------
  // Every step keeps it
  // ---------------------------------------------------------------------

  ghost predicate Grows(before: seq<Group>, after: seq<Group>) {
    forall id, name :: Has(before, id, name) ==> Has(after, id, name)
  }

  lemma OpOkGrows(op: Op, members: seq<Group>, rates: seq<Group>, members': seq<Group>, rates': seq<Group>)
    requires OpOk(op, members, rates) && Grows(members, members') && Grows(rates, rates')
    ensures OpOk(op, members', rates')
  {
  }

  lemma AppendKeeps(gs: seq<Group>, g: Group)
    requires Unique(gs) && NewId(gs, g.id) && forall h :: h in gs ==> h.name != g.name
    ensures Unique(gs + [g]) && Grows(gs, gs + [g]) && Has(gs + [g], g.id, g.name)
  {
    AppendGrows(gs, g);
  }

  lemma ReplaceAt(gs: seq<Group>, g: Group, i: nat)
    requires Unique(gs) && Has(gs, g.id, g.name) && i < |gs|
    ensures Replaced(gs, g)[i].id == gs[i].id && Replaced(gs, g)[i].name == gs[i].name
  {
    var at :| 0 <= at < |gs| && gs[at].id == g.id && gs[at].name == g.name;
    assert gs[i].id == g.id ==> i == at;
  }

  lemma ReplaceKeeps(gs: seq<Group>, g: Group)
    requires Unique(gs) && Has(gs, g.id, g.name)
    ensures Unique(Replaced(gs, g)) && Grows(gs, Replaced(gs, g))
    ensures forall h :: h in Replaced(gs, g) ==> exists o :: o in gs && o.name == h.name
  {
    var r := Replaced(gs, g);
    forall i | 0 <= i < |gs| ensures r[i].id == gs[i].id && r[i].name == gs[i].name { ReplaceAt(gs, g, i); }
    forall id, name | Has(gs, id, name) ensures Has(r, id, name) {
      var i :| 0 <= i < |gs| && gs[i].id == id && gs[i].name == name;
      assert r[i] in r;
    }
    forall h | h in r ensures h.id != "" && exists o :: o in gs && o.name == h.name {
      var i :| 0 <= i < |r| && r[i] == h;
      assert gs[i] in gs;
    }
  }

  lemma {:induction false} VocabulariesAreListed(gs: seq<Group>)
    ensures Listed(IdByName(gs), gs)
    ensures forall g :: g in gs ==> g.name in IdByName(gs)
    ensures forall n :: n in ByName(gs) ==> ByName(gs)[n] in gs && ByName(gs)[n].name == n
  {
    if gs != [] {
      var n := |gs| - 1;
      VocabulariesAreListed(gs[..n]);
      assert forall g :: g in gs <==> g in gs[..n] || g == gs[n];
      forall x | x in IdByName(gs) ensures Has(gs, IdByName(gs)[x], x) {
        if x != gs[n].name { assert Has(gs[..n], IdByName(gs[..n])[x], x); }
      }
    }
  }

  lemma StoresStep(s: State, i: nat, a: Answer)
    requires Inv(s) && Enabled(s, i, a)
    ensures var t := Step(s, i, a);
      Unique(t.members) && Unique(t.rates) && Grows(s.members, t.members) && Grows(s.rates, t.rates) &&
      (t.members != s.members ==> s.holder == Some(i)) &&
      (s.holder != Some(i) ==> forall g :: g in t.rates ==> exists o :: o in s.rates && o.name == g.name)
  {
    var op := s.ops[i];
    assert OpOk(op, s.members, s.rates) && Current(op, s.members, s.rates);
    if a.Accepted? {
      match op.pc
      case UpdateRate(g) => ReplaceKeeps(s.rates, g);
      case UpdateLocked(g) => ReplaceKeeps(s.rates, g);
      case CreateRate(name) => AppendKeeps(s.rates, NextRates(s, op, a)[|s.rates|]);
      case CreateMembers(todo, _, _, _) =>
        if CreatesMember(op.pc) { AppendKeeps(s.members, Group(a.id, todo[0], UNLIMITED)); }
      case _ =>
    }
  }

  lemma LookupListed(op: Op, known: map<string, string>, members: seq<Group>)
    requires Listed(known, members) && op.names.Some?
    requires forall n :: n in op.names.value ==> n in known
    ensures MembersResolved(op.(ids := Some(Lookup(op.names.value, known))), members)
  {
  }

  predicate InRates(pc: Pc) {
    pc.ListRates? || pc.ListMembers? || pc.ResolveRate? || pc.UpdateRate? || pc.LockRates? ||
    pc.RelistRates? || pc.UpdateLocked? || pc.CreateRate? || pc.UnlockRates?
  }

  lemma RateStep(s: State, op: Op, a: Answer, rates': seq<Group>)
    requires OpOk(op, s.members, s.rates) && InRates(op.pc) && Grows(s.rates, rates')
    requires op.pc.CreateRate? && a.Accepted? ==> Has(rates', a.id, op.pc.name)
    ensures var next := NextOp(s, op, a);
      OpOk(next, s.members, rates') && (next.pc.CreateRate? ==> forall g :: g in s.rates ==> g.name != next.pc.name)
  {
    OpOkGrows(op, s.members, s.rates, s.members, rates');
    if op.pc.ListRates? || op.pc.ListMembers? {
      ListStep(s, op, a, rates');
    } else if op.pc.ResolveRate? {
      ResolveStep(s, op, rates');
    } else if op.pc.RelistRates? {
      RelistStep(s, op, rates');
    } else {
      RateCallStep(s, op, a, rates');
    }
  }

  lemma ListStep(s: State, op: Op, a: Answer, rates: seq<Group>)
    requires OpOk(op, s.members, rates) && (op.pc.ListRates? || op.pc.ListMembers?) && Grows(s.rates, rates)
    ensures OpOk(NextOp(s, op, a), s.members, rates)
  {
    VocabulariesAreListed(s.rates);
    VocabulariesAreListed(s.members);
    forall n | n in ByName(s.rates) ensures Has(rates, ByName(s.rates)[n].id, n) {
      assert Has(s.rates, ByName(s.rates)[n].id, n);
    }
  }

  lemma RateCallStep(s: State, op: Op, a: Answer, rates: seq<Group>)
    requires OpOk(op, s.members, rates) && InRates(op.pc)
    requires !op.pc.ListRates? && !op.pc.ListMembers? && !op.pc.ResolveRate? && !op.pc.RelistRates?
    requires op.pc.CreateRate? && a.Accepted? ==> Has(rates, a.id, op.pc.name)
    ensures OpOk(NextOp(s, op, a), s.members, rates) && !NextOp(s, op, a).pc.CreateRate?
  {
  }

  lemma ResolveStep(s: State, op: Op, rates: seq<Group>)
    requires OpOk(op, s.members, rates) && op.pc.ResolveRate?
    ensures OpOk(AfterRate(s, op), s.members, rates) && !AfterRate(s, op).pc.CreateRate?
  {
  }

  lemma RelistStep(s: State, op: Op, rates: seq<Group>)
    requires OpOk(op, s.members, rates) && op.pc.RelistRates? && Grows(s.rates, rates)
    ensures var next := AfterRelist(s, op, op.pc.name);
      OpOk(next, s.members, rates) && (next.pc.CreateRate? ==> forall g :: g in s.rates ==> g.name != next.pc.name)
  {
    var found := FirstNamed(s.rates, op.pc.name);
    if found.Some? { assert Has(s.rates, found.value.id, found.value.name); }
  }

  lemma MemberStep(s: State, op: Op, a: Answer, members': seq<Group>)
    requires OpOk(op, s.members, s.rates) && !InRates(op.pc) && Grows(s.members, members')
    requires op.pc.CreateMembers? ==> Listed(op.pc.listed, s.members)
    requires CreatesMember(op.pc) && a.Accepted? ==> Has(members', a.id, op.pc.todo[0])
    ensures OpOk(NextOp(s, op, a), members', s.rates)
  {
    OpOkGrows(op, s.members, s.rates, members', s.rates);
    if op.pc.ResolveMembers? {
      NamesStep(op, members', s.rates);
    } else if op.pc.CreateMembers? {
      CreateStep(s, op, a, members');
    } else if op.pc.UnlockMembers? {
      UnlockStep(op, members', s.rates);
    } else if op.pc.RelistMembers? {
      assert NextOp(s, op, a).pc.CreateMembers? || NextOp(s, op, a).pc == UnlockMembers(map[], true);
    }
  }

  lemma NamesStep(op: Op, members: seq<Group>, rates: seq<Group>)
    requires OpOk(op, members, rates) && op.pc.ResolveMembers?
    ensures OpOk(AfterMembers(op), members, rates)
  {
    if op.names.Some? && Misses(op.names.value, op.idByName) == [] {
      LookupListed(op, op.idByName, members);
    }
  }

  lemma UnlockStep(op: Op, members: seq<Group>, rates: seq<Group>)
    requires OpOk(op, members, rates) && op.pc.UnlockMembers?
    ensures OpOk(AfterUnlock(op), members, rates)
  {
    if !op.pc.failed { LookupListed(op, op.idByName + op.pc.resolved, members); }
  }

  lemma CreateStep(s: State, op: Op, a: Answer, members': seq<Group>)
    requires OpOk(op, s.members, s.rates) && op.pc.CreateMembers? && Grows(s.members, members')
    requires Listed(op.pc.listed, s.members)
    requires CreatesMember(op.pc) && a.Accepted? ==> Has(members', a.id, op.pc.todo[0])
    ensures OpOk(NextOp(s, op, a), members', s.rates)
  {
    var todo := op.pc.todo;
    assert todo != [] ==> forall n :: n in todo <==> n == todo[0] || n in todo[1..];
  }

  // The re-listing the holder works from stays current.
  lemma StaysCurrent(s: State, op: Op, a: Answer, rates': seq<Group>)
    requires OpOk(op, s.members, s.rates) && Current(op, s.members, s.rates)
    requires CreatesMember(op.pc) && a.Accepted? ==> NewId(s.members, a.id)
    requires !op.pc.CreateMembers? && !op.pc.RelistMembers? ==> !NextOp(s, op, a).pc.CreateMembers?
    ensures NextOp(s, op, a).pc.CreateMembers? ==> Current(NextOp(s, op, a), NextMembers(s, op, a), rates')
  {
    if op.pc.RelistMembers? {
      VocabulariesAreListed(s.members);
    } else if CreatesMember(op.pc) && a.Accepted? {
      var g := Group(a.id, op.pc.todo[0], UNLIMITED);
      AppendGrows(s.members, g);
    }
  }

  lemma AppendGrows(gs: seq<Group>, g: Group)
    ensures Grows(gs, gs + [g]) && Has(gs + [g], g.id, g.name)
    ensures forall h :: h in gs + [g] <==> h in gs || h == g
  {
    forall id, name | Has(gs, id, name) ensures Has(gs + [g], id, name) {
      var h :| h in gs && h.id == id && h.name == name;
      assert h in gs + [g];
    }
    assert (gs + [g])[|gs|] == g;
  }

  lemma OnlyRelistStartsCreating(s: State, op: Op, a: Answer)
    requires !op.pc.CreateMembers? && !op.pc.RelistMembers?
    ensures !NextOp(s, op, a).pc.CreateMembers?
  {
  }

  // Where a step leads, in terms of holding the mutex.
  lemma RateStepHolds(s: State, op: Op, a: Answer)
    requires InRates(op.pc) && (op.pc.RelistRates? ==> op.qos.Some?)
    ensures Critical(NextOp(s, op, a).pc) <==> AtLock(op.pc) || (Critical(op.pc) && !op.pc.UnlockRates?)
  {
  }

  lemma MemberStepHolds(s: State, op: Op, a: Answer)
    requires !InRates(op.pc)
    ensures Critical(NextOp(s, op, a).pc) <==> AtLock(op.pc) || (Critical(op.pc) && !op.pc.UnlockMembers?)
  {
  }

  // Mutual exclusion: being between lock and unlock is holding the mutex.
  lemma HolderStep(s: State, i: nat, op: Op, a: Answer)
    requires Critical(op.pc) <==> s.holder == Some(i)
    requires AtLock(op.pc) ==> s.holder.None?
    requires op.pc.RelistRates? ==> op.qos.Some?
    ensures Critical(NextOp(s, op, a).pc) <==> NextHolder(s, i, op) == Some(i)
    ensures NextHolder(s, i, op) == s.holder || NextHolder(s, i, op) == Some(i) ||
      (NextHolder(s, i, op).None? && s.holder == Some(i))
  {
    if InRates(op.pc) { RateStepHolds(s, op, a); } else { MemberStepHolds(s, op, a); }
  }

  lemma OthersStep(s: State, i: nat, a: Answer, j: nat)
    requires Inv(s) && Enabled(s, i, a) && j < |s.ops| && j != i
    ensures var t := Step(s, i, a); OpOk(t.ops[j], t.members, t.rates) && Current(t.ops[j], t.members, t.rates)
  {
    StoresStep(s, i, a);
    var t := Step(s, i, a);
    OpOkGrows(s.ops[j], s.members, s.rates, t.members, t.rates);
    assert Current(s.ops[j], s.members, s.rates);
    assert Critical(s.ops[j].pc) <==> s.holder == Some(j);
  }

  // Every step of any operation, whatever the controller answers, keeps the
  // invariant: unique names, mutual exclusion, and vocabularies that may be
  // stale but never wrong.
  lemma StepKeepsInv(s: State, i: nat, a: Answer)
    requires Inv(s) && Enabled(s, i, a)
    ensures Inv(Step(s, i, a))
  {
    var t, op := Step(s, i, a), s.ops[i];
    assert OpOk(op, s.members, s.rates) && Current(op, s.members, s.rates);
    StoresStep(s, i, a);
    if !op.pc.CreateMembers? && !op.pc.RelistMembers? { OnlyRelistStartsCreating(s, op, a); }
    StaysCurrent(s, op, a, t.rates);
    HolderStep(s, i, op, a);
    if InRates(op.pc) {
      if op.pc.CreateRate? && a.Accepted? { AppendKeeps(s.rates, t.rates[|s.rates|]); }
      RateStep(s, op, a, t.rates);
    } else {
      if CreatesMember(op.pc) && a.Accepted? { AppendKeeps(s.members, t.members[|s.members|]); }
      MemberStep(s, op, a, t.members);
    }
    forall j | 0 <= j < |t.ops|
      ensures OpOk(t.ops[j], t.members, t.rates) && Current(t.ops[j], t.members, t.rates)
      ensures Critical(t.ops[j].pc) <==> t.holder == Some(j)
    {
      if j != i { OthersStep(s, i, a, j); }
    }
  }

  // ---------------------------------------------------------------------
  // Runs
  // ---------------------------------------------------------------------

  ghost predicate Next(s: State, t: State) {
    exists i: nat, a :: Enabled(s, i, a) && t == Step(s, i, a)
  }

  ghost predicate Run(states: seq<State>) {
    states != [] && Init(states[0]) && forall k :: 0 < k < |states| ==> Next(states[k - 1], states[k])
  }

  lemma {:induction false} ReachableInv(states: seq<State>, k: nat)
    requires Run(states) && k < |states|
    ensures Inv(states[k])
  {
    if k > 0 {
      ReachableInv(states, k - 1);
      assert Next(states[k - 1], states[k]);
      var i: nat, a :| Enabled(states[k - 1], i, a) && states[k] == Step(states[k - 1], i, a);
      StepKeepsInv(states[k - 1], i, a);
    } else {
      assert forall j :: 0 <= j < |states[0].ops| ==> states[0].ops[j] in states[0].ops;
    }
  }

  // In every reachable state of any number of operations the names of both
  // kinds of group are pairwise distinct, at most one operation is between its
  // lock and unlock, none waits for a mutex it holds, and a finished operation
  // has the group of each requested name at that name's place, none empty.
  lemma Safety(states: seq<State>, k: nat)
    requires Run(states) && k < |states|
    ensures Unique(states[k].members) && Unique(states[k].rates)
    ensures forall i, j :: 0 <= i < j < |states[k].ops| ==>
      !(Critical(states[k].ops[i].pc) && Critical(states[k].ops[j].pc))
    ensures forall i :: 0 <= i < |states[k].ops| && AtLock(states[k].ops[i].pc) ==> states[k].holder != Some(i)
    ensures forall i :: 0 <= i < |states[k].ops| && states[k].ops[i].pc.Finished? ==>
      RateResolved(states[k].ops[i], states[k].rates) && MembersResolved(states[k].ops[i], states[k].members) &&
      NoEmptyId(states[k].ops[i])
  {
    ReachableInv(states, k);
    var s := states[k];
    forall i | 0 <= i < |s.ops| && s.ops[i].pc.Finished?
      ensures RateResolved(s.ops[i], s.rates) && MembersResolved(s.ops[i], s.members) && NoEmptyId(s.ops[i])
    {
      assert OpOk(s.ops[i], s.members, s.rates);
      forall at | s.ops[i].ids.Some? && 0 <= at < |s.ops[i].ids.value| ensures s.ops[i].ids.value[at] != "" {
        assert Has(s.members, s.ops[i].ids.value[at], s.ops[i].names.value[at]);
      }
    }
  }

  // A run with the steps it took.
  datatype Move = Move(op: nat, answer: Answer)

  ghost predicate Trace(states: seq<State>, moves: seq<Move>) {
    |states| == |moves| + 1 && Init(states[0]) &&
    forall k :: 0 <= k < |moves| ==>
      Enabled(states[k], moves[k].op, moves[k].answer) &&
      states[k + 1] == Step(states[k], moves[k].op, moves[k].answer)
  }

  // The steps that wait for the controller's answer.
  predicate CallsController(pc: Pc) {
    pc.ListRates? || pc.ListMembers? || pc.UpdateRate? || pc.RelistRates? || pc.UpdateLocked? ||
    pc.CreateRate? || pc.RelistMembers? || CreatesMember(pc)
  }

  // Failed, or on the way to it through the unlock.
  predicate Failing(pc: Pc) {
    pc.Failed? || pc == UnlockRates(None) || (pc.CreateMembers? && pc.failed) || (pc.UnlockMembers? && pc.failed)
  }

  lemma FailingStep(s: State, op: Op, a: Answer)
    requires OpOk(op, s.members, s.rates) && !Done(op.pc)
    ensures Failing(NextOp(s, op, a).pc) <==> Failing(op.pc) || (CallsController(op.pc) && a.Refused?)
  {
    if InRates(op.pc) {
      RateFailingStep(s, op, a);
    } else if op.pc.CreateMembers? {
      CreateFailingStep(s, op, a);
    } else {
      MemberFailingStep(s, op, a);
    }
  }

  lemma RateFailingStep(s: State, op: Op, a: Answer)
    requires InRates(op.pc) && (op.pc.RelistRates? ==> op.qos.Some?)
    ensures Failing(NextOp(s, op, a).pc) <==> Failing(op.pc) || (CallsController(op.pc) && a.Refused?)
  {
  }

  lemma CreateFailingStep(s: State, op: Op, a: Answer)
    requires op.pc.CreateMembers?
    ensures Failing(NextOp(s, op, a).pc) <==> Failing(op.pc) || (CallsController(op.pc) && a.Refused?)
  {
  }

  lemma MemberFailingStep(s: State, op: Op, a: Answer)
    requires !InRates(op.pc) && !op.pc.CreateMembers? && !Done(op.pc) && (op.pc.UnlockMembers? ==> op.names.Some?)
    ensures Failing(NextOp(s, op, a).pc) <==> Failing(op.pc) || (CallsController(op.pc) && a.Refused?)
  {
  }

  ghost predicate RefusedBefore(states: seq<State>, moves: seq<Move>, k: nat, i: nat)
    requires |states| == |moves| + 1 && k <= |moves|
  {
    exists t :: 0 <= t < k && moves[t].op == i && moves[t].answer.Refused? &&
      i < |states[t].ops| && CallsController(states[t].ops[i].pc)
  }

  lemma TraceIsRun(states: seq<State>, moves: seq<Move>)
    requires Trace(states, moves)
    ensures Run(states)
  {
    forall k | 0 < k < |states| ensures Next(states[k - 1], states[k]) {
      assert Enabled(states[k - 1], moves[k - 1].op, moves[k - 1].answer);
    }
  }

  // In every run an operation is failing exactly when the controller refused
  // one of its own calls, so a finished one had every call accepted and one
  // that failed did not fail for anything another operation did.
  lemma {:induction false} FailsIffRefused(states: seq<State>, moves: seq<Move>, k: nat, i: nat)
    requires Trace(states, moves) && k <= |moves| && i < |states[k].ops|
    ensures Failing(states[k].ops[i].pc) <==> RefusedBefore(states, moves, k, i)
    decreases k
  {
    if k > 0 {
      var s, t, move := states[k - 1], states[k], moves[k - 1];
      assert Enabled(s, move.op, move.answer) && t == Step(s, move.op, move.answer);
      FailsIffRefused(states, moves, k - 1, i);
      TraceIsRun(states, moves);
      ReachableInv(states, k - 1);
      assert OpOk(s.ops[i], s.members, s.rates);
      if move.op == i { FailingStep(s, s.ops[i], move.answer); }
      assert RefusedBefore(states, moves, k, i) <==>
        RefusedBefore(states, moves, k - 1, i) ||
        (move.op == i && move.answer.Refused? && CallsController(s.ops[i].pc));
    } else {
      assert states[0].ops[i] in states[0].ops;
    }
  }

  // What an operation is about to write answers its own request.
  ghost predicate Purposeful(op: Op) {
    match op.pc
    case UpdateRate(g) => op.qos.Some? && Carries(g.limits, op.qos.value)
    case UpdateLocked(g) => op.qos.Some? && Carries(g.limits, op.qos.value)
    case LockMembers(misses) => op.names.Some? && forall n :: n in misses ==> n in op.names.value
    case RelistMembers(misses) => op.names.Some? && forall n :: n in misses ==> n in op.names.value
    case CreateMembers(todo, _, _, _) => op.names.Some? && forall n :: n in todo ==> n in op.names.value
    case _ => true
  }

  lemma PurposefulStep(s: State, op: Op, a: Answer)
    requires Purposeful(op)
    ensures Purposeful(NextOp(s, op, a))
    ensures NextOp(s, op, a).qos == op.qos && NextOp(s, op, a).names == op.names
  {
    if InRates(op.pc) { RatePurposefulStep(s, op, a); }
  }

  lemma RatePurposefulStep(s: State, op: Op, a: Answer)
    requires InRates(op.pc)
    ensures Purposeful(NextOp(s, op, a))
    ensures NextOp(s, op, a).qos == op.qos && NextOp(s, op, a).names == op.names
  {
  }

  // Some operation's block is named so and sets no other limits.
  ghost predicate RatedFor(ops: seq<Op>, g: Group) {
    exists i :: 0 <= i < |ops| && ForBlock(ops[i], g.name) && Carries(g.limits, ops[i].qos.value)
  }

  ghost predicate Requested(ops: seq<Op>, name: string) {
    exists i :: 0 <= i < |ops| && ops[i].names.Some? && name in ops[i].names.value
  }

  // Operations keep their requests.
  ghost predicate SameRequests(before: seq<Op>, after: seq<Op>) {
    |before| == |after| &&
    forall i :: 0 <= i < |before| ==> after[i].qos == before[i].qos && after[i].names == before[i].names
  }

  ghost predicate AllPurposeful(ops: seq<Op>) {
    forall i :: 0 <= i < |ops| ==> Purposeful(ops[i])
  }

  // Groups are only added, each new one under a name some operation asked for,
  // and each usergroup is as it was or carries the limits of some operation's
  // block of its name.
  ghost predicate OnlyAnswers(ops: seq<Op>, s: State, t: State) {
    s.members <= t.members &&
    (forall g :: g in t.members ==> g in s.members || (Requested(ops, g.name) && g.limits == UNLIMITED)) &&
    (forall g :: g in t.rates ==> g in s.rates || RatedFor(ops, g))
  }

  lemma StepOnlyAnswers(s: State, i: nat, a: Answer)
    requires Inv(s) && Enabled(s, i, a) && AllPurposeful(s.ops)
    ensures var t := Step(s, i, a);
      AllPurposeful(t.ops) && SameRequests(s.ops, t.ops) && OnlyAnswers(s.ops, s, t)
  {
    var op := s.ops[i];
    PurposefulStep(s, op, a);
    assert OpOk(op, s.members, s.rates);
    if op.qos.Some? { LimitsOfExactly(op.qos.value); }
  }

  lemma NextOnlyAnswers(s: State, t: State)
    requires Inv(s) && Next(s, t) && AllPurposeful(s.ops)
    ensures AllPurposeful(t.ops) && SameRequests(s.ops, t.ops) && OnlyAnswers(s.ops, s, t)
  {
    var i: nat, a :| Enabled(s, i, a) && t == Step(s, i, a);
    StepOnlyAnswers(s, i, a);
  }

  lemma OnlyAnswersCompose(ops: seq<Op>, s: State, t: State, u: State)
    requires SameRequests(ops, t.ops) && OnlyAnswers(ops, s, t)
    requires SameRequests(t.ops, u.ops) && OnlyAnswers(t.ops, t, u)
    ensures SameRequests(ops, u.ops) && OnlyAnswers(ops, s, u)
  {
    assert forall g :: RatedFor(t.ops, g) ==> RatedFor(ops, g);
    assert forall n :: Requested(t.ops, n) ==> Requested(ops, n);
  }

  // Since s nothing was written that no operation asked for.
  ghost predicate Answering(s: State, t: State) {
    AllPurposeful(t.ops) && SameRequests(s.ops, t.ops) && OnlyAnswers(s.ops, s, t)
  }

  lemma AnsweringStart(s: State)
    requires Init(s)
    ensures Answering(s, s)
  {
    assert forall j :: 0 <= j < |s.ops| ==> s.ops[j] in s.ops;
  }

  lemma AnsweringNext(s: State, t: State, u: State)
    requires Answering(s, t) && Inv(t) && Next(t, u)
    ensures Answering(s, u)
  {
    NextOnlyAnswers(t, u);
    OnlyAnswersCompose(s.ops, s, t, u);
  }

  // In every run each operation keeps its request, member groups are only added
  // under requested names, and each usergroup is as the site had it or carries
  // the limits of some operation's block of its name.
  lemma {:induction false} OnlyRequestsAreWritten(states: seq<State>, k: nat)
    requires Run(states) && k < |states|
    ensures Answering(states[0], states[k])
  {
    if k > 0 {
      OnlyRequestsAreWritten(states, k - 1);
      ReachableInv(states, k - 1);
      AnsweringNext(states[0], states[k - 1], states[k]);
    } else {
      AnsweringStart(states[0]);
    }
  }

  // Some state so far had the group under this id and name, with the limits the
  // block sets.
  ghost predicate ServedBy(states: seq<State>, k: nat, id: string, q: Qos) {
    exists t, g :: 0 <= t <= k && t < |states| && g in states[t].rates &&
      g.id == id && g.name == RateName(q) && Carries(g.limits, q)
  }

  // What an operation prefetched was once so, and the usergroup it settled on
  // has served its block.
  ghost predicate Served(states: seq<State>, k: nat, op: Op) {
    (forall n :: n in op.byName ==> exists t :: 0 <= t <= k && t < |states| && op.byName[n] in states[t].rates) &&
    (op.qos.Some? && op.qos.value.id == "" ==>
      (op.userGroup.Some? ==> ServedBy(states, k, op.userGroup.value, op.qos.value)) &&
      (op.pc.UnlockRates? && op.pc.found.Some? ==> ServedBy(states, k, op.pc.found.value, op.qos.value)))
  }

  lemma ServedStays(states: seq<State>, k: nat, op: Op)
    requires Served(states, k, op)
    ensures Served(states, k + 1, op)
  {
    if op.qos.Some? {
      forall id | ServedBy(states, k, id, op.qos.value) ensures ServedBy(states, k + 1, id, op.qos.value) {
        var t, g :| 0 <= t <= k && t < |states| && g in states[t].rates &&
          g.id == id && g.name == RateName(op.qos.value) && Carries(g.limits, op.qos.value);
        assert t <= k + 1;
      }
    }
  }

  // A group the state at t holds serves the block from then on.
  lemma ServesAt(states: seq<State>, k: nat, t: nat, g: Group, q: Qos)
    requires t <= k && t < |states| && g in states[t].rates && g.name == RateName(q) && Carries(g.limits, q)
    ensures ServedBy(states, k, g.id, q)
  {
  }

  lemma ReplacedHas(gs: seq<Group>, g: Group)
    requires Has(gs, g.id, g.name)
    ensures g in Replaced(gs, g)
  {
    var i :| 0 <= i < |gs| && gs[i].id == g.id;
    assert Replaced(gs, g)[i] == g;
  }

  // The steps that settle on a usergroup do so on one that serves the block:
  // found so, made so by the update, or created so.
  lemma ServedStep(states: seq<State>, k: nat, i: nat, a: Answer)
    requires k + 1 < |states| && Inv(states[k]) && Enabled(states[k], i, a) && states[k + 1] == Step(states[k], i, a)
    requires Purposeful(states[k].ops[i]) && Served(states, k, states[k].ops[i])
    ensures Served(states, k + 1, states[k + 1].ops[i])
  {
    var s, op := states[k], states[k].ops[i];
    assert OpOk(op, s.members, s.rates);
    ServedStays(states, k, op);
    if op.pc.ListRates? {
      ListedServed(states, k, op, a);
    } else if op.pc.ResolveRate? {
      ResolvedServed(states, k, op);
    } else if op.pc.RelistRates? {
      RelistedServed(states, k, op, a);
    } else if op.pc.UpdateRate? || op.pc.UpdateLocked? || op.pc.CreateRate? {
      WrittenServed(states, k, op, a);
    } else {
      QuietServed(states, k, op, a);
    }
  }

  lemma ListedServed(states: seq<State>, k: nat, op: Op, a: Answer)
    requires k < |states| && op.pc.ListRates? && Served(states, k + 1, op)
    ensures Served(states, k + 1, NextOp(states[k], op, a))
  {
    VocabulariesAreListed(states[k].rates);
  }

  lemma QuietServed(states: seq<State>, k: nat, op: Op, a: Answer)
    requires k < |states| && Served(states, k + 1, op)
    requires !op.pc.ListRates? && !op.pc.ResolveRate? && !op.pc.RelistRates?
    requires !op.pc.UpdateRate? && !op.pc.UpdateLocked? && !op.pc.CreateRate?
    ensures Served(states, k + 1, NextOp(states[k], op, a))
  {
    if InRates(op.pc) { QuietRateStep(states[k], op, a); } else { QuietMemberStep(states[k], op, a); }
  }

  lemma QuietRateStep(s: State, op: Op, a: Answer)
    requires InRates(op.pc) && !op.pc.ListRates? && !op.pc.ResolveRate? && !op.pc.RelistRates?
    requires !op.pc.UpdateRate? && !op.pc.UpdateLocked? && !op.pc.CreateRate?
    ensures var next := NextOp(s, op, a);
      next.byName == op.byName && next.qos == op.qos && !next.pc.UnlockRates? &&
      (next.userGroup == op.userGroup || (op.pc == UnlockRates(next.userGroup) && next.userGroup.Some?))
  {
  }

  lemma QuietMemberStep(s: State, op: Op, a: Answer)
    requires !InRates(op.pc)
    ensures var next := NextOp(s, op, a);
      next.byName == op.byName && next.qos == op.qos && !next.pc.UnlockRates? && next.userGroup == op.userGroup
  {
  }

  lemma WrittenServed(states: seq<State>, k: nat, op: Op, a: Answer)
    requires k + 1 < |states| && OpOk(op, states[k].members, states[k].rates)
    requires op.pc.UpdateRate? || op.pc.UpdateLocked? || op.pc.CreateRate?
    requires Purposeful(op) && Served(states, k + 1, op) && states[k + 1].rates == NextRates(states[k], op, a)
    ensures Served(states, k + 1, NextOp(states[k], op, a))
  {
    if a.Accepted? {
      var rates, q := states[k].rates, op.qos.value;
      var g := if op.pc.CreateRate? then Group(a.id, op.pc.name, LimitsOf(q)) else op.pc.group;
      if op.pc.CreateRate? {
        LimitsOfExactly(q);
        assert states[k + 1].rates[|rates|] == g;
      } else {
        ReplacedHas(rates, g);
      }
      ServesAt(states, k + 1, k + 1, g, q);
    }
  }

  lemma ResolvedServed(states: seq<State>, k: nat, op: Op)
    requires k < |states| && OpOk(op, states[k].members, states[k].rates) && op.pc.ResolveRate?
    requires Served(states, k + 1, op) && Served(states, k, op)
    ensures Served(states, k + 1, AfterRate(states[k], op))
  {
    if op.qos.Some? && op.qos.value.id == "" && RateName(op.qos.value) in op.byName {
      var g := op.byName[RateName(op.qos.value)];
      ReratedExactly(g, g, op.qos.value);
      if Rerated(g, op.qos.value) == g {
        var t :| 0 <= t <= k && t < |states| && g in states[t].rates;
        ServesAt(states, k + 1, t, g, op.qos.value);
      }
    }
  }

  lemma RelistedServed(states: seq<State>, k: nat, op: Op, a: Answer)
    requires k < |states| && OpOk(op, states[k].members, states[k].rates) && op.pc.RelistRates?
    requires Served(states, k + 1, op)
    ensures Served(states, k + 1, NextOp(states[k], op, a))
  {
    var found := FirstNamed(states[k].rates, op.pc.name);
    if a.Accepted? && found.Some? {
      ReratedExactly(found.value, found.value, op.qos.value);
      if Rerated(found.value, op.qos.value) == found.value {
        ServesAt(states, k + 1, k, found.value, op.qos.value);
      }
    }
  }

  lemma NextServed(states: seq<State>, k: nat, i: nat)
    requires k + 1 < |states| && Inv(states[k]) && Next(states[k], states[k + 1]) && AllPurposeful(states[k].ops)
    requires i < |states[k].ops| == |states[k + 1].ops| && Served(states, k, states[k].ops[i])
    ensures Served(states, k + 1, states[k + 1].ops[i])
  {
    var j: nat, a :| Enabled(states[k], j, a) && states[k + 1] == Step(states[k], j, a);
    if i == j {
      ServedStep(states, k, i, a);
    } else {
      ServedStays(states, k, states[k].ops[i]);
    }
  }

  // In every run, whatever copies were stale, each operation's usergroup has at
  // some moment been on the site under the block's name with its limits.
  lemma {:induction false} EveryBlockWasServed(states: seq<State>, k: nat, i: nat)
    requires Run(states) && k < |states| && i < |states[k].ops|
    ensures Served(states, k, states[k].ops[i])
  {
    if k > 0 {
      ReachableInv(states, k - 1);
      OnlyRequestsAreWritten(states, k - 1);
      EveryBlockWasServed(states, k - 1, i);
      NextServed(states, k - 1, i);
    } else {
      assert states[0].ops[i] in states[0].ops;
    }
  }

  // When every operation has finished, the site has exactly the groups it had
  // and one for each requested name.
  lemma FinishedSite(states: seq<State>, k: nat, name: string)
    requires Run(states) && k < |states|
    requires forall i :: 0 <= i < |states[k].ops| ==> states[k].ops[i].pc.Finished?
    ensures (exists g :: g in states[k].members && g.name == name) <==>
      (exists g :: g in states[0].members && g.name == name) || Requested(states[0].ops, name)
  {
    OnlyRequestsAreWritten(states, k);
    Safety(states, k);
    var s := states[k];
    if i :| 0 <= i < |states[0].ops| && states[0].ops[i].names.Some? && name in states[0].ops[i].names.value {
      assert s.ops[i].names == states[0].ops[i].names;
      var at :| 0 <= at < |s.ops[i].names.value| && s.ops[i].names.value[at] == name;
      assert Has(s.members, s.ops[i].ids.value[at], name);
    }
  }

  ghost predicate NoEmptyId(op: Op) {
    op.ids.Some? ==> forall at :: 0 <= at < |op.ids.value| ==> op.ids.value[at] != ""
  }

  lemma HasIsOneGroup(gs: seq<Group>, a: string, m: string, b: string, n: string)
    requires Unique(gs) && Has(gs, a, m) && Has(gs, b, n)
    ensures a == b <==> m == n
  {
    var i :| 0 <= i < |gs| && gs[i].id == a && gs[i].name == m;
    var j :| 0 <= j < |gs| && gs[j].id == b && gs[j].name == n;
  }

  // Two finished operations whose blocks give neither id nor name end up in
  // one usergroup exactly when their limits agree, however they interleaved.
  lemma EqualLimitsShareAGroup(states: seq<State>, k: nat, i: nat, j: nat)
    requires Run(states) && k < |states| && i < |states[k].ops| && j < |states[k].ops|
    requires forall x :: x in {i, j} ==>
      states[k].ops[x].pc.Finished? && states[k].ops[x].qos.Some? &&
      states[k].ops[x].qos.value.id == "" && states[k].ops[x].qos.value.name == ""
    ensures states[k].ops[i].userGroup == states[k].ops[j].userGroup <==>
      states[k].ops[i].qos.value.up.Or(-1) == states[k].ops[j].qos.value.up.Or(-1) &&
      states[k].ops[i].qos.value.down.Or(-1) == states[k].ops[j].qos.value.down.Or(-1)
  {
    Safety(states, k);
    var a, b := states[k].ops[i], states[k].ops[j];
    assert i in {i, j} && j in {i, j};
    RateNameIff(a.qos.value, b.qos.value);
    HasIsOneGroup(states[k].rates, a.userGroup.value, RateName(a.qos.value), b.userGroup.value, RateName(b.qos.value));
  }

  function LongestId(gs: seq<Group>): (n: nat)
    ensures forall g :: g in gs ==> |g.id| <= n
  {
    if gs == [] then 0
    else if |gs[0].id| > LongestId(gs[1..]) then |gs[0].id| else LongestId(gs[1..])
  }

  function Fresh(gs: seq<Group>): (id: string)
    ensures NewId(gs, id)
  {
    seq(LongestId(gs) + 1, _ => 'x')
  }

  // No reachable state is stuck: while some operation is unfinished, one of
  // them can step with the controller accepting.
  lemma NoDeadlock(states: seq<State>, k: nat, i: nat) returns (j: nat, a: Answer)
    requires Run(states) && k < |states| && i < |states[k].ops| && !Done(states[k].ops[i].pc)
    ensures Enabled(states[k], j, a) && a.Accepted?
  {
    ReachableInv(states, k);
    var s := states[k];
    j := if s.holder.Some? then s.holder.value else i;
    a := Accepted(if s.ops[j].pc.CreateRate? then Fresh(s.rates) else Fresh(s.members));
    assert s.holder.Some? ==> Critical(s.ops[j].pc);
  }

  function Rank(op: Op): nat {
    var n := if op.names.Some? then |op.names.value| else 0;
    match op.pc
    case ListRates => n + 15
    case ListMembers => n + 14
    case ResolveRate => n + 13
    case UpdateRate(_) => n + 12
    case LockRates(_) => n + 12
    case RelistRates(_) => n + 11
    case UpdateLocked(_) => n + 10
    case CreateRate(_) => n + 10
    case UnlockRates(_) => n + 9
    case ResolveMembers => n + 8
    case LockMembers(misses) => |misses| + 5
    case RelistMembers(misses) => |misses| + 4
    case CreateMembers(todo, _, _, _) => |todo| + 3
    case UnlockMembers(_, _) => 2
    case Finished => 0
    case Failed => 0
  }

  lemma RankDrops(s: State, op: Op, a: Answer)
    requires !Done(op.pc)
    ensures Rank(NextOp(s, op, a)) < Rank(op)
  {
    if InRates(op.pc) { RateRankDrops(s, op, a); } else { MemberRankDrops(s, op, a); }
  }

  lemma RateRankDrops(s: State, op: Op, a: Answer)
    requires InRates(op.pc)
    ensures Rank(NextOp(s, op, a)) < Rank(op)
  {
  }

  lemma MemberRankDrops(s: State, op: Op, a: Answer)
    requires !InRates(op.pc) && !Done(op.pc)
    ensures Rank(NextOp(s, op, a)) < Rank(op)
  {
  }

  function Work(ops: seq<Op>): nat {
    if ops == [] then 0 else Work(ops[..|ops| - 1]) + Rank(ops[|ops| - 1])
  }

  lemma {:induction false} WorkDrops(ops: seq<Op>, i: nat, op: Op)
    requires i < |ops| && Rank(op) < Rank(ops[i])
    ensures Work(ops[i := op]) < Work(ops)
  {
    var n := |ops| - 1;
    if i < n {
      WorkDrops(ops[..n], i, op);
      assert ops[i := op][..n] == ops[..n][i := op];
    } else {
      assert ops[i := op][..n] == ops[..n];
    }
  }

  // Every run ends: its length is bounded by the work its operations start
  // with, so with NoDeadlock every operation finishes or fails.
  lemma {:induction false} RunsEnd(states: seq<State>, k: nat)
    requires Run(states) && k < |states|
    ensures k + Work(states[k].ops) <= Work(states[0].ops)
  {
    if k > 0 {
      RunsEnd(states, k - 1);
      var s, t := states[k - 1], states[k];
      assert Next(s, t);
      var i: nat, a :| Enabled(s, i, a) && t == Step(s, i, a);
      RankDrops(s, s.ops[i], a);
      WorkDrops(s.ops, i, NextOp(s, s.ops[i], a));
    }
  }
}
