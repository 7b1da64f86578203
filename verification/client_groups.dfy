// The client hooks as one operation runs them: BeforeSend resolves the qos_rate
// block and the group names to ids, AfterReceive turns ids back into names. The
// interleavings of many such operations are in GroupProtocol.

module ClientGroups {
  import opened Terraform
  import opened RateNames
  import opened GroupProtocol

  // The site's groups behind the API, and the provider's mutex. Calls are
  // numbered and the ones in refused fail without effect; a created group gets
  // an id no other has.
  class GroupApi {
    var members: seq<Group>
    var rates: seq<Group>
    var locked: bool
    var calls: nat
    const refused: set<nat>

    constructor (members: seq<Group>, rates: seq<Group>, refused: set<nat>)
      ensures this.members == members && this.rates == rates && this.refused == refused && !locked && calls == 0
    {
      this.members, this.rates, this.refused, locked, calls := members, rates, refused, false, 0;
    }

    // The mutex is not reentrant: locking it twice would never return.
    method Lock()
      requires !locked
      modifies this`locked
      ensures locked
    {
      locked := true;
    }

    method Unlock()
      requires locked
      modifies this`locked
      ensures !locked
    {
      locked := false;
    }

    method Call() returns (ok: bool)
      modifies this`calls
      ensures calls == old(calls) + 1 && ok == (old(calls) !in refused)
    {
      ok := calls !in refused;
      calls := calls + 1;
    }

    method CreateMember(name: string) returns (id: Option<string>)
      modifies this`members, this`calls
      ensures calls == old(calls) + 1 && (id.Some? <==> old(calls) !in refused)
      ensures id.None? ==> members == old(members)
      ensures id.Some? ==> NewId(old(members), id.value) && members == old(members) + [Group(id.value, name, UNLIMITED)]
    {
      var ok := Call();
      if !ok { return None; }
      id := Some(Fresh(members));
      members := members + [Group(id.value, name, UNLIMITED)];
    }

    method CreateRate(name: string, limits: Limits) returns (id: Option<string>)
      modifies this`rates, this`calls
      ensures calls == old(calls) + 1 && (id.Some? <==> old(calls) !in refused)
      ensures id.None? ==> rates == old(rates)
      ensures id.Some? ==> NewId(old(rates), id.value) && rates == old(rates) + [Group(id.value, name, limits)]
    {
      var ok := Call();
      if !ok { return None; }
      id := Some(Fresh(rates));
      rates := rates + [Group(id.value, name, limits)];
    }

    method UpdateRate(g: Group) returns (ok: bool)
      modifies this`rates, this`calls
      ensures calls == old(calls) + 1 && ok == (old(calls) !in refused)
      ensures rates == if ok then Replaced(old(rates), g) else old(rates)
    {
      ok := Call();
      if ok { rates := Replaced(rates, g); }
    }
  }

  // The groups after creating some of the wanted names, each only if absent.
  ghost predicate CreatedOnly(before: seq<Group>, after: seq<Group>, wanted: seq<string>) {
    before <= after && Grows(before, after) &&
    forall i :: |before| <= i < |after| ==> after[i].name in wanted
  }

  // Whether the controller turned down a call numbered from the first on.
  ghost predicate AnyRefused(refused: set<nat>, first: nat, end: nat) {
    exists c :: c in refused && first <= c < end
  }

  // The names created and the number of the next call.
  datatype Course = Course(created: seq<string>, call: nat)

  // The creates the first i misses call for on a site with the existing names:
  // an absent name is created when it comes up, and again only if the
  // controller refused it before.
  function Creates(existing: seq<string>, misses: seq<string>, refused: set<nat>, first: nat, i: nat): (r: Course)
    requires i <= |misses|
    ensures first <= r.call <= first + i
  {
    if i == 0 then Course([], first)
    else
      var c, name := Creates(existing, misses, refused, first, i - 1), misses[i - 1];
      if name in existing || name in c.created then c
      else if c.call in refused then c.(call := c.call + 1)
      else Course(c.created + [name], c.call + 1)
  }

  // Only absent requested names are created, each once; and each of them, when
  // no call is refused.
  lemma {:induction false} CreatesExactly(
    existing: seq<string>, misses: seq<string>, refused: set<nat>, first: nat, i: nat)
    requires i <= |misses|
    ensures var c := Creates(existing, misses, refused, first, i);
      (forall n :: n in c.created ==> n in misses && n !in existing) &&
      (forall j, k :: 0 <= j < k < |c.created| ==> c.created[j] != c.created[k]) &&
      (!AnyRefused(refused, first, c.call) ==>
        forall j :: 0 <= j < i ==> misses[j] in existing || misses[j] in c.created)
  {
    if i > 0 { CreatesExactly(existing, misses, refused, first, i - 1); }
  }

  function Names(gs: seq<Group>): seq<string> {
    seq(|gs|, i requires 0 <= i < |gs| => gs[i].name)
  }

  lemma NamesAppend(gs: seq<Group>, g: Group)
    ensures Names(gs + [g]) == Names(gs) + [g.name]
  {
  }

  // What the loop over the misses has learned before its i-th name: known is the
  // site's vocabulary, and resolved answers the names passed.
  ghost predicate Answered(
    members: seq<Group>, known: map<string, string>, resolved: map<string, string>,
    misses: seq<string>, i: nat, failed: bool)
  {
    i <= |misses| && Unique(members) &&
    Listed(known, members) && (forall g {:trigger g in members} :: g in members ==> g.name in known) &&
    Listed(resolved, members) && (forall n :: n in resolved ==> n in misses) &&
    (!failed ==> forall j :: 0 <= j < i ==> misses[j] in resolved)
  }

  // The site has the groups it had and the ones the first i misses call for.
  ghost predicate Grown(
    before: seq<Group>, members: seq<Group>, misses: seq<string>, i: nat, refused: set<nat>, first: nat, call: nat)
  {
    i <= |misses| && before <= members &&
    Names(members) == Names(before) + Creates(Names(before), misses, refused, first, i).created &&
    call == Creates(Names(before), misses, refused, first, i).call
  }

  lemma KnownNames(members: seq<Group>, known: map<string, string>, name: string)
    requires Listed(known, members) && forall g {:trigger g in members} :: g in members ==> g.name in known
    ensures name in known <==> name in Names(members)
  {
    if name in known {
      assert Has(members, known[name], name);
      var i :| 0 <= i < |members| && members[i].name == name;
      assert Names(members)[i] == name;
    }
    if i :| 0 <= i < |members| && Names(members)[i] == name { assert members[i] in members; }
  }

  lemma GrownStep(
    before: seq<Group>, members: seq<Group>, misses: seq<string>, i: nat, refused: set<nat>, first: nat, call: nat,
    g: Group)
    requires Grown(before, members, misses, i, refused, first, call) && i < |misses| && g.name == misses[i]
    ensures misses[i] in Names(members) ==> Grown(before, members, misses, i + 1, refused, first, call)
    ensures misses[i] !in Names(members) && call in refused ==>
      Grown(before, members, misses, i + 1, refused, first, call + 1)
    ensures misses[i] !in Names(members) && call !in refused ==>
      Grown(before, members + [g], misses, i + 1, refused, first, call + 1)
  {
    NamesAppend(members, g);
    var c := Creates(Names(before), misses, refused, first, i);
    assert misses[i] in Names(members) <==> misses[i] in Names(before) || misses[i] in c.created;
  }

  lemma AnsweredKnown(
    members: seq<Group>, known: map<string, string>, resolved: map<string, string>,
    misses: seq<string>, i: nat, failed: bool)
    requires Answered(members, known, resolved, misses, i, failed) && i < |misses|
    ensures misses[i] in known ==>
      Answered(members, known, resolved[misses[i] := known[misses[i]]], misses, i + 1, failed)
    ensures Answered(members, known, resolved, misses, i + 1, true)
  {
  }

  lemma AnsweredCreate(
    members: seq<Group>, known: map<string, string>, resolved: map<string, string>,
    misses: seq<string>, i: nat, failed: bool, g: Group)
    requires Answered(members, known, resolved, misses, i, failed)
    requires i < |misses| && g.name == misses[i] && misses[i] !in known && NewId(members, g.id)
    ensures Answered(members + [g], known[misses[i] := g.id], resolved[misses[i] := g.id], misses, i + 1, failed)
  {
    AppendKeeps(members, g);
    AppendGrows(members, g);
    var after := members + [g];
    forall n | n in known ensures Has(after, known[n], n) { assert Has(members, known[n], n); }
    forall n | n in resolved ensures Has(after, resolved[n], n) { assert Has(members, resolved[n], n); }
  }

  // Where the loop over the misses stands before its i-th name.
  ghost predicate AtMiss(
    before: seq<Group>, members: seq<Group>, known: map<string, string>, resolved: map<string, string>,
    misses: seq<string>, i: nat, failed: bool, refused: set<nat>, first: nat, call: nat)
  {
    Answered(members, known, resolved, misses, i, failed) && Grown(before, members, misses, i, refused, first, call) &&
    (failed <==> AnyRefused(refused, first, call))
  }

  lemma AtFirstMiss(before: seq<Group>, misses: seq<string>, refused: set<nat>, first: nat)
    requires Unique(before)
    ensures AtMiss(before, before, IdByName(before), map[], misses, 0, false, refused, first, first)
  {
    VocabulariesAreListed(before);
  }

  // The three ways past a name: it is known, its create is refused, or id is the
  // group created for it.
  lemma PastMiss(
    before: seq<Group>, members: seq<Group>, known: map<string, string>, resolved: map<string, string>,
    misses: seq<string>, i: nat, failed: bool, refused: set<nat>, first: nat, call: nat, g: Group)
    requires AtMiss(before, members, known, resolved, misses, i, failed, refused, first, call)
    requires i < |misses| && g.name == misses[i]
    ensures misses[i] in known ==>
      AtMiss(before, members, known, resolved[misses[i] := known[misses[i]]], misses, i + 1, failed,
             refused, first, call)
    ensures misses[i] !in known && call in refused ==>
      AtMiss(before, members, known, resolved, misses, i + 1, true, refused, first, call + 1)
    ensures misses[i] !in known && call !in refused && NewId(members, g.id) ==>
      AtMiss(before, members + [g], known[misses[i] := g.id], resolved[misses[i] := g.id], misses, i + 1, failed,
             refused, first, call + 1)
  {
    KnownNames(members, known, misses[i]);
    AnsweredKnown(members, known, resolved, misses, i, failed);
    GrownStep(before, members, misses, i, refused, first, call, g);
    if misses[i] !in known && NewId(members, g.id) {
      AnsweredCreate(members, known, resolved, misses, i, failed, g);
    }
  }

  // The groups added are named by the creates the misses call for.
  ghost predicate CreatedFor(
    before: seq<Group>, after: seq<Group>, misses: seq<string>, refused: set<nat>, first: nat)
  {
    Names(after) == Names(before) + Creates(Names(before), misses, refused, first, |misses|).created
  }

  lemma LastMiss(
    before: seq<Group>, members: seq<Group>, known: map<string, string>, resolved: map<string, string>,
    misses: seq<string>, failed: bool, refused: set<nat>, first: nat, call: nat)
    requires AtMiss(before, members, known, resolved, misses, |misses|, failed, refused, first, call)
    ensures Unique(members) && CreatedOnly(before, members, misses) && Listed(resolved, members)
    ensures !failed ==> forall n :: n in resolved <==> n in misses
    ensures first <= call <= first + |misses|
    ensures first > 0 && first - 1 !in refused ==> (failed <==> AnyRefused(refused, first - 1, call))
    ensures CreatedFor(before, members, misses, refused, first)
  {
    GrownOnly(before, members, misses, refused, first, call);
    if first > 0 && first - 1 !in refused { RefusedFrom(refused, first, call); }
  }

  lemma GrownOnly(
    before: seq<Group>, members: seq<Group>, misses: seq<string>, refused: set<nat>, first: nat, call: nat)
    requires Grown(before, members, misses, |misses|, refused, first, call)
    ensures CreatedOnly(before, members, misses) && CreatedFor(before, members, misses, refused, first)
    ensures first <= call <= first + |misses|
  {
    var c := Creates(Names(before), misses, refused, first, |misses|);
    CreatesExactly(Names(before), misses, refused, first, |misses|);
    forall k | |before| <= k < |members| ensures members[k].name in misses {
      assert Names(members)[k] == c.created[k - |before|];
    }
    PrefixGrows(before, members);
  }

  lemma RefusedFrom(refused: set<nat>, first: nat, end: nat)
    requires first > 0 && first - 1 !in refused
    ensures AnyRefused(refused, first, end) <==> AnyRefused(refused, first - 1, end)
  {
  }

  lemma PrefixGrows(before: seq<Group>, after: seq<Group>)
    requires before <= after
    ensures Grows(before, after)
  {
    forall id, name | Has(before, id, name) ensures Has(after, id, name) {
      var g :| g in before && g.id == id && g.name == name;
      assert g in after;
    }
  }

  // The miss path for group names: re-list under the lock, then create what is
  // still absent, reusing a group this call just created. It fails exactly when
  // the controller refuses one of its calls.
  method ResolveMemberGroupsLocked(api: GroupApi, misses: seq<string>)
    returns (resolved: map<string, string>, failed: bool)
    requires !api.locked && Unique(api.members)
    modifies api`members, api`calls, api`locked
    ensures !api.locked && Unique(api.members) && CreatedOnly(old(api.members), api.members, misses)
    ensures old(api.calls) < api.calls <= old(api.calls) + 1 + |misses|
    ensures failed <==> AnyRefused(api.refused, old(api.calls), api.calls)
    ensures Listed(resolved, api.members)
    ensures !failed ==> forall n :: n in resolved <==> n in misses
    ensures old(api.calls) in api.refused ==> api.members == old(api.members)
    ensures old(api.calls) !in api.refused ==>
      CreatedFor(old(api.members), api.members, misses, api.refused, old(api.calls) + 1)
  {
    api.Lock();
    var ok := api.Call();
    if !ok {
      api.Unlock();
      return map[], true;
    }
    resolved, failed := map[], false;
    var known := IdByName(api.members);
    ghost var before, first := api.members, api.calls;
    AtFirstMiss(before, misses, api.refused, first);
    for i := 0 to |misses|
      invariant api.locked
      invariant AtMiss(before, api.members, known, resolved, misses, i, failed, api.refused, first, api.calls)
    {
      var name := misses[i];
      ghost var now, call := api.members, api.calls;
      if name in known {
        PastMiss(before, now, known, resolved, misses, i, failed, api.refused, first, call, Group("", name, UNLIMITED));
        resolved := resolved[name := known[name]];
        continue;
      }
      var id := api.CreateMember(name);
      ghost var g := Group(id.Or(""), name, UNLIMITED);
      PastMiss(before, now, known, resolved, misses, i, failed, api.refused, first, call, g);
      if id.None? {
        failed := true;
        continue;
      }
      known, resolved := known[name := id.value], resolved[name := id.value];
    }
    LastMiss(before, api.members, known, resolved, misses, failed, api.refused, first, api.calls);
    api.Unlock();
  }

  // Re-rates a group when the block's limits disagree with it: one update of the
  // record of that id, everything else as it was.
  method UpdateGroupIfNeeded(api: GroupApi, existing: Group, q: Qos) returns (id: Option<string>)
    requires Unique(api.rates) && Has(api.rates, existing.id, existing.name)
    modifies api`rates, api`calls
    ensures Unique(api.rates) && Grows(old(api.rates), api.rates) && |api.rates| == |old(api.rates)|
    ensures api.calls == old(api.calls) + if Carries(existing.limits, q) then 0 else 1
    ensures id.None? <==> AnyRefused(api.refused, old(api.calls), api.calls)
    ensures id.Some? ==> id.value == existing.id
    ensures id.None? || Carries(existing.limits, q) ==> api.rates == old(api.rates)
    ensures id.Some? && !Carries(existing.limits, q) ==>
      forall i :: 0 <= i < |api.rates| ==>
        if old(api.rates)[i].id == existing.id then ReratedTo(existing, api.rates[i], q)
        else api.rates[i] == old(api.rates)[i]
  {
    var g := existing;
    var update := false;
    if q.up.Known? && g.limits.up != Some(q.up.value) {
      g := g.(limits := g.limits.(up := Some(q.up.value)));
      update := true;
    }
    if q.down.Known? && g.limits.down != Some(q.down.value) {
      g := g.(limits := g.limits.(down := Some(q.down.value)));
      update := true;
    }
    assert ReratedTo(existing, g, q) && (update <==> !Carries(existing.limits, q));
    if update {
      ReplaceKeeps(api.rates, g);
      var ok := api.UpdateRate(g);
      if !ok { return None; }
    }
    return Some(existing.id);
  }

  // The group is there under the block's name with the limits the block sets.
  ghost predicate Serves(rates: seq<Group>, id: string, q: Qos, name: string) {
    exists g :: g in rates && g.id == id && g.name == name && Carries(g.limits, q)
  }

  // The whole effect of resolving a block on the site's usergroups: the group of
  // its name is re-rated, or a new one is added with its limits and no others.
  ghost predicate ResolvedInto(before: seq<Group>, after: seq<Group>, id: string, q: Qos, name: string) {
    |after| == |before| + (if exists g :: g in before && g.name == name then 0 else 1) &&
    (forall i :: 0 <= i < |before| ==>
      if before[i].name == name then before[i].id == id && ReratedTo(before[i], after[i], q)
      else after[i] == before[i]) &&
    (|after| > |before| ==> NewId(before, id) && ReratedTo(Group(id, name, UNLIMITED), after[|before|], q))
  }

  // Whatever else happens, no group of another name is touched.
  ghost predicate OnlyTouches(before: seq<Group>, after: seq<Group>, name: string) {
    |before| <= |after| <= |before| + 1 &&
    (forall i :: 0 <= i < |before| ==>
      after[i] == before[i] || (after[i].id == before[i].id && after[i].name == before[i].name == name)) &&
    (|after| > |before| ==> after[|before|].name == name)
  }

  lemma ResolvedServes(before: seq<Group>, after: seq<Group>, id: string, q: Qos, name: string)
    requires ResolvedInto(before, after, id, q, name)
    ensures Serves(after, id, q, name) && Has(after, id, name) && OnlyTouches(before, after, name)
  {
    if g :| g in before && g.name == name {
      var i :| 0 <= i < |before| && before[i] == g;
      assert after[i] in after;
    } else {
      assert after[|before|] in after;
    }
  }

  // Updating from a current copy is the whole effect.
  lemma UpdatedIsResolved(before: seq<Group>, after: seq<Group>, g: Group, q: Qos)
    requires Unique(before) && g in before && |after| == |before|
    requires Carries(g.limits, q) ==> after == before
    requires !Carries(g.limits, q) ==>
      forall i :: 0 <= i < |after| ==>
        if before[i].id == g.id then ReratedTo(g, after[i], q) else after[i] == before[i]
    ensures ResolvedInto(before, after, g.id, q, g.name)
  {
    var at :| 0 <= at < |before| && before[at] == g;
    forall i | 0 <= i < |before|
      ensures if before[i].name == g.name then before[i].id == g.id && ReratedTo(before[i], after[i], q)
              else after[i] == before[i]
    {
      assert i == at <==> before[i].name == g.name;
      assert i == at <==> before[i].id == g.id;
    }
  }

  // Updating from a stale copy still touches only the group of the name.
  lemma UpdatedOnlyTouches(before: seq<Group>, after: seq<Group>, g: Group, q: Qos)
    requires Unique(before) && Has(before, g.id, g.name) && |after| == |before|
    requires after != before ==>
      forall i :: 0 <= i < |after| ==>
        if before[i].id == g.id then ReratedTo(g, after[i], q) else after[i] == before[i]
    ensures OnlyTouches(before, after, g.name)
  {
    var at :| 0 <= at < |before| && before[at].id == g.id && before[at].name == g.name;
    forall i | 0 <= i < |before|
      ensures after[i] == before[i] || (after[i].id == before[i].id && after[i].name == before[i].name == g.name)
    {
      assert i == at <==> before[i].id == g.id;
    }
  }

  // The miss path for a usergroup: the first group of the name, re-rated if
  // need be, or a new one with the block's limits. It fails, changing nothing,
  // exactly when the controller refuses one of its calls.
  method ResolveGroupLocked(api: GroupApi, name: string, q: Qos) returns (id: Option<string>)
    requires !api.locked && Unique(api.rates)
    modifies api`rates, api`calls, api`locked
    ensures !api.locked && Unique(api.rates) && Grows(old(api.rates), api.rates)
    ensures old(api.calls) < api.calls
    ensures id.None? <==> AnyRefused(api.refused, old(api.calls), api.calls)
    ensures id.None? ==> api.rates == old(api.rates)
    ensures id.Some? ==> ResolvedInto(old(api.rates), api.rates, id.value, q, name)
  {
    api.Lock();
    var ok := api.Call();
    if !ok {
      api.Unlock();
      return None;
    }
    ghost var before := api.rates;
    var i := 0;
    while i < |api.rates|
      invariant i <= |api.rates| && api.rates == before && api.calls == old(api.calls) + 1
      invariant forall j :: 0 <= j < i ==> before[j].name != name
    {
      if api.rates[i].name == name {
        var existing := api.rates[i];
        assert Has(before, existing.id, name);
        id := UpdateGroupIfNeeded(api, existing, q);
        if id.Some? { UpdatedIsResolved(before, api.rates, existing, q); }
        api.Unlock();
        return;
      }
      i := i + 1;
    }
    var limits := UNLIMITED;
    if q.up.Known? { limits := limits.(up := Some(q.up.value)); }
    if q.down.Known? { limits := limits.(down := Some(q.down.value)); }
    id := api.CreateRate(name, limits);
    if id.Some? { AppendKeeps(before, api.rates[|before|]); }
    api.Unlock();
  }

  // A usergroup id for the block. It fails, changing nothing, exactly when the
  // controller refuses one of its calls. Only the group of the block's name is
  // ever touched, and it ends up with the block's limits unless the prefetched
  // copy it was compared with was stale.
  method ResolveGroup(api: GroupApi, byName: map<string, Group>, q: Qos) returns (id: Option<string>)
    requires !api.locked && Unique(api.rates)
    requires forall n :: n in byName ==> byName[n].name == n && Has(api.rates, byName[n].id, n)
    modifies api`rates, api`calls, api`locked
    ensures !api.locked && Unique(api.rates) && Grows(old(api.rates), api.rates)
    ensures api.calls >= old(api.calls)
    ensures id.None? <==> AnyRefused(api.refused, old(api.calls), api.calls)
    ensures id.None? ==> api.rates == old(api.rates)
    ensures q.id != "" ==> id == Some(q.id) && api.rates == old(api.rates) && api.calls == old(api.calls)
    ensures q.id == "" && id.Some? ==> Has(api.rates, id.value, RateName(q))
    ensures OnlyTouches(old(api.rates), api.rates, RateName(q))
    ensures q.id == "" && id.Some? && CopyIsCurrent(byName, old(api.rates), RateName(q)) ==>
      ResolvedInto(old(api.rates), api.rates, id.value, q, RateName(q))
  {
    ghost var before := api.rates;
    if q.id != "" { return Some(q.id); }
    var name := q.name;
    if name == "" {
      var maxUp, maxDown := -1, -1;
      if q.up.Known? { maxUp := q.up.value; }
      if q.down.Known? { maxDown := q.down.value; }
      name := DerivedName(maxUp, maxDown);
    }
    assert name == RateName(q);
    if name in byName {
      id := UpdateGroupIfNeeded(api, byName[name], q);
      UpdatedOnlyTouches(before, api.rates, byName[name], q);
      if id.Some? && byName[name] in before { UpdatedIsResolved(before, api.rates, byName[name], q); }
    } else {
      id := ResolveGroupLocked(api, name, q);
      if id.Some? { ResolvedServes(before, api.rates, id.value, q, name); }
    }
  }

  // The prefetched vocabulary lacks the name or has the group as it is.
  ghost predicate CopyIsCurrent(byName: map<string, Group>, rates: seq<Group>, name: string) {
    name in byName ==> byName[name] in rates
  }

  lemma MergedListed(
    before: seq<Group>, after: seq<Group>, known: map<string, string>, resolved: map<string, string>)
    requires Listed(known, before) && Grows(before, after) && Listed(resolved, after)
    ensures Listed(known + resolved, after)
  {
    forall n | n in known + resolved ensures Has(after, (known + resolved)[n], n) {
      if n !in resolved { assert Has(before, known[n], n); }
    }
  }

  lemma FoundByPosition(gs: seq<Group>, known: map<string, string>, names: seq<string>, found: seq<string>)
    requires Unique(gs) && Listed(known, gs) && |found| == |names|
    requires forall k :: 0 <= k < |names| ==> names[k] in known && found[k] == known[names[k]]
    ensures forall k :: 0 <= k < |names| ==> Has(gs, found[k], names[k]) && found[k] != ""
  {
    forall k | 0 <= k < |names| ensures Has(gs, found[k], names[k]) && found[k] != "" {
      assert Has(gs, known[names[k]], names[k]);
    }
  }

  // The groups half of BeforeSend: only what the prefetched vocabulary lacks
  // goes through the lock.
  method ResolveNames(api: GroupApi, idByName: map<string, string>, names: seq<string>)
    returns (ids: Option<seq<string>>)
    requires !api.locked && Unique(api.members) && Listed(idByName, api.members)
    modifies api`members, api`calls, api`locked
    ensures !api.locked && Unique(api.members) && CreatedOnly(old(api.members), api.members, names)
    ensures api.calls >= old(api.calls)
    ensures ids.None? <==> AnyRefused(api.refused, old(api.calls), api.calls)
    ensures ids.Some? ==> |ids.value| == |names|
    ensures ids.Some? ==>
      forall k :: 0 <= k < |names| ==> Has(api.members, ids.value[k], names[k]) && ids.value[k] != ""
    ensures (forall n :: n in names ==> n in idByName) ==>
      ids.Some? && api.calls == old(api.calls) && api.members == old(api.members)
  {
    var misses: seq<string> := [];
    for i := 0 to |names|
      invariant forall n :: n in misses <==> n in names[..i] && n !in idByName
    {
      assert names[..i + 1] == names[..i] + [names[i]];
      if names[i] !in idByName { misses := misses + [names[i]]; }
    }
    assert names[..|names|] == names;
    var known := idByName;
    if |misses| > 0 {
      assert misses[0] in misses;
      var resolved, failed := ResolveMemberGroupsLocked(api, misses);
      if failed { return None; }
      MergedListed(old(api.members), api.members, idByName, resolved);
      known := known + resolved;
    }
    assert forall n :: n in names ==> n in known;
    var found: seq<string> := [];
    for i := 0 to |names|
      invariant |found| == i
      invariant forall k :: 0 <= k < i ==> found[k] == known[names[k]]
    {
      found := found + [known[names[i]]];
    }
    FoundByPosition(api.members, known, names, found);
    return Some(found);
  }

  // The client record's derived members.
  datatype Sent = Sent(userGroup: Option<string>, ids: Option<seq<string>>)

  // BeforeSend from prefetched vocabularies that may be stale. It fails exactly
  // when the controller refuses one of its calls. On success the i-th id belongs
  // to the group of the i-th name and the usergroup is the block's; whatever
  // happens only requested names are created and only the block's usergroup is
  // touched; names all known cost no call and never take the lock.
  method BeforeSend(
    api: GroupApi, byName: map<string, Group>, idByName: map<string, string>,
    qos: Option<Qos>, names: Option<seq<string>>)
    returns (r: Option<Sent>)
    requires !api.locked && Unique(api.members) && Unique(api.rates)
    requires Listed(idByName, api.members)
    requires forall n :: n in byName ==> byName[n].name == n && Has(api.rates, byName[n].id, n)
    modifies api
    ensures !api.locked && Unique(api.members) && Unique(api.rates)
    ensures r.None? <==> AnyRefused(api.refused, old(api.calls), api.calls)
    ensures CreatedOnly(old(api.members), api.members, names.Or([]))
    ensures if qos.Some? && qos.value.id == ""
      then OnlyTouches(old(api.rates), api.rates, RateName(qos.value)) else api.rates == old(api.rates)
    ensures r.Some? ==>
      (r.value.userGroup.Some? <==> qos.Some?) && (r.value.ids.Some? <==> names.Some?)
    ensures r.Some? && qos.Some? ==>
      if qos.value.id != "" then r.value.userGroup == Some(qos.value.id)
      else Has(api.rates, r.value.userGroup.value, RateName(qos.value))
    ensures r.Some? && qos.Some? && qos.value.id == "" && CopyIsCurrent(byName, old(api.rates), RateName(qos.value)) ==>
      ResolvedInto(old(api.rates), api.rates, r.value.userGroup.value, qos.value, RateName(qos.value))
    ensures r.Some? && names.Some? ==>
      |r.value.ids.value| == |names.value| &&
      forall k :: 0 <= k < |names.value| ==>
        Has(api.members, r.value.ids.value[k], names.value[k]) && r.value.ids.value[k] != ""
    ensures qos.None? && (forall n :: n in names.Or([]) ==> n in idByName) ==>
      r.Some? && api.calls == old(api.calls) && api.members == old(api.members)
  {
    var userGroup: Option<string> := None;
    if qos.Some? {
      userGroup := ResolveGroup(api, byName, qos.value);
      if userGroup.None? { return None; }
    }
    if names.None? { return Some(Sent(userGroup, None)); }
    var ids := ResolveNames(api, idByName, names.value);
    if ids.None? { return None; }
    return Some(Sent(userGroup, ids));
  }

  // ---------------------------------------------------------------------
  // Reading back
  // ---------------------------------------------------------------------

  function NameById(gs: seq<Group>): map<string, string> {
    if gs == [] then map[]
    else NameById(gs[..|gs| - 1])[gs[|gs| - 1].id := gs[|gs| - 1].name]
  }

  // The groups attribute read from a client record: null for an empty list; a
  // group the vocabulary lacks shows as its id.
  function NamesRead(ids: seq<string>, nameById: map<string, string>): Attr<seq<string>> {
    if ids == [] then Null
    else Known(seq(|ids|, k requires 0 <= k < |ids| => if ids[k] in nameById then nameById[ids[k]] else ids[k]))
  }

  function ById(gs: seq<Group>): map<string, Group> {
    if gs == [] then map[]
    else ById(gs[..|gs| - 1])[gs[|gs| - 1].id := gs[|gs| - 1]]
  }

  // The qos_rate attribute: null when the vocabulary lacks the usergroup.
  function QosRead(userGroup: string, byId: map<string, Group>): Attr<Qos> {
    if userGroup !in byId then Null
    else
      var g := byId[userGroup];
      Known(Qos(g.id, g.name, if g.limits.up.Some? then Known(g.limits.up.value) else Null,
                if g.limits.down.Some? then Known(g.limits.down.value) else Null))
  }

  method AfterReceive(userGroup: string, ids: seq<string>, byId: map<string, Group>, nameById: map<string, string>)
    returns (qos: Attr<Qos>, groups: Attr<seq<string>>)
    ensures qos == QosRead(userGroup, byId)
    ensures groups == NamesRead(ids, nameById)
  {
    qos := QosRead(userGroup, byId);
    if |ids| == 0 { return qos, Null; }
    var names: seq<string> := [];
    for i := 0 to |ids|
      invariant |names| == i
      invariant forall k :: 0 <= k < i ==> names[k] == if ids[k] in nameById then nameById[ids[k]] else ids[k]
    {
      if ids[i] in nameById {
        names := names + [nameById[ids[i]]];
        continue;
      }
      names := names + [ids[i]];
    }
    assert ids != [] && names == NamesRead(ids, nameById).value;
    return qos, Known(names);
  }

  lemma {:induction false} ByIdIff(gs: seq<Group>, g: Group)
    requires Unique(gs)
    ensures g in gs <==> g.id in ById(gs) && ById(gs)[g.id] == g
  {
    if gs != [] {
      var n := |gs| - 1;
      assert forall h :: h in gs <==> h in gs[..n] || h == gs[n];
      ByIdIff(gs[..n], g);
    }
  }

  // A usergroup resolved for a block reads back, from a listing made after, with
  // its name, each limit the block sets, and no limit added when it was created.
  lemma QosReadBack(before: seq<Group>, site: seq<Group>, id: string, q: Qos)
    requires Unique(site) && ResolvedInto(before, site, id, q, RateName(q))
    ensures var r := QosRead(id, ById(site));
      r.Known? && r.value.id == id && r.value.name == RateName(q) &&
      (q.up.Known? ==> r.value.up == q.up) && (q.down.Known? ==> r.value.down == q.down) &&
      ((forall g :: g in before ==> g.name != RateName(q)) ==>
        (!q.up.Known? ==> r.value.up.Null?) && (!q.down.Known? ==> r.value.down.Null?))
  {
    ResolvedServes(before, site, id, q, RateName(q));
    var g :| g in site && g.id == id && g.name == RateName(q) && Carries(g.limits, q);
    ByIdIff(site, g);
    if forall h :: h in before ==> h.name != RateName(q) {
      ByIdIff(site, site[|before|]);
    }
  }

  lemma {:induction false} NameByIdIff(gs: seq<Group>, id: string)
    requires Unique(gs)
    ensures id in NameById(gs) <==> exists g :: g in gs && g.id == id
    ensures id in NameById(gs) ==> Has(gs, id, NameById(gs)[id])
  {
    if gs != [] {
      var n := |gs| - 1;
      assert forall g :: g in gs <==> g in gs[..n] || g == gs[n];
      NameByIdIff(gs[..n], id);
    }
  }

  // Ids resolved for names read back as those names exactly when each group was
  // in the vocabulary the read uses, or happens to be named by its id. The
  // vocabulary may be an earlier listing of the site.
  lemma ReadBackIff(names: seq<string>, ids: seq<string>, listed: seq<Group>, site: seq<Group>)
    requires |ids| == |names| && forall k :: 0 <= k < |names| ==> Has(site, ids[k], names[k])
    requires Unique(site) && Unique(listed) && Grows(listed, site)
    ensures NamesRead(ids, NameById(listed)) == Known(names) <==>
      names != [] &&
      forall k :: 0 <= k < |names| ==> (exists g :: g in listed && g.name == names[k]) || ids[k] == names[k]
  {
    var vocabulary := NameById(listed);
    forall k | 0 <= k < |names|
      ensures (if ids[k] in vocabulary then vocabulary[ids[k]] else ids[k]) == names[k] <==>
        (exists g :: g in listed && g.name == names[k]) || ids[k] == names[k]
    {
      ReadBackOne(names[k], ids[k], listed, site);
    }
    if ids != [] {
      var read := NamesRead(ids, vocabulary).value;
      assert forall k :: 0 <= k < |names| ==> read[k] == if ids[k] in vocabulary then vocabulary[ids[k]] else ids[k];
      assert (forall k :: 0 <= k < |names| ==> read[k] == names[k]) ==> read == names;
    }
  }

  lemma ReadBackOne(name: string, id: string, listed: seq<Group>, site: seq<Group>)
    requires Has(site, id, name) && Unique(site) && Unique(listed) && Grows(listed, site)
    ensures (if id in NameById(listed) then NameById(listed)[id] else id) == name <==>
      (exists g :: g in listed && g.name == name) || id == name
    ensures id in NameById(listed) <==> exists g :: g in listed && g.name == name
  {
    NameByIdIff(listed, id);
    if id in NameById(listed) {
      HasIsOneGroup(site, id, NameById(listed)[id], id, name);
    }
    if g :| g in listed && g.name == name {
      assert Has(listed, g.id, g.name);
      HasIsOneGroup(site, g.id, name, id, name);
    }
  }

  // With a fresh vocabulary a non-empty request always reads back as written.
  lemma FreshReadBack(names: seq<string>, ids: seq<string>, site: seq<Group>)
    requires |ids| == |names| && names != [] && Unique(site)
    requires forall k :: 0 <= k < |names| ==> Has(site, ids[k], names[k])
    ensures NamesRead(ids, NameById(site)) == Known(names)
  {
    ReadBackIff(names, ids, site, site);
  }
}
