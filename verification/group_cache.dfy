// The name-to-id cache of the client list data source: one map per site,
// replaced whole by a listing whenever a name misses.

module GroupCache {
  import opened Terraform
  import opened GroupProtocol

  datatype Answer = Found(id: string) | NotFound | ListFailed

  type Cache = map<string, map<string, string>>

  // The answer an uncached scan of the listing gives.
  function Scan(groups: seq<Group>, name: string): Answer {
    var ids := IdByName(groups);
    if name in ids then Found(ids[name]) else NotFound
  }

  predicate Hit(cache: Cache, site: string, name: string) {
    site in cache && name in cache[site]
  }

  // One lookup; listing is what the controller would answer now, if it answers.
  function CacheAfter(cache: Cache, site: string, name: string, listing: Option<seq<Group>>): Cache {
    if Hit(cache, site, name) || listing.None? then cache else cache[site := IdByName(listing.value)]
  }

  function AnswerOf(cache: Cache, site: string, name: string, listing: Option<seq<Group>>): Answer {
    if Hit(cache, site, name) then Found(cache[site][name])
    else if listing.None? then ListFailed
    else Scan(listing.value, name)
  }

  class ClientListDataSource {
    var groupCache: Cache
    var locked: bool

    constructor ()
      ensures groupCache == map[] && !locked
    {
      groupCache, locked := map[], false;
    }

    method ResolveGroupID(site: string, groupName: string, listing: Option<seq<Group>>) returns (answer: Answer)
      requires !locked
      modifies this
      ensures !locked
      ensures groupCache == CacheAfter(old(groupCache), site, groupName, listing)
      ensures answer == AnswerOf(old(groupCache), site, groupName, listing)
    {
      locked := true;
      if site in groupCache {
        if groupName in groupCache[site] {
          answer := Found(groupCache[site][groupName]);
          locked := false;
          return;
        }
      }
      if listing.None? {
        locked := false;
        return ListFailed;
      }
      var groups := listing.value;
      var siteCache: map<string, string> := map[];
      for i := 0 to |groups|
        invariant siteCache == IdByName(groups[..i])
      {
        assert groups[..i + 1][..i] == groups[..i];
        siteCache := siteCache[groups[i].name := groups[i].id];
      }
      assert groups[..|groups|] == groups;
      groupCache := groupCache[site := siteCache];
      answer := if groupName in siteCache then Found(siteCache[groupName]) else NotFound;
      locked := false;
    }
  }

  // ---------------------------------------------------------------------
  // Runs of lookups mixed with groups being created
  // ---------------------------------------------------------------------

  datatype Event =
    | Create(site: string, group: Group)
    | Resolve(site: string, name: string, listed: bool)

  type World = map<string, seq<Group>>

  function GroupsAt(w: World, site: string): seq<Group> {
    if site in w then w[site] else []
  }

  function Created(w: World, site: string, g: Group): World {
    w[site := GroupsAt(w, site) + [g]]
  }

  // The cached answers of a run, one per lookup.
  function Replay(cache: Cache, w: World, events: seq<Event>): (answers: seq<Option<Answer>>)
    ensures |answers| == |events|
    decreases |events|
  {
    if events == [] then []
    else match events[0]
      case Create(site, g) => [None] + Replay(cache, Created(w, site, g), events[1..])
      case Resolve(site, name, listed) =>
        var listing := if listed then Some(GroupsAt(w, site)) else None;
        [Some(AnswerOf(cache, site, name, listing))]
        + Replay(CacheAfter(cache, site, name, listing), w, events[1..])
  }

  // What scanning the site at each moment gives.
  function Truth(w: World, events: seq<Event>): (answers: seq<Option<Answer>>)
    ensures |answers| == |events|
    decreases |events|
  {
    if events == [] then []
    else match events[0]
      case Create(site, g) => [None] + Truth(Created(w, site, g), events[1..])
      case Resolve(site, name, _) => [Some(Scan(GroupsAt(w, site), name))] + Truth(w, events[1..])
  }

  // No group is created under a name its site already has.
  ghost predicate NamesStayUnique(w: World, events: seq<Event>)
    decreases |events|
  {
    events != [] ==>
      match events[0]
      case Create(site, g) =>
        Scan(GroupsAt(w, site), g.name) == NotFound && NamesStayUnique(Created(w, site, g), events[1..])
      case Resolve(_, _, _) => NamesStayUnique(w, events[1..])
  }

  // Every cached name answers what a scan answers now.
  ghost predicate Sound(cache: Cache, w: World) {
    forall site, name :: Hit(cache, site, name) ==> Scan(GroupsAt(w, site), name) == Found(cache[site][name])
  }

  lemma ScanAppend(gs: seq<Group>, g: Group, name: string)
    ensures Scan(gs + [g], name) == if name == g.name then Found(g.id) else Scan(gs, name)
  {
    assert (gs + [g])[..|gs|] == gs;
  }

  // Creating a group keeps the cache right exactly when its name was not
  // cached for that site, or was cached with the same id.
  lemma CreateKeepsSoundIff(cache: Cache, w: World, site: string, g: Group)
    requires Sound(cache, w)
    ensures Sound(cache, Created(w, site, g)) <==> (Hit(cache, site, g.name) ==> cache[site][g.name] == g.id)
  {
    forall at, name ensures Scan(GroupsAt(Created(w, site, g), at), name) ==
      if at == site && name == g.name then Found(g.id) else Scan(GroupsAt(w, at), name)
    {
      ScanAppend(GroupsAt(w, site), g, name);
    }
    if Sound(cache, Created(w, site, g)) && Hit(cache, site, g.name) {
      assert Scan(GroupsAt(Created(w, site, g), site), g.name) == Found(cache[site][g.name]);
    }
  }

  lemma ResolveKeepsSound(cache: Cache, w: World, site: string, name: string, listed: bool)
    requires Sound(cache, w)
    ensures Sound(CacheAfter(cache, site, name, if listed then Some(GroupsAt(w, site)) else None), w)
  {
  }

  // A sound cache answers what a scan answers, or fails with its listing.
  lemma SoundAnswer(cache: Cache, w: World, site: string, name: string, listed: bool)
    requires Sound(cache, w)
    ensures var listing := if listed then Some(GroupsAt(w, site)) else None;
      AnswerOf(cache, site, name, listing) == Scan(GroupsAt(w, site), name) ||
      (!listed && AnswerOf(cache, site, name, listing) == ListFailed)
  {
  }

  // Over any run in which names stay unique, every cached answer is the answer
  // of a scan at that moment, not-found included; a lookup fails only when it
  // misses while its listing fails.
  lemma {:induction false} CacheAgrees(cache: Cache, w: World, events: seq<Event>, t: nat)
    requires Sound(cache, w) && NamesStayUnique(w, events) && t < |events|
    ensures Replay(cache, w, events)[t] == Truth(w, events)[t] ||
      (events[t].Resolve? && !events[t].listed && Replay(cache, w, events)[t] == Some(ListFailed))
    decreases t
  {
    var rest := events[1..];
    match events[0]
    case Create(site, g) => CacheAgreesAfterCreate(cache, w, events, t, site, g);
    case Resolve(site, name, listed) =>
      SoundAnswer(cache, w, site, name, listed);
      if t > 0 {
        var cache' := CacheAfter(cache, site, name, if listed then Some(GroupsAt(w, site)) else None);
        ResolveKeepsSound(cache, w, site, name, listed);
        CacheAgrees(cache', w, rest, t - 1);
      }
  }

  lemma {:induction false} CacheAgreesAfterCreate(
    cache: Cache, w: World, events: seq<Event>, t: nat, site: string, g: Group)
    requires Sound(cache, w) && NamesStayUnique(w, events) && t < |events| && events[0] == Create(site, g)
    ensures Replay(cache, w, events)[t] == Truth(w, events)[t] ||
      (events[t].Resolve? && !events[t].listed && Replay(cache, w, events)[t] == Some(ListFailed))
    decreases t, 0
  {
    if t > 0 {
      CreateKeepsSoundIff(cache, w, site, g);
      CacheAgrees(cache, Created(w, site, g), events[1..], t - 1);
    }
  }

  // A cached name stays cached, with its id, through any lookup.
  lemma HitStays(
    cache: Cache, w: World, site: string, name: string, at: string, wanted: string, listing: Option<seq<Group>>)
    requires Sound(cache, w) && Hit(cache, site, name) && (listing.Some? ==> listing.value == GroupsAt(w, at))
    ensures Hit(CacheAfter(cache, at, wanted, listing), site, name)
    ensures CacheAfter(cache, at, wanted, listing)[site][name] == cache[site][name]
  {
    assert Scan(GroupsAt(w, site), name) == Found(cache[site][name]);
  }

  // Once a lookup has found a name, and once a lookup has listed a site for
  // every name then on it, a lookup of that name at the site is answered with
  // the same id, whether or not a listing would be.
  lemma {:induction false} LaterLookups(
    cache: Cache, w: World, events: seq<Event>, u: nat, t: nat, site: string, name: string, id: string)
    requires Sound(cache, w) && NamesStayUnique(w, events) && u < t < |events|
    requires events[u].Resolve? && events[u].site == site
    requires events[t].Resolve? && events[t].site == site && events[t].name == name
    requires Learned(cache, w, events, u, name, id)
    ensures Replay(cache, w, events)[t] == Some(Found(id))
    decreases u
  {
    var rest := events[1..];
    match events[0]
    case Create(at, g) =>
      CreateKeepsSoundIff(cache, w, at, g);
      LaterLookups(cache, Created(w, at, g), rest, u - 1, t - 1, site, name, id);
    case Resolve(at, wanted, listed) =>
      ResolveKeepsSound(cache, w, at, wanted, listed);
      var cache' := CacheAfter(cache, at, wanted, if listed then Some(GroupsAt(w, at)) else None);
      if u > 0 {
        LaterLookups(cache', w, rest, u - 1, t - 1, site, name, id);
      } else {
        HitAnswers(cache', w, rest, t - 1, site, name);
      }
  }

  // What lookup u taught: the name it found, or any name of the site it listed.
  ghost predicate Learned(cache: Cache, w: World, events: seq<Event>, u: nat, name: string, id: string)
    requires u < |events| && events[u].Resolve?
    decreases u
  {
    if u == 0 then
      var Resolve(site, wanted, listed) := events[0];
      if Hit(cache, site, wanted) then name == wanted && cache[site][wanted] == id
      else listed && Scan(GroupsAt(w, site), name) == Found(id)
    else match events[0]
      case Create(site, g) => Learned(cache, Created(w, site, g), events[1..], u - 1, name, id)
      case Resolve(site, wanted, listed) =>
        Learned(CacheAfter(cache, site, wanted, if listed then Some(GroupsAt(w, site)) else None), w, events[1..],
                u - 1, name, id)
  }

  lemma {:induction false} AnsweredIsLearned(cache: Cache, w: World, events: seq<Event>, u: nat, id: string)
    requires u < |events| && events[u].Resolve? && Replay(cache, w, events)[u] == Some(Found(id))
    ensures Learned(cache, w, events, u, events[u].name, id)
    decreases u
  {
    if u > 0 {
      match events[0]
      case Create(at, g) => AnsweredIsLearned(cache, Created(w, at, g), events[1..], u - 1, id);
      case Resolve(at, wanted, listed) =>
        var listing := if listed then Some(GroupsAt(w, at)) else None;
        AnsweredIsLearned(CacheAfter(cache, at, wanted, listing), w, events[1..], u - 1, id);
    }
  }

  // From an empty cache: a name answered once is answered the same ever after,
  // even where its listing would fail.
  lemma FoundStaysFound(w: World, events: seq<Event>, u: nat, t: nat, id: string)
    requires NamesStayUnique(w, events) && u < t < |events| && events[u].Resolve? && events[t].Resolve?
    requires events[t].site == events[u].site && events[t].name == events[u].name
    requires Replay(map[], w, events)[u] == Some(Found(id))
    ensures Replay(map[], w, events)[t] == Some(Found(id))
  {
    AnsweredIsLearned(map[], w, events, u, id);
    LaterLookups(map[], w, events, u, t, events[u].site, events[u].name, id);
  }

  lemma {:induction false} HitAnswers(cache: Cache, w: World, events: seq<Event>, t: nat, site: string, name: string)
    requires Sound(cache, w) && NamesStayUnique(w, events) && t < |events| && Hit(cache, site, name)
    requires events[t].Resolve? && events[t].site == site && events[t].name == name
    ensures Replay(cache, w, events)[t] == Some(Found(cache[site][name]))
    decreases t
  {
    if t > 0 {
      match events[0]
      case Create(at, g) =>
        CreateKeepsSoundIff(cache, w, at, g);
        HitAnswers(cache, Created(w, at, g), events[1..], t - 1, site, name);
      case Resolve(at, wanted, listed) =>
        ResolveKeepsSound(cache, w, at, wanted, listed);
        var listing := if listed then Some(GroupsAt(w, at)) else None;
        HitStays(cache, w, site, name, at, wanted, listing);
        var cache' := CacheAfter(cache, at, wanted, listing);
        HitAnswers(cache', w, events[1..], t - 1, site, name);
    }
  }

  // With every listing answered, the cached run and the scanning run are the
  // same run, from an empty cache and any site.
  lemma CachedRunIsTruth(w: World, events: seq<Event>)
    requires NamesStayUnique(w, events)
    requires forall t :: 0 <= t < |events| && events[t].Resolve? ==> events[t].listed
    ensures Replay(map[], w, events) == Truth(w, events)
  {
    forall t | 0 <= t < |events| ensures Replay(map[], w, events)[t] == Truth(w, events)[t] {
      CacheAgrees(map[], w, events, t);
    }
  }
}
