/**
 src/gateway/mod.rs:27-55, src/gateway/http.rs:609-695, src/gateway/mcp.rs:506-618:
 searches through either gateway, interleaved at every await, against the one
 cache they share with each other and with the extract pipeline.
 */
module SearchGateway {
  import opened Wrappers
  import opened CacheKeys
  import opened DuckDuckGo
  import opened SafeSearch

  type TaskId = nat

  // ---- one search ----

  /** `hash` is the standard library's hasher over query, page, level and language. */
  datatype Config = Config(lib: Library, hash: SearchRequest -> Hash64, maxPerPage: nat)

  function CacheKey(c: Config, r: SearchRequest): string {
    SearchKey(c.hash(r))
  }

  datatype Outcome =
    | Found(results: seq<SearchResult>)
    | ParseEmpty | Blocked | Challenged | Upstream | Transport | ParsePanicked

  /** An empty parse is a page with nothing on it; every other failure is an error reply. */
  function ResultsOf(o: Outcome): Option<seq<SearchResult>> {
    if o.Found? then Some(o.results) else if o.ParseEmpty? then Some([]) else None
  }

  /** A slot holds bytes that decode as a search response, or bytes that do not. */
  datatype Entry = Search(response: SearchResponse) | Undecodable

  /** `readable`: the cache answered; an unreachable one is a miss and keeps its entries. */
  function Lookup(entries: map<string, Entry>, key: string, readable: bool): Option<SearchResponse> {
    if readable && key in entries && entries[key].Search? then Some(entries[key].response.(cached := true)) else None
  }

  function PageFor(c: Config, r: SearchRequest, results: seq<SearchResult>): SearchResponse {
    Page(c.lib, results, r.safeSearch, r.page, c.maxPerPage)
  }

  /** The cache and the two halves of a search either side of the engine call. */
  class SearchCache {
    var entries: map<string, Entry>

    constructor ()
      ensures entries == map[]
    {
      entries := map[];
    }

    method LookUp(c: Config, r: SearchRequest, readable: bool) returns (hit: Option<SearchResponse>)
      ensures hit == Lookup(entries, CacheKey(c, r), readable)
    {
      var key := CacheKey(c, r);
      if readable && key in entries {
        var cached := entries[key];
        if cached.Search? {
          return Some(cached.response.(cached := true));
        }
      }
      return None;
    }

    /** `reachable`: the write went through. */
    method Complete(c: Config, r: SearchRequest, outcome: Outcome, reachable: bool)
      returns (reply: Option<SearchResponse>)
      modifies this
      ensures reply.Some? <==> ResultsOf(outcome).Some?
      ensures reply.Some? ==> reply.value == PageFor(c, r, ResultsOf(outcome).value)
      ensures outcome.Found? ==> reply == Some(PageFor(c, r, outcome.results))
      ensures outcome.ParseEmpty? ==> reply == Some(PageFor(c, r, []))
      ensures !outcome.Found? && !outcome.ParseEmpty? ==> reply == None && entries == old(entries)
      ensures entries == if reply.Some? && reachable then old(entries)[CacheKey(c, r) := Search(reply.value)]
                         else old(entries)
    {
      var results := [];
      match outcome {
        case Found(rs) => results := rs;
        case ParseEmpty =>
        case _ => return None;
      }
      var response := FinalizeResults(c.lib, results, r.safeSearch, r.page, c.maxPerPage);
      if reachable {
        entries := entries[CacheKey(c, r) := Search(response)];
      }
      return Some(response);
    }
  }

  // ---- any number of searches ----

  datatype Gateway = Http | Mcp

  datatype Phase =
    | Idle
    | Searching(via: Gateway, request: SearchRequest)
    | Finalized(via: Gateway, request: SearchRequest, response: SearchResponse)
    | Replying(via: Gateway, request: SearchRequest, response: SearchResponse)

  /** The engine answered `request` with `results`. */
  datatype Fetch = Fetch(request: SearchRequest, results: seq<SearchResult>)

  datatype Served = Served(via: Gateway, request: SearchRequest, response: SearchResponse)

  datatype System = System(
    entries: map<string, Entry>, phases: map<TaskId, Phase>, fetched: seq<Fetch>, served: seq<Served>)

  datatype Action =
    | Ask(task: TaskId, via: Gateway, request: SearchRequest, readable: bool)
    | EngineAnswers(task: TaskId, outcome: Outcome)
    | Put(task: TaskId, reachable: bool)
    | Respond(task: TaskId)
    | Drop(task: TaskId)
    | Evict(slot: string)
    | Corrupt(slot: string)
    | ExtractPut(hash: Hash64, entry: Entry)

  const INITIAL: System := System(map[], map[], [], [])

  function PhaseOf(s: System, t: TaskId): Phase {
    if t in s.phases then s.phases[t] else Idle
  }

  ghost predicate Enabled(s: System, a: Action) {
    match a
    case Ask(t, _, _, _) => PhaseOf(s, t).Idle?
    case EngineAnswers(t, _) => PhaseOf(s, t).Searching?
    case Put(t, _) => PhaseOf(s, t).Finalized?
    case Respond(t) => PhaseOf(s, t).Replying?
    case Drop(t) => !PhaseOf(s, t).Idle?
    case Evict(k) => k in s.entries
    case Corrupt(k) => k in s.entries
    case ExtractPut(_, _) => true
  }

  function Move(s: System, t: TaskId, p: Phase): System {
    s.(phases := s.phases[t := p])
  }

  function Serve(s: System, via: Gateway, r: SearchRequest, response: SearchResponse): System {
    s.(served := s.served + [Served(via, r, response)])
  }

  function Apply(c: Config, s: System, a: Action): System {
    match a
    case Ask(t, via, r, readable) =>
      var hit := Lookup(s.entries, CacheKey(c, r), readable);
      if hit.Some? then Serve(s, via, r, hit.value) else Move(s, t, Searching(via, r))
    case EngineAnswers(t, outcome) =>
      var p, results := PhaseOf(s, t), ResultsOf(outcome);
      if !p.Searching? then s
      else if results.None? then Move(s, t, Idle)
      else
        var s' := s.(fetched := s.fetched + [Fetch(p.request, results.value)]);
        Move(s', t, Finalized(p.via, p.request, PageFor(c, p.request, results.value)))
    case Put(t, reachable) =>
      var p := PhaseOf(s, t);
      if !p.Finalized? then s
      else
        var s' := if reachable then s.(entries := s.entries[CacheKey(c, p.request) := Search(p.response)]) else s;
        Move(s', t, Replying(p.via, p.request, p.response))
    case Respond(t) =>
      var p := PhaseOf(s, t);
      if p.Replying? then Move(Serve(s, p.via, p.request, p.response), t, Idle) else s
    case Drop(t) => Move(s, t, Idle)
    case Evict(k) => s.(entries := s.entries - {k})
    case Corrupt(k) => s.(entries := s.entries[k := Undecodable])
    case ExtractPut(h, entry) => s.(entries := s.entries[ExtractKey(h) := entry])
  }

  function After(c: Config, actions: seq<Action>): System {
    if actions == [] then INITIAL
    else Apply(c, After(c, actions[..|actions| - 1]), actions[|actions| - 1])
  }

  ghost predicate IsRun(c: Config, actions: seq<Action>) {
    actions != [] ==>
      var n := |actions| - 1;
      IsRun(c, actions[..n]) && Enabled(After(c, actions[..n]), actions[n])
  }

  // ---- the invariant ----

  /** `response` is the finished page of an engine answer to `r` itself. */
  ghost predicate IsPageOf(c: Config, fetched: seq<Fetch>, r: SearchRequest, response: SearchResponse) {
    exists k :: 0 <= k < |fetched| && fetched[k].request == r && response == PageFor(c, r, fetched[k].results)
  }

  /** The same of some request with this cache key. */
  ghost predicate IsPageUnder(c: Config, fetched: seq<Fetch>, key: string, response: SearchResponse) {
    exists k :: 0 <= k < |fetched| && CacheKey(c, fetched[k].request) == key
                && response == PageFor(c, fetched[k].request, fetched[k].results)
  }

  ghost predicate EntriesOk(c: Config, entries: map<string, Entry>, fetched: seq<Fetch>) {
    forall h: Hash64 :: SearchKey(h) in entries && entries[SearchKey(h)].Search? ==>
      IsPageUnder(c, fetched, SearchKey(h), entries[SearchKey(h)].response)
  }

  predicate HasResponse(p: Phase) {
    p.Finalized? || p.Replying?
  }

  ghost predicate PhasesOk(c: Config, phases: map<TaskId, Phase>, fetched: seq<Fetch>) {
    forall t :: t in phases && HasResponse(phases[t]) ==> IsPageOf(c, fetched, phases[t].request, phases[t].response)
  }

  ghost predicate IsHonest(c: Config, fetched: seq<Fetch>, x: Served) {
    if x.response.cached then IsPageUnder(c, fetched, CacheKey(c, x.request), x.response.(cached := false))
    else IsPageOf(c, fetched, x.request, x.response)
  }

  ghost predicate ServedOk(c: Config, served: seq<Served>, fetched: seq<Fetch>) {
    forall i :: 0 <= i < |served| ==> IsHonest(c, fetched, served[i])
  }

  ghost predicate Inv(c: Config, s: System) {
    EntriesOk(c, s.entries, s.fetched) && PhasesOk(c, s.phases, s.fetched) && ServedOk(c, s.served, s.fetched)
  }

  lemma PagesAreFresh(c: Config, fetched: seq<Fetch>, r: SearchRequest, response: SearchResponse)
    requires IsPageOf(c, fetched, r, response)
    ensures !response.cached && IsPageUnder(c, fetched, CacheKey(c, r), response)
  {
    hide SearchKey, Kept;
  }

  lemma PagesUnderAreFresh(c: Config, fetched: seq<Fetch>, key: string, response: SearchResponse)
    requires IsPageUnder(c, fetched, key, response)
    ensures !response.cached
  {
    hide SearchKey, Kept;
  }

  lemma OneMorePage(c: Config, fetched: seq<Fetch>, f: Fetch, r: SearchRequest, response: SearchResponse)
    ensures IsPageOf(c, fetched, r, response) ==> IsPageOf(c, fetched + [f], r, response)
    ensures IsPageOf(c, fetched + [f], f.request, PageFor(c, f.request, f.results))
  {
    hide PageFor;
    assert (fetched + [f])[|fetched|] == f;
    if IsPageOf(c, fetched, r, response) {
      var k :| 0 <= k < |fetched| && fetched[k].request == r && response == PageFor(c, r, fetched[k].results);
      assert (fetched + [f])[k] == fetched[k];
    }
  }

  lemma OneMoreUnder(c: Config, fetched: seq<Fetch>, f: Fetch, key: string, response: SearchResponse)
    requires IsPageUnder(c, fetched, key, response)
    ensures IsPageUnder(c, fetched + [f], key, response)
  {
    hide PageFor, CacheKey;
    var k :| 0 <= k < |fetched| && CacheKey(c, fetched[k].request) == key
             && response == PageFor(c, fetched[k].request, fetched[k].results);
    assert (fetched + [f])[k] == fetched[k];
  }

  lemma OneMoreFetch(c: Config, s: System, f: Fetch)
    requires Inv(c, s)
    ensures Inv(c, s.(fetched := s.fetched + [f]))
  {
    var fetched := s.fetched + [f];
    hide IsPageOf, IsPageUnder, SearchKey, CacheKey;
    forall h: Hash64 | SearchKey(h) in s.entries && s.entries[SearchKey(h)].Search?
      ensures IsPageUnder(c, fetched, SearchKey(h), s.entries[SearchKey(h)].response)
    {
      OneMoreUnder(c, s.fetched, f, SearchKey(h), s.entries[SearchKey(h)].response);
    }
    forall t | t in s.phases && HasResponse(s.phases[t])
      ensures IsPageOf(c, fetched, s.phases[t].request, s.phases[t].response)
    {
      OneMorePage(c, s.fetched, f, s.phases[t].request, s.phases[t].response);
    }
    forall i | 0 <= i < |s.served|
      ensures IsHonest(c, fetched, s.served[i])
    {
      OneMoreHonest(c, s.fetched, f, s.served[i]);
    }
  }

  lemma OneMoreHonest(c: Config, fetched: seq<Fetch>, f: Fetch, x: Served)
    requires IsHonest(c, fetched, x)
    ensures IsHonest(c, fetched + [f], x)
  {
    hide IsPageOf, IsPageUnder, CacheKey;
    if x.response.cached {
      OneMoreUnder(c, fetched, f, CacheKey(c, x.request), x.response.(cached := false));
    } else {
      OneMorePage(c, fetched, f, x.request, x.response);
    }
  }

  lemma MoveKeeps(c: Config, s: System, t: TaskId, p: Phase)
    requires Inv(c, s) && (HasResponse(p) ==> IsPageOf(c, s.fetched, p.request, p.response))
    ensures Inv(c, Move(s, t, p))
  {
    hide IsPageOf, EntriesOk, ServedOk;
  }

  lemma ServeKeeps(c: Config, s: System, x: Served)
    requires Inv(c, s) && IsHonest(c, s.fetched, x)
    ensures Inv(c, Serve(s, x.via, x.request, x.response))
  {
    hide IsHonest, EntriesOk, PhasesOk;
  }

  lemma HitIsHonest(c: Config, s: System, via: Gateway, r: SearchRequest)
    requires Inv(c, s) && Lookup(s.entries, CacheKey(c, r), true).Some?
    ensures IsHonest(c, s.fetched, Served(via, r, Lookup(s.entries, CacheKey(c, r), true).value))
  {
    var h := c.hash(r);
    assert CacheKey(c, r) == SearchKey(h);
    hide SearchKey, IsPageUnder, PhasesOk, ServedOk;
    var stored := s.entries[SearchKey(h)].response;
    assert IsPageUnder(c, s.fetched, SearchKey(h), stored);
    PagesUnderAreFresh(c, s.fetched, SearchKey(h), stored);
    assert stored.(cached := true).(cached := false) == stored;
  }

  lemma PutKeeps(c: Config, s: System, r: SearchRequest, response: SearchResponse)
    requires Inv(c, s) && IsPageOf(c, s.fetched, r, response)
    ensures Inv(c, s.(entries := s.entries[CacheKey(c, r) := Search(response)]))
  {
    PagesAreFresh(c, s.fetched, r, response);
    hide SearchKey, CacheKey, IsPageUnder, PhasesOk, ServedOk, IsPageOf;
  }

  lemma SpoilKeeps(c: Config, s: System, key: string)
    requires Inv(c, s)
    ensures Inv(c, s.(entries := s.entries - {key}))
    ensures Inv(c, s.(entries := s.entries[key := Undecodable]))
  {
    hide SearchKey, IsPageUnder, PhasesOk, ServedOk;
  }

  lemma ExtractPutKeeps(c: Config, s: System, g: Hash64, entry: Entry)
    requires Inv(c, s)
    ensures Inv(c, s.(entries := s.entries[ExtractKey(g) := entry]))
  {
    hide SearchKey, ExtractKey, IsPageUnder, PhasesOk, ServedOk;
    forall h: Hash64
      ensures SearchKey(h) != ExtractKey(g)
    {
      KeySpacesAreDisjoint(h, g);
    }
  }

  lemma StepKeepsInv(c: Config, s: System, a: Action)
    requires Inv(c, s) && Enabled(s, a)
    ensures Inv(c, Apply(c, s, a))
  {
    match a {
      case Ask(t, via, r, readable) => AskKeeps(c, s, t, via, r, readable);
      case EngineAnswers(t, outcome) => AnswerKeeps(c, s, t, outcome);
      case Put(t, reachable) => StoreKeeps(c, s, t, reachable);
      case Respond(t) => RespondKeeps(c, s, t);
      case Drop(t) =>
        hide Inv;
        MoveKeeps(c, s, t, Idle);
      case Evict(k) =>
        hide Inv;
        SpoilKeeps(c, s, k);
      case Corrupt(k) =>
        hide Inv;
        SpoilKeeps(c, s, k);
      case ExtractPut(h, entry) =>
        hide Inv;
        ExtractPutKeeps(c, s, h, entry);
    }
  }

  lemma AskKeeps(c: Config, s: System, t: TaskId, via: Gateway, r: SearchRequest, readable: bool)
    requires Inv(c, s)
    ensures Inv(c, Apply(c, s, Ask(t, via, r, readable)))
  {
    var hit := Lookup(s.entries, CacheKey(c, r), readable);
    assert hit.Some? ==> hit == Lookup(s.entries, CacheKey(c, r), true);
    hide Inv, CacheKey, Lookup, IsHonest;
    if hit.Some? {
      HitIsHonest(c, s, via, r);
      ServeKeeps(c, s, Served(via, r, hit.value));
    } else {
      MoveKeeps(c, s, t, Searching(via, r));
    }
  }

  lemma AnswerKeeps(c: Config, s: System, t: TaskId, outcome: Outcome)
    requires Inv(c, s) && PhaseOf(s, t).Searching?
    ensures Inv(c, Apply(c, s, EngineAnswers(t, outcome)))
  {
    hide Inv, PageFor, IsPageOf;
    var p, results := PhaseOf(s, t), ResultsOf(outcome);
    if results.None? {
      MoveKeeps(c, s, t, Idle);
    } else {
      var f := Fetch(p.request, results.value);
      var response := PageFor(c, p.request, results.value);
      OneMoreFetch(c, s, f);
      OneMorePage(c, s.fetched, f, p.request, response);
      MoveKeeps(c, s.(fetched := s.fetched + [f]), t, Finalized(p.via, p.request, response));
    }
  }

  lemma StoreKeeps(c: Config, s: System, t: TaskId, reachable: bool)
    requires Inv(c, s) && PhaseOf(s, t).Finalized?
    ensures Inv(c, Apply(c, s, Put(t, reachable)))
  {
    var p := PhaseOf(s, t);
    assert IsPageOf(c, s.fetched, p.request, p.response);
    hide Inv, CacheKey, IsPageOf;
    var s' := s;
    if reachable {
      PutKeeps(c, s, p.request, p.response);
      s' := s.(entries := s.entries[CacheKey(c, p.request) := Search(p.response)]);
    }
    MoveKeeps(c, s', t, Replying(p.via, p.request, p.response));
  }

  lemma RespondKeeps(c: Config, s: System, t: TaskId)
    requires Inv(c, s) && PhaseOf(s, t).Replying?
    ensures Inv(c, Apply(c, s, Respond(t)))
  {
    var p := PhaseOf(s, t);
    assert IsPageOf(c, s.fetched, p.request, p.response);
    PagesAreFresh(c, s.fetched, p.request, p.response);
    assert IsHonest(c, s.fetched, Served(p.via, p.request, p.response));
    hide Inv, IsPageOf, IsHonest;
    ServeKeeps(c, s, Served(p.via, p.request, p.response));
    MoveKeeps(c, Serve(s, p.via, p.request, p.response), t, Idle);
  }

  /** Blocked, challenged, failed or panicked: nothing is recorded, cached or finished. */
  lemma EngineErrorsLeaveNothing(c: Config, s: System, t: TaskId, outcome: Outcome)
    requires PhaseOf(s, t).Searching? && !outcome.Found? && !outcome.ParseEmpty?
    ensures Apply(c, s, EngineAnswers(t, outcome)) == Move(s, t, Idle)
  {
  }

  /** No results is an answer: it is recorded as an empty one. */
  lemma EmptyParseIsAnAnswer(c: Config, s: System, t: TaskId)
    requires PhaseOf(s, t).Searching?
    ensures var r := PhaseOf(s, t).request; var s' := Apply(c, s, EngineAnswers(t, ParseEmpty));
            && s'.fetched == s.fetched + [Fetch(r, [])] && s'.entries == s.entries
            && PhaseOf(s', t).Finalized? && PhaseOf(s', t).response == SearchResponse([], 0, r.page, false)
  {
    assert Kept(c.lib, [], Blocklist(PhaseOf(s, t).request.safeSearch)) == [];
  }

  lemma {:induction false} RunsKeepInv(c: Config, actions: seq<Action>)
    requires IsRun(c, actions)
    ensures Inv(c, After(c, actions))
    decreases |actions|
  {
    if actions != [] {
      var n := |actions| - 1;
      RunsKeepInv(c, actions[..n]);
      hide Inv, Apply, Enabled;
      StepKeepsInv(c, After(c, actions[..n]), actions[n]);
    }
  }

  // ---- what holds of every response ----

  /** No two requests of the run that differ share a hash. */
  ghost predicate NoCollisions(c: Config, s: System) {
    forall i, k :: 0 <= i < |s.served| && 0 <= k < |s.fetched| ==>
      c.hash(s.served[i].request) == c.hash(s.fetched[k].request) ==>
      s.served[i].request == s.fetched[k].request
  }

  /** `x` is the finished page of an engine answer to its own request. */
  ghost predicate IsAnswered(c: Config, s: System, x: Served) {
    exists k :: 0 <= k < |s.fetched| && s.fetched[k].request == x.request
                && x.response.(cached := false) == PageFor(c, x.request, s.fetched[k].results)
  }

  /**
   Whoever asked, and whatever was evicted or spoiled meanwhile: a response is
   the finished page of an engine answer to that very request.
   */
  lemma ResponsesAnswerTheRequest(c: Config, actions: seq<Action>, i: nat) returns (k: nat)
    requires IsRun(c, actions) && NoCollisions(c, After(c, actions)) && i < |After(c, actions).served|
    ensures var s := After(c, actions); var x := s.served[i];
            && k < |s.fetched| && s.fetched[k].request == x.request
            && x.response.(cached := false) == PageFor(c, x.request, s.fetched[k].results)
  {
    RunsKeepInv(c, actions);
    var s := After(c, actions);
    hide After, IsRun, EntriesOk, PhasesOk;
    assert IsHonest(c, s.fetched, s.served[i]);
    k := HonestAnswer(c, s, i);
  }

  lemma HonestAnswer(c: Config, s: System, i: nat) returns (k: nat)
    requires NoCollisions(c, s) && i < |s.served| && IsHonest(c, s.fetched, s.served[i])
    ensures var x := s.served[i];
            && k < |s.fetched| && s.fetched[k].request == x.request
            && x.response.(cached := false) == PageFor(c, x.request, s.fetched[k].results)
  {
    var x := s.served[i];
    if x.response.cached {
      k :| 0 <= k < |s.fetched| && CacheKey(c, s.fetched[k].request) == CacheKey(c, x.request)
           && x.response.(cached := false) == PageFor(c, s.fetched[k].request, s.fetched[k].results);
      SearchKeysAreHashes(c.hash(s.fetched[k].request), c.hash(x.request));
    } else {
      PagesAreFresh(c, s.fetched, x.request, x.response);
      hide PageFor;
      k :| 0 <= k < |s.fetched| && s.fetched[k].request == x.request
           && x.response == PageFor(c, x.request, s.fetched[k].results);
    }
  }

  /**
   Cached or fresh, a response is the front of what the filter leaves of an engine
   answer to its request: filtered at the level asked for, in the engine's order,
   and as long as a page allows.
   */
  lemma ResponsesAreFiltered(c: Config, actions: seq<Action>, i: nat) returns (k: nat)
    requires IsRun(c, actions) && NoCollisions(c, After(c, actions)) && i < |After(c, actions).served|
    ensures var s := After(c, actions); var x := s.served[i]; var results := x.response.results;
            && k < |s.fetched| && s.fetched[k].request == x.request
            && var filtered := Kept(c.lib, s.fetched[k].results, Blocklist(x.request.safeSearch));
            && results <= filtered && x.response.total == |filtered|
            && |results| == (if |filtered| <= c.maxPerPage then |filtered| else c.maxPerPage)
            && Kept(c.lib, results, Blocklist(x.request.safeSearch)) == results
            && x.response.page == x.request.page
  {
    k := ResponsesAnswerTheRequest(c, actions, i);
    var s := After(c, actions);
    var r := s.served[i].request;
    hide After, IsRun, NoCollisions, Kept, Blocklist, Page;
    PageIsFiltered(c.lib, s.fetched[k].results, r.safeSearch, r.page, c.maxPerPage, r.safeSearch);
    PageIsFront(c.lib, s.fetched[k].results, r.safeSearch, r.page, c.maxPerPage);
  }

  // ---- and what a collision does ----

  lemma RunStep(c: Config, r: seq<Action>, n: nat)
    requires n < |r| && IsRun(c, r[..n]) && Enabled(After(c, r[..n]), r[n])
    ensures IsRun(c, r[..n + 1]) && After(c, r[..n + 1]) == Apply(c, After(c, r[..n]), r[n])
  {
    assert r[..n + 1][..n] == r[..n];
  }

  lemma NothingRun(c: Config, r: seq<Action>)
    ensures IsRun(c, r[..0]) && After(c, r[..0]) == INITIAL
  {
  }

  function CollidingRun(r: SearchRequest, r': SearchRequest, found: seq<SearchResult>): seq<Action> {
    [Ask(1, Http, r, true), EngineAnswers(1, Found(found)), Put(1, true), Ask(2, Mcp, r', true)]
  }

  /**
   Two different requests under one key: the second is answered with the first
   one's page, and the engine was never asked for it.
   */
  lemma CollisionsShareAnswers(c: Config, r: SearchRequest, r': SearchRequest, found: seq<SearchResult>)
    requires c.hash(r) == c.hash(r') && r != r'
    ensures var s := After(c, CollidingRun(r, r', found));
            && IsRun(c, CollidingRun(r, r', found))
            && s.served == [Served(Mcp, r', PageFor(c, r, found).(cached := true))]
            && (forall k :: 0 <= k < |s.fetched| ==> s.fetched[k].request != r')
            && !IsAnswered(c, s, s.served[0])
  {
    var a := CollidingRun(r, r', found);
    CollidingStart(c, r, r', found);
    assert CacheKey(c, r) == CacheKey(c, r');
    hide PageFor, After, IsRun, CacheKey;
    RunStep(c, a, 3);
    assert a[..4] == a;
  }

  lemma CollidingStart(c: Config, r: SearchRequest, r': SearchRequest, found: seq<SearchResult>)
    ensures var a := CollidingRun(r, r', found); var s := After(c, a[..3]); var key := CacheKey(c, r);
            && IsRun(c, a[..3]) && PhaseOf(s, 2).Idle? && s.served == [] && s.fetched == [Fetch(r, found)]
            && key in s.entries && s.entries[key] == Search(PageFor(c, r, found))
  {
    var a := CollidingRun(r, r', found);
    NothingRun(c, a);
    hide PageFor, CacheKey, After, IsRun;
    RunStep(c, a, 0);
    RunStep(c, a, 1);
    RunStep(c, a, 2);
  }

  // ---- exactly when every response is an answer ----

  /** Every request of the run is one of these. */
  ghost predicate AsksOnly(actions: seq<Action>, requests: iset<SearchRequest>) {
    forall i :: 0 <= i < |actions| && actions[i].Ask? ==> actions[i].request in requests
  }

  ghost predicate InjectiveOn(c: Config, requests: iset<SearchRequest>) {
    forall r, r' :: r in requests && r' in requests && c.hash(r) == c.hash(r') ==> r == r'
  }

  ghost predicate AllAnswered(c: Config, s: System) {
    forall i :: 0 <= i < |s.served| ==> IsAnswered(c, s, s.served[i])
  }

  ghost predicate RequestsOk(s: System, requests: iset<SearchRequest>) {
    && (forall t :: t in s.phases && !s.phases[t].Idle? ==> s.phases[t].request in requests)
    && (forall k :: 0 <= k < |s.fetched| ==> s.fetched[k].request in requests)
    && (forall i :: 0 <= i < |s.served| ==> s.served[i].request in requests)
  }

  lemma StepKeepsRequests(c: Config, s: System, a: Action, requests: iset<SearchRequest>)
    requires RequestsOk(s, requests) && Enabled(s, a) && (a.Ask? ==> a.request in requests)
    ensures RequestsOk(Apply(c, s, a), requests)
  {
    hide CacheKey, Lookup, PageFor, ExtractKey;
  }

  lemma {:induction false} RunsKeepRequests(c: Config, actions: seq<Action>, requests: iset<SearchRequest>)
    requires IsRun(c, actions) && AsksOnly(actions, requests)
    ensures RequestsOk(After(c, actions), requests)
    decreases |actions|
  {
    if actions != [] {
      var n := |actions| - 1;
      RunsKeepRequests(c, actions[..n], requests);
      hide RequestsOk, Apply, Enabled;
      StepKeepsRequests(c, After(c, actions[..n]), actions[n], requests);
    }
  }

  lemma DistinctHashesNoCollisions(c: Config, s: System, requests: iset<SearchRequest>)
    requires RequestsOk(s, requests) && InjectiveOn(c, requests)
    ensures NoCollisions(c, s)
  {
  }

  lemma InjectiveIsAnswered(c: Config, actions: seq<Action>, requests: iset<SearchRequest>)
    requires IsRun(c, actions) && AsksOnly(actions, requests) && InjectiveOn(c, requests)
    ensures AllAnswered(c, After(c, actions))
  {
    RunsKeepRequests(c, actions, requests);
    var s := After(c, actions);
    hide After, IsRun, RequestsOk, InjectiveOn, AsksOnly, NoCollisions, PageFor;
    DistinctHashesNoCollisions(c, s, requests);
    forall i | 0 <= i < |s.served| ensures IsAnswered(c, s, s.served[i]) {
      var k := ResponsesAnswerTheRequest(c, actions, i);
    }
  }

  /**
   For any stock of requests: in every run over them each response answers its
   own request, exactly if no two of them share a hash.
   */
  lemma AllAnsweredIffInjective(c: Config, requests: iset<SearchRequest>)
    ensures (forall actions: seq<Action> :: IsRun(c, actions) && AsksOnly(actions, requests) ==>
               AllAnswered(c, After(c, actions)))
            <==> InjectiveOn(c, requests)
  {
    if InjectiveOn(c, requests) {
      forall actions: seq<Action> | IsRun(c, actions) && AsksOnly(actions, requests)
        ensures AllAnswered(c, After(c, actions))
      {
        InjectiveIsAnswered(c, actions, requests);
      }
    } else {
      var r, r' :| r in requests && r' in requests && c.hash(r) == c.hash(r') && r != r';
      CollisionsShareAnswers(c, r, r', []);
      hide After, IsRun, IsAnswered, PageFor;
      assert AsksOnly(CollidingRun(r, r', []), requests);
      var s := After(c, CollidingRun(r, r', []));
      assert !IsAnswered(c, s, s.served[0]);
    }
  }
}
