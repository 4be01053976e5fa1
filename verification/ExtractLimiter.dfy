/**
 src/util/extract.rs:389-562: any number of `run_extract` calls against one
 semaphore and one cache, with errors, timeouts and drops at every await.
 */
module ExtractLimiter {
  import opened Wrappers
  import opened Bytes
  import opened ExtractUrl
  import opened CacheKeys

  type TaskId = nat

  /** `hash` is the standard library's hasher over a URL's string. */
  datatype Config = Config(limit: nat, hash: Url -> Hash64)

  datatype Reply = Reply(url: Url, content: Option<ByteString>)

  /** What a cache slot holds: a reply that decodes, or bytes that do not. */
  datatype Entry = Stored(reply: Reply) | Undecodable

  function CacheKey(c: Config, normalized: Url): string {
    ExtractKey(c.hash(normalized))
  }

  /** The cache lookup; `readable`: the cache answered. */
  function Found(cache: map<string, Entry>, key: string, readable: bool): Option<Reply> {
    if readable && key in cache && cache[key].Stored? then Some(cache[key].reply) else None
  }

  // ---- one call by itself ----

  /**
   What a call hands out and the cache it leaves, when the timed span comes back
   with `attempt`; `reachable`: the write went through.
   */
  function CallResult(
    c: Config, cache: map<string, Entry>, url: Url, readable: bool, attempt: Option<Reply>, reachable: bool)
    : (Option<Reply>, map<string, Entry>)
  {
    var key := CacheKey(c, Normalized(url));
    var hit := Found(cache, key, readable);
    if hit.Some? then (hit, cache)
    else (attempt, if attempt.Some? && reachable then cache[key := Stored(attempt.value)] else cache)
  }

  class ExtractCache {
    var entries: map<string, Entry>

    constructor ()
      ensures entries == map[]
    {
      entries := map[];
    }

    /** `run_extract` around the timed span, which comes back with nothing on an error or a timeout. */
    method RunExtract(c: Config, url: Url, readable: bool, attempt: Option<Reply>, reachable: bool)
      returns (r: Option<Reply>)
      modifies this
      ensures (r, entries) == CallResult(c, old(entries), url, readable, attempt, reachable)
    {
      var normalized := NormalizeExtractUrl(url);
      hide Normalized;
      var key := CacheKey(c, normalized);
      if readable && key in entries {
        var entry := entries[key];
        if entry.Stored? {
          return Some(entry.reply);
        }
      }
      if attempt.None? {
        return None;
      }
      if reachable {
        entries := entries[key := Stored(attempt.value)];
      }
      return attempt;
    }
  }

  // ---- any number of calls ----

  /**
   `Queued`: missed the cache, waiting for a permit. `Fetching` and `Parsing`
   hold one. `Extracted`: the timed block has returned, the reply is not stored yet.
   */
  datatype Phase =
    | Idle
    | Queued(target: Url)
    | Fetching(target: Url)
    | Parsing(target: Url)
    | Extracted(target: Url, reply: Reply)

  /** A finished extraction, under the normalized URL it was asked for. */
  datatype Success = Success(target: Url, reply: Reply)

  /** A reply handed out from the cache to a caller that asked for `asked`. */
  datatype Hit = Hit(asked: Url, reply: Reply)

  datatype System = System(
    free: nat, phases: map<TaskId, Phase>, cache: map<string, Entry>,
    orphans: nat, successes: seq<Success>, hits: seq<Hit>)

  datatype Action =
    | Lookup(task: TaskId, url: Url, readable: bool)
    | Acquire(task: TaskId)
    | StartParse(task: TaskId)
    | FinishParse(task: TaskId, made: Reply)
    | Fail(task: TaskId)
    | GiveUp(task: TaskId)
    | OrphanEnds
    | Store(task: TaskId, reachable: bool)
    | Evict(slot: string)
    | Corrupt(slot: string)
    | SearchPut(hash: Hash64, entry: Entry)

  function Initial(c: Config): System {
    System(c.limit, map[], map[], 0, [], [])
  }

  function PhaseOf(s: System, t: TaskId): Phase {
    if t in s.phases then s.phases[t] else Idle
  }

  predicate HoldsPermit(p: Phase) {
    p.Fetching? || p.Parsing?
  }

  /** Tasks inside the gated span. */
  function Span(s: System): set<TaskId> {
    set t | t in s.phases && HoldsPermit(s.phases[t])
  }

  /** Tasks in the span that are not parsing yet. */
  function Fetchers(s: System): set<TaskId> {
    set t | t in s.phases && s.phases[t].Fetching?
  }

  /** Tasks whose parse runs on their behalf. */
  function Parsers(s: System): set<TaskId> {
    set t | t in s.phases && s.phases[t].Parsing?
  }

  /** Parses running on the blocking pool: those, and the ones nobody waits for. */
  function RunningParses(s: System): nat {
    |Parsers(s)| + s.orphans
  }

  ghost predicate Enabled(s: System, a: Action) {
    match a
    case Lookup(t, _, _) => PhaseOf(s, t).Idle?
    case Acquire(t) => PhaseOf(s, t).Queued? && s.free > 0
    case StartParse(t) => PhaseOf(s, t).Fetching?
    case FinishParse(t, _) => PhaseOf(s, t).Parsing?
    case Fail(t) => HoldsPermit(PhaseOf(s, t))
    case GiveUp(t) => !PhaseOf(s, t).Idle?
    case OrphanEnds => s.orphans > 0
    case Store(t, _) => PhaseOf(s, t).Extracted?
    case Evict(k) => k in s.cache
    case Corrupt(k) => k in s.cache
    case SearchPut(_, _) => true
  }

  function Move(s: System, t: TaskId, p: Phase): System {
    s.(phases := s.phases[t := p])
  }

  /** The permit, if held, is dropped with the task's future. */
  function Release(s: System, t: TaskId, p: Phase): System {
    Move(s.(free := s.free + if HoldsPermit(PhaseOf(s, t)) then 1 else 0), t, p)
  }

  /** `Fail`: an error inside the span. `GiveUp`: the timeout, or the caller's drop. */
  function Apply(c: Config, s: System, a: Action): System {
    match a
    case Lookup(t, url, readable) =>
      var hit := Found(s.cache, CacheKey(c, Normalized(url)), readable);
      if hit.Some? then s.(hits := s.hits + [Hit(url, hit.value)]) else Move(s, t, Queued(Normalized(url)))
    case Acquire(t) =>
      if PhaseOf(s, t).Queued? && s.free > 0 then Move(s.(free := s.free - 1), t, Fetching(PhaseOf(s, t).target))
      else s
    case StartParse(t) =>
      if PhaseOf(s, t).Fetching? then Move(s, t, Parsing(PhaseOf(s, t).target)) else s
    case FinishParse(t, reply) =>
      if PhaseOf(s, t).Parsing? then
        var target := PhaseOf(s, t).target;
        Release(s.(successes := s.successes + [Success(target, reply)]), t, Extracted(target, reply))
      else s
    case Fail(t) => Release(s, t, Idle)
    case GiveUp(t) =>
      Release(s.(orphans := s.orphans + if PhaseOf(s, t).Parsing? then 1 else 0), t, Idle)
    case OrphanEnds => if s.orphans > 0 then s.(orphans := s.orphans - 1) else s
    case Store(t, reachable) =>
      var p := PhaseOf(s, t);
      if !p.Extracted? then s
      else Move(if reachable then s.(cache := s.cache[CacheKey(c, p.target) := Stored(p.reply)]) else s, t, Idle)
    case Evict(k) => s.(cache := s.cache - {k})
    case Corrupt(k) => s.(cache := s.cache[k := Undecodable])
    case SearchPut(h, entry) => s.(cache := s.cache[SearchKey(h) := entry])
  }

  function After(c: Config, actions: seq<Action>): System {
    if actions == [] then Initial(c)
    else Apply(c, After(c, actions[..|actions| - 1]), actions[|actions| - 1])
  }

  ghost predicate IsRun(c: Config, actions: seq<Action>) {
    actions != [] ==>
      var n := |actions| - 1;
      IsRun(c, actions[..n]) && Enabled(After(c, actions[..n]), actions[n])
  }

  // ---- the same call, step by step ----

  /** How a call that missed the cache can go. */
  datatype Course =
    | Served(reply: Reply)
    | FetchFails
    | ParseFails
    | GivesUpQueued
    | GivesUpFetching
    | GivesUpParsing
    | DroppedUnstored(reply: Reply)

  function AttemptOf(course: Course): Option<Reply> {
    if course.Served? then Some(course.reply) else None
  }

  function MissActions(t: TaskId, course: Course, reachable: bool): seq<Action> {
    match course
    case Served(reply) => [Acquire(t), StartParse(t), FinishParse(t, reply), Store(t, reachable)]
    case FetchFails => [Acquire(t), Fail(t)]
    case ParseFails => [Acquire(t), StartParse(t), Fail(t)]
    case GivesUpQueued => [GiveUp(t)]
    case GivesUpFetching => [Acquire(t), GiveUp(t)]
    case GivesUpParsing => [Acquire(t), StartParse(t), GiveUp(t)]
    case DroppedUnstored(reply) => [Acquire(t), StartParse(t), FinishParse(t, reply), GiveUp(t)]
  }

  function CallActions(
    c: Config, s: System, t: TaskId, url: Url, readable: bool, course: Course, reachable: bool): seq<Action>
  {
    [Lookup(t, url, readable)]
    + if Found(s.cache, CacheKey(c, Normalized(url)), readable).Some? then [] else MissActions(t, course, reachable)
  }

  function ApplyAll(c: Config, s: System, actions: seq<Action>): System
    decreases |actions|
  {
    if actions == [] then s else ApplyAll(c, Apply(c, s, actions[0]), actions[1..])
  }

  ghost predicate EnabledAll(c: Config, s: System, actions: seq<Action>)
    decreases |actions|
  {
    actions != [] ==> Enabled(s, actions[0]) && EnabledAll(c, Apply(c, s, actions[0]), actions[1..])
  }

  lemma ThenRest(c: Config, s: System, a: Action, rest: seq<Action>)
    ensures ApplyAll(c, s, [a] + rest) == ApplyAll(c, Apply(c, s, a), rest)
    ensures EnabledAll(c, s, [a] + rest) <==> Enabled(s, a) && EnabledAll(c, Apply(c, s, a), rest)
    ensures ApplyAll(c, s, []) == s && EnabledAll(c, s, [])
  {
    hide Apply, Enabled;
    assert ([a] + rest)[1..] == rest;
  }

  /**
   A call that meets no other takes its steps without waiting, however it goes.
   It leaves the cache the class method promises, its permit is back, and all
   that can stay behind is a parse nobody waits for.
   */
  lemma CallAlone(c: Config, s: System, t: TaskId, url: Url, readable: bool, course: Course, reachable: bool)
    requires PhaseOf(s, t).Idle? && s.free > 0
    ensures var actions := CallActions(c, s, t, url, readable, course, reachable);
            var s' := ApplyAll(c, s, actions);
            var (r, cache) := CallResult(c, s.cache, url, readable, AttemptOf(course), reachable);
            var hit := Found(s.cache, CacheKey(c, Normalized(url)), readable);
            && EnabledAll(c, s, actions) && s'.free == s.free && s'.cache == cache && PhaseOf(s', t).Idle?
            && s'.orphans == s.orphans + (if hit.None? && course.GivesUpParsing? then 1 else 0)
            && s'.hits == s.hits + (if hit.Some? then [Hit(url, r.value)] else [])
            && s'.successes == s.successes
                + (if hit.None? && (course.Served? || course.DroppedUnstored?) then [Success(Normalized(url), course.reply)]
                   else [])
  {
    hide Normalized, CacheKey;
    var s1 := Apply(c, s, Lookup(t, url, readable));
    if Found(s.cache, CacheKey(c, Normalized(url)), readable).Some? {
      ThenRest(c, s, Lookup(t, url, readable), []);
      hide ApplyAll, EnabledAll;
    } else {
      ThenRest(c, s, Lookup(t, url, readable), MissActions(t, course, reachable));
      MissAlone(c, s1, t, course, reachable);
      hide ApplyAll, EnabledAll, MissActions;
    }
  }

  lemma MissAlone(c: Config, s: System, t: TaskId, course: Course, reachable: bool)
    requires PhaseOf(s, t).Queued? && s.free > 0
    ensures var target := PhaseOf(s, t).target; var key := CacheKey(c, target);
            var actions := MissActions(t, course, reachable); var s' := ApplyAll(c, s, actions);
            && EnabledAll(c, s, actions) && s'.free == s.free && PhaseOf(s', t).Idle? && s'.hits == s.hits
            && s'.cache == (if course.Served? && reachable then s.cache[key := Stored(course.reply)] else s.cache)
            && s'.orphans == s.orphans + (if course.GivesUpParsing? then 1 else 0)
            && s'.successes == s.successes
                + (if course.Served? || course.DroppedUnstored? then [Success(target, course.reply)] else [])
  {
    hide CacheKey;
    var actions := MissActions(t, course, reachable);
    if course.GivesUpQueued? {
      ThenRest(c, s, GiveUp(t), []);
      assert actions == [GiveUp(t)] + [];
    } else {
      var s1 := Apply(c, s, Acquire(t));
      assert actions == [Acquire(t)] + actions[1..];
      ThenRest(c, s, Acquire(t), actions[1..]);
      hide ApplyAll, EnabledAll;
      FetchAlone(c, s1, t, course, reachable);
    }
  }

  lemma FetchAlone(c: Config, s: System, t: TaskId, course: Course, reachable: bool)
    requires PhaseOf(s, t).Fetching? && !course.GivesUpQueued?
    ensures var target := PhaseOf(s, t).target; var key := CacheKey(c, target);
            var actions := MissActions(t, course, reachable)[1..]; var s' := ApplyAll(c, s, actions);
            && EnabledAll(c, s, actions) && s'.free == s.free + 1 && PhaseOf(s', t).Idle? && s'.hits == s.hits
            && s'.cache == (if course.Served? && reachable then s.cache[key := Stored(course.reply)] else s.cache)
            && s'.orphans == s.orphans + (if course.GivesUpParsing? then 1 else 0)
            && s'.successes == s.successes
                + (if course.Served? || course.DroppedUnstored? then [Success(target, course.reply)] else [])
  {
    hide CacheKey;
    var actions := MissActions(t, course, reachable)[1..];
    if course.FetchFails? || course.GivesUpFetching? {
      ThenRest(c, s, actions[0], []);
      assert actions == [actions[0]] + [];
    } else {
      var s1 := Apply(c, s, StartParse(t));
      ThenRest(c, s, StartParse(t), actions[1..]);
      assert actions == [StartParse(t)] + actions[1..];
      assert actions[1..] == MissActions(t, course, reachable)[2..];
      hide ApplyAll, EnabledAll;
      ParseAlone(c, s1, t, course, reachable);
    }
  }

  lemma ParseAlone(c: Config, s: System, t: TaskId, course: Course, reachable: bool)
    requires PhaseOf(s, t).Parsing?
    requires course.Served? || course.ParseFails? || course.GivesUpParsing? || course.DroppedUnstored?
    ensures var target := PhaseOf(s, t).target; var key := CacheKey(c, target);
            var actions := MissActions(t, course, reachable)[2..]; var s' := ApplyAll(c, s, actions);
            && EnabledAll(c, s, actions) && s'.free == s.free + 1 && PhaseOf(s', t).Idle? && s'.hits == s.hits
            && s'.cache == (if course.Served? && reachable then s.cache[key := Stored(course.reply)] else s.cache)
            && s'.orphans == s.orphans + (if course.GivesUpParsing? then 1 else 0)
            && s'.successes == s.successes
                + (if course.Served? || course.DroppedUnstored? then [Success(target, course.reply)] else [])
  {
    hide CacheKey;
    var actions := MissActions(t, course, reachable)[2..];
    var s1 := Apply(c, s, actions[0]);
    assert actions == [actions[0]] + actions[1..];
    ThenRest(c, s, actions[0], actions[1..]);
    if course.Served? || course.DroppedUnstored? {
      ThenRest(c, s1, actions[1], []);
      assert actions[1..] == [actions[1]] + [];
    } else {
      assert actions[1..] == [];
    }
    hide ApplyAll, EnabledAll;
  }

  // ---- permits ----

  ghost predicate PermitsConserved(c: Config, s: System) {
    s.free + |Span(s)| == c.limit
  }

  lemma MovedMember(s: System, t: TaskId, p: Phase, u: TaskId)
    ensures u in Span(Move(s, t, p)) <==> if u == t then HoldsPermit(p) else u in Span(s)
  {
  }

  lemma MovedSpan(s: System, t: TaskId, p: Phase)
    ensures Span(Move(s, t, p)) == (Span(s) - {t}) + (if HoldsPermit(p) then {t} else {})
  {
    forall u: TaskId
      ensures u in Span(Move(s, t, p)) <==> u in (Span(s) - {t}) + (if HoldsPermit(p) then {t} else {})
    {
      MovedMember(s, t, p, u);
    }
  }

  lemma MoveSpan(s: System, t: TaskId, p: Phase)
    ensures var before := HoldsPermit(PhaseOf(s, t));
            |Span(Move(s, t, p))| ==
            |Span(s)| + (if HoldsPermit(p) then 1 else 0) - (if before then 1 else 0)
  {
    MovedSpan(s, t, p);
    assert t in Span(s) <==> HoldsPermit(PhaseOf(s, t));
    hide *;
    var span := Span(s);
    if t in span {
      assert |span - {t}| == |span| - 1;
    } else {
      assert span - {t} == span;
    }
  }

  lemma SameSpan(s: System, s': System)
    requires s.phases == s'.phases
    ensures Span(s) == Span(s')
  {
  }

  lemma ReleaseConserves(c: Config, s: System, t: TaskId, p: Phase)
    requires PermitsConserved(c, s) && !HoldsPermit(p)
    ensures PermitsConserved(c, Release(s, t, p))
  {
    var s1 := s.(free := s.free + if HoldsPermit(PhaseOf(s, t)) then 1 else 0);
    SameSpan(s, s1);
    MoveSpan(s1, t, p);
    hide Span;
  }

  lemma StepConserves(c: Config, s: System, a: Action)
    requires PermitsConserved(c, s) && Enabled(s, a)
    ensures PermitsConserved(c, Apply(c, s, a))
  {
    hide Span, Normalized, CacheKey, Found;
    match a {
      case Lookup(t, url, readable) =>
        LookupConserves(c, s, t, url, readable);
      case Acquire(t) =>
        var s1 := s.(free := s.free - 1);
        SameSpan(s, s1);
        MoveSpan(s1, t, Fetching(PhaseOf(s, t).target));
      case StartParse(t) => MoveSpan(s, t, Parsing(PhaseOf(s, t).target));
      case FinishParse(t, reply) =>
        var target := PhaseOf(s, t).target;
        var s1 := s.(successes := s.successes + [Success(target, reply)]);
        SameSpan(s, s1);
        ReleaseConserves(c, s1, t, Extracted(target, reply));
      case Fail(t) => ReleaseConserves(c, s, t, Idle);
      case GiveUp(t) =>
        var s1 := s.(orphans := s.orphans + if PhaseOf(s, t).Parsing? then 1 else 0);
        SameSpan(s, s1);
        ReleaseConserves(c, s1, t, Idle);
      case Store(t, reachable) =>
        var p := PhaseOf(s, t);
        var s1 := if reachable then s.(cache := s.cache[CacheKey(c, p.target) := Stored(p.reply)]) else s;
        SameSpan(s, s1);
        MoveSpan(s1, t, Idle);
      case _ => SameSpan(s, Apply(c, s, a));
    }
  }

  lemma LookupConserves(c: Config, s: System, t: TaskId, url: Url, readable: bool)
    requires PermitsConserved(c, s) && PhaseOf(s, t).Idle?
    ensures PermitsConserved(c, Apply(c, s, Lookup(t, url, readable)))
  {
    hide Span, Normalized, CacheKey, Found;
    MoveSpan(s, t, Queued(Normalized(url)));
    var s' := Apply(c, s, Lookup(t, url, readable));
    if s'.phases == s.phases {
      SameSpan(s, s');
    }
  }

  /** Free permits and tasks in the span always add up to the configured limit. */
  lemma {:induction false} PermitsAreConserved(c: Config, actions: seq<Action>)
    requires IsRun(c, actions)
    ensures var s := After(c, actions); s.free + |Span(s)| == c.limit && |Span(s)| <= c.limit
    decreases |actions|
  {
    if actions == [] {
      assert Span(Initial(c)) == {};
    } else {
      var n := |actions| - 1;
      PermitsAreConserved(c, actions[..n]);
      hide Apply, Enabled, Span;
      StepConserves(c, After(c, actions[..n]), actions[n]);
    }
  }

  // ---- runs ----

  lemma RunStep(c: Config, r: seq<Action>, n: nat)
    requires n < |r| && IsRun(c, r[..n]) && Enabled(After(c, r[..n]), r[n])
    ensures IsRun(c, r[..n + 1]) && After(c, r[..n + 1]) == Apply(c, After(c, r[..n]), r[n])
  {
    assert r[..n + 1][..n] == r[..n];
  }

  lemma NothingRun(c: Config, r: seq<Action>)
    ensures IsRun(c, r[..0]) && After(c, r[..0]) == Initial(c)
  {
  }

  // ---- parses and permits ----

  /** Running parses stay within the limit exactly while the forsaken ones fit into what is not parsing. */
  lemma ParsesWithinLimitIff(c: Config, actions: seq<Action>)
    requires IsRun(c, actions)
    ensures var s := After(c, actions);
            RunningParses(s) <= c.limit <==> s.orphans <= s.free + |Fetchers(s)|
  {
    PermitsAreConserved(c, actions);
    var s := After(c, actions);
    hide After, IsRun;
    assert Span(s) == Parsers(s) + Fetchers(s) && Parsers(s) !! Fetchers(s);
  }

  /** Task 1 asks, starts a parse and times out, `n` times over. */
  function ForsakenRun(url: Url, n: nat): seq<Action> {
    if n == 0 then []
    else ForsakenRun(url, n - 1) + [Lookup(1, url, false), Acquire(1), StartParse(1), GiveUp(1)]
  }

  /** One permit is enough for any number of parses to run at once. */
  lemma {:induction false} ParsesAreUnbounded(c: Config, url: Url, n: nat)
    requires c.limit > 0
    ensures IsRun(c, ForsakenRun(url, n)) && RunningParses(After(c, ForsakenRun(url, n))) == n
    ensures After(c, ForsakenRun(url, n)) == System(c.limit, if n == 0 then map[] else map[1 := Idle], map[], n, [], [])
  {
    if n == 0 {
      assert Parsers(Initial(c)) == {};
    } else {
      ParsesAreUnbounded(c, url, n - 1);
      hide After, IsRun, Normalized;
      ForsakeOnce(c, ForsakenRun(url, n - 1), url);
      assert Parsers(After(c, ForsakenRun(url, n))) == {};
    }
  }

  lemma ForsakeOnce(c: Config, r: seq<Action>, url: Url)
    requires IsRun(c, r) && PhaseOf(After(c, r), 1).Idle? && After(c, r).free > 0
    ensures var r' := r + [Lookup(1, url, false), Acquire(1), StartParse(1), GiveUp(1)]; var s := After(c, r);
            IsRun(c, r') && After(c, r') == s.(orphans := s.orphans + 1, phases := s.phases[1 := Idle])
  {
    hide *;
    var more := [Lookup(1, url, false), Acquire(1), StartParse(1), GiveUp(1)];
    var r' := r + more;
    assert r'[..|r|] == r && r'[..|r| + 4] == r';
    assert r'[|r|] == more[0] && r'[|r| + 1] == more[1] && r'[|r| + 2] == more[2] && r'[|r| + 3] == more[3];
    StartOnce(c, r, r', url);
    var s, target := After(c, r), Normalized(url);
    EndOnce(c, r', |r| + 2, target);
    assert s.phases[1 := Fetching(target)][1 := Idle] == s.phases[1 := Idle];
  }

  lemma EndOnce(c: Config, r': seq<Action>, n: nat, target: Url)
    requires n + 2 <= |r'| && IsRun(c, r'[..n]) && r'[n] == StartParse(1) && r'[n + 1] == GiveUp(1)
    requires 1 in After(c, r'[..n]).phases && After(c, r'[..n]).phases[1] == Fetching(target)
    ensures var s := After(c, r'[..n]);
            && IsRun(c, r'[..n + 2])
            && After(c, r'[..n + 2]) == s.(free := s.free + 1, orphans := s.orphans + 1, phases := s.phases[1 := Idle])
  {
    hide After, IsRun, CacheKey;
    RunStep(c, r', n);
    RunStep(c, r', n + 1);
    var phases := After(c, r'[..n]).phases;
    assert phases[1 := Parsing(target)][1 := Idle] == phases[1 := Idle];
  }

  lemma StartOnce(c: Config, r: seq<Action>, r': seq<Action>, url: Url)
    requires IsRun(c, r) && PhaseOf(After(c, r), 1).Idle? && After(c, r).free > 0
    requires |r| + 2 <= |r'| && r'[..|r|] == r && r'[|r|] == Lookup(1, url, false) && r'[|r| + 1] == Acquire(1)
    ensures IsRun(c, r'[..|r| + 2])
    ensures var s := After(c, r);
            After(c, r'[..|r| + 2]) == s.(free := s.free - 1, phases := s.phases[1 := Fetching(Normalized(url))])
  {
    hide After, IsRun, Normalized, CacheKey;
    RunStep(c, r', |r|);
    RunStep(c, r', |r| + 1);
    var phases, target := After(c, r).phases, Normalized(url);
    assert phases[1 := Queued(target)][1 := Fetching(target)] == phases[1 := Fetching(target)];
  }

  /** So the semaphore bounds the running parses of every run only where it lets nothing run at all. */
  lemma SemaphoreBoundsParsesIff(c: Config, bound: nat, url: Url)
    ensures (forall actions :: IsRun(c, actions) ==> RunningParses(After(c, actions)) <= bound) <==> c.limit == 0
  {
    if c.limit > 0 {
      ParsesAreUnbounded(c, url, bound + 1);
      hide After, IsRun;
    } else {
      forall actions | IsRun(c, actions) ensures RunningParses(After(c, actions)) <= bound {
        NothingParses(c, actions);
      }
    }
  }

  lemma {:induction false} NothingParses(c: Config, actions: seq<Action>)
    requires c.limit == 0 && IsRun(c, actions)
    ensures RunningParses(After(c, actions)) == 0
    decreases |actions|
  {
    PermitsAreConserved(c, actions);
    assert Span(After(c, actions)) == {};
    if actions == [] {
      assert Parsers(Initial(c)) == {};
    } else {
      var n := |actions| - 1;
      NothingParses(c, actions[..n]);
      PermitsAreConserved(c, actions[..n]);
      StillNothing(c, After(c, actions[..n]), actions[n]);
    }
  }

  lemma StillNothing(c: Config, s: System, a: Action)
    requires RunningParses(s) == 0 && Span(s) == {} && Span(Apply(c, s, a)) == {} && Enabled(s, a)
    ensures RunningParses(Apply(c, s, a)) == 0
  {
    hide Normalized, Found, CacheKey;
    assert forall t: TaskId :: t !in Span(s) ==> !PhaseOf(s, t).Parsing?;
    assert Parsers(Apply(c, s, a)) <= Span(Apply(c, s, a));
  }
}
