/**
 src/util/extract.rs:439-450 and 548-559: what an extract call finds in the cache,
 over every run of `ExtractLimiter`.
 */
module ExtractReplies {
  import opened Wrappers
  import opened ExtractUrl
  import opened CacheKeys
  import opened ExtractLimiter

  // ---- what is cached and handed out ----

  /** `reply` is a finished extraction of a URL with this hash. */
  ghost predicate IsReplyUnder(c: Config, successes: seq<Success>, h: Hash64, reply: Reply) {
    exists k :: 0 <= k < |successes| && c.hash(successes[k].target) == h && successes[k].reply == reply
  }

  ghost predicate CacheOk(c: Config, cache: map<string, Entry>, successes: seq<Success>) {
    forall h: Hash64 :: ExtractKey(h) in cache && cache[ExtractKey(h)].Stored? ==>
      IsReplyUnder(c, successes, h, cache[ExtractKey(h)].reply)
  }

  ghost predicate PhasesOk(phases: map<TaskId, Phase>, successes: seq<Success>) {
    forall t :: t in phases && phases[t].Extracted? ==> Success(phases[t].target, phases[t].reply) in successes
  }

  ghost predicate HitsOk(c: Config, hits: seq<Hit>, successes: seq<Success>) {
    forall i :: 0 <= i < |hits| ==> IsReplyUnder(c, successes, c.hash(Normalized(hits[i].asked)), hits[i].reply)
  }

  ghost predicate RepliesOk(c: Config, s: System) {
    && CacheOk(c, s.cache, s.successes) && PhasesOk(s.phases, s.successes) && HitsOk(c, s.hits, s.successes)
  }

  lemma OneMoreReply(c: Config, successes: seq<Success>, x: Success, h: Hash64, reply: Reply)
    requires IsReplyUnder(c, successes, h, reply)
    ensures IsReplyUnder(c, successes + [x], h, reply)
  {
    var k :| 0 <= k < |successes| && c.hash(successes[k].target) == h && successes[k].reply == reply;
    assert (successes + [x])[k] == successes[k];
  }

  lemma OneMoreSuccess(c: Config, s: System, x: Success)
    requires RepliesOk(c, s)
    ensures RepliesOk(c, s.(successes := s.successes + [x]))
  {
    var successes := s.successes + [x];
    hide IsReplyUnder, ExtractKey, Normalized;
    forall h: Hash64 | ExtractKey(h) in s.cache && s.cache[ExtractKey(h)].Stored?
      ensures IsReplyUnder(c, successes, h, s.cache[ExtractKey(h)].reply)
    {
      OneMoreReply(c, s.successes, x, h, s.cache[ExtractKey(h)].reply);
    }
    forall i | 0 <= i < |s.hits|
      ensures IsReplyUnder(c, successes, c.hash(Normalized(s.hits[i].asked)), s.hits[i].reply)
    {
      OneMoreReply(c, s.successes, x, c.hash(Normalized(s.hits[i].asked)), s.hits[i].reply);
    }
  }

  lemma MoveKeeps(c: Config, s: System, t: TaskId, p: Phase)
    requires RepliesOk(c, s) && (p.Extracted? ==> Success(p.target, p.reply) in s.successes)
    ensures RepliesOk(c, Move(s, t, p))
  {
    hide CacheOk, HitsOk;
  }

  lemma ReleaseKeeps(c: Config, s: System, t: TaskId, p: Phase)
    requires RepliesOk(c, s) && (p.Extracted? ==> Success(p.target, p.reply) in s.successes)
    ensures RepliesOk(c, Release(s, t, p))
  {
    MoveKeeps(c, s.(free := s.free + if HoldsPermit(PhaseOf(s, t)) then 1 else 0), t, p);
    hide CacheOk, HitsOk, PhasesOk;
  }

  lemma LookupKeeps(c: Config, s: System, t: TaskId, url: Url, readable: bool)
    requires RepliesOk(c, s)
    ensures RepliesOk(c, Apply(c, s, Lookup(t, url, readable)))
  {
    hide Normalized, ExtractKey, IsReplyUnder, PhasesOk;
    var h := c.hash(Normalized(url));
    var hit := Found(s.cache, CacheKey(c, Normalized(url)), readable);
    if hit.Some? {
      assert IsReplyUnder(c, s.successes, h, hit.value);
    } else {
      MoveKeeps(c, s, t, Queued(Normalized(url)));
    }
  }

  lemma StoreKeeps(c: Config, s: System, target: Url, reply: Reply)
    requires RepliesOk(c, s) && Success(target, reply) in s.successes
    ensures RepliesOk(c, s.(cache := s.cache[CacheKey(c, target) := Stored(reply)]))
  {
    var g := c.hash(target);
    assert IsReplyUnder(c, s.successes, g, reply) by {
      var k :| 0 <= k < |s.successes| && s.successes[k] == Success(target, reply);
    }
    var cache := s.cache[CacheKey(c, target) := Stored(reply)];
    hide ExtractKey, IsReplyUnder, PhasesOk, HitsOk;
    forall h: Hash64 | ExtractKey(h) in cache && cache[ExtractKey(h)].Stored?
      ensures IsReplyUnder(c, s.successes, h, cache[ExtractKey(h)].reply)
    {
      ExtractKeysAreHashes(h, g);
    }
  }

  lemma SpoilKeeps(c: Config, s: System, key: string)
    requires RepliesOk(c, s)
    ensures RepliesOk(c, s.(cache := s.cache - {key}))
    ensures RepliesOk(c, s.(cache := s.cache[key := Undecodable]))
  {
    hide ExtractKey, IsReplyUnder, PhasesOk, HitsOk;
  }

  lemma SearchPutKeeps(c: Config, s: System, g: Hash64, entry: Entry)
    requires RepliesOk(c, s)
    ensures RepliesOk(c, s.(cache := s.cache[SearchKey(g) := entry]))
  {
    hide SearchKey, ExtractKey, IsReplyUnder, PhasesOk, HitsOk;
    forall h: Hash64 ensures SearchKey(g) != ExtractKey(h) {
      KeySpacesAreDisjoint(g, h);
    }
  }

  lemma StepKeepsReplies(c: Config, s: System, a: Action)
    requires RepliesOk(c, s) && Enabled(s, a)
    ensures RepliesOk(c, Apply(c, s, a))
  {
    match a {
      case Lookup(t, url, readable) =>
        hide RepliesOk;
        LookupKeeps(c, s, t, url, readable);
      case Acquire(t) =>
        hide CacheOk, HitsOk, PhasesOk;
        MoveKeeps(c, s.(free := s.free - 1), t, Fetching(PhaseOf(s, t).target));
      case StartParse(t) =>
        hide RepliesOk;
        MoveKeeps(c, s, t, Parsing(PhaseOf(s, t).target));
      case FinishParse(t, reply) =>
        hide RepliesOk;
        var x := Success(PhaseOf(s, t).target, reply);
        OneMoreSuccess(c, s, x);
        assert (s.successes + [x])[|s.successes|] == x;
        ReleaseKeeps(c, s.(successes := s.successes + [x]), t, Extracted(x.target, reply));
      case Fail(t) =>
        hide RepliesOk;
        ReleaseKeeps(c, s, t, Idle);
      case GiveUp(t) =>
        hide CacheOk, HitsOk, PhasesOk;
        ReleaseKeeps(c, s.(orphans := s.orphans + if PhaseOf(s, t).Parsing? then 1 else 0), t, Idle);
      case OrphanEnds => hide CacheOk, HitsOk, PhasesOk;
      case Store(t, reachable) =>
        var p := PhaseOf(s, t);
        assert Success(p.target, p.reply) in s.successes;
        hide RepliesOk, CacheKey;
        StoreKeeps(c, s, p.target, p.reply);
        MoveKeeps(c, if reachable then s.(cache := s.cache[CacheKey(c, p.target) := Stored(p.reply)]) else s, t, Idle);
      case Evict(k) =>
        hide RepliesOk;
        SpoilKeeps(c, s, k);
      case Corrupt(k) =>
        hide RepliesOk;
        SpoilKeeps(c, s, k);
      case SearchPut(h, entry) =>
        hide RepliesOk;
        SearchPutKeeps(c, s, h, entry);
    }
  }

  lemma {:induction false} RunsKeepReplies(c: Config, actions: seq<Action>)
    requires IsRun(c, actions)
    ensures RepliesOk(c, After(c, actions))
    decreases |actions|
  {
    if actions != [] {
      var n := |actions| - 1;
      RunsKeepReplies(c, actions[..n]);
      hide RepliesOk, Apply, Enabled;
      StepKeepsReplies(c, After(c, actions[..n]), actions[n]);
    }
  }

  // ---- what holds of every run ----

  /** Whatever decodes under an extract key is a finished extraction; failures and timeouts leave nothing. */
  lemma CacheHoldsSuccessesOnly(c: Config, actions: seq<Action>, h: Hash64)
    requires IsRun(c, actions)
    requires var s := After(c, actions); ExtractKey(h) in s.cache && s.cache[ExtractKey(h)].Stored?
    ensures var s := After(c, actions); IsReplyUnder(c, s.successes, h, s.cache[ExtractKey(h)].reply)
  {
    RunsKeepReplies(c, actions);
    hide After, IsRun, HitsOk, PhasesOk, IsReplyUnder, ExtractKey;
  }

  /** Some success of the run has this reply for this very normalized URL. */
  ghost predicate RepeatsSuccess(s: System, hit: Hit) {
    exists k :: 0 <= k < |s.successes| && s.successes[k] == Success(Normalized(hit.asked), hit.reply)
  }

  lemma HitIsReplyUnder(c: Config, actions: seq<Action>, i: nat)
    requires IsRun(c, actions) && i < |After(c, actions).hits|
    ensures var s := After(c, actions);
            IsReplyUnder(c, s.successes, c.hash(Normalized(s.hits[i].asked)), s.hits[i].reply)
  {
    RunsKeepReplies(c, actions);
    hide After, IsRun, CacheOk, PhasesOk, IsReplyUnder, Normalized;
  }

  /** A cache hit repeats an earlier success for the same normalized URL, unless another URL shares its hash. */
  lemma HitsRepeatSuccesses(c: Config, actions: seq<Action>, i: nat)
    requires IsRun(c, actions) && i < |After(c, actions).hits|
    requires var s := After(c, actions); var target := Normalized(s.hits[i].asked);
             forall k :: 0 <= k < |s.successes| && c.hash(s.successes[k].target) == c.hash(target) ==>
               s.successes[k].target == target
    ensures RepeatsSuccess(After(c, actions), After(c, actions).hits[i])
  {
    HitIsReplyUnder(c, actions, i);
    hide After, IsRun, Normalized;
    var s := After(c, actions);
    var k :| 0 <= k < |s.successes| && c.hash(s.successes[k].target) == c.hash(Normalized(s.hits[i].asked))
             && s.successes[k].reply == s.hits[i].reply;
    assert s.successes[k] == Success(Normalized(s.hits[i].asked), s.hits[i].reply);
  }

  // ---- what a shared hash does ----

  function ForeignRun(u: Url, v: Url): seq<Action> {
    [Lookup(1, u, true), Acquire(1), StartParse(1), FinishParse(1, Reply(u, None)), Store(1, true), Lookup(2, v, true)]
  }

  /** With two URLs under one hash, the second is handed the first one's reply. */
  lemma ForeignHit(c: Config, u: Url, v: Url)
    requires c.limit > 0 && c.hash(Normalized(u)) == c.hash(Normalized(v)) && Normalized(u) != Normalized(v)
    ensures var s := After(c, ForeignRun(u, v));
            && IsRun(c, ForeignRun(u, v)) && s.hits == [Hit(v, Reply(u, None))] && !RepeatsSuccess(s, s.hits[0])
  {
    var r := ForeignRun(u, v);
    ForeignStored(c, u, v);
    assert CacheKey(c, Normalized(u)) == CacheKey(c, Normalized(v));
    hide After, IsRun, Normalized, CacheKey;
    RunStep(c, r, 5);
    assert r[..6] == r;
    assert After(c, r).successes == [Success(Normalized(u), Reply(u, None))];
  }

  lemma ForeignStored(c: Config, u: Url, v: Url)
    requires c.limit > 0
    ensures var s := After(c, ForeignRun(u, v)[..5]); var key := CacheKey(c, Normalized(u));
            && IsRun(c, ForeignRun(u, v)[..5]) && PhaseOf(s, 2).Idle? && s.hits == []
            && s.cache == map[key := Stored(Reply(u, None))]
            && s.successes == [Success(Normalized(u), Reply(u, None))]
  {
    var r := ForeignRun(u, v);
    ForeignExtracted(c, u, v);
    hide After, IsRun, Normalized, CacheKey;
    RunStep(c, r, 4);
  }

  lemma ForeignExtracted(c: Config, u: Url, v: Url)
    requires c.limit > 0
    ensures IsRun(c, ForeignRun(u, v)[..4])
    ensures var target, reply := Normalized(u), Reply(u, None);
            After(c, ForeignRun(u, v)[..4]) ==
            System(c.limit, map[1 := Extracted(target, reply)], map[], 0, [Success(target, reply)], [])
  {
    var r := ForeignRun(u, v);
    ForeignParsing(c, u, v);
    hide After, IsRun, Normalized, CacheKey;
    RunStep(c, r, 3);
  }

  lemma ForeignParsing(c: Config, u: Url, v: Url)
    requires c.limit > 0
    ensures IsRun(c, ForeignRun(u, v)[..3])
    ensures After(c, ForeignRun(u, v)[..3]) ==
            System(c.limit - 1, map[1 := Parsing(Normalized(u))], map[], 0, [], [])
  {
    var r := ForeignRun(u, v);
    NothingRun(c, r);
    hide After, IsRun, Normalized, CacheKey;
    RunStep(c, r, 0);
    RunStep(c, r, 1);
    RunStep(c, r, 2);
  }

  // ---- exactly when every hit is a repetition ----

  /** Every URL asked for in the run is one of these. */
  ghost predicate AsksOnly(actions: seq<Action>, urls: iset<Url>) {
    forall i :: 0 <= i < |actions| && actions[i].Lookup? ==> actions[i].url in urls
  }

  /** Those of them that normalize differently hash differently. */
  ghost predicate InjectiveOn(c: Config, urls: iset<Url>) {
    forall u, v :: u in urls && v in urls && c.hash(Normalized(u)) == c.hash(Normalized(v)) ==>
      Normalized(u) == Normalized(v)
  }

  ghost predicate AllHitsRepeat(s: System) {
    forall i :: 0 <= i < |s.hits| ==> RepeatsSuccess(s, s.hits[i])
  }

  ghost predicate IsTarget(urls: iset<Url>, target: Url) {
    exists u :: u in urls && Normalized(u) == target
  }

  ghost predicate TargetsOk(s: System, urls: iset<Url>) {
    && (forall t :: t in s.phases && !s.phases[t].Idle? ==> IsTarget(urls, s.phases[t].target))
    && (forall k :: 0 <= k < |s.successes| ==> IsTarget(urls, s.successes[k].target))
    && (forall i :: 0 <= i < |s.hits| ==> s.hits[i].asked in urls)
  }

  lemma StepKeepsTargets(c: Config, s: System, a: Action, urls: iset<Url>)
    requires TargetsOk(s, urls) && Enabled(s, a) && (a.Lookup? ==> a.url in urls)
    ensures TargetsOk(Apply(c, s, a), urls)
  {
    assert a.Lookup? ==> IsTarget(urls, Normalized(a.url));
    hide Normalized, Found, CacheKey, IsTarget;
  }

  lemma {:induction false} RunsKeepTargets(c: Config, actions: seq<Action>, urls: iset<Url>)
    requires IsRun(c, actions) && AsksOnly(actions, urls)
    ensures TargetsOk(After(c, actions), urls)
    decreases |actions|
  {
    if actions != [] {
      var n := |actions| - 1;
      RunsKeepTargets(c, actions[..n], urls);
      hide TargetsOk, Apply, Enabled;
      StepKeepsTargets(c, After(c, actions[..n]), actions[n], urls);
    }
  }

  lemma TargetOf(c: Config, urls: iset<Url>, asked: Url, target: Url)
    requires InjectiveOn(c, urls) && asked in urls && IsTarget(urls, target)
    requires c.hash(target) == c.hash(Normalized(asked))
    ensures target == Normalized(asked)
  {
    hide Normalized;
  }

  lemma InjectiveHitsRepeat(c: Config, actions: seq<Action>, urls: iset<Url>)
    requires IsRun(c, actions) && AsksOnly(actions, urls) && InjectiveOn(c, urls)
    ensures AllHitsRepeat(After(c, actions))
  {
    RunsKeepTargets(c, actions, urls);
    var s := After(c, actions);
    hide After, IsRun, AsksOnly, InjectiveOn, IsTarget, Normalized, RepeatsSuccess;
    forall i | 0 <= i < |s.hits| ensures RepeatsSuccess(s, s.hits[i]) {
      var asked := s.hits[i].asked;
      forall k | 0 <= k < |s.successes| && c.hash(s.successes[k].target) == c.hash(Normalized(asked))
        ensures s.successes[k].target == Normalized(asked)
      {
        TargetOf(c, urls, asked, s.successes[k].target);
      }
      HitsRepeatSuccesses(c, actions, i);
    }
  }

  ghost predicate HitsAlwaysRepeat(c: Config, urls: iset<Url>) {
    forall actions: seq<Action> :: IsRun(c, actions) && AsksOnly(actions, urls) ==> AllHitsRepeat(After(c, actions))
  }

  lemma SharedHashMisleads(c: Config, urls: iset<Url>, u: Url, v: Url)
    requires c.limit > 0 && u in urls && v in urls
    requires c.hash(Normalized(u)) == c.hash(Normalized(v)) && Normalized(u) != Normalized(v)
    ensures !HitsAlwaysRepeat(c, urls)
  {
    ForeignHit(c, u, v);
    var r := ForeignRun(u, v);
    assert AsksOnly(r, urls);
    hide After, IsRun, RepeatsSuccess, Normalized, AsksOnly, ForeignRun;
    assert !AllHitsRepeat(After(c, r));
  }

  lemma InjectiveNeverMisleads(c: Config, urls: iset<Url>)
    requires InjectiveOn(c, urls)
    ensures HitsAlwaysRepeat(c, urls)
  {
    hide After, IsRun, InjectiveOn, AsksOnly, AllHitsRepeat;
    forall actions: seq<Action> | IsRun(c, actions) && AsksOnly(actions, urls)
      ensures AllHitsRepeat(After(c, actions))
    {
      InjectiveHitsRepeat(c, actions, urls);
    }
  }

  /**
   For any stock of URLs: in every run over them each hit repeats a success for
   its own normalized URL, exactly if no two of those share a hash. The limit is
   positive in every valid configuration.
   */
  lemma HitsRepeatIffInjective(c: Config, urls: iset<Url>)
    requires c.limit > 0
    ensures HitsAlwaysRepeat(c, urls) <==> InjectiveOn(c, urls)
  {
    hide HitsAlwaysRepeat, Normalized;
    if InjectiveOn(c, urls) {
      InjectiveNeverMisleads(c, urls);
    } else {
      var u, v :| u in urls && v in urls && c.hash(Normalized(u)) == c.hash(Normalized(v))
                  && Normalized(u) != Normalized(v);
      SharedHashMisleads(c, urls, u, v);
    }
  }
}
