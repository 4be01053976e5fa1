/**
 src/util/ssrf.rs:67-102 and 220-333: the redirect-following fetch, run against
 arbitrary name servers and web servers, with a log of every lookup and dial.
 No proxy is configured.
 */
module FetchLoop {
  import opened Wrappers
  import opened Bytes
  import opened AddressPolicy
  import opened ExtractUrl

  const MAX_REDIRECT_HOPS: nat := 5

  datatype SocketAddr = SocketAddr(ip: IpAddr, port: nat)

  datatype Response = Response(status: nat, location: Option<ByteString>, body: ByteString)

  datatype FetchError =
    | NotHttps | NoHost | Unresolvable | Forbidden
    | FetchFailed | TooManyRedirects | NoLocation | BadLocation

  /**
   The outside: answers may depend on how much has happened before, so a name
   may resolve differently each time. `join` is `Url::join`.
   */
  datatype World = World(
    lookup: (nat, string, nat) -> Option<seq<SocketAddr>>,
    respond: (nat, Url, SocketAddr) -> Option<Response>,
    join: (Url, ByteString) -> Option<Url>)

  datatype Event =
    | Lookup(host: string, port: nat, answer: Option<seq<SocketAddr>>)
    | Dial(url: Url, addr: SocketAddr, reply: Option<Response>)

  type Log = seq<Event>

  /** `port_or_known_default().unwrap_or(443)` of an https URL. */
  function PortOf(url: Url): nat {
    if url.port.Some? then url.port.value else 443
  }

  predicate IsRedirection(status: nat) {
    300 <= status < 400
  }

  predicate IsRedirect(reply: Option<Response>) {
    reply.Some? && IsRedirection(reply.value.status)
  }

  predicate AllAllowed(addrs: seq<SocketAddr>) {
    forall k :: 0 <= k < |addrs| ==> !IsForbiddenTarget(addrs[k].ip)
  }

  // ---- what a run may look like ----

  /** The event is what the world answered after `i` others. */
  ghost predicate Answered(world: World, i: nat, e: Event) {
    match e
    case Lookup(host, port, answer) => answer == world.lookup(i, host, port)
    case Dial(url, addr, reply) => reply == world.respond(i, url, addr)
  }

  ghost predicate Truthful(world: World, log: Log) {
    forall i :: 0 <= i < |log| ==> Answered(world, i, log[i])
  }

  /** A dial directly follows a lookup of its own host, and uses its first answer. */
  ghost predicate Pinned(log: Log, i: nat)
    requires i < |log| && log[i].Dial?
  {
    && i > 0 && log[i - 1].Lookup?
    && log[i].url.scheme == "https" && log[i].url.host == Some(log[i - 1].host)
    && PortOf(log[i].url) == log[i - 1].port
    && log[i - 1].answer.Some? && log[i - 1].answer.value != []
    && AllAllowed(log[i - 1].answer.value)
    && log[i].addr == log[i - 1].answer.value[0]
  }

  ghost predicate AllPinned(log: Log) {
    forall i :: 0 <= i < |log| && log[i].Dial? ==> Pinned(log, i)
  }

  /** The URLs dialled, in order, with their replies. */
  function Dials(log: Log): seq<(Url, Option<Response>)> {
    if log == [] then []
    else
      var last := log[|log| - 1];
      Dials(log[..|log| - 1]) + if last.Dial? then [(last.url, last.reply)] else []
  }

  /** `next` is where the redirect `reply` to `url` leads. */
  ghost predicate Follows(world: World, url: Url, reply: Option<Response>, next: Url) {
    && IsRedirect(reply) && reply.value.location.Some?
    && world.join(url, reply.value.location.value).Some?
    && next == Normalized(world.join(url, reply.value.location.value).value)
  }

  /** The dialled URLs are the normalized entry URL and then redirect targets. */
  ghost predicate Chained(world: World, entry: Url, dials: seq<(Url, Option<Response>)>) {
    && (dials != [] ==> dials[0].0 == Normalized(entry))
    && forall k :: 0 < k < |dials| ==> Follows(world, dials[k - 1].0, dials[k - 1].1, dials[k].0)
  }

  ghost predicate FixedPoints(dials: seq<(Url, Option<Response>)>) {
    forall k :: 0 <= k < |dials| ==> Normalized(dials[k].0) == dials[k].0
  }

  /** `current` is where the run stands: the entry, or the last redirect's target. */
  ghost predicate Current(world: World, entry: Url, dials: seq<(Url, Option<Response>)>, current: Url) {
    && Normalized(current) == current
    && if dials == [] then current == Normalized(entry)
       else Follows(world, dials[|dials| - 1].0, dials[|dials| - 1].1, current)
  }

  /** Nothing dialled yet, or the last event is a redirect within the hop limit. */
  ghost predicate MayGoOn(log: Log) {
    && |Dials(log)| <= MAX_REDIRECT_HOPS
    && (log == [] || (log[|log| - 1].Dial? && IsRedirect(log[|log| - 1].reply)))
  }

  /** How the run ended, read off the log; `OneEnding` says that `r` has no other possible value. */
  ghost predicate EndsWith(world: World, entry: Url, log: Log, r: Result<(Response, Url), FetchError>) {
    var n := |log|;
    match r
    case Ok((response, url)) =>
      n > 0 && log[n - 1].Dial? && log[n - 1].url == url && log[n - 1].reply == Some(response)
      && !IsRedirection(response.status)
    case Err(NotHttps) =>
      MayGoOn(log) && exists u :: Current(world, entry, Dials(log), u) && u.scheme != "https"
    case Err(NoHost) =>
      MayGoOn(log) && exists u :: Current(world, entry, Dials(log), u) && u.scheme == "https" && u.host.None?
    case Err(Unresolvable) =>
      n > 0 && log[n - 1].Lookup? && (log[n - 1].answer.None? || log[n - 1].answer.value == [])
    case Err(Forbidden) =>
      n > 0 && log[n - 1].Lookup? && log[n - 1].answer.Some? && !AllAllowed(log[n - 1].answer.value)
    case Err(FetchFailed) => n > 0 && log[n - 1].Dial? && log[n - 1].reply.None?
    case Err(TooManyRedirects) =>
      |Dials(log)| == MAX_REDIRECT_HOPS + 1 && log[n - 1].Dial? && IsRedirect(log[n - 1].reply)
    case Err(NoLocation) => n > 0 && MayGoOn(log) && log[n - 1].reply.value.location.None?
    case Err(BadLocation) =>
      n > 0 && MayGoOn(log) && log[n - 1].reply.value.location.Some?
      && world.join(log[n - 1].url, log[n - 1].reply.value.location.value).None?
  }

  /** What the log says about the last dial. */
  lemma LastDial(log: Log)
    requires log != [] && log[|log| - 1].Dial?
    ensures |Dials(log)| > 0
  {
  }

  lemma NoneAllowed()
    ensures AllAllowed([])
  {
  }

  lemma OneCurrent(world: World, entry: Url, dials: seq<(Url, Option<Response>)>, u: Url, v: Url)
    requires Current(world, entry, dials, u) && Current(world, entry, dials, v)
    ensures u == v
  {
    hide Normalized;
  }

  /** A log has one ending only. */
  lemma OneEnding(
    world: World, entry: Url, log: Log,
    r: Result<(Response, Url), FetchError>, r': Result<(Response, Url), FetchError>)
    requires EndsWith(world, entry, log, r) && EndsWith(world, entry, log, r')
    ensures r == r'
  {
    NoneAllowed();
    if log != [] && log[|log| - 1].Dial? {
      LastDial(log);
    }
    hide Dials, Normalized, AllAllowed, Follows;
    forall u, v | Current(world, entry, Dials(log), u) && Current(world, entry, Dials(log), v) ensures u == v {
      OneCurrent(world, entry, Dials(log), u, v);
    }
  }

  // ---- validate_extract_target ----

  method ValidateExtractTarget(world: World, log: Log, url: Url)
    returns (r: Result<SocketAddr, FetchError>, log': Log)
    requires Truthful(world, log)
    ensures Truthful(world, log')
    ensures log <= log' && |log'| <= |log| + 1 && (|log'| > |log| ==> log'[|log|].Lookup?)
    ensures url.scheme != "https" ==> r == Err(NotHttps) && log' == log
    ensures url.scheme == "https" && url.host.None? ==> r == Err(NoHost) && log' == log
    ensures url.scheme == "https" && url.host.Some? ==>
              && |log'| == |log| + 1
              && var e := log'[|log|];
                 e.host == url.host.value && e.port == PortOf(url)
                 && r == (if e.answer.None? then Err(Unresolvable)
                          else if !AllAllowed(e.answer.value) then Err(Forbidden)
                          else if e.answer.value == [] then Err(Unresolvable)
                          else Ok(e.answer.value[0]))
  {
    hide IsForbiddenTarget;
    log' := log;
    if url.scheme != "https" {
      return Err(NotHttps), log';
    }
    if url.host.None? {
      return Err(NoHost), log';
    }
    var answer := world.lookup(|log|, url.host.value, PortOf(url));
    log' := log + [Lookup(url.host.value, PortOf(url), answer)];
    if answer.None? {
      return Err(Unresolvable), log';
    }
    var candidates := answer.value;
    var resolved: Option<SocketAddr> := None;
    for i := 0 to |candidates|
      invariant forall k :: 0 <= k < i ==> !IsForbiddenTarget(candidates[k].ip)
      invariant resolved == if i == 0 then None else Some(candidates[0])
    {
      if IsForbiddenTarget(candidates[i].ip) {
        return Err(Forbidden), log';
      }
      if resolved.None? {
        resolved := Some(candidates[i]);
      }
    }
    if resolved.None? {
      return Err(Unresolvable), log';
    }
    return Ok(resolved.value), log';
  }

  // ---- fetch_extract_target ----

  /** All that a run keeps, whatever the world does. */
  ghost predicate Kept(world: World, entry: Url, log: Log) {
    Truthful(world, log) && AllPinned(log) && Chained(world, entry, Dials(log)) && FixedPoints(Dials(log))
  }

  lemma DialsSnoc(log: Log, e: Event)
    ensures Dials(log + [e]) == Dials(log) + if e.Dial? then [(e.url, e.reply)] else []
  {
    assert (log + [e])[..|log|] == log;
  }

  lemma LookupKeeps(world: World, entry: Url, log: Log, e: Event)
    requires Kept(world, entry, log) && e.Lookup? && Truthful(world, log + [e])
    ensures Kept(world, entry, log + [e]) && Dials(log + [e]) == Dials(log)
  {
    hide Dials, Chained, FixedPoints, Pinned;
    DialsSnoc(log, e);
    assert Dials(log) + [] == Dials(log);
    PinnedPrefix(log, e);
  }

  lemma PinnedPrefix(log: Log, e: Event)
    requires AllPinned(log)
    ensures forall i :: 0 <= i < |log| && log[i].Dial? ==> (log + [e])[i].Dial? && Pinned(log + [e], i)
  {
    hide AllAllowed;
    forall i | 0 <= i < |log| && log[i].Dial? ensures (log + [e])[i].Dial? && Pinned(log + [e], i) {
      assert Pinned(log, i);
    }
  }

  lemma DialKeeps(world: World, entry: Url, log: Log, e: Event)
    requires Kept(world, entry, log) && e.Dial? && Truthful(world, log + [e])
    requires Current(world, entry, Dials(log), e.url)
    requires Pinned(log + [e], |log|)
    ensures Kept(world, entry, log + [e])
    ensures Dials(log + [e]) == Dials(log) + [(e.url, e.reply)]
  {
    hide *;
    KeptMeans(world, entry, log);
    DialsSnoc(log, e);
    PinnedSnoc(log, e);
    ChainedSnoc(world, entry, Dials(log), e.url, e.reply);
    KeptBecause(world, entry, log + [e]);
  }

  lemma PinnedSnoc(log: Log, e: Event)
    requires AllPinned(log) && e.Dial? && Pinned(log + [e], |log|)
    ensures AllPinned(log + [e])
  {
    PinnedPrefix(log, e);
    hide Pinned;
  }

  lemma ChainedSnoc(
    world: World, entry: Url, dials: seq<(Url, Option<Response>)>, url: Url, reply: Option<Response>)
    requires Chained(world, entry, dials) && FixedPoints(dials) && Current(world, entry, dials, url)
    ensures Chained(world, entry, dials + [(url, reply)]) && FixedPoints(dials + [(url, reply)])
  {
    hide Follows, Normalized;
  }

  lemma KeptMeans(world: World, entry: Url, log: Log)
    requires Kept(world, entry, log)
    ensures Truthful(world, log) && AllPinned(log) && Chained(world, entry, Dials(log)) && FixedPoints(Dials(log))
  {
    hide Truthful, AllPinned, Chained, FixedPoints, Dials;
  }

  lemma KeptBecause(world: World, entry: Url, log: Log)
    requires Truthful(world, log) && AllPinned(log) && Chained(world, entry, Dials(log)) && FixedPoints(Dials(log))
    ensures Kept(world, entry, log)
  {
    hide Truthful, AllPinned, Chained, FixedPoints, Dials;
  }

  lemma NormalizedIsCurrent(url: Url)
    ensures Normalized(Normalized(url)) == Normalized(url)
  {
    NormalizeIsIdempotent(url);
  }

  /** Where the loop stands at its head: at `current`, after redirects only. */
  ghost predicate AtHead(world: World, entry: Url, log: Log, current: Url, redirectsFollowed: nat) {
    && redirectsFollowed == |Dials(log)| <= MAX_REDIRECT_HOPS
    && Kept(world, entry, log) && Current(world, entry, Dials(log), current)
    && (log == [] || (log[|log| - 1].Dial? && IsRedirect(log[|log| - 1].reply)))
  }

  /** What is promised of a finished run. */
  ghost predicate Finished(world: World, entry: Url, log: Log, r: Result<(Response, Url), FetchError>) {
    Kept(world, entry, log) && |Dials(log)| <= MAX_REDIRECT_HOPS + 1 && EndsWith(world, entry, log, r)
  }

  /** The checks on the target's scheme and host fail before any lookup. */
  lemma EndsUnasked(world: World, entry: Url, log: Log, current: Url, n: nat)
    requires AtHead(world, entry, log, current, n)
    ensures current.scheme != "https" ==> Finished(world, entry, log, Err(NotHttps))
    ensures current.scheme == "https" && current.host.None? ==> Finished(world, entry, log, Err(NoHost))
  {
    hide Dials, Kept, Current;
  }

  /** The endings read off a last lookup. */
  lemma EndsWithLookup(world: World, entry: Url, log: Log)
    requires log != [] && log[|log| - 1].Lookup?
    ensures var answer := log[|log| - 1].answer;
            && (answer.None? || answer.value == [] ==> EndsWith(world, entry, log, Err(Unresolvable)))
            && (answer.Some? && !AllAllowed(answer.value) ==> EndsWith(world, entry, log, Err(Forbidden)))
  {
    hide Dials, Current, AllAllowed;
  }

  lemma FinishedBecause(world: World, entry: Url, log: Log, r: Result<(Response, Url), FetchError>)
    requires Kept(world, entry, log) && |Dials(log)| <= MAX_REDIRECT_HOPS + 1 && EndsWith(world, entry, log, r)
    ensures Finished(world, entry, log, r)
  {
    hide Kept, Dials, EndsWith;
  }

  /** The lookup of the round: the run ends with it, or the dial follows. */
  lemma AfterLookup(world: World, entry: Url, log: Log, current: Url, n: nat, e: Event)
    requires AtHead(world, entry, log, current, n) && e.Lookup? && Truthful(world, log + [e])
    ensures Kept(world, entry, log + [e]) && Dials(log + [e]) == Dials(log)
    ensures e.answer.None? || e.answer.value == [] ==> Finished(world, entry, log + [e], Err(Unresolvable))
    ensures e.answer.Some? && !AllAllowed(e.answer.value) ==> Finished(world, entry, log + [e], Err(Forbidden))
  {
    HeadMeans(world, entry, log, current, n);
    assert |Dials(log)| <= MAX_REDIRECT_HOPS + 1;
    hide AtHead, Finished, Kept, Dials, Current, AllAllowed, EndsWith, Truthful;
    LookupKeeps(world, entry, log, e);
    var log1 := log + [e];
    assert log1[|log1| - 1] == e;
    EndsWithLookup(world, entry, log1);
    if e.answer.None? || e.answer.value == [] {
      FinishedBecause(world, entry, log1, Err(Unresolvable));
    }
    if e.answer.Some? && !AllAllowed(e.answer.value) {
      FinishedBecause(world, entry, log1, Err(Forbidden));
    }
  }

  /** The dial of the round. */
  lemma AfterDial(world: World, entry: Url, log: Log, current: Url, n: nat, dial: Event)
    requires n == |Dials(log)| <= MAX_REDIRECT_HOPS && Kept(world, entry, log)
    requires dial.Dial? && dial.url == current && Current(world, entry, Dials(log), current)
    requires Truthful(world, log + [dial]) && Pinned(log + [dial], |log|)
    ensures Kept(world, entry, log + [dial])
    ensures Dials(log + [dial]) == Dials(log) + [(current, dial.reply)]
    ensures dial.reply.None? ==> Finished(world, entry, log + [dial], Err(FetchFailed))
    ensures dial.reply.Some? && !IsRedirection(dial.reply.value.status) ==>
              Finished(world, entry, log + [dial], Ok((dial.reply.value, current)))
    ensures IsRedirect(dial.reply) && n >= MAX_REDIRECT_HOPS ==>
              Finished(world, entry, log + [dial], Err(TooManyRedirects))
  {
    DialKeeps(world, entry, log, dial);
    var log' := log + [dial];
    assert log'[|log'| - 1] == dial;
    EndsWithDial(world, entry, log', n);
    hide Dials, Kept, Current, Pinned, Truthful, EndsWith, IsRedirect;
  }

  /** The endings read off a last dial. */
  lemma EndsWithDial(world: World, entry: Url, log: Log, n: nat)
    requires log != [] && log[|log| - 1].Dial? && |Dials(log)| == n + 1 <= MAX_REDIRECT_HOPS + 1
    ensures var dial := log[|log| - 1];
            && (dial.reply.None? ==> EndsWith(world, entry, log, Err(FetchFailed)))
            && (dial.reply.Some? && !IsRedirection(dial.reply.value.status) ==>
                  EndsWith(world, entry, log, Ok((dial.reply.value, dial.url))))
            && (IsRedirect(dial.reply) && n >= MAX_REDIRECT_HOPS ==>
                  EndsWith(world, entry, log, Err(TooManyRedirects)))
  {
    hide Dials, Current, AllAllowed;
  }

  /** The endings read off a last redirect. */
  lemma EndsWithRedirect(world: World, entry: Url, log: Log, current: Url, reply: Response)
    requires |Dials(log)| <= MAX_REDIRECT_HOPS
    requires log != [] && log[|log| - 1].Dial? && log[|log| - 1].url == current
    requires log[|log| - 1].reply == Some(reply) && IsRedirection(reply.status)
    ensures reply.location.None? ==> EndsWith(world, entry, log, Err(NoLocation))
    ensures reply.location.Some? && world.join(current, reply.location.value).None? ==>
              EndsWith(world, entry, log, Err(BadLocation))
  {
    hide Dials, Current, AllAllowed;
  }

  /** Back to the head of the loop. */
  lemma HeadAgain(world: World, entry: Url, log: Log, current: Url, n: nat, reply: Response)
    requires Kept(world, entry, log) && |Dials(log)| == n + 1 <= MAX_REDIRECT_HOPS
    requires log != [] && log[|log| - 1].Dial? && log[|log| - 1].reply == Some(reply) && IsRedirection(reply.status)
    requires Dials(log)[n] == (current, Some(reply)) && reply.location.Some?
    requires world.join(current, reply.location.value).Some?
    ensures AtHead(world, entry, log, Normalized(world.join(current, reply.location.value).value), n + 1)
  {
    var joined := world.join(current, reply.location.value).value;
    NormalizedIsCurrent(joined);
    Redirected(world, current, Some(reply), Normalized(joined));
    hide Dials, Kept, Normalized, Follows;
  }

  /** The redirect of the round: it leads nowhere, or back to the head of the loop. */
  lemma AfterRedirect(world: World, entry: Url, log: Log, current: Url, n: nat, reply: Response)
    requires Kept(world, entry, log) && |Dials(log)| == n + 1 <= MAX_REDIRECT_HOPS
    requires log != [] && log[|log| - 1].Dial? && log[|log| - 1].url == current
    requires log[|log| - 1].reply == Some(reply) && IsRedirection(reply.status)
    requires Dials(log)[n] == (current, Some(reply))
    ensures reply.location.None? ==> Finished(world, entry, log, Err(NoLocation))
    ensures reply.location.Some? ==>
              var joined := world.join(current, reply.location.value);
              if joined.None? then Finished(world, entry, log, Err(BadLocation))
              else AtHead(world, entry, log, Normalized(joined.value), n + 1)
  {
    hide Dials, Kept, AtHead, Finished, EndsWith, Normalized;
    EndsWithRedirect(world, entry, log, current, reply);
    if reply.location.None? {
      FinishedBecause(world, entry, log, Err(NoLocation));
    } else if world.join(current, reply.location.value).None? {
      FinishedBecause(world, entry, log, Err(BadLocation));
    } else {
      HeadAgain(world, entry, log, current, n, reply);
    }
  }

  lemma FinishedMeans(world: World, entry: Url, log: Log, r: Result<(Response, Url), FetchError>)
    requires Finished(world, entry, log, r)
    ensures Truthful(world, log) && AllPinned(log) && Chained(world, entry, Dials(log)) && FixedPoints(Dials(log))
    ensures |Dials(log)| <= MAX_REDIRECT_HOPS + 1 && EndsWith(world, entry, log, r)
  {
    hide Truthful, AllPinned, Chained, FixedPoints, EndsWith, Dials;
  }

  lemma HeadMeans(world: World, entry: Url, log: Log, current: Url, n: nat)
    requires AtHead(world, entry, log, current, n)
    ensures Truthful(world, log) && n == |Dials(log)| <= MAX_REDIRECT_HOPS && Kept(world, entry, log)
    ensures Current(world, entry, Dials(log), current)
  {
    hide Truthful, Dials, Current, AllPinned, Chained, FixedPoints;
  }

  lemma Start(world: World, url: Url)
    ensures AtHead(world, url, [], Normalized(url), 0)
  {
    NormalizedIsCurrent(url);
    hide Normalized;
  }

  /** `Dial` right behind its own lookup, to that lookup's first answer. */
  lemma DialIsPinned(log: Log, lookup: Event, dial: Event)
    requires lookup.Lookup? && dial.Dial? && lookup.answer.Some? && lookup.answer.value != []
    requires AllAllowed(lookup.answer.value) && dial.addr == lookup.answer.value[0]
    requires dial.url.scheme == "https" && dial.url.host == Some(lookup.host) && lookup.port == PortOf(dial.url)
    ensures Pinned(log + [lookup] + [dial], |log| + 1)
  {
    hide AllAllowed;
  }

  lemma TruthfulSnoc(world: World, log: Log, e: Event)
    requires Truthful(world, log) && Answered(world, |log|, e)
    ensures Truthful(world, log + [e])
  {
    hide Answered;
  }

  /** The round up to the dial: an error ends the run, otherwise the dial is pinned. */
  lemma AfterValidation(
    world: World, entry: Url, log: Log, current: Url, n: nat, validated: Result<SocketAddr, FetchError>, log1: Log)
    requires AtHead(world, entry, log, current, n) && Truthful(world, log1)
    requires if current.scheme != "https" then validated == Err(NotHttps) && log1 == log
             else if current.host.None? then validated == Err(NoHost) && log1 == log
             else |log1| == |log| + 1 && log <= log1 && log1[|log|].Lookup?
                  && var e := log1[|log|];
                     e.host == current.host.value && e.port == PortOf(current)
                     && validated == (if e.answer.None? then Err(Unresolvable)
                                      else if !AllAllowed(e.answer.value) then Err(Forbidden)
                                      else if e.answer.value == [] then Err(Unresolvable)
                                      else Ok(e.answer.value[0]))
    ensures validated.Err? ==> Finished(world, entry, log1, Err(validated.error))
    ensures validated.Ok? ==>
              && Kept(world, entry, log1) && |Dials(log1)| == n <= MAX_REDIRECT_HOPS
              && Current(world, entry, Dials(log1), current)
              && forall reply :: Pinned(log1 + [Dial(current, validated.value, reply)], |log1|)
  {
    hide *;
    HeadMeans(world, entry, log, current, n);
    EndsUnasked(world, entry, log, current, n);
    if current.scheme == "https" && current.host.Some? {
      var e := log1[|log|];
      assert log1 == log + [e];
      AfterLookup(world, entry, log, current, n, e);
      if validated.Ok? {
        forall reply ensures Pinned(log1 + [Dial(current, validated.value, reply)], |log1|) {
          DialIsPinned(log, e, Dial(current, validated.value, reply));
        }
      }
    }
  }

  method FetchExtractTarget(world: World, url: Url)
    returns (r: Result<(Response, Url), FetchError>, log: Log)
    ensures Truthful(world, log)
    ensures AllPinned(log)
    ensures Chained(world, url, Dials(log))
    ensures FixedPoints(Dials(log))
    ensures |Dials(log)| <= MAX_REDIRECT_HOPS + 1
    ensures EndsWith(world, url, log, r)
  {
    hide AtHead, Finished, Kept, Current, Truthful, AllPinned, Pinned, Chained, FixedPoints, EndsWith, Dials,
         Normalized, AllAllowed, PortOf;
    log := [];
    Start(world, url);
    var current := NormalizeExtractUrl(url);
    var redirectsFollowed := 0;
    while true
      invariant 0 <= redirectsFollowed <= MAX_REDIRECT_HOPS
      invariant AtHead(world, url, log, current, redirectsFollowed)
      decreases MAX_REDIRECT_HOPS - redirectsFollowed
    {
      HeadMeans(world, url, log, current, redirectsFollowed);
      var validated, log1 := ValidateExtractTarget(world, log, current);
      AfterValidation(world, url, log, current, redirectsFollowed, validated, log1);
      if validated.Err? {
        r, log := Err(validated.error), log1;
        break;
      }
      var reply := world.respond(|log1|, current, validated.value);
      var dial := Dial(current, validated.value, reply);
      log := log1 + [dial];
      KeptIsTruthful(world, url, log1);
      TruthfulSnoc(world, log1, dial);
      AfterDial(world, url, log1, current, redirectsFollowed, dial);
      if reply.None? {
        r := Err(FetchFailed);
        break;
      }
      if !IsRedirection(reply.value.status) {
        r := Ok((reply.value, current));
        break;
      }
      if redirectsFollowed >= MAX_REDIRECT_HOPS {
        r := Err(TooManyRedirects);
        break;
      }
      AfterRedirect(world, url, log, current, redirectsFollowed, reply.value);
      if reply.value.location.None? {
        r := Err(NoLocation);
        break;
      }
      var joined := world.join(current, reply.value.location.value);
      if joined.None? {
        r := Err(BadLocation);
        break;
      }
      current := NormalizeExtractUrl(joined.value);
      redirectsFollowed := redirectsFollowed + 1;
    }
    FinishedMeans(world, url, log, r);
  }

  lemma KeptIsTruthful(world: World, entry: Url, log: Log)
    requires Kept(world, entry, log)
    ensures Truthful(world, log)
  {
  }

  lemma Redirected(world: World, url: Url, reply: Option<Response>, next: Url)
    requires IsRedirect(reply) && reply.value.location.Some?
    requires world.join(url, reply.value.location.value).Some?
    requires next == Normalized(world.join(url, reply.value.location.value).value)
    ensures Follows(world, url, reply, next)
  {
  }

  // ---- what the log says about addresses ----

  /**
   In every log a fetch leaves, no dialled address lies in a forbidden block, and
   neither does any other answer of the lookup it came from.
   */
  lemma DialledAddressesAreAllowed(log: Log, i: nat)
    requires AllPinned(log) && i < |log| && log[i].Dial?
    ensures !IsForbiddenTarget(log[i].addr.ip)
    ensures log[i].addr.ip.V4? ==> !InBlocks(Number(log[i].addr.ip), BLOCKS_V4)
    ensures log[i].addr.ip.V6? ==> !InBlocks(Number(log[i].addr.ip), BLOCKS_V6)
    ensures forall a :: a in log[i - 1].answer.value ==> !IsForbiddenTarget(a.ip)
  {
    hide IsForbiddenTarget, InBlocks, Number;
    assert Pinned(log, i);
    assert AllAllowed(log[i - 1].answer.value);
    var ip := log[i].addr.ip;
    if ip.V4? {
      ForbiddenV4IsBlocks(ip);
    } else {
      ForbiddenV6IsBlocks(ip);
    }
  }

  /** Every reply but the last was a redirect. */
  lemma EarlierRepliesAreRedirects(world: World, entry: Url, log: Log, k: nat)
    requires Chained(world, entry, Dials(log)) && k + 1 < |Dials(log)|
    ensures IsRedirect(Dials(log)[k].1)
  {
    var dials := Dials(log);
    assert Follows(world, dials[k + 1 - 1].0, dials[k + 1 - 1].1, dials[k + 1].0);
  }

  /**
   The log in numbers: at most 6 dials, a seventh is never tried; every lookup for
   the URL's port or 443; every reply that was followed has status 300 to 399, and
   the one returned has not.
   */
  lemma FetchInNumbers(world: World, entry: Url, log: Log, r: Result<(Response, Url), FetchError>)
    requires AllPinned(log) && Chained(world, entry, Dials(log)) && |Dials(log)| <= MAX_REDIRECT_HOPS + 1
    requires EndsWith(world, entry, log, r)
    ensures |Dials(log)| <= 6 && (r == Err(TooManyRedirects) ==> |Dials(log)| == 6)
    ensures forall i :: 0 <= i < |log| && log[i].Dial? ==>
              && i > 0 && log[i - 1].Lookup?
              && log[i - 1].port == (if log[i].url.port.Some? then log[i].url.port.value else 443)
    ensures forall k :: 0 <= k && k + 1 < |Dials(log)| ==>
              Dials(log)[k].1.Some? && 300 <= Dials(log)[k].1.value.status <= 399
    ensures r.Ok? ==> !(300 <= r.value.0.status <= 399)
  {
    hide Dials, AllAllowed, Normalized;
    forall i | 0 <= i < |log| && log[i].Dial?
      ensures i > 0 && log[i - 1].Lookup?
              && log[i - 1].port == (if log[i].url.port.Some? then log[i].url.port.value else 443)
    {
      assert Pinned(log, i);
    }
    forall k | 0 <= k && k + 1 < |Dials(log)|
      ensures Dials(log)[k].1.Some? && 300 <= Dials(log)[k].1.value.status <= 399
    {
      EarlierRepliesAreRedirects(world, entry, log, k);
    }
  }
}
