/**
 src/cache/redis.rs:104-260: the lazily connecting cache. The class is the
 state behind the lock, one method per critical section; the rest is every
 interleaving of tasks over those sections, with failures, invalidations,
 timeouts and cancellation at any await.
 */
module LazyRedis {
  import opened Wrappers

  /** Milliseconds on a monotone clock. */
  type Time = nat
  type Handle = nat
  type TaskId = nat

  const RECONNECT_MIN_INTERVAL: Time := 10_000

  datatype LazyState = LazyState(conn: Option<Handle>, lastAttempt: Option<Time>)

  datatype Verdict = Use(handle: Handle) | Throttled | MustConnect

  /** The test made under either lock. */
  function Check(s: LazyState, now: Time): Verdict {
    if s.conn.Some? then Use(s.conn.value)
    else if s.lastAttempt.Some? && now < s.lastAttempt.value + RECONNECT_MIN_INTERVAL then Throttled
    else MustConnect
  }

  /** What `ensure_conn` hands a task that meets no other, and the state it leaves. */
  function Ensured(s: LazyState, now: Time, stamp: Time, made: Option<Handle>): (Option<Handle>, LazyState) {
    match Check(s, now)
    case Use(h) => (Some(h), s)
    case Throttled => (None, s)
    case MustConnect => (made, LazyState(made, Some(stamp)))
  }

  /** In milliseconds: a handle is used, otherwise an attempt is due at first and 10 000 after the last. */
  lemma CheckInNumbers(s: LazyState, now: Time)
    ensures s.conn.Some? ==> Check(s, now) == Use(s.conn.value)
    ensures s.conn.None? ==>
              Check(s, now) == if s.lastAttempt.None? || now >= s.lastAttempt.value + 10_000 then MustConnect
                               else Throttled
  {
  }

  // ---- the critical sections ----

  class LazyRedisCache {
    var conn: Option<Handle>
    var lastAttempt: Option<Time>

    function State(): LazyState
      reads this
    {
      LazyState(conn, lastAttempt)
    }

    constructor ()
      ensures State() == LazyState(None, None)
    {
      conn := None;
      lastAttempt := None;
    }

    /** Under the read lock. */
    method FastPath(now: Time) returns (v: Verdict)
      ensures v == Check(State(), now)
    {
      if conn.Some? {
        return Use(conn.value);
      }
      if lastAttempt.Some? {
        if now < lastAttempt.value + RECONNECT_MIN_INTERVAL {
          return Throttled;
        }
      }
      return MustConnect;
    }

    /** Under the write lock; `now` and `stamp` are the two clock readings. */
    method Recheck(now: Time, stamp: Time) returns (v: Verdict)
      requires now <= stamp
      modifies this
      ensures v == Check(old(State()), now)
      ensures State() == if v.MustConnect? then old(State()).(lastAttempt := Some(stamp)) else old(State())
    {
      if conn.Some? {
        return Use(conn.value);
      }
      if lastAttempt.Some? {
        if now < lastAttempt.value + RECONNECT_MIN_INTERVAL {
          return Throttled;
        }
      }
      lastAttempt := Some(stamp);
      return MustConnect;
    }

    /** The connection attempt has returned, or timed out. */
    method Finish(made: Option<Handle>) returns (r: Option<Handle>)
      modifies this
      ensures r == made
      ensures State() == if made.Some? then old(State()).(conn := made) else old(State())
    {
      if made.Some? {
        conn := made;
      }
      return made;
    }

    method Invalidate()
      modifies this
      ensures State() == old(State()).(conn := None)
    {
      conn := None;
    }

    /** `ensure_conn` of a task that meets no other. */
    method EnsureConn(now: Time, stamp: Time, made: Option<Handle>) returns (r: Option<Handle>)
      requires now <= stamp
      modifies this
      ensures (r, State()) == Ensured(old(State()), now, stamp, made)
    {
      var v := FastPath(now);
      if v.Use? {
        return Some(v.handle);
      }
      if v.Throttled? {
        return None;
      }
      v := Recheck(now, stamp);
      r := Finish(made);
    }
  }

  // ---- interleavings ----

  /** Where a task stands between two atomic sections. */
  datatype Phase = Idle | AtWriteLock | Connecting | Using(handle: Handle) | AtInvalidate(failed: Handle)

  /** A connection attempt; `end` when it was over, `made` what it made. */
  datatype Attempt = Attempt(task: TaskId, start: Time, end: Option<Time>, made: Option<Handle>)

  datatype System = System(
    now: Time, cache: LazyState, writer: Option<TaskId>, phases: map<TaskId, Phase>, attempts: seq<Attempt>)

  datatype Action =
    | Tick(to: Time)
    | Begin(task: TaskId)
    | Enter(task: TaskId, stamp: Time)
    | Connected(task: TaskId, handle: Handle)
    | ConnectFailed(task: TaskId)
    | OpDone(task: TaskId)
    | OpFailed(task: TaskId)
    | DropConn(task: TaskId)
    | Cancel(task: TaskId)

  const INITIAL := System(0, LazyState(None, None), None, map[], [])

  function PhaseOf(s: System, t: TaskId): Phase {
    if t in s.phases then s.phases[t] else Idle
  }

  function Move(s: System, t: TaskId, p: Phase): System {
    s.(phases := s.phases[t := p])
  }

  /** Handles made by successful attempts. */
  ghost predicate IsMade(attempts: seq<Attempt>, h: Handle) {
    exists i :: 0 <= i < |attempts| && attempts[i].made == Some(h)
  }

  /** The handle made by the latest successful attempt. */
  function LastMade(attempts: seq<Attempt>): Option<Handle> {
    if attempts == [] then None
    else if attempts[|attempts| - 1].made.Some? then attempts[|attempts| - 1].made
    else LastMade(attempts[..|attempts| - 1])
  }

  ghost predicate Enabled(s: System, a: Action) {
    match a
    case Tick(to) => s.now <= to
    case Begin(t) => PhaseOf(s, t).Idle? && s.writer.None?
    case Enter(t, stamp) => PhaseOf(s, t).AtWriteLock? && s.writer.None? && s.now <= stamp
    case Connected(t, h) => PhaseOf(s, t).Connecting? && !IsMade(s.attempts, h)
    case ConnectFailed(t) => PhaseOf(s, t).Connecting?
    case OpDone(t) => PhaseOf(s, t).Using?
    case OpFailed(t) => PhaseOf(s, t).Using?
    case DropConn(t) => PhaseOf(s, t).AtInvalidate? && s.writer.None?
    case Cancel(t) => !PhaseOf(s, t).Idle?
  }

  /** The running attempt is over. */
  function Close(attempts: seq<Attempt>, now: Time, made: Option<Handle>): seq<Attempt> {
    if attempts == [] then []
    else
      var n := |attempts| - 1;
      attempts[..n] + [attempts[n].(end := Some(now), made := made)]
  }

  function Apply(s: System, a: Action): System {
    match a
    case Tick(to) => s.(now := to)
    case Begin(t) =>
      (match Check(s.cache, s.now)
       case Use(h) => Move(s, t, Using(h))
       case Throttled => s
       case MustConnect => Move(s, t, AtWriteLock))
    case Enter(t, stamp) =>
      (match Check(s.cache, s.now)
       case Use(h) => Move(s, t, Using(h))
       case Throttled => Move(s, t, Idle)
       case MustConnect =>
         Move(s.(now := stamp,
                 cache := s.cache.(lastAttempt := Some(stamp)),
                 writer := Some(t),
                 attempts := s.attempts + [Attempt(t, stamp, None, None)]),
              t, Connecting))
    case Connected(t, h) =>
      Move(s.(cache := s.cache.(conn := Some(h)),
              writer := None,
              attempts := Close(s.attempts, s.now, Some(h))),
           t, Using(h))
    case ConnectFailed(t) =>
      Move(s.(writer := None, attempts := Close(s.attempts, s.now, None)), t, Idle)
    case OpDone(t) => Move(s, t, Idle)
    case OpFailed(t) =>
      if PhaseOf(s, t).Using? then Move(s, t, AtInvalidate(PhaseOf(s, t).handle)) else s
    case DropConn(t) => Move(s.(cache := s.cache.(conn := None)), t, Idle)
    case Cancel(t) =>
      if PhaseOf(s, t).Connecting? then
        Move(s.(writer := None, attempts := Close(s.attempts, s.now, None)), t, Idle)
      else Move(s, t, Idle)
  }

  /** The state after a run, action by action. */
  function After(actions: seq<Action>): System {
    if actions == [] then INITIAL
    else Apply(After(actions[..|actions| - 1]), actions[|actions| - 1])
  }

  /** Every action was enabled when it was taken. */
  ghost predicate IsRun(actions: seq<Action>) {
    actions != [] ==>
      var n := |actions| - 1;
      IsRun(actions[..n]) && Enabled(After(actions[..n]), actions[n])
  }

  // ---- a task that meets no other ----

  /** `ensure_conn` of one task, action by action. */
  function LoneCall(s: System, t: TaskId, stamp: Time, made: Option<Handle>): seq<Action> {
    if !Check(s.cache, s.now).MustConnect? then [Begin(t)]
    else [Begin(t), Enter(t, stamp), if made.Some? then Connected(t, made.value) else ConnectFailed(t)]
  }

  function ApplyAll(s: System, actions: seq<Action>): System
    decreases |actions|
  {
    if actions == [] then s else ApplyAll(Apply(s, actions[0]), actions[1..])
  }

  ghost predicate EnabledAll(s: System, actions: seq<Action>)
    decreases |actions|
  {
    actions != [] ==> Enabled(s, actions[0]) && EnabledAll(Apply(s, actions[0]), actions[1..])
  }

  lemma ThenRest(s: System, a: Action, rest: seq<Action>)
    ensures ApplyAll(s, [a] + rest) == ApplyAll(Apply(s, a), rest)
    ensures EnabledAll(s, [a] + rest) <==> Enabled(s, a) && EnabledAll(Apply(s, a), rest)
    ensures ApplyAll(s, []) == s && EnabledAll(s, [])
  {
    hide Apply, Enabled;
    assert ([a] + rest)[1..] == rest;
  }

  /** Its sections in a row leave the state and the handle that the class method promises. */
  lemma LoneCallIsEnsureConn(s: System, t: TaskId, stamp: Time, made: Option<Handle>)
    requires PhaseOf(s, t).Idle? && s.writer.None? && s.now <= stamp
    requires made.Some? ==> !IsMade(s.attempts, made.value)
    ensures var actions := LoneCall(s, t, stamp, made); var s' := ApplyAll(s, actions);
            var (r, state) := Ensured(s.cache, s.now, stamp, made);
            && EnabledAll(s, actions) && s'.cache == state && s'.writer.None?
            && PhaseOf(s', t) == if r.Some? then Using(r.value) else Idle
  {
    if Check(s.cache, s.now).MustConnect? {
      LoneConnect(s, t, stamp, made);
    } else {
      ThenRest(s, Begin(t), []);
      hide ApplyAll, EnabledAll, IsMade, Close;
      assert LoneCall(s, t, stamp, made) == [Begin(t)] + [];
    }
  }

  lemma LoneConnect(s: System, t: TaskId, stamp: Time, made: Option<Handle>)
    requires PhaseOf(s, t).Idle? && s.writer.None? && s.now <= stamp && Check(s.cache, s.now).MustConnect?
    requires made.Some? ==> !IsMade(s.attempts, made.value)
    ensures var actions := LoneCall(s, t, stamp, made); var s' := ApplyAll(s, actions);
            && EnabledAll(s, actions) && s'.cache == LazyState(made, Some(stamp)) && s'.writer.None?
            && PhaseOf(s', t) == if made.Some? then Using(made.value) else Idle
  {
    var end := if made.Some? then Connected(t, made.value) else ConnectFailed(t);
    var s1 := Apply(s, Begin(t));
    var s2 := Apply(s1, Enter(t, stamp));
    ThenRest(s, Begin(t), [Enter(t, stamp), end]);
    ThenRest(s1, Enter(t, stamp), [end]);
    ThenRest(s2, end, []);
    hide ApplyAll, EnabledAll, Close;
    assert [Begin(t)] + [Enter(t, stamp), end] == LoneCall(s, t, stamp, made);
    assert [Enter(t, stamp)] + [end] == [Enter(t, stamp), end] && [end] + [] == [end];
    NotYetMade(s.attempts, Attempt(t, stamp, None, None), made);
  }

  lemma NotYetMade(attempts: seq<Attempt>, a: Attempt, made: Option<Handle>)
    requires made.Some? ==> !IsMade(attempts, made.value)
    requires a.made.None?
    ensures made.Some? ==> !IsMade(attempts + [a], made.value)
  {
  }

  /** A disconnected cache tries again as soon as it may: whoever asks then gets to connect. */
  lemma AttemptsResume(s: System, t: TaskId, stamp: Time)
    requires PhaseOf(s, t).Idle? && s.writer.None? && s.cache.conn.None? && s.now <= stamp
    ensures var s1 := Apply(s, Begin(t)); var s2 := Apply(s1, Enter(t, stamp));
            Enabled(s, Begin(t)) &&
            if s.cache.lastAttempt.None? || s.now >= s.cache.lastAttempt.value + 10_000 then
              Enabled(s1, Enter(t, stamp)) && PhaseOf(s2, t).Connecting? && s2.cache.lastAttempt == Some(stamp)
            else s1 == s
  {
    CheckInNumbers(s.cache, s.now);
    hide Check, Close;
  }

  // ---- the invariant ----

  /** Attempts never overlap, and start an interval apart. */
  ghost predicate Spaced(attempts: seq<Attempt>) {
    forall i, j :: 0 <= i < j < |attempts| ==>
      && attempts[i].start + RECONNECT_MIN_INTERVAL <= attempts[j].start
      && attempts[i].end.Some? && attempts[i].end.value <= attempts[j].start
  }

  ghost predicate Dated(attempts: seq<Attempt>, now: Time) {
    forall i :: 0 <= i < |attempts| ==>
      && attempts[i].start <= now
      && (attempts[i].end.Some? ==> attempts[i].start <= attempts[i].end.value <= now)
      && (attempts[i].made.Some? ==> attempts[i].end.Some?)
  }

  /** The write lock is held exactly by the task whose attempt is open. */
  ghost predicate LockOk(s: System) {
    && (forall t: TaskId :: PhaseOf(s, t).Connecting? <==> s.writer == Some(t))
    && (s.writer.Some? ==>
          s.cache.conn.None? && s.attempts != []
          && s.attempts[|s.attempts| - 1].task == s.writer.value)
    && (s.attempts != [] ==> (s.attempts[|s.attempts| - 1].end.None? <==> s.writer.Some?))
  }

  ghost predicate StampOk(s: System) {
    s.cache.lastAttempt == if s.attempts == [] then None else Some(s.attempts[|s.attempts| - 1].start)
  }

  ghost predicate HandlesOk(s: System) {
    && (s.cache.conn.Some? ==> s.cache.conn == LastMade(s.attempts))
    && (forall t: TaskId :: PhaseOf(s, t).Using? ==> IsMade(s.attempts, PhaseOf(s, t).handle))
    && (forall t: TaskId :: PhaseOf(s, t).AtInvalidate? ==> IsMade(s.attempts, PhaseOf(s, t).failed))
  }

  ghost predicate Inv(s: System) {
    Spaced(s.attempts) && Dated(s.attempts, s.now) && LockOk(s) && StampOk(s) && HandlesOk(s)
  }

  // ---- attempts ----

  lemma {:induction false} LastMadeIsMade(attempts: seq<Attempt>)
    requires LastMade(attempts).Some?
    ensures IsMade(attempts, LastMade(attempts).value)
    decreases |attempts|
  {
    var n := |attempts| - 1;
    if attempts[n].made.None? {
      LastMadeIsMade(attempts[..n]);
      var i :| 0 <= i < |attempts[..n]| && attempts[..n][i].made == LastMade(attempts[..n]);
      assert attempts[i].made == LastMade(attempts);
    }
  }

  lemma CloseKeeps(attempts: seq<Attempt>, now: Time, made: Option<Handle>)
    requires attempts != [] && Spaced(attempts) && Dated(attempts, now)
    requires attempts[|attempts| - 1].end.None?
    ensures var c := Close(attempts, now, made); var n := |attempts| - 1;
            && |c| == n + 1 && c[..n] == attempts[..n] && c[n].start == attempts[n].start
            && c[n].end == Some(now) && c[n].made == made && c[n].task == attempts[n].task
            && Spaced(c) && Dated(c, now)
  {
    var c := Close(attempts, now, made);
    var n := |attempts| - 1;
    assert forall i :: 0 <= i < n ==> c[i] == attempts[i];
    hide Close;
  }

  lemma CloseKeepsMade(attempts: seq<Attempt>, now: Time, made: Option<Handle>)
    requires attempts != [] && attempts[|attempts| - 1].made.None?
    ensures forall h: Handle :: IsMade(attempts, h) ==> IsMade(Close(attempts, now, made), h)
    ensures made.Some? ==> IsMade(Close(attempts, now, made), made.value) && LastMade(Close(attempts, now, made)) == made
    ensures made.None? ==> LastMade(Close(attempts, now, made)) == LastMade(attempts)
  {
    var c := Close(attempts, now, made);
    var n := |attempts| - 1;
    assert c[n].made == made && c[..n] == attempts[..n];
    forall h: Handle | IsMade(attempts, h) ensures IsMade(c, h) {
      var i :| 0 <= i < |attempts| && attempts[i].made == Some(h);
      assert c[i].made == Some(h);
    }
  }

  lemma OpenKeepsMade(attempts: seq<Attempt>, a: Attempt)
    requires a.made.None?
    ensures LastMade(attempts + [a]) == LastMade(attempts)
    ensures forall h: Handle :: IsMade(attempts, h) ==> IsMade(attempts + [a], h)
  {
    var c := attempts + [a];
    assert c[..|attempts|] == attempts;
    forall h: Handle | IsMade(attempts, h) ensures IsMade(c, h) {
      var i :| 0 <= i < |attempts| && attempts[i].made == Some(h);
      assert c[i].made == Some(h);
    }
  }

  lemma OpenKeepsSpaced(attempts: seq<Attempt>, a: Attempt)
    requires Spaced(attempts)
    requires attempts != [] ==>
               attempts[|attempts| - 1].end.Some? && attempts[|attempts| - 1].end.value <= a.start
               && attempts[|attempts| - 1].start + RECONNECT_MIN_INTERVAL <= a.start
    ensures Spaced(attempts + [a])
  {
    var c := attempts + [a];
    assert forall i :: 0 <= i < |attempts| ==> c[i] == attempts[i];
    assert c[|attempts|] == a;
  }

  lemma OpenKeepsDated(attempts: seq<Attempt>, a: Attempt, now: Time)
    requires Dated(attempts, now) && now <= a.start && a.end.None? && a.made.None?
    ensures Dated(attempts + [a], a.start)
  {
    var c := attempts + [a];
    assert forall i :: 0 <= i < |attempts| ==> c[i] == attempts[i];
  }

  lemma OpenKeeps(attempts: seq<Attempt>, t: TaskId, now: Time, stamp: Time)
    requires Spaced(attempts) && Dated(attempts, now) && now <= stamp
    requires attempts != [] ==>
               attempts[|attempts| - 1].end.Some?
               && attempts[|attempts| - 1].start + RECONNECT_MIN_INTERVAL <= stamp
    ensures var c := attempts + [Attempt(t, stamp, None, None)];
            && Spaced(c) && Dated(c, stamp) && LastMade(c) == LastMade(attempts)
            && forall h: Handle :: IsMade(attempts, h) ==> IsMade(c, h)
  {
    var a := Attempt(t, stamp, None, None);
    assert attempts != [] ==> attempts[|attempts| - 1].end.value <= now;
    hide Spaced, Dated, LastMade, IsMade;
    OpenKeepsMade(attempts, a);
    OpenKeepsSpaced(attempts, a);
    OpenKeepsDated(attempts, a, now);
  }

  // ---- every action keeps the invariant ----

  /** The open attempt of a connecting task. */
  lemma OpenAttempt(s: System, t: TaskId)
    requires Inv(s) && PhaseOf(s, t).Connecting?
    ensures s.writer == Some(t) && s.attempts != []
    ensures var a := s.attempts[|s.attempts| - 1]; a.task == t && a.end.None? && a.made.None?
  {
  }

  lemma MoveKeeps(s: System, t: TaskId, p: Phase)
    requires Inv(s) && !PhaseOf(s, t).Connecting? && !p.Connecting?
    requires p.Using? ==> IsMade(s.attempts, p.handle)
    requires p.AtInvalidate? ==> IsMade(s.attempts, p.failed)
    ensures Inv(Move(s, t, p))
  {
    hide Spaced, Dated, LastMade, IsMade;
    var s' := Move(s, t, p);
    assert forall u: TaskId :: PhaseOf(s', u) == if u == t then p else PhaseOf(s, u);
  }

  /** The state when the attempt of `t` is over and the lock released. */
  function Released(s: System, t: TaskId, made: Option<Handle>): System {
    Move(s.(cache := if made.Some? then s.cache.(conn := made) else s.cache,
            writer := None,
            attempts := Close(s.attempts, s.now, made)),
         t, if made.Some? then Using(made.value) else Idle)
  }

  lemma ReleasedPhases(s: System, t: TaskId, made: Option<Handle>)
    ensures forall u: TaskId ::
              PhaseOf(Released(s, t, made), u) ==
              if u != t then PhaseOf(s, u) else if made.Some? then Using(made.value) else Idle
  {
    hide Close;
  }

  lemma ReleaseKeepsLock(s: System, t: TaskId, made: Option<Handle>)
    requires Inv(s) && PhaseOf(s, t).Connecting?
    ensures LockOk(Released(s, t, made)) && StampOk(Released(s, t, made))
  {
    OpenAttempt(s, t);
    CloseKeeps(s.attempts, s.now, made);
    ReleasedPhases(s, t, made);
    hide Spaced, Dated, HandlesOk, Close;
  }

  lemma ReleaseKeepsHandles(s: System, t: TaskId, made: Option<Handle>)
    requires Inv(s) && PhaseOf(s, t).Connecting?
    ensures HandlesOk(Released(s, t, made))
  {
    OpenAttempt(s, t);
    CloseKeepsMade(s.attempts, s.now, made);
    ReleasedPhases(s, t, made);
    hide Spaced, Dated, LockOk, StampOk, Close, IsMade, LastMade, PhaseOf;
  }

  lemma ReleaseKeeps(s: System, t: TaskId, made: Option<Handle>)
    requires Inv(s) && PhaseOf(s, t).Connecting?
    ensures Inv(Released(s, t, made))
  {
    OpenAttempt(s, t);
    CloseKeeps(s.attempts, s.now, made);
    ReleaseKeepsLock(s, t, made);
    ReleaseKeepsHandles(s, t, made);
    hide Spaced, Dated, LockOk, StampOk, HandlesOk, Close;
  }

  lemma EnteredPhases(s: System, t: TaskId, stamp: Time)
    requires Check(s.cache, s.now).MustConnect?
    ensures var s' := Apply(s, Enter(t, stamp));
            && s'.writer == Some(t) && s'.cache == s.cache.(lastAttempt := Some(stamp)) && s'.now == stamp
            && s'.attempts == s.attempts + [Attempt(t, stamp, None, None)]
            && forall u: TaskId :: PhaseOf(s', u) == if u == t then Connecting else PhaseOf(s, u)
  {
    hide Check;
  }

  lemma EnterKeeps(s: System, t: TaskId, stamp: Time)
    requires Inv(s) && Enabled(s, Enter(t, stamp)) && Check(s.cache, s.now).MustConnect?
    ensures Inv(Apply(s, Enter(t, stamp)))
  {
    OpenKeeps(s.attempts, t, s.now, stamp);
    EnteredPhases(s, t, stamp);
    assert PhaseOf(s, t).AtWriteLock? && s.writer.None? && s.cache.conn.None?;
    hide Spaced, Dated, LastMade, IsMade, Apply, PhaseOf, Check, Enabled;
  }

  lemma TickKeeps(s: System, to: Time)
    requires Inv(s) && s.now <= to
    ensures Inv(s.(now := to))
  {
    hide Spaced, LastMade, IsMade;
    var s' := s.(now := to);
    assert forall u: TaskId :: PhaseOf(s', u) == PhaseOf(s, u);
  }

  lemma DropKeeps(s: System)
    requires Inv(s)
    ensures Inv(s.(cache := s.cache.(conn := None)))
  {
    hide Spaced, Dated, LastMade, IsMade;
    var s' := s.(cache := s.cache.(conn := None));
    assert forall u: TaskId :: PhaseOf(s', u) == PhaseOf(s, u);
  }

  lemma BeginKeeps(s: System, t: TaskId)
    requires Inv(s) && Enabled(s, Begin(t))
    ensures Inv(Apply(s, Begin(t)))
  {
    if s.cache.conn.Some? {
      LastMadeIsMade(s.attempts);
    }
    hide Spaced, Dated, LastMade, IsMade;
    if !Check(s.cache, s.now).Throttled? {
      MoveKeeps(s, t, if s.cache.conn.Some? then Using(s.cache.conn.value) else AtWriteLock);
    }
  }

  lemma RecheckKeeps(s: System, t: TaskId, stamp: Time)
    requires Inv(s) && Enabled(s, Enter(t, stamp))
    ensures Inv(Apply(s, Enter(t, stamp)))
  {
    if s.cache.conn.Some? {
      LastMadeIsMade(s.attempts);
    }
    hide Spaced, Dated, LastMade, IsMade;
    if Check(s.cache, s.now).MustConnect? {
      EnterKeeps(s, t, stamp);
    } else {
      MoveKeeps(s, t, if s.cache.conn.Some? then Using(s.cache.conn.value) else Idle);
    }
  }

  lemma FailKeeps(s: System, t: TaskId)
    requires Inv(s) && PhaseOf(s, t).Using?
    ensures Inv(Move(s, t, AtInvalidate(PhaseOf(s, t).handle)))
  {
    hide Spaced, Dated, LastMade, IsMade;
    MoveKeeps(s, t, AtInvalidate(PhaseOf(s, t).handle));
  }

  lemma StepKeepsInv(s: System, a: Action)
    requires Inv(s) && Enabled(s, a)
    ensures Inv(Apply(s, a))
  {
    hide Inv, Check, Close;
    match a
    case Tick(to) => TickKeeps(s, to);
    case Begin(t) =>
      hide Apply;
      BeginKeeps(s, t);
    case Enter(t, stamp) =>
      hide Apply;
      RecheckKeeps(s, t, stamp);
    case Connected(t, h) => ReleaseKeeps(s, t, Some(h));
    case ConnectFailed(t) => ReleaseKeeps(s, t, None);
    case OpDone(t) => MoveKeeps(s, t, Idle);
    case OpFailed(t) => FailKeeps(s, t);
    case DropConn(t) =>
      DropKeeps(s);
      MoveKeeps(s.(cache := s.cache.(conn := None)), t, Idle);
    case Cancel(t) =>
      if PhaseOf(s, t).Connecting? {
        ReleaseKeeps(s, t, None);
      } else {
        MoveKeeps(s, t, Idle);
      }
  }

  lemma {:induction false} RunsKeepInv(actions: seq<Action>)
    requires IsRun(actions)
    ensures Inv(After(actions))
    decreases |actions|
  {
    if actions == [] {
      assert forall u: TaskId :: PhaseOf(INITIAL, u) == Idle;
    } else {
      var n := |actions| - 1;
      RunsKeepInv(actions[..n]);
      hide Inv, Apply, Enabled;
      StepKeepsInv(After(actions[..n]), actions[n]);
    }
  }

  // ---- what holds of every run ----

  /** Attempts started in the closed window `lo..=hi`. */
  function StartedIn(attempts: seq<Attempt>, lo: Time, hi: Time): nat {
    if attempts == [] then 0
    else
      var n := |attempts| - 1;
      StartedIn(attempts[..n], lo, hi) + if lo <= attempts[n].start <= hi then 1 else 0
  }

  lemma {:induction false} WindowCount(attempts: seq<Attempt>, lo: Time, hi: Time) returns (last: nat)
    requires Spaced(attempts) && StartedIn(attempts, lo, hi) > 0
    ensures last < |attempts| && lo <= attempts[last].start <= hi
    ensures (StartedIn(attempts, lo, hi) - 1) * RECONNECT_MIN_INTERVAL <= attempts[last].start - lo
    decreases |attempts|
  {
    var n := |attempts| - 1;
    var rest := attempts[..n];
    assert Spaced(rest);
    if lo <= attempts[n].start <= hi {
      last := n;
      if StartedIn(rest, lo, hi) > 0 {
        var l := WindowCount(rest, lo, hi);
        assert attempts[l].start + RECONNECT_MIN_INTERVAL <= attempts[n].start;
      }
    } else {
      last := WindowCount(rest, lo, hi);
    }
  }

  /** A window of `width` holds at most `width / interval + 1` attempt starts. */
  lemma AttemptsPerWindow(actions: seq<Action>, lo: Time, width: nat)
    requires IsRun(actions)
    ensures StartedIn(After(actions).attempts, lo, lo + width) <= width / 10_000 + 1
  {
    RunsKeepInv(actions);
    hide After, IsRun, Dated, LockOk, StampOk, HandlesOk;
    var attempts := After(actions).attempts;
    var n := StartedIn(attempts, lo, lo + width);
    if n > 0 {
      var last := WindowCount(attempts, lo, lo + width);
      assert (n - 1) * RECONNECT_MIN_INTERVAL <= width;
    }
  }

  /** Attempts never overlap, start an interval apart, and at most one is under way. */
  lemma AttemptsAreSpaced(actions: seq<Action>, i: nat, j: nat)
    requires IsRun(actions) && i < j < |After(actions).attempts|
    ensures var x := After(actions).attempts[i]; var y := After(actions).attempts[j];
            x.start + 10_000 <= y.start && x.end.Some? && x.end.value <= y.start
    ensures forall t: TaskId, u: TaskId :: PhaseOf(After(actions), t).Connecting? && PhaseOf(After(actions), u).Connecting? ==> t == u
  {
    RunsKeepInv(actions);
    hide After, IsRun, Dated, StampOk, HandlesOk;
  }

  /** Whatever handle a task works with was made by a successful attempt. */
  lemma HandlesComeFromAttempts(actions: seq<Action>, t: TaskId)
    requires IsRun(actions) && PhaseOf(After(actions), t).Using?
    ensures IsMade(After(actions).attempts, PhaseOf(After(actions), t).handle)
  {
    RunsKeepInv(actions);
    hide After, IsRun, Dated, Spaced, StampOk, LockOk, IsMade;
  }

  /**
   A task that invalidates drops the handle that failed it iff no attempt has
   succeeded since; otherwise it drops a newer one.
   */
  lemma InvalidateDropsOwnHandleIff(actions: seq<Action>, t: TaskId)
    requires IsRun(actions)
    requires PhaseOf(After(actions), t).AtInvalidate? && After(actions).cache.conn.Some?
    ensures var s := After(actions);
            s.cache.conn.value == PhaseOf(s, t).failed <==> LastMade(s.attempts) == Some(PhaseOf(s, t).failed)
  {
    RunsKeepInv(actions);
    hide After, IsRun, Dated, Spaced, StampOk, LockOk, IsMade, LastMade;
  }

  /** Tasks 1 and 2 share handle 7; 2 replaces it by 8, which 1 then drops. */
  const STALE_RUN: seq<Action> := [
    Begin(1), Enter(1, 0), Connected(1, 7), Begin(2), OpFailed(1), OpFailed(2), DropConn(2),
    Tick(10_000), Begin(2), Enter(2, 10_000), Connected(2, 8), DropConn(1)]

  lemma RunStep(r: seq<Action>, n: nat)
    requires n < |r| && IsRun(r[..n]) && Enabled(After(r[..n]), r[n])
    ensures IsRun(r[..n + 1]) && After(r[..n + 1]) == Apply(After(r[..n]), r[n])
  {
    assert r[..n + 1][..n] == r[..n];
  }

  lemma NothingRun(r: seq<Action>)
    ensures IsRun(r[..0]) && After(r[..0]) == INITIAL
  {
  }

  lemma StaleInvalidation()
    ensures IsRun(STALE_RUN)
    ensures After(STALE_RUN[..11]).cache.conn == Some(8) && After(STALE_RUN).cache.conn == None
    ensures PhaseOf(After(STALE_RUN[..11]), 1) == AtInvalidate(7) && PhaseOf(After(STALE_RUN), 2) == Using(8)
  {
    var r := STALE_RUN;
    StaleRunStart();
    StaleRunMiddle();
    hide After, IsRun;
    RunStep(r, 11);
    assert r[..12] == r;
  }

  lemma StaleRunStart()
    ensures IsRun(STALE_RUN[..7])
    ensures After(STALE_RUN[..7]) ==
            System(0, LazyState(None, Some(0)), None, map[1 := AtInvalidate(7), 2 := Idle],
                   [Attempt(1, 0, Some(0), Some(7))])
  {
    var r := STALE_RUN;
    StaleRunConnect();
    hide After, IsRun;
    RunStep(r, 4);
    RunStep(r, 5);
    RunStep(r, 6);
  }

  lemma StaleRunConnect()
    ensures IsRun(STALE_RUN[..4])
    ensures After(STALE_RUN[..4]) ==
            System(0, LazyState(Some(7), Some(0)), None, map[1 := Using(7), 2 := Using(7)],
                   [Attempt(1, 0, Some(0), Some(7))])
  {
    var r := STALE_RUN;
    StaleRunEnter();
    hide After, IsRun;
    RunStep(r, 2);
    RunStep(r, 3);
  }

  lemma StaleRunEnter()
    ensures IsRun(STALE_RUN[..2])
    ensures After(STALE_RUN[..2]) ==
            System(0, LazyState(None, Some(0)), Some(1), map[1 := Connecting], [Attempt(1, 0, None, None)])
  {
    var r := STALE_RUN;
    NothingRun(r);
    hide After, IsRun;
    RunStep(r, 0);
    RunStep(r, 1);
  }

  lemma StaleRunMiddle()
    requires IsRun(STALE_RUN[..7])
    requires After(STALE_RUN[..7]) ==
             System(0, LazyState(None, Some(0)), None, map[1 := AtInvalidate(7), 2 := Idle],
                    [Attempt(1, 0, Some(0), Some(7))])
    ensures IsRun(STALE_RUN[..11])
    ensures var s := After(STALE_RUN[..11]);
            s.cache.conn == Some(8) && s.writer.None? && PhaseOf(s, 1) == AtInvalidate(7) && PhaseOf(s, 2) == Using(8)
  {
    var r := STALE_RUN;
    hide After, IsRun;
    RunStep(r, 7);
    RunStep(r, 8);
    RunStep(r, 9);
    RunStep(r, 10);
  }
}
