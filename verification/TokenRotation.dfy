/**
 Rotation of the agent's bearer token while requests are being authenticated. Every step
 holds one lock, or touches the token file once; time is in milliseconds.
 */
module TokenRotation {
  import opened Text

  type Token = string

  const GRACE_SECS := 60

  datatype Previous = Previous(token: Token, rotatedAt: nat)

  /** Where the rotator is: between requests, or holding a new token after one of its steps. */
  datatype Phase =
    | Idle
    | Begun(newToken: Token, oldToken: Token)
    | Stashed(newToken: Token)
    | Written(newToken: Token)
    | Renamed(newToken: Token)

  datatype State = State(
    now: nat, token: Token, previous: Option<Previous>, disk: Token, phase: Phase, used: set<Token>)

  datatype Event =
    | Tick(ms: nat)
    | Begin(newToken: Token)
    | Stash
    | WriteTmp(ok: bool)
    | Rename(ok: bool)
    | Install
    | Cancel

  /**
   One rotator: its steps come in order. New tokens have never been used. A request can be dropped where it waits
   for a lock: before it stashes the old token, and before it installs the new one.
   */
  predicate Enabled(st: State, e: Event) {
    match e
    case Tick(_) => true
    case Begin(newToken) => st.phase.Idle? && newToken !in st.used
    case Stash => st.phase.Begun?
    case WriteTmp(_) => st.phase.Stashed?
    case Rename(_) => st.phase.Written?
    case Install => st.phase.Renamed?
    case Cancel => st.phase.Begun? || st.phase.Renamed?
  }

  function Step(st: State, e: Event): State
    requires Enabled(st, e)
  {
    match e
    case Tick(ms) => st.(now := st.now + ms)
    case Begin(newToken) => st.(phase := Begun(newToken, st.token), used := st.used + {newToken})
    case Stash => st.(previous := Some(Previous(st.phase.oldToken, st.now)), phase := Stashed(st.phase.newToken))
    case WriteTmp(ok) => st.(phase := if ok then Written(st.phase.newToken) else Idle)
    case Rename(ok) =>
      if ok then st.(disk := st.phase.newToken, phase := Renamed(st.phase.newToken)) else st.(phase := Idle)
    case Install => st.(token := st.phase.newToken, phase := Idle)
    case Cancel => st.(phase := Idle)
  }

  predicate Legal(st: State, es: seq<Event>)
    decreases |es|
  {
    es == [] || (Enabled(st, es[0]) && Legal(Step(st, es[0]), es[1..]))
  }

  function Run(st: State, es: seq<Event>): State
    requires Legal(st, es)
    decreases |es|
  {
    if es == [] then st else Run(Step(st, es[0]), es[1..])
  }

  /** All states of a run, the first and the last included. */
  function Seen(st: State, es: seq<Event>): (seen: seq<State>)
    requires Legal(st, es)
    ensures seen != [] && seen[0] == st
    decreases |es|
  {
    [st] + if es == [] then [] else Seen(Step(st, es[0]), es[1..])
  }

  // ---- Authentication -----------------------------------------------------------

  /** The check under the lock of the current token. */
  predicate FirstCheck(st: State, provided: Token) {
    provided == st.token
  }

  /** The check under the lock of the previous token, made when the first has failed. */
  predicate SecondCheck(st: State, provided: Token) {
    WithinGrace(st) && provided == st.previous.value.token
  }

  predicate WithinGrace(st: State) {
    st.previous.Some? && (st.now - st.previous.value.rotatedAt) / 1000 < GRACE_SECS
  }

  // ---- The code, run without interruption ---------------------------------------

  class Agent {
    var token: Token
    var previousToken: Option<Previous>
    var disk: Token

    constructor (token: Token)
      ensures this.token == token == disk && previousToken == None
    {
      this.token, this.disk, this.previousToken := token, token, None;
    }

    function View(now: nat, used: set<Token>): State
      reads this
    {
      State(now, token, previousToken, disk, Idle, used)
    }

    /** `rotate_token`; the outcomes of writing and renaming the token file are given. */
    method RotateToken(newToken: Token, now: nat, written: bool, renamed: bool, ghost used: set<Token>)
      returns (result: Result<Token, ()>)
      requires newToken !in used
      modifies this
      ensures var es := Rotation(newToken, written, renamed);
              Legal(old(View(now, used)), es) && View(now, used + {newToken}) == Run(old(View(now, used)), es)
      ensures result == if written && renamed then Ok(newToken) else Err(())
    {
      UninterruptedRotation(View(now, used), newToken, written, renamed);
      var oldToken := token;
      previousToken := Some(Previous(oldToken, now));
      if !written {
        return Err(());
      }
      if !renamed {
        return Err(());
      }
      disk := newToken;
      token := newToken;
      result := Ok(newToken);
    }

    /** `auth_middleware`. */
    method Authenticate(path: string, header: Option<string>, now: nat) returns (ok: bool)
      ensures ok <==> path == "/health" || exists provided ::
                header == Some("Bearer " + provided)
                && (FirstCheck(View(now, {}), provided) || SecondCheck(View(now, {}), provided))
      ensures ok <==> path == "/health" || exists provided ::
                header == Some("Bearer " + provided)
                && (provided == token
                    || (previousToken.Some? && provided == previousToken.value.token
                        && now - previousToken.value.rotatedAt < 60000))
    {
      if path == "/health" {
        return true;
      }
      if header == None || !("Bearer " <= header.value) {
        return false;
      }
      var provided := header.value[7..];
      assert header.value == "Bearer " + provided;
      assert forall p :: header.value == "Bearer " + p ==> p == ("Bearer " + p)[7..] == provided;
      if provided == token {
        return true;
      }
      if previousToken.Some? && (now - previousToken.value.rotatedAt) / 1000 < GRACE_SECS
         && provided == previousToken.value.token {
        return true;
      }
      ok := false;
    }
  }

  /** The steps of one rotation, as far as it gets. */
  function Rotation(newToken: Token, written: bool, renamed: bool): seq<Event> {
    [Begin(newToken), Stash, WriteTmp(written)]
    + (if written then [Rename(renamed)] else [])
    + (if written && renamed then [Install] else [])
  }

  lemma {:induction false} RunPush(st: State, es: seq<Event>, e: Event)
    requires Legal(st, es) && Enabled(Run(st, es), e)
    ensures Legal(st, es + [e]) && Run(st, es + [e]) == Step(Run(st, es), e)
    decreases |es|
  {
    if es == [] {
      assert [e][1..] == [];
    } else {
      assert (es + [e])[1..] == es[1..] + [e];
      RunPush(Step(st, es[0]), es[1..], e);
    }
  }

  lemma UninterruptedRotation(s: State, newToken: Token, written: bool, renamed: bool)
    requires s.phase.Idle? && newToken !in s.used
    ensures Legal(s, Rotation(newToken, written, renamed))
    ensures Run(s, Rotation(newToken, written, renamed)) == s.(
              previous := Some(Previous(s.token, s.now)),
              disk := if written && renamed then newToken else s.disk,
              token := if written && renamed then newToken else s.token,
              used := s.used + {newToken})
  {
    RunPush(s, [], Begin(newToken));
    RunPush(s, [Begin(newToken)], Stash);
    RunPush(s, [Begin(newToken), Stash], WriteTmp(written));
    var es := [Begin(newToken), Stash, WriteTmp(written)];
    assert es == [Begin(newToken), Stash] + [WriteTmp(written)];
    if written {
      RunPush(s, es, Rename(renamed));
      if renamed {
        RunPush(s, es + [Rename(true)], Install);
        assert Rotation(newToken, written, renamed) == es + [Rename(true)] + [Install];
      } else {
        assert Rotation(newToken, written, renamed) == es + [Rename(false)];
      }
    } else {
      assert Rotation(newToken, written, renamed) == es;
    }
  }

  // ---- What every step keeps -------------------------------------------------------

  predicate Consistent(st: State) {
    && st.token in st.used
    && (st.previous.Some? ==> st.previous.value.token in st.used && st.previous.value.rotatedAt <= st.now)
    && (!st.phase.Idle? ==> st.phase.newToken in st.used && st.phase.newToken != st.token)
    && (st.phase.Begun? ==> st.phase.oldToken == st.token)
    && (st.phase.Stashed? || st.phase.Written? || st.phase.Renamed? ==>
          st.previous.Some? && st.previous.value.token == st.token)
  }

  lemma StepConsistent(st: State, e: Event)
    requires Consistent(st) && Enabled(st, e)
    ensures Consistent(Step(st, e))
  {
  }

  lemma {:induction false} RunConsistent(st: State, es: seq<Event>)
    requires Consistent(st) && Legal(st, es)
    ensures Consistent(Run(st, es))
    decreases |es|
  {
    if es == [] {
    } else {
      StepConsistent(st, es[0]);
      RunConsistent(Step(st, es[0]), es[1..]);
    }
  }

  /** The request is dropped between the rename and the update of the token in memory. */
  predicate Drops(st: State, e: Event) {
    e.Cancel? && st.phase.Renamed?
  }

  /** Whether the last event of a run that drops or installs a renamed token drops it; `before` if there is none. */
  predicate EndsDropped(st: State, es: seq<Event>, before: bool)
    requires Legal(st, es)
    decreases |es|
  {
    if es == [] then before
    else EndsDropped(Step(st, es[0]), es[1..], Drops(st, es[0]) || (before && !es[0].Install?))
  }

  /** Between the rename and the next step the file holds the new token; else it is behind memory or not. */
  predicate OnDisk(st: State, apart: bool) {
    if st.phase.Renamed? then st.disk == st.phase.newToken else (st.disk != st.token <==> apart)
  }

  lemma StepOnDisk(st: State, e: Event, apart: bool)
    requires Consistent(st) && Enabled(st, e) && OnDisk(st, apart)
    ensures OnDisk(Step(st, e), Drops(st, e) || (apart && !e.Install?))
  {
  }

  lemma {:induction false} RunOnDisk(st: State, es: seq<Event>, apart: bool)
    requires Consistent(st) && Legal(st, es) && OnDisk(st, apart)
    ensures OnDisk(Run(st, es), EndsDropped(st, es, apart))
    decreases |es|
  {
    if es == [] {
    } else {
      StepConsistent(st, es[0]);
      StepOnDisk(st, es[0], apart);
      hide Consistent, Enabled, Step, OnDisk, Drops;
      RunOnDisk(Step(st, es[0]), es[1..], Drops(st, es[0]) || (apart && !es[0].Install?));
    }
  }

  /**
   After any mix of successful, failed and dropped rotations, from a token file that agrees with memory: with no
   rotation in flight the file agrees with memory if and only if no request was dropped between its rename and its
   update of the token in memory, or a later rotation has installed its token.
   */
  lemma DiskEqualsMemory(st: State, es: seq<Event>)
    requires Consistent(st) && Legal(st, es) && st.phase.Idle? && st.disk == st.token
    ensures Run(st, es).phase.Idle? ==> (Run(st, es).disk == Run(st, es).token <==> !EndsDropped(st, es, false))
  {
    RunOnDisk(st, es, false);
  }

  lemma {:induction false} NotCancelled(st: State, es: seq<Event>)
    requires Legal(st, es) && forall i | 0 <= i < |es| :: !es[i].Cancel?
    ensures !EndsDropped(st, es, false)
    decreases |es|
  {
    if es == [] {
    } else {
      hide Enabled, Step;
      NotCancelled(Step(st, es[0]), es[1..]);
    }
  }

  /** A rotation that is dropped at that moment leaves the file with a token that no request can use. */
  lemma DroppedExample(st: State, newToken: Token)
    requires Consistent(st) && st.phase.Idle? && newToken !in st.used
    ensures var es := [Begin(newToken), Stash, WriteTmp(true), Rename(true), Cancel];
            && Legal(st, es)
            && Run(st, es).phase.Idle? && Run(st, es).disk == newToken && Run(st, es).token == st.token != newToken
            && !FirstCheck(Run(st, es), newToken) && !SecondCheck(Run(st, es), newToken)
  {
    var es := [Begin(newToken), Stash, WriteTmp(true), Rename(true)];
    UninterruptedPrefix(st, newToken);
    RunPush(st, es, Cancel);
    assert [Begin(newToken), Stash, WriteTmp(true), Rename(true), Cancel] == es + [Cancel];
  }

  lemma UninterruptedPrefix(s: State, newToken: Token)
    requires s.phase.Idle? && newToken !in s.used
    ensures var es := [Begin(newToken), Stash, WriteTmp(true), Rename(true)];
            Legal(s, es) && Run(s, es) == s.(previous := Some(Previous(s.token, s.now)), disk := newToken,
                                             phase := Renamed(newToken), used := s.used + {newToken})
  {
    RunPush(s, [], Begin(newToken));
    RunPush(s, [Begin(newToken)], Stash);
    RunPush(s, [Begin(newToken), Stash], WriteTmp(true));
    assert [Begin(newToken), Stash, WriteTmp(true)] == [Begin(newToken), Stash] + [WriteTmp(true)];
    RunPush(s, [Begin(newToken), Stash, WriteTmp(true)], Rename(true));
    assert [Begin(newToken), Stash, WriteTmp(true), Rename(true)] ==
           [Begin(newToken), Stash, WriteTmp(true)] + [Rename(true)];
  }

  // ---- Accepted tokens were current within the grace period ---------------------------

  /** The previous token was current at the moment it is said to have been rotated. */
  predicate Witnessed(st: State, seen: seq<State>) {
    && st in seen
    && (st.previous.Some? ==>
          exists s <- seen :: s.token == st.previous.value.token && s.now == st.previous.value.rotatedAt)
  }

  lemma StepWitnessed(st: State, e: Event, seen: seq<State>)
    requires Consistent(st) && Enabled(st, e) && Witnessed(st, seen) && st in seen
    ensures Witnessed(Step(st, e), seen + [Step(st, e)])
  {
    var next := Step(st, e);
    assert next in seen + [next] && st in seen + [next];
    if !e.Stash? && st.previous.Some? {
      var s :| s in seen && s.token == st.previous.value.token && s.now == st.previous.value.rotatedAt;
      assert s in seen + [next];
    }
  }

  lemma {:induction false} RunWitnessed(st: State, es: seq<Event>, before: seq<State>)
    requires Consistent(st) && Legal(st, es) && Witnessed(st, before + [st])
    ensures Witnessed(Run(st, es), before + Seen(st, es))
    decreases |es|
  {
    if es == [] {
    } else {
      var next := Step(st, es[0]);
      StepWitnessed(st, es[0], before + [st]);
      StepConsistent(st, es[0]);
      RunWitnessed(next, es[1..], before + [st]);
      hide Witnessed, Step, Consistent, Enabled;
      assert before + Seen(st, es) == before + [st] + Seen(next, es[1..]);
    }
  }

  /** The accepted token was current in some state seen within the grace period. */
  predicate WasCurrent(seen: seq<State>, provided: Token, u: nat) {
    exists s <- seen :: s.token == provided && u - 60000 < s.now <= u
  }

  lemma AcceptedInWitnessed(last: State, seen: seq<State>, provided: Token)
    requires Consistent(last) && Witnessed(last, seen)
    requires FirstCheck(last, provided) || SecondCheck(last, provided)
    ensures WasCurrent(seen, provided, last.now)
  {
    if FirstCheck(last, provided) {
      assert last in seen;
    } else {
      var s :| s in seen && s.token == provided && s.now == last.previous.value.rotatedAt;
    }
  }

  /** Any token accepted at time u was the current token at some moment in (u - 60 s, u]. */
  lemma {:induction false} AcceptedWasCurrent(st: State, es: seq<Event>, provided: Token)
    requires Consistent(st) && st.previous == None && Legal(st, es)
    requires FirstCheck(Run(st, es), provided) || SecondCheck(Run(st, es), provided)
    ensures WasCurrent(Seen(st, es), provided, Run(st, es).now)
  {
    assert Witnessed(st, [st]);
    hide *;
    assert [] + [st] == [st];
    RunWitnessed(st, es, []);
    assert [] + Seen(st, es) == Seen(st, es);
    RunConsistent(st, es);
    AcceptedInWitnessed(Run(st, es), Seen(st, es), provided);
  }

  // ---- A token current at the start of a request ----------------------------------------

  predicate HasStash(es: seq<Event>) {
    exists e <- es :: e.Stash?
  }

  predicate HasInstall(es: seq<Event>) {
    exists e <- es :: e.Install?
  }

  /** A rotation writes `previous_token` after an earlier one has replaced the current token. */
  predicate Overwritten(es: seq<Event>) {
    es != [] && if es[0].Install? then HasStash(es[1..]) else Overwritten(es[1..])
  }

  /** What has become of a token that was current. */
  predicate IsCurrent(st: State, p: Token) {
    Consistent(st) && st.token == p
  }

  predicate IsPrevious(st: State, p: Token) {
    Consistent(st) && p in st.used && st.token != p && (st.phase.Idle? || st.phase.newToken != p)
    && st.previous.Some? && st.previous.value.token == p
  }

  predicate IsGone(st: State, p: Token) {
    Consistent(st) && p in st.used && st.token != p && (st.phase.Idle? || st.phase.newToken != p)
    && st.previous.Some? && st.previous.value.token != p
  }

  lemma {:induction false} GoneForever(st: State, es: seq<Event>, p: Token)
    requires IsGone(st, p) && Legal(st, es)
    ensures IsGone(Run(st, es), p)
    decreases |es|
  {
    if es == [] {
    } else {
      GoneForever(Step(st, es[0]), es[1..], p);
    }
  }

  lemma {:induction false} PreviousUntilStash(st: State, es: seq<Event>, p: Token)
    requires IsPrevious(st, p) && Legal(st, es)
    ensures HasStash(es) ==> IsGone(Run(st, es), p)
    ensures !HasStash(es) ==> IsPrevious(Run(st, es), p) && Run(st, es).previous == st.previous
    decreases |es|
  {
    if es == [] {
    } else {
      var next := Step(st, es[0]);
      assert es == [es[0]] + es[1..];
      if es[0].Stash? {
        GoneForever(next, es[1..], p);
        assert es[0] in es;
      } else {
        PreviousUntilStash(next, es[1..], p);
        assert HasStash(es) <==> HasStash(es[1..]);
      }
    }
  }

  lemma {:induction false} CurrentUntilInstall(st: State, es: seq<Event>, p: Token)
    requires IsCurrent(st, p) && Legal(st, es)
    ensures !HasInstall(es) ==> IsCurrent(Run(st, es), p)
    ensures HasInstall(es) && !Overwritten(es) ==> IsPrevious(Run(st, es), p)
    ensures HasInstall(es) && Overwritten(es) ==> IsGone(Run(st, es), p)
    decreases |es|
  {
    if es == [] {
    } else {
      var next := Step(st, es[0]);
      assert es == [es[0]] + es[1..];
      if es[0].Install? {
        assert es[0] in es;
        PreviousUntilStash(next, es[1..], p);
      } else {
        CurrentUntilInstall(next, es[1..], p);
        assert HasInstall(es) <==> HasInstall(es[1..]);
      }
    }
  }

  lemma {:induction false} RunAppend(st: State, a: seq<Event>, b: seq<Event>)
    requires Legal(st, a) && Legal(Run(st, a), b)
    ensures Legal(st, a + b) && Run(st, a + b) == Run(Run(st, a), b)
    decreases |a|
  {
    if a == [] {
      assert a + b == b;
    } else {
      assert (a + b)[1..] == a[1..] + b;
      RunAppend(Step(st, a[0]), a[1..], b);
    }
  }

  /**
   A request bears the token that is current when it arrives; `a` happens before its first check and
   `b` between its checks. It is accepted if and only if no rotation has replaced the token before the
   first check, or the one that did has not been followed by another stash and its grace has not lapsed.
   */
  lemma {:induction false} AcceptedExactly(st: State, a: seq<Event>, b: seq<Event>)
    requires Consistent(st) && Legal(st, a) && Legal(Run(st, a), b)
    ensures var s1, s2 := Run(st, a), Run(Run(st, a), b);
            (FirstCheck(s1, st.token) || SecondCheck(s2, st.token))
              <==> (!HasInstall(a) || (!Overwritten(a + b) && WithinGrace(s2)))
    ensures var s2 := Run(Run(st, a), b);
            WithinGrace(s2) <==> s2.previous.Some? && s2.now - s2.previous.value.rotatedAt < 60000
  {
    var p := st.token;
    CurrentUntilInstall(st, a, p);
    RunAppend(st, a, b);
    if HasInstall(a) {
      var e :| e in a && e.Install?;
      assert e in a + b;
      CurrentUntilInstall(st, a + b, p);
    }
  }

  // ---- The grace period, in milliseconds ---------------------------------------------------

  predicate NoStash(es: seq<Event>) {
    forall i | 0 <= i < |es| :: !es[i].Stash?
  }

  predicate NoInstall(es: seq<Event>) {
    forall i | 0 <= i < |es| :: !es[i].Install?
  }

  lemma NoStashHas(es: seq<Event>)
    ensures NoStash(es) <==> !HasStash(es)
    ensures NoInstall(es) <==> !HasInstall(es)
  {
  }

  /** One rotation, from the stash of the old token to the update in memory, in the middle of a run. */
  function Rotated(x: seq<Event>, y: seq<Event>, z: seq<Event>): seq<Event> {
    x + ([Stash] + (y + ([Install] + z)))
  }

  lemma {:induction false} LegalParts(st: State, a: seq<Event>, b: seq<Event>)
    requires Legal(st, a + b)
    ensures Legal(st, a) && Legal(Run(st, a), b) && Run(st, a + b) == Run(Run(st, a), b)
    decreases |a|
  {
    if a == [] {
      assert a + b == b;
    } else {
      assert (a + b)[1..] == a[1..] + b;
      hide Enabled, Step;
      LegalParts(Step(st, a[0]), a[1..], b);
    }
  }

  lemma LegalFirst(st: State, e: Event, b: seq<Event>)
    requires Legal(st, [e] + b)
    ensures Enabled(st, e) && Legal(Step(st, e), b) && Run(st, [e] + b) == Run(Step(st, e), b)
  {
    hide Enabled, Step;
    assert ([e] + b)[1..] == b;
  }

  /** Without a stash the record of the previous token does not change. */
  lemma {:induction false} PreviousStays(st: State, es: seq<Event>)
    requires Legal(st, es) && NoStash(es)
    ensures Run(st, es).previous == st.previous
    decreases |es|
  {
    if es == [] {
    } else {
      assert !es[0].Stash?;
      assert forall i | 0 <= i < |es[1..]| :: es[1..][i] == es[i + 1];
      PreviousStays(Step(st, es[0]), es[1..]);
    }
  }

  lemma {:induction false} StashedAt(st: State)
    requires Consistent(st) && Enabled(st, Stash)
    ensures Step(st, Stash).previous == Some(Previous(st.token, st.now)) && Step(st, Stash).token == st.token
    ensures Consistent(Step(st, Stash))
  {
    StepConsistent(st, Stash);
  }

  /** When the second check compares a token that was stashed at time `t`. */
  lemma GraceIsOneMinute(st: State, p: Token, t: nat)
    requires st.previous == Some(Previous(p, t))
    ensures SecondCheck(st, p) <==> st.now - t < 60000
  {
  }

  /**
   A request bears a token that one rotation replaces, with nothing stashed after it. Its first check comes after
   the update in memory and after `u`, its second after `v` more. It is accepted if and only if the second check
   comes less than 60000 milliseconds after that rotation stashed the token.
   */
  lemma {:induction false} AcceptedForOneMinute(st: State, x: seq<Event>, y: seq<Event>, u: seq<Event>, v: seq<Event>)
    requires Consistent(st) && Legal(st, Rotated(x, y, u + v))
    requires NoInstall(x) && NoStash(y) && NoInstall(y) && NoStash(u) && NoStash(v)
    ensures Legal(st, x) && Legal(st, Rotated(x, y, u)) && Legal(Run(st, Rotated(x, y, u)), v)
    ensures var first := Run(st, Rotated(x, y, u));
            var second := Run(first, v);
            (FirstCheck(first, st.token) || SecondCheck(second, st.token)) <==> second.now - Run(st, x).now < 60000
  {
    var p := st.token;
    var es := Rotated(x, y, u);
    assert Rotated(x, y, u + v) == es + v;
    NoStashHas(x);
    NoStashHas(y);
    hide *;
    LegalParts(st, es, v);
    RotatedRun(st, x, y, u);
    var first := Run(st, es);
    PreviousStays(first, v);
    GraceIsOneMinute(Run(first, v), p, Run(st, x).now);
  }

  lemma {:induction false} RotatedRun(st: State, x: seq<Event>, y: seq<Event>, u: seq<Event>)
    requires Consistent(st) && Legal(st, Rotated(x, y, u))
    requires NoInstall(x) && NoStash(y) && NoInstall(y) && NoStash(u)
    ensures Legal(st, x) && Run(st, Rotated(x, y, u)).previous == Some(Previous(st.token, Run(st, x).now))
    ensures !FirstCheck(Run(st, Rotated(x, y, u)), st.token)
  {
    var p, rest := st.token, [Stash] + (y + ([Install] + u));
    var tail := y + ([Install] + u);
    assert Rotated(x, y, u) == x + rest;
    assert IsCurrent(st, p);
    NoStashHas(x);
    StashFree(y, u);
    hide *;
    LegalParts(st, x, rest);
    var before := Run(st, x);
    CurrentUntilInstall(st, x, p);
    CurrentIs(before, p);
    LegalFirst(before, Stash, tail);
    StashedAt(before);
    var stashed := Step(before, Stash);
    PreviousStays(stashed, tail);
    CurrentAgain(stashed, p);
    InstalledNotOverwritten(y, u);
    CurrentUntilInstall(stashed, tail, p);
    PreviousIsNotCurrent(Run(stashed, tail), p);
  }

  lemma CurrentIs(st: State, p: Token)
    ensures IsCurrent(st, p) ==> Consistent(st) && st.token == p
  {
  }

  lemma CurrentAgain(st: State, p: Token)
    requires Consistent(st) && st.token == p
    ensures IsCurrent(st, p)
  {
  }

  lemma PreviousIsNotCurrent(st: State, p: Token)
    requires IsPrevious(st, p)
    ensures !FirstCheck(st, p)
  {
  }

  lemma StashFree(y: seq<Event>, u: seq<Event>)
    requires NoStash(y) && NoStash(u)
    ensures NoStash(y + ([Install] + u))
  {
  }

  lemma {:induction false} InstalledNotOverwritten(y: seq<Event>, u: seq<Event>)
    requires NoStash(y) && NoInstall(y) && NoStash(u)
    ensures HasInstall(y + ([Install] + u)) && !Overwritten(y + ([Install] + u))
  {
    var es := y + ([Install] + u);
    assert es[|y|] == Install && Install in es;
    if y == [] {
      assert es == [Install] + u && es[1..] == u;
      NoStashHas(u);
    } else {
      assert !y[0].Install? && es[1..] == y[1..] + ([Install] + u);
      InstalledNotOverwritten(y[1..], u);
    }
  }
}
