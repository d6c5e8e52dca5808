/** The polling loop of the device authorization grant (RFC 8628, sections 3.4 and 3.5),
    against any token endpoint and any clock that never runs backwards. Times are in
    nanoseconds. */
module DeviceFlow {
  import opened Timestamp

  const FIVE_SECONDS: int := 5 * SECOND

  /** The parts of a decoded token response the loop looks at, or why there is none. */
  datatype Reply = NetworkError | Undecodable | Body(error: string, accessToken: string)

  /** What the world does during one round: how long before the loop looks at the clock,
      how much longer than asked it sleeps, how long the exchange takes, and the reply. */
  datatype Round = Round(pause: nat, oversleep: nat, exchange: nat, reply: Reply)

  type World = nat -> Round

  /** One poll: when the clock was read before it, when it was sent, what was slept. */
  datatype Poll = Poll(checked: int, sent: int, interval: int, reply: Reply)

  datatype Result = Token(token: string) | Denied(error: string) | Expired

  predicate IsSlowDown(r: Reply) {
    r.Body? && r.error == "slow_down"
  }

  /** Replies that end the loop: a token, or an error other than the two that ask to wait. */
  predicate IsFinal(r: Reply) {
    r.Body? && r.error != "authorization_pending" && r.error != "slow_down" && (r.error == "" ==> r.accessToken != "")
  }

  function Max(a: int, b: int): int {
    if a < b then b else a
  }

  function StartInterval(serverInterval: int): int {
    Max(FIVE_SECONDS, serverInterval * SECOND)
  }

  // ---------- the polls of a run ----------

  function Polls(now: int, interval: int, deadline: int, round: nat, world: World): seq<Poll>
    requires interval > 0
    decreases deadline - now
  {
    var w := world(round);
    var checked := now + w.pause;
    if checked >= deadline then []
    else
      var sent := checked + interval + w.oversleep;
      [Poll(checked, sent, interval, w.reply)] +
      if IsFinal(w.reply) then []
      else Polls(sent + w.exchange, interval + if IsSlowDown(w.reply) then FIVE_SECONDS else 0,
                 deadline, round + 1, world)
  }

  /** The outcome depends on the last poll alone. */
  function ResultOf(polls: seq<Poll>): Result {
    if polls == [] || !IsFinal(polls[|polls| - 1].reply) then Expired
    else
      var last := polls[|polls| - 1].reply;
      if last.error == "" then Token(last.accessToken) else Denied(last.error)
  }

  /** The token endpoint and the clock. */
  class Environment {
    const world: World
    var now: int
    ghost var polls: seq<Poll>
    var rounds: nat

    constructor (world: World, now: int)
      ensures this.world == world && this.now == now && polls == [] && rounds == 0
    {
      this.world, this.now, polls, rounds := world, now, [], 0;
    }

    method Now() returns (t: int)
      modifies this`now
      ensures t == now == old(now) + world(rounds).pause
    {
      now := now + world(rounds).pause;
      return now;
    }

    method Sleep(duration: int)
      modifies this`now
      ensures now == old(now) + duration + world(rounds).oversleep
    {
      now := now + duration + world(rounds).oversleep;
    }

    method PostForm(ghost checked: int, ghost slept: int) returns (reply: Reply)
      modifies this`now, this`polls, this`rounds
      ensures reply == world(old(rounds)).reply && rounds == old(rounds) + 1
      ensures now == old(now) + world(old(rounds)).exchange
      ensures polls == old(polls) + [Poll(checked, old(now), slept, reply)]
    {
      reply := world(rounds).reply;
      polls := polls + [Poll(checked, now, slept, reply)];
      now := now + world(rounds).exchange;
      rounds := rounds + 1;
    }
  }

  /** Waits for the user. expiresIn and serverInterval are the device response's, in seconds. */
  method Await(env: Environment, expiresIn: int, serverInterval: int) returns (result: Result)
    modifies env
    ensures var polls := Polls(old(env.now), StartInterval(serverInterval), old(env.now) + expiresIn * SECOND,
                               old(env.rounds), env.world);
            env.polls == old(env.polls) + polls && result == ResultOf(polls)
  {
    hide Polls, ResultOf;
    var interval := serverInterval * SECOND;
    if interval < FIVE_SECONDS { interval := FIVE_SECONDS; }
    var deadline := env.now + expiresIn * SECOND;
    ghost var all := Polls(env.now, interval, deadline, env.rounds, env.world);
    ghost var done: seq<Poll> := [];
    while true
      invariant interval >= FIVE_SECONDS
      invariant env.polls == old(env.polls) + done
      invariant all == done + Polls(env.now, interval, deadline, env.rounds, env.world)
      invariant done != [] ==> !IsFinal(done[|done| - 1].reply)
      decreases deadline - env.now
    {
      PollsNext(env.now, interval, deadline, env.rounds, env.world);
      var checked := env.Now();
      if checked >= deadline {
        assert all == done;
        NothingMore(done);
        return Expired;
      }
      env.Sleep(interval);
      ghost var poll := Poll(checked, env.now, interval, env.world(env.rounds).reply);
      var reply := env.PostForm(checked, interval);
      ghost var rest := if IsFinal(reply) then []
                        else Polls(env.now, interval + if IsSlowDown(reply) then FIVE_SECONDS else 0, deadline,
                                   env.rounds, env.world);
      PollDone(all, done, poll, rest);
      done := done + [poll];
      match reply {
        case NetworkError => continue;
        case Undecodable => continue;
        case Body(error, accessToken) =>
          if error == "authorization_pending" {
            continue;
          } else if error == "slow_down" {
            interval := interval + FIVE_SECONDS;
            continue;
          } else if error == "" {
            if accessToken != "" {
              assert all == done;
              return Token(accessToken);
            }
          } else {
            assert all == done;
            return Denied(error);
          }
      }
    }
  }

  lemma PollDone(all: seq<Poll>, done: seq<Poll>, poll: Poll, rest: seq<Poll>)
    requires all == done + ([poll] + rest)
    ensures all == done + [poll] + rest
    ensures rest == [] && IsFinal(poll.reply) ==>
              && all == done + [poll]
              && ResultOf(all) ==
                 if poll.reply.error == "" then Token(poll.reply.accessToken) else Denied(poll.reply.error)
  {
  }

  lemma NothingMore(done: seq<Poll>)
    requires done != [] ==> !IsFinal(done[|done| - 1].reply)
    ensures ResultOf(done) == Expired
  {
  }

  lemma PollsNext(now: int, interval: int, deadline: int, round: nat, world: World)
    requires interval > 0
    ensures var w := world(round);
            var checked := now + w.pause;
            var sent := checked + interval + w.oversleep;
            Polls(now, interval, deadline, round, world) ==
            if checked >= deadline then []
            else [Poll(checked, sent, interval, w.reply)] +
                 if IsFinal(w.reply) then []
                 else Polls(sent + w.exchange, interval + if IsSlowDown(w.reply) then FIVE_SECONDS else 0,
                            deadline, round + 1, world)
  {
  }

  // ---------- properties of every run ----------

  function SlowDowns(polls: seq<Poll>): nat {
    if polls == [] then 0 else (if IsSlowDown(polls[0].reply) then 1 else 0) + SlowDowns(polls[1..])
  }

  function Slept(polls: seq<Poll>): int {
    if polls == [] then 0 else polls[0].interval + Slept(polls[1..])
  }

  predicate Timely(p: Poll, deadline: int) {
    p.checked < deadline && p.sent >= p.checked + p.interval
  }

  /** The sleep before each poll follows the slow_down replies before it. */
  ghost predicate IntervalsFollow(polls: seq<Poll>, interval: int) {
    forall k :: 0 <= k < |polls| ==> polls[k].interval == interval + FIVE_SECONDS * SlowDowns(polls[..k])
  }

  /** Each poll starts after the one before it is over, and only asks to go on follow on. */
  ghost predicate InTurn(polls: seq<Poll>) {
    forall j, k :: 0 <= j < k < |polls| && k == j + 1 ==> Follows(polls[j], polls[k])
  }

  predicate Follows(p: Poll, q: Poll) {
    q.checked >= p.sent && !IsFinal(p.reply)
  }

  /** What a run may look like from one round on. */
  ghost predicate WellTimed(polls: seq<Poll>, now: int, interval: int, deadline: int) {
    && (forall k :: 0 <= k < |polls| ==> Timely(polls[k], deadline) && polls[k].checked >= now + Slept(polls[..k]))
    && IntervalsFollow(polls, interval)
    && InTurn(polls)
  }

  lemma {:induction false} EveryRunIsWellTimed(now: int, interval: int, deadline: int, round: nat, world: World)
    requires interval > 0
    ensures WellTimed(Polls(now, interval, deadline, round, world), now, interval, deadline)
    decreases deadline - now
  {
    hide Polls, WellTimed, IsFinal;
    var w := world(round);
    var checked := now + w.pause;
    var sent := checked + interval + w.oversleep;
    var p := Poll(checked, sent, interval, w.reply);
    PollsNext(now, interval, deadline, round, world);
    if checked >= deadline {
      NoneIsWellTimed(now, interval, deadline);
    } else if IsFinal(w.reply) {
      OneIsWellTimed(p, now, deadline);
    } else {
      var interval' := interval + if IsSlowDown(w.reply) then FIVE_SECONDS else 0;
      var rest := Polls(sent + w.exchange, interval', deadline, round + 1, world);
      EveryRunIsWellTimed(sent + w.exchange, interval', deadline, round + 1, world);
      assert ([p] + rest)[1..] == rest;
      Prepended([p] + rest, now, interval, sent + w.exchange, interval', deadline);
    }
  }

  lemma NoneIsWellTimed(now: int, interval: int, deadline: int)
    ensures WellTimed([], now, interval, deadline)
  {
  }

  lemma OneIsWellTimed(p: Poll, now: int, deadline: int)
    requires now <= p.checked && Timely(p, deadline)
    ensures WellTimed([p], now, p.interval, deadline) && [p] + [] == [p]
  {
    assert [p][..0] == [];
  }

  lemma Prepended(polls: seq<Poll>, now: int, interval: int, next: int, interval': int, deadline: int)
    requires polls != [] && polls[0].interval == interval && now <= polls[0].checked < deadline
    requires polls[0].sent >= polls[0].checked + interval && next >= polls[0].sent && !IsFinal(polls[0].reply)
    requires interval' == interval + if IsSlowDown(polls[0].reply) then FIVE_SECONDS else 0
    requires WellTimed(polls[1..], next, interval', deadline)
    ensures WellTimed(polls, now, interval, deadline)
  {
    hide Slept, SlowDowns, IsFinal, IsSlowDown;
    var rest := polls[1..];
    NothingSlept();
    forall k | 0 <= k < |polls|
      ensures Timely(polls[k], deadline) && polls[k].checked >= now + Slept(polls[..k])
      ensures polls[k].interval == interval + FIVE_SECONDS * SlowDowns(polls[..k])
    {
      if k == 0 {
        assert polls[..0] == [];
      } else {
        assert Timely(rest[k - 1], deadline) && rest[k - 1].checked >= next + Slept(rest[..k - 1]);
        PrefixNext(polls, k);
      }
    }
    forall j, k | 0 <= j < k < |polls| && k == j + 1 ensures Follows(polls[j], polls[k]) {
      if j == 0 {
        assert rest[..0] == [] && rest[0].checked >= next + Slept(rest[..0]);
      } else {
        assert Follows(rest[j - 1], rest[k - 1]);
      }
    }
  }

  lemma NothingSlept()
    ensures Slept([]) == 0 && SlowDowns([]) == 0
  {
  }

  lemma PrefixNext(polls: seq<Poll>, k: nat)
    requires 0 < k < |polls|
    ensures var rest := polls[1..][..k - 1];
            && Slept(polls[..k]) == polls[0].interval + Slept(rest)
            && SlowDowns(polls[..k]) == (if IsSlowDown(polls[0].reply) then 1 else 0) + SlowDowns(rest)
  {
    assert polls[..k][1..] == polls[1..][..k - 1];
  }

  lemma {:induction false} Push(polls: seq<Poll>, p: Poll)
    ensures SlowDowns(polls + [p]) == SlowDowns(polls) + if IsSlowDown(p.reply) then 1 else 0
    ensures Slept(polls + [p]) == Slept(polls) + p.interval
  {
    if polls != [] {
      assert (polls + [p])[1..] == polls[1..] + [p];
      Push(polls[1..], p);
    }
  }

  /** The polls before the k-th that were answered with slow_down. */
  function SlowDownsBefore(polls: seq<Poll>, k: nat): set<nat>
    requires k <= |polls|
  {
    set j: nat | j < k && polls[j].reply.Body? && polls[j].reply.error == "slow_down"
  }

  lemma {:induction false} SlowDownsAre(polls: seq<Poll>, k: nat)
    requires k <= |polls|
    ensures SlowDowns(polls[..k]) == |SlowDownsBefore(polls, k)|
  {
    if k == 0 {
      NothingSlept();
      assert polls[..0] == [];
      assert SlowDownsBefore(polls, 0) == {};
    } else {
      hide SlowDowns, IsSlowDown, SlowDownsBefore;
      SlowDownsAre(polls, k - 1);
      Push(polls[..k - 1], polls[k - 1]);
      assert polls[..k] == polls[..k - 1] + [polls[k - 1]];
      SlowDownsNext(polls, k - 1);
    }
  }

  lemma SlowDownsNext(polls: seq<Poll>, k: nat)
    requires k < |polls|
    ensures |SlowDownsBefore(polls, k + 1)| ==
            |SlowDownsBefore(polls, k)| + if IsSlowDown(polls[k].reply) then 1 else 0
  {
    hide SlowDowns;
    var last: set<nat> := if IsSlowDown(polls[k].reply) then {k} else {};
    var before, after := SlowDownsBefore(polls, k), SlowDownsBefore(polls, k + 1);
    assert after == before + last;
    assert k !in before;
  }

  /** The replies that end the loop, by their two fields. */
  lemma FinalExactly(r: Reply)
    ensures IsFinal(r) <==>
            r.Body? && if r.error == "" then r.accessToken != ""
                       else r.error != "authorization_pending" && r.error != "slow_down"
    ensures IsSlowDown(r) <==> r.Body? && r.error == "slow_down"
  {
  }

  /** When the clock is read for the k-th time. */
  function ReadAt(polls: seq<Poll>, now: int, round: nat, world: World, k: nat): int
    requires k <= |polls|
  {
    (if k == 0 then now else polls[k - 1].sent + world(round + k - 1).exchange) + world(round + k).pause
  }

  /** Every run, poll by poll: the clock is read, the interval slept, the request sent, and
      its reply is the world's. It goes on until a final reply or a reading at the deadline,
      and no longer. */
  lemma {:induction false} RunExactly(now: int, interval: int, deadline: int, round: nat, world: World, k: nat)
    requires interval > 0 && k <= |Polls(now, interval, deadline, round, world)|
    ensures var polls := Polls(now, interval, deadline, round, world);
            && (k < |polls| ==>
                  && polls[k].checked == ReadAt(polls, now, round, world, k) < deadline
                  && polls[k].sent == polls[k].checked + polls[k].interval + world(round + k).oversleep
                  && polls[k].reply == world(round + k).reply)
            && (k == |polls| <==>
                  (k > 0 && IsFinal(polls[k - 1].reply)) || ReadAt(polls, now, round, world, k) >= deadline)
    decreases k
  {
    hide Polls, IsFinal, IsSlowDown;
    PollsNext(now, interval, deadline, round, world);
    var polls := Polls(now, interval, deadline, round, world);
    var w := world(round);
    if k > 0 && !IsFinal(w.reply) {
      var next := polls[0].sent + w.exchange;
      var interval' := interval + if IsSlowDown(w.reply) then FIVE_SECONDS else 0;
      var rest := Polls(next, interval', deadline, round + 1, world);
      assert polls == [polls[0]] + rest;
      RunExactly(next, interval', deadline, round + 1, world, k - 1);
      assert k > 1 ==> polls[k - 1] == rest[k - 2];
      assert k < |polls| ==> polls[k] == rest[k - 1];
      assert ReadAt(polls, now, round, world, k) == ReadAt(rest, next, round + 1, world, k - 1);
    }
  }

  /** The interval slept before a poll is the larger of five seconds and the server's own,
      plus five seconds for each slow_down so far; polls are at least that far apart; and
      only the last can be sent at or after the deadline. */
  lemma IntervalLaw(now: int, serverInterval: int, deadline: int, round: nat, world: World, k: nat)
    requires k < |Polls(now, StartInterval(serverInterval), deadline, round, world)|
    ensures var polls := Polls(now, StartInterval(serverInterval), deadline, round, world);
            && polls[k].interval ==
               (if serverInterval < 5 then 5_000_000_000 else serverInterval * 1_000_000_000) +
               5_000_000_000 * |SlowDownsBefore(polls, k)|
            && polls[k].checked < deadline
            && (k > 0 ==> polls[k].sent - polls[k - 1].sent >= polls[k].interval)
            && (k + 1 < |polls| ==> polls[k].sent < deadline)
  {
    EveryRunIsWellTimed(now, StartInterval(serverInterval), deadline, round, world);
    var polls := Polls(now, StartInterval(serverInterval), deadline, round, world);
    SlowDownsAre(polls, k);
    assert Timely(polls[k], deadline);
    assert k > 0 ==> Follows(polls[k - 1], polls[k]);
    assert k + 1 < |polls| ==> Follows(polls[k], polls[k + 1]) && Timely(polls[k + 1], deadline);
  }

  /** 0 + 1 + ... + (s - 1). */
  function Pairs(s: nat): nat {
    if s == 0 then 0 else Pairs(s - 1) + s - 1
  }

  lemma {:induction false} PairsClosed(s: nat)
    ensures 2 * Pairs(s) == s * s - s
  {
    if s > 0 { PairsClosed(s - 1); }
  }

  /** The sleeps add up at least as the slow_down replies make them. */
  lemma {:induction false} SleptAtLeast(polls: seq<Poll>, interval: int)
    requires interval >= 0 && IntervalsFollow(polls, interval)
    ensures Slept(polls) >= interval * |polls| + FIVE_SECONDS * Pairs(SlowDowns(polls))
    ensures SlowDowns(polls) <= |polls|
  {
    hide Slept, SlowDowns, IsSlowDown, Pairs, IntervalsFollow;
    if polls == [] {
      NothingSlept();
      PairsNone();
    } else {
      var last := |polls| - 1;
      var front := polls[..last];
      assert polls == front + [polls[last]];
      FrontFollows(polls, interval);
      SleptAtLeast(front, interval);
      Push(front, polls[last]);
      PairsNext(SlowDowns(front));
      assert interval * |polls| == interval * last + interval;
    }
  }

  lemma PairsNone()
    ensures Pairs(0) == 0
  {
  }

  lemma PairsNext(s: nat)
    ensures Pairs(s + 1) == Pairs(s) + s
  {
  }

  /** The budget: every poll but the last, and every slow_down but the last, has been slept
      for before the deadline. */
  lemma Budget(now: int, interval: int, deadline: int, round: nat, world: World)
    requires interval > 0 && Polls(now, interval, deadline, round, world) != []
    ensures var polls := Polls(now, interval, deadline, round, world);
            var n := |polls| - 1;
            && interval * n + FIVE_SECONDS * Pairs(SlowDowns(polls[..n])) < deadline - now
            && SlowDowns(polls[..n]) <= n && SlowDowns(polls) <= SlowDowns(polls[..n]) + 1
  {
    EveryRunIsWellTimed(now, interval, deadline, round, world);
    TimedBudget(Polls(now, interval, deadline, round, world), now, interval, deadline);
  }

  lemma TimedBudget(polls: seq<Poll>, now: int, interval: int, deadline: int)
    requires interval > 0 && polls != [] && WellTimed(polls, now, interval, deadline)
    ensures var n := |polls| - 1;
            && interval * n + FIVE_SECONDS * Pairs(SlowDowns(polls[..n])) < deadline - now
            && SlowDowns(polls[..n]) <= n && SlowDowns(polls) <= SlowDowns(polls[..n]) + 1
  {
    hide InTurn, Slept, SlowDowns, IsSlowDown, Pairs, IntervalsFollow;
    var last := |polls| - 1;
    var front := polls[..last];
    assert polls[last].checked >= now + Slept(front);
    assert polls == front + [polls[last]];
    FrontFollows(polls, interval);
    SleptAtLeast(front, interval);
    Push(front, polls[last]);
  }

  lemma FrontFollows(polls: seq<Poll>, interval: int)
    requires polls != [] && IntervalsFollow(polls, interval)
    ensures IntervalsFollow(polls[..|polls| - 1], interval)
    ensures polls[|polls| - 1].interval == interval + FIVE_SECONDS * SlowDowns(polls[..|polls| - 1])
  {
    var front := polls[..|polls| - 1];
    forall k | 0 <= k < |front| ensures front[k].interval == interval + FIVE_SECONDS * SlowDowns(front[..k]) {
      assert front[..k] == polls[..k];
    }
  }

  /** No poll for a code that has expired on arrival, and otherwise no more than the
      lifetime divided by the first interval, rounded up. */
  lemma PollBound(now: int, expiresIn: int, serverInterval: int, round: nat, world: World)
    ensures var polls := Polls(now, StartInterval(serverInterval), now + expiresIn * SECOND, round, world);
            && (expiresIn <= 0 ==> polls == [])
            && (polls != [] ==> StartInterval(serverInterval) * (|polls| - 1) < expiresIn * SECOND)
            && (polls != [] ==> 5 * (|polls| - 1) < expiresIn)
  {
    hide Polls;
    var interval := StartInterval(serverInterval);
    var polls := Polls(now, interval, now + expiresIn * SECOND, round, world);
    if polls != [] {
      Budget(now, interval, now + expiresIn * SECOND, round, world);
      AtLeastTimes(interval, FIVE_SECONDS, |polls| - 1);
    }
  }

  lemma AtLeastTimes(a: int, b: int, n: nat)
    requires a >= b
    ensures a * n >= b * n
  {
  }

  /** Slow_down replies are bounded by the square root of the lifetime. */
  lemma SlowDownBound(now: int, expiresIn: int, serverInterval: int, round: nat, world: World)
    ensures var s := SlowDowns(Polls(now, StartInterval(serverInterval), now + expiresIn * SECOND, round, world));
            s >= 1 ==> 5 * (s * (s - 1)) / 2 < expiresIn
  {
    hide Polls;
    var interval := StartInterval(serverInterval);
    var polls := Polls(now, interval, now + expiresIn * SECOND, round, world);
    if polls != [] {
      Budget(now, interval, now + expiresIn * SECOND, round, world);
      var n := |polls| - 1;
      AtLeastTimes(interval, FIVE_SECONDS, n);
      PairsStep(SlowDowns(polls), SlowDowns(polls[..n]), n, expiresIn);
    }
  }

  lemma PairsStep(s: nat, f: nat, n: nat, expiresIn: int)
    requires s <= f + 1 && f <= n && FIVE_SECONDS * n + FIVE_SECONDS * Pairs(f) < expiresIn * SECOND
    ensures s >= 1 ==> 5 * (s * (s - 1)) / 2 < expiresIn
  {
    PairsGrow(s, f + 1);
    PairsClosed(s);
    assert s * (s - 1) == s * s - s;
  }

  lemma {:induction false} PairsGrow(s: nat, t: nat)
    requires s <= t
    ensures Pairs(s) <= Pairs(t)
  {
    if s < t { PairsGrow(s, t - 1); }
  }

  /** A token comes only from a reply with no error and a token in it, to the last poll;
      any other error ends the loop with that error; every earlier reply asked to go on. */
  lemma OutcomeLaw(now: int, interval: int, deadline: int, round: nat, world: World)
    requires interval > 0
    ensures var polls := Polls(now, interval, deadline, round, world);
            var last := |polls| - 1;
            && (forall k :: 0 <= k < last ==> !IsFinal(polls[k].reply))
            && (forall t :: ResultOf(polls) == Token(t) <==> polls != [] && t != "" && polls[last].reply == Body("", t))
            && (ResultOf(polls) == Expired <==> forall k :: 0 <= k < |polls| ==> !IsFinal(polls[k].reply))
            && (forall e :: ResultOf(polls) == Denied(e) <==>
                  && polls != [] && polls[last].reply.Body? && polls[last].reply.error == e
                  && e != "" && e != "authorization_pending" && e != "slow_down")
  {
    hide Polls;
    EveryRunIsWellTimed(now, interval, deadline, round, world);
    var polls := Polls(now, interval, deadline, round, world);
    forall k | 0 <= k < |polls| - 1 ensures !IsFinal(polls[k].reply) {
      assert Follows(polls[k], polls[k + 1]);
    }
  }

  /** The bound on the number of polls is met: a user who never answers, on a clock that
      loses no time, is polled exactly that often. */
  lemma {:induction false} SilentUserMeetsTheBound(now: int, interval: int, deadline: int, round: nat, world: World)
    requires interval > 0
    requires forall n :: world(n) == Round(0, 0, 0, Body("authorization_pending", ""))
    ensures var n := |Polls(now, interval, deadline, round, world)|;
            if deadline <= now then n == 0 else (n - 1) * interval < deadline - now <= n * interval
    decreases deadline - now
  {
    assert world(round) == Round(0, 0, 0, Body("authorization_pending", ""));
    if now < deadline {
      SilentUserMeetsTheBound(now + interval, interval, deadline, round + 1, world);
      var n := |Polls(now, interval, deadline, round, world)|;
      var m := |Polls(now + interval, interval, deadline, round + 1, world)|;
      assert n == m + 1;
      assert n * interval == m * interval + interval;
      assert (m - 1) * interval == m * interval - interval;
    }
  }
}
