/** How far apart the re-sends of nodes with DOWN ports are, over whole runs. */
module Spacing {
  import opened Wrappers
  import opened Schedule
  import opened Reconciler
  import opened Coherence
  import opened Convergence
  import opened Normalization
  import opened Rounds
  import Seqs

  /** A run of reconciles, each reading the retry record the one before left behind. */
  datatype Trail = Trail(state: State, status: Option<Retry>, posts: seq<int>)

  function Follow(plan: Plan, start: Trail, inputs: seq<Input>): Trail {
    if inputs == [] then start
    else
      var t := Follow(plan, start, inputs[..|inputs| - 1]);
      var input := inputs[|inputs| - 1].(status := t.status);
      var (s', report) := Step(plan, t.state, input);
      Trail(s', report.status, if report.reason == Synced then t.posts + [input.sendTime] else t.posts)
  }

  /** The DOWN ports and settings are the given ones, the status write succeeds and the clock does not
      run backwards. */
  ghost predicate SteadyInput(input: Input, down: DownHash, polls: Polls) {
    && DownConsistent(input) && input.downHash == down && input.polls == polls
    && input.statusOk && input.now <= input.sendTime
  }

  /** The `i`th reconcile is steady and finds no changed node; its POST may fail. */
  ghost predicate SteadyAt(plan: Plan, start: Trail, inputs: seq<Input>, i: nat, down: DownHash, polls: Polls)
    requires i < |inputs|
  {
    SteadyInput(inputs[i], down, polls) && Changed(plan, Follow(plan, start, inputs[..i]).state, inputs[i]).send == []
  }

  ghost predicate Steady(plan: Plan, start: Trail, inputs: seq<Input>, down: DownHash, polls: Polls) {
    forall i :: 0 <= i < |inputs| ==> SteadyAt(plan, start, inputs, i, down, polls)
  }

  function Min(a: int, b: int): int {
    if a < b then a else b
  }

  /** The distance between the first and the `n`th attempt: after each of the first `maxFast` attempts a fast
      interval, after later ones a slow one. */
  function Spread(n: nat, maxFast: int, fast: int, slow: int): int {
    if n <= 1 then 0 else Spread(n - 1, maxFast, fast, slow) + if n - 1 < maxFast then fast else slow
  }

  /** In closed form: min(n, maxFast) - 1 fast intervals and max(0, n - maxFast) slow ones. */
  lemma {:induction false} SpreadClosedForm(n: nat, maxFast: int, fast: int, slow: int)
    requires n >= 1 && maxFast >= 1
    ensures Spread(n, maxFast, fast, slow) ==
            (Min(n, maxFast) - 1) * fast + (if n > maxFast then n - maxFast else 0) * slow
  {
    if n > 1 {
      SpreadClosedForm(n - 1, maxFast, fast, slow);
      if n - 1 < maxFast {
        assert (n - 1) * fast == (n - 2) * fast + fast;
      } else {
        assert (n - maxFast) * slow == (n - 1 - maxFast) * slow + slow;
      }
    }
  }

  /** An attempt made once the retry is due is recorded at least the interval's whole seconds later. */
  lemma RecordedGap(previous: int, now: int, sendTime: int, interval: int)
    requires Stored(previous) + interval <= now <= sendTime
    ensures Stored(sendTime) >= Stored(previous) + Stored(interval)
  {
  }

  /** The interval that follows the `n`th attempt. */
  function IntervalAfter(n: nat, polls: Polls): int {
    if n < polls.maxFast then polls.fast else polls.slow
  }

  /** The shortest span of `n` POSTs on their own clock: whole seconds only, but for the last interval, less the
      fraction of a second at which the first POST was made. */
  function LeastSpan(first: int, n: nat, polls: Polls): int {
    if n <= 1 then 0
    else
      Spread(n - 1, polls.maxFast, Stored(polls.fast), Stored(polls.slow)) + IntervalAfter(n - 1, polls)
      - first % SECOND
  }

  function Span(posts: seq<int>): int
    requires posts != []
  {
    posts[|posts| - 1] - posts[0]
  }

  /** What a run has done after `n` POSTs. */
  ghost predicate Spaced(t: Trail, start: Trail, down: DownHash, polls: Polls) {
    var n := |t.posts|;
    if n == 0 then t.status == start.status
    else
      && t.status == Some(Retry(down, Some(Stored(t.posts[n - 1])), Min(n, polls.maxFast)))
      && Stored(t.posts[n - 1]) - Stored(t.posts[0])
         >= Spread(n, polls.maxFast, Stored(polls.fast), Stored(polls.slow))
      && Span(t.posts) >= LeastSpan(t.posts[0], n, polls)
  }

  /** What one steady reconcile without changed nodes does: it posts exactly when the retry is due and the
      POST succeeds, and only then changes the record. */
  lemma SteadyStep(plan: Plan, s: State, input: Input, down: DownHash, polls: Polls)
    requires SteadyInput(input, down, polls) && down != NoDown && Changed(plan, s, input).send == []
    ensures var report := Step(plan, s, input).1;
            && (report.reason == Synced <==> ShouldRetry(input.status, down, input.now, polls).0 && input.postOk)
            && report.status == if report.reason == Synced
                                then StoredRetry(NextRetry(input.status, down, input.sendTime, polls))
                                else input.status
  {
    DownCoverage(plan, s, input);
    DownExtras(input.nodes, input.downNodes);
    var f := Changed(plan, s, input);
    MergedCovers(f.send, f.hashes, Seqs.Filter(Named(input.downNodes), input.nodes));
  }

  lemma PostSpaced(t: Trail, start: Trail, down: DownHash, polls: Polls, state: State, now: int, sendTime: int)
    requires Spaced(t, start, down, polls) && ValidPolls(polls) && down != NoDown
    requires start.status.None? || start.status.value.hash != down
    requires ShouldRetry(t.status, down, now, polls).0 && now <= sendTime
    ensures var status := StoredRetry(NextRetry(t.status, down, sendTime, polls));
            Spaced(Trail(state, status, t.posts + [sendTime]), start, down, polls)
  {
    var n := |t.posts|;
    if n > 0 {
      RecordedGap(t.posts[n - 1], now, sendTime, IntervalAfter(n, polls));
    }
  }

  lemma SteadyAtPrefix(plan: Plan, start: Trail, inputs: seq<Input>, i: nat, down: DownHash, polls: Polls)
    requires i < |inputs| - 1 && SteadyAt(plan, start, inputs, i, down, polls)
    ensures SteadyAt(plan, start, inputs[..|inputs| - 1], i, down, polls)
  {
    assert inputs[..i] == inputs[..|inputs| - 1][..i];
  }

  lemma SteadyPrefix(plan: Plan, start: Trail, inputs: seq<Input>, down: DownHash, polls: Polls)
    requires inputs != [] && Steady(plan, start, inputs, down, polls)
    ensures Steady(plan, start, inputs[..|inputs| - 1], down, polls)
    ensures SteadyAt(plan, start, inputs, |inputs| - 1, down, polls)
  {
    var init := inputs[..|inputs| - 1];
    forall i | 0 <= i < |init| ensures SteadyAt(plan, start, init, i, down, polls) {
      SteadyAtPrefix(plan, start, inputs, i, down, polls);
    }
  }

  /** Over any run with constant DOWN ports and settings and no changed node, starting before the first
      attempt: after n POSTs the record counts min(n, maxFast) fast attempts, and the recorded attempts
      spread over at least (min(n, maxFast) - 1) fast and max(0, n - maxFast) slow intervals, in whole
      seconds. */
  lemma {:induction false} RetrySpacing(plan: Plan, start: Trail, inputs: seq<Input>, down: DownHash, polls: Polls)
    requires ValidPolls(polls) && down != NoDown && Unrecorded(start, down)
    requires Steady(plan, start, inputs, down, polls)
    ensures Spaced(Follow(plan, start, inputs), start, down, polls)
  {
    if inputs == [] {
    } else {
      var init, last := inputs[..|inputs| - 1], inputs[|inputs| - 1];
      SteadyPrefix(plan, start, inputs, down, polls);
      RetrySpacing(plan, start, init, down, polls);
      var t := Follow(plan, start, init);
      var input := last.(status := t.status);
      ChangedIgnoresStatus(plan, t.state, last, t.status);
      SteadyStep(plan, t.state, input, down, polls);
      if Step(plan, t.state, input).1.reason == Synced {
        PostSpaced(t, start, down, polls, Step(plan, t.state, input).0, input.now, input.sendTime);
      }
    }
  }

  lemma ChangedIgnoresStatus(plan: Plan, s: State, input: Input, status: Option<Retry>)
    ensures Changed(plan, s, input.(status := status)) == Changed(plan, s, input)
  {
  }

  // ---------- On the clock of the POSTs ----------

  /** The start of a run that has no attempt for these ports on record. */
  ghost predicate Unrecorded(start: Trail, down: DownHash) {
    start.posts == [] && (start.status.None? || start.status.value.hash != down)
  }

  /** Whatever the intervals and the time of the first POST, a run of n POSTs spans at least `LeastSpan`;
      `LeastSpanIsAttained` shows that nothing more can be said of intervals of a second or more. */
  lemma RetrySpacingOnClock(plan: Plan, start: Trail, inputs: seq<Input>, down: DownHash, polls: Polls)
    requires ValidPolls(polls) && down != NoDown && Unrecorded(start, down)
    requires Steady(plan, start, inputs, down, polls)
    ensures var posts := Follow(plan, start, inputs).posts;
            posts != [] ==>
              && Span(posts) >= LeastSpan(posts[0], |posts|, polls)
              && Span(posts) >= Spread(|posts|, polls.maxFast, Stored(polls.fast), Stored(polls.slow))
                                - posts[0] % SECOND
  {
    RetrySpacing(plan, start, inputs, down, polls);
  }

  lemma {:induction false} SpreadAdds(n: nat, maxFast: int, fast: int, slow: int, fast': int, slow': int)
    ensures Spread(n, maxFast, fast + fast', slow + slow') ==
            Spread(n, maxFast, fast, slow) + Spread(n, maxFast, fast', slow')
  {
    if n <= 1 {
    } else {
      SpreadAdds(n - 1, maxFast, fast, slow, fast', slow');
    }
  }

  /** The loss adds up: each attempt but the last costs the fraction of the second in its interval, and the first
      POST the fraction at which it was made. */
  lemma LossAddsUp(first: int, n: nat, polls: Polls)
    requires n >= 2
    ensures Spread(n, polls.maxFast, polls.fast, polls.slow) - LeastSpan(first, n, polls)
            == first % SECOND + Spread(n - 1, polls.maxFast, polls.fast % SECOND, polls.slow % SECOND)
  {
    SpreadAdds(n - 1, polls.maxFast, Stored(polls.fast), Stored(polls.slow), polls.fast % SECOND, polls.slow % SECOND);
  }

  // ---------- The run that posts whenever it may ----------

  /** When the `n`th POST falls if each is made as soon as it is due. */
  function DueTime(first: int, n: nat, polls: Polls): int {
    if n <= 1 then first
    else
      var last := DueTime(first, n - 1, polls);
      var due := Stored(last) + IntervalAfter(n - 1, polls);
      if last < due then due else last
  }

  function DueTimes(first: int, n: nat, polls: Polls): (r: seq<int>)
    ensures |r| == n && forall i :: 0 <= i < n ==> r[i] == DueTime(first, i + 1, polls)
  {
    seq(n, i requires 0 <= i < n => DueTime(first, i + 1, polls))
  }

  lemma DueTimesSnoc(first: int, n: nat, polls: Polls)
    ensures DueTimes(first, n + 1, polls) == DueTimes(first, n, polls) + [DueTime(first, n + 1, polls)]
  {
  }

  /** With intervals of a second or more this run attains the least span. */
  lemma {:induction false} DueTimeIsLeast(first: int, n: nat, polls: Polls)
    requires n >= 1 && SECOND <= polls.fast <= polls.slow
    ensures DueTime(first, n, polls) - first == LeastSpan(first, n, polls)
    ensures Stored(DueTime(first, n, polls)) - Stored(first)
            == Spread(n, polls.maxFast, Stored(polls.fast), Stored(polls.slow))
  {
    if n == 1 {
    } else {
      DueTimeIsLeast(first, n - 1, polls);
      StoredSum(Stored(DueTime(first, n - 1, polls)), IntervalAfter(n - 1, polls));
    }
  }

  lemma StoredSum(whole: int, d: int)
    requires whole % SECOND == 0
    ensures Stored(whole + d) == whole + Stored(d) && (whole + d) % SECOND == d % SECOND
  {
  }

  function DueRun(input: Input, first: int, n: nat): seq<Input> {
    if n == 0 then []
    else
      var t := DueTime(first, n, input.polls);
      DueRun(input, first, n - 1) + [input.(now := t, sendTime := t)]
  }

  /** A resource with DOWN ports and nothing else to send: memory holds every wanted config. */
  ghost predicate Quiescent(s: State, input: Input) {
    && Coherent(s.mem, s.remote) && DistinctNames(input.nodes)
    && forall i :: 0 <= i < |input.nodes| ==> Remembers(s.mem, input.providerID, Normalize(input.nodes[i]))
  }

  /** Where a run of DOWN-port retries can start from. */
  ghost predicate Ready(start: Trail, input: Input) {
    && Quiescent(start.state, input) && Unrecorded(start, input.downHash)
    && ValidPolls(input.polls) && input.downHash != NoDown && DownConsistent(input)
    && input.statusOk && input.postOk
  }

  lemma QuiescentSendsNothing(plan: Plan, s: State, input: Input)
    requires Quiescent(s, input)
    ensures Changed(plan, s, input).send == []
  {
    assert forall i :: 0 <= i < |input.nodes| ==> Remembers(s.mem, input.providerID, Normalize(input.nodes[i]));
    CachedSendsNothing(plan, s.mem, input.providerID, input.nodes, input.now);
  }

  lemma SyncedStaysQuiescent(plan: Plan, s: State, input: Input)
    requires Quiescent(s, input) && Step(plan, s, input).1.reason == Synced
    ensures Quiescent(Step(plan, s, input).0, input)
  {
    StepKeepsCoherent(plan, s, input);
    forall i | 0 <= i < |input.nodes|
      ensures Remembers(Step(plan, s, input).0.mem, input.providerID, Normalize(input.nodes[i]))
    {
      StepRemembers(plan, s, input, i);
    }
  }

  lemma SteadySnoc(plan: Plan, start: Trail, inputs: seq<Input>, last: Input, down: DownHash, polls: Polls)
    requires Steady(plan, start, inputs, down, polls)
    requires SteadyInput(last, down, polls) && Changed(plan, Follow(plan, start, inputs).state, last).send == []
    ensures Steady(plan, start, inputs + [last], down, polls)
  {
    var all := inputs + [last];
    forall i | 0 <= i < |all| ensures SteadyAt(plan, start, all, i, down, polls) {
      if i < |inputs| {
        assert SteadyAt(plan, start, inputs, i, down, polls);
        assert all[..i] == inputs[..i];
      } else {
        assert all[..i] == inputs;
      }
    }
  }

  /** The clock goes on from each reconcile to the next. */
  ghost predicate ClockForward(inputs: seq<Input>) {
    forall i, j :: 0 <= i < j < |inputs| ==> inputs[i].sendTime <= inputs[j].now
  }

  lemma {:induction false} DueTimeGrows(first: int, m: nat, n: nat, polls: Polls)
    requires m <= n
    ensures DueTime(first, m, polls) <= DueTime(first, n, polls)
  {
    if m == n || n <= 1 {
    } else {
      DueTimeGrows(first, m, n - 1, polls);
    }
  }

  lemma {:induction false} DueRunInputs(input: Input, first: int, n: nat)
    ensures |DueRun(input, first, n)| == n
    ensures forall i :: 0 <= i < n ==>
              var t := DueTime(first, i + 1, input.polls);
              DueRun(input, first, n)[i] == input.(now := t, sendTime := t)
  {
    if n == 0 {
    } else {
      DueRunInputs(input, first, n - 1);
    }
  }

  lemma DueRunClock(input: Input, first: int, n: nat)
    ensures ClockForward(DueRun(input, first, n))
  {
    var run := DueRun(input, first, n);
    DueRunInputs(input, first, n);
    forall i, j | 0 <= i < j < |run| ensures run[i].sendTime <= run[j].now {
      DueTimeGrows(first, i + 1, j + 1, input.polls);
    }
  }

  lemma DueNow(t: Trail, start: Trail, down: DownHash, polls: Polls, first: int)
    requires Spaced(t, start, down, polls) && t.posts == DueTimes(first, |t.posts|, polls)
    requires Unrecorded(start, down) && down != NoDown && ValidPolls(polls)
    ensures ShouldRetry(t.status, down, DueTime(first, |t.posts| + 1, polls), polls).0
  {
  }

  /** A reconcile of a quiescent resource with a retry due posts. */
  lemma DuePost(plan: Plan, s: State, input: Input)
    requires Quiescent(s, input) && input.downHash != NoDown && DownConsistent(input) && input.postOk && input.statusOk
    requires ShouldRetry(input.status, input.downHash, input.now, input.polls).0 && input.now <= input.sendTime
    ensures Step(plan, s, input).1.reason == Synced && Quiescent(Step(plan, s, input).0, input)
  {
    QuiescentSendsNothing(plan, s, input);
    SteadyStep(plan, s, input, input.downHash, input.polls);
    SyncedStaysQuiescent(plan, s, input);
  }

  ghost predicate PostsWhenDue(plan: Plan, start: Trail, input: Input, first: int, n: nat) {
    var run := DueRun(input, first, n);
    && Steady(plan, start, run, input.downHash, input.polls)
    && Follow(plan, start, run).posts == DueTimes(first, n, input.polls)
    && Quiescent(Follow(plan, start, run).state, input)
  }

  /** Each POST of this run happens, and at the time it falls due. */
  lemma {:induction false} DueRunPosts(plan: Plan, start: Trail, input: Input, first: int, n: nat)
    requires Ready(start, input)
    ensures PostsWhenDue(plan, start, input, first, n)
  {
    if n == 0 {
    } else {
      DueRunPosts(plan, start, input, first, n - 1);
      DueRunOneMore(plan, start, input, first, n - 1);
    }
  }

  lemma FollowSnoc(plan: Plan, start: Trail, inputs: seq<Input>, last: Input)
    ensures var t := Follow(plan, start, inputs);
            var (s', report) := Step(plan, t.state, last.(status := t.status));
            Follow(plan, start, inputs + [last]) ==
            Trail(s', report.status, if report.reason == Synced then t.posts + [last.sendTime] else t.posts)
  {
    assert (inputs + [last])[..|inputs|] == inputs;
  }

  /** One more reconcile, at a time at which the retry is due, adds one POST. */
  lemma OneMorePost(plan: Plan, start: Trail, inputs: seq<Input>, input: Input, time: int)
    requires Ready(start, input) && Steady(plan, start, inputs, input.downHash, input.polls)
    requires Quiescent(Follow(plan, start, inputs).state, input)
    requires ShouldRetry(Follow(plan, start, inputs).status, input.downHash, time, input.polls).0
    ensures var t, next := Follow(plan, start, inputs), input.(now := time, sendTime := time);
            var t' := Follow(plan, start, inputs + [next]);
            && Steady(plan, start, inputs + [next], input.downHash, input.polls)
            && t'.posts == t.posts + [time] && Quiescent(t'.state, input)
  {
    var t, next := Follow(plan, start, inputs), input.(now := time, sendTime := time);
    QuiescentSendsNothing(plan, t.state, next);
    SteadySnoc(plan, start, inputs, next, input.downHash, input.polls);
    DuePost(plan, t.state, next.(status := t.status));
    FollowSnoc(plan, start, inputs, next);
  }

  lemma DueRunOneMore(plan: Plan, start: Trail, input: Input, first: int, n: nat)
    requires Ready(start, input) && PostsWhenDue(plan, start, input, first, n)
    ensures PostsWhenDue(plan, start, input, first, n + 1)
  {
    var run := DueRun(input, first, n);
    RetrySpacing(plan, start, run, input.downHash, input.polls);
    DueNow(Follow(plan, start, run), start, input.downHash, input.polls, first);
    OneMorePost(plan, start, run, input, DueTime(first, n + 1, input.polls));
    DueTimesSnoc(first, n, input.polls);
    DueRunSnoc(input, first, n);
  }

  lemma DueRunSnoc(input: Input, first: int, n: nat)
    ensures var time := DueTime(first, n + 1, input.polls);
            DueRun(input, first, n + 1) == DueRun(input, first, n) + [input.(now := time, sendTime := time)]
  {
  }

  /** The last POST so far is not before the earliest possible time, and not after the clock of the last reconcile. */
  ghost predicate NotEarly(posts: seq<int>, inputs: seq<Input>, polls: Polls) {
    posts != [] ==>
      && posts[|posts| - 1] >= DueTime(posts[0], |posts|, polls)
      && inputs != [] && posts[|posts| - 1] <= inputs[|inputs| - 1].sendTime
  }

  lemma NextNotEarly(t: Trail, start: Trail, inputs: seq<Input>, last: Input, down: DownHash, polls: Polls)
    requires Spaced(t, start, down, polls) && NotEarly(t.posts, inputs, polls)
    requires ClockForward(inputs + [last]) && last.now <= last.sendTime
    ensures t.posts != [] ==> t.posts[|t.posts| - 1] <= last.sendTime
    ensures down != NoDown && ShouldRetry(t.status, down, last.now, polls).0 ==>
              NotEarly(t.posts + [last.sendTime], inputs + [last], polls)
  {
    var n := |t.posts|;
    if n > 0 {
      var all := inputs + [last];
      assert all[|inputs| - 1].sendTime <= all[|inputs|].now;
      if down != NoDown && ShouldRetry(t.status, down, last.now, polls).0 {
        StoredKeepsOrder(DueTime(t.posts[0], n, polls), t.posts[n - 1]);
      }
    }
  }

  lemma StoredKeepsOrder(a: int, b: int)
    requires a <= b
    ensures Stored(a) <= Stored(b)
  {
  }

  /** The earliest times are exact for any intervals: no run makes its n-th POST before `DueTime`, and `DueRun`
      makes it then. */
  lemma {:induction false} NoPostIsEarly(plan: Plan, start: Trail, inputs: seq<Input>, down: DownHash, polls: Polls)
    requires ValidPolls(polls) && down != NoDown && Unrecorded(start, down)
    requires Steady(plan, start, inputs, down, polls) && ClockForward(inputs)
    ensures NotEarly(Follow(plan, start, inputs).posts, inputs, polls)
  {
    if inputs == [] {
    } else {
      var init, last := inputs[..|inputs| - 1], inputs[|inputs| - 1];
      SteadyPrefix(plan, start, inputs, down, polls);
      NoPostIsEarly(plan, start, init, down, polls);
      RetrySpacing(plan, start, init, down, polls);
      var t := Follow(plan, start, init);
      ChangedIgnoresStatus(plan, t.state, last, t.status);
      SteadyStep(plan, t.state, last.(status := t.status), down, polls);
      assert inputs == init + [last];
      NextNotEarly(t, start, init, last, down, polls);
      FollowSnoc(plan, start, init, last);
    }
  }

  // ---------- When the promised spread holds ----------

  /** Every run of retries with its first POST at this time keeps the configured intervals. */
  ghost predicate KeepsPromise(plan: Plan, start: Trail, down: DownHash, polls: Polls, first: int) {
    forall inputs :: Steady(plan, start, inputs, down, polls) && ClockForward(inputs) ==>
      var posts := Follow(plan, start, inputs).posts;
      posts != [] && posts[0] == first ==> Span(posts) >= Spread(|posts|, polls.maxFast, polls.fast, polls.slow)
  }

  /** The first POST and every interval in use fall on whole seconds. */
  predicate WholeSeconds(polls: Polls, first: int) {
    first % SECOND == 0 && polls.slow % SECOND == 0 && (polls.maxFast <= 1 || polls.fast % SECOND == 0)
  }

  lemma {:induction false} DueTimeWithinSpread(first: int, n: nat, polls: Polls)
    requires n >= 1 && ValidPolls(polls)
    ensures DueTime(first, n, polls) - first <= Spread(n, polls.maxFast, polls.fast, polls.slow)
  {
    if n == 1 {
    } else {
      DueTimeWithinSpread(first, n - 1, polls);
    }
  }

  /** A POST made at a fraction of a second brings the next one early. */
  lemma FractionBringsForward(first: int, n: nat, polls: Polls)
    requires n >= 1 && ValidPolls(polls) && DueTime(first, n, polls) % SECOND > 0
    ensures DueTime(first, n + 1, polls) - first < Spread(n + 1, polls.maxFast, polls.fast, polls.slow)
  {
    DueTimeWithinSpread(first, n, polls);
  }

  lemma {:induction false} WholeDueTime(first: int, n: nat, polls: Polls)
    requires 1 <= n <= polls.maxFast && ValidPolls(polls) && first % SECOND == 0
    requires polls.maxFast <= 1 || polls.fast % SECOND == 0
    ensures DueTime(first, n, polls) % SECOND == 0
  {
    if n == 1 {
    } else {
      WholeDueTime(first, n - 1, polls);
      StoredSum(DueTime(first, n - 1, polls), polls.fast);
    }
  }

  /** Without whole seconds some POST of the run falls at a fraction of a second. */
  lemma SomeFraction(first: int, polls: Polls) returns (n: nat)
    requires ValidPolls(polls) && !WholeSeconds(polls, first)
    ensures n >= 1 && DueTime(first, n, polls) % SECOND > 0
  {
    if first % SECOND > 0 {
      n := 1;
    } else if polls.maxFast > 1 && polls.fast % SECOND > 0 {
      n := 2;
      StoredSum(first, polls.fast);
    } else {
      n := polls.maxFast + 1;
      WholeDueTime(first, polls.maxFast, polls);
      StoredSum(DueTime(first, polls.maxFast, polls), polls.slow);
    }
  }

  lemma NothingLost(first: int, n: nat, polls: Polls)
    requires n >= 1 && ValidPolls(polls) && WholeSeconds(polls, first)
    ensures LeastSpan(first, n, polls) == Spread(n, polls.maxFast, polls.fast, polls.slow)
  {
    if n >= 2 {
      LossAddsUp(first, n, polls);
      SpreadClosedForm(n - 1, polls.maxFast, polls.fast % SECOND, polls.slow % SECOND);
    }
  }

  /** The configured intervals are kept over every run exactly when the first POST and the intervals in use fall on
      whole seconds. */
  lemma PromiseIffWholeSeconds(plan: Plan, start: Trail, input: Input, first: int)
    requires Ready(start, input)
    ensures KeepsPromise(plan, start, input.downHash, input.polls, first) <==> WholeSeconds(input.polls, first)
  {
    if WholeSeconds(input.polls, first) {
      PromiseKept(plan, start, input.downHash, input.polls, first);
    } else {
      PromiseBroken(plan, start, input, first);
    }
  }

  lemma FallsShort(first: int, polls: Polls) returns (n: nat)
    requires ValidPolls(polls) && !WholeSeconds(polls, first)
    ensures n >= 1 && DueTimes(first, n, polls)[0] == first
    ensures Span(DueTimes(first, n, polls)) < Spread(n, polls.maxFast, polls.fast, polls.slow)
  {
    n := SomeFraction(first, polls);
    FractionBringsForward(first, n, polls);
    n := n + 1;
    DueSpan(first, n, polls);
  }

  lemma PromiseBroken(plan: Plan, start: Trail, input: Input, first: int)
    requires Ready(start, input) && !WholeSeconds(input.polls, first)
    ensures !KeepsPromise(plan, start, input.downHash, input.polls, first)
  {
    var n := FallsShort(first, input.polls);
    DueRunPosts(plan, start, input, first, n);
    DueRunClock(input, first, n);
    BreaksPromise(plan, start, DueRun(input, first, n), input.downHash, input.polls, first);
  }

  lemma DueSpan(first: int, n: nat, polls: Polls)
    requires n >= 1
    ensures DueTimes(first, n, polls)[0] == first
    ensures Span(DueTimes(first, n, polls)) == DueTime(first, n, polls) - first
  {
  }

  lemma BreaksPromise(plan: Plan, start: Trail, inputs: seq<Input>, down: DownHash, polls: Polls, first: int)
    requires Steady(plan, start, inputs, down, polls) && ClockForward(inputs)
    requires var posts := Follow(plan, start, inputs).posts;
             posts != [] && posts[0] == first && Span(posts) < Spread(|posts|, polls.maxFast, polls.fast, polls.slow)
    ensures !KeepsPromise(plan, start, down, polls, first)
  {
  }

  lemma PromiseKept(plan: Plan, start: Trail, down: DownHash, polls: Polls, first: int)
    requires ValidPolls(polls) && down != NoDown && Unrecorded(start, down) && WholeSeconds(polls, first)
    ensures KeepsPromise(plan, start, down, polls, first)
  {
    forall inputs | Steady(plan, start, inputs, down, polls) && ClockForward(inputs)
      ensures var posts := Follow(plan, start, inputs).posts;
              posts != [] && posts[0] == first ==> Span(posts) >= Spread(|posts|, polls.maxFast, polls.fast, polls.slow)
    {
      RetrySpacing(plan, start, inputs, down, polls);
      var posts := Follow(plan, start, inputs).posts;
      if posts != [] && posts[0] == first {
        NothingLost(first, |posts|, polls);
      }
    }
  }

  /** The least span is attained: from any such start, with intervals of a second or more, there is a run whose
      POSTs span exactly that. */
  lemma LeastSpanIsAttained(plan: Plan, start: Trail, input: Input, first: int, n: nat)
    requires Ready(start, input) && n >= 1 && SECOND <= input.polls.fast
    ensures var run := DueRun(input, first, n);
            && Steady(plan, start, run, input.downHash, input.polls) && ClockForward(run)
            && var posts := Follow(plan, start, run).posts;
               |posts| == n && posts[0] == first && Span(posts) == LeastSpan(first, n, input.polls)
  {
    DueRunPosts(plan, start, input, first, n);
    DueRunClock(input, first, n);
    DueTimeIsLeast(first, n, input.polls);
    DueSpan(first, n, input.polls);
  }

  /** Where the loss comes from: the record forgets the fraction of a second, so the next attempt is due
      that fraction early, and never earlier. */
  lemma FractionIsLost(prev: Option<Retry>, down: DownHash, sendTime: int, polls: Polls, t: int)
    requires ValidPolls(polls) && down != NoDown
    ensures var stored := StoredRetry(NextRetry(prev, down, sendTime, polls));
            ShouldRetry(stored, down, t, polls).0 <==>
            t - sendTime >= IntervalFor(stored.value, polls) - sendTime % SECOND
  {
  }
}
