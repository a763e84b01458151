/** When to look again, and when to re-send nodes with DOWN ports. Times and durations are in
    nanoseconds; the resource status keeps whole seconds only. */
module Schedule {
  import opened Wrappers
  import Sorting
  import Text

  const SECOND: int := 1_000_000_000

  /** What is left of a time after a trip through the resource status. */
  function Stored(t: int): (s: int)
    ensures s <= t < s + SECOND && s % SECOND == 0
  {
    t - t % SECOND
  }

  // ---------- Settings ----------

  datatype Polls = Polls(fast: int, slow: int, error: int, window: int, maxFast: int)

  ghost predicate ValidPolls(p: Polls) {
    0 < p.fast <= p.slow && 0 < p.error && 0 <= p.window && 1 <= p.maxFast
  }

  function Clamped(p: Polls): Polls {
    var fast := if p.fast <= 0 then 20 * SECOND else p.fast;
    var slow := if p.slow <= 0 then 120 * SECOND else p.slow;
    Polls(fast, if slow < fast then fast else slow, if p.error <= 0 then 30 * SECOND else p.error,
          if p.window < 0 then 0 else p.window, if p.maxFast < 1 then 1 else p.maxFast)
  }

  /** The clamps accept any input, keep each setting that is valid, and replace each one that is not. */
  lemma ClampedIsValid(p: Polls)
    ensures ValidPolls(Clamped(p))
    ensures Clamped(p) == p <==> ValidPolls(p)
    ensures var c := Clamped(p);
            && c.fast == (if p.fast > 0 then p.fast else 20 * SECOND)
            && (p.slow >= c.fast ==> c.slow == p.slow)
            && (0 < p.slow < c.fast || (p.slow <= 0 && 120 * SECOND < c.fast) ==> c.slow == c.fast)
            && (p.slow <= 0 && c.fast <= 120 * SECOND ==> c.slow == 120 * SECOND)
            && c.error == (if p.error > 0 then p.error else 30 * SECOND)
            && (p.window >= 0 ==> c.window == p.window) && (p.window < 0 ==> c.window == 0)
            && (p.maxFast >= 1 ==> c.maxFast == p.maxFast) && (p.maxFast < 1 ==> c.maxFast == 1)
  {
  }

  // ---------- The DOWN-port record ----------

  /** The hash of the DOWN ports of a reconcile: none, or the digest of their sorted, comma-joined IDs. */
  datatype DownHash = NoDown | Digest(text: string)

  const STRING_ORDER: (string, string) -> bool := (a, b) => Text.Before(a, b)

  function Joined(ids: seq<string>): string {
    if ids == [] then "" else if |ids| == 1 then ids[0] else ids[0] + "," + Joined(ids[1..])
  }

  function HashDown(ids: seq<string>): DownHash {
    if ids == [] then NoDown else Digest(Joined(Sorting.Sort(STRING_ORDER, ids)))
  }

  method HashDownPorts(ids: seq<string>) returns (h: DownHash)
    ensures h == HashDown(ids)
  {
    if |ids| == 0 {
      return NoDown;
    }
    var sorted := Sorting.SortCopy(STRING_ORDER, ids);
    h := Digest(Joined(sorted));
  }

  /** The hash depends only on which ports are down. */
  lemma HashDownOfPermutation(a: seq<string>, b: seq<string>)
    requires multiset(a) == multiset(b)
    ensures HashDown(a) == HashDown(b)
  {
    assert |a| == |multiset(a)| == |multiset(b)| == |b|;
    Text.BeforeIsTotalOrder();
    Sorting.SortOfPermutation(STRING_ORDER, a, b);
  }

  /** An ID that cannot be confused with two joined ones. */
  predicate NoComma(id: string) {
    ',' !in id
  }

  lemma CommaAt(x: string, rest: string, k: nat)
    requires NoComma(x) && k <= |x|
    ensures (x + "," + rest)[k] == ',' <==> k == |x|
  {
    assert k < |x| ==> (x + "," + rest)[k] == x[k] && x[k] in x;
  }

  /** The first comma of a joined list ends its first ID. */
  lemma FirstComma(x: string, rest: string, y: string, rest': string)
    requires NoComma(x) && NoComma(y) && x + "," + rest == y + "," + rest'
    ensures x == y && rest == rest'
  {
    var s, s' := x + "," + rest, y + "," + rest';
    var k := if |x| < |y| then |x| else |y|;
    CommaAt(x, rest, k);
    CommaAt(y, rest', k);
    assert x == s[..|x|] && y == s'[..|y|] && rest == s[|x| + 1..] && rest' == s'[|y| + 1..];
  }

  lemma SingleHasNoComma(x: string, y: string, rest: string)
    requires NoComma(x)
    ensures x != y + "," + rest
  {
    assert (y + "," + rest)[|y|] == ',';
  }

  lemma JoinedMore(ids: seq<string>)
    requires |ids| > 1
    ensures Joined(ids) == ids[0] + "," + Joined(ids[1..])
  {
  }

  /** Joining loses nothing when no ID contains the separator. */
  lemma {:induction false} JoinedIsInjective(a: seq<string>, b: seq<string>)
    requires a != [] && b != [] && Joined(a) == Joined(b)
    requires forall id :: id in a || id in b ==> NoComma(id)
    ensures a == b
  {
    if |a| == 1 && |b| == 1 {
    } else if |a| == 1 {
      JoinedMore(b);
      SingleHasNoComma(a[0], b[0], Joined(b[1..]));
    } else if |b| == 1 {
      JoinedMore(a);
      SingleHasNoComma(b[0], a[0], Joined(a[1..]));
    } else {
      JoinedMore(a);
      JoinedMore(b);
      FirstComma(a[0], Joined(a[1..]), b[0], Joined(b[1..]));
      JoinedIsInjective(a[1..], b[1..]);
      assert a == [a[0]] + a[1..] && b == [b[0]] + b[1..];
    }
  }

  lemma SortedIDs(ids: seq<string>)
    ensures var sorted := Sorting.Sort(STRING_ORDER, ids);
            multiset(sorted) == multiset(ids) && forall id :: id in sorted <==> id in ids
  {
    Text.BeforeIsTotalOrder();
    Sorting.SortCorrect(STRING_ORDER, ids);
    forall id ensures id in Sorting.Sort(STRING_ORDER, ids) <==> id in ids {
      assert id in multiset(Sorting.Sort(STRING_ORDER, ids)) <==> id in multiset(ids);
    }
  }

  /** For IDs without a comma, two lists of DOWN ports have one hash exactly when they hold the same ports. */
  lemma HashDownMeaning(a: seq<string>, b: seq<string>)
    requires forall id :: id in a || id in b ==> NoComma(id)
    ensures HashDown(a) == HashDown(b) <==> multiset(a) == multiset(b)
  {
    if multiset(a) == multiset(b) {
      HashDownOfPermutation(a, b);
    } else if HashDown(a) == HashDown(b) {
      SortedIDs(a);
      SortedIDs(b);
      if a != [] && b != [] {
        JoinedIsInjective(Sorting.Sort(STRING_ORDER, a), Sorting.Sort(STRING_ORDER, b));
      }
    }
  }

  /** A comma inside an ID would hide a change. */
  lemma CommaHidesChange()
    ensures HashDown(["p,q"]) == HashDown(["p", "q"]) && multiset(["p,q"]) != multiset(["p", "q"])
  {
    var two := ["p", "q"];
    assert !Text.Before("q", "p");
    Sorting.SortFixed(STRING_ORDER, ["p,q"]);
    Sorting.SortFixed(STRING_ORDER, two);
    JoinedMore(two);
    assert two[1..] == ["q"];
    assert "p,q" in multiset(["p,q"]) && "p,q" !in multiset(two);
  }

  /** The retry record kept in the resource status. */
  datatype Retry = Retry(hash: DownHash, lastAttempt: Option<int>, fastAttempts: int)

  function IntervalFor(r: Retry, p: Polls): int {
    if r.fastAttempts < p.maxFast then p.fast else p.slow
  }

  /** Whether a retry is due now, and otherwise how long to wait. */
  function ShouldRetry(status: Option<Retry>, down: DownHash, now: int, p: Polls): (bool, int) {
    if down.NoDown? then (false, 0)
    else if status.None? || status.value.hash != down then (true, 0)
    else if status.value.lastAttempt.None? then (true, 0)
    else
      var elapsed := now - status.value.lastAttempt.value;
      if status.value.fastAttempts < p.maxFast then
        if elapsed >= p.fast then (true, 0)
        else (false, if p.fast - elapsed < 0 then 0 else p.fast - elapsed)
      else if elapsed >= p.slow then (true, 0)
      else (false, if p.slow - elapsed < 0 then 0 else p.slow - elapsed)
  }

  function NextRetry(prev: Option<Retry>, down: DownHash, now: int, p: Polls): Option<Retry> {
    if down.NoDown? then None
    else if prev.None? || prev.value.hash != down then Some(Retry(down, Some(now), 1))
    else
      var attempts := prev.value.fastAttempts;
      Some(Retry(down, Some(now), if attempts < p.maxFast then attempts + 1 else attempts))
  }

  /** The record as the next reconcile reads it back. */
  function StoredRetry(r: Option<Retry>): Option<Retry> {
    if r.Some? && r.value.lastAttempt.Some?
    then Some(r.value.(lastAttempt := Some(Stored(r.value.lastAttempt.value))))
    else r
  }

  /** When the next retry for this record falls due. */
  function Deadline(r: Retry, p: Polls): int
    requires r.lastAttempt.Some?
  {
    r.lastAttempt.value + IntervalFor(r, p)
  }

  /** A retry is due at once for ports that have no attempt on record, and otherwise from the deadline on;
      until then the wait ends at the deadline. */
  lemma DueFromDeadline(status: Option<Retry>, down: DownHash, now: int, p: Polls)
    ensures var unrecorded := status.None? || status.value.hash != down || status.value.lastAttempt.None?;
            var (due, wait) := ShouldRetry(status, down, now, p);
            && (due <==> down != NoDown && (unrecorded || now >= Deadline(status.value, p)))
            && (down != NoDown && !due ==> now + wait == Deadline(status.value, p))
            && (down == NoDown || due ==> wait == 0)
  {
  }

  /** "Wait w" is exact: with the same record the retry is not due at any time in between and is due
      from then on. */
  lemma WaitIsExact(status: Option<Retry>, down: DownHash, now: int, p: Polls, later: int)
    requires down != NoDown && !ShouldRetry(status, down, now, p).0 && now <= later
    ensures ShouldRetry(status, down, now, p).1 > 0
    ensures ShouldRetry(status, down, later, p).0 <==> later >= now + ShouldRetry(status, down, now, p).1
  {
  }

  /** When other ports are DOWN than those on record, the retry is due at once and its count restarts. */
  lemma ChangedPortsAreDue(recorded: seq<string>, last: Option<int>, attempts: int, ids: seq<string>, now: int,
                           p: Polls)
    requires forall id :: id in recorded || id in ids ==> NoComma(id)
    requires ids != [] && multiset(ids) != multiset(recorded)
    ensures var status := Some(Retry(HashDown(recorded), last, attempts));
            && ShouldRetry(status, HashDown(ids), now, p).0
            && NextRetry(status, HashDown(ids), now, p) == Some(Retry(HashDown(ids), Some(now), 1))
  {
    HashDownMeaning(recorded, ids);
  }

  /** The record of one more attempt for the same ports: its time is now, and the count goes up by one until it
      reaches the maximum, where it stays. */
  lemma NextRetryCounts(prev: Retry, now: int, p: Polls)
    requires prev.hash != NoDown
    ensures var next := NextRetry(Some(prev), prev.hash, now, p);
            && next.Some? && next.value.hash == prev.hash && next.value.lastAttempt == Some(now)
            && (next.value.fastAttempts == prev.fastAttempts + 1 <==> prev.fastAttempts < p.maxFast)
            && (next.value.fastAttempts == prev.fastAttempts <==> prev.fastAttempts >= p.maxFast)
    ensures NextRetry(None, NoDown, now, p) == NextRetry(Some(prev), NoDown, now, p) == None
  {
  }

  // ---------- Polling ----------

  function AdaptiveRequeue(now: int, changed: bool, lastChange: Option<int>, p: Polls): int {
    if changed then p.fast
    else if lastChange.None? || p.window <= 0 then p.slow
    else if now - lastChange.value <= p.window then p.fast
    else p.slow
  }
}
