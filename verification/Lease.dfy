/** The scorer's leader lock: SET-if-absent with a 5 second expiry, never renewed, never released. */
module Lease {

  const TTL := 5.0

  /** Whether the call reached Redis and whether its reply came back. A lost reply is an error to the replica,
      which then skips the tick, but the key may be set all the same. */
  datatype Reply = Answered | LostRequest | LostReply

  /** One replica's attempt at one tick. */
  datatype Attempt = Attempt(time: real, replica: nat, reply: Reply)

  /** The attempts of all replicas in the order Redis serves them. */
  predicate InTimeOrder(attempts: seq<Attempt>) {
    forall i, j | 0 <= i < j < |attempts| :: attempts[i].time <= attempts[j].time
  }

  datatype Key = Absent | SetUntil(expiry: real)

  predicate Free(key: Key, time: real) {
    key.Absent? || time >= key.expiry
  }

  /** The key after a history of attempts: SETNX sets it only when it is absent or expired. */
  function KeyAfter(attempts: seq<Attempt>): Key {
    if attempts == [] then Absent
    else
      var n := |attempts| - 1;
      var key := KeyAfter(attempts[..n]);
      var a := attempts[n];
      if !a.reply.LostRequest? && Free(key, a.time) then SetUntil(a.time + TTL) else key
  }

  /** Attempt `k` set the key. */
  predicate Sets(attempts: seq<Attempt>, k: int) {
    0 <= k < |attempts| && !attempts[k].reply.LostRequest? && Free(KeyAfter(attempts[..k]), attempts[k].time)
  }

  /** Attempt `k` made its replica the leader of its tick. */
  predicate Leads(attempts: seq<Attempt>, k: int) {
    Sets(attempts, k) && attempts[k].reply.Answered?
  }

  predicate NoSetAfter(attempts: seq<Attempt>, k: int) {
    forall j | k < j < |attempts| :: !Sets(attempts, j)
  }

  predicate IsLastSet(attempts: seq<Attempt>, k: int) {
    Sets(attempts, k) && NoSetAfter(attempts, k)
  }

  lemma SetsInPrefix(attempts: seq<Attempt>, n: nat, k: nat)
    requires k < n <= |attempts|
    ensures Sets(attempts[..n], k) <==> Sets(attempts, k)
  {
    assert attempts[..n][..k] == attempts[..k];
  }

  /** The key always expires a TTL after the last attempt that set it. */
  lemma {:induction false} KeyTracksLastSet(attempts: seq<Attempt>)
    ensures KeyAfter(attempts).Absent? ==> NoSetAfter(attempts, -1)
    ensures KeyAfter(attempts).SetUntil? ==>
              exists k :: IsLastSet(attempts, k) && KeyAfter(attempts).expiry == attempts[k].time + 5.0
  {
    if attempts != [] {
      var n := |attempts| - 1;
      var before := attempts[..n];
      KeyTracksLastSet(before);
      forall k: nat | k < n
        ensures Sets(before, k) <==> Sets(attempts, k)
      {
        SetsInPrefix(attempts, n, k);
      }
      if Sets(attempts, n) {
        assert IsLastSet(attempts, n);
      } else if KeyAfter(before).SetUntil? {
        var k :| IsLastSet(before, k) && KeyAfter(before).expiry == before[k].time + TTL;
        assert IsLastSet(attempts, k);
      }
    }
  }

  predicate HeldBy(attempts: seq<Attempt>, i: int, k: int) {
    0 <= i < k < |attempts| && Sets(attempts, i) && attempts[k].time < attempts[i].time + 5.0
  }

  /** For any replicas and any timing: an attempt that reaches Redis sets the key exactly when no earlier
      attempt set it within the last five seconds. */
  lemma SetsIffNotHeld(attempts: seq<Attempt>, k: nat)
    requires InTimeOrder(attempts) && k < |attempts| && !attempts[k].reply.LostRequest?
    ensures Sets(attempts, k) <==> forall i :: !HeldBy(attempts, i, k)
  {
    var before := attempts[..k];
    KeyTracksLastSet(before);
    forall i: nat | i < k
      ensures Sets(before, i) <==> Sets(attempts, i)
    {
      SetsInPrefix(attempts, k, i);
    }
    if KeyAfter(before).SetUntil? {
      var last :| IsLastSet(before, last) && KeyAfter(before).expiry == before[last].time + TTL;
      if !Sets(attempts, k) {
        assert HeldBy(attempts, last, k);
      }
      forall i | HeldBy(attempts, i, k)
        ensures !Sets(attempts, k)
      {
        assert i <= last;
        assert attempts[i].time <= attempts[last].time;
      }
    }
  }

  /** An attempt makes its replica the leader of its tick exactly when its reply came and no earlier attempt, also
      one whose reply was lost, set the key within the last five seconds. */
  lemma LeadsIff(attempts: seq<Attempt>, k: nat)
    requires InTimeOrder(attempts) && k < |attempts|
    ensures Leads(attempts, k) <==>
            attempts[k].reply == Answered
            && forall i | 0 <= i < k && Sets(attempts, i) :: attempts[k].time >= attempts[i].time + 5.0
  {
    if !attempts[k].reply.LostRequest? {
      SetsIffNotHeld(attempts, k);
      assert (forall i :: !HeldBy(attempts, i, k)) <==>
             forall i | 0 <= i < k && Sets(attempts, i) :: attempts[k].time >= attempts[i].time + 5.0 by {
        assert forall i :: HeldBy(attempts, i, k) <==>
                 0 <= i < k && Sets(attempts, i) && attempts[k].time < attempts[i].time + 5.0;
      }
    }
  }

  /** Two attempts that set the key are at least the TTL apart, so no two replicas ever hold one lease. */
  lemma AcquisitionsApart(attempts: seq<Attempt>, i: nat, j: nat)
    requires InTimeOrder(attempts) && i < j && Sets(attempts, i) && Sets(attempts, j)
    ensures attempts[j].time - attempts[i].time >= 5.0
  {
    SetsIffNotHeld(attempts, j);
    assert !HeldBy(attempts, i, j);
  }

  /** How many of the attempts at indices lo up to but not including hi set the key. */
  function SetCount(attempts: seq<Attempt>, lo: nat, hi: nat): nat
    requires lo <= hi <= |attempts|
    decreases hi - lo
  {
    if lo == hi then 0
    else SetCount(attempts, lo, hi - 1) + (if Sets(attempts, hi - 1) then 1 else 0)
  }

  /** The last of `n` acquisitions comes at least `n - 1` TTLs into the window. */
  lemma {:induction false} SpanOfSets(attempts: seq<Attempt>, lo: nat, hi: nat) returns (last: nat)
    requires InTimeOrder(attempts) && lo <= hi <= |attempts|
    requires SetCount(attempts, lo, hi) > 0
    ensures lo <= last < hi && Sets(attempts, last)
    ensures attempts[last].time - attempts[lo].time >= TTL * (SetCount(attempts, lo, hi) - 1) as real
    decreases hi - lo
  {
    var n := SetCount(attempts, lo, hi);
    if Sets(attempts, hi - 1) {
      last := hi - 1;
      if n > 1 {
        var previous := SpanOfSets(attempts, lo, hi - 1);
        AcquisitionsApart(attempts, previous, last);
        assert TTL * (n - 1) as real == TTL * (n - 2) as real + TTL;
      }
    } else {
      last := SpanOfSets(attempts, lo, hi - 1);
    }
  }

  /** Any stretch of attempts that lasts `w` seconds contains at most floor(w / 5) + 1 acquisitions. */
  lemma WindowBound(attempts: seq<Attempt>, lo: nat, hi: nat, w: real)
    requires InTimeOrder(attempts) && lo <= hi <= |attempts| && w >= 0.0
    requires forall k | lo <= k < hi :: attempts[k].time - attempts[lo].time <= w
    ensures SetCount(attempts, lo, hi) <= (w / 5.0).Floor + 1
  {
    var n := SetCount(attempts, lo, hi);
    if n > 0 {
      var last := SpanOfSets(attempts, lo, hi);
      assert TTL * (n - 1) as real <= w;
      assert (n - 1) as real <= w / TTL;
    }
  }

  const PERIOD := 2.0

  /** One replica whose ticker fires every two seconds and whose calls are all answered. */
  function LoneReplica(n: nat): (attempts: seq<Attempt>)
    ensures |attempts| == n
    ensures forall k | 0 <= k < n :: attempts[k].time == 2.0 * k as real && attempts[k].reply.Answered?
  {
    seq(n, k requires 0 <= k < n => Attempt(PERIOD * k as real, 0, Answered))
  }

  lemma LoneReplicaPrefix(n: nat, k: nat)
    requires k <= n
    ensures LoneReplica(n)[..k] == LoneReplica(k)
  {
  }

  lemma {:induction false} LoneReplicaKey(n: nat)
    ensures n == 0 ==> KeyAfter(LoneReplica(n)).Absent?
    ensures n > 0 ==> KeyAfter(LoneReplica(n)) == SetUntil(PERIOD * ((n - 1) / 3 * 3) as real + TTL)
  {
    if n > 0 {
      LoneReplicaKey(n - 1);
      LoneReplicaPrefix(n, n - 1);
      var a := LoneReplica(n)[n - 1];
      assert a.time == PERIOD * (n - 1) as real;
      if n > 1 {
        var last := (n - 2) / 3 * 3;
        assert last <= n - 2 <= last + 2;
        if (n - 1) % 3 == 0 {
          assert n - 1 == last + 3 == (n - 1) / 3 * 3;
        } else {
          assert (n - 1) / 3 * 3 == last;
        }
      }
    }
  }

  /** Ticking every two seconds, a lone replica leads on exactly every third tick. */
  lemma LoneReplicaLeadsEveryThirdTick(n: nat, k: nat)
    requires k < n
    ensures Leads(LoneReplica(n), k) <==> k % 3 == 0
  {
    LoneReplicaPrefix(n, k);
    LoneReplicaKey(k);
    if k > 0 {
      var last := (k - 1) / 3 * 3;
      assert last <= k - 1 <= last + 2;
      assert k % 3 == 0 <==> k == last + 3;
    }
  }
}
