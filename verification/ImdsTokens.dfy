/** The IMDSv2 token table (iamproxy/http.go awsIMDSToken, awsIMDSCredentials). */
module ImdsTokens {
  import opened Common

  const MAX_TTL: int := 21600

  datatype Status = MethodNotAllowed | BadRequest | Unauthorized | Done

  /** A clock that never goes back: `clock(i)` is its i-th reading. */
  ghost predicate Monotone(clock: nat -> int) {
    forall i: nat, j: nat :: i <= j ==> clock(i) <= clock(j)
  }

  predicate Accepted(table: map<string, int>, token: string, now: int) {
    token in table && now < table[token]
  }

  /** The pruned table says about every token what the full history of issues says, from `seen` on. */
  ghost predicate Agrees(table: map<string, int>, history: map<string, int>, seen: int) {
    && (forall t :: t in table ==> t in history && table[t] == history[t] && table[t] <= seen + MAX_TTL)
    && (forall t :: t in history && t !in table ==> history[t] <= seen)
  }

  /** Forgetting a token that has expired, or letting time pass, loses nothing. */
  lemma PruningLosesNothing(table: map<string, int>, history: map<string, int>, seen: int, gone: set<string>, now: int)
    requires Agrees(table, history, seen) && seen <= now
    requires forall t :: t in gone && t in table ==> table[t] <= now
    ensures Agrees(table - gone, history, now)
    ensures forall t, later :: now <= later ==> (Accepted(table - gone, t, later) <==> Accepted(history, t, later))
  {
    forall t | t in history && t !in table - gone ensures history[t] <= now {
      if t in table { assert t in gone; }
    }
  }

  /** The pruning loop reads the clock once for each token. */
  ghost predicate Readings(before: map<string, int>, at: map<string, nat>) {
    at.Keys == before.Keys && Numbered(at, |before|)
  }

  /** Different tokens have different readings, all among the first n. */
  ghost predicate Numbered(at: map<string, nat>, n: nat) {
    && (forall t :: t in at ==> at[t] < n)
    && (forall t, u :: t in at && u in at && t != u ==> at[t] != at[u])
  }

  /** The table while the loop runs: tokens without a reading are still in it. */
  ghost function Kept(before: map<string, int>, at: map<string, nat>, clock: nat -> int): map<string, int> {
    map t | t in before && (t in at ==> clock(at[t]) < before[t]) :: before[t]
  }

  lemma NothingRead(before: map<string, int>, clock: nat -> int)
    ensures Kept(before, map[], clock) == before && Numbered(map[], 0)
  {
  }

  lemma KeptStep(before: map<string, int>, at: map<string, nat>, clock: nat -> int, t: string, n: nat)
    requires t in before && t !in at && Numbered(at, n)
    ensures Numbered(at[t := n], n + 1)
    ensures t in Kept(before, at, clock) && Kept(before, at, clock)[t] == before[t]
    ensures Kept(before, at[t := n], clock) ==
              if clock(n) < before[t] then Kept(before, at, clock) else Kept(before, at, clock) - {t}
  {
    forall u | u in before && u != t
      ensures u in Kept(before, at[t := n], clock) <==> u in Kept(before, at, clock)
    {
    }
  }

  /** What the loop keeps: the tokens that had not expired at their own reading. */
  ghost function Pruned(before: map<string, int>, at: map<string, nat>, clock: nat -> int): map<string, int>
    requires at.Keys == before.Keys
  {
    Kept(before, at, clock)
  }

  lemma StoringAgrees(table: map<string, int>, history: map<string, int>, seen: int, token: string, ttl: int)
    requires Agrees(table, history, seen) && 1 <= ttl <= MAX_TTL
    ensures Agrees(table[token := seen + ttl], history[token := seen + ttl], seen)
  {
  }

  /** No other token expires while the loop runs, between its own reading and the last. */
  ghost predicate NoneExpiresMeanwhile(before: map<string, int>, at: map<string, nat>, clock: nat -> int,
                                       last: int, token: string)
    requires at.Keys == before.Keys
  {
    forall t :: t in before && t != token ==> !(clock(at[t]) < before[t] <= last)
  }

  ghost predicate AllUnexpired(table: map<string, int>, now: int) {
    forall t :: t in table ==> now < table[t]
  }

  /** Right after an issue every stored token is unexpired exactly when none expired while the loop ran. */
  lemma StoredIsUnexpiredIff(before: map<string, int>, at: map<string, nat>, clock: nat -> int,
                             last: int, token: string, ttl: int)
    requires at.Keys == before.Keys && ttl >= 1
    ensures AllUnexpired(Pruned(before, at, clock)[token := last + ttl], last) <==>
              NoneExpiresMeanwhile(before, at, clock, last, token)
  {
    var after := Pruned(before, at, clock)[token := last + ttl];
    if AllUnexpired(after, last) {
      forall t | t in before && t != token ensures !(clock(at[t]) < before[t] <= last) {
        if clock(at[t]) < before[t] { assert t in after; }
      }
    }
  }

  /** So they are when the clock does not move during the loop. */
  lemma StillClockLeavesUnexpired(before: map<string, int>, at: map<string, nat>, clock: nat -> int,
                                  token: string, ttl: int)
    requires Readings(before, at) && Monotone(clock) && clock(0) == clock(|before|) && ttl >= 1
    ensures AllUnexpired(Pruned(before, at, clock)[token := clock(|before|) + ttl], clock(|before|))
  {
    forall t | t in before && t != token ensures !(clock(at[t]) < before[t] <= clock(|before|)) {
      assert clock(0) <= clock(at[t]);
    }
    StoredIsUnexpiredIff(before, at, clock, clock(|before|), token, ttl);
  }

  /** Whatever the clock does, nothing that is still unexpired is dropped, and no expiry is further away
      than MAX_TTL. */
  lemma PrunedKeepsUnexpired(before: map<string, int>, history: map<string, int>, seen: int,
                             at: map<string, nat>, clock: nat -> int)
    requires Agrees(before, history, seen) && Readings(before, at) && Monotone(clock) && seen <= clock(0)
    ensures var last := clock(|before|);
            && Agrees(Pruned(before, at, clock), history, last)
            && (forall t :: t in before && last < before[t] ==> t in Pruned(before, at, clock))
  {
    var last := clock(|before|);
    assert seen <= clock(0) <= last;
    var gone := before.Keys - Pruned(before, at, clock).Keys;
    forall t | t in gone && t in before ensures before[t] <= last {
      assert clock(at[t]) <= last;
    }
    assert Pruned(before, at, clock) == before - gone;
    PruningLosesNothing(before, history, seen, gone, last);
  }

  /** A token that expires between its reading and the last is stored although it has expired. */
  lemma AnExpiryMeanwhile()
    ensures var before, at := map["a" := 1, "b" := 9], map["a" := 0, "b" := 1];
            var clock: nat -> int := i => i;
            && Readings(before, at) && Monotone(clock)
            && "a" in Pruned(before, at, clock) && Pruned(before, at, clock)["a"] <= clock(|before|)
  {
    var before := map["a" := 1, "b" := 9];
    assert before.Keys == {"a", "b"};
    assert "a" != "b";
  }

  class Table {
    var imds: map<string, int>
    ghost var history: map<string, int>  // the expiry of every token ever issued
    ghost var seen: int                  // the last clock reading of an issue

    ghost predicate Valid()
      reads this
    {
      Agrees(imds, history, seen)
    }

    constructor (start: int)
      ensures Valid() && imds == map[] && history == map[] && seen == start
    {
      imds, history, seen := map[], map[], start;
    }

    /** The loop over the table, in whatever order the map yields it; `n` is how often it read the clock. */
    method Prune(clock: nat -> int) returns (n: nat, ghost at: map<string, nat>)
      modifies this`imds
      ensures n == |old(imds)| && Readings(old(imds), at) && imds == Pruned(old(imds), at, clock)
    {
      hide Kept, Numbered;
      ghost var before := imds;
      NothingRead(before, clock);
      var keys := imds.Keys;
      n, at := 0, map[];
      while keys != {}
        invariant n + |keys| == |before| && keys <= before.Keys
        invariant at.Keys == before.Keys - keys && Numbered(at, n)
        invariant imds == Kept(before, at, clock)
        decreases |keys|
      {
        var t :| t in keys;
        KeptStep(before, at, clock, t, n);
        if !(clock(n) < imds[t]) {
          imds := imds - {t};
        }
        keys := keys - {t};
        at := at[t := n];
        n := n + 1;
      }
    }

    /** awsIMDSToken: expired tokens are dropped in whatever order the map yields them, with a clock
        reading each; then the new token is stored.  `at` says which reading each token met. */
    method Issue(put: bool, ttl: Option<int>, token: string, clock: nat -> int)
      returns (status: Status, ghost at: map<string, nat>)
      requires Valid() && Monotone(clock) && seen <= clock(0)
      modifies this
      ensures Valid()
      ensures status == if !put then MethodNotAllowed
                        else if ttl.Some? && 1 <= ttl.value <= MAX_TTL then Done else BadRequest
      ensures status != Done ==> imds == old(imds) && history == old(history) && seen == old(seen)
      ensures status == Done ==>
                && seen == clock(|old(imds)|) && history == old(history)[token := seen + ttl.value]
                && Readings(old(imds), at)
                && imds == Pruned(old(imds), at, clock)[token := seen + ttl.value]
    {
      hide Agrees, Readings, Kept;
      at := map[];
      if !put {
        return MethodNotAllowed, at;
      }
      if ttl == None || ttl.value < 1 || ttl.value > MAX_TTL {
        return BadRequest, at;
      }
      ghost var before := imds;
      var i;
      i, at := Prune(clock);
      PrunedKeepsUnexpired(before, history, seen, at, clock);
      StoringAgrees(imds, history, clock(i), token, ttl.value);
      imds := imds[token := clock(i) + ttl.value];
      seen := clock(i);
      history := history[token := seen + ttl.value];
      return Done, at;
    }

    /** The token check of awsIMDSCredentials: it answers from the pruned table as the full history
        would. */
    method Check(get: bool, token: string, now: int) returns (status: Status)
      requires Valid() && seen <= now
      ensures status == if !get then MethodNotAllowed
                        else if Accepted(history, token, now) then Done else Unauthorized
    {
      if !get {
        return MethodNotAllowed;
      }
      if token !in imds || !(now < imds[token]) {
        return Unauthorized;
      }
      return Done;
    }
  }
}
