/** The retention sweep of voter.js: for every stored message, a vote quota from
    its age, pruning of votes older than the voting window, eviction of messages
    below quota and a rating from the surplus. The wall clock is the parameter
    `now`, read once for the whole evaluation of a message. */
module Voter {
  import opened Messages
  import opened Store

  // ---------------------------------------------------------------------------
  // Quota and window

  /** getVoteReq: the number of in-window votes a message of creation time
      `timestamp` needs in order to survive. Zero during the first hour (also for
      a creation time in the future), then five per hour of age, as a real
      number because the source divides in floating point. */
  function GetVoteReq(timestamp: int, now: int): (q: real)
    ensures q == 0.0 <==> now - timestamp < OneHourMsec
    ensures now - timestamp >= OneHourMsec ==> q >= 5.0
    ensures q * (OneHourMsec as real) == if now - timestamp < OneHourMsec then 0.0 else 5.0 * (now - timestamp) as real
  {
    var lifespan := now - timestamp;
    if lifespan < OneHourMsec then 0.0 else (lifespan as real / OneHourMsec as real) * 5.0
  }

  /** From one hour of age on, the quota grows strictly with the age. */
  lemma VoteReqStrictlyIncreasing(t: int, now1: int, now2: int)
    requires OneHourMsec <= now1 - t < now2 - t
    ensures 5.0 <= GetVoteReq(t, now1) < GetVoteReq(t, now2)
  {
  }

  /** getWindow: how far back votes still count, in milliseconds: the message's
      age, capped at one hour. */
  function GetWindow(timestamp: int, now: int): (w: int)
    ensures w <= OneHourMsec && w <= now - timestamp
    ensures w == OneHourMsec || w == now - timestamp
    ensures GetVoteReq(timestamp, now) > 0.0 ==> now - w == now - OneHourMsec
  {
    var lifespan := now - timestamp;
    if lifespan < OneHourMsec then lifespan else OneHourMsec
  }

  // ---------------------------------------------------------------------------
  // The pruning loop

  /** What the pruning loop leaves: the vote array after the splices and the
      in-window tally. */
  datatype Pruned = Pruned(kept: seq<Vote>, counted: nat)

  /** The effect of the source's pruning loop over `votes`, written as a recursion
      on the list. A vote older than `threshold` is spliced out; because the index
      is then incremented anyway, the vote that moved into its place is stepped
      over: it stays in the array and is not counted. */
  function Prune(votes: seq<Vote>, threshold: int): Pruned
    decreases |votes|
  {
    if votes == [] then Pruned([], 0)
    else if votes[0].time < threshold then
      if |votes| == 1 then Pruned([], 0)
      else
        var rest := Prune(votes[2..], threshold);
        Pruned([votes[1]] + rest.kept, rest.counted)
    else
      var rest := Prune(votes[1..], threshold);
      Pruned([votes[0]] + rest.kept, rest.counted + 1)
  }

  /** The votes inside the window, in their order. */
  function Recent(votes: seq<Vote>, threshold: int): (r: seq<Vote>)
    ensures |r| <= |votes|
    ensures forall i :: 0 <= i < |r| ==> r[i].time >= threshold
  {
    if votes == [] then []
    else if votes[0].time < threshold then Recent(votes[1..], threshold)
    else [votes[0]] + Recent(votes[1..], threshold)
  }

  /** `kept` is `votes` with some expired votes deleted and nothing else changed:
      in particular the order of what remains is the original order. */
  predicate DropsOnlyExpired(votes: seq<Vote>, kept: seq<Vote>, threshold: int)
    decreases |votes|
  {
    if votes == [] then kept == []
    else
      (kept != [] && kept[0] == votes[0] && DropsOnlyExpired(votes[1..], kept[1..], threshold))
      || (votes[0].time < threshold && DropsOnlyExpired(votes[1..], kept, threshold))
  }

  /** The pruning loop only removes votes older than the threshold and keeps the
      order of the rest. */
  lemma {:induction false} PruneDropsOnlyExpired(votes: seq<Vote>, threshold: int)
    ensures DropsOnlyExpired(votes, Prune(votes, threshold).kept, threshold)
    decreases |votes|
  {
    if votes == [] {
    } else if votes[0].time < threshold {
      if |votes| > 1 {
        var kept := Prune(votes, threshold).kept;
        PruneDropsOnlyExpired(votes[2..], threshold);
        assert votes[1..][1..] == votes[2..];
        assert kept[1..] == Prune(votes[2..], threshold).kept;
        assert DropsOnlyExpired(votes[1..], kept, threshold);
      }
    } else {
      PruneDropsOnlyExpired(votes[1..], threshold);
    }
  }

  /** Deleting only expired votes loses no in-window vote. */
  lemma {:induction false} DropsOnlyExpiredKeepsRecent(votes: seq<Vote>, kept: seq<Vote>, threshold: int)
    requires DropsOnlyExpired(votes, kept, threshold)
    ensures Recent(kept, threshold) == Recent(votes, threshold)
    ensures |kept| <= |votes|
    decreases |votes|
  {
    if votes != [] {
      if kept != [] && kept[0] == votes[0] && DropsOnlyExpired(votes[1..], kept[1..], threshold) {
        DropsOnlyExpiredKeepsRecent(votes[1..], kept[1..], threshold);
      } else {
        DropsOnlyExpiredKeepsRecent(votes[1..], kept, threshold);
      }
    }
  }

  /** Every in-window vote survives the pruning loop, in order. */
  lemma PruneKeepsRecent(votes: seq<Vote>, threshold: int)
    ensures Recent(Prune(votes, threshold).kept, threshold) == Recent(votes, threshold)
    ensures |Prune(votes, threshold).kept| <= |votes|
  {
    PruneDropsOnlyExpired(votes, threshold);
    DropsOnlyExpiredKeepsRecent(votes, Prune(votes, threshold).kept, threshold);
  }

  /** The tally never exceeds the true number of in-window votes. */
  lemma {:induction false} PruneUndercounts(votes: seq<Vote>, threshold: int)
    ensures Prune(votes, threshold).counted <= |Recent(votes, threshold)|
    decreases |votes|
  {
    if votes == [] {
    } else if votes[0].time < threshold {
      if |votes| > 1 {
        PruneUndercounts(votes[2..], threshold);
        assert votes[1..][1..] == votes[2..];
        assert |Recent(votes[2..], threshold)| <= |Recent(votes[1..], threshold)|;
      }
    } else {
      PruneUndercounts(votes[1..], threshold);
    }
  }

  /** When no vote is expired the array is left as it is and every vote is counted. */
  lemma {:induction false} PruneNothingExpired(votes: seq<Vote>, threshold: int)
    requires forall i :: 0 <= i < |votes| ==> votes[i].time >= threshold
    ensures Prune(votes, threshold) == Pruned(votes, |votes|)
    ensures Recent(votes, threshold) == votes
    decreases |votes|
  {
    if votes != [] {
      PruneNothingExpired(votes[1..], threshold);
      assert [votes[0]] + votes[1..] == votes;
    }
  }

  /** The tally can be short and expired votes can survive: after a splice the
      next vote is not examined. [expired, recent] counts 0 although one vote is
      in the window, and [expired, expired] keeps the second expired vote. */
  lemma PruneSkipsAfterSplice(old1: Vote, old2: Vote, recent: Vote, threshold: int)
    requires old1.time < threshold && old2.time < threshold && recent.time >= threshold
    ensures Prune([old1, recent], threshold) == Pruned([recent], 0)
    ensures |Recent([old1, recent], threshold)| == 1
    ensures Prune([old1, old2], threshold).kept == [old2]
  {
    assert [old1, recent][2..] == [];
    assert [old1, old2][2..] == [];
    assert [old1, recent][1..] == [recent];
  }

  /** The pruning loop of cleanDatabase: splice out each expired vote the index
      reaches, count each in-window vote it reaches. */
  method PruneVotes(votes: seq<Vote>, threshold: int) returns (kept: seq<Vote>, counted: nat)
    ensures Pruned(kept, counted) == Prune(votes, threshold)
  {
    kept := votes;
    counted := 0;
    var j := 0;
    assert Unvisited(kept, 0) == votes;
    while j < |kept|
      invariant 0 <= j <= |kept| + 1
      invariant Resume(kept, j, counted, threshold) == Prune(votes, threshold)
      decreases |kept| + 1 - j
    {
      if kept[j].time < threshold {
        // remove the vote; the vote moving into index j is then stepped over
        ResumeAfterSplice(kept, j, counted, threshold);
        kept := kept[..j] + kept[j + 1..];
      } else {
        ResumeAfterCount(kept, j, counted, threshold);
        counted := counted + 1;
      }
      j := j + 1;
    }
  }

  /** The part of the array the loop has passed. */
  function Visited(s: seq<Vote>, j: nat): seq<Vote>
  {
    if j <= |s| then s[..j] else s
  }

  /** The part of the array the loop has still to look at. */
  function Unvisited(s: seq<Vote>, j: nat): seq<Vote>
  {
    if j <= |s| then s[j..] else []
  }

  /** What the pruning loop ends with when it resumes with array `s`, index `j`
      and tally `counted`. */
  function Resume(s: seq<Vote>, j: nat, counted: nat, threshold: int): Pruned
  {
    var rest := Prune(Unvisited(s, j), threshold);
    Pruned(Visited(s, j) + rest.kept, counted + rest.counted)
  }

  /** Splicing out the expired vote at `j` and stepping to `j + 1` leaves the
      outcome of the loop as it was. */
  lemma ResumeAfterSplice(s: seq<Vote>, j: nat, counted: nat, threshold: int)
    requires j < |s| && s[j].time < threshold
    ensures Resume(s[..j] + s[j + 1..], j + 1, counted, threshold) == Resume(s, j, counted, threshold)
  {
    var s' := s[..j] + s[j + 1..];
    var rest := s[j..];
    assert rest[0] == s[j];
    if j + 1 < |s| {
      assert Unvisited(s', j + 1) == rest[2..];
      assert Visited(s', j + 1) == Visited(s, j) + [rest[1]];
    } else {
      assert rest == [s[j]];
      assert Visited(s', j + 1) == Visited(s, j);
    }
  }

  /** Counting the in-window vote at `j` and stepping to `j + 1` leaves the
      outcome of the loop as it was. */
  lemma ResumeAfterCount(s: seq<Vote>, j: nat, counted: nat, threshold: int)
    requires j < |s| && s[j].time >= threshold
    ensures Resume(s, j + 1, counted + 1, threshold) == Resume(s, j, counted, threshold)
  {
    var rest := s[j..];
    assert rest[0] == s[j];
    assert Unvisited(s, j + 1) == rest[1..];
    assert Visited(s, j + 1) == Visited(s, j) + [s[j]];
  }

  // ---------------------------------------------------------------------------
  // The rating loop

  /** The rating loop started at `k`: the first k (counting down) for which the
      tally exceeds quota + quota/k gives rating k + 1; if none does, 1. */
  function BandFrom(counted: nat, q: real, k: nat): real
  {
    if k == 0 then 1.0
    else if counted as real > q + q / k as real then (k + 1) as real
    else BandFrom(counted, q, k - 1)
  }

  /** Since quota + quota/k only grows as k falls, the first test the loop makes
      (k = 9, the weakest threshold) decides it: the rating is either 10 or 1. */
  lemma {:induction false} BandTwoValued(counted: nat, q: real, k: nat)
    requires q > 0.0 && k >= 1
    ensures BandFrom(counted, q, k) == if counted as real > q + q / k as real then (k + 1) as real else 1.0
    decreases k
  {
    if k > 1 && !(counted as real > q + q / k as real) {
      assert q / k as real < q / (k - 1) as real by {
        DivisorShrinks(q, k - 1);
      }
      BandTwoValued(counted, q, k - 1);
    }
  }

  lemma DivisorShrinks(q: real, d: nat)
    requires q > 0.0 && d >= 1
    ensures q / (d + 1) as real < q / d as real
  {
    var a, b := q / (d + 1) as real, q / d as real;
    assert a * (d + 1) as real == q;
    assert b * d as real == q;
    assert a * d as real < q;
  }

  /** The rating loop of cleanDatabase, run for a message that met its quota. */
  method SurplusRating(counted: nat, q: real) returns (rating: real)
    requires q > 0.0
    ensures rating == BandFrom(counted, q, 9)
    ensures rating == if counted as real > q + q / 9.0 then 10.0 else 1.0
  {
    rating := 1.0;
    var k := 9;
    while k > 0
      invariant 0 <= k <= 9
      invariant rating == 1.0
      invariant BandFrom(counted, q, k) == BandFrom(counted, q, 9)
    {
      if counted as real > q + q / k as real {
        rating := (k + 1) as real;
        break;
      }
      k := k - 1;
    }
    BandTwoValued(counted, q, 9);
  }

  // ---------------------------------------------------------------------------
  // One message

  /** The sweep's verdict on one message: its local copy after pruning and
      rating, and whether the message is deleted from the store. */
  datatype Outcome = Outcome(local: Message, evict: bool)

  /** The body of cleanDatabase's outer loop for one message. Only the vote list
      and the rating of the local copy can change. */
  function Evaluate(m: Message, now: int): (r: Outcome)
    ensures r.local == m.(votes := r.local.votes, rating := r.local.rating)
    ensures now - m.time < OneHourMsec ==> r == Outcome(m, false)
    ensures r.evict ==> r.local.rating == m.rating
    ensures GetVoteReq(m.time, now) > 0.0 ==> r.local.votes == Prune(m.votes, now - OneHourMsec).kept
  {
    var q := GetVoteReq(m.time, now);
    if q > 0.0 then
      var p := Prune(m.votes, now - GetWindow(m.time, now));
      var pruned := m.(votes := p.kept);
      if (p.counted as real) < q then Outcome(pruned, true)
      else Outcome(pruned.(rating := BandFrom(p.counted, q, 9)), false)
    else Outcome(m, false)
  }

  /** A message is deleted exactly when it needs votes and its tally of votes
      newer than one hour ago is below the quota; a tally equal to the quota
      survives. */
  lemma EvictionRule(m: Message, now: int)
    ensures var q := GetVoteReq(m.time, now);
            Evaluate(m, now).evict <==>
              q > 0.0 && (Prune(m.votes, now - OneHourMsec).counted as real) < q
  {
  }

  /** A surviving message that needed votes gets rating 10 when its tally exceeds
      the quota by more than a ninth, and 1 otherwise; never 2 to 9. */
  lemma RatingRule(m: Message, now: int)
    requires GetVoteReq(m.time, now) > 0.0 && !Evaluate(m, now).evict
    ensures var q := GetVoteReq(m.time, now);
            var c := Prune(m.votes, now - OneHourMsec).counted;
            Evaluate(m, now).local.rating == if c as real > q + q / 9.0 then 10.0 else 1.0
    ensures Evaluate(m, now).local.rating == 1.0 || Evaluate(m, now).local.rating == 10.0
  {
    var q := GetVoteReq(m.time, now);
    BandTwoValued(Prune(m.votes, now - OneHourMsec).counted, q, 9);
  }

  /** A message two hours old needs 10 votes: with 9 fresh votes it is deleted,
      with 10 it survives with rating 1, with 20 it survives with rating 10. */
  lemma TwoHourExamples(m: Message, now: int)
    requires now - m.time == 2 * OneHourMsec
    requires forall i :: 0 <= i < |m.votes| ==> m.votes[i].time >= now - OneHourMsec
    ensures GetVoteReq(m.time, now) == 10.0
    ensures |m.votes| == 9 ==> Evaluate(m, now).evict
    ensures |m.votes| == 10 ==> !Evaluate(m, now).evict && Evaluate(m, now).local.rating == 1.0
    ensures |m.votes| == 20 ==> !Evaluate(m, now).evict && Evaluate(m, now).local.rating == 10.0
  {
    PruneNothingExpired(m.votes, now - OneHourMsec);
    if |m.votes| >= 10 {
      RatingRule(m, now);
    }
  }

  /** A vote cast two hours ago on a message ninety minutes old lies outside the
      one-hour window: alone in the list it is pruned, the tally is 0 and the
      message (quota 7.5) is deleted. */
  lemma WindowPruningExample(m: Message, now: int, v: Vote)
    requires now - m.time == 5400000 && v.time == now - 2 * OneHourMsec && m.votes == [v]
    ensures Evaluate(m, now).local.votes == [] && Evaluate(m, now).evict
  {
  }

  /** The body of cleanDatabase's outer loop: quota, pruning loop, eviction test
      and rating loop for one message. */
  method EvaluateMessage(m: Message, now: int) returns (local: Message, evict: bool)
    ensures Outcome(local, evict) == Evaluate(m, now)
  {
    local := m;
    evict := false;
    var voteReq := GetVoteReq(m.time, now);
    if voteReq > 0.0 {
      var threshold := now - GetWindow(m.time, now);
      var kept, votesWithinWindow := PruneVotes(m.votes, threshold);
      local := local.(votes := kept);
      if (votesWithinWindow as real) < voteReq {
        evict := true;
      } else {
        var rating := SurplusRating(votesWithinWindow, voteReq);
        local := local.(rating := rating);
      }
    }
  }

  // ---------------------------------------------------------------------------
  // The sweep

  /** The store as the sweep leaves it: exactly the messages it does not evict,
      each exactly as it was. */
  function Survivors(docs: map<MsgId, Message>, now: int): (r: map<MsgId, Message>)
    ensures r.Keys <= docs.Keys
    ensures forall id :: id in r ==> r[id] == docs[id]
  {
    map id | id in docs && !Evaluate(docs[id], now).evict :: docs[id]
  }

  /** The ids of the messages in `s` that the sweep deletes. */
  function EvictedIds(s: seq<Message>, now: int): set<MsgId>
  {
    if s == [] then {}
    else EvictedIds(s[..|s| - 1], now) + (if Evaluate(s[|s| - 1], now).evict then {s[|s| - 1].id} else {})
  }

  lemma {:induction false} EvictedIdsMember(s: seq<Message>, now: int, id: MsgId)
    ensures id in EvictedIds(s, now) <==> exists k :: 0 <= k < |s| && s[k].id == id && Evaluate(s[k], now).evict
    decreases |s|
  {
    if s != [] {
      var init := s[..|s| - 1];
      EvictedIdsMember(init, now, id);
      assert forall k :: 0 <= k < |init| ==> init[k] == s[k];
    }
  }

  /** cleanDatabase: scan the whole collection, evaluate every message and delete
      the ones below quota. The pruned votes and new ratings are written only to
      the scanned copies (returned as `local`); the store sees nothing but the
      deletions. */
  method CleanDatabase(db: Collection, now: int) returns (scanned: seq<Message>, local: seq<Message>)
    requires db.Valid()
    modifies db
    ensures db.Valid()
    ensures db.docs == Survivors(old(db.docs), now)
    ensures forall k :: 0 <= k < |scanned| ==> scanned[k].id in old(db.docs) && old(db.docs)[scanned[k].id] == scanned[k]
    ensures forall id :: id in old(db.docs) ==> exists k :: 0 <= k < |scanned| && scanned[k].id == id
    ensures |local| == |scanned|
    ensures forall k :: 0 <= k < |scanned| ==> local[k] == Evaluate(scanned[k], now).local
  {
    scanned := db.FindAll();
    var msgs := new Message[|scanned|](k requires 0 <= k < |scanned| => scanned[k]);
    assert msgs[..] == scanned;
    SweepAll(db, msgs, now);
    local := msgs[..];
    LocalCopiesAt(scanned, now);
    SweepLeavesSurvivors(old(db.docs), scanned, now);
  }

  /** The outer loop of cleanDatabase over the scanned copies `msgs`. */
  method SweepAll(db: Collection, msgs: array<Message>, now: int)
    requires db.Valid()
    modifies db, msgs
    ensures db.Valid()
    ensures db.docs == old(db.docs) - EvictedIds(old(msgs[..]), now)
    ensures msgs[..] == LocalCopies(old(msgs[..]), now)
  {
    ghost var scanned := msgs[..];
    ghost var start := db.docs;
    for i := 0 to msgs.Length
      invariant db.Valid()
      invariant db.docs == start - EvictedIds(scanned[..i], now)
      invariant msgs[..i] == LocalCopies(scanned[..i], now)
      invariant msgs[i..] == scanned[i..]
    {
      assert scanned[..i + 1][..i] == scanned[..i];
      assert msgs[i] == scanned[i];
      ghost var gone := if Evaluate(scanned[i], now).evict then {scanned[i].id} else {};
      assert EvictedIds(scanned[..i + 1], now) == EvictedIds(scanned[..i], now) + gone;
      ghost var before := msgs[..];
      SweepMessage(db, msgs, i, now);
      RemoveTwice(start, EvictedIds(scanned[..i], now), gone);
      assert msgs[..i + 1] == msgs[..i] + [msgs[i]];
      assert forall k :: i < k < msgs.Length ==> msgs[k] == before[k] == scanned[k];
      assert msgs[i + 1..] == scanned[i + 1..];
    }
    assert scanned[..msgs.Length] == scanned;
  }

  /** The scanned copies after the sweep has evaluated each of them. */
  function LocalCopies(s: seq<Message>, now: int): (r: seq<Message>)
    ensures |r| == |s|
  {
    if s == [] then [] else LocalCopies(s[..|s| - 1], now) + [Evaluate(s[|s| - 1], now).local]
  }

  lemma {:induction false} LocalCopiesAt(s: seq<Message>, now: int)
    ensures forall k :: 0 <= k < |s| ==> LocalCopies(s, now)[k] == Evaluate(s[k], now).local
    decreases |s|
  {
    if s != [] {
      var init := s[..|s| - 1];
      LocalCopiesAt(init, now);
      assert forall k :: 0 <= k < |init| ==> init[k] == s[k];
    }
  }

  /** One turn of cleanDatabase's outer loop: evaluate `msgs[i]`, keep the
      result in the local copy, delete the message from the store if it failed
      its quota. */
  method SweepMessage(db: Collection, msgs: array<Message>, i: nat, now: int)
    requires db.Valid() && i < msgs.Length
    modifies db, msgs
    ensures db.Valid()
    ensures msgs[i] == Evaluate(old(msgs[i]), now).local
    ensures forall k :: 0 <= k < msgs.Length && k != i ==> msgs[k] == old(msgs[k])
    ensures db.docs == old(db.docs) - (if Evaluate(old(msgs[i]), now).evict then {old(msgs[i]).id} else {})
  {
    var m, evict := EvaluateMessage(msgs[i], now);
    msgs[i] := m;
    if evict {
      db.Remove(m.id);
    }
  }

  lemma RemoveTwice<K, V>(m: map<K, V>, a: set<K>, b: set<K>)
    ensures (m - a) - b == m - (a + b)
  {
  }

  /** Deleting the evicted ids of a full scan leaves exactly the survivors. */
  lemma SweepLeavesSurvivors(docs: map<MsgId, Message>, scanned: seq<Message>, now: int)
    requires forall k :: 0 <= k < |scanned| ==> scanned[k].id in docs && docs[scanned[k].id] == scanned[k]
    requires forall id :: id in docs ==> exists k :: 0 <= k < |scanned| && scanned[k].id == id
    ensures docs - EvictedIds(scanned, now) == Survivors(docs, now)
  {
    forall id | id in docs
      ensures id in EvictedIds(scanned, now) <==> Evaluate(docs[id], now).evict
    {
      EvictedIdsMember(scanned, now, id);
    }
  }
}
