/** The read, vote and normalise path of database.js: the randomised, freshness
    biased sample of getMessages, the per-voter idempotent voteFor, and the
    min/max rescaling of ratings in normalize/getMinMax. The store query is a
    parameter that returns rows matching a filter, at most `limit` of them when
    `limit` is positive; the clock and `Math.random` are parameters too. */
module Database {
  import opened Messages
  import opened Store

  // ---------------------------------------------------------------------------
  // The query filter

  /** `time: {$gt: t}` or `time: {$lt: t}`. */
  datatype TimeFilter = After(bound: int) | Before(bound: int)

  /** `rand: {$gte: x}` or `rand: {$lte: x}`. */
  datatype RandFilter = AtLeast(key: real) | AtMost(key: real)

  /** `location: {$geoWithin: {$box: [corner1, corner2]}}`. */
  datatype Box = Box(corner1: Location, corner2: Location)

  /** The `search` object; `nsfw` is None when the field is absent. */
  datatype Search = Search(time: TimeFilter, rand: RandFilter, box: Box, nsfw: Option<bool>)

  /** One call of `query(search, returnFields, sortOrder, size)`. */
  datatype Request = Request(search: Search, order: int, limit: int)

  /** `x` lies between `a` and `b`, in whichever order those two come. */
  predicate Between(x: real, a: real, b: real)
  {
    (a <= x <= b) || (b <= x <= a)
  }

  /** The `$box` test: the point lies in the rectangle the two corners span. */
  predicate WithinBox(p: Location, b: Box)
  {
    Between(p.lng, b.corner1.lng, b.corner2.lng) && Between(p.lat, b.corner1.lat, b.corner2.lat)
  }

  predicate TimeMatches(time: int, f: TimeFilter)
  {
    match f
    case After(t) => time > t
    case Before(t) => time < t
  }

  predicate RandMatches(key: real, f: RandFilter)
  {
    match f
    case AtLeast(x) => key >= x
    case AtMost(x) => key <= x
  }

  /** A stored message matches every field of the search object. */
  predicate Satisfies(m: Message, s: Search)
  {
    TimeMatches(m.time, s.time) && RandMatches(m.rand, s.rand) && WithinBox(m.location, s.box)
    && (s.nsfw.Some? ==> m.nsfw == s.nsfw.value)
  }

  /** What the store promises of a query: only matching rows, and no more than
      the limit when the limit is positive (a limit of 0 means no limit). */
  ghost predicate StoreQuery(query: Request -> seq<Message>)
  {
    forall r: Request ::
      (r.limit > 0 ==> |query(r)| <= r.limit) && (forall m :: m in query(r) ==> Satisfies(m, r.search))
  }

  /** The fresh and the aged time filters are strict on both sides of the same
      bound: no message matches both, and one stamped exactly at the bound
      matches neither. */
  lemma AgeFiltersDisjoint(m: Message, newer: Search, older: Search, bound: int)
    requires newer.time == After(bound) && older.time == Before(bound)
    ensures !(Satisfies(m, newer) && Satisfies(m, older))
    ensures m.time == bound ==> !Satisfies(m, newer) && !Satisfies(m, older)
  {
  }

  /** The flipped rand inequality used by the fallback query. */
  function Flip(f: RandFilter): (r: RandFilter)
    ensures r.key == f.key && r.AtLeast? != f.AtLeast?
  {
    match f
    case AtLeast(x) => AtMost(x)
    case AtMost(x) => AtLeast(x)
  }

  // ---------------------------------------------------------------------------
  // Size arithmetic and random draws

  /** `Math.ceil((querySize * 20) / 100)`: the size of the fresh slice, the
      smallest n with 5n >= querySize. */
  function NewMsgQuerySize(querySize: int): (n: int)
    ensures 5 * (n - 1) < querySize <= 5 * n
    ensures querySize >= 0 ==> 0 <= n <= querySize
    ensures querySize >= 1 ==> n >= 1
    ensures querySize >= 2 ==> n < querySize
  {
    var x := (querySize * 20) as real / 100.0;
    var f := (-x).Floor;
    assert f as real <= -x < f as real + 1.0;
    -f
  }

  /** `Math.floor(r * (max - min + 1) + min)` for a draw r in [0,1): an integer
      between min and max. */
  function RandomIntegerInRange(min: int, max: int, r: real): (n: int)
    requires 0.0 <= r < 1.0
    ensures min <= max ==> min <= n <= max
  {
    var x := r * (max - min + 1) as real + min as real;
    if min <= max then
      ScaledDrawBelow(r, max - min + 1);
      x.Floor
    else
      x.Floor
  }

  lemma ScaledDrawBelow(r: real, w: int)
    requires 0.0 <= r < 1.0 && w >= 1
    ensures 0.0 <= r * w as real < w as real
  {
    assert r * w as real <= 1.0 * w as real - (1.0 - r) * w as real;
  }

  /** `randomIntegerInRange(1, 2) % 2 == 0 ? 1 : -1`: ascending when the draw is
      at least one half, descending otherwise. */
  function SortOrder(draw: real): (order: int)
    requires 0.0 <= draw < 1.0
    ensures order == 1 || order == -1
    ensures order == 1 <==> draw >= 0.5
  {
    var n := RandomIntegerInRange(1, 2, draw);
    assert n == 2 <==> draw >= 0.5 by {
      assert (draw * 2.0 + 1.0).Floor == n;
    }
    if n % 2 == 0 then 1 else -1
  }

  // ---------------------------------------------------------------------------
  // getMessages

  /** A request on this box, with the nsfw field present exactly when the
      caller excludes flagged messages, sorted in this order. */
  predicate Scoped(r: Request, box: Box, nsfwStatus: bool, order: int)
  {
    r.search.box == box && r.order == order && r.search.nsfw == if nsfwStatus then Some(false) else None
  }

  /** The rows getMessages normalises: fresh and aged slices together, or the
      fallback's rows when those were both empty. */
  function Collected(issued: seq<Request>, query: Request -> seq<Message>): seq<Message>
    requires |issued| == 2 || |issued| == 3
  {
    if |issued| == 2 then query(issued[0]) + query(issued[1]) else query(issued[2])
  }

  /** getMessages: the fresh query (newer than one hour before `start`), the aged
      query (older than that) for the rest of the requested size, the fallback
      with the rand inequality flipped when both were empty, then normalize.
      `searchThreshold` and `orderDraw` are the two `Math.random()` draws;
      `issued` lists the queries sent to the store, in order. */
  method GetMessages(querySize: int, nsfwStatus: bool, nw: Location, se: Location, start: int,
                     searchThreshold: real, orderDraw: real, query: Request -> seq<Message>)
    returns (msgs: seq<Message>, issued: seq<Request>)
    requires 0.0 <= searchThreshold < 1.0 && 0.0 <= orderDraw < 1.0
    requires StoreQuery(query)
    ensures |issued| == 2 || |issued| == 3
    // the time filters: fresh, then aged (also kept by the fallback)
    ensures issued[0].search.time == After(start - OneHourMsec)
    ensures forall k :: 1 <= k < |issued| ==> issued[k].search.time == Before(start - OneHourMsec)
    // the rand filter: a ceiling above one half, a floor otherwise; flipped by the fallback
    ensures issued[0].search.rand == issued[1].search.rand
    ensures issued[0].search.rand == if searchThreshold > 0.5 then AtMost(searchThreshold) else AtLeast(searchThreshold)
    ensures |issued| == 3 ==> issued[2].search.rand == Flip(issued[0].search.rand)
    // the same box, nsfw field and sort order everywhere
    ensures forall k :: 0 <= k < |issued| ==> Scoped(issued[k], Box(nw, se), nsfwStatus, issued[0].order)
    ensures issued[0].order == SortOrder(orderDraw)
    // the sizes requested
    ensures issued[0].limit == NewMsgQuerySize(querySize)
    ensures issued[1].limit == querySize - |query(issued[0])|
    ensures |issued| == 3 <==> query(issued[0]) + query(issued[1]) == []
    ensures |issued| == 3 ==> issued[2].limit == querySize
    // the answer: the collected rows, normalised where the division is defined
    ensures var rows := Collected(issued, query);
      |msgs| == |rows| && (forall i :: 0 <= i < |msgs| ==> msgs[i] == rows[i].(rating := msgs[i].rating))
      && (Spread(rows) ==> msgs == Normalized(rows))
    ensures forall m :: m in Collected(issued, query) ==> WithinBox(m.location, Box(nw, se)) && (nsfwStatus ==> !m.nsfw)
    ensures querySize >= 2 ==> |msgs| <= querySize
  {
    var newMsgQuerySize := NewMsgQuerySize(querySize);
    var newTimeFact := start - OneHourMsec;
    var search := Search(After(newTimeFact), AtLeast(searchThreshold), Box(nw, se), None);
    if nsfwStatus {
      search := search.(nsfw := Some(false));
    }
    if searchThreshold > 0.5 {
      search := search.(rand := AtMost(searchThreshold));
    }
    var sortOrder := SortOrder(orderDraw);

    var freshQuery := Request(search, sortOrder, newMsgQuerySize);
    var rows := query(freshQuery);
    search := search.(time := Before(newTimeFact));
    var agedQuery := Request(search, sortOrder, querySize - |rows|);
    rows := rows + query(agedQuery);
    issued := [freshQuery, agedQuery];

    if |rows| == 0 {
      if searchThreshold > 0.5 {
        search := search.(rand := AtLeast(searchThreshold));
      } else {
        search := search.(rand := AtMost(searchThreshold));
      }
      var fallbackQuery := Request(search, sortOrder, querySize);
      rows := query(fallbackQuery);
      issued := issued + [fallbackQuery];
    }
    assert rows == Collected(issued, query);
    assert Scoped(issued[0], Box(nw, se), nsfwStatus, sortOrder) && Scoped(issued[1], Box(nw, se), nsfwStatus, sortOrder);
    RowsAdmissible(query, issued, Box(nw, se), nsfwStatus);
    if querySize >= 2 {
      CollectedWithinSize(query, issued, querySize);
    }
    msgs := NormalizeRows(rows);
  }

  /** With at least two rows requested every query has a positive limit, so the
      collected rows are no more than requested: the aged query asks for what
      the fresh one left, the fallback for the whole size. */
  lemma CollectedWithinSize(query: Request -> seq<Message>, issued: seq<Request>, querySize: int)
    requires StoreQuery(query) && (|issued| == 2 || |issued| == 3) && querySize >= 2
    requires issued[0].limit == NewMsgQuerySize(querySize)
    requires issued[1].limit == querySize - |query(issued[0])|
    requires |issued| == 3 ==> issued[2].limit == querySize
    ensures |Collected(issued, query)| <= querySize
  {
    assert |query(issued[0])| <= issued[0].limit;
    if |issued| == 2 {
      assert |query(issued[1])| <= issued[1].limit;
    } else {
      assert |query(issued[2])| <= issued[2].limit;
    }
  }

  /** Every row the store can return for a request on this box and nsfw field
      lies in the box and, when the nsfw field is set, is not flagged. */
  lemma RowsAdmissible(query: Request -> seq<Message>, issued: seq<Request>, box: Box, nsfwStatus: bool)
    requires StoreQuery(query) && (|issued| == 2 || |issued| == 3)
    requires forall k :: 0 <= k < |issued| ==> Scoped(issued[k], box, nsfwStatus, issued[0].order)
    ensures forall m :: m in Collected(issued, query) ==> WithinBox(m.location, box) && (nsfwStatus ==> !m.nsfw)
  {
    forall m | m in Collected(issued, query)
      ensures WithinBox(m.location, box) && (nsfwStatus ==> !m.nsfw)
    {
      var k := if |issued| == 3 then 2 else if m in query(issued[0]) then 0 else 1;
      assert m in query(issued[k]);
      assert Satisfies(m, issued[k].search);
    }
  }

  /** The call `normalize(msgs)` at the end of getMessages. When min and max
      coincide (and are not 1 and 10) every rating becomes 0/0, a NaN, which has
      no real value: the model leaves it unspecified, the same for every row. */
  method NormalizeRows(rows: seq<Message>) returns (msgs: seq<Message>)
    ensures |msgs| == |rows|
    ensures forall i :: 0 <= i < |msgs| ==> msgs[i] == rows[i].(rating := msgs[i].rating)
    ensures Spread(rows) ==> msgs == Normalized(rows)
    ensures !Spread(rows) ==> forall i, j :: 0 <= i < j < |msgs| ==> msgs[i].rating == msgs[j].rating
  {
    if Spread(rows) {
      var a := new Message[|rows|](i requires 0 <= i < |rows| => rows[i]);
      assert a[..] == rows;
      Normalize(a);
      msgs := a[..];
    } else {
      var nan: real :| true;
      msgs := seq(|rows|, i requires 0 <= i < |rows| => rows[i].(rating := nan));
    }
  }

  // ---------------------------------------------------------------------------
  // voteFor

  /** Some vote in the list is from `vid`. */
  predicate HasVoted(votes: seq<Vote>, vid: VendorId)
  {
    exists i :: 0 <= i < |votes| && votes[i].vendorID == vid
  }

  /** No voter appears twice in the list. */
  predicate DistinctVoters(votes: seq<Vote>)
  {
    forall i, j :: 0 <= i < j < |votes| ==> votes[i].vendorID != votes[j].vendorID
  }

  /** Within each stored message, no voter appears twice. */
  predicate VotersUnique(docs: map<MsgId, Message>)
  {
    forall id :: id in docs ==> DistinctVoters(docs[id].votes)
  }

  /** The number of votes in the list cast by `vid`. */
  function VotesBy(votes: seq<Vote>, vid: VendorId): nat
  {
    if votes == [] then 0
    else VotesBy(votes[..|votes| - 1], vid) + (if votes[|votes| - 1].vendorID == vid then 1 else 0)
  }

  /** What voteFor does to the store and what it returns (None for the bare
      `return`, which yields `undefined`). */
  function CastVote(docs: map<MsgId, Message>, msgID: MsgId, vid: VendorId, now: int)
    : (r: (map<MsgId, Message>, Option<bool>))
    ensures r.1 == None <==> msgID in docs && HasVoted(docs[msgID].votes, vid)
    ensures r.1 == None || r.1 == Some(true)
    ensures r.1 == None ==> r.0 == docs
    ensures r.0.Keys == docs.Keys
    ensures forall id :: id in docs && id != msgID ==> r.0[id] == docs[id]
  {
    if msgID !in docs then (docs, Some(true))
    else if HasVoted(docs[msgID].votes, vid) then (docs, None)
    else (docs[msgID := docs[msgID].(votes := docs[msgID].votes + [Vote(vid, now)])], Some(true))
  }

  /** voteFor: look the message up; scan its votes for `vid` and return early if
      found; otherwise append one vote stamped `now`. */
  method VoteFor(db: Collection, msgID: MsgId, vid: VendorId, now: int) returns (r: Option<bool>)
    requires db.Valid()
    modifies db
    ensures db.Valid()
    ensures (db.docs, r) == CastVote(old(db.docs), msgID, vid, now)
  {
    var msg := db.Find(msgID);
    if msg.Some? {
      var votes := msg.value.votes;
      for i := 0 to |votes|
        invariant forall k :: 0 <= k < i ==> votes[k].vendorID != vid
      {
        if vid == votes[i].vendorID {
          return None;
        }
      }
      db.Push(msgID, Vote(vid, now));
    }
    return Some(true);
  }

  /** A recorded vote is the only change: it is appended at the end of that
      message's votes, with everything else about the store as it was. */
  lemma VoteAppendsOne(docs: map<MsgId, Message>, msgID: MsgId, vid: VendorId, now: int)
    requires msgID in docs && !HasVoted(docs[msgID].votes, vid)
    ensures var after := CastVote(docs, msgID, vid, now).0;
      after[msgID].votes[..|docs[msgID].votes|] == docs[msgID].votes
      && |after[msgID].votes| == |docs[msgID].votes| + 1
      && after[msgID].votes[|docs[msgID].votes|] == Vote(vid, now)
      && after[msgID] == docs[msgID].(votes := after[msgID].votes)
  {
  }

  /** voteFor keeps every message's voters distinct. */
  lemma VoteForKeepsVotersUnique(docs: map<MsgId, Message>, msgID: MsgId, vid: VendorId, now: int)
    requires VotersUnique(docs)
    ensures VotersUnique(CastVote(docs, msgID, vid, now).0)
  {
    if msgID in docs && !HasVoted(docs[msgID].votes, vid) {
      var votes := docs[msgID].votes;
      var votes' := votes + [Vote(vid, now)];
      forall i, j | 0 <= i < j < |votes'|
        ensures votes'[i].vendorID != votes'[j].vendorID
      {
        if j == |votes| {
          assert votes'[i] == votes[i];
        }
      }
    }
  }

  /** In a list without repeated voters, a voter who has voted has exactly one vote. */
  lemma {:induction false} DistinctVotesBy(votes: seq<Vote>, vid: VendorId)
    requires DistinctVoters(votes)
    ensures VotesBy(votes, vid) == if HasVoted(votes, vid) then 1 else 0
    decreases |votes|
  {
    if votes != [] {
      var init := votes[..|votes| - 1];
      assert DistinctVoters(init) by {
        forall i, j | 0 <= i < j < |init| ensures init[i].vendorID != init[j].vendorID {
          assert init[i] == votes[i] && init[j] == votes[j];
        }
      }
      DistinctVotesBy(init, vid);
      if votes[|votes| - 1].vendorID == vid {
        assert !HasVoted(init, vid);
      } else {
        if HasVoted(votes, vid) {
          var i :| 0 <= i < |votes| && votes[i].vendorID == vid;
          assert init[i] == votes[i];
        }
      }
    }
  }

  /** Two votes in a row by the same voter for the same message leave exactly one
      vote from that voter; the second call writes nothing and returns undefined. */
  lemma VoteTwiceRecordsOnce(docs: map<MsgId, Message>, msgID: MsgId, vid: VendorId, now1: int, now2: int)
    requires VotersUnique(docs) && msgID in docs
    ensures var (once, _) := CastVote(docs, msgID, vid, now1);
            var (twice, reply) := CastVote(once, msgID, vid, now2);
            twice == once && reply == None && VotesBy(twice[msgID].votes, vid) == 1
  {
    var (once, _) := CastVote(docs, msgID, vid, now1);
    VoteForKeepsVotersUnique(docs, msgID, vid, now1);
    if !HasVoted(docs[msgID].votes, vid) {
      assert once[msgID].votes[|docs[msgID].votes|].vendorID == vid;
    }
    assert HasVoted(once[msgID].votes, vid);
    DistinctVotesBy(once[msgID].votes, vid);
  }

  // ---------------------------------------------------------------------------
  // getMinMax and normalize

  /** The `{min, max}` object of getMinMax. */
  datatype MinMax = MinMax(min: real, max: real)

  /** `low` after the scan of getMinMax: starts at 10 and takes every smaller rating. */
  function LowScan(s: seq<Message>): (low: real)
    ensures low <= 10.0
    ensures forall i :: 0 <= i < |s| ==> low <= s[i].rating
    ensures low == 10.0 || exists i :: 0 <= i < |s| && s[i].rating == low
  {
    if s == [] then 10.0
    else
      var low := LowScan(s[..|s| - 1]);
      if s[|s| - 1].rating < low then s[|s| - 1].rating else low
  }

  /** `high` after the scan of getMinMax: starts at 1 and takes every larger rating. */
  function HighScan(s: seq<Message>): (high: real)
    ensures high >= 1.0
    ensures forall i :: 0 <= i < |s| ==> s[i].rating <= high
    ensures high == 1.0 || exists i :: 0 <= i < |s| && s[i].rating == high
  {
    if s == [] then 1.0
    else
      var high := HighScan(s[..|s| - 1]);
      if s[|s| - 1].rating > high then s[|s| - 1].rating else high
  }

  /** What getMinMax returns: {min: 1, max: 10} for no rows, otherwise the scans. */
  function MinMaxOf(s: seq<Message>): (mm: MinMax)
    ensures forall i :: 0 <= i < |s| ==> mm.min <= s[i].rating <= mm.max
    ensures mm.min <= 10.0 && mm.max >= 1.0
    ensures |s| == 0 ==> mm == MinMax(1.0, 10.0)
    ensures |s| > 0 ==> (mm.min == 10.0 || exists i :: 0 <= i < |s| && s[i].rating == mm.min)
    ensures |s| > 0 ==> (mm.max == 1.0 || exists i :: 0 <= i < |s| && s[i].rating == mm.max)
  {
    if |s| == 0 then MinMax(1.0, 10.0) else MinMax(LowScan(s), HighScan(s))
  }

  /** normalize rescales unless min is 1 and max is 10; rescaling divides by
      max - min, so it is defined only when they differ. */
  predicate Spread(s: seq<Message>)
  {
    var mm := MinMaxOf(s);
    (mm.min == 1.0 && mm.max == 10.0) || mm.min != mm.max
  }

  /** When every rating is 1, as for messages stored by insertMessage (the sweep
      never writes a rating back), min and max are both 1 and the rescaling
      divides zero by zero. */
  lemma AllOnesNotSpread(s: seq<Message>)
    requires s != [] && forall i :: 0 <= i < |s| ==> s[i].rating == 1.0
    ensures MinMaxOf(s) == MinMax(1.0, 1.0) && !Spread(s)
  {
    assert LowScan(s) <= s[0].rating;
  }

  /** The rating of one row after normalize's rescaling. */
  function Rescaled(m: Message, mm: MinMax): Message
    requires mm.max != mm.min
  {
    m.(rating := (m.rating - mm.min) / (mm.max - mm.min) * 10.0)
  }

  /** The rows after normalize: unchanged when min is 1 and max is 10, every
      rating rescaled otherwise; only ratings change. */
  function Normalized(s: seq<Message>): (r: seq<Message>)
    requires Spread(s)
    ensures |r| == |s|
    ensures forall i :: 0 <= i < |s| ==> r[i] == s[i].(rating := r[i].rating)
  {
    var mm := MinMaxOf(s);
    if mm.min == 1.0 && mm.max == 10.0 then s
    else seq(|s|, i requires 0 <= i < |s| => Rescaled(s[i], mm))
  }

  /** With min 1 and max 10 normalize changes nothing. */
  lemma NormalizeIdentity(s: seq<Message>)
    requires MinMaxOf(s) == MinMax(1.0, 10.0)
    ensures Spread(s) && Normalized(s) == s
  {
  }

  /** Otherwise every rating lands in [0, 10] and the order of ratings is kept. */
  lemma NormalizedRange(s: seq<Message>)
    requires Spread(s) && MinMaxOf(s) != MinMax(1.0, 10.0)
    ensures forall i :: 0 <= i < |s| ==> 0.0 <= Normalized(s)[i].rating <= 10.0
    ensures forall i, j :: 0 <= i < |s| && 0 <= j < |s| ==>
      (s[i].rating <= s[j].rating <==> Normalized(s)[i].rating <= Normalized(s)[j].rating)
  {
    var mm := MinMaxOf(s);
    if s != [] {
      assert mm.min <= s[0].rating <= mm.max;
      var d := mm.max - mm.min;
      assert d > 0.0;
      forall i | 0 <= i < |s|
        ensures 0.0 <= Normalized(s)[i].rating <= 10.0
      {
        ScaleBounds(s[i].rating - mm.min, d);
      }
      forall i, j | 0 <= i < |s| && 0 <= j < |s|
        ensures s[i].rating <= s[j].rating <==> Normalized(s)[i].rating <= Normalized(s)[j].rating
      {
        ScaleMonotone(s[i].rating - mm.min, s[j].rating - mm.min, d);
      }
    }
  }

  lemma ScaleBounds(a: real, d: real)
    requires d > 0.0 && 0.0 <= a <= d
    ensures 0.0 <= a / d * 10.0 <= 10.0
  {
    assert a / d <= 1.0 by {
      assert (a / d) * d == a;
    }
  }

  lemma ScaleMonotone(a: real, b: real, d: real)
    requires d > 0.0
    ensures a <= b <==> a / d * 10.0 <= b / d * 10.0
  {
    assert (a / d) * d == a && (b / d) * d == b;
    if a / d <= b / d {
      assert (a / d) * d <= (b / d) * d;
    }
  }

  /** getMinMax: scan the rows for the lowest and highest rating. */
  method GetMinMax(msgs: array<Message>) returns (mm: MinMax)
    ensures mm == MinMaxOf(msgs[..])
  {
    if msgs.Length == 0 {
      return MinMax(1.0, 10.0);
    }
    var low, high := 10.0, 1.0;
    for i := 0 to msgs.Length
      invariant low == LowScan(msgs[..i]) && high == HighScan(msgs[..i])
    {
      assert msgs[..i + 1][..i] == msgs[..i];
      if msgs[i].rating > high {
        high := msgs[i].rating;
      }
      if msgs[i].rating < low {
        low := msgs[i].rating;
      }
    }
    assert msgs[..msgs.Length] == msgs[..];
    mm := MinMax(low, high);
  }

  /** normalize: rescale every rating in place unless min is 1 and max is 10. */
  method Normalize(msgs: array<Message>)
    requires Spread(msgs[..])
    modifies msgs
    ensures msgs[..] == Normalized(old(msgs[..]))
  {
    var minMax := GetMinMax(msgs);
    if minMax.min != 1.0 || minMax.max != 10.0 {
      for i := 0 to msgs.Length
        invariant forall k :: 0 <= k < i ==> msgs[k] == Rescaled(old(msgs[k]), minMax)
        invariant forall k :: i <= k < msgs.Length ==> msgs[k] == old(msgs[k])
      {
        var x := msgs[i].rating;
        var normalX := ((x - minMax.min) / (minMax.max - minMax.min)) * 10.0;
        msgs[i] := msgs[i].(rating := normalX);
      }
    }
  }
}
