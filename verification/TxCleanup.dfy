/** Which transactions the periodic cleanup takes out: per network, the old ones and those that never got an ID. */
module TxCleanup {
  import opened HashHistory
  import opened TxStore

  const TX_STORE_MAX_SIZE: nat := 200_000
  /** 90% of the maximum. */
  const TX_STORE_KEPT: nat := 180_000

  /** Go's division of a duration by a second, which drops the fraction on either side of 0. */
  function Seconds(d: int): int {
    if d >= 0 then d / SECOND else -(-d / SECOND)
  }

  function Age(s: Store, now: int, hash: TxHash): int
    requires hash in s.txs
  {
    now - s.txs[hash].addTime
  }

  function Members(s: Store, network: nat): set<TxHash> {
    set hash | hash in s.txs && s.txs[hash].network == network
  }

  /** The network's transactions that are less than so many whole seconds old. */
  function Younger(s: Store, now: int, network: nat, seconds: int): set<TxHash> {
    set hash | hash in Members(s, network) && Seconds(Age(s, now, hash)) < seconds
  }

  /** The age, in seconds, in place 180,000 of the network's ages in ascending order. */
  ghost predicate IsCutoff(s: Store, now: int, network: nat, seconds: int) {
    |Younger(s, now, network, seconds)| < TX_STORE_KEPT <= |Younger(s, now, network, seconds + 1)|
  }

  lemma YoungerGrows(s: Store, now: int, network: nat, a: int, b: int)
    requires a <= b
    ensures Younger(s, now, network, a) <= Younger(s, now, network, b)
    ensures |Younger(s, now, network, a)| <= |Younger(s, now, network, b)|
  {
    var young, all := Younger(s, now, network, a), Younger(s, now, network, b);
    assert all == young + (all - young);
  }

  /** Between a count below and a count at or above 180,000 lies the cutoff. */
  lemma {:induction false} CutoffBetween(s: Store, now: int, network: nat, low: int, high: int)
    requires low <= high && |Younger(s, now, network, low)| < TX_STORE_KEPT <= |Younger(s, now, network, high)|
    ensures exists seconds :: IsCutoff(s, now, network, seconds)
    decreases high - low
  {
    if |Younger(s, now, network, low + 1)| >= TX_STORE_KEPT {
      assert IsCutoff(s, now, network, low);
    } else {
      CutoffBetween(s, now, network, low + 1, high);
    }
  }

  lemma {:induction false} AgesBounded(s: Store, now: int, hashes: set<TxHash>) returns (low: int, high: int)
    requires hashes <= s.txs.Keys
    ensures low <= high && forall hash :: hash in hashes ==> low <= Seconds(Age(s, now, hash)) < high
  {
    if hashes == {} {
      low, high := 0, 0;
    } else {
      var hash :| hash in hashes;
      low, high := AgesBounded(s, now, hashes - {hash});
      var age := Seconds(Age(s, now, hash));
      low, high := if age < low then age else low, if age >= high then age + 1 else high;
    }
  }

  lemma CutoffExists(s: Store, now: int, network: nat)
    requires |Members(s, network)| >= TX_STORE_KEPT
    ensures exists seconds :: IsCutoff(s, now, network, seconds)
  {
    var low, high := AgesBounded(s, now, Members(s, network));
    assert Younger(s, now, network, low) == {};
    assert Younger(s, now, network, high) == Members(s, network);
    CutoffBetween(s, now, network, low, high);
  }

  lemma CutoffUnique(s: Store, now: int, network: nat, a: int, b: int)
    requires IsCutoff(s, now, network, a) && IsCutoff(s, now, network, b)
    ensures a == b
  {
    if a < b {
      YoungerGrows(s, now, network, a + 1, b);
    } else if b < a {
      YoungerGrows(s, now, network, b + 1, a);
    }
  }

  ghost function Cutoff(s: Store, now: int, network: nat): (seconds: int)
    requires |Members(s, network)| >= TX_STORE_KEPT
    ensures IsCutoff(s, now, network, seconds)
  {
    CutoffExists(s, now, network);
    var seconds :| IsCutoff(s, now, network, seconds);
    seconds
  }

  ghost function MaxAge(c: Settings, s: Store, now: int, network: nat): int {
    if |Members(s, network)| <= TX_STORE_MAX_SIZE then c.maxTxAge
    else if Cutoff(s, now, network) * SECOND > c.maxTxAge then c.maxTxAge
    else Cutoff(s, now, network) * SECOND
  }

  predicate LacksID(c: Settings, s: Store, now: int, hash: TxHash)
    requires hash in s.txs
  {
    Age(s, now, hash) > c.noTxIDAge && s.txs[hash].ids == []
  }

  ghost predicate Doomed(c: Settings, s: Store, now: int, hash: TxHash)
    requires hash in s.txs
  {
    Age(s, now, hash) > MaxAge(c, s, now, s.txs[hash].network) || LacksID(c, s, now, hash)
  }

  ghost function DoomedSet(c: Settings, s: Store, now: int): set<TxHash> {
    set hash | hash in s.txs && Doomed(c, s, now, hash)
  }

  ghost function Cleaned(c: Settings, s: Store, now: int): Store {
    Without(c, s, now, DoomedSet(c, s, now), FullReEntryProtection)
  }

  // How much the cleanup leaves

  /** The network's transactions exactly so many seconds old. */
  function ExactlyAged(s: Store, now: int, network: nat, seconds: int): set<TxHash> {
    set hash | hash in Members(s, network) && Age(s, now, hash) == seconds * SECOND
  }

  ghost predicate NonNegativeAges(s: Store, now: int, network: nat) {
    forall hash :: hash in Members(s, network) ==> s.txs[hash].addTime <= now
  }

  ghost predicate DistinctTimes(s: Store, network: nat) {
    forall a, b :: a in Members(s, network) && b in Members(s, network) && a != b ==> s.txs[a].addTime != s.txs[b].addTime
  }

  /** The network's transactions that go for want of an ID, if not for their age. */
  function Unnumbered(c: Settings, s: Store, now: int, network: nat): set<TxHash> {
    set hash | hash in Members(s, network) && LacksID(c, s, now, hash)
  }

  /** The cutoff, and not the general maximum age, decides. */
  ghost predicate CutoffRules(c: Settings, s: Store, now: int, network: nat)
    requires |Members(s, network)| >= TX_STORE_KEPT
  {
    Cutoff(s, now, network) * SECOND <= c.maxTxAge
  }

  /** The network's transactions of at most that age. */
  function NoOlder(s: Store, now: int, network: nat, age: int): set<TxHash> {
    set hash | hash in Members(s, network) && Age(s, now, hash) <= age
  }

  /** Ages are cut to whole seconds towards 0. */
  lemma SecondsTruncates(d: int)
    ensures d >= 0 ==> Seconds(d) * 1_000_000_000 <= d < (Seconds(d) + 1) * 1_000_000_000
    ensures d <= 0 ==> (Seconds(d) - 1) * 1_000_000_000 < d <= Seconds(d) * 1_000_000_000
  {
  }

  /** The age below which fewer than 180,000 of the network's lie, in whole seconds, and up to which at least as many. */
  ghost predicate RanksAt(s: Store, now: int, network: nat, seconds: int) {
    && |set hash | hash in Members(s, network) && Seconds(now - s.txs[hash].addTime) < seconds| < 180_000
    && |set hash | hash in Members(s, network) && Seconds(now - s.txs[hash].addTime) <= seconds| >= 180_000
  }

  lemma RanksAtIsCutoff(s: Store, now: int, network: nat, seconds: int)
    ensures RanksAt(s, now, network, seconds) <==> IsCutoff(s, now, network, seconds)
  {
    assert (set hash | hash in Members(s, network) && Seconds(now - s.txs[hash].addTime) < seconds)
        == Younger(s, now, network, seconds);
    assert (set hash | hash in Members(s, network) && Seconds(now - s.txs[hash].addTime) <= seconds)
        == Younger(s, now, network, seconds + 1);
  }

  /**
   * Which transactions a cleanup keeps, in any network: those no older than the maximum age that do not
   * lack an ID past the age for it and, where the network has more than 200,000, are no older than the
   * age in whole seconds that ranks at 180,000.
   */
  lemma CleanKeepsExactly(c: Settings, s: Store, now: int, hash: TxHash)
    requires hash in s.txs
    ensures var tx := s.txs[hash];
            var age, full := now - tx.addTime, |set h | h in s.txs && s.txs[h].network == tx.network| > 200_000;
            && (hash in Cleaned(c, s, now).txs
                <==> age <= c.maxTxAge && !(age > c.noTxIDAge && tx.ids == [])
                     && (full ==> exists seconds :: RanksAt(s, now, tx.network, seconds) && age <= seconds * 1_000_000_000))
            && (hash in Cleaned(c, s, now).txs ==> Cleaned(c, s, now).txs[hash] == tx)
  {
    var network := s.txs[hash].network;
    assert (set h | h in s.txs && s.txs[h].network == network) == Members(s, network);
    if |Members(s, network)| > TX_STORE_MAX_SIZE {
      var cutoff := Cutoff(s, now, network);
      RanksAtIsCutoff(s, now, network, cutoff);
      forall seconds | RanksAt(s, now, network, seconds) ensures seconds == cutoff {
        RanksAtIsCutoff(s, now, network, seconds);
        CutoffUnique(s, now, network, seconds, cutoff);
      }
    }
  }

  /** What a cleanup takes out is barred for the full time, and its IDs find nothing; no other hash or ID is touched. */
  lemma CleanBars(c: Settings, s: Store, now: int, hash: TxHash, id: TxID)
    ensures var s' := Cleaned(c, s, now);
            && (if hash in s.txs && hash !in s'.txs then hash in s'.seen && s'.seen[hash] == now + c.timeToAvoidReEntry
                else (hash in s'.seen <==> hash in s.seen) && (hash in s.seen ==> s'.seen[hash] == s.seen[hash]))
            && (id in s'.index <==> id in s.index && forall h :: h in s.txs && h !in s'.txs ==> id !in s.txs[h].ids)
            && (id in s'.index ==> s'.index[id] == s.index[id])
  {
  }

  /**
   * What a full network keeps, exactly: when the cutoff rules, the younger transactions and those at
   * the cutoff to the nanosecond; otherwise those no older than the maximum age, all of them younger.
   * Those that lack an ID go in any case.
   */
  lemma CleanLeavesExactly(c: Settings, s: Store, now: int, network: nat)
    requires |Members(s, network)| > TX_STORE_MAX_SIZE && NonNegativeAges(s, now, network)
    ensures var cutoff := Cutoff(s, now, network);
            var left, young := Members(Cleaned(c, s, now), network), Younger(s, now, network, cutoff);
            && young !! ExactlyAged(s, now, network, cutoff)
            && if CutoffRules(c, s, now, network) then left == young + ExactlyAged(s, now, network, cutoff) - Unnumbered(c, s, now, network)
               else left == NoOlder(s, now, network, c.maxTxAge) - Unnumbered(c, s, now, network) && left <= young
  {
    var cutoff := Cutoff(s, now, network);
    forall hash | hash in Members(s, network)
      ensures hash in Members(Cleaned(c, s, now), network) <==> !Doomed(c, s, now, hash)
      ensures Age(s, now, hash) <= cutoff * SECOND
              <==> hash in Younger(s, now, network, cutoff) + ExactlyAged(s, now, network, cutoff) {
    }
  }

  lemma SizeWithin<T>(a: set<T>, b: set<T>)
    requires a <= b
    ensures |a| <= |b|
  {
    assert b == a + (b - a);
  }

  /** A full network keeps less than 180,000 transactions, and besides only those at the cutoff to the nanosecond. */
  lemma CleanLeaves(c: Settings, s: Store, now: int, network: nat)
    requires |Members(s, network)| > TX_STORE_MAX_SIZE && NonNegativeAges(s, now, network)
    ensures |Members(Cleaned(c, s, now), network)| < TX_STORE_KEPT + |ExactlyAged(s, now, network, Cutoff(s, now, network))|
  {
    var cutoff := Cutoff(s, now, network);
    CleanLeavesExactly(c, s, now, network);
    SizeWithin(Members(Cleaned(c, s, now), network), Younger(s, now, network, cutoff) + ExactlyAged(s, now, network, cutoff));
  }

  /**
   * When a full network ends at or below 90% of the maximum: exactly when the general maximum age
   * decides, or the younger transactions and those at the cutoff, lacking IDs apart, are that few.
   */
  lemma NinetyPercentIff(c: Settings, s: Store, now: int, network: nat)
    requires |Members(s, network)| > TX_STORE_MAX_SIZE && NonNegativeAges(s, now, network)
    ensures var young, exact := Younger(s, now, network, Cutoff(s, now, network)), ExactlyAged(s, now, network, Cutoff(s, now, network));
            && (|Members(Cleaned(c, s, now), network)| <= TX_STORE_KEPT
                <==> !CutoffRules(c, s, now, network) || |young + exact - Unnumbered(c, s, now, network)| <= TX_STORE_KEPT)
            && (Unnumbered(c, s, now, network) == {} ==>
                  (|Members(Cleaned(c, s, now), network)| <= TX_STORE_KEPT
                   <==> !CutoffRules(c, s, now, network) || |young| + |exact| <= TX_STORE_KEPT))
  {
    var cutoff := Cutoff(s, now, network);
    var young, exact := Younger(s, now, network, cutoff), ExactlyAged(s, now, network, cutoff);
    CleanLeavesExactly(c, s, now, network);
    if !CutoffRules(c, s, now, network) {
      SizeWithin(Members(Cleaned(c, s, now), network), young);
    } else if Unnumbered(c, s, now, network) == {} {
      assert young + exact - {} == young + exact && |young + exact| == |young| + |exact|;
    }
  }

  lemma AtMostOneExact(s: Store, now: int, network: nat, seconds: int)
    requires DistinctTimes(s, network)
    ensures |ExactlyAged(s, now, network, seconds)| <= 1
  {
    var exact := ExactlyAged(s, now, network, seconds);
    if hash :| hash in exact {
      assert exact == {hash};
    }
  }

  /** A full network with distinct add times keeps at most 90% of the maximum, though ages are counted in whole seconds. */
  lemma CleanLeavesNinetyPercent(c: Settings, s: Store, now: int, network: nat)
    requires |Members(s, network)| > TX_STORE_MAX_SIZE && NonNegativeAges(s, now, network) && DistinctTimes(s, network)
    ensures |Members(Cleaned(c, s, now), network)| <= TX_STORE_KEPT
  {
    CleanLeaves(c, s, now, network);
    AtMostOneExact(s, now, network, Cutoff(s, now, network));
  }

  /** Distinct add times are needed: a network whose transactions were all added at this moment keeps every one, however many. */
  lemma BurstSurvives(c: Settings, s: Store, now: int, network: nat, hash: TxHash)
    requires forall h :: h in Members(s, network) ==> s.txs[h].addTime == now
    requires c.maxTxAge >= 0 && c.noTxIDAge >= 0 && hash in Members(s, network)
    ensures hash in Members(Cleaned(c, s, now), network)
  {
  }

  /** What a cleanup takes out is what it counts. */
  lemma CleanConserves(c: Settings, s: Store, now: int)
    ensures |s.txs| == |Cleaned(c, s, now).txs| + |DoomedSet(c, s, now)|
  {
  }

  // Ages in a list

  function CountBelow(ages: seq<int>, age: int): (n: nat)
    ensures n <= |ages|
  {
    if ages == [] then 0
    else CountBelow(ages[..|ages| - 1], age) + if ages[|ages| - 1] < age then 1 else 0
  }

  ghost predicate Ascending(ages: seq<int>) {
    forall i, j :: 0 <= i < j < |ages| ==> ages[i] <= ages[j]
  }

  function Inserted(ages: seq<int>, x: int): (r: seq<int>)
    requires Ascending(ages)
    ensures Ascending(r) && |r| == |ages| + 1
    ensures r[|ages|] == if ages == [] || ages[|ages| - 1] <= x then x else ages[|ages| - 1]
  {
    if ages == [] then [x]
    else if ages[|ages| - 1] <= x then ages + [x]
    else Inserted(ages[..|ages| - 1], x) + [ages[|ages| - 1]]
  }

  lemma {:induction false} InsertedCounts(ages: seq<int>, x: int, age: int)
    requires Ascending(ages)
    ensures CountBelow(Inserted(ages, x), age) == CountBelow(ages, age) + if x < age then 1 else 0
  {
    if ages != [] && ages[|ages| - 1] > x {
      var init, last := ages[..|ages| - 1], ages[|ages| - 1];
      InsertedCounts(init, x, age);
      NotedCount(Inserted(init, x), last, age);
    } else {
      NotedCount(ages, x, age);
    }
  }

  function SortInts(ages: seq<int>): (r: seq<int>)
    ensures Ascending(r) && |r| == |ages|
  {
    if ages == [] then [] else Inserted(SortInts(ages[..|ages| - 1]), ages[|ages| - 1])
  }

  lemma {:induction false} SortIntsCounts(ages: seq<int>, age: int)
    ensures CountBelow(SortInts(ages), age) == CountBelow(ages, age)
  {
    if ages != [] {
      SortIntsCounts(ages[..|ages| - 1], age);
      InsertedCounts(SortInts(ages[..|ages| - 1]), ages[|ages| - 1], age);
    }
  }

  /** In ascending order, place k holds an age of at least a exactly when no more than k ages are below a. */
  lemma {:induction false} AscendingRank(ages: seq<int>, age: int, k: nat)
    requires Ascending(ages) && k < |ages|
    ensures ages[k] >= age <==> CountBelow(ages, age) <= k
  {
    var n := |ages| - 1;
    var init := ages[..n];
    if k < n {
      AscendingRank(init, age, k);
    } else if n > 0 {
      AscendingRank(init, age, n - 1);
    }
    if ages[n] < age && n > 0 {
      AscendingRank(init, age, n - 1);
    }
  }

  /** The age in place 180,000 of the sorted list is the cutoff. */
  lemma SortedAgeIsCutoff(s: Store, now: int, network: nat, ages: seq<int>)
    requires |ages| > TX_STORE_MAX_SIZE && |Members(s, network)| == |ages|
    requires forall age :: CountBelow(ages, age) == |Younger(s, now, network, age)|
    ensures SortInts(ages)[TX_STORE_KEPT - 1] == Cutoff(s, now, network)
  {
    var sorted, k := SortInts(ages), TX_STORE_KEPT - 1;
    var age := sorted[k];
    AscendingRank(sorted, age, k);
    AscendingRank(sorted, age + 1, k);
    SortIntsCounts(ages, age);
    SortIntsCounts(ages, age + 1);
    assert IsCutoff(s, now, network, age);
    CutoffUnique(s, now, network, age, Cutoff(s, now, network));
  }

  // Walking the store

  lemma LeftOneLess<T>(all: set<T>, left: set<T>, x: T)
    requires x in left && left <= all
    ensures x !in all - left && all - (left - {x}) == all - left + {x}
  {
  }

  lemma CountOneMore<T>(chosen: set<T>, done: set<T>, x: T)
    requires x !in done
    ensures chosen * (done + {x}) == if x in chosen then chosen * done + {x} else chosen * done
    ensures |chosen * (done + {x})| == |chosen * done| + if x in chosen then 1 else 0
  {
  }

  function AgeNoted(ages: map<nat, seq<int>>, network: nat, age: int): map<nat, seq<int>> {
    ages[network := (if network in ages then ages[network] else []) + [age]]
  }

  /** The ages per network that a walk over some of the store collects. */
  function AgesAlong(s: Store, now: int, walk: seq<TxHash>): map<nat, seq<int>>
    requires forall hash :: hash in walk ==> hash in s.txs
  {
    if walk == [] then map[]
    else
      var hash := walk[|walk| - 1];
      AgeNoted(AgesAlong(s, now, walk[..|walk| - 1]), s.txs[hash].network, Seconds(Age(s, now, hash)))
  }

  ghost predicate Distinct<T>(walk: seq<T>) {
    forall i, j :: 0 <= i < j < |walk| ==> walk[i] != walk[j]
  }

  /** The network's list of ages counts those of its members that have been walked over. */
  ghost predicate Counts(s: Store, now: int, ages: map<nat, seq<int>>, done: set<TxHash>, network: nat, age: int) {
    if network in ages then
      |ages[network]| == |Members(s, network) * done| && CountBelow(ages[network], age) == |Younger(s, now, network, age) * done|
    else Members(s, network) * done == {}
  }

  lemma CountsOneMore(s: Store, now: int, ages: map<nat, seq<int>>, done: set<TxHash>, hash: TxHash, age: int)
    requires hash in s.txs && hash !in done && Counts(s, now, ages, done, s.txs[hash].network, age)
    ensures Counts(s, now, AgeNoted(ages, s.txs[hash].network, Seconds(Age(s, now, hash))), done + {hash}, s.txs[hash].network, age)
  {
    var network := s.txs[hash].network;
    CountOneMore(Members(s, network), done, hash);
    CountOneMore(Younger(s, now, network, age), done, hash);
    NotedCount(if network in ages then ages[network] else [], Seconds(Age(s, now, hash)), age);
    if network !in ages {
      assert Younger(s, now, network, age) * done <= Members(s, network) * done;
    }
  }

  lemma CountsOther(s: Store, now: int, ages: map<nat, seq<int>>, done: set<TxHash>, hash: TxHash, network: nat,
          age: int)
    requires hash in s.txs && hash !in done && network != s.txs[hash].network && Counts(s, now, ages, done, network, age)
    ensures Counts(s, now, AgeNoted(ages, s.txs[hash].network, Seconds(Age(s, now, hash))), done + {hash}, network, age)
  {
    assert Members(s, network) * (done + {hash}) == Members(s, network) * done;
    assert Younger(s, now, network, age) * (done + {hash}) == Younger(s, now, network, age) * done;
  }

  lemma {:induction false} AgesAlongCount(s: Store, now: int, walk: seq<TxHash>, network: nat, age: int)
    requires (forall hash :: hash in walk ==> hash in s.txs) && Distinct(walk)
    ensures Counts(s, now, AgesAlong(s, now, walk), Hashes(walk), network, age)
  {
    if walk == [] {
      assert Members(s, network) * Hashes(walk) == {};
    } else {
      var init, hash := walk[..|walk| - 1], walk[|walk| - 1];
      AgesAlongCount(s, now, init, network, age);
      HashesOneMore(init, hash);
      assert walk == init + [hash];
      if network == s.txs[hash].network {
        CountsOneMore(s, now, AgesAlong(s, now, init), Hashes(init), hash, age);
      } else {
        CountsOther(s, now, AgesAlong(s, now, init), Hashes(init), hash, network, age);
      }
    }
  }

  lemma NotWalked(walk: seq<TxHash>, hash: TxHash)
    requires hash !in Hashes(walk)
    ensures hash !in walk
  {
  }

  lemma DistinctOneMore(walk: seq<TxHash>, hash: TxHash)
    requires Distinct(walk) && hash !in walk
    ensures Distinct(walk + [hash])
  {
  }

  lemma HashesOneMore(walk: seq<TxHash>, hash: TxHash)
    ensures Hashes(walk + [hash]) == Hashes(walk) + {hash}
  {
  }

  /** One more step of a walk meets one more of the chosen, or none. */
  lemma ChosenNext(chosen: set<TxHash>, walk: seq<TxHash>, i: nat)
    requires Distinct(walk) && i < |walk|
    ensures var before, after := chosen * Hashes(walk[..i]), chosen * Hashes(walk[..i + 1]);
            && after == (if walk[i] in chosen then before + {walk[i]} else before)
            && |after| == |before| + if walk[i] in chosen then 1 else 0
  {
  }

  lemma ChosenWhole(chosen: set<TxHash>, walk: seq<TxHash>)
    requires chosen <= Hashes(walk)
    ensures chosen * Hashes(walk[..0]) == {} && chosen * Hashes(walk[..|walk|]) == chosen
  {
  }

  lemma NotedCount(ages: seq<int>, noted: int, age: int)
    ensures |ages + [noted]| == |ages| + 1
    ensures CountBelow(ages + [noted], age) == CountBelow(ages, age) + if noted < age then 1 else 0
  {
  }

  /** A walk over the whole store collects every member's age, and no network without members. */
  lemma AgesAlongAll(s: Store, now: int, walk: seq<TxHash>, network: nat)
    requires Distinct(walk) && Hashes(walk) == s.txs.Keys
    ensures (forall hash :: hash in walk ==> hash in s.txs)
    ensures network in AgesAlong(s, now, walk) <==> Members(s, network) != {}
    ensures network in AgesAlong(s, now, walk) ==>
              var ages := AgesAlong(s, now, walk)[network];
              |ages| == |Members(s, network)| && forall age :: CountBelow(ages, age) == |Younger(s, now, network, age)|
  {
    assert forall hash :: hash in walk ==> hash in Hashes(walk);
    assert Members(s, network) * s.txs.Keys == Members(s, network);
    AgesAlongCount(s, now, walk, network, 0);
    if network in AgesAlong(s, now, walk) {
      AgesAlongKept(s, now, walk, network);
      forall age ensures CountBelow(AgesAlong(s, now, walk)[network], age) == |Younger(s, now, network, age)| {
        AgesAlongCount(s, now, walk, network, age);
        assert Younger(s, now, network, age) * s.txs.Keys == Younger(s, now, network, age);
      }
    }
  }

  lemma {:induction false} AgesAlongKept(s: Store, now: int, walk: seq<TxHash>, network: nat)
    requires forall hash :: hash in walk ==> hash in s.txs
    requires network in AgesAlong(s, now, walk)
    ensures AgesAlong(s, now, walk)[network] != []
  {
    if walk != [] && s.txs[walk[|walk| - 1]].network != network {
      AgesAlongKept(s, now, walk[..|walk| - 1], network);
    }
  }

  /** The test that the cleanup makes of one transaction. */
  predicate ShouldGo(c: Settings, now: int, tx: Tx, maxAge: int) {
    now - tx.addTime > maxAge || (now - tx.addTime > c.noTxIDAge && tx.ids == [])
  }

  /** With each network's maximum age, the test tells exactly the transactions to take out. */
  lemma ShouldGoIffDoomed(c: Settings, s: Store, now: int, maxAges: map<nat, int>)
    requires forall hash :: hash in s.txs ==> s.txs[hash].network in maxAges
    requires forall network :: network in maxAges ==> maxAges[network] == MaxAge(c, s, now, network)
    ensures forall hash :: hash in s.txs ==> (hash in DoomedSet(c, s, now) <==> ShouldGo(c, now, s.txs[hash], maxAges[s.txs[hash].network]))
  {
  }

  // The removed IDs

  function IDsNoted(ids: map<nat, seq<TxID>>, network: nat, more: seq<TxID>): map<nat, seq<TxID>> {
    ids[network := (if network in ids then ids[network] else []) + more]
  }

  /** The IDs per network that a walk over some of the store hands out, taking out the doomed. */
  function IDsAlong(s: Store, doomed: set<TxHash>, walk: seq<TxHash>): map<nat, seq<TxID>> {
    if walk == [] then map[]
    else
      var before, hash := IDsAlong(s, doomed, walk[..|walk| - 1]), walk[|walk| - 1];
      if hash in doomed && hash in s.txs then IDsNoted(before, s.txs[hash].network, s.txs[hash].ids) else before
  }

  lemma IDsNext(s: Store, doomed: set<TxHash>, walk: seq<TxHash>, i: nat, tx: Tx)
    requires i < |walk| && walk[i] in s.txs && s.txs[walk[i]] == tx
    ensures IDsAlong(s, doomed, walk[..i + 1])
            == if walk[i] in doomed then IDsNoted(IDsAlong(s, doomed, walk[..i]), tx.network, tx.ids) else IDsAlong(s, doomed, walk[..i])
  {
    assert walk[..i + 1][..i] == walk[..i];
  }

  /** The network's transactions among those taken out. */
  function GoneFrom(s: Store, doomed: set<TxHash>, network: nat): set<TxHash> {
    doomed * Members(s, network)
  }

  lemma GoneOneMore(s: Store, doomed: set<TxHash>, done: set<TxHash>, hash: TxHash, network: nat)
    requires hash in s.txs
    ensures GoneFrom(s, doomed * (done + {hash}), network)
            == if hash in doomed && s.txs[hash].network == network then GoneFrom(s, doomed * done, network) + {hash}
               else GoneFrom(s, doomed * done, network)
  {
  }

  lemma IDsOfOneMore(s: Store, gone: set<TxHash>, hash: TxHash)
    requires hash in s.txs
    ensures IDsOf(s, gone + {hash}) == IDsOf(s, gone) + Listed(s.txs[hash].ids)
  {
    forall id | id in s.txs[hash].ids ensures id in IDsOf(s, gone + {hash}) {
      assert hash in gone + {hash};
    }
    forall id | id in IDsOf(s, gone) ensures id in IDsOf(s, gone + {hash}) {
      var h :| h in gone && h in s.txs && id in s.txs[h].ids;
      assert h in gone + {hash};
    }
  }

  lemma {:induction false} IDsAlongListed(s: Store, doomed: set<TxHash>, walk: seq<TxHash>, network: nat)
    requires forall hash :: hash in walk ==> hash in s.txs
    ensures var ids, gone := IDsAlong(s, doomed, walk), GoneFrom(s, doomed * Hashes(walk), network);
            && (network in ids <==> gone != {})
            && (network in ids ==> Listed(ids[network]) == IDsOf(s, gone))
  {
    if walk == [] {
      assert GoneFrom(s, doomed * Hashes(walk), network) == {};
    } else {
      var init, hash := walk[..|walk| - 1], walk[|walk| - 1];
      IDsAlongListed(s, doomed, init, network);
      HashesOneMore(init, hash);
      assert walk == init + [hash];
      GoneOneMore(s, doomed, Hashes(init), hash, network);
      if hash in doomed && s.txs[hash].network == network {
        var before := IDsAlong(s, doomed, init);
        IDsOfOneMore(s, GoneFrom(s, doomed * Hashes(init), network), hash);
        ListedConcat(if network in before then before[network] else [], s.txs[hash].ids);
        assert hash in GoneFrom(s, doomed * Hashes(walk), network);
      }
    }
  }

  lemma ListedConcat(a: seq<TxID>, b: seq<TxID>)
    ensures Listed(a + b) == Listed(a) + Listed(b)
  {
  }

  /** A walk over the whole store hands out exactly the networks that lose transactions, each with the IDs these listed. */
  lemma IDsAlongAll(s: Store, doomed: set<TxHash>, walk: seq<TxHash>, network: nat)
    requires Hashes(walk) == s.txs.Keys
    ensures var ids, gone := IDsAlong(s, doomed, walk), GoneFrom(s, doomed, network);
            && (network in ids <==> gone != {})
            && (network in ids ==> Listed(ids[network]) == IDsOf(s, gone))
  {
    assert forall hash :: hash in walk ==> hash in Hashes(walk);
    assert GoneFrom(s, doomed * Hashes(walk), network) == GoneFrom(s, doomed, network);
    IDsAlongListed(s, doomed, walk, network);
  }

  /** No ID is listed twice, by one transaction or by two. */
  ghost predicate IDsOnce(s: Store) {
    && (forall hash :: hash in s.txs ==> Distinct(s.txs[hash].ids))
    && forall a, b, id :: a in s.txs && b in s.txs && id in s.txs[a].ids && id in s.txs[b].ids ==> a == b
  }

  lemma DistinctJoin<T>(a: seq<T>, b: seq<T>)
    requires Distinct(a) && Distinct(b) && forall x :: x in a ==> x !in b
    ensures Distinct(a + b)
  {
    var all := a + b;
    forall i, j | 0 <= i < j < |all| ensures all[i] != all[j] {
      if i < |a| <= j {
        assert all[i] in a && all[j] in b;
      }
    }
  }

  /** Then no ID is handed out twice. */
  lemma {:induction false} IDsAlongOnce(s: Store, doomed: set<TxHash>, walk: seq<TxHash>, network: nat)
    requires IDsOnce(s) && Distinct(walk) && forall hash :: hash in walk ==> hash in s.txs
    ensures network in IDsAlong(s, doomed, walk) ==> Distinct(IDsAlong(s, doomed, walk)[network])
  {
    if walk != [] {
      var init, hash := walk[..|walk| - 1], walk[|walk| - 1];
      IDsAlongOnce(s, doomed, init, network);
      var before := IDsAlong(s, doomed, init);
      if hash in doomed && s.txs[hash].network == network && network in before {
        IDsAlongListed(s, doomed, init, network);
        forall id | id in before[network] ensures id !in s.txs[hash].ids {
          assert id in Listed(before[network]);
          var h :| h in GoneFrom(s, doomed * Hashes(init), network) && h in s.txs && id in s.txs[h].ids;
          assert h in init;
        }
        DistinctJoin(before[network], s.txs[hash].ids);
      }
    }
  }
}
