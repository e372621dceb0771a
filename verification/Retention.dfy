/** Which backup generations survive pruning (tools/event_store_backup.py). */
module Retention {
  import opened Common

  /** A manifest. The three bucket keys are what the calendar makes of the completion time; nothing here
      depends on how it does that. */
  datatype Record = Record(id: BackupId, completed: int, day: BucketKey, week: BucketKey, month: BucketKey)

  datatype BackupId = BackupId(text: string)

  datatype BucketKey = BucketKey(text: string)

  datatype Policy = Policy(daily: int, weekly: int, monthly: int)

  datatype Kind = Daily | Weekly | Monthly

  function Bucket(kind: Kind, r: Record): BucketKey {
    match kind
    case Daily => r.day
    case Weekly => r.week
    case Monthly => r.month
  }

  // ---------- the meaning: a record is kept when it is the newest of a recent enough bucket ----------

  /** The buckets in which something newer than time t exists. */
  function NewerBuckets(kind: Kind, s: set<Record>, t: int): set<BucketKey> {
    set r | r in s && r.completed > t :: Bucket(kind, r)
  }

  predicate Leads(kind: Kind, quota: int, s: set<Record>, r: Record) {
    var newer := NewerBuckets(kind, s, r.completed);
    Bucket(kind, r) !in newer && |newer| < quota
  }

  function KeepBy(kind: Kind, quota: int, s: set<Record>): set<Record> {
    set r | r in s && Leads(kind, quota, s, r)
  }

  function Keep(p: Policy, s: set<Record>): set<Record> {
    KeepBy(Daily, p.daily, s) + KeepBy(Weekly, p.weekly, s) + KeepBy(Monthly, p.monthly, s)
  }

  ghost predicate DistinctTimes(s: set<Record>) {
    forall q, r :: q in s && r in s && q != r ==> q.completed != r.completed
  }

  /** A record is kept exactly when it is the newest of its day, its week or its month, and the days, weeks or
      months with something newer are fewer than the quota for them. */
  lemma KeptExactly(p: Policy, s: set<Record>, r: Record)
    ensures
      var newer := set q | q in s && q.completed > r.completed;
      var days, weeks, months :=
        (set q | q in newer :: q.day), (set q | q in newer :: q.week), (set q | q in newer :: q.month);
      r in Keep(p, s) <==>
        r in s && ((r.day !in days && |days| < p.daily) || (r.week !in weeks && |weeks| < p.weekly) ||
                   (r.month !in months && |months| < p.monthly))
  {
    var newer := set q | q in s && q.completed > r.completed;
    assert NewerBuckets(Daily, s, r.completed) == set q | q in newer :: q.day;
    assert NewerBuckets(Weekly, s, r.completed) == set q | q in newer :: q.week;
    assert NewerBuckets(Monthly, s, r.completed) == set q | q in newer :: q.month;
  }

  // ---------- path independence ----------

  lemma NewerGrows(kind: Kind, a: set<Record>, b: set<Record>, t: int)
    requires a <= b
    ensures NewerBuckets(kind, a, t) <= NewerBuckets(kind, b, t)
    ensures |NewerBuckets(kind, a, t)| <= |NewerBuckets(kind, b, t)|
  {
    SubsetSize(NewerBuckets(kind, a, t), NewerBuckets(kind, b, t));
  }

  /** Of the records newer than t, the kept ones reach as many buckets as all of them do, up to the
      quota. */
  lemma {:induction false} KeptReachBuckets(kind: Kind, quota: int, s: set<Record>, t: int)
    requires DistinctTimes(s) && quota >= 0
    ensures |NewerBuckets(kind, KeepBy(kind, quota, s), t)| >= quota ||
            NewerBuckets(kind, KeepBy(kind, quota, s), t) == NewerBuckets(kind, s, t)
    decreases |set r | r in s && r.completed > t|
  {
    var newer := set r | r in s && r.completed > t;
    if newer == {} {
      assert forall r :: r in s ==> r !in newer;
      NoneNewer(kind, s, t);
      NoneNewer(kind, KeepBy(kind, quota, s), t);
    } else {
      var oldest := Oldest(newer);
      var t' := oldest.completed;
      var newer' := set r | r in s && r.completed > t';
      assert newer == newer' + {oldest};
      KeptReachBuckets(kind, quota, s, t');
      OneMoreBucket(kind, quota, s, t, oldest);
    }
  }

  lemma NoneNewer(kind: Kind, s: set<Record>, t: int)
    requires forall r :: r in s ==> r.completed <= t
    ensures NewerBuckets(kind, s, t) == {}
  {
  }

  /** The step for the oldest record that is newer than t. */
  lemma OneMoreBucket(kind: Kind, quota: int, s: set<Record>, t: int, oldest: Record)
    requires oldest in s && oldest.completed > t
    requires forall r :: r in s && r.completed > t && r != oldest ==> r.completed > oldest.completed
    requires
      var kept := KeepBy(kind, quota, s);
      |NewerBuckets(kind, kept, oldest.completed)| >= quota ||
      NewerBuckets(kind, kept, oldest.completed) == NewerBuckets(kind, s, oldest.completed)
    ensures
      var kept := KeepBy(kind, quota, s);
      |NewerBuckets(kind, kept, t)| >= quota || NewerBuckets(kind, kept, t) == NewerBuckets(kind, s, t)
  {
    var kept := KeepBy(kind, quota, s);
    var all := NewerBuckets(kind, s, oldest.completed);
    var reached := NewerBuckets(kind, kept, oldest.completed);
    var after := NewerBuckets(kind, kept, t);
    OldestAddsBucket(kind, s, t, oldest);
    NewerGrows(kind, kept, s, t);
    NewerSince(kind, kept, t, oldest.completed);
    if |reached| >= quota {
      SubsetSize(reached, after);
    } else if Bucket(kind, oldest) !in all {
      assert Bucket(kind, oldest) in after by {
        assert oldest in kept;
      }
    }
    hide Bucket, NewerBuckets, KeepBy;
  }

  lemma OldestAddsBucket(kind: Kind, s: set<Record>, t: int, oldest: Record)
    requires oldest in s && oldest.completed > t
    requires forall r :: r in s && r.completed > t && r != oldest ==> r.completed > oldest.completed
    ensures NewerBuckets(kind, s, t) == NewerBuckets(kind, s, oldest.completed) + {Bucket(kind, oldest)}
  {
    hide Bucket;
  }

  lemma NewerSince(kind: Kind, s: set<Record>, t: int, later: int)
    requires t <= later
    ensures NewerBuckets(kind, s, later) <= NewerBuckets(kind, s, t)
  {
    hide Bucket;
  }

  lemma {:induction false} Oldest(s: set<Record>) returns (r: Record)
    requires s != {}
    ensures r in s && forall q :: q in s ==> q.completed >= r.completed
    decreases s
  {
    r :| r in s;
    if s != {r} {
      var q := Oldest(s - {r});
      if q.completed < r.completed {
        r := q;
      }
    }
  }

  /** For one kind of bucket: records already pruned from a can be forgotten for good. */
  lemma KeepByForgets(kind: Kind, quota: int, a: set<Record>, kept: set<Record>, b: set<Record>)
    requires DistinctTimes(a + b) && KeepBy(kind, quota, a) <= kept <= a
    ensures KeepBy(kind, quota, kept + b) == KeepBy(kind, quota, a + b)
  {
    forall r | r in KeepBy(kind, quota, a + b) ensures r in KeepBy(kind, quota, kept + b) {
      NewerGrows(kind, a, a + b, r.completed);
      NewerGrows(kind, kept + b, a + b, r.completed);
    }
    forall r | r in KeepBy(kind, quota, kept + b) ensures r in KeepBy(kind, quota, a + b) {
      var t := r.completed;
      KeptReachBuckets(kind, quota, a, t);
      NewerGrows(kind, KeepBy(kind, quota, a), kept + b, t);
      assert NewerBuckets(kind, KeepBy(kind, quota, a), t) == NewerBuckets(kind, a, t);
      assert NewerBuckets(kind, a + b, t) == NewerBuckets(kind, kept + b, t);
    }
  }

  /** Pruning is independent of the path: pruning early, even when some deletions failed, changes
      nothing about what a later pruning keeps. */
  lemma KeepForgets(p: Policy, a: set<Record>, kept: set<Record>, b: set<Record>)
    requires DistinctTimes(a + b) && Keep(p, a) <= kept <= a
    ensures Keep(p, kept + b) == Keep(p, a + b)
  {
    KeepByForgets(Daily, p.daily, a, kept, b);
    KeepByForgets(Weekly, p.weekly, a, kept, b);
    KeepByForgets(Monthly, p.monthly, a, kept, b);
  }

  lemma KeepIsIdempotent(p: Policy, a: set<Record>)
    requires DistinctTimes(a)
    ensures Keep(p, Keep(p, a)) == Keep(p, a)
  {
    assert a + {} == a && Keep(p, a) + {} == Keep(p, a);
    KeepForgets(p, a, Keep(p, a), {});
  }

  /** Backups arrive in batches; after each batch the store is pruned, and `left` are doomed records
      whose deletion failed that time. */
  datatype Round = Round(arrived: set<Record>, left: set<Record>)

  function Arrived(rounds: seq<Round>): set<Record> {
    if rounds == [] then {} else Arrived(rounds[..|rounds| - 1]) + rounds[|rounds| - 1].arrived
  }

  function Store(p: Policy, rounds: seq<Round>): set<Record> {
    if rounds == [] then {}
    else
      var last := rounds[|rounds| - 1];
      var before := Store(p, rounds[..|rounds| - 1]) + last.arrived;
      Keep(p, before) + (last.left * before)
  }

  /** One round on a store that still determines what to keep leaves a store that does. */
  lemma OneRound(p: Policy, all: set<Record>, store: set<Record>, last: Round)
    requires DistinctTimes(all + last.arrived) && Keep(p, all) <= store <= all
    ensures
      var before := store + last.arrived;
      var after := Keep(p, before) + (last.left * before);
      var everything := all + last.arrived;
      Keep(p, before) == Keep(p, everything) && Keep(p, everything) <= after <= everything &&
      Keep(p, after) == Keep(p, everything)
  {
    hide KeepBy;
    var before := store + last.arrived;
    var after := Keep(p, before) + (last.left * before);
    KeepForgets(p, all, store, last.arrived);
    KeepIsSubset(p, before);
    KeepForgets(p, before, after, {});
    assert before + {} == before && after + {} == after;
  }

  lemma KeepIsSubset(p: Policy, s: set<Record>)
    ensures Keep(p, s) <= s
  {
  }

  /** However the history is cut into rounds and whatever deletions fail, pruning the store keeps
      exactly what one pass over everything that ever arrived would keep. */
  lemma {:induction false} RepeatedPruningIsOnePass(p: Policy, rounds: seq<Round>)
    requires DistinctTimes(Arrived(rounds))
    ensures Keep(p, Arrived(rounds)) <= Store(p, rounds) <= Arrived(rounds)
    ensures Keep(p, Store(p, rounds)) == Keep(p, Arrived(rounds))
    ensures rounds != [] && rounds[|rounds| - 1].left == {} ==> Store(p, rounds) == Keep(p, Arrived(rounds))
  {
    hide Keep;
    if rounds == [] {
      KeepIsSubset(p, {});
    } else {
      var n := |rounds| - 1;
      RepeatedPruningIsOnePass(p, rounds[..n]);
      OneRound(p, Arrived(rounds[..n]), Store(p, rounds[..n]), rounds[n]);
    }
  }

  // ---------- sizes ----------

  function Buckets(kind: Kind, s: set<Record>): set<BucketKey> {
    set r | r in s :: Bucket(kind, r)
  }

  /** Each kind keeps one record for each of its most recent buckets, as many as the quota and the
      history allow. */
  lemma {:induction false} KeepByCount(kind: Kind, quota: int, s: set<Record>)
    requires DistinctTimes(s) && quota >= 0
    ensures |KeepBy(kind, quota, s)| == if |Buckets(kind, s)| < quota then |Buckets(kind, s)| else quota
    decreases s
  {
    hide Bucket, Buckets, KeepBy, NewerBuckets;
    if s == {} {
      NothingToKeep(kind, quota);
    } else {
      var r := Oldest(s);
      var rest := s - {r};
      KeepByCount(kind, quota, rest);
      KeepByWithOldest(kind, quota, rest, r);
      assert s == rest + {r};
      KeptAreRecords(kind, quota, rest);
      OneMore(KeepBy(kind, quota, rest), r);
      OneMore(Buckets(kind, rest), Bucket(kind, r));
    }
  }

  lemma OneMore<T>(s: set<T>, x: T)
    ensures |s + {x}| == |s| + if x in s then 0 else 1
  {
    if x in s {
      assert s + {x} == s;
    }
  }

  /** An older record adds itself, if its bucket is new and the quota is not used up, and changes nothing else. */
  lemma KeepByWithOldest(kind: Kind, quota: int, rest: set<Record>, r: Record)
    requires forall q :: q in rest ==> q.completed > r.completed
    ensures
      var added := Bucket(kind, r) !in Buckets(kind, rest) && |Buckets(kind, rest)| < quota;
      KeepBy(kind, quota, rest + {r}) == KeepBy(kind, quota, rest) + (if added then {r} else {}) &&
      Buckets(kind, rest + {r}) == Buckets(kind, rest) + {Bucket(kind, r)}
  {
    var s := rest + {r};
    hide NewerBuckets, Buckets, Bucket;
    NewerThanOldest(kind, rest, r);
    forall q | q in rest ensures Leads(kind, quota, s, q) == Leads(kind, quota, rest, q) {
      NewerWithoutOldest(kind, rest, r, q.completed);
    }
    assert Leads(kind, quota, s, r) <==> Bucket(kind, r) !in Buckets(kind, rest) && |Buckets(kind, rest)| < quota;
    assert r !in rest;
  }

  lemma NothingToKeep(kind: Kind, quota: int)
    ensures KeepBy(kind, quota, {}) == {} && Buckets(kind, {}) == {}
  {
  }

  lemma KeptAreRecords(kind: Kind, quota: int, s: set<Record>)
    ensures KeepBy(kind, quota, s) <= s
  {
  }

  lemma NewerThanOldest(kind: Kind, rest: set<Record>, r: Record)
    requires forall q :: q in rest ==> q.completed > r.completed
    ensures NewerBuckets(kind, rest + {r}, r.completed) == Buckets(kind, rest)
    ensures Buckets(kind, rest + {r}) == Buckets(kind, rest) + {Bucket(kind, r)}
  {
    hide Bucket;
  }

  lemma NewerWithoutOldest(kind: Kind, rest: set<Record>, r: Record, t: int)
    requires t >= r.completed
    ensures NewerBuckets(kind, rest + {r}, t) == NewerBuckets(kind, rest, t)
  {
    hide Bucket;
  }

  /** The whole policy never keeps more than the three quotas together. */
  lemma KeepCount(p: Policy, s: set<Record>)
    requires DistinctTimes(s) && p.daily >= 0 && p.weekly >= 0 && p.monthly >= 0
    ensures |Keep(p, s)| <= p.daily + p.weekly + p.monthly
  {
    KeepByCount(Daily, p.daily, s);
    KeepByCount(Weekly, p.weekly, s);
    KeepByCount(Monthly, p.monthly, s);
    UnionSize(KeepBy(Daily, p.daily, s), KeepBy(Weekly, p.weekly, s));
    UnionSize(KeepBy(Daily, p.daily, s) + KeepBy(Weekly, p.weekly, s), KeepBy(Monthly, p.monthly, s));
  }

  lemma UnionSize<T>(a: set<T>, b: set<T>)
    ensures |a + b| <= |a| + |b|
  {
    assert a + b == a + (b - a);
    SubsetSize(b - a, b);
  }

  // ---------- the loop ----------

  /** Insertion into a list sorted newest first. */
  function InsertNewestFirst(r: Record, s: seq<Record>): seq<Record> {
    if s == [] || r.completed >= s[0].completed then [r] + s else [s[0]] + InsertNewestFirst(r, s[1..])
  }

  /** The sort by completion time, newest first. */
  function NewestFirst(s: seq<Record>): seq<Record> {
    if s == [] then [] else InsertNewestFirst(s[0], NewestFirst(s[1..]))
  }

  ghost predicate StrictlyNewestFirst(s: seq<Record>) {
    s == [] || ((forall q :: q in s[1..] ==> q.completed < s[0].completed) && StrictlyNewestFirst(s[1..]))
  }

  ghost predicate NoTies(s: seq<Record>) {
    s == [] || ((forall q :: q in s[1..] ==> q.completed != s[0].completed) && NoTies(s[1..]))
  }

  lemma {:induction false} InsertSorts(r: Record, s: seq<Record>)
    ensures forall q :: q in InsertNewestFirst(r, s) <==> q == r || q in s
    ensures StrictlyNewestFirst(s) && (forall q :: q in s ==> q.completed != r.completed) ==>
              StrictlyNewestFirst(InsertNewestFirst(r, s))
  {
    if s != [] {
      assert forall q :: q in s <==> q == s[0] || q in s[1..];
      if r.completed < s[0].completed {
        InsertSorts(r, s[1..]);
        assert InsertNewestFirst(r, s)[1..] == InsertNewestFirst(r, s[1..]);
      } else {
        assert InsertNewestFirst(r, s)[1..] == s;
      }
    } else {
      assert InsertNewestFirst(r, s) == [r] && [r][1..] == [];
    }
  }

  lemma {:induction false} NewestFirstSorts(s: seq<Record>)
    ensures forall q :: q in NewestFirst(s) <==> q in s
    ensures NoTies(s) ==> StrictlyNewestFirst(NewestFirst(s))
  {
    if s != [] {
      NewestFirstSorts(s[1..]);
      InsertSorts(s[0], NewestFirst(s[1..]));
      assert forall q :: q in s <==> q == s[0] || q in s[1..];
    }
  }

  lemma {:induction false} LaterIsOlder(s: seq<Record>, i: nat)
    requires StrictlyNewestFirst(s) && i < |s|
    ensures forall q :: q in s[..i] ==> q.completed > s[i].completed
  {
    if i > 0 {
      LaterIsOlder(s[1..], i - 1);
      assert s[..i] == [s[0]] + s[1..][..i - 1];
      assert s[i] in s[1..];
    }
  }

  function SetOf(s: seq<Record>): set<Record> {
    set r | r in s
  }

  function Ids(s: set<Record>): set<BackupId> {
    set r | r in s :: r.id
  }

  /** The keys of a bucket dictionary after the buckets in `seen` were offered to it. */
  ghost predicate HasKeys(quota: int, seen: set<BucketKey>, buckets: map<BucketKey, BackupId>) {
    buckets.Keys <= seen && (if |seen| < quota then buckets.Keys == seen else |buckets| >= quota)
  }

  /** One bucket dictionary after the records in `seen`, when those were visited strictly newest first. */
  ghost predicate Filled(kind: Kind, quota: int, seen: set<Record>, buckets: map<BucketKey, BackupId>) {
    HasKeys(quota, Buckets(kind, seen), buckets) && buckets.Values == Ids(KeepBy(kind, quota, seen))
  }

  /** `if key not in buckets and len(buckets) < quota: buckets[key] = id` */
  function Offer(buckets: map<BucketKey, BackupId>, key: BucketKey, id: BackupId, quota: int): map<BucketKey,
                 BackupId> {
    if key !in buckets && |buckets| < quota then buckets[key := id] else buckets
  }

  lemma OfferKeys(quota: int, seen: set<BucketKey>, buckets: map<BucketKey, BackupId>, key: BucketKey, id: BackupId)
    requires HasKeys(quota, seen, buckets)
    ensures HasKeys(quota, seen + {key}, Offer(buckets, key, id, quota))
    ensures (key !in buckets && |buckets| < quota) <==> (key !in seen && |seen| < quota)
  {
    SubsetSize(buckets.Keys, seen);
    if key in seen {
      assert seen + {key} == seen;
    } else {
      assert buckets[key := id].Keys == buckets.Keys + {key};
    }
  }

  lemma OfferFills(kind: Kind, quota: int, seen: set<Record>, buckets: map<BucketKey, BackupId>, r: Record)
    requires Filled(kind, quota, seen, buckets)
    requires forall q :: q in seen ==> q.completed > r.completed
    ensures Filled(kind, quota, seen + {r}, Offer(buckets, Bucket(kind, r), r.id, quota))
  {
    var key := Bucket(kind, r);
    KeepByWithOldest(kind, quota, seen, r);
    OfferKeys(quota, Buckets(kind, seen), buckets, key, r.id);
    hide KeepBy, Buckets, Bucket, HasKeys;
    if key !in buckets && |buckets| < quota {
      OfferedValues(buckets, key, r.id);
      IdsOfOneMore(KeepBy(kind, quota, seen), r);
    }
  }

  lemma IdsOfOneMore(s: set<Record>, r: Record)
    ensures Ids(s + {r}) == Ids(s) + {r.id}
  {
  }

  lemma OfferedValues(m: map<BucketKey, BackupId>, key: BucketKey, id: BackupId)
    requires key !in m
    ensures m[key := id].Values == m.Values + {id} && |m[key := id]| == |m| + 1
  {
    var m' := m[key := id];
    assert m'.Keys == m.Keys + {key};
    assert m'[key] == id;
    forall v | v in m.Values ensures v in m'.Values {
      var k :| k in m && m[k] == v;
      assert m'[k] == v;
    }
  }

  lemma OfferedIds(m: map<BucketKey, BackupId>, key: BucketKey, id: BackupId, quota: int)
    ensures Offer(m, key, id, quota).Values <= m.Values + {id}
  {
    if key !in m {
      OfferedValues(m, key, id);
    }
  }

  lemma IdsOfKeep(p: Policy, s: set<Record>)
    ensures Ids(Keep(p, s)) ==
            Ids(KeepBy(Daily, p.daily, s)) + Ids(KeepBy(Weekly, p.weekly, s)) + Ids(KeepBy(Monthly, p.monthly, s))
  {
  }

  /** The three dictionaries hold ids of the records visited so far, and the right ones when those came
      strictly newest first. */
  ghost predicate AllFilled(p: Policy, strict: bool, seen: set<Record>, daily: map<BucketKey, BackupId>,
                            weekly: map<BucketKey, BackupId>, monthly: map<BucketKey, BackupId>)
  {
    daily.Values + weekly.Values + monthly.Values <= Ids(seen) &&
    (strict ==> Filled(Daily, p.daily, seen, daily) && Filled(Weekly, p.weekly, seen, weekly) &&
                Filled(Monthly, p.monthly, seen, monthly))
  }

  lemma AllFilledOneMore(p: Policy, strict: bool, seen: set<Record>, r: Record, daily: map<BucketKey, BackupId>,
                         weekly: map<BucketKey, BackupId>, monthly: map<BucketKey, BackupId>)
    requires AllFilled(p, strict, seen, daily, weekly, monthly)
    requires strict ==> forall q :: q in seen ==> q.completed > r.completed
    ensures AllFilled(p, strict, seen + {r}, Offer(daily, r.day, r.id, p.daily),
                      Offer(weekly, r.week, r.id, p.weekly), Offer(monthly, r.month, r.id, p.monthly))
  {
    hide Filled, Offer;
    IdsOfOneMore(seen, r);
    OfferedIds(daily, r.day, r.id, p.daily);
    OfferedIds(weekly, r.week, r.id, p.weekly);
    OfferedIds(monthly, r.month, r.id, p.monthly);
    if strict {
      OfferFills(Daily, p.daily, seen, daily, r);
      OfferFills(Weekly, p.weekly, seen, weekly, r);
      OfferFills(Monthly, p.monthly, seen, monthly, r);
    }
  }

  lemma AllFilledAtStart(p: Policy, strict: bool)
    ensures AllFilled(p, strict, {}, map[], map[], map[])
  {
  }

  lemma FilledIsKept(p: Policy, strict: bool, seen: set<Record>, daily: map<BucketKey, BackupId>,
                     weekly: map<BucketKey, BackupId>, monthly: map<BucketKey, BackupId>)
    requires AllFilled(p, strict, seen, daily, weekly, monthly)
    ensures daily.Values + weekly.Values + monthly.Values <= Ids(seen)
    ensures strict ==> daily.Values + weekly.Values + monthly.Values == Ids(Keep(p, seen))
  {
    IdsOfKeep(p, seen);
    hide Ids, Keep, KeepBy, HasKeys;
  }

  method FillBuckets(sorted: seq<Record>, p: Policy)
    returns (daily: map<BucketKey, BackupId>, weekly: map<BucketKey, BackupId>, monthly: map<BucketKey, BackupId>)
    ensures AllFilled(p, StrictlyNewestFirst(sorted), SetOf(sorted), daily, weekly, monthly)
    ensures |daily| <= MaxInt(0, p.daily) && |weekly| <= MaxInt(0, p.weekly) && |monthly| <= MaxInt(0, p.monthly)
  {
    hide AllFilled;
    ghost var strict := StrictlyNewestFirst(sorted);
    daily, weekly, monthly := map[], map[], map[];
    AllFilledAtStart(p, strict);
    assert SetOf(sorted[..0]) == {};
    var i := 0;
    while i < |sorted|
      invariant 0 <= i <= |sorted|
      invariant AllFilled(p, strict, SetOf(sorted[..i]), daily, weekly, monthly)
      invariant |daily| <= MaxInt(0, p.daily) && |weekly| <= MaxInt(0, p.weekly) && |monthly| <= MaxInt(0, p.monthly)
    {
      var r := sorted[i];
      if strict {
        LaterIsOlder(sorted, i);
      }
      AllFilledOneMore(p, strict, SetOf(sorted[..i]), r, daily, weekly, monthly);
      assert SetOf(sorted[..i + 1]) == SetOf(sorted[..i]) + {r};
      if r.day !in daily && |daily| < p.daily {
        daily := daily[r.day := r.id];
      }
      if r.week !in weekly && |weekly| < p.weekly {
        weekly := weekly[r.week := r.id];
      }
      if r.month !in monthly && |monthly| < p.monthly {
        monthly := monthly[r.month := r.id];
      }
      i := i + 1;
    }
    assert sorted[..i] == sorted;
  }

  lemma {:induction false} ValuesSize(m: map<BucketKey, BackupId>)
    ensures |m.Values| <= |m|
    decreases |m|
  {
    if m == map[] {
      assert m.Values == {};
    } else {
      var k :| k in m;
      var rest := m - {k};
      ValuesSize(rest);
      assert m.Keys == rest.Keys + {k};
      assert m.Values <= rest.Values + {m[k]};
      SubsetSize(m.Values, rest.Values + {m[k]});
    }
  }

  /** What the quotas allow altogether; a negative one allows nothing. */
  function Allowance(p: Policy): nat {
    MaxInt(0, p.daily) + MaxInt(0, p.weekly) + MaxInt(0, p.monthly)
  }

  /** The selection. Kept and deleted ids partition all ids,
    within the quotas; with distinct completion times the kept ones
      are exactly the ids of Keep. */
  method SelectGenerations(records: seq<Record>, p: Policy) returns (kept: set<BackupId>, toDelete: set<BackupId>)
    ensures kept + toDelete == Ids(SetOf(records)) && kept !! toDelete && |kept| <= Allowance(p)
    ensures NoTies(records) ==> kept == Ids(Keep(p, SetOf(records)))
  {
    hide AllFilled, Keep, Ids;
    var sorted := NewestFirst(records);
    NewestFirstSorts(records);
    assert SetOf(sorted) == SetOf(records);
    var daily, weekly, monthly := FillBuckets(sorted, p);
    FilledIsKept(p, StrictlyNewestFirst(sorted), SetOf(sorted), daily, weekly, monthly);
    kept := daily.Values + weekly.Values + monthly.Values;
    ValuesSize(daily);
    ValuesSize(weekly);
    ValuesSize(monthly);
    UnionSize(daily.Values, weekly.Values);
    UnionSize(daily.Values + weekly.Values, monthly.Values);
    toDelete := Ids(SetOf(sorted)) - kept;
  }

  // ---------- the backup directory ----------

  /** The verified backups on disk, by directory name. */
  class BackupRoot {
    var verified: map<BackupId, Record>

    predicate Valid()
      reads this
    {
      FiledById(verified)
    }

    function Records(): set<Record>
      reads this
    {
      RecordsOf(verified)
    }

    constructor ()
      ensures Valid() && Records() == {}
    {
      verified := map[];
    }

    method Add(r: Record)
      requires Valid() && r.id !in verified
      modifies this
      ensures Valid() && Records() == old(Records()) + {r}
    {
      verified := verified[r.id := r];
      assert verified[r.id] == r;
      forall q | q in old(Records()) ensures q in Records() {
        assert verified[q.id] == q;
      }
    }

    /** `apply_retention`: `listing` is the directory listing, `stuck` the directories whose removal
        fails. */
    method ApplyRetention(p: Policy, listing: seq<Record>, dryRun: bool, stuck: set<BackupId>)
      requires Valid() && SetOf(listing) == Records()
      modifies this
      ensures Valid()
      ensures dryRun ==> verified == old(verified)
      ensures !dryRun ==> OnlyRemoves(old(verified), verified, stuck) && |verified.Keys - stuck| <= Allowance(p)
      ensures !dryRun && NoTies(listing) ==>
        Records() == Keep(p, old(Records())) + (set r | r in old(Records()) && r.id in stuck)
    {
      hide Keep, NoTies;
      var kept, toDelete := SelectGenerations(listing, p);
      if !dryRun {
        PrunedKeys(verified, kept, toDelete, stuck);
        SubsetSize((verified - (toDelete - stuck)).Keys - stuck, kept);
        if NoTies(listing) {
          KeepIsSubset(p, Records());
          PrunedRecords(verified, Keep(p, Records()), toDelete, stuck);
        }
        verified := verified - (toDelete - stuck);
      }
    }
  }

  /** Nothing is added or changed, and what cannot be removed stays. */
  ghost predicate OnlyRemoves(before: map<BackupId, Record>, after: map<BackupId, Record>, stuck: set<BackupId>) {
    (forall id :: id in after ==> id in before && after[id] == before[id]) &&
    forall id :: id in before && id in stuck ==> id in after
  }

  function RecordsOf(filed: map<BackupId, Record>): set<Record> {
    set id | id in filed :: filed[id]
  }

  predicate FiledById(filed: map<BackupId, Record>) {
    forall id :: id in filed ==> filed[id].id == id
  }

  lemma IdsAreKeys(filed: map<BackupId, Record>)
    requires FiledById(filed)
    ensures Ids(RecordsOf(filed)) == filed.Keys
  {
    forall id | id in filed ensures id in Ids(RecordsOf(filed)) {
      assert filed[id] in RecordsOf(filed);
    }
  }

  lemma PrunedKeys(before: map<BackupId, Record>, kept: set<BackupId>, toDelete: set<BackupId>, stuck: set<BackupId>)
    requires FiledById(before) && kept + toDelete == Ids(RecordsOf(before))
    ensures
      var after := before - (toDelete - stuck);
      OnlyRemoves(before, after, stuck) && after.Keys - stuck <= kept
  {
    IdsAreKeys(before);
    hide Ids, RecordsOf;
  }

  lemma PrunedRecords(before: map<BackupId, Record>, keep: set<Record>, toDelete: set<BackupId>, stuck: set<BackupId>)
    requires FiledById(before) && keep <= RecordsOf(before)
    requires Ids(keep) + toDelete == Ids(RecordsOf(before)) && Ids(keep) !! toDelete
    ensures RecordsOf(before - (toDelete - stuck)) == keep + set r | r in RecordsOf(before) && r.id in stuck
  {
    var after := before - (toDelete - stuck);
    forall r | r in RecordsOf(before) ensures r in RecordsOf(after) <==> r in keep || r.id in stuck {
      RecordStays(before, keep, toDelete, stuck, r);
    }
    assert RecordsOf(after) <= RecordsOf(before);
  }

  lemma RecordStays(before: map<BackupId, Record>, keep: set<Record>, toDelete: set<BackupId>, stuck: set<BackupId>,
                    r: Record)
    requires FiledById(before) && keep <= RecordsOf(before) && r in RecordsOf(before)
    requires Ids(keep) + toDelete == Ids(RecordsOf(before)) && Ids(keep) !! toDelete
    ensures before[r.id] == r && (r in RecordsOf(before - (toDelete - stuck)) <==> r in keep || r.id in stuck)
  {
    assert r.id in Ids(RecordsOf(before));
    if r.id in Ids(keep) {
      var q :| q in keep && q.id == r.id;
      assert before[q.id] == q && before[r.id] == r;
    }
    var after := before - (toDelete - stuck);
    assert r in RecordsOf(after) <==> r.id in after by {
      if r.id in after {
        assert after[r.id] == r;
      }
    }
  }
}
