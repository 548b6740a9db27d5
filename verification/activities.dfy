/** `getActivitiesStats` of `src/utils.ts`: how often each activity tag
    occurs over all representatives' tag lists (a tag listed twice by one
    representative counts twice), most frequent first. The source counts into a
    JavaScript `Map` (which remembers insertion order), lists its entries,
    and sorts them with `Array.prototype.sort`, which is stable; the model
    keeps all three steps. */
module Activities {
  import opened Wrappers
  import opened Domain
  import Seqs

  datatype ActivityStat = ActivityStat(name: string, count: nat)

  /** The tags of one representative; a missing `activity` contributes none. */
  function ActivityTags(rep: Representative): seq<string> {
    match rep.activity
    case None => []
    case Some(tags) => tags
  }

  /** Every tag of every representative, in visiting order. */
  function AllTags(reps: seq<Representative>): seq<string> {
    if |reps| == 0 then []
    else AllTags(reps[..|reps| - 1]) + ActivityTags(reps[|reps| - 1])
  }

  // ---------------------------------------------------------------------
  // The counting Map

  /** A `Map<string, number>`: its keys in insertion order and its contents. */
  datatype Counter = Counter(keys: seq<string>, counts: map<string, nat>)

  ghost predicate Valid(c: Counter) {
    && (forall i, j :: 0 <= i < j < |c.keys| ==> c.keys[i] != c.keys[j])
    && (forall t :: t in c.counts <==> t in c.keys)
  }

  /** `Array.from(map.entries()).map(([name, count]) => ({ name, count }))`. */
  function Entries(c: Counter): (r: seq<ActivityStat>)
    requires Valid(c)
    ensures |r| == |c.keys|
    ensures forall i :: 0 <= i < |r| ==> r[i].name == c.keys[i] && r[i].count == c.counts[c.keys[i]]
  {
    seq(|c.keys|, i requires 0 <= i < |c.keys| => ActivityStat(c.keys[i], c.counts[c.keys[i]]))
  }

  function SumCounts(s: seq<ActivityStat>): nat {
    if |s| == 0 then 0 else s[0].count + SumCounts(s[1..])
  }

  lemma {:induction false} SumCountsAppend(a: seq<ActivityStat>, b: seq<ActivityStat>)
    ensures SumCounts(a + b) == SumCounts(a) + SumCounts(b)
  {
    if |a| == 0 {
      assert a + b == b;
    } else {
      assert (a + b)[1..] == a[1..] + b;
      SumCountsAppend(a[1..], b);
    }
  }

  /** Raising one entry's count by one raises the total by one. */
  lemma {:induction false} SumCountsBump(s: seq<ActivityStat>, p: nat)
    requires p < |s|
    ensures SumCounts(s[p := ActivityStat(s[p].name, s[p].count + 1)]) == SumCounts(s) + 1
  {
    if p > 0 {
      SumCountsBump(s[1..], p - 1);
      assert s[p := ActivityStat(s[p].name, s[p].count + 1)][1..] ==
             s[1..][p - 1 := ActivityStat(s[p].name, s[p].count + 1)];
    }
  }

  /** `map.set(tag, (map.get(tag) || 0) + 1)`: an existing key keeps its
      place and gains one; a new key is appended with count 1. */
  function Increment(c: Counter, tag: string): (r: Counter)
    requires Valid(c)
    ensures Valid(r)
    ensures tag in r.counts && r.counts[tag] == (if tag in c.counts then c.counts[tag] else 0) + 1
    ensures forall t :: t != tag ==> (t in r.counts <==> t in c.counts)
    ensures forall t :: t != tag && t in c.counts ==> r.counts[t] == c.counts[t]
    ensures r.keys == if tag in c.counts then c.keys else c.keys + [tag]
    ensures SumCounts(Entries(r)) == SumCounts(Entries(c)) + 1
  {
    if tag in c.counts then
      var r := Counter(c.keys, c.counts[tag := c.counts[tag] + 1]);
      IncrementExisting(c, tag);
      r
    else
      var r := Counter(c.keys + [tag], c.counts[tag := 1]);
      assert Entries(r) == Entries(c) + [ActivityStat(tag, 1)];
      SumCountsAppend(Entries(c), [ActivityStat(tag, 1)]);
      r
  }

  lemma IncrementExisting(c: Counter, tag: string)
    requires Valid(c) && tag in c.counts
    ensures Valid(Counter(c.keys, c.counts[tag := c.counts[tag] + 1]))
    ensures SumCounts(Entries(Counter(c.keys, c.counts[tag := c.counts[tag] + 1]))) == SumCounts(Entries(c)) + 1
  {
    var p :| 0 <= p < |c.keys| && c.keys[p] == tag;
    EntriesBump(c, p);
    SumCountsBump(Entries(c), p);
  }

  /** Raising the count of the key at `p` changes only the entry at `p`. */
  lemma EntriesBump(c: Counter, p: nat)
    requires Valid(c) && p < |c.keys|
    ensures Valid(Counter(c.keys, c.counts[c.keys[p] := c.counts[c.keys[p]] + 1]))
    ensures Entries(Counter(c.keys, c.counts[c.keys[p] := c.counts[c.keys[p]] + 1])) ==
            Entries(c)[p := ActivityStat(c.keys[p], c.counts[c.keys[p]] + 1)]
  {
    var tag := c.keys[p];
    var r := Counter(c.keys, c.counts[tag := c.counts[tag] + 1]);
    var bumped := Entries(c)[p := ActivityStat(tag, c.counts[tag] + 1)];
    forall i | 0 <= i < |c.keys|
      ensures Entries(r)[i] == bumped[i]
    {
      if i != p {
        assert c.keys[i] != tag;
      }
    }
  }

  /** The keys come in the order in which `tags` first mentions them. */
  ghost predicate KeysInFirstOccurrenceOrder(c: Counter, tags: seq<string>) {
    forall i, j :: 0 <= i < j < |c.keys| ==>
      Seqs.FirstIndex(tags, c.keys[i]) < Seqs.FirstIndex(tags, c.keys[j])
  }

  /** The counting loop over all tags: every tag becomes a key exactly once,
      the keys come in order of first occurrence, each count is the number
      of occurrences, and the counts add up to the number of tags. */
  function Tally(tags: seq<string>): (c: Counter)
    ensures Valid(c)
    ensures forall t :: t in c.counts <==> t in tags
    ensures forall t :: t in c.counts ==> c.counts[t] == multiset(tags)[t]
    ensures SumCounts(Entries(c)) == |tags|
  {
    if |tags| == 0 then Counter([], map[])
    else
      var init := tags[..|tags| - 1];
      var last := tags[|tags| - 1];
      assert tags == init + [last];
      assert multiset(tags) == multiset(init) + multiset{last};
      Increment(Tally(init), last)
  }

  /** The Map lists its keys in the order the tags are first met. */
  lemma {:induction false} TallyKeysInFirstOccurrenceOrder(tags: seq<string>)
    ensures KeysInFirstOccurrenceOrder(Tally(tags), tags)
  {
    if |tags| > 0 {
      var init := tags[..|tags| - 1];
      var last := tags[|tags| - 1];
      assert tags == init + [last];
      TallyKeysInFirstOccurrenceOrder(init);
      IncrementKeepsFirstOccurrenceOrder(Tally(init), init, last);
    }
  }

  /** Counting one more tag keeps the keys in first-occurrence order. */
  lemma IncrementKeepsFirstOccurrenceOrder(prev: Counter, init: seq<string>, last: string)
    requires Valid(prev)
    requires forall t :: t in prev.counts <==> t in init
    requires KeysInFirstOccurrenceOrder(prev, init)
    ensures KeysInFirstOccurrenceOrder(Increment(prev, last), init + [last])
  {
    var c := Increment(prev, last);
    if last in prev.counts {
      assert c.keys == prev.keys;
      OldKeysStayOrdered(prev, init, last);
    } else {
      assert c.keys == prev.keys + [last];
      NewKeyOrderedLast(prev, init, last);
    }
  }

  /** Appending a tag keeps the first-occurrence order of keys already met. */
  lemma OldKeysStayOrdered(prev: Counter, init: seq<string>, last: string)
    requires Valid(prev)
    requires forall t :: t in prev.counts <==> t in init
    requires KeysInFirstOccurrenceOrder(prev, init)
    ensures KeysInFirstOccurrenceOrder(prev, init + [last])
  {
    forall i | 0 <= i < |prev.keys|
      ensures Seqs.FirstIndex(init + [last], prev.keys[i]) == Seqs.FirstIndex(init, prev.keys[i])
    {
      assert prev.keys[i] in prev.counts;
      Seqs.FirstIndexAppend(init, last, prev.keys[i]);
    }
  }

  /** A tag not met before is first met after all keys already present. */
  lemma NewKeyOrderedLast(prev: Counter, init: seq<string>, last: string)
    requires Valid(prev) && last !in init
    requires forall t :: t in prev.counts <==> t in init
    requires KeysInFirstOccurrenceOrder(prev, init)
    ensures KeysInFirstOccurrenceOrder(Counter(prev.keys + [last], prev.counts), init + [last])
  {
    var keys := prev.keys + [last];
    OldKeysStayOrdered(prev, init, last);
    Seqs.FirstIndexAppend(init, last, last);
    forall i | 0 <= i < |prev.keys|
      ensures Seqs.FirstIndex(init, prev.keys[i]) < |init|
    {
      assert prev.keys[i] in prev.counts;
    }
    forall i, j | 0 <= i < j < |keys|
      ensures Seqs.FirstIndex(init + [last], keys[i]) < Seqs.FirstIndex(init + [last], keys[j])
    {
      assert keys[i] == prev.keys[i];
      if j < |prev.keys| {
        assert keys[j] == prev.keys[j];
      }
    }
  }

  // ---------------------------------------------------------------------
  // Stable sort by descending count

  ghost predicate SortedByCount(s: seq<ActivityStat>) {
    forall i, j :: 0 <= i < j < |s| ==> s[i].count >= s[j].count
  }

  ghost predicate DistinctNames(s: seq<ActivityStat>) {
    forall i, j :: 0 <= i < j < |s| ==> s[i].name != s[j].name
  }

  /** Inserts `x` after every entry whose count is at least its own. */
  function InsertByCount(x: ActivityStat, s: seq<ActivityStat>): (r: seq<ActivityStat>)
    ensures |r| == |s| + 1
    ensures multiset(r) == multiset(s) + multiset{x}
    ensures SumCounts(r) == SumCounts(s) + x.count
  {
    if |s| == 0 then [x]
    else if s[0].count >= x.count then
      assert s == [s[0]] + s[1..];
      [s[0]] + InsertByCount(x, s[1..])
    else
      assert ([x] + s)[1..] == s;
      [x] + s
  }

  lemma {:induction false} InsertKeepsSorted(x: ActivityStat, s: seq<ActivityStat>)
    requires SortedByCount(s)
    ensures SortedByCount(InsertByCount(x, s))
  {
    if |s| > 0 && s[0].count >= x.count {
      var rest := InsertByCount(x, s[1..]);
      InsertKeepsSorted(x, s[1..]);
      forall j | 0 <= j < |rest|
        ensures s[0].count >= rest[j].count
      {
        assert rest[j] in multiset(rest);
        assert rest[j] in s[1..] || rest[j] == x;
      }
    }
  }

  lemma {:induction false} InsertKeepsDistinct(x: ActivityStat, s: seq<ActivityStat>)
    requires DistinctNames(s)
    requires forall i :: 0 <= i < |s| ==> s[i].name != x.name
    ensures DistinctNames(InsertByCount(x, s))
  {
    if |s| > 0 && s[0].count >= x.count {
      var rest := InsertByCount(x, s[1..]);
      InsertKeepsDistinct(x, s[1..]);
      forall j | 0 <= j < |rest|
        ensures s[0].name != rest[j].name
      {
        assert rest[j] in multiset(rest);
        assert rest[j] in s[1..] || rest[j] == x;
      }
    }
  }

  /** `entries.sort((a, b) => b.count - a.count)`, stable: an insertion sort
      that never moves an entry ahead of an earlier one with the same count. */
  function SortByCount(s: seq<ActivityStat>): (r: seq<ActivityStat>)
    ensures |r| == |s|
    ensures multiset(r) == multiset(s)
    ensures SortedByCount(r)
    ensures SumCounts(r) == SumCounts(s)
  {
    if |s| == 0 then []
    else
      var init := s[..|s| - 1];
      var last := s[|s| - 1];
      assert s == init + [last];
      var sorted := SortByCount(init);
      InsertKeepsSorted(last, sorted);
      SumCountsAppend(init, [last]);
      InsertByCount(last, sorted)
  }

  lemma {:induction false} SortKeepsDistinct(s: seq<ActivityStat>)
    requires DistinctNames(s)
    ensures DistinctNames(SortByCount(s))
  {
    if |s| > 0 {
      var init := s[..|s| - 1];
      var last := s[|s| - 1];
      var sorted := SortByCount(init);
      SortKeepsDistinct(init);
      forall i | 0 <= i < |sorted|
        ensures sorted[i].name != last.name
      {
        assert sorted[i] in multiset(init);
        var k :| 0 <= k < |init| && init[k] == sorted[i];
        assert s[k] == sorted[i];
      }
      InsertKeepsDistinct(last, sorted);
    }
  }

  function HasCount(k: nat): ActivityStat -> bool {
    (e: ActivityStat) => e.count == k
  }

  lemma {:induction false} FilterNoneKept(s: seq<ActivityStat>, k: nat)
    requires forall i :: 0 <= i < |s| ==> s[i].count != k
    ensures Seqs.Filter(s, HasCount(k)) == []
  {
    if |s| > 0 {
      FilterNoneKept(s[1..], k);
    }
  }

  /** Inserting adds `x` at the end of the entries sharing its count. */
  lemma {:induction false} InsertStable(x: ActivityStat, s: seq<ActivityStat>, k: nat)
    requires SortedByCount(s)
    ensures Seqs.Filter(InsertByCount(x, s), HasCount(k)) ==
            Seqs.Filter(s, HasCount(k)) + (if x.count == k then [x] else [])
  {
    if |s| == 0 {
      Seqs.FilterCons(x, [], HasCount(k));
    } else if s[0].count >= x.count {
      SortedTail(s);
      InsertStable(x, s[1..], k);
      InsertStableBehind(x, s, k);
    } else {
      InsertStableInFront(x, s, k);
    }
  }

  /** One inductive step of `InsertStable`, when `x` goes behind the head. */
  lemma InsertStableBehind(x: ActivityStat, s: seq<ActivityStat>, k: nat)
    requires |s| > 0 && s[0].count >= x.count
    requires Seqs.Filter(InsertByCount(x, s[1..]), HasCount(k)) ==
             Seqs.Filter(s[1..], HasCount(k)) + (if x.count == k then [x] else [])
    ensures Seqs.Filter(InsertByCount(x, s), HasCount(k)) ==
            Seqs.Filter(s, HasCount(k)) + (if x.count == k then [x] else [])
  {
    var rest := InsertByCount(x, s[1..]);
    assert InsertByCount(x, s) == [s[0]] + rest;
    Seqs.FilterSameHead(s, rest, if x.count == k then [x] else [], HasCount(k));
  }

  /** When `x` outcounts the head it goes in front, and no entry of `s`
      shares its count. */
  lemma InsertStableInFront(x: ActivityStat, s: seq<ActivityStat>, k: nat)
    requires SortedByCount(s) && |s| > 0 && s[0].count < x.count
    ensures Seqs.Filter(InsertByCount(x, s), HasCount(k)) ==
            Seqs.Filter(s, HasCount(k)) + (if x.count == k then [x] else [])
  {
    Seqs.FilterCons(x, s, HasCount(k));
    if x.count == k {
      NoTieWithLarger(x, s);
      FilterNoneKept(s, k);
    }
  }

  /** Stability: for every count, the entries with that count appear in the
      sorted list in the same order as in the input. */
  lemma {:induction false} SortStable(s: seq<ActivityStat>, k: nat)
    ensures Seqs.Filter(SortByCount(s), HasCount(k)) == Seqs.Filter(s, HasCount(k))
  {
    if |s| > 0 {
      var init := s[..|s| - 1];
      var last := s[|s| - 1];
      assert s == init + [last];
      SortStable(init, k);
      InsertStable(last, SortByCount(init), k);
      Seqs.FilterAppend(init, [last], HasCount(k));
      Seqs.FilterCons(last, [], HasCount(k));
      assert [last] + [] == [last];
    }
  }

  // ---------------------------------------------------------------------
  // getActivitiesStats

  /** One entry per distinct tag, counting its occurrences over all
      representatives, sorted by non-increasing count. */
  function GetActivitiesStats(reps: seq<Representative>): (r: seq<ActivityStat>)
    ensures DistinctNames(r)
    ensures forall i :: 0 <= i < |r| ==> r[i].count == multiset(AllTags(reps))[r[i].name]
    ensures forall t :: t in AllTags(reps) <==> exists i :: 0 <= i < |r| && r[i].name == t
    ensures SortedByCount(r)
    ensures SumCounts(r) == |AllTags(reps)|
  {
    var tags := AllTags(reps);
    var entries := Entries(Tally(tags));
    SortedEntriesDescribeTags(tags);
    SortByCount(entries)
  }

  /** The sorted entries of the tally of `tags` carry each tag once with its
      number of occurrences. */
  lemma SortedEntriesDescribeTags(tags: seq<string>)
    ensures var r := SortByCount(Entries(Tally(tags)));
            && DistinctNames(r)
            && (forall i :: 0 <= i < |r| ==> r[i].count == multiset(tags)[r[i].name])
            && (forall t :: t in tags <==> exists i :: 0 <= i < |r| && r[i].name == t)
  {
    var c := Tally(tags);
    SortKeepsDistinct(Entries(c));
    PermutedEntriesDescribe(c, tags, SortByCount(Entries(c)));
  }

  /** A reordering of the entries of a Map that counts `tags` carries each
      tag once with its number of occurrences. */
  lemma PermutedEntriesDescribe(c: Counter, tags: seq<string>, r: seq<ActivityStat>)
    requires Valid(c) && multiset(r) == multiset(Entries(c))
    requires forall t :: t in c.counts <==> t in tags
    requires forall t :: t in c.counts ==> c.counts[t] == multiset(tags)[t]
    ensures forall i :: 0 <= i < |r| ==> r[i].count == multiset(tags)[r[i].name]
    ensures forall t :: t in tags <==> exists i :: 0 <= i < |r| && r[i].name == t
  {
    PermutedEntriesCounts(c, r);
    forall t | t in tags
      ensures exists i :: 0 <= i < |r| && r[i].name == t
    {
      var i := PermutedEntriesFind(c, r, t);
    }
  }

  /** A reordering of a Map's entries pairs each name with its count. */
  lemma PermutedEntriesCounts(c: Counter, r: seq<ActivityStat>)
    requires Valid(c) && multiset(r) == multiset(Entries(c))
    ensures forall i :: 0 <= i < |r| ==> r[i].name in c.counts && r[i].count == c.counts[r[i].name]
  {
    var entries := Entries(c);
    forall i | 0 <= i < |r|
      ensures r[i].name in c.counts && r[i].count == c.counts[r[i].name]
    {
      assert r[i] in multiset(entries);
      var p :| 0 <= p < |entries| && entries[p] == r[i];
    }
  }

  /** A reordering of a Map's entries names every key. */
  lemma PermutedEntriesFind(c: Counter, r: seq<ActivityStat>, t: string) returns (i: nat)
    requires Valid(c) && multiset(r) == multiset(Entries(c))
    requires t in c.counts
    ensures i < |r| && r[i].name == t
  {
    var entries := Entries(c);
    var p :| 0 <= p < |c.keys| && c.keys[p] == t;
    assert entries[p] in multiset(r);
    i :| 0 <= i < |r| && r[i] == entries[p];
  }

  /** Entries with equal counts appear in increasing `rank` of their names. */
  ghost predicate TiesRanked(s: seq<ActivityStat>, rank: string -> nat) {
    forall i, j :: 0 <= i < j < |s| && s[i].count == s[j].count ==> rank(s[i].name) < rank(s[j].name)
  }

  /** Inserting an entry that outranks every entry present keeps ties ranked:
      it lands after the entries with its own count. */
  lemma {:induction false} InsertKeepsTiesRanked(x: ActivityStat, s: seq<ActivityStat>, rank: string -> nat)
    requires SortedByCount(s) && TiesRanked(s, rank)
    requires forall i :: 0 <= i < |s| ==> rank(s[i].name) < rank(x.name)
    ensures TiesRanked(InsertByCount(x, s), rank)
  {
    if |s| == 0 {
    } else if s[0].count >= x.count {
      var rest := InsertByCount(x, s[1..]);
      TailKeepsOrder(s, rank);
      InsertKeepsTiesRanked(x, s[1..], rank);
      HeadOutranksInsertion(x, s, rank);
      TiesRankedCons(s[0], rest, rank);
    } else {
      NoTieWithLarger(x, s);
      TiesRankedCons(x, s, rank);
    }
  }

  /** The head of a ranked list outranks every entry with its count in the
      insertion into its tail. */
  lemma HeadOutranksInsertion(x: ActivityStat, s: seq<ActivityStat>, rank: string -> nat)
    requires |s| > 0 && TiesRanked(s, rank)
    requires forall i :: 0 <= i < |s| ==> rank(s[i].name) < rank(x.name)
    ensures forall j :: 0 <= j < |InsertByCount(x, s[1..])| && InsertByCount(x, s[1..])[j].count == s[0].count ==>
              rank(s[0].name) < rank(InsertByCount(x, s[1..])[j].name)
  {
    var rest := InsertByCount(x, s[1..]);
    forall j | 0 <= j < |rest| && rest[j].count == s[0].count
      ensures rank(s[0].name) < rank(rest[j].name)
    {
      InsertedFrom(x, s[1..], rest[j]);
      if rest[j] != x {
        var k :| 0 <= k < |s| - 1 && s[1..][k] == rest[j];
        assert s[k + 1] == rest[j];
      }
    }
  }

  /** No entry of a sorted list whose head has a smaller count than `x`
      shares `x`'s count. */
  lemma NoTieWithLarger(x: ActivityStat, s: seq<ActivityStat>)
    requires SortedByCount(s) && |s| > 0 && s[0].count < x.count
    ensures forall j :: 0 <= j < |s| ==> s[j].count != x.count
  {
    forall j | 0 <= j < |s|
      ensures s[j].count != x.count
    {
      assert s[0].count >= s[j].count;
    }
  }

  lemma SortedTail(s: seq<ActivityStat>)
    requires |s| > 0 && SortedByCount(s)
    ensures SortedByCount(s[1..])
  {
    forall i, j | 0 <= i < j < |s| - 1
      ensures s[1..][i].count >= s[1..][j].count
    {
      assert s[1..][i] == s[i + 1] && s[1..][j] == s[j + 1];
    }
  }

  /** The tail of a sorted, tie-ranked list is sorted and tie-ranked. */
  lemma TailKeepsOrder(s: seq<ActivityStat>, rank: string -> nat)
    requires |s| > 0 && SortedByCount(s) && TiesRanked(s, rank)
    ensures SortedByCount(s[1..]) && TiesRanked(s[1..], rank)
  {
    SortedTail(s);
    forall i, j | 0 <= i < j < |s| - 1
      ensures s[1..][i].count == s[1..][j].count ==> rank(s[1..][i].name) < rank(s[1..][j].name)
    {
      assert s[1..][i] == s[i + 1] && s[1..][j] == s[j + 1];
    }
  }

  /** Putting an entry in front keeps ties ranked when it is outranked by
      every later entry with its count. */
  lemma TiesRankedCons(y: ActivityStat, rest: seq<ActivityStat>, rank: string -> nat)
    requires TiesRanked(rest, rank)
    requires forall j :: 0 <= j < |rest| && rest[j].count == y.count ==> rank(y.name) < rank(rest[j].name)
    ensures TiesRanked([y] + rest, rank)
  {
    var s := [y] + rest;
    forall i, j | 0 <= i < j < |s| && s[i].count == s[j].count
      ensures rank(s[i].name) < rank(s[j].name)
    {
      assert s[j] == rest[j - 1];
      if i > 0 {
        assert s[i] == rest[i - 1];
      }
    }
  }

  /** Every element of an insertion is the inserted one or an old one. */
  lemma InsertedFrom(x: ActivityStat, s: seq<ActivityStat>, y: ActivityStat)
    requires y in InsertByCount(x, s)
    ensures y == x || y in s
  {
    assert y in multiset(InsertByCount(x, s));
  }

  /** Sorting entries listed in increasing rank leaves equal counts in
      increasing rank. */
  lemma {:induction false} SortKeepsTiesRanked(s: seq<ActivityStat>, rank: string -> nat)
    requires forall i, j :: 0 <= i < j < |s| ==> rank(s[i].name) < rank(s[j].name)
    ensures TiesRanked(SortByCount(s), rank)
  {
    if |s| > 0 {
      var init := s[..|s| - 1];
      var last := s[|s| - 1];
      var sorted := SortByCount(init);
      SortKeepsTiesRanked(init, rank);
      forall i | 0 <= i < |sorted|
        ensures rank(sorted[i].name) < rank(last.name)
      {
        assert sorted[i] in multiset(init);
        var k :| 0 <= k < |init| && init[k] == sorted[i];
        assert s[k] == sorted[i];
      }
      InsertKeepsTiesRanked(last, sorted, rank);
    }
  }

  /** Among tags with the same count, the one met first comes first: the
      sort keeps the Map's insertion order for ties, and that order is the
      order of first occurrence. */
  lemma ActivitiesStatsTieOrder(reps: seq<Representative>)
    ensures var tags := AllTags(reps);
            var r := GetActivitiesStats(reps);
            forall i, j :: 0 <= i < j < |r| && r[i].count == r[j].count ==>
              Seqs.FirstIndex(tags, r[i].name) < Seqs.FirstIndex(tags, r[j].name)
  {
    var tags := AllTags(reps);
    var c := Tally(tags);
    var rank := (t: string) => Seqs.FirstIndex(tags, t);
    TallyKeysInFirstOccurrenceOrder(tags);
    EntriesRanked(c, rank);
    SortKeepsTiesRanked(Entries(c), rank);
  }

  /** A Map whose keys come in increasing rank lists its entries in
      increasing rank. */
  lemma EntriesRanked(c: Counter, rank: string -> nat)
    requires Valid(c)
    requires forall i, j :: 0 <= i < j < |c.keys| ==> rank(c.keys[i]) < rank(c.keys[j])
    ensures var entries := Entries(c);
            forall i, j :: 0 <= i < j < |entries| ==> rank(entries[i].name) < rank(entries[j].name)
  {
  }

  /** Two representatives tagged [A, B] and [A] give A twice, then B once. */
  lemma ActivitiesStatsExample(a: string, b: string)
    requires a != b
    ensures GetActivitiesStats(ExampleReps(a, b)) == [ActivityStat(a, 2), ActivityStat(b, 1)]
  {
    var reps := ExampleReps(a, b);
    var entries := [ActivityStat(a, 2), ActivityStat(b, 1)];
    assert GetActivitiesStats(reps) == SortByCount(Entries(Tally(AllTags(reps))));
    ExampleTags(a, b);
    ExampleTally(a, b);
    ExampleEntries(a, b);
    ExampleSort(a, b);
  }

  lemma ExampleEntries(a: string, b: string)
    requires a != b
    ensures Entries(Counter([a, b], map[a := 2, b := 1])) == [ActivityStat(a, 2), ActivityStat(b, 1)]
  {
  }

  lemma ExampleSort(a: string, b: string)
    ensures SortByCount([ActivityStat(a, 2), ActivityStat(b, 1)]) == [ActivityStat(a, 2), ActivityStat(b, 1)]
  {
    var entries := [ActivityStat(a, 2), ActivityStat(b, 1)];
    assert entries[..1] == [ActivityStat(a, 2)];
    assert entries[..1][..0] == [];
    assert SortByCount(entries[..1]) == [ActivityStat(a, 2)];
    assert InsertByCount(ActivityStat(b, 1), [ActivityStat(a, 2)]) == [ActivityStat(a, 2), ActivityStat(b, 1)];
  }

  function ExampleReps(a: string, b: string): seq<Representative> {
    [Representative(1, "", "", None, None, Unassigned, Some([a, b])),
     Representative(2, "", "", None, None, Unassigned, Some([a]))]
  }

  lemma ExampleTags(a: string, b: string)
    ensures AllTags(ExampleReps(a, b)) == [a, b, a]
  {
    var reps := ExampleReps(a, b);
    assert reps[..1][..0] == [];
    assert AllTags(reps[..1]) == [a, b];
  }

  lemma ExampleTally(a: string, b: string)
    requires a != b
    ensures Tally([a, b, a]) == Counter([a, b], map[a := 2, b := 1])
  {
    var tags := [a, b, a];
    assert tags[..2] == [a, b];
    ExampleTallyTwo(a, b);
    ExampleIncrement(a, b);
  }

  lemma ExampleIncrement(a: string, b: string)
    requires a != b
    ensures Increment(Counter([a, b], map[a := 1, b := 1]), a) == Counter([a, b], map[a := 2, b := 1])
  {
    assert map[a := 1, b := 1][a := 2] == map[a := 2, b := 1];
  }

  lemma ExampleTallyTwo(a: string, b: string)
    requires a != b
    ensures Tally([a, b]) == Counter([a, b], map[a := 1, b := 1])
  {
    var tags := [a, b];
    assert tags[..1] == [a];
    assert [a][..0] == [];
    var one := Counter([a], map[a := 1]);
    assert Tally([a]) == one;
    assert Tally(tags) == Increment(one, b);
  }
}
