/**
 * The list bookkeeping of the user-segmentation pipeline: search-engine aggregation buckets
 * become per-user records, each record gets an embedding of its joined queries and a k-means
 * cluster label, the queries are grouped by segment, and a bulk request pairs an index action
 * with a labelled document for every user. The sentence encoder and k-means are parameters:
 * the model says what is done with their outputs, not how they are computed.
 */
module UserSegmentation {
  import opened Wrappers

  // ---------------------------------------------------------------- data

  /** A bucket of the `search_queries` terms sub-aggregation: one distinct query text. */
  datatype QueryBucket = QueryBucket(key: string, docCount: nat)

  /** A bucket of the `users` terms aggregation: a user id and its query buckets. */
  datatype UserBucket = UserBucket(key: string, docCount: nat, searchQueries: seq<QueryBucket>)

  /** `{"user_id": ..., "search_queries": [...]}` as built from one user bucket. */
  datatype SearchHistory = SearchHistory(userId: string, searchQueries: seq<string>)

  /**
   * A user's record after embedding. Its id, queries and embedding never change after it is
   * built; clustering adds the `segment` entry in place, so that one is a mutable field and
   * `None` stands for the key not being present yet.
   */
  class UserRecord {
    const userId: string
    const searchQueries: seq<string>
    const embedding: seq<real>
    var segment: Option<int>

    constructor (userId: string, searchQueries: seq<string>, embedding: seq<real>)
      ensures this.userId == userId && this.searchQueries == searchQueries && this.embedding == embedding
      ensures segment == None
    {
      this.userId := userId;
      this.searchQueries := searchQueries;
      this.embedding := embedding;
      segment := None;
    }
  }

  /** The two kinds of entry of a bulk request body. */
  datatype BulkOp =
    | IndexAction(index: string)
    | SegmentDoc(userId: string, segmentLabel: string)

  /**
   * Why the script raises: k-means is asked for more clusters than there are users, or a pass
   * over the records finds the `segment` key missing or without a label.
   */
  datatype SegmentError =
    | TooFewUsers(count: nat)
    | MissingSegment(position: nat)
    | UnknownSegment(position: nat, segment: int)

  /** The labels chosen for the five clusters. */
  const SegmentLabels: map<int, string> := map[
    0 := "Home & Kitchen enthusiasts",
    1 := "Fitness & Health seekers",
    2 := "Fashion lovers",
    3 := "Tech shoppers",
    4 := "Budget-conscious buyers"
  ]

  /** The number of clusters k-means is asked for. */
  const ClusterCount: int := 5

  // ---------------------------------------------------------------- joining queries

  /** `' '.join(qs)`: the queries separated by single spaces. */
  function JoinWithSpace(qs: seq<string>): string
  {
    if qs == [] then "" else if |qs| == 1 then qs[0] else qs[0] + " " + JoinWithSpace(qs[1..])
  }

  /** Where query `i` starts in the joined text: each earlier query and its separator. */
  function Start(qs: seq<string>, i: nat): nat
    requires i <= |qs|
  {
    if i == 0 then 0 else |qs[0]| + 1 + Start(qs[1..], i - 1)
  }

  /**
   * The joined text holds query `i` at `Start(qs, i)`, followed by a single space unless it is
   * the last query, and the text ends right after the last query.
   */
  lemma {:induction false} JoinedAt(qs: seq<string>, i: nat)
    requires i < |qs|
    ensures Start(qs, i) + |qs[i]| <= |JoinWithSpace(qs)|
    ensures JoinWithSpace(qs)[Start(qs, i)..Start(qs, i) + |qs[i]|] == qs[i]
    ensures i + 1 < |qs| ==> Start(qs, i) + |qs[i]| < |JoinWithSpace(qs)| && JoinWithSpace(qs)[Start(qs, i) + |qs[i]|] == ' '
    ensures i + 1 == |qs| ==> |JoinWithSpace(qs)| == Start(qs, i) + |qs[i]|
  {
    if |qs| == 1 {
      assert JoinWithSpace(qs) == qs[0] && Start(qs, i) == 0;
      assert qs[0][0..|qs[0]|] == qs[0];
    } else if i == 0 {
      assert JoinWithSpace(qs) == qs[0] + (" " + JoinWithSpace(qs[1..]));
      SliceOfHead(qs[0], " " + JoinWithSpace(qs[1..]));
    } else {
      var rest := JoinWithSpace(qs[1..]);
      assert JoinWithSpace(qs) == (qs[0] + " ") + rest;
      JoinedAt(qs[1..], i - 1);
      var s := Start(qs[1..], i - 1);
      assert Start(qs, i) == |qs[0] + " "| + s;
      assert qs[1..][i - 1] == qs[i];
      SliceOfTail(qs[0] + " ", rest, s, s + |qs[i]|);
    }
  }

  lemma SliceOfHead(a: string, b: string)
    ensures (a + b)[0..|a|] == a
  {
    assert forall k :: 0 <= k < |a| ==> (a + b)[0..|a|][k] == a[k];
  }

  lemma SliceOfTail(a: string, b: string, lo: int, hi: int)
    requires 0 <= lo <= hi <= |b|
    ensures (a + b)[|a| + lo..|a| + hi] == b[lo..hi]
  {
    assert forall k :: 0 <= k < hi - lo ==> (a + b)[|a| + lo..|a| + hi][k] == b[lo..hi][k];
  }


  // ---------------------------------------------------------------- buckets to records

  /** `[value['key'] for value in bucket['search_queries']['buckets']]`. */
  function QueryKeys(buckets: seq<QueryBucket>): (keys: seq<string>)
    ensures |keys| == |buckets|
    ensures forall j :: 0 <= j < |buckets| ==> keys[j] == buckets[j].key
  {
    seq(|buckets|, j requires 0 <= j < |buckets| => buckets[j].key)
  }

  /** One search history per user bucket, in bucket order, with that bucket's query keys in order. */
  method ExtractUserSearchHistory(buckets: seq<UserBucket>) returns (history: seq<SearchHistory>)
    ensures |history| == |buckets|
    ensures forall i :: 0 <= i < |buckets| ==>
              history[i].userId == buckets[i].key
              && |history[i].searchQueries| == |buckets[i].searchQueries|
              && forall j :: 0 <= j < |buckets[i].searchQueries| ==>
                   history[i].searchQueries[j] == buckets[i].searchQueries[j].key
  {
    history := [];
    for i := 0 to |buckets|
      invariant |history| == i
      invariant forall k :: 0 <= k < i ==> history[k] == SearchHistory(buckets[k].key, QueryKeys(buckets[k].searchQueries))
    {
      var bucket := buckets[i];
      var queries := QueryKeys(bucket.searchQueries);
      history := history + [SearchHistory(bucket.key, queries)];
    }
  }

  // ---------------------------------------------------------------- embedding

  /**
   * One new record per search history, in order, with the same id and queries and the encoding
   * of the queries joined by single spaces; no record has a segment yet.
   */
  method ConvertSearchQueriesToVectors(history: seq<SearchHistory>, encode: string -> seq<real>)
    returns (records: seq<UserRecord>)
    ensures |records| == |history|
    ensures forall i :: 0 <= i < |history| ==>
              && records[i].userId == history[i].userId
              && records[i].searchQueries == history[i].searchQueries
              && records[i].embedding == encode(JoinWithSpace(history[i].searchQueries))
              && records[i].segment == None
              && fresh(records[i])
    ensures forall i, j :: 0 <= i < j < |records| ==> records[i] != records[j]
  {
    records := [];
    for i := 0 to |history|
      invariant |records| == i
      invariant forall k :: 0 <= k < i ==>
                  && records[k].userId == history[k].userId
                  && records[k].searchQueries == history[k].searchQueries
                  && records[k].embedding == encode(JoinWithSpace(history[k].searchQueries))
                  && records[k].segment == None
                  && fresh(records[k])
      invariant forall k, l :: 0 <= k < l < i ==> records[k] != records[l]
    {
      var queries := history[i].searchQueries;
      var joined := JoinWithSpace(queries);
      var user := new UserRecord(history[i].userId, queries, encode(joined));
      records := records + [user];
    }
  }

  // ---------------------------------------------------------------- clustering

  /** `[user['embedding'] for user in users]`: what k-means is fitted on. */
  function Embeddings(records: seq<UserRecord>): (e: seq<seq<real>>)
    ensures |e| == |records|
    ensures forall i :: 0 <= i < |records| ==> e[i] == records[i].embedding
  {
    seq(|records|, i requires 0 <= i < |records| => records[i].embedding)
  }

  /**
   * Fitting k-means fails when there are fewer samples than clusters, and then no record changes.
   * Otherwise record `i` gets the `i`-th label k-means assigns to the embeddings, as long as there
   * are labels (`zip` stops at the shorter list); nothing else of any record changes, and the same
   * list is returned.
   */
  method ClusterIntoSegments(records: seq<UserRecord>, kmeans: seq<seq<real>> -> seq<int>)
    returns (result: Result<seq<UserRecord>, SegmentError>)
    requires forall i, j :: 0 <= i < j < |records| ==> records[i] != records[j]
    modifies set r | r in records
    ensures result.Failure? <==> |records| < ClusterCount
    ensures result.Failure? ==> result.error == TooFewUsers(|records|)
    ensures result.Success? ==> result.value == records
    ensures forall i :: 0 <= i < |records| ==>
              records[i].segment == (if result.Success? && i < |kmeans(Embeddings(records))|
                                     then Some(kmeans(Embeddings(records))[i])
                                     else old(records[i].segment))
  {
    if |records| < ClusterCount {
      return Failure(TooFewUsers(|records|));
    }
    var labels := kmeans(Embeddings(records));
    var n := if |records| < |labels| then |records| else |labels|;
    for i := 0 to n
      invariant forall k :: 0 <= k < i ==> records[k].segment == Some(labels[k])
      invariant forall k :: i <= k < |records| ==> records[k].segment == old(records[k].segment)
    {
      records[i].segment := Some(labels[i]);
    }
    result := Success(records);
  }

  // ---------------------------------------------------------------- queries per segment

  /** What grouping reads of a record: its queries and its segment entry. */
  datatype Tagged = Tagged(searchQueries: seq<string>, segment: Option<int>)

  function Tags(records: seq<UserRecord>): (t: seq<Tagged>)
    reads set r | r in records
    ensures |t| == |records|
    ensures forall i :: 0 <= i < |records| ==> t[i] == Tagged(records[i].searchQueries, records[i].segment)
  {
    if records == [] then [] else Tags(records[..|records| - 1]) + [Tagged(records[|records| - 1].searchQueries, records[|records| - 1].segment)]
  }

  /** The queries of the users in segment `k`, user after user. */
  function QueriesOfSegment(users: seq<Tagged>, k: int): seq<string>
  {
    if users == [] then []
    else
      var last := users[|users| - 1];
      QueriesOfSegment(users[..|users| - 1], k) + (if last.segment == Some(k) then last.searchQueries else [])
  }

  /** The queries of every user whose segment is one of the five clusters, user after user. */
  function ClusteredQueries(users: seq<Tagged>): seq<string>
  {
    if users == [] then []
    else
      var last := users[|users| - 1];
      ClusteredQueries(users[..|users| - 1])
        + (if last.segment.Some? && 0 <= last.segment.value < ClusterCount then last.searchQueries else [])
  }

  /**
   * Fails at the first record without a segment; otherwise list `k` holds the queries of the
   * records in segment `k`, for `k` from 0 to 4, and records in any other segment add nothing.
   */
  method CountQueriesPerSegment(records: seq<UserRecord>) returns (result: Result<seq<seq<string>>, SegmentError>)
    ensures result.Success? <==> forall i :: 0 <= i < |records| ==> records[i].segment.Some?
    ensures result.Success? ==>
              |result.value| == ClusterCount
              && forall k :: 0 <= k < ClusterCount ==> result.value[k] == QueriesOfSegment(Tags(records), k)
    ensures result.Failure? ==>
              result.error.MissingSegment?
              && result.error.position < |records| && records[result.error.position].segment.None?
              && forall i :: 0 <= i < result.error.position ==> records[i].segment.Some?
  {
    ghost var tags := Tags(records);
    var segment0, segment1, segment2, segment3, segment4 := [], [], [], [], [];
    for i := 0 to |records|
      invariant forall j :: 0 <= j < i ==> records[j].segment.Some?
      invariant segment0 == QueriesOfSegment(tags[..i], 0)
      invariant segment1 == QueriesOfSegment(tags[..i], 1)
      invariant segment2 == QueriesOfSegment(tags[..i], 2)
      invariant segment3 == QueriesOfSegment(tags[..i], 3)
      invariant segment4 == QueriesOfSegment(tags[..i], 4)
    {
      var user := records[i];
      if user.segment.None? {
        return Failure(MissingSegment(i));
      }
      var s := user.segment.value;
      SegmentsStep(tags, i, user.searchQueries, s);
      if s == 0 {
        segment0 := segment0 + user.searchQueries;
      } else if s == 1 {
        segment1 := segment1 + user.searchQueries;
      } else if s == 2 {
        segment2 := segment2 + user.searchQueries;
      } else if s == 3 {
        segment3 := segment3 + user.searchQueries;
      } else if s == 4 {
        segment4 := segment4 + user.searchQueries;
      }
    }
    assert tags[..|records|] == tags;
    result := Success([segment0, segment1, segment2, segment3, segment4]);
  }

  /** One more user extends the list of their segment by their queries and leaves the others. */
  lemma SegmentsStep(users: seq<Tagged>, i: int, queries: seq<string>, s: int)
    requires 0 <= i < |users| && users[i] == Tagged(queries, Some(s))
    ensures forall k :: 0 <= k < ClusterCount ==>
              QueriesOfSegment(users[..i + 1], k) == QueriesOfSegment(users[..i], k) + (if s == k then queries else [])
  {
    forall k | 0 <= k < ClusterCount
      ensures QueriesOfSegment(users[..i + 1], k) == QueriesOfSegment(users[..i], k) + (if s == k then queries else [])
    {
      PrefixStep(users, i, k);
    }
  }

  /** Extending a prefix by one user extends that user's segment list, and no other, by its queries. */
  lemma PrefixStep(users: seq<Tagged>, i: int, k: int)
    requires 0 <= i < |users|
    ensures QueriesOfSegment(users[..i + 1], k)
            == QueriesOfSegment(users[..i], k) + (if users[i].segment == Some(k) then users[i].searchQueries else [])
  {
    assert users[..i + 1][..i] == users[..i];
  }

  /** Grouping a list in two parts groups each part, and keeps the first part's queries first. */
  lemma {:induction false} QueriesOfSegmentAppend(a: seq<Tagged>, b: seq<Tagged>, k: int)
    ensures QueriesOfSegment(a + b, k) == QueriesOfSegment(a, k) + QueriesOfSegment(b, k)
    decreases |b|
  {
    if b == [] {
      assert a + b == a;
    } else {
      var b' := b[..|b| - 1];
      assert (a + b)[..|a + b| - 1] == a + b';
      QueriesOfSegmentAppend(a, b', k);
    }
  }

  /** A query is in segment `k`'s list exactly when some user of segment `k` searched for it. */
  lemma {:induction false} QueriesOfSegmentMembers(users: seq<Tagged>, k: int, q: string)
    ensures q in QueriesOfSegment(users, k) <==>
            exists i :: 0 <= i < |users| && users[i].segment == Some(k) && q in users[i].searchQueries
  {
    if users != [] {
      var init := users[..|users| - 1];
      QueriesOfSegmentMembers(init, k, q);
      if exists i :: 0 <= i < |init| && init[i].segment == Some(k) && q in init[i].searchQueries {
        var i :| 0 <= i < |init| && init[i].segment == Some(k) && q in init[i].searchQueries;
        assert users[i] == init[i];
      }
      if i :| 0 <= i < |users| && users[i].segment == Some(k) && q in users[i].searchQueries {
        if i < |init| {
          assert init[i] == users[i];
        }
      }
    }
  }

  /** How often `x` occurs in segment `k`'s list grows by its count in the last user's queries, if that user is in segment `k`. */
  lemma SegmentCountStep(users: seq<Tagged>, k: int, x: string)
    requires users != []
    ensures var last := users[|users| - 1];
            multiset(QueriesOfSegment(users, k))[x]
            == multiset(QueriesOfSegment(users[..|users| - 1], k))[x] + (if last.segment == Some(k) then multiset(last.searchQueries)[x] else 0)
  {
    var last := users[|users| - 1];
    var tail := if last.segment == Some(k) then last.searchQueries else [];
    assert QueriesOfSegment(users, k) == QueriesOfSegment(users[..|users| - 1], k) + tail;
  }

  /** The same for the queries of all five clusters. */
  lemma ClusteredCountStep(users: seq<Tagged>, x: string)
    requires users != []
    ensures var last := users[|users| - 1];
            multiset(ClusteredQueries(users))[x]
            == multiset(ClusteredQueries(users[..|users| - 1]))[x]
               + (if last.segment.Some? && 0 <= last.segment.value < ClusterCount then multiset(last.searchQueries)[x] else 0)
  {
    var last := users[|users| - 1];
    var tail := if last.segment.Some? && 0 <= last.segment.value < ClusterCount then last.searchQueries else [];
    assert ClusteredQueries(users) == ClusteredQueries(users[..|users| - 1]) + tail;
  }

  /** Each query occurs in the five lists together as often as among the queries of the five clusters. */
  lemma {:induction false} SegmentCounts(users: seq<Tagged>, x: string)
    ensures multiset(QueriesOfSegment(users, 0))[x] + multiset(QueriesOfSegment(users, 1))[x]
            + multiset(QueriesOfSegment(users, 2))[x] + multiset(QueriesOfSegment(users, 3))[x]
            + multiset(QueriesOfSegment(users, 4))[x]
            == multiset(ClusteredQueries(users))[x]
  {
    if users != [] {
      SegmentCounts(users[..|users| - 1], x);
      SegmentCountStep(users, 0, x);
      SegmentCountStep(users, 1, x);
      SegmentCountStep(users, 2, x);
      SegmentCountStep(users, 3, x);
      SegmentCountStep(users, 4, x);
      ClusteredCountStep(users, x);
      var last := users[|users| - 1];
      if last.segment.Some? {
        var v := last.segment.value;
        assert last.segment == Some(v);
        if v == 0 {
        } else if v == 1 {
        } else if v == 2 {
        } else if v == 3 {
        } else if v == 4 {
        }
      }
    }
  }

  /**
   * The five lists together hold each query of each user in segments 0 to 4 exactly once per
   * occurrence: they partition those queries, with multiplicity.
   */
  lemma SegmentsPartitionQueries(users: seq<Tagged>)
    ensures multiset(QueriesOfSegment(users, 0)) + multiset(QueriesOfSegment(users, 1))
            + multiset(QueriesOfSegment(users, 2)) + multiset(QueriesOfSegment(users, 3))
            + multiset(QueriesOfSegment(users, 4))
            == multiset(ClusteredQueries(users))
  {
    var m0, m1, m2 := multiset(QueriesOfSegment(users, 0)), multiset(QueriesOfSegment(users, 1)), multiset(QueriesOfSegment(users, 2));
    var m3, m4 := multiset(QueriesOfSegment(users, 3)), multiset(QueriesOfSegment(users, 4));
    forall x ensures m0[x] + m1[x] + m2[x] + m3[x] + m4[x] == multiset(ClusteredQueries(users))[x] {
      SegmentCounts(users, x);
    }
    SumOfFive(m0, m1, m2, m3, m4, multiset(ClusteredQueries(users)));
  }

  /** Five multisets add up to a sixth when every element's counts do. */
  lemma SumOfFive(m0: multiset<string>, m1: multiset<string>, m2: multiset<string>, m3: multiset<string>,
                  m4: multiset<string>, total: multiset<string>)
    requires forall x :: m0[x] + m1[x] + m2[x] + m3[x] + m4[x] == total[x]
    ensures m0 + m1 + m2 + m3 + m4 == total
  {
    forall x ensures (m0 + m1 + m2 + m3 + m4)[x] == total[x] {
    }
  }

  // ---------------------------------------------------------------- the bulk request

  /**
   * Two entries per record, in order: an index action naming `index`, then the record's id with
   * the label of its segment. Fails at the first record whose segment is missing or has no label.
   */
  method StoreUsersSegments(records: seq<UserRecord>, index: string) returns (result: Result<seq<BulkOp>, SegmentError>)
    ensures result.Success? <==>
              forall i :: 0 <= i < |records| ==> records[i].segment.Some? && records[i].segment.value in SegmentLabels
    ensures result.Success? ==>
              |result.value| == 2 * |records|
              && forall i :: 0 <= i < |records| ==>
                   && result.value[2 * i] == IndexAction(index)
                   && result.value[2 * i + 1] == SegmentDoc(records[i].userId, SegmentLabels[records[i].segment.value])
    ensures result.Failure? ==> !result.error.TooFewUsers?
    ensures result.Failure? ==>
              var p := result.error.position;
              && p < |records|
              && (forall i :: 0 <= i < p ==> records[i].segment.Some? && records[i].segment.value in SegmentLabels)
              && (result.error.MissingSegment? <==> records[p].segment.None?)
              && (result.error.UnknownSegment? ==>
                    records[p].segment == Some(result.error.segment) && result.error.segment !in SegmentLabels)
  {
    var operations := [];
    for i := 0 to |records|
      invariant |operations| == 2 * i
      invariant forall k :: 0 <= k < i ==> records[k].segment.Some? && records[k].segment.value in SegmentLabels
      invariant forall k :: 0 <= k < i ==>
                  && operations[2 * k] == IndexAction(index)
                  && operations[2 * k + 1] == SegmentDoc(records[k].userId, SegmentLabels[records[k].segment.value])
    {
      var user := records[i];
      operations := operations + [IndexAction(index)];
      if user.segment.None? {
        return Failure(MissingSegment(i));
      }
      if user.segment.value !in SegmentLabels {
        return Failure(UnknownSegment(i, user.segment.value));
      }
      operations := operations + [SegmentDoc(user.userId, SegmentLabels[user.segment.value])];
    }
    result := Success(operations);
  }

  // ---------------------------------------------------------------- the script

  /** The label k-means gives each user's joined queries, as the script computes them. */
  function PipelineLabels(buckets: seq<UserBucket>, encode: string -> seq<real>, kmeans: seq<seq<real>> -> seq<int>): seq<int>
  {
    kmeans(seq(|buckets|, i requires 0 <= i < |buckets| => encode(JoinWithSpace(QueryKeys(buckets[i].searchQueries)))))
  }

  /**
   * Extract, embed, cluster and store: the bulk request labels the user of every bucket, in
   * bucket order, with the label of its cluster; it is built exactly when there are at least as
   * many users as clusters and k-means labels every user with one of the five clusters. With too
   * few users the script stops at the clustering step.
   */
  method SegmentUsers(buckets: seq<UserBucket>, encode: string -> seq<real>, kmeans: seq<seq<real>> -> seq<int>,
                      index: string)
    returns (result: Result<seq<BulkOp>, SegmentError>)
    ensures var labels := PipelineLabels(buckets, encode, kmeans);
            result.Success? <==>
              && |buckets| >= ClusterCount
              && |labels| >= |buckets|
              && forall i :: 0 <= i < |buckets| ==> 0 <= labels[i] < ClusterCount
    ensures |buckets| < ClusterCount ==> result == Failure(TooFewUsers(|buckets|))
    ensures var labels := PipelineLabels(buckets, encode, kmeans);
            result.Success? ==>
              |result.value| == 2 * |buckets|
              && forall i :: 0 <= i < |buckets| ==>
                   && result.value[2 * i] == IndexAction(index)
                   && result.value[2 * i + 1] == SegmentDoc(buckets[i].key, SegmentLabels[labels[i]])
  {
    var history := ExtractUserSearchHistory(buckets);
    var records := ConvertSearchQueriesToVectors(history, encode);
    assert Embeddings(records) == seq(|buckets|, i requires 0 <= i < |buckets| => encode(JoinWithSpace(QueryKeys(buckets[i].searchQueries)))) by {
      forall i | 0 <= i < |buckets| ensures history[i].searchQueries == QueryKeys(buckets[i].searchQueries) {
      }
    }
    var clustered := ClusterIntoSegments(records, kmeans);
    if clustered.Failure? {
      return Failure(clustered.error);
    }
    result := StoreUsersSegments(clustered.value, index);
    var labels := PipelineLabels(buckets, encode, kmeans);
    assert forall s :: s in SegmentLabels <==> 0 <= s < ClusterCount;
    if |labels| < |buckets| {
      assert records[|labels|].segment == None;
    }
  }
}
