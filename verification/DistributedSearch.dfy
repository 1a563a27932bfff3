/** The reduce phase of a cluster-wide search: deduplicate, sort, truncate. */
module DistributedSearch {
  import opened Basics

  datatype SearchResult = SearchResult(text: string, sourceFile: string, chunkIndex: int, fileHash: string, score: real)

  datatype ChunkKey = ChunkKey(fileHash: string, chunkIndex: int)

  /** A chunk is identified by its file's hash, or by the file's name if the hash is missing. */
  function Key(r: SearchResult): ChunkKey {
    ChunkKey(if r.fileHash == "" then r.sourceFile else r.fileHash, r.chunkIndex)
  }

  /**
    Two entries are of one chunk exactly when their index and their file agree: the hash, or for want of one the name.
   */
  lemma SameChunkExactly(a: SearchResult, b: SearchResult)
    ensures a.fileHash != "" && b.fileHash != "" ==>
              (Key(a) == Key(b) <==> a.fileHash == b.fileHash && a.chunkIndex == b.chunkIndex)
    ensures a.fileHash == "" && b.fileHash == "" ==>
              (Key(a) == Key(b) <==> a.sourceFile == b.sourceFile && a.chunkIndex == b.chunkIndex)
    ensures a.fileHash == "" && b.fileHash != "" ==>
              (Key(a) == Key(b) <==> a.sourceFile == b.fileHash && a.chunkIndex == b.chunkIndex)
  {
  }

  ghost function KeysOf(s: seq<SearchResult>): set<ChunkKey> {
    set i | 0 <= i < |s| :: Key(s[i])
  }

  ghost predicate DistinctKeys(s: seq<SearchResult>) {
    forall i, j :: 0 <= i < j < |s| ==> Key(s[i]) != Key(s[j])
  }

  ghost predicate Sorted(s: seq<SearchResult>) {
    forall i, j :: 0 <= i < j < |s| ==> s[i].score >= s[j].score
  }

  /** r is in the pool and no entry of the pool with the same key scores higher. */
  ghost predicate BestOfKey(pool: iset<SearchResult>, r: SearchResult) {
    r in pool && forall x :: x in pool && Key(x) == Key(r) ==> x.score <= r.score
  }

  /** out does not leave out a key that scores higher than one it has. */
  ghost predicate NothingBetterOutside(pool: iset<SearchResult>, out: seq<SearchResult>) {
    forall x, i :: x in pool && Key(x) !in KeysOf(out) && 0 <= i < |out| ==> x.score <= out[i].score
  }

  /** Fewer than k results only when every key of the pool is there. */
  ghost predicate FullOrAll(pool: iset<SearchResult>, out: seq<SearchResult>, k: nat) {
    |out| <= k && (|out| == k || forall x :: x in pool ==> Key(x) in KeysOf(out))
  }

  /** out lists k keys of the pool with the best scores, each once with its best score, best first. */
  ghost predicate TopK(pool: iset<SearchResult>, out: seq<SearchResult>, k: nat) {
    && Sorted(out) && DistinctKeys(out)
    && (forall i :: 0 <= i < |out| ==> BestOfKey(pool, out[i]))
    && NothingBetterOutside(pool, out)
    && FullOrAll(pool, out, k)
  }

  ghost function Pool(s: seq<SearchResult>): iset<SearchResult> {
    iset x | x in s
  }

  // ---------- The reduce phase ----------

  /** m holds, per key of s, an entry of s with the best score. */
  ghost predicate Collected(s: seq<SearchResult>, m: map<ChunkKey, SearchResult>) {
    && (forall k :: k in m ==> Key(m[k]) == k && m[k] in s)
    && forall x :: x in s ==> Key(x) in m && x.score <= m[Key(x)].score
  }

  lemma CollectedMore(s: seq<SearchResult>, m: map<ChunkKey, SearchResult>, r: SearchResult)
    requires Collected(s, m)
    ensures Collected(s + [r], if Key(r) !in m || r.score > m[Key(r)].score then m[Key(r) := r] else m)
  {
  }

  lemma CollectedIsBest(s: seq<SearchResult>, m: map<ChunkKey, SearchResult>, list: seq<SearchResult>)
    requires Collected(s, m) && KeysOf(list) == m.Keys
    requires forall i :: 0 <= i < |list| ==> Key(list[i]) in m && list[i] == m[Key(list[i])]
    ensures forall i :: 0 <= i < |list| ==> BestOfKey(Pool(s), list[i])
    ensures forall x :: x in s ==> Key(x) in KeysOf(list)
  {
    hide KeysOf;
  }

  method Deduplicate(results: seq<SearchResult>) returns (deduped: seq<SearchResult>)
    ensures DistinctKeys(deduped) && forall i :: 0 <= i < |deduped| ==> BestOfKey(Pool(results), deduped[i])
    ensures forall x :: x in results ==> Key(x) in KeysOf(deduped)
  {
    hide Collected, BestOfKey, KeysOf, DistinctKeys;
    var unique: map<ChunkKey, SearchResult> := map[];
    assert Collected(results[..0], unique) by { NothingCollected(); }
    for i := 0 to |results|
      invariant Collected(results[..i], unique)
    {
      var r := results[i];
      var key := ChunkKey(r.fileHash, r.chunkIndex);
      if r.fileHash == "" {
        key := ChunkKey(r.sourceFile, r.chunkIndex);
      }
      assert results[..i + 1] == results[..i] + [r];
      CollectedMore(results[..i], unique, r);
      if key !in unique || r.score > unique[key].score {
        unique := unique[key := r];
      }
    }
    assert results[..|results|] == results;
    assert forall k :: k in unique ==> Key(unique[k]) == k by { CollectedKeys(results, unique); }
    deduped := ListValues(unique);
    CollectedIsBest(results, unique, deduped);
  }

  lemma NothingCollected()
    ensures Collected([], map[])
  {
  }

  lemma CollectedKeys(s: seq<SearchResult>, m: map<ChunkKey, SearchResult>)
    requires Collected(s, m)
    ensures forall k :: k in m ==> Key(m[k]) == k
  {
  }

  /** The values of a map, in whatever order it yields its keys. */
  method ListValues(m: map<ChunkKey, SearchResult>) returns (s: seq<SearchResult>)
    requires forall k :: k in m ==> Key(m[k]) == k
    ensures DistinctKeys(s) && KeysOf(s) == m.Keys
    ensures forall i :: 0 <= i < |s| ==> Key(s[i]) in m && s[i] == m[Key(s[i])]
  {
    s := [];
    var rest := m.Keys;
    while rest != {}
      invariant rest <= m.Keys && DistinctKeys(s) && KeysOf(s) == m.Keys - rest
      invariant forall i :: 0 <= i < |s| ==> Key(s[i]) in m && s[i] == m[Key(s[i])]
      decreases rest
    {
      var k :| k in rest;
      KeysOfAppend(s, m[k]);
      s, rest := s + [m[k]], rest - {k};
    }
  }

  lemma KeysOfAppend(s: seq<SearchResult>, r: SearchResult)
    ensures KeysOf(s + [r]) == KeysOf(s) + {Key(r)}
    ensures DistinctKeys(s) && Key(r) !in KeysOf(s) ==> DistinctKeys(s + [r])
  {
    var t := s + [r];
    forall k | k in KeysOf(s) + {Key(r)} ensures k in KeysOf(t) {
      if k == Key(r) {
        assert t[|s|] == r;
      } else {
        var i :| 0 <= i < |s| && Key(s[i]) == k;
        assert t[i] == s[i];
      }
    }
    forall k | k in KeysOf(t) ensures k in KeysOf(s) + {Key(r)} {
      var i :| 0 <= i < |t| && Key(t[i]) == k;
      if i < |s| {
        assert Key(s[i]) == k;
      }
    }
  }

  lemma InsertKeepsOrder(r: seq<SearchResult>, j: nat, x: SearchResult)
    requires Sorted(r) && j <= |r|
    requires forall k :: 0 <= k < j ==> r[k].score > x.score
    requires j < |r| ==> r[j].score <= x.score
    ensures Sorted(r[..j] + [x] + r[j..]) && multiset(r[..j] + [x] + r[j..]) == multiset(r) + multiset{x}
  {
    assert r == r[..j] + r[j..];
    forall k | j <= k < |r| ensures r[k].score <= x.score {
      assert k > j ==> r[j].score >= r[k].score;
    }
  }

  method Place(r: seq<SearchResult>, x: SearchResult) returns (r': seq<SearchResult>)
    requires Sorted(r)
    ensures Sorted(r') && multiset(r') == multiset(r) + multiset{x}
  {
    var j := 0;
    while j < |r| && r[j].score > x.score
      invariant 0 <= j <= |r| && forall k :: 0 <= k < j ==> r[k].score > x.score
    {
      j := j + 1;
    }
    InsertKeepsOrder(r, j, x);
    r' := r[..j] + [x] + r[j..];
  }

  /** Sorts by score, best first; equal scores may end in either order. */
  method SortByScore(s: seq<SearchResult>) returns (r: seq<SearchResult>)
    ensures Sorted(r) && multiset(r) == multiset(s)
  {
    hide Sorted;
    r := [];
    assert Sorted(r) by { NothingIsSorted(); }
    for i := 0 to |s|
      invariant Sorted(r) && multiset(r) == multiset(s[..i])
    {
      r := Place(r, s[i]);
      assert s[..i + 1] == s[..i] + [s[i]];
    }
    assert s[..|s|] == s;
  }

  lemma NothingIsSorted()
    ensures Sorted([])
  {
  }

  lemma PermutationKeepsKeys(a: seq<SearchResult>, b: seq<SearchResult>)
    requires multiset(a) == multiset(b) && DistinctKeys(a)
    ensures DistinctKeys(b) && KeysOf(b) == KeysOf(a)
    ensures forall x :: x in b <==> x in a
  {
    assert forall x :: x in a <==> x in multiset(a);
    assert forall x :: x in b <==> x in multiset(b);
    assert KeysOf(a) == set x | x in a :: Key(x);
    assert KeysOf(b) == set x | x in b :: Key(x);
    hide KeysOf;
    forall i, j | 0 <= i < j < |b| ensures Key(b[i]) != Key(b[j]) {
      if Key(b[i]) == Key(b[j]) {
        OneOfKey(a, b[i], b[j]);
        TwoCopies(b, i, j);
        TwiceMeansTwo(a, b[i]);
      }
    }
  }

  lemma TwoCopies(b: seq<SearchResult>, i: nat, j: nat)
    requires i < j < |b| && b[i] == b[j]
    ensures multiset(b)[b[i]] >= 2
  {
    assert b == b[..i] + [b[i]] + b[i + 1..j] + [b[j]] + b[j + 1..];
  }

  lemma OneOfKey(a: seq<SearchResult>, x: SearchResult, y: SearchResult)
    requires DistinctKeys(a) && x in a && y in a && Key(x) == Key(y)
    ensures x == y
  {
  }

  lemma {:induction false} TwiceMeansTwo(a: seq<SearchResult>, x: SearchResult)
    requires DistinctKeys(a)
    ensures multiset(a)[x] <= 1
  {
    if a != [] {
      var front, last := a[..|a| - 1], a[|a| - 1];
      assert a == front + [last];
      TwiceMeansTwo(front, x);
      if x == last {
        assert x !in front;
      }
    }
  }

  /** Whatever the order of the results, the reduce phase returns a top K of them. */
  method Reduce(results: seq<SearchResult>, topK: nat) returns (out: seq<SearchResult>)
    ensures TopK(Pool(results), out, topK)
  {
    var deduped := Deduplicate(results);
    out := SortByScore(deduped);
    PermutationKeepsKeys(deduped, out);
    ghost var all := out;
    if |out| > topK {
      out := out[..topK];
    }
    forall i | 0 <= i < |all| ensures BestOfKey(Pool(results), all[i]) {
      assert all[i] in deduped;
    }
    Truncates(Pool(results), all, out, topK);
  }

  lemma Truncates(pool: iset<SearchResult>, all: seq<SearchResult>, out: seq<SearchResult>, k: nat)
    requires Sorted(all) && DistinctKeys(all) && forall i :: 0 <= i < |all| ==> BestOfKey(pool, all[i])
    requires forall x :: x in pool ==> Key(x) in KeysOf(all)
    requires out == if |all| > k then all[..k] else all
    ensures TopK(pool, out, k)
  {
    forall x, i | x in pool && Key(x) !in KeysOf(out) && 0 <= i < |out| ensures x.score <= out[i].score {
      assert forall m :: 0 <= m < |out| ==> Key(out[m]) in KeysOf(out) && out[m] == all[m];
      var j :| 0 <= j < |all| && Key(all[j]) == Key(x);
      assert BestOfKey(pool, all[j]);
    }
  }

  // ---------- From nodes to the cluster ----------

  /** A node answers with k of its entries, or all if it has fewer, none worse than one it keeps back. */
  ghost predicate Answers(collection: seq<SearchResult>, answer: seq<SearchResult>, k: nat) {
    && Distinct(answer)
    && (forall x :: x in answer ==> x in collection)
    && (|answer| >= k || forall x :: x in collection ==> x in answer)
    && forall x, y :: x in collection && x !in answer && y in answer ==> x.score <= y.score
  }

  /** The answer has k different keys, or all there are. */
  ghost predicate EnoughKeys(collection: seq<SearchResult>, answer: seq<SearchResult>, k: nat) {
    |KeysOf(answer)| >= k || KeysOf(answer) == KeysOf(collection)
  }

  ghost function AllEntries(nodes: seq<seq<SearchResult>>): iset<SearchResult> {
    iset n, x | 0 <= n < |nodes| && x in nodes[n] :: x
  }

  ghost predicate AllAnswer(collections: seq<seq<SearchResult>>, answers: seq<seq<SearchResult>>, k: nat) {
    |collections| == |answers| && forall n :: 0 <= n < |answers| ==> Answers(collections[n], answers[n], k)
  }

  ghost predicate AllEnough(collections: seq<seq<SearchResult>>, answers: seq<seq<SearchResult>>, k: nat)
    requires |collections| == |answers|
  {
    forall n :: 0 <= n < |answers| ==> EnoughKeys(collections[n], answers[n], k)
  }

  lemma {:induction false} KeysCount(s: seq<SearchResult>)
    requires DistinctKeys(s)
    ensures |KeysOf(s)| == |s|
  {
    if s != [] {
      var front, last := s[..|s| - 1], s[|s| - 1];
      assert s == front + [last];
      KeysCount(front);
      KeysOfAppend(front, last);
      assert Key(last) !in KeysOf(front);
    }
  }

  /**
    An answer with k keys cannot score above some result of a top K throughout: that top K would be too short to hold
    it.
   */
  lemma Crowded(pool: iset<SearchResult>, out: seq<SearchResult>, k: nat, answer: seq<SearchResult>, g: nat)
    requires TopK(pool, out, k) && g < |out|
    requires |KeysOf(answer)| >= k && forall y :: y in answer ==> y in pool
    ensures exists y :: y in answer && y.score <= out[g].score
  {
    KeysCount(out);
    assert Key(out[g]) in KeysOf(out);
    if forall y :: y in answer ==> y.score > out[g].score {
      forall i | 0 <= i < |answer| ensures Key(answer[i]) in KeysOf(out) - {Key(out[g])} {
        assert answer[i] in answer && answer[i] in pool;
        assert BestOfKey(pool, out[g]);
      }
      SubsetSize(KeysOf(answer), KeysOf(out) - {Key(out[g])});
    }
  }

  /**
    An entry kept back by its node does not beat any result, or another entry of its key that is as good was not kept
    back.
   */
  lemma KeptBack(collections: seq<seq<SearchResult>>, answers: seq<seq<SearchResult>>, k: nat, out: seq<SearchResult>,
                 x: SearchResult, g: nat)
    requires AllAnswer(collections, answers, k) && AllEnough(collections, answers, k)
    requires TopK(AllEntries(answers), out, k) && g < |out|
    requires x in AllEntries(collections) && x !in AllEntries(answers)
    ensures || x.score <= out[g].score
            || exists y :: y in AllEntries(answers) && Key(y) == Key(x) && x.score <= y.score
  {
    var n :| 0 <= n < |collections| && x in collections[n];
    assert Answers(collections[n], answers[n], k) && EnoughKeys(collections[n], answers[n], k);
    assert x !in answers[n];
    assert forall y :: y in answers[n] ==> y in AllEntries(answers);
    if |KeysOf(answers[n])| >= k {
      Crowded(AllEntries(answers), out, k, answers[n], g);
    } else {
      var y := SameKeyAnswered(collections[n], answers[n], x);
      assert x.score <= y.score;
    }
  }

  lemma SameKeyAnswered(collection: seq<SearchResult>, answer: seq<SearchResult>, x: SearchResult)
    returns (y: SearchResult)
    requires KeysOf(answer) == KeysOf(collection) && x in collection
    ensures y in answer && Key(y) == Key(x)
  {
    var i :| 0 <= i < |collection| && collection[i] == x;
    assert Key(x) in KeysOf(answer);
    var j :| 0 <= j < |answer| && Key(answer[j]) == Key(x);
    y := answer[j];
  }

  /** With fewer than k results no key was kept back anywhere. */
  lemma NoKeyKeptBack(collections: seq<seq<SearchResult>>, answers: seq<seq<SearchResult>>, k: nat,
                      out: seq<SearchResult>,
                      x: SearchResult)
    requires AllAnswer(collections, answers, k) && AllEnough(collections, answers, k)
    requires TopK(AllEntries(answers), out, k) && |out| < k
    requires x in AllEntries(collections)
    ensures Key(x) in KeysOf(out)
  {
    var n :| 0 <= n < |collections| && x in collections[n];
    assert EnoughKeys(collections[n], answers[n], k);
    forall i | 0 <= i < |answers[n]| ensures Key(answers[n][i]) in KeysOf(out) {
      assert answers[n][i] in answers[n];
      assert answers[n][i] in AllEntries(answers);
    }
    assert KeysOf(answers[n]) <= KeysOf(out);
    KeysCount(out);
    SubsetSize(KeysOf(answers[n]), KeysOf(out));
    var y := SameKeyAnswered(collections[n], answers[n], x);
    assert Key(y) in KeysOf(answers[n]);
  }

  /**
    A top K of the nodes' answers is a top K of everything the nodes hold, if each answer has k keys or all its node
    has.
   */
  lemma AnswersSuffice(collections: seq<seq<SearchResult>>, answers: seq<seq<SearchResult>>, k: nat,
                       out: seq<SearchResult>)
    requires AllAnswer(collections, answers, k) && AllEnough(collections, answers, k)
    requires TopK(AllEntries(answers), out, k)
    ensures TopK(AllEntries(collections), out, k)
  {
    var all, pool := AllEntries(collections), AllEntries(answers);
    forall x | x in pool ensures x in all {
      var n :| 0 <= n < |answers| && x in answers[n];
      assert Answers(collections[n], answers[n], k);
    }
    forall x, g | x in all && 0 <= g < |out| && (Key(x) == Key(out[g]) || Key(x) !in KeysOf(out))
      ensures x.score <= out[g].score
    {
      assert BestOfKey(pool, out[g]);
      if x !in pool {
        KeptBack(collections, answers, k, out, x, g);
      }
    }
    forall i | 0 <= i < |out| ensures BestOfKey(all, out[i]) {
      assert BestOfKey(pool, out[i]);
    }
    if |out| < k {
      forall x | x in all ensures Key(x) in KeysOf(out) {
        NoKeyKeptBack(collections, answers, k, out, x);
      }
    }
  }

  /** The whole search: node answers arrive in any order and are reduced to a top K of the cluster. */
  method Search(collections: seq<seq<SearchResult>>, answers: seq<seq<SearchResult>>, arrivals: seq<SearchResult>,
                topK: nat)
    returns (out: seq<SearchResult>)
    requires AllAnswer(collections, answers, topK)
    requires forall x :: x in arrivals <==> x in AllEntries(answers)
    ensures TopK(AllEntries(answers), out, topK)
    ensures AllEnough(collections, answers, topK) ==> TopK(AllEntries(collections), out, topK)
  {
    out := Reduce(arrivals, topK);
    assert Pool(arrivals) == AllEntries(answers);
    if AllEnough(collections, answers, topK) {
      AnswersSuffice(collections, answers, topK, out);
    }
  }

  // ---------- One node ----------

  /** What a node of files with different contents holds: no two entries of one key. */
  lemma DistinctFilesSuffice(collection: seq<SearchResult>, answer: seq<SearchResult>, k: nat)
    requires Answers(collection, answer, k) && DistinctKeys(collection)
    ensures EnoughKeys(collection, answer, k)
  {
    forall i, j | 0 <= i < j < |answer| ensures Key(answer[i]) != Key(answer[j]) {
      assert answer[i] in collection && answer[j] in collection;
      if Key(answer[i]) == Key(answer[j]) {
        OneOfKey(collection, answer[i], answer[j]);
      }
    }
    KeysCount(answer);
    if |answer| < k {
      AllAnswered(collection, answer);
    }
  }

  lemma AllAnswered(collection: seq<SearchResult>, answer: seq<SearchResult>)
    requires forall x :: x in answer <==> x in collection
    ensures KeysOf(answer) == KeysOf(collection)
  {
    forall i | 0 <= i < |answer| ensures Key(answer[i]) in KeysOf(collection) {
      assert answer[i] in collection;
    }
    forall i | 0 <= i < |collection| ensures Key(collection[i]) in KeysOf(answer) {
      assert collection[i] in answer;
    }
  }

  /** Removes the entry of one key. */
  lemma WithoutKey(s: seq<SearchResult>, g: nat) returns (r: seq<SearchResult>)
    requires Sorted(s) && DistinctKeys(s) && g < |s|
    ensures Sorted(r) && DistinctKeys(r) && KeysOf(r) == KeysOf(s) - {Key(s[g])}
    ensures forall x :: x in r ==> x in s
  {
    r := s[..g] + s[g + 1..];
    assert forall i :: 0 <= i < |r| ==> r[i] == s[if i < g then i else i + 1];
    forall i | 0 <= i < |s| && i != g ensures Key(s[i]) in KeysOf(r) {
      assert r[if i < g then i else i - 1] == s[i];
    }
  }

  lemma {:induction false} PositionFor(s: seq<SearchResult>, n: nat, x: SearchResult) returns (j: nat)
    requires Sorted(s) && n <= |s| && forall k :: n <= k < |s| ==> s[k].score <= x.score
    ensures j <= |s| && (forall k :: 0 <= k < j ==> s[k].score > x.score) && (j < |s| ==> s[j].score <= x.score)
  {
    j := n;
    if n > 0 && s[n - 1].score <= x.score {
      j := PositionFor(s, n - 1, x);
    } else if n > 0 {
      assert forall k :: 0 <= k < n ==> s[k].score >= s[n - 1].score;
    }
  }

  lemma InsertSorted(s: seq<SearchResult>, x: SearchResult) returns (r: seq<SearchResult>)
    requires Sorted(s) && DistinctKeys(s) && Key(x) !in KeysOf(s)
    ensures Sorted(r) && DistinctKeys(r) && KeysOf(r) == KeysOf(s) + {Key(x)}
    ensures forall y :: y in r <==> y in s || y == x
  {
    var j := PositionFor(s, |s|, x);
    r := s[..j] + [x] + s[j..];
    InsertKeepsOrder(s, j, x);
    KeysOfAppend(s, x);
    hide Sorted, DistinctKeys, KeysOf;
    PermutationKeepsKeys(s + [x], r);
  }

  /** Some list has the best entry of each key, best first. */
  lemma {:induction false} BestPerKey(s: seq<SearchResult>) returns (r: seq<SearchResult>)
    ensures Sorted(r) && DistinctKeys(r) && KeysOf(r) == KeysOf(s)
    ensures forall i :: 0 <= i < |r| ==> BestOfKey(Pool(s), r[i])
  {
    if s == [] {
      r := [];
      assert KeysOf(r) == KeysOf(s);
    } else {
      var front, last := s[..|s| - 1], s[|s| - 1];
      assert s == front + [last];
      KeysOfAppend(front, last);
      r := BestPerKey(front);
      r := AddEntry(front, last, r);
    }
  }

  lemma AddEntry(front: seq<SearchResult>, last: SearchResult, r: seq<SearchResult>) returns (r': seq<SearchResult>)
    requires Sorted(r) && DistinctKeys(r) && KeysOf(r) == KeysOf(front)
    requires forall i :: 0 <= i < |r| ==> BestOfKey(Pool(front), r[i])
    ensures Sorted(r') && DistinctKeys(r') && KeysOf(r') == KeysOf(front) + {Key(last)}
    ensures forall i :: 0 <= i < |r'| ==> BestOfKey(Pool(front + [last]), r'[i])
  {
    if Key(last) in KeysOf(r) {
      var g :| 0 <= g < |r| && Key(r[g]) == Key(last);
      if last.score > r[g].score {
        var rest := WithoutKey(r, g);
        r' := InsertSorted(rest, last);
        BestInserted(front, last, r, rest, r');
      } else {
        r' := r;
        StillBest(front, last, r, g);
      }
    } else {
      assert forall x :: x in r ==> Key(x) in KeysOf(r);
      r' := InsertSorted(r, last);
      BestInserted(front, last, r, r, r');
    }
  }

  lemma StillBest(front: seq<SearchResult>, last: SearchResult, r: seq<SearchResult>, g: nat)
    requires forall i :: 0 <= i < |r| ==> BestOfKey(Pool(front), r[i])
    requires DistinctKeys(r) && g < |r| && Key(r[g]) == Key(last) && last.score <= r[g].score
    ensures forall i :: 0 <= i < |r| ==> BestOfKey(Pool(front + [last]), r[i])
  {
  }

  lemma BestInserted(front: seq<SearchResult>, last: SearchResult, r: seq<SearchResult>, rest: seq<SearchResult>,
                     r': seq<SearchResult>)
    requires forall i :: 0 <= i < |r| ==> BestOfKey(Pool(front), r[i])
    requires KeysOf(r) == KeysOf(front) && KeysOf(rest) == KeysOf(r) - {Key(last)}
    requires forall x :: x in r && Key(x) == Key(last) ==> x.score < last.score
    requires forall x :: x in rest ==> x in r
    requires forall y :: y in r' <==> y in rest || y == last
    ensures forall i :: 0 <= i < |r'| ==> BestOfKey(Pool(front + [last]), r'[i])
  {
    forall x | x in front && Key(x) == Key(last) ensures x.score <= last.score {
      var i :| 0 <= i < |front| && front[i] == x;
      assert Key(last) in KeysOf(r);
      var j :| 0 <= j < |r| && Key(r[j]) == Key(last);
      assert BestOfKey(Pool(front), r[j]);
      assert r[j] in r;
    }
    forall i | 0 <= i < |r'| ensures BestOfKey(Pool(front + [last]), r'[i]) {
      if r'[i] != last {
        assert r'[i] in r' && r'[i] in rest && r'[i] in r;
        var j :| 0 <= j < |r| && r[j] == r'[i];
        assert BestOfKey(Pool(front), r[j]);
        var m :| 0 <= m < |rest| && rest[m] == r'[i];
        assert Key(rest[m]) in KeysOf(rest);
      }
    }
  }

  /** With fewer than k keys answered, the results are all of them. */
  lemma ShortAnswer(answer: seq<SearchResult>, k: nat) returns (out: seq<SearchResult>)
    requires |KeysOf(answer)| < k
    ensures TopK(Pool(answer), out, k) && |out| < k && KeysOf(out) == KeysOf(answer)
  {
    out := BestPerKey(answer);
    KeysCount(out);
    forall x | x in Pool(answer) ensures Key(x) in KeysOf(out) {
      var i :| 0 <= i < |answer| && answer[i] == x;
      assert Key(x) in KeysOf(answer);
    }
  }

  /** Every top K of a node's answer is one of all it holds, exactly when the answer has k keys or all the node has. */
  lemma AnswerSufficesExactly(collection: seq<SearchResult>, answer: seq<SearchResult>, k: nat)
    requires Answers(collection, answer, k)
    ensures (forall out :: TopK(Pool(answer), out, k) ==> TopK(Pool(collection), out, k)) <==>
            EnoughKeys(collection, answer, k)
  {
    if EnoughKeys(collection, answer, k) {
      forall out | TopK(Pool(answer), out, k) ensures TopK(Pool(collection), out, k) {
        OneNode(collection, answer, k, out);
      }
    } else {
      var out := ShortAnswer(answer, k);
      MissingKey(collection, answer);
      var x :| x in collection && Key(x) !in KeysOf(answer);
      assert !FullOrAll(Pool(collection), out, k);
    }
  }

  lemma OneNode(collection: seq<SearchResult>, answer: seq<SearchResult>, k: nat, out: seq<SearchResult>)
    requires Answers(collection, answer, k) && EnoughKeys(collection, answer, k) && TopK(Pool(answer), out, k)
    ensures TopK(Pool(collection), out, k)
  {
    assert AllEntries([answer]) == Pool(answer) by { JustOne(answer); }
    assert AllEntries([collection]) == Pool(collection) by { JustOne(collection); }
    AnswersSuffice([collection], [answer], k, out);
  }

  lemma JustOne(s: seq<SearchResult>)
    ensures AllEntries([s]) == Pool(s)
  {
    forall x | x in Pool(s) ensures x in AllEntries([s]) {
      assert x in [s][0];
    }
  }

  lemma MissingKey(collection: seq<SearchResult>, answer: seq<SearchResult>)
    requires KeysOf(answer) != KeysOf(collection) && forall x :: x in answer ==> x in collection
    ensures exists x :: x in collection && Key(x) !in KeysOf(answer)
  {
    forall i | 0 <= i < |answer| ensures Key(answer[i]) in KeysOf(collection) {
      assert answer[i] in collection;
    }
    var key :| key in KeysOf(collection) && key !in KeysOf(answer);
    var i :| 0 <= i < |collection| && Key(collection[i]) == key;
    assert collection[i] in collection;
  }

  // ---------- Uniqueness ----------

  ghost predicate NoTies(pool: iset<SearchResult>) {
    forall x, y :: x in pool && y in pool && Key(x) != Key(y) ==> x.score != y.score
  }

  /** Without score ties between keys there is only one top K, as far as keys and scores go. */
  lemma TopKUnique(pool: iset<SearchResult>, a: seq<SearchResult>, b: seq<SearchResult>, k: nat)
    requires NoTies(pool) && TopK(pool, a, k) && TopK(pool, b, k)
    ensures |a| == |b| && forall i :: 0 <= i < |a| ==> Key(a[i]) == Key(b[i]) && a[i].score == b[i].score
  {
    SameKeys(pool, a, b, k);
    SameKeys(pool, b, a, k);
    KeysCount(a);
    KeysCount(b);
    assert KeysOf(a) == KeysOf(b);
    forall i | 0 <= i < |a| ensures Key(a[i]) == Key(b[i]) && a[i].score == b[i].score {
      SamePosition(pool, a, b, i);
    }
  }

  lemma SameKeys(pool: iset<SearchResult>, a: seq<SearchResult>, b: seq<SearchResult>, k: nat)
    requires NoTies(pool) && TopK(pool, a, k) && TopK(pool, b, k)
    ensures KeysOf(a) <= KeysOf(b)
  {
    forall i | 0 <= i < |a| ensures Key(a[i]) in KeysOf(b) {
      assert BestOfKey(pool, a[i]);
      if Key(a[i]) !in KeysOf(b) {
        assert |b| == k;
        forall j | 0 <= j < |b| ensures Key(b[j]) in KeysOf(a) - {Key(a[i])} {
          assert BestOfKey(pool, b[j]);
          assert Key(b[j]) in KeysOf(b);
        }
        assert KeysOf(b) <= KeysOf(a) - {Key(a[i])};
        assert Key(a[i]) in KeysOf(a);
        KeysCount(a);
        KeysCount(b);
        SubsetSize(KeysOf(b), KeysOf(a) - {Key(a[i])});
      }
    }
  }

  /** Two sorted listings of the same keys agree position by position. */
  lemma {:induction false} SamePosition(pool: iset<SearchResult>, a: seq<SearchResult>, b: seq<SearchResult>, i: nat)
    requires NoTies(pool) && Sorted(a) && Sorted(b) && DistinctKeys(a) && DistinctKeys(b) && KeysOf(a) == KeysOf(b)
    requires forall j :: 0 <= j < |a| ==> BestOfKey(pool, a[j])
    requires forall j :: 0 <= j < |b| ==> BestOfKey(pool, b[j])
    requires i < |a| && i < |b|
    ensures Key(a[i]) == Key(b[i]) && a[i].score == b[i].score
    decreases i
  {
    assert Key(a[i]) in KeysOf(b) && Key(b[i]) in KeysOf(a);
    var m :| 0 <= m < |b| && Key(b[m]) == Key(a[i]);
    var n :| 0 <= n < |a| && Key(a[n]) == Key(b[i]);
    assert BestOfKey(pool, a[i]) && BestOfKey(pool, b[i]) && BestOfKey(pool, b[m]) && BestOfKey(pool, a[n]);
    if m < i {
      SamePosition(pool, a, b, m);
    }
    if n < i {
      SamePosition(pool, a, b, n);
    }
  }

  /**
    Two copies of one file on a node, under different names, crowd out another file: asked for the two best, the node
    answers with both copies, which are one result, and the cluster's second best is lost.
   */
  lemma DuplicatesCrowdOut(x: SearchResult, y: SearchResult, z: SearchResult)
    requires x == SearchResult("t", "a.txt", 0, "h", 3.0) && y == SearchResult("t", "b.txt", 0, "h", 3.0)
    requires z == SearchResult("u", "c.txt", 0, "i", 1.0)
    ensures Answers([x, y, z], [x, y], 2) && !EnoughKeys([x, y, z], [x, y], 2)
    ensures TopK(Pool([x, y]), [x], 2) && !TopK(Pool([x, y, z]), [x], 2)
  {
    assert "a.txt"[0] != "b.txt"[0] && "h"[0] != "i"[0];
    assert x != y && Key(x) == Key(y) != Key(z);
    CopiesAreOneKey(x, y, z);
    hide Key, KeysOf;
    assert [x][0] == x;
    assert [x, y, z][2] == z && z in Pool([x, y, z]);
  }

  lemma CopiesAreOneKey(x: SearchResult, y: SearchResult, z: SearchResult)
    requires Key(x) == Key(y) != Key(z)
    ensures KeysOf([x]) == KeysOf([x, y]) == {Key(x)} && Key(z) in KeysOf([x, y, z])
  {
    assert [x][0] == x && [x, y][0] == x && [x, y, z][2] == z;
  }
}
