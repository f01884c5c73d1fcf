/** Retrieval and prompt assembly of the chat service: corpus deduplication, top-k ranking of
    chunks by similarity score, aligned lookups of chunk texts, keys and page URLs, the model
    gate in front of the generation worker, and the context-augmented prompt.
    The embedder with its normalisation and matrix product is the parameter `similarity`
    (embedder input text -> one score per corpus row); numpy's argsort is the parameter
    `argsort`; the HTTP generation worker is the parameter `generate`. */
module Retrieval {
  import opened Common
  import opened Strings

  /** The embedder input for a query is this prefix followed by the query. */
  const QueryPromptPrefix: string := "query: "

  /** Number of chunks retrieved for a retrieval-augmented query. */
  const RetrievalTopK: int := 5

  /** The only model name the generation worker is queried for. */
  const SupportedModel: string := "vicuna-13b-v1.5"

  /** Separator placed between retrieved contexts. */
  const ContextSeparator: string := "\n\n"

  /** The context prompt template around its two slots, context then query. */
  const TemplateHead: string := "context information is below.\n---------------------\n"
  const TemplateMiddle: string :=
    "\n---------------------\n\nGiven the context information and not prior knowledge, answer the following query, only use the relevant context information.\n---------------------\n"
  const TemplateTail: string := "\n---------------------\n"

  /** One row of the chunk table (its embedding is folded into `similarity`). */
  datatype ChunkRow = ChunkRow(key: string, textChunked: string)

  /** One row of the document metadata table. */
  datatype DocumentRow = DocumentRow(key: string, url: string)

  /** What can make a query fail: an unsupported model name, the worker being unreachable,
      a row position past the end of the chunk table, a key with no metadata row. */
  datatype Error = UnsupportedModel(name: string) | ConnectionFailure | PositionOutOfBounds | KeyNotFound(key: string)

  /** Calls to outside services: the embedder (with its input text) and the worker (with the
      `user_msg` field of the posted payload). */
  datatype Effect = Embed(text: string) | Post(userMsg: string)

  /** A result together with the outside calls issued to produce it, in order. */
  datatype Outcome<T> = Outcome(result: Result<T, Error>, effects: seq<Effect>)

  // ---------------------------------------------------------------- corpus

  /** Row `j` is the first row carrying its chunk text. */
  predicate IsFirstOccurrence(rows: seq<ChunkRow>, j: int)
    requires 0 <= j < |rows|
  {
    forall i :: 0 <= i < j ==> rows[i].textChunked != rows[j].textChunked
  }

  /** The corpus table after dropping rows whose chunk text appeared on an earlier row. */
  function GetCorpus(rows: seq<ChunkRow>): (r: seq<ChunkRow>)
    ensures |r| <= |rows|
    decreases |rows|
  {
    if rows == [] then []
    else
      var n := |rows| - 1;
      var earlier := GetCorpus(rows[..n]);
      if IsFirstOccurrence(rows, n) then earlier + [rows[n]] else earlier
  }

  /** The positions in the original table of the rows `GetCorpus` keeps. */
  ghost function KeptPositions(rows: seq<ChunkRow>): seq<nat>
    decreases |rows|
  {
    if rows == [] then []
    else
      var n := |rows| - 1;
      var earlier := KeptPositions(rows[..n]);
      if IsFirstOccurrence(rows, n) then earlier + [n] else earlier
  }

  /** Whether a row is the first with its chunk text is decided by the rows before it. */
  lemma FirstOccurrenceInPrefix(rows: seq<ChunkRow>, n: nat)
    requires n <= |rows|
    ensures forall j :: 0 <= j < n ==> (IsFirstOccurrence(rows[..n], j) <==> IsFirstOccurrence(rows, j))
  {
    assert forall j :: 0 <= j < n ==> rows[..n][j] == rows[j];
  }

  /** The kept rows are the rows at the kept positions, which increase and are first
      occurrences. */
  lemma {:induction false} KeptPositionsAlign(rows: seq<ChunkRow>)
    ensures |KeptPositions(rows)| == |GetCorpus(rows)|
    ensures forall i :: 0 <= i < |GetCorpus(rows)| ==>
              KeptPositions(rows)[i] < |rows| && GetCorpus(rows)[i] == rows[KeptPositions(rows)[i]]
              && IsFirstOccurrence(rows, KeptPositions(rows)[i])
    ensures forall i, k :: 0 <= i < k < |GetCorpus(rows)| ==> KeptPositions(rows)[i] < KeptPositions(rows)[k]
    decreases |rows|
  {
    if rows != [] {
      var n := |rows| - 1;
      var front := rows[..n];
      KeptPositionsAlign(front);
      FirstOccurrenceInPrefix(rows, n);
      var r, idx := GetCorpus(rows), KeptPositions(rows);
      var r0, idx0 := GetCorpus(front), KeptPositions(front);
      assert forall i :: 0 <= i < |r0| ==> front[idx0[i]] == rows[idx0[i]];
      if IsFirstOccurrence(rows, n) {
        assert r == r0 + [rows[n]] && idx == idx0 + [n];
      } else {
        assert r == r0 && idx == idx0;
      }
    }
  }

  /** Every first occurrence of a chunk text is at a kept position. */
  lemma {:induction false} KeptPositionsComplete(rows: seq<ChunkRow>)
    ensures forall j :: 0 <= j < |rows| && IsFirstOccurrence(rows, j) ==> j in KeptPositions(rows)
    decreases |rows|
  {
    if rows != [] {
      var n := |rows| - 1;
      var front := rows[..n];
      KeptPositionsComplete(front);
      FirstOccurrenceInPrefix(rows, n);
      var idx, idx0 := KeptPositions(rows), KeptPositions(front);
      if IsFirstOccurrence(rows, n) {
        assert idx == idx0 + [n];
      } else {
        assert idx == idx0;
      }
    }
  }

  /** Deduplication keeps exactly the first row of each chunk text, in the original order
      (renumbered from 0): the kept rows come from increasing positions that are first
      occurrences, and every first occurrence is kept. */
  lemma GetCorpusKeepsFirstOccurrences(rows: seq<ChunkRow>)
    ensures |KeptPositions(rows)| == |GetCorpus(rows)|
    ensures forall i :: 0 <= i < |GetCorpus(rows)| ==>
              KeptPositions(rows)[i] < |rows| && GetCorpus(rows)[i] == rows[KeptPositions(rows)[i]]
              && IsFirstOccurrence(rows, KeptPositions(rows)[i])
    ensures forall i, k :: 0 <= i < k < |GetCorpus(rows)| ==> KeptPositions(rows)[i] < KeptPositions(rows)[k]
    ensures forall j :: 0 <= j < |rows| && IsFirstOccurrence(rows, j) ==> j in KeptPositions(rows)
  {
    KeptPositionsAlign(rows);
    KeptPositionsComplete(rows);
  }

  /** After deduplication no chunk text occurs twice. */
  lemma GetCorpusTextsUnique(rows: seq<ChunkRow>)
    ensures forall i, k :: 0 <= i < k < |GetCorpus(rows)| ==>
              GetCorpus(rows)[i].textChunked != GetCorpus(rows)[k].textChunked
  {
    GetCorpusKeepsFirstOccurrences(rows);
    var r, idx := GetCorpus(rows), KeptPositions(rows);
    forall i, k | 0 <= i < k < |r|
      ensures r[i].textChunked != r[k].textChunked
    {
      assert idx[i] < idx[k] && IsFirstOccurrence(rows, idx[k]);
    }
  }

  /** Deduplication loses no chunk text. */
  lemma {:induction false} GetCorpusKeepsEveryText(rows: seq<ChunkRow>)
    ensures forall j :: 0 <= j < |rows| ==>
              exists i :: 0 <= i < |GetCorpus(rows)| && GetCorpus(rows)[i].textChunked == rows[j].textChunked
    decreases |rows|
  {
    if rows != [] {
      var n := |rows| - 1;
      var front := rows[..n];
      GetCorpusKeepsEveryText(front);
      var r, r0 := GetCorpus(rows), GetCorpus(front);
      assert |r0| <= |r| && forall i :: 0 <= i < |r0| ==> r[i] == r0[i];
      forall j | 0 <= j < |rows|
        ensures exists i :: 0 <= i < |r| && r[i].textChunked == rows[j].textChunked
      {
        if j < n {
          assert front[j] == rows[j];
          var i :| 0 <= i < |r0| && r0[i].textChunked == front[j].textChunked;
          assert r[i].textChunked == rows[j].textChunked;
        } else if IsFirstOccurrence(rows, n) {
          assert r[|r| - 1] == rows[n];
        } else {
          var m :| 0 <= m < n && rows[m].textChunked == rows[n].textChunked;
          assert front[m] == rows[m];
          var i :| 0 <= i < |r0| && r0[i].textChunked == front[m].textChunked;
          assert r[i].textChunked == rows[j].textChunked;
        }
      }
      assert r == GetCorpus(rows);
    }
  }

  // ---------------------------------------------------------------- ranking

  /** `order` is what an ascending argsort of `scores` may return: a permutation of the row
      positions along which the scores never decrease (equal scores in any order). */
  ghost predicate IsArgsort(scores: seq<real>, order: seq<nat>)
  {
    && |order| == |scores|
    && (forall i :: 0 <= i < |order| ==> order[i] < |scores|)
    && (forall i, j :: 0 <= i < j < |order| ==> order[i] != order[j])
    && (forall k :: 0 <= k < |scores| ==> k in order)
    && (forall i, j :: 0 <= i < j < |order| ==> scores[order[i]] <= scores[order[j]])
  }

  /** The start position of the slice `a[start:]` on a sequence of length `n`. */
  function SliceStart(start: int, n: nat): (r: nat)
    ensures r <= n
    ensures start < 0 && -start <= n ==> r == n + start
    ensures start < 0 && -start > n ==> r == 0
    ensures 0 <= start ==> r == if start <= n then start else n
  {
    if start < 0 then (if n + start < 0 then 0 else n + start)
    else if start > n then n else start
  }

  /** `argsort(scores)[-topK:][::-1]`: the last `topK` positions of the ascending order,
      highest score first. */
  function DenseRetrieval(scores: seq<real>, order: seq<nat>, topK: int): (r: seq<nat>)
    requires IsArgsort(scores, order)
    ensures topK >= 1 ==> |r| == if topK <= |scores| then topK else |scores|
    ensures topK == 0 ==> |r| == |scores|
    ensures forall i :: 0 <= i < |r| ==> r[i] < |scores|
    ensures forall i, j :: 0 <= i < j < |r| ==> r[i] != r[j]
    ensures forall i, j :: 0 <= i < j < |r| ==> scores[r[i]] >= scores[r[j]]
    ensures forall k, i :: 0 <= k < |scores| && k !in r && 0 <= i < |r| ==> scores[k] <= scores[r[i]]
  {
    var n := |order|;
    var start := SliceStart(-topK, n);
    var r := seq(n - start, i requires 0 <= i < n - start => order[n - 1 - i]);
    assert forall m :: start <= m < n ==> order[m] == r[n - 1 - m] by {
      forall m | start <= m < n ensures order[m] == r[n - 1 - m] { }
    }
    TailOfArgsortIsOrdered(scores, order, start, r);
    TailOfArgsortIsTop(scores, order, start, r);
    r
  }

  /** The reversed tail `r` of an argsort from `start` holds distinct positions in range,
      with scores that never increase. */
  lemma TailOfArgsortIsOrdered(scores: seq<real>, order: seq<nat>, start: nat, r: seq<nat>)
    requires IsArgsort(scores, order) && start <= |order| && |r| == |order| - start
    requires forall m :: start <= m < |order| ==> order[m] == r[|order| - 1 - m]
    ensures forall i :: 0 <= i < |r| ==> r[i] < |scores|
    ensures forall i, j :: 0 <= i < j < |r| ==> r[i] != r[j] && scores[r[i]] >= scores[r[j]]
  {
    var n := |order|;
    assert forall i :: 0 <= i < |r| ==> r[i] == order[n - 1 - i];
  }

  /** The reversed tail `r` of an argsort from `start` on scores no lower than any position
      left out of it. */
  lemma TailOfArgsortIsTop(scores: seq<real>, order: seq<nat>, start: nat, r: seq<nat>)
    requires IsArgsort(scores, order) && start <= |order| && |r| == |order| - start
    requires forall m :: start <= m < |order| ==> order[m] == r[|order| - 1 - m]
    requires forall i :: 0 <= i < |r| ==> r[i] < |scores|
    ensures forall k, i :: 0 <= k < |scores| && k !in r && 0 <= i < |r| ==> scores[k] <= scores[r[i]]
  {
    var n := |order|;
    forall k, i | 0 <= k < |scores| && k !in r && 0 <= i < |r|
      ensures scores[k] <= scores[r[i]]
    {
      assert k in order;
      var m :| 0 <= m < n && order[m] == k;
      assert forall p :: start <= p < n ==> order[p] in r;
      assert m < start <= n - 1 - i;
      assert r[i] == order[n - 1 - i];
    }
  }

  /** No position occurs twice. */
  ghost predicate Distinct(s: seq<nat>)
  {
    forall i, j :: 0 <= i < j < |s| ==> s[i] != s[j]
  }

  /** Scores never decrease along `s`. */
  ghost predicate AscendingBy(scores: seq<real>, s: seq<nat>)
    requires forall i :: 0 <= i < |s| ==> s[i] < |scores|
  {
    forall i, j :: 0 <= i < j < |s| ==> scores[s[i]] <= scores[s[j]]
  }

  /** `sorted` with position `k` inserted before the first position of greater or equal score. */
  function InsertByScore(scores: seq<real>, sorted: seq<nat>, k: nat): (r: seq<nat>)
    requires k < |scores| && forall i :: 0 <= i < |sorted| ==> sorted[i] < |scores|
    ensures |r| == |sorted| + 1
    ensures forall x :: x in r <==> x in sorted || x == k
    ensures forall i :: 0 <= i < |r| ==> r[i] < |scores|
  {
    if sorted == [] then [k]
    else if scores[k] <= scores[sorted[0]] then [k] + sorted
    else [sorted[0]] + InsertByScore(scores, sorted[1..], k)
  }

  /** Putting a position before an ascending, distinct list keeps it ascending and distinct
      when that position differs from every element and scores no higher than any. */
  lemma ConsKeepsOrder(scores: seq<real>, x: nat, tail: seq<nat>)
    requires x < |scores| && forall i :: 0 <= i < |tail| ==> tail[i] < |scores|
    requires AscendingBy(scores, tail) && Distinct(tail)
    requires forall j :: 0 <= j < |tail| ==> scores[x] <= scores[tail[j]] && x != tail[j]
    ensures AscendingBy(scores, [x] + tail) && Distinct([x] + tail)
  {
    var r := [x] + tail;
    assert forall i :: 1 <= i < |r| ==> r[i] == tail[i - 1];
  }

  /** Insertion keeps the positions ascending by score and distinct. */
  lemma {:induction false} InsertByScoreKeepsOrder(scores: seq<real>, sorted: seq<nat>, k: nat)
    requires k < |scores| && forall i :: 0 <= i < |sorted| ==> sorted[i] < |scores|
    requires AscendingBy(scores, sorted) && Distinct(sorted) && k !in sorted
    ensures AscendingBy(scores, InsertByScore(scores, sorted, k))
    ensures Distinct(InsertByScore(scores, sorted, k))
    decreases |sorted|
  {
    if sorted == [] {
    } else if scores[k] > scores[sorted[0]] {
      var rest := sorted[1..];
      assert forall i :: 0 <= i < |rest| ==> rest[i] == sorted[i + 1];
      InsertByScoreKeepsOrder(scores, rest, k);
      var tail := InsertByScore(scores, rest, k);
      forall j | 0 <= j < |tail|
        ensures scores[sorted[0]] <= scores[tail[j]] && sorted[0] != tail[j]
      {
        assert tail[j] in tail;
        if tail[j] != k {
          var m :| 0 <= m < |rest| && rest[m] == tail[j];
          assert sorted[m + 1] == tail[j];
        }
      }
      ConsKeepsOrder(scores, sorted[0], tail);
      assert InsertByScore(scores, sorted, k) == [sorted[0]] + tail;
    } else {
      forall j | 0 <= j < |sorted|
        ensures scores[k] <= scores[sorted[j]] && k != sorted[j]
      {
        assert sorted[j] in sorted;
        if j > 0 {
          assert scores[sorted[0]] <= scores[sorted[j]];
        }
      }
      ConsKeepsOrder(scores, k, sorted);
      assert InsertByScore(scores, sorted, k) == [k] + sorted;
    }
  }

  /** An ascending argsort of the first `n` positions, built by insertion; a position goes before
      earlier positions of equal score. It is one of the orders `IsArgsort` admits. */
  function ArgsortPrefix(scores: seq<real>, n: nat): (r: seq<nat>)
    requires n <= |scores|
    ensures |r| == n
    ensures forall i :: 0 <= i < |r| ==> r[i] < |scores|
  {
    if n == 0 then [] else InsertByScore(scores, ArgsortPrefix(scores, n - 1), n - 1)
  }

  /** The insertion-built prefix is ascending by score, distinct, and holds exactly the
      positions below `n`. */
  lemma {:induction false} ArgsortPrefixOrdered(scores: seq<real>, n: nat)
    requires n <= |scores|
    ensures AscendingBy(scores, ArgsortPrefix(scores, n)) && Distinct(ArgsortPrefix(scores, n))
    ensures forall i :: 0 <= i < n ==> ArgsortPrefix(scores, n)[i] < n
    ensures forall x :: 0 <= x < n ==> x in ArgsortPrefix(scores, n)
  {
    if n > 0 {
      var p := ArgsortPrefix(scores, n - 1);
      ArgsortPrefixOrdered(scores, n - 1);
      assert n - 1 !in p by {
        assert forall m :: 0 <= m < |p| ==> p[m] != n - 1;
      }
      InsertByScoreKeepsOrder(scores, p, n - 1);
      var r := ArgsortPrefix(scores, n);
      assert r == InsertByScore(scores, p, n - 1);
      forall i | 0 <= i < n
        ensures r[i] < n
      {
        assert r[i] in r;
        if r[i] != n - 1 {
          var m :| 0 <= m < |p| && p[m] == r[i];
        }
      }
    }
  }

  /** An argsort exists for every score list, so the contract `IsArgsort` asks of numpy's
      argsort can be met. */
  lemma ArgsortPrefixIsArgsort(scores: seq<real>, n: nat)
    requires n <= |scores|
    ensures AscendingBy(scores, ArgsortPrefix(scores, n)) && Distinct(ArgsortPrefix(scores, n))
    ensures forall i :: 0 <= i < n ==> ArgsortPrefix(scores, n)[i] < n
    ensures forall x :: 0 <= x < n ==> x in ArgsortPrefix(scores, n)
    ensures n == |scores| ==> IsArgsort(scores, ArgsortPrefix(scores, n))
  {
    ArgsortPrefixOrdered(scores, n);
  }

  // ---------------------------------------------------------------- lookups

  /** `iloc[ids]` on the chunk table: keys and texts of the given rows, aligned with `ids`;
      a position past the end of the table is an error. */
  function GetDocuments(ids: seq<nat>, corpus: seq<ChunkRow>): (r: Result<(seq<string>, seq<string>), Error>)
    ensures r.Success? <==> forall i :: 0 <= i < |ids| ==> ids[i] < |corpus|
    ensures r.Failure? ==> r.error == PositionOutOfBounds
    ensures r.Success? ==> |r.value.0| == |ids| && |r.value.1| == |ids|
    ensures r.Success? ==> forall i :: 0 <= i < |ids| ==>
              r.value.0[i] == corpus[ids[i]].key && r.value.1[i] == corpus[ids[i]].textChunked
  {
    if forall i :: 0 <= i < |ids| ==> ids[i] < |corpus| then
      Success((seq(|ids|, i requires 0 <= i < |ids| => corpus[ids[i]].key),
               seq(|ids|, i requires 0 <= i < |ids| => corpus[ids[i]].textChunked)))
    else Failure(PositionOutOfBounds)
  }

  /** The URL on the first metadata row with the given key, if any row has it. */
  function FirstUrl(docs: seq<DocumentRow>, key: string): (r: Option<string>)
    ensures r.None? <==> forall j :: 0 <= j < |docs| ==> docs[j].key != key
    ensures r.Some? ==> exists j :: 0 <= j < |docs| && docs[j].key == key && docs[j].url == r.value
                                    && forall i :: 0 <= i < j ==> docs[i].key != key
  {
    if docs == [] then None
    else if docs[0].key == key then Some(docs[0].url)
    else
      var rest := FirstUrl(docs[1..], key);
      assert forall j :: 1 <= j < |docs| ==> docs[j] == docs[1..][j - 1];
      rest
  }

  /** The URL of every key in order, or the error for the first key without a metadata row. */
  function Urls(keys: seq<string>, docs: seq<DocumentRow>): (r: Result<seq<string>, Error>)
    ensures r.Success? ==> |r.value| == |keys|
    decreases |keys|
  {
    if keys == [] then Success([])
    else
      var n := |keys| - 1;
      match Urls(keys[..n], docs)
      case Failure(e) => Failure(e)
      case Success(urls) =>
        match FirstUrl(docs, keys[n])
        case None => Failure(KeyNotFound(keys[n]))
        case Some(url) => Success(urls + [url])
  }

  /** `Urls` succeeds exactly when every key has a metadata row. */
  lemma {:induction false} UrlsSuccessIff(keys: seq<string>, docs: seq<DocumentRow>)
    ensures Urls(keys, docs).Success? <==> forall i :: 0 <= i < |keys| ==> FirstUrl(docs, keys[i]).Some?
    decreases |keys|
  {
    if keys != [] {
      var n := |keys| - 1;
      var front := keys[..n];
      UrlsSuccessIff(front, docs);
      if Urls(front, docs).Failure? {
        assert Urls(keys, docs) == Urls(front, docs);
        var i :| 0 <= i < n && FirstUrl(docs, front[i]).None?;
        assert front[i] == keys[i];
      } else if FirstUrl(docs, keys[n]).Some? {
        assert Urls(keys, docs).Success?;
        forall i | 0 <= i < |keys|
          ensures FirstUrl(docs, keys[i]).Some?
        {
          if i < n {
            assert front[i] == keys[i];
          }
        }
      } else {
        assert Urls(keys, docs).Failure?;
      }
    }
  }

  /** On success `Urls` gives each key's first URL, in key order. */
  lemma {:induction false} UrlsValues(keys: seq<string>, docs: seq<DocumentRow>)
    ensures Urls(keys, docs).Success? ==>
              forall i :: 0 <= i < |keys| ==> FirstUrl(docs, keys[i]) == Some(Urls(keys, docs).value[i])
    decreases |keys|
  {
    if keys != [] {
      var n := |keys| - 1;
      var front := keys[..n];
      var prefix := Urls(front, docs);
      UrlsValues(front, docs);
      if prefix.Success? && FirstUrl(docs, keys[n]).Some? {
        assert forall i :: 0 <= i < n ==> front[i] == keys[i];
        var whole := prefix.value + [FirstUrl(docs, keys[n]).value];
        assert Urls(keys, docs) == Success(whole);
        assert forall i :: 0 <= i < n ==> whole[i] == prefix.value[i];
      }
    }
  }

  /** On failure `Urls` names the first key that has no metadata row. */
  lemma {:induction false} UrlsFailureNamesFirstMissing(keys: seq<string>, docs: seq<DocumentRow>)
    ensures Urls(keys, docs).Failure? ==>
              exists m :: 0 <= m < |keys| && FirstUrl(docs, keys[m]).None?
                          && Urls(keys, docs).error == KeyNotFound(keys[m])
                          && forall i :: 0 <= i < m ==> FirstUrl(docs, keys[i]).Some?
    decreases |keys|
  {
    if keys != [] {
      var n := |keys| - 1;
      var front := keys[..n];
      var prefix := Urls(front, docs);
      UrlsFailureNamesFirstMissing(front, docs);
      if prefix.Failure? {
        assert Urls(keys, docs) == prefix;
        var m :| 0 <= m < n && FirstUrl(docs, front[m]).None? && prefix.error == KeyNotFound(front[m])
                 && forall i :: 0 <= i < m ==> FirstUrl(docs, front[i]).Some?;
        assert forall i :: 0 <= i <= m ==> front[i] == keys[i];
      } else if FirstUrl(docs, keys[n]).None? {
        UrlsSuccessIff(front, docs);
        assert forall i :: 0 <= i < n ==> front[i] == keys[i];
        assert Urls(keys, docs) == Failure(KeyNotFound(keys[n]));
      }
    }
  }

  /** `Urls` succeeds exactly when every key has a metadata row, and then gives each key's
      first URL in key order; otherwise it names the first key that has none. */
  lemma UrlsMeaning(keys: seq<string>, docs: seq<DocumentRow>)
    ensures Urls(keys, docs).Success? <==> forall i :: 0 <= i < |keys| ==> FirstUrl(docs, keys[i]).Some?
    ensures Urls(keys, docs).Success? ==>
              forall i :: 0 <= i < |keys| ==> Urls(keys, docs).value[i] == FirstUrl(docs, keys[i]).value
    ensures Urls(keys, docs).Failure? ==>
              exists m :: 0 <= m < |keys| && FirstUrl(docs, keys[m]).None?
                          && Urls(keys, docs).error == KeyNotFound(keys[m])
                          && forall i :: 0 <= i < m ==> FirstUrl(docs, keys[i]).Some?
  {
    UrlsSuccessIff(keys, docs);
    UrlsValues(keys, docs);
    UrlsFailureNamesFirstMissing(keys, docs);
  }

  /** Once a prefix of the keys fails, the whole list fails with the same error. */
  lemma {:induction false} UrlsFailurePersists(keys: seq<string>, docs: seq<DocumentRow>, m: nat)
    requires m <= |keys| && Urls(keys[..m], docs).Failure?
    ensures Urls(keys, docs) == Urls(keys[..m], docs)
    decreases |keys|
  {
    if m < |keys| {
      var n := |keys| - 1;
      assert keys[..n][..m] == keys[..m];
      UrlsFailurePersists(keys[..n], docs, m);
    } else {
      assert keys[..m] == keys;
    }
  }

  /** Looks up the URL of each key in turn; fails at the first key that has no metadata row. */
  method GetUrls(keys: seq<string>, docs: seq<DocumentRow>) returns (r: Result<seq<string>, Error>)
    ensures r == Urls(keys, docs)
  {
    var urls: seq<string> := [];
    for i := 0 to |keys|
      invariant Urls(keys[..i], docs) == Success(urls)
    {
      assert keys[..i + 1][..i] == keys[..i];
      var found := FirstUrl(docs, keys[i]);
      if found.None? {
        r := Failure(KeyNotFound(keys[i]));
        UrlsFailurePersists(keys, docs, i + 1);
        return;
      }
      urls := urls + [found.value];
    }
    assert keys[..|keys|] == keys;
    r := Success(urls);
  }

  // ---------------------------------------------------------------- generation

  /** The embedder input for a query: the query prompt prefix, then the query itself. */
  function QueryText(query: string): (r: string)
    ensures StartsWith(r, QueryPromptPrefix) && r[|QueryPromptPrefix|..] == query
  {
    QueryPromptPrefix + query
  }

  /** Asks the generation worker, but only for the supported model name: any other name is
      rejected before anything is posted. `generate` gives the worker's response body for a
      posted `user_msg`, or None when the request itself fails. */
  function Query(userMsg: string, llmName: string, generate: string -> Option<string>): (r: Outcome<string>)
    ensures llmName != SupportedModel ==> r.result == Failure(UnsupportedModel(llmName)) && r.effects == []
    ensures llmName == SupportedModel ==> r.effects == [Post(userMsg)]
    ensures llmName == SupportedModel ==>
              (r.result.Success? <==> generate(userMsg).Some?)
              && (r.result.Success? ==> r.result.value == generate(userMsg).value)
              && (r.result.Failure? ==> r.result.error == ConnectionFailure)
  {
    if llmName == SupportedModel then
      var response := generate(userMsg);
      Outcome(if response.Some? then Success(response.value) else Failure(ConnectionFailure), [Post(userMsg)])
    else
      Outcome(Failure(UnsupportedModel(llmName)), [])
  }

  /** Each of five concatenated parts can be read back at its offset. */
  lemma ConcatFiveParts(a: string, b: string, c: string, d: string, e: string)
    ensures var r := a + b + c + d + e;
            && |r| == |a| + |b| + |c| + |d| + |e|
            && r[..|a|] == a
            && r[|a|..|a| + |b|] == b
            && r[|a| + |b|..|a| + |b| + |c|] == c
            && r[|r| - |e| - |d|..|r| - |e|] == d
            && r[|r| - |e|..] == e
  {
    var r := a + b + c + d + e;
    assert r == (((a + b) + c) + d) + e;
    assert r[..|a|] == a;
    assert r[|a|..|a| + |b|] == b;
    assert r[|a| + |b|..|a| + |b| + |c|] == c;
    assert r[|r| - |e| - |d|..|r| - |e|] == d;
  }

  /** The context prompt: the template with the context block and the query in their slots. */
  function ContextPrompt(contextStr: string, queryStr: string): string
  {
    TemplateHead + contextStr + TemplateMiddle + queryStr + TemplateTail
  }

  /** The context block and the query are placed verbatim at fixed offsets between the
      template's fixed parts, so either can be read back from the prompt. */
  lemma ContextPromptLayout(contextStr: string, queryStr: string)
    ensures var r := ContextPrompt(contextStr, queryStr);
            && |r| == |TemplateHead| + |contextStr| + |TemplateMiddle| + |queryStr| + |TemplateTail|
            && StartsWith(r, TemplateHead)
            && r[|TemplateHead|..|TemplateHead| + |contextStr|] == contextStr
            && r[|TemplateHead| + |contextStr|..|TemplateHead| + |contextStr| + |TemplateMiddle|] == TemplateMiddle
            && r[|r| - |TemplateTail| - |queryStr|..|r| - |TemplateTail|] == queryStr
            && r[|r| - |TemplateTail|..] == TemplateTail
  {
    ConcatFiveParts(TemplateHead, contextStr, TemplateMiddle, queryStr, TemplateTail);
  }

  /** Distinct contexts give distinct prompts for the same query, and distinct queries give
      distinct prompts for the same context. */
  lemma ContextPromptInjective(c1: string, q1: string, c2: string, q2: string)
    requires |c1| == |c2| || |q1| == |q2|
    ensures ContextPrompt(c1, q1) == ContextPrompt(c2, q2) ==> c1 == c2 && q1 == q2
  {
    ContextPromptLayout(c1, q1);
    ContextPromptLayout(c2, q2);
  }

  /** The chunk positions retrieved for a query: ranked by the similarity of the embedded
      query text to every corpus row. */
  function RetrievedIds(userMsg: string, similarity: string -> seq<real>,
                        argsort: seq<real> -> seq<nat>, topK: int): (r: seq<nat>)
    requires forall scores :: IsArgsort(scores, argsort(scores))
    ensures var scores := similarity(QueryText(userMsg));
            && (topK >= 1 ==> |r| == if topK <= |scores| then topK else |scores|)
            && (topK == 0 ==> |r| == |scores|)
            && (forall i :: 0 <= i < |r| ==> r[i] < |scores|)
            && (forall i, j :: 0 <= i < j < |r| ==> r[i] != r[j] && scores[r[i]] >= scores[r[j]])
            && (forall k, i :: 0 <= k < |scores| && k !in r && 0 <= i < |r| ==> scores[k] <= scores[r[i]])
  {
    var scores := similarity(QueryText(userMsg));
    DenseRetrieval(scores, argsort(scores), topK)
  }

  /** Retrieves the `topK` best chunks for a message and returns their texts and the URLs of
      their pages, aligned and in rank order; the only outside call is the query embedding. */
  function ContextRetrieve(userMsg: string, docs: seq<DocumentRow>, corpus: seq<ChunkRow>,
                           similarity: string -> seq<real>, argsort: seq<real> -> seq<nat>,
                           topK: int): (r: Outcome<(seq<string>, seq<string>)>)
    requires forall scores :: IsArgsort(scores, argsort(scores))
    ensures r.effects == [Embed(QueryText(userMsg))]
    ensures var ids := RetrievedIds(userMsg, similarity, argsort, topK);
            r.result.Success? <==>
              forall i :: 0 <= i < |ids| ==> ids[i] < |corpus| && FirstUrl(docs, corpus[ids[i]].key).Some?
    ensures var ids := RetrievedIds(userMsg, similarity, argsort, topK);
            r.result.Failure? ==>
              && (r.result.error == PositionOutOfBounds <==> exists i :: 0 <= i < |ids| && ids[i] >= |corpus|)
              && (r.result.error == PositionOutOfBounds || r.result.error.KeyNotFound?)
    ensures r.result.Success? ==>
              var ids := RetrievedIds(userMsg, similarity, argsort, topK);
              && |r.result.value.0| == |ids| && |r.result.value.1| == |ids|
              && forall i :: 0 <= i < |ids| ==>
                   ids[i] < |corpus|
                   && r.result.value.0[i] == corpus[ids[i]].textChunked
                   && FirstUrl(docs, corpus[ids[i]].key) == Some(r.result.value.1[i])
  {
    var ids := RetrievedIds(userMsg, similarity, argsort, topK);
    var effects := [Embed(QueryText(userMsg))];
    match GetDocuments(ids, corpus)
    case Failure(e) => Outcome(Failure(e), effects)
    case Success(found) =>
      UrlsMeaning(found.0, docs);
      match Urls(found.0, docs)
      case Failure(e) => Outcome(Failure(e), effects)
      case Success(urls) => Outcome(Success((found.1, urls)), effects)
  }

  /** When there is one score per corpus row, as when the scores come from the corpus's own
      embeddings, every retrieved position is a row: retrieval then fails only on a chunk key
      with no metadata row. */
  lemma AlignedScoresFailOnlyOnMissingKeys(userMsg: string, docs: seq<DocumentRow>, corpus: seq<ChunkRow>,
                                           similarity: string -> seq<real>, argsort: seq<real> -> seq<nat>,
                                           topK: int)
    requires forall scores :: IsArgsort(scores, argsort(scores))
    requires |similarity(QueryText(userMsg))| == |corpus|
    ensures var ids := RetrievedIds(userMsg, similarity, argsort, topK);
            var r := ContextRetrieve(userMsg, docs, corpus, similarity, argsort, topK);
            && (r.result.Success? <==> forall i :: 0 <= i < |ids| ==> FirstUrl(docs, corpus[ids[i]].key).Some?)
            && (r.result.Failure? ==> r.result.error.KeyNotFound?)
  {
  }

  /** The generation half of a retrieval-augmented query: a failed retrieval is passed on;
      otherwise the context prompt is built from the contexts joined by a blank line and the
      message, the model is queried with it, and the answer comes back with the references. */
  function AnswerWithContext(userMsg: string, llmName: string, context: Outcome<(seq<string>, seq<string>)>,
                             generate: string -> Option<string>): (r: Outcome<(string, seq<string>)>)
    ensures context.result.Failure? ==> r.result == Failure(context.result.error) && r.effects == context.effects
    ensures context.result.Success? ==>
              var prompt := ContextPrompt(Join(context.result.value.0, ContextSeparator), userMsg);
              && r.effects == context.effects + (if llmName == SupportedModel then [Post(prompt)] else [])
              && (r.result.Success? <==> llmName == SupportedModel && generate(prompt).Some?)
              && (r.result.Success? ==> r.result.value == (generate(prompt).value, context.result.value.1))
              && (r.result.Failure? ==>
                    r.result.error == if llmName == SupportedModel then ConnectionFailure else UnsupportedModel(llmName))
  {
    match context.result
    case Failure(e) => Outcome(Failure(e), context.effects)
    case Success(found) =>
      var answer := Query(ContextPrompt(Join(found.0, ContextSeparator), userMsg), llmName, generate);
      match answer.result
      case Failure(e) => Outcome(Failure(e), context.effects + answer.effects)
      case Success(text) => Outcome(Success((text, found.1)), context.effects + answer.effects)
  }

  /** Retrieves context with top-k 5, builds the context prompt from the contexts joined by a
      blank line and the message, and queries the model with it; returns the answer with the
      references of the contexts unchanged. Retrieval runs before the model name is checked. */
  function RetrievalAugmentedQuery(userMsg: string, llmName: string, docs: seq<DocumentRow>,
                                   corpus: seq<ChunkRow>, similarity: string -> seq<real>,
                                   argsort: seq<real> -> seq<nat>,
                                   generate: string -> Option<string>): (r: Outcome<(string, seq<string>)>)
    requires forall scores :: IsArgsort(scores, argsort(scores))
    ensures |r.effects| >= 1 && r.effects[0] == Embed(QueryText(userMsg))
    ensures llmName != SupportedModel ==> r.result.Failure? && forall e :: e in r.effects ==> !e.Post?
    ensures var context := ContextRetrieve(userMsg, docs, corpus, similarity, argsort, RetrievalTopK);
            context.result.Failure? ==> r.result == Failure(context.result.error) && r.effects == context.effects
    ensures var context := ContextRetrieve(userMsg, docs, corpus, similarity, argsort, RetrievalTopK);
            context.result.Success? && llmName == SupportedModel ==>
              var prompt := ContextPrompt(Join(context.result.value.0, ContextSeparator), userMsg);
              && r.effects == [Embed(QueryText(userMsg)), Post(prompt)]
              && (r.result.Success? <==> generate(prompt).Some?)
              && (r.result.Failure? ==> r.result.error == ConnectionFailure)
    ensures r.result.Success? ==>
              var context := ContextRetrieve(userMsg, docs, corpus, similarity, argsort, RetrievalTopK);
              && context.result.Success?
              && r.result.value.1 == context.result.value.1
              && |r.result.value.1| <= RetrievalTopK
              && r.effects == [Embed(QueryText(userMsg)), Post(ContextPrompt(Join(context.result.value.0, ContextSeparator), userMsg))]
              && Some(r.result.value.0) == generate(ContextPrompt(Join(context.result.value.0, ContextSeparator), userMsg))
  {
    AnswerWithContext(userMsg, llmName, ContextRetrieve(userMsg, docs, corpus, similarity, argsort, RetrievalTopK), generate)
  }
}
