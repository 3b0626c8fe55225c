/**
 * The word-vector loader and getter: the vocabulary and the line-offset index are
 * built once at load time; `GetVec` then looks up a sentence of words, answering
 * cache hits from the cache and reading each missed word's vector line from the
 * vector file exactly once, however often the word occurs.
 *
 * Files are modelled by their contents. A vector is the list of its numeric
 * columns, each kept as its text: only how many there are matters here.
 */
module Word2vec {
  import opened Text
  import opened Cache

  /** A word vector: its columns, each the text of one number. */
  type Vector = seq<string>

  datatype Option<T> = None | Some(value: T)

  datatype Result<T, E> = Success(value: T) | Failure(error: E)

  /** The one load-time error the model raises: vocabulary and vector file disagree in length. */
  datatype LoadError = LineCountMismatch(vocabSize: nat, vectorLines: nat)

  function Min(a: nat, b: nat): nat {
    if a <= b then a else b
  }

  // ---------------------------------------------------------------------------
  // Vocabulary
  // ---------------------------------------------------------------------------

  /**
   * `[w.strip() for w in f.readlines()][:most_words]`: the first `mostWords` lines
   * of the vocabulary file, stripped, in file order (rank order).
   */
  function Idx2Word(vocabFile: string, mostWords: nat): (idx2word: seq<string>)
    ensures |idx2word| <= mostWords
    ensures |idx2word| == Min(|SplitLines(vocabFile)|, mostWords)
    ensures forall i :: 0 <= i < |idx2word| ==> idx2word[i] == Strip(SplitLines(vocabFile)[i])
  {
    var lines := SplitLines(vocabFile);
    var stripped := seq(|lines|, i requires 0 <= i < |lines| => Strip(lines[i]));
    stripped[..Min(|stripped|, mostWords)]
  }

  /**
   * `dict([(w, idx) for idx, w in enumerate(idx2word)])`: every word of the list is
   * a key, mapped to a position that holds it; as the pairs are inserted in order,
   * a repeated word keeps the position of its last occurrence.
   */
  function Word2Idx(idx2word: seq<string>): (word2idx: map<string, nat>)
    ensures word2idx.Keys == set w | w in idx2word
    ensures forall w :: w in word2idx ==> word2idx[w] < |idx2word| && idx2word[word2idx[w]] == w
    ensures forall w, j :: w in word2idx && word2idx[w] < j < |idx2word| ==> idx2word[j] != w
  {
    if idx2word == [] then map[]
    else
      var n := |idx2word| - 1;
      var front := idx2word[..n];
      var m := Word2Idx(front);
      assert forall i :: 0 <= i < n ==> front[i] == idx2word[i];
      assert idx2word == front + [idx2word[n]];
      m[idx2word[n] := n]
  }

  /** `set(idx2word)`: exactly the words that occur in the list. */
  function WordSet(idx2word: seq<string>): (words: set<string>)
    ensures forall w :: w in words <==> exists i :: 0 <= i < |idx2word| && idx2word[i] == w
  {
    set w | w in idx2word
  }

  // ---------------------------------------------------------------------------
  // Line-offset index
  // ---------------------------------------------------------------------------

  /**
   * How many offsets the load loop records when the file has `lines` lines. The
   * stop test comes after the append, so with `mostWords == 0` it never fires and
   * every line gets an offset.
   */
  function OffsetCount(lines: nat, mostWords: nat): (n: nat)
    ensures n <= lines
    ensures mostWords > 0 ==> n <= mostWords
    ensures n < lines ==> 0 < mostWords && n == mostWords
  {
    if mostWords == 0 then lines else Min(lines, mostWords)
  }

  /**
   * The load loop over the lines of the vector file: append the running offset,
   * add the line's length, stop once `mostWords` offsets are recorded. Offset `i`
   * is the sum of the lengths of the lines before line `i`; `OffsetsReadBack`
   * says what that buys.
   */
  method BuildLineOffsets(lines: seq<string>, mostWords: nat) returns (lineOffset: seq<nat>)
    ensures |lineOffset| == OffsetCount(|lines|, mostWords)
    ensures forall i {:trigger lineOffset[i]} :: 0 <= i < |lineOffset| ==> lineOffset[i] == Start(lines, i)
  {
    lineOffset := [];
    var offset := 0;
    var k := 0;
    while k < |lines|
      invariant 0 <= k <= |lines|
      invariant |lineOffset| == k
      invariant mostWords == 0 || k < mostWords
      invariant offset == Start(lines, k)
      invariant forall i {:trigger lineOffset[i]} :: 0 <= i < k ==> lineOffset[i] == Start(lines, i)
    {
      lineOffset := lineOffset + [offset];
      offset := offset + |lines[k]|;
      k := k + 1;
      if |lineOffset| == mostWords {
        break;
      }
    }
  }

  // ---------------------------------------------------------------------------
  // The loaded state
  // ---------------------------------------------------------------------------

  /**
   * What loading builds and the lookup reads: the vocabulary list, its inverse
   * `word2idx`, the word set, one offset per vocabulary entry, the vector file's
   * contents, and the configuration that `get_vec` consults.
   */
  datatype Index = Index(
    idx2word: seq<string>,
    word2idx: map<string, nat>,
    words: set<string>,
    lineOffset: seq<nat>,
    vecFile: string,
    checkLen: nat,
    skipFirstCol: bool)
  {
    /** Enough for a lookup to be well defined: every known word has an id with an offset. */
    ghost predicate Consistent() {
      && words == word2idx.Keys
      && forall w :: w in word2idx ==> word2idx[w] < |lineOffset|
    }

    /**
     * Everything a successful load establishes: `word2idx` and `words` are built from
     * `idx2word`, and offset `i` is where line `i` of the vector file starts.
     */
    ghost predicate Valid() {
      && Consistent()
      && word2idx == Word2Idx(idx2word)
      && words == WordSet(idx2word)
      && (forall w :: w in word2idx ==> word2idx[w] < |idx2word| && idx2word[word2idx[w]] == w)
      && |lineOffset| == |idx2word|
      && |lineOffset| <= |SplitLines(vecFile)|
      && (forall i :: 0 <= i < |lineOffset| ==> lineOffset[i] == |Concat(SplitLines(vecFile)[..i])|)
      && (forall i :: 0 <= i < |lineOffset| ==> ReadLine(vecFile, lineOffset[i]) == SplitLines(vecFile)[i])
    }
  }

  /**
   * The body of `__init__` up to the cache: load the vocabulary, build the offsets,
   * and raise unless there are as many offsets as vocabulary entries.
   */
  method BuildIndex(vocabFile: string, vecFile: string, checkLen: nat, mostWords: nat, skipFirstCol: bool)
    returns (r: Result<Index, LoadError>)
    ensures r.Success? <==> |Idx2Word(vocabFile, mostWords)| == OffsetCount(|SplitLines(vecFile)|, mostWords)
    ensures r.Failure? ==>
              r.error == LineCountMismatch(|Idx2Word(vocabFile, mostWords)|, OffsetCount(|SplitLines(vecFile)|, mostWords))
    ensures r.Success? ==>
              && r.value.Valid()
              && r.value.idx2word == Idx2Word(vocabFile, mostWords)
              && r.value.word2idx == Word2Idx(r.value.idx2word)
              && r.value.words == WordSet(r.value.idx2word)
              && r.value.vecFile == vecFile
              && r.value.checkLen == checkLen
              && r.value.skipFirstCol == skipFirstCol
              && (forall i :: 0 <= i < |r.value.lineOffset| ==>
                    r.value.lineOffset[i] == |Concat(SplitLines(vecFile)[..i])|)
  {
    var idx2word := Idx2Word(vocabFile, mostWords);
    var word2idx := Word2Idx(idx2word);
    var words := WordSet(idx2word);
    var lineOffset := BuildLineOffsets(SplitLines(vecFile), mostWords);
    OffsetsReadBack(vecFile, lineOffset);
    if |lineOffset| != |idx2word| {
      return Failure(LineCountMismatch(|idx2word|, |lineOffset|));
    }
    r := Success(Index(idx2word, word2idx, words, lineOffset, vecFile, checkLen, skipFirstCol));
  }

  /**
   * A valid index looks a word up at its last position in the vocabulary, and the
   * offset stored there reads back that whole line of the vector file.
   */
  lemma LookupLine(ix: Index, w: string)
    requires ix.Valid() && w in ix.words
    ensures ix.word2idx[w] < |ix.idx2word| && ix.idx2word[ix.word2idx[w]] == w
    ensures forall j :: ix.word2idx[w] < j < |ix.idx2word| ==> ix.idx2word[j] != w
    ensures ReadLine(ix.vecFile, ix.lineOffset[ix.word2idx[w]]) == SplitLines(ix.vecFile)[ix.word2idx[w]]
  {
  }

  // ---------------------------------------------------------------------------
  // What a lookup answers
  // ---------------------------------------------------------------------------

  /** `line.split(' ')`, without its first token when that is a label column. */
  function Columns(line: string, skipFirstCol: bool): (cols: Vector)
    ensures |cols| == Occurrences(line, ' ') + (if skipFirstCol then 0 else 1)
  {
    var tokens := Split(line, ' ');
    if skipFirstCol then tokens[1..] else tokens
  }

  /** The random fallback: `np.random.rand(check_len)` draws a vector of `checkLen` values. */
  ghost predicate RandomFits(checkLen: nat, rand: nat -> Vector) {
    forall id :: |rand(id)| == checkLen
  }

  /** Whether line `id` of the vector file has the expected number of columns. */
  predicate WellFormed(ix: Index, id: nat)
    requires id < |ix.lineOffset|
  {
    |Columns(ReadLine(ix.vecFile, ix.lineOffset[id]), ix.skipFirstCol)| == ix.checkLen
  }

  /**
   * The vector the miss loop stores for `id`: the columns of its line when there
   * are `checkLen` of them, the random vector otherwise; so always `checkLen` long.
   */
  function Resolve(ix: Index, rand: nat -> Vector, id: nat): (v: Vector)
    requires id < |ix.lineOffset|
    ensures |rand(id)| == ix.checkLen ==> |v| == ix.checkLen
    ensures WellFormed(ix, id) ==> v == Columns(ReadLine(ix.vecFile, ix.lineOffset[id]), ix.skipFirstCol)
  {
    var cols := Columns(ReadLine(ix.vecFile, ix.lineOffset[id]), ix.skipFirstCol);
    if |cols| != ix.checkLen then rand(id) else cols
  }

  /** The answer for one word: none out of the vocabulary, the cached vector on a hit, else a fresh read. */
  function Slot(ix: Index, entries: map<nat, Vector>, rand: nat -> Vector, w: string): (r: Option<Vector>)
    requires ix.Consistent()
    ensures r.None? <==> w !in ix.words
    ensures w in ix.words && ix.word2idx[w] in entries ==> r == Some(entries[ix.word2idx[w]])
    ensures w in ix.words && Coherent(ix, entries) && WellFormed(ix, ix.word2idx[w]) ==>
              r == Some(Columns(ReadLine(ix.vecFile, ix.lineOffset[ix.word2idx[w]]), ix.skipFirstCol))
  {
    if w !in ix.words then None
    else
      var id := ix.word2idx[w];
      if id in entries then Some(entries[id]) else Some(Resolve(ix, rand, id))
  }

  /**
   * The list `get_vec` returns for `sent` when the cache held `entries`: one slot per
   * word, empty exactly for the words outside the vocabulary, equal for equal words.
   */
  function Expected(ix: Index, entries: map<nat, Vector>, rand: nat -> Vector, sent: seq<string>)
    : (result: seq<Option<Vector>>)
    requires ix.Consistent()
    ensures |result| == |sent|
    ensures forall p :: 0 <= p < |sent| ==> (result[p] == None <==> sent[p] !in ix.words)
    ensures forall p, q :: 0 <= p < |sent| && 0 <= q < |sent| && sent[p] == sent[q] ==> result[p] == result[q]
  {
    seq(|sent|, p requires 0 <= p < |sent| => Slot(ix, entries, rand, sent[p]))
  }

  /** The cache never holds a malformed entry: each key has an offset and each vector `checkLen` columns. */
  ghost predicate CacheFits(ix: Index, entries: map<nat, Vector>) {
    forall k :: k in entries ==> k < |ix.lineOffset| && |entries[k]| == ix.checkLen
  }

  /** Every vector of a lookup has `checkLen` columns. */
  lemma ExpectedLengths(ix: Index, entries: map<nat, Vector>, rand: nat -> Vector, sent: seq<string>)
    requires ix.Consistent() && CacheFits(ix, entries) && RandomFits(ix.checkLen, rand)
    ensures forall p :: 0 <= p < |sent| && Expected(ix, entries, rand, sent)[p].Some? ==>
              |Expected(ix, entries, rand, sent)[p].value| == ix.checkLen
  {
    var result := Expected(ix, entries, rand, sent);
    forall p | 0 <= p < |sent| && result[p].Some?
      ensures |result[p].value| == ix.checkLen
    {
      var w := sent[p];
      assert result[p] == Slot(ix, entries, rand, w);
      var id := ix.word2idx[w];
      assert |Resolve(ix, rand, id)| == ix.checkLen;
    }
  }

  // ---------------------------------------------------------------------------
  // The misses of a lookup
  // ---------------------------------------------------------------------------

  /** Position `q` holds a vocabulary word whose id the cache did not have. */
  predicate MissAt(ix: Index, entries: map<nat, Vector>, sent: seq<string>, q: int)
    requires ix.Consistent()
  {
    0 <= q < |sent| && sent[q] in ix.words && ix.word2idx[sent[q]] !in entries
  }

  /**
   * `w_not_hit` after the first loop has seen `sent[..n]`: each missed id maps to the
   * positions where it occurs, appended in order.
   */
  function NotHit(ix: Index, entries: map<nat, Vector>, sent: seq<string>, n: nat): (groups: map<nat, seq<nat>>)
    requires ix.Consistent() && n <= |sent|
    ensures forall id :: id in groups ==> groups[id] != []
  {
    if n == 0 then map[]
    else
      var pending := NotHit(ix, entries, sent, n - 1);
      var q := n - 1;
      if MissAt(ix, entries, sent, q) then
        var id := ix.word2idx[sent[q]];
        pending[id := (if id in pending then pending[id] else []) + [q]]
      else pending
  }

  /** The keys of `w_not_hit` are the ids of the missed positions seen so far, none of them cached. */
  lemma {:induction false} NotHitKeys(ix: Index, entries: map<nat, Vector>, sent: seq<string>, n: nat)
    requires ix.Consistent() && n <= |sent|
    ensures forall id :: id in NotHit(ix, entries, sent, n) ==> id !in entries && id < |ix.lineOffset|
    ensures forall id :: id in NotHit(ix, entries, sent, n) ==>
              exists q :: 0 <= q < n && MissAt(ix, entries, sent, q) && ix.word2idx[sent[q]] == id
    ensures forall q :: 0 <= q < n && MissAt(ix, entries, sent, q) ==> ix.word2idx[sent[q]] in NotHit(ix, entries, sent, n)
  {
    if n > 0 {
      NotHitKeys(ix, entries, sent, n - 1);
    }
  }

  /** The list recorded for a missed id holds exactly the missed positions seen so far whose word has that id. */
  lemma {:induction false} NotHitPositions(ix: Index, entries: map<nat, Vector>, sent: seq<string>, n: nat)
    requires ix.Consistent() && n <= |sent|
    ensures forall id, q {:trigger q in NotHit(ix, entries, sent, n)[id]} :: id in NotHit(ix, entries, sent, n) ==>
              (q in NotHit(ix, entries, sent, n)[id] <==>
                 0 <= q < n && MissAt(ix, entries, sent, q) && ix.word2idx[sent[q]] == id)
  {
    if n > 0 {
      NotHitPositions(ix, entries, sent, n - 1);
      NotHitKeys(ix, entries, sent, n - 1);
      var before := NotHit(ix, entries, sent, n - 1);
      var after := NotHit(ix, entries, sent, n);
      var q := n - 1;
      forall id, x | id in after
        ensures x in after[id] <==> 0 <= x < n && MissAt(ix, entries, sent, x) && ix.word2idx[sent[x]] == id
      {
        if MissAt(ix, entries, sent, q) && id == ix.word2idx[sent[q]] {
          var earlier := if id in before then before[id] else [];
          assert after[id] == earlier + [q];
          if 0 <= x < q && MissAt(ix, entries, sent, x) && ix.word2idx[sent[x]] == id {
            assert id in before && x in before[id];
          }
          if x in earlier {
            assert id in before && x in before[id];
          }
        } else {
          assert id in before && after[id] == before[id];
          assert x in before[id] <==> 0 <= x < q && MissAt(ix, entries, sent, x) && ix.word2idx[sent[x]] == id;
        }
      }
    }
  }

  /** Positions are appended in the order the first loop meets them, so each list is strictly increasing. */
  lemma {:induction false} NotHitSorted(ix: Index, entries: map<nat, Vector>, sent: seq<string>, n: nat)
    requires ix.Consistent() && n <= |sent|
    ensures forall id, i, j :: id in NotHit(ix, entries, sent, n) && 0 <= i < j < |NotHit(ix, entries, sent, n)[id]| ==>
              NotHit(ix, entries, sent, n)[id][i] < NotHit(ix, entries, sent, n)[id][j]
  {
    if n > 0 {
      NotHitSorted(ix, entries, sent, n - 1);
      NotHitPositions(ix, entries, sent, n - 1);
      var before := NotHit(ix, entries, sent, n - 1);
      var after := NotHit(ix, entries, sent, n);
      var q := n - 1;
      if MissAt(ix, entries, sent, q) {
        var id := ix.word2idx[sent[q]];
        var earlier := if id in before then before[id] else [];
        assert after == before[id := earlier + [q]];
        forall i, j | 0 <= i < j < |after[id]|
          ensures after[id][i] < after[id][j]
        {
          if j < |earlier| {
            assert after[id][i] == before[id][i] && after[id][j] == before[id][j];
          } else {
            assert after[id][i] == earlier[i] && earlier[i] in earlier;
            assert earlier[i] in before[id];
          }
        }
      }
    }
  }

  /**
   * Grouping of the misses: the keys of `w_not_hit` are exactly the ids of the
   * missed positions, none of them cached, and the list for an id holds, in
   * increasing order, exactly the missed positions whose word has that id.
   */
  lemma NotHitGroups(ix: Index, entries: map<nat, Vector>, sent: seq<string>, n: nat)
    requires ix.Consistent() && n <= |sent|
    ensures forall id :: id in NotHit(ix, entries, sent, n) ==> id !in entries && id < |ix.lineOffset|
    ensures forall q :: 0 <= q < n && MissAt(ix, entries, sent, q) ==> ix.word2idx[sent[q]] in NotHit(ix, entries, sent, n)
    ensures forall id, q {:trigger q in NotHit(ix, entries, sent, n)[id]} :: id in NotHit(ix, entries, sent, n) ==>
              (q in NotHit(ix, entries, sent, n)[id] <==>
                 0 <= q < n && MissAt(ix, entries, sent, q) && ix.word2idx[sent[q]] == id)
    ensures forall id, i, j :: id in NotHit(ix, entries, sent, n) && 0 <= i < j < |NotHit(ix, entries, sent, n)[id]| ==>
              NotHit(ix, entries, sent, n)[id][i] < NotHit(ix, entries, sent, n)[id][j]
  {
    NotHitKeys(ix, entries, sent, n);
    NotHitPositions(ix, entries, sent, n);
    NotHitSorted(ix, entries, sent, n);
  }

  /** The ids a lookup reads from the vector file: the keys of `w_not_hit`. */
  function Misses(ix: Index, entries: map<nat, Vector>, sent: seq<string>): set<nat>
    requires ix.Consistent()
  {
    NotHit(ix, entries, sent, |sent|).Keys
  }

  // ---------------------------------------------------------------------------
  // The cache across lookups
  // ---------------------------------------------------------------------------

  /**
   * How a lookup leaves the cache: every entry is one it held before, unchanged, or
   * a missed id now holding the vector read for it.
   */
  ghost predicate Refreshed(ix: Index, rand: nat -> Vector, before: map<nat, Vector>, after: map<nat, Vector>, done: seq<nat>) {
    forall k :: k in after ==>
      (k in before && after[k] == before[k]) ||
      (k in done && k < |ix.lineOffset| && after[k] == Resolve(ix, rand, k))
  }

  /** A lookup keeps the cache free of malformed entries. */
  lemma RefreshedFits(ix: Index, rand: nat -> Vector, before: map<nat, Vector>, after: map<nat, Vector>, done: seq<nat>)
    requires CacheFits(ix, before) && RandomFits(ix.checkLen, rand)
    requires Refreshed(ix, rand, before, after, done)
    ensures CacheFits(ix, after)
  {
    forall k | k in after
      ensures k < |ix.lineOffset| && |after[k]| == ix.checkLen
    {
      if !(k in before && after[k] == before[k]) {
        assert |rand(k)| == ix.checkLen;
      }
    }
  }

  /** Every cached vector of a well-formed line is that line's columns. */
  ghost predicate Coherent(ix: Index, entries: map<nat, Vector>) {
    forall k :: k in entries ==>
      k < |ix.lineOffset| && (WellFormed(ix, k) ==> entries[k] == Columns(ReadLine(ix.vecFile, ix.lineOffset[k]), ix.skipFirstCol))
  }

  /** Lookups keep the cache coherent: the empty cache is, and a refresh preserves it. */
  lemma RefreshedCoherent(ix: Index, rand: nat -> Vector, before: map<nat, Vector>, after: map<nat, Vector>, done: seq<nat>)
    requires Coherent(ix, before)
    requires Refreshed(ix, rand, before, after, done)
    ensures Coherent(ix, after)
  {
    forall k | k in after
      ensures k < |ix.lineOffset|
      ensures WellFormed(ix, k) ==> after[k] == Columns(ReadLine(ix.vecFile, ix.lineOffset[k]), ix.skipFirstCol)
    {
      if !(k in before && after[k] == before[k]) {
        assert after[k] == Resolve(ix, rand, k);
      }
    }
  }

  /**
   * Repeating a lookup gives the same vectors: with coherent caches, whatever they
   * hold, two lookups agree at every word whose line is well formed, and there give
   * the columns of that line. Only substituted random vectors may differ.
   */
  lemma LookupsAgree(ix: Index, c1: map<nat, Vector>, r1: nat -> Vector, c2: map<nat, Vector>, r2: nat -> Vector, sent: seq<string>)
    requires ix.Consistent() && Coherent(ix, c1) && Coherent(ix, c2)
    ensures forall p :: 0 <= p < |sent| && sent[p] in ix.words && WellFormed(ix, ix.word2idx[sent[p]]) ==>
              Expected(ix, c1, r1, sent)[p] == Expected(ix, c2, r2, sent)[p]
              == Some(Columns(ReadLine(ix.vecFile, ix.lineOffset[ix.word2idx[sent[p]]]), ix.skipFirstCol))
  {
    forall p | 0 <= p < |sent| && sent[p] in ix.words && WellFormed(ix, ix.word2idx[sent[p]])
      ensures Expected(ix, c1, r1, sent)[p] == Expected(ix, c2, r2, sent)[p]
              == Some(Columns(ReadLine(ix.vecFile, ix.lineOffset[ix.word2idx[sent[p]]]), ix.skipFirstCol))
    {
      var id := ix.word2idx[sent[p]];
      assert Expected(ix, c1, r1, sent)[p] == Slot(ix, c1, r1, sent[p]);
      assert Expected(ix, c2, r2, sent)[p] == Slot(ix, c2, r2, sent[p]);
      assert Resolve(ix, r1, id) == Resolve(ix, r2, id);
    }
  }

  // ---------------------------------------------------------------------------
  // The result list while `get_vec` runs
  // ---------------------------------------------------------------------------

  /** After the first loop has seen `sent[..p]`: the hits seen so far are answered, nothing else is. */
  ghost predicate FirstPass(ix: Index, before: map<nat, Vector>, rand: nat -> Vector, sent: seq<string>, p: nat, slots: seq<Option<Vector>>)
    requires ix.Consistent()
  {
    |slots| == |sent| &&
    forall q :: 0 <= q < |sent| ==>
      slots[q] == if q < p && !MissAt(ix, before, sent, q) then Slot(ix, before, rand, sent[q]) else None
  }

  /** During the second loop: a slot is empty exactly while its word's id is still pending. */
  ghost predicate SecondPass(ix: Index, before: map<nat, Vector>, rand: nat -> Vector, sent: seq<string>, pending: set<nat>, slots: seq<Option<Vector>>)
    requires ix.Consistent()
  {
    |slots| == |sent| &&
    forall q :: 0 <= q < |sent| ==>
      slots[q] == if sent[q] in ix.words && ix.word2idx[sent[q]] in pending then None else Slot(ix, before, rand, sent[q])
  }

  /** When the first loop ends, the pending ids are the keys of `w_not_hit`. */
  lemma FirstPassDone(ix: Index, before: map<nat, Vector>, rand: nat -> Vector, sent: seq<string>, slots: seq<Option<Vector>>)
    requires ix.Consistent()
    requires FirstPass(ix, before, rand, sent, |sent|, slots)
    ensures SecondPass(ix, before, rand, sent, Misses(ix, before, sent), slots)
  {
    NotHitGroups(ix, before, sent, |sent|);
  }

  /**
   * One turn of the second loop: filling every recorded position of `id` with the
   * vector read for it and dropping `id` leaves exactly the other ids pending.
   */
  lemma ScatterStep(ix: Index, before: map<nat, Vector>, rand: nat -> Vector, sent: seq<string>,
                    pending: set<nat>, id: nat, slots: seq<Option<Vector>>, slots': seq<Option<Vector>>)
    requires ix.Consistent()
    requires pending <= Misses(ix, before, sent) && id in pending && id < |ix.lineOffset|
    requires SecondPass(ix, before, rand, sent, pending, slots)
    requires |slots'| == |sent|
    requires forall q :: 0 <= q < |sent| ==>
               slots'[q] == if q in NotHit(ix, before, sent, |sent|)[id] then Some(Resolve(ix, rand, id)) else slots[q]
    ensures SecondPass(ix, before, rand, sent, pending - {id}, slots')
  {
    NotHitGroups(ix, before, sent, |sent|);
  }

  /**
   * The state of the second loop after `t` of the listed keys: the ids still in
   * `w_not_hit` are the remaining keys, each with its recorded positions; the cache
   * is well formed and refreshed by the keys done. (`SecondPass` says which slots
   * are filled.)
   */
  ghost predicate MissLoop(ix: Index, rand: nat -> Vector, before: map<nat, Vector>, sent: seq<string>,
                           keys: seq<nat>, t: nat, pending: map<nat, seq<nat>>, entries: map<nat, Vector>)
    requires ix.Consistent()
  {
    && t <= |keys|
    && (forall k :: k in pending <==> k in keys[t..])
    && (forall k :: k in pending ==> k in NotHit(ix, before, sent, |sent|) && pending[k] == NotHit(ix, before, sent, |sent|)[k])
    && CacheFits(ix, entries)
    && Refreshed(ix, rand, before, entries, keys[..t])
  }

  /**
   * One turn of the second loop preserves its state: `put` the vector read for
   * `keys[t]` into the cache, pop the id.
   */
  lemma MissStep(ix: Index, rand: nat -> Vector, before: map<nat, Vector>, sent: seq<string>,
                 keys: seq<nat>, t: nat, pending: map<nat, seq<nat>>,
                 cur: map<nat, Vector>, next: map<nat, Vector>)
    requires ix.Consistent() && CacheFits(ix, before) && RandomFits(ix.checkLen, rand)
    requires forall i, j :: 0 <= i < j < |keys| ==> keys[i] != keys[j]
    requires MissLoop(ix, rand, before, sent, keys, t, pending, cur)
    requires t < |keys| && keys[t] < |ix.lineOffset|
    requires keys[t] in next && next[keys[t]] == Resolve(ix, rand, keys[t])
    requires forall j :: j in next && j != keys[t] ==> j in cur && next[j] == cur[j]
    ensures MissLoop(ix, rand, before, sent, keys, t + 1, pending - {keys[t]}, next)
  {
    PopKey(keys, t, pending);
    RefreshStep(ix, rand, before, cur, next, keys, t);
    RefreshedFits(ix, rand, before, next, keys[..t + 1]);
  }

  /** The second loop starts with every key pending, none done, the hits filled. */
  lemma MissLoopStart(ix: Index, rand: nat -> Vector, before: map<nat, Vector>, sent: seq<string>,
                      keys: seq<nat>, slots: seq<Option<Vector>>)
    requires ix.Consistent() && CacheFits(ix, before)
    requires forall k :: k in keys <==> k in NotHit(ix, before, sent, |sent|)
    requires FirstPass(ix, before, rand, sent, |sent|, slots)
    ensures MissLoop(ix, rand, before, sent, keys, 0, NotHit(ix, before, sent, |sent|), before)
    ensures SecondPass(ix, before, rand, sent, NotHit(ix, before, sent, |sent|).Keys, slots)
  {
    FirstPassDone(ix, before, rand, sent, slots);
    assert keys[..0] == [] && keys[0..] == keys;
  }

  /** The key the second loop takes next is pending, has an offset, and lists positions of `sent`. */
  lemma MissLoopNext(ix: Index, rand: nat -> Vector, before: map<nat, Vector>, sent: seq<string>,
                     keys: seq<nat>, t: nat, pending: map<nat, seq<nat>>, entries: map<nat, Vector>)
    requires ix.Consistent()
    requires MissLoop(ix, rand, before, sent, keys, t, pending, entries)
    requires t < |keys|
    ensures keys[t] in pending && keys[t] < |ix.lineOffset|
    ensures pending.Keys <= Misses(ix, before, sent)
    ensures pending[keys[t]] == NotHit(ix, before, sent, |sent|)[keys[t]]
    ensures forall q :: q in pending[keys[t]] ==> q < |sent|
  {
    var id := keys[t];
    var groups := NotHit(ix, before, sent, |sent|);
    assert id in keys[t..];
    assert id in pending && pending[id] == groups[id];
    NotHitGroups(ix, before, sent, |sent|);
    forall q | q in pending[id]
      ensures q < |sent|
    {
      assert q in groups[id];
    }
  }

  /** While keys remain in the list, `w_not_hit` is not empty, so the `break` only fires after the last key. */
  lemma PendingEmpty<V>(keys: seq<nat>, t: nat, pending: map<nat, V>)
    requires t <= |keys|
    requires forall k :: k in pending <==> k in keys[t..]
    ensures |pending| == 0 <==> t == |keys|
  {
    if t < |keys| {
      assert keys[t] in keys[t..];
    } else {
      assert !exists k :: k in pending;
      assert pending.Keys == {};
    }
  }

  /** The second loop ends, by its test or by the `break`, with every key done and every slot filled. */
  lemma MissLoopEnd(ix: Index, rand: nat -> Vector, before: map<nat, Vector>, sent: seq<string>,
                    keys: seq<nat>, t: nat, pending: map<nat, seq<nat>>,
                    entries: map<nat, Vector>, slots: seq<Option<Vector>>, resolved: seq<nat>)
    requires ix.Consistent()
    requires MissLoop(ix, rand, before, sent, keys, t, pending, entries)
    requires SecondPass(ix, before, rand, sent, pending.Keys, slots)
    requires resolved == keys[..t]
    requires t == |keys| || |pending| == 0
    ensures t == |keys| && pending == map[] && resolved == keys
    ensures CacheFits(ix, entries) && Refreshed(ix, rand, before, entries, keys)
    ensures SecondPass(ix, before, rand, sent, {}, slots)
  {
    PendingEmpty(keys, t, pending);
    assert keys[..|keys|] == keys;
    assert pending.Keys == {};
  }

  /** Popping the key at position `t` of a list without repeats leaves the keys after it. */
  lemma PopKey<V>(keys: seq<nat>, t: nat, pending: map<nat, V>)
    requires t < |keys|
    requires forall i, j :: 0 <= i < j < |keys| ==> keys[i] != keys[j]
    requires forall k :: k in pending <==> k in keys[t..]
    ensures forall k :: k in pending - {keys[t]} <==> k in keys[t + 1..]
  {
    forall k
      ensures k in pending - {keys[t]} <==> k in keys[t + 1..]
    {
      if k in keys[t..] && k != keys[t] {
        var i :| t <= i < |keys| && keys[i] == k;
        assert keys[t + 1..][i - t - 1] == k;
      }
      if k in keys[t + 1..] {
        var i :| t + 1 <= i < |keys| && keys[i] == k;
        assert keys[t..][i - t] == k;
      }
    }
  }

  /** The first `t + 1` keys are the first `t` and then `keys[t]`. */
  lemma TakeOneMore<T>(keys: seq<T>, t: nat)
    requires t < |keys|
    ensures keys[..t + 1] == keys[..t] + [keys[t]]
  {
  }

  /** A `put` of the vector read for `keys[t]` extends the refresh by that key. */
  lemma RefreshStep(ix: Index, rand: nat -> Vector, before: map<nat, Vector>, cur: map<nat, Vector>, next: map<nat, Vector>,
                    keys: seq<nat>, t: nat)
    requires t < |keys| && keys[t] < |ix.lineOffset|
    requires Refreshed(ix, rand, before, cur, keys[..t])
    requires keys[t] in next && next[keys[t]] == Resolve(ix, rand, keys[t])
    requires forall j :: j in next && j != keys[t] ==> j in cur && next[j] == cur[j]
    ensures Refreshed(ix, rand, before, next, keys[..t + 1])
  {
    assert keys[..t + 1] == keys[..t] + [keys[t]];
  }

  // ---------------------------------------------------------------------------
  // The loader and getter object
  // ---------------------------------------------------------------------------

  class Word2vec {
    const index: Index
    const cache: FifoCache<Vector>

    ghost predicate Valid()
      reads this, cache
    {
      index.Valid() && cache.Valid() && CacheFits(index, cache.entries) && Coherent(index, cache.entries)
    }

    /** The last step of `__init__`: an empty cache of `cacheSize` entries beside a loaded index. */
    constructor (index: Index, cacheSize: nat)
      requires index.Valid()
      requires 1 <= cacheSize
      ensures Valid() && fresh(cache)
      ensures this.index == index && cache.entries == map[] && cache.capacity == cacheSize
    {
      this.index := index;
      cache := new FifoCache(cacheSize);
    }

    /**
     * `Word2vec(cache_size, vocab_path, vec_path, check_len, most_words, skip_first_col)`:
     * fails exactly when the vocabulary and the offset index differ in length.
     */
    static method Load(cacheSize: nat, vocabFile: string, vecFile: string, checkLen: nat, mostWords: nat, skipFirstCol: bool)
      returns (r: Result<Word2vec, LoadError>)
      requires 1 <= cacheSize
      ensures r.Success? <==> |Idx2Word(vocabFile, mostWords)| == OffsetCount(|SplitLines(vecFile)|, mostWords)
      ensures r.Success? ==>
                && fresh(r.value) && fresh(r.value.cache) && r.value.Valid()
                && r.value.cache.entries == map[] && r.value.cache.capacity == cacheSize
                && r.value.index.idx2word == Idx2Word(vocabFile, mostWords)
                && r.value.index.word2idx == Word2Idx(r.value.index.idx2word)
                && r.value.index.words == WordSet(r.value.index.idx2word)
                && r.value.index.vecFile == vecFile
                && r.value.index.checkLen == checkLen
                && r.value.index.skipFirstCol == skipFirstCol
                && (forall i :: 0 <= i < |r.value.index.lineOffset| ==>
                      r.value.index.lineOffset[i] == |Concat(SplitLines(vecFile)[..i])|)
                && (forall i :: 0 <= i < |r.value.index.lineOffset| ==>
                      ReadLine(vecFile, r.value.index.lineOffset[i]) == SplitLines(vecFile)[i])
    {
      var ix := BuildIndex(vocabFile, vecFile, checkLen, mostWords, skipFirstCol);
      if ix.Failure? {
        return Failure(ix.error);
      }
      var w := new Word2vec(ix.value, cacheSize);
      r := Success(w);
    }

    /**
     * `get_vec(sent)`: one slot per word, `None` outside the vocabulary, the cached
     * vector on a hit, and for each missed id one read of its line, stored in the
     * cache once and copied to every position of that id. `resolved` lists the ids
     * read, each once.
     */
    method GetVec(sent: seq<string>, rand: nat -> Vector) returns (result: seq<Option<Vector>>, ghost resolved: seq<nat>)
      requires Valid()
      requires RandomFits(index.checkLen, rand)
      modifies cache
      ensures Valid()
      ensures result == Expected(index, old(cache.entries), rand, sent)
      ensures Refreshed(index, rand, old(cache.entries), cache.entries, resolved)
      ensures forall i, j :: 0 <= i < j < |resolved| ==> resolved[i] != resolved[j]
      ensures forall id :: id in resolved <==> id in Misses(index, old(cache.entries), sent)
    {
      var slots := new Option<Vector>[|sent|](_ => None);
      var wNotHit := CollectHits(sent, rand, slots);
      resolved := ResolveMisses(sent, rand, slots, wNotHit);
      RefreshedCoherent(index, rand, old(cache.entries), cache.entries, resolved);
      result := slots[..];
      assert forall q :: 0 <= q < |sent| ==> result[q] == Expected(index, old(cache.entries), rand, sent)[q];
    }

    /**
     * The first loop of `get_vec`: fill the hits from the cache and return `w_not_hit`,
     * the positions of each missed id.
     */
    method CollectHits(sent: seq<string>, rand: nat -> Vector, slots: array<Option<Vector>>)
      returns (wNotHit: map<nat, seq<nat>>)
      requires index.Consistent() && cache.Valid()
      requires slots.Length == |sent| && forall q :: 0 <= q < |sent| ==> slots[q] == None
      modifies slots
      ensures wNotHit == NotHit(index, cache.entries, sent, |sent|)
      ensures FirstPass(index, cache.entries, rand, sent, |sent|, slots[..])
    {
      wNotHit := map[];
      for p := 0 to |sent|
        invariant wNotHit == NotHit(index, cache.entries, sent, p)
        invariant FirstPass(index, cache.entries, rand, sent, p, slots[..])
      {
        var w := sent[p];
        if w in index.words {
          var id := index.word2idx[w];
          var hit := cache.HasKey(id);
          if hit {
            var v := cache.Get(id);
            slots[p] := Some(v);
          } else {
            wNotHit := wNotHit[id := (if id in wNotHit then wNotHit[id] else []) + [p]];
          }
        }
      }
    }

    /**
     * One missed id: seek to its offset, read the line, split it on ' ', drop the
     * label column if so configured, and substitute the random vector unless
     * exactly `checkLen` columns remain. This is `Resolve` written as the
     * statements of the source.
     */
    method ReadVector(id: nat, rand: nat -> Vector) returns (vec: Vector)
      requires id < |index.lineOffset|
      ensures vec == Resolve(index, rand, id)
    {
      var line := ReadLine(index.vecFile, index.lineOffset[id]);
      vec := Columns(line, index.skipFirstCol);
      if |vec| != index.checkLen {
        vec := rand(id);
      }
    }

    /**
     * One turn of the second loop, for the id `keys[t]`: read its vector, `put` it
     * into the cache and copy it to every position recorded for the id.
     */
    method ResolveKey(sent: seq<string>, rand: nat -> Vector, slots: array<Option<Vector>>, ghost before: map<nat, Vector>,
                      keys: seq<nat>, t: nat, pending: map<nat, seq<nat>>)
      returns (id: nat)
      requires index.Consistent() && cache.Valid()
      requires CacheFits(index, before) && RandomFits(index.checkLen, rand)
      requires forall i, j :: 0 <= i < j < |keys| ==> keys[i] != keys[j]
      requires MissLoop(index, rand, before, sent, keys, t, pending, cache.entries)
      requires SecondPass(index, before, rand, sent, pending.Keys, slots[..])
      requires t < |keys|
      modifies cache, slots
      ensures cache.Valid()
      ensures id == keys[t]
      ensures MissLoop(index, rand, before, sent, keys, t + 1, pending - {keys[t]}, cache.entries)
      ensures SecondPass(index, before, rand, sent, (pending - {keys[t]}).Keys, slots[..])
    {
      id := keys[t];
      MissLoopNext(index, rand, before, sent, keys, t, pending, cache.entries);
      var vec := ReadVector(id, rand);
      ghost var cur := cache.entries;
      cache.Put(id, vec);
      MissStep(index, rand, before, sent, keys, t, pending, cur, cache.entries);
      ghost var mid := slots[..];
      Scatter(slots, pending[id], Some(vec));
      ScatterStep(index, before, rand, sent, pending.Keys, id, mid, slots[..]);
      assert (pending - {id}).Keys == pending.Keys - {id};
    }

    /**
     * The second loop of `get_vec`: for each key of `w_not_hit`, listed once, read
     * its vector, put it into the cache, copy it to every recorded position and pop
     * the key; stop once nothing is pending. `resolved` is the order the ids were read in.
     */
    method ResolveMisses(sent: seq<string>, rand: nat -> Vector, slots: array<Option<Vector>>, wNotHit: map<nat, seq<nat>>)
      returns (ghost resolved: seq<nat>)
      requires index.Consistent() && cache.Valid() && CacheFits(index, cache.entries)
      requires RandomFits(index.checkLen, rand)
      requires wNotHit == NotHit(index, cache.entries, sent, |sent|)
      requires FirstPass(index, cache.entries, rand, sent, |sent|, slots[..])
      modifies cache, slots
      ensures cache.Valid() && CacheFits(index, cache.entries)
      ensures SecondPass(index, old(cache.entries), rand, sent, {}, slots[..])
      ensures Refreshed(index, rand, old(cache.entries), cache.entries, resolved)
      ensures forall i, j :: 0 <= i < j < |resolved| ==> resolved[i] != resolved[j]
      ensures forall id :: id in resolved <==> id in wNotHit
    {
      ghost var before := cache.entries;
      var keys := KeyList(wNotHit);
      MissLoopStart(index, rand, before, sent, keys, slots[..]);
      var pending := wNotHit;
      var t := 0;
      resolved := [];
      while t < |keys|
        invariant cache.Valid()
        invariant MissLoop(index, rand, before, sent, keys, t, pending, cache.entries)
        invariant SecondPass(index, before, rand, sent, pending.Keys, slots[..])
        invariant resolved == keys[..t]
      {
        var id := ResolveKey(sent, rand, slots, before, keys, t, pending);
        TakeOneMore(keys, t);
        resolved := resolved + [id];
        pending := pending - {keys[t]};
        t := t + 1;
        if |pending| == 0 {
          break;
        }
      }
      MissLoopEnd(index, rand, before, sent, keys, t, pending, cache.entries, slots[..], resolved);
    }
  }

  /** `m.keys()`: a list holding each key of `m` exactly once, in some order. */
  method KeyList<V>(m: map<nat, V>) returns (keys: seq<nat>)
    ensures forall k :: k in keys <==> k in m
    ensures forall i, j :: 0 <= i < j < |keys| ==> keys[i] != keys[j]
  {
    keys := [];
    var rest := m.Keys;
    while rest != {}
      invariant rest <= m.Keys
      invariant forall k :: k in keys <==> k in m && k !in rest
      invariant forall i, j :: 0 <= i < j < |keys| ==> keys[i] != keys[j]
      decreases rest
    {
      var k :| k in rest;
      keys := keys + [k];
      rest := rest - {k};
    }
  }

  /** `for idx in positions: result[idx] = vec`: every listed slot gets `vec`, no other slot changes. */
  method Scatter<T>(slots: array<T>, positions: seq<nat>, vec: T)
    requires forall q :: q in positions ==> q < slots.Length
    modifies slots
    ensures forall q :: 0 <= q < slots.Length ==> slots[q] == if q in positions then vec else old(slots[q])
  {
    for j := 0 to |positions|
      invariant forall q :: 0 <= q < slots.Length ==> slots[q] == if q in positions[..j] then vec else old(slots[q])
    {
      assert positions[..j + 1] == positions[..j] + [positions[j]];
      assert positions[j] in positions;
      slots[positions[j]] := vec;
    }
    assert positions[..|positions|] == positions;
  }
}
