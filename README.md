# Word2vec loader and getter, modelled in Dafny

`src/utils/Word2vec.py` loads pre-trained word vectors without holding the vector
table in memory. At load time, `Word2vec.__init__` does three things:

- It reads the vocabulary file into `idx2word`, keeping the first `most_words` stripped lines.
- It builds the inverse map `word2idx` and the set `words`.
- It streams the vector file once, recording in `line_offset` the offset at which each line starts.

Loading fails when there are not as many offsets as vocabulary entries.

`get_vec(sent)` answers one sentence in two passes:

- **First pass:** every word outside the vocabulary gets `None`. Every word whose id is cached gets the cached vector. The positions of every other id are grouped in `w_not_hit`.
- **Second pass:** each grouped id is resolved once. The lookup seeks to the id's offset and reads one line. It splits the line on `' '`, drops the label column if configured, and substitutes a random vector unless exactly `check_len` columns remain. The vector is put into the cache and copied to every grouped position. The id is then popped, and the loop stops as soon as nothing is pending.

The model has three modules:

- `Text` (Text.dfy) holds the Python 2 string and file behaviour the code relies on:
  - `str.strip()`;
  - `str.split(' ')`;
  - iterating over a file's lines;
  - `seek(offset)` followed by `readline()`.

  It also proves the facts the offset index needs. Splitting the file into lines and concatenating them gives the file back. At the running offset of line `i`, one `readline` returns exactly line `i`.
- `Cache` (Cache.dfy) is the cache the getter consults. It is a class with `has_key`, `get` and `put`.
- `Word2vec` (Word2vec.dfy) is the rest:
  - The vocabulary functions.
  - The offset loop, a method with its invariant.
  - `Index`, an immutable datatype holding the loaded state, with its validity predicate.
  - The class `Word2vec`: the index plus the cache, which `GetVec` updates in place.

`GetVec` is specified by the function `Expected`, which gives each word's answer:

- `None` outside the vocabulary;
- the cached vector on a hit;
- otherwise the vector read from the word's line.

The lemmas about `NotHit` describe the grouping built by the first loop. `Refreshed` describes how the cache changes during one call.

Modelling conventions:

- Files are modelled by their contents, one `char` per byte.
- A vector is the list of its column texts. Only the number of columns matters to the code's logic.
- The random fallback `np.random.rand(check_len)` is a parameter `rand` that yields, for each id, some vector of `check_len` entries.

The offset loop checks its stop condition after appending an offset. With `most_words == 0` that check never fires, so every line of the vector file gets an offset. The vocabulary slice `[:0]` is empty, so such a load fails unless the vector file is empty. The docstring of `__init__` (line 21) describes `most_words` only as the number of top words to read. The model follows the code (`OffsetCount`).

## Model

| member | source | states |
|---|---|---|
| Text.Strip | src/utils/Word2vec.py:49 | `w.strip()` is the slice of `w` that starts after its leading whitespace and leaves only whitespace after it. It neither starts nor ends with whitespace. |
| Text.StripIdempotent | src/utils/Word2vec.py:49 | A stripped word strips to itself. |
| Text.Split | src/utils/Word2vec.py:105-108 | `line.split(' ')` has one token more than the line has spaces, empty tokens included. No token contains a space, and joining the tokens with `' '` gives back the line. |
| Text.SplitJoin | src/utils/Word2vec.py:105-108 | The other direction of the round trip. Tokens free of spaces, joined with `' '` and split again, are the same tokens. |
| Text.SplitPrefix | src/utils/Word2vec.py:105-108 | Splitting `a + b`, where `a` has no space, glues `a` onto the first token of `b`. |
| Text.SplitLines | src/utils/Word2vec.py:59 | The lines `for line in fp` and `readlines()` yield, each cut after its `'\n'`. It has no contract of its own: `SplitLinesConcat` and `SplitLinesAreLines` state what it yields. |
| Text.LineLength | src/utils/Word2vec.py:59 | A line runs up to and including the first `'\n'`, or to the end of the file. |
| Text.SplitLinesConcat | src/utils/Word2vec.py:59 | The lines that `readlines()` and `for line in fp` yield, concatenated, are the file. |
| Text.SplitLinesAreLines | src/utils/Word2vec.py:59 | Every yielded line is non-empty and has `'\n'` at most at its end. Every line except the last ends in `'\n'`. |
| Text.ReadLine | src/utils/Word2vec.py:103-104 | `fp.seek(offset)` then `fp.readline()`: the text from `offset` up to and including the next `'\n'`, or `''` past the end. It has no contract of its own: `ReadLineAtStart` and `OffsetsReadBack` state what it returns at the recorded offsets. |
| Text.Start | src/utils/Word2vec.py:57-61 | The value of `offset` after the loop has seen `i` lines: the sum of their lengths. It has no contract of its own: `StartIsPrefixLength` states it. |
| Text.StartIsPrefixLength | src/utils/Word2vec.py:57-61 | The running offset after `i` lines is the length of the text before line `i`. |
| Text.ReadLineAtStart | src/utils/Word2vec.py:102-103 | Seeking to the running offset of line `i` and reading one line yields exactly line `i`, never part of a neighbouring line. |
| Text.OffsetsReadBack | src/utils/Word2vec.py:56-63 | For a table of the first running offsets: offset 0 is 0, each offset is the previous one plus that line's length, and each offset is the length of the text before its line. Reading one line at offset `i` yields line `i`. |
| Word2vec.Idx2Word | src/utils/Word2vec.py:47-49 | The vocabulary holds `min(lines, most_words)` entries, so never more than `most_words`. Entry `i` is line `i` of the vocabulary file, stripped. |
| Word2vec.Word2Idx | src/utils/Word2vec.py:50 | The keys are exactly the words of `idx2word`. Each word maps to a position that holds it, and to its last one, because later pairs overwrite earlier ones. |
| Word2vec.WordSet | src/utils/Word2vec.py:51 | A word is in `words` exactly when it occurs in `idx2word`. |
| Word2vec.OffsetCount | src/utils/Word2vec.py:59-63 | The number of offsets the loop records is never more than the number of lines, never more than `most_words` when that is positive, and it falls short of the number of lines only when it has reached `most_words`. |
| Word2vec.BuildLineOffsets | src/utils/Word2vec.py:56-63 | The loop records `OffsetCount(lines, most_words)` offsets: one per line, stopping at `most_words`, and every line when `most_words` is 0. Offset `i` is the sum of the lengths of the lines before line `i`. |
| Word2vec.BuildIndex | src/utils/Word2vec.py:47-66 | Loading succeeds exactly when the vocabulary size equals the number of offsets. A failure carries both counts. On success `idx2word` is the stripped vocabulary, `word2idx` is `Word2Idx(idx2word)` (so a repeated word keeps its last position) and `words` is `WordSet(idx2word)`. Offset `i` is the length of the text before line `i`, and reading one line there yields line `i`. |
| Word2vec.LookupLine | src/utils/Word2vec.py:50-63 | In a loaded index a word's id is the last position that holds it, and the offset stored for that id reads back exactly that line of the vector file. |
| Word2vec.Word2vec.Load | src/utils/Word2vec.py:31-69 | The same success condition as `BuildIndex`. On success the object is valid and its cache is new and empty, with the requested capacity. Its index holds the stripped vocabulary, `word2idx` is `Word2Idx(idx2word)` and `words` is `WordSet(idx2word)`. Offset `i` is the length of the text before line `i`, and reading one line there yields line `i`. |
| Word2vec.Columns | src/utils/Word2vec.py:105-108 | The column count is the number of spaces plus one, or just the number of spaces when the label column is dropped. |
| Word2vec.Resolve | src/utils/Word2vec.py:105-110 | The vector stored for a missed id has `check_len` entries. When the id's line has `check_len` columns, the vector is those columns. |
| Word2vec.Slot | src/utils/Word2vec.py:89-113 | One word's answer is `None` exactly outside the vocabulary. On a hit it is the cached vector. When the cache is coherent and the word's line has `check_len` columns, it is those columns. |
| Word2vec.Expected | src/utils/Word2vec.py:79-113 | The answer has one slot per word. A slot is `None` exactly when its word is outside the vocabulary. Equal words get equal slots, because they share one resolution. |
| Word2vec.ExpectedLengths | src/utils/Word2vec.py:105-113 | Every vector in the answer has `check_len` entries, as long as every cached vector does. |
| Word2vec.NotHit | src/utils/Word2vec.py:82-98 | `w_not_hit` after the first loop has seen a prefix of the sentence. Every id it holds has at least one recorded position. |
| Word2vec.NotHitKeys | src/utils/Word2vec.py:82-98 | The keys of `w_not_hit` are exactly the ids of missed in-vocabulary positions. No key is cached, and every key has an offset. |
| Word2vec.NotHitPositions | src/utils/Word2vec.py:93-98 | The list of a missed id holds exactly the missed positions whose word has that id. |
| Word2vec.NotHitSorted | src/utils/Word2vec.py:98 | Each list of positions is strictly increasing. |
| Word2vec.NotHitGroups | src/utils/Word2vec.py:82-98 | All three grouping facts together. |
| Word2vec.FirstPassDone | src/utils/Word2vec.py:79-101 | After the first loop, exactly the slots of the pending ids are still `None`. |
| Word2vec.ScatterStep | src/utils/Word2vec.py:112-114 | Copying the vector read for an id to its recorded positions fills exactly that id's slots. |
| Word2vec.RefreshStep | src/utils/Word2vec.py:111 | A `put` for the id being resolved keeps the cache refreshed by the ids done so far. |
| Word2vec.PopKey | src/utils/Word2vec.py:114 | Popping the current key leaves exactly the keys later in the key list pending. |
| Word2vec.MissStep | src/utils/Word2vec.py:103-114 | One turn of the miss loop preserves its state. The pending ids are the rest of the key list, each with its recorded positions. The cache is well formed and refreshed by the ids done. |
| Word2vec.MissLoopStart | src/utils/Word2vec.py:100-101 | The miss loop starts with every key of `w_not_hit` pending, one slot per pending position empty, and the hits filled. |
| Word2vec.MissLoopNext | src/utils/Word2vec.py:101-103 | The key read next is pending and has an offset. Its recorded positions lie inside the sentence. |
| Word2vec.PendingEmpty | src/utils/Word2vec.py:114-116 | `w_not_hit` is empty exactly when the key list is exhausted, so the `break` never skips a pending id. |
| Word2vec.MissLoopEnd | src/utils/Word2vec.py:101-118 | When the loop ends, by its test or by the `break`, nothing is pending and every key has been resolved. Every in-vocabulary slot is filled. |
| Word2vec.RefreshedFits | src/utils/Word2vec.py:109-111 | A lookup puts only vectors of `check_len` entries, for ids with offsets, into the cache. |
| Word2vec.RefreshedCoherent | src/utils/Word2vec.py:103-111 | If the cache was coherent before a lookup, it is coherent after it: every cached id whose line has `check_len` columns holds that line's columns. It does not say which ids are cached. |
| Word2vec.LookupsAgree | src/utils/Word2vec.py:95-113 | Whatever coherent caches two lookups start from, they give the same vector for every word whose line is well formed: that line's columns. Only substituted random vectors can differ. |
| Word2vec.KeyList | src/utils/Word2vec.py:102 | `w_not_hit.keys()` lists each key exactly once. |
| Word2vec.Scatter | src/utils/Word2vec.py:112-113 | Every listed slot receives the vector, and no other slot changes. |
| Word2vec.Word2vec.ReadVector | src/utils/Word2vec.py:103-110 | It seeks to the id's offset, reads one line, takes its columns and substitutes the random vector on a wrong count. The result is `Resolve`. |
| Word2vec.Word2vec.CollectHits | src/utils/Word2vec.py:79-98 | It returns `w_not_hit` as `NotHit` describes it. Hit slots hold the cached vectors, and all other slots are still `None`. |
| Word2vec.Word2vec.ResolveKey | src/utils/Word2vec.py:103-113 | It reads the vector for the current key, puts it into the cache and returns the id it read. It copies the vector to the key's positions, and the loop state moves on by one key. |
| Word2vec.Word2vec.ResolveMisses | src/utils/Word2vec.py:100-116 | It resolves every key of `w_not_hit` exactly once and fills every pending slot. `resolved` records each id as it is read. The cache stays well formed and is refreshed by exactly those ids. |
| Word2vec.Word2vec.GetVec | src/utils/Word2vec.py:71-118 | The result is `Expected`, computed for the cache as it was before the call. Exactly the missed ids are read, each once. Afterwards the cache holds old entries or fresh reads, and the object stays valid. Validity includes a coherent cache, so `LookupsAgree` applies to every later call. |
| Cache.FifoCache.HasKey | src/utils/Word2vec.py:95 | `has_key` is true exactly for the cached ids. |
| Cache.FifoCache.Get | src/utils/Word2vec.py:96 | `cache[id]` returns the stored vector. It is only called after `has_key` has answered true. |
| Cache.FifoCache.Put | src/utils/Word2vec.py:111 | After `cache[id] = vec`, `id` maps to `vec`, every other entry was already in the cache with the same value, and the capacity is kept. |
| Word2vec.Word2vec.constructor | src/utils/Word2vec.py:68-69 | The last step of `__init__`: the object holds the loaded index and a new, empty cache of the requested capacity, and it is valid. |
| Cache.FifoCache.constructor | src/utils/Word2vec.py:69 | `FifoCache(cache_size)` starts empty, with the given capacity. |

## Left out

- File I/O: `open`, `seek`, `readline` and `readlines` are modelled on the file's contents, one `char` per byte. The vector file is assumed not to change between load and lookup.
- The UTF-8 `decode` calls and their bare `except: pass`: every word is taken as already decoded.
- Floating point: `float(num)`, `round(…, 4)` and the numpy arrays are left out. A column is kept as its text. `float` would raise on a token that is not a number, and that error is not modelled.
- `np.random.rand`: becomes the parameter `rand`. The model promises only the length of each random vector.
- FifoCache.py is not part of this model. The cache's body evicts the oldest insertion, but no contract depends on which entry is evicted.
- Cache.FifoCache.Put: does not promise FIFO eviction order, because FifoCache.py is not part of this model. It promises only that the new entry is kept and that every other entry is an old one, unchanged.
- Word2vec.Word2vec.Load: requires `cache_size >= 1`, because what `FifoCache(0)` does is defined in FifoCache.py, which is not part of this model.
- Word2vec.Word2vec.GetVec: equal words are shown to get equal vectors, but not the same numpy object, because object identity is not modelled. The order in which `keys()` lists the missed ids is left open, as in Python 2.
- Word2vec.Idx2Word: `most_words` is a natural number. Python's slicing with a negative `most_words` is not modelled.
- Logging, the default model paths, and the `__main__` demo with `vec_sim`.
