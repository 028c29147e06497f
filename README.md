# Image captioning notebook: caption text, data paths, split and decode loop

This project models the deterministic core of an image-captioning notebook:
an Inception V3 encoder and an attention RNN decoder trained on Flickr8K.
The model covers four parts of the notebook and leaves out the neural
network, file I/O and randomness:

- **Caption normalisation (`preprocess`).** Lower-case the caption, delete
  punctuation, collapse whitespace runs, strip both ends, and wrap the result
  in `[start]` and `[end]`. Module `CaptionText` holds it. It is built on
  module `PyString`, a model of Python string built-ins:
  - the ones the notebook calls: `lower` (line 92), `strip` (line 99),
    `split('/')` (line 182) and `replace` (line 191);
  - `lstrip` and `rstrip`, the two halves of `strip`;
  - `split()` and `' '.join`, the reference against which the whitespace
    collapse of lines 98-99 is specified;
  - `endswith`, the test `np.save` makes on the file name at line 183.
- **Dataset paths (module `DataPaths`).** This covers:
  - the base directory;
  - the full image path;
  - the name under which each feature vector is cached;
  - the `feature_vector` column the training pipeline later loads from.
- **The leakage-free train/validation split (module `TrainValSplit`).**
  Captions are grouped by feature-vector path in a `defaultdict(list)`. The
  keys are shuffled and cut at four fifths. Each side is then flattened into
  parallel lists of keys and captions. The grouping and flattening loops are
  methods proved against reference functions over the rows.
- **The decode loop of `evaluate` (module `CaptionDecode`).** It draws one
  word per step, feeding each word back in, until it draws `[end]` or has
  `max_length` (40) words. The network and the categorical draw are one
  function parameter `decoder`. It maps the word fed in, the hidden state and
  the step number to the drawn word and the new hidden state.

Characters follow Python's ASCII classes:
- `\w` is letters, digits and `_`;
- `\s` and `isspace` are codes 9 to 13, 28 to 31 and the space.

## Model

| member | source | states |
|---|---|---|
| PyString.LowerChar | imagecaptioning_withrnn.py:92 | a lower-cased character is never upper case and keeps its word/space class; an upper-case letter becomes the lower-case letter at the same place in the alphabet, and every other character is unchanged |
| PyString.Lower | imagecaptioning_withrnn.py:92 | `lower()` lower-cases every position as `LowerChar` does: it keeps the length and each position's word/space class, leaves no upper-case letter, leaves every other character where it was, and is the identity on text without upper-case letters |
| PyString.StripLeftSpec | imagecaptioning_withrnn.py:99 | what `lstrip` keeps is a suffix of the input, everything dropped is whitespace, and the rest does not start with whitespace |
| PyString.StripRight | imagecaptioning_withrnn.py:99 | `rstrip` keeps a prefix, drops only whitespace, and what is left does not end in whitespace |
| PyString.Strip | imagecaptioning_withrnn.py:99 | `strip()` is empty exactly for all-whitespace input; otherwise its first and last characters are not whitespace |
| PyString.StripKeepsChars | imagecaptioning_withrnn.py:99 | every character `strip()` returns occurs in its input |
| PyString.TakeWord | imagecaptioning_withrnn.py:98-99 | the first word is the longest whitespace-free prefix |
| PyString.Words | imagecaptioning_withrnn.py:98-99 | Every piece that `split()` returns is a non-empty word without whitespace. |
| PyString.NoWordsIffAllSpace | imagecaptioning_withrnn.py:98-99 | `split()` is empty exactly when the text is all whitespace |
| PyString.WordsOfJoin | imagecaptioning_withrnn.py:98-99 | `' '.join(ws).split() == ws` for whitespace-free non-empty words (round trip) |
| PyString.JoinEdges | imagecaptioning_withrnn.py:98-99 | words joined by single spaces are empty only for no words and have no whitespace at either end |
| PyString.JoinOfWordsShape | imagecaptioning_withrnn.py:98-99 | inside words joined by single spaces the only whitespace is `' '`, and no two spaces stand side by side |
| PyString.Split | imagecaptioning_withrnn.py:182 | `split('/')` returns at least one piece, no piece holds `/`, and joining the pieces with `/` gives the path back |
| PyString.SplitJoinRoundTrip | imagecaptioning_withrnn.py:182 | joining `/`-free pieces with `/` and splitting again returns the pieces (the other round trip) |
| PyString.SplitWithoutSep | imagecaptioning_withrnn.py:182 | a string without the separator splits into itself alone |
| PyString.SplitAppend | imagecaptioning_withrnn.py:182 | splitting `a + sep + b` is splitting `a`, then splitting `b` |
| PyString.JoinLast | imagecaptioning_withrnn.py:182 | a join of two or more parts ends with the separator and the last part |
| PyString.Replace | imagecaptioning_withrnn.py:191 | `replace` returns a string with no occurrence of the pattern unchanged |
| PyString.ReplaceFirst | imagecaptioning_withrnn.py:191 | when no occurrence starts inside `a`, `replace` on `a + pattern + b` copies `a`, writes the replacement and continues on `b`: the leftmost occurrence is replaced and the scan resumes after it; with `Replace`'s own contract this fixes `replace` on every string |
| CaptionText.RemovePunctuation | imagecaptioning_withrnn.py:95 | the definition of `re.sub(r'[^\w\s]', '', text)`; its contract bounds the length by the input's, and its value on every string is fixed by `RemovePunctuationAppend` and `RemovePunctuationKeeps` |
| CaptionText.RemovePunctuationAppend | imagecaptioning_withrnn.py:95 | filtering a concatenation filters each part, so the filter acts character by character and keeps the order |
| CaptionText.RemovePunctuationKeeps | imagecaptioning_withrnn.py:95 | the result is no longer than the input, holds only word and whitespace characters, and a character occurs in it exactly when it occurs in the input and is a word or whitespace character |
| CaptionText.RemovePunctuationOfClean | imagecaptioning_withrnn.py:95 | text of only word and whitespace characters passes the filter unchanged |
| CaptionText.CollapseWhitespace | imagecaptioning_withrnn.py:98 | the definition of `re.sub('\s+', ' ', text)`; its contract says it never lengthens the text, and `CollapseIsLeadAndJoinedWords` states what it computes on every input |
| CaptionText.CollapseWhitespaceChars | imagecaptioning_withrnn.py:98 | collapsing whitespace never lengthens the text; every character it emits is `' '` or a non-whitespace character of the input |
| CaptionText.CollapseIsLeadAndJoinedWords | imagecaptioning_withrnn.py:98 | for every text, `re.sub('\s+', ' ', t)` is one space if the text starts with whitespace, then its words joined by single spaces, then one space if the text ends in whitespace and is not all whitespace |
| CaptionText.CollapseIsJoinedWords | imagecaptioning_withrnn.py:98 | for text not starting with whitespace, `re.sub('\s+', ' ', t)` is its words joined by single spaces plus one space if it ends in whitespace |
| CaptionText.StripPadded | imagecaptioning_withrnn.py:99 | `strip` removes exactly the whitespace padding around a body that neither starts nor ends with whitespace |
| CaptionText.NormaliseIsJoinedWords | imagecaptioning_withrnn.py:98-99 | collapsing then stripping gives the words of the text joined by single spaces |
| CaptionText.NormaliseIdempotent | imagecaptioning_withrnn.py:98-99 | collapsing and stripping a second time changes nothing |
| CaptionText.Body | imagecaptioning_withrnn.py:92-99 | the definition of the text between the tokens (lower, filter, collapse, strip); its contract says it neither starts nor ends with whitespace, and `BodyIsJoinedWords` and `BodyIsClean` state the rest |
| CaptionText.BodyIsJoinedWords | imagecaptioning_withrnn.py:92-99 | the caption body is the words of the lower-cased, punctuation-free text joined by single spaces |
| CaptionText.BodyIsClean | imagecaptioning_withrnn.py:92-99 | the body holds only spaces and lower-case word characters, has no space at either end and no two adjacent spaces |
| CaptionText.Preprocess | imagecaptioning_withrnn.py:86-104 | the definition of `preprocess`; its contract says the output is at least as long as the two tokens and their two spaces, and `PreprocessShape` states its shape |
| CaptionText.PreprocessShape | imagecaptioning_withrnn.py:86-104 | the output starts with `"[start] "`, ends with `" [end]"`, and holds a clean body between them |
| CaptionText.KeptAllSpaceIff | imagecaptioning_withrnn.py:92-95 | after lower-casing and the punctuation filter only whitespace is left exactly when the text holds no word character |
| CaptionText.BodyEmptyIff | imagecaptioning_withrnn.py:92-99 | the body is empty exactly when the caption holds no word character |
| CaptionText.PreprocessEmptyIff | imagecaptioning_withrnn.py:95-102 | the output is exactly `"[start]  [end]"` (two spaces) exactly when the caption holds no word character |
| CaptionText.BodyFixedPoint | imagecaptioning_withrnn.py:92-99 | normalising an already normalised body changes nothing |
| DataPaths.BaseDir | imagecaptioning_withrnn.py:32-37 | the base directory is a non-empty path with no `/` after its first character and no trailing `/`; it holds no `d`, so no `data/Images` can start inside it |
| DataPaths.ImagePath | imagecaptioning_withrnn.py:81-82 | the definition of the `image` column; its contract says the path ends with the file name, and `LastSegmentOfImagePath` says the name is its last segment |
| DataPaths.FeatureVectorDir | imagecaptioning_withrnn.py:165 | the definition of `fv_path`; its contract says it ends in `/` |
| DataPaths.LastSegment | imagecaptioning_withrnn.py:182 | the definition of `path.split('/')[-1]`; its contract says it holds no `/`, and `LastSegmentSpec` states the rest |
| DataPaths.CacheFileName | imagecaptioning_withrnn.py:182 | the definition of the cache file name; its contract says it ends with the image path's last segment |
| DataPaths.NpySaveName | imagecaptioning_withrnn.py:183 | the definition of the file `np.save` writes; its contract says it ends in `.npy`, and `EndsWithAfterDir` relates the test to the bare name |
| DataPaths.FeatureVectorPath | imagecaptioning_withrnn.py:190-192 | the definition of the `feature_vector` column; its contract says it ends in `.npy`, and `FeatureVectorPathOfImage` states it for an image path |
| DataPaths.LastSegmentSpec | imagecaptioning_withrnn.py:182 | `path.split('/')[-1]` holds no `/`, ends the path, and is the whole path or preceded by `/` |
| DataPaths.LastSegmentAfterSlash | imagecaptioning_withrnn.py:182 | the last segment of `dir + '/' + name` is `name` for a `/`-free name |
| DataPaths.LastSegmentOfImagePath | imagecaptioning_withrnn.py:81-82 | the image path built from a `/`-free file name ends in that very name |
| DataPaths.NoDataImagesAfterSlash | imagecaptioning_withrnn.py:191 | `data/Images` cannot occur after the last `/` of a path |
| DataPaths.FeatureVectorPathOfImage | imagecaptioning_withrnn.py:190-192 | the `feature_vector` column of an image is the cache directory, the image's file name and `.npy` |
| DataPaths.EndsWithAfterDir | imagecaptioning_withrnn.py:183 | a `/`-free suffix ends `dir + name` exactly when it ends `name` |
| DataPaths.CacheFileMatchesFeatureVectorPath | imagecaptioning_withrnn.py:182-192 | the file `np.save` writes for an image is the file the training pipeline loads exactly when the image name does not already end in `.npy` |
| TrainValSplit.SliceIndex | imagecaptioning_withrnn.py:246 | the cut is the largest `c` with `5c <= 4n`, so it is at most `n` |
| TrainValSplit.GroupByKey | imagecaptioning_withrnn.py:239-243 | the grouping loop's key order is the order of first appearance, its keys are exactly those listed, and each key's entry is that key's captions in row order |
| TrainValSplit.Flatten | imagecaptioning_withrnn.py:249-261 | the flattening loop builds two equal-length lists whose pairs are, key by key, each caption of the entry paired with its key |
| TrainValSplit.TrainValidationSplit | imagecaptioning_withrnn.py:239-261 | train and validation are the first four fifths and the rest of the shuffled keys with their captions; together they are all rows (as multisets and by count); no key is on both sides |
| TrainValSplit.ExpandOfGroups | imagecaptioning_withrnn.py:251-261 | flattening the loop's multimap equals flattening the reference groups, for every key list |
| TrainValSplit.PairsOfCaptions | imagecaptioning_withrnn.py:240-241 | a key's captions paired with the key are exactly the rows with that key, in row order |
| TrainValSplit.KeysInOrderSpec | imagecaptioning_withrnn.py:243 | the dict's keys have no repeats, include every row's key, and a key is listed exactly when it has a caption |
| TrainValSplit.GroupingKeepsEveryCaption | imagecaptioning_withrnn.py:239-243 | flattening the groups of all keys gives back the rows as a multiset; the entry lengths sum to the row count |
| TrainValSplit.KeyedCaptionsAreRows | imagecaptioning_withrnn.py:251-261 | for a key list without repeats, the flattened captions are, as a multiset, the rows with those keys |
| TrainValSplit.KeyedCaptionsKeys | imagecaptioning_withrnn.py:251-261 | every flattened pair carries one of the listed keys |
| TrainValSplit.FilterUnion | imagecaptioning_withrnn.py:246-247 | the rows of two disjoint key lists together are the rows of their concatenation |
| TrainValSplit.DistinctPermutation | imagecaptioning_withrnn.py:244 | a shuffle of keys without repeats has no repeats |
| TrainValSplit.DistinctConcat | imagecaptioning_withrnn.py:247 | the two slices of a list without repeats have no repeats and share no element |
| TrainValSplit.ShuffledKeys | imagecaptioning_withrnn.py:243-244 | the shuffled keys have no repeats and hold every row's key |
| TrainValSplit.SplitCovers | imagecaptioning_withrnn.py:246-261 | the captions of the two sides together are all the rows, as multisets and by count |
| TrainValSplit.SidesDisjoint | imagecaptioning_withrnn.py:246-261 | no key occurs on both sides of the cut |
| CaptionDecode.Feed | imagecaptioning_withrnn.py:506-517 | running the decoder freely for `n` steps yields `n` words |
| CaptionDecode.Evaluate | imagecaptioning_withrnn.py:504-519 | the result has at most `max_length` words and no `[end]`; it is exactly the words drawn before stopping; it stopped at the limit or because the next word drawn is `[end]` |
| CaptionDecode.PredictionsPrefix | imagecaptioning_withrnn.py:506-517 | a longer run only extends the words drawn by a shorter one |
| CaptionDecode.PredictionAt | imagecaptioning_withrnn.py:506-517 | the word drawn at each step is the same in every longer run |
| CaptionDecode.DecodingNotShorter | imagecaptioning_withrnn.py:512-513 | no decoding meeting `Evaluate`'s contract is shorter than another |
| CaptionDecode.DecodingUnique | imagecaptioning_withrnn.py:504-519 | `Evaluate`'s contract determines its result: any two results meeting it are equal |

## Left out

- Characters outside ASCII. Python's `\w`, `\s`, `isspace` and `lower()` are Unicode-aware. Here non-ASCII characters count as punctuation and are deleted, and `lower()` maps only `A`-`Z`.
- SliceIndex: `int(len(keys) * 0.8)` is computed in floating point by the program. The model uses the integer `n * 4 / 5`. The two agree whenever the product is exact enough, which includes every realistic dataset size, but the floating-point product itself is not modelled.
- The randomness of `random.shuffle` and `tf.random.categorical`. The shuffle is any permutation of the keys, passed in. The draw is the step-number argument of `decoder`.
- The networks: the encoder, attention, the decoder's numerics, the loss, the training loop and Inception V3 feature extraction (floating-point tensor code). The decoder is an opaque function parameter.
- Evaluate: the decoder is fed the drawn word rather than its vocabulary index. The `StringLookup` vocabulary and the tokenizer are not modelled, so the model assumes the two lookups are inverse.
- File-system and shell effects: the Kaggle download, `os.path.exists('/content/')` (a boolean parameter of BaseDir), `os.makedirs`, `np.save`/`np.load` and `pd.read_csv`. NpySaveName models only the file name `np.save` picks.
- The `tf.data` pipeline (parallel `map`, `shuffle`, `prefetch`), plotting and printing.
- PyString.Replace: requires a non-empty pattern. Python's `replace` with an empty pattern inserts the replacement between characters, but the program only replaces `data/Images`.
- DataPaths.LastSegmentOfImagePath: stated for image file names without `/`, which are the names in the `image` column of Flickr8K's caption file.
- DataPaths.FeatureVectorPathOfImage: stated for image file names without `/` only; for a name holding `/` the model does not say what the `feature_vector` column is.
- DataPaths.CacheFileMatchesFeatureVectorPath: stated for image file names without `/`; with a `/` in the name the cached file and the loaded file differ.
