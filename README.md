# Identifier remapping and configuration utilities of a graph recommender

This project models two parts of a recommender-system code base and proves properties about them.

The first part is the data-loading layer, `src/data/loaders.py`:

- Raw user and item identifiers from a train split become one index space.
  - Users take positions `0..|users|-1` among the sorted distinct train users.
  - Items take `|users|` plus their position among the sorted distinct train items.
- The test split is looked up against the same arrays.
- Item–property triples are remapped. Items keep their plain position in `items`, and properties are numbered from `|items|` upward.
- Embedding tables are reordered into rows that follow the index space, users first.
- The user–property matrix is appended to a pair of adjacency matrices.

The second part is the nested-configuration helpers in `src/utilities/utils.py`:

- `nested_dict_update` merges one configuration into another.
- `linearize`, `extract` and `delinearize` flatten a configuration to tuple keys and back.
- `make_grid` expands a configuration of lists into a grid search.
- `mlflow_linearize` flattens a configuration to dotted parameter names.
- `top_scores` keeps, for each user, that user's first `n` prediction rows.

Modules:

- `Results`: `Option`, `Result` and the Python exceptions raised (`ValueError`, `TypeError`, `IndexError`, `KeyError`, `AttributeError`).
- `PyDict`: a Python `dict` as an insertion-ordered association list.
  - `d[k] = v` replaces a value in place or appends a new key.
  - `{**a, **b}`, `update` and dict comprehensions are bulk assignments.
  - `pop` removes a key.
- `Numpy`: the `numpy` operations the loaders use.
  - `np.unique` with `return_inverse`.
  - `argwhere` of an equality matrix.
  - Fancy indexing, with negative indices.
  - `np.stack`, which raises on columns of different lengths.
- `Loaders`: `load_train_test_ratings`, the two embedding loaders and the user-properties extension of `load_user_item_graph`. Tables arrive already parsed.
- `Config`: the configuration tree. A value is a scalar, a list or a mapping. A key is a string or a (nested) tuple of keys. `Leaves` lists the leaves of a tree with their key paths. `Same` is Python's `==` on dicts, which ignores key order.
- `DictUpdate`, `Linearization`, `Grid`, `MlflowParams` and `Scores`: the utilities.
- `RoundTrip`: `delinearize` undoes `linearize`.
  - `Fill(es, vals)` is the configuration `es` with its leaves, depth first, replaced by `vals`.
  - `delinearize(dict(zip(keys, vals)))`, with `keys` the keys `linearize` gives the leaves of `es`, succeeds and equals `Fill(es, vals)` under Python's `==`.
  - This holds when every key is a string and no nested mapping is empty (`Linearizable`). An empty nested mapping leaves no key behind in `linearize`, so `delinearize` cannot restore it.
  - `make_grid` relies on this once per combination (`Grid.MakeGridConfigs`).

The source's loops are methods with loop invariants, proved equal to a recursive function of their inputs:

- `NestedDictUpdate`, `Linearize` and `PopTupleKeys`;
- `MlflowLinearize` and `TopScores`;
- `CollectEmbeddings`.

`Delinearize` and `LoadBertUserItemEmbeddings` are methods without loops of their own: they call `PopTupleKeys` and `CollectEmbeddings`.

What the source promises is then proved about those functions as lemmas.

Two behaviours of the loader that follow from the code as written:

- An unknown test user or item does not silently shift rows. `argwhere` drops that row from one looked-up column only. That column is then shorter than the full-length rating column, so `np.stack` always raises ValueError (`Loaders.TestRemapAligned`).
- A property triple whose item is not a train item is not dropped either. The same length mismatch makes `np.stack` raise ValueError (`Loaders.PropsRemapSucceeds`).

## Model

| member | source | states |
|---|---|---|
| Numpy.Unique | src/data/loaders.py:47-48 | `np.unique` gives a strictly increasing sequence whose elements are exactly the column's values |
| Numpy.SortedByElements | src/data/loaders.py:47-48 | two strictly increasing sequences with the same elements are equal, so the unique array is determined by the column |
| Numpy.Inverse | src/data/loaders.py:47-48 | the inverse indices have the column's length, and each one points at its value among the uniques |
| Numpy.PositionOfSorted | src/data/loaders.py:47-48 | in a strictly increasing sequence, the position of the element at `j` is `j` |
| Numpy.Shift | src/data/loaders.py:49 | `idx += n` adds `n` to every index and keeps the length |
| Numpy.ArgwhereEq | src/data/loaders.py:53-54 | every position found indexes `keys` and names a key that occurs in the column |
| Numpy.MatchesOfSorted | src/data/loaders.py:53-54 | against unique keys, `argwhere` finds a value's single position, or nothing when the value is absent |
| Numpy.ArgwhereEqLength | src/data/loaders.py:53-54 | the looked-up column is as long as the input minus the number of rows whose value is not a key |
| Numpy.UnmatchedZero | src/data/loaders.py:53-54 | no row is dropped exactly when every value is a key |
| Numpy.ArgwhereEqIsInverse | src/data/loaders.py:53-54 | when every value is a key, `argwhere` gives the same positions as `np.unique`'s inverse |
| Numpy.Take | src/data/loaders.py:118-119 | fancy indexing succeeds exactly when every index is in range (negative ones counted from the end), raises IndexError otherwise, keeps the index list's length, and element `k` is the element of `a` at `idx[k]`, a negative index counted from the end |
| Loaders.StackRatings | src/data/loaders.py:50 | `np.stack` succeeds exactly on three columns of one length, and row `k` is made of the `k`-th entries |
| Loaders.StackTriples | src/data/loaders.py:68 | the same for item–property triples |
| Loaders.TrainSpace | src/data/loaders.py:47-48 | `users` and `items` are strictly increasing and hold exactly the train users and train items |
| Loaders.RemapTrain | src/data/loaders.py:47-50 | every train row keeps its place and rating; `users[u_k]` is its raw user and `items[i_k - len(users)]` its raw item; user indices lie in `[0, len(users))` and item indices in `[len(users), len(users)+len(items))` |
| Loaders.TrainRowsUseSpace | src/data/loaders.py:47-50 | each train row's indices are the canonical positions of its raw user and item |
| Loaders.TrainIndexesCoverSpace | src/data/loaders.py:47-50 | every index below `len(users)+len(items)` is used by some train row, so the index space has no gaps |
| Loaders.RemapTest | src/data/loaders.py:53-56 | the only exception is ValueError; on success every test row keeps its place and its rating |
| Loaders.TestRemapAligned | src/data/loaders.py:53-56 | the test remap succeeds exactly when every test user and item occurs in train; then every row keeps its place and rating and gets the canonical indices |
| Loaders.TrainTestConsistent | src/data/loaders.py:47-56 | a test row and a train row with the same raw user (item) get the same user (item) index |
| Loaders.PropsOf | src/data/loaders.py:65 | the properties are strictly increasing and are exactly the properties of the triples |
| Loaders.RemapProps | src/data/loaders.py:64-68 | the only exception is ValueError; on success the properties are the sorted distinct properties of the table and there is one triple of weight 1 per input pair |
| Loaders.PropsRemapSucceeds | src/data/loaders.py:64-68 | the property remap succeeds exactly when every triple's item is a train item |
| Loaders.PropsRemapAligned | src/data/loaders.py:64-68 | each triple keeps its place; its item becomes the plain position in `items`, its property `len(items)` plus the position among the sorted distinct properties, and its weight 1 |
| Loaders.LoadTrainTestRatings | src/data/loaders.py:11-82 | the loader as one function from the frames and flags to the remapped ratings, the index space and the adjacency builder's arguments; what it promises is stated by `LoadTrainTestRatingsOutcome` |
| Loaders.LoadTrainTestRatingsOutcome | src/data/loaders.py:47-82 | loading fails exactly on an unknown test identifier or, when properties are read, an unknown triple item; the train rows, test rows and index space are those of the remaps; without `return_adjacency` no builder call is made; the builder gets the train rows, the index space, `type_adjacency`, `sparse` and `symmetric`, and, exactly for `unary-kg`/`unary-uip` with a property table, the sorted distinct properties and the remapped triples |
| Loaders.GraphUserItemEmbeddings | src/data/loaders.py:117-120 | the table has `len(users)+len(items)` rows: row `k` is the source row of `users[k]`, then the source rows of the items; any index out of range fails |
| Loaders.LastVector | src/data/loaders.py:136-141 | the vector kept for an identifier is that of its last row |
| Loaders.CollectEmbeddings | src/data/loaders.py:136-141 | the filled dictionary has exactly the frame's identifiers, each bound to its last row's vector |
| Loaders.StackLookup | src/data/loaders.py:142-143 | stacking looked-up vectors succeeds exactly when there are identifiers and all are present; it raises KeyError when one is missing and ValueError otherwise; on success row `k` is the vector of `ids[k]` |
| Loaders.LoadBertUserItemEmbeddings | src/data/loaders.py:133-144 | succeeds exactly when there are users and items and every one of them occurs in its frame; rows are the users' then the items' last vectors, in index order; users are stacked first, so a missing user raises KeyError and no users ValueError before the items are looked at, then the same for items |
| Loaders.WithUserProperties | src/data/loaders.py:319-322 | without `user_properties`, or for `unary-uip`, the adjacency is unchanged; otherwise the adjacency is unpacked: a pair into its two matrices, a single matrix into its rows when it has exactly two; the two parts gain the user–property matrix as a third element, and anything else raises ValueError |
| DictUpdate.Updated | src/utilities/utils.py:19-31 | reference definition of `nested_dict_update` as a fold over `u`; its properties are the contracts of `UpdatedEntries`, `UpdatedKeys`, `UpdatedIdempotent` and `ErrorPersists` |
| DictUpdate.NestedDictUpdate | src/utilities/utils.py:19-31 | the update loop computes `Updated(d, u)` |
| DictUpdate.ErrorPersists | src/utilities/utils.py:26-30 | once an entry raises, the whole update raises that exception |
| DictUpdate.UpdateNonMapping | src/utilities/utils.py:27-30 | updating a non-mapping with a non-empty `u` raises AttributeError (mapping value first) or TypeError |
| DictUpdate.UpdatedEntries | src/utilities/utils.py:26-30 | the update succeeds exactly when each entry does; every key of `u` then holds its value (merged recursively for mappings) and every other key of `d` is unchanged |
| DictUpdate.UpdatedKeys | src/utilities/utils.py:26-30 | the resulting keys are those of `d` and those of `u` |
| DictUpdate.UpdatedIdempotent | src/utilities/utils.py:26-30 | updating twice with the same `u` gives what updating once gives |
| Linearization.Linearized | src/utilities/utils.py:34-48 | reference definition of `linearize`; its properties are the contracts of `LinearizedLeaves`, `LinearizedValueError` and `RoundTrip.DelinearizeUndoesLinearize` |
| Linearization.Linearize | src/utilities/utils.py:34-48 | the `extend`/`append` loop computes `Linearized(es)` |
| Linearization.LinearizedValueError | src/utilities/utils.py:47 | the only exception `linearize` raises is ValueError |
| Linearization.LinearizedLeaves | src/utilities/utils.py:34-48 | `linearize` fails exactly when some leaf is not a list; otherwise it lists every leaf depth first under the nested key of its path |
| Linearization.Extract | src/utilities/utils.py:51-59 | the single element of a one-element tuple, the tuple otherwise; its properties are the contracts of `ExtractUndoesNest`, `ExtractMergesNesting` and `ExtractSmaller` |
| Linearization.ExtractUndoesNest | src/utilities/utils.py:57-59 | `extract` of the tail of a pair `(k, rest)` is `rest` |
| Linearization.ExtractMergesNesting | src/utilities/utils.py:57-59 | the tails of `(h, (a, b, …))` and `(h, a, b, …)` extract to the same key |
| Linearization.ExtractSmaller | src/utilities/utils.py:73 | the extracted tail of a tuple is a smaller key, so the recursion of `delinearize` ends |
| Linearization.TupleEntries | src/utilities/utils.py:69 | the filtered entries all come from tuple keys of the dict |
| Linearization.TupleEntriesComplete | src/utilities/utils.py:69 | every tuple-keyed entry is among the filtered entries |
| Linearization.HeadedUnlessEmptyTuple | src/utilities/utils.py:71 | taking each key's head succeeds exactly when no key is the empty tuple |
| Linearization.GroupByHead | src/utilities/utils.py:71 | groups are non-empty, made of filtered entries with the group's head, and start with the first entry's head |
| Linearization.GroupHeadsAlternate | src/utilities/utils.py:71 | neighbouring groups have different heads: only adjacent keys with the same head are merged |
| Linearization.GroupHeadsCover | src/utilities/utils.py:71 | every head of a tuple key heads some group |
| Linearization.SplitGroupsExample | src/utilities/utils.py:71 | for `('a','x'), ('b','y'), ('a','z')` the head `'a'` heads two groups |
| Linearization.InnerSmaller | src/utilities/utils.py:73 | a group's inner dict has smaller keys than the tuples it came from |
| Linearization.DelinearizeGroupsAt | src/utilities/utils.py:73 | each head is bound to the recursive delinearization of its group's inner dict |
| Linearization.PopTupleKeys | src/utilities/utils.py:75-76 | popping every filtered key, one at a time, leaves exactly the non-tuple entries in their order |
| Linearization.PopWithout | src/utilities/utils.py:76 | popping a key from what is left removes that key too |
| Linearization.Delinearized | src/utilities/utils.py:62-78 | reference definition of `delinearize`; its properties are the contracts of `DelinearizedKeys`, `LastGroupWins`, `NestedDelinearizes` and `RoundTrip.RoundTrip` |
| Linearization.Delinearize | src/utilities/utils.py:62-78 | the method computes `Delinearized(lin_dict)`; on success the argument is left with its non-tuple entries, on an exception it is untouched |
| Linearization.DelinearizedKeys | src/utilities/utils.py:69-77 | the result's keys are the non-tuple keys and the heads of the tuple keys; a non-tuple key that is no head keeps its value; every head maps to a nested dict |
| Linearization.LastGroupWins | src/utilities/utils.py:71-77 | a head heading several groups is bound to the delinearization of its last group only |
| Linearization.NestedDelinearizes | src/utilities/utils.py:62-78 | `delinearize` never raises on keys of the shape `linearize` builds from string keys |
| Grid.ProductSize | src/utilities/utils.py:91 | `product` yields as many combinations as the product of the list lengths |
| Grid.ProductMembers | src/utilities/utils.py:91 | a sequence is a combination exactly when it picks, position by position, an element of the corresponding list |
| Grid.DelinearizeAll | src/utilities/utils.py:93 | delinearizing every grid dict succeeds exactly when each one does; then element `j` of the list is `delinearize` of grid dict `j` |
| Grid.MakeGrid | src/utilities/utils.py:81-93 | reference definition of `make_grid`; its properties are the contracts of `MakeGridErrors`, `MakeGridCount` and `MakeGridConfigs` |
| Grid.MakeGridErrors | src/utilities/utils.py:88-90 | `make_grid` raises ValueError on a leaf that is not a list and on a configuration without leaves |
| Grid.MakeGridCount | src/utilities/utils.py:81-93 | with string keys and list leaves, `make_grid` succeeds with one configuration per combination: the product of the list lengths |
| Grid.GridConfig | src/utilities/utils.py:90-93 | the dict that `zip` builds from the linearized keys and one combination delinearizes to the input with its leaves replaced by that combination |
| Grid.MakeGridConfigs | src/utilities/utils.py:81-93 | for string keys, list leaves and no empty nested mapping, `make_grid` returns one configuration per combination, in `product` order; configuration `j` equals the input with its leaves, depth first, replaced by combination `j` |
| RoundTrip.RelabelDistinct | src/utilities/utils.py:40-48 | distinct string keys at every level give distinct `linearize` keys, so `dict(zip(keys, values))` loses no leaf |
| RoundTrip.RelabelHeads | src/utilities/utils.py:40-48 | every `linearize` key is headed by a top-level key and is never the empty tuple |
| RoundTrip.TupleSplit | src/utilities/utils.py:69 | the tuple-keyed entries of the linearized dict are one block per nested mapping, in order, each member `((k, key), value)` |
| RoundTrip.PlainSplit | src/utilities/utils.py:69-76 | the entries left after the pops are the top-level leaves with their new values |
| RoundTrip.GroupsOfBlocks | src/utilities/utils.py:71 | `groupby` on the linearized dict gives exactly one group per nested mapping, headed by its key |
| RoundTrip.NewsOfGroups | src/utilities/utils.py:73 | each group's inner dict is the linearization of its mapping, and the groups delinearize to the rebuilt mappings |
| RoundTrip.RebuiltGet | src/utilities/utils.py:77 | `{**lin_dict, **new_dict}` reads each rebuilt mapping first and each leaf otherwise |
| RoundTrip.RoundTrip | src/utilities/utils.py:62-78 | for a `Linearizable` configuration (string keys at every level, distinct within each mapping, no empty nested mapping) and as many well-formed values as it has leaves, `delinearize(dict(zip(keys, vals)))` succeeds and equals the configuration with its leaves replaced by `vals` |
| RoundTrip.FillLeaves | src/utilities/utils.py:34-48 | filling a configuration with its own leaf values gives it back |
| RoundTrip.DelinearizeUndoesLinearize | src/utilities/utils.py:34-78 | for a `Linearizable` configuration (string keys at every level, distinct within each mapping, no empty nested mapping) on which `linearize` succeeds, `delinearize(dict(linearize(d)))` succeeds and equals `d` |
| MlflowParams.MlflowLinearized | src/utilities/utils.py:132-146 | reference definition of `mlflow_linearize`; its properties are the contracts of `MlflowLeaves` and `MlflowErrorPersists` |
| MlflowParams.MlflowLinearize | src/utilities/utils.py:132-146 | the loop computes `MlflowLinearized(es)` |
| MlflowParams.MlflowErrorPersists | src/utilities/utils.py:140-145 | once a key raises, the whole flattening raises that exception |
| MlflowParams.MlflowLeaves | src/utilities/utils.py:132-146 | flattening fails, with TypeError, exactly when a nested path holds a non-string key; otherwise each key reads the leaf at its dot-joined path (the last such leaf), and an empty mapping contributes nothing |
| Scores.RowsOf | src/utilities/utils.py:14 | the selected rows all belong to the user and come from the table |
| Scores.Head | src/utilities/utils.py:15 | `head(n)` is the prefix of length `n`, or all but the last `-n` rows for negative `n` |
| Scores.TopRows | src/utilities/utils.py:13-15 | reference definition of the frame `top_scores` appends to; its properties are the contracts of `TopRowsOf` and `TopScores` |
| Scores.TopRowsOf | src/utilities/utils.py:13-15 | in the appended frame, a listed user's rows are the head of that user's rows and any other user has none |
| Scores.TopScores | src/utilities/utils.py:11-16 | each user keeps exactly the first `n` of their rows in table order, and every row kept comes from the table |
| Scores.AtMostN | src/utilities/utils.py:11-16 | with `n >= 0` no user has more than `n` rows |
| PyDict.Assign | src/utilities/utils.py:30 | `d[k] = v` binds `k` to `v`, leaves every other key alone, and appends a new key at the end |
| PyDict.AssignAllOver | src/utilities/utils.py:77 | after `{**d, **e}` a key of `e` reads its value in `e` and any other key its value in `d` |
| PyDict.Pop | src/utilities/utils.py:76 | `pop(k)` removes `k` and leaves every other key alone |
| PyDict.AssignAllLast | src/utilities/utils.py:73 | in a comprehension the last entry with a given key wins |
| PyDict.AssignSame | src/utilities/utils.py:30 | writing back the value a key already holds changes nothing |

## Left out

- File and JSON reading (`pd.read_csv`, `json.load`, `pd.read_json`). These are I/O, so every table arrives as an already-parsed sequence of rows.
- The sort by `ID_OpenKE` in `json_load_bert_embeddings`. The BERT frames are taken as given. Only the last row per identifier matters for the result.
- `build_adjacency_matrix` and `get_user_properties` are not part of this model. Only their call sites are modelled. `get_user_properties` is a function parameter, and the builder call is recorded by its arguments.
- Loaders.WithUserProperties: matrices are opaque, so how many rows a single matrix has is a parameter (`twoRows`, its two rows when it has exactly two). Unpacking an object that is not iterable, which would raise TypeError, cannot arise: every adjacency is a matrix or a tuple of matrices.
- The dataset and batch classes (`UserItemEmbeddings`, `UserItemGraph` and the others) are not part of this model, nor are the loaders that only construct them.
- Raw user, item and property identifiers are integers, so `np.unique` orders them numerically. String identifiers, which would sort lexicographically, are not modelled; `embeddings[users]` (src/data/loaders.py:118-119) indexes by them and needs integers anyway.
- Embedding vectors and ratings are opaque values or integers. Float32 conversion and the dtype promotion of `np.stack` are not modelled.
- `src/models/tsgnn.py` and `src/models/basic.py`. These are Keras model classes and runtime class synthesis over library code.
- `setup_mlflow`, `FlushFileHandler` and `get_experiment_logger`. These are filesystem, logging and experiment-tracking side effects.
- `DictUpdate.NestedDictUpdate` returns the updated value rather than mutating `d` in place, so the aliasing is not modelled. The source returns the same object it was given. When a nested mapping of `d` is shared elsewhere, the source changes it there too.
- `Linearization.Delinearize`: the pops on the argument are modelled as its returned remainder, not as an aliased dict.
- `Scores.TopScores`: the iteration order of `set(predictions['users'])` is a parameter, constrained only to list every user once. The DataFrame index and `DataFrame.append` (removed in pandas 2.0) are modelled as sequence concatenation.
- Configuration keys that are neither strings nor tuples (numbers and the like) cannot be represented: keys are strings or tuples of keys. So the TypeError that `mlflow_linearize` raises on `'a.' + 1` for a numeric key (src/utilities/utils.py:143) is not captured. Properties that need string keys state it as a hypothesis (`AllNames`).
- Grid.MakeGridConfigs: requires that no nested mapping is empty. An empty nested mapping is dropped by `linearize`, so the returned configurations lack it. `Grid.MakeGridCount` still gives their number in that case.
- Scalars compare by identity. Python's `1 == 1.0 == True` is not modelled.
