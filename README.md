# Antibiotic synergy predictor — verified model of its discrete core

The application is a single inference script. It rebuilds a fixed synthetic drug graph with 20 nodes and 30 undirected "positive" edges. It runs a pretrained two-layer graph convolutional encoder over that graph. For a pair of drug indices it then reports the sigmoid of the dot product of their two embeddings, a strict 0.5 label, and the two drugs' display names.

This project models the discrete, checkable parts of that script:

- `Config`: the fixed constants: 20 nodes, feature width 16, embedding width 32 (streamlit_app.py:71-73), 30 positive edges (streamlit_app.py:79), threshold 0.5 (streamlit_app.py:127). The `drug_names` dictionary (streamlit_app.py:20-41) is the constant `Drugs.DrugNames`, built from the list `Drugs.NameTable`; being constants, they are described by the lemmas `Drugs.DrugNamesKeys`, `Drugs.BoundaryNames` and `Drugs.TableNamesDistinct`.
- `PositiveEdges`: the positive-edge generator. This is a rejection-sampling `while` loop. It draws two node indices, discards self-pairs, stores each pair as `(min, max)` in a set, and stops at 30 edges. The set is then listed and transposed into the 2 × N `edge_index`.
  - `random.randint` is a finite stream of draws, each in [0, 19], read through a cursor.
  - `GeneratePositiveEdges` is the loop as an imperative method. It is proved equal to the specification function `Run`.
  - The lemmas about `Run` state the properties: exactly 30 edges on exit, no self-loops, normalised pairs, endpoints in range, rejected draws change nothing, the loop stops at the first pair that fills the set, and it finishes exactly when the stream offers 30 distinct pairs.
  - `CompletingStream` shows that from every reachable state some valid stream makes the loop finish.
- `Drugs` and `Decimal`: the `drug_names` dictionary and `drug_names.get(i, f"Drug {i}")`. The dictionary is a `map` built from the 20 names listed in key order. They include Python's decimal rendering of an `int`, with a parser as its proved inverse, so that the fallback name is exact.
- `Synergy`: the dot product in `decode` (elementwise product, then sum), the abstract sigmoid, the strict threshold label, and the per-query result: probability, label and the two names.

`random.randint` is an input stream. `torch.sigmoid` is a function parameter: lemmas that need its shape (value 0.5 at 0, strictly increasing) take that shape as a hypothesis. Embedding entries are integers; probabilities are reals.

Two behaviours of the code worth stating:

- The code does not validate query indices. The number inputs already limit them to [0, 19]. For any other index the name lookup falls back to `Drug {i}` instead of reporting an error.
- The code promises only that `list(positive_edges)` holds the set's elements. Their order is whatever Python's set iteration gives.

## Model

| member | source | states |
|---|---|---|
| PositiveEdges.Normalise | streamlit_app.py:85 | `tuple(sorted((i, j)))`: the first component is at most the second, and the pair holds exactly the two drawn nodes |
| PositiveEdges.NormaliseSymmetric | streamlit_app.py:85 | (i, j) and (j, i) normalise to the same stored edge |
| PositiveEdges.NormaliseValid | streamlit_app.py:82-85 | two distinct draws in [0, 19] give an edge with 0 <= first < second <= 19 |
| PositiveEdges.AddDraw | streamlit_app.py:84-86 | one loop iteration: a self-pair leaves the set as it is, any other pair adds its normalised edge; its properties are the lemmas that follow |
| PositiveEdges.Run | streamlit_app.py:80-86 | the whole loop from a given set and cursor: stop with the set once it holds 30 edges, report exhaustion when fewer than two draws remain, otherwise apply one iteration and continue; its properties are the lemmas that follow |
| PositiveEdges.AddDrawGrowsByAtMostOne | streamlit_app.py:84-86 | one iteration never removes an edge and adds at most one |
| PositiveEdges.AddDrawUnchanged | streamlit_app.py:84-86 | an iteration leaves the set unchanged if and only if the draw is a self-pair or an already stored edge; otherwise the set grows by exactly one |
| PositiveEdges.AddDrawValid | streamlit_app.py:82-86 | an iteration on in-range draws stores only valid edges (no self-loop, normalised, endpoints in [0, 19]) |
| PositiveEdges.PairsValid | streamlit_app.py:82-86 | every edge that an in-range stream can offer is valid |
| PositiveEdges.RunShape | streamlit_app.py:80-86 | the loop never shrinks the set or lets it exceed 30; on exit through its guard it holds exactly 30 edges, after whole pairs of draws that stay inside the stream |
| PositiveEdges.RunKeepsInvariant | streamlit_app.py:80-86 | on in-range draws the invariant "at most 30 edges, all valid" holds in every state the loop reaches |
| PositiveEdges.RunContents | streamlit_app.py:80-86 | the final set is exactly the edges offered by the pairs read up to the exit point; if the stream runs out first, the set is everything the stream offers and has fewer than 30 edges |
| PositiveEdges.RunStopsAtFirstFull | streamlit_app.py:81 | the loop exits at the first pair that fills the set: one pair earlier it held fewer than 30 edges |
| PositiveEdges.FinishesIff | streamlit_app.py:81-86 | the loop finishes if and only if the stream's pairs offer at least 30 distinct normalised non-self edges |
| PositiveEdges.MissingEdge | streamlit_app.py:71-83 | with fewer than 30 stored edges, some valid edge between nodes 0..19 is still missing |
| PositiveEdges.RunShift | streamlit_app.py:81-86 | what the loop does depends only on the draws it has not yet read |
| PositiveEdges.CompletingStream | streamlit_app.py:80-86 | from every state the loop can reach, some in-range stream makes it finish, after one pair per missing edge |
| PositiveEdges.GenerationFacts | streamlit_app.py:80-86 | the run from an empty set keeps the invariant; it finishes if and only if the stream offers 30 edges; when it finishes it holds exactly 30 edges after an even number of draws, and those edges are what the consumed draws offer; otherwise it holds everything the stream offers |
| PositiveEdges.GeneratePositiveEdges | streamlit_app.py:80-86 | the imperative loop ends in the state `Run` describes: an invariant-respecting set; 30 edges exactly when the stream offers 30; those edges are what the consumed draws offer |
| PositiveEdges.ListEdges | streamlit_app.py:87 | `list(positive_edges)`: the list is a permutation of the set (equal multisets) |
| PositiveEdges.ListingFacts | streamlit_app.py:87 | a listing has as many entries as the set, holds every element of the set and nothing else, and repeats no entry |
| PositiveEdges.ListingsArePermutations | streamlit_app.py:87 | two listings of the same set differ only in order |
| PositiveEdges.EdgeRows | streamlit_app.py:88 | `torch.tensor(positive_edges)` has one row per listed edge, and row k is [list[k].0, list[k].1] |
| PositiveEdges.Transpose | streamlit_app.py:88 | `.t()` turns a matrix of N rows of width w into w rows of width N, whose entry (r, c) is entry (c, r) of the input |
| PositiveEdges.TransposeInvolution | streamlit_app.py:88 | transposing twice gives back the original matrix, so `.t()` loses nothing |
| PositiveEdges.EdgeIndex | streamlit_app.py:88 | `edge_index` has two rows as long as the list, and column k is (list[k].0, list[k].1) |
| PositiveEdges.RegeneratePositiveEdges | streamlit_app.py:79-88 | end to end: when the loop finishes, `edge_index` is 2 × 30; its columns are exactly the generated edges, each once, each with 0 <= source < target <= 19 |
| Decimal.NatToDecimalCanonical | streamlit_app.py:130-131 | the digits `f"{i}"` writes for a natural number form a nonempty numeral of digits with no leading zero |
| Decimal.NatRoundTrip | streamlit_app.py:130-131 | parsing the rendering of a natural number gives the number back |
| Decimal.IntRoundTrip | streamlit_app.py:130-131 | parsing the rendering of any integer, with its '-' sign, gives the integer back |
| Decimal.IntToDecimal | streamlit_app.py:130-131 | the `{i}` of the f-string: a '-' sign for negative integers, then the decimal digits of the magnitude; `IntRoundTrip` and `IntToDecimalInjective` are its properties |
| Drugs.FallbackName | streamlit_app.py:130-131 | the default `f"Drug {i}"`: "Drug " followed by the decimal rendering of the index |
| Decimal.IntToDecimalInjective | streamlit_app.py:130-131 | distinct integers render as distinct strings |
| Drugs.DrugName | streamlit_app.py:130-131 | `drug_names.get(i, f"Drug {i}")`: an index in 0..19 gives its table entry; any other index gives "Drug " followed by its decimal rendering |
| Drugs.DrugNamesKeys | streamlit_app.py:20-41 | the table's keys are exactly the valid node indices 0..19 |
| Drugs.BoundaryNames | streamlit_app.py:20-41 | index 0 is "Amoxicillin" and 19 is "Nitrofurantoin"; -1 and 20 fall back to "Drug -1" and "Drug 20" |
| Drugs.FallbackIsNotATableName | streamlit_app.py:130-131 | no fallback name equals a table name |
| Drugs.TableNamesDistinct | streamlit_app.py:20-41 | the 20 table names are pairwise distinct |
| Drugs.DrugNameInjective | streamlit_app.py:130-131 | a displayed name determines the index: different indices never show the same name |
| Synergy.Product | streamlit_app.py:61 | `embeddings[i] * embeddings[j]` is the elementwise product, of the same length |
| Synergy.Sum | streamlit_app.py:61 | `.sum()`: the total of a vector's entries, 0 for the empty vector |
| Synergy.DotProduct | streamlit_app.py:61 | `(embeddings[i] * embeddings[j]).sum()`: the sum of the elementwise product of rows i and j |
| Synergy.Decode | streamlit_app.py:60-62 | `decode`: the sigmoid parameter applied to the dot product |
| Synergy.ProductCommutes | streamlit_app.py:61 | the elementwise product does not depend on the order of its arguments |
| Synergy.DecodeSymmetric | streamlit_app.py:60-62 | the dot product, and so `decode`, gives the same value for (i, j) and (j, i) |
| Synergy.SelfProductSum | streamlit_app.py:61 | for a self-pair, the summed elementwise product equals the independently defined sum of squares |
| Synergy.SumOfSquaresSign | streamlit_app.py:61 | a sum of squares is never negative, and it is zero if and only if every entry is zero |
| Synergy.SelfPairDot | streamlit_app.py:61 | a self-pair's dot product is the sum of squares of its embedding, hence >= 0 |
| Synergy.SumOfZeros | streamlit_app.py:61 | an all-zero product sums to zero |
| Synergy.Classify | streamlit_app.py:127 | the label is Synergistic if and only if the probability is strictly greater than 0.5 |
| Synergy.Verdict.Text | streamlit_app.py:127 | the two label strings: the text is "Synergistic ✅" if and only if the verdict is Synergistic, and "Not Synergistic ❌" otherwise |
| Synergy.PredictLabel | streamlit_app.py:125-127 | the page shows "Synergistic ✅" for a query if and only if `decode` of that pair is strictly greater than 0.5 |
| Synergy.ClassifyBoundary | streamlit_app.py:127 | a probability of exactly 0.5 is Not Synergistic, and a larger probability never loses the Synergistic label |
| Synergy.Predict | streamlit_app.py:125-131 | a query's result is the sigmoid of the dot product, the strict-threshold label of that probability, and both names from the lookup with fallback |
| Synergy.PredictSwap | streamlit_app.py:125-131 | querying (j, i) instead of (i, j) keeps probability and label and swaps the two names |
| Synergy.SelfPairSynergistic | streamlit_app.py:125-127 | for a sigmoid that is 0.5 at 0 and strictly increasing, a self-pair with a nonzero embedding is labelled Synergistic |
| Synergy.ZeroEmbeddingsNotSynergistic | streamlit_app.py:125-127 | with an all-zero embedding, `decode` returns sigmoid(0) = 0.5, which is labelled Not Synergistic |

## Left out

- The web page: title, text, number inputs, button and result output (streamlit_app.py:107-135, apart from lines 125-131). This is user interface. The number inputs limit both indices to [0, 19], which is why `Synergy` requires valid indices.
- Loading the pretrained weights, choosing the device, and `model.eval()` (streamlit_app.py:93-96). These are file I/O and state inside a foreign library.
- The `GCNEncoder` layers and the forward pass (streamlit_app.py:47-57, 99-102). These are library-provided floating-point tensor numerics. The embeddings enter `Synergy` as an input.
- The `torch.randn` feature matrix (streamlit_app.py:76) and the concrete output of the seeded generators (streamlit_app.py:67-69). The draws are an abstract input stream, so the model does not reproduce the 30 concrete edges that seed 42 yields.
- GeneratePositiveEdges: a finite stream cannot model one that never ends. When the stream runs out before the set holds 30 edges, the result is `Exhausted`, where the source would still be drawing. `FinishesIff` and `CompletingStream` say exactly when this happens.
- ListEdges: does not fix the order of the list, because Python's set iteration order depends on the implementation. It promises only a permutation of the set.
- Decode: `torch.sigmoid` is an arbitrary function parameter, so no floating-point value of it is claimed. In particular the model does not claim that the probability lies strictly inside (0, 1), since that fails for 32-bit floats at large inputs.
- Synergy.Product: embedding entries are unbounded integers, not 32-bit floats. Rounding, overflow and NaN are not modelled. The verifier cannot reliably reason about products of reals, so integers stand in for the floats.
- Synergy.SelfPairSynergistic: assumes an exact, strictly increasing sigmoid and integer entries, so a nonzero self-pair always scores a sum of squares of at least 1. With 32-bit floats a self-pair whose entries are tiny but nonzero can have a dot product that rounds to 0, or a sigmoid that rounds to exactly 0.5, and the program then shows "Not Synergistic". The lemma does not cover that case.
- The indexing `embeddings[i]`: Python would also accept negative indices and count them from the end. The model requires 0 <= i < number of rows, which the number inputs guarantee.
