# Page similarity with TF-IDF, k-means and a red-black tree — a Dafny model

This project models the computational core of a small Java system that compares web pages.
It covers two generations of the program:

- `a2/`, a batch loader plus a search window:
  - `Loader` counts the words of every page, folds them into document frequencies and weighs every page with TF-IDF;
  - it then clusters the pages with k-means over cosine similarity (seven clusters, at most one hundred passes);
  - `Application` reads the saved calculator back and weighs a typed text with it. Reading the calculator back raises every stored document frequency by one (`a2/HT.readObject`), so a typed text's idf is `ln(N / (df + 1))` where the loader used `ln(N / df)`. It then sends the text to its nearest centroid and shows the two best-scoring pages of that cluster.
- `src/`, a single window (`Main`) with its own word counting, document frequencies, TF-IDF and two-loop cosine similarity, and a top-two scan over the other pages.
  - `src/RedBlackTree.java` is a standalone red-black tree with insertion, rotations and the three traversals.

Both programs store everything in hand-written chained hash tables:

- `a2/HT` keeps a value and an occurrence count per key;
- `src/HT` keeps a value only.

The model is purely functional:

- The tables are immutable values: a sequence of buckets, each a chain listed from its head. Adding and resizing return new tables.
- One generic table (`ChainedTable`) holds the machinery both hash tables share: lookup by walking the key's chain, prepending, in-place overwrite and relinking. `CountMap` (for `a2/HT`) and `ValueMap` (for `src/HT`) build on it.
- Every loop over `nodes()` or over `table[i]` chains walks the table's entries in bucket order, each chain from its head.
- Floating-point weights are reals. The natural logarithm and the square root enter as function parameters, because the model does not fix their values.

| module | file | models |
|---|---|---|
| `Wrappers`, `Seqs` | wrappers.dfy, seqs.dfy | `Option` and sequence helpers |
| `Hashing` | hashing.dfy | `String.hashCode` and the bucket index `hash & (capacity - 1)` |
| `ChainedTable` | chained_table.dfy | the bucket array with separate chaining that both tables share |
| `CountMap` | count_map.dfy | `a2/HT.java` |
| `ValueMap` | value_map.dfy | `src/HT.java` |
| `Vectors` | vectors.dfy | sparse (term, weight) vectors: dot product and sum of squares |
| `Text` | text.dfy | `toLowerCase().replaceAll("[^a-z ]", "").split("\\s+")` |
| `Similarity` | similarity.dfy | `a2/Similarity.java` |
| `Tfidf` | tfidf.dfy | `a2/TfidfCalculator.java` |
| `Loader` | loader.dfy | the TF-IDF steps of `a2/Loader.java` |
| `Clustering` | clustering.dfy | k-means in `a2/Loader.java` |
| `Application` | application.dfy | the search in `a2/Application.java` |
| `Recommender` | recommender.dfy | `src/Main.java` |
| `RedBlackTree` | red_black_tree.dfy | `src/RedBlackTree.java` |

Where the written design and the code disagree, the model follows the code:

- Digits and punctuation are deleted, not turned into separators: "e-mail" is the one token "email".
- A word the document-frequency table has never seen is not given idf 0. Its weight is computed with df = 0 like any other.
- `a2/HT.add(key, value)` also increments the key's count.
- `src/Main.countWords` keeps the empty token that `split` yields for an empty text or one starting with a space.
- Fewer pages than clusters is not a configuration error. `initializeCentroids` indexes past the end of the list, and the model answers `None`.

## Model

| member | source | states |
|---|---|---|
| Hashing.Bucket | a2/HT.java:28 | the masked hash of a key is a valid index into a table of any positive capacity |
| ChainedTable.FindIn | a2/HT.java:29-33 | the chain walk stops at the first node whose key equals `k`; nodes before it hold other keys; it runs off the end only when no node has `k` |
| ChainedTable.LookupSpec | a2/HT.java:27-35 | in a well-formed table, `k` is found exactly when it is a stored key, and what is found is the one listed entry with key `k` |
| ChainedTable.PrependSpec | a2/HT.java:46-47 | a node with a new key at the head of its chain keeps the table well-formed (placed by hash, no key twice, size exact), and the entries gain exactly that node |
| ChainedTable.ReplaceSpec | a2/HT.java:40-43 | overwriting a node in place keeps the table well-formed and swaps exactly that node in the multiset of entries |
| ChainedTable.RehashSpec | a2/HT.java:83-93 | relinking nodes with distinct new keys at the heads of their chains keeps the table well-formed and adds exactly those nodes |
| ChainedTable.SameEntriesSameLookup | src/HT.java:11-17 | two well-formed tables listing the same entries answer every lookup alike, whatever their capacities |
| CountMap.New | a2/HT.java:24-25 | a new table has eight buckets, no nodes and satisfies the invariant |
| CountMap.ResizeSpec | a2/HT.java:78-95 | resizing doubles the capacity (still a power of two), keeps `size`, keeps every (key, value, count) node and answers every lookup as before |
| CountMap.InsertNewSpec | a2/HT.java:46-50 | a new node with count 1, followed by the `size / length >= 0.75` test, keeps load below 3/4 and the other invariants, raises `size` by one and adds exactly that node |
| CountMap.AddSpec | a2/HT.java:37-51 | after `add(k, v)`, `get(k)` is `v` and `getCount(k)` is one more, whether or not `k` was present; other keys keep value and count; the key set gains `k`; `size` grows only for a new key; the total count grows by one |
| CountMap.TouchSpec | a2/HT.java:53-66 | after `add(k)`, `getCount(k)` is one more and `get(k)` is unchanged (null for a new key); other keys are untouched; `size` grows only for a new key |
| CountMap.NodesSpec | a2/HT.java:97-103 | `nodes()` lists `size` nodes with pairwise distinct keys; each listed node is what `get` and `getCount` see for its key; a key is stored exactly when its count is at least 1 |
| CountMap.KeyOnlyNodeHasNoValue | a2/HT.java:17-21 | a key a valid table lacks, then entered only by `add(key)` calls, is stored exactly when called, with a null value and a count equal to its number of calls |
| CountMap.ReadObjectSpec | a2/HT.java:105-121 | a table read back by `readObject` has the same keys and values as the one written, and every stored key's count is one more, because `add(key)` runs again on nodes the default deserialization already restored |
| CountMap.TouchAllSpec | a2/HT.java:53-66 | a sequence of `add(key)` calls raises each key's count by its number of occurrences and leaves the values alone |
| CountMap.AddAllSpec | a2/HT.java:37-51 | a sequence of `add(key, value)` calls leaves each key with the value of its last call, and raises its count by its number of calls |
| CountMap.AddDistinctSpec | a2/HT.java:11-16 | adding pairs with distinct keys to a new table stores exactly those keys, each with count 1 and its value |
| ValueMap.New | src/HT.java:8-9 | a new table has eight buckets, no nodes and satisfies the invariant |
| ValueMap.PutNew | src/HT.java:20-27 | adding a key the table lacks prepends its node to the key's chain |
| ValueMap.ResizeIsRehash | src/HT.java:32-41 | re-adding every old node to the empty doubled table relinks the nodes, since all their keys are distinct and new |
| ValueMap.ReinsertAddingIsReinsert | src/HT.java:19-41 | while the nodes still to come fit under 3/4 of the capacity, re-adding them with the full `add`, growth test included, equals re-adding them without the test |
| ValueMap.ResizeNeverNests | src/HT.java:28-41 | for a table at most one node over 3/4 of its capacity, as `add` hands it to `resize`, the re-add loop with the full `add` never grows again and builds exactly `Resize`'s table |
| ValueMap.ResizeSpec | src/HT.java:32-41 | resizing doubles the capacity, keeps `size`, keeps every node and answers every lookup as before |
| ValueMap.InsertNewSpec | src/HT.java:27-29 | a new node, followed by the `++size > length * 0.75` test, keeps the table valid and adds exactly that node |
| ValueMap.AddLookup | src/HT.java:19-30 | after `add(k, v)`, `k` finds the node `(k, v)`, every other key finds what it found before, and `size` grows only for a new key |
| ValueMap.AddSpec | src/HT.java:19-30 | after `add(k, v)`, `get(k)` is `v`, other keys keep their values, and the key set gains `k` |
| ValueMap.AddAllSpec | src/HT.java:19-30 | a sequence of `add` calls leaves each key with the value of its last call, or with its earlier value if it was never added |
| ValueMap.GetReturnsLastAdded | src/HT.java:11-17 | starting from a new table, `get` returns the value of the most recent `add` of the key, or null if there was none |
| Text.Clean | a2/Similarity.java:25 | lowercasing and deleting `[^a-z ]` leaves only lowercase letters and spaces |
| Text.WordsJoin | a2/Similarity.java:25 | splitting words joined by single spaces gives the words back |
| Text.SplitThenDropEmpty | a2/Similarity.java:25-26 | dropping the empty strings from Java's `split("\\s+")` leaves exactly the maximal runs of non-spaces |
| Text.TokensSpec | a2/Similarity.java:25-26 | the tokens `a2` counts are the words of the cleaned text, each non-empty and made of `a`-`z` |
| Text.RawTokensKeepEmpty | src/Main.java:95-96 | `src`'s split yields the token "" when the cleaned text is empty, and when it starts with a space and holds a letter |
| Text.HelloExample | a2/Similarity.java:25 | "Hi! hi," gives the tokens hi, hi |
| Text.GlueExample | a2/Similarity.java:25 | a character outside `[a-z ]` is deleted, which glues its neighbours: "e-mail" is one token, and so is "a\nb", since a newline is deleted rather than treated as a separator |
| Text.SplitExamples | src/Main.java:95-96 | Java's split keeps a leading "", gives [""] for "!" and nothing for a text of spaces |
| Similarity.CountWordsSpec | a2/Similarity.java:23-29 | each word's count is its number of occurrences among the tokens; values stay null; the keys are exactly the tokens, all non-empty over `a`-`z`; the counts add up to the number of tokens |
| Similarity.CountWordsExample | a2/Similarity.java:23-29 | "Hi! hi," counts hi twice and Hi not at all |
| Similarity.Cosine | a2/Similarity.java:19 | a table without nodes on either side scores 0 |
| Similarity.AtIsGet | a2/Similarity.java:9-10 | reading a term's weight off the node listing gives what `get` returns, with 0 for null |
| Similarity.DotOverIsDot | a2/Similarity.java:7-14 | the first loop's `dotProduct` is the dot product of A's weights with B's weights |
| Similarity.SquaresOverIsSumSq | a2/Similarity.java:15-18 | `magA` and `magB` are the sums of the squared weights |
| Similarity.CosineIsVecCosine | a2/Similarity.java:2-21 | the hash-table walk computes the cosine of the two weight vectors: 0 when a magnitude is 0, else dot / (sqrt(magA) * sqrt(magB)) |
| Similarity.CosineSymmetric | a2/Similarity.java:2-21 | the score does not depend on the order of the arguments |
| Similarity.CosineSelf | a2/Similarity.java:2-21 | a table scores 1 against itself unless all its weights are 0, where it scores 0 |
| Tfidf.TotalCountAtLeast | a2/TfidfCalculator.java:14 | with every count at least 1, `totalWords` is at least the number of nodes, so the division by it is defined |
| Tfidf.ComputeTfidf | a2/TfidfCalculator.java:12-23 | a count table without nodes gives a table without nodes |
| Tfidf.ComputeTfidfSpec | a2/TfidfCalculator.java:12-23 | the weights hold exactly the words of the count table, each once with count 1 and value `(count / totalWords) * ln(totalDocs / df)` |
| Tfidf.ComputeTfidfValued | a2/TfidfCalculator.java:20 | every node of the result carries a value |
| Tfidf.UnseenWordWeight | a2/TfidfCalculator.java:19 | a word the document-frequency table lacks is weighed with df = 0, with no special case |
| Tfidf.ComputeTfidfForTextSpec | a2/TfidfCalculator.java:25-28 | a text's weights cover exactly its tokens, each with a value |
| Tfidf.ComputeTfidfForTextWeight | a2/TfidfCalculator.java:25-28 | a token occurring n times among N tokens weighs `(n / N) * ln(totalDocs / df)` |
| Loader.DocFrequenciesSpec | a2/Loader.java:47-49 | after the fold, a word's count in `wordDocCount` is the number of pages whose counter holds it; its value stays null; it is a key exactly when some page holds it |
| Loader.LoadCalculator | a2/Loader.java:14 | the calculator is well-formed and `totalDocs` is the number of pages |
| Loader.PageVectorsSpec | a2/Loader.java:17-22 | every page vector is a valid table with a weight on every node, holding exactly the page's tokens |
| Loader.PageWeight | a2/Loader.java:14-22 | a token of page i weighs `tf * ln(N / df)`, with N the number of pages and df, the number of pages holding it, between 1 and N |
| Clustering.ScanSpec | a2/Loader.java:95-103 | with every score at most -1 the scan keeps (0, -1); otherwise it stops at the first index of the largest score |
| Clustering.BestSpec | a2/Loader.java:95-103 | the scan's choice is the only index that is a maximum above -1 with no equal score before it |
| Clustering.NearestSpec | a2/Loader.java:95-103 | the assigned cluster is in range; when some centroid scores above -1, none is more similar to the page and every earlier one is strictly less similar |
| Clustering.AssignToClusters | a2/Loader.java:92-110 | every page gets its nearest centroid, and `changed` holds exactly when some page's assignment differs from before |
| Clustering.CopySpec | a2/Loader.java:83-86 | a centroid copy holds the same keys with the same values as the page vector |
| Clustering.InitializeCentroidsSpec | a2/Loader.java:76-90 | centroids exist exactly when there are at least seven pages; centroid i holds the keys and weights of the page the shuffle put at position i, and the seven centroids copy seven different pages |
| Clustering.AddScoreGet | a2/Loader.java:123-125 | one step adds the score to the word's running sum, a missing sum counting 0, and leaves other words alone |
| Clustering.AccPairsSpec | a2/Loader.java:120-126 | the inner loop raises each word's sum by the scores paired with it and creates a sum for each word it meets |
| Clustering.MembersSpec | a2/Loader.java:114-117 | an index is a member of the cluster exactly when it is assigned to it |
| Clustering.NodePairsSpec | a2/Loader.java:128-129 | the division pass names each key once, pairing it with its value over the member count |
| Clustering.AccMembersSpec | a2/Loader.java:118-127 | after the members' pages are summed, a word found in some member holds the sum of its weights over the members, and other words are absent |
| Clustering.CentroidSpec | a2/Loader.java:118-130 | a recomputed centroid holds exactly the words found in some member, each with its mean weight over the members (a member lacking it counting 0) |
| Clustering.UpdateCentroidsSpec | a2/Loader.java:112-132 | each new centroid is the mean of the pages assigned to its cluster, and every centroid carries a weight on every node |
| Clustering.NearestAllBound | a2/Loader.java:94-103 | with at least one centroid, every page is assigned one of them |
| Clustering.Start | a2/Loader.java:64-65 | before the first pass every page is in cluster 0 and there are seven centroids, exactly when there are at least seven pages |
| Clustering.PassSpec | a2/Loader.java:66-72 | a pass that moves nothing ends the loop with the state unchanged; otherwise the recomputed state is sound and the loop carries on from it |
| Clustering.ClusterPages | a2/Loader.java:63-74 | the result exists exactly when there are at least seven pages; every assignment is below seven; between 1 and 100 passes run; on convergence every page sits at its nearest centroid; otherwise all 100 passes ran and the centroids are the means of the final clusters |
| Application.TrimStartSpec | a2/Application.java:71 | trimming the front drops a run of characters up to U+0020 and stops at a character above it, or at the end |
| Application.TrimEndSpec | a2/Application.java:71 | trimming the back drops a run of characters up to U+0020 and stops after a character above it, or at the start |
| Application.TrimSpec | a2/Application.java:71-72 | the trimmed text is empty exactly when every character is at most U+0020; otherwise it starts and ends with a character above U+0020 |
| Application.NearestClusterSpec | a2/Application.java:90-101 | with no centroids the cluster is 0; otherwise it is in range; when some centroid scores above -1, it is the first centroid of highest similarity |
| Application.CandidatesIncreasing | a2/Application.java:80-85 | the candidates come in increasing page order |
| Application.CandidatesMember | a2/Application.java:80-85 | the candidates are exactly the pages of the chosen cluster, each with its cosine with the query and the cluster index |
| Application.InsertRanked | a2/Application.java:86 | inserting into the listing adds exactly the one element |
| Application.SortByScore | a2/Application.java:86 | sorting permutes the listing |
| Application.SortByScoreRanked | a2/Application.java:86 | sorting a listing in page order ranks it by descending score, equal scores in page order (the stable sort) |
| Application.RankedUnique | a2/Application.java:86 | two ranked orderings of the same elements are equal, so the ranking fixes the sorted list |
| Application.TopTwoSpec | a2/Application.java:107-111 | the results shown are the first `min(2, n)` of the ranked list, ranked, and nothing after them scores higher |
| Application.ShownSpec | a2/Application.java:103-113 | for a listing in page order, `min(2, n)` of its elements are shown, ranked, and no element left out scores higher than one shown |
| Application.ReadCalculatorWeight | a2/Application.java:32-33 | with the calculator read back, a typed text's token weighs `tf * ln(N / (df + 1))`, where df is the number of pages holding it, one more than the loader used; a word no page holds keeps df 0 |
| Application.FindSimilarPagesSpec | a2/Application.java:70-77 | a text made only of characters up to U+0020 gets the "Please enter text." answer; any other text is searched with the weights of its trimmed form |
| Application.SearchSpec | a2/Application.java:76-88 | the answer names the nearest cluster and shows `min(2, n)` of its n pages, each with its cosine, ranked; no page of the cluster left out scores higher than one shown |
| Recommender.RaiseStep | src/Main.java:98-100 | one step raises the counter of the word it meets by one, starting from 1 for a word not seen yet |
| Recommender.RaiseAllSpec | src/Main.java:97-101 | each counter rises by the number of times its word is listed, starting from 0 for a missing counter |
| Recommender.RaiseAllKeys | src/Main.java:97-101 | the listed words join the key set and nothing else does |
| Recommender.CountAllSpec | src/Main.java:97-101 | counting a list of words from an empty table gives each listed word its number of occurrences and no other word a counter |
| Recommender.CountWordsSpec | src/Main.java:93-103 | each token, the empty one included, is counted by its number of occurrences, and the keys are exactly the tokens |
| Recommender.CountWordsExample | src/Main.java:93-103 | "Hi! hi," counts hi twice and has no entry for Hi |
| Recommender.CountWordsKeepsEmpty | src/Main.java:95-101 | "!" and " a" both count the empty token once |
| Recommender.CountWordsCounted | src/Main.java:98-100 | every counter `countWords` builds is at least 1 |
| Recommender.CountDocumentFrequenciesSpec | src/Main.java:105-113 | each word of the page has its document frequency raised by exactly one, from nothing to 1 when absent; every other word keeps its entry |
| Recommender.DocumentFrequenciesSpec | src/Main.java:105-113 | folded over a corpus from an empty table, a word's document frequency is the number of pages holding it, and a word no page holds has none |
| Recommender.CorpusFrequency | src/Main.java:105-113 | a word of some page has a document frequency between 1 and the number of pages |
| Recommender.SumAtLeast | src/Main.java:118-123 | counts of at least 1 add up to at least the number of nodes, so `totalWords` is positive for a non-empty page |
| Recommender.CalculateTfidfFails | src/Main.java:129 | the computation fails (the unboxing of null throws) exactly when some word of the page has no document frequency |
| Recommender.CalculateTfidfSpec | src/Main.java:115-140 | on success the weights cover exactly the page's words, each weighing `(count / totalWords) * ln(totalDocs / df)` with `totalWords` the sum of the counts |
| Recommender.AllWordsKnown | src/Main.java:129 | after the fold over a corpus, no page of it makes the computation fail |
| Recommender.CorpusWeight | src/Main.java:105-140 | for the corpus's own document frequencies, a word of page j weighs `(count / totalWords) * ln(totalDocs / df)`, with df the number of pages holding it, between 1 and the corpus size |
| Recommender.AtIsGet | src/Main.java:182-185 | reading a word's weight off the vector gives what `get` returns, with 0 for null |
| Recommender.DotPassIsDot | src/Main.java:179-187 | the first loop's `dot` is the dot product of the two weight vectors |
| Recommender.OwnSquaresIsSumSq | src/Main.java:188 | `mag1` is the sum of the first table's squared weights |
| Recommender.SharedSquaresIsDot | src/Main.java:189 | the first loop's part of `mag2` sums the second table's squared weights over the first table's words |
| Recommender.RestSquaresIsOutside | src/Main.java:193-200 | the second loop adds the squared weights of the second table's words that the first table lacks |
| Recommender.SecondMagnitude | src/Main.java:189-200 | the two parts of `mag2` add up to the sum of squares over every node of the second table |
| Recommender.PageSimilarityIsCosine | src/Main.java:176-203 | the two loops compute the cosine of the two weight vectors: 0 when a magnitude is 0, else dot / (sqrt(mag1) * sqrt(mag2)) |
| Recommender.PageSimilarityZero | src/Main.java:201 | a page whose weights are all 0, or that has no words, scores 0 against any page, in either position |
| Recommender.PageSimilaritySymmetric | src/Main.java:176-203 | the score does not depend on which page is the selected one |
| Recommender.PageSimilaritySelf | src/Main.java:176-203 | a page scores 1 against itself unless all its weights are 0 |
| Recommender.ScanPagesSpec | src/Main.java:149-161 | after every page the scan has recorded only other pages with positive scores, best above or level with second; no page outscores the best, and the best is the first page of its score; apart from the best, no page outscores the second, and the second is the first such page of its score, from the strict `>` tests |
| Recommender.PickUnique | src/Main.java:149-161 | only one pick meets what the scan records and keeps, so those properties fix the best and second pages completely, ties included |
| Recommender.SecondTieExample | src/Main.java:157-159 | with scores 0.3, 0.5, 0.3 and the fourth page selected, the first page, not the third, takes second place |
| Recommender.BestDemoted | src/Main.java:152-156 | a page becomes the best exactly when it beats the best score, and then the previous best moves to second place with its score |
| Recommender.FindSimilarSpec | src/Main.java:142-161 | without pages nothing is shown; otherwise the best and second pages are the top two of the selected page's similarities to the other pages, each the first page of its score, which by `Recommender.PickUnique` determines them |
| RedBlackTree.PreOrderKeys | src/RedBlackTree.java:38-50 | the preorder traversal lists every node's key exactly once |
| RedBlackTree.InOrderKeys | src/RedBlackTree.java:52-64 | the inorder traversal lists every node's key exactly once |
| RedBlackTree.PostOrderKeys | src/RedBlackTree.java:66-78 | the postorder traversal lists every node's key exactly once |
| RedBlackTree.TraversalsVisitEachKey | src/RedBlackTree.java:38-78 | each of the three traversals lists the multiset of the tree's keys, one per node |
| RedBlackTree.RotateLeft | src/RedBlackTree.java:80-97 | the right child takes the node's place with the node as its left child, colours move with their nodes, and the inorder sequence is unchanged |
| RedBlackTree.RotateRight | src/RedBlackTree.java:99-116 | the mirror image: the left child takes the node's place, and the inorder sequence is unchanged |
| RedBlackTree.RotationsInverse | src/RedBlackTree.java:80-116 | a right rotation undoes a left rotation |
| RedBlackTree.InsertSortedPlace | src/RedBlackTree.java:130-137 | the reference placement puts `x` after every element not larger than it and before the first larger one |
| RedBlackTree.InsertSortedSpec | src/RedBlackTree.java:130-146 | the reference placement adds exactly one `x` and keeps a sorted sequence sorted |
| RedBlackTree.FixLeftInOrder | src/RedBlackTree.java:181-197 | a fix-up round on the left side only recolours and rotates: the inorder sequence is unchanged |
| RedBlackTree.FixRightInOrder | src/RedBlackTree.java:164-180 | the same for the right side |
| RedBlackTree.InsInOrder | src/RedBlackTree.java:126-146 | the descent, linking and fix-up put `x` into the inorder sequence exactly where the reference placement does |
| RedBlackTree.Insert | src/RedBlackTree.java:149-152 | the root is black after every insertion, and inserting into an empty tree gives a single black node |
| RedBlackTree.InsertInOrder | src/RedBlackTree.java:118-159 | after `insert(x)` the inorder sequence is the old one with `x` placed after every key not larger than it: sorted, with exactly one more `x` |
| RedBlackTree.FixLeftBlack | src/RedBlackTree.java:181-197 | a round at a black grandparent leaves no red node with a red child and keeps every path's black count |
| RedBlackTree.FixRightBlack | src/RedBlackTree.java:164-180 | the same for the right side |
| RedBlackTree.InsColors | src/RedBlackTree.java:161-204 | the insertion below a node keeps its black height and balance and leaves at most a red-red pair at its root |
| RedBlackTree.BalancedPaths | src/RedBlackTree.java:161-204 | equal left and right black heights at every node means exactly that every root-to-leaf path holds the same number of black nodes |
| RedBlackTree.InsertRedBlack | src/RedBlackTree.java:118-204 | insertion keeps the red-black invariants (sorted keys, black root, no red node with a red child, equal black counts on all paths), and the black height grows by at most one |
| RedBlackTree.Demonstration | src/RedBlackTree.java:207-224 | inserting 55, 40, 65, 60, 75, 57 gives the traversals 55 40 65 60 57 75, then 40 55 57 60 65 75, then 40 57 60 75 65 55 |

## Left out

- Network and file input: `loadPages` in both programs (Jsoup fetching, the urls file, page titles) is outside the model. Pages enter as their body texts or their count tables.
  - Of `Loader.loadPages`, only the document-frequency fold (`a2/Loader.java:47-49`) is modelled.
  - `src/Main.loadPages` refers to a variable `wordInDoc` that the class never declares, and `countDocumentFrequencies` is never called. The model folds `countDocumentFrequencies` over a corpus (`Recommender.DocumentFrequencies`), as the method is evidently meant to be used.
- Persistence: the files of `saveData` and `loadData` are I/O. The one effect of reading back that reaches the results is modelled: `CountMap.ReadObject` raises every stored count by one, and `Application.ReadCalculator` applies it to the calculator.
  - `Application.FindSimilarPages` takes the calculator as given. Its callers pass `ReadCalculator(LoadCalculator(texts))` to get what `loadData` reads back, whose document frequencies are the loader's plus one.
  - The saved pages and centroids go through the same `readObject`. Only their counts change, and the search reads only their values.
- The user interface is left out: the windows, drop-down, text areas, result formatting (`%.3f`, `%.4f`), the `main` methods and printing. `displayResults` is modelled as the choice of the first two results.
- `src/MainTest.java` is not part of this model. Its checks are not reproduced as tests.
- `Collections.shuffle` is random. Its outcome is a parameter `perm` of `initializeCentroids`, required to list each page index exactly once (`Clustering.IsShuffle`).
- Floating point: weights are exact reals, so rounding, NaN and infinities are not modelled.
  - `Math.log` of `totalDocs / df` is a parameter `logRatio(totalDocs, df)`. With df = 0 (an unseen word), Java gives an infinite idf; the model leaves that value unconstrained.
  - `Math.sqrt` is a parameter `sqrt`, required to be positive on positive numbers.
  - The growth tests are exact: `(float) size / length >= 0.75f` becomes `4 * size >= 3 * length`, and `++size > length * 0.75` becomes `4 * size > 3 * length`.
- Integer width: counts, `size` and `totalWords` are unbounded. Java's 32-bit overflow would need more than 2^31 words and is not modelled.
- Text.CleanChar: assumes the JVM's default locale is neither Turkish nor Azeri. Under those locales `toLowerCase` turns `I` into a dotless `ı`, which the deletion then drops, so "ILLINOIS" would clean to "llnos".
- `String.hashCode` is modelled, but no proof depends on its values. The bucket index `hash & (length - 1)` is written `hash % length`; the two agree for the power-of-two capacities both tables keep.
- `other == selected` in `findSimilar` compares references. The model compares page indices, since every page is a distinct object.
- Null values in `a2`: the casts `(Double) node.value` in `cosineSimilarity` and `updateCentroids` throw on a null value. The model requires every node of a weight table to carry a value (`Valued`/`Weighted`), which `computeTfidf`, the centroid copy and the centroid update all guarantee.
- Similarity.CosineSelf: proved only for a square root that squares back (`sqrt(x) * sqrt(x) == x`). The exact score 1 does not survive floating-point rounding.
- Recommender.PageSimilaritySelf: the same square-root assumption as `Similarity.CosineSelf`.
- The score range [0, 1] of the cosine is not proved. It depends on the weights being non-negative, which depends on the logarithm's values.
- RedBlackTree: the generic key type `T extends Comparable<T>` is `int`, with `compareTo(...) < 0` read as `<`.
  - Parent pointers and the shared `TNULL` sentinel are replaced by an immutable tree whose black `Leaf` plays the sentinel.
  - The fix-up loop of `fixInsert` becomes a round at each ancestor on the way back up the insertion path. On a tree satisfying the red-black invariants, which is the only kind `insert` produces, the rounds act exactly where the loop acts: at the grandparent of the current red node whose parent is red.
  - That correspondence with the pointer loop is argued here, not proved.
