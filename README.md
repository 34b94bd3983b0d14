# Coded caching simulator core, in Dafny

This project models the deterministic core of the CodedCachingSim repository,
a simulator of the Maddah-Ali–Niesen coded caching scheme, and proves
properties of that model. It covers these parts:

- **The generator-matrix engine** (`GeneratorMatrix`, with the algebra in `Gf2`,
  `MatrixSpec`, `RowEquivalence` and `StandardForm`). It is a class over an
  `array2<int>` `G` with the operation log `OPList` and the cached
  `standardStatus`. It has:
  - the five elementary row and column operations over GF(p);
  - the Gaussian elimination `Standardize` (GF(2));
  - the standard-form test, the check matrix and the syndrome test;
  - the pure helpers `egcd` and `modinv`.

  For p = 2 the elimination carries ghost witnesses R and W. They relate the
  current matrix to the one it started from: the rows become R times the
  column-permuted original, the original is W times the current rows, and
  R·W = W·R = I. From them the model proves that the row space is kept, that
  a 0/1 input ends in standard form exactly when it has full rank, and that
  the syndrome of a column is zero iff the column lies in the code. Where
  the code forgets the logged column swaps, that statement fails for
  codewords of the original matrix, as shown under Findings. The source's
  own callers share G's array, so they test codewords of the standardized
  matrix instead, and those pass.
- **Coded subfiles**: the current `CodedCaching/CSubfile.py` (`CSubfile`) and
  the older `CSubfile.py` (`LegacyCSubfile`). Each is a class whose two-level
  map fileId → subfileId → subfile and whose counter are updated in place.
  The current version also keeps the shared size and a lazily rebuilt brief.
- **The cache** (`Cache`): a map id → coded subfile with free-space accounting.
- **The bit sequence** (`BitSequence`): a keyed map of coded subfiles with a counter.
- **The server** (`Server`): the standard placement matrix Z, filled cell by
  cell, and the delivery matrix X, one row per (t+1)-group of users.
- **The network** (`Network`): the constructor's choice and integrality test
  of t, the base-N odometer `allD`, and the textual rendering of a transmission.
- **The byte XOR** (`FunctionSet`).

Shared pieces sit in their own modules:
- `Subfiles` holds the subfile records and the nested-map edits.
- `Combinatorics` holds an integer binomial and `itertools.combinations` in
  lexicographic order.
- `Wrappers` holds Option and Result.

Python's exceptions are modelled as the `Err` case of a `Result`, and
Python's `%` and `//` as floor operations (`PyMod`, `PyDiv`).

## Model

| member | source | states |
|---|---|---|
| GeneratorMatrix.PyMod | featureTest/GeneratorMatrix.py:26 | Python's `x % m` lies in [0, m) for m > 0 and in (m, 0] for m < 0 |
| GeneratorMatrix.PyDiv | featureTest/GeneratorMatrix.py:19 | floor quotient: m·(a // m) + a % m == a |
| GeneratorMatrix.EgcdBezout | featureTest/GeneratorMatrix.py:14-19 | the (g, x, y) of egcd(a, b) satisfy a·x + b·y == g |
| GeneratorMatrix.EgcdDivides | featureTest/GeneratorMatrix.py:14-19 | for a, b ≥ 0, g is non-negative and divides both a and b |
| GeneratorMatrix.EgcdGreatest | featureTest/GeneratorMatrix.py:14-19 | every common divisor of a and b divides g, so g is the greatest common divisor |
| GeneratorMatrix.ModInvCorrect | featureTest/GeneratorMatrix.py:21-26 | when modinv succeeds, gcd(a, m) == 1, the value lies in Python's residue range of m, and a·value ≡ 1 (mod m) |
| GeneratorMatrix.ModInvComplete | featureTest/GeneratorMatrix.py:21-26 | when a ≥ 0, m ≥ 1 and a has an inverse mod m, modinv does not raise |
| GeneratorMatrix.EgcdAsWritten | featureTest/GeneratorMatrix.py:14-19 | as written, egcd calls a bare name that is not bound inside the class: it returns iff a == 0, and then returns egcd's value |
| GeneratorMatrix.ModInvAsWritten | featureTest/GeneratorMatrix.py:21-26 | as written, modinv always raises, because its first line calls the unbound `egcd` |
| GeneratorMatrix.ModInvAsWrittenMissesInverse | featureTest/GeneratorMatrix.py:21-26 | 3 has the inverse 3 mod 4, yet modinv(3, 4) as written raises |
| GeneratorMatrix.CheckScalarAsWritten | featureTest/GeneratorMatrix.py:82-86 | as written, the scalar check raises exactly when s ≡ 0 (mod p), because the error message is formatted with positional arguments for named fields; otherwise it returns True |
| GeneratorMatrix.LoadMatrix | featureTest/GeneratorMatrix.py:60-64 | the new array holds the given matrix, transposed when asked |
| GeneratorMatrix.SwapRowsInPlace | featureTest/GeneratorMatrix.py:96-98 | the array afterwards is the old one with rows r1 and r2 exchanged |
| GeneratorMatrix.ScaleRowInPlace | featureTest/GeneratorMatrix.py:124-125 | the row becomes (s·row) mod p and nothing else changes |
| GeneratorMatrix.AddRowInPlace | featureTest/GeneratorMatrix.py:147-149 | row r1 becomes (r1 + s·r2) mod p and nothing else changes |
| GeneratorMatrix.SwapColsInPlace | featureTest/GeneratorMatrix.py:167-169 | the array afterwards is the old one with columns c1 and c2 exchanged |
| GeneratorMatrix.ScaleColInPlace | featureTest/GeneratorMatrix.py:197-198 | the column becomes (s·column) mod p and nothing else changes |
| GeneratorMatrix.GeneratorMatrix.constructor | featureTest/GeneratorMatrix.py:28-55 | G holds the input, transposed when it has more rows than columns, so K ≤ N; the log is empty and the status unknown |
| GeneratorMatrix.GeneratorMatrix.SetG | featureTest/GeneratorMatrix.py:57-66 | with no matrix (None) nothing changes; otherwise G is replaced by the input, transposed when rows > cols (K ≤ N), OPList is emptied and standardStatus reset to None |
| GeneratorMatrix.GeneratorMatrix.SwitchRows | featureTest/GeneratorMatrix.py:91-108 | with two valid distinct rows, exactly those rows are swapped, `[0, min, max]` is logged and the status reset; otherwise G, the log and the status are unchanged |
| GeneratorMatrix.GeneratorMatrix.MultiRow | featureTest/GeneratorMatrix.py:113-133 | with the corrected scalar check of the Findings row for featureTest/GeneratorMatrix.py:84, with a valid row and s mod p not 0 or 1, only that row is scaled by s mod p, `[1, row, s mod p]` is logged and the status reset; otherwise nothing changes |
| GeneratorMatrix.GeneratorMatrix.AddRow | featureTest/GeneratorMatrix.py:138-157 | with the corrected scalar check of the Findings row for featureTest/GeneratorMatrix.py:84, with valid rows and s ≢ 0, row r1 := (r1 + (s mod p)·r2) mod p, one entry is logged and the status reset; otherwise nothing changes |
| GeneratorMatrix.GeneratorMatrix.SwitchCols | featureTest/GeneratorMatrix.py:162-180 | with two valid distinct columns, exactly those columns are swapped, `[3, min, max]` is logged and the status reset; otherwise nothing changes |
| GeneratorMatrix.GeneratorMatrix.MultiCol | featureTest/GeneratorMatrix.py:185-206 | with the corrected scalar check of the Findings row for featureTest/GeneratorMatrix.py:84, with a valid column and s mod p not 0 or 1, only that column is scaled, one entry is logged and the status reset; otherwise nothing changes |
| GeneratorMatrix.GeneratorMatrix.IsStandard | featureTest/GeneratorMatrix.py:221-233 | the result is the diagonal-and-column-sum test on G[:, :K] and is stored in standardStatus |
| StandardForm.StandardIffIdentityBlock | featureTest/GeneratorMatrix.py:221-233 | on a binary matrix the diagonal-and-column-sum test holds iff G[:, :K] is the identity |
| GeneratorMatrix.GeneratorMatrix.FindPivot | featureTest/GeneratorMatrix.py:264-285 | a found target is a nonzero entry in G[pivot:, pivot:] located by the vertical-then-horizontal scan; when none is found the scanned block is all zero |
| GeneratorMatrix.GeneratorMatrix.CleanCurCol | featureTest/GeneratorMatrix.py:236-242 | G becomes the matrix with every other row's pivot-column entry eliminated through addRow, and row equivalence to the start is kept |
| GeneratorMatrix.CleanCurColAsWrittenRaises | featureTest/GeneratorMatrix.py:236-242 | G = [[1, 0], [2, 1]] with p = 2: the entry 2 is nonzero, so cleanCurCol calls addRow with scalar -2, which is 0 mod 2 and raises KeyError at line 84; the corrected elimination leaves that row unchanged |
| GeneratorMatrix.GeneratorMatrix.Standardize | featureTest/GeneratorMatrix.py:235-305 | with the corrected scalar check of the Findings row for featureTest/GeneratorMatrix.py:84 (as written, an even nonzero entry in a pivot column makes addRow raise KeyError), for p = 2: it completes; the result is row-equivalent to the input with its logged column swaps applied; on a binary input it is binary and either standard or has a zero row, and the stored status is True exactly when the input has full rank over GF(2) (a rank-deficient input ends with False); in general the stored status is the standard-form test. For p ≠ 2 it may stop with the unbound-name error at line 249 |
| GeneratorMatrix.PivotOutcome | featureTest/GeneratorMatrix.py:294-305 | a binary matrix left by the pivot loop is standard when every pivot column is a unit column, and has a zero row when the search found no pivot; it is standard exactly when the starting matrix has full rank over GF(2) |
| StandardForm.StandardMeansFullRank | featureTest/GeneratorMatrix.py:294-305 | a standard-form matrix row-equivalent to the (column-swapped) input shows that the input's rows are linearly independent over GF(2) |
| GeneratorMatrix.CodeMembershipColumns | featureTest/GeneratorMatrix.py:331-344 | over GF(2), the syndrome test on each column with the logged column swaps applied is true exactly when that column is a combination of the starting matrix's rows |
| RowEquivalence.ZeroRowMeansDependent | featureTest/GeneratorMatrix.py:294-296 | stopping with a zero row means the input's rows are linearly dependent over GF(2) |
| RowEquivalence.RelatedSwapCols | featureTest/GeneratorMatrix.py:162-180 | a column swap keeps the row-equivalence witnesses and extends the logged permutation |
| GeneratorMatrix.BuildCheckMatrix | featureTest/GeneratorMatrix.py:311-313 | H is [−Aᵀ mod p, I_{N−K}] with A = G[:, K:] |
| StandardForm.StandardCodeMembership | featureTest/GeneratorMatrix.py:307-344 | for a standard binary G, H·x ≡ 0 (mod 2) iff x mod 2 is a GF(2) combination of G's rows |
| StandardForm.CodeMembership | featureTest/GeneratorMatrix.py:307-344 | after standardization, the syndrome of x with the logged column swaps applied is zero iff x is in the row space of the original G |
| StandardForm.UnpermutedSyndromeRejectsCodeword | featureTest/GeneratorMatrix.py:319-344 | for G = [[0, 1]], the codeword [0, 1] fails the unpermuted syndrome test and passes once the logged swap is applied |
| GeneratorMatrix.GeneratorMatrix.GetH | featureTest/GeneratorMatrix.py:307-317 | with the corrected scalar check of the Findings row for featureTest/GeneratorMatrix.py:84, it raises iff p ≠ 2 and the status stays unknown; otherwise it returns H exactly when G is standard, H is the check matrix of G, and a known status leaves G untouched; for p = 2 and a binary G not yet standardized, it returns H exactly when G has full rank over GF(2) |
| GeneratorMatrix.Syndromes | featureTest/GeneratorMatrix.py:331-344 | entry i is True iff H times column i of X is zero mod 2 |
| GeneratorMatrix.GeneratorMatrix.IsInSpace | featureTest/GeneratorMatrix.py:319-344 | as written: None unless H exists and X has N rows; otherwise entry i says whether H·X[:, i] ≡ 0 (mod 2); for p = 2, a binary G not yet standardized and X with N rows, the answer is not None exactly when G has full rank over GF(2) |
| GeneratorMatrix.GeneratorMatrix.IsInCodeSpace | featureTest/GeneratorMatrix.py:319-344 | the corrected test applies the logged column swaps to each column first; for a binary starting matrix, entry i is True iff column i is a GF(2) combination of that matrix's rows. That is the intent the comments of featureTest/checkDecodableTest_coding.py:29 and :34-50 state. In the source's own runs, G shares the caller's array, so their codewords come from the standardized matrix, and on those the as-written IsInSpace passes (StandardForm.StandardCodeMembership); for p = 2, a binary G not yet standardized and X with N rows, the answer is not None exactly when G has full rank over GF(2) |
| MatrixSpec.DecodeEncode | featureTest/GeneratorMatrix.py:32-43 | the list encoding of a logged operation decodes back to the operation |
| MatrixSpec.RowOperationsKeepReduced | featureTest/GeneratorMatrix.py:91-157 | swapping, scaling or adding any rows of the matrix keeps every entry in [0, p) |
| MatrixSpec.ColumnOperationsKeepReduced | featureTest/GeneratorMatrix.py:162-206 | swapping or scaling any columns of the matrix, including the columns past K, keeps every entry in [0, p) |
| MatrixSpec.SwapRowsInvolution | featureTest/GeneratorMatrix.py:91-108 | swapping the same two rows twice restores G |
| MatrixSpec.SwapColsInvolution | featureTest/GeneratorMatrix.py:162-180 | swapping the same two columns twice restores G |
| MatrixSpec.AddRowTwiceGf2 | featureTest/GeneratorMatrix.py:138-157 | over GF(2), adding the same row twice restores G |
| MatrixSpec.ApplyColSwapsInjective | featureTest/GeneratorMatrix.py:162-180 | a sequence of logged column swaps is a bijection on coordinate vectors |
| Subfiles.StoredIffPair | CodedCaching/CSubfile.py:95-99 | the nested-map lookup succeeds iff the (fileId, subfileId) pair is stored |
| Subfiles.InsertFacts | CodedCaching/CSubfile.py:73-79 | inserting adds exactly the pair, keeps every file key, and keeps every per-file map non-empty |
| Subfiles.Remove | CodedCaching/CSubfile.py:86-88 | popping a stored pair removes exactly that pair and drops an emptied per-file map |
| CSubfile.AddToStore | CodedCaching/CSubfile.py:61-80 | a size clash on a non-empty set is rejected with no change; otherwise the size is adopted when empty, the pair is stored, and the counter rises only for a new pair |
| CSubfile.DelFromStore | CodedCaching/CSubfile.py:83-93 | a stored pair is removed and the counter drops; an absent pair leaves the set unchanged; a counter that reaches 0 resets the size to 0 |
| CSubfile.AddToStoreKeepsInv | CodedCaching/CSubfile.py:61-80 | adding keeps "counter == number of stored pairs, all of one size" |
| CSubfile.DelFromStoreKeepsInv | CodedCaching/CSubfile.py:83-93 | deleting keeps the same invariant |
| CSubfile.ReplayKeepsCount | CodedCaching/CSubfile.py:61-93 | after any add/del sequence from empty, the counter equals the number of stored pairs |
| CSubfile.EmptyPairs | CodedCaching/CSubfile.py:87-88 | a well-keyed set has no pairs iff the outer map is empty |
| CSubfile.CSubfile.constructor | CodedCaching/CSubfile.py:9-22 | the id is set and the contents are those of adding each subfile in turn to an empty set |
| CSubfile.CSubfile.ClearSubfile | CodedCaching/CSubfile.py:28-31 | the set is empty, the counter 0 and the size kept; the brief is emptied as it is marked current (the correction of the stale brief the source keeps) |
| CSubfile.CSubfile.SetSubfileSet | CodedCaching/CSubfile.py:39-42 | clears first, then adds each subfile in turn |
| CSubfile.CSubfile.GetSubfileCounter | CodedCaching/CSubfile.py:47-48 | the counter equals the number of stored pairs |
| CSubfile.CSubfile.GetSubfileSize | CodedCaching/CSubfile.py:50-51 | every stored subfile has the returned size |
| CSubfile.CSubfile.HasSubfile | CodedCaching/CSubfile.py:95-99 | True iff the pair is stored |
| CSubfile.CSubfile.AddSubfile | CodedCaching/CSubfile.py:61-80 | the state follows AddToStore; with the corrected brief update, a newly stored pair is appended to a current brief, so a current brief still lists exactly the stored pairs |
| CSubfile.CSubfile.DelSubfile | CodedCaching/CSubfile.py:83-93 | the state follows DelFromStore; deleting a stored pair marks the brief stale |
| CSubfile.CSubfile.UpdateSubfileBrief | CodedCaching/CSubfile.py:101-107 | afterwards the flag is current; a stale brief is rebuilt to list each stored pair exactly once, and a current one is kept |
| CSubfile.CSubfile.GetSubfileBrief | CodedCaching/CSubfile.py:53-56 | the flag is current afterwards and the returned brief lists exactly the stored pairs, each once |
| CSubfile.BriefAfterAddAsWritten | CodedCaching/CSubfile.py:65-68 | as written, addSubfile touches the brief only when the counter is 0 |
| CSubfile.BriefAsWrittenMissesSubfile | CodedCaching/CSubfile.py:53-80 | adding (0, 0) and then (0, 1) to an empty coded subfile leaves a "current" brief that omits (0, 1) |
| LegacyCSubfile.AddToStore | CSubfile.py:44-53 | the pair becomes stored; a present pair is a no-op; a new pair raises the counter by 1 |
| LegacyCSubfile.DelFromStore | CSubfile.py:55-60 | the pair is no longer stored; an absent pair changes nothing; a present one is removed and the counter drops by 1 |
| LegacyCSubfile.AddAllToStoreContents | CSubfile.py:31-33 | adding a list stores the old pairs plus the list's pairs, without clearing |
| LegacyCSubfile.ReplayKeepsInv | CSubfile.py:44-60 | every add/del keeps counter == number of stored pairs |
| LegacyCSubfile.ReplayKeepsCount | CSubfile.py:13 | from the empty start, any add/del sequence ends with counter == number of stored pairs |
| LegacyCSubfile.CSubfile.constructor | CSubfile.py:9-19 | the id is set and the subfiles are added to an empty set |
| LegacyCSubfile.CSubfile.SetSubfileSet | CSubfile.py:31-33 | adds on top of the existing contents |
| LegacyCSubfile.CSubfile.GetSubfileCounter | CSubfile.py:38-39 | the counter equals the number of stored pairs |
| LegacyCSubfile.CSubfile.HasSubfile | CSubfile.py:62-66 | True iff the pair is stored |
| LegacyCSubfile.CSubfile.AddSubfile | CSubfile.py:44-53 | the state follows AddToStore |
| LegacyCSubfile.CSubfile.DelSubfile | CSubfile.py:55-60 | the state follows DelFromStore |
| Cache.Admit | CodedCaching/Cache.py:62-76 | an unseen id is admitted iff its size ≤ free space, which then drops by that size; an existing id is replaced iff free + old size ≥ new size, and free changes by old − new; otherwise nothing changes |
| Cache.Evict | CodedCaching/Cache.py:78-81 | a present id is removed and its size returned to free space; an absent id changes nothing |
| Cache.AdmitConserves | CodedCaching/Cache.py:62-76 | free space plus the stored sizes is unchanged by an add |
| Cache.EvictConserves | CodedCaching/Cache.py:78-81 | free space plus the stored sizes is unchanged by a delete |
| Cache.AdmitKeepsInv | CodedCaching/Cache.py:62-76 | adding a non-negative size keeps free space ≥ 0 |
| Cache.AdmitAllKeepsInv | CodedCaching/Cache.py:36-38 | adding a list of non-negative sizes in order keeps free space ≥ 0 |
| Cache.AdmitAllWithinBudget | CodedCaching/Cache.py:36-38 | starting from an empty cache with budget B, the stored sizes stay within B and free space is B minus them |
| Cache.HasCacheSubfileAsWritten | CodedCaching/Cache.py:49-60 | as written, the one-argument isinstance raises on every call |
| Cache.HasCacheSubfileSpec | CodedCaching/Cache.py:49-60 | the intended test: True iff the object's id, or the int id, is a key; any other argument gives False |
| Cache.HasCacheSubfileAsWrittenRaises | CodedCaching/Cache.py:49-60 | for a cache holding id 1, asking for 1 raises as written though the key is present |
| Cache.Cache.constructor | CodedCaching/Cache.py:14-21 | a fresh cache has M = 0, no entries and no free space, whatever the arguments |
| Cache.Cache.SetM | CodedCaching/Cache.py:30-31 | only M changes |
| Cache.Cache.GetM | CodedCaching/Cache.py:33-34 | returns M |
| Cache.Cache.GetFreeSpace | CodedCaching/Cache.py:43-44 | free space is non-negative and at most the budget (free space plus stored sizes), since stored sizes are non-negative |
| Cache.Cache.HasCacheSubfile | CodedCaching/Cache.py:49-60 | the corrected membership test, True iff the id is a key |
| Cache.Cache.AddCacheSubfile | CodedCaching/Cache.py:62-76 | the state follows Admit, the budget is conserved, and the invariant is kept for a non-negative size, with the corrected hasCacheSubfile of the Findings row for CodedCaching/Cache.py:50 |
| Cache.Cache.DelCacheSubfile | CodedCaching/Cache.py:78-81 | the state follows Evict, the budget is conserved, and the invariant is kept, with the corrected hasCacheSubfile of the Findings row for CodedCaching/Cache.py:50 |
| Cache.Cache.SetCacheContent | CodedCaching/Cache.py:36-38 | adds each entry in order, conserving the budget, with the corrected hasCacheSubfile of the Findings row for CodedCaching/Cache.py:50 |
| BitSequence.AddToStore | CodedCaching/BitSequence.py:37-43 | the id now maps to the value; the counter rises iff the id was new |
| BitSequence.DelFromStore | CodedCaching/BitSequence.py:46-49 | the id is removed; the counter drops iff it was present |
| BitSequence.AddAllToStoreKeys | CodedCaching/BitSequence.py:27-29 | the keys become the old keys plus each value's own id, ignoring the argument's keys, without clearing |
| BitSequence.ReplayKeepsCount | CodedCaching/BitSequence.py:19-20 | from empty, any add/del sequence ends with counter == number of keys |
| BitSequence.BitSequence.constructor | CodedCaching/BitSequence.py:16-25 | starts empty and adds every given value |
| BitSequence.BitSequence.SetCodedSubfileDict | CodedCaching/BitSequence.py:27-29 | adds every value in turn and keeps the counter invariant |
| BitSequence.BitSequence.HasCodedSubfile | CodedCaching/BitSequence.py:32-35 | True iff the id is a key |
| BitSequence.BitSequence.AddCodedSubfile | CodedCaching/BitSequence.py:37-43 | the state follows AddToStore and keeps counter == number of keys |
| BitSequence.BitSequence.DelCodedSubfile | CodedCaching/BitSequence.py:46-49 | the state follows DelFromStore and keeps counter == number of keys |
| Combinatorics.CombsLength | CodedCaching/Server.py:41 | combinations(range(n), k) has C(n, k) elements |
| Combinatorics.CombsIncreasing | CodedCaching/Server.py:41 | each combination is a strictly increasing k-list drawn from range(n) |
| Combinatorics.CombsComplete | CodedCaching/Server.py:41 | every strictly increasing k-list from range(n) is produced |
| Combinatorics.CombsSorted | CodedCaching/Server.py:41 | the combinations come in strictly increasing lexicographic order |
| Server.ColInjective | CodedCaching/Server.py:45 | column s + C·f determines the subfile s < C and the file f |
| Server.Groups | CodedCaching/Server.py:41 | there are C(K, t) groups, each a strictly increasing t-subset of range(K) |
| Server.StandardZEntry | CodedCaching/Server.py:36-46 | Z[u][s + C(K,t)·f] holds iff u is in the s-th t-subset, for every file f |
| Server.StandardZColumnCount | CodedCaching/Server.py:41-46 | every column of Z has exactly t users holding it |
| Server.XBitSingleWanter | CodedCaching/Server.py:93-108 | in a (t+1)-group, a set bit of X is wanted by exactly one member, who lacks it, and every other member holds it, so each member can decode it |
| Server.StandardPlacement | CodedCaching/Server.py:36-47 | fills a fresh K × N·C(K,t) array, cell by cell, with exactly the standard placement |
| Server.CacheInEveryFile | CodedCaching/Server.py:44-45 | marks subfile s of every file as held by the user and leaves every other cell as it was |
| Server.Server.constructor | CodedCaching/Server.py:9-22 | numOfSubfile = C(K, t), numOfCodedSubfiles = C(K, t+1), and no placement yet |
| Server.Server.GenerateZ | CodedCaching/Server.py:27-33 | Z becomes the standard placement and placementDone is set; the parameters are unchanged |
| Server.Server.GenerateX | CodedCaching/Server.py:73-116 | X has C(K, t+1) rows, one per (t+1)-group in lexicographic order; a bit is set iff the column is in a member's demanded block, at least t members hold it, and that member does not; groupList lists the groups, shifted by 1 when fileId2Alphabet; Z is unchanged |
| Server.Server.ColumnSums | CodedCaching/Server.py:88-89 | entry c counts the group members holding column c |
| Server.Server.UselessColumns | CodedCaching/Server.py:95-99 | a column is useless iff it lies in no member's demanded block |
| Server.Server.CodedSubfileRow | CodedCaching/Server.py:85-108 | fills row g with the XOR-coded bits of one group and leaves every other row as it was |
| Server.Server.Vote | CodedCaching/Server.py:101-108 | ORs in, for each member, the recoverable bits of its demanded block that it does not hold |
| Server.VoteBlock | CodedCaching/Server.py:102-108 | ORs into row g, over one member's block, each recoverable column the member does not cache, and changes nothing else |
| Server.Server.SetPrintoutMode | CodedCaching/Server.py:118-119 | only the printout flag changes |
| Network.ChooseT | CodedCaching/Network.py:23-26 | a given t is kept; otherwise t·N == M·K; a missing t with N == 0 raises ZeroDivisionError |
| Network.IntegralT | CodedCaching/Network.py:28-29 | t is accepted iff it is an integer, and then its value is kept; otherwise the constructor raises |
| Network.Setup | CodedCaching/Network.py:18-32 | raises on division by zero or a non-integral t; otherwise numOfSubfile = C(K, t) and numOfCodedSubfiles = C(K, t+1) |
| Network.Network.constructor | CodedCaching/Network.py:18-38 | stores M, N, K, t and both counts, with no placement yet |
| Network.NewNetwork | CodedCaching/Network.py:18-38 | raises exactly when Setup does and otherwise builds a network with Setup's parameters |
| Network.ValueOrderIsLex | CodedCaching/Network.py:93-103 | for digit vectors of one length, the base-N value order is the lexicographic order |
| Network.ValueInjective | CodedCaching/Network.py:93-103 | two digit vectors of one length with the same value are equal, so no vector is yielded twice |
| Network.ValueRep | CodedCaching/Network.py:94-95 | [0]*K has value 0 and [N−1]*K has the largest value Nᴷ − 1 |
| Network.ValueSucc | CodedCaching/Network.py:97-102 | incrementing the right-most digit below N−1 and zeroing the digits after it adds 1 to the value |
| Network.Increment | CodedCaching/Network.py:97-102 | one odometer step keeps every digit in [0, N) and raises the value by exactly 1 |
| Network.EnumerationProperties | CodedCaching/Network.py:93-103 | a run of the odometer starts at [0]*K, ends at [N−1]*K, yields every vector of [0, N)^K, and is strictly increasing in lexicographic order |
| Network.Network.AllD | CodedCaching/Network.py:93-103 | yields the snapshots of curD; for N ≥ 1 they are every vector of [0, N)^K, each once, in lexicographic order |
| Network.ParseNatStr | CodedCaching/Network.py:78 | the decimal rendering of a number reads back as that number |
| Network.TermRoundTrip | CodedCaching/Network.py:76-78 | the term for column c reads back as (c div numOfSubfile, c mod numOfSubfile) |
| Network.TermInjective | CodedCaching/Network.py:76-78 | distinct columns render as distinct terms |
| Network.RowTermsExact | CodedCaching/Network.py:72-78 | a row's term list names column c iff bit c is set, and names nothing else |
| Network.RenderedSkipsEmptyRows | CodedCaching/Network.py:79-80 | the rendered list is empty iff no row has a set bit |
| Network.Network.PrintableServerTransmission | CodedCaching/Network.py:69-85 | the output is the rendering of X: rows with set bits, terms joined by " + ", rows joined by " \|\| " unless a list is asked for |
| FunctionSet.DigitList | CodedCaching/functionSet.py:11-14 | a string converts iff every character is a decimal digit, and then to its digits in order |
| FunctionSet.XorItems | CodedCaching/functionSet.py:20 | succeeds iff every a[i] ^ b[i] is below 256, and then holds exactly those values |
| FunctionSet.XorBytes | CodedCaching/functionSet.py:7-20 | two byte strings of one length XOR to the element-wise exclusive or |
| FunctionSet.XorRejectsOther | CodedCaching/functionSet.py:16-17 | an argument that is not bytes, a bytearray or a list is refused |
| FunctionSet.XorRejectsLengths | CodedCaching/functionSet.py:18-19 | arguments of different lengths are refused |
| FunctionSet.XorReadsDigits | CodedCaching/functionSet.py:11-14 | a digit string is XOR-ed as its digit list, and any other string is refused |
| FunctionSet.XorCommutes | CodedCaching/functionSet.py:7-20 | XOR(a, b) == XOR(b, a), errors included |
| FunctionSet.XorCancels | CodedCaching/functionSet.py:20 | XOR(XOR(a, b), b) == a |
| FunctionSet.XorSelfZero | CodedCaching/functionSet.py:20 | XOR(a, a) is all zeros |
| FunctionSet.NatXorCancels | CodedCaching/functionSet.py:20 | (x ^ y) ^ y == x on non-negative integers |
| FunctionSet.ByteXorIsByte | CodedCaching/functionSet.py:20 | the XOR of two bytes is a byte |

## Left out

- JSON serialisation (`toString`/`fromString`), `__str__`, `printOps`, the GeneratorMatrix messages printed when H or X is unusable, and Network's `printCacheContent`: these only produce output.
- Verbose mode of GeneratorMatrix is not modelled. Its default is False, and every caller in the source passes False or nothing (featureTest/GeneratorMatrix.py:394, featureTest/checkDecodableTest_coding.py:17). With verbose set, the source behaves differently in two places:
  - multiCol's message at featureTest/GeneratorMatrix.py:204 fills named fields with positional arguments and raises KeyError. By then G and OPList have changed, but standardStatus has not yet been reset, so a stale True can outlive the change.
  - isInSpace's failure message at lines 338-339 reads `CList` and `XList`, which exist only when the file runs as a script (lines 421-423). An imported class raises NameError there.
- The scalar check's warning at featureTest/GeneratorMatrix.py:84 is not only output: it raises KeyError. That raise is modelled by GeneratorMatrix.CheckScalarAsWritten and recorded under Findings; the operations use the corrected check.
- Server's random placement (`generateZ(isRandom=True)`, `_permutateZ`): it depends on randomness and calls `_placementPrep_std`, which does not exist. Only the standard placement is modelled.
- Network's `placement` and `delivery` and the User and Server instances the constructor builds: they orchestrate other objects, draw random demands and print. User.py is not part of this model.
- `scipy.special.comb` returns a float that `int()` truncates; the model uses an exact integer binomial.
- Network.ChooseT: the default t = M·K/N uses exact real arithmetic, not floating point, so rounding in the integrality test is not modelled.
- Network.Network.AllD: Python yields one list object that it mutates in place; the model returns the sequence of its snapshots. With N < 1 and K > 0 the generator never stops, so the method requires N ≥ 1 or K = 0.
- Network.Network.PrintableServerTransmission: `int(col / numOfSubfile)` goes through a float, which can round for huge columns; the model uses exact integer division.
- Server.Server.GenerateX: demanded file indexes must be non-negative and D must have an entry for every user. A negative index slices NumPy from the end, and a too-short D raises IndexError.
- Server and Network take K as a `nat`: a negative user count is not modelled.
- Cache and BitSequence store value snapshots (id, size) of coded subfiles, not references, so aliasing between a stored object and the caller's copy is not modelled. Ids are integers, and a `None` id is not modelled.
- Dictionary iteration order is not modelled. The brief returned by `getSubfileBrief` is only stated to list each stored pair exactly once.
- GeneratorMatrix.GeneratorMatrix.constructor: it requires a non-empty matrix. With the source's default `G=None` the object keeps G, K and N as None, and every operation except setG then fails on them. The model has no object without a matrix; SetG does take None, and then changes nothing.
- GeneratorMatrix.GeneratorMatrix.Standardize: its row-equivalence and standard-form guarantees are stated for p = 2 only. For p ≠ 2 the pivot-scaling step calls an unbound `modinv`, and the model stops there with that error.
- GeneratorMatrix.GeneratorMatrix.Standardize, GeneratorMatrix.GeneratorMatrix.GetH, GeneratorMatrix.GeneratorMatrix.IsInSpace and GeneratorMatrix.GeneratorMatrix.IsInCodeSpace: they use the corrected scalar check (a zero scalar leaves G unchanged). As written, a pivot column with a nonzero entry that is a multiple of p, such as G = [[1, 0], [2, 1]] with p = 2, makes addRow raise KeyError. The model does not reproduce that raise. On a matrix whose entries are already in [0, p), no such entry exists.
- `RowPermutMat`/`ColPermutMat`: they are declared but never updated. The column permutation is instead recovered from the logged operations.
- FunctionSet.Xor: list entries are non-negative integers, and the string conversion accepts only the ASCII digits `0`–`9`, not every Unicode digit `int()` accepts.
- Server.Server.GenerateX: it requires that placement has run. The source instead fails on the None Z when indexing it.
- Server.Server.constructor: t and N are natural numbers. With a negative t the source's `itertools.combinations` raises ValueError.
- GeneratorMatrix.GeneratorMatrix.constructor and GeneratorMatrix.GeneratorMatrix.SetG: the source keeps the caller's ndarray. `np.asarray` does not copy it (featureTest/GeneratorMatrix.py:60), and `.T` is a view, so every later operation rewrites the caller's array in place. Both callers in the source read that array after `standardize`. The model loads a fresh array that no caller shares, so this aliasing is not captured. Its entries are unbounded integers, while the caller's int64 array wraps at 2^63.
- GeneratorMatrix.GeneratorMatrix.constructor and GeneratorMatrix.GeneratorMatrix.SetG: they require p ≥ 1. The source accepts any p, and with p ≤ 0 its `% p` raises or yields non-positive residues.
- GeneratorMatrix.GeneratorMatrix.GetH: H is an integer matrix. The source builds it with `np.eye`, so its entries are floats; they are the same values.
- GeneratorMatrix.GeneratorMatrix.IsInSpace and GeneratorMatrix.GeneratorMatrix.IsInCodeSpace: an empty X (no rows) returns None once H exists. The source raises ValueError at `X_r, X_c = X.shape` (featureTest/GeneratorMatrix.py:326), because a 1-d array has one dimension.
- Cache.Cache.constructor: the arguments M and cacheContent are ignored, as in the source, so a new cache always has M = 0.

## Findings

| source | as written | input that shows it | evidently intended | confidence | as-written member | corrected member |
|---|---|---|---|---|---|---|
| CodedCaching/CSubfile.py:65-68, 28-31 | the brief is appended to only when the counter is 0, and `clearSubfile` leaves the old brief while marking it current | add (0, 0, size 1) then (0, 1, size 1) to an empty coded subfile: `getSubfileBrief` returns [[0, 0]] | the brief lists exactly the stored pairs whenever it is marked current | high, not executed | CSubfile.BriefAsWrittenMissesSubfile | CSubfile.CSubfile.GetSubfileBrief |
| CodedCaching/Cache.py:50 | `isinstance(csubfile)` with one argument raises TypeError on every call, so add and delete raise too | a cache holding id 1, asked `hasCacheSubfile(1)` | True iff the object's id or the int id is a key of `_Z` | high, not executed | Cache.HasCacheSubfileAsWrittenRaises | Cache.Cache.HasCacheSubfile |
| featureTest/GeneratorMatrix.py:311-331 | the syndrome is taken on the raw column, but `standardize` may have swapped columns of G | G = [[0, 1]]: standardize swaps the columns, giving H = [[0, 1]]; the codeword [0, 1] has syndrome 1 | a column passes iff it is a codeword of the original G, so the logged column swaps are applied first. This is what the callers' comments describe. Their code, though, builds its codewords from the array that `standardize` rewrote in place, and the raw test accepts those | medium, not executed | StandardForm.UnpermutedSyndromeRejectsCodeword | GeneratorMatrix.GeneratorMatrix.IsInCodeSpace |
| featureTest/GeneratorMatrix.py:18, 22, 249 | `egcd` and `modinv` are defined in the class but called as bare names, which raises NameError | modinv(3, 4), whose inverse is 3 | the extended Euclid algorithm and a modular inverse in [0, m) | high, not executed | GeneratorMatrix.ModInvAsWrittenMissesInverse | GeneratorMatrix.ModInvCorrect |
| featureTest/GeneratorMatrix.py:84 | the message formats the named fields `{s}` and `{p}` with positional arguments, which raises KeyError | multiRow(0, 2) with p = 2; also standardize, getH and isInSpace on G = [[1, 0], [2, 1]] with p = 2, where cleanCurCol calls addRow(1, 0, -2) (GeneratorMatrix.CleanCurColAsWrittenRaises) | print a warning and leave G unchanged | high, not executed | GeneratorMatrix.CheckScalarAsWritten | GeneratorMatrix.GeneratorMatrix.MultiRow |
