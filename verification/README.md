# Verified model of jaxnetd's arithmetic, scripts and storage

This project models four parts of jaxnetd and proves what they promise:

- **secp256k1 (`btcec`)**: field elements of ten 26-bit words, the Jacobian point routines, the non-adjacent form,
  the endomorphism split, `ScalarMult`, `ScalarBaseMult` with its table, and the byte formats of keys and signatures. Each fast routine is proved
  against a short statement over the integers modulo P or over the group of the curve.
- **The script machine (`txscript`)**: parser, printer, builder, numbers, stacks, conditionals, multisig with its
  signature cache, the engine over several scripts, and the time-lock scripts built on `OP_INPUTAGE`.
- **Block storage (`database/ffldb`)**: the write-back cache, the merging iterator, the append-only block files with
  rollback, and the repair after a crash.
- **Partial Merkle trees (`jaxutil/bloom`)**: the builder of a merkle block, against the parser of the section
  "Partial Merkle branch format" of BIP 37.

`dafny verify dfyconfig.toml` checks everything.

## Reading guide

| files | content |
|---|---|
| `Wrappers`, `Bytes`, `NumberTheory` | options, byte strings as numbers, Fermat's little theorem |
| `FieldProduct`, `FieldVal`, `Field`, `FieldPower` | words of a field element, powers of it (modules `FieldFermat`, `FieldPower`); the class `FieldVal`, whose ghost `e` is the exact integer an operation stands for |
| `Jacobian`, `Curve`, `CurveGroup` | formulas and the group law; the routines that write through their outputs; multiples of a point |
| `Naf`, `Endomorphism`, `ScalarMult`, `BaseMult` | recoding, splitting, the interleaved loop; the table of byte points |
| `PubKey`, `Signature` | SEC 1 keys, DER signatures and the strict check |
| `DbCache`, `CacheIterator` | the cache's view, transactions, iteration |
| `BlockRows`, `BlockFiles`, `BlockStore`, `Ffldb` | rows, files, the store, the database with crashes |
| `MerkleTree`, `MerkleBlock` | levels of a tree; builder and parser |
| `ScriptNum`, `Script`, `ScriptStack` | numbers, parsing and building (modules `Script`, `ScriptBuilder`), the stack object |
| `MultiSig`, `ScriptOps`, `MultiSigOp`, `OpcodeHandlers` | matching signatures to keys; every opcode as a function; the signature, stack and number opcodes as they run |
| `Conditionals`, `StackBounds`, `ScriptVm`, `ScriptEngine` | the conditional stack, bounds, the machine as a step function, the engine object that refines it |
| `ScriptRuns`, `TimeLocks`, `LockScripts`, `LockExact`, `LockForwards` | whole runs, what spending a time lock takes, exactly which inputs open one, and what stands behind a lock to a script or witness |

Hypotheses appear as `requires` clauses and nowhere else: `IsPrime(P)`, commutativity and associativity of the curve
(`CurveGroup.GroupLaw`), and for `ScalarMult` and `ScalarBaseMult` that N kills the point, for the former also that phi of the point is lambda times it.
Hashes, ECDSA verification and signature hashes are arbitrary functions (`ScriptOps.Env`, `MultiSig.Crypto`).

Where the code differs from its comments, or a promise has a limit, the model follows the code and says exactly where:

- The refund branch of a multisig lock is open from the period on, not only after it (`RefundAtPeriod`; exactly which inputs open a lock: `LockAccepted`).
- Word 2 of a product can exceed 26 bits (`WideProduct`; exactly when: `Product`); `Magnitude` carries the bound that holds.
- The first byte 5 of a public key is read like 4, and a compressed abscissa may be P or more (`FirstByteFive`, `LargeAbscissa`; exactly when: `PubKey.Accepted`).
- The period -1 of a hash time lock is read back as 0, and -1 and -2^31 are not recognised (exactly these: `LockTimeRoundTrip`, `HtlcRecognised`).
- A tree over more than 2^31 transactions stops below its root (`TreeHeight`, `TooManyTransactions`).
- A merkle block of more than 78644 hashes is a message that no parser reads (`OverfullMessage`; exactly these: `NewMerkleBlock`).
- One step forward and one back of the merging iterator is not the way back (`TurnBack`; exactly when it is: `Turn`).
- A new store looks corrupt on its next start exactly if its first block does not fit an empty file (`FirstBlock`).

## Model

| member | source | states |
|---|---|---|
| `FieldProduct.Product` | btcec/field.go:633-893 | for words of magnitude up to 8 the result is congruent to the product modulo P, has magnitude one, no 64-bit or 32-bit step wraps, and word 2 exceeds 26 bits exactly if the product spills in the second fold |
| `FieldProduct.Squared` | btcec/field.go:913-1126 | the same for the square, computed with doubled mirrored products |
| `FieldProduct.ColumnsAreProduct` | btcec/field.go:633-813 | the nineteen columns of word products, weighted, are the product of the two values |
| `FieldProduct.Reduce` | btcec/field.go:815-893 | the two folds with 2^260 and 2^256 keep the residue and give words of magnitude one |
| `FieldProduct.WideProduct` | btcec/field.go:860-893 | two elements below P whose product has more than 26 bits in word 2 |
| `FieldNormal.Normalized` | btcec/field.go:260-379 | every value of magnitude up to 63 becomes a congruent one below P with carried words |
| `FieldNormal.AtLeastPrimeExact` | btcec/field.go:313-345 | the masked word test decides exactly whether the value is at least P |
| `FieldNormal.NormalUnique` | btcec/field.go:463-473 | normalised words are equal exactly if the values are congruent |
| `FieldBytes.BytesOfResidue` | btcec/field.go:389-426 | the 32 bytes of normalised words are the big-endian residue |
| `FieldBytes.BytesOfInverts` | btcec/field.go:200-225 | reading those bytes gives the words back |
| `Field.FieldVal.SetBytes` | btcec/field.go:200-225 | the element becomes the big-endian number; it is normalised if that is below P |
| `Field.FieldVal.PutBytes` | btcec/field.go:389-426 | of a normalised element: 32 bytes whose number is the residue |
| `Field.FieldVal.SetInt` | btcec/field.go:189-193 | for every uint the element becomes the integer modulo 2^32; up to 26 bits it is that integer, normalised |
| `Field.FieldVal.Normalize` | btcec/field.go:260-379 | the element is the same residue, in its unique form |
| `Field.FieldVal.NegateVal` | btcec/field.go:480-511 | the negative, of magnitude one more, without wrap |
| `Field.FieldVal.AddInt` | btcec/field.go:528-535 | the sum with the integer modulo 2^32; the words stand for it exactly if the lowest word does not wrap, and up to 26 bits the magnitude grows by at most one |
| `Field.FieldVal.Add2` | btcec/field.go:565-582 | the sum; magnitudes add up and no word wraps |
| `Field.FieldVal.MulInt` | btcec/field.go:591-611 | the multiple; magnitude is multiplied and no word wraps |
| `Field.FieldVal.Mul2` | btcec/field.go:633-893 | the product of two elements, also when they are the receiver |
| `Field.FieldVal.SquareVal` | btcec/field.go:913-1126 | the square of an element, also of the receiver |
| `Field.FieldVal.IsZero` | btcec/field.go:442-449 | decides the zero element on normalised words, and never errs towards zero otherwise |
| `Field.FieldVal.IsOdd` | btcec/field.go:455-458 | decides the parity of the residue of a normalised element |
| `Field.FieldVal.Equals` | btcec/field.go:463-473 | on normalised elements: true exactly for congruent values |
| `FieldPower.Inverse` | btcec/field.go:1133-1235 | the addition chain computes the power P - 2: a factor that gives one, P being prime, and zero for zero |
| `FieldFermat.InversePower` | btcec/field.go:1133-1235 | that power is the inverse modulo P of every number that is no multiple of P |
| `FieldPower.SqrtVal` | btcec/field.go:1248-1335 | the byte-wise ladder computes the power (P + 1) / 4 of a different operand |
| `FieldPower.ExponentByte` | btcec/field.go:1281-1332 | one exponent byte takes the power from q to 256 q plus the byte |
| `PubKey.PowerIsRoot` | btcec/pubkey.go:28-60 | for every square the power (P + 1) / 4 is a root, P being prime |
| `PubKey.OrdinateIsRoot` | btcec/pubkey.go:28-60 | every ordinate at an abscissa is one of the two residues of the computed root |
| `PubKey.OrdinateUnique` | btcec/pubkey.go:41-60 | at most one ordinate has a given parity |
| `PubKey.DecompressPoint` | btcec/pubkey.go:28-60 | finds the ordinate of the asked parity exactly if there is one |
| `PubKey.IsOnCurve` | btcec/btcec.go:117-125 | decides the equation of the curve for coordinates below 2^256 |
| `PubKey.ParsePubKey` | btcec/pubkey.go:80-136 | returns what the bytes denote, and fails exactly if they denote nothing |
| `PubKey.DenotesUnique` | btcec/pubkey.go:80-136 | bytes denote at most one key |
| `PubKey.SerializeDenotes` | btcec/pubkey.go:149-177 | all three serialised forms of a canonical key denote that key |
| `PubKey.CompressedRoundTrip` | btcec/pubkey.go:157-165 | parsing the compressed form of a canonical curve point returns the point |
| `PubKey.Accepted` | btcec/pubkey.go:80-136 | a denoted key is canonical exactly if its abscissa is below P, always so for 65 bytes; the bytes are one of its serialised forms exactly if they do not start with 5 |
| `PubKey.FirstByteFive` | btcec/pubkey.go:80-136 | every canonical key is also read from bytes that start with 5 |
| `PubKey.LargeAbscissa` | btcec/pubkey.go:115-127 | compressed bytes with the abscissa P + 1 are accepted |
| `Jacobian.GenericIsCore` | btcec/btcec.go:343-412 | addGeneric's formulas are the common addition core scaled by z = 2 |
| `Jacobian.MixedIsCore` | btcec/btcec.go:267-337 | so are addZ2EqualsOne's |
| `Jacobian.UnitIsCore` | btcec/btcec.go:132-191 | so are addZ1AndZ2EqualsOne's |
| `Jacobian.SameZIsCore` | btcec/btcec.go:198-259 | addZ1EqualsZ2's formulas are the core itself |
| `Jacobian.CoreChord` | btcec/btcec.go:343-412 | the core of two points is the chord formula, cross-multiplied |
| `Jacobian.TwiceTangent` | btcec/btcec.go:488-581 | both doublings are the tangent formula, cross-multiplied |
| `CurveLaw.ChordOnCurve` | btcec/btcec.go:132-412 | the chord through two points of y^2 = x^3 + 7 ends on the curve |
| `CurveLaw.TangentOnCurve` | btcec/btcec.go:488-581 | so does the tangent |
| `CurveLaw.GenericNonzero` | btcec/btcec.go:343-412 | addGeneric's z, which is not normalised, is no multiple of P |
| `CurveLaw.AddDenotes` | btcec/btcec.go:416-456 | whichever routine is selected, the result stands for the sum of the two points, infinity and doubling included |
| `CurveLaw.DoubleDenotes` | btcec/btcec.go:585-606 | doubling stands for the sum of the point with itself |
| `Curve.DoubleZ1EqualsOne` | btcec/btcec.go:488-532 | the outputs are exactly the doubling formulas, also over the inputs, and magnitudes stay legal |
| `Curve.DoubleGeneric` | btcec/btcec.go:538-581 | the same for any z |
| `Curve.DoubleJacobian` | btcec/btcec.go:585-606 | the outputs are DoubleJ of the inputs as they were |
| `Curve.AddZ1AndZ2EqualsOne` | btcec/btcec.go:132-191 | sum, doubling or infinity by the comparison of coordinates, also when the outputs are the first point |
| `Curve.AddZ1EqualsZ2` | btcec/btcec.go:198-259 | the same for equal z; the second point keeps its value |
| `Curve.AddSameZ` | btcec/btcec.go:416-456 | the same when both points are given with one z object |
| `Curve.AddZ2EqualsOne` | btcec/btcec.go:267-337 | the same for z2 = 1 |
| `Curve.AddGeneric` | btcec/btcec.go:343-412 | the same for any z |
| `Curve.AddFinite` | btcec/btcec.go:432-456 | the four routines are selected only under their z-conditions, and all give AddJ |
| `Curve.AddJacobian` | btcec/btcec.go:416-456 | the outputs are AddJ of the inputs as they were and stand for the sum of the two points, infinity, doubling and a shared z included; the second point keeps its value |
| `CurveGroup.Sum` | btcec/btcec.go:460-481 | the group operation on canonical points, from the chord and tangent law |
| `CurveGroup.Identity` | btcec/btcec.go:460-470 | infinity is neutral |
| `CurveGroup.Inverse` | btcec/btcec.go:788-799 | a point and the point with the negated ordinate add up to infinity |
| `CurveGroup.TimesAdd` | btcec/btcec.go:765-865 | multiples of a point add up |
| `CurveGroup.TimesMod` | btcec/btcec.go:672-683 | a point killed by n sees multipliers only modulo n |
| `Naf.RecodeByte` | btcec/btcec.go:707-754 | one byte's plus and minus digits and the carry have the value of the byte and the carry before; no two digits are adjacent |
| `Naf.NAF` | btcec/btcec.go:692-760 | the two byte strings differ by exactly the input and form a non-adjacent form of at most one byte more |
| `Endomorphism.EndomorphismVectors` | btcec/gensecp256k1.go:111-205 | both vectors satisfy a + b lambda = 0 modulo n by the Euclid invariant; after the break they span the lattice if nSqrt is at most lambda |
| `Endomorphism.StoredVectors` | btcec/btcec.go:957-962 | the stored constants are in the lattice and have determinant N |
| `Endomorphism.Split` | btcec/btcec.go:634-667 | for every k the two halves recombine to k modulo N and are below a2 in absolute value |
| `Endomorphism.SplitK` | btcec/btcec.go:634-667 | signs and absolute values as bytes recombine to k modulo N, each below a2 |
| `Endomorphism.ModuloReduce` | btcec/btcec.go:672-683 | keeps the residue modulo N; at most 32 bytes, short strings unchanged |
| `ScalarMult.AddDigit` | btcec/btcec.go:841-855 | adding the point, its negative or nothing adds the digit's multiple |
| `ScalarMult.Accumulate` | btcec/btcec.go:837-860 | one turn of the inner loop doubles and adds one digit of both halves |
| `ScalarMult.AccumulateByte` | btcec/btcec.go:837-860 | eight turns shift out exactly the digits of one byte of both halves |
| `ScalarMult.AccumulateAll` | btcec/btcec.go:801-861 | the loop over the padded halves accumulates both multiples |
| `ScalarMult.Prepare` | btcec/btcec.go:777-799 | the negated ordinate and the swap give the operand for a signed half |
| `ScalarMult.ImagePoint` | btcec/btcec.go:781-786 | the abscissa times beta, the ordinate unchanged |
| `ScalarMult.OddOrder` | btcec/btcec.go:765-865 | a point killed by N has a nonzero ordinate |
| `ScalarMult.Collect` | btcec/btcec.go:769-777 | the split multiplier acts on the point like the multiplier |
| `ScalarMult.AffineOf` | btcec/btcec.go:91-112 | dividing by powers of z with the power P - 2 recovers the affine coordinates, (0, 0) for infinity |
| `ScalarMult.FieldJacobianToBigAffine` | btcec/btcec.go:91-112 | the returned integers are the affine coordinates |
| `ScalarMult.BigAffineToField` | btcec/btcec.go:81-87 | canonical coordinates become field elements of that value |
| `ScalarMult.Add` | btcec/btcec.go:460-481 | the coordinates of the sum of any two curve points or (0, 0), equal and opposite points included |
| `ScalarMult.Double` | btcec/btcec.go:609-624 | the coordinates of the sum of the point with itself, (0, 0) for (0, 0) |
| `ScalarMult.ScalarMult` | btcec/btcec.go:765-865 | for every byte string k the result is k times the point |
| `BaseMult.ScalarBaseMult` | btcec/btcec.go:870-887 | with a table of byte points, for every byte string k the result is k times the base point |
| `BaseMult.BytePoints` | btcec/gensecp256k1.go:45-81 | the generated table holds, in row i, the multiples of the base point by every value of byte i |
| `BaseMult.GetDoublingPoints` | btcec/gensecp256k1.go:28-40 | point i is 2^i times the base point |
| `Signature.CanonicalInt` | btcec/signature.go:230-241 | never empty and never with a set first bit |
| `Signature.CanonicalIntValue` | btcec/signature.go:230-241 | denotes the number |
| `Signature.CanonicalUnique` | btcec/signature.go:247-256 | a canonical string is the encoding of its number |
| `Signature.Serialize` | btcec/signature.go:49-74 | the framed canonical integers of R and the smaller of S and N - S by absolute value; a DER sequence for R and S in [1, N-1] |
| `Signature.ParseSig` | btcec/signature.go:95-208 | accepts exactly sequences of two integers in range, canonical if asked, and returns their values |
| `Signature.StrictExactly` | txscript/engine.go:616-810 | the strict check accepts exactly the DER sequences of two canonical integers of at most 72 bytes, with low S if asked |
| `Signature.SerializeParse` | btcec/signature.go:49-222 | for R, S in [1, N-1] the serialised bytes pass the strict check and parse to R and min(S, N - S) |
| `Signature.ParseSerialize` | btcec/signature.go:49-222 | bytes accepted by the strict low-S check and the parser are reproduced exactly |
| `DbCache.Snapshot.Has` | database/ffldb/dbcache.go:282-294 | true exactly for keys of the snapshot's view |
| `DbCache.Snapshot.Get` | database/ffldb/dbcache.go:298-313 | the value in the snapshot's view |
| `DbCache.Transaction.HasKey` | database/ffldb/db.go:1052-1066 | true exactly for keys the transaction sees |
| `DbCache.Transaction.PutKey` | database/ffldb/db.go:1073-1083 | the transaction's view gets the entry; pending puts and removals stay disjoint |
| `DbCache.Transaction.FetchKey` | database/ffldb/db.go:1088-1102 | the value the transaction sees |
| `DbCache.Transaction.DeleteKey` | database/ffldb/db.go:1110-1122 | the transaction's view loses the key |
| `DbCache.ApplyTwice` | database/ffldb/dbcache.go:577-609 | merging a transaction into the cache is applying it after the cache |
| `DbCache.Cache.TakeSnapshot` | database/ffldb/dbcache.go:386-404 | the snapshot's view is the cache's view at that moment, and is a value |
| `DbCache.Cache.CommitTreaps` | database/ffldb/dbcache.go:440-469 | leveldb gets all puts and deletes or none, and fails only on a faulty device |
| `DbCache.Cache.Flush` | database/ffldb/dbcache.go:476-512 | the view never changes; on success leveldb holds all of it, on failure nothing changes |
| `DbCache.Cache.Merge` | database/ffldb/dbcache.go:577-609 | the cache with the transaction's puts and removals on top |
| `DbCache.Cache.CommitTx` | database/ffldb/dbcache.go:557-611 | in both paths the view becomes (view plus puts) minus removals or stays; leveldb holds the old, the flushed or the new view |
| `CacheIterator.MergedIterator.SkipPendingUpdates` | database/ffldb/dbcache.go:84-103 | the loop ends off the hidden keys and loses no visible key of the run |
| `CacheIterator.MergedIterator.ChoiceIsNext` | database/ffldb/dbcache.go:111-143 | the chosen iterator stands on the next of all pending keys |
| `CacheIterator.MergedIterator.ChooseIterator` | database/ffldb/dbcache.go:111-143 | chooses it, keeping what is pending |
| `CacheIterator.MergedIterator.First` | database/ffldb/dbcache.go:149-155 | all visible keys are pending, forwards |
| `CacheIterator.MergedIterator.Last` | database/ffldb/dbcache.go:161-167 | all visible keys are pending, backwards |
| `CacheIterator.MergedIterator.Next` | database/ffldb/dbcache.go:173-183 | in a forward run exactly the current key is done |
| `CacheIterator.MergedIterator.Prev` | database/ffldb/dbcache.go:189-199 | in a backward run exactly the current key is done |
| `CacheIterator.MergedIterator.Seek` | database/ffldb/dbcache.go:205-211 | exactly the visible keys from k on are pending |
| `CacheIterator.MergedIterator.Walk` | database/ffldb/dbcache.go:149-199 | a run to the end visits exactly the pending keys, strictly in order |
| `CacheIterator.MergedIterator.WalkVisible` | database/ffldb/dbcache.go:149-199 | First and Next, or Last and Prev, visit exactly the visible keys, strictly in order |
| `CacheIterator.MergedIterator.WalkFrom` | database/ffldb/dbcache.go:173-211 | Seek and Next visit exactly the visible keys from k on |
| `CacheIterator.NewIterator` | database/ffldb/dbcache.go:329-335 | the visible keys are those of the snapshot's view in range |
| `CacheIterator.TurnBack` | database/ffldb/dbcache.go:173-199 | a run that turns round can go wrong: from 1 to 2 and back to 3 |
| `CacheIterator.MergedIterator.Turn` | database/ffldb/dbcache.go:173-199 | turning round after a run finds the visible key just behind, or that there is none, exactly if the other iterator has run out and that key is not one of its |
| `CacheIterator.NextCovers` | database/ffldb/dbcache.go:111-143 | what comes next in one set comes next in the union exactly if nothing of the other set comes before it |
| `BlockRows.BlockLocRoundTrip` | database/ffldb/blockio.go:190-216 | a serialised location reads back |
| `BlockRows.WriteRowRoundTrip` | database/ffldb/reconcile.go:23-49 | a serialised cursor row reads back |
| `BlockRows.WriteRowUnique` | database/ffldb/reconcile.go:34-49 | a row of twelve bytes that is accepted is the row of the position read from it |
| `BlockStore.ScanBlockFiles` | database/ffldb/blockio.go:724-741 | the last file of the initial run of files, and its size modulo 2^32 |
| `BlockStore.Store.constructor` | database/ffldb/blockio.go:745-773 | the cursor is the end of the last file found |
| `BlockStore.Store.OpenWriteFile` | database/ffldb/blockio.go:230-242 | an existing file is kept, a missing one created empty |
| `BlockStore.Store.WriteData` | database/ffldb/blockio.go:380-392 | writes at the cursor a prefix of the data, all of it on success; every torn state is logged |
| `BlockStore.Store.Advance` | database/ffldb/blockio.go:412-461 | the next file is taken exactly when the record does not fit or the offset would wrap |
| `BlockStore.Store.WriteRecord` | database/ffldb/blockio.go:463-496 | network, length, block and checksum are written one after the other |
| `BlockStore.Store.WriteBlock` | database/ffldb/blockio.go:406-497 | on success the record stands at the old cursor or at the start of the next file and the cursor behind it; at no moment anything before the old cursor is touched; fails only on a faulty device |
| `BlockStore.Store.DeleteNewer` | database/ffldb/blockio.go:670-687 | deletes exactly the newer files, the last first, and never touches what is before p |
| `BlockStore.Store.HandleRollback` | database/ffldb/blockio.go:647-717 | whatever fails, the cursor returns and nothing before it is touched; without faults the disk is cut back to it exactly |
| `BlockStore.Store.ReadBlock` | database/ffldb/blockio.go:512-558 | returns the block of a held record, and nothing whose checksum or network is wrong |
| `BlockStore.Store.ReadBlockRegion` | database/ffldb/blockio.go:568-592 | returns the asked part of a held block |
| `BlockFiles.LogExtend` | database/ffldb/blockio.go:406-497 | two stretches of writes keep, at every moment, what was before the first cursor |
| `BlockFiles.RecordDone` | database/ffldb/blockio.go:463-496 | the record written at an offset is held there and the disk reaches its end |
| `Ffldb.RecordedKept` | database/ffldb/db.go:1643-1692 | what keeps the files below the cursor keeps every recorded block |
| `Ffldb.RecordedApply` | database/ffldb/db.go:1643-1692 | committing rows and cursor records the new blocks beside the old |
| `Ffldb.ScanReaches` | database/ffldb/reconcile.go:79-96 | a scan is never behind a cursor the files reach |
| `Ffldb.GapStopsScan` | database/ffldb/reconcile.go:98-115 | a scan is behind any position after a missing file |
| `Ffldb.Database.StoreBlocks` | database/ffldb/db.go:1171-1212 | exactly the blocks neither stored nor pending are taken, once each |
| `Ffldb.Database.WriteBlocks` | database/ffldb/db.go:1643-1680 | the rows index all written blocks; a failure rolls the cursor back |
| `Ffldb.Database.CommitRows` | database/ffldb/db.go:1682-1692 | the rows become visible together or not at all; every durable state in between is safe |
| `Ffldb.Database.Commit` | database/ffldb/db.go:1643-1692 | blocks and rows become visible together or not at all; what was durable stays so at every moment |
| `Ffldb.Database.FlushCache` | database/ffldb/dbcache.go:476-512 | visible blocks do not change and become durable |
| `Ffldb.Database.FetchBlock` | database/ffldb/db.go:1330-1357 | every visible block reads back exactly, others are not found |
| `Ffldb.Database.Reopened` | database/ffldb/reconcile.go:53-118 | a repaired database records what was durable, and so did every state of the repair |
| `Ffldb.Repair` | database/ffldb/reconcile.go:79-115 | the scanned cursor is rolled back to the recorded one, or found behind it |
| `Ffldb.Reconcile` | database/ffldb/reconcile.go:53-118 | on any recorded state no corruption branch is taken, the cursor is the durable one and the blocks are those recorded; each error has its exact cause |
| `Ffldb.InitialRecorded` | database/ffldb/db.go:1983-2008 | what initDB writes records an empty store |
| `Ffldb.Create` | database/ffldb/db.go:1983-2054 | a new database is valid and empty |
| `Ffldb.Act` | database/ffldb/reconcile.go:53-118 | one transaction, flush or crash: what it makes visible and durable, what a restart finds, and that blocks durable before stay so at every moment |
| `Ffldb.Run` | database/ffldb/reconcile.go:53-118 | in every run of transactions, flushes and crashes at any write or delete, also during repair, no restart is corrupt and no durable block is lost |
| `Ffldb.FirstBlock` | database/ffldb/blockio.go:413-444 | a new store restarted after its first block is taken for corrupt exactly if that block does not fit a file, and otherwise holds exactly that block |
| `MerkleTree.WidthFormula` | jaxutil/bloom/merkleblock.go:27-29 | the halved width is n / 2^h rounded up |
| `MerkleTree.LevelIsCalcHash` | jaxutil/bloom/merkleblock.go:33-46 | the recursive hash is the node of the level-by-level tree |
| `MerkleTree.RootIsCalcHash` | jaxutil/bloom/merkleblock.go:33-46 | at the top it is the Merkle root with duplicated last nodes |
| `MerkleBlock.WidthExact` | jaxutil/bloom/merkleblock.go:27-29 | up to 2^31 leaves the 32-bit width is exact |
| `MerkleBlock.TreeHeight` | jaxutil/bloom/merkleblock.go:104-108 | the loop ends, with the least height of a single node exactly if there are at most 2^31 transactions |
| `MerkleBlock.TooManyTransactions` | jaxutil/bloom/merkleblock.go:104-108 | 2^31 + 1 transactions stop at a height with two nodes |
| `MerkleBlock.ParseInverts` | jaxutil/bloom/merkleblock.go:52-79 | parsing what is built for a node consumes exactly that, finds exactly the matched leaves under it and its hash |
| `MerkleBlock.ParseStarved` | jaxutil/bloom/merkleblock.go:52-79 | a parser given the bits but only a proper prefix of the hashes finds nothing |
| `MerkleBlock.Builder.FindMatch` | jaxutil/bloom/merkleblock.go:53-57 | whether a leaf under the node is matched, in 32-bit arithmetic |
| `MerkleBlock.Builder.TraverseAndBuild` | jaxutil/bloom/merkleblock.go:52-79 | appends exactly the specified bits and hashes of the node |
| `MerkleBlock.PackFlags` | jaxutil/bloom/merkleblock.go:118-127 | the bytes hold the bits, least significant first, then zeros |
| `MerkleBlock.BitCount` | jaxutil/bloom/merkleblock.go:52-79 | fewer than 2^(h+1) bits for a node of height h |
| `MerkleBlock.HashCount` | jaxutil/bloom/merkleblock.go:52-79 | no more hashes than leaves |
| `MerkleBlock.AllHashes` | jaxutil/bloom/merkleblock.go:52-79 | with every transaction matched there are exactly as many hashes as transactions |
| `MerkleBlock.AddHashes` | types/wire/msg_merkleblock.go:33-42 | hashes beyond the limit are left out |
| `MerkleBlock.MatchedIndices` | jaxutil/bloom/merkleblock.go:92-102 | exactly the matched indices, ascending |
| `MerkleBlock.NewMerkleBlock` | jaxutil/bloom/merkleblock.go:84-129 | if at most 78644 hashes are built, a parser recovers from the message exactly the matched indices and the Merkle root, using all hashes and all bits but the padding; if more are built, no parser reads the message |
| `MerkleBlock.OverfullMessage` | types/wire/msg_merkleblock.go:33-42 | 78645 matched transactions give a message that no parser reads |
| `ScriptNum.MinimalUnique` | txscript/scriptnum.go:51-76 | two minimal byte strings of one number are equal |
| `ScriptNum.Encode` | txscript/scriptnum.go:94-134 | minimal bytes of the number, at most eight; none exactly for -2^63, whose negation overflows |
| `ScriptNum.EncodeNumCorrect` | txscript/scriptnum.go:94-134 | the encoding as a function is minimal and denotes the number, for every integer |
| `ScriptNum.MakeScriptNum` | txscript/scriptnum.go:187-227 | too long, not minimal, or the number the bytes denote |
| `ScriptNum.Reencode` | txscript/scriptnum.go:94-227 | decoding and encoding a minimal string of at most eight bytes returns it |
| `Script.ParseScript` | txscript/script.go:209-291 | the opcodes up to the end or the first push that is cut short |
| `Script.UnparseScript` | txscript/script.go:301-311 | the bytes of the opcodes, or an error for inconsistent data |
| `Script.UnparseParse` | txscript/script.go:209-311 | every script that parses is reproduced |
| `Script.ParseUnparse` | txscript/opcode.go:795-847 | every list of consistent opcodes is recovered from its bytes |
| `Script.RemoveOpcode` | txscript/script.go:336-344 | the other opcodes in order |
| `Script.RemovedContents` | txscript/script.go:336-344 | every opcode with another value remains as often as it was, the others not at all |
| `Script.RemovedOrder` | txscript/script.go:336-344 | what remains stands at increasing positions of the script |
| `Script.RemoveRoundTrip` | txscript/script.go:336-344 | after the removal, printing and parsing again gives the remaining opcodes |
| `ScriptBuilder.PushPopPushes` | txscript/scriptbuilder.go:101-172 | the canonical push has the computed size and pushes the data, except that a single zero byte becomes the empty string |
| `ScriptBuilder.Builder.AddOp` | txscript/scriptbuilder.go:59-75 | appends the opcode or fails at the size limit; a failure is final |
| `ScriptBuilder.Builder.AddFullData` | txscript/scriptbuilder.go:181-187 | appends the canonical push |
| `ScriptBuilder.Builder.AddData` | txscript/scriptbuilder.go:196-224 | appends the canonical push exactly if script and data fit |
| `ScriptBuilder.Builder.AddInt64` | txscript/scriptbuilder.go:229-255 | appends the push of the number exactly if it fits |
| `ScriptBuilder.NumberPopPushes` | txscript/scriptbuilder.go:229-255 | parsed and executed, that push leaves minimal bytes that denote the number, and passes the minimal push check |
| `ScriptStack.AsBool` | txscript/stack.go:14-25 | false exactly for zero and negative zero |
| `ScriptStack.AsBoolIsNonzero` | txscript/stack.go:14-25 | an item is true exactly if the number it stands for is not zero |
| `ScriptStack.BoolRoundTrip` | txscript/stack.go:14-33 | a pushed boolean reads back |
| `ScriptStack.Stack.Nip` | txscript/stack.go:147-168 | returns and removes the item at the depth, keeping the others in order |
| `ScriptStack.Stack.PopByteArray` | txscript/stack.go:75-77 | returns and removes the top |
| `ScriptStack.Stack.DropN` | txscript/stack.go:206-219 | the stack without its top n items |
| `ScriptStack.Stack.DupN` | txscript/stack.go:226-242 | the top n items once more on top |
| `ScriptStack.Stack.RotN` | txscript/stack.go:249-267 | the lowest of three groups of n comes to the top |
| `ScriptStack.Stack.SwapN` | txscript/stack.go:274-291 | two groups of n are exchanged |
| `ScriptStack.Stack.OverN` | txscript/stack.go:298-316 | the second group of n once more on top |
| `ScriptStack.Stack.Tuck` | txscript/stack.go:185-199 | the top once more below the second item |
| `ScriptStack.RotThrice` | txscript/stack.go:249-267 | rotating three times restores the stack |
| `ScriptStack.SwapTwice` | txscript/stack.go:274-291 | swapping twice restores the stack |
| `MultiSig.SigCache.Exists` | txscript/sigcache.go:59-65 | a hit is a verified signature |
| `MultiSig.SigCache.Add` | txscript/sigcache.go:74-100 | the entry is there, at most one other is evicted and only when the cache is full, and the size stays within the limit |
| `MultiSig.CachedVerify` | txscript/opcode.go:2146-2158 | with any valid cache the answer is that of verification |
| `MultiSig.GreedyMatches` | txscript/opcode.go:2299-2415 | success yields an order-preserving matching of all signatures |
| `MultiSig.MatchingFound` | txscript/opcode.go:2299-2415 | if there is a matching, the greedy scan finds one unless an encoding error comes first |
| `MultiSig.GreedyExact` | txscript/opcode.go:2299-2415 | without an error the answer is true exactly if there is a matching |
| `MultiSig.MatchLoop` | txscript/opcode.go:2299-2415 | the countdown loop with parsed signatures and a cache computes the greedy answer |
| `MultiSigOp.PopArguments` | txscript/opcode.go:2210-2277 | pops keys, signatures and the extra item, with the tests of the counts and of the operation limit |
| `MultiSigOp.OpcodeCheckMultiSig` | txscript/opcode.go:2210-2428 | with any valid cache, step by step, the specified outcome |
| `MultiSigOp.MultiSigExact` | txscript/opcode.go:2210-2428 | without error the pushed boolean is true exactly if an increasing map takes every signature to a key that verifies it |
| `MultiSigOp.OpcodeCheckSig` | txscript/opcode.go:2058-2167 | with any valid cache, the specified outcome |
| `OpcodeHandlers.StackOpcode` | txscript/opcode.go:1317-1464 | on the stack object, OP_2DROP to OP_TUCK do what the opcode function says and fail where it fails |
| `OpcodeHandlers.CompareOpcode` | txscript/opcode.go:1470-1511 | so do OP_SIZE, OP_EQUAL and OP_EQUALVERIFY |
| `OpcodeHandlers.ArithmeticOpcode` | txscript/opcode.go:1517-1957 | so do the number opcodes, disabled ones included |
| `OpcodeHandlers.ResultFits` | txscript/scriptnum.go:20-46 | every number opcode leaves a number below 2^32 in absolute value, and only additions, subtractions and steps by one leave one that is no operand |
| `OpcodeHandlers.ResultReadBack` | txscript/scriptnum.go:20-46 | such a result has at most five bytes, reads back exactly if it is in the range of operands, and passes OP_VERIFY exactly if it is not zero |
| `OpcodeHandlers.Overflows` | txscript/scriptnum.go:20-46 | the next number opcode fails on a result exactly if it has overflowed |
| `Conditionals.TopTells` | txscript/engine.go:153-158 | on a proper conditional stack the top alone tells whether all enclosing conditionals are taken |
| `Conditionals.OpcodeKeepsProper` | txscript/opcode.go:991-1083 | every opcode keeps the conditional stack proper |
| `Conditionals.RunKeepsProper` | txscript/engine.go:153-158 | so does every run of opcodes |
| `Conditionals.SkippedLeavesStacks` | txscript/engine.go:163-208 | an opcode outside a taken branch changes neither data stack |
| `Conditionals.BlockAgrees` | txscript/opcode.go:991-1083 | running the opcodes of a nested block one by one is evaluating it recursively, errors included |
| `Conditionals.ScriptAgrees` | txscript/opcode.go:991-1083 | so for a whole balanced script |
| `Conditionals.BalancedIsBlock` | txscript/opcode.go:991-1083 | a script is a nested block exactly if its conditionals are balanced by counting |
| `Conditionals.FinishedIsBalanced` | txscript/engine.go:472-477 | only balanced scripts run to the end with no open conditional |
| `StackBounds.OpcodeBounded` | txscript/engine.go:163-208 | every opcode keeps items at most 520 bytes and operations at most 201 |
| `ScriptVm.PushStep` | txscript/engine.go:163-208 | in a push-only script every step leaves one more item |
| `ScriptVm.DoomedStep` | txscript/engine.go:486-508 | a pay-to-script-hash script on an empty stack never reaches its end |
| `ScriptVm.OpcodeKeeps` | txscript/engine.go:445-469 | one opcode keeps bounds and the conditional stack and leaves at most 1000 items |
| `ScriptVm.NextScriptKeeps` | txscript/engine.go:485-519 | the next script, redeem script or witness script starts in a bounded state, never indexing an empty saved stack |
| `ScriptVm.StepKeeps` | txscript/engine.go:445-531 | every step keeps the invariant, never indexes out of range, makes progress, and exceeds 1000 items only by loading a witness |
| `ScriptVm.BranchTest` | txscript/engine.go:153-158 | in every state of a run the top-only test is right |
| `ScriptEngine.InitialKeeps` | txscript/engine.go:860-1008 | every accepted input starts in a state with the invariant |
| `ScriptEngine.NewEngine` | txscript/engine.go:860-1008 | an engine exactly for accepted inputs, in the initial state |
| `ScriptEngine.Engine.AdmitOpcode` | txscript/engine.go:163-191 | disabled and illegal opcodes, the operation count and the data size |
| `ScriptEngine.Engine.ExecuteOpcode` | txscript/engine.go:163-208 | the fields change as the function says, or there is an error |
| `ScriptEngine.Engine.VerifyWitnessProgram` | txscript/engine.go:257-362 | loads the witness and its script exactly in the accepted cases |
| `ScriptEngine.Engine.CheckErrorCondition` | txscript/engine.go:394-437 | success exactly if a true item is left, alone where a clean stack is asked |
| `ScriptEngine.Engine.NextScript` | txscript/engine.go:485-519 | the move to the next script, with the appended scripts |
| `ScriptEngine.Engine.FinishScript` | txscript/engine.go:471-529 | the end of a script: no open conditional, reset, next script, empty scripts skipped |
| `ScriptEngine.Engine.Step` | txscript/engine.go:445-531 | refines the step function |
| `ScriptEngine.Engine.Execute` | txscript/engine.go:535-566 | terminates for every accepted engine and succeeds exactly if the run does |
| `ScriptRuns.SecondScript` | txscript/engine.go:445-531 | a successful run reaches the locking script outside conditionals, on the stack left by the signature script |
| `ScriptRuns.SecondFlat` | txscript/engine.go:445-566 | it takes that script to its end outside conditionals, and leaves a true item unless a witness follows |
| `ScriptRuns.AcceptedRun` | txscript/engine.go:535-566 | so does every accepted input, on the stack its signature script leaves |
| `ScriptRuns.FirstExact` | txscript/engine.go:445-531 | a run through the signature script is its opcodes one by one, then the locking script on what they leave |
| `ScriptRuns.SecondExact` | txscript/engine.go:394-566 | a run through a last locking script succeeds exactly if its opcodes end outside conditionals with a true item, alone where a clean stack is asked |
| `ScriptRuns.AcceptsExactly` | txscript/engine.go:394-566 | an input whose locking script nothing follows is accepted exactly if NewEngine admits it, its signature script runs to the end, and the locking script ends well on what that leaves |
| `ScriptRuns.WitnessLoaded` | txscript/engine.go:485-519 | a successful run with a witness program loads the witness after the locking script and goes on from there |
| `TimeLocks.LockTest` | txscript/opcode.go:1781-1823 | the comparison with the input age leaves the stack as it was and opens the branch exactly if it holds |
| `TimeLocks.LockHolds` | txscript/lock_script.go:22-61 | up to the period nothing runs through a lock with OP_RETURN in its other branch |
| `TimeLocks.LockedRun` | txscript/multisig.go:57-95 | a successful run through a multisig lock took one branch or the other with its signatures |
| `LockScripts.HTLCScript` | txscript/lock_script.go:22-61 | the bytes of the lock's opcodes for every supported address, an error exactly for others |
| `LockScripts.MultiSigLockScript` | txscript/multisig.go:57-95 | the bytes of the lock's opcodes, an error exactly for too many required signatures or too long a script |
| `LockScripts.HtlcLocked` | txscript/lock_script.go:22-61 | no signature script, witness or flag set spends a hash time lock at an age up to its period |
| `LockScripts.HtlcSpent` | txscript/lock_script.go:22-61 | spending one took an age above the period and, for a key or key hash, a valid signature of that key |
| `LockScripts.MultiSigLockSpent` | txscript/multisig.go:57-95 | spending a multisig lock took the required matched signatures below the period and the refund key's signature from it on |
| `LockExact.OpensExactly` | txscript/opcode.go:914-918 | the four opening opcodes of a lock fail exactly if age or period is -2^31 or two more items find no room, and otherwise choose the branch by the comparison |
| `LockExact.ArgumentsExactly` | txscript/opcode.go:2210-2277 | on pushed counts and keys the arguments are found exactly if there are at most 20 keys, the required count is between 0 and theirs, and the stack holds one item more than it |
| `LockExact.MultiSigTail` | txscript/multisig.go:57-95 | the multisig branch ends well exactly if the required signatures are matched, in order, to keys that verify them |
| `LockExact.RefundTail` | txscript/multisig.go:57-95 | the refund branch ends well exactly if the top item is the refund key's valid signature and an item is below it |
| `LockExact.LockAccepted` | txscript/multisig.go:57-95 | an input opens a multisig lock exactly if it is admitted and its signature script leaves a stack with matched signatures below the period, or the refund key's signature from it on |
| `LockExact.RefundAtPeriod` | txscript/multisig.go:35-56 | the input of an item and the refund key's signature opens the lock already at the period itself |
| `LockExact.HtlcAccepted` | txscript/lock_script.go:22-61 | an input opens a lock to a key or key hash exactly if it is admitted, the age is above the period, and its signature script leaves that key's valid signature |
| `LockForwards.ScriptHashSpent` | txscript/lock_script.go:22-61 | spending a lock to a script hash took an age above the period and a signature script that leaves a preimage of the hash on top |
| `LockForwards.WitnessSpent` | txscript/lock_script.go:22-61 | where witnesses are verified, spending a recognised lock to a witness program took an age above the period and the key with its signature, or a script with that hash, in the witness |
| `LockForwards.KeyHashWitness` | txscript/engine.go:257-362 | the script loaded for a key hash ends well only with a key of that hash and its signature under the witness signature hash |
| `LockScripts.ExtractHTLCLockTime` | txscript/lock_script.go:302-323 | the period by opcode or by data, truncated to 32 bits |
| `LockScripts.LockTimeRoundTrip` | txscript/lock_script.go:302-323 | the period is read back from a built script exactly if it is not -1 |
| `LockScripts.HtlcRecognised` | txscript/lock_script.go:87-149 | a built hash time lock is recognised with its class exactly if the period is neither -1 nor -2^31 |
| `LockScripts.MultiSigLockRecognised` | txscript/multisig.go:137-157 | a built multisig lock is recognised exactly for 1 to 16 keys, a required count that is not negative and such a period |

## Left out

- Associativity and commutativity of the curve, primality of P, N times the point and the eigenvalue of phi: hypotheses, as said above.
- ScalarMult.Add: operands are points of the curve with coordinates below P, or (0, 0); the source adds anything it is given. The same holds for ScalarMult.Double.
- `sqrt` of btcec/gensecp256k1.go: may oscillate, so `EndomorphismVectors` takes its result as a parameter.
- `Sqrt` with the receiver as operand: overwrites its operand first; only `SqrtVal` on a different operand is claimed.
- ECDSA signing, verification and recovery, hashes, signature hashes: arbitrary functions here.
- Magnitudes above the documented ones, and point routines whose outputs are coordinates of the second point or whose two points share an x or y object: excluded by `requires`; no caller in the source does either.
- PubKey.SetByteSlice: only slices of at most 32 bytes, since the source would index below its array.
- PubKey.DecompressPoint: only abscissas below 2^256, which is all the parser passes.
- CacheIterator.MergedIterator.Step: says what is pending only for runs in one direction; `TurnBack` and `Turn` say when a change of direction works.
- DbCache.Cache.TakeSnapshot: taken as one step, although the source reads leveldb and the cache one after the other.
- Treaps, cursors and buckets of the database, the flush timer, the LRU list of open files: maps and one open file stand for them.
- BlockStore.Store.WriteBlock: blocks of 4 GiB or more and file numbers that wrap are excluded.
- BlockStore.Store.ReadBlock: locations shorter than the twelve bytes of framing are excluded, since the source slices below them.
- Ffldb.Run: writes persist in the order in which they are made, and leveldb commits are atomic; blocks fit a file.
- Ffldb.Reconcile: cursor rows shorter than twelve bytes are excluded, since the source indexes them.
- The check of BIP 37 parsers against equal hashes of both children, which the builder does not need.
- LockScripts.MultiSigLockScript: takes the keys in the order in which they are pushed; sorting them is the library's.
- LockScripts.ExtractHTLCLockTime: scripts of fewer than two opcodes are excluded, since the source indexes the second.
- Addresses, extraction of addresses, signing of locks, EAD scripts, signature operation counts: easier members or text parsing.
- `ScriptEngine.Engine` stores the results of opcode functions on values (`ScriptOps.Exec`) in its fields. That handlers pop and push in place is modelled for the stack, comparison, number and signature opcodes (`OpcodeHandlers`, `MultiSigOp`), not for hashes, lock times and the alternate stack.
- Error codes and texts of the script machine: any error is a failure.
- Jacobian.GenericIsCore: formulas over the integers only; words, magnitudes and aliasing are in `Curve.AddGeneric`, the meaning in `CurveLaw.AddDenotes`.
- Jacobian.MixedIsCore: formulas only; see `Curve.AddZ2EqualsOne`.
- Jacobian.UnitIsCore: formulas only; see `Curve.AddZ1AndZ2EqualsOne`.
- Jacobian.SameZIsCore: formulas only; see `Curve.AddZ1EqualsZ2`.
- Jacobian.TwiceTangent: formulas only; see `Curve.DoubleGeneric` and `Curve.DoubleZ1EqualsOne`.
- CurveLaw.AddDenotes: the selected formulas on values; that the routines compute them on field elements, whatever they overwrite, is in `Curve.AddJacobian`.
- CurveLaw.DoubleDenotes: the formulas on values; the routine is `Curve.DoubleJacobian`.
- Signature.CanonicalInt: states only the form of the bytes; what they denote is `CanonicalIntValue`, that they are the only ones `CanonicalUnique`.
- ScriptNum.MakeScriptNum: strings of more than eight bytes under a limit that admits them are excluded, since the source would shift beyond its 64 bits; its callers use the limits 4 and 5.
- ScriptBuilder.PushPopPushes: data of 4 GiB or more is excluded, whose length no push opcode holds.
- ScriptBuilder.Builder.AddFullData: excludes such data too; the source would truncate the length.
- ScriptBuilder.Builder.AddInt64: -2^63 is excluded, for which the source indexes an empty slice (`ScriptNum.Encode` returns none).
- BaseMult.ScalarBaseMult: the table is a hypothesis; that the generator makes such a table is `BaseMult.BytePoints`. The compressed text in which it is stored, and its loading, are not part of this model.
- PubKey.IsOnCurve: only coordinates below 2^256, since the source would index below its array otherwise.
- MerkleBlock.NewMerkleBlock: empty blocks, on which the source indexes an empty list, and blocks of more than 2^31 transactions (`TooManyTransactions`) are excluded.
- LockScripts.HtlcSpent: for locks to script hashes and witness programs see `LockForwards.ScriptHashSpent` and `LockForwards.WitnessSpent`.
- LockForwards.WitnessSpent: only what spending took, not which inputs succeed; where witnesses are not verified only the age is stated (`HtlcSpent`).
- LockForwards.ScriptHashSpent: the run of the revealed script itself is that of the engine (`ScriptVm.Step`).
