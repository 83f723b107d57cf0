# BSFS, modelled and proved in Dafny

BSFS is a steganographic file system. Several users, each with a password, share one disk. The disk holds a key
table and 256 cover files; every user's level is hidden as XOR combinations of the covers. Inside a level lie a file
table, an allocation bitmap and clusters of 2048 bytes that are chained into files.

The modules follow the source files:

- `BitUtil`, `Gf2`, `Matrix`, `MatrixGen`, `GenBijection`, `Vector`: bits and big-endian numbers in buffers, linear algebra over GF(2),
  and the packed in-place algorithms of `src/matrix.c` and `src/vector.c`, proved against it. The generator of keys
  reaches every nonsingular matrix by exactly one choice of the random bits it uses.
- `Stego`, `Levels`, `StegoOps`, `StegoKeys`: `src/stego.c`. `Levels.IndependentLevels` is the goal: whatever all users
  write, the shared disk behaves like one private array for each of them. `StegoKeys` shows that generated keys have
  the property this needs.
- `Cluster`, `Bft`: layout, bitmap, links and the serialised table. `Cluster.LevelIsUnitStore` connects the levels to
  what follows: table, bitmap and clusters are units of their own. `Volume` carries this on to cluster accesses: the
  disk holds one store of clusters for each user, and no user's accesses touch another store. Cluster offsets wrap at
  32 bits as in the code, so both hold for levels of every size, with the clusters that share bytes made explicit.
- `Files`, `Directory`, `Bsfs`: `src/bsfs.c`. The class `Bsfs.Level` has the bitmap and the table as arrays that its
  methods change in place. `Valid` says that chains, sizes, bitmap and names agree. Each operation is stated on flat
  byte sequences (`Overwrite`, `Resize`) and on the directory as a map from names to slots, including what every
  failing cluster access leaves behind: `faults` decides which accesses fail and `errors` with what; both are arbitrary.
  `Isolation` puts the levels of all users on one disk: what their contracts say of files is what the disk holds.
- `Oft`: the open file table of `src/oft.c` as linked objects on the heap.
- `Handles`, `Interleaving` with `Links`, `Ownership`, `FileData` and `Lifecycle`: operations of many threads as machines
  of atomic steps, for open files and for clusters; their theorems hold for every run. In the second machine every cluster access is a step
  of its own, all threads share one array of links, and what an operation frees is what it has read there.

Assumptions. The random source is a parameter: any bytes, or a failure; a vector drawn as nonzero is nonzero.
Encryption is any pair of functions that keeps lengths and whose decryption undoes encryption with the same key and
offset on the same range. A failed cluster write has no effect, because every failure in `stego_write_level` comes
before the disk is touched. Bytes are sequences of eight bits.

## Where the code departs from its intent

The proofs follow the code where it departs from what its callers would expect; each point is a theorem below.

- A failed allocation leaves one cluster marked if at least one was free (`AllocClusters`).
- `mknod` reports success after a failed cluster write, and the file then owns an unmarked cluster (`Mknod`,
  `UnmarkedOwner`, `LostClusterIsShared`).
- `unlink` of an open file returns with the metadata lock held (`Unlink`, `LockNeverReleased`): only releases
  run from then on, and nothing else ever leaves it held (`UnlinkLocks`).
- Renaming a file to its own name recreates its entry with cluster 0, size 0 and mode 0 and gives up its clusters. No
  choice of chains explains the level then, unless cluster 0 has leaked, before or in this call, and links to nothing
  (`Rename`, `RecreatedExactly`; with other operations running, `StepKeepsExactly`).
- `ftruncate` frees clusters before it cuts the chain; if the last write fails the file links to free clusters
  (`Ftruncate`, `FreedButLinked`). With other operations running, `StepKeepsExactly` says when that heals by itself.
- Sizes of 2^32 bytes and more are cut when recorded (`Write`, `TruncatedSizeIsWrong`).
- The last cluster of an exactly filled level is refused (`ClusterAccess`).
- The offset of a cluster is a product of 32 bits. From cluster 2097152 on (levels of 4 GiB, disks of 256 GiB) it wraps:
  clusters 2097152 apart are the same bytes, and writing one overwrites the other (`ClustersApart`, `AllApart`,
  `WrappedLevel`, `PutIsUpdate`).
- A level may have room for one more cluster than it is given (`OneMoreFits`, `OneMoreWouldFit`).
- `mknod` takes a lookup that failed at an unreadable table slot for an absent name, and can so make a second entry of a
  name (`DoMknod`, `UnreadableHides`).
- A second releaser can use an object that the first has freed (`UseAfterFree`).
- The repository's written design gives 128 covers, 8 internal levels for each password and table entries of 84 bytes.
  The code has 256, 4 and 92 (`src/stego.h`, `src/bft.h`), and the model follows the code.

## Model

| member | source | states |
|---|---|---|
| `BitUtil.SetBit` | src/bit_util.c:42-45 | sets exactly one bit of the buffer, most significant bit of a byte first; every other bit stays |
| `BitUtil.ReadAfterWrite` | src/bit_util.c:7-27 | reading a big-endian number that was just written gives it back cut to the field width |
| `BitUtil.WriteAfterRead` | src/bit_util.c:7-27 | writing back a number that was read restores the same bytes, so the two are inverse on fields |
| `BitUtil.ReadBE32` | src/bit_util.c:7-16 | the first of the four bytes of a number weighs 2^24, the last one 1 |
| `BitUtil.ByteValue` | src/bit_util.c:33-45 | bit 0 of a byte, as bits are counted in buffers, weighs 128, bit 7 weighs 1 |
| `Gf2.MulAssoc` | src/matrix.c:54-66 | matrix multiplication over GF(2) is associative, in every dimension |
| `Gf2.InvertibleIsNonsingular` | src/matrix.c:176-220 | a matrix with a left inverse sends no nonzero vector to zero |
| `Gf2.AddIsMul` | src/matrix.c:31-40 | adding one row to another is multiplication by an elementary matrix |
| `Gf2.SwapIsMul` | src/matrix.c:160-167 | swapping two rows is multiplication by an elementary matrix |
| `Matrix.MatrixAddRow` | src/matrix.c:31-40 | the packed buffer afterwards holds the matrix with one row added to another |
| `Matrix.MatrixTranspose` | src/matrix.c:42-52 | in another buffer or in the same one, the destination afterwards holds the transpose of the original matrix |
| `Matrix.MatrixMultiply` | src/matrix.c:54-66 | the destination holds the GF(2) product of the two packed matrices |
| `Matrix.MatrixSwapRows` | src/matrix.c:160-167 | the packed buffer afterwards holds the matrix with two rows exchanged |
| `Matrix.FindPivot` | src/matrix.c:169-178 | the first row at or below the column with a one in it, or -1 when there is none |
| `Matrix.KernelVectorWorks` | src/matrix.c:169-196 | when no pivot is left, an explicit nonzero vector is sent to zero |
| `Matrix.MatrixInvert` | src/matrix.c:180-220 | sound and complete: returns success exactly on nonsingular matrices, then with the two-sided inverse, and the error exactly when some nonzero vector is sent to zero |
| `MatrixGen.SkipSelected` | src/matrix.c:86-88 | while unselected rows remain, as the count says they do, the row-skipping loop stops in bounds at the next one, having passed only selected rows |
| `MatrixGen.GenNonsingDim` | src/matrix.c:71-105 | adds the outer product of the scattered column and the row 1,b, and selects exactly the pivot row, staying in bounds |
| `MatrixGen.FactoredIsNonsingular` | src/matrix.c:71-151 | a sum of outer products of permuted unit lower triangular columns and unit upper triangular rows is nonsingular |
| `MatrixGen.MatrixGenNonsing` | src/matrix.c:110-151 | for every dimension and every outcome of the random source the matrix is the sum of the outer products its draws stand for, the bits of each draw handed to the rows not selected before, and nonsingular; or the source's own failure is returned |
| `GenBijection.OneToOne` | src/matrix.c:110-151 | two outcomes of the random source give the same matrix if and only if they agree in every bit the generator uses |
| `GenBijection.EveryNonsingular` | src/matrix.c:110-151 | every nonsingular matrix, of every dimension, is what the generator makes of some outcome of the random source |
| `Vector.VectorScalarProduct` | src/vector.c:19-25 | the byte-wise product with parities is the sum of the bit products over GF(2) |
| `Vector.VectorLinearCombination` | src/vector.c:38-49 | XORs the second vector into the first byte by byte exactly when the coefficient is set; in-place use allowed |
| `Vector.HasNonzeroBit` | src/vector.c:51-58 | true exactly when one of the first dim bits is set, whatever follows them |
| `Stego.CoverAccess` | src/stego.c:70-72 | every access to a cover lies inside the disk and past the key table |
| `Stego.LevelSizeIs` | src/stego.c:23-32 | an internal level is the largest size of which 256 covers fit behind the key table; nothing on a disk smaller than that |
| `Stego.AcceptedExactly` | src/stego.c:146-150 | an access is accepted if and only if it is of whole cipher blocks, from a block boundary on, and ends before the end of the level, four times the size of a cover |
| `Stego.PokeSeen` | src/stego.c:80-101 | what a read key sees of a byte XORed into the covers of a write key is that byte times the scalar product of the keys |
| `Stego.XorSeen` | src/stego.c:80-144 | a delta spread with related write keys shows up exactly in the writer's range, and not at all through unrelated read keys |
| `Stego.XorOutside` | src/stego.c:91-144 | bytes that are in no cover never change |
| `StegoOps.ReadCoverFileDelta` | src/stego.c:80-89 | XORs into the buffer the combination of all covers that the key selects, byte by byte |
| `StegoOps.WriteCoverFileDelta` | src/stego.c:91-101 | XORs the delta into exactly the covers that the key selects, at exactly the range |
| `StegoOps.NextPiece` | src/stego.c:107-126 | pieces follow each other without gap or overlap, each inside one internal level, and stay below the level count |
| `StegoOps.MergedCoverFileOp` | src/stego.c:107-126 | splitting any accepted range at internal level boundaries equals the bytewise operation on the whole range, for reading and for writing |
| `StegoOps.StegoReadLevel` | src/stego.c:159-197 | accepts exactly the block-aligned ranges that end before the end of the level, for every disk size, and returns the specified contents decrypted; else the parameter error and an untouched buffer |
| `StegoOps.StegoWriteLevel` | src/stego.c:199-244 | accepts the same ranges; the disk afterwards is the specified one: the XOR difference to the new ciphertext spread over the covers, or unchanged on a parameter error |
| `StegoKeys.RowProduct` | src/stego.c:41-63 | row a of the first matrix and row b of the transposed inverse have product one if a = b and zero otherwise |
| `StegoKeys.StegoGenUserKeys` | src/stego.c:34-66 | for every count up to the limit and all random outcomes: each user gets the AES key drawn for that user, rows 4u to 4u + 3 of the generated matrix and the same columns of its inverse, so that keys of different users are unrelated and those of one user dual; exact error conditions |
| `StegoKeys.ValidateKeys` | src/stego.c:34-66 | the scalar product of a read key and a write key is one exactly for the same user and the same internal level |
| `Levels.WriteRefines` | src/stego.c:199-244 | one write updates the range of the writer's array to the ciphertext and leaves every other user's array alone; a rejected write changes nothing |
| `Levels.IndependentLevels` | src/stego.c:80-244 | after any run of writes by all users the shared disk refines independent arrays, and the key table and the bytes after the covers are unchanged |
| `Levels.ReadsLastWrite` | src/stego.c:159-244 | after any run, reading a unit gives exactly what its user last wrote to it, as long as no write straddles it |
| `Cluster.LayoutFits` | src/cluster.c:11-26 | table, bitmap and the counted clusters fit into the level, and two more clusters never would |
| `Cluster.CountExactly` | src/cluster.c:11-22 | the cluster count of every level size: 16385 bits for each cluster, after 127 bits for rounding up the bitmap |
| `Cluster.UnitPlaces` | src/cluster.c:33-65 | the table comes first, then the bitmap, then the clusters one after the other |
| `Cluster.OneMoreFits` | src/cluster.c:11-26 | exactly when the count is not the largest possible: one more cluster fits if and only if the bits left over reach what its share of the bitmap needs |
| `Cluster.OneMoreWouldFit` | src/cluster.c:11-26 | for every n, a level that table, bitmap and n + 1 clusters fill to the byte is given n + 1 clusters if n is a multiple of 128 and only n otherwise |
| `Cluster.ClustersApart` | src/cluster.c:33-47 | cluster offsets wrap at 32 bits: two clusters have disjoint bytes if their indices differ modulo 2097152, and are the very same bytes otherwise |
| `Cluster.AllApart` | src/cluster.c:33-47 | all clusters of a level have bytes of their own if and only if there are at most 2097152 |
| `Cluster.WrappedLevel` | src/cluster.c:33-47 | a disk of 274943055376 bytes, whose cluster 2097152 has the offset of cluster 0 and is accepted although the layout fills the level to the last byte |
| `Cluster.UnitsAligned` | src/cluster.c:24-65 | every unit starts and ends on a cipher block, is not empty and lies inside the level |
| `Cluster.ClusterAccess` | src/stego.c:146-150 | a cluster access is refused exactly for the last cluster of a level that the layout fills to the last byte, unless the offset of that cluster has wrapped around |
| `Cluster.ExactlyFilled` | src/cluster.c:11-26 | which level sizes are filled to the last byte |
| `Cluster.LastClusterRefused` | src/stego.c:146-150 | such levels exist: one whose only cluster is refused |
| `Cluster.MetadataAccess` | src/stego.c:146-150 | table and bitmap are always accepted |
| `Cluster.LevelIsUnitStore` | src/cluster.c:33-65 | on the shared disk each user's level is a store of its own: after any run of unit writes by all users a unit reads as that user last wrote to its bytes, for levels of every size |
| `Cluster.UnitsDistinct` | src/cluster.c:33-65 | different units are different bytes if and only if the level has at most 2097152 clusters |
| `Cluster.FsSetNextCluster` | src/cluster.c:49-55 | the link reads back cut to 32 bits and the data bytes of the cluster stay |
| `Cluster.FsAllocCluster` | src/cluster.c:67-78 | marks the lowest free cluster and nothing else; fails only when all are marked |
| `Cluster.FsDeallocCluster` | src/cluster.c:80-87 | clears exactly one mark, or reports an index out of range |
| `Bft.DecodeOfEncode` | src/bft.c:43-89 | an entry that is written and read back has its numbers cut to their fields and is otherwise the same; an empty name makes the slot free |
| `Bft.StorableRoundTrip` | src/bft.c:43-89 | an entry whose fields fit comes back as it was |
| `Bft.UsedIsStorable` | src/bft.c:43-65 | whatever a used slot holds could be written back unchanged |
| `Bft.DecodeOfErased` | src/bft.c:91-120 | an erased slot reads as an entry with empty name and zero fields, not as an error |
| `Bft.SlotReplaced` | src/bft.c:91-120 | replacing the bytes of one slot changes that slot's meaning only, all other slots stay byte-identical |
| `Bft.BftFindFreeTableEntry` | src/bft.c:31-41 | the lowest free slot; fails only when there is none |
| `Bft.BftWriteTableEntry` | src/bft.c:67-112 | exactly one slot takes the entry; the two errors and when they occur |
| `Bft.BftRemoveTableEntry` | src/bft.c:114-120 | exactly one slot becomes free |
| `Bft.BftIterTableEntries` | src/bft.c:122-140 | visits the used slots in order, threading the callback's context, until told to stop or a slot is unreadable |
| `Bft.IterFeeds` | src/bft.c:122-140 | for every callback: it is fed the used slots, each time with the context it left before, until it asks to stop, and an unreadable slot is an error only if the iteration gets there |
| `Bft.UsedFromHas` | src/bft.c:122-140 | the slots visited are exactly the used ones before the first unreadable one |
| `Bft.UsedFromOrder` | src/bft.c:122-140 | they are visited in the order of the table |
| `Bft.ListsAll` | src/bsfs.c:1373-1420 | a caller of readdir that takes every entry gets exactly these slots in order |
| `Bft.IterFinds` | src/bft.c:148-174 | iterating with the find callback finds the first slot of the name |
| `Bft.BftFindTableEntry` | src/bft.c:161-174 | the lookup result, including unreadable slots |
| `Bft.LookupMeans` | src/bft.c:122-174 | in any table: the first slot of that name with no unreadable slot before it; absent exactly when there is neither |
| `Bft.LookupInDirectory` | src/bft.c:161-174 | in a directory the lookup finds the unique slot of the name and fails only when there is none |
| `Files.ExtendCount` | src/bsfs.c:727-743 | for every size and every extension of at least one byte the wrapping subtraction and rounding give exactly the clusters missing from max(1, ceil(size/2044)) |
| `Files.ExtendCountExactly` | src/bsfs.c:727-743 | the count is right if and only if it is not an empty file extended by nothing, where it wraps around |
| `Files.EofOff` | src/bsfs.c:843-859 | the local end offset and the last cluster locate the end of the file, also at size zero and on boundaries |
| `Files.PatchIsOverwrite` | src/bsfs.c:616-657 | bytes patched into the clusters of a chain are an overwrite of the flat contents |
| `Files.OverwriteBytes` | src/bsfs.c:861-932 | a file after a write, byte by byte: the data, zeros in a gap past the old end, the old bytes elsewhere |
| `Files.ResizeBytes` | src/bsfs.c:1057-1112 | a file after truncation, byte by byte: its old bytes, zeros behind them |
| `Files.HookUp` | src/bsfs.c:780-805 | the last write joins the new clusters to the chain, which then carries the old bytes followed by the zeros and the data |
| `Files.CutAt` | src/bsfs.c:1089-1102 | writing the end mark into cluster k-1 gives an acyclic chain of the first k clusters with the same data |
| `Files.ChainsUnique` | src/bsfs.c:433-478 | store and table determine the chains of all files |
| `Files.UnmarkedOwner` | src/bsfs.c:390-406 | a file whose first cluster is unmarked is inconsistent whatever chains and leaked clusters are assumed |
| `Files.TruncatedSizeIsWrong` | src/bft.c:67-89 | a size recorded in 32 bits matches the chain exactly when it is below 2^32 |
| `Files.OverwriteSplit` | src/bsfs.c:877-920 | writing the overlap and appending the rest, zero-filling a gap, is one overwrite |
| `Files.CutThenGrown` | src/bsfs.c:1057-1112 | cutting and then growing a byte sequence gives the prefix followed by zeros |
| `Files.UpdatedReads` | src/bsfs.c:819-841 | after a change the file's recorded size and contents are the new ones and every other file reads as before |
| `Directory.LookupIsDir` | src/bft.c:161-174 | looking a name up in the table is looking it up in the map |
| `Directory.DirCreated` | src/bsfs.c:395-406 | filling a free slot under a new name adds exactly one binding |
| `Directory.DirRemoved` | src/bsfs.c:495-513 | erasing a slot removes exactly the binding of its name |
| `Directory.DirRenamed` | src/bsfs.c:1257-1274 | renaming to an unused name moves exactly one binding |
| `Directory.DirExchanged` | src/bsfs.c:1226-1255 | exchanging the names of two slots swaps exactly two bindings |
| `Directory.FreedButLinked` | src/bsfs.c:1089-1102 | after clusters that files still link to are freed, some choice of chains and leaked clusters explains the level if and only if none were freed |
| `Directory.RecreatedExactly` | src/bsfs.c:1337-1351 | the entry that renaming a file to itself leaves: some choice of chains and leaked clusters explains the level if and only if cluster 0 has leaked and links to nothing |
| `Directory.WrongLength` | src/bsfs.c:819-841 | a file whose chain has another length than its recorded size asks for is explained by no choice |
| `Bsfs.Level.constructor` | src/bsfs.c:26-91 | a level opened on a table and a bitmap that agree with its clusters is in order, with no open files |
| `Bsfs.ZeroLevel` | tests/test_bsfs.c:199-202 | a level whose table and bitmap are all zero, as the tests make one, is in order and has no files |
| `Bsfs.Level.FindCluster` | src/bsfs.c:589-611 | the cluster of the chain that holds the byte, after exactly one read for each cluster skipped; it fails exactly when a read fails, with the error of that read, or when the chain is too short, with an input/output error |
| `Bsfs.Level.DoRwOp` | src/bsfs.c:616-657 | reads or writes exactly the bytes of the chain in the range, whatever the cluster boundaries; it fails exactly when an access fails, with that error, or when the chain ends before the range, with an input/output error, and then a prefix was transferred |
| `Bsfs.Level.AllocClusters` | src/bsfs.c:695-725 | the lowest free clusters one after the other, or an error exactly when fewer are free, and then one cluster stays marked if any was free |
| `Bsfs.Level.Rollback` | src/bsfs.c:717-725 | the failure path frees all but the last cluster taken |
| `Bsfs.Level.WriteNewClusters` | src/bsfs.c:752-778 | after every single write nothing outside the new clusters has changed; at the end they hold the stream and are linked in order |
| `Bsfs.Level.DoWriteExtend` | src/bsfs.c:736-814 | build before link: in every store before the final write all files read as before; success appends zeros and data, failure gives the clusters back |
| `Bsfs.Level.CommitWriteToBft` | src/bsfs.c:819-841 | one entry takes the new size cut to 32 bits and, if asked, loses bits 10 and 11 of its mode; name, first cluster, times, every other mode bit and all other slots stay |
| `Files.KillPrivBits` | src/bsfs.c:829-831 | of every mode exactly the set-user-id and set-group-id bits are dropped |
| `Bsfs.Level.FindEofCluster` | src/bsfs.c:849-859 | the last cluster for that size, the first one for an empty file |
| `Bsfs.Level.Read` | src/bsfs.c:659-693 | returns exactly the slice of the flat contents in range and leaves the rest of the buffer and the level alone |
| `Bsfs.Level.Write` | src/bsfs.c:861-932 | the file is its old contents overwritten at the offset with a gap zero-filled, its entry keeps all but size and set-id bits, and all other files are unchanged; the level stays in order exactly when the size fits 32 bits; exactly when space runs out; what an error leaves behind |
| `Bsfs.Level.GetClusterChain` | src/bsfs.c:433-478 | the rest of a chain in order; fails exactly when one of its reads does |
| `Bsfs.Level.DeallocClusterChain` | src/bsfs.c:480-493 | frees exactly the rest of the chain, or nothing when it cannot be read |
| `Bsfs.Level.CutChain` | src/bsfs.c:1078-1102 | frees the clusters after the new last one, then sets the end mark; which access failing leaves freed clusters linked |
| `Bsfs.Level.Ftruncate` | src/bsfs.c:1057-1112 | cuts or zero-extends the flat contents, keeps all of the entry but size and set-id bits, and frees exactly the clusters after the new last one; exactly when space runs out; in order after an error unless exactly the final write of a cut failed, and then nothing explains the level if clusters were freed |
| `Bsfs.Level.CutAndRegrow` | src/bsfs.c:1057-1112 | two truncations, down and up: the file reads as zeros from where it was cut although no byte was erased, and other files read as before |
| `Bsfs.Level.Fallocate` | src/bsfs.c:1114-1147 | zero-extends up to the end of the range, never cuts, keeps the set-id bits; exactly when space runs out |
| `Bsfs.Level.NewFileCluster` | src/bsfs.c:380-393 | takes the lowest free cluster for a file, and loses its mark when the write fails without reporting it |
| `Bft.EntryAdded` | src/bft.c:107-112 | for every table, names stay distinct as a free slot gets an entry if and only if they were and the new name stands in no slot |
| `Bft.UnreadableHides` | src/bsfs.c:366-376 | a table where the lookup fails at an unreadable slot although the name exists, so that creating it makes a second entry of that name |
| `Bsfs.Level.DoMknod` | src/bsfs.c:347-415 | for every table, readable or not: every error and when it occurs, what is allocated, written and entered; after success names are distinct if and only if they were and no slot had the name |
| `Bsfs.RegularBits` | src/bsfs.c:347-350 | a mode counts as a regular file if and only if bit 15 and none of bits 12 to 14 is set |
| `Bsfs.Level.Mknod` | src/bsfs.c:347-415 | every error and when it occurs; on success one binding is added for an empty file and the level is in order exactly when the cluster write did not fail |
| `Bsfs.Level.DoUnlinkMetadata` | src/bsfs.c:495-513 | refuses an open file; otherwise exactly that slot becomes free |
| `Bsfs.Level.Unlink` | src/bsfs.c:515-534 | exactly when each error is returned; removes one binding and frees or, when the chain cannot be read, leaks exactly its clusters; returns with the lock held exactly when the file is open |
| `Bsfs.Level.DoExchange` | src/bsfs.c:1226-1255 | two entries trade names and nothing else changes |
| `Bsfs.Level.DoRename` | src/bsfs.c:1257-1274 | the entry the slot reads as is written back under the new name |
| `Bsfs.Level.Replace` | src/bsfs.c:1337-1356 | replacing a file moves one binding and gives up the victim's clusters; replacing a file by itself leaves a level that something explains exactly when cluster 0 has leaked and links to nothing |
| `Bsfs.Level.Rename` | src/bsfs.c:1276-1366 | each error with its own condition; a free new name within the length limit gets the binding, exchanging swaps two, replacing moves one and gives up the other file, and other entries keep all metadata; exactly when a level in order remains, for any choice of chains: unless a file replaced itself, or cluster 0 is spare |
| `Oft.PowerOf2Test` | src/oft.c:36-49 | the bit test accepts exactly the powers of two |
| `Oft.MaskIsRemainder` | src/oft.c:51-54 | for a power of two the mask gives the remainder |
| `Oft.AndDigits` | src/oft.c:31-54 | a binary digit of a & b is set exactly if it is set in both |
| `Oft.AllocBuckets` | src/oft.c:36-49 | empty buckets for a power of two, the error otherwise |
| `Oft.AddFile` | src/oft.c:67-72 | inserting a file with a new index adds exactly that file to the table's map |
| `Oft.MoveBucket` | src/oft.c:98-105 | moves the files of one old bucket while rewriting their links, none lost and none twice |
| `Oft.Unlink` | src/oft.c:74-89 | making the previous link, or the bucket, skip the file removes exactly it |
| `Oft.OpenFileTable.OftFind` | src/oft.c:56-65 | the file of the index, or null when there is none |
| `Oft.OpenFileTable.OftRehash` | src/oft.c:91-112 | the same files in the new buckets, for every power of two |
| `Oft.OpenFileTable.OftInsert` | src/oft.c:114-127 | adds one file and doubles the buckets exactly when there would be more files than buckets |
| `Oft.OpenFileTable.OftRemove` | src/oft.c:74-89 | removes exactly that file, or the error when it is not in the table |
| `Oft.OpenFileTable.Get` | src/oft.c:161-189 | one more handle on the object of the index, which is registered first when there is none; other counts unchanged |
| `Oft.OpenFileTable.Has` | src/oft.c:191-197 | true exactly for registered indices |
| `Oft.OpenFileTable.Release` | src/oft.c:200-228 | one handle fewer; the object leaves the table exactly with the last one |
| `Handles.NextKeeps` | src/oft.c:161-228 | every step of every interleaving keeps table, counts, pins and names in order |
| `Handles.HandleSafety` | src/oft.c:161-228 | after every run: counts equal outstanding handles; an object with a handle is the one table object of its slot, not removed and not freed, and the slot holds the file it was opened for |
| `Handles.DirectorySteps` | src/bsfs.c:347-534 | every step does to the relation between names and files what its call is for: creating adds one, removing takes one away, renaming moves, replacing and exchanging as in the call, and everything else leaves it alone |
| `Handles.HandleSteps` | src/oft.c:161-228 | opening gives one more handle on the object of its slot, releasing takes one, nothing else touches handles |
| `Handles.TableSteps` | src/oft.c:161-228 | a slot enters the open file table by being opened and leaves it exactly when a releaser with the lock finds its object there without handles |
| `Handles.OpenSlotsStayPut` | src/bsfs.c:495-548 | in every run no slot with an outstanding handle is removed or given to another file |
| `Handles.NamesStayDistinct` | src/bsfs.c:347-415 | names in use are pairwise distinct after every run of creating, removing, renaming, replacing and exchanging |
| `Handles.UseAfterFree` | src/oft.c:200-228 | the releases under way can end in a use of freed memory exactly when two of them wait for one unused object, or one waits for an object already removed |
| `Handles.TwoReleasers` | src/oft.c:200-211 | a concrete run that gets there: open and close twice before the first recheck |
| `Handles.OneReleaserIsSafe` | src/oft.c:200-228 | if no object ever has two waiting releasers, no run uses freed memory |
| `Handles.LockNeverReleased` | src/bsfs.c:526-529 | after an unlink of an open file only steps of releases ever run again: no opening, reading, writing or change of the directory |
| `Handles.UnlinkLocks` | src/bsfs.c:515-534 | over every run, the metadata lock ends up held for ever if and only if some step unlinks a file that is open then |
| `Links.WalkPath` | src/bsfs.c:433-478 | following the links of a path from its first cluster yields exactly the path |
| `Ownership.Determined` | src/bsfs.c:433-478 | the clusters of every file and operation are determined by links, table and what operations remember |
| `Ownership.StepKeepsExactly` | src/bsfs.c:347-534 | a step keeps links, owners and bitmap in agreement, under some account of who owns what, exactly when it costs no file its clusters: not by an entry for a cluster no longer marked, nor by a failed end mark whose freed clusters are not all leaked again, nor by renaming a file to itself unless cluster 0 has leaked and links to nothing |
| `Ownership.OwnershipSafety` | src/bsfs.c:695-814 | after every interleaved run in which no step costs a file its clusters, what the links and operations say anybody owns is in range and marked, with one owner and one place |
| `Ownership.LinksFollowOwners` | src/bsfs.c:433-478 | after every such run the links from a file's first cluster lead through exactly its own clusters, without repetition, to the end mark; while it is being cut, through those it keeps first |
| `Ownership.NothingLeaks` | src/bsfs.c:695-725 | without failed allocations and unreadable chains every marked cluster has an owner |
| `Ownership.WritesOnlyOwn` | src/bsfs.c:736-814 | no step of any operation writes a cluster outside its own file or its own new clusters |
| `Ownership.CutFreesExactly` | src/bsfs.c:1089-1095 | the walk along the links frees exactly the file's clusters after the kept ones, whatever else runs meanwhile |
| `Ownership.RemovalFreesExactly` | src/bsfs.c:480-493 | the walk after an unlink frees exactly the clusters the removed file had |
| `Ownership.CreationGives` | src/bsfs.c:382-415 | a created file owns exactly the cluster made for it, unless that was lost |
| `Ownership.ExtensionGives` | src/bsfs.c:780-805 | hooking up gives a file its new clusters, behind its own, whatever else runs |
| `Ownership.CutLeaves` | src/bsfs.c:1089-1105 | a cut leaves a file its first clusters and unmarks exactly the others |
| `Ownership.RemovalGets` | src/bsfs.c:495-513 | the removal of a file takes over all its clusters, still marked |
| `Lifecycle.Created` | src/bsfs.c:347-415 | a run from an empty level that creates and opens a file |
| `Lifecycle.Grown` | src/bsfs.c:736-814 | a run that extends it by a cluster |
| `Lifecycle.CutBack` | src/bsfs.c:1077-1105 | a run that cuts the cluster off again |
| `Lifecycle.Gone` | src/bsfs.c:515-534 | a run that closes and removes it and leaves the level empty |
| `Ownership.LostClusterIsShared` | src/bsfs.c:390-406 | after a cluster write lost in creating a file, the next file can be given the same first cluster |
| `Volume.OneUnitWrite` | src/cluster.c:33-65 | one unit write by any user changes the bytes of that unit of that user and no other unit of any user |
| `Volume.PutIsUpdate` | src/cluster.c:33-47 | every cluster write changes exactly one cluster of the store if and only if the level has at most 2097152 clusters |
| `Volume.FsWriteCluster` | src/cluster.c:41-47 | changes the written cluster of the writer's store on the shared disk, together with those whose offset wraps to the same one, and no other store; refused exactly for the last cluster of an exactly filled level whose offset does not wrap, without effect |
| `Volume.FsReadCluster` | src/cluster.c:33-39 | reads a cluster of the reader's own store; refused under the same condition |
| `Volume.StoresIndependent` | src/cluster.c:33-47 | for every interleaving of the cluster writes of all levels each level has the store its own writes made |
| `Isolation.LevelsOnDisk` | src/bsfs.c:323-331 | however the cluster writes of all users' open levels interleave, the shared disk holds for each level exactly the store its operations' contracts speak of |
| `Isolation.SomeRun` | src/bsfs.c:323-331 | whatever the operations of the levels have done, cluster writes of their users stand behind it |
| `Isolation.FilesOnDisk` | src/bsfs.c:616-679 | the contents of a file, as its level's operations state them, are the bytes its chain leads to on the shared disk after any such interleaving, provided no cluster of the chain is refused |
| `Isolation.OthersLeaveFiles` | src/bsfs.c:616-679 | whatever other users write, every byte of a user's files, in clusters that can be read at all, stays as it was on the shared disk |
| `FileData.StepLeavesFile` | src/bsfs.c:736-814 | a step of a concurrent operation that does not change a file itself leaves its entry, its clusters and the data in them alone, whatever it writes |
| `FileData.RunLeavesFile` | src/bsfs.c:736-814 | the same over whole interleaved runs in which no file loses its clusters |

## Left out

- Key table, AES, key derivation (`src/keytab.c`, `src/enc.c`): only an abstract encryption pair; the initialisation vector is represented by the offset.
- Disk mapping and file locks (`src/disk.c`): the disk is an array of fixed size.
- Opening, creating and flushing levels, the level lock and `fsync`: they copy the table and the bitmap, which are units of `LevelIsUnitStore`.
- The FUSE front end, path splitting and password handling: names are nonempty because `bs_split_path` rejects empty ones.
- `getattr`, `chmod`, `utimens`, `readdir`: single field reads and updates of one slot.
- Memory allocation failures and the lifetimes of heap buffers.
- Machine integers: sizes and offsets are unbounded here; where the source wraps or truncates (`get_required_cluster_count`, cluster offsets, the fields of the table, the links) the model does so explicitly, and callers keep `off + size` below 2^63, as the kernel interface does. Negative sizes and offsets are not modelled for the same reason.
- Files in levels of more than 2097152 clusters: `StoreOk`, and the machine of `Interleaving` in `Ownership`, keep the count at most that, because exactly beyond it clusters share bytes (`AllApart`, `PutIsUpdate`) and no two chains are safe from each other. Layout, cluster accesses and the stores on the disk (`Cluster`, `Volume`) are stated for every size; their indices are unbounded, while `fs_alloc_cluster` counts in 32 bits.
- Tables with unreadable slots, except in lookups (`LookupMeans`) and in creating files (`DoMknod`): `Valid` and with it the contracts of the other operations speak of tables that can be read.
- The errors of cluster accesses are `EINVAL`, `EIO` and `ENOMEM`; a failing lock of the disk is not modelled.
- The floating-point load factor of the open file table is the integer test `size + 1 > bucket_count`, to which it is equal.
- Randomness quality and the loop of `gen_nonzero_vector` that redraws until a bit is set.
- Waiting for locks: `Bsfs.Level` runs one operation at a time; in `Handles` and `Interleaving` a step that needs a lock is simply not possible while another holds it.
- Exact sizes in the machine of `Interleaving`, where a cluster is its link (`FileData` adds the data, any at each write) and a size is a number of clusters, and where an operation on several clusters takes the file's lock for each: `Bsfs.Level` has data and sizes for one operation at a time. The hash table in the machine of `Handles`: `Oft` proves that it is a map from index to object.
- What the unused tail of a file's last cluster holds: whatever was there; no theorem depends on it.
- Security of the steganography or the encryption.
