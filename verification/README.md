# axonOS verification

Dafny models of the parts of the axonOS kernel whose correctness spans many functions, with proofs about
all inputs, all reachable states and all runs. `dafny verify dfyconfig.toml` checks the whole project.

- **Address spaces** (`core/mm.c`, `mm/frame.c`, `mm/user_vma.c`). Table pages are 512-entry sequences named
  by page number and read by a separate hardware walk (`PageTables.LeafAt`). `MmTables` and `MmPaths` are the
  code that allocates, duplicates, splits and writes tables. `FrameSharing` is the abstract state: what each
  address space maps, the reference count and bytes of each frame, and the exec image cache. `MmLifecycle`
  gives the kernel's operations as steps on that state. It proves for every run that references are conserved
  and that no address space sees another's writes. `AddressSpaces` ties tables and frames to that state. Every
  method of `CowFork`, `MmFork`, `MmBrk`, `MmDup`, `MmUnmap`, `MmRelease`, `ExecCache` and `PrivateRange` is
  proved to be a run of those steps. `SplitSafety` says which huge leaves may be split in place.
- **P-256 and ECDSA** (`crypto/ecc.c`). From limb carries (`Limbs`, `Montgomery`, `ModExp`, `P256Field`)
  through the affine curve (`Curve`) and the Jacobian formulas (`P256Points`) to multiples (`Group`), to
  signatures over any such curve (`Signatures`) and to signing and verifying (`Ecdsa`). `Nonce` is the
  deterministic nonce over `Hmac` and `Sha256` (`crypto/sha256.c`). `SignVerify` composes them all.
- **Namespaces and processes** (`core/ns.c`, `core/process.c`). `NsRefs` and `Namespaces` are reference
  counting with recursive release; `ProcessForest` is the process table with its intrusive child lists.
- **File systems** (`fs/minix.c`, `fs/fat32.c`). `MinixBlocks`, `MinixBits`, `MinixTree`, `MinixLayout`,
  `MinixVolume` and `MinixFiles` go from bytes to files; `FatChains`, `FatVolume` and `FatFiles` do the same
  for clusters.
- **LZ4** (`boot/kzip_stub.c`) in `Lz4` and `Lz4Frame`, and **DER** (`crypto/asn1.c`) in `Der` and `DerWriter`.

Clocks, locks, yields, TLB maintenance and the disk itself are outside the model. An allocation that can fail
fails when a `heap`, `free` or `budget` field is empty, so every theorem covers every pattern of failures.
Random input becomes a parameter: the nonce of `Ecdsa.Sign`, addresses returned by the allocator, the hash
key of an executable.

## Model

| member | source | states |
|---|---|---|
| FrameSharing.NoLeak | core/mm.c:996-1064 | A frame that is still counted is named by an owned leaf or a cache slot, so none is leaked. |
| MmLifecycle.RunSteady | core/mm.c:716-843 | Over every run of birth, map, fork, write fault, unmap, release and exec-cache steps: each frame's count equals the owned leaves plus cache slots naming it, a writable private frame has one reference, and cached images keep the bytes they were registered with. |
| MmLifecycle.RunIsolated | core/mm.c:2575-2775 | No run of steps by others changes the page or the bytes that an address space reads at a page of its own, or whether it may write there, at once or after a fault, as long as that page's own frame is not made MAP_SHARED memory. |
| MmLifecycle.IdleBefore | core/mm.c:3798-3806 | A cache slot found idle, after the new image's references were taken, was named by no owned leaf of any address space. |
| PageTables.SharedIff | core/mm.c:213-221 | Comparing an entry with the kernel's own at the same place tells exactly whether the table below it is still the kernel's. |
| PageTables.Split2MWalk | core/mm.c:166-190 | Splitting a 2 MiB leaf leaves the hardware walk of every address as it was. |
| PageTables.Split1GWalk | core/mm.c:193-206 | The same for a 1 GiB leaf. |
| PageTables.DupWalk | core/mm.c:141-147 | Replacing a shared table by a copy changes no walk. |
| MmTables.TableStore.NewMm | core/mm.c:1123-1153 | A new address space walks as the kernel does at every page, and nobody else's walk changes; fails exactly on an empty heap, changing nothing. |
| MmTables.TableStore.FreeMm | core/mm.c:1066-1086 | Freeing the tables of one address space leaves the walk of every other root, and every other table. |
| MmTables.TableStore.SplitChunk | core/mm.c:166-190 | In place: one entry of one table changes, no leaf of any root does; fails exactly on an empty heap, changing nothing. |
| MmTables.TableStore.SplitGiant | core/mm.c:193-206 | In place: the same one level up. |
| MmTables.TableStore.InstallPath | core/mm.c:441-543 | Afterwards the whole path to the page is the address space's own and open, through copies and splits, and no leaf of any root has changed, on failure too, which needs an empty heap. |
| MmPaths.MapLeaf | core/mm.c:441-555 | On success the walk at the page gives exactly the requested frame and flags and every other page of every root is as it was; it fails only when the heap is empty, and then no translation changes; the replaced entry comes back. |
| MmPaths.MapSharedAware | core/mm.c:229-439 | The same for the routine that keeps what is shared with the kernel's tables shared; it fails only for a page at or above 4 GiB, an empty heap, or tables of the kernel or the address space that do not reach the page. |
| MmPaths.PrivatePath | core/mm.c:571-653 | No leaf changes; success gives the address space its own last table or huge leaf; on a path already private it always succeeds and writes nothing. |
| MmPaths.ClearChunk | core/mm.c:794-812 | Clearing a 2 MiB leaf clears exactly its 512 pages of exactly this root. |
| AddressSpaces.FrameTable.Alloc | mm/frame.c:122-168 | The frame given out had no reference; it fails exactly when none is free. |
| AddressSpaces.FrameTable.Retain | mm/frame.c:190-199 | Only a counted frame can be retained. |
| AddressSpaces.FrameTable.Release | mm/frame.c:201-219 | One reference less; the last frees the frame. |
| AddressSpaces.Kernel.constructor | core/mm.c:965-975 | The state at boot satisfies both invariants. |
| AddressSpaces.Kernel.NewMm | core/mm.c:1294-1311 | The new address space is the birth step; with an empty heap, and only then, nothing happens. |
| AddressSpaces.Kernel.MapUserPage | core/mm.c:441-567 | The error codes of bad arguments exactly, any other only for an empty heap; success is the map update that drops the replaced leaf's reference, and the walk then allows what the flags ask; failure changes no view and no count. |
| AddressSpaces.Kernel.MapShared | core/mm.c:229-439 | Success is the map update of one leaf, writable only if not copy-on-write; failure leaves all views and has one of the stated causes. |
| AddressSpaces.Kernel.ProtectLeaf | core/mm.c:1494-1556 | Write-protects exactly one owned leaf, through whatever tables lead to it. |
| CowFork.AllocAvoid | core/mm.c:60-78 | The frame's number is never the page's own, and a frame held aside is given back; it fails only when no other frame is free. |
| CowFork.ForkLeaf | core/mm.c:1723-1862 | The child's page reads as the parent's; child and parent may write a private page, at once or after a fault, if and only if the parent might, and a MAP_SHARED one as well when the parent might at once; all as steps that conserve references. It fails only for want of a table page or a frame, and leaves no reference behind. |
| CowFork.SplitHuge | core/mm.c:2542-2573 | No view changes; on success no huge leaf covers the page; on failure there was one and the heap is empty, or the page is absent. |
| SplitSafety.SplitSafeIff | core/mm.c:2542-2573 | After the split, both splits of a 1 GiB leaf included, and the end of the address space, no other root meets a table that is gone if and only if no huge leaf covers the page or it stands in the address space's own table; otherwise the kernel's walk for the page does. |
| SplitSafety.KernelWalkBroken | core/mm.c:2542-2573 | A state in which it does. |
| CowFork.CowFault | core/mm.c:2575-2775 | The page reads the same bytes before and after, is writable and owned and walks so, and every step concerns this page only; -2 only for a page that is absent or neither shared nor copy-on-write, -1 only for want of a table page, a frame or a kernel leaf; any failure leaves all views and counts. |
| CowFork.UserStore | core/mm.c:3100-3186 | A store through the fault path changes one byte of one page of one address space, and no other page that any address space reads; it is refused only when memory is short or the page is neither writable nor copy-on-write. |
| VmaProbe.SnapshotSort | core/mm.c:1917-1931 | The stable insertion sort: sorted, a permutation, and nothing past the count touched. |
| VmaProbe.Probe | core/mm.c:1876-1915 | Binary search then scan gives the flags that scanning all areas gives, when areas are apart or equal. |
| VmaProbe.HitsIff | core/mm.c:1876-1915 | An area meets a range if and only if it is in use and they share a byte. |
| VmaProbe.SortThenProbe | core/mm.c:1876-1931 | Sorting the snapshot in place and probing it answers as testing every area does, where owner and others are not told apart. |
| VmaProbe.HitsAnyOrder | core/mm.c:1876-1915 | Whether an area covers the range, and whether it is shared, does not depend on the order of the snapshot. |
| VmaProbe.OwnersFirst | core/mm.c:1917-1931 | The first entries after the sort are the owner's if and only if each of the owner's areas comes before each of the others, by base and then length. |
| VmaProbe.SplitKept | core/mm.c:1876-1915 | Then, for every range, the sorted snapshot is scanned with the answer the two lists give. |
| VmaProbe.SortMovesOwners | core/mm.c:1917-1931 | A snapshot whose owner's area is scanned as absent after the sort. |
| VmaProbe.TakeSnapshot | mm/user_vma.c:995-1020 | The snapshot holds the areas of owner and address space together, sorted; overflow or no memory means full scans. |
| VmaProbe.PageExact | core/mm.c:1933-1947 | One page's flags are those of a scan of the whole list. |
| VmaProbe.ChunkSkipDropsNothing | core/mm.c:2030-2040 | Passing over a huge identity span that no area and no brk touches drops no page that would have been copied. |
| VmaProbe.TableSkipDrops | core/mm.c:2086-2106 | Passing over a 4 KiB table's span drops exactly the pages that are owned or not the identity. |
| VmaProbe.BrkBytes | core/mm.c:1674-1713 | A byte is in brk if and only if it lies from the base on, below 4 GiB, and below the end or the first 256 KiB; a range is if and only if one of its bytes is. |
| MmFork.ForkPages | core/mm.c:2107-2143 | Page by page: every carried page of the span is inherited with the right to write it, everybody else still reads the same; a failure has a stated cause. |
| MmFork.ForkWalk | core/mm.c:1949-2153 | After the walk every carried page of a visited span is inherited, those of a skipped span are not, and nobody but the child is disturbed, on failure too. It fails only for want of a table page or a frame, or at a frame of the parent's at or above 4 GiB. |
| MmBrk.BrkStep | core/mm.c:2176-2223 | One page of the second pass over brk, from any sound state: the result is sound if and only if the page is neither forked a second time nor shared writable with a parent that is not protected. |
| MmBrk.ResharedSteady | core/mm.c:2176-2223 | The same on the abstract state: conservation and isolation hold after sharing again if and only if neither of these. |
| MmBrk.BrkPass | core/mm.c:2176-2223 | The second pass over brk keeps all that the walk established, and fails only for the same causes. |
| MmBrk.TwiceShared | core/mm.c:2176-2223 | A brk page at the identity, forked twice: a reference is left that nothing names. |
| MmBrk.OpenShared | core/mm.c:2176-2223 | A brk page outside the walk, shared with a parent that can still write it. |
| MmDup.Scrub | mm/user_vma.c:918-970 | The scrub of lazy areas in the child removes every identity leaf that is left in them and no inherited page; it fails only for want of a table page or a kernel leaf. |
| MmDup.DupUser | core/mm.c:2225-2266 | For every page that fork must hand over: the child owns it, reads the parent's bytes and may write if and only if the parent might, exactly when the page's 2 MiB span holds an area or brk; no identity leaf is left in a lazy area; everybody else is undisturbed, references are conserved, and a failed fork leaves no child. |
| MmDup.CoveredInherited | core/mm.c:2225-2266 | If every such page lies in an area or in brk, the child inherits all of them. |
| MmDup.PageLeftBehind | core/mm.c:2086-2106 | A state, a page and an area list for which the page is not inherited. |
| MmUnmap.Unmap | core/mm.c:716-843 | A transaction: failure changes no view and no count, and needs an empty heap or a page of the range that the kernel does not map; success removes exactly the present pages with a byte in the range, at or above 2 MiB and below 4 GiB, whose frame is below 4 GiB, releasing each owned one once. |
| MmUnmap.RangeIs | core/mm.c:719-731 | The pages visited are exactly those that hold a byte of the range at or above 2 MiB and below 4 GiB. |
| MmUnmap.UnmapEmpties | core/mm.c:779-784 | No page with a byte in the range is left if and only if none of them has a frame at or above 4 GiB. |
| MmUnmap.DevicePageStays | core/mm.c:2896-2930 | A device page above 4 GiB survives its unmap. |
| MmUnmap.UnmapReleases | core/mm.c:716-843 | Each frame's count falls by exactly the number of owned leaves, of pages with a byte in the range, that named it. |
| MmRelease.Release | core/mm.c:996-1086 | One user less; with the last the address space disappears, every owned leaf's reference is given up once, and the invariants hold. |
| ExecCache.EvictSlot | core/mm.c:3811-3830 | The slot given up is idle, no other slot has the key, and it is the least recently used among idle ones when none is empty; none only when the key is busy or all are. |
| ExecCache.RegisterImage | core/mm.c:3902-4009 | The slot holds exactly the pages of the window with their bytes, the first user is write-protected, and the image given up was mapped nowhere; the byte counter stays the sum over slots within 64 MiB; an image is refused only for a stated cause. |
| ExecCache.FilledIff | core/mm.c:3924-3968 | As many slots are filled as were counted if and only if no page of the window has a frame at or above 4 GiB. |
| ExecCache.FarCounted | core/mm.c:3924-3968 | A page that is counted and not listed. |
| ExecCache.MapImage | core/mm.c:3858-3900 | A cache hit shows the address space exactly the registered bytes, read-only and copy-on-write, in the whole window; it fails only for an empty heap or a page that no leaf routes. |
| PrivateRange.MakePrivate | core/mm.c:3241-3394 | Success leaves every page of the clamped range a private frame with the fill asked for, unless it was copy-on-write or private already, or a copy has no source page; those are as they were. A copy shows the bytes of its source, or those of an earlier page of the range that was given the source's frame. Pages outside the range, and of others, are untouched, on failure too, which needs a page of the range without memory or a leaf to route it by. |
| PrivateRange.CopyExact | core/mm.c:3340-3358 | It is the source's bytes whenever the source page is owned or not the identity, its frame is not of the pool, or it is the first page of the range. |
| PrivateRange.CopyReadsBack | core/mm.c:3340-3358 | A run over two pages in which the second shows the bytes of the first. |
| Montgomery.AddM | crypto/ecc.c:95-116 | Canonical sum modulo any modulus, with the carry out of 256 bits. |
| Montgomery.SubM | crypto/ecc.c:118-135 | Canonical difference. |
| Montgomery.MulM | crypto/ecc.c:138-190 | For every a below 2^256: result r below the modulus with r 2^256 congruent to a b; no carry is dropped. |
| ModExp.Exp | crypto/ecc.c:228-239 | base^exp modulo m for every 256-bit exponent. |
| P256Points.PointDouble | crypto/ecc.c:267-300 | The result stands for twice the point, infinity and order two included. |
| P256Points.PointAddMixed | crypto/ecc.c:303-345 | The result stands for the affine sum, equal and opposite points included. |
| P256Points.PointAddJacobian | crypto/ecc.c:348-384 | The abscissa is that of the sum always; the ordinate is if and only if a point is at infinity, the abscissas agree, or a stated congruence holds. |
| P256Points.ScalarMult | crypto/ecc.c:387-395 | Stands for affine double-and-add of every 256-bit scalar. |
| P256Points.JacobianToAffine | crypto/ecc.c:403-417 | Fails exactly at infinity, otherwise gives the affine coordinates. |
| Group.DoubleAndAddIsTimes | crypto/ecc.c:387-395 | Double-and-add is the k-fold sum, given the group law. |
| Curve.DoubleOnCurve | crypto/ecc.c:267-300 | Doubling stays on the curve. |
| Curve.AddOnCurve | crypto/ecc.c:303-345 | Adding stays on the curve. |
| Curve.AddOpposite | crypto/ecc.c:303-345 | A point and its opposite add to infinity. |
| Curve.AddCommutes | crypto/ecc.c:303-345 | The order of two points does not matter. |
| Curve.AddCollinear | crypto/ecc.c:303-345 | Points with different abscissas and the opposite of their sum lie on one line. |
| Curve.DoubleTangent | crypto/ecc.c:267-300 | A point not of order two and the opposite of its double lie on the tangent at the point. |
| Ecdsa.BeToLimbs | crypto/ecc.c:421-428 | The limbs have the big-endian value of the bytes. |
| Ecdsa.LimbsToBe | crypto/ecc.c:430-436 | And back. |
| Ecdsa.ReduceN | crypto/ecc.c:214-224 | One subtraction reduces every 256-bit number modulo the order. |
| Ecdsa.MulN | crypto/ecc.c:203-209 | Product modulo the order. |
| Ecdsa.InvN | crypto/ecc.c:542-544 | Inverse modulo the order by exponentiation. |
| Ecdsa.PointOnCurve | crypto/ecc.c:440-456 | True exactly of points on the curve, coordinates taken modulo the field prime. |
| Ecdsa.ScalarMultBase | crypto/ecc.c:458-467 | The bytes of the multiple of the base point; fails exactly at infinity. |
| Ecdsa.Sign | crypto/ecc.c:546-576 | Signature r and s of section 6.4 of FIPS 186-4 for the nonce, exactly when it fails or retries, and nothing is written then. |
| Ecdsa.Verify | crypto/ecc.c:578-614 | Accepts exactly by the test of section 6.4 of FIPS 186-4, whose meaning AcceptsIff and OffCurveRefused give. |
| Signatures.AcceptsIff | crypto/ecc.c:578-614 | On any curve with a group law and a base point of prime order, under the public point of key d: accepted if and only if r and s are in range and some nonce k has r for the abscissa of k G modulo the order and s k congruent to e + r d. |
| Signatures.OffCurveRefused | crypto/ecc.c:440-456 | A public key that does not satisfy the curve's equation is refused with every signature. |
| Signatures.SignThenVerify | crypto/ecc.c:546-614 | On any curve with a group law and a base point of prime order: every signature that signing can return is accepted under the key's public point. |
| Ecdsa.OrdinateFails | crypto/ecc.c:377-381 | The base point and its double: the stated congruence fails, so the ordinate of their Jacobian sum is wrong. |
| Sha256.Schedule | crypto/sha256.c:36-61 | The 64 words of the message schedule of FIPS 180-4. |
| Sha256.Compress | crypto/sha256.c:36-61 | One block folds the registers by the schedule as FIPS 180-4 has it. |
| Sha256.InitialRoots | crypto/sha256.c:63-74 | The initial registers are the first 32 bits of the fractional parts of the square roots of the first eight primes. |
| Sha256.Context.Update | crypto/sha256.c:76-92 | In whatever pieces data comes, the context stands for their concatenation. |
| Sha256.Context.PadOut | crypto/sha256.c:94-114 | Padding makes the message a whole number of blocks short of its length field. |
| Sha256.Context.Final | crypto/sha256.c:94-114 | The digest of the whole message, written to 32 bytes and no more. |
| Sha256.HashParts | crypto/sha256.c:63-121 | Hashing piece by piece equals hashing the concatenation at once. |
| Hmac.HmacSha256 | crypto/sha256.c:123-152 | HMAC of RFC 2104 for keys of every length. |
| Hmac.PadBytes | crypto/sha256.c:130-141 | Byte by byte, the padded key is the key, or the digest of a long one, then zeros, each masked. |
| Nonce.Generate | crypto/ecc.c:492-540 | The first acceptable candidate of section 3.2 of RFC 6979 among 128, and failure exactly when there is none. |
| SignVerify.SignDigest | crypto/ecc.c:546-576 | Nonce and signature together: what is written, and exactly when signing fails or retries, as a function of key and digest. |
| SignVerify.SignedIsAccepted | crypto/ecc.c:458-614 | P-256: what the code signs under a key, it accepts under the public key it computes from that key. |
| Namespaces.NsTable.PutSpace | core/ns.c:176-244 | Releasing a namespace, and with the last reference its parents in turn, conserves all counts and ends. |
| Namespaces.NsTable.PutProxy | core/ns.c:246-263 | The last user's release gives up every namespace the proxy holds, the children's pid namespace once when it is the same. |
| Namespaces.NsTable.DupProxy | core/ns.c:265-297 | A copy holds one more reference of each; fails only without memory, changing nothing. |
| Namespaces.NsTable.Clone | core/ns.c:413-537 | Wanted namespaces are new and distinct, the new user and pid namespaces children of the process's own and the others without parent, and the rest as the parent's; a failure part-way leaves the state as it was; counts equal users throughout. |
| Namespaces.NsTable.Unshare | core/ns.c:539-580 | The process keeps its own pid namespace and its children get the new one, a child of its own; the others are new and distinct, with parents as for Clone; exactly which half stays when the second fails; nobody else's proxy changes. |
| Namespaces.NsTable.Setns | core/ns.c:582-684 | Exactly one slot changes, that of the children for a pid namespace; failure changes nothing. |
| Namespaces.NsTable.Inherit | core/ns.c:373-411 | A child shares its parent's proxy unless the parent's children have another pid namespace. |
| Namespaces.NsTable.Exit | core/ns.c:686-693 | The process's references are given up and no other process's proxy changes. |
| ProcessForest.ProcTable.Create | core/process.c:32-130 | The child is first on its parent's list, in its group and session or else in its own, with the number drawn, and nothing else moves; numbers stay distinct if and only if nobody has the one drawn; fails exactly when the table is full or memory is. |
| ProcessForest.ProcTable.ClaimFirst | core/process.c:136-156 | The process is number one in its own group and session and nobody else is; a stale holder gets a fresh number; numbers stay distinct. |
| ProcessForest.ProcTable.MarkZombie | core/process.c:371-383 | Only the record changes; lists, forest and numbers are kept. |
| ProcessForest.ProcTable.Reparent | core/process.c:385-410 | All children move, in order, to the front of the heir's list, and each leader is told the heir's number, or 1 without an heir; the forest and the numbers are kept. |
| ProcessForest.ProcTable.Reap | core/process.c:412-440 | Succeeds exactly for a zombie child of this parent; only it disappears; the table stays a forest if and only if it had no children. |
| ProcessForest.ProcTable.ReapZombie | core/process.c:442-469 | The same from the child's side, whatever its parent. |
| ProcessForest.ProcTable.Discard | core/process.c:471-501 | The same for a child in any state. |
| ProcessForest.ProcTable.Adopt | core/process.c:605-628 | The subtree moves to the front of the new parent's list. |
| ProcessForest.MoveRootedIff | core/process.c:605-628 | Such a move leaves a forest if and only if the new parent is outside the subtree. |
| ProcessForest.CreateKeepsPids | core/process.c:47-49 | Numbers stay distinct and below the counter if and only if the 64-bit counter does not wrap. |
| ProcessForest.CreateKeepsApart | core/process.c:47-49 | Numbers stay distinct if and only if no process has the number drawn, whatever the counter. |
| ProcessForest.WrappedTwice | core/process.c:47-49 | After the wrap, with process 1 alive, the next process is number 1 too. |
| ProcessForest.DiscardUndoesCreate | core/process.c:471-501 | Create then discard restores records and lists. |
| ProcessForest.OnceOnOwnList | core/process.c:32-122 | Every process is on one list exactly once, and that is its parent's. |
| MinixBits.FindZero | fs/minix.c:131-159 | The first clear bit below the bound, or none. |
| MinixVolume.Volume.FlushZmap | fs/minix.c:170-178 | The map on disk is the one in memory; no zone outside the map changes, boot block, superblock and inode map included. |
| MinixVolume.Volume.AllocZone | fs/minix.c:325-353 | A zone nobody has, in the data area, marked and zeroed; every block of every file reads the same; fails exactly when all are taken. |
| MinixVolume.Volume.FreeZone | fs/minix.c:355-363 | A zone outside every file is unmarked and no file changes. |
| MinixVolume.Volume.LoadInode | fs/minix.c:236-263 | An open inode is what the table holds. |
| MinixLayout.InodeBytes | fs/minix.c:54-74 | Where mode, size and zones stand in the bytes of an inode of either version. |
| MinixBlocks.LeBytes | fs/minix.c:54-74 | Two- and four-byte numbers have the low byte first. |
| MinixVolume.Volume.StoreInode | fs/minix.c:214-290 | Only this inode's bytes of the table change, whatever shares its block. |
| MinixTree.SitesDistinct | fs/minix.c:365-491 | Two places in block trees of any files with the same zone are the same place. |
| MinixVolume.Volume.GetZone | fs/minix.c:365-491 | With or without creating: the zone of the block through direct, single and double pointers; creating adds a zone nobody had, changes no byte that any file reads, and fails only when no zone is free or the block has no place. |
| MinixVolume.BlockPlaces | fs/minix.c:365-491 | Block 7 + n + i n + j, for n pointers to a zone, is reached by pointer j of the zone at pointer i of the ninth zone; those below through the eighth, and the first seven directly. |
| MinixFiles.Read | fs/minix.c:898-928 | The bytes of the file from the offset up to the size, holes as zeros. |
| MinixFiles.Write | fs/minix.c:930-985 | Exactly the bytes from the offset on of this file change, up to where it stopped, and no byte of any other file; it stops short only when no zone is free or the next block has no place; the size kept is right if and only if the write ends below 4 GiB. |
| MinixFiles.WriteThenRead | fs/minix.c:898-985 | A full write reads back in full if and only if it ends below 4 GiB; one that ends there leaves the file empty. |
| MinixFiles.WrapReached | fs/minix.c:1202-1203 | Of the block sizes mounted, only 4096 gives a file a block there. |
| FatVolume.Volume.WriteEntry | fs/fat32.c:605-622 | All copies of the table stay alike and one entry changes, to 28 bits. |
| FatVolume.Volume.FindFree | fs/fat32.c:624-657 | The first free cluster going round once from the one after the last given; none exactly when none is free. |
| FatVolume.Volume.AllocChain | fs/fat32.c:659-679 | A chain of free clusters of the length asked; failure means none is free, and says what stays marked. |
| FatVolume.Volume.FreeChain | fs/fat32.c:1335-1344 | Ends on every table, cyclic ones included, clears the chain and only ever clears entries. |
| FatChains.LiveFree | fs/fat32.c:1335-1344 | Freeing one file's chain leaves every other chain. |
| FatChains.GrownLive | fs/fat32.c:659-679 | Allocating takes no cluster of any file. |
| FatFiles.Store.Read | fs/fat32.c:367-406 | The bytes of the chain from the offset up to the size. |
| FatFiles.Store.Write | fs/fat32.c:1410-1481 | The chain reads as before with the buffer spliced in, clusters off the chain are untouched, the chain only grows; it fails only when no cluster is free, memory is short or the clusters needed wrap to none; the size kept is right if and only if the write ends below 4 GiB. |
| FatFiles.Store.WriteThenRead | fs/fat32.c:1410-1481 | What is written is read back if and only if it ends below 4 GiB. |
| FatFiles.NeedIs | fs/fat32.c:1416-1423 | The clusters first asked for hold the write unless rounding up wraps, and then none are asked for and the write fails. |
| FatFiles.Lands | fs/fat32.c:1430-1431 | A write lands at its offset if and only if its cluster number has 32 bits. |
| FatFiles.WriteReads | fs/fat32.c:1410-1481 | The bytes written stand there, and around them the file is as it was. |
| FatFiles.OthersKept | fs/fat32.c:1410-1481 | No other file's bytes change. |
| FatFiles.Store.Truncate | fs/fat32.c:1483-1511 | The file is empty and its clusters free; if the directory cannot be updated, nothing changes. |
| Lz4.ParseEncode | boot/kzip_stub.c:444-496 | Every well-formed block reads back from its bytes. |
| Lz4.EncodeParse | boot/kzip_stub.c:444-496 | Whatever is read is the writing of what was read. |
| Lz4.RoundTrip | boot/kzip_stub.c:444-496 | For every output capacity: a block decodes to its meaning if and only if it is in range and every offset is at most the low 32 bits of its position, which up to 4 GiB is no further condition. |
| Lz4.LargeRefused | boot/kzip_stub.c:473-475 | A family of well-formed blocks in range that are refused. |
| Lz4.CopyMatch | boot/kzip_stub.c:487-491 | A forward byte copy over its own output is the format's repeating match. |
| Lz4.CopyRepeats | boot/kzip_stub.c:487-491 | After a match every byte it wrote equals the one the offset before it. |
| Lz4.ShortItem | boot/kzip_stub.c:444-496 | The bytes of a short literal run and match, written out. |
| Lz4.DecodeBlock | boot/kzip_stub.c:444-496 | Succeeds exactly on blocks with a meaning within the capacity, writes that meaning and nothing outside it. |
| Lz4.MoveBytes | boot/kzip_stub.c:72-82 | Overlapping moves in either direction keep the bytes. |
| Lz4Frame.ParseEncodeFrame | boot/kzip_stub.c:498-562 | Every frame reads back, whatever follows it. |
| Lz4Frame.EncodeParseFrame | boot/kzip_stub.c:498-562 | Whatever is read is a prefix of the input. |
| Lz4Frame.FrameRoundTrip | boot/kzip_stub.c:498-562 | A frame written from raw and packed parts unpacks to the plain concatenation of their texts if and only if every packed part is in range, the whole fits the buffer and a content size given is met; whatever follows the frame. |
| Lz4Frame.DecodeFrame | boot/kzip_stub.c:498-562 | Succeeds exactly on frames all of whose pieces unpack within the buffer, and leaves their concatenation and nothing after it. |
| Lz4Frame.DecodeWritten | boot/kzip_stub.c:498-562 | Decoding such a frame into an array gives the texts in order, or fails exactly when they do not fit. |
| Der.LenFieldIsDer | crypto/asn1.c:28-48 | The length written is the DER length if and only if it is below 2^32. |
| Der.ReadBack | crypto/asn1.c:50-63 | A reader of section 8.1 of X.690 gives back every tree that is written. |
| Der.IntContentValue | crypto/asn1.c:96-108 | The content of an INTEGER is minimal and has the value of the bytes. |
| Der.OnlyMinimal | crypto/asn1.c:96-108 | And it is the only such content. |
| DerWriter.Writer.Bytes | crypto/asn1.c:21-26 | Appends all or sets the error, never overrunning. |
| DerWriter.Writer.IntBytes | crypto/asn1.c:96-108 | Writes the minimal INTEGER, or sets the error. |
| DerWriter.Writer.BitString | crypto/asn1.c:118-124 | Writes a BIT STRING with no unused bits, or sets the error. |
| DerWriter.Writer.End | crypto/asn1.c:65-85 | The patched buffer is what writing the whole element at once would give, frames still open around it included. |
| DerWriter.BeginPutEnd | crypto/asn1.c:56-85 | Begin, body, end is the encoding of the body, at any nesting. |
| DerWriter.Writer.Emit | crypto/asn1.c:50-85 | Any well-nested run of the operations leaves the DER of the trees it wrote. |
| DerWriter.EndFits | crypto/asn1.c:65-85 | Closing a frame fits the buffer if and only if length plus the extra length octets does. |
| DerWriter.FullFrame | crypto/asn1.c:65-85 | A run that fills the buffer without an error and whose next end does not fit. |

## Findings

Properties that do not hold of the code. The members named give the exact condition, and an input where the
condition does not name one by itself.

- `point_add_jacobian` computes a wrong ordinate for general points (`crypto/ecc.c:377-381`).
  `P256Points.PointAddJacobian` gives the condition, `Ecdsa.OrdinateFails` the input. Verification reads only
  the abscissa, which is always right.
- Fork passes over a 4 KiB table's 2 MiB span when no area and no brk touches it, without looking at the
  pages. `MmDup.DupUser` proves that an owned page is lost exactly then; `MmDup.PageLeftBehind` is one.
- Sorting the snapshot mixes the owner's areas with those found by address space, while the scan still tells
  them apart by index. `VmaProbe.OwnersFirst` gives the condition, `VmaProbe.SortMovesOwners` the input.
- The second pass over brk forks an owned identity page again and takes a second reference, and shares
  writable pages outside the walk's range without protecting the parent. `MmBrk.BrkStep` gives the condition
  for each step, `MmBrk.TwiceShared` and `MmBrk.OpenShared` the inputs.
- `mm_cow_fault_page` splits a huge leaf in place even in a table of the kernel's. When the address space
  ends, the new table goes with it, and the kernel's walk still names it. `SplitSafety.SplitSafeIff` gives the
  condition, `SplitSafety.KernelWalkBroken` the input.
- `exec_img_register` counts pages whose frame is at or above 4 GiB and does not list them, so the last slots
  of the image stay unset (`ExecCache.FilledIff`, `ExecCache.FarCounted`).
- Copying a range from a source that shows free frames at their own address can read back a page just made,
  because that page was given the frame. `PrivateRange.MakePrivate` says what is copied, `CopyExact` when it is
  certain to be the source's, as for the single pages that the kernel copies; `CopyReadsBack` is a run.
- Unmap leaves 4 KiB leaves whose frame is at or above 4 GiB (`MmUnmap.UnmapEmpties`, `MmUnmap.DevicePageStays`).
- Two processes can have the same number after the 64-bit counter wraps (`ProcessForest.CreateKeepsApart`,
  `ProcessForest.WrappedTwice`).
- Reaping or discarding a process that still has children leaves them with a dangling parent: the table stays
  a forest if and only if it had none (`ProcessForest.ProcTable.Reap`, `ReapZombie`, `Discard`). Adopting an
  ancestor makes a cycle (`ProcessForest.MoveRootedIff`).
- Minix keeps the low 32 bits of a file's size (`MinixFiles.Write`, `WriteThenRead`, `WrapReached`); FAT does,
  too, and computes the clusters needed and the first cluster modulo 2^32 (`FatFiles.Store.Write`, `NeedIs`,
  `Lands`). A failed FAT allocation leaves its clusters marked (`FatVolume.Volume.AllocChain`).
- The LZ4 decoder compares an offset with the low 32 bits of the position (`Lz4.RoundTrip`, `Lz4.LargeRefused`).
- DER lengths of 4 GiB or more lose their high bits (`Der.LenFieldIsDer`), and `der_w_end` writes past the
  capacity (`DerWriter.EndFits`, `DerWriter.FullFrame`).

Two more, for which no input is given. `ecdsa_sign` retries with the same deterministic nonce, so a retry never
ends: `SignVerify.SignDigest` shows that key and digest decide it; no key and digest that reach it are known.
Clusters that a FAT write adds to reach its offset keep what they held, as `FatFiles.WriteReads` states of the
bytes before the offset.

## Left out

- MmDup.DupUser: unowned identity pages of private areas and brk, which fork shares and protects in the
  parent's tables in place, are not covered; owned brk pages must not be the identity and, outside the walk's
  range, not writable and private (`BrkReady`, see Findings).
- MmBrk.BrkPass: the same pages of brk.
- MmBrk.BrkStep: a page that the parent does not own and the child owns at the identity is not covered.
- MmFork.ForkPages: passes over the unowned identity pages of private areas, as under MmDup.DupUser.
- MmFork.ForkWalk: the same pages; frames of MAP_SHARED areas must not be frames of a cached image.
- CowFork.CowFault: a present page must be owned or not the identity; a huge leaf over it must stand in the
  address space's own table (see Findings).
- CowFork.SplitHuge: the huge leaf must stand in the address space's own table (see Findings).
- CowFork.ForkLeaf: an unowned identity leaf of a private area is not covered.
- CowFork.UserStore: the page must be owned and outside MAP_SHARED memory, whose sharing is the point.
- MmLifecycle.RunIsolated: pages of MAP_SHARED memory are shared on purpose and excluded.
- AddressSpaces.Kernel.NewMm: does not demote the user window, which rewrites flags of kernel leaves.
- AddressSpaces.Kernel.ProtectLeaf: the split of a writable huge leaf over the page is not part of it; owned
  pages, the ones it protects, have 4 KiB leaves. Protecting identity pages is left out (see MmDup.DupUser).
- AddressSpaces.Kernel.MapShared: the routine never gives up the reference of a leaf it replaces, so callers
  that conserve references must map over unowned leaves; `ExecCache.MapImage` requires that.
- ExecCache.RegisterImage: the window must hold no page above 4 GiB (see Findings) and no shared memory; the
  path hash and the two-sightings filter are parameters.
- ExecCache.MapImage: no page of the image may be owned already, inside the window or outside it.
- PrivateRange.MakePrivate: a page below 4 GiB, not the identity, neither copy-on-write nor known as the
  address space's own, is kept under a 4 KiB leaf and replaced under a huge one; the contract allows both.
- Signatures.SignThenVerify: that field and order are prime, that the curve's law is associative and that the
  base point has the order are hypotheses, for P-256 (`Ecdsa.P256`) too; that its base point lies on the curve
  is proved.
- SignVerify.SignedIsAccepted: the same hypotheses.
- P256Points.ScalarMult: the primality of the field modulus is a hypothesis; it makes exponentiation an
  inverse.
- Namespaces.NsTable.Setns: the search for the namespace by inode number is a parameter.
- DerWriter.Writer.End: requires the room that the source leaves to its callers (`crypto/asn1.c:62-64`).
- ProcessForest.ProcTable.Adopt: requires the new parent to be outside the subtree (see Findings).
- ProcessForest.ProcTable.Reparent: requires the heir to be outside the subtree, which `MoveRootedIff` shows
  to be necessary.
- ProcessForest.ProcTable.ClaimFirst: requires the numbers to be distinct and the counter not to be about to
  wrap.
- FatFiles.Store.Write: the table must be closed (every link a cluster or an end mark) and chains apart; a
  disk error is not modelled.
- MinixFiles.Write: one handle per inode, no disk errors, a zone map large enough for the volume.
- MinixVolume.Volume.FreeZone: the zone must not be one that an open inode still names; its caller, unlink,
  is not part of this model.
- Page tables: upper-level NX is assumed clear; CR3 switches, invlpg, yields and locks are not modelled.
- Demoting the user window of a new address space, `mm_privatize_identity_range`, and the fork-sync family of
  `core/mm.c`: the same steps over other ranges.
- Namespace contents (names, mounts, id maps) and the search for a namespace file's owner.
- Process credentials, signals, timers, vfork, and `process_find_child`'s repair of lists.
- Directories, unlink, inode allocation and mounting of both file systems; FAT long names.
- Key generation's random source, and the string and time types of DER.
