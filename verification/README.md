# A model of the AetherOS kernel's filesystems, capabilities and small algorithms

This project models parts of the AetherOS kernel in Dafny and proves what they
promise. Code that changes state is written as classes and loops and proved
against specification functions and invariants; code that is effectively a
computation is written as functions with lemmas.

| files | what they model |
|---|---|
| `ext2_*.dfy`, `ext2.dfy` | the ext2 driver over its in-memory image: bitmaps with three redundant counts, the direct/single/double-indirect block map, flat files, directories, create, mkdir, unlink, and whole runs of them |
| `capabilities.dfy` | the capability table as a derivation forest, with its two mutually recursive cascades |
| `ipc.dfy`, `ipc_runs.dfy` | message ports on top of it: bounded queues, reply ports, calls of many tasks interleaved at every yield, together with every operation on capabilities |
| `fat32_*.dfy`, `fat32.dfy` | FAT32 chains behind the one-sector write-back buffer, files on top of them, the directory entry that a write updates, and blank volumes |
| `blockcache.dfy` | the write-back sector cache |
| `event_ring.dfy` | the lock-free event ring as two interleaved step machines |
| `frames.dfy` | the physical frame allocator |
| `signal_frame.dfy`, `signals.dfy` | the signal frame on the user stack, and signal state |
| `users.dfy` | the user database, printed and parsed |
| `paths.dfy` | path canonicalisation |
| `line.dfy` | Bresenham's line |
| `crc32.dfy` | the table-driven CRC-32 |
| `arith.dfy`, `bytes.dfy`, `bitcount.dfy`, `cstrings.dfy`, `sets.dfy`, `wrappers.dfy` | facts that several models share |

`dafny verify dfyconfig.toml` checks everything.

Main results, in the system's own terms:

- **ext2 files are flat arrays.** At whatever offset, a write keeps the invariant and
  changes no other file. It is read back if and only if it ends below 2^32, and until
  a write does not, each is the functional update of one byte array, with zeros in
  gaps; a read is a slice of it.
  Setting a block of the map and looking it up again is get-after-put with a
  frame over all other logical blocks of all inodes. No block has two owners and
  i_blocks counts exactly the blocks of the file. The last unlink clears blocks of
  the file only, once each, and it clears all of them if and only if the size, rounded
  up to blocks in 32 bits, covers every data block.
- **ext2 directories are maps.** Records always tile their block; add, look up and
  remove are insertion, lookup and removal on a name-to-inode map.
- **ext2 trees.** From an image with a root directory, through every run of create,
  mkdir, write at any offset and unlink, every entry of every directory names an
  inode in use, and no inode has fewer links than entries that name it, so that no
  name is left to an inode that unlink frees. The one step that breaks this is a
  mkdir in a directory with 65535 links.
- **Capabilities.** Every operation keeps: a reference count is the number of
  outside references plus the number of children, the active count is the number
  of valid entries, every parent link names a valid entry, rights only shrink
  along a derivation. Revocation removes exactly the descendants and the
  ancestors that it leaves without a reference, and terminates.
- **IPC.** For every interleaving of steps, each port is a bounded queue that
  delivers what it accepted once, in order, with growing numbers, and its logs are
  only ever added to; other tasks may create, derive, transfer, share, give up and
  revoke capabilities in between, those of ports included; ports and capabilities
  are restored whenever the waiting calls are, as long as nobody takes a reference
  or reshapes the capability table; a late reply finds no port.
- **FAT32.** Allocation, freeing and writing keep the chains disjoint and acyclic, the
  free count exact, and the buffered table one logical array. How many bytes a write
  stores follows from the clusters that are free and those that the file has. A
  complete write is read back if and only if it ends below 2^32, keeps its directory
  entry up to date and leaves other files alone; a write that finds no space changes
  no byte of any file.
- **Paths and checksums.** A canonical path is determined component by component: a
  name is appended, '.' changes nothing, '..' takes back the name before it, slashes
  that stand alone do not count. The table-driven CRC-32 is the bit-serial one for the
  IEEE 802.3 polynomial, and a change of any one byte changes it.
- **Block cache.** Lookups and evictions never change what the cache shows, a write
  changes it at one sector, a flush makes the disk equal to it, and an
  invalidation loses nothing exactly when no slot differs from the disk.
- **The line.** Bresenham's line is within half a pixel of the ideal one, without gaps,
  and nothing computed on the way leaves 32 bits if and only if the two sides satisfy
  an inequality in which their greatest common divisor occurs.
- **Event ring.** In every interleaving what was popped is a prefix of what was
  accepted, at most 256 events are in between even when the 32-bit counters wrap,
  and a slot is never filled while it is read. A push is rejected exactly when 256
  events were in the ring at its load and otherwise appends its event; a pop comes
  back empty exactly when none was, and otherwise takes the oldest; both return after
  a bounded number of their own steps.

Where the code and its own comments disagree, the model follows the code:

- include/kernel/ipc.h says that an urgent message jumps to the front of the queue;
  the code does not look at the flag. `Ipc.NextDelivered`: whatever its flags, a
  message just accepted is delivered next if and only if the queue was empty.
  `Ipc.UrgentWaits` is an urgent message that is received second.
- include/kernel/signal.h says that an action's mask is blocked while its handler
  runs; delivery blocks the signal itself only. `Signals.Process.RunHandler`: the
  mask is blocked if and only if it lies in what was blocked before and, unless
  SA_NODEFER is set, that signal.
  `Signals.MaskIgnored` is a handler that runs with its mask unblocked.
- fs/blockcache.c calls itself direct-mapped and speaks of evicting the dirty slot
  used longest ago; the code searches all slots and prefers a clean one.

Where the code does what one would expect of it only under a condition, that
condition is stated and the failing case is shown:

- The new size of an ext2 file has 32 bits. `Ext2.Ext2Fs.Write`: what was written is
  read back if and only if the write ends below 2^32. `Ext2Runs.SizeOut` writes a byte
  at 2^32 - 1 that is not read back.
- The new size of a FAT32 file has 32 bits too, and may fall below the old one.
  `Fat32.Fat32Fs.WriteThenRead`: what was written is read back if and only if the write
  ends below 2^32. `Fat32.Fat32Fs.WriteThenReadOld`: an old byte is still read if and
  only if it lies below the new size. `Fat32Volumes.SizeCut`: two bytes at 2^32 - 1 cut
  a file of 100 bytes down to 1.
- A new FAT32 cluster is blanked only by the first of two scans.
  `Fat32.Fat32Fs.AllocCluster`: it is blank if and only if it was found at or behind
  the hint, and otherwise shows what it held. `Fat32Volumes.StaleCluster` gets such a
  one.
- The last unlink of an ext2 file counts its blocks in 32 bits.
  `Ext2Release.ReleasedExact` says for every file which blocks it clears and when
  these are all; `Ext2.Ext2Fs.LoseBlock` loses one of any file of that kind with three
  free blocks, and `Ext2Runs.BlockOut` does so from a blank image.
- A directory's link count has 16 bits. `Ext2Links.SoundMkdir`: a mkdir keeps links
  and names in step if and only if the parent has less than 65535 links.
  `Ext2Runs.LinksOut` is a sound image with such a parent and the mkdir that breaks it.
- The null pointer that `pmm_alloc_frame` and `pmm_alloc_frames` return for failure
  is also the address of frame 0. `Frames.NullExact`: null means that there is no
  such run if and only if none starts at frame 0. `Frames.NullFrame` gets frame 0.
- The reference count of a frame saturates at 255. `Frames.FreesNeeded` says for
  every number of extra references which free releases the frame.
- Path canonicalisation has room for 64 parts. `Paths.Canonicalise` states the exact
  result for every path; `Paths.ResolvedCanonical` that within the limits it is the
  canonical path if and only if the buffer has room; `Paths.NamesExact` that a path of names alone is resolved correctly
  if and only if it has at most 64; `Paths.DeepPathCut` that of more the first 64 are kept.
- The line doubles its error term. `Line.DrawLine` and `Line.RoundsExact`: all values
  fit 32 bits if and only if `Line.Fits` holds of the two sides. `Line.StraightExact`:
  a horizontal line must be shorter than 2^30, a vertical one at most that, and any
  diagonal will do. `Line.NearDiagonal` is a line just off the diagonal that does not
  fit, because the error less `dy` does not.

## Model

| member | source | states |
|---|---|---|
| `Capabilities.ChainAttenuates` | kernel/cap.c:100-140 | along any derivation chain rights only shrink, and type and object stay those of the ancestor |
| `Capabilities.RemoveOne` | kernel/cap.c:146-159 | taking one entry out leaves its parent's count one too high and everything else balanced |
| `Capabilities.ReleaseCompose` | kernel/cap.c:206-225 | one step of the upward cascade composes with the release of the parent |
| `Capabilities.ReleasedExactly` | kernel/cap.c:206-225 | a release removes exactly the ancestors, the entry included, that are left with no outside reference and no surviving child |
| `Capabilities.ReleasedLinked` | kernel/cap.c:206-225 | a release leaves no parent link dangling |
| `Capabilities.RevokeChild` | kernel/cap.c:161-165 | the half-way invariant of a revocation survives the revocation of one more child |
| `Capabilities.RevokeCompose` | kernel/cap.c:146-168 | when no valid entry names the revoked one any more, the revocation is complete and no link is newly dangling |
| `Capabilities.RevokedExactly` | kernel/cap.c:146-168 | survivors are exactly the entries that are neither descendants nor ancestors left without references; none has the revoked id on its ancestor chain; every link names a valid entry |
| `Capabilities.CreateSound` | kernel/cap.c:70-94 | a new root keeps the accounting and the links |
| `Capabilities.DeriveSound` | kernel/cap.c:100-140 | a derivation, with its reference on the parent, keeps the accounting, the links and the attenuation |
| `Capabilities.CapTable.constructor` | kernel/cap.c:53-63 | the empty table is valid |
| `Capabilities.CapTable.AllocSlot` | kernel/cap.c:33-40 | a free slot, or none exactly when all are taken |
| `Capabilities.CapTable.Get` | kernel/cap.c:174-183 | the slot of a valid id, or none exactly when the id is not valid |
| `Capabilities.CapTable.Check` | kernel/cap.c:189-194 | true exactly when the capability is valid and has all the required rights |
| `Capabilities.CapTable.Create` | kernel/cap.c:70-94 | fails exactly on a full table; else adds one root under a fresh id, keeping the invariant |
| `Capabilities.CapTable.Derive` | kernel/cap.c:100-140 | fails exactly for a missing parent, an escalation, a parent without the manage right or a full table; else adds one child with exactly the reduced rights, the type, object and owner of the parent and one reference, counts it on the parent and leaves every other entry alone |
| `Capabilities.CapTable.AddRef` | kernel/cap.c:200-204 | one reference more on a valid entry, nothing else |
| `Capabilities.CapTable.Transfer` | kernel/cap.c:231-246 | changes the owner exactly when the entry is valid and grantable |
| `Capabilities.CapTable.ReleaseDue` | kernel/cap.c:206-225 | drops one reference that is one too many, and so on upwards, inside a table whose links may dangle |
| `Capabilities.CapTable.Release` | kernel/cap.c:206-225 | keeps the invariant, with the exact set of removed entries |
| `Capabilities.CapTable.Revoke` | kernel/cap.c:146-168 | terminates on the number of valid entries, reports whether the id was valid, keeps the invariant, with the exact set of survivors |
| `Capabilities.CapTable.RevokeChildren` | kernel/cap.c:161-165 | afterwards no valid entry names the revoked id, and only descendants of it are gone |
| `Ext2Map.PhysAtLeaf` | fs/ext2.c:107-162 | the lookup of a logical block reads the one place that the block's number stands for |
| `Ext2Map.LeafInjective` | fs/ext2.c:107-162 | different logical blocks stand for different places |
| `Ext2Map.LeafOnto` | fs/ext2.c:107-162 | every entry of every inner table is the place of some logical block |
| `Ext2Map.OwnsNoSharing` | fs/ext2.c:107-162 | no block is pointed to from two places |
| `Ext2Map.MapPutAtLeaf` | fs/ext2.c:294-347 | changing one pointer changes the map at one logical block of one inode |
| `Ext2Map.TablePut` | fs/ext2.c:294-347 | writing one entry of an indirect table changes one pointer |
| `Ext2Map.SlotPut` | fs/ext2.c:294-347 | writing one slot of an inode changes one pointer |
| `Ext2Map.ViewWrite` | fs/ext2.c:498-501 | bytes stored in a mapped block show up in that file at that place and nowhere else |
| `Ext2Bitmap.FindClear` | fs/ext2.c:187-217 | the lowest clear bit, or none exactly when all bits are set, although groups with count 0 are skipped |
| `Ext2Bitmap.TakeCounted` | fs/ext2.c:187-217 | setting a clear bit keeps all three counts exact and changes no other bit |
| `Ext2Bitmap.GiveCounted` | fs/ext2.c:250-268 | clearing a set bit keeps all three counts exact and changes no other bit |
| `Ext2Bitmap.TakeGive` | fs/ext2.c:223-287 | giving back what was taken restores the bitmap and its counts |
| `Ext2Bitmap.FullCount` | fs/ext2.c:187-217 | the count is 0 exactly when no bit is clear |
| `Ext2State.GrabCore` | fs/ext2.c:187-217 | taking and zeroing a clear block changes no file |
| `Ext2State.MapDirect` | fs/ext2.c:299-303 | a direct pointer is set, with its owner and its share of i_blocks |
| `Ext2State.HangSlot` | fs/ext2.c:307-313 | hanging a blank indirect table into an inode changes no file |
| `Ext2State.HangEntry` | fs/ext2.c:331-338 | hanging a blank second-level table changes no file |
| `Ext2State.BlocksExact` | fs/ext2.c:294-347 | no block belongs to two files, every block of a file is marked used, i_blocks counts its blocks exactly |
| `Ext2State.WriteRefines` | fs/ext2.c:469-512 | the byte-level effect of a write is the overlay of one flat array and leaves all others |
| `Ext2State.WriteCut` | fs/ext2.c:504-508 | a write that ends at or past 2^32 does not refine the overlay, since the size is cut off |
| `Ext2State.WrittenShows` | fs/ext2.c:433-512 | reading where it was written gives the bytes back if and only if the write ends below 2^32 |
| `Ext2State.LandingBlock` | fs/ext2.c:485-487 | with block numbers in 32 bits an offset leads to the position that it has modulo 2^32 blocks |
| `Ext2State.ReachSpan` | fs/ext2.c:294-347 | every block that a file can map lies below that |
| `Ext2State.WritingCut` | fs/ext2.c:504-508 | a file whose size was cut off keeps every other file and the whole invariant, except that it may have blocks behind its end |
| `Ext2State.ReadAfterWrite` | fs/ext2.c:433-512 | the slice of the overlay is what was laid over |
| `Ext2Release.VisitedIsOwned` | fs/ext2.c:734-754 | the blocks that unlink visits are exactly those the inode owns, provided that the block count covers every mapped block |
| `Ext2Release.ReleasedExact` | fs/ext2.c:735-754 | with the block count in 32 bits, all blocks of the file are visited if and only if the count covers every data block; for a file that was never cut off that is if and only if the sum does not wrap or there is no data block, and otherwise exactly the tables are visited |
| `Ext2Release.ReleasedClears` | fs/ext2.c:735-754 | the same, said of the bitmap that is left |
| `Ext2Release.LastBlockLost` | fs/ext2.c:735-740 | with 4 KiB blocks and size 0xFFFFFFFF every data block is owned and not visited |
| `Ext2Release.KeptReserved` | fs/ext2.c:735-757 | a block that was not cleared stays marked and belongs to nobody |
| `Ext2Release.EraseValid` | fs/ext2.c:733-757 | freeing an inode and any of its blocks keeps every other file and the whole invariant |
| `Ext2Release.BornValid` | fs/ext2.c:611-632 | a new empty inode keeps every other file and the whole invariant |
| `Ext2Dir.AddAtLive` | fs/ext2.c:355-427 | adding a record, by reuse or by splitting, keeps the tiling and inserts exactly that entry |
| `Ext2Dir.FindSlot` | fs/ext2.c:374-405 | the first record with room, or none exactly when no record has room |
| `Ext2Dir.FindName` | fs/ext2.c:518-557 | the first live record with the name, or none exactly when there is none |
| `Ext2Dir.ClearInoLive` | fs/ext2.c:724-728 | clearing a record's inode number keeps the tiling and removes exactly that entry |
| `Ext2Dir.RemovedFits` | fs/ext2.c:374-405 | a removed record leaves room for every name no longer than its own |
| `Ext2Tree.LookupUnique` | fs/ext2.c:518-557 | without duplicate names, every entry is what its name finds |
| `Ext2Tree.AddedLookup` | fs/ext2.c:355-427 | adding a new name is insertion into the map and keeps names unique |
| `Ext2Tree.RemovedLookup` | fs/ext2.c:724-728 | removing an entry is removal from the map and keeps names unique |
| `Ext2Tree.GrownValid` | fs/ext2.c:408-426 | a directory grown by one block of records lists the old entries and then those |
| `Ext2Mkdir.DotsLive` | fs/ext2.c:660-676 | the first block of a new directory is tiled by two records and lists '.' and '..' |
| `Ext2Mkdir.UnmakeValid` | fs/ext2.c:679-683 | a directory whose name could not be added leaves nothing behind |
| `Ext2.Ext2Fs.AllocBlock` | fs/ext2.c:187-217 | 0 exactly on a full bitmap; else the lowest free block, zeroed, that nothing points to, and one free block less |
| `Ext2.Ext2Fs.EnsureSlot` | fs/ext2.c:307-313 | the first-level table is there, without any change to a file, unless the disk is full |
| `Ext2.Ext2Fs.EnsureEntry` | fs/ext2.c:331-338 | the second-level table is there, without any change to a file, unless the disk is full |
| `Ext2.Ext2Fs.SetThrough` | fs/ext2.c:314-317 | an entry of a table that is there maps one logical block and no other |
| `Ext2.Ext2Fs.SetDouble` | fs/ext2.c:321-343 | the same through two levels |
| `Ext2.Ext2Fs.InodeSetBlock` | fs/ext2.c:294-347 | maps one logical block and no other, across all levels; fails only past the double-indirect reach or with at most one free block, and then no file has changed |
| `Ext2.Ext2Fs.BlockForWrite` | fs/ext2.c:489-496 | the block for a logical block, mapped on demand without changing any byte of any file; none only past the reach or with at most two free blocks |
| `Ext2.Ext2Fs.Write` | fs/ext2.c:469-512 | at every offset: the invariant holds again and all other files stay; what was written is read back if and only if it ends below 2^32, and then a file that was never cut off becomes the overlay; past it the file is not the overlay; a short write happens only past the reach or when fewer than three free blocks are left |
| `Ext2.Ext2Fs.WriteBytes` | fs/ext2.c:479-511 | byte by byte: what was written shows at the place that 32-bit block numbers lead to, every other byte of every file is as before, the size is the larger of the old one and the new end modulo 2^32 |
| `Ext2.Ext2Fs.WriteChunk` | fs/ext2.c:485-503 | one round of the loop: the bytes of one block show, and it stops only past the reach or with at most two free blocks |
| `Ext2.Ext2Fs.SetSize` | fs/ext2.c:503-508 | with the new size the whole invariant holds again, the file counting as cut off if the end does not fit 32 bits; the bytes and the other files stay |
| `Ext2.Ext2Fs.Read` | fs/ext2.c:433-467 | the slice of the file's contents: as many bytes as the size allows, each that of the file |
| `Ext2.Ext2Fs.WriteThenRead` | fs/ext2.c:433-512 | what was written is read back if and only if it ends below 2^32 |
| `Ext2.Ext2Fs.FindDir` | fs/ext2.c:518-557 | the inode number of a name, or none exactly when it is not there |
| `Ext2.Ext2Fs.ReadDir` | fs/ext2.c:559-605 | the entry with that index, so that counting up visits each live entry once |
| `Ext2.Ext2Fs.FreeBlock` | fs/ext2.c:250-268 | exactly the bit of an allocated block is cleared and all three counts stay exact; block 0 and blocks before the first data block change nothing |
| `Ext2.Ext2Fs.GrowDir` | fs/ext2.c:408-426 | a new last block holds exactly the entry; on failure the block is given back and nothing has changed |
| `Ext2.Ext2Fs.FillNewBlock` | fs/ext2.c:416-425 | the new block counts in the size and the entry follows the old ones |
| `Ext2.Ext2Fs.DirAddEntry` | fs/ext2.c:355-427 | adds exactly the entry, in a new block only if no record of any block has room; or fails without changing the entries when no block can be added |
| `Ext2.Ext2Fs.AllocInode` | fs/ext2.c:223-247 | the lowest free inode number, or 0 exactly when there is none |
| `Ext2.Ext2Fs.FreeInode` | fs/ext2.c:271-287 | exactly the bit of an allocated inode is cleared and all three counts stay exact |
| `Ext2.Ext2Fs.Create` | fs/ext2.c:611-632 | an empty file under the new name, with its mode and one link; fails only without a free inode or without room for the entry, with the same files and entries as before |
| `Ext2.Ext2Fs.NewDir` | fs/ext2.c:642-656 | an inode and a blank block, or neither |
| `Ext2.Ext2Fs.MakeDots` | fs/ext2.c:653-676 | an empty inode becomes a directory of one block that lists '.' and '..', no other file changes |
| `Ext2.Ext2Fs.Unmake` | fs/ext2.c:679-683 | block and inode are given back and every other file is as before |
| `Ext2.Ext2Fs.Mkdir` | fs/ext2.c:638-695 | a directory with '.' and '..' under the new name, two links, one more link on the parent, counted in 16 bits; fails only without a free inode, block or room, with the same files and entries as before |
| `Ext2.Ext2Fs.FreeData` | fs/ext2.c:737-740 | clears exactly the data blocks below the given count |
| `Ext2.Ext2Fs.FreeTables` | fs/ext2.c:741-754 | clears exactly the indirect tables besides |
| `Ext2.Ext2Fs.FreeInner` | fs/ext2.c:746-753 | clears exactly the second-level tables and the first-level one |
| `Ext2.Ext2Fs.DropLink` | fs/ext2.c:730-758 | one link less; with the last link the inode is free, blocks of the file are cleared, all of them if and only if the 32-bit block count covers every data block, and every other file stays |
| `Ext2.Ext2Fs.Unlink` | fs/ext2.c:702-765 | removes the first entry of that name and drops its link, also if the name is the directory's own; a missing name changes nothing |
| `Ext2.Ext2Fs.UnlinkAt` | fs/ext2.c:724-759 | the same, once the record is found |
| `Ext2.Ext2Fs.LoseBlock` | fs/ext2.c:730-757 | a file with one link on an image with 4 KiB blocks, three of them free: one byte is written at offset 0xFFFFFFFE, then the last link dropped; the byte's block stays marked and belongs to nobody |
| `Ext2Links.CountAdded` | fs/ext2.c:355-427 | an added entry is one more that names its inode |
| `Ext2Links.CountRemoved` | fs/ext2.c:724-728 | a removed entry is one less |
| `Ext2Links.LinkFile` | fs/ext2.c:611-632 | a new file with one link and one name keeps names and links in step |
| `Ext2Links.LinkDir` | fs/ext2.c:638-695 | a new directory with its name, '.' and '..' keeps them in step if and only if the parent has less than 65535 links |
| `Ext2Links.LinkLess` | fs/ext2.c:727-732 | one name and one link less keep them in step |
| `Ext2Links.LinkGone` | fs/ext2.c:727-757 | after the last link no entry of any directory names the inode, also if it was a directory |
| `Ext2Links.DirFits` | fs/ext2.c:409-417 | a directory is smaller than the image of at most 32 MB that kernel/diskman.c mounts, so its size never leaves 32 bits |
| `Ext2Links.SizesSmall` | fs/ext2.c:409-417 | every size of a sound image is a 32-bit number and stays one when a directory grows |
| `Ext2Links.SoundFound` | fs/ext2.c:724-730 | every name of a directory leads to an inode in use that has a link |
| `Ext2Links.SoundCreate` | fs/ext2.c:611-632 | create keeps the image sound |
| `Ext2Links.SoundFail` | fs/ext2.c:627-630 | so does a create or mkdir that fails |
| `Ext2Links.SoundMkdir` | fs/ext2.c:638-695 | mkdir keeps it sound if and only if the parent has less than 65535 links |
| `Ext2Links.SoundWrite` | fs/ext2.c:469-512 | a write to a file keeps it sound |
| `Ext2Links.SoundLess` | fs/ext2.c:724-732 | so does unlink of a name of an inode with further links, the directory itself included |
| `Ext2Links.SoundGone` | fs/ext2.c:724-758 | and of the last link of another inode |
| `Ext2Links.SoundSelf` | fs/ext2.c:724-758 | and of the last link of the directory itself, by its own '.' |
| `Ext2Links.SoundRoot` | fs/ext2.c:858-864 | an image with a root directory only is sound, whatever link count of at least two it has |
| `Ext2Runs.Format` | fs/ext2.c:858-864 | there is such an image, with the root in inode 2 |
| `Ext2Runs.SoundReach` | fs/ext2.c:408-426 | a directory of a sound image never comes near the double-indirect reach |
| `Ext2Runs.LinksOut` | fs/ext2.c:685-690 | from a sound image with 65535 links on the root, mkdir leaves an image that is not sound |
| `Ext2Runs.SizeOut` | fs/ext2.c:433-632 | from a blank image: create, then one byte at 0xFFFFFFFF that is reported written and not read back |
| `Ext2Runs.BlockOut` | fs/ext2.c:611-757 | from a blank image: create, one byte at 0xFFFFFFFE, last link dropped; a block stays marked that belongs to nobody |
| `Ext2Runs.DoMakeFile` | fs/ext2.c:611-632 | create on any directory of a sound image |
| `Ext2Runs.DoMakeDir` | fs/ext2.c:638-695 | mkdir on any directory: the image stays sound, or the parent had 65535 links and it does not |
| `Ext2Runs.DoWriteFile` | fs/ext2.c:469-512 | write to any file at any offset |
| `Ext2Runs.DoRemoveName` | fs/ext2.c:702-765 | unlink of any name in any directory |
| `Ext2Runs.Run` | fs/ext2.c:469-765 | every run of these keeps the image sound, up to the first mkdir in a directory with 65535 links |
| `Fat32Chains.ForestDisjoint` | fs/fat32.c:129-178 | a cluster is on one chain at one position only |
| `Fat32Chains.NewHead` | fs/fat32.c:129-166 | a free cluster becomes a chain of its own |
| `Fat32Chains.NewTail` | fs/fat32.c:129-166 | a free cluster becomes the tail of a chain |
| `Fat32Chains.ChainFreed` | fs/fat32.c:168-178 | freeing a whole chain leaves the other chains as they were |
| `Fat32Chains.CountFreeUpdate` | fs/fat32.c:129-178 | how the number of free entries follows one change of the table |
| `Fat32Chains.NoneCount` | fs/fat32.c:129-166 | a table without a free entry counts none |
| `Fat32Disk.FatPut` | fs/fat32.c:84-93 | writing one entry into its sector changes the table at one index |
| `Fat32Disk.EntryPlace` | fs/fat32.c:74-93 | the entries of the table lie one behind the other, four bytes each |
| `Fat32Disk.LbaApart` | fs/fat32.c:98-101 | different clusters have different sectors |
| `Fat32File.ReadBack` | fs/fat32.c:557-714 | what a file shows where it was written is the data |
| `Fat32File.SpotSame` | fs/fat32.c:611-612 | below 2^32 the 32-bit cluster index leads to the offset itself |
| `Fat32File.SpotIsRemainder` | fs/fat32.c:612-613 | in general a write lands at its offset modulo 2^32 clusters |
| `Fat32File.SizeAfterIs` | fs/fat32.c:679-681 | the new size reaches the end of the write if and only if that is below 2^32, and then no byte falls behind the size |
| `Fat32File.OtherFilesKept` | fs/fat32.c:597-714 | a write to one file leaves every byte of every other file |
| `Fat32Dirent.StampedReads` | fs/fat32.c:288-289 | first cluster and size are read back from the record as they were written, and its other bytes are as before |
| `Fat32Dirent.DirentPlace` | fs/fat32.c:690-702 | entry `idx` begins at byte 32 * idx of the directory |
| `Fat32Dirent.StampRecord` | fs/fat32.c:698-705 | first cluster and size are read back from that record of the directory |
| `Fat32Dirent.StampOnly` | fs/fat32.c:698-705 | no byte of the directory outside of that record's two fields changes |
| `Fat32Dirent.HomeApart` | fs/fat32.c:685-710 | the cluster with the record is on no other chain |
| `Fat32Dirent.StampElsewhere` | fs/fat32.c:685-710 | bringing the record up to date shows in no other file |
| `Fat32Dirent.OldByte` | fs/fat32.c:597-714 | a byte below the old end that was not written is read as it was |
| `Fat32.OutcomeDone` | fs/fat32.c:641-676 | a write that used `k` of the `n` clusters there are stored exactly what fits |
| `Fat32.Fat32Fs.constructor` | fs/fat32.c:843-882 | a volume whose table is a forest is mounted with an empty buffer and satisfies the invariant |
| `Fat32.Fat32Fs.LoadSector` | fs/fat32.c:47-57 | the buffer holds the wanted sector, clean if it was loaded, and what disk and buffer show together is unchanged |
| `Fat32.Fat32Fs.NextCluster` | fs/fat32.c:74-82 | the entry of the logical table |
| `Fat32.Fat32Fs.SetFat` | fs/fat32.c:84-93 | the logical table changes at one index, no cluster changes |
| `Fat32.Fat32Fs.Sync` | fs/fat32.c:914-922 | the disk becomes what disk and buffer showed |
| `Fat32.Fat32Fs.ReadCluster` | fs/fat32.c:103-113 | the bytes of the cluster |
| `Fat32.Fat32Fs.WriteCluster` | fs/fat32.c:115-125 | this cluster becomes the data, no other changes |
| `Fat32.Fat32Fs.FindFree` | fs/fat32.c:129-166 | the first free cluster of a range, or its end when there is none |
| `Fat32.Fat32Fs.Link` | fs/fat32.c:129-166 | the cluster is ended and hung behind the previous one, hint and free count follow, one free cluster less |
| `Fat32.Fat32Fs.AllocCluster` | fs/fat32.c:129-166 | 0 exactly when no cluster is free; else the first free cluster from the hint on, or the first of all, becomes the new tail or a new chain; it is blank if and only if it was found from the hint on, and else as it was; the hint follows it, one free cluster less, a known free count stays exact |
| `Fat32.Fat32Fs.FreeChain` | fs/fat32.c:168-178 | terminates, frees exactly the chain, keeps the others and the free count |
| `Fat32.Fat32Fs.Advance` | fs/fat32.c:667-675 | the next cluster of the chain, allocated at its end if need be; free clusters and those of the chain together stay as many, a known free count stays exact |
| `Fat32.Fat32Fs.Onward` | fs/fat32.c:630-638 | the same while a file is being written: what was written still shows |
| `Fat32.Fat32Fs.Seek` | fs/fat32.c:628-639 | the cluster of the offset, with the chain extended up to it; none only if all clusters are used up before |
| `Fat32.Fat32Fs.PutChunk` | fs/fat32.c:646-662 | a partial write keeps the other bytes of the cluster |
| `Fat32.Fat32Fs.PutPart` | fs/fat32.c:646-662 | a partial write of one cluster of the file adds its bytes to what shows, and nothing else |
| `Fat32.Fat32Fs.WriteFrom` | fs/fat32.c:641-676 | the loop: what is done shows, everything else is as before; it stops short only where the chain ends and no cluster is free |
| `Fat32.Fat32Fs.Read` | fs/fat32.c:557-595 | the bytes of the file from the offset on, as many as size and chain allow; none without a first cluster |
| `Fat32.Fat32Fs.WriteFile` | fs/fat32.c:597-683 | at every offset: how many bytes are written follows from the free clusters and those of the file; they show, all others below the old end stay, those behind it are zero or what the new clusters held, clusters off the chain stay, other chains stay; without space for the first byte no byte and no other chain differs; the new size is the end modulo 2^32 if the end is past the old size; a known free count stays exact |
| `Fat32.Fat32Fs.WriteDirent` | fs/fat32.c:685-710 | record `idx` of the directory, if it is there, reads first cluster and size; no other byte of the directory and no other cluster changes, and nothing at all for a file without an entry |
| `Fat32.Fat32Fs.Write` | fs/fat32.c:597-714 | both of these, seen from before the write: record `idx` of the directory reads the file's first cluster and new size and no other byte of the directory differs; the file shows what was written; the disk is synced; without space no byte and no other chain differs |
| `Fat32.Fat32Fs.WriteThenRead` | fs/fat32.c:557-714 | a complete write is read back exactly if and only if it ends below 2^32 |
| `Fat32.Fat32Fs.WriteThenReadOld` | fs/fat32.c:557-714 | after a write, a byte of the old file outside of the data is read as it was if and only if it lies below the new size |
| `Fat32Volumes.BlankTable` | fs/fat32.c:843-882 | on a volume with a blank table every cluster is free and the empty forest is that of its table |
| `Fat32Volumes.Format` | fs/fat32.c:843-882 | such a volume can be mounted, whatever its data area holds, with an exact free count |
| `Fat32Volumes.StaleCluster` | fs/fat32.c:152-161 | with the hint behind the last cluster, a new cluster shows the bytes that the volume held there |
| `Fat32Volumes.LargeVolume` | fs/fat32.c:862-869 | 65600 clusters of 64 KiB make a volume of more than 4 GiB |
| `Fat32Volumes.CutFile` | fs/fat32.c:679-683 | two bytes at 2^32 - 1, both reported written, cut a file of 100 bytes down to 1: they cannot be read, and of the old bytes only the first can |
| `Fat32Volumes.SizeCut` | fs/fat32.c:597-714 | the same from a blank volume of more than 4 GiB |
| `BlockCache.DropClean` | fs/blockcache.c:49-82 | dropping a slot that agrees with the disk changes nothing that the cache shows |
| `BlockCache.WriteBack` | fs/blockcache.c:72-79 | writing a dirty slot back changes nothing that the cache shows |
| `BlockCache.FlushedIsView` | fs/blockcache.c:148-163 | where no slot of a drive is dirty, the disk is what the cache shows |
| `BlockCache.InvalidateLoses` | fs/blockcache.c:172-178 | invalidating loses nothing exactly when the drive's slots hold what the disk holds |
| `BlockCache.Cache.Find` | fs/blockcache.c:35-44 | the one slot of a sector, or none exactly when it is not cached |
| `BlockCache.Cache.Victim` | fs/blockcache.c:49-71 | a free slot, else the clean slot used longest ago, else the slot used longest ago |
| `BlockCache.Cache.Evict` | fs/blockcache.c:49-82 | exactly the victim becomes free, written back exactly if it was dirty, and what the cache shows stays |
| `BlockCache.Cache.Get` | fs/blockcache.c:87-114 | the slot with the sector's bytes, on a miss the victim's, or none exactly for a bad drive number or a sector that is not there; what the cache shows stays |
| `BlockCache.Cache.Modify` | fs/blockcache.c:116-120 | writing through the pointer and marking dirty changes what the cache shows at that sector only |
| `BlockCache.Cache.WriteThrough` | fs/blockcache.c:122-146 | changes disk and view at that sector only and leaves its slot clean |
| `BlockCache.Cache.Flush` | fs/blockcache.c:148-163 | the view stays, the drive's sectors on disk become the view, other drives stay |
| `BlockCache.Cache.Invalidate` | fs/blockcache.c:172-178 | the drive's sectors fall back to the disk; nothing is lost exactly when they agreed |
| `BlockCache.Cache.FlushInvalidate` | fs/blockcache.c:148-178 | a flush followed by an invalidation loses nothing and leaves no slot of the drive |
| `EventRing.ChecksExact` | gui/event.c:21-41 | the full and empty comparisons on 32-bit counters are exact at the time of the load |
| `EventRing.StepInv` | gui/event.c:21-36 | every step of either side keeps the invariant |
| `EventRing.RingSafe` | gui/event.c:21-36 | in every state of every interleaving: popped is a prefix of accepted, the counters differ by 0 to 256, no slot is filled while it is read |
| `EventRing.PushExact` | gui/event.c:21-27 | for every push of every interleaving, when it returns: if 256 events were in the ring at its load nothing was accepted, else its event was appended |
| `EventRing.PopExact` | gui/event.c:29-36 | for every pop, when it returns: if no event was in the ring at its load nothing was taken, else the oldest was |
| `EventRing.CallsEnd` | gui/event.c:21-36 | every step of a call brings it nearer to its end and no step of the other side delays it |
| `EventRing.AlwaysEnabled` | gui/event.c:21-36 | neither side ever waits for the other |
| `Ipc.EnqueueAppends` | kernel/ipc.c:148-154 | the ring after an enqueue stands for the queue with the message at its end |
| `Ipc.DequeueRemoves` | kernel/ipc.c:172-175 | the ring after a dequeue stands for the queue without its first message |
| `Ipc.DeliveredInOrder` | kernel/ipc.c:129-189 | deliveries are a prefix of what was accepted, with strictly growing numbers |
| `Ipc.NextDelivered` | kernel/ipc.c:148-154 | whatever its flags, a message just accepted is the next one delivered if and only if the queue was empty |
| `Ipc.UrgentWaits` | kernel/ipc.c:129-176 | an urgent message sent after another one is received after it |
| `Ipc.ReleaseLeafRoot` | kernel/cap.c:206-225 | releasing a root without children touches nothing else and removes it exactly with the last reference |
| `Ipc.MadeAndReleased` | kernel/ipc.c:195-213 | a capability made and given up leaves no trace |
| `Ipc.PortTable.constructor` | kernel/ipc.c:58-69 | the empty port table is valid |
| `Ipc.PortTable.Find` | kernel/ipc.c:35-43 | the slot of a valid port, or none exactly when there is none |
| `Ipc.PortTable.Alloc` | kernel/ipc.c:45-52 | a free slot, or none exactly when all are taken |
| `Ipc.PortTable.Install` | kernel/ipc.c:83-92 | a free slot becomes a port with an empty queue under a fresh number |
| `Ipc.PortTable.Remove` | kernel/ipc.c:105-109 | the slot becomes free, other ports and waiting calls stay |
| `Ipc.PortTable.GiveUp` | kernel/ipc.c:111-114 | the capability goes exactly with its last reference, no other entry changes; one that was revoked changes nothing |
| `Ipc.PortTable.Grantable` | kernel/ipc.c:138-146 | true exactly when every capability carried is valid and grantable |
| `Ipc.PortTable.Create` | kernel/ipc.c:75-101 | PORT_INVALID exactly on a full table; else a fresh port with an empty queue and a root capability of its own, or none exactly when the capability table is full |
| `Ipc.PortTable.Destroy` | kernel/ipc.c:103-117 | the port goes, its capability goes with it exactly when nobody else refers to it |
| `Ipc.PortTable.Send` | kernel/ipc.c:129-158 | exactly when which error; else the message at the end of the queue under the next number |
| `Ipc.PortTable.ReceivePass` | kernel/ipc.c:171-188 | the oldest message, or exactly when which error, or another round |
| `Ipc.WaitsExactly` | kernel/ipc.c:181-188 | on a queue that stays empty a call goes on waiting for exactly as many passes as its limit allows at two milliseconds each |
| `Ipc.PortTable.CallBegin` | kernel/ipc.c:195-213 | a call that returns before it waits has restored ports and capabilities; else exactly its reply port is new and the request with its number was accepted |
| `Ipc.PortTable.CallSend` | kernel/ipc.c:201-212 | the part after the reply port was made |
| `Ipc.PortTable.CallPass` | kernel/ipc.c:209-212 | the first reply, or timeout, or another round; while a call waits nothing changes; when it ends its reply port is gone, and the capability unless someone took a reference |
| `Ipc.PortTable.Reply` | kernel/ipc.c:219-229 | a reply to a port that is gone is rejected and reaches no queue |
| `Ipc.PortTable.AddRef` | kernel/cap.c:200-204 | a reference taken on any capability keeps the invariant of the ports |
| `Ipc.HoldingRevoked` | kernel/cap.c:146-168 | a revocation takes a port's capability only if it is the one revoked |
| `Ipc.HoldingLess` | kernel/cap.c:206-225 | a release takes no port's capability while the port's own reference is left |
| `Ipc.HoldingNew` | kernel/cap.c:70-140 | nothing is derived from a port's capability |
| `Ipc.PortTable.DropRef` | kernel/cap.c:206-225 | a reference that was taken and is given back keeps the invariant of the ports |
| `Ipc.PortTable.MakeCap` | kernel/cap.c:70-94 | so does a new capability |
| `Ipc.PortTable.DeriveCap` | kernel/cap.c:100-140 | and a derived one |
| `Ipc.PortTable.TransferCap` | kernel/cap.c:231-246 | and a transfer |
| `Ipc.PortTable.RevokeCap` | kernel/cap.c:146-168 | and a revocation, after which a port may be without its capability |
| `IpcRuns.ClosedSettled` | kernel/ipc.c:103-117 | a dropped port leaves its capability behind exactly if it was shared |
| `IpcRuns.OpenedSettled` | kernel/ipc.c:75-101 | a new port is a lasting one or the reply port of a call that waits |
| `IpcRuns.ClosedBacked` | kernel/ipc.c:103-117 | a dropped port gives up its own reference only |
| `IpcRuns.PerformCap` | kernel/cap.c:70-248 | one operation of another task on the capability table keeps the books and the references that tasks hold |
| `IpcRuns.Perform` | kernel/ipc.c:75-229 | one step of one task keeps the books |
| `IpcRuns.Restored` | kernel/ipc.c:195-213 | same lasting ports, same foreign capabilities and same waiting calls mean same ports and same capabilities |
| `IpcRuns.Run` | kernel/ipc.c:75-229 | every interleaving of steps on ports and capabilities keeps all invariants, only adds to the logs of a port that survives, restores ports and capabilities with the waiting calls, and never brings a port number back |
| `Frames.FlagsPut` | memory/pmm.c:39-52 | setting or clearing a bit of a byte changes one frame |
| `Frames.FullByte` | memory/pmm.c:163-164 | a byte is 0xFF exactly when its eight frames are in use |
| `Frames.FirstUnique` | memory/pmm.c:186-213 | there is only one lowest run |
| `Frames.CountExact` | memory/pmm.c:221-262 | within range, a frame's count is one more than the references taken and not given back |
| `Frames.LastFreeReleases` | memory/pmm.c:221-262 | the free that gives back the last reference releases the frame, none before it |
| `Frames.FreesNeeded` | memory/pmm.c:221-262 | after k extra references the (k+1)-th free releases, for k up to 254; beyond, the 255th |
| `Frames.TakenThenFreed` | memory/pmm.c:186-246 | a run that is taken and freed is free again, and nothing else changed |
| `Frames.NullExact` | memory/pmm.c:160-213 | null means that there is no run exactly if none starts at frame 0 |
| `Frames.NullFrame` | memory/pmm.c:160-236 | frame 0, freed and asked for again, is handed out as the null pointer |
| `Frames.FrameAllocator.constructor` | memory/pmm.c:104-108 | all frames in use and counted |
| `Frames.FrameAllocator.MarkUsed` | memory/pmm.c:63-74 | a frame is used afterwards if and only if it was before or the range touches it, and the count stays the number of used frames |
| `Frames.FrameAllocator.MarkFree` | memory/pmm.c:79-90 | a frame is free afterwards if and only if it was before or lies wholly in the range, and the count stays exact |
| `Frames.FrameAllocator.AllocFrame` | memory/pmm.c:160-178 | with the byte skip, the lowest free frame or none exactly when there is none |
| `Frames.FrameAllocator.AllocFrames` | memory/pmm.c:186-213 | the lowest run of that many free frames or none exactly when there is none, each frame with one reference |
| `Frames.FrameAllocator.Take` | memory/pmm.c:199-206 | a free run becomes used, each frame with one reference, and the count follows |
| `Frames.FrameAllocator.FreeFrame` | memory/pmm.c:221-236 | one reference less on this frame, or its release if it had at most one; nothing for a frame that is free, and nothing else |
| `Frames.FrameAllocator.FreeFrames` | memory/pmm.c:241-246 | the same for every frame of the range |
| `Frames.FrameAllocator.AllocThenFree` | memory/pmm.c:186-246 | the pointer that a run is handed out under gives back exactly that run |
| `Frames.FrameAllocator.RefFrame` | memory/pmm.c:256-262 | one reference more on this frame, up to 255 |
| `SignalFrame.PartsDisjoint` | kernel/signal.c:117-155 | trampoline, frame and return address never overlap, for any stack pointer |
| `SignalFrame.SetupBelow` | kernel/signal.c:117-163 | only the at most 182 bytes below the stack pointer are written |
| `SignalFrame.DetourRestores` | kernel/signal.c:117-204 | after the handler returns, through the intact trampoline, sigreturn restores every saved register |
| `SignalFrame.SetupEnters` | kernel/signal.c:117-163 | the handler starts with a stack pointer that is a multiple of 16 and points to the address of the intact trampoline, with the number of the signal in the frame above |
| `SignalFrame.EncodeAt` | kernel/signal.c:153-155 | numbers are stored least significant byte first |
| `SignalFrame.FrameRestores` | kernel/signal.c:175-204 | sigreturn on an intact frame restores every register that was saved |
| `Signals.KillNext` | kernel/signal.c:215-295 | a pass with SIGKILL pending delivers it or a signal below it |
| `Signals.Process.constructor` | kernel/signal.c:36-52 | the initial actions, nothing pending, nothing blocked |
| `Signals.Process.Send` | kernel/signal.c:66-91 | a number from 1 to 31 becomes pending; it wakes exactly when it is not blocked |
| `Signals.Process.SetupFrame` | kernel/signal.c:117-163 | rip is the handler, rdi the signal, rsi and rdx are 0, every other register but rsp is as before; memory is as `DetourRestores` assumes it and the handler is entered as `SetupEnters` says |
| `Signals.Process.Sigreturn` | kernel/signal.c:175-204 | for every frame that is still intact on the stack, the registers are those that the frame saved |
| `Signals.Process.Deliver` | kernel/signal.c:215-295 | takes the deliverable signals in order up to the first that ends the pass, which is the first that is neither ignored nor stop nor continue, and leaves the others pending; a handled one resumes at the handler with the signal as its argument; what it does to mask, action and memory, and exactly when the action's own mask is blocked during its handler |
| `Signals.Process.RunHandler` | kernel/signal.c:270-286 | the handler is entered with the signal as its argument; mask, action and frame; SIGKILL and SIGSTOP stay unblocked; the action's own mask is blocked if and only if it lies in what was blocked before and, unless SA_NODEFER is set, the signal |
| `Signals.MaskIgnored` | kernel/signal.c:270-286 | a handler that runs while the mask of its action is not blocked |
| `Signals.Process.Sigaction` | kernel/signal.c:342-356 | never for SIGKILL and SIGSTOP, which keep their default |
| `Signals.Process.Sigprocmask` | kernel/signal.c:360-383 | the new mask, never with SIGKILL and SIGSTOP |
| `Signals.Process.Run` | kernel/signal.c:215-383 | with no new sends, at most eight passes go by before a pending SIGKILL is delivered, whatever the process does to its actions and mask |
| `Users.NumberDecimal` | kernel/users.c:64-78 | reading a printed number gives its low 32 bits |
| `Users.NumberThenText` | kernel/users.c:73-78 | a number is read up to the first character that is no digit, and text that does not begin with one is 0 |
| `Users.FieldsJoin` | kernel/users.c:85-93 | splitting joined fields gives the fields |
| `Users.FieldExact` | kernel/users.c:85-93 | a field reaches up to a colon, a line end or the end of the text, or as far as its buffer does |
| `Users.ParseLines` | kernel/users.c:95-129 | of the accounts that the lines of any text describe, the first 16 are taken, and blank lines and lines without a name are passed over wherever they stand |
| `Users.ParsePrint` | kernel/users.c:95-158 | parsing the printed database gives the same accounts |
| `Users.PrintFits` | kernel/users.c:131-158 | a table of accounts that can be stored always fits the buffer |
| `Users.UintToStr` | kernel/users.c:64-71 | the decimal digits |
| `Users.StrToUint` | kernel/users.c:73-78 | the number at the start of the string, in 32 bits |
| `Users.ScanField` | kernel/users.c:85-90 | the characters up to the end of the field, at most one less than its buffer holds |
| `Users.NextField` | kernel/users.c:85-93 | the field at a position of the buffer, and the position of the rest, past one colon |
| `Users.ReadFields` | kernel/users.c:116-124 | the fields of a line, one per size |
| `Users.CutLine` | kernel/users.c:107-110 | the line becomes a string of its own in place, and where the next starts |
| `Users.Load` | kernel/users.c:95-129 | the accounts that the text in the buffer describes, for every text |
| `Users.Save` | kernel/users.c:131-158 | never overruns the buffer, and holds the whole printed database if that fits |
| `Users.SaveAndLoad` | kernel/users.c:95-158 | the round trip through both, for every table of accounts that can be stored |
| `Paths.CanonicalNames` | fs/vfs.c:49-90 | a canonical path has no empty component, no '.' and no '..' |
| `Paths.CanonicalTwice` | fs/vfs.c:49-90 | canonicalising twice is canonicalising once |
| `Paths.CanonicalShorter` | fs/vfs.c:49-90 | a canonical path is no longer than the path |
| `Paths.CanonicalInLimits` | fs/vfs.c:49-90 | and stays within the limits of the code |
| `Paths.RootAndSlashes` | fs/vfs.c:61-65 | the empty path is the root, and slashes that stand alone do not count |
| `Paths.NameAdded` | fs/vfs.c:72-74 | a name after any path is appended to its canonical form |
| `Paths.DotStays` | fs/vfs.c:67-68 | '.' after any path changes nothing |
| `Paths.CanonicalCongruent` | fs/vfs.c:49-90 | a path may be replaced by its canonical form in front of any other |
| `Paths.ParentOf` | fs/vfs.c:69-71 | '..' takes back the name before it, and at the root it stays |
| `Paths.CappedSteps` | fs/vfs.c:67-74 | the parts that stand after one more component, also beyond 64: the name is dropped, and '..' takes back the last part that stands |
| `Paths.NextName` | fs/vfs.c:61-65 | cuts the next component out of the buffer in place and leaves what is before it |
| `Paths.Place` | fs/vfs.c:67-74 | one component takes its place on the stack, or is dropped when 64 are there |
| `Paths.Tokenise` | fs/vfs.c:51-75 | the parts that stand are the stack of the walk with room for 64 parts, for every text |
| `Paths.Rebuild` | fs/vfs.c:77-89 | what of the stack fits the buffer, for every size |
| `Paths.FittedStep` | fs/vfs.c:80-88 | a part that does not fit is left out, its slash is not, and a later one that does is still taken |
| `Paths.ResolvedCanonical` | fs/vfs.c:49-90 | within 64 parts, the result is the canonical path if and only if the buffer has room for it, its end mark and one more, or the path is the root |
| `Paths.CappedNames` | fs/vfs.c:73 | of more than 64 names the first 64 are kept |
| `Paths.DeepPathCut` | fs/vfs.c:73 | so for more than 64 names the result is not the canonical path |
| `Paths.NamesExact` | fs/vfs.c:49-90 | a path of names alone is resolved to its canonical path if and only if it has at most 64 names |
| `Paths.Canonicalise` | fs/vfs.c:49-90 | the exact result for every path and every buffer; within the limits the canonical path if and only if the buffer has room; a path of 4080 characters or more is cut; always absolute and inside the buffer |
| `Paths.CanonicaliseTwice` | fs/vfs.c:49-90 | the code on its own result gives the same result |
| `Line.GoodStep` | gui/draw.c:161-167 | each round steps along the longer side, and along the shorter exactly when needed to stay within half a pixel |
| `Line.GoodUnique` | gui/draw.c:161-167 | the steps taken after `n` rounds are the only ones within half a pixel, ties included |
| `Line.GoodEnd` | gui/draw.c:161-163 | the end point is reached after exactly as many steps as the longer side has |
| `Line.Move` | gui/draw.c:164-166 | the two conditional steps keep the running error exact and always move; whether the values of the round fit 32 bits |
| `Line.DrawLine` | gui/draw.c:153-168 | one pixel per column or row of the longer side, in the box, within half a pixel of the ideal line, from end to end without gaps; all values computed fit 32 bits if and only if the sides satisfy `Fits` |
| `Line.ErrorBound` | gui/draw.c:160-166 | twice the running error is twice the difference of the sides, give or take the longer side |
| `Line.Euclid` | gui/draw.c:160-166 | the greatest common divisor of the sides is a combination of them and divides both |
| `Line.Reached` | gui/draw.c:161-167 | every multiple of it within half a pixel is the distance from the ideal line in some round |
| `Line.OffMultiple` | gui/draw.c:161-167 | and there are no other distances |
| `Line.WideFits` | gui/draw.c:164-166 | every round of a wide line that satisfies the condition fits 32 bits |
| `Line.TallFits` | gui/draw.c:164-166 | so does every round of a tall one |
| `Line.WideNeeded` | gui/draw.c:164-166 | a wide line all of whose rounds fit satisfies the condition |
| `Line.TallNeeded` | gui/draw.c:164-166 | so does a tall one |
| `Line.RoundsExact` | gui/draw.c:153-168 | the values of all rounds fit 32 bits if and only if the sides satisfy `Fits` |
| `Line.StraightExact` | gui/draw.c:153-168 | `Fits` for horizontal, vertical and diagonal lines: shorter than 2^30, at most 2^30, any length |
| `Line.FitsEnough` | gui/draw.c:153-168 | twice the difference of the sides plus the longer one within 32 bits is enough if three halves of the longer one are, too |
| `Line.FitsNeeds` | gui/draw.c:164 | twice the difference of the sides must fit |
| `Line.NearDiagonal` | gui/draw.c:165 | with sides 0x7FFFFFFD and 0x7FFFFFFC the first of the two conditions holds and a value does not fit |
| `Crc32.StepsLinear` | kernel/apkg.c:34-38 | the register steps are linear over exclusive or |
| `Crc32.PolynomialIs` | kernel/apkg.c:37 | the constant is the polynomial of IEEE 802.3, bit by bit |
| `Crc32.StepUnit` | kernel/apkg.c:37 | a step moves every bit down by one, and the bit that falls out comes back as the polynomial |
| `Crc32.StartAndEnd` | kernel/apkg.c:44-47 | the register starts with ones, and the checksum is its complement |
| `Crc32.FeedAtOnce` | kernel/apkg.c:43-46 | adding a byte at once is feeding it bit by bit |
| `Crc32.TableStep` | kernel/apkg.c:43-46 | one table lookup is eight bit-serial steps |
| `Crc32.Crc.Fill` | kernel/apkg.c:30-41 | the table holds eight register steps of every byte value |
| `Crc32.Crc.Compute` | kernel/apkg.c:28-48 | for every byte sequence the bit-serial CRC-32, on the first call and every later one; the same code is at kernel/pkg.c:19-39 |
| `Crc32.OneByteDetected` | kernel/apkg.c:28-48 | two messages of equal length that differ in one byte have different checksums |

## Left out

- Capabilities.CapTable.Release: requires that a valid entry has an outside reference to give up; the code does not count those, so an unmatched release is not modelled.
- Capabilities.CapTable.Create: requires that the id counter has not run out; reuse of ids after 2^32 creations is not modelled. The same holds for Capabilities.CapTable.Derive, Ipc.PortTable.Create and the message numbers of Ipc.PortTable.Send.
- Capability rights are sets of bit numbers and objects are numbers; the audit calls to the security monitor are left out.
- Ext2.Ext2Fs.Write: block sizes are below 256 KiB, where the square of the pointers per block fits 32 bits. The invariant includes, for every file whose size was never cut off, that nothing is mapped behind its end and that the rest of its last block is zero; a file that was cut off keeps only the rest of the invariant, and growing it again shows old bytes. Blocks that are lost when a mapping fails half-way are not tracked; triple-indirect blocks, which the code cannot write, are only looked up. Offsets are not negative.
- Ext2.Ext2Fs.DirAddEntry: requires block sizes below 64 KiB, since a record length has 16 bits; so do Ext2.Ext2Fs.Create and Ext2.Ext2Fs.Mkdir. The size of a directory grows in unbounded integers; `Ext2Links.SizesSmall` shows that this is the same as 32 bits on every image that the kernel mounts.
- Ext2.Ext2Fs.Mkdir: the count of directories per group is left out.
- Ext2.Ext2Fs.Unlink: requires that the entry it finds names an inode in use, which `Ext2Links.SoundFound` gives for every sound image; Ext2.Ext2Fs.FreeBlock and Ext2.Ext2Fs.FreeInode require that what they free is allocated, as it is wherever the driver calls them.
- Ext2Runs.Run: steps are on directories and files in use; writes to directories and calls on nodes of inodes that are gone are left out. The image is one that satisfies the invariant, such as that of `Ext2Runs.Format`; parsing the superblock, the guards against pointers outside of the image and against records of length 0, the dirty flag and write-back of the image, and VFS nodes are left out.
- Fat32.Fat32Fs.Write: after a short write the size is the requested end, as in the code, although fewer bytes were stored. Offsets are not negative and ends do not leave 64 bits. Left out are the upper four bits of table entries, mirroring, names and other fields of directory entries, an FSInfo whose hint is not a cluster, parsing of the boot sector and I/O errors. For a file without a first cluster Fat32.Fat32Fs.Read requires that the two reserved table entries are end marks, as the format says.
- BlockCache.Cache.Modify: requires that the sector is still cached; marking an evicted sector dirty is left out.
- BlockCache.Cache.WriteThrough: requires a sector that the drive has; failed writes, absent drives and the statistics counters are left out, and the clock stays below 2^32 - 1.
- Ipc.PortTable.Destroy: requires that no call waits on the port; the code keeps a raw slot pointer across the yield.
- IpcRuns.Run: a task gives back only references that were taken; a port that a call waits on is not dropped by others.
- The event ring assumes that each load and store takes effect at once, as the barriers in the code ask for; the translation of keys and mouse moves into events is left out.
- Frames: parsing of the boot memory map, `pmm_free_frames_count`, and addresses that overflow 64 bits.
- Signals.Process.Deliver: ending, stopping and rescheduling a process are events; the alternate stack and the mask after sigreturn are not used by the code and are left out.
- Users: password hashing, and reading and writing of the file itself.
- Paths: the walk over VFS nodes that follows.
- Line.DrawLine: computes in unbounded integers and says exactly when that is the same as 32 bits; what the pixels are when a value does not fit is not modelled, since C leaves it open. Clipping to the canvas is left out.
- Null arguments, failing allocations of temporary buffers, and calls on nodes of the wrong kind.
- The kernel heap.
- Scheduler, virtual memory, network, drivers, graphics beyond the line, the window system and the applications: not part of this model.
