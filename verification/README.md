# KaracaOS core, modelled and verified

KaracaOS is an i686 kernel. This project models the parts of it where several records of the same fact have to
agree, and proves that they do, or says exactly when they do not:

- **the ext2 writer** (`kernel/fs/ext2.c`): a disk of 512-byte sectors seen as 1024-byte blocks, block groups with
  bitmaps, descriptors and a superblock, the inode table, and directory blocks of variable-length records. Every
  routine works through the device's shared read/write buffer as the original does;
- **the memory stack** (`kernel/mm/buddy_allocator.c` over `kernel/mm/mm.c` over
  `kernel/arch/i686/paging/paging.c`): a heap tree of buddies over [0x10000000, 0x90000000), its node arena, two page
  bitmaps and the flat page table;
- **the number printer and the format scanner** (`kernel/libc/stdio/sprintf.c`);
- **the binary search tree** with parent pointers and side flags (`kernel/tree/tree.c`);
- **the ELF loader** (`kernel/elf/elf.c`, `kernel/elf/loadelf.c`), a client of the buddy allocator.

The run theorems start from any state that meets an invariant; `FormatDevice` and the constructor of
`BuddyAllocator` establish those invariants from an empty disk and from the reserved page tables.

Routines that change things in place are classes and methods over arrays, fields and linked nodes. Each is proved
against a function of the state before it; what the system promises is proved about those functions, over every
input and every run.

## How the files are arranged

| files | contents |
|---|---|
| `Bytes`, `Bits`, `Status` | little-endian fields, bitmaps and their counts, return codes |
| `Device`, `Ext2Layout`, `Ext2Mount` | sectors and blocks, the on-disk layout, the mount context |
| `Ext2Blocks`, `Ext2Inodes`, `Ext2Dirs`, `Ext2Links` | block allocation, inodes, directory blocks, links |
| `Ext2World`, `Ext2Kept` | the invariant of the mounted file system and all its runs; what the operations leave alone |
| `Ext2Format`, `Ext2Make` | formatting, from an empty disk to a consistent file system |
| `Memory`, `Arena`, `BuddyTree`, `Buddy`, `Allocator` | page bitmaps and page table, node arena, the tree as a value, the heap tree, the whole allocator |
| `Printer`, `Format`, `FormatGrammar` | number printer, scanner, and the grammar of formats |
| `SearchTree`, `SearchNodes` | the search tree as a value, and its linked nodes |
| `Elf`, `ElfLoad` | header parsing and loading |

`dafny verify dfyconfig.toml` checks everything.

## What was found

Where the code does not do what its names, comments or callers suggest, the model does what the code does, and a
lemma gives the exact condition:

- the padding of the last block group is right if and only if `PaddingFits` (`PaddingIsRight`): up to 32 groups, when
  the last one has at least 225 blocks. The comment at `kernel/fs/ext2.c:499-502` worries only about groups too small for
  their inode table. From 33 groups on the code works with 51, and the group it pads is the 51st;
- `allocate_blocks` returns success without granting anything once it has passed all 32 descriptors
  (`SearchIsFirst`, `AllocateBlocks`), and takes at most one block from each bitmap byte, so it can fail in a group
  that has enough free blocks (`PicksCount`);
- `ext2_write_inode` marks the inode but counts nothing, and `ext2_add_link` ignores a failed inode read: both keep
  the inode accounting if and only if the inode was allocated before (`WriteKeepsAccounting`, `LinkKeepsAccounting`);
- a directory append that does not fit is cut off: the listing survives if and only if there is room for the record and
  four bytes, and the end record is whole if and only if there is room for eight (`AppendRoundTrip`);
- `mm_alloc` of several pages reserves one frame: the next allocation shares a frame with the second page if and only
  if that frame was free (`SecondFrameShared`);
- the buddy search grants less than was asked for if and only if the request is above 4096 and a power of two, or at
  least 1 GiB (`FitIsExact`); so the ELF loader's image overruns its block exactly for those lengths (`ImageInBlock`);
- the guard of the node arena is one header late: the 524288th node makes the scan read past the area
  (`ScanIsExact`);
- printed numbers read back if and only if the conversion is `Readable`: not the most negative argument, whose negation
  wraps around (`LeastNeverReads`), not with `#` in radix 16, where the cell of the `0` is never written
  (`EveryCellWritten`), not with zero padding around a sign or to the right, not without digits, not negative and
  unsigned;
- `%u` prints in octal, so it reads back in decimal if and only if the number is below eight, or is zero where zeros are
  put behind it (`UnsignedReads`); `%%` is read twice (`PercentReadTwice`), and at the end of a format it takes the scanner
  past the end (`FinalPercentFails`); `ll` is taken for `l`;
- deletion from the search tree does not update the parent pointer and flags of a subtree that it hangs elsewhere. A later
  deletion of that subtree's root, if it has at most one child, then writes into a node that is no longer in the tree and
  removes nothing (`StaleNodeStays`). Deletion removes exactly one occurrence if and only if the node is one of the cases
  in `Handled`, and over a run the contents are right if and only if every deletion is (`RunsKeepOrder`);
- the ELF loader goes on with an uninitialised header after a header error (`Load`).

## Model

| member | source | states |
|---|---|---|
| Device.BlockDevice.ReadBlocks | kernel/fs/ext2.c:375-389 | byte k of the buffer is byte k % 512 of sector 2 * id + k / 512, for the blocks asked for; the rest of the buffer and the device do not change |
| Device.BlockDevice.WriteBlocks | kernel/fs/ext2.c:391-405 | exactly the sectors of the blocks written change, to the bytes of the buffer in order |
| Device.BlockBytes | kernel/fs/ext2.c:375-389 | a block is its two sectors one after the other |
| Bits.BitWeight | kernel/fs/ext2.c:601-623 | bit k of a byte has weight 2^k: testing, setting and clearing it in arithmetic |
| Ext2Layout.BlockAtInverse | kernel/fs/ext2.c:607-622 | block numbers and (group, bit) pairs determine each other |
| Ext2Blocks.PicksAreZeros | kernel/fs/ext2.c:601-613 | what the byte scan takes are zero bits in increasing order |
| Ext2Blocks.PicksCount | kernel/fs/ext2.c:601-613 | a group serves a request exactly when that many of its bytes have a zero bit |
| Ext2Blocks.SearchIsFirst | kernel/fs/ext2.c:586-635 | the first group that can serve the request is used, and the search fails exactly when none can; which failure it reports depends on whether all 32 descriptors are in use |
| Ext2Blocks.AllocateKeepsCounts | kernel/fs/ext2.c:577-636 | each group's zero bits equal its descriptor's count, zero bits stand for data blocks on the disk, and the counts add up to the superblock's, after every call |
| Ext2Blocks.AllocateHandsOutFreeData | kernel/fs/ext2.c:577-636 | the blocks handed out are as many as asked for, different, free data blocks before; exactly they stop being free, and the superblock count falls by their number |
| Ext2Blocks.LargeRequestsFail | kernel/fs/ext2.c:601-635 | no request for more than 1024 blocks is granted, and with 32 groups it is still reported as a success |
| Ext2Blocks.ServesMeans | kernel/fs/ext2.c:592-613 | a group serves a request exactly when the count in its descriptor is large enough and enough bytes of its bitmap are not full |
| Ext2Blocks.AllocateWrites | kernel/fs/ext2.c:614-631 | what a grant writes, byte by byte: exactly the bits of the blocks handed out, the 16-bit count at byte 12 of the descriptor and the 32-bit count at byte 12 of the superblock, both less by the number granted |
| Ext2Blocks.ScanGroup | kernel/fs/ext2.c:601-613 | the byte scan finds the lowest zero bit of each byte that has one |
| Ext2Blocks.MarkFound | kernel/fs/ext2.c:614-623 | the bits computed back from block numbers are those the scan found |
| Ext2Blocks.AllocateBlocks | kernel/fs/ext2.c:577-636 | device, superblock, output array and return code after a call, on success and on both failures |
| Ext2Inodes.SlotsDisjoint | kernel/fs/ext2.c:304-328 | two inode numbers never share a slot of the inode table |
| Ext2Inodes.InodePlace | kernel/fs/ext2.c:304-328 | inode n is record (n - 1) % 1712 of group (n - 1) / 1712: its 128 bytes from block 5 of the group on, and its bit in block 4 |
| Ext2Inodes.WritePlace | kernel/fs/ext2.c:333-369 | a write sets that bit and those 128 bytes and nothing else |
| Ext2Inodes.WriteThenRead | kernel/fs/ext2.c:298-369 | after a write the inode reads back without error, and every other inode number reads as before |
| Ext2Inodes.WriteKeepsAccounting | kernel/fs/ext2.c:333-369 | writing keeps the inode counts exactly when the inode was allocated before |
| Ext2Inodes.TakeKeepsAccounting | kernel/fs/ext2.c:638-699 | allocating an inode keeps bitmap, descriptor and superblock counts in agreement, also when it was allocated already |
| Ext2Inodes.TakeAllocates | kernel/fs/ext2.c:638-699 | exactly the given inode becomes allocated and no slot changes |
| Ext2Inodes.TakePlace | kernel/fs/ext2.c:685-696 | what a first allocation writes: the bit, the free counts at bytes 14 of the descriptor and 16 of the superblock, less by one, and for a directory the count at byte 16 of the descriptor, more by one |
| Ext2Inodes.ReadInode | kernel/fs/ext2.c:298-331 | an allocated inode is returned from its table slot through the shared buffer; an unallocated one is reported |
| Ext2Inodes.WriteInode | kernel/fs/ext2.c:333-369 | exactly the slot and the bitmap bit of the inode change |
| Ext2Inodes.AllocateInode | kernel/fs/ext2.c:638-699 | device, superblock and return code after allocating a given inode |
| Ext2Dirs.WalkAligned | kernel/fs/ext2.c:262-291 | every record and the end of a well-formed chain is at a multiple of four |
| Ext2Dirs.AppendRoundTrip | kernel/fs/ext2.c:224-254 | after an append the walk lists the old entries and then the new one exactly when there is room for the record and the inode word behind it; the end record reaches byte 1024 exactly when there is room for all of it |
| Ext2Dirs.AppendLays | kernel/fs/ext2.c:234-252 | every byte after an append: inode, record length, name length, type, name, zeros up to a multiple of four, the end record that reaches byte 1024, and the old bytes before and behind |
| Ext2Dirs.WalkToEnd | kernel/fs/ext2.c:227-232 | the loop ends on every well-formed block, at the inode-0 record |
| Ext2Dirs.StoreRecord | kernel/fs/ext2.c:234-252 | the stores into the shared buffer amount to the record and an end record behind it |
| Ext2Links.LinkInodes | kernel/fs/ext2.c:211-260 | exactly the linked inode changes: an allocated one only in bytes 26 and 27, its link count, by one in 16 bits; an unallocated one becomes an allocated inode with link count one and zeros in every other byte |
| Ext2Links.LinkData | kernel/fs/ext2.c:211-260 | among the data blocks exactly the directory's changes, by the appended record |
| Ext2Links.LinkKeepsAccounting | kernel/fs/ext2.c:211-260 | adding a link keeps the inode accounting exactly when the inode was allocated before |
| Ext2Links.LinkKeepsBlocks | kernel/fs/ext2.c:211-260 | adding a link keeps the block accounting and frees or takes no block |
| Ext2Links.AddLink | kernel/fs/ext2.c:211-260 | the whole effect of a call, although one buffer serves inode-table and directory blocks |
| Ext2World.StepKeeps | kernel/fs/ext2.c:211-699 | every operation keeps the whole invariant, and what it hands out were free data blocks |
| Ext2World.RunIsSafe | kernel/fs/ext2.c:577-636 | over any run no block is handed out twice, none is metadata or off the disk, exactly those handed out are no longer free, and the superblock count falls by their number |
| Ext2World.RunKeepsCounts | kernel/fs/ext2.c:211-369 | over any run every live inode's link count is the number of directory entries that name it, all counts agree, and every directory with entries ends in a record that reaches byte 1024 |
| Ext2Format.ShiftedOnes | kernel/fs/ext2.c:87-90 | shifting ones into the byte at the break adds ones until the byte is full |
| Ext2Format.PaddingIsRight | kernel/fs/ext2.c:41-97 | for every disk size, the reduction to 51 groups included: the last group's bitmap stays in its array and has as many zero bits as its descriptor counts exactly when the disk ends inside that group and its share, in the 16 bits of the count, is 225 to 8192 blocks |
| Ext2Format.PaddingOfSmallDisks | kernel/fs/ext2.c:80-97 | up to 32 groups that condition is that the last group has at least 225 blocks |
| Ext2Format.LargeDiskPadsOutside | kernel/fs/ext2.c:44-48 | a disk of 262444 blocks: 51 groups, and a break outside the bitmap |
| Ext2Format.SetupBlockBitmap | kernel/fs/ext2.c:522-535 | exactly the bits of the group's metadata are set |
| Ext2Format.PadLast | kernel/fs/ext2.c:80-97 | the padding loops compute the padded bitmap |
| Ext2Format.SetupInodeBitmap | kernel/fs/ext2.c:537-553 | exactly the bits past the last inode are set |
| Ext2Format.SuperFields | kernel/fs/ext2.c:411-476 | every number set in the superblock reads back |
| Ext2Format.FillTable | kernel/fs/ext2.c:478-520 | every descriptor records the right addresses and counts, and the unused ones stay zero |
| Ext2Format.SumCounts | kernel/fs/ext2.c:56-63 | the totals are the sums over the descriptors |
| Ext2Format.FreeSum | kernel/fs/ext2.c:489-508 | free blocks, 218 blocks a group and block 0 make up the whole disk |
| Ext2Format.FormatGroup | kernel/fs/ext2.c:72-111 | one round writes exactly 218 blocks from the cursor on |
| Ext2Format.WriteGroups | kernel/fs/ext2.c:67-114 | the running cursor meets every group's start, and exactly the metadata of all groups is written |
| Ext2Make.RegionsApart | kernel/fs/ext2.c:67-114 | the metadata regions of different groups are disjoint, and they are exactly the blocks that are not data |
| Ext2Make.DescriptorsMeetCursor | kernel/fs/ext2.c:492-494 | what each descriptor points to is what the cursor wrote there: both bitmaps and every block of the inode table |
| Ext2Make.PlannedMaps | kernel/fs/ext2.c:80-97 | in every group, the padded last one included, zero bits are as many as counted and are exactly the data blocks on the disk |
| Ext2Make.FormattedIsConsistent | kernel/fs/ext2.c:41-114 | after the group loop bitmaps, descriptors and superblock agree about blocks and inodes |
| Ext2Make.WriteBeforeAllocating | kernel/fs/ext2.c:333-369 | writing inode 12 of a freshly formatted disk without allocating it breaks the inode accounting |
| Ext2Make.GrantsLowest | kernel/fs/ext2.c:577-636 | if all blocks of the first group up to some number are taken and the next one is free, a request for one block gets that one |
| Ext2Make.MountDevice | kernel/fs/ext2.c:169-194 | the mount context holds the superblock read, marked as in use on the disk too |
| Ext2Make.UnmountDevice | kernel/fs/ext2.c:196-209 | the superblock goes back to the disk, marked as clean |
| Ext2Make.MakeDir | kernel/fs/ext2.c:142-155 | an inode becomes a directory with the next free block: mode 0x41FF, size 1024, two sectors, no links yet, that block, and zeros in every other byte |
| Ext2Make.FormatDevice | kernel/fs/ext2.c:27-167 | for every admissible size the disk ends as a file system that meets the whole invariant of `Ext2World`; every number of the superblock, magic and free counts included; inodes 1, 2 and 11 allocated and two directories counted; all 128 bytes of inodes 2 and 11, directories with link counts 3 and 2; and what root and lost+found list, up to the end records |
| Ext2Kept.TakeCounts | kernel/fs/ext2.c:685-696 | allocating an inode of the first group takes one free inode and counts a directory if it is one; no other number of the superblock changes and no other inode becomes allocated |
| Ext2Kept.LinkKept | kernel/fs/ext2.c:211-260 | adding a link leaves the superblock and the count of directories as they are, and every allocated inode allocated |
| Ext2Make.DirInodeBytes | kernel/fs/ext2.c:555-575 | all 128 bytes of a new directory inode |
| Memory.FirstFrameIsLowest | kernel/mm/mm.c:122-143 | the frame found is free and every lower one is not |
| Memory.FrameScanIsExact | kernel/mm/mm.c:122-126 | the byte scan stays inside the bitmap exactly when a frame is free |
| Memory.AllocateOwns | kernel/mm/mm.c:180-209 | a page allocated gets a frame that served no page, at or above 64 MiB, through an entry that is present and holds the frame; the others keep theirs, and one frame less is free |
| Memory.ReleaseOwns | kernel/mm/mm.c:211-224 | freeing an owned page returns exactly its frame |
| Memory.AllocateThenRelease | kernel/mm/mm.c:180-224 | allocating and freeing a page restores both bitmaps exactly |
| Memory.RunsKeepFramesApart | kernel/mm/mm.c:180-224 | over any interleaving no two owned pages share a frame, owned pages are present in table and directory, they and their frames are marked, no frame is below 64 MiB, and free plus owned frames stay constant |
| Memory.SecondFrameShared | kernel/mm/mm.c:192-200 | after a request of several pages the next page shares a frame with its second page exactly when that frame was free |
| Memory.MapWrites | kernel/arch/i686/paging/paging.c:107-114 | mapping writes the frame with all twelve low bits set into the page's entry and sets the two low bits of its directory entry, whose address stays; no other entry changes |
| Memory.AllocateWrites | kernel/mm/mm.c:180-209 | what a request of any number of pages writes: entries for frames in a row from the lowest free one, the directory entries above them, one mark in each bitmap |
| Memory.ReleaseWrites | kernel/arch/i686/paging/paging.c:116-120 | freeing a page makes its entry zero, so not present, and clears its mark and its frame's |
| Memory.Manager.FindEmptyBlock | kernel/mm/mm.c:122-143 | the scan returns the lowest free frame |
| Memory.Manager.Map | kernel/arch/i686/paging/paging.c:107-114 | the entry becomes the frame with all low bits set, the directory entry keeps its address and becomes present and writable, and nothing else changes |
| Memory.Manager.Alloc | kernel/mm/mm.c:180-209 | bitmaps, page table and return code after a request of any size, for a free and for a taken page |
| Memory.Manager.Release | kernel/mm/mm.c:211-224 | bitmaps and page table after freeing a page |
| Memory.Manager.Reserve | kernel/mm/mm.c:95-118 | exactly the frames below 16384 and the kernel pages get marked in addition, and the count is the number of free frames |
| Arena.ScanIsExact | kernel/mm/buddy_allocator.c:72-88 | with n nodes the scan stops at byte 16 + 40 * n exactly when n is below 524287, and otherwise reads past the area |
| Arena.RecordsDisjoint | kernel/mm/buddy_allocator.c:90-97 | node records of 40 bytes are disjoint and inside the area, their headers say so, and one free header holds all the rest |
| Arena.Arena.constructor | kernel/mm/buddy_allocator.c:44-48 | the words of the tree head and of one free record, which tile the area |
| Arena.Arena.AllocNode | kernel/mm/buddy_allocator.c:68-112 | one record more, right behind the others; exactly four words of the area change, and the headers still tile it |
| BuddyTree.FindIsExact | kernel/mm/buddy_allocator.c:215-262 | the search succeeds exactly when a free leaf of at least the target size exists, takes the one at the lowest address, splits only its left spine, and changes nothing when it fails |
| BuddyTree.FindSplits | kernel/mm/buddy_allocator.c:231-240 | searching a large free leaf is splitting it and searching the result |
| BuddyTree.FitIsExact | kernel/mm/buddy_allocator.c:223-235 | for every 32-bit request: the grant is large enough exactly when the request is at most 4096, or below 1 GiB and no power of two; below 1 GiB it is 4096 or less than four times the request |
| BuddyTree.PowerGetsTooLittle | kernel/mm/buddy_allocator.c:223-235 | a request of 8192 bytes is granted 4096 |
| BuddyTree.GrantTakesBlock | kernel/mm/buddy_allocator.c:153-186 | an allocation takes exactly the addresses of its block, all free before, inside the range |
| BuddyTree.ReachableTiles | kernel/mm/buddy_allocator.c:57-63 | over any run the leaves tile the range in address order, each a power of two from 4096 up at a multiple of itself, so live blocks never overlap |
| Buddy.Node.SplitNode | kernel/mm/buddy_allocator.c:114-151 | the node gets two free halves with the right flags and their own arena records, or is refused at 4096 |
| Buddy.Node.FindSpace | kernel/mm/buddy_allocator.c:215-262 | the heap tree becomes the tree of the search on values, and the node returned is its leaf; as many arena records are used as the search splits |
| Allocator.StepOk | kernel/mm/buddy_allocator.c:153-186 | an allocation keeps tree, bitmaps and page table in agreement and uses one frame a page of the block |
| Allocator.RunsKeepOwnership | kernel/mm/buddy_allocator.c:153-186 | over any run of allocations a user page is marked exactly when its leaf is allocated, and then it is present and writable and maps to a marked frame at or above 64 MiB that no other such page maps to |
| Allocator.MapBlock | kernel/mm/buddy_allocator.c:173-181 | the mapping loop maps the block page by page; at the first page marked already it stops with an error and keeps the pages before it |
| Allocator.BuddyAllocator.constructor | kernel/mm/buddy_allocator.c:29-66 | the arena is mapped and the tree is one free leaf over the whole range, in agreement with the page tables |
| Allocator.BuddyAllocator.Alloc | kernel/mm/buddy_allocator.c:153-186 | return code, address and the whole new state, for success, a failed search and too little memory |
| Printer.DigitsValue | kernel/libc/stdio/sprintf.c:97-106 | enough digits of a number have its value |
| Printer.RoundTrip | kernel/libc/stdio/sprintf.c:37-129 | for all flags, widths, precisions and 64-bit arguments, in radix 8, 10 and 16, the text reads back as the argument exactly when the conversion is readable; except for the most negative argument the radix may be any from 2 to 16 |
| Printer.LeastNeverReads | kernel/libc/stdio/sprintf.c:79-106 | the most negative argument, whose negation wraps around, is never read back |
| Printer.TextReads | kernel/libc/stdio/sprintf.c:70-129 | what the text reads as, in any radix that has its digits, for each kind of padding |
| Printer.TextShape | kernel/libc/stdio/sprintf.c:58-129 | the width of the text, the place of sign and digits in it, how many digits there are and their value, and the padding, without a prefix |
| Printer.NumDigitsIs | kernel/libc/stdio/sprintf.c:58-61 | k digits suffice exactly below the k-th power of the radix |
| Printer.LetterCase | kernel/libc/stdio/sprintf.c:97-106 | letters among the digits are upper case exactly if that is asked for |
| Printer.UnreadableTexts | kernel/libc/stdio/sprintf.c:43-77 | a plus sign with zero, and zeros before a minus sign, do not read back |
| Printer.EveryCellWritten | kernel/libc/stdio/sprintf.c:108-113 | every cell of the text is written exactly when no `0x` is asked for or there is padding |
| Printer.DigitsMissing | kernel/libc/stdio/sprintf.c:58-68 | no digit is printed exactly for a signed zero with a plus sign and a precision of at most one |
| Printer.CountDigits | kernel/libc/stdio/sprintf.c:58-61 | the counting loop, which divides towards zero, counts the digits of the magnitude |
| Printer.WriteDigits | kernel/libc/stdio/sprintf.c:96-106 | the backward loop writes the digits, or for a number that stayed negative the other characters, and nothing else |
| Printer.ConvertAnyIntToStr | kernel/libc/stdio/sprintf.c:37-129 | the buffer gets pad, sign, prefix, digits and pad at its place and is otherwise unchanged, and the length is returned |
| Format.ScanDirective | kernel/libc/stdio/sprintf.c:136-319 | the fall-through state machine parses what the phase-by-phase parser parses, stays inside the format and ends |
| Format.PutString | kernel/libc/stdio/sprintf.c:294-308 | the string is printed up to an unsigned precision, if one was given |
| Format.PutSpecifier | kernel/libc/stdio/sprintf.c:221-317 | the effect of every specifier on buffer, count cells and arguments used, which the rows of `FormatGrammar` spell out |
| Format.Vsprintf | kernel/libc/stdio/sprintf.c:130-327 | the buffer holds the output of the whole format with a zero character behind it, the rest is unchanged, and the length is returned |
| FormatGrammar.FlagSetIs | kernel/libc/stdio/sprintf.c:145-166 | a flag is set exactly when its character occurs among the flags |
| FormatGrammar.ScansAsWritten | kernel/libc/stdio/sprintf.c:143-219 | the text of any conversion of the standard's form is scanned as its flags, width, precision and length, up to its specifier |
| FormatGrammar.RunIsOutput | kernel/libc/stdio/sprintf.c:130-327 | for every format that spells well-formed items the output is that of the items one after another |
| FormatGrammar.IntegerItem | kernel/libc/stdio/sprintf.c:221-286 | `d` and `i` print in radix 10, `o` and `u` in 8, `x`, `X` and `p` in 16, capital letters only for `X`, unsigned but for `d` and `i`; the text in that radix reads as the argument exactly when the conversion is readable; there is output exactly when the argument has the kind of the length modifier |
| FormatGrammar.CharItem | kernel/libc/stdio/sprintf.c:287-293 | `%c` prints the low byte of an `int` |
| FormatGrammar.StringItem | kernel/libc/stdio/sprintf.c:294-308 | `%s` prints the first min(length, precision) characters, all of them without a precision |
| FormatGrammar.CountItem | kernel/libc/stdio/sprintf.c:312-317 | `%n` prints nothing and stores the number of characters printed so far |
| FormatGrammar.ItemsInOrder | kernel/libc/stdio/sprintf.c:143-319 | each conversion uses one argument after one for each asterisk, and what follows is printed from there on |
| FormatGrammar.FieldsMean | kernel/libc/stdio/sprintf.c:168-193 | width and precision are the decimal numbers written, or the arguments of the asterisks |
| FormatGrammar.KindIs | kernel/libc/stdio/sprintf.c:195-258 | the kind of argument each length modifier asks for |
| FormatGrammar.PercentReadTwice | kernel/libc/stdio/sprintf.c:309-311 | `%%` prints a percent sign and the second sign then starts a directive |
| FormatGrammar.FinalPercentFails | kernel/libc/stdio/sprintf.c:309-311 | a format that ends with `%%` takes the scanner past its end, an outcome of its own |
| FormatGrammar.UnsignedReads | kernel/libc/stdio/sprintf.c:272-278 | with any flags, width and precision, what `%u` prints reads as the number in decimal exactly below eight, or for zero only if zeros are put behind it |
| FormatGrammar.UnsignedMisprints | kernel/libc/stdio/sprintf.c:272-278 | 10, and 5 in a left-justified zero-padded field, print as other numbers |
| SearchTree.InsertKeeps | kernel/tree/tree.c:73-96 | insertion adds one occurrence and keeps the order |
| SearchTree.FindIsExact | kernel/tree/tree.c:98-113 | in an ordered tree the search finds a match exactly when there is one |
| SearchTree.DeleteKeepsOrder | kernel/tree/tree.c:31-71 | deletion, also from a tree with stale parent pointers, keeps the order and adds nothing, whatever it loses |
| SearchTree.DeleteIsExact | kernel/tree/tree.c:31-71 | deletion removes exactly the occurrence found if and only if its node is in a handled case, which demands an up-to-date parent pointer of a node with at most one child; it changes nothing if there is no match |
| SearchTree.RunsKeepOrder | kernel/tree/tree.c:11-113 | over any run of insertions and deletions the order is kept, and the tree holds what it should after every operation if and only if all deletions are handled |
| SearchTree.DeleteKeepsLinks | kernel/tree/tree.c:45-65 | if all parent pointers are up to date, they stay so exactly when deletion hangs no subtree elsewhere |
| SearchTree.StaleNodeStays | kernel/tree/tree.c:38-56 | insert 10, 20, 30, delete 20, delete 30: 30 is still in the tree |
| SearchTree.DeepSuccessorLoses | kernel/tree/tree.c:57-65 | deleting a node with a deep successor loses other nodes |
| SearchTree.FoundIffInserted | kernel/tree/tree.c:11-21 | after any insertions a value is found exactly when a match was inserted |
| SearchNodes.NodeInsert | kernel/tree/tree.c:73-96 | the linked nodes become the tree of the insertion on values; the new node's parent pointer and flags are right, and no other link changes |
| SearchNodes.NodeFind | kernel/tree/tree.c:98-113 | the node returned is the root of the subtree found on values, or null if there is none |
| SearchNodes.ReplaceBySuccessor | kernel/tree/tree.c:57-65 | a node with two children takes value and right child of its successor, and that child's parent pointer becomes stale; the nodes dropped are given |
| SearchNodes.Bypass | kernel/tree/tree.c:38-56 | what the parent pointer names gets the child: the node above, or, if the pointer is stale, a node no longer in the tree, so that nothing changes in it |
| SearchNodes.NodeDelete | kernel/tree/tree.c:31-71 | the linked nodes, with up-to-date or stale links, become the tree of the deletion on values; each parent pointer names the node above or one taken out of the tree |
| SearchNodes.StaleRun | kernel/tree/tree.c:38-56 | the same run on linked nodes: 30 is still in the tree after it was deleted |
| SearchNodes.BinaryTree.Insert | kernel/tree/tree.c:11-17 | insertion into an empty or nonempty tree, after any deletions |
| SearchNodes.BinaryTree.Find | kernel/tree/tree.c:19-21 | a matching node is returned exactly when some value in the tree matches |
| SearchNodes.BinaryTree.Delete | kernel/tree/tree.c:23-29 | nothing without a match, otherwise the deletion on values, whatever deletions came before |
| Elf.ParseHeader | kernel/elf/elf.c:5-24 | the verdict on magic number, class and byte order, and the header only for an accepted file |
| Elf.ParseProgramHeaders | kernel/elf/elf.c:41-54 | the table after every entry was copied to its place |
| Elf.PhdrsAreFiles | kernel/elf/elf.c:41-54 | entries of at least 32 bytes arrive as they are in the file, though each copy may run into the next entry |
| Elf.PhdrWords | kernel/include/elf/elf.h:116-125 | the words of a program header |
| Elf.EntryPlace | kernel/elf/elf.c:43-51 | entries lie as far apart as byte 42 of the header says, from where the word at byte 28 says |
| ElfLoad.MemHighIsMax | kernel/elf/loadelf.c:49-58 | the length asked for is the largest of all p_vaddr + p_memsz in 32 bits, or zero |
| ElfLoad.SegmentLoaded | kernel/elf/loadelf.c:69-75 | a segment that no later one overlaps holds its file bytes |
| ElfLoad.ImageInBlock | kernel/elf/loadelf.c:60-66 | the image lies in the block granted for it exactly when its length is a good one |
| ElfLoad.SegmentsInBlock | kernel/elf/loadelf.c:60-77 | every byte of a segment is at the granted address plus its virtual address, inside the block |
| ElfLoad.MemoryInBlock | kernel/elf/loadelf.c:49-66 | every one of the p_memsz bytes of a loadable segment, the zero-initialised ones included, is inside the block granted, if the length is a good one |
| ElfLoad.OthersKept | kernel/elf/loadelf.c:69-75 | loading changes nothing outside the block |
| ElfLoad.FindMemHigh | kernel/elf/loadelf.c:49-58 | the loop computes the end of the image |
| ElfLoad.CopySegments | kernel/elf/loadelf.c:69-75 | the loop makes the image of the segments |
| ElfLoad.Load | kernel/elf/loadelf.c:25-80 | address, entry point and memory after a load, with a refused header only reported; nothing is written if the allocation fails |

## Left out

- `buddy_allocator__free` (`kernel/mm/buddy_allocator.c:188-213`): its descent never refreshes the record it compares with, and a left child has its parent's address, so it has no release semantics; runs of the allocator are allocations only.
- The memory map loop of `mm_init` (`kernel/mm/mm.c:48-93`): its masks do not match the ranges meant; `Reserve` starts from any bitmap.
- `mm_is_memory_available` (`kernel/mm/mm.c:145-178`): nothing calls it.
- The searching branch of `allocate_inode` (`kernel/fs/ext2.c:664-684`): it never leaves its outer loop, and every caller gives the number.
- `arch_paging_init_lower` (`kernel/arch/i686/paging/paging.c`): it fills fixed entries; TLB invalidation and loading of control registers are hardware.
- `kernel/fs/fat16_read.c`, `tty`, string helpers, the other standard I/O wrappers, interrupts, ports and drivers.
- `libc/stdio/vsprintf.c`: the same text as `sprintf.c`.
- Section headers and relocation (`kernel/elf/elf.c:26-39`, `kernel/elf/loadelf.c:8-22`): the same copying loop again, and an empty loop.
- Device errors: reads and writes inside the device succeed; the error returns of block reads and writes are not modelled. Sectors have 512 bytes.
- Disks of more than 32 groups, but for `PaddingIsRight`: their 51 descriptors are written past the end of a block of 32.
- Superblock fields that hold strings and identifiers (volume name, last mount point, UUID), and clocks.
- Ext2Make.FormatDevice: the first two data blocks must start with four zero bytes, because the code never clears directory blocks; this is a precondition.
- Ext2World.RunKeepsCounts: link counts are compared in 16 bits, the width of the field, so the count is exact below 65536 links.
- Ext2Links.AddLink: does not model a directory block whose chain is malformed, on which the original's walk may not end.
- Allocator.BuddyAllocator.Alloc: a free frame for every page of the block and room in the arena for the splits are preconditions, because the original's frame scan has no bound and its arena guard is late; the payload of a tree node is an object rather than bytes of the arena, and which frame serves which page is a ghost argument, since the original keeps no such record.
- Format.Vsprintf: arguments are typed values, so a length modifier that does not match its argument is outside the model; numbers in a format are unbounded; a precision of -1, -2 or -3 for an integer, which makes the original write below its buffer, is excluded; the buffer must have room for the output, also for the four thousand million cells of a negative width.
- Ext2Blocks.AllocateBlocks: a count of 0 is excluded, because the scan then stores a block number for every open byte of every group, without regard to the caller's array, and grants nothing.
- Printer.RoundTrip: for the most negative argument only the radixes 8, 10 and 16, the ones that `kaos_vsprintf` uses.
- ElfLoad.Load: the file must hold its headers and segments, and the image must end inside user memory, because the original checks neither.
- SearchNodes.BinaryTree.Insert: the first node of a tree must come with both side flags clear, because the original does not set them; and a node that a deletion took out of the tree is not inserted again, because stale parent pointers may still name it.
