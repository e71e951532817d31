# Verified models of the shovelos and sbunix cores

This project models eight parts of the repository in Dafny and proves what they are for. Each part is a module
of its own; `Words` holds the machine words, shifts and bit operators they share, `Wrappers` an option type,
`Scheduling` the pure half of the scheduler and `KernelRuns` whole runs of the w2 kernel.
`dafny verify dfyconfig.toml` checks everything.

| part | module | the code |
|---|---|---|
| 64-bit division from 32-bit words | `Division` | `stage1.5/math64.c` of shovelos |
| three-level page tables | `PageTables` | `kernel/arch/x86_64/pt.c` of shovelos |
| ticket lock | `TicketLock` | `kernel/arch/x86_64/ticket_lock.h` of shovelos |
| sector and partition reads | `DiskReader` | `stage1.5/disk/bios/bios_disk.c` of shovelos |
| ext2 files and the kernel copy loop | `Ext2` | `stage1.5/fs/ext2/ext2.c` of shovelos |
| number printing and parsing | `Printf` | `w1/libc/printf.c`, `w1/libc/string.c` |
| first-fit allocator | `Malloc` | `w2/libc/malloc.c`, `w2/libc/stdlib.c` |
| tar file system | `Tarfs` | `w2/sys/fs/tarfs.c`, `w2/sys/kstring.c` |
| tasks, scheduler, system calls | `Tasks`, `Scheduling`, `KernelRuns` | `w2/sys/process/`, `w2/sys/syscall.c` |

Code that changes things in place is modelled as methods over classes and arrays, each proved against a function
of its inputs or of the old state; the properties of those functions, and of runs of any length, are lemmas.
Integer widths are explicit: a sum, product or shift that wraps in C wraps here.

## Where the code falls short of its intent

Nothing is repaired. Each deviation is stated as the exact condition under which the code does what it is for.

- `_munmap` returns the 4 KB page of what was mapped: the mapped address itself exactly when it is a multiple of
  4096 (`PageTables.UnmapReturnsMapped`).
- The ticket lock excludes CPUs from each other exactly for up to 65536 of them
  (`TicketLock.SafeExactlyUpTo65536`).
- `partition_read` computes the start of the partition in 32 bits: right exactly for partitions that start below
  4 GiB (`DiskReader.BaseIsStartBelow4GiB`).
- In the triple-indirect range `read_inode_block` starts from the double-indirect pointer: the pointer path it
  follows is the file system's exactly below that range (`Ext2.RightPathBelowTriple`).
- `fread` of ext2 adds in 32 bits and passes its byte count in 16: it reports exactly the whole items left, copies
  them and moves by them if and only if they are fewer than 64 KiB and a request past the end does not wrap to a
  place inside the file (`Ext2.FreadIsExact`; two failing reads in `Ext2.FreadReportsWhatItDidNotCopy`).
- The copy loop of `ext2_shuffle_hi` ends exactly for files of at most 4 GiB less one block
  (`Ext2.CopyEndsExactlyBelow4GiBLessABlock`).
- Decimal printing and `atoi` round-trip exactly for values that fit an int (`Printf.DecimalRoundTrip`).
- `malloc` adds sizes in 64 bits: a new block is covered by the break exactly when the new break fits
  (`Malloc.Heap.Malloc`, `Malloc.MovedPast`).
- A tar size field with a NUL right behind its digits is read right exactly for files below 295,600,128 bytes,
  whose octal digits still fit an int when taken as decimal (`Tarfs.SizeReadIsOctal`). The format also allows a
  space there, which the code reads as a digit: of the fields it reads as a number that fits an int, exactly the
  NUL-ended ones come out right (`Tarfs.ReadRightWithNulOnly`; a 100-byte file read as 788 bytes in
  `Tarfs.SpaceEndedIsMisread`). Beyond that a space-ended field can be right by accident
  (`Tarfs.SpaceEndedRightByAccident`).
- Pids are the low 32 bits of a 64-bit counter: no two tasks share one exactly for up to 2^32 creations
  (`KernelRuns.PidsAreOwn`, `KernelRuns.PidsRepeat`).
- `fopen` and `fread` of the tar file system never find the last file of the list (`Tarfs.TarFs.Fopen`,
  `Tarfs.TarFs.Fread`).
- The scheduler runs a task that is not runnable exactly when there is no current task and the head of the list
  is not runnable (`Tasks.Kernel.ScheduleProcess`).
- A task that calls `sleep` wakes after exactly the ticks asked for, 2^64 for `sleep(0)`, if and only if nothing
  disturbs it first: a schedule call without a current task while it heads the list, the exit of a child, a kill,
  or a wake-up as the keyboard's or the pipe's last reader (`KernelRuns.SleepLasts`, `KernelRuns.WakesOnTime`). A
  sleeper at the head of the list is always disturbed, by its own system call (`KernelRuns.HeadDoesNotSleep`).
- A child's exit makes its parent runnable before it looks whether the parent waits for it: the outcome is that of
  `remove_from_parent` alone exactly for a parent that was runnable or waited for this child
  (`Tasks.Kernel.Exit`; a parent woken though it waits for another pid in `KernelRuns.WokenByAnotherChild`).
- `system_kill` keeps the kernel's invariants exactly when its victim is not the current task
  (`Tasks.Kernel.Kill`).

## Model

| member | source | states |
|---|---|---|
| Division.UDivQrnnd | shovelos-read-only/stage1.5/math64.c:73-79 | the two-by-one word division; its precondition, high word below divisor, is proved at every use, so no division on any path faults |
| Division.UMulPpmm | shovelos-read-only/stage1.5/math64.c:67-72 | high and low word of the full product |
| Division.SubDdmmss | shovelos-read-only/stage1.5/math64.c:59-66 | two-word subtraction, wrapping at 2^64 on a borrow |
| Division.Clz | shovelos-read-only/stage1.5/math64.c:80 | the shift that brings the top bit of a nonzero word to position 31 |
| Division.Normalise | shovelos-read-only/stage1.5/math64.c:195-200 | the shifted three-word dividend is the dividend times the power of two |
| Division.NormaliseDivisor | shovelos-read-only/stage1.5/math64.c:275-278 | the shifted two-word divisor is the divisor times the power of two, with its top bit set |
| Division.TrialQuotient | shovelos-read-only/stage1.5/math64.c:283-290 | the trial quotient is never too small and at most one too large, and the product comparison tells which |
| Division.Corrected | shovelos-read-only/stage1.5/math64.c:286-297 | after the one correction the remainder is in range; the correction's own subtraction always borrows and the last one undoes it |
| Division.Denormalise | shovelos-read-only/stage1.5/math64.c:294-300 | the remainder shifted back is the remainder over the power of two |
| Division.Unscale | shovelos-read-only/stage1.5/math64.c:294-300 | quotient and remainder of the scaled division give those of the unscaled one |
| Division.DivideShort | shovelos-read-only/stage1.5/math64.c:149-169 | one-word divisor above the high word: true quotient and remainder |
| Division.DivideLong | shovelos-read-only/stage1.5/math64.c:170-218 | one-word divisor not above the high word: true two-word quotient and remainder, with and without normalising |
| Division.DivideByTwoWords | shovelos-read-only/stage1.5/math64.c:221-269 | two-word divisor: true quotient and remainder on all three of its paths |
| Division.DivideNormalised | shovelos-read-only/stage1.5/math64.c:270-302 | the normalised path: true quotient and remainder from one trial division and one correction |
| Division.UDivModDi4 | shovelos-read-only/stage1.5/math64.c:97-308 | for every 64-bit n and d: n / d, with n % d stored when asked; a fault exactly for d = 0 |
| Division.UDivDi3 | shovelos-read-only/stage1.5/math64.c:310-314 | the quotient |
| Division.UModDi3 | shovelos-read-only/stage1.5/math64.c:316-324 | the remainder |
| PageTables.TestPresent | shovelos-read-only/kernel/arch/x86_64/pt.c:112 | the flag test is the lowest bit |
| PageTables.AlignDown | shovelos-read-only/kernel/arch/x86_64/pt.c:20 | masking gives the 4 KB page |
| PageTables.WithFlags | shovelos-read-only/kernel/arch/x86_64/pt.c:175 | or-ing in flags sets exactly their bits, so the entry is present and keeps its page |
| PageTables.LinkEntry | shovelos-read-only/kernel/arch/x86_64/pt.c:175 | a link has bits 0 and 1 set (present, writable) and every other bit as before |
| PageTables.LeafEntry | shovelos-read-only/kernel/arch/x86_64/pt.c:202 | a last-level entry has bits 0, 1 and 7 set (present, writable, 2 MB page) and every other bit of the address; for a 4096-aligned one it is phy + 0x83 |
| PageTables.WithoutPresent | shovelos-read-only/kernel/arch/x86_64/pt.c:249 | clearing the flag clears bit 0 and nothing else |
| PageTables.FieldsOfVpn | shovelos-read-only/kernel/arch/x86_64/pt.c:161-198 | the three index fields are the digits of address bits 21 to 47 |
| PageTables.TakeFresh | shovelos-read-only/kernel/arch/x86_64/pt.c:58-82 | a table taken from the pool was in it and never will be again |
| PageTables.PageTableMem.GetPhyPageTable | shovelos-read-only/kernel/arch/x86_64/pt.c:58-82 | a zeroed 4 KB table off the stack, refilled from the allocator, or 0 with memory unchanged |
| PageTables.LocateFrame | shovelos-read-only/kernel/arch/x86_64/pt.c:163-194 | a write to an upper-level entry moves no table except the one it leads to |
| PageTables.RewriteEntry | shovelos-read-only/kernel/arch/x86_64/pt.c:175 | setting flags on a present entry changes no table and no translation |
| PageTables.LinkTable | shovelos-read-only/kernel/arch/x86_64/pt.c:163-175 | linking a blank table keeps the tree and every translation |
| PageTables.WriteTranslation | shovelos-read-only/kernel/arch/x86_64/pt.c:201-202 | writing a last-level entry changes the translation of its page and of no other |
| PageTables.PlantRoot | shovelos-read-only/kernel/arch/x86_64/pt.c:155-157 | a first root is an empty tree with no translation |
| PageTables.PageTableMem.FindOrAllocate | shovelos-read-only/kernel/arch/x86_64/pt.c:163-175 | finds or links the next table, its entry the old one or the new address with bits 0 and 1 set; every other entry of every table stays; fails exactly when one is needed and none can be had |
| PageTables.PageTableMem.AllocateBelow | shovelos-read-only/kernel/arch/x86_64/pt.c:164-166 | the allocating half of that step: the new table is the one the pool gives, entry 0 when it gives none |
| PageTables.PageTableMem.AllocateRoot | shovelos-read-only/kernel/arch/x86_64/pt.c:155-157 | the root table, or out of memory with no translation changed |
| PageTables.PageTableMem.TableFor | shovelos-read-only/kernel/arch/x86_64/pt.c:147-194 | the descent: exactly the missing tables are taken from the pool, all others stay, the links on the way are present and writable, no leaf changes |
| PageTables.PageTableMem.Mmap | shovelos-read-only/kernel/arch/x86_64/pt.c:147-206 | 0 exactly when the tables it lacks can be had, and then the last-level entry of the one page is the address with bits 0, 1 and 7 set, so the page has the new translation; else -1; every other last-level entry and every table stays |
| PageTables.PageTableMem.Munmap | shovelos-read-only/kernel/arch/x86_64/pt.c:209-252 | the last-level entry loses bit 0 and nothing else changes: one page's translation is removed and returned, or 0 |
| PageTables.PageTableMem.VirtToPde | shovelos-read-only/kernel/arch/x86_64/pt.c:102-133 | the last-level entry of the page, 0 without one |
| PageTables.PageTableMem.VirtToPhy | shovelos-read-only/kernel/arch/x86_64/pt.c:135-143 | agrees with the finite map from pages to physical pages |
| PageTables.OneParent | shovelos-read-only/kernel/arch/x86_64/pt.c:163-194 | every table but the root is pointed to by exactly one present entry |
| PageTables.PageTableMem.Run | shovelos-read-only/kernel/arch/x86_64/pt.c:147-252 | any run of calls on the tables keeps the tree; the translation, every last-level entry and every `_munmap` answer are those the calls make of what was before |
| PageTables.LastCallDecides | shovelos-read-only/kernel/arch/x86_64/pt.c:147-252 | after any such run each page is translated as the last call about it left it |
| PageTables.LastCallMakesEntry | shovelos-read-only/kernel/arch/x86_64/pt.c:102-252 | what `virt_to_pde` answers after a run: the entry the last `_mmap` of the page wrote, without bit 0 if an `_munmap` came later |
| PageTables.UnmapReturnsMapped | shovelos-read-only/kernel/arch/x86_64/pt.c:201-251 | in any such run `_munmap` answers the page last mapped, the mapped address itself exactly if it is 4096-aligned, and 0 for a page last unmapped |
| TicketLock.StepKeepsQueue | shovelos-read-only/kernel/arch/x86_64/ticket_lock.h:32-64 | any atomic step of any CPU keeps the tickets out as the cyclic interval from dequeue to queue, one CPU each, and only its head can signal |
| TicketLock.StepKeepsFlag | shovelos-read-only/kernel/arch/x86_64/ticket_lock.h:46-63 | the shared saved flag is the owner's own until it has loaded it |
| TicketLock.RunKeepsQueue | shovelos-read-only/kernel/arch/x86_64/ticket_lock.h:32-64 | both invariants over every interleaving, across counter wraps |
| TicketLock.AtMostOneInside | shovelos-read-only/kernel/arch/x86_64/ticket_lock.h:42-59 | mutual exclusion in every state of every interleaving of up to 65536 CPUs |
| TicketLock.SafeExactlyUpTo65536 | shovelos-read-only/kernel/arch/x86_64/ticket_lock.h:34-44 | the lock is safe for n CPUs if and only if n is at most 65536 |
| TicketLock.FirstComeFirstServed | shovelos-read-only/kernel/arch/x86_64/ticket_lock.h:36-44 | those served, then those waiting, are those who took a ticket, in that order |
| TicketLock.WaitIsExact | shovelos-read-only/kernel/arch/x86_64/ticket_lock.h:42-59 | a waiter with k tickets ahead is eligible after exactly k signals |
| TicketLock.FlagRestored | shovelos-read-only/kernel/arch/x86_64/ticket_lock.h:46-63 | each CPU leaves `signal` with the interrupt flag it saved in `wait` |
| TicketLock.EachOnItsOwn | shovelos-read-only/kernel/arch/x86_64/ticket_lock.h:32-64 | a step of one CPU changes no other CPU, and outside the lock a CPU sets its own flag |
| TicketLock.InterruptsOff | shovelos-read-only/kernel/arch/x86_64/ticket_lock.h:46-63 | from the end of `wait` to the end of `signal` a CPU's interrupts are off |
| TicketLock.LeavesAfterOwnSteps | shovelos-read-only/kernel/arch/x86_64/ticket_lock.h:42-64 | from any state a CPU past the spin is outside after exactly its own next 5, 4, 3, 2 or 1 steps, whatever the others do in between |
| TicketLock.CountersCount | shovelos-read-only/kernel/arch/x86_64/ticket_lock.h:34-59 | dequeue advances by one for each signal and queue by one for each ticket taken, around 2^16 |
| TicketLock.HeadSignals | shovelos-read-only/kernel/arch/x86_64/ticket_lock.h:42-59 | nobody signals before the head of the queue has taken its 5 own steps from the spin (fewer from further on), and then it has |
| TicketLock.SignalsOnce | shovelos-read-only/kernel/arch/x86_64/ticket_lock.h:54-64 | a CPU inside is the next to signal and signals exactly once on its way out, so dequeue advances by exactly one for it |
| TicketLock.GetsIn | shovelos-read-only/kernel/arch/x86_64/ticket_lock.h:42-59 | a waiter with k tickets ahead is in, or let in by its next look, once each of those ahead has in turn taken 5 own steps |
| TicketLock.AloneThereAndBack | shovelos-read-only/kernel/arch/x86_64/ticket_lock.h:32-64 | a CPU that alone uses a free lock is outside after seven steps, with its flag restored and the lock free, both counters one on |
| DiskReader.Disk.ReadSector | shovelos-read-only/stage1.5/disk/bios/bios_disk.c:90-103 | one sector copied whole, or a failure, exactly when the BIOS call fails or the sector is not on the disk |
| DiskReader.Disk.ReadPiece | shovelos-read-only/stage1.5/disk/bios/bios_disk.c:122-150 | one round: bytes of the disk from the address on, partial sectors through the buffer (halting on failure), whole ones directly (reporting it) |
| DiskReader.Disk.ReadPart | shovelos-read-only/stage1.5/disk/bios/bios_disk.c:129-145 | part of a sector through the bounce buffer, grown on demand |
| DiskReader.Disk.DiskRead | shovelos-read-only/stage1.5/disk/bios/bios_disk.c:116-157 | ends for every address, size and sector size; succeeds if and only if every BIOS call made works and the range is on the disk, with exactly the disk slice; fails only for a range with a whole sector and halts only for one with part of a sector; nothing else written |
| DiskReader.PartitionRead | shovelos-read-only/stage1.5/disk/bios/bios_disk.c:168-171 | the same for the slice shifted by the 32-bit partition start, the sum taken in 64 bits |
| DiskReader.BaseIsStartBelow4GiB | shovelos-read-only/stage1.5/disk/bios/bios_disk.c:170 | that start is the true one up to a multiple of 2^32, and right exactly for partitions starting below 4 GiB |
| Ext2.RightPathBelowTriple | shovelos-read-only/stage1.5/fs/ext2/ext2.c:254-309 | the code's pointer path is the file system's exactly below the triple-indirect range |
| Ext2.PathOfBlock | shovelos-read-only/stage1.5/fs/ext2/ext2.c:262-294 | a block below 12 + k + k*k is recovered from its pointer path |
| Ext2.BlockOfPath | shovelos-read-only/stage1.5/fs/ext2/ext2.c:262-294 | a valid path is the path of the block it leads to, so blocks and paths are in bijection |
| Ext2.PathInTripleRange | shovelos-read-only/stage1.5/fs/ext2/ext2.c:296-303 | in the triple-indirect range: entry 0 of the double-indirect block, then the triple-indirect entry, then the low 14 bits of the rest |
| Ext2.PointerSlots | shovelos-read-only/stage1.5/fs/ext2/ext2.c:262-297 | the inode's pointers: 12 direct ones from byte 40, then one each for one, two and three levels |
| Ext2.InodeIsInGroup | shovelos-read-only/stage1.5/fs/ext2/ext2.c:152-173 | inode numbers from 1 on are group times group size plus index plus 1, with the index below the group size |
| Ext2.InodeOfGroup | shovelos-read-only/stage1.5/fs/ext2/ext2.c:152-173 | and every such pair is the group and index of its number |
| Ext2.TableStart | shovelos-read-only/stage1.5/fs/ext2/ext2.c:175-184 | a group's first inode lies at the start of the group's inode table |
| Ext2.NextInode | shovelos-read-only/stage1.5/fs/ext2/ext2.c:175-184 | the next inode of a group lies one inode size behind |
| Ext2.DescriptorTable | shovelos-read-only/stage1.5/fs/ext2/ext2.c:158-167 | a group's table pointer is byte 8 of its 32-byte descriptor in the block behind the superblock's |
| Ext2.BlocksInOrder | shovelos-read-only/stage1.5/fs/ext2/ext2.c:186-192 | block 0 starts the partition and each block lies one block size behind the one before |
| Ext2.Le32ReadsBack | shovelos-read-only/stage1.5/fs/ext2/ext2.c:197-213 | four bytes of a value, least significant first, are read as that value |
| Ext2.Reader.ReadPhy32 | shovelos-read-only/stage1.5/fs/ext2/ext2.c:206-213 | the little-endian word at an address, when every BIOS call made works and the word is on the partition |
| Ext2.Reader.ReadBlock32 | shovelos-read-only/stage1.5/fs/ext2/ext2.c:186-204 | an entry of a pointer block |
| Ext2.Reader.GetInodeAddr | shovelos-read-only/stage1.5/fs/ext2/ext2.c:152-184 | the address that the inode numbers, descriptors and tables above define, when the reads work |
| Ext2.Reader.FollowPath | shovelos-read-only/stage1.5/fs/ext2/ext2.c:264-302 | the pointer reads of the branches give the block the path leads to |
| Ext2.PathFits | shovelos-read-only/stage1.5/fs/ext2/ext2.c:276-302 | byte offsets into pointer blocks fit their 16 bits |
| Ext2.Reader.ReadInodeBlock | shovelos-read-only/stage1.5/fs/ext2/ext2.c:254-309 | bytes of the block the code's path leads to, when the reads work; always halts past the triple-indirect range |
| Ext2.InBlock | shovelos-read-only/stage1.5/fs/ext2/ext2.c:311-328 | bytes of a block at its address are the file's bytes from block number times block size on |
| Ext2.Reader.ReadInode | shovelos-read-only/stage1.5/fs/ext2/ext2.c:311-328 | exactly the file's bytes from offset on, whatever blocks they span, when every BIOS call made works and the blocks on the way lie on the partition; nothing else written |
| Ext2.ReadableWhereBlocksExist | shovelos-read-only/stage1.5/fs/ext2/ext2.c:262-292 | the blocks on the way do lie on a partition that holds every address a 32-bit block number leads to |
| Ext2.Reader.Fread | shovelos-read-only/stage1.5/fs/ext2/ext2.c:475-493 | the item count of its 32-bit arithmetic, the new position, and the file's bytes |
| Ext2.FreadIsExact | shovelos-read-only/stage1.5/fs/ext2/ext2.c:477-490 | for all arguments: count, copy and position are those of the whole items left if and only if these are below 64 KiB and the 32-bit sum shows the end |
| Ext2.FreadReportsWhatItDidNotCopy | shovelos-read-only/stage1.5/fs/ext2/ext2.c:482-490 | 64 KiB of single bytes are reported and skipped but not copied; a request of 2^32 bytes of a 100-byte file is reported in full |
| Ext2.Reader.ShuffleHi | shovelos-read-only/stage1.5/fs/ext2/ext2.c:519-535 | the copy loop ends having copied exactly the file's bytes, contiguously, under the same condition |
| Ext2.CopyEndsExactlyBelow4GiBLessABlock | shovelos-read-only/stage1.5/fs/ext2/ext2.c:482-534 | the copy loop ends if and only if size plus block size is at most 2^32 |
| Printf.DigitChars | w1/libc/printf.c:38-46 | or-ing the case bit into the digit table gives the digit characters of either case |
| Printf.DigitLoop | w1/libc/printf.c:72-77 | for every base and 64-bit value at most 64 of tmp's 66 characters, the digits in reverse |
| Printf.Number | w1/libc/printf.c:34-104 | for every flag combination, width and precision: the field at str and nothing else written; NULL exactly outside bases 2 to 16 |
| Printf.Emit | w1/libc/printf.c:78-102 | the counting loops emit padding, sign, prefix, zeros, digits and spaces in that order |
| Printf.TakeSign | w1/libc/printf.c:52-71 | the sign character, the magnitude and the width left |
| Printf.LayoutLength | w1/libc/printf.c:52-103 | the field has max(width, sign + prefix + max(digits, precision)) characters |
| Printf.LayoutReadsBack | w1/libc/printf.c:46-103 | stripping padding, sign and prefix and reading the digits recovers the value |
| Printf.FieldBegins | w1/libc/printf.c:52-93 | character by character: spaces only without LEFT and ZEROPAD, then the minus, plus or space, then 0x, 0X or 0, then a digit |
| Printf.MakePrefix | w1/libc/printf.c:86-93 | the prefix as the code makes it, with the case bit or-ed into X |
| Printf.Atoi | w1/libc/string.c:125-131 | the decimal value of the string, kept to 32 bits |
| Printf.Htol | w1/libc/string.c:133-165 | the hexadecimal value of the string, kept to 64 bits |
| Printf.WrapsAreCongruent | w1/libc/string.c:125-165 | a value kept to 32 or 64 bits differs from it by a multiple of 2^32 or 2^64 |
| Printf.HexRoundTrip | w1/libc/printf.c:34-104 | printing in base 16 with small letters and `htol` are inverse on every 64-bit value |
| Printf.DecimalRoundTrip | w1/libc/string.c:125-131 | printing in base 10 and `atoi` are inverse exactly on values that fit an int |
| Malloc.Heap.Sbrk | w2/libc/stdlib.c:31-44 | the old break; the new one by 64-bit addition, a sum of zero being only a query |
| Malloc.Heap.AllocateMemory | w2/libc/malloc.c:96-110 | a used header at the old break |
| Malloc.MovedPast | w2/libc/stdlib.c:35-42 | the break ends up just behind the new block exactly when that address fits 64 bits |
| Malloc.Heap.FindFree | w2/libc/malloc.c:83-93 | the first free block that fits, or none with the last block remembered |
| Malloc.Heap.Malloc | w2/libc/malloc.c:29-71 | nothing for 0, else first fit, else growth; list and tiling kept; when the break overflows the block is handed out uncovered, or nothing is when the break was 2^64 - 1, and tiling is kept exactly if a block was reused |
| Malloc.Heap.Free | w2/libc/malloc.c:73-80 | marks the block of a pointer free; NULL is ignored |
| Malloc.InOrder | w2/libc/malloc.c:43-63 | in a tiled heap blocks are in address order and inside |
| Malloc.CallKeepsServed | w2/libc/malloc.c:29-80 | one call keeps the tiling and the used blocks exactly the client's, each large enough |
| Malloc.RunKeepsServed | w2/libc/malloc.c:29-80 | the same after every run of calls a client may make |
| Malloc.LiveDisjoint | w2/libc/malloc.c:29-80 | live allocations lie inside the heap and never overlap |
| Malloc.HeaderLayout | w2/libc/malloc.c:6-27 | the header size is that of its fields, each aligned to its size |
| Malloc.HeadersAreSafe | w2/libc/malloc.c:29-80 | no live allocation overlaps a field of any header |
| Malloc.EveryRunIsSafe | w2/libc/malloc.c:29-80 | from a fresh heap, after any run of calls, the blocks tile the heap and no two live allocations overlap |
| Malloc.GrowsOnlyWhenFull | w2/libc/malloc.c:51-66 | the heap grows if and only if no free block fits, and never shrinks |
| Malloc.FreedIsReused | w2/libc/malloc.c:51-66 | a freed block, or an earlier one, serves the next request it can hold |
| Malloc.FreeUndoesMalloc | w2/libc/malloc.c:29-80 | freeing what was just allocated restores the heap, up to a new free block at its end |
| Tarfs.PowerIsPow | w2/sys/kstring.c:27-36 | repeated squaring is the power, kept to 64 bits |
| Tarfs.OctalToDecimal | w2/sys/kstring.c:93-104 | the decimal digits of any int, reread in base eight |
| Tarfs.SizeReadIsOctal | w2/sys/kstring.c:85-104 | a size field with a NUL behind its digits is read as its octal value exactly below 295,600,128 |
| Tarfs.ReadRightWithNulOnly | w2/sys/kstring.c:85-104 | a field read as a number that fits an int is read right if and only if a NUL and not a space ends its digits, whatever follows |
| Tarfs.SpaceEndedIsMisread | w2/sys/kstring.c:85-91 | the size of a 100-byte file ended by a space is read as 788 |
| Tarfs.SpaceEndedRightByAccident | w2/sys/kstring.c:85-104 | a space-ended field whose reading wraps and comes out right |
| Tarfs.Kstrcmp | w2/sys/kstring.c:106-118 | 0 exactly for equal strings |
| Tarfs.TarFs.ChangeName | w2/sys/fs/tarfs.c:10-24 | the part after the first slash, terminated, in the global buffer |
| Tarfs.Align | w2/sys/fs/tarfs.c:53-55 | the size rounded up to whole blocks of 512 |
| Tarfs.HeaderFields | w2/sys/fs/tarfs.c:32-57 | name, size and next header offset of every entry, as the walks read them |
| Tarfs.TarFs.NextHeader | w2/sys/fs/tarfs.c:38-57 | the step from one header to exactly the next |
| Tarfs.TarFs.FindOffset | w2/sys/fs/tarfs.c:26-63 | header offset + 512 of the first entry of that name, 0 if there is none, whatever the sizes behind that entry |
| Tarfs.EntryReads | w2/sys/fs/tarfs.c:234-240 | with distinct names an entry's list name leads back to that entry, and its data lies there |
| Tarfs.TarFs.AddToFilelist | w2/sys/fs/tarfs.c:85-100 | appends to the linked list |
| Tarfs.TarFs.AddEntry | w2/sys/fs/tarfs.c:122-156 | the loop body: one more entry listed with its name, address, size and descriptor |
| Tarfs.TarFs.Initialize | w2/sys/fs/tarfs.c:102-160 | the list holds the root and then exactly the archive's entries, in order, with name, descriptor, address, size and type |
| Tarfs.TarFs.Fopen | w2/sys/fs/tarfs.c:213-225 | for every name: -1 if and only if no list element before the last has it, else the descriptor of the first that has; so with distinct names the descriptor of every entry but the last, and -1 for the last |
| Tarfs.TarFs.Fread | w2/sys/fs/tarfs.c:227-247 | the next piece of the file's data and the new offset; -1 exactly for descriptors not on the list before its last element |
| Tarfs.TarFs.ReadMany | w2/sys/fs/tarfs.c:227-247 | any run of `fread` calls on any files: what each file's calls returned, joined, is the next part of its data, of their total size or all that is left |
| Tarfs.ReadsArePrefix | w2/sys/fs/tarfs.c:235-242 | pieces of any sizes taken one after the other are, joined, one piece of their total size, and nothing past the end |
| Tasks.Kernel.AddToTaskList | w2/sys/process/process.c:26-42 | appends, keeping the chain |
| Tasks.Kernel.AddToFreeTaskList | w2/sys/process/process.c:44-62 | appends, keeping the chain |
| Tasks.Kernel.GetFreeTask | w2/sys/process/process.c:64-77 | the head of the free list, or new memory |
| Tasks.Kernel.RemoveFromTaskList | w2/sys/process/process.c:113-136 | the list without the task, wherever it stood |
| Tasks.Kernel.CreateNewTask | w2/sys/process/process.c:224-252 | a task recycled or new with exactly these fields, on the list unless named idle; no other task's fields change |
| Tasks.Kernel.Create | w2/sys/process/process.c:224-252 | the same keeps every invariant of the kernel |
| Tasks.Kernel.FreeTaskStruct | w2/sys/process/process.c:272-306 | moves a task from the task list to the end of the free list and clears all but its pid and name; no other task's fields change |
| Tasks.Kernel.Retire | w2/sys/syscall.c:155-157 | the same with the task stopped once more, as exit and kill end |
| Tasks.Kernel.GetNextTask | w2/sys/process/process.c:138-164 | the first runnable task behind the current one around the list; the head without a current one |
| Tasks.Kernel.ScheduleProcess | w2/sys/process/process_manager.c:53-99 | the round-robin choice runs, the old task becomes runnable, no other state changes; a task that was not runnable runs exactly as the head without a current task |
| Tasks.Kernel.UpdateTimeSlices | w2/sys/process/process.c:360-374 | one tick for every listed sleeper, no change for any other task |
| Tasks.Kernel.Fork | w2/sys/syscall.c:259-320 | a new child at the end of the list with the caller as parent and no child of its own; caller and child runnable, no current task, no other task changed |
| Tasks.Kernel.RemoveFromParent | w2/sys/process/process.c:376-386 | the parent counts one child fewer and becomes runnable exactly if it waits for this child |
| Tasks.Kernel.WakeParent | w2/sys/syscall.c:168-174 | the parent counts one child fewer and is runnable whatever its state; nothing else changes |
| Tasks.Kernel.Exit | w2/sys/syscall.c:164-184 | the caller moves to the free list, no current task; its parent is runnable with one child fewer, which is the state `remove_from_parent` leaves exactly for a parent runnable or waiting for this child; no other task changes |
| Tasks.Kernel.GetTask | w2/sys/process/process.c:206-216 | the first listed task of a pid |
| Tasks.Kernel.Kill | w2/sys/syscall.c:149-162 | the first task of that pid moves to the free list, -1 if there is none, and no other task changes; the invariants hold after it exactly if it is not the current task |
| Tasks.Kernel.Waitpid | w2/sys/syscall.c:537-556 | waits exactly when the caller has children |
| Tasks.Kernel.SystemSleep | w2/sys/syscall.c:618-633 | the caller sleeps with its counter one short |
| Tasks.Kernel.SystemRead | w2/sys/syscall.c:570-603 | blocks unless a written pipe is read, and remembers the reader for that source only |
| Tasks.Kernel.WakeWaitingTask | w2/sys/kb.c:267-271 | the keyboard reader becomes runnable |
| Tasks.Kernel.WakePipeReader | w2/sys/syscall.c:926-934 | the pipe reader becomes runnable and the flag is cleared, if there is one |
| KernelRuns.Do | w2/sys/syscall.c:149-634 | every event leads from one sound state to exactly the state it determines: both lists, the idle tasks, all tasks' fields, the current task, the readers, the pipe flag and the pid counter |
| KernelRuns.Run | w2/sys/syscall.c:149-634 | any run of creations, system calls, schedule calls, ticks and wake-ups goes through such states, each determined by the one before and the event |
| KernelRuns.Boot | w2/sys/process/process.c:3-5 | the same from the kernel's initial state, so for every state it can reach |
| KernelRuns.ForkAddsOne | w2/sys/syscall.c:259-311 | in every run a fork adds exactly one task, at the end of the list, runnable with the runnable caller as parent, and leaves no current task and every other task as it was |
| KernelRuns.ExitRemovesOne | w2/sys/syscall.c:164-184 | in every run an exit takes exactly the caller off the list, to the end of the free list, and changes no other task but its parent |
| KernelRuns.ListLength | w2/sys/process/process.c:26-136 | in every run the list is as long as it was, plus tasks created and forked, minus tasks exited and killed |
| KernelRuns.PidsAreOwn | w2/sys/process/process.c:234 | in every run from the start with at most 2^32 creations no two tasks have the same pid |
| KernelRuns.PidsRepeat | w2/sys/process/process.c:234 | after 2^32 + 1 creations two listed tasks have the same pid |
| KernelRuns.PassesOn | w2/sys/process/process_manager.c:53-99 | only a schedule call passes the processor to another task, and with a current task it passes it to the round-robin choice |
| KernelRuns.SleeperRests | w2/sys/process/process.c:360-374 | an event leaves a sleeper asleep with its counter, one less on a tick, unless it is one of the listed disturbances, which all end its sleep, or the tick that does |
| KernelRuns.OnOneList | w2/sys/process/process.c:26-77 | in every state of every run each allocated task but an idle one is on exactly one list, once |
| KernelRuns.OnlyCurrentRuns | w2/sys/process/process_manager.c:53-99 | in every state of every run a listed task that is running is the current one |
| KernelRuns.SleepLasts | w2/sys/syscall.c:618-633 | in every run a task that calls sleep stays asleep exactly while nothing disturbs it and fewer ticks than asked for have passed |
| KernelRuns.WakesOnTime | w2/sys/process/process.c:360-374 | the event that wakes a sleeper comes after exactly those ticks if and only if it is no disturbance |
| KernelRuns.HeadDoesNotSleep | w2/sys/process/process.c:141-145 | a sleeper at the head of the list runs again at once |
| KernelRuns.WaitsForAnother | w2/sys/syscall.c:537-551 | a reachable state where a parent waits for a pid its running child does not have |
| KernelRuns.WokenByAnotherChild | w2/sys/syscall.c:168-173 | the exit of that child makes that parent runnable |
| KernelRuns.FairInRuns | w2/sys/process/process_manager.c:79-96 | in every run a task that stays runnable becomes current within length - 1 schedule calls, whatever happens to the others, while the list stays and some task is current |
| Scheduling.WithoutMembers | w2/sys/process/process.c:113-136 | removal drops one task, keeps the others and introduces no duplicate |
| Scheduling.FirstRunnable | w2/sys/process/process.c:148-163 | none exactly when no other task is runnable, else a runnable other task |
| Scheduling.PickedIsCloser | w2/sys/process/process.c:148-163 | a schedule call that passes over a runnable task comes closer to it |
| Scheduling.Fair | w2/sys/process/process_manager.c:79-96 | a task that stays runnable becomes current within length - 1 schedule calls, whatever the other tasks do |
| Scheduling.CounterLasts | w2/sys/syscall.c:622-623 | the sleep counter runs out after exactly the ticks asked for, and after 2^64 for 0 |

## Left out

- Inline assembly, port I/O, interrupt controllers, timers, descriptor tables and control registers: foreign effects. The lock keeps only the atomic add, the atomic increment and the interrupt flag.
- BIOS calls: a sector read is an atomic copy from an immutable disk image of whole sectors, or a failure; which calls fail is an arbitrary predicate on their number. `alloc_high` always finds memory, and the 20-bit address limit of the BIOS buffer is not modelled.
- Physical page allocators: `_mmap` gets pages from an arbitrary sequence of answers, each a page never handed out before, or 0. Both bitmap allocators shift a 32-bit 1 too far and are not modelled.
- PHY_TO_VIRT: page tables are addressed physically. `virt_to_pde` is modelled on a given structure with a root; choosing it by the root register is not part of this model.
- Superblock parsing, path lookup, symbolic links and directories of ext2: the reader starts from superblock values and an inode. Block sizes are powers of two from 1 KiB below 64 KiB and group addresses fit an int.
- Ext2.Reader.FollowPath: the pointer reads of the four branches of `read_inode_block` are one loop over the path the branches choose.
- Printf.Number: `size` and `precision` are unbounded integers; their int overflow near the limits is not modelled. `vsprintf` and its copies are not modelled.
- Printf.Atoi: signed overflow is taken to wrap, and characters are taken as non-negative codes.
- Malloc.RunKeepsServed: runs are over unbounded addresses; `Malloc.Heap.Malloc` says up to which break the 64-bit code agrees with them. Writes through payload pointers are the client's and leave headers alone.
- Malloc.Heap.Malloc: headers live in a map from addresses; overlapping bytes of wrapped-around headers are not modelled.
- Tarfs.TarFs.Fread: the root's own descriptor is excluded, since its size and offset are never initialised. File names are values rather than 1024-byte arrays. `fwrite`, `fseek`, `dopen` and `dread` are not modelled.
- Tarfs.TarFs.FindOffset: a file at or above the misread size in front of the entry sought is excluded, since the walk then leaves the headers; for `Tarfs.TarFs.Fread` and `Tarfs.TarFs.Initialize` any such file is.
- Tarfs.HeaderFields: archives are those whose size fields have a NUL right behind their digits.
- Tarfs.ReadRightWithNulOnly: space-ended fields whose decimal reading does not fit an int are not characterised; some come out right by accident.
- KernelRuns.Run: a task killing itself is not an event of a run; `Tasks.Kernel.Kill` covers that call itself.
- Tasks.Kernel.CreateNewTask: names are values rather than 16-byte arrays.
- Tasks.Kernel.Fork: memory, registers, files and pipes of the child are not modelled; neither are `execve`, `load_process` and the keyboard and pipe buffers themselves.
- Tasks.Kernel.FreeTaskStruct: the recycling of memory areas is not modelled.
- Fairness without a current task: the search then returns the head of the list whatever its state.
- The page tables of w2, its virtual memory areas, ELF loading, shells, consoles and keyboard decoding: no clean contract, or user interface and I/O.
