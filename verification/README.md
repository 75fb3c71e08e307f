# pineOS kernel model

A Dafny model of the parts of the pineOS kernel that are state machines and byte formats, and
proofs about them. Four groups, each built on the one before where the kernel does so:

1. **The heap** (`kernel/memory.c`): best fit with splitting and two-sided merging, over the
   bytes the heap manages. `HeapSpec` is the allocator on block lists and proves what holds over
   all runs; `HeapLayout` says how a list is spelled out by headers in memory; `KernelHeap.Heap`
   is the code, over one array of bytes indexed by physical address.
2. **Its clients**: the process list (`SchedulerSpec`, `SchedulerLayout`, `KernelScheduler`),
   whose structures are heap bytes; and the filesystem (`FileTree`, `FileTreeEdits`, `FileOps`,
   `KernelFileSystem`), an entry table linked by slot numbers with content in heap buffers.
   `FileRefinement` reads the table as a map from paths to objects; `FileMachine` says, for a
   machine on that map, the slots and the heap, exactly when each operation does what the machine
   does; `FileRuns` says it of whole sessions.
   `SharedHeap` and `KernelSystem` put both clients on one heap.
3. **Storage** (`StorageSpec`, `KernelStorage`): one ATA drive that may fail to answer at any
   step, behind a disk handle and a virtual disk with a mirror in memory; and saving and loading
   the filesystem over it (`FileStoreSpec`, `FileStoreRoundTrip`, `FileReload`,
   `KernelFileStore`, `KernelFileTable`, `KernelFileLoad`).
4. **Wire formats** (`InternetChecksum`, `Packets`, `Dns`, `Dhcp`, `DottedQuad`), and the calls that
   copy packets between buffers and the driver (`KernelNetstack`).

`Arithmetic`, `Bytes`, `Wrappers` and `CStrings` hold what they share; `CStrings` includes `strtok` with its
saved cursor and the terminators it writes.

Where the kernel changes memory step by step the model does too: classes and arrays, methods with
the kernel's loops, each proved against a specification on values (`ensures State() ==
Spec.Op(old(State()), ...)`), about which the lemmas then speak. Code that refuses or fails is
modelled with its refusal or failure.

## Where a promise does not hold

Each of these is kept as the code has it, and the condition under which the promise holds is
proved, for all inputs:

- The comment at `kernel/memory.c:21` says first fit; the code is best fit (`AllocBestFit`), and the two
  agree only where no later block fits more tightly (`BestIsFirstIff`, `NotFirstFit`).
- Rounding a request up to four wraps above 0xFFFFFFFC (`UsableIff`, `UnusableRequest`).
- `process_start` does not demote a running process (`StartSafeIff`, `RunSafeIff`, `TwoRunning`).
- Process identifiers rise along the list only while no creation falls back behind the last one
  listed, which the wrap of the 32-bit counter brings about (`RunRisesIff`, `PidsFallBack`).
- `mkdir` and `touch` store a path of several components, or a name cut at 31 bytes, as one name
  (`CreatedFoundIff`, `OneShortIff`, `AddedUniqueIff`). `write_file` then dereferences a null pointer, as it does on
  a file that a load left without a buffer (`WriteFaultIff`, `EmptyFileFaultsIff`); the first write of
  the initialisation, to "/etc/version", is such a case (`FirstWriteFaults`).
- The name given to `mkdir`, `touch`, `write_file` or `cp` is looked up without its leading slash,
  relative to the working directory, before the entry is made below the root: "/x" can be made twice
  or refused although it is free (`AbsoluteDuplicate`, `AbsoluteRefused`; from the start of the
  system `SecondBin`, `RefusedThoughFree`). When that matters is the guard of `MkDirConformsIff` and
  its companions.
- `rmdir` removes the working directory if asked to (`RmDirKeepsCwdIff`, `DotRemoved`, `CwdRemoved`).
- A sector written while the drive does not answer can read back stale later (`ReadsLastWriteIff`,
  `StaleRead`).
- Saving writes one sector of table, so entries from the ninth on are lost; loading hangs all that is
  left on the root, where names may repeat, gives empty files no buffer, and cuts a text at its file's
  size. When a client sees its files as before is `SameAfterReloadIff` (`SessionReloadIff` for every
  guarded session, `HomeIsFlattened` for one that fails).
- A UDP length near 65536 wraps and is accepted (`UdpSendAcceptedIff`). The receiver trusts the length
  field, and the presence of a UDP header, so that it may return what its buffer held before
  (`ResidueUnseenIff`, `FrameResidueUnseenIff`, `EmptyPayloadReceived`).
- The address parser accepts empty groups and leading zeros (`IpFromString`, `PrintParsed`).

## Model

| member | source | states |
|---|---|---|
| HeapSpec.BestFitIsBest | kernel/memory.c:28-41 | the walk's strict comparison keeps the first of the smallest sufficient free blocks, and keeps none only if none is sufficient |
| HeapSpec.AllocBestFit | kernel/memory.c:22-60 | a non-zero request fails exactly when no free block holds its rounded size; otherwise it is cut from the lowest-addressed among the smallest that do |
| HeapSpec.BestIsFirstIff | kernel/memory.c:21-41 | the block taken is the first fit exactly when no later block that is large enough is smaller |
| HeapSpec.NotFirstFit | kernel/memory.c:21-60 | a heap, reached by two requests and a release, in which eight bytes are taken from the third block although the first has them |
| HeapSpec.AllocGrants | kernel/memory.c:46-59 | a granted block is new, lies inside the region, holds the rounded size, is the only change to the live blocks, and the used bytes grow by its size |
| HeapSpec.GrantIs | kernel/memory.c:46-59 | a granted block begins where the chosen one began: with more than 28 bytes to spare it has exactly the rounded size and the rest is free behind its own header, otherwise it is the whole block |
| HeapSpec.UsableIff | kernel/memory.c:26 | the rounded size is the next multiple of four for requests up to 0xFFFFFFFC; above that it wraps to zero |
| HeapSpec.UnusableRequest | kernel/memory.c:22-60 | a concrete request in the wrapping range is answered with a block of no bytes |
| HeapSpec.FreeIsSplice | kernel/memory.c:70-88 | setting the block free and merging forwards, then backwards, puts one free block in place of the block and its free neighbours |
| HeapSpec.FreeCanonical | kernel/memory.c:63-89 | a release keeps the tiling, leaves no two free neighbours, takes exactly that block from the live ones and its size from the used bytes |
| HeapSpec.CanonicalForm | kernel/memory.c:9-89 | two heaps with the same live blocks have the same block list: no history of requests and releases can be read off |
| HeapSpec.FreeUndoesAlloc | kernel/memory.c:22-89 | freeing a block at once restores the list exactly, whether or not it was split |
| HeapSpec.FreeTwice | kernel/memory.c:66-71 | freeing an address a second time changes nothing |
| HeapSpec.RunKeeps | kernel/memory.c:9-89 | every heap reachable by requests and releases in any order is canonical, and its live blocks are exactly those not yet released; a release of an address that is not live is taken as the no-op it is while the flag word before it is clear |
| HeapSpec.StaleFlagOwned | kernel/memory.c:63-71 | a run after which the flag word of a released address lies in the payload of a later block, whose owner may write it: from then on releasing that address again is no no-op |
| HeapSpec.EverythingReleased | kernel/memory.c:9-89 | once everything has been released, however the operations interleaved, with such releases as no-ops, the heap is the one free block of the start with no used bytes |
| HeapSpec.LiveDisjoint | kernel/memory.c:9-89 | distinct blocks occupy disjoint bytes, and no two have the same address |
| HeapSpec.ReportedFree | kernel/memory.c:111-113 | total minus used is the free payload plus one header a block, so it overstates what a client can get |
| KernelHeap.Heap.Init | kernel/memory.c:9-19 | the header it writes at 0x10000, word by word, is that of the one free block of 0xF0000 - 12 bytes |
| KernelHeap.Heap.FindBest | kernel/memory.c:28-41 | the loop over the headers in memory ends at the block the best-fit specification names |
| KernelHeap.Heap.Split | kernel/memory.c:46-54 | writing the second header inside the block and relinking the first replaces the block by two in the list the bytes spell out, touching no byte outside it |
| KernelHeap.Heap.Alloc | kernel/memory.c:22-60 | on bytes: the new list and the answer are the specification's, the headers still tile the region, and no byte of a live payload or below the heap changes |
| KernelHeap.Heap.FindPrevious | kernel/memory.c:79-83 | the loop finds the header that links to the block |
| KernelHeap.Heap.Free | kernel/memory.c:63-89 | on bytes: the new list is the specification's, other live payloads keep every byte, freeing what is not live changes no byte, and the address may be freed again |
| KernelHeap.Heap.GetFree | kernel/memory.c:111-113 | returns the free payload plus all headers |
| KernelHeap.Heap.MemorySet | kernel/memory.c:102-108 | sets exactly the given bytes |
| KernelHeap.Heap.MemoryCopy | kernel/memory.c:92-99 | where every byte comes from, for overlapping ranges too: upward overlap repeats the bytes below the destination |
| KernelHeap.Heap.PokeBytes | kernel/memory.c:92-99 | a client that writes inside its own block disturbs neither the list nor another live block |
| SchedulerSpec.CreateAppends | kernel/process.c:13-45 | a creation that succeeds puts a ready process with the next pid, counted from 1, at the end of the list, with blocks of 24 bytes and of its stack size taken in that order; any other changes nothing |
| SchedulerSpec.FailedCreate | kernel/process.c:16-26 | a creation that fails for want of either block leaves heap, list and counter exactly as they were |
| SchedulerSpec.CreatedKeeps | kernel/process.c:16-48 | a new process owns two live blocks of its own, and the other clients' live blocks are the same as before |
| SchedulerSpec.RemovedKeeps | kernel/process.c:95-121 | removing the current process gives back exactly its two blocks and keeps the ownership invariant |
| SchedulerSpec.RunOwns | kernel/process.c:16-146 | over any run each live block was live before or is the structure or the stack of exactly one listed process |
| SchedulerSpec.AllExited | kernel/process.c:16-125 | when no process is left the heap is what it was before the first creation, block for block |
| SchedulerSpec.PidsRise | kernel/process.c:29-45 | pids rise strictly along the list while the 32-bit counter has not wrapped |
| SchedulerSpec.StepRisesIff | kernel/process.c:13-45 | when pids rise along the list, a step keeps them rising unless it is a creation that succeeds although the last pid listed is no smaller than the next one |
| SchedulerSpec.RunRisesIff | kernel/process.c:13-45 | pids rise along the list in every state of a run if and only if no creation of the run was of that kind |
| SchedulerSpec.PidsFallBack | kernel/process.c:13-45 | a run that ends with falling pids: 2^32 - 2 processes one after the other, then two together, which get 2^32 - 1 and 0 |
| SchedulerSpec.StartSafeIff | kernel/process.c:51-55 | starting keeps at most one running process exactly when none runs or the target is not ready |
| SchedulerSpec.TwoRunning | kernel/process.c:48-56 | a run after which two processes run: two created, then both started |
| SchedulerSpec.StartRuns | kernel/process.c:48-53 | a start makes a ready process the running and current one and changes nothing else; it ignores any other |
| SchedulerSpec.ScheduleRunsFirst | kernel/process.c:133-146 | a schedule while the current process runs changes nothing; otherwise the first ready process of the list runs, if there is one, and nothing else changes |
| SchedulerSpec.ExitRunsFirst | kernel/process.c:89-123 | after an exit the list is that of the others in their order, the two blocks are free, and the first ready process of that list runs, if there is one; without a current process nothing happens |
| SchedulerSpec.YieldRunsNext | kernel/process.c:66-86 | in every state: a yield passes to the first ready process behind the current one, or without one to the first in front of it, and makes the one that yields ready; without another ready process nothing changes |
| SchedulerSpec.ScheduleSafe | kernel/process.c:133-146 | scheduling keeps the one-running-process invariant, and afterwards something runs or nothing is ready |
| SchedulerSpec.ExitSafe | kernel/process.c:95-125 | so does an exit |
| SchedulerSpec.RunSafeIff | kernel/process.c:16-146 | in every state of a run at most one process runs and it is the current one, if and only if no start of a ready process happened while another ran |
| SchedulerSpec.YieldMovesOn | kernel/process.c:66-92 | a yield in a safe state moves the running position to its cyclic successor and changes nothing else |
| SchedulerSpec.RoundRobin | kernel/process.c:66-92 | n yields move the running position from i to (i + n) mod the number of processes |
| SchedulerSpec.FairWindow | kernel/process.c:66-92 | any window of as many yields as there are processes runs each of them exactly once |
| KernelScheduler.Scheduler.constructor | kernel/process.c:9-13 | the empty list refines the state from which runs start |
| KernelScheduler.Scheduler.Create | kernel/process.c:16-48 | on the list threaded through heap bytes: does what the specification says, including the released structure when the stack cannot be had, and leaves other clients' blocks alone |
| KernelScheduler.Scheduler.FindLast | kernel/process.c:40-43 | the walk ends at the last structure |
| KernelScheduler.Scheduler.Start | kernel/process.c:51-55 | refines the specification, for a null argument too |
| KernelScheduler.Scheduler.FindReady | kernel/process.c:70-73 | the walk stops at the first ready process, or at null if there is none |
| KernelScheduler.Scheduler.Yield | kernel/process.c:66-92 | refines the specification over the bytes, both walks included |
| KernelScheduler.Scheduler.Schedule | kernel/process.c:133-146 | refines the specification over the bytes |
| KernelScheduler.Scheduler.ReleaseStack | kernel/process.c:100-104 | gives exactly the stack back and clears the pointer, other structures keep their bytes |
| KernelScheduler.Scheduler.Unlink | kernel/process.c:106-117 | relinking in memory takes exactly one structure off the list, at its head or behind its predecessor |
| KernelScheduler.Scheduler.Exit | kernel/process.c:95-125 | refines the specification: stack, list, structure, then the next process |
| KernelScheduler.Scheduler.CountProcesses | kernel/process.c:162-170 | counts the listed processes |
| KernelScheduler.Scheduler.CountReady | kernel/process.c:173-183 | counts the ready ones among them |
| CStrings.RunIsMaximal | kernel/string.c:34-43 | a run of delimiters, or of other bytes, ends at the first byte of the other sort |
| CStrings.SplitJoin | kernel/string.c:26-51 | splitting a path built from components gives the components back |
| CStrings.SplitConcat | kernel/string.c:26-51 | a delimiter anywhere splits a text in two, and each side is split by itself; with `SplitComponent` this determines the pieces of every text |
| CStrings.SplitComponents | kernel/string.c:26-51 | tokens are never empty and hold no delimiter |
| CStrings.StrCmp | kernel/string.c:3-9 | returns zero exactly for equal strings, else the difference of the signed characters at the first position where they differ |
| CStrings.CharIs | kernel/string.c:3-9 | characters compare as signed: -128 to 127, with the residue of the byte |
| CStrings.StrChr | kernel/string.c:53-61 | finds the byte exactly when the string holds it |
| CStrings.CutText | kernel/string.c:44-46 | a terminator written into a buffer ends the text before it there and leaves the text behind it |
| CStrings.Tokenizer.Skip | kernel/string.c:34-43 | both inner loops move the cursor over exactly the maximal run |
| CStrings.Tokenizer.Next | kernel/string.c:26-51 | with its saved cursor and in-place terminators, each call returns the next maximal run between delimiters; what is left splits into the remaining ones |
| FileTree.FirstChildIn | kernel/filesystem.c:84-98 | of several children of one name the first on the list is found, and none only if none has the name |
| FileTree.DescendSound | kernel/filesystem.c:80-101 | a walk that succeeds ends at an entry whose path is the start's path and the names walked |
| FileTree.DescendComplete | kernel/filesystem.c:80-101 | with distinct sibling names, the path of an entry in the tree leads back to it |
| FileTree.FindAttached | kernel/filesystem.c:56-102 | with the working directory in the tree, every path leads into the tree |
| FileRefinement.FindIsDescent | kernel/filesystem.c:56-102 | lookup of any path string is descent from the root along the components it means, relative, absolute, dot and dot-dot included |
| FileRefinement.AbsolutePathFindsEntry | kernel/filesystem.c:56-102 | the absolute path string of an entry finds that entry |
| FileTreeEdits.AddedEntry | kernel/filesystem.c:33-52 | the new entry: the first 31 bytes of the name, the kind, size 0, no children, its parent and, as next, what the directory listed first; the directory lists it first, and no other entry changes |
| FileTreeEdits.AddedForest | kernel/filesystem.c:122-131 | linking a new entry in front of its siblings keeps the links a forest: each listed entry on one list, naming its owner, no cycle |
| FileTreeEdits.AddedUniqueIff | kernel/filesystem.c:115-131 | sibling names stay distinct exactly when the name as stored was not taken |
| FileTreeEdits.AddedPaths | kernel/filesystem.c:122-131 | after an addition exactly one path leads somewhere else, the new entry's own |
| FileTreeEdits.UnlinkedForest | kernel/filesystem.c:347-358 | taking an entry off its list keeps the links a forest |
| FileTreeEdits.UnlinkedPaths | kernel/filesystem.c:347-366 | after a removal exactly one path leads nowhere any more, the removed entry's own |
| FileTreeEdits.UnlinkedAttached | kernel/filesystem.c:347-366 | everything but the removed childless entry stays in the tree |
| FileOps.PerformSound | kernel/filesystem.c:105-495 | whatever names are used, every operation keeps the links a forest, parents directories, and every file's buffer a live heap block of its own |
| FileRefinement.FreshOrderly | kernel/filesystem.c:10-16 | the table with only the root satisfies the session invariant, and its map holds one directory |
| FileRefinement.LookupReadsMap | kernel/filesystem.c:56-102 | a path string finds the object the map holds at the path it means, and nothing where the map has nothing |
| FileMachine.PerformConformsIff | kernel/filesystem.c:105-495 | on an orderly volume an operation succeeds, fails and changes map, slots and heap as the machine says exactly when it is guarded; the guard asks about paths in the map, the shape of the name, free slots and memory, and nothing else |
| FileMachine.MkDirConformsIff | kernel/filesystem.c:105-137 | with a slot free, mkdir makes the directory at the path meant, or refuses where nothing may be made there, exactly when the name found taken agrees with the path meant and a name made is one short component; without a slot it always refuses |
| FileMachine.TouchConformsIff | kernel/filesystem.c:140-179 | the same for touch, with memory: for want of memory it refuses and its slot is lost |
| FileMachine.WriteFileConformsIff | kernel/filesystem.c:182-208 | writing to a path in the map always does what the machine says: only that file's content and size change, a directory is refused; writing to a new path does so exactly when the creation is guarded |
| FileMachine.CpConformsIff | kernel/filesystem.c:462-495 | copying writes the source file's text at the destination under the same condition, and refuses anything but a file as source and a directory as destination |
| FileMachine.RmConforms | kernel/filesystem.c:333-372 | takes exactly the path of a file out of the map and gives exactly its block back; refuses everything else |
| FileMachine.RmDirConformsIff | kernel/filesystem.c:375-419 | takes out exactly the path of an empty directory other than the root, and keeps the session orderly, exactly when that directory is not the working directory |
| FileMachine.CdConforms | kernel/filesystem.c:286-306 | succeeds exactly on a directory of the map and changes nothing but the working directory |
| FileMachine.SimpleGuarded | kernel/filesystem.c:105-179 | a name without slashes of at most 31 bytes, other than the dots, is always safe to create in the working directory |
| FileMachine.AbsoluteDuplicate | kernel/filesystem.c:109-131 | mkdir of /x succeeds although /x exists when the working directory has no x, and the root then lists two entries of that name |
| FileMachine.AbsoluteRefused | kernel/filesystem.c:109-120 | mkdir of /x is refused although nothing is at /x and slots are free when the working directory has an x |
| FileMachine.RmDirKeepsCwdIff | kernel/filesystem.c:388-413 | a successful rmdir leaves the working directory in the tree exactly when it removed another one |
| FileMachine.DotRemoved | kernel/filesystem.c:375-419 | rmdir of a dot in an empty working directory other than the root succeeds and leaves the working directory outside the tree |
| FileRefinement.CreatedFoundIff | kernel/filesystem.c:109-131 | a created entry is found again under the name given exactly when that name is one short component in the sense of `OneShortIff` |
| FileRefinement.OneShortIff | kernel/filesystem.c:39-42 | such a name has, behind at most one slash, between one and 31 bytes and no slash, or 31 such bytes with nothing but slashes behind them |
| FileMachine.DirectoryMade | kernel/filesystem.c:105-137 | a successful mkdir, whatever its name, makes the path of the root, or without a leading slash of the working directory, with the first 31 bytes of the name behind it; if nothing was there, exactly that path comes into the map as a directory |
| FileMachine.FileMade | kernel/filesystem.c:140-179 | the same for touch, with an empty file in a block of 4096 bytes |
| FileRuns.RunRefinesIff | kernel/filesystem.c:105-495 | in every state of a session the volume is orderly, map, slots and heap are the machine's and every answer so far is the machine's, if and only if each operation was guarded in the machine's state before it |
| FileRuns.GuardedNoFault | kernel/filesystem.c:105-495 | no operation of a guarded session follows a null pointer |
| FileRefinement.ReadBack | kernel/filesystem.c:198-205 | the buffer after a write holds the content cut to 4095 bytes and a terminator, and behind it what it held before |
| FileRefinement.RmDirRefines | kernel/filesystem.c:375-419 | succeeds exactly on an empty directory other than the root, the working directory included; of any other it takes exactly the path out |
| FileRuns.UntouchedStays | kernel/filesystem.c:105-495 | however long a guarded session goes on about other paths, the object at a path stays as it is |
| FileRuns.ReadReturnsLastWrite | kernel/filesystem.c:182-225 | a read returns the last successful write to the path, cut to 4095 bytes, and the size is its length, whatever happened to other paths since |
| FileRuns.WriteFaultIff | kernel/filesystem.c:182-205 | on every sound volume, writing follows a null pointer exactly when the name finds a file without a buffer, or finds nothing and the entry created for it, for which there are slot and memory, is not one short component |
| FileRuns.FirstWriteFaults | kernel/filesystem.c:18-25 | after the four directories have been made and with memory for one file, writing /etc/version follows a null pointer |
| FileRuns.SecondBin | kernel/filesystem.c:105-137 | after the start, once in /home, /bin is made a second time |
| FileRuns.RefusedThoughFree | kernel/filesystem.c:105-120 | after the start, with an n in /home, /n is refused although nothing is there and slots are free |
| FileRuns.CwdRemoved | kernel/filesystem.c:286-419 | after the start, once in /home, rmdir of a dot succeeds and leaves the working directory outside the tree |
| FileRuns.RunForeign | kernel/filesystem.c:105-495 | over any session the filesystem leaves the other clients' live blocks exactly as they are |
| FileRuns.BuffersGivenBack | kernel/filesystem.c:163-366 | a session that ends with no buffer held leaves the heap block for block as it found it |
| FileRuns.MkDirsSucceed | kernel/filesystem.c:105-137 | directories of different new simple names all come to be as long as slots last |
| FileRuns.InitialDirectories | kernel/filesystem.c:14-22 | initialisation up to the directories ends in an orderly volume whose map is the root and bin, home, etc and tmp |
| KernelFileSystem.FileSystem.constructor | kernel/filesystem.c:10-16 | clears the table and takes its first slot for the root |
| KernelFileSystem.FileSystem.FindChild | kernel/filesystem.c:82-91 | the walk over the sibling links returns the first child of that name |
| KernelFileSystem.FileSystem.Walk | kernel/filesystem.c:76-101 | the loop over strtok's tokens descends along the components of the path |
| KernelFileSystem.FileSystem.FindFile | kernel/filesystem.c:56-102 | over links and strtok: what the lookup specification says for every path |
| KernelFileSystem.FileSystem.MkDir | kernel/filesystem.c:105-137 | in place on the table: result and new state are the specification's |
| KernelFileSystem.FileSystem.MakeDefaults | kernel/filesystem.c:18-22 | the four calls lead to the state the run specification gives |
| KernelFileSystem.FileSystem.Touch | kernel/filesystem.c:140-179 | in place on table and heap: the specification's state, including the slot that is lost when memory runs out; live payloads keep their bytes |
| KernelFileSystem.FileSystem.WriteFile | kernel/filesystem.c:182-208 | in place on table and heap bytes: the specification's state and outcome, the null dereference included; other clients' blocks keep their bytes |
| KernelFileSystem.FileSystem.ReadFile | kernel/filesystem.c:211-225 | returns an address at which memory holds the file's buffer, or null exactly when there is none |
| KernelFileSystem.FileSystem.Cd | kernel/filesystem.c:286-306 | result and new state are the specification's |
| KernelFileSystem.FileSystem.Bypass | kernel/filesystem.c:346-358 | the walk and the rewritten link take the entry off the list it is on, if it is on one |
| KernelFileSystem.FileSystem.Rm | kernel/filesystem.c:333-372 | in place on table and heap: the specification's state; live payloads keep their bytes |
| KernelFileSystem.FileSystem.RmDir | kernel/filesystem.c:375-419 | in place on the table: the specification's state |
| KernelFileSystem.FileSystem.Cp | kernel/filesystem.c:462-495 | reads the source's text out of memory and writes it: the specification's state and outcome |
| SharedHeap.StepShares | kernel/process.c:16-146 | a step of either client keeps both clients' invariants, keeps their blocks apart and leaves everybody else's live blocks the same |
| SharedHeap.EverythingReturned | kernel/filesystem.c:105-495 | however creations, exits and file operations interleave on one heap, each live block belongs to one process, one file, or was live at the start; with all of them gone the heap is what it was |
| KernelSystem.Clients.CreateProcess | kernel/process.c:16-48 | on bytes: after a creation every file's content is still in memory and both objects are valid |
| KernelSystem.Clients.ExitProcess | kernel/process.c:95-125 | the same after an exit |
| KernelSystem.Clients.WriteFile | kernel/filesystem.c:182-208 | on bytes: after a write every process structure is still chained in memory and both objects are valid |
| KernelSystem.Clients.RemoveFile | kernel/filesystem.c:333-372 | the same after a removal |
| StorageSpec.CallsAre | kernel/storage.c:202-422 | one call in the drive's sectors: the virtual disk lies from sector 100 on, sectors from 2048 on are refused, a read is answered by the drive or for the virtual disk by the mirror, and a write changes only its sector, the mirror for the virtual disk alone |
| StorageSpec.MirrorHoldsLastWrite | kernel/storage.c:239-279 | the mirror holds the last write of each sector whatever the drive does |
| StorageSpec.DiskHoldsLastReached | kernel/storage.c:239-279 | a disk sector holds what last reached it, through either handle |
| StorageSpec.ReadsLastWriteIff | kernel/storage.c:202-279 | a sector reads back as its last write under every behaviour of the drive exactly when that is what last reached its place on the disk |
| StorageSpec.SteadyReads | kernel/storage.c:202-279 | with a drive that takes every write of the sector, and no other handle writing the place, each read returns the last write |
| StorageSpec.SilentReads | kernel/storage.c:233-236 | a read the drive does not answer returns the last write, whatever happened to the writes |
| StorageSpec.StaleRead | kernel/storage.c:202-279 | a concrete run in which a read returns older data than the last write |
| StorageSpec.RangeReadsBackIff | kernel/storage.c:152-181 | a sector of a range written through the virtual disk always reads back exactly when its write reached the disk or its data was there already |
| KernelStorage.Drive.Select | kernel/storage.c:212-218 | the four registers get the sector number byte by byte, the top four bits with 0xE0 |
| KernelStorage.StatusBits | kernel/storage.c:284-308 | ready is bit 64 without bit 128, a data request bit 8 without bit 128, an error bit 1 |
| KernelStorage.Drive.WaitReady | kernel/storage.c:284-293 | polls at most 10000 times; 0 means the last status read was ready and none before it, -1 that 10000 were read and none was ready |
| KernelStorage.Drive.WaitRequest | kernel/storage.c:296-308 | polls at most 10000 times; 0 means the last status asked for data, -1 that it reported an error or that 10000 were read, and no status before it did either |
| KernelStorage.Drive.ReceiveSector | kernel/storage.c:225-228 | 256 words through the port put the 512 bytes of the selected sector into place and change no other byte |
| KernelStorage.Drive.SendSector | kernel/storage.c:262-265 | 256 words through the port carry the 512 bytes of the buffer |
| KernelStorage.SectorStore.ReadSector | kernel/storage.c:202-236 | for both handles and every behaviour of the drive: data, fallback or failure as specified, the buffer untouched on failure |
| KernelStorage.SectorStore.WriteSector | kernel/storage.c:239-279 | for both handles and every behaviour of the drive: disk, mirror and result as specified |
| KernelStorage.SectorStore.ReadSectors | kernel/storage.c:152-165 | stops at the first failure; on success every sector of the range is in its place in the buffer and the bytes behind are untouched |
| KernelStorage.SectorStore.WriteSectors | kernel/storage.c:168-181 | stops at the first failure; the state is that of the writes made, one sector after the other |
| FileStoreRoundTrip.EntryRoundTrip | kernel/filesystem.c:533 | the 60 bytes of an entry give the entry back, whatever follows the name's terminator and whatever the pointers are |
| FileStoreRoundTrip.FieldsAre | kernel/filesystem.c:616-640 | what 60 bytes of the table say: kind and size signed and least significant byte first at 32 and 36, use at 56, the name up to its terminator, no buffer and no links |
| FileStoreRoundTrip.UnterminatedName | kernel/filesystem.c:626-628 | a name without terminator in its 32 bytes is cut to 31 for a used entry and kept for an unused one |
| FileStoreRoundTrip.CheckedIs | kernel/filesystem.c:625-639 | the first pass clips sizes above 4096, drops kinds other than 1 and 2, and leaves unused slots alone |
| FileStoreRoundTrip.HeaderIs | kernel/filesystem.c:519-524 | the saved header: PINEFS, version 1, the number of slots, 2 for the first content |
| FileStoreRoundTrip.RefusedIff | kernel/filesystem.c:574-614 | a load is refused exactly when header or table cannot be read, or the header is not PINEFS or counts no entries or more than 150; only without the table does a refusal change anything, and then it clears all slots |
| FileStoreRoundTrip.LoadedTreeIs | kernel/filesystem.c:616-684 | for every table sector: the slots come back with only their links changed, the first used directory called / becomes root and working directory, and without one nothing is linked |
| FileStoreRoundTrip.SectorCountIs | kernel/filesystem.c:541-543 | a content takes as many sectors as hold its bytes and no more |
| FileStoreRoundTrip.ContentIsPlace | kernel/filesystem.c:545-560 | a saved sector is its place in the content followed by zeros |
| FileStoreRoundTrip.FilledIsBlanked | kernel/filesystem.c:543-563 | a content cut into zero-padded sectors and put together again is its bytes, then zeros |
| FileStoreRoundTrip.SavedTree | kernel/filesystem.c:608-685 | of a saved table the first eight entries come back and hang on the root in slot order; the others are unused |
| FileStoreRoundTrip.SectorsBack | kernel/filesystem.c:538-566 | the loader's cursor is the saver's: the sectors it reads for a slot are those its content was written to |
| FileStoreRoundTrip.SaveThenLoad | kernel/filesystem.c:509-791 | a saved image, read without failure into a heap with room, brings the first eight entries back with name, kind, use, size and content, as children of the root in slot order, the others unused; buffers held before stay allocated and belong to no file |
| FileStoreRoundTrip.VdiskRoundTrip | kernel/filesystem.c:509-791 | through the virtual disk this holds however the drive answers the reads, if the saved sectors reached the disk |
| FileStoreRoundTrip.StepCases | kernel/filesystem.c:688-785 | one slot of any load: left alone if it is no file with a size; emptied, its sectors not passed over, without memory or beyond the device; otherwise its sectors are passed over whatever was read, and it has their bytes and then zeros if all were read and is emptied if not |
| FileStoreRoundTrip.CursorKeepsCount | kernel/filesystem.c:772-785 | where the next content is read from does not depend on what the reads before returned |
| FileStoreRoundTrip.EachComesBack | kernel/filesystem.c:509-791 | of a saved image each file among the first eight entries comes back with its own content or empty, never with another, whatever the other files' reads returned and however little memory there is; with room it comes back exactly when its own sectors were read |
| FileStoreRoundTrip.DriveEachComesBack | kernel/filesystem.c:574-791 | the same over the device, through either handle and for all answers of the drive |
| FileStoreRoundTrip.TableReadSavable | kernel/filesystem.c:616-791 | once header and table of a saved volume are read, the load ends in a sound and savable volume, whatever the content reads return and whatever the heap grants |
| FileStoreRoundTrip.LoadedOrderlyIff | kernel/filesystem.c:648-700 | the volume a load leaves is fit for a guarded session exactly when the surviving names below the root differ and no surviving file is empty |
| FileReload.LoadedMap | kernel/filesystem.c:648-791 | the map of a loaded volume whose names differ is the root and each surviving slot one step below it under its name, with kind and size as saved and its content followed by zeros |
| FileReload.BlankedText | kernel/filesystem.c:540-565 | the text of a buffer survives saving and loading exactly when it ends within the size |
| FileReload.RunTidy | kernel/filesystem.c:105-495 | in a guarded session every used entry hangs in the tree, but for slots lost by a touch without memory |
| FileReload.SameAfterReloadIff | kernel/filesystem.c:509-791 | after saving and loading, a session can go on and its client sees the same paths, sizes and texts, if and only if every entry in the tree has one of the first eight slots and hangs on the root, each such file is not empty and its text ends within its size, and none of the first eight slots was lost |
| FileReload.SessionReloadIff | kernel/filesystem.c:509-791 | the same of every guarded session that began with an empty filesystem |
| FileReload.HomeIsFlattened | kernel/filesystem.c:650-668 | after the start, with a directory made in /home, the client does not see the same after a reload |
| FileStoreRoundTrip.EmptyFileFaultsIff | kernel/filesystem.c:182-205 | after a load, writing to a file that is found follows a null pointer exactly when it came back empty |
| FileStoreRoundTrip.FreshSavable | kernel/filesystem.c:10-16 | the table with only the root can be saved |
| FileStoreRoundTrip.PerformSavable | kernel/filesystem.c:105-495 | every operation keeps what loading relies on: the root in the first slot, no file with a size but no buffer |
| FileStoreRoundTrip.RunSavable | kernel/filesystem.c:105-571 | hence so does every run |
| KernelFileStore.Save | kernel/filesystem.c:509-571 | if it returns 0 the sectors hold header, table and every content at the sum of the sizes before it, and no sector behind changes; the virtual disk never fails, and disk and mirror agree if every write reached the disk |
| KernelFileStore.SaveContent | kernel/filesystem.c:541-563 | the inner loop writes exactly the sectors of one content |
| KernelFileTable.Validate | kernel/filesystem.c:620-641 | the first pass clips sizes and drops entries of no known kind |
| KernelFileTable.FindRoot | kernel/filesystem.c:643-651 | the first used directory named by a slash, or none |
| KernelFileTable.ThreadTable | kernel/filesystem.c:670-685 | the loop hangs the used entries on the root in slot order |
| KernelFileLoad.ReadContent | kernel/filesystem.c:730-774 | reads sectors until one fails; on success the buffer is the sectors' bytes cut to the size, then zeros; only its own block changes |
| KernelFileLoad.LoadContent | kernel/filesystem.c:690-786 | one slot: buffer, capacity check, sectors, and the buffer given back with the heap exactly as before when anything fails |
| KernelFileLoad.LoadContents | kernel/filesystem.c:687-787 | the loop over the slots refines the specification's, with the same cursor |
| KernelFileLoad.Load | kernel/filesystem.c:574-791 | for every content of the device and every behaviour of the drive, the refusals and the missing root included, state and outcome are the specification's, and other live blocks keep their bytes |
| KernelFileLoad.Reload | kernel/filesystem.c:574-791 | loading what was saved to the virtual disk succeeds and leaves the object valid, ready for every operation, with the first eight entries back; blocks live before keep their bytes |
| KernelFileLoad.LoadSaved | kernel/filesystem.c:574-791 | over either handle, with header and table of a saved volume in the first two sectors, a load either cannot read one of them or ends in a valid object that can be saved again, whichever contents can be read and however little memory is left |
| InternetChecksum.FoldIsResidue | kernel/netstack.c:178-181 | the carry loop computes the one's-complement sum: the residue modulo 65535, zero for zero only (section 1 of RFC 1071) |
| InternetChecksum.NoOverflow | kernel/netstack.c:163-176 | the 32-bit sum does not overflow for any 16-bit length |
| InternetChecksum.IpChecksum | kernel/netstack.c:163-184 | both loops compute the specified checksum, for odd lengths too |
| InternetChecksum.StoredVerifies | kernel/netstack.c:92 | with its checksum stored in a zeroed aligned field a buffer checksums to zero |
| InternetChecksum.WordChangeDetected | kernel/netstack.c:163-185 | replacing one aligned word goes unnoticed exactly when nothing changed, or 0 and 65535 were exchanged and some other byte is not zero |
| InternetChecksum.ByteOrderIndependent | kernel/netstack.c:163-185 | summing in either byte order stores the same two bytes, an odd last byte padded with a zero included |
| Packets.SwapTwice | kernel/netstack.c:632-645 | htons undoes itself, so ntohs is its inverse |
| Packets.NetworkOrder | kernel/netstack.c:632-634 | a swapped field is stored most significant byte first |
| Packets.ReverseTwice | kernel/netstack.c:636-649 | htonl undoes itself |
| Packets.HeaderBytes | kernel/netstack.c:71-91 | the IP header byte by byte: version, service, length, identification, flags, time to live, protocol, checksum, source and destination |
| Packets.FrameBytes | kernel/netstack.c:20-210 | the frame of a datagram byte by byte, for data of every length: hardware addresses by destination, type, both headers with addresses, ports and lengths and a UDP checksum of zero, then the data; what sixteen bits keep of the total length says how much is sent and whether it is |
| KernelNetstack.EthernetSendFrame | kernel/netstack.c:20-55 | over buffers: refuses null pointers and more than 1500 bytes; otherwise hands the specified frame to the send function and returns its answer, or fails without one |
| KernelNetstack.IpSendPacket | kernel/netstack.c:71-129 | over buffers: header with checksum, payload and next hop as specified, the refusals and the missing send function included |
| KernelNetstack.UdpSendPacket | kernel/netstack.c:187-210 | over buffers: hands the driver exactly the specified frame, or nothing, and returns its answer or -1 |
| KernelNetstack.IpReceivePacket | kernel/netstack.c:131-161 | over buffers: hands on header and payload of what the driver delivered exactly when type and checksum are right, and leaves the rest of the payload buffer as it was |
| KernelNetstack.UdpReceivePacket | kernel/netstack.c:212-229 | over buffers: with what the driver delivered and the uninitialised buffers on the stack, header and data are those of the specified datagram, or it is refused; the data buffer keeps its bytes behind the datagram |
| KernelNetstack.WireRoundTrip | kernel/netstack.c:20-229 | what one interface hands to its driver another receives as the same datagram, whatever the buffers on its stack held |
| Packets.ResidueUnseenIff | kernel/netstack.c:212-229 | what is extracted is independent of the bytes behind an IP payload of any length exactly when the length field lies in the payload and is beyond the buffer, is 8, or stays within the payload, or its high byte alone puts it beyond the buffer |
| Packets.FrameResidueUnseenIff | kernel/netstack.c:131-229 | a frame is received the same whatever the uninitialised buffer held exactly when it is not taken for UDP or its payload is of that kind |
| Packets.EmptyPayloadReceived | kernel/netstack.c:157-229 | a well-formed IP packet for UDP without payload is accepted, and ports, length and data are all read from the uninitialised buffer |
| Packets.HeaderAccepted | kernel/netstack.c:146-154 | a header built by the sender passes the receiver's check and checksums to zero |
| Packets.UdpRoundTrip | kernel/netstack.c:20-229 | for up to 1472 bytes, what was sent is received with the same ports, length and bytes, whatever follows the frame in the buffer and whatever the payload buffer held |
| Packets.UdpSendAcceptedIff | kernel/netstack.c:20-24 | a send is accepted exactly when the data fits a frame or its length has wrapped around 16 bits; a wrapped frame is too short for the data |
| Dns.QuestionLength | kernel/netstack.c:455-474 | the question takes exactly six bytes more than the hostname, whatever its labels |
| Dns.QuestionBytes | kernel/netstack.c:455-474 | the question byte by byte, for every hostname: before each label its length modulo 256, then the label, at the end 0, type 1 and class 1 |
| Dns.DecodeQuestion | kernel/netstack.c:455-474 | a reader of length-prefixed labels gets the hostname back when its labels are non-empty and at most 63 bytes (sections 3.1 and 4.1.2 of RFC 1035) |
| Dns.QuestionInjective | kernel/netstack.c:455-474 | no two such hostnames are asked for by the same bytes |
| Dns.BuildQuestion | kernel/netstack.c:455-474 | the loop writes the specified question behind the header and leaves the header alone |
| Dhcp.ProcessOptions | kernel/netstack.c:596-623 | the loop ends, by its bound of 300, in the configuration the option walk specifies |
| Dhcp.WalkSerialized | kernel/netstack.c:600-624 | on a serialised list, closed by 255 or by position 300, the walk applies in order the options that start before position 300 |
| Dhcp.AnyReply | kernel/netstack.c:596-624 | for any bytes whatever: mask, gateway and name server are the first four bytes of the last option of code 1 and length 4, of code 3 and length at least 4, of code 6 and length at least 4, that starts before position 300, and stay as they were without one |
| Dhcp.ParsedSerialized | kernel/netstack.c:600-624 | of a serialised list the options met are its own that start before position 300 |
| Dhcp.LastOptionWins | kernel/netstack.c:603-619 | each address ends up as the first four bytes of the last option that sets it, or as it was |
| Dhcp.ReplyConfigures | kernel/netstack.c:596-623 | for every serialised list without pad codes whose options start before 300, closed by 255 (section 2 of RFC 2132): mask, gateway and name server are those of the last matching options |
| DottedQuad.IpFromString | kernel/network.c:687-712 | accepts exactly three dots between four digit groups, possibly empty, of at most 255; stores their values then, and leaves the address alone otherwise |
| DottedQuad.IpToString | kernel/network.c:714-736 | writes the shortest decimal text of each octet, dots between, and a terminator, and nothing behind it |
| DottedQuad.GroupIff | kernel/network.c:687-712 | a group is accepted exactly when it is empty, and then counts zero, or is a number up to 255 with any zeros in front, and then counts that number |
| DottedQuad.GroupsAndDots | kernel/network.c:687-712 | a text has one group more than it has dots |
| DottedQuad.ParsePrinted | kernel/network.c:687-736 | parsing a printed address gives the address |
| DottedQuad.PrintParsed | kernel/network.c:687-736 | printing a parsed text gives the text back exactly when no group is empty or has a leading zero |
| DottedQuad.PrintedFits | kernel/network.c:714-736 | the text takes between 7 and 15 bytes, so it fits sixteen with its terminator |

## Left out

- HeapSpec.RunKeeps: takes a release of an address that is not live as a no-op, which the kernel makes of it only while the flag word before the address is clear (`StaleFlagOwned`).
- KernelHeap.Heap.Free: requires that the twelve bytes before the pointer exist and, if the pointer is not that of a live block, hold a cleared use flag; anything else has no defined effect. A pointer freed before satisfies this until its bytes are handed out again.
- KernelScheduler.Scheduler.Start: takes null or a listed process, as other addresses have no defined effect.
- KernelFileSystem.FileSystem.FindFile: requires a path of fewer than 256 bytes behind a leading slash, which is what the buffer on the stack holds; so do the operations that look paths up.
- KernelFileSystem.FileSystem.constructor: covers lines 10 to 16 of the initialisation, and `MakeDefaults` lines 18 to 22; of the three default files of lines 25 to 27, whose names have several components, the first follows a null pointer (`FirstWriteFaults`), and what the kernel does after that is not defined.
- KernelFileSystem.FileSystem.ReadFile: returns the address; that memory there holds the last write is `ReadReturnsLastWrite`.
- KernelFileStore.Save: requires the invariant that every run keeps (`RunSavable`), and takes the bytes of the table, which hold its pointers and what lies behind names, as a second view of it.
- KernelFileLoad.Load: the header is read into a buffer of a whole sector, not over the 20 bytes that the kernel reserves. When there is no root it ends before the kernel initialises anew. Links in slots behind the entry count are taken as null.
- FileStoreRoundTrip.SaveThenLoad: assumes that no read fails and that every content gets a buffer; otherwise `TableReadSavable` and `LoadSaved` say what is kept, and `LoadContent` which contents are missing.
- KernelStorage.Drive.FinishWrite: a drive that reports ready after the data has stored it; one that does not may or may not have.
- KernelStorage.SectorStore.ReadSector: the drive has at least 2148 sectors, both handles have 2048 of 512 bytes, and null devices or buffers are not modelled.
- KernelNetstack.UdpSendPacket: the driver behind the function pointers is an object that keeps the frames it was given and delivers any bytes with any answer; messages on the screen are left out.
- KernelNetstack.UdpReceivePacket: a length beyond the frame, the payload buffer or the caller's buffer ends in `Overrun`, after which nothing is promised.
- Dns.BuildQuestion: requires a hostname that leaves room in the 512-byte packet; the header fields in front are zeros and constants.
- Dhcp.ProcessOptions: takes a buffer as long as the walk can look, beyond the 308 bytes of the reply; on a closed list the walk stays inside the list (`ReplyConfigures`).
- DottedQuad.IpToString: requires the sixteen bytes that callers reserve.
- Characters are bytes 0 to 255; comparisons of the kernel's signed characters for equality are the same on them.
- Bytes of a name field behind its terminator appear in `EntryRoundTrip` and `TableImage` only.
- Calls of a process's entry point, context switching, and stacks too small for the variable-length packets.
- `filesystem_ls`, `filesystem_pwd` and `filesystem_tree` print; the last resolves names against the working directory and need not end. Absolute paths are stated through parent links instead (`PathOf`).
- `filesystem_format_storage`, device detection, and the drive's identification.
- DHCP and DNS as protocols, ICMP, drivers, PCI, Wi-Fi, screen, keyboard, shell and user programs.
