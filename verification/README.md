# Nachos in Dafny

A model of the Nachos operating system and of the machine that it runs on, with proofs of what its parts promise.
Everything that the source changes in place is a class here: open files, headers, bitmaps, the directory, the process
table with its entries, semaphores, locks, conditions, lists, address spaces, the machine's registers and memory, the
event queue, the disk's clockwork, the network devices and the hash table. Their methods are proved against functions
of their state, and the properties of the system are proved of those functions. Threads appear as state machines whose
steps are the stretches between points where a switch can happen.

- **File system** (`SectorDisk`, `HeaderValue`, `Bitmap`, `FileHeader`, `OpenFile`, `PersistentBitmap`, `Directory`,
  `Volume`, `MountedDisk`, `DiskChanges`, `FileSystem`, `FileSystemRuns`). A raw disk of sectors; free map and
  directory are files in the sectors they describe. `DiskChanges.Fsck` says that the marked sectors are exactly the
  disjoint claims of all files. Format, Create, Remove and writes keep it, and any run of them, with any files open in
  between, behaves as a map from names to contents with a number of free sectors: what is read is what the map holds.
- **Process table** (`ProcessTree`, `ProcTable`, `ProcessRuns`). Sibling lists threaded through reusable slots, with
  parents asleep in the middle of a traversal. Every run follows a plain map of processes; every status is told once,
  to the parent, as it was left.
- **Synchronisation** (`Semaphore`, `Lock`, `Monitor`, `SynchList`). Semaphores that allow barging, a lock with its
  windows around `lockHolder`, conditions with one semaphore a waiter, and the list built on all of them.
  Whoever sleeps first is woken first, and the only way to get stuck is to wait for an item that nobody brings.
- **Address spaces and translation** (`Paging`, `AddrSpace`, `FrameOwnership`, `AddrSpaceRuns`). Two translators, the
  loader, copies in and out, and who owns which frame: frame by frame while spaces are built and torn down side by
  side, and over runs of address space objects on one bitmap and one memory.
- **Machine and processor** (`Words`, `Multiply`, `Instruction`, `Machine`, `Cpu`, `Isa`). Decoding, every instruction,
  precise traps, delayed loads, the bit-serial multiplication, and the confinement of a user program to its frames
  for as long as it runs. `Isa` is the instruction set in registers, numbers and bytes, to which execution is held.
- **Events and disk** (`SortedList`, `EventQueue`, `Interrupt`, `DiskTiming`, `DiskProtocol`). The linked sorted list,
  the event queue on values and as an object, in which no interrupt is lost or fired twice though handlers schedule
  again, rotation and seek times, and the protocol of one outstanding request.
- **Post office** (`Network`, `PostOffice`). Framing, and delivery from any number of machines over lossy ordered pipes.
- **Hash table** (`HashTable`). Chained buckets that are resized, as a finite map, with its iterator.

`Codec` holds the byte layouts and `Collections` what several modules share.

Where the code does something else than its documentation says, the code is followed:

- `UserStringToKernel` refuses a string whose terminator is the last byte it looks at (`AddrSpaces.StringUnique`,
  `AddrSpaces.AddrSpace.UserStringToKernel`).
- SRL and SRLV shift a signed int; `Cpu.SrlExactly` says when that is the logical shift.
- JALR writes rd before it reads rs; `Cpu.JalrExactly` says when that matters.
- Send only checks that a mailbox number is not negative; `PostOffices.SortHalts` and `PostOffices.BadBoxHalts` say
  which letters stop the receiving host.
- The kernel looks at the alignment of an address only after it has translated it; `Paging.MisalignedAgree` says when
  it then agrees with the hardware.
- Names are stored and compared by their first nine characters.
- Append of a list drops an item that is in it already, and does not say so. A synchronised list therefore passes on
  all items appended exactly if none was there when it was appended (`Monitors.OfferedConserved`); `Monitors.AppendTwice`
  is a run that loses one.

`dafny verify dfyconfig.toml` checks everything.

## Model

| member | source | states |
|---|---|---|
| `HeaderValue.HeaderRoundTrip` | NachOsDll/NachOsDll/filehdr.cpp:86-102 | A header read from the sector it was written to is the header written: fields, and all direct sector numbers |
| `HeaderValue.RoundsUp` | NachOsDll/NachOsDll/utility.h:54-54 | divRoundUp gives as many pieces as hold everything, and no piece more |
| `HeaderValue.HeaderLayout` | NachOsDll/NachOsDll/filehdr.h:63-67 | Where numBytes, numSectors and each of the 30 sector numbers lie in the sector, least significant byte first |
| `HeaderValue.FileBytesAt` | NachOsDll/NachOsDll/filehdr.cpp:115-129 | Byte p of a file is byte p % 128 of data sector number p / 128 |
| `HeaderValue.RawSlice` | NachOsDll/NachOsDll/openfile.cpp:157-186 | For any alignment of both ends, the part that ReadAt copies out of the whole sectors it read is exactly the requested slice of the file |
| `HeaderValue.FileBytesFrame` | NachOsDll/NachOsDll/filehdr.cpp:115-129 | A file's contents depend on its own data sectors only |
| `HeaderValue.OverwrittenBytes` | NachOsDll/NachOsDll/openfile.cpp:189-230 | Writing back whole sectors makes the file exactly what is wanted as soon as the buffer agrees with that inside those sectors |
| `SectorDisk.SynchDisk.ReadSector` | NachOsDll/NachOsDll/synchdisk.cpp:62-71 | One sector is copied to its place in the buffer, nothing else of the buffer changes |
| `SectorDisk.SynchDisk.WriteSector` | NachOsDll/NachOsDll/synchdisk.cpp:83-92 | Exactly one sector of the disk changes, to the bytes of the buffer |
| `Bitmaps.SetBit` | NachOsDll/NachOsDll/bitmap.cpp:56-63 | Setting a bit of a packed word changes that bit and no other of the word |
| `Bitmaps.ClearBit` | NachOsDll/NachOsDll/bitmap.cpp:73-80 | Clearing one likewise |
| `Bitmaps.CountClearZero` | NachOsDll/NachOsDll/bitmap.cpp:129-139 | No bit is clear exactly if the count of clear bits is zero |
| `Bitmaps.Bitmap.constructor` | NachOsDll/NachOsDll/bitmap.cpp:21-36 | A new map over packed words has every bit clear |
| `Bitmaps.Bitmap.Mark` | NachOsDll/NachOsDll/bitmap.cpp:56-63 | Seen as truth values, exactly bit `which` changes, to set |
| `Bitmaps.Bitmap.Clear` | NachOsDll/NachOsDll/bitmap.cpp:73-80 | Exactly bit `which` changes, to clear |
| `Bitmaps.Bitmap.Test` | NachOsDll/NachOsDll/bitmap.cpp:90-99 | Whether the bit is set |
| `Bitmaps.Bitmap.FindAndSet` | NachOsDll/NachOsDll/bitmap.cpp:111-120 | Sets the first clear bit and tells which; -1, with nothing changed, exactly if all were set |
| `Bitmaps.Bitmap.NumClear` | NachOsDll/NachOsDll/bitmap.cpp:129-139 | The number of clear bits |
| `FileHeaders.TakenCount` | NachOsDll/NachOsDll/filehdr.cpp:46-60 | A sector sequence taken from a map lowers the count of clear sectors by exactly its length |
| `FileHeaders.FileHeader.Allocate` | NachOsDll/NachOsDll/filehdr.cpp:46-60 | Succeeds exactly if the clear sectors have room for so many bytes; then the header is good for the size and its sectors are all different, were clear, and are the only ones newly set; otherwise the map is unchanged |
| `FileHeaders.FileHeader.Deallocate` | NachOsDll/NachOsDll/filehdr.cpp:70-76 | Given a map in which the data sectors are marked, its ASSERT never fires, and exactly those sectors become clear |
| `FileHeaders.FileHeader.FetchFrom` | NachOsDll/NachOsDll/filehdr.cpp:86-89 | The object becomes the decoding of the sector |
| `FileHeaders.FileHeader.WriteBack` | NachOsDll/NachOsDll/filehdr.cpp:99-102 | The sector becomes the encoding of the object, decodes to it again, and no other sector changes |
| `OpenFile.WroteSplice` | NachOsDll/NachOsDll/openfile.cpp:189-230 | WriteAt on disk images: writing back the prepared sectors makes the file the byte splice and changes no sector but the file's own |
| `OpenFile.OpenNaFile.constructor` | NachOsDll/NachOsDll/openfile.cpp:73-78 | Opening reads the header of the sector; the position starts at 0 |
| `OpenFile.OpenNaFile.ReadAt` | NachOsDll/NachOsDll/openfile.cpp:157-186 | Returns 0 for an empty request or one behind the end, and otherwise all that was asked for, or what there is up to the end: exactly those bytes of the file; the rest of the caller's buffer is untouched |
| `OpenFile.OpenNaFile.FillPartial` | NachOsDll/NachOsDll/openfile.cpp:212-218 | For every combination of aligned ends the two reads bring in all file bytes of the affected sectors that are outside the request |
| `OpenFile.OpenNaFile.WriteAt` | NachOsDll/NachOsDll/openfile.cpp:189-230 | The same count, down to what the file has room for; the file becomes the old contents with exactly [position, position+n) replaced; header and length stay; no sector but the file's data sectors changes |
| `OpenFile.OpenNaFile.Read` | NachOsDll/NachOsDll/openfile.cpp:117-121 | ReadAt at the current position, which moves on by what was read |
| `OpenFile.OpenNaFile.Write` | NachOsDll/NachOsDll/openfile.cpp:124-128 | WriteAt at the current position, which moves on by what was written |
| `PersistentBitmaps.WordsRoundTrip` | NachOsDll/NachOsDll/pbitmap.cpp:63-79 | Packed words written to a file and read back are the same words |
| `PersistentBitmaps.PersistentBitmap.FetchFrom` | NachOsDll/NachOsDll/pbitmap.cpp:63-66 | The words become the bytes of the file as far as it reaches |
| `PersistentBitmaps.PersistentBitmap.WriteBack` | NachOsDll/NachOsDll/pbitmap.cpp:76-79 | The file becomes the bytes of the words, other files' sectors unchanged |
| `Directories.StrnEqualKeys` | NachOsDll/NachOsDll/directory.cpp:90-96 | strncmp over 9 characters says equal exactly if the names agree up to the terminator or the ninth character |
| `Directories.StrncpyKey` | NachOsDll/NachOsDll/directory.cpp:129-143 | strncpy of 9 characters keeps exactly what that comparison looks at |
| `Directories.KeyIs` | NachOsDll/NachOsDll/directory.h:23-24 | The name a file is known by: its first nine characters, or what is before its terminator |
| `Directories.EntryLayout` | NachOsDll/NachOsDll/directory.h:33-40 | Where inUse, the sector and the name of each entry lie in its twenty bytes |
| `Directories.TableRoundTrip` | NachOsDll/NachOsDll/directory.cpp:63-79 | The table of entries, flattened to bytes and cut again, is the same table |
| `Directories.Directory.FindIndex` | NachOsDll/NachOsDll/directory.cpp:90-96 | The first in-use entry with the name, or -1 exactly if no entry in use holds it |
| `Directories.Directory.Find` | NachOsDll/NachOsDll/directory.cpp:108-115 | -1 if no entry in use holds the name, otherwise the sector of the first that does |
| `Directories.Directory.Add` | NachOsDll/NachOsDll/directory.cpp:129-143 | Succeeds exactly if the name is absent and an entry is free; then one free entry becomes the new file's and nothing else changes |
| `Directories.Directory.Remove` | NachOsDll/NachOsDll/directory.cpp:154-162 | Succeeds exactly if the name is there; then just the first entry holding it is no longer in use |
| `Directories.Directory.FetchFrom` | NachOsDll/NachOsDll/directory.cpp:63-66 | The table becomes the decoding of the file |
| `Directories.Directory.WriteBack` | NachOsDll/NachOsDll/directory.cpp:76-79 | The file becomes the encoding of the table |
| `Volumes.SoundExactly` | NachOsDll/NachOsDll/filesys.cpp:123-338 | What soundness of a disk comes to: the marked sectors are exactly those claimed by the two system files and by the entries in use, headers and data, and no sector is claimed twice |
| `Volumes.AddKeepsSound` | NachOsDll/NachOsDll/filesys.cpp:239-261 | A file made of sectors that were clear, under a new name, keeps the volume sound |
| `Volumes.RemoveKeepsSound` | NachOsDll/NachOsDll/filesys.cpp:323-333 | Taking an entry out of use and clearing exactly its sectors keeps it sound |
| `MountedDisk.CreatedListing` | NachOsDll/NachOsDll/filesys.cpp:225-264 | After Create's writes the files of the disk are the old ones with their contents, and the new name |
| `MountedDisk.RemovedListing` | NachOsDll/NachOsDll/filesys.cpp:310-338 | After Remove's writes they are the old ones with their contents, without the name |
| `MountedDisk.WriteKeepsView` | NachOsDll/NachOsDll/openfile.cpp:189-230 | Writing a user file's data sectors leaves map, directory and all headers as they were, although those live on the same disk |
| `DiskChanges.FoundLive` | NachOsDll/NachOsDll/filesys.cpp:277-293 | The header that Open finds is that of exactly the named file and can be read and written safely |
| `DiskChanges.LiveWrite` | NachOsDll/NachOsDll/openfile.cpp:189-230 | A write through a live handle keeps the disk sound, changes that file's contents only, and keeps every handle live |
| `DiskChanges.Created` | NachOsDll/NachOsDll/filesys.cpp:225-264 | The disk after Create is sound, has one more file, and that file claims just its header and data sectors |
| `DiskChanges.Removed` | NachOsDll/NachOsDll/filesys.cpp:310-338 | The disk after Remove is sound and has one file fewer, whose sectors are free again |
| `DiskChanges.FormattedDisk` | NachOsDll/NachOsDll/filesys.cpp:123-193 | The disk after format is sound, without files |
| `FileSystems.FileSystem.constructor` | NachOsDll/NachOsDll/filesys.cpp:123-193 | Formatting any disk gives a sound one without files and with all but the system files' sectors clear; mounting without formatting changes nothing |
| `FileSystems.FileSystem.Create` | NachOsDll/NachOsDll/filesys.cpp:225-264 | Succeeds exactly if the 9-character name is absent, an entry is free and 1 + ceil(size/128) sectors are clear; a failure, also of a file larger than the disk, leaves the whole disk unchanged; success keeps the disk sound, takes exactly the new file's sectors, and keeps all other files, names and handles |
| `DiskChanges.CreatableExactly` | NachOsDll/NachOsDll/filesys.cpp:225-264 | What Create needs: no entry in use with that name, one that is not in use, one clear sector for the header, and room for `size` bytes in the others that are clear |
| `FileSystems.FileSystem.Open` | NachOsDll/NachOsDll/filesys.cpp:277-293 | Null exactly if the name is absent; otherwise a live handle on exactly that file |
| `FileSystems.FileSystem.Remove` | NachOsDll/NachOsDll/filesys.cpp:310-338 | Succeeds exactly if the name is there; then the disk stays sound, the file is gone, exactly its sectors are clear again and all others stay; Deallocate's ASSERT never fires |
| `FileSystemRuns.FilesCount` | NachOsDll/NachOsDll/directory.cpp:129-143 | An entry is free exactly if fewer than ten files are listed |
| `FileSystemRuns.OccupiedCount` | NachOsDll/NachOsDll/filehdr.cpp:46-60 | A listed file occupies exactly one header sector and as many data sectors as its bytes need |
| `FileSystemRuns.CreateRefines` | NachOsDll/NachOsDll/filesys.cpp:225-264 | A successful Create is a step of the simple store: names to contents, a number of free sectors, and open handles |
| `FileSystemRuns.CreateFails` | NachOsDll/NachOsDll/filesys.cpp:225-264 | An unsuccessful one is too: the store has the name, is full, or has too few free sectors |
| `FileSystemRuns.CreateMeans` | NachOsDll/NachOsDll/filesys.cpp:225-264 | To a user: done exactly for a new name, fewer than ten files and room for header and bytes; then the file has its size, no more sectors are taken than that needs, and nothing else changes |
| `FileSystemRuns.RemoveRefines` | NachOsDll/NachOsDll/filesys.cpp:310-338 | A successful Remove is a step of the store, in which the handles on that file go |
| `FileSystemRuns.RemoveMeans` | NachOsDll/NachOsDll/filesys.cpp:310-338 | To a user: done exactly if the file exists; its sectors and its header's are free again, its handles are not to be used, and all other files and handles stay |
| `FileSystemRuns.OpenMeans` | NachOsDll/NachOsDll/filesys.cpp:277-293 | To a user: a handle of its own on just the named file, refused exactly if there is none, and closing it restores what was open |
| `FileSystemRuns.WriteMeans` | NachOsDll/NachOsDll/openfile.cpp:189-230 | To a user, byte by byte: all the data is put in its place and nothing else changes; a count below its length means that the end of the file was reached |
| `FileSystemRuns.ReadMeans` | NachOsDll/NachOsDll/openfile.cpp:157-186 | To a user, byte by byte: all that was asked for from its place; less means that the end of the file was reached |
| `FileSystemRuns.CreateRemove` | NachOsDll/NachOsDll/filesys.cpp:225-338 | Create and then Remove restores the set of free sectors and the map from names to contents exactly |
| `FileSystemRuns.WriteLive` | NachOsDll/NachOsDll/openfile.cpp:189-230 | A write through a live handle splices just that file's bytes in the store and moves as many as the file has room for; every handle stays live |
| `FileSystemRuns.ReadLive` | NachOsDll/NachOsDll/openfile.cpp:157-186 | A read through a live handle gets the slice that the store has there |
| `FileSystemRuns.Users.Create` | NachOsDll/NachOsDll/filesys.cpp:225-264 | With any handles open, Create is a step of the store and all of them stay live |
| `FileSystemRuns.Users.Remove` | NachOsDll/NachOsDll/filesys.cpp:310-338 | So is Remove, and all handles on other files stay live |
| `FileSystemRuns.Users.Open` | NachOsDll/NachOsDll/filesys.cpp:277-293 | Open gives a new handle on exactly the named file, and is refused exactly if the store has no such file |
| `FileSystemRuns.Users.WriteAt` | NachOsDll/NachOsDll/openfile.cpp:189-230 | A write through any handle still open is a step of the store, and refused without one |
| `FileSystemRuns.Users.ReadAt` | NachOsDll/NachOsDll/openfile.cpp:157-186 | What a read through any handle still open returns is the store's slice |
| `FileSystemRuns.Users.Close` | NachOsDll/NachOsDll/openfile.cpp:80-87 | Closing a handle takes away that handle only |
| `FileSystemRuns.Users.Step` | NachOsDll/NachOsDll/filesys.cpp:225-338 | Any operation is a step of the store, with the store's outcome, and keeps every handle on an existing file live |
| `FileSystemRuns.Users.WriteByName` | NachOsDll/NachOsDll/openfile.cpp:189-230 | Open, write and close together change just the named file |
| `FileSystemRuns.WrittenRead` | NachOsDll/NachOsDll/openfile.cpp:157-230 | What one handle has written any other on the file then reads there |
| `FileSystemRuns.Run` | NachOsDll/NachOsDll/filesys.cpp:123-338 | Any sequence of Create, Remove, Open, Close, WriteAt and ReadAt in which callers keep their side step by step, with any handles open meanwhile, from any sound disk: the disk stays sound, handles on existing files stay live, and every outcome, what reads return included, is the store's |
| `ProcessTree.BornKeeps` | NachOsDll/NachOsDll/proctable.cpp:128-147 | A new entry at the head of its parent's list keeps the tree: lists acyclic, without repetition, exactly the children; parents alive; waiters right |
| `ProcessTree.DepartKeeps` | NachOsDll/NachOsDll/proctable.cpp:163-208 | So does an exit that walks its children's list, deletes those that are done, orphans the others and reports or deletes itself |
| `ProcessTree.JoinKeeps` | NachOsDll/NachOsDll/proctable.cpp:258-274 | So does unhooking an exited child from the middle of its parent's list |
| `ProcessTree.SleepKeeps` | NachOsDll/NachOsDll/proctable.cpp:253-257 | So does going to sleep on a child's condition |
| `ProcessTree.WaitingExactly` | NachOsDll/NachOsDll/proctable.cpp:193-206 | On a live process's queue are exactly those who wait for it; an orphan's queue is empty |
| `ProcTables.Table.Insert` | NachOsDll/NachOsDll/table.cpp:41-53 | The first free slot gets the item; -1, nothing changed, exactly if there is none |
| `ProcTables.Table.Remove` | NachOsDll/NachOsDll/table.cpp:74-78 | Exactly that slot becomes free |
| `ProcTables.ProcTable.constructor` | NachOsDll/NachOsDll/proctable.cpp:81-88 | The table starts without processes |
| `ProcTables.ProcTable.GetNewProcId` | NachOsDll/NachOsDll/proctable.cpp:115-150 | Fails, nothing changed, exactly if all slots are taken; otherwise the lowest free one becomes a running child of `parentId`, all other processes as before |
| `ProcTables.ProcTable.ProcIsDone` | NachOsDll/NachOsDll/proctable.cpp:163-208 | Afterwards exactly: exited children are forgotten, running ones orphaned, the process itself forgotten or exited with its status; exactly those asleep on it are made ready |
| `ProcTables.ProcTable.FindChild` | NachOsDll/NachOsDll/proctable.cpp:237-250 | The walk finds the child exactly if it is one of the caller's, and its predecessor in the list |
| `ProcTables.ProcTable.GetProcStatus` | NachOsDll/NachOsDll/proctable.cpp:228-285 | FALSE exactly for what is no child of the caller; otherwise the very status the child left, which is then forgotten, or sleep if the child is still running |
| `ProcTables.ProcTable.Resume` | NachOsDll/NachOsDll/proctable.cpp:256-276 | After its one Wait the child has exited, the predecessor found before the lock was released is still the right one, and the status told is the one the child left |
| `ProcessRuns.StepLedger` | NachOsDll/NachOsDll/proctable.cpp:115-285 | Over reused slots, every step keeps the ledger of which process each slot stands for, what it left and what parents were told |
| `ProcessRuns.ExitMeans` | NachOsDll/NachOsDll/proctable.cpp:163-208 | An exit: the status is kept for a parent if there is one, exited children are forgotten and running ones have no parent any more, and exactly those who wait for it are made ready |
| `ProcessRuns.JoinMeans` | NachOsDll/NachOsDll/proctable.cpp:228-285 | A join: the status of a child that has exited, which is then forgotten; sleep on one that runs; nothing told of any other |
| `ProcessRuns.WakeMeans` | NachOsDll/NachOsDll/proctable.cpp:256-276 | A parent that is woken: the status of the very child it slept for, which is then forgotten |
| `ProcessRuns.RunTells` | NachOsDll/NachOsDll/proctable.cpp:228-285 | In every run each status told is the one that very process left, and no process's status is told twice |
| `ProcessRuns.NobodyForgotten` | NachOsDll/NachOsDll/proctable.cpp:193-206 | A sleeping parent has been made ready exactly if its child has exited |
| `ProcessRuns.Step` | NachOsDll/NachOsDll/proctable.cpp:115-285 | Any event does to the table exactly what the simple process map says |
| `ProcessRuns.Run` | NachOsDll/NachOsDll/proctable.cpp:81-285 | The table driven by any events from its construction keeps its invariant and follows that map |
| `Semaphores.VSound` | NachOsDll/NachOsDll/synch.cpp:204-214 | V keeps the rule that while anyone sleeps the value does not exceed the number of those woken and not yet resumed |
| `Semaphores.SemaphoreRun` | NachOsDll/NachOsDll/synch.cpp:154-214 | For every interleaving, barging included: value = initial + V's - completed P's, never negative, and no wakeup is lost |
| `Semaphores.FirstAsleepFirst` | NachOsDll/NachOsDll/synch.cpp:154-214 | For every interleaving: the threads that went to sleep are, in order, those that V's took from the queue followed by those that still sleep |
| `Semaphores.Semaphore.P` | NachOsDll/NachOsDll/synch.cpp:154-167 | One turn of P: takes one if the value is positive, otherwise the thread goes to the end of the queue |
| `Semaphores.Semaphore.V` | NachOsDll/NachOsDll/synch.cpp:204-214 | The value grows by one and exactly the thread at the head of the queue is made ready |
| `Locks.LockKeeps` | NachOsDll/NachOsDll/synch.cpp:347-368 | Every step of Acquire and Release keeps at most one owner, also in the windows where lockHolder is not yet set or already cleared; Release's ASSERT holds |
| `Locks.LockMoves` | NachOsDll/NachOsDll/synch.cpp:347-368 | Every step takes its thread to the next of the five phases and no other thread anywhere, unless it has to sleep |
| `Locks.LockRuns` | NachOsDll/NachOsDll/synch.cpp:347-368 | In every run; and while the lock is free and wanted somebody has been made ready |
| `Locks.Lock.Acquire` | NachOsDll/NachOsDll/synch.cpp:347-350 | One turn of Acquire on the object |
| `Locks.Lock.Release` | NachOsDll/NachOsDll/synch.cpp:364-368 | The holder is cleared and one waiter made ready |
| `Monitors.StepKeeps` | NachOsDll/NachOsDll/synchlist.cpp:120-165 | Every step of Append, RemoveFront, Wait and Signal by any thread keeps the invariant of lock, list, condition queue and waiters, and runs into no ASSERT |
| `Monitors.MonitorRuns` | NachOsDll/NachOsDll/synch.cpp:423-476 | The invariant holds after any calls and steps of any threads |
| `Monitors.MonitorPromises` | NachOsDll/NachOsDll/synchlist.cpp:120-165 | In every run: what went onto the list = removed followed by the contents; one owner at most; a waiter's semaphore has value 1 exactly from its signaller's V to its own P and 0 otherwise, and it is queued exactly while unsignalled; while the lock is free and somebody waits unsignalled there are no more items than signalled threads on their way back; no ASSERT fails |
| `Monitors.FirstWaitingFirst` | NachOsDll/NachOsDll/synch.cpp:423-463 | In every run threads are signalled in the order in which they came to wait, each once |
| `Monitors.Advances` | NachOsDll/NachOsDll/synchlist.cpp:120-165 | Every step of a thread that can take one brings it nearer to the end of its operation, or to sleep, but for the loop of RemoveFront |
| `Monitors.StuckOnlyEmpty` | NachOsDll/NachOsDll/synchlist.cpp:120-165 | No deadlock: nobody can take a step only when the lock is free, and every thread inside waits for an item of an empty list |
| `Monitors.OfferedConserved` | NachOsDll/NachOsDll/synchlist.cpp:120-145 | The items of all completed calls of Append are those removed followed by those in the list exactly if no call found its item in the list |
| `Monitors.AppendTwice` | NachOsDll/NachOsDll/list.cpp:306-316 | A run in which one of two calls is lost, since Insert drops an item that is there already |
| `SynchLists.Condition.Enqueue` | NachOsDll/NachOsDll/synch.cpp:423-437 | Wait puts a fresh semaphore of its own, of value 0, at the end of the queue |
| `SynchLists.Condition.Signal` | NachOsDll/NachOsDll/synch.cpp:454-463 | Exactly the longest waiter's semaphore gets a V and leaves the queue; nothing if there is none |
| `SynchLists.Condition.Broadcast` | NachOsDll/NachOsDll/synch.cpp:472-476 | Every waiter's semaphore gets exactly one V, and those made ready are the threads at the heads of their queues |
| `SynchLists.HeadsInOrder` | NachOsDll/NachOsDll/synch.cpp:472-476 | Those that Broadcast makes ready are in the order of the waiters |
| `SynchLists.SynchList.Step` | NachOsDll/NachOsDll/synchlist.cpp:120-165 | The next step of a thread on the object is the step of the proved machine; what is taken is what the list had first |
| `SynchLists.Run` | NachOsDll/NachOsDll/synchlist.cpp:61-165 | The object under any calls and steps is in the state of the machine's run, so that all promises hold of it |
| `Paging.TranslatorsAgree` | NachOsDll/NachOsDll/addrspace.cpp:656-692 | On every aligned nonnegative address kernel and hardware translation have corresponding outcomes, and on success the same physical address and the same use and dirty bits |
| `Paging.MisalignedAgree` | NachOsDll/NachOsDll/addrspace.cpp:824-860 | On misaligned ones they agree exactly if the page is beyond the table |
| `Paging.HardwareLetsThrough` | MIPSVirtualMachine/MIPSVirtualMachine/machine.cpp:134-200 | What the hardware lets through, the kernel would, with the alignment checked |
| `Paging.HardwareAnswers` | MIPSVirtualMachine/MIPSVirtualMachine/machine.cpp:134-200 | When each exception comes and when none does, by alignment, page table and frame; a write to a read-only page is refused |
| `Paging.KernelAnswers` | NachOsDll/NachOsDll/addrspace.cpp:656-692 | Likewise for each status of the kernel's translation |
| `AddrSpaces.KernelAccessIs` | NachOsDll/NachOsDll/addrspace.cpp:824-860 | And for ReadMem and WriteMem: they go through exactly if the page may be accessed so, its frame exists and the address is aligned |
| `Paging.WithinFrame` | MIPSVirtualMachine/MIPSVirtualMachine/machine.cpp:193-198 | No aligned access crosses a frame or leaves physical memory |
| `Paging.LoadStore` | MIPSVirtualMachine/MIPSVirtualMachine/machine.cpp:32-116 | What is read is what was written, cut to the size, with the sign the size gives it |
| `Paging.CopiedSeen` | NachOsDll/NachOsDll/addrspace.cpp:794-812 | Bytes copied in are seen at exactly their addresses, over any pages in any frames, and nothing else is seen to change |
| `Paging.CopiedIsolated` | NachOsDll/NachOsDll/addrspace.cpp:794-812 | A space with no frame in common sees no change |
| `Paging.WriteIsolated` | NachOsDll/NachOsDll/addrspace.cpp:948-985 | A write of any size in one space leaves every read in another as it was |
| `AddrSpaces.StringUnique` | NachOsDll/NachOsDll/addrspace.cpp:712-743 | There is one length a terminated string can have |
| `AddrSpaces.AddrSpace.constructor` | NachOsDll/NachOsDll/addrspace.cpp:177-376 | Usable exactly if the header is one and the frames suffice; then every page has a frame of its own, the process sees its segments from the file and zeros elsewhere, exactly code and read-only data are write-protected, and nothing is marked used; in every case exactly the frames of the valid pages are newly marked, and memory outside them is unchanged |
| `AddrSpaces.PagesUsed` | NachOsDll/NachOsDll/addrspace.cpp:210-216 | The space has room for all four segments and the stack, with less than a page to spare for each segment |
| `AddrSpaces.EndToEndLaid` | NachOsDll/NachOsDll/addrspace.cpp:210-216 | Four segments page-aligned end to end are what the loader takes, and the space ends just behind them and the stack |
| `AddrSpaces.LoadableExactly` | NachOsDll/NachOsDll/addrspace.cpp:195-260 | Such a program is loaded exactly if it is one and the free frames have room for all that |
| `AddrSpaces.ProgramSpace` | NachOsDll/NachOsDll/addrspace.cpp:177-376 | It can read all of its four segments and the stack and nothing else, and write all but the pages of its code and read-only data |
| `AddrSpaces.ProgramFinds` | NachOsDll/NachOsDll/addrspace.cpp:262-376 | It finds its code, read-only and initialised data as in the file, and zeros in its uninitialised data and stack |
| `AddrSpaces.AddrSpace.Destroy` | NachOsDll/NachOsDll/addrspace.cpp:388-413 | Exactly the frames of the valid pages become clear |
| `AddrSpaces.AddrSpace.Translate` | NachOsDll/NachOsDll/addrspace.cpp:656-692 | Status, physical address and use and dirty bits, on success only |
| `AddrSpaces.AddrSpace.ReadMem` | NachOsDll/NachOsDll/addrspace.cpp:824-860 | The value at the physical address; the use bit is set even if the alignment is then found wrong |
| `AddrSpaces.AddrSpace.WriteMem` | NachOsDll/NachOsDll/addrspace.cpp:948-985 | Exactly the bytes of the access change, or none |
| `AddrSpaces.AddrSpace.KernelToUserBuf` | NachOsDll/NachOsDll/addrspace.cpp:794-812 | Returns the length exactly if every byte can be written; what was copied before a failure is exactly the prefix up to it |
| `AddrSpaces.AddrSpace.UserBufToKernel` | NachOsDll/NachOsDll/addrspace.cpp:758-778 | Returns the length exactly if every byte can be read, and then the bytes the process sees |
| `AddrSpaces.AddrSpace.UserStringToKernel` | NachOsDll/NachOsDll/addrspace.cpp:712-743 | Returns the length exactly for a terminated string shorter than the limit, and then its bytes |
| `AddrSpaces.AddrSpace.CopyInOut` | NachOsDll/NachOsDll/addrspace.cpp:758-812 | Copying a buffer in and out again gives the same bytes |
| `FrameOwnership.CreateKeeps` | NachOsDll/NachOsDll/addrspace.cpp:246-260 | The frame map stays the disjoint union of the spaces' frames when a space is constructed, completely or not |
| `FrameOwnership.DestroyKeeps` | NachOsDll/NachOsDll/addrspace.cpp:388-413 | And when one is destroyed |
| `FrameOwnership.CreateDestroy` | NachOsDll/NachOsDll/addrspace.cpp:177-413 | Constructing a space, even in vain, and destroying it restores the frame map exactly |
| `FrameOwnership.OwnedApart` | NachOsDll/NachOsDll/addrspace.cpp:246-260 | Then no two spaces share a frame |
| `FrameOwnership.FrameKeeps` | NachOsDll/NachOsDll/addrspace.cpp:246-260 | The first clear frame, taken for one page of a table under construction, keeps the disjoint union |
| `FrameOwnership.ReturnKeeps` | NachOsDll/NachOsDll/addrspace.cpp:388-413 | One frame given back keeps it |
| `FrameOwnership.WorldRuns` | NachOsDll/NachOsDll/synchbitmap.cpp:63-104 | In every run in which constructions, destructions and memory accesses of any number of spaces take turns frame by frame, the map stays the disjoint union of the tables' frames, half built ones included, and all spaces are apart |
| `AddrSpaceRuns.OwnedHeld` | NachOsDll/NachOsDll/addrspace.cpp:388-413 | Each space of an owned world holds its frames in the map, which is what the destructor takes for granted |
| `AddrSpaceRuns.Processes.Load` | NachOsDll/NachOsDll/addrspace.cpp:177-376 | A space constructed beside others, in vain or not: it owns exactly the frames newly marked, has its program in them if it is usable, and nothing outside them has changed |
| `AddrSpaceRuns.Processes.Unload` | NachOsDll/NachOsDll/addrspace.cpp:388-413 | Any one of them destroyed: exactly its frames become clear, memory stays, the map is owned by the rest |
| `AddrSpaceRuns.Processes.Write` | NachOsDll/NachOsDll/addrspace.cpp:948-985 | A write through one process's page table does to memory, and to that table, what the model says, and the map stays owned |
| `AddrSpaceRuns.Processes.CopyIn` | NachOsDll/NachOsDll/addrspace.cpp:794-812 | So does a buffer copied in, however far it gets |
| `AddrSpaceRuns.StepOwned` | NachOsDll/NachOsDll/addrspace.cpp:177-413 | Every command keeps the map the disjoint union of the frames of the spaces there are |
| `AddrSpaceRuns.StepSpares` | NachOsDll/NachOsDll/addrspace.cpp:177-985 | A command for another space leaves a space its page table and all that is in its frames |
| `AddrSpaceRuns.RunOwned` | NachOsDll/NachOsDll/addrspace.cpp:177-413 | At every moment of a run the map is that union and no two spaces share a frame |
| `AddrSpaceRuns.RunSpares` | NachOsDll/NachOsDll/addrspace.cpp:177-985 | However long others are loaded, destroyed, written and copied to, a process that nothing is done for sees all its memory unchanged |
| `AddrSpaceRuns.WrittenRead` | NachOsDll/NachOsDll/addrspace.cpp:824-985 | What a process has written it reads back, cut to the size, however long others run in between |
| `AddrSpaceRuns.Run` | NachOsDll/NachOsDll/addrspace.cpp:177-413 | Address spaces constructed, destroyed, written, read and copied to in any order on one bitmap and one memory: every outcome and the final state are those of a trace of the model's steps from the empty world, so that RunOwned, RunSpares and WrittenRead hold of it |
| `Machines.RaisedPrecisely` | MIPSVirtualMachine/MIPSVirtualMachine/machine.cpp:291-304 | A trap leaves every register as it was, but for the target of the pending load, which has its value, the load registers and BadVAddr |
| `Machines.Machine.constructor` | MIPSVirtualMachine/MIPSVirtualMachine/machine.cpp:244-267 | Registers and memory start as zero |
| `Machines.Machine.Translate` | MIPSVirtualMachine/MIPSVirtualMachine/machine.cpp:134-200 | The exception or the physical address; use and dirty bits change on success only |
| `Machines.Machine.ReadMem` | MIPSVirtualMachine/MIPSVirtualMachine/machine.cpp:32-67 | The value, or a trap, with memory unchanged |
| `Machines.Machine.WriteMem` | MIPSVirtualMachine/MIPSVirtualMachine/machine.cpp:83-116 | Exactly the bytes of the access, or a trap with nothing changed |
| `Machines.Machine.RaiseException` | MIPSVirtualMachine/MIPSVirtualMachine/machine.cpp:291-304 | What the kernel's handler finds |
| `Machines.Machine.DelayedLoad` | MIPSVirtualMachine/MIPSVirtualMachine/mipssim.cpp:718-724 | The pending load lands, the next one is pending, R0 is zero |
| `Instructions.DecodeExecutable` | MIPSVirtualMachine/MIPSVirtualMachine/mipssim.cpp:688-695 | No 32-bit word decodes to an operation without a case, so that the ASSERT in the default case never fires |
| `Instructions.Instruction.Decode` | MIPSVirtualMachine/MIPSVirtualMachine/mipssim.cpp:732-768 | The fields by the tables |
| `Instructions.RTypeDecoded` | MIPSVirtualMachine/MIPSVirtualMachine/mipssim.h:117-150 | A word assembled from funct, registers and shift amount decodes to them |
| `Instructions.ITypeDecoded` | MIPSVirtualMachine/MIPSVirtualMachine/mipssim.cpp:741-767 | A word assembled from a code, registers and a signed 16-bit immediate decodes to them, BCOND by its rt field |
| `Instructions.JTypeDecoded` | MIPSVirtualMachine/MIPSVirtualMachine/mipssim.cpp:748-750 | Likewise for jumps |
| `Instructions.EncodedDecodes` | MIPSVirtualMachine/MIPSVirtualMachine/mipssim.h:117-150 | Every instruction that can be assembled with the codes of the MIPS manual decodes to that operation and its operands |
| `Instructions.DecodedEncodes` | MIPSVirtualMachine/MIPSVirtualMachine/mipssim.h:117-150 | And every word either decodes to what assembles to it, or to an illegal instruction |
| `Words.BitwiseBit` | MIPSVirtualMachine/MIPSVirtualMachine/mipssim.cpp:191-197 | Bit k of an AND, OR, XOR or NOR is that operation on the operands' bits k |
| `Words.AddTest` | MIPSVirtualMachine/MIPSVirtualMachine/mipssim.cpp:163-170 | The sign-bit test of ADD and ADDI succeeds exactly if the true sum is no 32-bit int |
| `Words.SubTest` | MIPSVirtualMachine/MIPSVirtualMachine/mipssim.cpp:538-544 | That of SUB, exactly if the true difference is none |
| `Words.Division` | MIPSVirtualMachine/MIPSVirtualMachine/mipssim.cpp:233-241 | Quotient and remainder as C has them make up the dividend |
| `Words.RemainderSmall` | MIPSVirtualMachine/MIPSVirtualMachine/mipssim.cpp:233-241 | The remainder is smaller than the divisor and has the dividend's sign |
| `Words.QuotientInt` | MIPSVirtualMachine/MIPSVirtualMachine/mipssim.cpp:233-241 | The quotient is an int exactly if it is not the most negative one divided by -1 |
| `Cpu.SrlExactly` | MIPSVirtualMachine/MIPSVirtualMachine/mipssim.cpp:526-536 | SRL and SRLV give a logical shift exactly on a nonnegative operand or a shift by nothing |
| `Cpu.JalrExactly` | MIPSVirtualMachine/MIPSVirtualMachine/mipssim.cpp:263-267 | JALR goes where rs pointed exactly if rd is another register or gets the same value |
| `Cpu.ComputeImmediate` | MIPSVirtualMachine/MIPSVirtualMachine/mipssim.cpp:173-189 | ADDI traps exactly on overflow; the results of the immediate operations |
| `Cpu.ComputeRegister` | MIPSVirtualMachine/MIPSVirtualMachine/mipssim.cpp:163-171 | ADD and SUB trap exactly on overflow; the results of the register operations |
| `Cpu.MultiplyDivide` | MIPSVirtualMachine/MIPSVirtualMachine/mipssim.cpp:233-255 | Hi and Lo after multiplication, division and moves to them |
| `Cpu.Branch` | MIPSVirtualMachine/MIPSVirtualMachine/mipssim.cpp:199-267 | The registers after the link has been written, and the destination that is then read; in numbers it is `Isa.Branches` |
| `Cpu.LoadMemory` | MIPSVirtualMachine/MIPSVirtualMachine/mipssim.cpp:269-424 | A trap, or the pending load with its extension; misaligned halfwords and words trap |
| `Cpu.StoreMemory` | MIPSVirtualMachine/MIPSVirtualMachine/mipssim.cpp:464-474 | A trap with memory unchanged, or exactly the bytes stored |
| `Cpu.OneInstruction` | MIPSVirtualMachine/MIPSVirtualMachine/mipssim.cpp:127-707 | Fetch, decode and the whole switch on the machine's arrays are the step of the model, up to the call of the handler |
| `Cpu.TrapsPrecisely` | MIPSVirtualMachine/MIPSVirtualMachine/mipssim.cpp:127-707 | Whatever instruction traps, at fetch or execution: memory, program counters and all other registers are as before it |
| `Cpu.StepSettles` | MIPSVirtualMachine/MIPSVirtualMachine/mipssim.cpp:697-724 | R0 is zero and LoadReg a general register at every boundary, and a pending load has landed by the next one |
| `Cpu.StepAdvances` | MIPSVirtualMachine/MIPSVirtualMachine/mipssim.cpp:702-706 | Without a trap the program counters move on by one, with a branch taken after its delay slot; in numbers it is `Isa.Goes` |
| `Isa.Adds` | MIPSVirtualMachine/MIPSVirtualMachine/mipssim.cpp:163-189 | Sum and difference modulo 2^32 |
| `Isa.Compares` | MIPSVirtualMachine/MIPSVirtualMachine/mipssim.cpp:485-515 | 1 exactly if less, as signed or unsigned numbers |
| `Isa.Combines` | MIPSVirtualMachine/MIPSVirtualMachine/mipssim.cpp:191-197 | AND, OR, XOR and NOR bit by bit, immediates extended with zeros |
| `Isa.Shifts` | MIPSVirtualMachine/MIPSVirtualMachine/mipssim.cpp:476-536 | Shifts as products and quotients by powers of two, and LUI |
| `Isa.Moves` | MIPSVirtualMachine/MIPSVirtualMachine/mipssim.cpp:426-432 | MFHI and MFLO |
| `Isa.Computes` | MIPSVirtualMachine/MIPSVirtualMachine/mipssim.cpp:163-197 | Which register gets the result, that nothing else changes, and that ADD, ADDI and SUB trap exactly if the true result is no int |
| `Isa.Multiplies` | MIPSVirtualMachine/MIPSVirtualMachine/mipssim.cpp:434-450 | Hi:Lo is the signed or unsigned product; zeros after a division by zero; MTHI and MTLO |
| `Isa.Divides` | MIPSVirtualMachine/MIPSVirtualMachine/mipssim.cpp:233-241 | Lo and Hi are quotient and remainder, the remainder smaller than the divisor and with the dividend's sign |
| `Isa.DividesUnsigned` | MIPSVirtualMachine/MIPSVirtualMachine/mipssim.cpp:243-255 | Likewise for unsigned numbers |
| `Isa.MultipliesInto` | MIPSVirtualMachine/MIPSVirtualMachine/mipssim.cpp:233-255 | And nothing but Hi and Lo changes |
| `Isa.Branches` | MIPSVirtualMachine/MIPSVirtualMachine/mipssim.cpp:199-267 | When each branch is taken, by the bits of its registers, and where each branch and jump goes, in numbers; the return address and where it goes; and that nothing else changes |
| `Isa.Loads` | MIPSVirtualMachine/MIPSVirtualMachine/mipssim.cpp:269-424 | When a load is refused and how, and otherwise what it leaves pending, by the bytes at the place it reads |
| `Isa.Stores` | MIPSVirtualMachine/MIPSVirtualMachine/mipssim.cpp:464-474 | When a store is refused and how, and otherwise just the low bytes of the register are in memory at its place |
| `Isa.StoresPart` | MIPSVirtualMachine/MIPSVirtualMachine/mipssim.cpp:558-674 | SWL stores the word and SWR its lowest byte to the last place; both read first, which tells how they are refused |
| `Isa.TrapsAlways` | MIPSVirtualMachine/MIPSVirtualMachine/mipssim.cpp:676-691 | System calls and illegal instructions trap and change nothing |
| `Isa.Fetches` | MIPSVirtualMachine/MIPSVirtualMachine/mipssim.cpp:141-146 | The instruction is the word at PC, least significant byte first, or the trap of its fetch |
| `Isa.Carries` | MIPSVirtualMachine/MIPSVirtualMachine/mipssim.cpp:697-706 | What a step makes of that: the pending load lands over what the instruction wrote, R0 stays zero, the program counters move on, memory and page table are the instruction's |
| `Isa.Goes` | MIPSVirtualMachine/MIPSVirtualMachine/mipssim.cpp:199-267 | After any instruction that does not trap, the next program counter but one, in numbers |
| `Cpu.LoadIsDelayed` | MIPSVirtualMachine/MIPSVirtualMachine/mipssim.cpp:718-724 | The instruction after a load sees the old value, the one after that the loaded one |
| `Cpu.StepInFrames` | MIPSVirtualMachine/MIPSVirtualMachine/mipssim.cpp:127-707 | One instruction writes only to frames of its own page table and changes only use and dirty bits of that |
| `Cpu.RunIsolated` | MIPSVirtualMachine/MIPSVirtualMachine/mipssim.cpp:59-78 | However long a process runs and however often it traps, with any handler that itself keeps to the process's frames: R0 is zero and LoadReg in range at every boundary, its pages stay where they are, and a process with no frame in common sees its memory unchanged |
| `Multiply.MultiplyBits` | MIPSVirtualMachine/MIPSVirtualMachine/mipssim.cpp:801-820 | The bit-serial loop gives the exact product of two unsigned words in spite of the arithmetic shift and the early end |
| `Multiply.Mult` | MIPSVirtualMachine/MIPSVirtualMachine/mipssim.cpp:778-834 | Hi:Lo is the exact 64-bit product for all signed and all unsigned operands (MULT and MULTU, Kane, MIPS RISC Architecture, Appendix A) |
| `SortedLists.InsertedSorted` | NachOsDll/NachOsDll/list.cpp:306-336 | A sorted list stays sorted, with equal items in the order they came |
| `SortedLists.InsertedSomewhere` | NachOsDll/NachOsDll/list.cpp:306-336 | An item goes before the first that is greater and behind all up to there that are not, with nothing else moved |
| `SortedLists.SortedList.Insert` | NachOsDll/NachOsDll/list.cpp:306-336 | The linked nodes hold the old items with the new one before the first greater one; unchanged if it was there already |
| `SortedLists.SortedList.RemoveFront` | NachOsDll/NachOsDll/list.cpp:189-208 | The first item comes off |
| `SortedLists.SortedList.Remove` | NachOsDll/NachOsDll/list.cpp:217-248 | Exactly that item goes, first, middle or last |
| `SortedLists.SortedList.IsInList` | NachOsDll/NachOsDll/list.cpp:257-268 | Whether the item is in the list |
| `EventQueue.DuesExactly` | MIPSVirtualMachine/MIPSVirtualMachine/interrupt.cpp:348-361 | The due interrupts at the front of a sorted queue are all that are due |
| `EventQueue.FiresDues` | MIPSVirtualMachine/MIPSVirtualMachine/interrupt.cpp:348-361 | What the loop fires is exactly what was due when it began, in order, whatever the handlers schedule meanwhile |
| `EventQueue.FiresExactly` | MIPSVirtualMachine/MIPSVirtualMachine/interrupt.cpp:309-362 | Each interrupt that was pending and due has its handler called once, and no other has |
| `EventQueue.FrontGives` | MIPSVirtualMachine/MIPSVirtualMachine/interrupt.cpp:348-361 | A firing schedules, each for its time, just what the handler of that very interrupt asks for in its call |
| `EventQueue.LoopAsks` | MIPSVirtualMachine/MIPSVirtualMachine/interrupt.cpp:348-361 | After the loop a context switch is wanted exactly if it was before or a handler called in the loop asked for one |
| `EventQueue.OnceOnly` | MIPSVirtualMachine/MIPSVirtualMachine/interrupt.cpp:283-361 | Of all that was ever scheduled each is pending once or was fired once, and not both |
| `EventQueue.AllKeep` | MIPSVirtualMachine/MIPSVirtualMachine/interrupt.cpp:348-361 | The loop keeps the queue sorted, the log in order and in time, and the ledger of what was scheduled, fired and is pending; afterwards nothing is due |
| `EventQueue.Does` | MIPSVirtualMachine/MIPSVirtualMachine/interrupt.cpp:77-298 | What each command of a run calls, whenever the machine has not halted and the interrupts are as it needs them |
| `EventQueue.RunAccounts` | MIPSVirtualMachine/MIPSVirtualMachine/interrupt.cpp:77-362 | In every run of commands and handlers each interrupt ever scheduled is pending and later than now, or had its handler called exactly once, at its time or at most nine ticks after, all in the order of time |
| `EventQueue.RunInvents` | MIPSVirtualMachine/MIPSVirtualMachine/interrupt.cpp:77-362 | And nothing is pending or was fired that was not scheduled |
| `EventQueue.RunClocks` | MIPSVirtualMachine/MIPSVirtualMachine/interrupt.cpp:161-175 | In every run total time is the sum of idle, system and user time, and the last two are ten and one times the ticks that passed in that mode |
| `EventQueue.RunServes` | MIPSVirtualMachine/MIPSVirtualMachine/interrupt.cpp:183-202 | In every run a context switch is wanted exactly if a handler called since the last tick has asked for one: the next tick serves every request |
| `EventQueue.TickServes` | MIPSVirtualMachine/MIPSVirtualMachine/interrupt.cpp:161-191 | A tick ends in a context switch, in system mode, exactly if one was wanted or a handler it called wants one |
| `Interrupts.InsertedCounts` | MIPSVirtualMachine/MIPSVirtualMachine/interrupt.cpp:283-295 | A new interrupt is one more of its kind |
| `Interrupts.CountIs` | MIPSVirtualMachine/MIPSVirtualMachine/interrupt.cpp:283-361 | intCount has a count of its own for each of the six types |
| `Interrupts.Interrupt.Schedule` | MIPSVirtualMachine/MIPSVirtualMachine/interrupt.cpp:283-295 | The queue gains exactly the new interrupt, in its place, and its count grows by one |
| `Interrupts.Interrupt.CheckIfDue` | MIPSVirtualMachine/MIPSVirtualMachine/interrupt.cpp:309-362 | Fires exactly what is due, each once and in order, with the handlers of those interrupts and all that they schedule; the clock moves only if asked to and only to the first interrupt; TRUE exactly if something was due |
| `Interrupts.Interrupt.CallBack` | MIPSVirtualMachine/MIPSVirtualMachine/interrupt.cpp:353-353 | The handler of that interrupt is called: the call is recorded, and what it schedules is scheduled |
| `Interrupts.Interrupt.FireAll` | MIPSVirtualMachine/MIPSVirtualMachine/interrupt.cpp:348-361 | The firing loop ends although handlers schedule again, and fires exactly what was due; its ASSERT holds |
| `Interrupts.Interrupt.OneTick` | MIPSVirtualMachine/MIPSVirtualMachine/interrupt.cpp:161-191 | Time advances by the tick of the mode, on that mode's clock; exactly what is then due is fired, once; a requested switch is made in system mode |
| `Interrupts.Interrupt.SetLevel` | MIPSVirtualMachine/MIPSVirtualMachine/interrupt.cpp:138-150 | The level is set, and a tick passes exactly when interrupts are turned on again |
| `Interrupts.Interrupt.Idle` | MIPSVirtualMachine/MIPSVirtualMachine/interrupt.cpp:222-249 | Halts exactly if nothing is pending; otherwise time moves to the first interrupt and exactly what is due then is fired |
| `Interrupts.Obey` | MIPSVirtualMachine/MIPSVirtualMachine/interrupt.cpp:138-295 | What each command leaves of level, mode, clocks, queue and log is what the run on values says |
| `Interrupts.Run` | MIPSVirtualMachine/MIPSVirtualMachine/interrupt.cpp:77-362 | The object under any commands until the machine halts, and any handlers that schedule for later, is in the state of the run on values, so that RunAccounts and RunClocks hold of it; its counts are those of the pending interrupts |
| `DiskTiming.BufferedIff` | MIPSVirtualMachine/MIPSVirtualMachine/disk.cpp:255-263 | The test for the track buffer says exactly that the sector has passed since the buffer was started |
| `DiskTiming.FirstPass` | MIPSVirtualMachine/MIPSVirtualMachine/disk.cpp:265-268 | Otherwise the wait ends at the first boundary at which the sector has passed in full after the seek |
| `DiskTiming.Disk.TimeToSeek` | MIPSVirtualMachine/MIPSVirtualMachine/disk.cpp:194-209 | Seek time by tracks, and the rest to the next boundary |
| `DiskTiming.Disk.ComputeLatency` | MIPSVirtualMachine/MIPSVirtualMachine/disk.cpp:248-269 | Between 500 and 31999 ticks; through the buffer exactly for a read on this track of a sector that has passed; otherwise completion is the first possible boundary |
| `DiskTiming.AwaitedMeans` | MIPSVirtualMachine/MIPSVirtualMachine/disk.cpp:194-269 | The latency in numbers: 500 a track, then the first turn of the sector that begins once the head is there; 500 alone for a read on this track of a sector that has passed since the buffer was started |
| `DiskTiming.Disk.UpdateLast` | MIPSVirtualMachine/MIPSVirtualMachine/disk.cpp:278-288 | The head's sector, and the start of the track buffer after a seek |
| `DiskTiming.Disk.Request` | MIPSVirtualMachine/MIPSVirtualMachine/disk.cpp:121-168 | A request on an idle disk makes it active until ComputeLatency's moment and schedules its one interrupt for exactly then |
| `DiskProtocol.StepKeeps` | NachOsDll/NachOsDll/synchdisk.cpp:62-92 | Every step of every thread keeps the protocol's invariant and no ASSERT fires |
| `DiskProtocol.SystemRuns` | NachOsDll/NachOsDll/synchdisk.cpp:62-102 | The invariant holds in every run of threads, disk and interrupts |
| `DiskProtocol.SystemPromises` | MIPSVirtualMachine/MIPSVirtualMachine/disk.cpp:121-180 | In every run the disk is active exactly while one interrupt is pending, and each read returns what the last completed write to its sector left |
| `DiskProtocol.OwnInterrupt` | NachOsDll/NachOsDll/synchdisk.cpp:62-92 | ReadSector and WriteSector return exactly when the interrupt of their own request has come |
| `DiskProtocol.Advances` | NachOsDll/NachOsDll/synchdisk.cpp:62-102 | Every step of a thread that can take one brings it nearer to its end, or to sleep, and every interrupt leaves one fewer to come |
| `DiskProtocol.NeverStuck` | NachOsDll/NachOsDll/synchdisk.cpp:62-102 | No deadlock: when nobody can take a step and no interrupt is to come, no thread is in ReadSector or WriteSector |
| `DiskProtocol.LogIsReturned` | NachOsDll/NachOsDll/synchdisk.cpp:62-92 | The log of the promises is just the operations that got past their wait, in that order, with what they return |
| `DiskProtocol.ServesCall` | NachOsDll/NachOsDll/synchdisk.cpp:62-92 | And each of those is of the request that its thread was last called with |
| `Network.WireHeaderRoundTrip` | MIPSVirtualMachine/MIPSVirtualMachine/network.h:37-44 | A packet or mail header read from its bytes is the one written |
| `Network.WireLayout` | MIPSVirtualMachine/MIPSVirtualMachine/network.h:37-44 | Where its three fields lie, least significant byte first |
| `Network.CarriedIntact` | MIPSVirtualMachine/MIPSVirtualMachine/network.cpp:204-207 | Header and payload are read off a 64-byte packet as they were sent, whatever its padding |
| `Network.NetworkOutput.Send` | MIPSVirtualMachine/MIPSVirtualMachine/network.cpp:182-223 | One send interrupt is scheduled 100 ticks on, lost or not; an unlost packet is the last in the pipe and carries header and data |
| `Network.NetworkInput.constructor` | MIPSVirtualMachine/MIPSVirtualMachine/network.cpp:24-48 | The inbox is free and the first poll is scheduled |
| `Network.NetworkInput.CallBack` | MIPSVirtualMachine/MIPSVirtualMachine/network.cpp:75-108 | Schedules its next poll; takes the first packet of the pipe exactly if the inbox is free and tells so; otherwise leaves both alone, so that a packet is never overwritten |
| `Network.NetworkInput.Receive` | MIPSVirtualMachine/MIPSVirtualMachine/network.cpp:115-126 | Hands over header and data and frees the inbox; length 0 if there was nothing |
| `PostOffices.SentIsRead` | MIPSVirtualMachine/MIPSVirtualMachine/post.cpp:306-325 | The letter on the wire is the letter sent |
| `PostOffices.CopiedLetter` | MIPSVirtualMachine/MIPSVirtualMachine/network.cpp:95-99 | A letter survives the copies through inbox and buffer |
| `PostOffices.Concatenate` | MIPSVirtualMachine/MIPSVirtualMachine/post.cpp:306-325 | The packet that Send hands to the network spells the letter: mail header, least significant bytes first, then the data |
| `PostOffices.OneAtATime` | MIPSVirtualMachine/MIPSVirtualMachine/post.cpp:328-333 | When a packet is handed over, the one before has been acknowledged, and NetworkOutput's ASSERT holds |
| `PostOffices.StepKeeps` | MIPSVirtualMachine/MIPSVirtualMachine/post.cpp:195-221 | Every step of senders, interrupts, worker and receivers keeps the invariant |
| `PostOffices.RunDelivers` | MIPSVirtualMachine/MIPSVirtualMachine/post.cpp:195-350 | In every run and for every box: taken, queued, in the worker's hands and in the inbox are, end to end, the letters read for it; what was taken is a subsequence of what was posted to it |
| `PostOffices.RunLosesNothing` | MIPSVirtualMachine/MIPSVirtualMachine/post.cpp:195-350 | Once pipe, inbox and worker are empty, every letter the wire did not lose is in its box or was taken from it |
| `PostOffices.RunQuiet` | MIPSVirtualMachine/MIPSVirtualMachine/post.cpp:195-221 | And they are empty, unless the host has halted, as soon as interrupts and worker have nothing left to do; then every letter that was not lost has been taken, or can be |
| `PostOffices.HostAdvances` | MIPSVirtualMachine/MIPSVirtualMachine/post.cpp:195-250 | Each event at the host moves just one letter on: read, fetched, sorted into its box, or taken from the front of it |
| `PostOffices.HandAdvances` | MIPSVirtualMachine/MIPSVirtualMachine/network.cpp:182-223 | A letter for the host that is handed to the network is in the pipe unless it is lost |
| `PostOffices.SendReturns` | MIPSVirtualMachine/MIPSVirtualMachine/post.cpp:306-350 | A whole Send with its interrupt leaves the office as it was, and cannot get past its wait without that interrupt |
| `PostOffices.SendersGetOn` | MIPSVirtualMachine/MIPSVirtualMachine/post.cpp:328-350 | In no run is a sender ever stuck: with no step and no send interrupt possible, no thread is in Send |
| `PostOffices.RunProtocol` | MIPSVirtualMachine/MIPSVirtualMachine/network.cpp:75-126 | In every run NetworkInput's ASSERT holds, Receive always finds a packet, and each machine has at most one send interrupt pending |
| `PostOffices.SortHalts` | MIPSVirtualMachine/MIPSVirtualMachine/post.cpp:214-219 | The worker's ASSERT on the box fails exactly for a letter to a box that the host does not have |
| `PostOffices.BadBoxHalts` | MIPSVirtualMachine/MIPSVirtualMachine/post.cpp:316-317 | Send lets such a letter through, and it then stops the receiving host |
| `HashTables.HashTable.constructor` | NachOsDll/NachOsDll/hash.cpp:31-37 | The table starts as the empty map |
| `HashTables.HashTable.Insert` | NachOsDll/NachOsDll/hash.cpp:113-126 | The map gains exactly the item under its key, whether or not the table is resized, and the load stays within three items a bucket |
| `HashTables.HashTable.ReHash` | NachOsDll/NachOsDll/hash.cpp:138-154 | Four times the buckets, every item in the one its key hashes to now, the map unchanged |
| `HashTables.HashTable.Find` | NachOsDll/NachOsDll/hash.cpp:195-199 | The item under the key, or none exactly if the map has none |
| `HashTables.HashTable.Remove` | NachOsDll/NachOsDll/hash.cpp:211-223 | The map loses exactly that key and the item is returned |
| `HashTables.HashTable.EachOnce` | NachOsDll/NachOsDll/hash.cpp:270-287 | The buckets end to end list every item of the map once and nothing else, and numItems counts them |
| `HashTables.HashIterator.constructor` | NachOsDll/NachOsDll/hash.cpp:332-340 | The iterator has all items before it |
| `HashTables.HashIterator.IsDone` | NachOsDll/NachOsDll/hash.h:113-113 | Done exactly if nothing is left to visit |
| `HashTables.HashIterator.Next` | NachOsDll/NachOsDll/hash.cpp:349-360 | Exactly the item it stood on is behind it, empty buckets skipped, so that a walk visits each item exactly once |
| `HashTables.HashIterator.Item` | NachOsDll/NachOsDll/hash.h:115-115 | The item the walk stands on, the first of those left to visit |

## Left out

- Start-up, command line, console, alarm, the dispatch of system calls and exceptions, printing, debugging output and
  self-tests: no state of their own that these properties need.
- Context switching, assembly stubs, the creation and deletion of C++ objects and the wiring of the two DLLs: a switch
  is an abstract step, objects are never freed.
- scheduler.cpp: the ready queue. In the state machines any ready thread may run next, which covers its FIFO order.
- synchbitmap.cpp: its lock. Each operation on the frame map is atomic here; `FrameOwnership.WorldRuns` lets
  constructions and destructions take turns between any two of them.
- AddrSpaceRuns.Run: takes the construction of an address space as one step, and the executable files stay as they are.
- The TLB branch of translation and the SIM_FIX branches of LWL, LWR, SWL and SWR: not compiled.
- Byte swapping of NOFF headers and the stub file system; the header reaches the loader decoded, with page-aligned
  segments that do not share pages, as the loader assumes.
- Crash consistency, concurrent use of the file system (the source disclaims it), and handles used after their file
  was removed.
- The table of open files of an address space, and saving and restoring its state at switches.
- OpenFile.OpenNaFile.ReadAt: a request that is not turned down at once needs a position of 0 or more, and a sum of
  position and numBytes that is an int; the source checks neither, and would overflow.
- OpenFile.OpenNaFile.WriteAt: likewise.
- OpenFile.OpenNaFile.Read: likewise, at the seek position.
- OpenFile.OpenNaFile.Write: likewise.
- FileHeaders.FileHeader.Allocate: a size of 0 or more, and of 30 * 128 at most if there are sectors for it; the source
  writes past its array otherwise.
- FileSystems.FileSystem.Create: the same, if all else that the file needs is there.
- FileSystemRuns.Run: callers owe it, step by step, what ReadAt, WriteAt and Create ask above; handles on a removed
  file are dropped.
- FileSystemRuns.Users.Step: likewise, for one step; so `FileSystemRuns.WriteLive`, `FileSystemRuns.ReadLive` and the
  methods of `FileSystemRuns.Users`.
- SectorDisk.SynchDisk.ReadSector: the lock and the wait for the interrupt are in `DiskProtocol`.
- SectorDisk.SynchDisk.WriteSector: likewise.
- FileHeaders.FileHeader.FetchFrom: reads a sector in the layout of the fields; a header fills its sector exactly.
- Directories.Directory.WriteBack: the padding bytes of an entry are written as zero; in the source they are whatever was
  in memory.
- PersistentBitmaps.PersistentBitmap.FetchFrom: the bitmap it inherits from is a component here.
- AddrSpaces.AddrSpace.constructor: page table entries are values in an array instead of objects behind pointers, a
  null table is an empty array, and the file is read at positions that are ints.
- AddrSpaces.AddrSpace.KernelToUserBuf: unless there is nothing to copy, takes the address as nonnegative, as the
  ASSERT of `WriteMem` does; and either
  the address space ends below the largest int, as any does that is in use, or the copy does.
- AddrSpaces.AddrSpace.UserBufToKernel: likewise.
- AddrSpaces.AddrSpace.UserStringToKernel: likewise.
- ProcTables.ProcTable.GetProcStatus: ends where the thread goes to sleep; `Resume` is the rest. There is one thread
  to a process, and a condition's queue is the set of parents on it, at most one.
- Semaphores.Semaphore.P: one turn of its loop; a thread that was woken calls it again.
- Locks.Lock.Acquire: likewise.
- Monitors.MonitorRuns: the threads' own semaphores in Wait are kept by thread name, not as objects.
- SynchLists.SynchList.Step: likewise, and it takes the steps of lock and condition on their fields, since a thread may
  stop within them; `Locks.Lock` and `SynchLists.Condition` have the same steps as methods of their own objects.
- SortedLists.SortedList.Insert: items are values, compared by the list's function and by equality.
- Interrupts.Interrupt.CheckIfDue: handlers are any function of the device called and of how many calls came before;
  the delayed load that the machine lands before a handler runs is `Machines.Machine.DelayedLoad`, and the
  clock is unbounded.
- Interrupts.Interrupt.OneTick: ends where the thread gives up the processor; the mode it comes back to is a command.
- DiskTiming.Disk.Request: the transfer of the sector is in `DiskProtocol`; the clock is unbounded.
- DiskProtocol.SystemPromises: the disk interrupt may come at any time while it is pending; when it does come is
  `DiskTiming.Disk.Request` and `EventQueue.RunAccounts`. Likewise the send interrupts and polls of
  `PostOffices.RunDelivers`.
- DiskProtocol.SystemRuns: threads only ask for sectors that exist, as Disk's ASSERT demands.
- Machines.Machine.RaiseException: ends at the call of the kernel's handler; the two changes of mode around it are
  commands of `Interrupts.Run`.
- Cpu.OneInstruction: needs what the simulator itself is defined on: no division of the most negative int by -1, and
  LWL, LWR, SWL and SWR on whole words only, as their ASSERT demands.
- Cpu.MultiplyDivide: likewise, of the division.
- Cpu.RunIsolated: the kernel's handler is any that keeps R0 and LoadReg right and stays in the process's frames.
- Words.BitwiseBit: masks and fixed shifts in the source appear as division and remainder.
- Network.NetworkOutput.Send: the dice are a parameter; `sendBusy` is never set in the source, and exclusion is
  proved of the post office's lock and semaphore instead.
- PostOffices.RunDelivers: the lock and the mailbox list are atomic here; that they can be is what `Locks` and
  `SynchLists` prove. Letters to other hosts are sent, but their arrival is not followed.
- HashTables.HashTable.ReHash: the calls of SanityCheck, which only reads.
- HashTables.HashTable.Insert: keys are compared by equality, and a key is not in the table yet, as the ASSERT says.
- HashTables.HashIterator.Next: the table does not change during a walk.
- Statistics other than ticks and interrupt counts.
