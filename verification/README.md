# A verified model of the SRAT core

SRAT administers Samba for Home Assistant: a Go backend, a React frontend and a Python
integration. This project models the parts of it that hold state, walk graphs or promise
inverse conversions, and proves what they keep. `dafny verify dfyconfig.toml` checks it all.

| files | subject |
|---|---|
| `EventPrinter`, `EventPrinterLaws`, `EventPrinterReference` | printing a possibly cyclic graph of Go values without an address |
| `Disks`, `DiskIndex`, `DiskLaws` | the disk index: disk, partition and mount path, three levels of maps reached through pointers |
| `Snapshot`, `SnapshotLaws`, `SnapshotReference` | turning the cyclic graph of the index into finite trees before it is broadcast |
| `MountDataFlags`, `MountFlags` | the two mount-flag lists, their texts and the bit mask |
| `DirtyData` | the timed debounce of changes and the health loop that polls it |
| `SettingsTable` | settings as typed property rows and back, in memory and through JSON |
| `ConfigWatcher` | concurrent change detectors with hash deduplication and a fast path by modification time |
| `WireFrames` | text frames from the Go sender to the Python parser, and its listeners |
| `RepairProxy` | repair commands validated in Go and carried out in Python |
| `MountResolver` | mount path to device, twice, and devices to their by-id names |
| `CommandOutput`, `CommandRuns` | merging and reducing command output in the frontend |
| `Text`, `Wrappers` | string order, sorting, splitting, decimal numbers; the option type |

Code that changes things step by step is written as methods over classes with the same fields,
each proved equal to a specification function or relation; the laws are then proved about
that specification. Memory is explicit (a map from references to records) where the source
shares records through pointers, so that cycles and aliasing can be expressed. Where the
source goes through a Go map or sorts unstably, the order is left open, and every result holds
for all orders.

## What the code does otherwise than it says

- `AddOrUpdate` (backend/src/dto/disk_map.go:7-18) says it makes the map when it is nil; that
  code is commented out, and a nil map panics for exactly the disks that have an id
  (`DiskIndex.DiskMap.AddOrUpdate`). It also stores any disk, whatever its partition maps are
  keyed by: `DiskLaws.AddDiskExactly` says which disks keep the index well formed, and
  `DiskLaws.MiskeyedDiskBreaksInv` gives one that does not.
- `RemoveMountPointShare("")` never removes anything, so attaching a share without a name
  cannot be undone by name (`DiskLaws.RemoveUndoesAddExactly`).
- `startTimer` says 15 seconds (backend/src/service/dirty_data_service.go:91) and waits 5.
- The watcher says that onChanged is invoked at most once per unique hash
  (backend/src/service/addon_config_watcher_service.go:39). That holds exactly for the runs in
  which no hash is delivered again after another one (`ConfigWatcher.NotifiedOnceExactly`), and
  `ConfigWatcher.ReturningHashNotifiedAgain` gives a run in which it does not.
- The ticker's fast path loses a change when a hash is delivered late, when hashing fails
  once, when content changes without its modification time, and when an old modification time
  returns (`ConfigWatcher.FastPathExactly` and the four lemmas with runs).
- An empty `MountFlags` list prints as "" and reads back as one flag without a name
  (`MountFlags.ScanOfStringExactly`).
- A list read from JSON is appended to what the settings already hold
  (`SettingsTable.ListThroughJson`, `SettingsTable.RoundTripThroughJson`); an invalid enum other than -1 comes back as -1
  (`SettingsTable.EnumRoundTripExactly`).
- The Python proxy answers with `event` and `data`, the Go backend routes by a flat `type`: no
  message of the proxy is ever applied (`RepairProxy.AnswersAreNeverAccepted`).
- A listener that unregisters itself while an event is dispatched makes the next listener miss
  the event (`WireFrames.EveryListenerCalledExactly`).
- `deviceToDeviceId` also names a mount source that is itself a by-id path; the way back then
  ends at the device behind it (`MountResolver.LinkPathNotLedBack`). It ends at the source again
  exactly for the devices some link leads to (`MountResolver.DeviceRoundTripExactly`).
- The merge key of output lines is not injective for all channel names
  (`CommandOutput.KeysSeparatedExactly`); it is for stdout and stderr, the two there are.

## Model

| member | source | states |
|---|---|---|
| EventPrinter.Printer.WriteValue | backend/src/events/event_bus.go:39-194 | terminates on every heap, cyclic or not, within the depth bound; appends exactly what the printing function says and leaves `seen` as it found it |
| EventPrinter.Printer.WriteStruct | backend/src/events/event_bus.go:91-111 | exported fields only, comma-separated from the second exported one on; `seen` as before |
| EventPrinter.Printer.WriteElements | backend/src/events/event_bus.go:113-124 | elements of a slice or array in order; `seen` as before |
| EventPrinter.Printer.WriteMap | backend/src/events/event_bus.go:126-143 | entries in the order of their keys, in whatever order the map yields them; `seen` as before |
| EventPrinter.Printer.SortedMapKeys | backend/src/events/event_bus.go:129-133 | any order of the keys of a map is sorted to the same list |
| EventPrinter.FormatWithoutPointerAddresses | backend/src/events/event_bus.go:31-37 | the text is the one of the printing function from an empty `seen`, depth bound 5 |
| EventPrinterLaws.OutputIgnoresAddresses | backend/src/events/event_bus.go:27-37 | moving every object to another address, injectively, leaves the text as it is: no address leaks |
| EventPrinterLaws.PrintMoved | backend/src/events/event_bus.go:39-194 | the same at every depth and with any pointers on the path |
| EventPrinterLaws.CycleMarkExactly | backend/src/events/event_bus.go:77-89 | `<cycle>` is printed if and only if some path within the depth bound meets a pointer twice; sharing alone never prints it |
| EventPrinterLaws.WalkMeansMark | backend/src/events/event_bus.go:77-89 | a path that returns to a pointer on it or in `seen` forces the mark |
| EventPrinterLaws.MarkMeansWalk | backend/src/events/event_bus.go:77-89 | from every printed mark such a path can be recovered |
| EventPrinterLaws.UnmarkedExactly | backend/src/events/event_bus.go:27-194 | the output has no mark if and only if every path ends within the bound, and then it equals a naive printer without `seen` and depth limit |
| EventPrinterLaws.PrintIsNaive | backend/src/events/event_bus.go:39-194 | agreement with the naive printer below any path of pointers that the value cannot reach |
| EventPrinterLaws.NaiveStable | backend/src/events/event_bus.go:39-194 | the recursion bound of the naive printer does not show in its output |
| EventPrinterReference.ChildrenAreParts | backend/src/events/event_bus.go:49-142 | the printer enters exactly what the heap holds for a value: the hook's answer, the target of a pointer, exported fields, every element of an array or slice, key and value of every map entry |
| EventPrinterReference.PrintExactly | backend/src/events/event_bus.go:39-180 | struct, array, slice and map print as type, brace, the texts of those parts joined by a comma, brace; every other kind as its own text; hook, cycle and depth come first |
| EventPrinterReference.DepthExactly | backend/src/events/event_bus.go:31-47 | a scalar in k arrays prints without a mark if and only if k is at most five |
| EventPrinterReference.QuoteReadBack | backend/src/events/event_bus.go:145-147 | a quoted string is read back as the string by the rules of Go string literals, whatever is printable |
| EventPrinterReference.PlainTextStays | backend/src/events/event_bus.go:145-147 | printable ASCII without quote and backslash stands between the quotes as it is |
| Text.SortedUnique | backend/src/events/event_bus.go:129-133 | with distinct keys there is one sorted arrangement only |
| Text.LessEqExactly | backend/src/events/event_bus.go:131-133 | the order sorted by is that of the first difference, a prefix coming first |
| Text.DecimalExactly | backend/src/events/event_bus.go:157-162 | a printed number stands for the number, without zeros in front, after a sign if negative |
| DiskIndex.DiskMap.AddOrUpdate | backend/src/dto/disk_map.go:9-18 | a disk without an id is refused and nothing changes, nil map or not; else it is stored under its id, or the call panics exactly when the map is nil |
| DiskIndex.DiskMap.Remove | backend/src/dto/disk_map.go:22-31 | true exactly when the id is not empty and was there, and then it is gone and nothing else; the index may be used on |
| DiskIndex.DiskMap.Get | backend/src/dto/disk_map.go:34-40 | the stored disk, none for an empty id |
| DiskIndex.DiskMap.AddOrUpdateMountPoint | backend/src/dto/disk_map.go:44-89 | the new heap and index, and which of the two errors each bad input gives |
| DiskIndex.DiskMap.StoreMountPoint | backend/src/dto/disk_map.go:70-88 | making the mount map, completing the mount point and the three stores together give the specified state |
| DiskIndex.DiskMap.Complete | backend/src/dto/disk_map.go:75-83 | device id and partition copy are filled in only where missing |
| DiskIndex.DiskMap.RemoveMountPoint | backend/src/dto/disk_map.go:93-112 | true exactly when the slot was filled, and then only it is emptied; the index may be used on |
| DiskIndex.DiskMap.AddPartition | backend/src/dto/disk_map.go:116-145 | the partition is stored under its id with the owner's disk id, a missing table is made; errors exactly classified |
| DiskIndex.DiskMap.RemovePartition | backend/src/dto/disk_map.go:149-163 | true exactly when the partition was there, and then only it is gone; the index may be used on |
| DiskIndex.DiskMap.GetPartition | backend/src/dto/disk_map.go:167-177 | what is stored at the two keys, none for an empty one |
| DiskIndex.DiskMap.GetMountPoint | backend/src/dto/disk_map.go:181-193 | what is stored at the three keys, none for an empty one |
| DiskIndex.DiskMap.GetMountPointByPath | backend/src/dto/disk_map.go:197-215 | succeeds if and only if some partition holds the path, in any map order, with an entry that direct lookup finds |
| DiskIndex.DiskMap.GetPartitionByID | backend/src/dto/disk_map.go:415-428 | succeeds if and only if some disk holds the partition, and names that disk |
| DiskIndex.DiskMap.GetAllMountPoints | backend/src/dto/disk_map.go:217-236 | every filled slot exactly once and nothing else |
| DiskIndex.DiskMap.AddMountPointShare | backend/src/dto/disk_map.go:242-320 | succeeds exactly when a target slot exists; sets the share there, changes nothing else and returns its disk; InvalidParameter for exactly the shares that name no place |
| DiskIndex.DiskMap.FindPath | backend/src/dto/disk_map.go:270-294 | the search by path finds a filled slot exactly when there is one |
| DiskIndex.DiskMap.RemoveMountPointShare | backend/src/dto/disk_map.go:325-349 | true exactly when some mount point carries the name; one such mount point loses its share, nothing else changes and the index may be used on |
| DiskIndex.DiskMap.CarrierIn | backend/src/dto/disk_map.go:337-345 | finds a carrier in a partition exactly when there is one |
| DiskIndex.DiskMap.AddHDIdleDevice | backend/src/dto/disk_map.go:353-369 | only that field of that disk changes; errors exactly classified |
| DiskIndex.DiskMap.AddSmartInfo | backend/src/dto/disk_map.go:373-389 | only that field of that disk changes; errors exactly classified |
| DiskLaws.StepKeepsInv | backend/src/dto/disk_map.go:9-389 | every operation keeps: disk key = Disk.Id, partition key = Partition.Id, DiskId = owner, mount key = Path, no dangling pointer, no shared map |
| DiskLaws.RunKeepsInv | backend/src/dto/disk_map.go:9-389 | the same over every run of operations, in any map order |
| DiskLaws.StepKeepsClosed | backend/src/dto/disk_map.go:9-389 | no operation makes a pointer of the index dangle, however its maps are keyed or shared; so each method leaves the index usable by the next |
| DiskLaws.StepChangesOnlyAddressed | backend/src/dto/disk_map.go:9-389 | no operation changes a mount point slot it does not address |
| DiskLaws.StepKeepsOtherPartitions | backend/src/dto/disk_map.go:9-389 | no operation changes a partition record it does not address; storing a mount point changes one only by giving it its first mount map |
| DiskLaws.StepKeepsOtherDisks | backend/src/dto/disk_map.go:9-389 | no operation changes a disk record it does not address; adding a partition changes one only by giving it its first partition map |
| DiskLaws.StepShows | backend/src/dto/disk_map.go:9-389 | what each operation that takes effect shows at the entry it addresses: the disk there or gone, the mount point, partition, share or device there or gone, in the slot the share's own partition names if it names one |
| DiskLaws.AddDiskExactly | backend/src/dto/disk_map.go:9-18 | AddOrUpdate keeps the invariant if and only if the disk's own maps fit |
| DiskLaws.MiskeyedDiskBreaksInv | backend/src/dto/disk_map.go:9-18 | a well formed index and a disk that AddOrUpdate stores and that leaves it not well formed |
| DiskLaws.AddPartitionExactly | backend/src/dto/disk_map.go:116-145 | AddPartition keeps the invariant if and only if the mount map it is given fits |
| DiskLaws.PartitionAddedExactly | backend/src/dto/disk_map.go:116-145 | what every key of every level shows after AddPartition |
| DiskLaws.PutSlotExactly | backend/src/dto/disk_map.go:315-318 | what every key of every level shows after a mount point is stored |
| DiskLaws.CutSlotExactly | backend/src/dto/disk_map.go:105-109 | what every key of every level shows after a mount point is removed |
| DiskLaws.MountPointPutBuildsCycle | backend/src/dto/disk_map.go:75-87 | the stored mount point differs from the given one only as documented, and refers to a copy of its partition that shares the mount map it is stored in |
| DiskLaws.AddShareFindsTheSlot | backend/src/dto/disk_map.go:242-320 | if each path occurs in one partition, a share without partition information ends in the slot that the right information names |
| DiskLaws.RemoveUndoesAddExactly | backend/src/dto/disk_map.go:242-349 | removing right after adding restores the whole state, whichever mount point is met first, if and only if the slot was empty and nobody carried the name (nameless shares: if and only if nothing had changed) |
| DiskLaws.RemoveShareTakesOne | backend/src/dto/disk_map.go:325-349 | a successful removal lowers the number of mount points carrying the name by exactly one |
| Snapshot.SnapshotMount | backend/src/dto/webevent_snapshot.go:79-89 | a copy without partition, with a share of its own or none, showing the same; the source heap is unchanged |
| Snapshot.SnapshotShare | backend/src/dto/webevent_snapshot.go:103-117 | a copy with a mount point of its own or none, showing the same |
| Snapshot.SnapshotMounts | backend/src/dto/webevent_snapshot.go:62-75 | a fresh mount map with the same paths, each entry copied, no two with a common share |
| Snapshot.CopyMounts | backend/src/dto/webevent_snapshot.go:63-66 | the loop copies every entry, in any order, each with a share of its own |
| Snapshot.SnapshotPartition | backend/src/dto/webevent_snapshot.go:60-77 | both mount maps are copied, show the same and reach nothing in common |
| Snapshot.SnapshotDisk | backend/src/dto/webevent_snapshot.go:44-58 | a fresh disk with a fresh partition map showing the same, each partition reaching records of its own; nil stays nil |
| Snapshot.CopyTable | backend/src/dto/webevent_snapshot.go:51-54 | the loop copies every partition, in any order, no two reaching a common record or map |
| SnapshotLaws.SanitizeWebEventData | backend/src/dto/webevent_snapshot.go:5-30 | for every payload type a fresh tree of at most 6, 2 or 2 levels, nothing reached twice, that shows every disk id, partition key, mount path and share the payload shows; the source is only added to and shows what it did |
| SnapshotLaws.SnapshotDiskSlice | backend/src/dto/webevent_snapshot.go:32-42 | disk by disk, in order, nil entries kept; no two disks reach a common record or map |
| SnapshotLaws.SnapshotShareSlice | backend/src/dto/webevent_snapshot.go:91-101 | share by share, in order; no two shares reach a common mount point |
| SnapshotLaws.SnapshotShareTarget | backend/src/dto/webevent_snapshot.go:13-18 | a share pointer gets a new share with the copy |
| SnapshotLaws.SnapshotMountTarget | backend/src/dto/webevent_snapshot.go:21-26 | a mount point pointer gets a new mount point with the copy |
| SnapshotLaws.SourceStays | backend/src/dto/webevent_snapshot.go:5-117 | whatever has only been added to the heap, a payload shows the same and may be sanitized as before |
| SnapshotLaws.SnapshotIsSound | backend/src/dto/webevent_snapshot.go:5-117 | nothing a snapshot reaches dangles, so the code may be run on its own output |
| SnapshotReference.SnapshotReproduces | backend/src/dto/webevent_snapshot.go:5-117 | record by record and field by field: everything but the ways back is repeated, for every key of every map, and the ways back are cut |
| SnapshotLaws.SanitizeTwice | backend/src/dto/webevent_snapshot.go:5-30 | two calls, the second on the result of the first, show the same as one |
| SnapshotLaws.DiskCopyEnds | backend/src/dto/webevent_snapshot.go:44-89 | every path in the copy of a disk ends within six places |
| SnapshotLaws.ShareCopyEnds | backend/src/dto/webevent_snapshot.go:103-117 | every path in the copy of a share ends within two places |
| SnapshotLaws.LiveGraphNeverEnds | backend/src/dto/disk_map.go:79-87 | after a mount point is stored without a partition no depth bounds the live graph |
| SnapshotLaws.SnapshotStartsApart | backend/src/dto/webevent_snapshot.go:5-117 | the index reaches no record or map of a new snapshot, and the snapshot reaches nothing but its own copies |
| SnapshotLaws.SnapshotKeepsInv | backend/src/dto/webevent_snapshot.go:5-117 | taking a snapshot keeps the index well formed |
| SnapshotLaws.StepStaysApart | backend/src/dto/disk_map.go:9-389 | no operation writes to a snapshot or makes the index reach it |
| SnapshotLaws.SnapshotSurvivesRun | backend/src/dto/webevent_snapshot.go:5-117 | from a well formed index, after every run of operations the snapshot of any payload still shows what the payload showed when it was taken |
| MountDataFlags.MounDataFlags.Scan | backend/src/dbom/mount_data_flag.go:18-45 | NULL reads as nothing, a text flag by flag, another type is an error and changes nothing |
| MountDataFlags.MounDataFlags.ScanText | backend/src/dbom/mount_data_flag.go:26-43 | the loop adds one flag per non-empty token, split at the first `=` |
| MountDataFlags.MounDataFlags.Add | backend/src/dbom/mount_data_flag.go:47-56 | replaces the first flag of that name or appends |
| MountDataFlags.AddedInPlace | backend/src/dbom/mount_data_flag.go:47-56 | the first flag of the name is replaced where it stands, every other flag keeps its place, a new name comes last |
| MountDataFlags.MounDataFlags.Value | backend/src/dbom/mount_data_flag.go:62-77 | the text of some arrangement sorted by name; the list itself is unchanged |
| MountDataFlags.ScannedKeepsLast | backend/src/dbom/mount_data_flag.go:18-56 | after scanning any text into an empty list names are distinct and exactly the last occurrences are kept |
| MountDataFlags.ValueIgnoresOrder | backend/src/dbom/mount_data_flag.go:58-77 | permutations of a list with distinct names have one and the same text |
| MountDataFlags.ScanOfValue | backend/src/dbom/mount_data_flag.go:18-77 | the text of a scanned list is read back as its sorted arrangement |
| MountDataFlags.TokenExactly | backend/src/dbom/mount_data_flag.go:27-42 | name=value is a flag with a value, name one without, the empty token none; and they are written so |
| MountDataFlags.TwoTokens | backend/src/dbom/mount_data_flag.go:26 | commas separate the tokens |
| MountDataFlags.TwoShown | backend/src/dbom/mount_data_flag.go:65-76 | two flags are written in ascending order of their names with a comma between, whichever comes first in the list |
| MountDataFlags.WrittenAscending | backend/src/dbom/mount_data_flag.go:65-76 | rw and noatime are written as noatime,rw |
| MountDataFlags.NormalFormIdempotent | backend/src/dbom/mount_data_flag.go:18-77 | N(N(s)) = N(s) for every text, N being Value after Scan |
| MountFlags.MountFlagList.Scan | backend/src/dto/filesystem_type.go:29-115 | what is appended for each type of value, in any map order; another type is an error and changes nothing |
| MountFlags.MountFlagList.ScanTokens | backend/src/dto/filesystem_type.go:58-95 | one flag per token, empty ones too, split at the first `=` |
| MountFlags.MountFlagList.ScanNumber | backend/src/dto/filesystem_type.go:31-57 | one flag per table name with a bit of the value, in some order of the table |
| MountFlags.MountFlagList.ScanPairs | backend/src/dto/filesystem_type.go:96-110 | one flag per pair and nothing else, in any order |
| MountFlags.MountFlagList.UintPtrValue | backend/src/dto/filesystem_type.go:122-133 | the OR of the masks, or an error exactly when a name is unknown |
| MountFlags.MountFlagList.StringValue | backend/src/dto/filesystem_type.go:135-145 | the tokens of the flags in order, joined by commas |
| MountFlags.StringOfScan | backend/src/dto/filesystem_type.go:77-145 | writing what was read gives back every text |
| MountFlags.ScanOfStringExactly | backend/src/dto/filesystem_type.go:77-145 | reading what was written gives back a list if and only if it is not empty and well formed |
| MountFlags.TokenExactly | backend/src/dto/filesystem_type.go:79-94 | name=value is a flag with a value, any other token a flag without; and they are written so |
| MountFlags.StringOfCons | backend/src/dto/filesystem_type.go:135-145 | commas stand between the flags |
| MountFlags.PairText | backend/src/dto/filesystem_type.go:96-110 | a pair is written as key or key=value |
| MountFlags.MaskOfScan | backend/src/dto/filesystem_type.go:31-133 | number to flags to mask keeps exactly the bits of the table, whatever the order of the table |
| MountFlags.MaskThroughFlags | backend/src/dto/filesystem_type.go:31-133 | the same for the two methods one after the other, and the second never fails |
| MountFlags.OrOfPresent | backend/src/dto/filesystem_type.go:122-133 | for any table of one-bit masks: the OR over the names found is the value masked by the OR over all |
| MountFlags.OrOfPermuted | backend/src/dto/filesystem_type.go:122-133 | the OR of a table does not depend on its order |
| MountFlags.TableOneBit | backend/src/dto/filesystem_mount_flags_linux.go:7-31 | every mask of the table has one bit |
| MountFlags.TableIsLinux | backend/src/dto/filesystem_mount_flags_linux.go:7-31 | the table names the mount flags of Linux, each with the number mount(2) gives it |
| DirtyData.DirtyDataService.constructor | backend/src/service/dirty_data_service.go:31-41 | starts with shares, users and settings dirty and no timer |
| DirtyData.DirtyDataService.StartTimer | backend/src/service/dirty_data_service.go:92-114 | stops a running timer, emits START and arms the timer for five seconds |
| DirtyData.DirtyDataService.TimerCallback | backend/src/service/dirty_data_service.go:105-113 | emits RESTART with the tracker as it was and disarms, also when a subscriber resets the service meanwhile |
| DirtyData.DirtyDataService.StopTimer | backend/src/service/dirty_data_service.go:117-122 | disarms and changes nothing else |
| DirtyData.DirtyDataService.SetDirtyShares | backend/src/service/dirty_data_service.go:124-127 | marks shares dirty and no other flag, emits START with the tracker and is due in five seconds |
| DirtyData.DirtyDataService.SetDirtyUsers | backend/src/service/dirty_data_service.go:129-132 | marks users dirty and no other flag, emits START with the tracker and is due in five seconds |
| DirtyData.DirtyDataService.SetDirtySettings | backend/src/service/dirty_data_service.go:134-137 | marks settings dirty and no other flag, emits START with the tracker and is due in five seconds |
| DirtyData.DirtyDataService.SetDirtyAppConfig | backend/src/service/dirty_data_service.go:139-141 | marks AppConfig dirty and changes nothing else; emits nothing |
| DirtyData.DirtyDataService.GetDirtyDataTracker | backend/src/service/dirty_data_service.go:148-153 | arms a timer exactly when managed data is dirty and none runs; returns the tracker unchanged |
| DirtyData.DirtyDataService.ResetDirtyStatus | backend/src/service/dirty_data_service.go:156-159 | all clean, no timer, nothing emitted |
| DirtyData.DirtyDataService.IsClean | backend/src/service/dirty_data_service.go:170-172 | true in exactly one state |
| DirtyData.ArmedMeansDirty | backend/src/service/dirty_data_service.go:92-159 | in every timed run an armed timer implies a dirty managed flag, and every RESTART carries one |
| DirtyData.NoEarlyRestart | backend/src/service/dirty_data_service.go:92-137 | in every timed run no RESTART within five seconds after a managed event or another RESTART |
| DirtyData.AppConfigAloneIsQuiet | backend/src/service/dirty_data_service.go:139-153 | without a managed event nothing is ever emitted from a managed-clean state |
| DirtyData.FlagsExactly | backend/src/service/dirty_data_service.go:124-159 | in every run each of the four flags is dirty if and only if its own event, or the dirty start, came after the last cleaning |
| DirtyData.EmittedExactly | backend/src/service/dirty_data_service.go:92-159 | in every run START is emitted exactly at managed events and at polls that find managed data dirty without a timer, RESTART exactly when the timer fires, each with the tracker of that moment |
| DirtyData.DueSoon | backend/src/service/dirty_data_service.go:92-114 | an armed timer is always due within five seconds of the last step |
| DirtyData.RestartComes | backend/src/service/dirty_data_service.go:148-153 | polled every I, a dirty managed flag leads to a RESTART within I plus five seconds unless cleaned or changed again |
| DirtyData.HealthRun | backend/src/api/health.go:171-237 | heavy work on exactly the ticks n with n mod 12 = 0, and one poll per interval |
| DirtyData.InterleavedPolled | backend/src/api/health.go:171-237 | the polls of the loop serve a run with any other actions between them, up to an interval after the last poll |
| DirtyData.LoopRestarts | backend/src/api/health.go:231 | RestartComes for the evenly spaced polls of the loop, between any other actions, the dirty state beginning at any moment between two ticks |
| SettingsTable.SettingsToProperties | backend/src/converter/dto_to_dbom_conv.go:27-81 | one row per field with its exposed value, in any field order; all other rows are kept |
| SettingsTable.PutRow | backend/src/converter/dto_to_dbom_conv.go:72-78 | makes a row where there is none, else changes its value only |
| SettingsTable.PropertiesToSettings | backend/src/converter/dto_to_dbom_conv.go:83-125 | succeeds exactly when every field loads, and then the result is determined, in any row order; fields without a row are kept |
| SettingsTable.StoredWellKeyed | backend/src/converter/dto_to_dbom_conv.go:72-78 | rows stay under their own keys |
| SettingsTable.StoredKeepsStamps | backend/src/converter/dto_to_dbom_conv.go:72-78 | rows that were there keep their time stamps and keys, new rows have none |
| SettingsTable.RoundTripExactly | backend/src/converter/dto_to_dbom_conv.go:27-125 | writing into any table and reading into any settings succeeds and is the identity if and only if enums are valid or -1 |
| SettingsTable.RoundTripThroughJson | backend/src/converter/dto_to_dbom_conv.go:27-125 | after JSON storage, reading into any settings succeeds and gives the same, nil and empty lists taken as equal, if and only if enums are valid or -1 and each list that is not nil meets an empty field |
| SettingsTable.FreshRoundTripThroughJson | backend/src/converter/dto_to_dbom_conv.go:27-125 | into fresh settings it is the identity if and only if enums are valid or -1 |
| SettingsTable.FieldRoundTrip | backend/src/converter/dto_to_dbom_conv.go:89-119 | one field, whatever the target field held |
| SettingsTable.FieldRoundTripThroughJson | backend/src/converter/dto_to_dbom_conv.go:89-119 | one field, whatever it held, after JSON turned a list into []any and a *bool into a bool or nil |
| SettingsTable.ListThroughJson | backend/src/converter/dto_to_dbom_conv.go:108-113 | a list from JSON is appended to the items the field holds |
| SettingsTable.LoadExactly | backend/src/converter/dto_to_dbom_conv.go:89-119 | which values a field takes, by the two types, and with which result; for the others a list or secret panics and the rest report a type mismatch |
| SettingsTable.ExposedExactly | backend/src/converter/dto_to_dbom_conv.go:39-70 | what a row holds for each type of field, and what its JSON column gives back |
| SettingsTable.SchemaExactly | backend/src/dto/settings.go:5-23 | the fields by type |
| SettingsTable.EnumRoundTripExactly | backend/src/dto/telemetrymodes_enums.go:85-125 | an enum survives its name exactly when it is valid or -1, else it becomes -1 |
| SettingsTable.EnumNumbersExactly | backend/src/dto/telemetrymodes_enums.go:177-193 | numbers count the names from one; fractions and all other numbers give the invalid enum |
| SettingsTable.TelemetryNamesExactly | backend/src/dto/settings.go:14 | the names in the order of the field's enum tag |
| SettingsTable.SmartNamesExactly | backend/src/dto/settings.go:20 | the names in the order of the field's enum tag |
| ConfigWatcher.AddonConfigWatcher.MaybeNotify | backend/src/service/addon_config_watcher_service.go:412-422 | notifies and remembers a hash unless it is the last one |
| ConfigWatcher.AddonConfigWatcher.TickerRound | backend/src/service/addon_config_watcher_service.go:344-363 | one round is stat, hash and report one after the other: skips exactly an unchanged non-zero modification time of a local file, remembers it before hashing, else hashes and reports |
| ConfigWatcher.RoundExactly | backend/src/service/addon_config_watcher_service.go:344-363 | what a round changes, for readable and unreadable modification times and hashes |
| ConfigWatcher.NotifiedWithoutRepeats | backend/src/service/addon_config_watcher_service.go:334-422 | for every interleaving of the steps of all three detectors the notified hashes are the observed ones in lock order without consecutive repeats |
| ConfigWatcher.NotifiedWereContents | backend/src/service/addon_config_watcher_service.go:334-422 | over any run every hash notified is that of a content the options had |
| ConfigWatcher.NotifiedOnceExactly | backend/src/service/addon_config_watcher_service.go:39 | over any run no hash is notified twice if and only if none reaches the lock again after another one, the hash known from the start apart |
| ConfigWatcher.OnceExactly | backend/src/service/addon_config_watcher_service.go:412-422 | the same for any sequence of hashes |
| ConfigWatcher.ReturningHashNotifiedAgain | backend/src/service/addon_config_watcher_service.go:39 | a run in which A, B, A are notified, for any A and B that differ from each other and A from the start |
| ConfigWatcher.FastPathExactly | backend/src/service/addon_config_watcher_service.go:345-355 | with stat, hashing and report as separate steps, the fast path notifies at every moment what hashing in every round would, if and only if each skipped round would have reported the hash notified last |
| ConfigWatcher.OrderlyRunsAgree | backend/src/service/addon_config_watcher_service.go:345-355 | it does in all runs with growing modification times, successful hashing, no late delivery and no change within a skipped round; changes between stat, hash and report of the others are allowed |
| ConfigWatcher.StaleDeliveryHidesChange | backend/src/service/addon_config_watcher_service.go:345-362 | a run with a late delivery in which it does not |
| ConfigWatcher.FailedHashHidesChange | backend/src/service/addon_config_watcher_service.go:345-362 | a run with one failed hashing in which it does not |
| ConfigWatcher.SameTimeHidesChange | backend/src/service/addon_config_watcher_service.go:345-362 | a run with a change under the same modification time in which it does not |
| ConfigWatcher.OldTimeHidesChange | backend/src/service/addon_config_watcher_service.go:345-362 | a run with a returning modification time in which it does not |
| WireFrames.ParseOfFrameExactly | custom_components/srat/websocket_client.py:316-346 | the Python parser recovers what the Go sender (backend/src/api/ws.go:131) framed, for every id, if and only if event name and payload are trimmed single lines |
| WireFrames.FrameText | backend/src/api/ws.go:131 | the three lines and the blank one as they are written |
| WireFrames.ThreeHeadsParsed | custom_components/srat/websocket_client.py:320-336 | every text whose first three lines begin id:, event: and data: is parsed, whatever follows |
| WireFrames.ParsedHasHeads | custom_components/srat/websocket_client.py:320-336 | and nothing else is |
| WireFrames.ParsedIsTrimmed | custom_components/srat/websocket_client.py:335-336 | whatever text is parsed, event and payload come out as trimmed single lines |
| WireFrames.StripIdExactly | custom_components/srat/websocket_client.py:320-336 | strip changes exactly the texts with a space at an end |
| WireFrames.StripExactly | custom_components/srat/websocket_client.py:320-336 | strip takes spaces from the ends and nothing else, and leaves none there |
| WireFrames.Client.ParseWsMessage | custom_components/srat/websocket_client.py:316-346 | malformed texts call nobody, change no registration and never index out of range; otherwise the listeners of the event are called with the payload and those that leave are gone |
| WireFrames.DispatchedOfFrame | custom_components/srat/websocket_client.py:335-344 | a frame dispatches its event with what JSON makes of its payload, an empty object for none, nothing for a syntax error |
| WireFrames.Client.Dispatch | custom_components/srat/websocket_client.py:341-344 | who is called while listeners leave the list being iterated and who stays registered; other events keep their listeners and no key keeps an empty list |
| WireFrames.LeftExactly | custom_components/srat/websocket_client.py:341-344 | the listeners gone after a dispatch are exactly those that were called and left |
| WireFrames.Client.RegisterListener | custom_components/srat/websocket_client.py:142-149 | appends to the event's list and changes no other |
| WireFrames.Client.RemoveListener | custom_components/srat/websocket_client.py:151-154 | removes the first occurrence and an emptied list; KeyError and ValueError exactly when it is missing |
| WireFrames.RemoveFirstExactly | custom_components/srat/websocket_client.py:152 | the others keep their order |
| WireFrames.EveryListenerCalledExactly | custom_components/srat/websocket_client.py:341-344 | each listener is called once in registration order if and only if none but the last unregisters itself meanwhile |
| RepairProxy.RepairProxy.HandleRepairCommand | custom_components/srat/repairs.py:59-138 | what any payload does to the issue registry and which message is sent, whichever of the calls made raise |
| RepairProxy.RepairProxy.Act | custom_components/srat/repairs.py:72-130 | the body of the try statement: which exception it ends in, and what it has done to registry and connection by then |
| RepairProxy.IssueFields | custom_components/srat/repairs.py:78-112 | fields of a wrong type are dropped and the others kept, the two flags are true for exactly the truthy values, the severity counts in any case and is a warning unless it says otherwise |
| RepairProxy.RepairProxy.SendLifecycle | custom_components/srat/websocket_client.py:348-379 | sends only while connected; a send that raises sends nothing |
| RepairProxy.AcceptedIsHandled | backend/src/dto/repair_proxy.go:31-57 | every command Validate accepts, once marshalled, asks for its effect in Python and for an answer without error under its command id |
| RepairProxy.ValidatedExactly | backend/src/dto/repair_proxy.go:31-57 | Validate accepts exactly the commands with a command id and known action and severity that Python answers without an error |
| RepairProxy.RefusedExactly | backend/src/dto/repair_proxy.go:31-57 | which error each missing requirement gives, the first one being reported; a delete needs the two ids only |
| RepairProxy.StatusExactly | custom_components/srat/repairs.py:114-127 | created, updated or deleted for upsert, reconcile or delete |
| RepairProxy.EffectExactly | custom_components/srat/repairs.py:59-138 | the registry changes exactly where the answer tells a change, and under the id it tells |
| RepairProxy.WireTexts | backend/src/dto/repair_proxy.go:17-29 | the keys and values that go over the wire |
| RepairProxy.FieldsExactly | custom_components/srat/websocket_client.py:365-374 | the fields of a lifecycle message, missing ones being left out |
| RepairProxy.PythonTexts | custom_components/srat/repairs.py:20-27 | lower-casing letter by letter, str and bool as Python has them |
| RepairProxy.RunOfAccepted | custom_components/srat/repairs.py:59-138 | over any run of accepted commands, calls raising anywhere: each command gets its answer or at most an error message, in order, and the registry holds exactly the repairs whose last action to reach it was not delete, as last described |
| RepairProxy.UndisturbedExactly | custom_components/srat/repairs.py:59-138 | each command is answered once, with its command_id and without an error, if and only if no call raises; then the registry reflects all commands |
| RepairProxy.ErrorExactly | custom_components/srat/repairs.py:72-138 | "error" is sent for exactly the unknown actions, missing translation keys and raising calls, while connected and unless that message fails as well |
| RepairProxy.AnswersAreNeverAccepted | backend/src/api/ws.go:176-210 | no message of the proxy, answer or error, passes the backend's routing |
| RepairProxy.FlatAcceptedExactly | backend/src/dto/repair_proxy.go:78-98 | sent flat with a type, exactly the messages with a repair id and a listed status would be valid |
| RepairProxy.FlatAnswersWouldBeAccepted | backend/src/dto/repair_proxy.go:78-98 | sent flat with a type, every message the proxy sends for any payload, whichever calls raise, would be valid |
| MountResolver.MountPathToDeviceId | backend/src/converter/goverter.go:87-108 | terminates for every same-filesystem relation and gives the name of the device of the resolved entry |
| MountResolver.PathToSource | backend/src/converter/config_to_dto.go:116-135 | the source of the first entry that answers, without /dev/ |
| MountResolver.WithoutDevExactly | backend/src/converter/config_to_dto.go:123 | exactly the prefix /dev/ is cut |
| MountResolver.ResolvedAtMost | backend/src/converter/goverter.go:87-108 | resolution succeeds exactly when an entry answers, and never ends behind the first that does |
| MountResolver.DirectEntryAnswers | backend/src/converter/goverter.go:94-97 | an entry for the path itself answers whatever the file systems are |
| MountResolver.SharedEntryAnswers | backend/src/converter/goverter.go:98-101 | an entry on the file system of the path answers |
| MountResolver.SameEntryExactly | backend/src/converter/goverter.go:87-108 | both lookups meet the same entry if and only if the first answering entry also answers first for its own directory |
| MountResolver.EquivalenceAgrees | backend/src/converter/config_to_dto.go:116-135 | they do for every symmetric and transitive relation |
| MountResolver.DeviceNumbersAgree | backend/src/converter/config_to_dto.go:116-135 | so they do when file systems are compared by device number |
| MountResolver.DeviceToDeviceId | backend/src/converter/goverter.go:53-73 | the name of the first link that matches, else the device itself |
| MountResolver.FirstMatch | backend/src/converter/goverter.go:56-71 | the first entry that matches, none exactly if none does |
| MountResolver.MatchesExactly | backend/src/converter/goverter.go:56-85 | an entry matches if it is a link in /dev/disk/by-id that leads to the source or is the source |
| MountResolver.DeviceRoundTripExactly | backend/src/converter/goverter.go:53-85 | DeviceIdToDevice undoes deviceToDeviceId on a device it finds a name for if and only if some by-id link leads to the device; every other one is itself the path of its link |
| MountResolver.LinkedDeviceRoundTrip | backend/src/converter/goverter.go:53-85 | every device some by-id link leads to has a name, and it leads back |
| MountResolver.LinkPathNotLedBack | backend/src/converter/goverter.go:53-85 | a mount source that is a by-id path, and is not led back to |
| CommandOutput.MergeCommandLines | frontend/src/App.tsx:36-60 | the merged list, undefined lists being empty |
| CommandOutput.AppendLines | frontend/src/App.tsx:43-57 | appends each line whose key is new and records all keys |
| CommandOutput.MergeExactly | frontend/src/App.tsx:36-60 | merged lines have no duplicates, are the set union and begin with the incoming ones in order |
| CommandOutput.MergeIdempotent | frontend/src/App.tsx:36-60 | merging the same lines again changes nothing, whatever the channels |
| CommandOutput.KeyInjective | frontend/src/App.tsx:44 | lines of channels without a colon with one key are one line |
| CommandOutput.KeysSeparatedExactly | frontend/src/App.tsx:44 | two channels never share a key if and only if neither name continues the other after a colon |
| CommandRuns.KeyTexts | frontend/src/App.tsx:44 | the texts of merge key and dedupe key (line 311) |
| CommandOutput.MergeSessionIdempotent | frontend/src/App.tsx:62-72 | the same snapshot merged twice is the snapshot merged once |
| CommandRuns.MergedFields | frontend/src/App.tsx:62-72 | what the incoming snapshot says wins, what it leaves out stays |
| CommandRuns.MergedLines | frontend/src/App.tsx:62-72 | the merged session has the lines of both sides |
| CommandOutput.DedupeKeyTells | frontend/src/App.tsx:311-315 | an event skipped by its key repeats execution and line of the last one |
| CommandOutput.LinesAreTail | frontend/src/App.tsx:305-346 | over any run of command events each execution shows the last 500 of its output lines, consecutive duplicates removed |
| CommandRuns.KeptExactly | frontend/src/App.tsx:325-335 | 500 lines are shown, or all if they are fewer, and they are the end of the run |
| CommandRuns.NoRepeatsExactly | frontend/src/App.tsx:325-332 | without consecutive repeats no two neighbours are alike and no line is lost |
| CommandRuns.SessionsExactly | frontend/src/App.tsx:223-247 | after any run of command events a session is known if an event named it, runs if and only if the last start or end is a start or only output was seen, has the code of the last end, title and arguments of the last start and the command id of the event that named it last |
| CommandRuns.TerminatedExactly | frontend/src/App.tsx:357-386 | after an end without a later start the session is not running and has the code of that end |
| CommandOutput.OutputKeepsRunning | frontend/src/App.tsx:317-346 | output events never change whether a command is running; a command first seen by its output is running |

## Left out

- Concurrency below the steps: each handler and each timer callback is one step, and a reading of modification time or content sees one version; a stale timer callback racing with a re-arm is outside the model.
- DirtyData.RestartComes: assumes that a due timer fires before time goes on and counts the work of a health round as part of its interval, because the source bounds neither.
- DirtyData.HealthRun: reports which rounds do the heavy work and when the tracker is polled; statistics, Samba checks and broadcasts are calls into other services.
- Subscribers of the event bus: START subscribers emit nothing back, RESTART subscribers at most a CLEAN inside the callback and no managed event; dispatching itself is a library.
- EventPrinter.Printer.WriteMap: the keys of a map have distinct texts under fmt.Sprint, because the source sorts by that text alone; OutputIgnoresAddresses speaks of maps whose key texts hold no address.
- EventPrinter.Printer.WriteValue: distinct objects have distinct addresses, so a pointer to a struct and one to its first field are not told apart by address; the Valuer hook is an oracle that does not look at addresses; numbers come as their text; which characters beyond ASCII are printable is a parameter, and strings are valid UTF-8.
- Remaining fields of disks, partitions, mount points and shares are one opaque text, copied as it is; user and veto lists of a share are values, so nil and empty ones are not told apart.
- Snapshots copy the pointers to HDIdle and SMART records as the source does; what is behind them is not modelled.
- DiskLaws.StepKeepsInv: AddOrUpdate and AddPartition keep the invariant only for maps that fit (`AddDiskExactly`, `AddPartitionExactly`), which the source does not check; host mount maps are copied by snapshots but belong to no operation of the index.
- Error messages and details; errors are told apart by kind.
- `GetPartitionDevicePath`: a cascade of three tests.
- Machine words are sets of bit positions, so the width of an int plays no part.
- SettingsTable.RoundTripThroughJson: JSON text and UTF-8 are not modelled, only the types that come back; secrets are their exposed strings.
- ConfigWatcher: hashes, modification times and failures come from outside; the debounce of fsnotify and the retries of the supervisor subscription only decide when a hash is observed.
- WireFrames.Client.ParseWsMessage: the JSON parser is a parameter; listeners only unregister themselves, and one that raises is not modelled; the reconnect loop depends on asyncio.
- WireFrames frames carry text; `reverseMap` and the sending connection are left out.
- RepairProxy: lower-casing is ASCII; str() of objects is not rendered; a registry call that raises leaves the registry as it was, and the connection stays as it is while one command is handled.
- MountResolver: links resolve to paths without links, as filepath.EvalSymlinks promises; the mount table, links and the same-filesystem test stand still during a lookup; error returns of failed reads other than a missing entry are left out.
- CommandOutput.LinesAreTail: execution ids are UUIDs and channels stdout or stderr, so neither holds a colon; snapshots merged in between are the subject of MergeExactly; stored lines keep timestamp, channel and text only, timestamps are whole numbers.
- React effects, toasts and dialogs; HTTP handlers, database, migrations, generated enums and field-by-field conversions.
