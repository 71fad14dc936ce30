# A verified model of the NL6621 file system, DHCP server and agent libraries

Dafny models of the code that keeps state in the NL6621 firmware, with proofs of what it is for.

* **FatFs** (`ff.c` as configured by `ffconf.h`: 512-byte sectors, one or two FATs, no file locks),
  in layers. Each layer is an imperative model of the C functions and refines something simpler:
  the one-sector window is transparent over a flat disk (`Window`); FAT entry access is an array of
  numbers (`FatTable`, `FatAccess`); the allocator keeps a forest of chains (`ClusterChains`,
  `Allocator`, `AllocatorRun`, `FreeCount`) and every state of the FAT on the way is safe
  (`CrashSafety`), but for a FAT12 entry that is half stored (`HalfStore`); directories are tables of
  entries (`Directory`, `Unlink`); an open file is a byte sequence in clusters of its own (`FileData`, `FileMap`, `File`, `FileChain`, `FileWrite`,
  `FileRead`, `FileSeek`, `FileTruncate`, `FileRun`). The link map (`LinkMap`, `FastSeek`), the
  wildcard matcher (`Pattern`) and the formatter with its mounter (`Mkfs`) stand beside them. The
  on-disk format is that of the Microsoft FAT32 File System Specification 1.03, section "FAT Type
  Determination", with the cluster-count boundaries of `ff.c`.
* **diskio.c** (`Diskio`): 512-byte sectors on 4 KB flash sectors, and the volume that `f_mkfs`
  makes on them (`Drive`).
* **dhcp_server.c** (`Dhcp`): the lease table and its events, for sections 4.3.1 and 4.3.2 of RFC 2131.
* **cJSON.c**: the texts and the parser on values (`Json`), the two passes over a string (`JsonString`), the
  parser that builds linked items (`JsonParse`), both printers (`JsonPrint`) and the growing buffer
  (`PrintBuffer`, `JsonText`). What is parsed is compared with the grammar of RFC 8259: strings with
  escapes (section 7) as UTF-8 (section 3 of RFC 3629) in `JsonUnicode`, numbers (section 6) in
  `JsonNumber`, and whole texts with any white space (section 2) in `JsonGrammar`.
* **base64.c** (`Base64`, section 5.2 of RFC 1341) and **ring_buffer.c** (`RingBuffer`).

`Types`, `Basics` and `CString` hold what several of these share.

Functions of the C code that change state are methods on classes or arrays with the same fields and
branches; each is proved against a specification on values, and lemmas say what these amount to.
Shifts and masks are written as division and remainder; 32-bit wrap-around is explicit. The file
layer and everything above it assumes a drive that reads and writes what it is asked to; `Diskio`
says for which transfers this drive does, and `Drive` that on the volume `f_mkfs` makes for it, with
one sector per cluster, these are all of them.

**Keys.** A definition that would burden every proof that mentions it is written as
`forall k :: LookX(k) ==> definition`, where the predicate `LookX` is always true. Proofs carry it along by name,
and one that needs the definition says `assert LookX(0)`. For the same reason some contracts say
`P(x) == true` for `P(x)`.

## Findings

Properties that the code does not have, each with an input and the condition under which it holds,
which is exact but for the strings of the parser.

| what fails | where | condition |
|---|---|---|
| an interrupted `f_truncate` frees a cluster that the directory still names | `FileTruncate.FullTruncateIsUnsafe` | safe if and only if the file pointer is not at 0: `FileTruncate.TruncateSafeIffKept`, `FileTruncate.FTruncate` |
| `f_mkfs` reports success for a volume that cannot be mounted | `Mkfs.NothingRemains`: 131 sectors, partitioned, 32-sector clusters, 8-sector blocks | a cluster remains after the alignment (`Remains`): `Mkfs.FMkfs`; on this drive it always does: `Mkfs.DriveRemains` |
| `disk_write` stores the wrong bytes | `Diskio.WritesRightIff` | right if and only if at most two flash sectors are touched |
| `disk_read` returns the wrong sectors | `Diskio.ReadsRightIff` | right if and only if at most one sector is asked for |
| two pool entries share an address | `Dhcp.PoolDistinctIff` | the pool does not wrap |
| the link map runs past the end of a chain | `LinkMap.OneClusterRunsAway`: a volume of one cluster, marked 3 | an internal error if and only if the chain ends in the last cluster of the volume and its end mark is the number behind that (`LinkMap.CreateLinkMap`, `LinkMap.RunsAwayIff`); never with a mark that `create_chain` wrote (`LinkMap.OwnMarksEnd`) |
| on FAT12, an interrupted `create_chain` leaves a chain that leads to a free cluster | `HalfStore.HalfLinkIsUnsafe`: 4000 entries, the file of cluster 682 is stretched by cluster 5 | half stored, an entry across two sectors is safe if and only if it names no free cluster (`HalfStore.ValueSafeIff`); so it is for up to 3840 entries, as on this drive (`HalfStore.HalfLinkSafeIff`) |
| `parse_string` writes behind the memory it asked for | `JsonString.CopyOverruns`: `"\u","AAAA"` | never if its copy ends no later than its count (`JsonString.CopyFits`), as for every string in which four ordinary characters, such as hexadecimal digits, follow each `\u` (`JsonString.ProperParses`) |
| `parse_string` reads behind the text while it counts | `JsonString.CountOverruns`: `"\u000\` | never for such a string |
| the raw scan of `f_getfree` disagrees with the count | `FreeCount.RawScanAgrees` | they agree if and only if entries 0 and 1 are not zero |

## Model

| member | source | states |
|---|---|---|
| `Window.SyncWindow` | NL6621-Dev/Source/Fatfs/ff.c:700-721 | the drive becomes the logical disk, in both FAT copies; the logical disk is unchanged |
| `Window.MoveWindow` | NL6621-Dev/Source/Fatfs/ff.c:729-750 | the window shows the sector as it is on the logical disk, which is unchanged |
| `FatTable.EntryAfterSet` | NL6621-Dev/Source/Fatfs/ff.c:873-926 | a FAT entry reads back as the low 12, 16 or 28 bits written, and every other entry is unchanged, also where FAT12 entries share a byte |
| `FatTable.ReservedBitsKept` | NL6621-Dev/Source/Fatfs/ff.c:911-918 | the top four bits of a FAT32 entry stay |
| `FatTable.EntryStands` | NL6621-Dev/Source/Fatfs/ff.c:837-855 | what is read as an entry stands in the bytes of the table: the low digit first for FAT16 and FAT32, the nibbles of three bytes for two FAT12 entries, without the top four bits of FAT32 |
| `FatTable.SetEntryStores` | NL6621-Dev/Source/Fatfs/ff.c:886-918 | storing puts the digits of the value into those bytes, keeps the nibble of the neighbour or the top four bits, and every other byte |
| `FatTable.SampleTables` | NL6621-Dev/Source/Fatfs/ff.c:837-855 | one table of each type, byte by byte |
| `FatAccess.GetFat` | NL6621-Dev/Source/Fatfs/ff.c:818-862 | reads the entry of the abstract FAT, also across two sectors, which is the number in its bytes of the FAT on the logical disk, low byte first; changes nothing on that disk |
| `FatAccess.PutFat` | NL6621-Dev/Source/Fatfs/ff.c:873-926 | changes one entry of the abstract FAT and nothing outside the FAT; in the FAT on the logical disk, the bytes of the entry become the digits of the value |
| `Geometry.RegionsDisjoint` | NL6621-Dev/Source/Fatfs/ff.c:2296-2324 | FAT, root directory and data area follow each other, and every entry lies in the FAT |
| `Geometry.ClustersDisjoint` | NL6621-Dev/Source/Fatfs/ff.c:800-808 | distinct clusters have disjoint sectors inside the data area |
| `ClusterChains.ChainDistinct` | NL6621-Dev/Source/Fatfs/ff.c:937-1040 | chains are acyclic |
| `ClusterChains.Replaced` | NL6621-Dev/Source/Fatfs/ff.c:937-1040 | replacing some chains of a forest by others, over their own and free clusters, gives a forest; what create, stretch, cut and remove are instances of |
| `ClusterChains.Created` | NL6621-Dev/Source/Fatfs/ff.c:1025-1029 | a new chain of one cluster that was free; all other chains unchanged |
| `ClusterChains.Stretched` | NL6621-Dev/Source/Fatfs/ff.c:1025-1029 | one chain grows by a cluster that was free; all other chains unchanged |
| `ClusterChains.Removed` | NL6621-Dev/Source/Fatfs/ff.c:953-975 | exactly the clusters of the removed chain become free; all other chains unchanged |
| `Allocator.CreateChain` | NL6621-Dev/Source/Fatfs/ff.c:990-1040 | follows the link, or takes the next free cluster in circular order, or reports 0 only if none is free, for every FAT and `last_clust` |
| `Allocator.NearestTaken` | NL6621-Dev/Source/Fatfs/ff.c:996-1023 | no free cluster is passed over behind the cluster to be stretched, or behind the one taken last |
| `Allocator.RemoveChain` | NL6621-Dev/Source/Fatfs/ff.c:937-979 | ends for every FAT, even a cyclic one, with the effect of following and freeing; a right free count stays right |
| `Allocator.CountAfterCreate` | NL6621-Dev/Source/Fatfs/ff.c:1031-1034 | a right free count stays right when a cluster is taken |
| `AllocatorRun.StepKeeps` | NL6621-Dev/Source/Fatfs/ff.c:937-1040 | one call keeps the forest, the count and the safety of every state between |
| `AllocatorRun.RunKeeps` | NL6621-Dev/Source/Fatfs/ff.c:937-1040 | so does every run of calls, from any forest, while directory entries come and go |
| `AllocatorRun.Create` | NL6621-Dev/Source/Fatfs/ff.c:990-1040 | a call of `create_chain` with 0 or a chain member is a step of such a run |
| `AllocatorRun.RemoveOne` | NL6621-Dev/Source/Fatfs/ff.c:937-979 | a call of `remove_chain` with a chain head is a step of such a run |
| `FreeCount.RawScanAgrees` | NL6621-Dev/Source/Fatfs/ff.c:3424-3460 | counting all entries agrees with counting clusters if and only if entries 0 and 1 are not zero |
| `FreeCount.GetFree` | NL6621-Dev/Source/Fatfs/ff.c:3406-3465 | the count is right on FAT12, and by the raw sector scan of FAT16 and FAT32 exactly when entries 0 and 1 are not zero |
| `CrashSafety.AnchoredIsSafe` | NL6621-Dev/Source/Fatfs/ff.c:1025-1037 | complete chains under all live entries: no path from an entry leads to a free cluster |
| `CrashSafety.CreateIsSafe` | NL6621-Dev/Source/Fatfs/ff.c:1025-1037 | every state inside `create_chain` is safe: the end mark comes before the link |
| `CrashSafety.RemoveSafeIff` | NL6621-Dev/Source/Fatfs/ff.c:953-975 | freeing a chain passes through safe states only, if and only if no live entry names one of its clusters |
| `CrashSafety.PartialTruncateSafeIff` | NL6621-Dev/Source/Fatfs/ff.c:3496-3505 | the same for cutting a tail off first |
| `HalfStore.ValueSafeIff` | NL6621-Dev/Source/Fatfs/ff.c:889-899 | any value in the entry of a cluster that a live directory entry leads to is safe if and only if it is not 0 and names no free cluster |
| `HalfStore.ElsewhereSafe` | NL6621-Dev/Source/Fatfs/ff.c:889-899 | anything may stand in a cluster that no live directory entry leads to, such as the one just taken or one being freed |
| `HalfStore.HalfLinkSafeIff` | NL6621-Dev/Source/Fatfs/ff.c:1025-1029 | the half-stored link of `create_chain` on FAT12, with the exact condition |
| `HalfStore.HalfLinkIsUnsafe` | NL6621-Dev/Source/Fatfs/ff.c:1025-1029 | an input for which it is not safe |
| `FatAccess.Put12` | NL6621-Dev/Source/Fatfs/ff.c:886-899 | two stores; between them the FAT differs from the old one in that entry alone, which is half new |
| `FileChain.LogExtended` | NL6621-Dev/Source/Fatfs/ff.c:2715-2732 | stretching the chain of an open file logs safe states only, and no directory entry names the cluster that was added |
| `FileTruncate.NamedIsGuarded` | NL6621-Dev/Source/Fatfs/ff.c:2563-2575 | a file whose directory entry names it, opened after safe states only, meets the condition under which writes, seeks and truncations keep the states safe |
| `FileTruncate.LogCut` | NL6621-Dev/Source/Fatfs/ff.c:3493-3505 | so does cutting it, if some cluster is kept or no directory entry names it |
| `FileWrite.FWrite` | NL6621-Dev/Source/Fatfs/ff.c:2689-2802 | splices its bytes into the contents at the file pointer; fewer than asked only when no cluster is free or the 4 GB guard fires; other files' sectors are unchanged; the file keeps its clusters and gets only those that its pointer needs; safe states of the FAT stay safe |
| `FileRead.FRead` | NL6621-Dev/Source/Fatfs/ff.c:2588-2679 | returns exactly the bytes at the file pointer, up to the end of the file, through dirty buffer and direct transfers, and changes nothing else |
| `FileSeek.FSeek` | NL6621-Dev/Source/Fatfs/ff.c:3104-3180 | the pointer reaches its target, clipped at the end when read-only; in write mode it stops short, at the end of the last cluster, only when no cluster is free; safe states of the FAT stay safe |
| `FileTruncate.FTruncate` | NL6621-Dev/Source/Fatfs/ff.c:3472-3519 | the contents end at the pointer, exactly the clusters behind it become free, the file is marked as written if it was longer, and an interruption is safe if and only if the pointer is not at 0 |
| `FileTruncate.TruncateSafeIff` | NL6621-Dev/Source/Fatfs/ff.c:3490-3505 | every state is safe if and only if no live entry names a cluster that is freed |
| `FileTruncate.TruncateSafeIffKept` | NL6621-Dev/Source/Fatfs/ff.c:3493-3505 | for a file that its entry names: if and only if some cluster is kept |
| `FileTruncate.FullTruncateIsUnsafe` | NL6621-Dev/Source/Fatfs/ff.c:3493-3495 | a file of one cluster, truncated at 0, passes through a state that is not safe |
| `FileTruncate.ForestCut` | NL6621-Dev/Source/Fatfs/ff.c:3493-3505 | cutting a chain keeps the forest, without the tail |
| `FileRun.Call` | NL6621-Dev/Source/Fatfs/ff.c:2588-3180 | each call on an open file is a step on a byte sequence in clusters of its own; the free FAT entries are those that neither the file nor anything else has |
| `FileRun.CallAll` | NL6621-Dev/Source/Fatfs/ff.c:2588-3180 | so is every run of reads, writes, seeks and truncations; a short write means that every cluster is taken at that point of the run, truncating keeps just the clusters that hold the rest, and without a truncation at 0 of a named file every state of the FAT is safe |
| `FileRun.TakesFree` | NL6621-Dev/Source/Fatfs/ff.c:2715-2732 | clusters that a step adds were free before it, and only writes and seeks add any |
| `FileRun.WriteSeekRead` | NL6621-Dev/Source/Fatfs/ff.c:2588-2802 | what is written completely is read back |
| `File.OpenFile` | NL6621-Dev/Source/Fatfs/ff.c:2563-2575 | a file object for a chain on the disk holds the bytes of its clusters and meets the invariant of the calls above |
| `Directory.DirSdi` | NL6621-Dev/Source/Fatfs/ff.c:1080-1118 | the cursor reaches entry idx, or an internal error exactly when the table has no such entry |
| `Directory.DirNext` | NL6621-Dev/Source/Fatfs/ff.c:1128-1188 | the cursor reaches the next entry; at the end it reports so or stretches the table by one zero-filled cluster, keeping all other chains |
| `Directory.SamePlace` | NL6621-Dev/Source/Fatfs/ff.c:1080-1188 | the index of an entry determines its cluster, sector and offset |
| `Directory.WalkAndSet` | NL6621-Dev/Source/Fatfs/ff.c:1080-1188 | i steps from the first entry lead to the same cluster, sector and offset as setting the cursor on entry i, or both fail |
| `Unlink.DirFind` | NL6621-Dev/Source/Fatfs/ff.c:1457-1509 | the first entry in use with the name, byte by byte; no file if and only if there is none before the end of the table |
| `Unlink.MissingIsUnnamed` | NL6621-Dev/Source/Fatfs/ff.c:1457-1509 | where a name is missing, no entry before the end of the table has its eleven bytes and is no volume label |
| `Unlink.LookInside` | NL6621-Dev/Source/Fatfs/ff.c:1519-1567 | from entry 2 of a subdirectory on, an entry to show is found if and only if there is one before the end of the table |
| `Unlink.InUseIsShown` | NL6621-Dev/Source/Fatfs/ff.c:1533-1560 | every entry in use is shown, but for the dot entries and volume labels |
| `Unlink.EmptyIsDeserted` | NL6621-Dev/Source/Fatfs/ff.c:3563-3573 | a directory found empty holds, from entry 2 up to its end, only entries that are deleted, dot entries or volume labels |
| `Unlink.OccupantFrom` | NL6621-Dev/Source/Fatfs/ff.c:3563-3573 | one that is found not empty holds an entry in use, or one that is not deleted and has the bit of a volume label among others |
| `Unlink.AnswerIs` | NL6621-Dev/Source/Fatfs/ff.c:3552-3575 | the answer, in the bytes of the entries: refused exactly what has the read-only bit or is a directory with such an entry |
| `Unlink.ClustIsBytes` | NL6621-Dev/Source/Fatfs/ff.c:1235-1247 | the first cluster of an entry is in bytes 26 and 27, and on FAT32 in 20 and 21, the low one first |
| `Unlink.DirRemove` | NL6621-Dev/Source/Fatfs/ff.c:1656-1692 | marks exactly that entry deleted |
| `Unlink.FUnlink` | NL6621-Dev/Source/Fatfs/ff.c:3528-3588 | refuses exactly what is read-only and directories that hold an entry in use; else the entry is deleted, its chain becomes free, everything else stays, and every state on the way is safe |
| `LinkMap.ExpandFrags` | NL6621-Dev/Source/Fatfs/ff.c:3049-3073 | the fragments, expanded, are the chain |
| `LinkMap.FragsMaximal` | NL6621-Dev/Source/Fatfs/ff.c:3049-3073 | neighbouring fragments do not touch, so their number is the least possible |
| `LinkMap.OneClusterRunsAway` | NL6621-Dev/Source/Fatfs/ff.c:3060-3064 | an input for which the loop that measures a fragment passes the end of the chain |
| `LinkMap.RunsAwayIff` | NL6621-Dev/Source/Fatfs/ff.c:3060-3064 | it does if and only if the chain ends in the last cluster of the volume, marked with the number behind that |
| `LinkMap.OwnMarksEnd` | NL6621-Dev/Source/Fatfs/ff.c:3060-3064 | with the end mark of `create_chain` it never does |
| `LinkMap.CreateLinkMap` | NL6621-Dev/Source/Fatfs/ff.c:3049-3073 | the table encodes the fragments; with too small a table the size reported is 2 + 2 times their number |
| `LinkMap.EncodedAt` | NL6621-Dev/Source/Fatfs/ff.c:3066-3069 | the order in the table: the number of clusters of a fragment, and then its first cluster |
| `LinkMap.ClmtClust` | NL6621-Dev/Source/Fatfs/ff.c:1052-1069 | on such a table, the cluster that following the FAT gives, 0 behind the end |
| `FastSeek.FSeekMapped` | NL6621-Dev/Source/Fatfs/ff.c:3075-3098 | seeking by the map leaves the file as consistent as seeking by the FAT |
| `Pattern.PatternMatching` | NL6621-Dev/Source/Fatfs/ff.c:1795-1832 | the recursive matcher decides the language of the rest of the pattern behind a run of wildcards |
| `Pattern.MatchName` | NL6621-Dev/Source/Fatfs/ff.c:1773-1832 | a name matches if and only if it is in the language of the pattern, case-blind; the early stop loses no match |
| `Pattern.MatchEitherCase` | NL6621-Dev/Source/Fatfs/ff.c:1773-1832 | the case of letters in the pattern or in the name makes no difference to the matcher |
| `Pattern.OneMatches` | NL6621-Dev/Source/Fatfs/ff.c:1773-1791 | one ASCII character matches itself in either case and no other |
| `Pattern.WildcardsMatch` | NL6621-Dev/Source/Fatfs/ff.c:1795-1832 | a question mark matches any one character, and a star any name |
| `Pattern.OneIfTwoBytes` | NL6621-Dev/Source/Fatfs/ff.c:1780-1783 | two bytes are one character exactly when they are one in code page 936 |
| `Pattern.SecondByteCounts` | NL6621-Dev/Source/Fatfs/ff.c:1780-1783 | the second byte of such a character is compared as it is |
| `Mkfs.MountedIsValid` | NL6621-Dev/Source/Fatfs/ff.c:2273-2324 | every volume `find_volume` accepts without overflow is well laid out and ends inside its sectors |
| `Mkfs.MountsIff` | NL6621-Dev/Source/Fatfs/ff.c:2273-2324 | mounting gives a volume if and only if it is valid and the boot sector records it, with one FAT or two |
| `Mkfs.TwoFatsMounted` | NL6621-Dev/Source/Fatfs/ff.c:2273-2324 | an ordinary boot sector with two FATs, and the volume it is mounted as |
| `Mkfs.RoundTrip` | NL6621-Dev/Source/Fatfs/ff.c:4120-4226 | mounting a boot sector recovers the layout if and only if at least one cluster remains |
| `Mkfs.FMkfs` | NL6621-Dev/Source/Fatfs/ff.c:4113-4241 | when it gives up, and that otherwise mounting gives the volume laid out, and a valid one, exactly when a cluster remains, in terms of its arguments |
| `Mkfs.UnitPow2` | NL6621-Dev/Source/Fatfs/ff.c:4120-4128 | the cluster size is a power of two of at most 128 sectors, and a wish in sectors is granted |
| `Mkfs.UnitTable` | NL6621-Dev/Source/Fatfs/ff.c:4071-4128 | the automatic cluster size for every drive, and that a wish may be given in bytes |
| `Mkfs.SmallDrives` | NL6621-Dev/Source/Fatfs/ff.c:4120-4167 | every drive of 128 to 127999 sectors is formatted with FAT12 and keeps a cluster, if no cluster size is wished for and its blocks have at most eight sectors |
| `Mkfs.FormatSmall` | NL6621-Dev/Source/Fatfs/ff.c:4113-4241 | and `f_mkfs` succeeds on it, and what it wrote is mounted as a valid volume inside the drive |
| `Mkfs.NothingRemains` | NL6621-Dev/Source/Fatfs/ff.c:4150-4167 | an input for which it succeeds and no cluster remains |
| `Mkfs.DriveRemains` | NL6621-Dev/Source/Fatfs/diskio.c:147-183 | on this drive a cluster remains for every wish |
| `Diskio.DiskWrite` | NL6621-Dev/Source/Fatfs/diskio.c:86-138 | exactly the addressed sectors change, to the bytes that arrive |
| `Diskio.WritesRightIff` | NL6621-Dev/Source/Fatfs/diskio.c:112-131 | those are the bytes given if and only if at most two flash sectors are touched |
| `Diskio.DiskRead` | NL6621-Dev/Source/Fatfs/diskio.c:57-77 | the sectors the loop really gathers |
| `Diskio.ReadsRightIff` | NL6621-Dev/Source/Fatfs/diskio.c:66-75 | those are the bytes of the sectors asked for, whatever is on the flash, if and only if there is at most one |
| `Diskio.ClippedTransferRight` | NL6621-Dev/Source/Fatfs/ff.c:2749-2754 | with an aligned data area and a cluster size dividing 8, every clipped transfer stays inside one flash sector; with one sector per cluster it reads rightly too |
| `Drive.FormatDrive` | NL6621-Dev/Source/Fatfs/ff.c:4113-4241 | for this drive, with no cluster size wished for, `f_mkfs` succeeds, and what is mounted is valid, has one sector per cluster and begins its data on a flash sector |
| `Drive.WriteClipped` | NL6621-Dev/Source/Fatfs/diskio.c:86-138 | on such a volume a write of the file layer replaces just those sectors of the drive |
| `Drive.ReadClipped` | NL6621-Dev/Source/Fatfs/diskio.c:57-77 | and a read gives them |
| `Dhcp.StepKeeps` | NL6621-Dev/Source/App/DhcpServer/dhcp_server.c:204-437 | no event gives two entries in use the same MAC, or changes an address |
| `Dhcp.RepliesAreSafe` | NL6621-Dev/Source/App/DhcpServer/dhcp_server.c:610-649 | no offer or acknowledgement is for an address that another MAC holds |
| `Dhcp.RunIsSafe` | NL6621-Dev/Source/App/DhcpServer/dhcp_server.c:106-147 | nor over any run of messages, ticks and client deletions |
| `Dhcp.OfferLapses` | NL6621-Dev/Source/App/DhcpServer/dhcp_server.c:106-147 | an offer whose client is silent lapses with the tenth tick and not before, whatever other clients send and whoever is deleted meanwhile |
| `Dhcp.OfferIsKept` | NL6621-Dev/Source/App/DhcpServer/dhcp_server.c:366-369 | until the tenth tick, whatever other clients send and whoever is deleted, a client that asks for the address it was offered gets it for the full lease |
| `Dhcp.OwnAddressGranted` | NL6621-Dev/Source/App/DhcpServer/dhcp_server.c:366-369 | so does one that renews the address it is bound to; no other entry in use changes |
| `Dhcp.RequestGrantedIff` | NL6621-Dev/Source/App/DhcpServer/dhcp_server.c:330-396 | a request is acknowledged if and only if it is meant for this server, nobody else has the address, and it is idle or the client holds one |
| `Dhcp.DiscoverOffered` | NL6621-Dev/Source/App/DhcpServer/dhcp_server.c:270-328 | a discovery is refused if and only if others use all addresses; else it is answered by an offer that stands in the table |
| `Dhcp.DiscoverPrefers` | NL6621-Dev/Source/App/DhcpServer/dhcp_server.c:295-327 | which address is offered: the one asked for, the one held, the one had before, one that nobody had, any |
| `Dhcp.ReleaseFrees` | NL6621-Dev/Source/App/DhcpServer/dhcp_server.c:398-422 | a client that releases or declines its address holds none |
| `Dhcp.DeletionFrees` | NL6621-Dev/Source/App/DhcpServer/dhcp_server.c:743-777 | nor does a bound client that is deleted; no other entry changes |
| `Dhcp.LeaseLasts` | NL6621-Dev/Source/App/DhcpServer/dhcp_server.c:106-147 | a silent client that stays keeps its address for exactly its lease |
| `Dhcp.AbsentFreed` | NL6621-Dev/Source/App/DhcpServer/dhcp_server.c:106-147 | one that is gone at a tick loses it, and is remembered |
| `Dhcp.PoolFollows` | NL6621-Dev/Source/App/DhcpServer/dhcp_server.c:828-845 | a pool that does not wrap has the addresses behind that of the server, all of them idle |
| `Dhcp.PoolDistinctIff` | NL6621-Dev/Source/App/DhcpServer/dhcp_server.c:828-845 | the addresses of the pool are distinct if and only if it does not wrap |
| `Dhcp.Server.RecvCb` | NL6621-Dev/Source/App/DhcpServer/dhcp_server.c:669-722 | handling a message in the table is the step of the specification |
| `Dhcp.Server.TickHandle` | NL6621-Dev/Source/App/DhcpServer/dhcp_server.c:106-147 | so is a tick |
| `Dhcp.Server.ClientDelete` | NL6621-Dev/Source/App/DhcpServer/dhcp_server.c:743-777 | and the deletion of a client |
| `Json.StringBack` | NL6621-Dev/Source/App/NuAgent/Lib/cJSON.c:191-306 | unescaping undoes escaping |
| `Json.RoundTrip` | NL6621-Dev/Source/App/NuAgent/Lib/cJSON.c:355-656 | parsing what is printed for a tree gives the tree back, formatted or not, at any depth, and leaves what stood behind it |
| `JsonText.PrintedParses` | NL6621-Dev/Source/App/NuAgent/Lib/cJSON.c:322-342 | so it does for a whole text |
| `JsonText.EscapesAre` | NL6621-Dev/Source/App/NuAgent/Lib/cJSON.c:283-301 | the escapes of the printer, one by one |
| `JsonText.StringIsClean` | NL6621-Dev/Source/App/NuAgent/Lib/cJSON.c:251-306 | a printed string has no control characters, and no quotes but escaped ones |
| `JsonText.SampleText` | NL6621-Dev/Source/App/NuAgent/Lib/cJSON.c:512-656 | the layout of an object with an array, formatted and unformatted |
| `JsonUnicode.Utf8Back` | NL6621-Dev/Source/App/NuAgent/Lib/cJSON.c:228-236 | the bytes stored for a code point decode to it, by a decoder that knows leading and continuation bytes only and takes no longer form than needed |
| `JsonUnicode.StringReads` | NL6621-Dev/Source/App/NuAgent/Lib/cJSON.c:191-248 | every string of plain characters, short escapes, code points in four hexadecimal digits of either case and surrogate pairs is read as the bytes of its pieces |
| `JsonUnicode.BytesDecode` | NL6621-Dev/Source/App/NuAgent/Lib/cJSON.c:215-237 | these bytes decode to the code points that the pieces denote |
| `JsonUnicode.AcuteReads` | NL6621-Dev/Source/App/NuAgent/Lib/cJSON.c:215-237 | an escaped e with an acute accent is the bytes C3 A9 |
| `JsonNumber.NumberReads` | NL6621-Dev/Source/App/NuAgent/Lib/cJSON.c:95-114 | every number of the grammar is read as its sign times its digits, with the fraction, times the power of ten |
| `JsonNumber.ThreeHalves` | NL6621-Dev/Source/App/NuAgent/Lib/cJSON.c:102-108 | 1.5 is three halves |
| `JsonNumber.MinusFiveHalves` | NL6621-Dev/Source/App/NuAgent/Lib/cJSON.c:103-108 | -25e-1 is minus five halves |
| `JsonGrammar.SourceReads` | NL6621-Dev/Source/App/NuAgent/Lib/cJSON.c:355-545 | every text of the grammar without escapes of NUL or of half a surrogate pair, however its strings and numbers are written and whatever white space it has, is read as what it means |
| `JsonText.TextAppend` | NL6621-Dev/Source/App/NuAgent/Lib/cJSON.c:370-656 | what follows a text does not change it |
| `JsonText.ItemsFit` | NL6621-Dev/Source/App/NuAgent/Lib/cJSON.c:468-507 | the space added up for an array is enough |
| `JsonText.MembersFit` | NL6621-Dev/Source/App/NuAgent/Lib/cJSON.c:607-653 | and the one for an object |
| `JsonString.CopyFits` | NL6621-Dev/Source/App/NuAgent/Lib/cJSON.c:196-240 | a copy that ends no later than the count has at most as many characters as were counted |
| `JsonString.ProperParses` | NL6621-Dev/Source/App/NuAgent/Lib/cJSON.c:191-248 | with complete escapes, count and copy end at the same place and the string is parsed |
| `JsonString.CopyOverruns` | NL6621-Dev/Source/App/NuAgent/Lib/cJSON.c:196-240 | a text for which one character is counted and three are copied |
| `JsonString.CountOverruns` | NL6621-Dev/Source/App/NuAgent/Lib/cJSON.c:196-196 | a text for which the count goes behind the end |
| `JsonString.PassedButFits` | NL6621-Dev/Source/App/NuAgent/Lib/cJSON.c:196-240 | a text for which the copy goes past the end of the count and still fits |
| `JsonString.CountString` | NL6621-Dev/Source/App/NuAgent/Lib/cJSON.c:196-196 | the counting loop gives the count and the place where it ends, or leaves the text |
| `JsonString.CopyString` | NL6621-Dev/Source/App/NuAgent/Lib/cJSON.c:198-241 | the copying loop, writing to memory of the size counted, gives the string, or leaves the text or the memory |
| `JsonString.ReadString` | NL6621-Dev/Source/App/NuAgent/Lib/cJSON.c:191-248 | both give the string of the grammar |
| `JsonParse.ReadNumber` | NL6621-Dev/Source/App/NuAgent/Lib/cJSON.c:95-114 | the digits, fraction and exponent of the grammar, as an exact number, and its integer part where that is an int |
| `JsonParse.ReadValue` | NL6621-Dev/Source/App/NuAgent/Lib/cJSON.c:355-367 | fails where the grammar does; else the item and its linked children stand for the tree, and items made before are undisturbed |
| `JsonParse.ReadItems` | NL6621-Dev/Source/App/NuAgent/Lib/cJSON.c:404-429 | the loop of an array links its items both ways, in order |
| `JsonParse.ReadMembers` | NL6621-Dev/Source/App/NuAgent/Lib/cJSON.c:512-545 | the loop of an object links its members both ways, in order |
| `JsonParse.Parse` | NL6621-Dev/Source/App/NuAgent/Lib/cJSON.c:322-338 | the root stands for the tree that the parser on values gives for the text, or is null where that fails |
| `JsonGrammar.ParseText` | NL6621-Dev/Source/App/NuAgent/Lib/cJSON.c:322-338 | the root stands for what the text means in the grammar |
| `PrintBuffer.Pow2gt` | NL6621-Dev/Source/App/NuAgent/Lib/cJSON.c:116-116 | the bit trick gives the smallest power of two that is large enough |
| `PrintBuffer.SmearTwice` | NL6621-Dev/Source/App/NuAgent/Lib/cJSON.c:116-116 | each of its lines doubles how far a bit is smeared |
| `PrintBuffer.Buffer.Ensure` | NL6621-Dev/Source/App/NuAgent/Lib/cJSON.c:120-135 | there is room at the offset, the text so far is kept, and a new size is the smallest sufficient power of two |
| `PrintBuffer.Buffer.Update` | NL6621-Dev/Source/App/NuAgent/Lib/cJSON.c:137-143 | the offset of the end of the text |
| `JsonPrint.WriteString` | NL6621-Dev/Source/App/NuAgent/Lib/cJSON.c:251-306 | writes the escaped string within the space computed for it |
| `JsonPrint.PutValue` | NL6621-Dev/Source/App/NuAgent/Lib/cJSON.c:370-387 | appends the text of the item to the buffer, keeping what was there |
| `JsonPrint.PrintValue` | NL6621-Dev/Source/App/NuAgent/Lib/cJSON.c:388-401 | returns the text of the item, composed within memory of the computed size |
| `JsonPrint.Print` | NL6621-Dev/Source/App/NuAgent/Lib/cJSON.c:341-342 | the text of the tree |
| `JsonPrint.PrintBuffered` | NL6621-Dev/Source/App/NuAgent/Lib/cJSON.c:344-351 | the same text, for every size of the first buffer from 1 on, with every store inside the current one |
| `JsonPrint.PrintThenParse` | NL6621-Dev/Source/App/NuAgent/Lib/cJSON.c:322-351 | printing either way and parsing gives items of an equal tree |
| `Base64.EncodedFits` | NL6621-Dev/Source/App/NuAgent/Lib/base64.c:39-41 | the text and its NUL fit into the memory computed |
| `Base64.Encode` | NL6621-Dev/Source/App/NuAgent/Lib/base64.c:32-87 | the encoding with its line feeds, written within that memory |
| `Base64.TableIs` | NL6621-Dev/Source/App/NuAgent/Lib/base64.c:17-18 | the characters are those of the alphabet of RFC 1341, in its order |
| `Base64.ValueIs` | NL6621-Dev/Source/App/NuAgent/Lib/base64.c:108-113 | the values of the decoder are the places in that alphabet; other characters but the padding have none |
| `Base64.FourAreBits` | NL6621-Dev/Source/App/NuAgent/Lib/base64.c:47-51 | four characters are the 24 bits of three bytes, the highest first |
| `Base64.PaddedAreBits` | NL6621-Dev/Source/App/NuAgent/Lib/base64.c:62-74 | one or two bytes are encoded like three with zeros, with padding where there is no byte |
| `Base64.EncodedIsLined` | NL6621-Dev/Source/App/NuAgent/Lib/base64.c:53-80 | lines end after 72 characters, and the last one ends too |
| `Base64.SampleTexts` | NL6621-Dev/Source/App/NuAgent/Lib/base64.c:32-87 | three bytes, and one, with their texts |
| `Base64.Decode` | NL6621-Dev/Source/App/NuAgent/Lib/base64.c:100-152 | the bytes of the groups of four characters in the table, without the padding |
| `Base64.SkipsOthers` | NL6621-Dev/Source/App/NuAgent/Lib/base64.c:115-130 | characters that are neither in the alphabet nor padding make no difference |
| `Base64.RoundTrip` | NL6621-Dev/Source/App/NuAgent/Lib/base64.c:32-152 | decoding an encoding gives back the bytes, for every input |
| `Base64.EncodeThenDecode` | NL6621-Dev/Source/App/NuAgent/Lib/base64.c:32-152 | the same of the two functions of the program |
| `RingBuffer.Ring.Write` | NL6621-Dev/Source/App/NuAgent/Lib/ring_buffer.c:168-191 | appends the first bytes, as many as there is space for, in at most two copies |
| `RingBuffer.Ring.Read` | NL6621-Dev/Source/App/NuAgent/Lib/ring_buffer.c:204-228 | removes the oldest bytes, as many as there are, in order and in at most two copies |
| `RingBuffer.Ring.WriteChar` | NL6621-Dev/Source/App/NuAgent/Lib/ring_buffer.c:143-156 | appends one byte unless the buffer is full |
| `RingBuffer.Ring.Count` | NL6621-Dev/Source/App/NuAgent/Lib/ring_buffer.c:73-80 | the number of bytes stored |
| `RingBuffer.Ring.Space` | NL6621-Dev/Source/App/NuAgent/Lib/ring_buffer.c:90-97 | size - 1 less the number of bytes stored |
| `RingBuffer.Ring.Full` | NL6621-Dev/Source/App/NuAgent/Lib/ring_buffer.c:61-64 | full if and only if size - 1 bytes are stored |
| `RingBuffer.RunIsFifo` | NL6621-Dev/Source/App/NuAgent/Lib/ring_buffer.c:143-228 | over any run of calls, what was accepted is what came out followed by what is stored |
| `RingBuffer.CallAll` | NL6621-Dev/Source/App/NuAgent/Lib/ring_buffer.c:143-228 | and the calls on the buffer are such a run, from the queue before to the queue behind |

## Left out

- Disk errors, write protection and removal of the medium: disk functions succeed, so the branches for their errors are not modelled.
- `sync_fs`, `f_sync` and the FSINFO sector: only the flag and the counters that feed them are modelled, and that `f_unlink` ends with the window written.
- Path parsing, 8.3 name creation, long names and their code pages, volume labels, time stamps, `f_printf`, `f_gets`, `f_forward`, `f_fdisk`, the re-entrancy hooks, the lock table and the tiny configuration.
- Unlink.FUnlink: following the path is not modelled; the directory is given.
- Window.SyncWindow: there is no log of the drive itself. It changes in the FAT only here, where it becomes the logical disk, so what it holds is a logged state or the half state of `FatAccess.Put12`; the two copies of the FAT may differ in between.
- File.OpenFile: opening an existing file once its entry is found; creating and overwriting files is left out.
- FileRun.CallAll: the file is used alone; two open files on one chain are not modelled.
- Allocator.CreateChain: for a cluster outside every chain the contract says what happens, but the run theorem is about callers that name chain members.
- FastSeek.FSeekMapped: the table is one built for the chain as it is; writing through a mapped file is left out.
- Mkfs.FMkfs: boot code, the CHS and OEM fields, media bytes and the sectors it clears are left out; `_MULTI_PARTITION` is 0, the answers of the drive are parameters, and the final equation is for volumes where four bytes per cluster do not overflow 32 bits.
- Diskio.DiskWrite: flash is modelled in units of 512 bytes, as every transfer is; `disk_ioctl` is constants, and time is left out.
- Dhcp.Server.RecvCb: building, sending and parsing packets, and the station status that releases a bound entry at a tick, which is a parameter of the tick.
- JsonParse.Parse: nothing is promised for a text with a string on which `parse_string` reads behind the text or writes behind its memory.
- JsonGrammar.SourceReads: the escape of NUL, which `parse_string` drops, and that of half a surrogate pair mean no character; what becomes of them is in `Json.ParseUnicode` only. That a text outside the grammar fails is not claimed, since the parser accepts some.
- JsonString.ProperParses: the condition is sufficient; a malformed escape may also do no harm (`JsonString.PassedButFits`).
- JsonParse.ReadNumber: double arithmetic is exact, exponents do not overflow an int, and the result of a conversion to int that C leaves undefined is not promised.
- JsonPrint.PrintBuffered: a first buffer of size 0, for which there may be no memory, is left out.
- JsonPrint.PrintValue: numbers are 32-bit integers, strings hold no NUL; texts of more than 2^30 bytes and failing allocations are left out.
- cJSON's functions that build, edit, copy, minify and delete trees, and its hooks.
- Base64.Encode: allocation succeeds, and the length times four is an int.
- RingBuffer.Ring: a reader and a writer interleaved inside a call, and `ring_buf_free`, are left out.
- Board drivers, network adapters, the DNS server, parameters and the mobile applications.
