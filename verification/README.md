# NEO shell and NEORV32 software: a Dafny model

This project models, in Dafny, the protocol and algorithm cores of a small RISC-V shell
(`src/`) and of the NEORV32 software it builds on (`neorv32/sw/`), and proves what they are for.

| part | files | what is modelled |
|---|---|---|
| 1-Wire ROM search | `RomOrder`, `RomSearch`, `RomBytes`, `RomCrc`, `OneWire` | a bus of devices answering by wired-AND; the master's search state and every operation on it |
| FAT32 read path | `Bits`, `FatVolume`, `FatFile`, `FatDir`, `FatMount`, `FatOpen`, `FatExample` | mounting, cluster chains, reading and seeking with a cached cursor, directory search, opening by path |
| transaction language | `TwiSyntax`, `TwiPrinter`, `TwiCanonical`, `TwiGrouping`, `TwiScan`, `TwiMarks`, `TwiSpecial`, `TwiGrammar`, `TwiParser`, `TwiExec` | the parser with its cursor and payload pool, the language as a grammar, a printer, the executor and its bus trace |
| dual-core protocols | `SpinLock`, `Primes`, `LargestPrime`, `DualCore` | the LR/SC spinlock, trial division in 32 bits, the two-core prime count |
| arithmetic and text | `Xtea`, `XteaWords`, `NeoNumbers`, `NeoFormat`, `NeoLaws`, `NeoIo` | the XTEA loops, number rendering, the formatter and its two sinks |

`Basics` holds what several parts share. Code that updates state in place is modelled by classes and methods with loops; each such method is
proved against a specification function or predicate, and the properties are proved about those.

## How the model reads the code

* **1-Wire.** `Bus` holds a fixed set of 64-bit ROM numbers (`Rom`, least significant bit first) and the subset
  still taking part in the running search. A bit read is the AND over that subset, the complement read the AND of
  the complements, a written bit filters the subset. One call of the search is characterised without reference to
  the bus: `Selected` says which device it arrives at for given search state. A bus is `AllWellFormed` if every
  ROM number passes the CRC and has a family code other than 0.
* **FAT.** The disk is a partial map from sector to 512 bytes; reading a sector that is not in it fails. All sector,
  cluster and offset arithmetic is taken modulo 2^32 where the code's types do so. Layouts are those of the sections
  "FAT Data Structure" and "FAT Directory Structure" of the Microsoft FAT32 File System Specification, version 1.03. `pf_lseek` is compiled out by
  `pffconf.h:14`; it is modelled in full. A division by a cluster size of 0 in `pf_mount` gives all ones, as the
  RISC-V `divu` instruction does. Definitions about clusters use quotients and products by counting (`Bits.Quot`, `Bits.Rest`,
  `Bits.Times`); the lemmas whose names end in `Is` say the same with `/`, `%` and `*`.
  `FatExample` exhibits a medium that meets what `FatOpen.Session` assumes.
* **Transactions.** `TwiSyntax` defines the language by functions on the text that remains; `TwiParser.Parser`
  is the parser with its cursor, command array and payload pool, and is proved to compute just that.
  `TwiGrammar` is the language as a grammar, written without the parser; the parser accepts its lines and no others
  (`TwiGrammar.AcceptedIff`).
  `TwiScan` finds the bits of a line by reading it once from left to right, without parsing it.
  `TwiPrinter` and `TwiCanonical` define a printer for mixed formats, which the repository does not have.
  Where the repository's `README.md` says that a byte A0 to A3 must not be written in hexadecimal inside a command,
  the code is more generous: such a byte is mistaken only as the first of a hex group
  (`TwiPrinter.GroupTakenForCommand`); a count written as the two digits A0 to A3 is mistaken likewise. And an
  underscore may stand before the first bit of a binary byte, which the comment at `src/neo_parser.c:88` excludes.
  On the bus the host acknowledges every byte read but the last, as section 3.1.6 of UM10204 asks.
* **Harts and cores.** Each access to a shared variable is one step, and steps of different harts or cores
  interleave in any order. A store-conditional may fail at any time, and a reservation may be lost at any time;
  the reservation rules are those of section 8.2 of the RISC-V Unprivileged ISA, version 20191213.
* **A false promise.** `is_prime` does not decide primality for all 32-bit numbers: `i*i` wraps around, its largest
  value is 4294967289, and from there on the loop runs until `i` divides `n`. So the one 32-bit prime
  beyond that value, 4294967291, is called composite. `LargestPrime` proves that it is prime (by a certificate),
  that it is the only exception, and which ranges are miscounted.
* **Formatter.** Kept as coded, also where C99 would have it otherwise: with a precision, zeros are put before the
  minus sign. `NeoFormat.PieceReadsBack` says exactly when the printed number reads back.

## Model

| member | source | states |
|---|---|---|
| OneWire.Searcher.Search | neorv32/sw/example/demo_onewire/onewire_aux.h:81-198 | one call finds something unless the last call was the last, the bus is empty, or the bytes fail CRC or family code; it ends at the device determined by the kept state, with LastDiscrepancy the deepest conflict where that device has 0, LastDeviceFlag set iff there is none, and the family record likewise |
| OneWire.Searcher.WalkBits | neorv32/sw/example/demo_onewire/onewire_aux.h:113-172 | the 64-bit loop never meets a silent bus and arrives at the selected device with its CRC accumulated |
| OneWire.Searcher.SearchBit | neorv32/sw/example/demo_onewire/onewire_aux.h:116-156 | one bit keeps bus, buffer and both discrepancy records in step |
| OneWire.Searcher.Choose | neorv32/sw/example/demo_onewire/onewire_aux.h:116-146 | the direction is one some remaining device has, and follows the choice rule where devices differ; only a 0 taken at a difference is recorded |
| OneWire.Searcher.StoreBit | neorv32/sw/example/demo_onewire/onewire_aux.h:148-153 | one bit of the buffered ROM number changes and no other |
| OneWire.Searcher.NextBit | neorv32/sw/example/demo_onewire/onewire_aux.h:158-169 | number, byte and mask stay in step over the mask's 8-bit overflow, and each completed byte enters the CRC |
| OneWire.Searcher.First | neorv32/sw/example/demo_onewire/onewire_aux.h:54-62 | the first search, whatever the state before |
| OneWire.Searcher.Next | neorv32/sw/example/demo_onewire/onewire_aux.h:69-73 | the next search, and the state reset when it finds nothing |
| OneWire.Searcher.Verify | neorv32/sw/example/demo_onewire/onewire_aux.h:205-246 | TRUE exactly if the buffered ROM number is on a well-formed bus; the exact condition on any bus; all search state is left as it was |
| OneWire.Searcher.TargetSetup | neorv32/sw/example/demo_onewire/onewire_aux.h:252-263 | the whole state after setting up a family target |
| OneWire.Searcher.FamilySkipSetup | neorv32/sw/example/demo_onewire/onewire_aux.h:269-278 | the whole state after setting up a family skip |
| OneWire.Searcher.FindFamily | neorv32/sw/example/demo_onewire/onewire_aux.h:248-263 | target set-up then next search finds the least device of the family whenever the family is present on a well-formed bus |
| OneWire.Searcher.ScanBus | neorv32/sw/example/demo_onewire/main.c:240-265 | first, then next until FALSE: on a well-formed bus every device exactly once in increasing order; on any bus exactly the devices up to which all are well formed |
| OneWire.Searcher.NextFamily | neorv32/sw/example/demo_onewire/onewire_aux.h:265-278 | skip then next search: found iff there is a later family and the device reached is accepted, and then the family record is that of the device found |
| OneWire.Searcher.ListFamilies | neorv32/sw/example/demo_onewire/onewire_aux.h:137-146 | first, then skip and next until FALSE: on a well-formed bus the least device of each family, each family once, in order; on any bus those up to which all such devices are well formed |
| OneWire.Bus.ReadBit | neorv32/sw/example/demo_onewire/onewire_aux.h:115-117 | wired-AND of the remaining devices' bits, then of their complements |
| OneWire.Bus.WriteBit | neorv32/sw/example/demo_onewire/onewire_aux.h:155-156 | the written direction drops the devices with the other bit |
| OneWire.LastBitDecided | neorv32/sw/example/demo_onewire/onewire_aux.h:285-292 | two CRC-valid ROM numbers cannot differ in bit 64 only |
| OneWire.CrcCompletes | neorv32/sw/example/demo_onewire/onewire_aux.h:285-292 | every family code but 0 and every serial number make a CRC-valid ROM number |
| OneWire.NoLastConflict | neorv32/sw/example/demo_onewire/onewire_aux.h:217-219 | hence a LastDiscrepancy of 64 never meets a conflict at 64 on a well-formed bus |
| OneWire.FollowingSelects | neorv32/sw/example/demo_onewire/onewire_aux.h:217-232 | with LastDiscrepancy 64 the search returns to the buffered device exactly when it is there and has no twin differing in a last bit of 0 |
| OneWire.VerifyOutcome | neorv32/sw/example/demo_onewire/onewire_aux.h:221-235 | coming back with the same bytes is the same as being on the bus |
| OneWire.TargetSelectsLeast | neorv32/sw/example/demo_onewire/onewire_aux.h:256-262 | following a target's family code and then zeros selects the least device of that family |
| OneWire.ScanStep | neorv32/sw/example/demo_onewire/onewire_aux.h:174-186 | the scan goes on exactly while another well-formed device comes next |
| OneWire.FamilyStep | neorv32/sw/example/demo_onewire/onewire_aux.h:269-278 | the family walk goes on exactly while another family comes next whose least device is well formed |
| OneWire.StopsAtFlaw | neorv32/sw/example/demo_onewire/onewire_aux.h:174-195 | a scan that stops at a rejected device has listed exactly what comes before it |
| OneWire.FamiliesStopAtFlaw | neorv32/sw/example/demo_onewire/onewire_aux.h:174-195 | likewise for the family walk |
| OneWire.TakeBit | neorv32/sw/example/demo_onewire/onewire_aux.h:137-145 | what settling a bit does to the remaining devices and to both discrepancy records |
| RomSearch.SelectedIsUnique | neorv32/sw/example/demo_onewire/onewire_aux.h:129-135 | the kept state determines the device found |
| RomSearch.NextIsSuccessor | neorv32/sw/example/demo_onewire/onewire_aux.h:129-145 | the next search selects the successor in bit order |
| RomSearch.LastDeviceIff | neorv32/sw/example/demo_onewire/onewire_aux.h:180-182 | LastDiscrepancy is 0 exactly at the greatest device |
| RomSearch.ScanEnds | neorv32/sw/example/demo_onewire/onewire_aux.h:174-186 | when the run stops, exactly the devices have been found, each once |
| RomSearch.NextFamily | neorv32/sw/example/demo_onewire/onewire_aux.h:269-278 | the discrepancy within the first eight bits leads to the next family present |
| RomSearch.FamilyScanEnds | neorv32/sw/example/demo_onewire/onewire_aux.h:275-277 | when it is 0, exactly the least devices of all families have been found |
| RomBytes.TableZero | neorv32/sw/example/demo_onewire/onewire_aux.h:14-31 | the CRC table is 0 at index 0 and nowhere else |
| RomBytes.SevenBytesDecide | neorv32/sw/example/demo_onewire/onewire_aux.h:285-292 | bytes passing the CRC are determined by the first seven |
| RomCrc.TableIsCrc | neorv32/sw/example/demo_onewire/onewire_aux.h:14-31 | every entry of the table is its index shifted eight times, with 0x8C xored in after each 1 shifted out |
| RomCrc.CrcIsRemainder | neorv32/sw/example/demo_onewire/onewire_aux.h:285-292 | the CRC of a ROM number is 0 exactly if long division of its 64 bits by x^8 + x^5 + x^4 + 1 leaves nothing |
| OneWire.WellFormedIs | neorv32/sw/example/demo_onewire/onewire_aux.h:174-195 | a ROM number is accepted exactly if that division leaves nothing and a bit of the family code is set |
| FatFile.FatFs.Read | neorv32/sw/bootloader/petit_fatfs/pff.c:928-975 | delivers exactly the next bytes of the file cut at its end, counts them in br and fptr, leaves the rest of the buffer alone, keeps the cursor coherent; error results and their flag on any disk |
| FatFile.FatFs.NextSector | neorv32/sw/bootloader/petit_fatfs/pff.c:950-964 | on a sector boundary the cursor moves to the sector that holds the next byte, following the chain when a cluster ends |
| FatFile.FatFs.ReadPiece | neorv32/sw/bootloader/petit_fatfs/pff.c:965-971 | a piece within one sector is that piece of the file |
| FatFile.FatFs.ReadStep | neorv32/sw/bootloader/petit_fatfs/pff.c:949-972 | one round of the read loop delivers the next piece and keeps the cursor coherent |
| FatFile.FatFs.Seek | neorv32/sw/bootloader/petit_fatfs/pff.c:1055-1095 | ends at the offset cut at the file size with a coherent cursor, on either path; error results and their flag on any disk |
| FatFile.FatFs.SeekTo | neorv32/sw/bootloader/petit_fatfs/pff.c:1070-1092 | on either path the cursor ends at the goal, coherent |
| FatFile.FatFs.SeekStart | neorv32/sw/bootloader/petit_fatfs/pff.c:1072-1080 | the starting cluster is at or before the goal, and fptr and the rest add up to it |
| FatFile.FatFs.FollowChain | neorv32/sw/bootloader/petit_fatfs/pff.c:1081-1087 | following the chain ends in the cluster of the goal |
| FatFile.CursorAtIs | neorv32/sw/bootloader/petit_fatfs/pff.c:951-967 | the cached cluster is number (fptr - 1) / 512 / csize of the chain, and mid-sector the cached sector is that of fptr |
| FatFile.FatFs.Run | neorv32/sw/bootloader/petit_fatfs/pff.c:928-1095 | every interleaving of seeks and reads gives what the same operations give on the flattened file |
| FatFile.ChunkingIsInvisible | neorv32/sw/bootloader/petit_fatfs/pff.c:946-974 | reads of any sizes, put together, are the file's bytes cut to the total asked for |
| FatFile.SeekForgets | neorv32/sw/bootloader/petit_fatfs/pff.c:1067-1094 | after any operations, a seek then a read gives the bytes from that offset |
| FatFile.Boundary | neorv32/sw/bootloader/petit_fatfs/pff.c:951-960 | the masked sector number is the sector within the cluster, and the cluster taken is the one of the next byte |
| FatFile.StartHere | neorv32/sw/bootloader/petit_fatfs/pff.c:1072-1076 | rounding down by the mask gives the first byte of the current cluster |
| FatFile.NextInChain | neorv32/sw/bootloader/petit_fatfs/pff.c:1081-1084 | with more than a cluster to go the chain goes on |
| FatFile.SeekEnds | neorv32/sw/bootloader/petit_fatfs/pff.c:1088-1091 | the sector set at the end of a seek makes the cursor coherent at the goal |
| FatVolume.ClusterSectors | neorv32/sw/bootloader/petit_fatfs/pff.c:479-489 | a valid cluster's sectors are numbered without wrapping, from a first sector that is not 0 |
| FatVolume.SoundVolumeIs | neorv32/sw/bootloader/petit_fatfs/pff.c:853-882 | what soundness of a volume asks of its fields, as a product |
| FatVolume.Clust2SectIs | neorv32/sw/bootloader/petit_fatfs/pff.c:479-489 | the sector number as a product in 32 bits, 0 for an invalid cluster |
| FatVolume.SectorOfIs | neorv32/sw/bootloader/petit_fatfs/pff.c:951-963 | the mask is the remainder, and sector s of a file is sector s % csize of cluster s / csize of its chain |
| FatVolume.GetFatIs | neorv32/sw/bootloader/petit_fatfs/pff.c:463-465 | the table is one array of 32-bit entries over the sectors from fatbase on, and a link is the low 28 bits of the cluster's entry |
| FatVolume.NoLink | neorv32/sw/bootloader/petit_fatfs/pff.c:440-471 | the link is 1 for an invalid cluster and where the table cannot be read |
| FatVolume.FlattenAt | neorv32/sw/bootloader/petit_fatfs/pff.c:961-963 | sector r of cluster q of the chain comes after q whole clusters and r sectors of the file |
| FatVolume.StoredInIs | neorv32/sw/bootloader/petit_fatfs/pff.c:946-966 | what it takes for a chain to hold a file, its room as a product |
| FatVolume.PieceOfFile | neorv32/sw/bootloader/petit_fatfs/pff.c:965-967 | a piece of a sector is the matching piece of the file |
| FatDir.Dir.Rewind | neorv32/sw/bootloader/petit_fatfs/pff.c:514-534 | fails exactly for start cluster 1 or one beyond the table; otherwise at entry 0 |
| FatDir.Dir.Next | neorv32/sw/bootloader/petit_fatfs/pff.c:543-575 | the index strictly increases on any disk; on a stored directory the cursor is at the next entry or the end is reported |
| FatDir.Dir.Find | neorv32/sw/bootloader/petit_fatfs/pff.c:584-607 | ends on any disk; on a stored directory finds the first matching entry before the first zero entry, and reports no file exactly if there is none |
| FatDir.NextEntry | neorv32/sw/bootloader/petit_fatfs/pff.c:555-571 | across sector and cluster ends the cursor keeps to the table's entries |
| FatDir.NextCluster | neorv32/sw/bootloader/petit_fatfs/pff.c:562-568 | at the end of a cluster the link leads to the next cluster of the directory or ends it |
| FatDir.SameTable | neorv32/sw/bootloader/petit_fatfs/pff.c:543-575 | a directory has one table, whichever chain it is read from |
| FatDir.EntrySectorIs | neorv32/sw/bootloader/petit_fatfs/pff.c:555-568 | entry k is in sector k / 16 % csize of cluster k / 16 / csize, and how many entries there are |
| FatDir.TableIsContent | neorv32/sw/bootloader/petit_fatfs/pff.c:599-601 | entry k is bytes 32k to 32k + 31 of the directory's chain read as one file |
| FatDir.VolumeLabelIs | neorv32/sw/bootloader/petit_fatfs/pff.c:604-604 | the entries passed over are those with attribute bit 3 |
| FatDir.FirstMatchIs | neorv32/sw/bootloader/petit_fatfs/pff.c:598-605 | what the search looks for, byte by byte: the first entry with the 11 bytes of the name that is no volume label, no entry up to it starting with 0 |
| FatMount.Drive.Mount | neorv32/sw/bootloader/petit_fatfs/pff.c:819-885 | which result for which disk: a medium whose sector 0, or whose first partition, boots at p mounts the volume at p, and no other medium mounts |
| FatMount.Drive.SetUp | neorv32/sw/bootloader/petit_fatfs/pff.c:853-882 | the geometry computed in 32 bits, accepted exactly from 0xFFF7 clusters on |
| FatMount.LayoutIs | neorv32/sw/bootloader/petit_fatfs/pff.c:853-879 | for a block that fits, every field of the volume as a formula of the block, a 16-bit size counting unless it is 0 |
| FatMount.CheckFsIs | neorv32/sw/bootloader/petit_fatfs/pff.c:783-802 | what probing a sector finds, said of its bytes: signature 55 AA at 510 and the letters FA at 82 |
| FatMount.FindBootIs | neorv32/sw/bootloader/petit_fatfs/pff.c:832-848 | the boot sector is found at p exactly if sector 0 is one and p is 0, or sector 0 has a partition whose first sector p is one |
| FatMount.BlockIs | neorv32/sw/bootloader/petit_fatfs/pff.c:851-879 | the parameter block is the little-endian words of the boot sector at their places |
| FatMount.ClustersAreDisjoint | neorv32/sw/bootloader/petit_fatfs/pff.c:853-879 | without wrap-around, distinct valid clusters have disjoint sector ranges after the FAT area and before the end of the volume |
| FatMount.AreaOf | neorv32/sw/bootloader/petit_fatfs/pff.c:862-879 | where the areas and each cluster lie |
| FatMount.MountedIsSound | neorv32/sw/bootloader/petit_fatfs/pff.c:853-879 | a mounted volume with a power-of-two cluster size meets what reading requires |
| FatOpen.FindIn | neorv32/sw/bootloader/petit_fatfs/pff.c:584-607 | the search of one directory finds its first entry of the name, and reports no file if it has none |
| FatOpen.HoldsOne | neorv32/sw/bootloader/petit_fatfs/pff.c:584-607 | a name is that of one entry at most |
| FatOpen.PathStep | neorv32/sw/bootloader/petit_fatfs/pff.c:759-771 | what finding the first name says of the rest of the path |
| FatOpen.FollowPath | neorv32/sw/bootloader/petit_fatfs/pff.c:742-774 | following a path from the root ends at the entry it leads to, and reports no file where it breaks off |
| FatOpen.Open | neorv32/sw/bootloader/petit_fatfs/pff.c:894-918 | opens the file the path leads to with its start cluster and size, the cursor coherent at 0; no directory, no empty path |
| FatOpen.EntryIs | neorv32/sw/bootloader/petit_fatfs/pff.c:492-507 | attribute bit 4, start cluster with its high word, and size, byte by byte |
| FatOpen.Session | neorv32/sw/bootloader/petit_fatfs/pff.c:819-1095 | for a boot block that fits, with a power of two as cluster size: mount, open by path, then any reads and seeks return what the reference returns on the content the entry names |
| FatExample.SomeMediumOpens | neorv32/sw/bootloader/petit_fatfs/pff.c:819-918 | there is a medium, a path and a chain that meet these assumptions |
| FatExample.FarFileOpens | neorv32/sw/bootloader/petit_fatfs/pff.c:492-507 | and on it a file that starts at cluster 65536 |
| TwiParser.Parser.ParseTransaction | src/neo_parser.c:560-624 | the parser accepts what the language accepts and then holds its commands and payload and no error, and reports its error otherwise |
| TwiParser.Parser.ParseChain | src/neo_parser.c:598-621 | command after command to the end of the line |
| TwiParser.Parser.ParseOneTwiCmd | src/neo_parser.c:427-478 | one command: its record and its bytes at the end of the pool |
| TwiParser.Parser.ParseWritePayload | src/neo_parser.c:182-298 | groups up to the end of the line or the next command |
| TwiParser.Parser.BinGroup | src/neo_parser.c:228-260 | bytes of eight bits, looking ahead over underscores |
| TwiParser.Parser.HexGroup | src/neo_parser.c:202-227 | pairs of hex digits |
| TwiParser.Parser.AsciiGroup | src/neo_parser.c:262-281 | letters and digits as themselves |
| TwiParser.Parser.ParseOneByteAny | src/neo_parser.c:305-346 | the internal address in any format |
| TwiParser.Parser.ParseReadTail | src/neo_parser.c:353-421 | count, display format and closing underscore of a read |
| TwiParser.Parser.PushPayload | src/neo_parser.c:150-167 | one byte more in the pool and in the command, or one of two errors and nothing changed |
| TwiParser.Parser.ParseSpecial | src/neo_parser.c:508-554 | the out, inp and help commands, as the language has them |
| TwiSpecial.SpecialLines | src/neo_parser.c:508-554 | out_ with the eight bits of v, highest first, sets v; inp reads; help and ? ask for help; no other line is accepted, unless it starts a transaction |
| TwiGrammar.AcceptedIff | src/neo_parser.c:560-624 | a line is parsed as a transaction exactly if the grammar has it: blanks, at most 160 commands, at most 1022 payload bytes each and 2044 in all, with every freedom of underscores, formats and digits; and it is parsed as what the grammar says it stands for |
| TwiGrammar.LineAccepted | src/neo_parser.c:560-624 | every line of the grammar is accepted as the transaction it stands for |
| TwiGrammar.LineDerived | src/neo_parser.c:560-624 | every accepted line that starts as a transaction does is one of the grammar, with its commands found |
| TwiGrammar.FormAccepted | src/neo_parser.c:427-478 | a command of the grammar is read as its record and bytes, up to the next command |
| TwiGrammar.FormDerived | src/neo_parser.c:427-478 | what is read as a command is a command of the grammar |
| TwiGrammar.PiecesAccepted | src/neo_parser.c:182-298 | groups and underscores in any order are read as their bytes; only a hex group starting with A0 to A3, and an ASCII group with no underscore behind it, are excluded |
| TwiGrammar.PayloadDerived | src/neo_parser.c:182-298 | every accepted payload is made of such groups and underscores |
| TwiGrammar.SlotAccepted | src/neo_parser.c:305-346 | an internal address in any format, underscores before it, is read as its byte |
| TwiGrammar.SlotDerived | src/neo_parser.c:305-346 | and nothing else is read as one |
| TwiGrammar.TailAccepted | src/neo_parser.c:353-421 | a count of one to three hex digits, at most 0x3FE and not starting as a command does, is read with its format |
| TwiGrammar.TailDerived | src/neo_parser.c:353-421 | and nothing else is read as one |
| TwiGrammar.BitsAccepted | src/neo_parser.c:86-113 | a binary byte may have underscores before any of its bits |
| TwiGrammar.BitsDerived | src/neo_parser.c:86-113 | and is nothing but eight bits and such underscores |
| TwiPrinter.RoundTrip | src/neo_parser.c:427-624 | printing commands in any mix of formats, at most 160 commands and 2044 payload bytes, and parsing gives the same commands and bytes |
| TwiPrinter.CommandBack | src/neo_parser.c:427-478 | one printed command is read back, whatever command follows |
| TwiPrinter.PayloadBack | src/neo_parser.c:182-298 | any split of a payload into groups is read back as its bytes |
| TwiPrinter.ReadTailBack | src/neo_parser.c:353-421 | any count up to 0x3FE in three hex digits is read back with its format |
| TwiPrinter.GroupTakenForCommand | src/neo_parser.c:131-144 | a group is taken for a command exactly if it is a hex group starting with A0 to A3; then the payload ends before it |
| TwiCanonical.AcceptedShape | src/neo_parser.c:150-167 | of every accepted line the payload slices tile the pool in command order, read and write agree with the control byte, counts are at most 0x3FE and have a format |
| TwiCanonical.ChainShape | src/neo_parser.c:427-478 | the same of any part of a line, by what each command adds |
| TwiCanonical.Reparse | src/neo_parser.c:560-624 | every accepted line's transaction, printed canonically and parsed again, is the same transaction |
| TwiGrouping.GroupingIsInvisible | src/neo_parser.c:86-113 | an underscore after any bit of a binary group of an accepted line changes nothing |
| TwiGrouping.EveryBitIsMarked | src/neo_parser.c:86-113 | the positions meant are those after each of a byte's eight bits |
| TwiScan.MarksAreScanned | src/neo_parser.c:86-113 | of every accepted line, however written, the positions meant are those after the bits found by reading it once from left to right |
| TwiScan.AnyGroupingIsInvisible | src/neo_parser.c:86-113 | underscores after any set of bits of an accepted line, all at once, change nothing |
| TwiMarks.MarksAreBits | src/neo_parser.c:86-113 | in a printed line the positions meant are exactly those after a bit of a binary text, address slot or payload |
| TwiMarks.GroupedRoundTrip | src/neo_parser.c:86-624 | with an underscore after any such bit the printed line still parses to its commands and bytes |
| TwiGrouping.BinRunUnder | src/neo_parser.c:228-260 | nor within a run of binary bytes, at its end included |
| TwiGrouping.PayloadUnder | src/neo_parser.c:182-298 | nor in a payload |
| TwiGrouping.SlotUnder | src/neo_parser.c:305-346 | nor in an internal address |
| TwiExec.Run | src/neo_exec.c:188-237 | executing appends just the transaction's trace, whatever the slaves answer |
| TwiExec.ExecWrite | src/neo_exec.c:121-134 | control byte, address, payload slice, each in order |
| TwiExec.ExecRead | src/neo_exec.c:136-163 | control byte, address, then 0xFF as often as asked, acknowledged by the host except the last |
| TwiExec.TextToBus | src/neo_exec.c:113-163 | what the bus sees of a printed text is what its commands say, byte for byte |
| TwiExec.AcceptedToBus | src/neo_exec.c:188-237 | the same of every accepted line, by the commands its canonical form lists |
| TwiExec.WriteEvents | src/neo_exec.c:121-134 | event by event: start, control byte, address, the bytes in order, stop, none acknowledged by the host |
| TwiExec.ReadEvents | src/neo_exec.c:136-163 | event by event: start, control byte, address, 0xFF as often as asked, stop; the host acknowledges exactly the bytes before the last |
| TwiExec.PrintedEvents | src/neo_exec.c:121-163 | the same of what a printed command is to put on the bus |
| TwiExec.SpecialToBus | src/neo_exec.c:211-231 | what each special line does to the port |
| TwiExec.RunLine | src/neo_app.c:53-61 | parsing a line and running what was stored: the commands of a printed line; out_ with the bits of v writes v to the port, inp reads it, help and ? do nothing; a line that is none of these and starts no transaction is rejected, and a rejected line does nothing at all |
| SpinLock.MutualExclusion | neorv32/sw/example/demo_dual_core/spinlock.c:18-52 | in every state of every run at most one hart has the lock, and the word is non-zero exactly while one has |
| SpinLock.CheckTells | neorv32/sw/example/demo_dual_core/spinlock.c:44-52 | a check by any hart, the owner included, returns locked exactly if some hart has the lock, and changes no owner |
| SpinLock.StepKeepsInv | neorv32/sw/example/demo_dual_core/spinlock.c:18-52 | every step of every hart keeps the invariant, failed and lost reservations included |
| SpinLock.RunRefines | neorv32/sw/example/demo_dual_core/spinlock.c:18-36 | a run is, seen by its successful stores, a run of an owner that is a hart or nobody |
| SpinLock.Refines | neorv32/sw/example/demo_dual_core/spinlock.c:18-36 | the lock is taken only when free and released only by its owner |
| SpinLock.CanProceed | neorv32/sw/example/demo_dual_core/spinlock.c:18-36 | a hart trying for the free lock, or releasing it, can do so by its own two steps, also after a store that failed |
| SpinLock.UnlockReturnsWhenDone | neorv32/sw/example/demo_dual_core/spinlock.c:28-36 | in every run a hart in spin_unlock stays in it until a store of its own has succeeded, which frees the word and ends the call |
| SpinLock.LockReturnsWhenDone | neorv32/sw/example/demo_dual_core/spinlock.c:18-21 | in every run a hart in spin_lock stays in it until a store of its own has succeeded, which takes the word and ends the call |
| SpinLock.CallGoesOn | neorv32/sw/example/demo_dual_core/spinlock.c:18-36 | what any step of any hart does to the calls of every hart |
| Primes.IsPrime | neorv32/sw/example/demo_dual_core_primes/main.c:31-43 | 1 exactly for the primes below 4294967289, for every 32-bit number |
| Primes.EscapesIff | neorv32/sw/example/demo_dual_core_primes/main.c:37-37 | the loop condition can fail exactly for numbers below the largest square modulo 2^32 |
| Primes.SquareBound | neorv32/sw/example/demo_dual_core_primes/main.c:37-37 | i*i in 32 bits is at most 4294967289 |
| Primes.ExactWithoutWrap | neorv32/sw/example/demo_dual_core_primes/main.c:31-43 | below 65535*65535 the answer is exact |
| Primes.CountPrimes | neorv32/sw/example/demo_dual_core_primes/main.c:53-62 | the number of those in the range that is_prime reports |
| LargestPrime.ExactIff | neorv32/sw/example/demo_dual_core_primes/main.c:31-43 | the answer is wrong for 4294967291 and for no other 32-bit number |
| LargestPrime.CountExactIff | neorv32/sw/example/demo_dual_core_primes/main.c:53-62 | a range is miscounted exactly if it holds 4294967291 |
| LargestPrime.LargestIsPrime | neorv32/sw/example/demo_dual_core_primes/main.c:31-43 | 4294967291 is prime |
| LargestPrime.WrongAnswer | neorv32/sw/example/demo_dual_core_primes/main.c:31-43 | 4294967291 is a prime that is not reported |
| DualCore.ResultIsPrimeCount | neorv32/sw/example/demo_dual_core_primes/main.c:149-159 | in every interleaving, for every limit below 2^31, core 0 ends with the number of primes below the limit |
| DualCore.Handshake | neorv32/sw/example/demo_dual_core_primes/main.c:71-83 | core 1 starts only after the range is published and counts just that range; core 0 adds only a finished count |
| DualCore.RunKeepsInv | neorv32/sw/example/demo_dual_core_primes/main.c:71-159 | the invariant of both cores and the shared variables |
| DualCore.FairRunsFinish | neorv32/sw/example/demo_dual_core_primes/main.c:149-159 | every fair run ends, with that result, within a bound |
| DualCore.SomeoneReady | neorv32/sw/example/demo_dual_core_primes/main.c:76-158 | the two waiting loops cannot block each other |
| Xtea.EncipherInPlace | neorv32/sw/example/demo_cfu/main.c:104-119 | the block after the loop, and nothing else changed |
| Xtea.DecipherInPlace | neorv32/sw/example/demo_cfu/main.c:130-145 | likewise, starting from the product delta * cycles |
| Xtea.DecipherUndoes | neorv32/sw/example/demo_cfu/main.c:104-145 | deciphering undoes enciphering for every key, block and number of cycles |
| Xtea.EncipherUndoes | neorv32/sw/example/demo_cfu/main.c:104-145 | and enciphering undoes deciphering |
| Xtea.CycleByCycle | neorv32/sw/example/demo_cfu/main.c:137-141 | after deciphering n - m of n cycles the block is that after enciphering m |
| Xtea.SumIsProduct | neorv32/sw/example/demo_cfu/main.c:135-135 | the sum after n cycles is delta * n modulo 2^32 |
| XteaWords.CycleIs | neorv32/sw/example/demo_cfu/main.c:111-115 | a cycle is the loop body of the C with shifts, xor, mask and wrapping addition on 32-bit vectors, its key indices, shift counts and constant written out |
| XteaWords.ValueSum | neorv32/sw/example/demo_cfu/main.c:112-114 | addition of 32-bit vectors is addition of their values modulo 2^32 |
| XteaWords.ValueXor | neorv32/sw/example/demo_cfu/main.c:112-114 | and their xor is the xor of the values |
| XteaWords.EveryWord | neorv32/sw/example/demo_cfu/main.c:104-109 | every word is the value of a vector, so that the law holds of all inputs |
| NeoNumbers.U64ToStr | src/neo_io.c:109-169 | writes the numeral of a 64-bit value at its place, at most 64 characters, and nothing else |
| NeoNumbers.NumeralValue | src/neo_io.c:109-169 | read positionally the numeral gives the value back |
| NeoNumbers.DigitsAre | src/neo_io.c:121-159 | the digits of v are those of v / base and then v % base |
| NeoNumbers.ValueIs | src/neo_io.c:178-182 | one digit more makes the value base times as much plus the digit |
| NeoNumbers.NumeralShape | src/neo_io.c:109-169 | 1 to 64 digits of the base, no zero in front except "0" |
| NeoNumbers.PlainIsDigits | src/neo_io.c:109-169 | no other digits without leading zeros have that value |
| NeoNumbers.SplitDigit | src/neo_io.c:118-161 | masks and shifts are remainder and quotient |
| NeoNumbers.ParseUint | src/neo_io.c:174-185 | the longest run of digits and its value |
| NeoNumbers.ParseUndoesRender | src/neo_io.c:174-185 | reading undoes decimal rendering, whatever follows |
| NeoIo.Sink.EmitBuf | src/neo_io.c:83-90 | counts every character and stores those that leave room for the NUL |
| NeoIo.Sink.EmitOut | src/neo_io.c:92-99 | hands every character to the backend and counts it |
| NeoIo.Sink.EmitPadded | src/neo_io.c:187-230 | appends the padded field |
| NeoIo.ReadDirective | src/neo_io.c:243-316 | the directive in the format, the place after it and the arguments left |
| NeoIo.NumberBody | src/neo_io.c:468-520 | the text of a number composed in two buffers of fixed size, zeros after a minus sign included |
| NeoIo.AddressBody | src/neo_io.c:387-412 | an address in hexadecimal, at least eight digits after the prefix |
| NeoIo.FormatCore | src/neo_io.c:232-526 | appends exactly what the format prints, and returns the count |
| NeoIo.VfPrintf | src/neo_io.c:532-539 | hands exactly that text to the backend and returns its length |
| NeoIo.VsnPrintf | src/neo_io.c:556-569 | stores the first size - 1 characters and a NUL, leaves the rest of the buffer, returns the full length |
| NeoIo.TruncationLaw | src/neo_io.c:556-569 | the buffer holds the text cut to size - 1 characters as a string, the whole text exactly if the returned length is below size |
| NeoFormat.PieceLength | src/neo_io.c:187-230 | each padded field contributes the larger of its width and its text with precision padding |
| NeoFormat.PieceReadsBack | src/neo_io.c:425-522 | a printed number, blanks stripped, reads back as that number, except exactly for a negative one with a precision longer than its text |
| NeoLaws.SignedConversion | src/neo_io.c:353-359 | d and i print n as a signed number of 32 bits, or 64 with ll, read in base 10, with the one exception of PieceReadsBack |
| NeoLaws.UnsignedConversion | src/neo_io.c:360-386 | u, o, x, X and b print n modulo 2^32, or 2^64 with ll, read in base 10, 8, 16, 16 and 2 |
| NeoLaws.UnsignedDigits | src/neo_io.c:360-386 | in digits of that base, lower case but for X |
| NeoLaws.StringConversion | src/neo_io.c:333-347 | s prints the string cut to the precision, or (null), filled to the width |
| NeoLaws.CharConversion | src/neo_io.c:326-332 | c prints the one character, filled to the width |
| NeoLaws.AddressConversion | src/neo_io.c:387-412 | p prints 0x and at least eight lower-case hex digits of the address, filled to the width |
| NeoLaws.OtherConversions | src/neo_io.c:348-423 | any other letter is printed behind its percent sign and takes no argument |
| NeoLaws.NumberFilled | src/neo_io.c:425-522 | without precision a number is filled to the width: behind it, or with blanks before it, or with zeros between sign and digits |
| NeoLaws.DirectiveRead | src/neo_io.c:243-316 | flags, width, precision, length and letter are read back from the directive that writes them |
| NeoLaws.FormatOfDirective | src/neo_io.c:243-526 | such a directive in front of any format prints its piece and then the rest |
| NeoLaws.PlainCharacter | src/neo_io.c:234-241 | a character other than % prints itself |
| NeoLaws.IntArgIs | src/neo_io.c:262-289 | where a * stands for a width or precision, the next argument gives it and is used up |
| NeoLaws.OtherLengths | src/neo_io.c:290-314 | h, hh and z change nothing |
| NeoLaws.DigitsInOrder | src/neo_io.c:111-112 | digit d is the character d places after 0, or d - 10 after a or A |
| NeoFormat.MisplacedSign | src/neo_io.c:425-522 | -3 with precision 5 is printed as 000-3 |
| NeoFormat.FormatJoins | src/neo_io.c:232-526 | printing two formats in one go is printing them one after the other, if the first does not end within a directive |

## Left out

- OneWire.Searcher.FindFamily: nothing is promised for a family that is not on the bus; the search then finds some other device, as the code does.
- OneWire.Searcher.NextFamily: only for walks of first search and skips; after plain next searches LastFamilyDiscrepancy may be stale.
- FatFile.FatFs.Seek: the result for an unmounted file system is not modelled.
- The bus is static during a scan; timing, presence pulses and the register interface of the 1-Wire controller are abstract operations.
- FAT12 and FAT16 branches, `pf_write` and the directory listing API, all compiled out; and `create_name`: a path is a list of names in directory form.
- FatOpen.FollowPath: takes the names in directory form; cutting the path text into segments is not modelled.
- FatOpen.Open: likewise, and the result for an unmounted file system is not modelled.
- FatOpen.Session: likewise; it assumes a path to a stored file, the other outcomes of each step being in the contracts of the steps.
- FatFile.FatFs.Read: the destination is memory; forwarding to a stream when no buffer is given, and the result for an unmounted file system, are not modelled.
- FatMount.Drive.Mount: `disk_initialize` is one flag; card initialisation and the transfers below `disk_readp` are not modelled.
- TwiParser.Parser.ParseTransaction: the line is given (no null line), and `error_pos` is not modelled; errors are identified by their message.
- TwiExec.ExecRead: the printing of the bytes read is left out.
- TwiExec.Run: the printed echo and the choice of a default hardware layer are left out. STOP follows every command as in the code, where the repository's README describes a single STOP at the end of a chain; no property rests on it beyond the recorded trace.
- TwiExec.RunLine: the error message printed for a rejected line is left out.
- SpinLock.MutualExclusion: sequential consistency is assumed, that only the hart that has the lock calls `spin_unlock`, and that only harts without it call `spin_lock`.
- DualCore.ResultIsPrimeCount: sequentially consistent accesses, as the `_Atomic` qualifier gives; launching the second core, timing and printing are left out, and the limit is a parameter in place of 100.
- NeoNumbers.ParseUint: numbers are unbounded, so a width or precision beyond `int`, undefined in C, is read as its value.
- NeoIo.FormatCore: requires that zero-filled negative numbers have a width of at most 70, the size of the buffer they are composed in; an argument of the wrong kind or a missing one, undefined in C, is read as 0 or "(null)"; `long` and addresses have 32 bits.
- The backend's return value is ignored, as `neo_vfprintf` does; `neo_puts`, `neo_read_line` and the wrappers with variable argument lists are left out.
- `src/spi_flash.c`, the image generator and the other demo programs are not part of this model.
