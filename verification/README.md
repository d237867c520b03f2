# mgcore in Dafny

A Dafny model of the stateful parts of the mgcore x86_64 kernel: the tmpfs and VFS layer, the
initramfs writer and loader, the network stack with its DHCP client, the scheduler and memory
guard, the physical page allocator, the console and the bounded formatter. Everything the kernel
updates in place is a class with arrays and fields; each method is tied to functions on values, and
the laws are lemmas about those functions. `dafny verify dfyconfig.toml` covers the whole project.

## What is proved

- **Files.** A node table threaded by child and sibling indices and a bump arena refine a plain
  inode table with byte sequences as contents (`Tmpfs`). Extents are disjoint and every byte no file
  has written is zero in every reachable state, so gaps read as zeros although no code zeroes them.
  Creating and removing are single updates of a map from lists of names to nodes, and every node has
  exactly one path.
- **Archive round trip.** For every tree within the kernel's limits, packing it with `mkinitramfs.py`
  and mounting the archive on the freshly initialised file system succeeds and gives back every path
  with its type and exact contents, next to the boot tree and nothing else, if and only if every name
  is ASCII and nothing at the root is called `TRAILER!!!` (`Startup.BootFromTree`).
- **Dots and outcomes.** In every well-formed tree `..` leads back to the directory something was found
  in, for lists of names and for path strings; creates, removes, writes, reads and directory changes
  have their outcomes fixed case by case, with the error numbers (`FileSystem.CreateOutcome` and its
  siblings).
- **Network.** Every frame and message is fixed byte by byte. The checksum loop is one's complement addition and makes every built header check;
  sending and receiving UDP are inverse; ARP hits are always the latest announcement; the DHCP client
  binds only what a matching OFFER and ACK gave it, and for any arrivals succeeds exactly when they
  hold what it needs (`Negotiation.SucceedsExactly`); a server's OFFER and ACK, given as bytes, bind
  the address they carry (`Negotiation.OfferAndAckBind`).
- **Scheduling.** A runnable task runs within 32 ticks whatever else happens, and nobody is picked
  twice before it; sleepers run neither early nor late; charged ticks add up.
- **Memory.** Bitmap, counter and set agree in every run of requests; no page is handed out twice.
  Safeboot comes only after five critical samples in a row and only for a killable suspect.
- **Console and formatter.** A 512-row ring agrees with a terminal that forgets nothing; a bounded
  buffer holds the longest prefix of the unbounded output, and a printed address parses back.

## Where the code and the natural expectation part ways

Each is modelled as the code does it. The first seven come with the exact condition under which the
expected law holds; the last four say what holds instead.

- A path that ends in a slash creates a node no lookup can reach: create-then-lookup holds exactly
  without the slash (`FileSystem.CreateThenLookup`; `FileSystem.SlashHides` creates `/a/`).
- Normalising keeps the components exactly when the 256-byte buffer cuts at most a final slash
  (`Paths.NormalizedTokens`; a name of 255 bytes is cut in `Paths.LongNameLoses`); `chdir` keeps them exactly when the 128-byte buffer does
  (`VfsModule.ChdirLands`; in `VfsModule.ChdirMisses` a task ends up in the root instead).
- The 32-bit rounding masks round up exactly for sizes up to 2^32 - 256 (`FileSystem.AlignRoundsUp`);
  one byte more rounds to 0 (`FileSystem.MaskLoses`).
- `mkinitramfs.py` writes a name in bytes but its size in characters, so an entry reads back exactly
  when its name is ASCII (`Cpio.ReadsBack`); a file called `é` makes the mount fail
  (`Cpio.AccentFails`). The mount reports success exactly when the names up to the first trailer are
  ASCII (`Cpio.ParseInvertsArchive`).
- A root-level file or directory named `TRAILER!!!` ends the mount early, with success reported
  (`Cpio.TrailerNameTruncates`); all entries are recovered exactly when there is none and every name
  is ASCII (`Cpio.ParseInvertsArchive`).
- Page counting is exact exactly when no page is covered by two regions (`PmmModule.CountIsExact`,
  `PmmModule.TwiceIsTwo`), a region's pages lie wholly inside it exactly when it starts on a page
  boundary or has none (`PmmModule.WholePages`, `PmmModule.UnalignedPage`), and freeing keeps free and
  held pages apart exactly when the page is held or nothing happens (`PmmModule.PutKeepsShared`,
  `PmmModule.StrayPut`).
- A task that exited or was killed stays dead through an event exactly when the event is no sleep call
  of its own while it is still the current one (`Tasks.ZombieStep`, `Tasks.ZombieStaysDead`,
  `Tasks.ZombieRevived`).
- Descriptor writes never move the offset, so a second write lands on the first
  (`FileSystem.SecondWriteWins`).
- An ACK that arrives before the REQUEST counts, so success promises an ACK among all frames heard
  (`Negotiation.BoundBy`); when none came before the REQUEST, one came after it (`Negotiation.AckCameLater`).
- After a backspace across a full ring's seam, rows 512 or more behind the highest one show later
  rows' contents; all others are exact (`ConsoleModule.VisibleIsIdeal`, `ConsoleModule.LetterIsLost`).
- The address parser accepts empty parts as 0, so `...` is an address (`Format.ParsesExactly`,
  `Format.OnlyStops`).

## Model

| member | source | states |
|---|---|---|
| `Paths.SkipSlashes` | src/kernel/tmpfs.c:100-102 | skipping slashes loses no token |
| `Paths.TakeToken` | src/kernel/tmpfs.c:103-111 | the token read is the first of the rest of the path, cut at a slash or after 31 bytes |
| `Paths.TokenLimit` | src/kernel/tmpfs.c:103-111 | 31 bytes without a slash are one token, a 32nd starts another |
| `Paths.NormalizePath` | src/kernel/fs.c:32-59 | the buffer loop leaves the squeezed, cwd-prefixed path, cut to 255 bytes |
| `Paths.NormalizedForm` | src/kernel/fs.c:32-59 | whatever the input, the result is absolute, has no double slash, and normalising it again changes nothing |
| `Paths.NormalizedTokens` | src/kernel/fs.c:32-59 | the result has the components of the cwd (if relative) and of the path, if and only if nothing but a final slash was cut off |
| `Paths.LongNameLoses` | src/kernel/fs.c:51-58 | a slash and a name of 255 bytes lose a component |
| `Paths.CutTokens` | src/kernel/fs.c:51-58 | cutting a squeezed path keeps its components exactly when at most a final slash is lost |
| `FileSystem.NormalizedResolves` | src/kernel/tmpfs.c:90-125 | resolving the normalised path is walking the path's own components from the root or from the resolved cwd |
| `FileSystem.SplitParts` | src/kernel/tmpfs.c:53-71 | parent and leaf join to the path, the parent ends in a slash, and the leaf holds a slash exactly when the path ends in one |
| `FileSystem.SplitMeaning` | src/kernel/tmpfs.c:53-71 | the parent's components and the leaf are the components of the path |
| `FileSystem.SplitEdges` | src/kernel/tmpfs.c:53-71 | a path without slashes, and one of slashes alone |
| `FileSystem.NewLeaf` | src/kernel/tmpfs.c:151-163 | when only the parent resolves, the leaf is fresh there, is neither `.` nor `..`, and the parent can be named |
| `FileSystem.AddsKeepsWf` | src/kernel/tmpfs.c:73-88 | adding a child keeps one rooted tree with distinct nameable siblings below live directories |
| `FileSystem.CreatePathMap` | src/kernel/tmpfs.c:143-164 | for every list of names, creating a node is one update of the path map and changes no other list |
| `FileSystem.CreateKeepsWalks` | src/kernel/tmpfs.c:143-164 | dots included, every walk that resolved still does, and only walks through the new node can change |
| `FileSystem.CreateOutcome` | src/kernel/tmpfs.c:143-164 | every outcome of a create, with its number: the existing node, each error, or the lowest free node added |
| `FileSystem.CreateThenLookup` | src/kernel/tmpfs.c:143-164 | looking a created path up returns the new id if and only if the path has no trailing slash |
| `FileSystem.SlashHides` | src/kernel/tmpfs.c:143-164 | creating `/a/` in the empty file system takes a node, and looking `/a/` up fails |
| `FileSystem.RemoveCases` | src/kernel/tmpfs.c:166-196 | a remove either reports an error and changes nothing or drops exactly the resolved, childless node |
| `FileSystem.RemoveOutcome` | src/kernel/tmpfs.c:166-196 | every outcome of a remove, with its number: when it succeeds and with which code it refuses |
| `FileSystem.RemoveWalks` | src/kernel/tmpfs.c:166-196 | every walk that met the removed node fails with ENOENT, every other resolves as before |
| `FileSystem.RemoveThenLookup` | src/kernel/tmpfs.c:166-196 | a removed path no longer resolves and the tree stays well-formed |
| `FileSystem.PathIsUnique` | src/kernel/tmpfs.c:90-125 | following parents to the root spells the one list of names that resolves to a node |
| `FileSystem.WalkLands` | src/kernel/tmpfs.c:90-125 | a walk ends on a live node or with ENOENT |
| `FileSystem.DotDotGoesUp` | src/kernel/tmpfs.c:112-119 | `..` after anything found leads to where it was found, and stays in the root |
| `FileSystem.DotStays` | src/kernel/tmpfs.c:112-124 | `.` stays; what was not found stays not found whatever follows |
| `PathMap.DotPaths` | src/kernel/tmpfs.c:90-125 | on path strings: `/..` after a path that resolves is its directory, `/.` the path itself |
| `FileSystem.RunsKeepTree` | src/kernel/tmpfs.c:127-196 | after any run of operations the table is a rooted, properly named tree |
| `FileSystem.AlignRoundsUp` | src/kernel/tmpfs.c:31-40 | the 32-bit mask rounds a size up exactly while it is at most 2^32 - 256, and the second rounding then changes nothing |
| `FileSystem.AlignIsMultiple` | src/kernel/tmpfs.c:33 | the mask leaves a multiple of 256 or 16 |
| `FileSystem.MaskLoses` | src/kernel/tmpfs.c:235-236 | a size of 2^32 - 255 rounds to 0 |
| `FileSystem.Overlay` | src/kernel/tmpfs.c:247-250 | length and every byte of a file after a write: new bytes, old bytes, zeros in a gap |
| `FileSystem.WriteThenRead` | src/kernel/tmpfs.c:205-252 | after a write each offset reads as written, as before, or as zero; other nodes are untouched; a refused write changes nothing |
| `FileSystem.WriteOutcome` | src/kernel/tmpfs.c:225-252 | every outcome of a write, with its number, the new capacity and what the arena loses |
| `FileSystem.ReadOutcome` | src/kernel/tmpfs.c:205-223 | every outcome of a read: each error, or the bytes from the offset up to count or end |
| `FileSystem.SecondWriteWins` | src/kernel/fs.c:271-295 | two successful writes at one offset, as one descriptor makes them, leave the second, and the first only where it was longer |
| `NodeTable.ChainNoRepeats` | src/kernel/tmpfs.c:42-51 | a terminated sibling chain meets no node twice, so walking it ends |
| `NodeTable.OnChainOnce` | src/kernel/tmpfs.c:73-88 | every live non-root node is at exactly one position of exactly one chain, its parent directory's |
| `NodeTable.ChainSplice` | src/kernel/tmpfs.c:184-193 | redirecting the predecessor removes exactly one node from a chain |
| `NodeTable.Moved` | src/kernel/tmpfs.c:235-246 | moving a file to a fresh extent keeps all files' bytes, disjoint extents and zeroed slack |
| `NodeTable.Filled` | src/kernel/tmpfs.c:247-250 | writing inside an extent changes that file as `Overlay` says and no other, and keeps slack zero |
| `TmpfsModule.Tmpfs.constructor` | src/kernel/tmpfs.c:127-137 | starts as the file system holding only the root |
| `TmpfsModule.Tmpfs.AllocNode` | src/kernel/tmpfs.c:12-29 | resets and returns the lowest free node, or ENOSPC with nothing changed |
| `TmpfsModule.Tmpfs.AllocStorage` | src/kernel/tmpfs.c:31-40 | bumps the arena by the rounded size, or fails without moving |
| `TmpfsModule.Tmpfs.LookupChild` | src/kernel/tmpfs.c:42-51 | finds the child of that name, or reports that there is none |
| `TmpfsModule.SplitParent` | src/kernel/tmpfs.c:53-71 | the two backward scans find parent and leaf |
| `TmpfsModule.Tmpfs.CreateChild` | src/kernel/tmpfs.c:73-88 | adds one node to the inode table and keeps the invariant |
| `TmpfsModule.Tmpfs.ResolvePath` | src/kernel/tmpfs.c:90-125 | the cursor loop computes the walk over the inode table |
| `TmpfsModule.Tmpfs.CreatePath` | src/kernel/tmpfs.c:143-164 | existing id, every error, or a new node, as `Create` says; only a path that has to be split must fit the buffers |
| `TmpfsModule.Tmpfs.Unlink` | src/kernel/tmpfs.c:184-196 | takes a childless node out of its chain and zeroes it: one node leaves the inode table |
| `TmpfsModule.Tmpfs.RemovePath` | src/kernel/tmpfs.c:166-196 | every error in order, or the node unlinked and zeroed, as `Remove` says |
| `TmpfsModule.Tmpfs.ReadNode` | src/kernel/tmpfs.c:205-223 | delivers the slice of the file's contents at the offset, or the error |
| `TmpfsModule.Tmpfs.WriteNode` | src/kernel/tmpfs.c:225-252 | contents, capacity and arena use after a write, or the error with nothing changed |
| `TmpfsModule.Tmpfs.SetDevice` | src/kernel/fs.c:94-104 | stores a device number in any live node; only a device shows it |
| `PathMap.RoomLeft` | src/kernel/tmpfs.c:12-29 | a free node is found while fewer than 256 are live |
| `PathMap.CreateShows` | src/kernel/tmpfs.c:143-164 | creating at a list of names changes what is seen there and nowhere else |
| `PathMap.WriteShows` | src/kernel/tmpfs.c:225-252 | writing changes what is seen on the paths that lead to the file and nowhere else |
| `Cpio.ParseHex` | src/kernel/fs.c:120-133 | the digit loop computes the 32-bit value or rejects the field |
| `Cpio.DigitValues` | src/kernel/fs.c:120-133 | which characters are hexadecimal digits, and of what value |
| `Cpio.BadFieldIsZero` | src/kernel/fs.c:152-168 | a header field with anything but digits counts as 0 |
| `Cpio.HexRoundTrip` | scripts/mkinitramfs.py:14-29 | a printed hexadecimal field parses back to its value |
| `Cpio.AlignAgrees` | scripts/mkinitramfs.py:8-9 | Python's and the kernel's rounding to four agree below 2^32 - 3, where the kernel's wraps to 0 |
| `Cpio.AsciiBytes` | scripts/mkinitramfs.py:13-30 | a name has as many bytes as characters, and is its own encoding, exactly when it is ASCII |
| `Cpio.EncodeDenotes` | scripts/mkinitramfs.py:30 | the bytes of a character spell its number in UTF-8 |
| `Cpio.HeaderMeans` | scripts/mkinitramfs.py:12-28 | the header field by field: the magic, and thirteen numbers of which all but four are 0 |
| `Cpio.ModesPacked` | scripts/mkinitramfs.py:38-46 | directories are packed with mode 040755 and no data, files with mode 0100755 |
| `Cpio.ArchiveWriter.WriteEntry` | scripts/mkinitramfs.py:12-34 | appends header with the name size in characters, encoded name, padding for that size, data, padding |
| `Cpio.ArchiveWriter.EmitTree` | scripts/mkinitramfs.py:37-47 | appends the root entry, every entry in order, and the trailer |
| `Cpio.EntryReads` | src/kernel/fs.c:152-198 | the kernel reads mode and name as written, but takes the data where the name would end if its characters were bytes |
| `Cpio.EntryOutcome` | src/kernel/fs.c:152-187 | every outcome of reading at the cursor, with its code |
| `Cpio.ReadsBack` | src/kernel/fs.c:152-198 | a written entry is read back with the cursor where the writer stopped if and only if its name is ASCII |
| `Cpio.DriftStops` | src/kernel/fs.c:161-173 | a reader 1 to 32 bytes early finds no magic or a zero name size, and reports EINVAL |
| `Cpio.ParseInvertsArchive` | src/kernel/fs.c:148-201 | the reader recovers every entry in order and ends with 0 if and only if all names are ASCII and none is the trailer; it ends with 0 if and only if the names up to the first trailer are ASCII |
| `Cpio.TrailerNameTruncates` | src/kernel/fs.c:174-176 | a file or directory named like the trailer hides itself and all entries after it, whatever they are |
| `Cpio.AccentFails` | scripts/mkinitramfs.py:13-30 | an archive with one file called `é` does not mount |
| `Initramfs.CStringAt` | src/kernel/fs.c:170-177 | reads the entry's name up to its NUL |
| `Initramfs.NextEntry` | src/kernel/fs.c:152-187 | one entry is classified as the header fields say |
| `Initramfs.ApplyEntry` | src/kernel/fs.c:183-196 | one entry's effect on the file system |
| `Initramfs.MountInitramfs` | src/kernel/fs.c:148-201 | the loader applies the parsed entries in order and returns the parser's status |
| `Initramfs.DirBits` | src/kernel/fs.c:189 | which modes make a directory |
| `Initramfs.EntryName` | scripts/mkinitramfs.py:40-46 | the bytes of the name written are the item's path, and it is ASCII exactly when every component is |
| `Initramfs.PlaceOne` | src/kernel/fs.c:183-198 | loading one packed item shows exactly that item at its path, with the mode packed, and nothing else new |
| `Initramfs.MountRestoresTree` | src/kernel/fs.c:148-201 | mounting a packed list with ASCII names, none called like the trailer, on any well-formed file system with room succeeds and overlays exactly the list |
| `Initramfs.OverlaidShowsItem` | scripts/mkinitramfs.py:39-46 | every listed item is seen as itself when no path is listed twice |
| `VfsModule.Vfs.constructor` | src/kernel/fs.c:135-146 | boot leaves the boot tree, no open files, and every cwd at the root |
| `VfsModule.BootLooks` | src/kernel/fs.c:135-146 | after boot exactly the four directories and four devices are seen, on nine nodes |
| `VfsModule.BootNames` | src/kernel/fs.c:135-146 | the boot directories and the four device numbers, by literal names |
| `VfsModule.BootTable` | src/kernel/fs.c:135-146 | every node boot leaves: name, parent, kind, device number and mode |
| `VfsModule.Vfs.AllocOpenFile` | src/kernel/fs.c:61-72 | takes the first unused open file at offset 0, or ENFILE when all are used |
| `VfsModule.Vfs.FreeFd` | src/kernel/fs.c:74-84 | the lowest free descriptor from 3 up, or EMFILE when there is none |
| `VfsModule.Vfs.OpenNode` | src/kernel/fs.c:216-222 | a fresh open file on the lowest free descriptor; failure affects no descriptor and no open file |
| `VfsModule.Vfs.OpenPath` | src/kernel/fs.c:203-223 | opens what the normalised path resolves to, creating a file only on request, on the lowest free descriptor and no other; every failure code |
| `VfsModule.CreateFlag` | src/kernel/fs.c:209 | creation is asked for by the 0x40 bit |
| `VfsModule.Vfs.CloseFd` | src/kernel/fs.c:297-308 | frees exactly that descriptor and its open file, with the codes for empty and standard descriptors |
| `VfsModule.Vfs.LookupFile` | src/kernel/fs.c:86-92 | the open file behind any descriptor number, or none |
| `VfsModule.SlotsApart` | src/kernel/fs.c:74-92 | no two descriptors of any tasks share a slot |
| `VfsModule.Vfs.ReadFd` | src/kernel/fs.c:225-269 | delivers the bytes at the offset and moves it past them; devices, missing files and unlinked nodes as the code treats them |
| `VfsModule.Vfs.WriteFd` | src/kernel/fs.c:271-295 | writes at the offset and leaves the offset alone |
| `VfsModule.Vfs.LseekFd` | src/kernel/fs.c:310-325 | sets the offset in 64-bit arithmetic, unchecked against the size, and returns it as a signed number |
| `VfsModule.Vfs.ChdirPath` | src/kernel/fs.c:359-375 | changes the cwd only to a resolved directory, cut to its buffer |
| `VfsModule.ChdirOutcome` | src/kernel/fs.c:359-375 | every outcome of a directory change, with its number |
| `VfsModule.ReadMoves` | src/kernel/fs.c:264-268 | a read moves the offset past what it delivers; a refused one leaves it |
| `VfsModule.ReadsAreConsecutive` | src/kernel/fs.c:225-269 | reads of any sizes through one open file deliver the same bytes as one read of their total and leave the offset behind them |
| `VfsModule.CwdFormAlways` | src/kernel/fs.c:359-375 | over any run of directory changes the cwd stays absolute, squeezed and within its buffer |
| `VfsModule.ChdirLands` | src/kernel/fs.c:372-373 | the cwd keeps the components of the resolved directory if and only if the buffer cuts off at most a final slash |
| `VfsModule.ChdirMisses` | src/kernel/fs.c:359-375 | changing to a root-level directory by a path with 63 leading `.` components succeeds and leaves the task in the root |
| `Startup.BootFromTree` | src/kernel/main.c:90-97 | init, pack and mount: success with every path showing the packed item, the boot tree, or nothing, if and only if all names are ASCII and none at the root is the trailer |
| `Startup.SmallExcess` | scripts/mkinitramfs.py:13-30 | below ASCII parents a storable name has at most 32 bytes more than characters |
| `Startup.TrailerIsLost` | src/kernel/fs.c:174-176 | after the mount nothing is found where an item called like the trailer was packed |
| `Wire.Put16Reads` | src/kernel/net.c:154-165 | a stored 16-bit value loads back |
| `Wire.Put32Reads` | src/kernel/net.c:158-172 | a stored 32-bit value loads back |
| `Wire.ByteOrder` | src/kernel/net.c:154-165 | 16-bit values travel most significant byte first |
| `Wire.WordOrder` | src/kernel/net.c:158-172 | 32-bit values travel most significant byte first |
| `Wire.Checksum16` | src/kernel/net.c:174-187 | for up to 65535 bytes no 32-bit overflow, termination, and the complement of the end-around-carry sum |
| `Wire.OnesSumIsOnes` | src/kernel/net.c:174-187 | folding carries at the end equals carrying around at every step |
| `Wire.OddIsPadded` | src/kernel/net.c:174-187 | an odd last byte counts as if a zero followed |
| `Wire.RfcExample` | src/kernel/net.c:174-187 | the worked example of RFC 1071, section 3 |
| `Wire.ChecksumLaw` | src/kernel/net.c:385-403 | storing the checksum in a zeroed even-offset field makes the whole check to 0 |
| `Frames.IpPasses` | src/kernel/net.c:693-740 | anything behind a built header passes every receive test, padding cut off |
| `Frames.UdpRoundTrip` | src/kernel/net.c:408-449 | every payload up to 548 bytes sent to an acceptable address arrives at DHCP unchanged |
| `Frames.EchoRoundTrip` | src/kernel/net.c:374-406 | an echo request reaches its target's ICMP handler and passes its checksum |
| `Frames.UdpBytes` | src/kernel/net.c:408-449 | a UDP frame on the wire byte by byte: destination and source hardware address, every header field, payload, padding |
| `Frames.EchoBytes` | src/kernel/net.c:374-406 | an echo request on the wire byte by byte |
| `Frames.DeliveredExactly` | src/kernel/net.c:658-740 | exactly which packets reach ICMP or DHCP, and which part of them |
| `Frames.TypeDecides` | src/kernel/net.c:742-756 | the type field decides between ARP, IPv4 and nothing |
| `Net.BuildUdp` | src/kernel/net.c:408-446 | the in-place stores produce exactly the specified frame |
| `Net.FillIp` | src/kernel/net.c:431-440 | a zeroed stretch becomes a checksummed IPv4 header and nothing else changes |
| `Net.ClassifyIp` | src/kernel/net.c:693-740 | the receive tests in order decide what a packet is |
| `Net.Classify` | src/kernel/net.c:742-756 | a frame is ARP, IPv4 or dropped |
| `Net.Stack.SendRaw` | src/kernel/net.c:261-294 | refuses or puts the zero-padded frame on the wire |
| `Net.Stack.SendUdp` | src/kernel/net.c:408-449 | refuses over 548 bytes, otherwise sends the specified frame |
| `Net.Stack.ProcessFrame` | src/kernel/net.c:608-756 | one frame's effect on cache, lease, ping and wire, and none on the address configuration |
| `Net.PingAnswered` | src/kernel/net.c:636-667 | exactly which ICMP messages answer a ping |
| `Net.AnswersAreArp` | src/kernel/net.c:633-635 | everything sent in answer to frames is an ARP frame |
| `Net.Stack.Poll` | src/kernel/net.c:896-903 | a batch of frames: effect on wire, lease and ARP cache |
| `Arp.CacheUpdate` | src/kernel/net.c:296-319 | refresh, else first free, else evict the first |
| `Arp.CacheLookup` | src/kernel/net.c:321-330 | the first valid entry for the address, or none |
| `Arp.FrameReads` | src/kernel/net.c:332-372 | every ARP frame sent is read back with its operation and addresses |
| `Arp.RequestBytes` | src/kernel/net.c:332-351 | an ARP request on the wire byte by byte |
| `Arp.ReplyBytes` | src/kernel/net.c:353-372 | an ARP reply on the wire byte by byte |
| `Arp.ReadsExactly` | src/kernel/net.c:616-631 | exactly which packets are read as ARP messages, and what is read |
| `Arp.LearnFinds` | src/kernel/net.c:296-330 | a learned address is found, even in a full cache, and no other hit changes |
| `Arp.LearnForgets` | src/kernel/net.c:296-319 | learning costs no other hit unless the cache is full of others, and then only the first slot's |
| `Arp.HitsAreLatest` | src/kernel/net.c:296-330 | in every run valid entries are a prefix with distinct addresses and a hit is the last announcement |
| `Arp.FramesHitLatest` | src/kernel/net.c:296-330 | after any frames the cache is tidy, and a hit is the sender of the last well-formed ARP frame from that address, or the hit there was before |
| `Arp.Exchange` | src/kernel/net.c:608-636 | after request and reply each host resolves the other, and the exchange ends |
| `Arp.AnswersExactly` | src/kernel/net.c:631-635 | only a request for the host's own address is answered |
| `Dhcp.ParseOptions` | src/kernel/net.c:451-482 | for any bytes the loop stays in bounds, ends, and notes each option |
| `Dhcp.ScanInvertsEncode` | src/kernel/net.c:451-482 | any encoded list, with pads and trailing bytes, is parsed option by option |
| `Dhcp.CutOptions` | src/kernel/net.c:455-470 | a list may end with the packet, and an option the packet cuts short is ignored |
| `Dhcp.LastOptionWins` | src/kernel/net.c:471-479 | each field takes its last well-sized occurrence or keeps its value |
| `Dhcp.RequestParses` | src/kernel/net.c:579-590 | the options of a REQUEST parse back to its type and server |
| `Dhcp.HeaderBytes` | src/kernel/net.c:530-543 | the fixed fields of the client's messages byte by byte |
| `Dhcp.DiscoverBytes` | src/kernel/net.c:544-553 | the options of the DISCOVER byte by byte |
| `Dhcp.RequestBytes` | src/kernel/net.c:570-590 | the options of the REQUEST byte by byte, address and server included |
| `Dhcp.FieldsMatch` | src/kernel/net.c:489-505 | exactly which payloads are replies to this transaction, at their bytes |
| `Dhcp.ServerIsHeard` | src/kernel/net.c:484-528 | what a server's message, given field by field with any options, does to the lease |
| `Dhcp.OthersAreNotHeard` | src/kernel/net.c:489-505 | a payload that differs in opcode, type, length, transaction, address or cookie changes nothing |
| `Dhcp.OneFrame` | src/kernel/net.c:484-528 | exactly when a frame sets the offer flag, the ack flag and the address; others change nothing |
| `Dhcp.LeaseTracksFrames` | src/kernel/net.c:484-528 | over any frames the flags say whether a matching OFFER or ACK came and the address is the last one's |
| `Dhcp.ServerTracksFrames` | src/kernel/net.c:471-479 | over any frames the server asked is the one named last in a reply |
| `Dhcp.StrangersIgnored` | src/kernel/net.c:489-505 | frames that are no reply to this transaction never change the lease |
| `Net.Stack.Await` | src/kernel/net.c:896-903 | consumes exactly the polls `Consumed` says, with the effect of their frames on lease, wire and cache, and says whether the flag was found |
| `Net.Stack.Discover` | src/kernel/net.c:887-908 | a fresh transaction, the DISCOVER on the wire, and the frames up to the first poll that brings an OFFER |
| `Net.Stack.SendDiscover` | src/kernel/net.c:530-560 | puts the DISCOVER for the current transaction on the wire |
| `Net.Stack.SendRequest` | src/kernel/net.c:562-599 | refuses without offer, server or address, otherwise sends the REQUEST for them |
| `Net.Stack.Acquire` | src/kernel/net.c:880-929 | for any arrivals: succeeds exactly when `Succeeds` says, and leaves the wire, lease, cache and configuration those arrivals determine, on failure too; success is bound as `Bound` says |
| `Negotiation.Consumed` | src/kernel/net.c:896-903 | a wait ends after the first poll that leaves the flag set, or after all |
| `Negotiation.WaitFinds` | src/kernel/net.c:896-903 | stopping early loses nothing: the flag is set after a wait exactly when it was set before or the message is among all that arrives |
| `Negotiation.SucceedsExactly` | src/kernel/net.c:880-929 | success if and only if an OFFER arrives in time, the last address offered and the last server named by then are not 0, a poll follows the REQUEST, and an ACK was heard before it or arrives after |
| `Negotiation.OfferAndAckSuffice` | src/kernel/net.c:880-929 | among servers that name themselves and offer real addresses, an OFFER in the first wait and an ACK in the second make it succeed, whatever else arrives |
| `Negotiation.XidTellsTicks` | src/kernel/net.c:889 | ticks that differ in their low 16 bits give different transaction numbers |
| `Negotiation.DiscoverOnWire` | src/kernel/net.c:530-560 | the DISCOVER on the wire: broadcast addresses, ports and payload |
| `Negotiation.RequestOnWire` | src/kernel/net.c:562-599 | the REQUEST on the wire: broadcast addresses, ports and payload |
| `Negotiation.CarriedIsHeard` | src/kernel/net.c:484-528 | a payload sent from port 67 to 68 reaches the lease; a server's message is taken with its type and address |
| `Negotiation.OfferAndAckBind` | src/kernel/net.c:880-929 | a server's OFFER and ACK, given as bytes in frames, make the negotiation succeed with their address, mask and router |
| `Negotiation.BoundBy` | src/kernel/net.c:880-929 | a matching OFFER came before the REQUEST, a matching ACK came, the address is the last one offered, mask and gateway are nonzero |
| `Negotiation.AckCameLater` | src/kernel/net.c:913-925 | with no matching ACK before the REQUEST, a matching one came after it |
| `Tasks.StepKeepsInv` | src/kernel/task.c:10-122 | every operation keeps: only the current task runs, pids are in slot order, parents are older |
| `Tasks.AtBoot` | src/kernel/task.c:32-37 | one running task with pid 1 and no parent, all other slots unused, no tick passed |
| `Tasks.OneTaskChanges` | src/kernel/task.c:10-92 | an operation changes at most one task, and how, exit codes included |
| `Tasks.TargetFound` | src/kernel/task.c:10-92 | that task is the first unused slot, a live task with the pid, or the current one |
| `Tasks.KillFinds` | src/kernel/task.c:55-86 | a kill spares no live task with the pid |
| `Tasks.PidsUnique` | src/kernel/task.c:10-30 | two live tasks never share a pid |
| `Tasks.Pick` | src/kernel/task.c:110-116 | the runnable slot at least cyclic distance after the current one, or none is runnable |
| `Tasks.TickApproaches` | src/kernel/task.c:94-122 | a tick serves a waiting task or moves the search start strictly closer to it |
| `Tasks.TickTouches` | src/kernel/task.c:94-122 | what a tick does to each task |
| `Tasks.RunnableIsServed` | src/kernel/task.c:94-122 | whatever happens between ticks, a runnable task that is not killed before runs within its distance plus one, at most 32, ticks |
| `Tasks.NoOvertaking` | src/kernel/task.c:104-121 | before it runs no other task is picked twice |
| `Tasks.SleepsUntilWakeup` | src/kernel/task.c:88-108 | a sleeper sleeps at every moment before its wake tick |
| `Tasks.SleeperIsServed` | src/kernel/task.c:88-122 | a sleeper that is not killed before runs within 32 ticks from its wake tick, whatever it does afterwards |
| `Tasks.ZombieStep` | src/kernel/task.c:88-92 | a dead task stays dead through an event if and only if the event is not its own sleep call while still current |
| `Tasks.ZombieStaysDead` | src/kernel/task.c:69-122 | over any run without such a call a dead task never runs again |
| `Tasks.ZombieRevived` | src/kernel/task.c:69-92 | with such a call it does: exit, sleep and one tick from boot |
| `Tasks.RuntimeConserved` | src/kernel/task.c:99-102 | charged runtimes add up to the ticks that found a task running |
| `Tasks.LeakerIsKillable` | src/kernel/task.c:75-86 | the suspect is never pid 1 and can be killed, so the "not killable" branch is unreachable |
| `Tasks.PagesCover` | src/kernel/task.c:124-135 | the estimate is the 4096-byte pages that cover heap and mappings |
| `Tasks.LeakerIsWorst` | src/kernel/task.c:137-159 | the suspect is a live task with a parent and the most pages |
| `SchedulerModule.Scheduler.constructor` | src/kernel/task.c:32-37 | one running bootstrap task with pid 1 and a fresh guard |
| `SchedulerModule.Scheduler.TaskAlloc` | src/kernel/task.c:10-30 | takes the first unused slot and the next pid, or fails when none is unused |
| `SchedulerModule.Scheduler.CreateKernelTask` | src/kernel/task.c:43-45 | a runnable task without parent |
| `SchedulerModule.Scheduler.SpawnUserTask` | src/kernel/task.c:47-53 | a runnable child of the current task |
| `SchedulerModule.Scheduler.TaskExit` | src/kernel/task.c:69-73 | the current task becomes a zombie with its status |
| `SchedulerModule.Scheduler.TaskKill` | src/kernel/task.c:75-86 | kills exactly the live task with that pid and says whether there was one |
| `SchedulerModule.Scheduler.TaskSleepUntil` | src/kernel/task.c:88-92 | the current task sleeps with that wake tick |
| `SchedulerModule.Scheduler.TaskTick` | src/kernel/task.c:94-122 | the three loops charge, wake and pick as one step of the table |
| `SchedulerModule.Scheduler.FindLeaker` | src/kernel/task.c:137-159 | a live task with a parent and the most pages, or 0 when none has any |
| `SchedulerModule.Scheduler.MemoryGuardTick` | src/kernel/scheduler.c:22-74 | one sample; safeboot only when the last five samples were critical, with a live task that has a parent and the most pages, which is killed |
| `SchedulerModule.Scheduler.SchedulerTick` | src/kernel/scheduler.c:76-82 | safeboot only at a multiple of 100 ticks with the last five samples critical and such a victim; otherwise one step of the task table |
| `MemGuard.GuardTracks` | src/kernel/scheduler.c:36-52 | the streak counts the unbroken critical samples in 32 bits |
| `MemGuard.CriticalMeans` | src/kernel/scheduler.c:35-36 | critical means at most 128 pages or a twentieth of all free |
| `MemGuard.ActsAfterFive` | src/kernel/scheduler.c:35-60 | exactly when the guard acts; then this sample and the four before it were critical |
| `PmmModule.SetOneBit` | src/kernel/pmm.c:12-14 | setting a bit changes that bit only |
| `PmmModule.ClearOneBit` | src/kernel/pmm.c:16-18 | clearing a bit changes that bit only |
| `PmmModule.CountIsExact` | src/kernel/pmm.c:60-64 | counting page by page is exact if and only if no page is covered twice |
| `PmmModule.PagesExactly` | src/kernel/pmm.c:52-63 | exactly which pages an available region gives: those that end inside it and after its start, below 4 GiB |
| `PmmModule.FreeAtBoot` | src/kernel/pmm.c:38-75 | exactly which pages are free after boot: covered by the map, beyond the first MiB, not touching the kernel |
| `PmmModule.TwiceIsTwo` | src/kernel/pmm.c:60-64 | a region listed twice is counted twice |
| `PmmModule.ApartInBytes` | src/kernel/pmm.c:52-55 | regions apart in bytes are apart in pages |
| `PmmModule.WholePages` | src/kernel/pmm.c:52-55 | a region's pages lie wholly inside it if and only if it starts on a page boundary or has none |
| `PmmModule.UnalignedPage` | src/kernel/pmm.c:52-55 | a region at address 1 hands out page 0, which holds a byte that is not its own |
| `PmmModule.Pmm.constructor` | src/kernel/pmm.c:38-75 | the free pages are those of `AtBoot`; the counter exceeds them by the double-counted pages |
| `PmmModule.Pmm.TakePage` | src/kernel/pmm.c:29-34 | takes a free page with the counter following; the guard never fires |
| `PmmModule.Pmm.ReserveRange` | src/kernel/pmm.c:24-36 | takes every page touching the range |
| `PmmModule.Pmm.AllocPage` | src/kernel/pmm.c:77-89 | serves one `Get` of the ledger: the lowest free page, usable and not held; 0 exactly when none is free |
| `PmmModule.Pmm.FreePage` | src/kernel/pmm.c:91-97 | serves one `Put` of the ledger; ownership survives exactly when the caller held the page or nothing happens |
| `PmmModule.PutKeepsShared` | src/kernel/pmm.c:91-97 | returning a page keeps free and held pages a partition exactly when it is held, already free, or out of range |
| `PmmModule.StrayPut` | src/kernel/pmm.c:91-97 | freeing a page nobody was given makes it available |
| `PmmModule.PagesConserved` | src/kernel/pmm.c:77-97 | over every run in which clients return only held pages, free and held pages partition the usable set, the counter follows the free ones, and only usable pages are handed out |
| `PmmModule.NeverTwice` | src/kernel/pmm.c:77-97 | in such a run a held page is not handed out before it is put back |
| `ConsoleModule.TextInReadingOrder` | src/kernel/console.c:211-217 | plain text appears row by row, 80 columns each |
| `ConsoleModule.FreshIsBlank` | src/kernel/console.c:221-240 | a cleared terminal is one blank row with the cursor at its start |
| `ConsoleModule.TextOnRow` | src/kernel/console.c:211-217 | plain text that fits the rest of a row is stored there and moves nothing else |
| `ConsoleModule.ReturnOverwrites` | src/kernel/console.c:251-252 | after a carriage return text overwrites the row from column 0; the rest stays |
| `ConsoleModule.FeedBlanks` | src/kernel/console.c:253-254 | a line feed goes to the next row's start and blanks it; other rows stay |
| `ConsoleModule.ControlsIgnored` | src/kernel/console.c:245-276 | other control bytes, and a backspace at the very start, do nothing |
| `ConsoleModule.EraseUndoesShow` | src/kernel/console.c:255-263 | backspace returns to the typed cell, across a wrap too, and blanks it; nothing else differs but the row a wrap has blanked |
| `ConsoleModule.TabStops` | src/kernel/console.c:264-269 | a tab blanks up to the next multiple of four or wraps a full row, and changes nothing else |
| `ConsoleModule.PokeMirrors` | src/kernel/console.c:211-212 | writing a cell keeps ring and transcript equal on the kept rows |
| `ConsoleModule.NewLineMirrors` | src/kernel/console.c:205-209 | a new line keeps every row less than 512 behind the highest exact, up to the current row |
| `ConsoleModule.VisibleIsIdeal` | src/kernel/console.c:164-181 | every visible row less than 512 behind the highest one is the transcript's, and rows below the cursor are blank; with the cursor on the highest row that is the whole window |
| `ConsoleModule.WindowBounds` | src/kernel/console.c:95-101 | the window at the bottom ends with the cursor's row; it starts at most 511 rows above |
| `ConsoleModule.SteppedBack` | src/kernel/console.c:255-263 | backspacing from row 512 to 511 with the ring full, the top row shows row 512 |
| `ConsoleModule.LetterIsLost` | src/kernel/console.c:255-263 | one letter, 512 line feeds and a backspace: the letter's row shows blank |
| `ConsoleModule.Console.RenderView` | src/kernel/console.c:164-184 | every screen row holds its visible row |
| `ConsoleModule.Console.Putc` | src/kernel/console.c:245-276 | the ring follows the ideal terminal, the window stays in bounds, the screen is current |
| `ConsoleModule.Console.ScrollView` | src/kernel/console.c:342-370 | moves the window by the amount within bounds; following holds exactly at the bottom |
| `ConsoleModule.Console.ViewToBottom` | src/kernel/console.c:372-376 | follows again, at the bottom |
| `ConsoleModule.Console.SetAttr` | src/kernel/console.c:321-327 | colours affect later output only |
| `ConsoleModule.Console.WriteN` | src/kernel/console.c:298-303 | writes a string as the ideal terminal would |
| `Format.Printer.AppendChar` | src/kernel/string.c:101-106 | stores what fits and counts everything |
| `Format.Printer.AppendUnsigned` | src/kernel/string.c:117-132 | appends the digits in order |
| `Format.FillDigits` | src/kernel/string.c:125-128 | at most 20 digits, least significant first, within the scratch array |
| `Format.Vsnprintf` | src/kernel/string.c:134-192 | the longest fitting prefix of the ideal output, the terminator, and the ideal length |
| `Format.DigitsDenote` | src/kernel/string.c:117-132 | printed digits denote the number, in the right case, without leading zeros |
| `Format.ConversionMeans` | src/kernel/string.c:150-186 | what each conversion prints |
| `Format.PlainFormat` | src/kernel/string.c:142-190 | plain text is copied, `%%` prints one sign, unknown letters keep it |
| `Format.ParseIpv4` | src/kernel/net.c:197-235 | the character loop accepts exactly the texts that full stops cut into four digit strings of value at most 255, and returns their value |
| `Format.ParsesExactly` | src/kernel/net.c:197-235 | the parser's states amount to that grammar |
| `Format.OnlyStops` | src/kernel/net.c:197-235 | three full stops parse as address 0 |
| `Format.FormattedIp` | src/kernel/net.c:189-195 | the address prints as four dotted decimals |
| `Format.IpRoundTrip` | src/kernel/net.c:189-235 | parsing the whole printed address returns it, for every 32-bit value |
| `Format.FormatThenParse` | src/kernel/net.c:189-235 | an address printed into any buffer of at least 16 bytes is read back from the stored string |

## Left out

- Hardware: port I/O, PCI, RTL8139 registers, interrupt controllers, assembly. Sending appends to a log; what polls deliver is a parameter; the tick count is a parameter or field.
- Undefined behaviour is excluded by preconditions: a leaf of 32 bytes or more overruns its buffer, sizes above 2^32 - 256 outgrow the rounding mask, a format that ends in a lone `%` or lacks arguments reads past its end.
- C strings are byte sequences without their NUL; a name that is not terminated inside the archive ends with the archive.
- File names with lone surrogates, which cannot be encoded and stop `mkinitramfs.py`, are excluded by the type of characters; the sorted directory walk is a list of items, parents first.
- `Cpio.ParseInvertsArchive`: nothing is claimed when the first name that is not ASCII has over 32 bytes more than characters, or a name of 2^24 characters follows it; no tree within the kernel's limits gets there (`Startup.SmallExcess`).
- `VfsModule.Vfs.ReadFd`: the console's pending input is a parameter; consuming it is not modelled. Console output of `WriteFd` is not recorded.
- `Net.Stack.Acquire`: receive interrupts are folded into the polls and the batch between the two waits; the ping reply time and frame counters are not modelled.
- `PmmModule.Pmm.constructor`: takes the memory map entries as a list; walking the boot loader's tags is not modelled.
- `ConsoleModule.Console.constructor`: the palette search, serial echo, hardware cursor and input ring are not modelled; the colour attribute is a parameter.
- `SchedulerModule.Scheduler.SchedulerTick`: what follows safeboot (halt or reboot) and the messages are not modelled; tick counters do not wrap.
- Not modelled because they would only add easy members: stat, mkdir, rmdir and unlink wrappers, `net_resolve_arp` and ping loops, routing, swap counters, `kalloc`, ELF probing, mouse and keyboard, shell commands, brace formatting, syscall dispatch.
