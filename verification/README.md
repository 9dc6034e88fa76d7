# A verified model of the rapid image builder, its readers, and the package store

rapid keeps npm packages as a few large *bucket* files and mounts them as a RAFS file system. This project models, in
Dafny, the path a file takes on the way and back:

1. A package archive is read with `tokio-tar` (`TarFields`, `TarPaths`, `Ustar`, `TarHeader`, `TarWriter`, `TarReader`,
   `TarRoundTrip`), and `TarConcater` rewrites it into a bucket, recording where each entry's data went (`Bucket`).
2. The records of all packages are kept in an index shared by concurrent adds (`TocStore`), and the downloads run on a
   pool of executors (`Pool`).
3. The records are the *table of contents* from which the builder makes a tree (`Toc`, `TocNumbers`, `TocData`,
   `TocBuild`, `FastIndex`), which it flattens into a numbered inode array with contiguous, sorted child ranges
   (`Trees`, `Flatten`, `Flattening`, `Layout`, `Bootstrap`), gives blob indexes (`BlobIndex`), and writes as bytes
   (`OnDisk`, `XAttrs`, `BlobTable`, `ByteLayout`, `SuperBlock`, `ImageFile`). The layered builder starts from a tree it
   loads from an image (`TreeLoad`), puts an upper layer on it (`LayerApply`), keeps hard links (`HardLinks`, `LinkRules`,
   `TableLinks`) and adds a tree of digests (`Digest`). Whiteouts (`Whiteouts`) belong to `Tree::apply`, whose only call
   in the builder is commented out.
4. A memory-mapped driver (`Direct`, `Readback`) and a cached one (`Cached`) find files in the image, and a range read
   turns into requests for blob bytes (`RangeRead`).

`EndToEnd` ties the builder to the readers, `FileReads` puts the bytes of the bootstrap file between them, `TableFiles`
says what a reader sees of each entry, field by field, and `PackageFiles` ties the archive of a package to all of it:
what a reader of the file system gets is what the archive had.

Wherever a writer and a reader share a definition, a further result states it without that name: byte offsets, type
bytes, constants and fields are written out there.

Objects that the source updates in place are classes here, with their loops; each method is proved against a function of
the old state, and the laws are lemmas about those functions. Numbers are unbounded except where the source truncates or
wraps, which is written out. Hash functions are parameters. Paths inside images are lists of components below `/`.

## Where the code does less than one would expect

Each of these has an exact condition in the table, proved for all inputs.

- The chunk window of a range read is cut to 32 bits (`RangeRead.WindowIsFullScan`).
- A table entry with an absolute name is looked up without its slash and reads from blob 0 (`BlobIndex.OwnBlobIff`).
- A chunk entry without a size gets what is left of the regular entry before it, whatever that entry's path, and the
  subtraction wraps (`TocData.ChunksInOrder`).
- `Bootstrap::dump` leaves extended attributes out of its offsets (`ByteLayout.BootstrapOffsetsRight`).
- Symbolic links get the digest of empty input, and files a SHA-256 whatever the image's digest algorithm
  (`Digest.RootAcceptedIff`).
- Past a directory's children the cached driver panics where the mapped one reports an error (`Cached.SameByIndexIff`),
  and a name looked up in a file gives two different errors (`Cached.SameByName`).
- `apply2` drops or repeats what `apply` replaces (`FastIndex.Apply2IsApply`), and replacing a node keeps its children
  (`Whiteouts.ApplyReplaces`).
- The last byte of an octal field is never written, and an eight-byte extension loses its top bit
  (`TarFields.NumFieldRoundTripIff`, `TarHeader.SetCksumAcceptedIff`, `Bucket.RereadIff`).
- A short ustar path does not clear an old prefix, so a record can get a wrong name (`Ustar.ShortPathRoundTripIff`,
  `Bucket.RecordedPathIff`).
- Package ids can collide when a version holds an `@` (`TocStore.PackageIdIff`).
- A tree is loaded with a digest check of every inode, which images without digests (`TreeLoad.UndigestedNotLoaded`) and
  images with symbolic links (`Digest.SymlinkRefused`) do not pass (`TreeLoad.FromBootstrap`,
  `Digest.RootAcceptedIffAllMatch`).
- A root that a table lists between other entries shares its number with the next new path, while the hard link
  builder tells files apart by number (`TableLinks.OwnInodesIff`, `TableLinks.RootListedBetween`).
- An upper layer is applied from a trace that knows nothing of the lower tree, so a directory that both have comes twice
  (`LayerApply.UpperNodeIff`, `LayerApply.ProperIff`, `LayerApply.UpperDirTwice`).
- A request of the pool can wait forever beside free executors, once there is one request more than executors
  (`Pool.SafeExactlyUpTo`, `Pool.WaiterLeftBehind`).

## Model

| member | source | states |
|---|---|---|
| PackageFiles.ReadsPackageFile | packages/downloader/src/store/tar.rs:81-145 | The whole chain: a regular file of a package that was added to a bucket, listed with its record, built into an image and written as a bootstrap file; every range read through what is loaded from the file's bytes returns exactly the bytes the package archive has for that file. |
| PackageFiles.ShowsPackageEntry | packages/downloader/src/store/tar.rs:19-66 | Any entry of a package, through the same chain: the inode that a reader of the file system finds has the kind of byte 156 of the archive's header, the low twelve bits of its mode field, its link field as target, and no owner but the superuser. |
| FileReads.BuildFile | packages/bootstrap/src/bootstrap.rs:77-113 | Build and dump: from the file a reader loads exactly what was built, an image that describes the table, and the blob ids, if the file is at most 2 GiB, and nothing otherwise. |
| SuperBlock.BuildSuperBlock | packages/bootstrap/src/bootstrap.rs:149-173 | The super block counts the nodes and distinct inodes and says where the tables are, with its three flags set. |
| SuperBlock.SuperRoundTrip | packages/rafs/src/metadata/layout.rs:123-153 | A stored super block reads back from its 8192 bytes. |
| SuperBlock.SuperBytesAt | packages/rafs/src/metadata/layout.rs:123-153 | Every field of the super block is at its offset, little-endian, with zeros behind the last. |
| SuperBlock.LoadSuperIff | packages/rafs/src/metadata/layout.rs:258-291 | A super block is accepted exactly for the magic number, version 5, size 8192, known flags, at least one inode and an aligned inode table behind it. |
| FileReads.ReadsFromFile | packages/rafs/src/metadata/mod.rs:219-262 | From the bytes of the bootstrap file and the blobs alone, every range read of a regular entry delivers exactly the entry's own bytes. |
| FileReads.LoadedAt | packages/rafs/src/metadata/direct.rs:198-246 | What is loaded is in the file at fixed places: table offsets and counts in the super block, an eighth of every record's place in the inode table, and inode, name, link and chunks at their places in the record. |
| TableFiles.LoadedShows | packages/bootstrap/src/tree.rs:382-474 | From the bytes of a table's bootstrap file, the path of every entry leads to an inode with the entry's owner, permission bits, kind, link target, attributes, size and chunks. |
| TableFiles.LoadedPaths | packages/bootstrap/src/tree.rs:245-262 | A reader finds exactly the paths of the entries and the paths above them; what is not listed is a directory of mode 0755 that has the owner of the first entry below it. |
| TableFiles.LoadedRoot | packages/bootstrap/src/bootstrap.rs:203-215 | The first inode is the root: a directory stored as `/`, number 1, found at the empty path. |
| FileReads.BuiltEncodable | packages/bootstrap/src/bootstrap.rs:203-344 | Every node the build leaves for a table whose fields fit and that has no extended attributes can be written without loss. |
| EndToEnd.ReadsOwnBytes | packages/bootstrap/src/bootstrap.rs:115-344 | In the image of any well-formed table, the path of a regular entry stored contiguously (under a relative name, or in the first blob) resolves, and every read `(off, len)` delivers, in order, exactly `[offset + off, offset + min(off + len, size))` of the entry's own blob, re-split files included. |
| EndToEnd.BuildImage | packages/bootstrap/src/bootstrap.rs:77-82 | The build yields a sorted image whose tree has every entry at its path with its data and blob, and otherwise only directories above entries; the root keeps the digest it came with. |
| EndToEnd.BuiltIsImage | packages/bootstrap/src/bootstrap.rs:203-344 | Flattening a named, well-formed tree from its root leaves an array that satisfies every layout rule the readers rely on. |
| EndToEnd.CanonFind | packages/bootstrap/src/bootstrap.rs:235-238 | Sorting siblings and re-splitting change no lookup by path. |
| EndToEnd.WholeFileIsContiguous | packages/bootstrap/src/tree.rs:292-333 | A regular entry without chunk entries describes one contiguous range of its blob. |
| TableFiles.CutIsContiguous | packages/bootstrap/src/tree.rs:292-333 | So does a regular entry with chunk entries for consecutive pieces of 4 MiB, the last of which may be shorter and leave out its size. |
| EndToEnd.PiecesAreUniform | packages/bootstrap/src/bootstrap.rs:275-306 | The 4 MiB pieces of a large file are its bytes back to back, the last piece possibly shorter. |
| RangeRead.ReadDelivers | packages/rafs/src/metadata/mod.rs:638-677 | For uniform chunks the bios fetch exactly `[offset, min(end, size))`, in order, and `bi_size` is the number of bytes fetched. |
| RangeRead.WindowIsFullScan | packages/rafs/src/metadata/mod.rs:734-755 | The computed chunk window gives the result of scanning all chunks if and only if the range starts past the end of the file or the window's end survives its `as u32` truncation. |
| RangeRead.WindowGuard | packages/rafs/src/metadata/mod.rs:734-755 | Every read whose last byte lies in a chunk numbered below 2^32 - 1 meets that condition. |
| RangeRead.WindowTruncated | packages/rafs/src/metadata/mod.rs:749-752 | A concrete read of a two-chunk file for which the truncated window loses the second chunk. |
| RangeRead.AllocBioDesc | packages/rafs/src/metadata/mod.rs:638-677 | The loop computes the scan of the window, or of all chunks for a file with holes, with its error cases. |
| RangeRead.BiosTaken | packages/rafs/src/metadata/mod.rs:638-731 | Every piece that is read comes from a chunk of the file in the range, from the blob the chunk names; a range whose end does not fit 64 bits is refused. |
| RangeRead.AddChunkToBioDesc | packages/rafs/src/metadata/mod.rs:689-731 | One chunk adds nothing before the range, ends the scan after it, and otherwise adds its overlap with the range. |
| RangeRead.ChunkPosition | packages/rafs/src/metadata/mod.rs:689-731 | A chunk is skipped, stops the scan or is read exactly by its number relative to the chunks holding the ends of the range. |
| Bootstrap.Bootstrap.BuildRafs | packages/bootstrap/src/bootstrap.rs:217-344 | From any numbered state, the directory's whole tree is laid out behind what is there: children sorted and contiguous after it, ranges and parent numbers set, nothing else touched. |
| Bootstrap.Bootstrap.BuildRafsWrap | packages/bootstrap/src/bootstrap.rs:203-215 | The same from the root, which is inode 1. |
| Bootstrap.Bootstrap.PlaceLevel | packages/bootstrap/src/bootstrap.rs:217-339 | One level: range, sorted children and link count of a directory; every newly numbered path is a child's. |
| Bootstrap.Bootstrap.PlaceChild | packages/bootstrap/src/bootstrap.rs:240-324 | A child is numbered by its position, gets its parent's number, and is re-split when it is large. |
| Bootstrap.Bootstrap.PlaceChildren | packages/bootstrap/src/bootstrap.rs:240-329 | All children are appended side by side, and exactly the directories among them are returned for the second loop. |
| Bootstrap.Bootstrap.FlattenDirs | packages/bootstrap/src/bootstrap.rs:341-343 | The directories are laid out one after the other, each leaving the records placed before it alone. |
| Bootstrap.Bootstrap.UpdateNodePathMap | packages/bootstrap/src/bootstrap.rs:193-201 | A new path gets the next number, a known one keeps its own. |
| Bootstrap.Bootstrap.BuildNodeBlobIndex | packages/bootstrap/src/bootstrap.rs:175-191 | Every chunk gets the blob index that the map gives its node's path, and nothing else changes. |
| Bootstrap.Bootstrap.BuildTree | packages/bootstrap/src/bootstrap.rs:115-147 | Table to array: the tree is the table's, flattened below the root node, with blob indexes from the map. |
| Nodes.SplitChunks | packages/bootstrap/src/bootstrap.rs:275-306 | The re-split loop cuts exactly the single-chunk files above 4 MiB. |
| Flatten.Number | packages/bootstrap/src/bootstrap.rs:249-273 | The hard link block: first position of the key as number, group size as link count, and earlier members patched. |
| Flatten.Assemble | packages/bootstrap/src/bootstrap.rs:235-344 | Children side by side with the blocks of their directories behind them in order make up one children block. |
| Flattening.PlacedThenFlattened | packages/bootstrap/src/bootstrap.rs:217-344 | Setting a directory's range, placing its children, setting its link count and flattening its directories lays out its whole tree. |
| Trees.SortIsSorted | packages/bootstrap/src/bootstrap.rs:235-238 | The sort orders the children by name, keeps each once, and leaves their trees alone. |
| Layout.PositionsOnce | packages/rafs/src/metadata/layout.rs:8-31 | The layout uses each position of the descendants block exactly once and no other. |
| Layout.FilesAtPositions | packages/bootstrap/src/bootstrap.rs:217-344 | The array holds the files of the tree, in preorder, at those positions. |
| Layout.BlockWellPlaced | packages/rafs/src/metadata/layout.rs:8-31 | Every placed node lies in the range of an earlier directory, under its path, with `i_parent` pointing back, and a directory's own range lies after it and has as many directories as its link count says. |
| Layout.DirsCounted | packages/bootstrap/src/bootstrap.rs:332-339 | The link count of a directory counts the directories in its child range. |
| Layout.CanonIsOrdered | packages/bootstrap/src/bootstrap.rs:235-238 | Once sorted, sibling names strictly increase at every level. |
| TreeLoad.FromBootstrap | packages/bootstrap/src/tree.rs:514-528 | Loading a tree through the mapped driver, which checks the digest of every inode it hands out: the tree of the image if the recursive digest check accepts its root, and an error otherwise. |
| TreeLoad.LoadedTreeIsBuiltTree | packages/bootstrap/src/tree.rs:137-176 | The tree that an image stands for is the tree it was laid out for, siblings sorted by name, hard links or not. |
| TreeLoad.FinishedLoads | packages/bootstrap/src/builder.rs:403-450 | What the digest passes leave of a laid-out tree stands for that tree, with the files' chunks in their blob. |
| TreeLoad.UndigestedNotLoaded | packages/bootstrap/src/tree.rs:519 | An image whose root has the empty digest, as `Bootstrap` writes it, is refused, unless the hash of the digests below is zero too. |
| TreeLoad.LoadedAgrees | packages/bootstrap/src/tree.rs:178-233 | Every node of a tree that was loaded has a digest that agrees with what it holds, so that a layer on top of it stays acceptable. |
| TreeLoad.LoadChildren | packages/bootstrap/src/tree.rs:137-176 | The trees below an inode, or an error: exactly as the inode and all below it have the digests of what they hold. |
| TreeLoad.LoadEach | packages/bootstrap/src/tree.rs:155-173 | The loop over the child range of a directory returns the trees of the range in order, or the error of the first child that is refused. |
| TreeLoad.FetchInode | packages/rafs/src/metadata/direct.rs:326-340 | `get_inode`: a validated inode, which is refused when asked for with a digest check that its digest or a file's among its children does not pass. |
| TreeLoad.InoFromPath | packages/rafs/src/metadata/mod.rs:406-450 | `ino_from_path` with the driver's own setting: the path is resolved unless the root is to be checked and is refused. |
| Readback.LookupFinds | packages/rafs/src/metadata/mod.rs:406-450 | Once the root is fetched, `ino_from_path` on an image returns the inode of the file at that path, or not-found when there is none. |
| Readback.PathRoundTrip | packages/rafs/src/metadata/mod.rs:382-404 | `path_from_ino` of any inode of an image gives the path its file was built for, and that leads back to the inode through `ino_from_path`. |
| Readback.PathToIsPath | packages/rafs/src/metadata/mod.rs:382-404 | The names on the way from the root to an inode make up its file's path. |
| Readback.ImageIsSound | packages/rafs/src/metadata/direct.rs:431-480 | Every inode of a built image passes the reader's validation, and parents precede children. |
| Direct.Mapping.GetChildByName | packages/rafs/src/metadata/direct.rs:513-551 | Binary search finds a child exactly when linear search does, and the same one. |
| Direct.Mapping.GetInodeIff | packages/rafs/src/metadata/direct.rs:431-480 | Exactly which inodes a reader refuses. |
| Bytes.LessIff | packages/rafs/src/metadata/direct.rs:513-551 | Names are ordered by the first byte in which they differ, a prefix before what it is one of. |
| Direct.Mapping.WalkDown | packages/rafs/src/metadata/mod.rs:434-447 | The component loop resolves a path; whatever fails on the way reads as not found. |
| Direct.Mapping.PathFromIno | packages/rafs/src/metadata/mod.rs:382-404 | The walk to the root terminates because parents come first, and yields the names from the root's child down. |
| FastIndex.GrowsExactly | packages/bootstrap/src/tree.rs:361-376 | Inserting a parents-first list from a root-only tree: every `apply2` returns true, the tree holds exactly the list, and it is the tree that recursive `apply` builds. |
| FastIndex.Apply2IsApply | packages/bootstrap/src/tree.rs:530-556 | On a tree in step, `apply2` equals `apply` if and only if the target is the root, has no parent in the tree, or is new below a directory. |
| FastIndex.IndexedTree.Apply2 | packages/bootstrap/src/tree.rs:530-556 | For any tree and trace the method pushes below the node that the parent's trace leads to; in step the tree changes as specified without the trace, and stays in step if the place was free. |
| FastIndex.Apply2InStep | packages/bootstrap/src/tree.rs:530-556 | In step, going through the trace is going by path. |
| FastIndex.IndexedTree.constructor | packages/bootstrap/src/tree.rs:50-63 | A tree with a default trace, which is in step with a root-only tree. |
| FastIndex.IndexedTree.FindInTrace | packages/bootstrap/src/tree.rs:79-105 | The loop over the components finds the trace of the path, or none. |
| FastIndex.TraceLeads | packages/bootstrap/src/tree.rs:79-125 | A path has a trace exactly when the tree has a node there, and the trace's positions lead to it. |
| FastIndex.SyncInsert | packages/bootstrap/src/tree.rs:65-77 | Adding the trace of a new node keeps index and tree in step. |
| FastIndex.ApplyNode | packages/bootstrap/src/tree.rs:561-646 | `apply` with its loop over children meets its recursive specification. |
| FastIndex.ApplyInserts | packages/bootstrap/src/tree.rs:630-643 | A new node whose parent is a directory of the tree is added below it and nowhere else. |
| FastIndex.InsertAdds | packages/bootstrap/src/tree.rs:630-643 | The new node is found at its path, and every other path keeps its node. |
| LayerApply.ApplyToBootstrap | packages/bootstrap/src/builder.rs:346-381 | Loading a lower image and applying the upper nodes: the loaded tree with them on top, or the load's digest error. |
| LayerApply.ApplyLayer | packages/bootstrap/src/builder.rs:374-381 | The loop applies the nodes one after the other from a default trace. |
| LayerApply.AppliedBeside | packages/bootstrap/src/tree.rs:530-556 | From a default trace, `apply2` of any list leaves the lower tree's children alone and puts behind them what it grows on a bare root. |
| LayerApply.LayeredFinds | packages/bootstrap/src/tree.rs:530-556 | A path leads to the lower tree's node if the lower tree has its first name, and otherwise to the upper node. |
| LayerApply.UpperNodeIff | packages/bootstrap/src/builder.rs:374-381 | An upper node ends up at its path if and only if the lower tree has nothing under the path's first name. |
| LayerApply.LowerStays | packages/bootstrap/src/builder.rs:374-381 | No lower node but the root goes away or changes. |
| LayerApply.ProperIff | packages/bootstrap/src/builder.rs:374-387 | The layered tree is a proper one if and only if no upper path starts with a name at the top of the lower tree; otherwise two siblings have one name. |
| LayerApply.UpperDirTwice | packages/bootstrap/src/builder.rs:374-381 | An upper directory that the lower image already has becomes a second sibling of the same name, and the files in it are not at their paths. |
| LayerApply.UpperFilesBuilt | packages/bootstrap/src/builder.rs:374-387 | With no name shared, the tree that is flattened has every upper file at its path. |
| LayerApply.LowerFilesBuilt | packages/bootstrap/src/builder.rs:374-387 | And every lower file at its own. |
| LayerApply.LoadedIsLower | packages/bootstrap/src/tree.rs:178-233 | A tree loaded from an image is a proper one with all its nodes in the lower layer, numbered as in the image. |
| Whiteouts.RemovalRemoves | packages/bootstrap/src/tree.rs:649-728 | `.wh.x` removes exactly the path x and its descendants, and reports a removal exactly when x existed. |
| Whiteouts.WhiteoutIff | packages/bootstrap/src/node.rs:563-582 | Which names are whiteouts of which kind, byte by byte. |
| Whiteouts.OpaqueClears | packages/bootstrap/src/tree.rs:659-699 | `.wh..wh..opq` removes exactly the strict descendants of its directory and marks it opaque; without the directory nothing happens. |
| Whiteouts.ApplyReplaces | packages/bootstrap/src/tree.rs:596-628 | A file of the upper layer replaces the node at its path and no other; old children stay, so the result is a proper tree exactly when the new node is a directory or there were none. |
| Whiteouts.LayerIsApplied | packages/bootstrap/src/tree.rs:561-577 | Applying one upper-layer file changes exactly those nodes, at every path. |
| Whiteouts.RemoveNode | packages/bootstrap/src/tree.rs:649-728 | `remove` with its loop meets its recursive specification. |
| TocBuild.StargzIndexTreeBuilder.Build | packages/bootstrap/src/tree.rs:264-379 | Succeeds exactly when the table has a root entry; the tree then has every entry with its data at its path, plus only missing directories, numbered as the path map says. |
| TocBuild.StargzIndexTreeBuilder.InsertNodes | packages/bootstrap/src/tree.rs:361-376 | The second loop gives every node its data and grows the tree by it. |
| TocBuild.StargzIndexTreeBuilder.Scan | packages/bootstrap/src/tree.rs:273-359 | The scan yields nodes in parents-first order, the chunks and size of each path, the hard links, the root, and the numbers given out. |
| TocBuild.StargzIndexTreeBuilder.PushEntry | packages/bootstrap/src/tree.rs:337-358 | One entry with its missing directories keeps that order and the numbers. |
| TocBuild.StargzIndexTreeBuilder.MakeLostDirs | packages/bootstrap/src/tree.rs:245-262 | Exactly the unknown ancestors of the entry, topmost first. |
| TocBuild.StargzIndexTreeBuilder.ParseNode | packages/bootstrap/src/tree.rs:382-474 | The node of an entry; a path that is known keeps its inode number. |
| TocBuild.StargzIndexTreeBuilder.PushLostDirs | packages/bootstrap/src/tree.rs:338-347 | The missing directories of an entry come before it and keep the list in order. |
| TocBuild.OneChunk | packages/bootstrap/src/tree.rs:292-333 | A regular file without chunk entries has its size and, unless empty, one chunk. |
| TocData.ChunksInOrder | packages/bootstrap/src/tree.rs:292-333 | The chunks of a path are its regular and chunk entries that describe some bytes, in the order of the table, each with that entry's offsets, digest and size; a chunk without a size has what is left of the regular entry before it. |
| TableFiles.TreeShows | packages/bootstrap/src/tree.rs:382-474 | Field by field and without the function that makes it: the node at an entry's path has its owner, mode, kind, link target, flags, attributes, link count, size and chunks. |
| TableFiles.TreeShowsMissing | packages/bootstrap/src/stargz.rs:262-274 | Any other node of the tree is a directory of mode 0755, made for the first entry below it, with that entry's owner. |
| TableFiles.TreePaths | packages/bootstrap/src/tree.rs:245-262 | The tree has nodes at the paths of the entries, at the paths above them, and nowhere else. |
| TableFiles.ImageShows | packages/bootstrap/src/bootstrap.rs:203-344 | The same in the image: the inode found at an entry's path shows that entry, its chunks cut to 4 MiB where it is one larger chunk. |
| TableFiles.ImageShowsMissing | packages/bootstrap/src/bootstrap.rs:203-344 | And any other inode below the root is a missing directory. |
| TocBuild.EntryData | packages/bootstrap/src/tree.rs:361-369 | A hard link ends up with the data of its target, a regular file with its own, anything else with none. |
| TocBuild.TocTreeFits | packages/bootstrap/src/bootstrap.rs:115-147 | The tree of a table is one that flattening accepts. |
| BlobIndex.BuildBlobMap | packages/bootstrap/src/bootstrap.rs:126-141 | Each name is mapped to the last position of its last item's blob id. |
| BlobIndex.OwnBlobIff | packages/bootstrap/src/bootstrap.rs:175-191 | A file gets its own blob if and only if its name is relative or the first blob is its own: an absolute name is looked up without its slash and falls back to blob 0. |
| BlobIndex.ImageIndexed | packages/bootstrap/src/bootstrap.rs:175-191 | Setting blob indexes keeps every layout rule. |
| BlobIndex.FindIndexed | packages/bootstrap/src/bootstrap.rs:175-191 | Files are found where they were, with their blob set. |
| TableLinks.OwnInodesIff | packages/bootstrap/src/tree.rs:427-438 | In a table's tree no node shares the number of a directory if and only if the root is listed before everything else or nothing new comes after it. |
| TableLinks.RootListedFirst | packages/bootstrap/src/tree.rs:427-438 | A table that lists its root first, and once, meets that condition. |
| TableLinks.RootListedBetween | packages/bootstrap/src/tree.rs:427-438 | A table that lists a directory, the root and another directory misses that condition: two directories get number 3. |
| TableLinks.OwnInodesIffByPath | packages/bootstrap/src/builder.rs:251-300 | A tree meets what the hard link builder needs exactly when no other node has the inode number of a directory, on its device and in its layer. |
| TableLinks.BuildFromStargzIndex | packages/bootstrap/src/builder.rs:392-400 | Under that condition a table's tree is flattened with its hard links grouped. |
| HardLinks.Builder.BuildRafsWrap | packages/bootstrap/src/builder.rs:327-342 | The maps hold exactly the groups of nodes by layer, `real_ino` and `dev`, every node is numbered by its group, and the layout is that of the tree. |
| HardLinks.Builder.BuildRafs | packages/bootstrap/src/builder.rs:224-325 | The same from any grouped state whose directories have keys of their own. |
| HardLinks.Builder.PlaceLevel | packages/bootstrap/src/builder.rs:224-320 | One level: range, sorted children and link count of a directory. |
| HardLinks.Builder.PlaceChild | packages/bootstrap/src/builder.rs:251-300 | A child joins its group, and the groups and numbers stay in agreement. |
| HardLinks.Builder.PlaceChildren | packages/bootstrap/src/builder.rs:244-310 | All children are placed, each in its group. |
| HardLinks.Builder.FlattenDirs | packages/bootstrap/src/builder.rs:322-324 | The directories are flattened in order without breaking any group. |
| HardLinks.Builder.NumberInLayer | packages/bootstrap/src/builder.rs:259-285 | The lower layer's nodes use one inode map, all others the other. |
| LinkRules.LinksAreNumbered | packages/rafs/src/metadata/layout.rs:18-24 | Every file's `i_ino` is the first position among the links to its inode, and its `i_nlink` is their number. |
| HardLinks.KeyIsFile | packages/bootstrap/src/builder.rs:251-300 | The builder takes nodes for links to one file exactly if they have the inode number, the device and the layer in common. |
| LinkRules.OneOwner | packages/rafs/src/metadata/layout.rs:18-24 | Exactly one link of an inode has the inode's number as index; all share number and count; an unshared inode has its own index. |
| LinkRules.InodesCounted | packages/bootstrap/src/builder.rs:482-483 | The sizes of the two inode maps add up to the number of distinct inodes. |
| LinkRules.LinkedLayout | packages/bootstrap/src/builder.rs:224-325 | Hard links do not change the layout, and directories keep their index as number. |
| LinkRules.LinkedInodesValidate | packages/rafs/src/metadata/direct.rs:431-480 | The reader's validation accepts every inode, hard links included. |
| Digest.FinishDigests | packages/bootstrap/src/builder.rs:403-450 | The passes, nodes of lower layers included, leave the Merkle digest of the whole tree at the root, and the recursive check accepts exactly when the digest every file was given is what the reader computes; every directory has the hash of its children's digests one after the other. |
| Digest.LeavesExist | packages/bootstrap/src/builder.rs:411-424 | In any readable image, of whatever layers, the digest that a file is given is a function of the file, since no two nodes have the same path. |
| Digest.UpperLeaves | packages/bootstrap/src/builder.rs:411-424 | Without a lower layer that function is the SHA-256 of the file's chunk digests. |
| Digest.PassIsMerkle | packages/bootstrap/src/builder.rs:447-450 | One reverse pass gives every directory the recursive Merkle digest of its subtree, for any hash function. |
| Digest.RootAcceptedIffAllMatch | packages/rafs/src/metadata/mod.rs:545-591 | Of any image: recursive validation from the root accepts if and only if every inode's digest is that of what it holds. |
| Digest.RootAcceptedIff | packages/rafs/src/metadata/mod.rs:545-591 | Of a finished image: it accepts if and only if, for every file, the digest it was given, in the upper layer the SHA-256 of its chunk digests, equals the image hash of what the reader reads. |
| Digest.WithoutSymlinksAccepted | packages/rafs/src/metadata/mod.rs:545-591 | Without symbolic links in the upper layer, with lower files that agree, and with SHA-256 as the image's hash, it always accepts. |
| Digest.SymlinkRefused | packages/bootstrap/src/builder.rs:411-424 | A symbolic link of the upper layer, which gets the digest of empty input, makes it refuse the image unless its target hashes to the same. |
| Digest.DigestsMatch | packages/bootstrap/src/builder.rs:411-424 | After the passes a directory's digest always matches; a file's does exactly when the digest it was given is the reader's. |
| Digest.DigestValidate | packages/rafs/src/metadata/mod.rs:545-591 | The recursive check with its loops decides whether the subtree is accepted. |
| Digest.ValidateChildren | packages/rafs/src/metadata/mod.rs:559-569 | The child loop accepts exactly when all children do, and collects their digests in order. |
| Digest.HashChunks | packages/rafs/src/metadata/mod.rs:570-574 | The chunk loop strings the 32-byte digests of all chunks together in order. |
| Digest.DumpBlob | packages/bootstrap/src/builder.rs:403-428 | Every upper node gets its blob index in every chunk and the SHA-256 of its chunk digests, 32 bytes each in order; lower ones stay. |
| Digest.DigestMatchesIff | packages/rafs/src/metadata/mod.rs:538-590 | A digest is accepted exactly if it is the hash of the 32-byte digests of chunks or children one after the other, or of the target of a link. |
| Digest.FileAgreesIff | packages/rafs/src/metadata/mod.rs:538-590 | An upper file agrees exactly if the SHA-256 of its chunks' digests, 32 bytes each in order, is the image's hash of what the reader hashes. |
| Digest.DigestNodes | packages/bootstrap/src/builder.rs:447-450 | The reverse loop gives every directory the digest of its children's final digests. |
| Digest.DigestNode | packages/bootstrap/src/builder.rs:581-597 | The digest of one directory from its children, once they have theirs. |
| Digest.ImageIsReadable | packages/rafs/src/metadata/direct.rs:431-480 | Images without hard links meet what the check needs. |
| ByteLayout.MappingFinds | packages/rafs/src/metadata/direct.rs:179-196 | With offsets that count extended attributes, every inode-table entry is the aligned position of its node, and the record read there is that node. |
| ByteLayout.BootstrapOffsetsRight | packages/bootstrap/src/bootstrap.rs:92-101 | The offsets of `Bootstrap::dump` are right for every node if and only if no node but the last has extended attributes. |
| ByteLayout.OffsetsFallShort | packages/bootstrap/src/bootstrap.rs:92-101 | Otherwise they fall short from the first such node on. |
| ByteLayout.NodeLength | packages/bootstrap/src/builder.rs:499-518 | The bytes written for a node are what the offset pass of `Builder` counts, a multiple of 8. |
| ByteLayout.RecordRoundTrip | packages/rafs/src/metadata/layout.rs:768-795 | A written node reads back as itself, and exactly its bytes are consumed. |
| ByteLayout.NodeBytesAt | packages/rafs/src/metadata/layout.rs:768-795 | Inode, name, link, attributes and chunks of a written node are where their padded lengths put them. |
| ByteLayout.ReadRecordAt | packages/rafs/src/metadata/direct.rs:378-600 | And any record is read from those places. |
| ByteLayout.SequenceFinds | packages/rafs/src/metadata/cached.rs:42-81 | Reading the nodes in sequence finds them all. |
| ByteLayout.DumpBootstrap | packages/bootstrap/src/node.rs:341-378 | The accumulated size is the number of bytes written; a wrong chunk count is an error. |
| ByteLayout.SetOffsets | packages/bootstrap/src/builder.rs:499-518 | The offset loop stores each node's offset divided by 8. |
| ByteLayout.OndiskInodeTable.constructor | packages/rafs/src/metadata/layout.rs:378-384 | The table has at least the requested entries and an aligned size. |
| ByteLayout.OndiskInodeTable.Set | packages/rafs/src/metadata/layout.rs:400-409 | Sets one entry to `offset >> 3`, refusing numbers outside the table. |
| ByteLayout.TableCoding | packages/rafs/src/metadata/layout.rs:400-422 | An aligned offset past the super block survives `>> 3` and `<< 3`. |
| ImageFile.FileReadsBack | packages/bootstrap/src/builder.rs:537-562 | A whole file written by `Builder` reads back: nodes through the mapped table, nodes in sequence, and the blob table. |
| ImageFile.BootstrapFileReadsBack | packages/bootstrap/src/bootstrap.rs:84-113 | So does one written by `Bootstrap`, if no node but the last has extended attributes. |
| ImageFile.Dump | packages/bootstrap/src/bootstrap.rs:84-113 | Writes super block, inode table, blob table and nodes, with the table holding the counted offsets. |
| OnDisk.InodeRoundTrip | packages/rafs/src/metadata/layout.rs:657-684 | An inode whose fields fit their widths reads back from its bytes. |
| OnDisk.InodeBytesAt | packages/rafs/src/metadata/layout.rs:657-684 | Every field of an inode is at its offset in the 128 bytes, little-endian, with zeros behind the last. |
| OnDisk.ReadInodeAt | packages/rafs/src/metadata/layout.rs:657-684 | Any 128 bytes of a known kind are read as the inode with the fields at those offsets, and no others are. |
| OnDisk.ChunkBytesAt | packages/rafs/src/metadata/layout.rs:801-823 | Every field of a chunk record is at its offset in the 80 bytes. |
| OnDisk.ReadChunkAt | packages/rafs/src/metadata/layout.rs:801-823 | Any 80 bytes are read as the chunk with the fields at those offsets. |
| OnDisk.ChunkRoundTrip | packages/rafs/src/metadata/layout.rs:801-831 | A chunk record reads back from its bytes. |
| OnDisk.BuilderTests | packages/bootstrap/src/node.rs:452-462 | The builder's single-bit mode tests agree with the readers' tests, except that symbolic links pass as regular. |
| BlobTable.TableRoundTrip | packages/rafs/src/metadata/layout.rs:539-652 | A stored table of non-empty NUL-free ASCII ids, with read-ahead bytes below 0x80, loads back exactly, from exactly `size()` bytes. |
| BlobTable.TableBytesAt | packages/rafs/src/metadata/layout.rs:626-652 | Every entry of a stored table is two little-endian numbers and the id, with one NUL to the next and NULs up to a multiple of eight at the end. |
| BlobTable.OndiskBlobTable.Store | packages/rafs/src/metadata/layout.rs:627-652 | Writes the table's bytes, as many as `size()` accounts for. |
| BlobTable.OndiskBlobTable.LoadFromSlice | packages/rafs/src/metadata/layout.rs:575-619 | The loop appends exactly the parsed entries, or fails where the text is not UTF-8. |
| BlobTable.OndiskBlobTable.Add | packages/rafs/src/metadata/layout.rs:552-560 | Appends one entry and returns its index. |
| XAttrs.ParseStored | packages/rafs/src/metadata/layout.rs:1041-1073 | Parsing a stored list with NUL-free keys gives back every pair, in order. |
| XAttrs.StoredSize | packages/rafs/src/metadata/layout.rs:949-963 | The size field counts exactly the pairs, and the whole is 8 plus the aligned size. |
| XAttrs.XattrBytesAt | packages/rafs/src/metadata/layout.rs:982-1014 | Every pair of a stored list is at its place: the length of what follows, key, NUL and value. |
| XAttrs.StoreXattrs | packages/rafs/src/metadata/layout.rs:983-1012 | The loop writes the list and returns how many bytes that was. |
| XAttrs.ParseXattr | packages/rafs/src/metadata/layout.rs:1041-1073 | The loop yields the pairs of the data; a length that overruns it is an error. |
| Cached.CachedInodes.LoadAllInodes | packages/rafs/src/metadata/cached.rs:42-81 | On an image, hard links included, loading ends with every directory holding its children, and `Arc::get_mut(...).unwrap()` never fails; it is refused exactly when a link has an empty target. |
| LinkRules.LinkedIsTreeOrder | packages/bootstrap/src/builder.rs:224-342 | The hard link builder's array is such an image. |
| Cached.ImageIsTreeOrder | packages/bootstrap/src/bootstrap.rs:203-344 | And so is that of an image without hard links. |
| Cached.CachedInodes.LoadOne | packages/rafs/src/metadata/cached.rs:45-72 | One record is entered and, unless a directory, attached. |
| Cached.CachedInodes.AttachDir | packages/rafs/src/metadata/cached.rs:74-77 | Directories are attached from the last to the first, so that a parent is not shared yet when its child comes. |
| Cached.CachedInodes.HashInode | packages/rafs/src/metadata/cached.rs:91-102 | A hard link to an inode with data is not entered again; any other inode takes the place of what its number had. |
| Cached.CachedInodes.AddIntoParent | packages/rafs/src/metadata/cached.rs:104-110 | An unshared parent gets the child, sorted once complete; a missing parent drops it; a shared one is a panic that changes nothing. |
| Cached.ParentUnshared | packages/rafs/src/metadata/cached.rs:104-110 | At every step the parent of the inode being attached has one owner only. |
| Cached.FinalChildren | packages/rafs/src/metadata/cached.rs:267-274 | A loaded directory has its whole range as children in name order, anything else none. |
| Cached.CachedInodes.GetChildByName | packages/rafs/src/metadata/cached.rs:297-304 | The library's binary search over sorted children finds what linear search does. |
| Cached.SameByName | packages/rafs/src/metadata/direct.rs:513-551 | Both drivers return the same child for every name of every directory; on a file both fail, with different errors. |
| Cached.SameByIndexIff | packages/rafs/src/metadata/cached.rs:306-309 | Both return the same child by position if and only if it is a directory's and in range: past it one reports an error and the other panics. |
| TarFields.NumFieldRoundTripIff | packages/tokio-tar/src/header.rs:1374-1450 | A numeric field reads back if and only if: extension in 12 bytes, extension in 8 bytes below 2^63, or octal with a last byte that is NUL or white space (or a zero after zeros). |
| TarFields.FieldReads | packages/tokio-tar/src/header.rs:1374-1389 | Octal digits and one more byte read as the digits' value exactly when that byte is NUL, white space, or a zero after zeros. |
| TarFields.OctalInto | packages/tokio-tar/src/header.rs:1391-1397 | Digits are right-aligned before the last byte, which is left as it was. |
| TarFields.NumFieldInto | packages/tokio-tar/src/header.rs:1401-1407 | Octal or base-256, by the value and the field's length. |
| TarFields.ExtendedInto | packages/tokio-tar/src/header.rs:1423-1433 | The number in the last eight bytes, zeros before, top bit set. |
| TarHeader.SetCksumAcceptedIff | packages/tokio-tar/src/archive.rs:416-425 | The reader accepts a header after `set_cksum` if and only if the checksum field's untouched last byte is NUL or white space. |
| TarHeader.SetCksum | packages/tokio-tar/src/header.rs:677-680 | Writes the checksum of the header as it was. |
| TarHeader.CalculateCksum | packages/tokio-tar/src/header.rs:682-693 | The sum of all bytes with the checksum field taken as spaces. |
| TarHeader.SumStays | packages/tokio-tar/src/header.rs:677-693 | Setting the checksum does not change the sum, which fits seven digits. |
| TarHeader.SetHeaderPath | packages/tokio-tar/src/header.rs:361-375 | Succeeds exactly when the path has a place in the header, and touches name and prefix only. |
| TarPaths.CopyPathInto | packages/tokio-tar/src/header.rs:1482-1527 | Succeeds exactly when the path's text exists and fits, then holds it with a NUL if there is room, and touches nothing outside the field. |
| TarPaths.CopyInto | packages/tokio-tar/src/header.rs:1461-1475 | Succeeds exactly for NUL-free bytes that fit. |
| TarPaths.NormalText | packages/tokio-tar/src/header.rs:1482-1527 | A normalised relative path is written as it is. |
| TarPaths.PathTextIff | packages/tokio-tar/src/header.rs:1482-1520 | Which paths can be written at all, and what is written for them: `.` alone, or the normal components with a trailing slash kept. |
| Ustar.GreedySplitIff | packages/tokio-tar/src/header.rs:973-1006 | For a path over 100 bytes the greedy split succeeds if and only if some component boundary leaves at most 155 bytes before it and 100 after it. |
| Ustar.SplitPathRoundTrip | packages/tokio-tar/src/header.rs:930-1006 | A split path is what `path_bytes` returns, whatever the fields held before. |
| Ustar.ShortPathRoundTripIff | packages/tokio-tar/src/header.rs:966-972 | A short path reads back if and only if the old prefix was empty. |
| Ustar.SetPath | packages/tokio-tar/src/header.rs:955-1006 | Both branches, with exact success conditions and the bytes written. |
| Ustar.FitsIff | packages/tokio-tar/src/header.rs:1482-1540 | A text fits a field that is at least as long, if there is no NUL in it. |
| TarWriter.Builder.AppendData | packages/tokio-tar/src/builder.rs:177-188 | Succeeds exactly when the path fits or goes long; what is written is the member, preceded by a long-name entry in the second case. |
| TarWriter.Builder.Append | packages/tokio-tar/src/builder.rs:412-428 | Header, data and zeros up to the next block. |
| TarWriter.Builder.Finish | packages/tokio-tar/src/builder.rs:402-410 | Two blocks of zeros, once. |
| TarWriter.PrepareHeader | packages/tokio-tar/src/builder.rs:506-519 | A GNU header of type `L` named `././@LongLink`, with mode 0644, the right size, and a checksum that the reader accepts. |
| TarReader.Entries.Next | packages/tokio-tar/src/archive.rs:269-333 | However the source splits its reads: the next member of the archive with pending long names, or its end, or an error. |
| TarRoundTrip.MemberRead | packages/tokio-tar/src/archive.rs:269-333 | What the reader makes of any one member: type `L` is kept as the long name of the next member, `K` as its long link, a second one is an error, and any other type is returned with what was kept. |
| TarRoundTrip.LongNamesRead | packages/tokio-tar/src/archive.rs:278-302 | A member behind an `L` and a `K` entry, in either order, is returned with the data of both, and behind one of them with that. |
| TarHeader.HeaderAt | packages/tokio-tar/src/header.rs:342-365 | The byte ranges that size, type, format, checksum and path are read from. |
| TarHeader.SumCounts | packages/tokio-tar/src/header.rs:682-691 | The checksum adds up every byte once. |
| TarHeader.TruncateStops | packages/tokio-tar/src/header.rs:342-365 | A text field ends before its first NUL. |
| TarFields.ExtendedAt | packages/tokio-tar/src/header.rs:1411-1450 | A field whose first bit is set is a big-endian number, any other is octal text. |
| TarFields.ParseOctalIff | packages/tokio-tar/src/header.rs:1374-1391 | Octal text is at least one digit behind an optional plus sign, of less than 2^64. |
| TarFields.WhiteBytes | packages/tokio-tar/src/header.rs:1386 | The single bytes that are trimmed. |
| TarFields.WhiteIff | packages/tokio-tar/src/header.rs:1386 | What `trim` takes away is exactly the encodings of the scalar values that Unicode calls white space. |
| TarFields.OctalWeighs | packages/tokio-tar/src/header.rs:1374-1391 | Octal digits weigh eight times the next. |
| TarPaths.ComponentsRead | packages/tokio-tar/src/header.rs:1482-1540 | Components are what stands between bytes 47, with the meaning of `.`, `..` and a leading slash. |
| Utf8.ValidIff | packages/tokio-tar/src/header.rs:1374-1386 | The text that is accepted is exactly the encodings of sequences of Unicode scalar values. |
| TarReader.Entries.NextRaw | packages/tokio-tar/src/archive.rs:349-457 | Whatever was read of the last member, the next header is found after its last block. |
| TarReader.Entries.TryReadAll | packages/tokio-tar/src/archive.rs:601-632 | All bytes, none at the end of the source, or an error in between. |
| TarReader.Entries.Skip | packages/tokio-tar/src/archive.rs:634-655 | Advances by the amount if the source is long enough, and is an error otherwise. |
| TarReader.Entries.Read | packages/tokio-tar/src/entry.rs:852-890 | Never past the member's data, progress unless it is used up, and nothing more once a read gave nothing. |
| TarReader.Entries.ReadAll | packages/tokio-tar/src/entry.rs:330-343 | All the source has of the member's data. |
| TarRoundTrip.WriteArchive | packages/tokio-tar/src/builder.rs:177-188 | Writing a list of entries succeeds exactly when every path has a place in its header or a long-name entry; the finished archive then holds them in order, each readable exactly when its header was ready. |
| TarRoundTrip.ReadArchive | packages/tokio-tar/src/archive.rs:269-333 | Reading such an archive until the reader says it ends, taking any prefix of each member's data, finds exactly its members, with path, header and data in order. |
| TarRoundTrip.ItemOfAppended | packages/tokio-tar/src/entry.rs:356-378 | One appended member is read as it was written, its path from the long-name entry if it has one. |
| TarRoundTrip.AppendedIsReadableIff | packages/tokio-tar/src/builder.rs:521-548 | What was written for an entry satisfies the reader if and only if the header's size, type, checksum field and old prefix were ready for it. |
| TarRoundTrip.PathReadsBackIff | packages/tokio-tar/src/header.rs:930-1006 | The header's path reads back if and only if it is not a short path beside an old ustar prefix. |
| Bucket.RecordSelects | packages/downloader/src/store/tar.rs:100-142 | Over any run of successful adds, each recorded (offset, size) selects exactly the data of an entry of its own archive, a whole number of 512-byte blocks from where the bucket began. |
| Bucket.RecordsIncrease | packages/downloader/src/store/tar.rs:100-142 | Recorded ranges increase and are disjoint, within an add and across adds, with a header between. |
| Bucket.ItemHasRecord | packages/downloader/src/store/tar.rs:18-68 | Every entry of a recorded type has its record. |
| Bucket.CopiedInFull | packages/downloader/src/store/tar.rs:107-135 | `append` succeeds only if every entry's copied length equals the size in its header. |
| Bucket.NpmBucketStore.Append | packages/downloader/src/store/tar.rs:81-145 | Ok exactly when the archive is read to its end, every renamed path fits and every record can be made; then the bytes and records are those of its members. |
| Bucket.NpmBucketStore.AppendEntry | packages/downloader/src/store/tar.rs:95-142 | One entry: new header, copied data, padding, and, for types 0 and `0` to `6`, a record with the data's position that tells type, mode, size and link of the archive's header. |
| Bucket.RecordTells | packages/downloader/src/store/tar.rs:19-66 | A record has the type that byte 156 stands for, the mode and size of their fields, the link field up to its NUL, and no owner. |
| Bucket.RecordedIff | packages/downloader/src/store/tar.rs:25-37 | Which headers get a record, and which of their fields have to be readable for it. |
| Bucket.NpmBucketStore.Copy | packages/downloader/src/store/tar.rs:107-130 | The copy loop writes all there is of the member's data. |
| Bucket.NpmBucketStore.AddPackage | packages/downloader/src/store/bucket.rs:81-110 | A successful add extends the bucket, advances `position` by what was written, and keeps the account of all adds. |
| Bucket.NewTarHeader | packages/downloader/src/store/tar.rs:71-79 | Succeeds exactly when the renamed path fits the header; there is no long-name fallback. |
| Bucket.RenamedKept | packages/downloader/src/store/tar.rs:71-79 | The new header differs from the old one in path and checksum only. |
| Bucket.RenamedNormal | packages/downloader/src/store/tar.rs:71-79 | Renaming replaces the first component by the prefix and keeps the others. |
| Bucket.RenamedIs | packages/downloader/src/store/tar.rs:70-79 | The renamed path of any path: the prefix, a slash unless it is empty or ends in one, and the components after the first. |
| Bucket.RawNames | packages/downloader/src/store/tar.rs:24 | A recorded name is absolute exactly with a leading slash; a leading `./` does not count. |
| Bucket.RecordedPathIff | packages/downloader/src/store/tar.rs:22-25 | The recorded name is the renamed path if and only if it is not a short path beside an old ustar prefix. |
| Bucket.RereadIff | packages/downloader/src/store/tar.rs:71-79 | A rewritten member is read again from the bucket if and only if its checksum field ended in NUL or white space. |
| Bucket.RereadsItems | packages/downloader/src/store/tar.rs:81-145 | Reading the bucket as an archive finds the members of a package with their new headers and the same data. |
| TocStore.EveryRunConsistent | packages/downloader/src/toc_index_store.rs:130-177 | In every interleaving of adds: each add's range is in bounds and selects its own entries, ranges of different adds to one blob are disjoint, and every stored range is that of a completed add. |
| TocStore.HasThenGets | packages/downloader/src/toc_index_store.rs:109-128 | After any interleaving on a new store, with `@`-free versions: a package is there exactly when an add of it completed, and what is returned is the entries and blob of such an add. |
| TocStore.PackageIdIff | packages/downloader/src/toc_index_store.rs:179-181 | Two packages share an id if and only if they are equal or one name runs into the other's version across an `@`. |
| TocStore.PlainVersions | packages/downloader/src/toc_index_store.rs:179-181 | Versions without `@` keep packages apart. |
| TocStore.IdsCollide | packages/downloader/src/toc_index_store.rs:179-181 | Two different packages with one id. |
| TocStore.ConsistentInBounds | packages/downloader/src/store/stargz.rs:136-144 | `partition_clone` never slices out of bounds. |
| TocStore.SelectedIsAdd | packages/downloader/src/toc_index_store.rs:115-128 | Whatever range is picked, the entries returned are those of one completed add under that id. |
| TocStore.Interleave | packages/downloader/src/toc_index_store.rs:130-145 | Calls interleaved step by step on one store reach the state of the step semantics. |
| TocStore.TocIndexStore.AddPackageToc | packages/downloader/src/toc_index_store.rs:155-165 | Appends the entries to the blob's and returns where they start. |
| TocStore.TocIndexStore.AddPackageIndex | packages/downloader/src/toc_index_store.rs:167-177 | Sets the package's range in the blob and no other. |
| TocStore.TocIndexStore.AddPackage | packages/downloader/src/toc_index_store.rs:130-145 | The two steps together, for the range of the add's own entries. |
| TocStore.TocIndexStore.GetPackage | packages/downloader/src/toc_index_store.rs:115-128 | Present exactly when the package is, and then what one of its ranges selects. |
| TocStore.TocIndexStore.HasPackage | packages/downloader/src/toc_index_store.rs:109-113 | Whether the id is in the index. |
| Pool.AlwaysConserved | packages/downloader/src/pool.rs:178-240 | In every interleaving, free, held and lost executors together are exactly the initial ones. |
| Pool.NeverHeldTwice | packages/downloader/src/pool.rs:178-210 | No executor is held twice, or free while held, and no more commands run than there are executors. |
| Pool.IntoInnerReturnsAll | packages/downloader/src/pool.rs:231-240 | The owner of the last clone gets all executors back, but for requests dropped while holding one. |
| Pool.UseThenUnwrap | packages/downloader/src/pool.rs:231-240 | Any use followed by `into_inner` through a handle: Ok exactly with the last clone, and then nothing is missing unless dropped. |
| Pool.SafeExactlyUpTo | packages/downloader/src/pool.rs:178-218 | If callers never have more than `bound` requests under way, counting lost executors, no request ever waits in any run: true if and only if `bound` is at most the number of executors. |
| Pool.EnoughForAll | packages/downloader/src/pool.rs:178-210 | Within that bound every request finds an executor when it looks for one. |
| Pool.WaiterLeftBehind | packages/downloader/src/pool.rs:178-218 | For any executors there is a run with one request more that ends with all executors free, all other requests finished, and the last one waiting for ever. |
| Pool.GaplessNeverStuck | packages/downloader/src/pool.rs:178-229 | If nothing is dropped and no executor comes back between a failed attempt and its registration, some unfinished request can always go on. |
| Pool.Interleave | packages/downloader/src/pool.rs:59-71 | Requests interleaved step by step on one pool reach the state of the step semantics. |
| Pool.Pool.GetExecutor | packages/downloader/src/pool.rs:201-204 | Takes the first free executor, if there is one. |
| Pool.Pool.BackExecutor | packages/downloader/src/pool.rs:206-210 | Puts the executor last. |
| Pool.Pool.WaitFree | packages/downloader/src/pool.rs:212-218 | Queues the waiter last. |
| Pool.Pool.NotifyFree | packages/downloader/src/pool.rs:220-229 | Takes the first waiter, if there is one. |
| Pool.Pool.IntoInner | packages/downloader/src/pool.rs:231-240 | The free executors, for the last clone only. |

## Left out

- Path normalisation of table names and of image paths is at the level of components: names are already split, and `.`, `..` and repeated separators do not occur in them.
- Trees and traces are values that a class or a loop replaces; Rust owns them uniquely, so aliasing plays no part. File systems, gzip, JSON, base64 and the operating system's calls are not modelled; hashes and decoded bytes are parameters.
- Image files are directories, regular files and symbolic links: devices and FIFOs occur in tables of contents as unsupported entries only.
- The image theorems are for tables in which paths are distinct (the root may come twice), only directories have entries below them, an explicit directory comes before what it contains, and sizes are below 2^53. The attributes of the root node come from the file system's root directory, not from the table.
- TableLinks.OwnInodesIff: is for tables in which no hard link names a directory.
- Image bytes: the prefetch table and inode offsets that do not fit 32 bits are not modelled. Of a super block of version 4, for which the source has no reader, only the checks are.
- LayerApply.ProperIff: which of two siblings of one name a reader's binary search hits depends on where they come among the root's children; this is not stated, nor is the flattening of such a tree.
- Range checks of single reads against the end of the mapping, `update_state`, and everything below the typed view of the mapped bytes.
- Digest.DumpBlob: covers images whose data is already in blobs; chunking, compression and deduplication of local files are not modelled.
- Whiteouts in the overlayfs form.
- Tar: pax records, GNU sparse members and `ignore_zeros` are not read by the model, which returns an error for the first two; `Poll::Pending` and wake-ups, unpacking to disk, and link-name entries on the writing side are not modelled. Paths that go into a header are relative and normalised in the round trip.
- Bucket.NpmBucketStore.AddPackage: the state after a failed or timed-out add is not stated, because buffered bytes are not discarded by the rollback.
- Bucket.NpmBucketStore.Append: a header field that the source unwraps and that cannot be read ends the add with an error here and with a panic in the source; the entry listener and the value of the digest are left out.
- TocBuild.StargzIndexTreeBuilder.ParseNode: takes the twelve permission bits of an entry's mode; the source adds all bits of the mode to those of the file type.
- TocStore.TocIndexStore.GetPackage: dumping and restoring the store are not modelled.
- ImageFile.Dump: takes the super block as bytes, which `SuperBlock.BuildSuperBlock` and `FileReads.BuildFile` supply, and writes no prefetch table.
- FileReads.BuildFile: is for tables without extended attributes; with them the offsets of `Bootstrap::dump` are wrong, as `ByteLayout.BootstrapOffsetsRight` says.
- FastIndex.GrowsExactly: names are UTF-8, as all names from a table are; `TreeTrace::find` looks up the lossy text of a path, which differs from other names.
- FastIndex.IndexedTree.FindInTrace: looks up the components as they are, for the same reason.
- FastIndex.TraceLeads: is likewise for names that are UTF-8.
- Pool: fairness and time are not modelled, and neither are the batch helpers built on `create_request`.
- Each locked section is one step; the fairness of locks is not modelled.
- The daemon, the mount and overlay commands, the JavaScript front end, HTTP, statistics and logging.
