# OVFS verification model

A Dafny 4.11 model of OVFS, the vhost-user virtio-fs device that answers FUSE 7.38
messages from an OpenDAL object store.  `dafny verify dfyconfig.toml` checks all of it.

The model has two levels that are proved equal.

- **The code level** follows the source's loops and field updates.
  `DescriptorChainConsumer`, `BufferWrapper`, `Reader` and `Writer` (Chain.dfy,
  Cursor.dfy) move slices in and out of a deque and copy bytes in one shared array of
  guest memory.  The class `Filesystem` (Handlers.dfy) changes its slab, its
  path-to-inode map and its path-to-writer map handler by handler and answers through
  a `Writer`.  `ProcessQueueSerial` (Device.dfy) is the drain loop over it.
- **The specification level** is functional.  A chain means the sequence of addresses
  it visits (`Cells`); reading is `View`, writing is `Put` along those cells
  (GuestMemory.dfy).  A message is `Parse` (Requests.dfy), then `Step`
  (FsModel.dfy), then `Emit` (Replies.dfy); `Serve` is their composition.

`Filesystem.HandleMessage` is proved to compute exactly `Serve`: same tables, same
guest memory byte for byte (also when the reply does not fit), same result or panic,
for every request, every way of cutting request and reply into descriptors
(overlapping ones included), every state and every behaviour of the backend.
Everything else is proved about the specification, over arbitrary runs:

- Inodes.dfy: the inode table, nodeid permanence, lookup stability, readdir.
- Sessions.dfy: writers against a `pwrite` reference, release, reading back.
- Outcomes.dfy: for each operation, exactly when it succeeds, what it then changes and
  how it fails otherwise; which objects there are after any run.
- Delivered.dfy: the same as the guest reads it, byte by byte, in its reply chain.
- Names.dfy: which names are understood, against the definition of UTF-8.
- EndToEnd.dfy: from bytes sent through one segmentation to bytes read through another,
  for file contents and for directories; Scenario.dfy: one such session byte by byte.
- Segmentation.dfy: any sequence of reads on a chain against a flat string.
- Messages.dfy, Replies.dfy: record stream and decoder, framing of every reply.
- Device.dfy, Batch.dfy: which chains end the device thread, and what the guest finds
  in every reply chain of a drained batch once the whole batch has been served.
- Queue.dfy: the notification protocol under all interleavings of driver and device.

## How the surroundings appear

- The backend's answers while one message is handled are a parameter (`Env`): any
  call may fail, and a failed call changes nothing.  `objects` holds committed
  contents; a writer's data joins them when the writer is closed.  A writer opened for
  appending starts from the object's content at that moment.  Opening a writer fails
  on a directory; creating a directory changes no object.
- Which object a path string names is an arbitrary function `norm`, since the
  backend normalises paths ("//a" and "/a" may be one object).  The tables are keyed by
  path strings, as in the source.
- The inode slab is append-only and hands out 0, 1, 2, ...: nothing in the source
  removes a slot, and one thread serves the queue.  It never fills up.
- Guest memory is one region; a descriptor that does not start inside it, even an empty
  one, or that ends outside it makes creating the reader or writer fail.
- A panic (`unwrap`, `expect`, an underflowing name length) is the outcome `Panic`; a
  handler's error is `Err`; both end the device thread.
- Names and paths are byte strings; UTF-8 validity is checked as the source does.

## Where the code does not do what one might expect

The first lemma named gives the exact condition, the second a concrete case.

- A write stores what was gathered but reports the size it announced; the two agree
  exactly when the size falls on a slice boundary: `PayloadSizeExact`,
  `GatherSeesSlices`.
- `read` ignores the requested size: `ReadIgnoresSize`; `RoundTripExample` asks for one
  byte and is answered with two.
- `read` drops, without an error, what does not fit or lies behind an empty slice:
  `WholeExactly`, `DroppedBehindEmpty` (any data of two bytes or more, such as the answer
  in `RoundTripExample`).
- `readdir` ignores offsets below the end of the listing: `PageReply`,
  `OffsetIgnoredReachable`.
- `getattr` on an inode the map no longer holds for its path answers with another
  inode: `GetattrCurrent`, `StaleInodeReachable`.
- `readdir` files children under keys that a lookup uses only when the parent's path
  ends in '/': `KeyAgreement`; one child then has two inodes: `KeyDisagreement`,
  `TwoInodesReachable`.
- A request that cannot be read, a chain outside memory or a reply chain that is too
  short ends the device thread: `PanicsExactly`.
- The proposal (section 4.3) calls the service stateless; the code keeps the inode
  table and the writers between messages, and the model follows the code.

## Model

| member | source | states |
|---|---|---|
| GuestMemory.PutThenPut | src/util.rs:273-286 | two consecutive writes through a cursor leave memory as one write of the concatenation |
| GuestMemory.ViewPut | src/util.rs:272-289 | along cells without repetition the guest reads back the data followed by what was behind it |
| GuestMemory.PutFrame | src/util.rs:272-289 | a write changes no byte outside its leading cells |
| GuestMemory.OutOfOrder | src/filesystem.rs:423-440 | payload through the tail, then header through the front, equals one sequential write |
| Chain.PickShortest | src/util.rs:39-52 | consume selects the shortest slice prefix whose total reaches count, or all slices if none does |
| Chain.PickExact | src/util.rs:39-52 | the selection has exactly min(count, remaining) bytes iff count covers the chain or is a slice boundary |
| Chain.CellsAdvance | src/util.rs:64-71 | dropping n bytes drops exactly the first n cells, and introduces no empty slice |
| Chain.AdvanceAll | src/util.rs:64-71 | dropping all bytes leaves no slice, trailing empty ones included |
| Chain.AdvanceAdvance | src/util.rs:64-71 | dropping a bytes and then b bytes is dropping a + b, slice for slice |
| Chain.SplitCells | src/util.rs:76-116 | a split succeeds iff offset <= remaining; the parts are the first offset cells and the rest, free of empty slices if the chain was |
| Chain.DescriptorChainConsumer.Select | src/util.rs:39-55 | the first loop of consume computes that selection |
| Chain.DescriptorChainConsumer.Commit | src/util.rs:57-73 | the pop loop drops n cells, the checked add never overflows, consumed + remaining is conserved |
| Chain.DescriptorChainConsumer.SplitAt | src/util.rs:76-116 | split_at meets that specification; on failure the consumer is unchanged |
| Cursor.ScatterWhole | src/util.rs:260-268 | write_from_at of a whole buffer places min(size, bytes before the first empty slice), which is min(size, capacity) if none is empty |
| Cursor.ScatterExact | src/buffer.rs:54-67 | the scatter loop stops at the first empty slice and nowhere else |
| Cursor.BufferWrapper.ReadVectored | src/buffer.rs:42-68 | the scatter loop stores exactly that prefix along the slices, whatever they overlap |
| Cursor.BufferWrapper.WriteVectored | src/buffer.rs:70-97 | the gather loop replaces the buffer by all bytes of the slices, in order |
| Cursor.NewBuffers | src/util.rs:124-164 | a chain is accepted iff every descriptor, empty or not, starts inside memory and ends in it, and the total length does not overflow |
| Cursor.MappedExactly | src/util.rs:124-164 | accepted are exactly the chains all of whose cells lie in memory, whose empty slices start there and whose length fits |
| Cursor.Reader.Read | src/util.rs:186-202 | read moves min(count, remaining) flat bytes, empty slices or not, and leaves the rest |
| Cursor.Reader.ReadExact | src/util.rs:166-172 | read_exact succeeds iff enough bytes are left and yields exactly the next ones; on failure it has used up the chain |
| Cursor.Reader.ReadObj | src/util.rs:166-172 | read_obj yields the next size bytes or fails, and never anything in between |
| Cursor.Reader.ReadToAt | src/util.rs:174-182 | read_to_at gathers whole slices and consumes exactly what it gathered, leaving the remaining slices as they were |
| Cursor.Writer.Write | src/util.rs:272-289 | write stores min(len, remaining) bytes at the next cells, empty slices or not |
| Cursor.Writer.WriteAll | src/util.rs:272-289 | write_all succeeds iff the data fits; otherwise it has filled the chain |
| Cursor.Writer.WriteFromAt | src/util.rs:260-268 | write_from_at stores the scattered prefix at the next cells and nothing else |
| Cursor.Writer.SplitAt | src/util.rs:256-258 | the front writer keeps the first offset cells, the new writer gets the rest |
| Segmentation.ReadsAreFlat | src/util.rs:166-202 | any sequence of exact reads and covering gathers on slices equals the same on one flat string |
| Segmentation.SameBytesSameReads | src/util.rs:166-202 | chains with equal flat bytes give equal results and equal remaining bytes |
| Segmentation.GatherSeesSlices | src/util.rs:174-182 | a gather of fewer bytes than are left does depend on the segmentation: a counterexample |
| Segmentation.Play | src/util.rs:166-202 | running any sequence of calls on a Reader gives the results of Perform and leaves its slices |
| Messages.UnLEOfLE | src/filesystem_message.rs:93-99 | decoding a k-byte little-endian field yields the value modulo 256^k, so casts truncate |
| Messages.LittleEndian | src/filesystem_message.rs:93-99 | byte i of an encoded integer is its i-th base-256 digit |
| Messages.OutHeaderFields | src/filesystem_message.rs:93-99 | len, error and unique are recovered from a header, truncated to their widths |
| Messages.AttrRoundTrip | src/filesystem_message.rs:58-77 | inode, size, mode, links, uid and gid are recovered from encoded attributes, file or directory |
| Messages.BodyAttr | src/filesystem_message.rs:127-146 | entry and attribute replies carry those attributes at offsets 40 and 16 |
| Messages.AttrBlanks | src/filesystem_message.rs:58-77 | blocks, times, device, block size and flags of encoded attributes are zero |
| Messages.EntryOutFields | src/filesystem_message.rs:136-146 | an entry carries generation 0 and is valid, like its attributes, for one second |
| Messages.InitOutFields | src/filesystem_message.rs:110-125 | the init structure carries 7, 38 and one mebibyte where the guest reads major, minor and max_write |
| Messages.WriteOutFields | src/filesystem.rs:470-474 | the guest reads the written size first and zero padding behind it |
| Messages.DirentsRoundTrip | src/filesystem.rs:677-703 | decoding the record stream recovers ino, off, type and name of every entry, in order |
| Messages.DirentsAligned | src/filesystem.rs:678-679 | record i starts at the sum of the records before it, a multiple of 8; lengths add up to the stream |
| Requests.HeaderRoundTrip | src/filesystem_message.rs:79-91 | a request header built by the guest decodes to itself, whatever follows |
| Requests.ParseSegmentation | src/filesystem.rs:109-146 | requests with equal flat bytes are understood alike, however cut, if a write carries no surplus payload |
| Requests.ParseWriteRequest | src/filesystem.rs:443-463 | a well-formed write request decodes to its offset, size and exactly its data for every segmentation |
| Requests.ParseReadRequest | src/filesystem.rs:404-405 | a well-formed read request decodes to its offset for every segmentation; size has no effect |
| Requests.ParseReaddirRequest | src/filesystem.rs:589-610 | a well-formed readdir request decodes to its offset for every segmentation; size has no effect |
| Requests.ParseNamedRequest | src/filesystem.rs:188-210 | lookup, mkdir, unlink, rmdir and create decode to their name and flags for every segmentation, whatever lies behind the name |
| Requests.ParseOpenRequest | src/filesystem.rs:379-402 | a well-formed open decodes to its flags for every segmentation |
| Requests.ParseBareRequest | src/filesystem.rs:109-146 | requests without a structure are understood by their opcode, unknown opcodes are unsupported, and a request is overlong iff its header says more than 0x101000 |
| Names.NameExactly | src/filesystem.rs:188-195 | a name is understood iff the header's length covers it, its only NUL is the last byte and the rest is UTF-8 |
| Names.Utf8Exactly | src/filesystem.rs:716-724 | the accepted strings are exactly the encodings of sequences of Unicode scalar values |
| Requests.ParseOwnBytes | src/filesystem.rs:109-146 | a request depends on guest memory only through the cells of its own chain |
| Requests.PayloadSizeExact | src/filesystem.rs:460-473 | stored and reported write size agree iff the size is a slice boundary |
| FsModel.FlagMeaning | src/filesystem.rs:726-730 | the write, truncate and append tests depend on exactly the access mode, O_CREAT, O_TRUNC and O_APPEND bits |
| Inodes.StepInv | src/filesystem.rs:109-147 | every message keeps the table invariant and only appends to the slab |
| Inodes.ReachableTable | src/filesystem.rs:151-176 | in every reachable state map entries point at slots of their path, and no two mapped paths share an inode |
| Inodes.NodeidPermanence | src/filesystem.rs:744-765 | a nodeid reported by any reply is not 0 and names the same path in every later state |
| Inodes.RootForever | src/filesystem.rs:158-167 | from the first accepted init on, "/" maps to 1 for good |
| Inodes.LookupStable | src/filesystem.rs:188-224 | two successful lookups of a path agree if nothing in between created or removed exactly that path |
| Inodes.GetattrCurrent | src/filesystem.rs:226-250 | getattr(i) reports i iff the map holds i for its path; the table is unchanged iff the path is mapped |
| Inodes.GetattrStable | src/filesystem.rs:226-257 | while nothing creates or removes its path, every successful getattr or setattr of a current inode reports it and changes nothing |
| Inodes.StaleInodeReachable | src/filesystem.rs:226-250 | init, mkdir "a" twice, getattr(2): the answer names inode 3 |
| Inodes.KeyAgreement | src/filesystem.rs:864-909 | readdir key and later lookup key agree iff the parent's path ends in '/' and the name does not |
| Inodes.KeyDisagreement | src/filesystem.rs:885-909 | otherwise one child has two different inodes while both keys are mapped |
| Inodes.TwoInodesReachable | src/filesystem.rs:885-909 | init, mkdir "a", readdir listing "x", lookup "x": the child is inode 3 and inode 4, both keys mapped |
| Inodes.ListEntriesReport | src/filesystem.rs:877-918 | entry k of a listing names the child's key, has offset k + 1 and the child's type and shown name |
| Inodes.RelistSame | src/filesystem.rs:889-899 | listing a directory again while its children's keys are where they were yields the same entries and files nothing |
| Inodes.ReaddirRun | src/filesystem.rs:589-643 | at the level of answers: reading a directory from 0 and continuing from the last offset lists every entry once, in order, then ends |
| Inodes.PageIsSuffix | src/filesystem.rs:613-632 | a page is the rest of the listing from the offset iff the offset is 0 or past the end |
| Inodes.OffsetIgnoredReachable | src/filesystem.rs:613-632 | init, readdir of "/" at offset 1 with two children: both are listed |
| Sessions.TiledAppends | src/filesystem.rs:831-848 | for tiled writes random-access writing and appending coincide |
| Sessions.TiledCovers | src/filesystem.rs:837-845 | accepted intervals neither overlap nor leave a gap |
| Sessions.RunHolds | src/filesystem.rs:767-848 | over every run a path has a writer exactly while a session is open, holding exactly the session's accepted writes |
| Sessions.WriterRefinesPwrite | src/filesystem.rs:831-848 | in every reachable state pending content is the fold of pwrite over the accepted writes, and written is its length |
| Sessions.WriteAccepted | src/filesystem.rs:837-847 | a write is accepted iff a session is open, its offset is the end of the content and the backend takes it; else nothing changes |
| Sessions.ReleaseCommits | src/filesystem.rs:796-809 | release succeeds iff a session is open and the backend closes it; it commits exactly the session |
| Sessions.SecondReleaseFails | src/filesystem.rs:350-367 | a second release fails unless a writing open or create of that path came in between |
| Sessions.OthersKeepWriter | src/filesystem.rs:767-848 | anything but an accepted open, write or release of a path leaves its writer as it was |
| Sessions.CommittedContent | src/filesystem.rs:767-848 | after open, any run, release and any run that leaves the object alone, the object holds base plus accepted data |
| Sessions.SessionExample | src/filesystem.rs:443-475 | a concrete session, with a rejected write and a failing second release |
| Outcomes.MetadataExactly | src/filesystem.rs:744-765 | lookup, getattr and setattr succeed iff the backend knows the path, with its size, its type and the map's inode; else ENOENT and nothing changes |
| Outcomes.OpenExactly | src/filesystem.rs:726-794 | open succeeds iff truncating or creating flags meet the write capability, appending the append capability, and a writer asked for can be opened; else ENOENT and nothing changes |
| Outcomes.CreateExactly | src/filesystem.rs:259-317 | the same for create, after its inode is filed, which stays filed on failure |
| Outcomes.CommittedByFlags | src/filesystem.rs:767-809 | after a session opened for appending the object is its old content and the accepted data, after any other the accepted data alone, over any run |
| Outcomes.MkdirExactly | src/filesystem.rs:477-523 | mkdir succeeds iff the backend does; its inode is filed either way and no object changes |
| Outcomes.RemoveExactly | src/filesystem.rs:319-348 | unlink and rmdir succeed iff the backend deletes; then exactly the object and the path's entry are gone, else ENOENT and nothing changes |
| Outcomes.ReadExactly | src/filesystem.rs:821-829 | read yields what completes the first offset bytes to the object, past the end nothing or ENOENT, and changes nothing |
| Outcomes.ReaddirExactly | src/filesystem.rs:589-611 | readdir lists every child iff the backend can list; else ENOENT and nothing changes |
| Outcomes.InitExactly | src/filesystem.rs:151-176 | init is accepted iff major is 7 and minor at least 27; else EIO and nothing changes |
| Outcomes.AcknowledgeExactly | src/filesystem.rs:369-377 | flush, opendir, releasedir and fsyncdir succeed iff the nodeid was handed out, and change nothing |
| Outcomes.RefusedExactly | src/filesystem.rs:109-147 | ENOENT for a nodeid never handed out, ENOSYS for exactly the unknown opcodes, EIO for bad names and overlong requests |
| Outcomes.PathsDiffer | src/filesystem.rs:214-216 | two children have one path iff directory and name are the same, for names without a slash |
| Outcomes.ShownExactly | src/filesystem.rs:906-909 | a listed name is shown with exactly its trailing slash cut |
| Outcomes.PresenceTracked | src/filesystem.rs:796-819 | after any run the backend holds an object iff the last accepted message about it was a release and not a removal |
| Outcomes.RemovedStaysGone | src/filesystem.rs:319-348 | after an accepted removal and until a release commits that object again, over any run, every read, file lookup and getattr, and opening for appending answers ENOENT |
| Outcomes.RemovedInodeNotReused | src/filesystem.rs:342-345 | a lookup after an accepted removal of a path never reports an inode handed out before it, over any run |
| Outcomes.RemovalExample | src/filesystem.rs:319-348 | a concrete lookup, unlink, lookup and read |
| Replies.EmitSequential | src/filesystem.rs:404-441 | every delivered reply equals one sequential write of header and payload |
| Replies.Framing | src/filesystem.rs:647-714 | every delivered reply starts with a header echoing unique, its len is the returned value, old bytes follow the payload, nothing else changes |
| Replies.WholeExactly | src/filesystem.rs:420-440 | the announced length is the number of bytes placed always for errors and structures, iff the data ends before the first empty slice for reads, and for listings iff no records are due, or they fit, or the chain has exactly 16 bytes |
| Replies.ListingDelivered | src/filesystem.rs:624-642 | a listing that fits decodes from the reply chain to its entries, for every segmentation |
| Replies.PageDelivered | src/filesystem.rs:613-642 | for every offset the guest decodes exactly the page of entries that offset stands for |
| Replies.PageReply | src/filesystem.rs:613-642 | the guest decodes the entries from its offset on iff the offset is 0 or past the end |
| Replies.DroppedBehindEmpty | src/filesystem.rs:420-440 | data of two or more bytes behind an empty slice: the header announces all of it, one byte arrives |
| Replies.EmitDelivers | src/filesystem.rs:404-441 | an answer is delivered iff it is silent, or neither an error nor a panic and its header and body fit |
| Replies.NodeidDelivered | src/filesystem.rs:214-223 | the nodeid the guest reads from an entry reply is the inode |
| Replies.ReplyOk | src/filesystem.rs:647-675 | header, structure and data as specified; running out of chain leaves what the whole reply would have left |
| Replies.ReplyError | src/filesystem.rs:705-714 | the error header as specified, and the byte count returned |
| Replies.ReplyAddDirEntry | src/filesystem.rs:677-703 | appends exactly one padded record, succeeding iff it fits |
| Handlers.Filesystem.HandleMessage | src/filesystem.rs:109-147 | state, guest memory and outcome are those of Parse, Step and Emit for every message and segmentation |
| Handlers.Filesystem.Init | src/filesystem.rs:151-176 | the same for init |
| Handlers.Filesystem.Lookup | src/filesystem.rs:188-224 | the same for lookup |
| Handlers.Filesystem.Getattr | src/filesystem.rs:226-257 | the same for getattr and setattr |
| Handlers.Filesystem.Create | src/filesystem.rs:259-317 | the same for create, whose inode stays filed when the writer cannot be opened |
| Handlers.Filesystem.Remove | src/filesystem.rs:319-348 | the same for unlink and rmdir |
| Handlers.Filesystem.Release | src/filesystem.rs:350-367 | the same for release |
| Handlers.Filesystem.Acknowledge | src/filesystem.rs:369-377 | the same for flush, opendir, releasedir and fsyncdir |
| Handlers.Filesystem.Open | src/filesystem.rs:379-402 | the same for open |
| Handlers.Filesystem.Read | src/filesystem.rs:404-441 | the same for read, payload before header |
| Handlers.Filesystem.Write | src/filesystem.rs:443-475 | the same for write, with the payload that was gathered |
| Handlers.Filesystem.Mkdir | src/filesystem.rs:477-523 | the same for mkdir |
| Handlers.Filesystem.Readdir | src/filesystem.rs:589-643 | the same for readdir, including the panic on a chain shorter than a header |
| Handlers.Filesystem.DoGetMetadata | src/filesystem.rs:744-765 | reuses the mapped inode or files a new one |
| Handlers.Filesystem.DoSetWriter | src/filesystem.rs:767-794 | replaces the path's writer only when flags, backend and stat allow it |
| Handlers.Filesystem.DoReleaseWriter | src/filesystem.rs:796-809 | commits and removes the writer, or changes nothing |
| Handlers.Filesystem.DoWrite | src/filesystem.rs:831-848 | appends at the expected offset, or changes nothing |
| Handlers.Filesystem.DoReaddir | src/filesystem.rs:864-922 | files unknown children in listing order |
| Handlers.SendRecords | src/filesystem.rs:624-632 | the record loop places the stream, or all of it that fits |
| EndToEnd.RoundTrip | src/filesystem.rs:404-475 | from every reachable state, bytes sent in accepted writes of a session come back from a read behind its header, for every segmentation of requests and reply |
| EndToEnd.AcceptedIsSent | src/filesystem.rs:460-463 | what a run stores is what the guest sent, whatever the segmentation |
| EndToEnd.ReadDelivered | src/filesystem.rs:416-440 | read data that fits a chain without empty slices arrives whole behind its header |
| EndToEnd.ReadIgnoresSize | src/filesystem.rs:404-441 | a read answers with the rest of the object, within the requested size iff the object ends there |
| EndToEnd.DirectoryRun | src/filesystem.rs:589-643 | over two exchanges with any run between that leaves the children's keys alone, for every segmentation: the first reply decodes to every entry, the second to the same entries under the same inodes or, from the last offset on, to none |
| Delivered.MetadataDelivered | src/filesystem.rs:226-250 | the guest reads size, type, links, owner and inode of the object iff the backend knows it; else ENOENT |
| Delivered.SizeDelivered | src/filesystem.rs:744-751 | after a session was written and released, over any run that leaves the object alone, the size field of lookup, getattr and setattr is the length of the base and of everything sent |
| Delivered.WriteAnswered | src/filesystem.rs:470-474 | after an accepted write the guest reads its announced size at offset 16 |
| Delivered.WriteConfirmed | src/filesystem.rs:443-475 | for write requests laid out and cut by the guest: its size back iff a session is open, the offset is its end and the backend takes the data; else EIO |
| Delivered.CreatedDelivered | src/filesystem.rs:259-317 | create and mkdir show the guest a new nodeid, size 0 and the right type, or ENOENT |
| Delivered.EntryDelivered | src/filesystem.rs:214-223 | nodeid, generation, validity and, for create, file handle of every delivered entry |
| Delivered.InitDelivered | src/filesystem.rs:151-176 | the guest reads 7, 38 and the write limit iff its version is in the window; else EIO |
| Delivered.OpenDelivered | src/filesystem.rs:379-402 | the guest reads error 0 and handle 0 iff the open is allowed; else ENOENT |
| Delivered.RemoveDelivered | src/filesystem.rs:319-348 | the guest reads error 0 iff the object was deleted; else ENOENT |
| Delivered.ReleaseDelivered | src/filesystem.rs:350-367 | the guest reads error 0 iff its session was committed; else EIO |
| Delivered.AcknowledgeDelivered | src/filesystem.rs:369-377 | the guest reads error 0 iff the node exists; else ENOENT |
| Delivered.RefusedDelivered | src/filesystem.rs:109-147 | ENOENT, ENOSYS and EIO of requests that reach no operation, read back from the header |
| Delivered.ListingVerdict | src/filesystem.rs:613-642 | a listing is answered without error iff it fits or none of it is due; else EIO with a bare header |
| Delivered.ListedTypeAgrees | src/filesystem.rs:901-916 | the type in a directory record is that of the mode in the child's attributes |
| Scenario.RoundTripExample | src/filesystem.rs:404-475 | a session laid out byte by byte and cut anywhere meets every hypothesis of the round trip; a read of one byte brings two |
| Device.ProcessChain | src/main.rs:117-132 | one drained chain is mapped, handled and returned as specified, or the thread panics |
| Device.ProcessQueueSerial | src/main.rs:106-134 | the drain loop computes the fold of that over the drained chains |
| Device.VringState.ReturnDescriptor | src/main.rs:73-104 | one used entry if the ring takes it, and a signal unless event indices say it is not needed |
| Device.SignalExactly | src/main.rs:89-103 | a served chain is signalled exactly once, or not at all iff event indices are on and the driver needs no notification |
| Device.UsedLenFits | src/main.rs:79-85 | the used length always fits 32 bits, so the exit is never taken |
| Device.ReturnedInOrder | src/main.rs:117-132 | without panics and refusals every drained chain is returned once, in order |
| Device.ReplyOfOne | src/filesystem.rs:109-147 | over the whole dispatcher: every served request but forget and destroy leaves a header echoing unique with the returned length in the first 16 reply bytes, and touches nothing outside the reply chain |
| Device.PanicsExactly | src/main.rs:117-132 | a chain ends the device thread iff it is outside memory, its request is unreadable, or its reply chain is shorter than the header and the body of the reply |
| Device.ReplySize | src/filesystem.rs:647-675 | the body size of a successful reply is fixed by the operation |
| Batch.BatchServed | src/main.rs:106-134 | chains in memory, readable, roomy and apart from each other are all served, whatever the backend answers and whatever the state |
| Batch.BatchFrame | src/main.rs:106-134 | serving a batch changes no byte outside its reply chains |
| Batch.BatchAnswered | src/main.rs:117-132 | such a batch is returned once each, in order, and after the last chain every reply chain still holds the header of its own request with the length of its used entry |
| Batch.BatchSignals | src/main.rs:89-103 | a drained batch raises one signal for each of its chains that is not to be kept quiet |
| Batch.BatchAnnounced | src/main.rs:89-103 | without event indices every chain is signalled; with them none is only if the driver needs no notification for any |
| Batch.BatchOfRing | src/main.rs:106-154 | in every reachable ring, the drain loop hands back exactly the chains the protocol then counts as returned, in order |
| Device.DrainKeepsTable | src/main.rs:106-134 | draining any chains keeps the inode table sound and its slots in place |
| Queue.NextInv | src/main.rs:136-154 | every driver or device step keeps order, completeness and the pending-event invariant |
| Queue.NoLostChain | src/main.rs:142-149 | under every interleaving, a device asleep with no event pending has served every chain, once and in order |
| Queue.SettlesServed | src/main.rs:142-152 | from every reachable state the device alone comes to rest with every chain served and notifications on |
| Queue.AllReturned | src/main.rs:86-88 | chains handed back are all chains served iff the ring refused none |
| Queue.CheckIsNeeded | src/main.rs:146-148 | ignoring what enable_notification reports loses a chain: a concrete interleaving |

## Left out

- Closures: consume takes a closure in the source; here each of its four callers runs Select, its own copy loop and Commit.
- OpenDAL, tokio and the backend services: the backend is `Env` and a map of committed contents; when a service makes uncommitted writes visible, or truncates on open, is not modelled.
- Several memory regions, mapping and dirty bitmaps: vm_memory is not part of this model.
- Slab key packing, slab exhaustion and concurrent threads inside one handler.
- Machine widths of inode numbers and of the `written` counter: they are unbounded and truncated to 64 bits only where they are encoded.
- handle_event_serial as a method: its loop is modelled as the device's steps in Queue.dfy, because the driver acts between them.
- Several queues, event file descriptors, feature negotiation and start-up: only one queue's protocol is modelled.
- Queue.NoLostChain: enable_notification is two atomic steps, arming and checking; memory ordering inside them is assumed.
- Write errors reported by a writer half-way: a failed backend write is taken to have stored nothing.
- Error messages and errno conversion beyond the codes that reach the guest.
- The cache pool, write-back and DAX window described in the proposal, which the code does not contain.
