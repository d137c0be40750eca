# VirelaiOS: verified models of its image builder, codecs and window-manager state

This project models the self-contained state machines, codecs and layout builders of VirelaiOS in
Dafny and proves what they are for. `dafny verify dfyconfig.toml` checks all of it.

How it is arranged: each operation of the source is an executable method (on a class where the source
keeps mutable state, on an array where it works in place) proved equal to a specification function;
the properties are lemmas about those functions, most of them over every input or over every run.

| files | what they model |
|---|---|
| `Options`, `Words`, `Bytes` | optional values; wrap-around and division of machine integers; little-endian fields, Python slices, images built by in-place writes |
| `Fat32Geometry`, `Fat32Image`, `Fat32Reader`, `Fat32RoundTrip` | the FAT32 + GPT image builder and its `--cat-file` reader (`image/mkfat32.py`): when the sizing loop stops, where every byte goes, and that reading back gives the files |
| `Qoi` | the QOI encoder (`tools/png2qoi.py`) against a decoder written from the QOI specification v1.0 |
| `NavRing`, `Strip`, `TabStrip`, `Panes` | the tab strip with its pin partition, reopen ring, navigation histories and pane geometry (`user/go/gotabwm/tabs.go`) |
| `Toasts`, `SeatModel`, `Seat` | the toast queue, the pending-navigation slot and the request handler, over whole runs (`notify.go`, `interop.go`) |
| `TabsCodec`, `Session` | the `.tabs` v2 format, implemented twice, and the session file over boots |
| `FiniteSets`, `Netpoll` | the park/wake machine (`tools/netpollsm/sm.go`) over every interleaving |
| `Calc` | the checked 64-bit calculator (`user/go/calc/engine.go`) |
| `WasmStamp` | the wasm section stamper and module parser (`tools/wasm-manifest.py`); WebAssembly Core Specification 1.0, sections 5.2.2 and 5.5.3 |
| `PngRows` | PNG row unfiltering (`tools/decode-screen-glyphs.py`) against RFC 2083, section 6 |
| `NoteBuffer` | the notepad buffer (`user/go/note/buffer.go`) as a list of lines with a caret |
| `PktLine` | git pkt-lines and side-band demultiplexing (`pktline.go`, `smart.go`) |

## What turned out to be conditional

Where a property one would expect is not what the code does, the model follows the code, a lemma shows
an input, and the exact condition is proved:

- The FAT-size loop does not stop for every size: `Fat32Geometry.LoopStopsExactly`,
  `Fat32Geometry.SizeMb69NeverReturns`.
- The FAT is sized for two entries fewer than are written, so a file in a completely filled volume can
  be lost, and writes can overlap: `Fat32RoundTrip.ReadBack` says exactly when a file comes back and what
  comes back otherwise; `Fat32RoundTrip.FullVolumeLosesKernel`, `Fat32RoundTrip.FullVolumeKeepsKernel`,
  `Fat32RoundTrip.WritesDisjointExactly`.
- `minimum_volume_sectors` says smallest; it returns the first candidate of a walk in steps of 512:
  `Fat32Geometry.MinimumVolumeSectors`, `Fat32Geometry.SmallestVolume`.
- A comment in `interop.go` says an ack payload can never leak into the next request's reply; it does
  after a granted poll that names no reply address: `SeatModel.PayloadLeftExactly`,
  `SeatModel.PayloadCanStray`.
- `mul64` misses one overflowing pair; only reachability makes the calculator exact: `Calc.MulExactly`,
  `Calc.RunExact`, `Calc.UnreachableStateWraps`.
- A goroutine parked in the poller can be left behind: `Netpoll.StrandedExactly`,
  `Netpoll.WaitersCanBeLost`.
- The poller's 32-bit waiter counter also counts parks whose wake a Wait or a Close took, so it can wrap
  with nobody parked: `Netpoll.WaitersAgreeExactly`, `Netpoll.CounterCanWrap`.
- The encoder's and the decoder's QOI tables differ after some images: `Qoi.TablesDiffer`,
  `Qoi.TablesDifferExactly`; decoding is exact all the same.
- `stamp` removes a truncated abi section that the parser does not read as one:
  `WasmStamp.TestsDifferExactly`, `WasmStamp.StampRemovesExactly`, `WasmStamp.TruncatedAbiIsDropped`.
- The notepad's `Load` is documented to return the bound exactly for longer files; it does so exactly
  when the normalised text has at least that many bytes: `NoteBuffer.Buffer.Load`,
  `NoteBuffer.BoundWithoutCut`.
- `uleb` reads back exactly the values below 2^70, `pktRead` exactly the payloads up to 65516 bytes, and a
  `.tabs` field exactly the texts that fit it without a NUL: `WasmStamp.UlebInverts`,
  `PktLine.ReadInvertsEncode`, `TabsCodec.FixedReads`.

## Conventions of the model

- Go and Python integers are unbounded where the source cannot reach their width; 64-bit wrap-around in
  the calculator, 32- and 64-bit counters in the poller, 16-bit sequence numbers and every on-disk field
  width are explicit. Bit masks, shifts and ors on disjoint bits are written with `+`, `/` and `%`.
- Python exceptions and Go errors are result values (`Crash`, `Refusal`, `None`, `Err`).
- CRC-32 is an arbitrary function of the bytes: the reader never checks it. Accepted or refused kernel
  and host calls are booleans chosen by the caller.
- Preconditions on methods are the source's own: `Fat32Geometry.SolveGeometry` asks for the termination
  condition of its loop, and the disk image builder inherits it.

## Model

| member | source | states |
|---|---|---|
| Bytes.LeRoundTrip | image/mkfat32.py:66-91 | Little-endian fields of n bytes read back every value below 256^n. |
| Bytes.Survives | image/mkfat32.py:254-256 | Bytes written by one slice assignment are still there after any later assignments that do not touch them. |
| Bytes.WriteAt | image/mkfat32.py:254-256 | A same-length slice assignment replaces exactly that stretch of the buffer and keeps its length. |
| Fat32Geometry.FixedPointExactly | image/mkfat32.py:125-130 | A FAT size is a fixed point if and only if it is ceil((volume - 32) / 130) and (volume - 32) mod 130 is not 1 or 2; so it is unique. |
| Fat32Geometry.StepGetsCloser | image/mkfat32.py:125-130 | Each pass of the loop shrinks the distance to the fixed point, with a tie-break for the side it is on. |
| Fat32Geometry.LoopStopsExactly | image/mkfat32.py:124-130 | The loop stops for exactly the volumes with (volume - 32) mod 130 not in {1, 2}; all integers, negative ones included. |
| Fat32Geometry.AlternatesForever | image/mkfat32.py:124-130 | For the other residues, once the loop reaches {q, q+1} it alternates between the two forever. |
| Fat32Geometry.ReachesThePair | image/mkfat32.py:124-130 | For the other residues the loop does reach {q, q+1}. |
| Fat32Geometry.SizeMb69NeverReturns | image/mkfat32.py:306-311 | A concrete size that hangs: `--size-mb 69` alternates between 1071 and 1072. |
| Fat32Geometry.SolvedGeometry | image/mkfat32.py:131-134 | On exit the data area ends exactly at the volume end, the FAT is never a whole sector too long, and the two extra entries fit it exactly when the residue is 3 to 128. |
| Fat32Geometry.SolveGeometry | image/mkfat32.py:116-134 | The loop itself terminates under that condition, on the unique fixed point. |
| Fat32Geometry.MinimumVolumeSectors | image/mkfat32.py:152-159 | The default volume has 67024 sectors and 65960 clusters, the first candidate in steps of 512 over the FAT32 floor. |
| Fat32Geometry.SmallestVolume | image/mkfat32.py:152-159 | That is not the smallest volume: 66582 sectors give 65526 clusters, and every volume that passes has at least as many. |
| Fat32Image.FieldReads | image/mkfat32.py:162-190 | A field of a record that no later field overlaps can be read back from the record. |
| Fat32Image.ChainsAreRuns | image/mkfat32.py:240-252 | Following the table from each of the five starting clusters visits exactly its own consecutive clusters and stops; everything past the last file is free. |
| Fat32Image.Chain | image/mkfat32.py:244-246 | The inner loop links exactly its own run and leaves every other entry alone. |
| Fat32Image.BuildFat | image/mkfat32.py:240-252 | The array filled by the five chain calls is the intended table. |
| Fat32Image.VolumeWritesFit | image/mkfat32.py:254-298 | Every write of an accepted build lies inside the image, so the buffer never changes length. |
| Fat32Image.AcceptedIsSound | image/mkfat32.py:143-149 | A build that passes the checks has a volume that fills the image after sector 2048, more than 65525 clusters, 32-bit sector numbers and a FAT that covers its clusters. |
| Fat32Image.PutGpt | image/mkfat32.py:314-339 | Protective MBR, both headers and both entry arrays are written in place, backup included. |
| Fat32Image.BuildVolume | image/mkfat32.py:214-298 | Refuses with the first failing check, or turns the buffer into the image of exactly the specified writes. |
| Fat32Image.BuildImage | image/mkfat32.py:305-344 | The whole tool for every size and pair of files on which the geometry loop stops. |
| Fat32Reader.FindEspEntry | image/mkfat32.py:468-479 | The partition search, short entries included. |
| Fat32Reader.EmitFile | image/mkfat32.py:527-541 | Chain following with the visited set, the size countdown and a short read past the image, as a recursive reader. |
| Fat32Reader.ReadsLanding | image/mkfat32.py:527-541 | On an image of whole sectors, following links from any cluster for less than a cluster of bytes gives the first bytes of the first cluster on the image, nothing at an end marker or a repeated cluster, or raises at an entry off the image. |
| Fat32Reader.Walk | image/mkfat32.py:504-543 | The nested directory walk with its visited sets, end marker, deleted and label entries. |
| Fat32Reader.CatFile | image/mkfat32.py:450-545 | The reader on arbitrary bytes: found, not found, or a crash on a field or table entry outside the image. |
| Fat32RoundTrip.DescribesFat32 | image/mkfat32.py:162-190 | By the rule of the FAT specification, section "FAT Type Determination", the boot sector describes a volume of more than 65525 clusters, hence FAT32. |
| Fat32RoundTrip.DirEntryFields | image/mkfat32.py:203-211 | A directory entry gives back name, attribute, cluster and size. |
| Fat32RoundTrip.DecodesName | image/mkfat32.py:351-355 | Decoding an 8.3 name undoes its padding. |
| Fat32RoundTrip.WritesAreLaidOut | image/mkfat32.py:223-298 | The writes of an accepted build are the GPT, boot sectors, FATs and one sector for each used cluster, in cluster order. |
| Fat32RoundTrip.OpensVolume | image/mkfat32.py:465-488 | The reader finds the partition and the boot sector fields the builder wrote. |
| Fat32RoundTrip.ReadsFat | image/mkfat32.py:498-500 | Inside the first FAT the reader sees the entry meant for each cluster. |
| Fat32RoundTrip.ReadsPastFat | image/mkfat32.py:498-500 | The entry just past the first FAT is the first one of the second FAT. |
| Fat32RoundTrip.ReadsChain | image/mkfat32.py:527-541 | Following a correctly linked run returns the file from any of its clusters on. |
| Fat32RoundTrip.ReadsFile | image/mkfat32.py:527-541 | Either file is read back whole when all its needed entries lie in one FAT. |
| Fat32RoundTrip.LosesChain | image/mkfat32.py:527-541 | Otherwise, on images up to 1 GiB, following the chain runs off the image. |
| Fat32RoundTrip.StraysFrom | image/mkfat32.py:527-541 | Otherwise, on images of every size, all clusters but the last are read and the reader goes on from the head of the second FAT, taken for a link. |
| Fat32RoundTrip.StrayDecides | image/mkfat32.py:498-541 | What then comes back, on images of every size, is all clusters but the last followed by that landing; it is the file if and only if the landing cluster begins with the file's last bytes. |
| Fat32RoundTrip.StrayLands | image/mkfat32.py:498-541 | The landing by what the stray entry names: off the image it raises, the last cluster is landed in, a cluster read before or an end marker stops. |
| Fat32RoundTrip.Cats | image/mkfat32.py:502-545 | On any image of this layout the walk reaches exactly the two files, through nested directories, and nothing else. |
| Fat32RoundTrip.ReadBack | image/mkfat32.py:305-545 | The round trip: on every accepted build of every size each of the two paths gives back its file if and only if its entries fit one FAT or the stray landing has its last bytes, and exactly what it gives otherwise is stated; up to 1 GiB it then raises; every other path is absent. |
| Fat32RoundTrip.ProvisoFailsOnlyWhenFull | image/mkfat32.py:127-132 | That proviso fails only for a volume filled to its last cluster whose capacity is a multiple of 130. |
| Fat32RoundTrip.FullVolumeLosesKernel | image/mkfat32.py:240-298 | A concrete accepted build (65 MB, a kernel that fills it) whose kernel cannot be read back. |
| Fat32RoundTrip.FullVolumeKeepsKernel | image/mkfat32.py:240-298 | A concrete accepted build above 1 GiB (1040 MB) whose kernel does not fit the FAT and is read back all the same, its own bytes naming its last cluster. |
| Fat32RoundTrip.WritesDisjointExactly | image/mkfat32.py:223-339 | No two writes overlap, backup GPT included, if and only if all clusters + 2 entries fit one FAT and the last 33 clusters stay free. |
| Qoi.EncodeQoi | tools/png2qoi.py:12-78 | The encoder loop with its table, previous pixel and run, equal to a step function over the pixels. |
| Qoi.PixelChunkDecodes | tools/png2qoi.py:46-69 | Whichever of DIFF, LUMA, RGB and RGBA is chosen, a decoder recovers the pixel, wrap-around included. |
| Qoi.AllMatch | tools/png2qoi.py:24-71 | Invariant between encoder and decoder that is weaker than equal tables. |
| Qoi.TablesDiffer | tools/png2qoi.py:24-45 | The two tables really differ after two pixels (0, 0, 0, 255). |
| Qoi.TablesDifferExactly | tools/png2qoi.py:24-71 | After a whole image they differ if and only if it starts with (0, 0, 0, 255) and no pixel after that opening run goes to slot 53. |
| Qoi.DecodeInvertsEncode | tools/png2qoi.py:12-78 | A decoder written from the QOI specification v1.0 gives back every image of every size. |
| Qoi.AllQuiet | tools/png2qoi.py:41-45 | The chunk stream has no seven zero bytes in a row; when it ends in five, the last pixel is the one in slot 0, so INDEX 0 cannot come twice in a row. |
| Qoi.NoSevenWindow | tools/png2qoi.py:41-71 | Of any seven consecutive bytes of such a stream one is not zero. |
| Qoi.EndMarkerOnce | tools/png2qoi.py:73-78 | After the header the end marker occurs once, at the very end. |
| Qoi.SizeBound | tools/png2qoi.py:17-78 | A file of n pixels has at most 14 + 5n + 8 bytes. |
| NavRing.RecordedEntries | user/go/gotabwm/tabs.go:338-364 | A declare that counts drops the forward paths, appends and keeps the newest eight. |
| NavRing.RecordRefines | user/go/gotabwm/tabs.go:338-364 | One declare on the slots is one declare on the unbounded history cut at a floor that only rises. |
| NavRing.RunRefines | user/go/gotabwm/tabs.go:325-388 | So is every run of declares and steps, from any related start. |
| NavRing.FreshRun | user/go/gotabwm/tabs.go:325-388 | Over every run from a new tab the slots hold the tail of that run's history and the cursor its place. |
| NavRing.BackAndForward | user/go/gotabwm/tabs.go:373-388 | Back and forward undo each other. |
| NavRing.DeclareThenBack | user/go/gotabwm/tabs.go:338-379 | After a declare there is no way forward, and back leads to where one was, at the cap too. |
| NavRing.NavRecord | user/go/gotabwm/tabs.go:338-364 | The shift loop and the slot write; reports a change exactly when the path is news. |
| NavRing.NavBack | user/go/gotabwm/tabs.go:373-379 | The cursor step and the path it lands on. |
| NavRing.NavForward | user/go/gotabwm/tabs.go:382-388 | The cursor step and the path it lands on. |
| Strip.StepKeeps | user/go/gotabwm/tabs.go:275-880 | Every strip operation keeps the invariant: at most 16 tabs, distinct non-zero ids, focus in range, split only with two or more tabs, sash only while split, at most 16 reopen entries. |
| Strip.Run | user/go/gotabwm/tabs.go:275-880 | So does every run of operations. |
| Strip.FocusFollows | user/go/gotabwm/tabs.go:431-638 | Only focusing a tab and closing the focused one ever change which tab is focused. |
| Strip.CloseMovesFocus | user/go/gotabwm/tabs.go:435-474 | Closing the focused tab focuses its right neighbour, or the new last tab, or nothing. |
| Strip.CloseTakesOne | user/go/gotabwm/tabs.go:435-474 | A close takes exactly that id off the strip. |
| Strip.PartitionIsStable | user/go/gotabwm/tabs.go:610-638 | Pinned tabs first, each group in its old order, no tab lost or doubled. |
| Strip.PinPartitions | user/go/gotabwm/tabs.go:562-582 | What pinning and unpinning leave on the strip, tab by tab. |
| Strip.MoveMeans | user/go/gotabwm/tabs.go:588-608 | A reorder takes one tab out and puts it at its new place; the others keep their order. |
| Strip.ReorderUndoes | user/go/gotabwm/tabs.go:588-608 | Moving back restores the whole strip, focus included. |
| Strip.ReopenSkips | user/go/gotabwm/tabs.go:495-510 | Reopening skips exactly the leading entries without an executable. |
| Strip.NoNewcomers | user/go/gotabwm/tabs.go:275-295 | Only opening a window puts its id on the strip. |
| Strip.OpTells | user/go/gotabwm/tabs.go:187-626 | Every tab on the strip after an operation is new with that title, or has the labels it had save for those the operation gives that very tab. |
| TabStrips.RingPush | user/go/gotabwm/tabs.go:478-484 | A push at the modulo index is a push on a stack that drops its oldest beyond 16. |
| TabStrips.RingPop | user/go/gotabwm/tabs.go:499-508 | A pop moves to the next live entry, never to an overwritten slot. |
| TabStrips.TabStrip.Index | user/go/gotabwm/tabs.go:550-557 | The first slot with the id, or -1. |
| TabStrips.TabStrip.OpenTab | user/go/gotabwm/tabs.go:275-295 | Joins, relabels or refuses; slots past the count stay empty. |
| TabStrips.TabStrip.SetTitle | user/go/gotabwm/tabs.go:300-310 | Relabels without touching the executable. |
| TabStrips.TabStrip.SetFrozen | user/go/gotabwm/tabs.go:187-204 | Freeze and thaw; false exactly when nothing changes. |
| TabStrips.TabStrip.FocusTab | user/go/gotabwm/tabs.go:528-535 | Focuses a tab on the strip. |
| TabStrips.TabStrip.NextID | user/go/gotabwm/tabs.go:539-548 | The tab after the focused one, wrapping. |
| TabStrips.TabStrip.RecordClosed | user/go/gotabwm/tabs.go:478-484 | The reopen ring as a bounded stack. |
| TabStrips.TabStrip.CloseTab | user/go/gotabwm/tabs.go:435-474 | Records, shifts the slots down and moves focus, split and sash. |
| TabStrips.TabStrip.RecentlyClosed | user/go/gotabwm/tabs.go:488-493 | The k-th newest live entry. |
| TabStrips.TabStrip.ReopenLastClosed | user/go/gotabwm/tabs.go:499-510 | Pops past entries without an executable and returns the first that has one. |
| TabStrips.TabStrip.NormalizePinned | user/go/gotabwm/tabs.go:610-638 | The two-buffer sort is the stable partition with focus following. |
| TabStrips.TabStrip.SetPin | user/go/gotabwm/tabs.go:562-582 | Pin and unpin; false exactly when nothing changes. |
| TabStrips.TabStrip.Reorder | user/go/gotabwm/tabs.go:588-608 | The two shift loops perform the move, either direction, with focus following. |
| TabStrips.TabStrip.SetSplit | user/go/gotabwm/tabs.go:707-714 | Splits exactly two tabs and forgets the sash. |
| TabStrips.TabStrip.EndSplit | user/go/gotabwm/tabs.go:717-724 | Ends the split and forgets the sash. |
| TabStrips.TabStrip.SetSash | user/go/gotabwm/tabs.go:870-880 | Stores a clamped divider; refuses where nothing would move. |
| TabStrips.TabStrip.PaneRects | user/go/gotabwm/tabs.go:729-844 | Refused unless two tabs are up and both panes can keep their minimum; unsplit tabs both get the whole scanout; split panes tile it around the divider, pixel by pixel. |
| TabStrips.TabStrip.NavDeclare | user/go/gotabwm/tabs.go:394-400 | Records on the tab with that id and on no other. |
| TabStrips.TabStrip.NavStep | user/go/gotabwm/tabs.go:404-418 | Steps that tab's history and returns where it landed. |
| Panes.LaidExactly | user/go/gotabwm/tabs.go:729-844 | Panes are laid exactly when both minima and the gutter fit the scanout. |
| Panes.PanesTile | user/go/gotabwm/tabs.go:729-844 | Every pixel is in exactly one pane or in the gutter around the divider; an unset sash has no gutter. |
| Panes.ClampIsNearest | user/go/gotabwm/tabs.go:774-806 | The clamp picks the nearest place where both panes fit, and is stable. |
| Toasts.KeptMembers | user/go/gotabwm/notify.go:176-216 | The in-place filters keep exactly the toasts wanted, and an expiry order. |
| Toasts.KeptInOrder | user/go/gotabwm/notify.go:176-216 | Each of them as often as it was queued, all in the order they were queued in. |
| Toasts.DropFrom | user/go/gotabwm/notify.go:176-191 | Removes exactly one sender's toasts and counts them. |
| Toasts.DropExpired | user/go/gotabwm/notify.go:204-216 | Removes exactly the expired toasts and names their senders. |
| Toasts.PanelsStack | user/go/gotabwm/notify.go:239-259 | Panels lie inside the scanout, older above newer with a gap, the newest on the bottom inset; an older one has room only if all newer ones have. |
| Toasts.OnePanel | user/go/gotabwm/notify.go:239-259 | Panels are disjoint: a point lies on at most one. |
| Toasts.SlotOf | user/go/gotabwm/notify.go:266-277 | The hit test finds the panel under the point if and only if there is one. |
| Toasts.FadeApproaches | user/go/gotabwm/notify.go:285-317 | Each fade step moves every channel towards the background, which the last one reaches. |
| Toasts.MixRgb | user/go/gotabwm/notify.go:303-321 | The channel loop with its 32-bit conversions, product, truncating division, difference and clamp. |
| Toasts.NothingWraps | user/go/gotabwm/notify.go:303-321 | No step of the blend wraps while the step count is below 2^23 and the divisor below 2^31, the fade's among them. |
| SeatModel.NextSound | user/go/gotabwm/interop.go:183-322 | Every event keeps the seat invariant, and every recorded or queued path comes from its own tab. |
| SeatModel.TickedGood | user/go/gotabwm/notify.go:193-216 | After a tick every toast still shown has 1 to 7 ticks left, so the unsigned subtraction cannot wrap. |
| SeatModel.Run | user/go/gotabwm/interop.go:183-440 | Over every run: at most 4 toasts in expiry order, all from tabs on the strip, the paint latch set only while there are some, and a pending target only for a tab on the strip. |
| SeatModel.OwnedInTenure | user/go/gotabwm/tabs.go:394-400 | Over every run a history holds only paths its own tab declared since it joined the strip. |
| SeatModel.PendingInTenure | user/go/gotabwm/hid.go:185-209 | Over every run a queued target was declared by the tab it waits for. |
| SeatModel.PollGivesOwnPath | user/go/gotabwm/interop.go:84-101 | Over every run a granted poll is answered with such a path, never one of an earlier holder of the id, and only once. |
| SeatModel.PayloadLeftExactly | user/go/gotabwm/interop.go:105-111 | The ack payload is left over after a run if and only if a poll without a reply address was granted and nothing has been acked since. |
| SeatModel.LeftPayloadIsAcked | user/go/gotabwm/interop.go:327-359 | A payload left over goes out with the next applied request that is acked, whoever made it; with none left over no request but a poll is acked with a path. |
| SeatModel.PayloadCanStray | user/go/gotabwm/interop.go:327-335 | A concrete run in which window 2's attach is acked with window 1's path. |
| Seats.Desk.NavPoll | user/go/gotabwm/interop.go:84-92 | Drains the slot for its own id only. |
| Seats.Desk.CloseTab | user/go/gotabwm/tabs.go:435-474 | A close also clears the pending target and the toasts of that id. |
| Seats.Desk.ApplyNavStep | user/go/gotabwm/hid.go:185-209 | A step of the focused tab queues where it landed; a refused one leaves the slot alone. |
| Seats.Desk.NotifyPush | user/go/gotabwm/notify.go:142-159 | Queues, dropping and counting the oldest at four. |
| Seats.Desk.ClearNotify | user/go/gotabwm/notify.go:176-191 | Drops a sender's toasts and re-arms the latch on empty. |
| Seats.Desk.NotifyExpire | user/go/gotabwm/notify.go:204-216 | Drops the expired toasts, names their senders, re-arms the latch on empty. |
| Seats.Desk.NotifyPaintMarker | user/go/gotabwm/notify.go:398-405 | Announces the newest sender once per burst. |
| Seats.Desk.NotifyDismissByIndex | user/go/gotabwm/notify.go:418-425 | Removes one toast and names its sender. |
| Seats.Desk.NotifyClicked | user/go/gotabwm/notify.go:450-468 | A press dismisses exactly the toast under it and focuses its sender; elsewhere it does nothing. |
| Seats.Desk.CompositeTick | user/go/gotabwm/seat.go:338-374 | Expiry before paint before the marker, with 1 to 7 ticks left on what is painted. |
| Seats.Desk.ApplyRpc | user/go/gotabwm/interop.go:183-322 | Each request arm moves the seat as specified and reports whether it applied. |
| Seats.Desk.ServeRequest | user/go/gotabwm/interop.go:165-174 | Acks are not requests; only a request with a reply address takes the payload. |
| TabsCodec.FixedReads | user/go/gotabwm/tabsv2.go:22-36 | A fixed field survives write and read if and only if it fits and holds no NUL. |
| TabsCodec.FileReads | user/go/gotabwm/tabsv2.go:40-111 | Reading what was written gives the session with fields cut and trimmed, whatever bytes follow; it is the same session if and only if every field fits. |
| TabsCodec.PutFixed | tools/go/tabcodec/tabcodec.go:107-113 | Fills one fixed field in place and leaves the bytes around it alone. |
| TabsCodec.ReadFixed | tools/go/tabcodec/tabcodec.go:117-123 | Reads one up to its first NUL. |
| TabsCodec.Encode | tools/go/tabcodec/tabcodec.go:129-156 | Exactly the file, or exactly which refusal. |
| TabsCodec.Decode | tools/go/tabcodec/tabcodec.go:160-200 | Accepts exactly the readable files and names the first complaint otherwise. |
| TabsCodec.EncodeTabsV2 | user/go/gotabwm/tabsv2.go:40-63 | The same bytes the other encoder writes for that session; a focus off the strip is no active row. |
| TabsCodec.DecodeTabsV2 | user/go/gotabwm/tabsv2.go:74-111 | Accepts exactly what the other decoder accepts, with the same fields. |
| Session.RestoreUndoesSave | user/go/gotabwm/tabsv2.go:113-138 | A saved strip is restored with its order, titles, executables, badges and focus; a recorded focus of none comes back as the first tab. |
| Session.SaveThenBoot | user/go/gotabwm/session.go:82-176 | A boot from a file just written gives the live tabs back in order, renumbered, the same one focused, with the next sequence number. |
| Session.LiveMembers | user/go/gotabwm/session.go:88-111 | What may be recorded are the tabs of this boot, all of them and no other, their histories left behind. |
| Session.LiveInOrder | user/go/gotabwm/session.go:88-111 | In the order they have on the strip. |
| Session.ApplyTabsV2 | user/go/gotabwm/tabsv2.go:116-138 | Restores a readable file; an unreadable one leaves the strip alone. |
| Session.SessionRows | user/go/gotabwm/session.go:88-111 | Records exactly the live tabs in order, focus by id. |
| Session.Keeper.WriteSession | user/go/gotabwm/session.go:130-148 | Writes the live rows, refuses an empty strip, counts up only on success. |
| Session.Keeper.NoteSessionMutation | user/go/gotabwm/session.go:120-123 | Afterwards the dirty flag says exactly whether the change is unsaved. |
| Session.Keeper.LoadSession | user/go/gotabwm/session.go:153-176 | Missing, corrupt and restored starts are told apart; only the last one changes strip and sequence number. |
| Session.LiveWereTold | user/go/gotabwm/session.go:82-111 | Within a boot every live tab has the title that boot gave it last, an executable guessed from a title it was opened with since it was last closed, and no badge that was not set since. |
| Session.LiveWereOpened | user/go/gotabwm/session.go:82-111 | Within a boot every live tab was opened in that boot. |
| Session.BootRecordsItsOwn | user/go/gotabwm/session.go:120-148 | One boot leaves the file alone when no save took, or leaves what its last save wrote: the live tabs at that moment, every label given by acts of that boot before it. |
| Session.RestoredRowsNeverPileUp | user/go/gotabwm/session.go:82-148 | Over any number of boots the file is the original one or exactly what the last save of one boot wrote: that boot's live tabs, with labels that boot gave them. |
| Netpoll.StepConserves | tools/netpollsm/sm.go:116-288 | Every step keeps both conservation laws, on any descriptor a caller may still hold. |
| Netpoll.RunConserves | tools/netpollsm/sm.go:116-288 | After every interleaving: parks granted = still waiting + wakes, and each wake is still ready or was consumed once, by a Wait, a Drain or a Close. |
| Netpoll.WaitersExactly | tools/netpollsm/sm.go:202-242 | The waiter counter is parks minus drained descriptors and never below what a drain would take, so the clamp never acts. |
| Netpoll.WaitersCoverActive | tools/netpollsm/sm.go:216-248 | The counter covers all registered waiting or ready descriptors. |
| Netpoll.WaitersAgreeExactly | tools/netpollsm/sm.go:185-240 | All along a run the counter is parks minus drained if and only if that difference never outgrows its 32 bits. |
| Netpoll.CounterCanWrap | tools/netpollsm/sm.go:170-240 | A concrete run of parks whose wakes the next Wait takes: nobody is parked and the counter reads -2^31. |
| Netpoll.StrandedExactly | tools/netpollsm/sm.go:141-288 | Over every run some descriptor is waiting (or ready) but unregistered if and only if at some step a Wait parked on an unregistered one, or a Shutdown found one waiting (or ready). |
| Netpoll.WokenExactly | tools/netpollsm/sm.go:141-214 | A Ready or Close of its fd wakes a parked goroutine if and only if its descriptor is the registered one, and wakes it once. |
| Netpoll.NoLostWaiter | tools/netpollsm/sm.go:141-214 | So over every run without such a step a later Ready or Close of its fd wakes every parked goroutine. |
| Netpoll.WaitersCanBeLost | tools/netpollsm/sm.go:170-200 | Two concrete runs that strand a goroutine: a Wait on a stale descriptor, and a Shutdown under a waiter. |
| Netpoll.Poller.OpenFd | tools/netpollsm/sm.go:117-132 | Registers a fresh descriptor object or returns the known one. |
| Netpoll.Poller.CloseFd | tools/netpollsm/sm.go:144-162 | Wakes a parked goroutine, marks the close and unregisters. |
| Netpoll.Poller.WaitFor | tools/netpollsm/sm.go:170-200 | Parks, consumes a readiness, or refuses. |
| Netpoll.Poller.DeliverReady | tools/netpollsm/sm.go:204-214 | Wakes exactly a waiting descriptor. |
| Netpoll.Poller.CollectReady | tools/netpollsm/sm.go:222-232 | Whatever the map order, each registered ready descriptor is reported once and reset. |
| Netpoll.Poller.DrainAll | tools/netpollsm/sm.go:218-242 | The drain with its delta; nothing woken, delta 0. |
| Netpoll.Poller.BreakPoll | tools/netpollsm/sm.go:260-266 | The break flag is raised once. |
| Netpoll.Poller.ClearBreakFlag | tools/netpollsm/sm.go:269-274 | The break flag is lowered, nothing else. |
| Netpoll.Poller.ShutDown | tools/netpollsm/sm.go:283-288 | Closes and drops every registration. |
| Calc.AddExact | user/go/calc/engine.go:24-30 | The overflow test is exact. |
| Calc.SubExact | user/go/calc/engine.go:32-38 | The overflow test is exact. |
| Calc.MulExactly | user/go/calc/engine.go:40-49 | The product test is exact if and only if the operands are not (-1, smallest). |
| Calc.BinaryExactly | user/go/calc/engine.go:136-158 | The four operations agree with unbounded arithmetic on everything but that pair. |
| Calc.PressExact | user/go/calc/engine.go:63-172 | Every key keeps the invariant under which the missed pair cannot occur. |
| Calc.RunExact | user/go/calc/engine.go:63-172 | Every key sequence leaves the 64-bit engine in the state of the engine over unbounded integers. |
| Calc.UnreachableStateWraps | user/go/calc/engine.go:121-129 | The invariant is needed: from a state no run reaches, equals accepts a wrapped product. |
| Calc.FormatParses | user/go/calc/engine.go:182-203 | What is displayed reads back as the value, without a leading zero. |
| Calc.FormatI64 | user/go/calc/engine.go:182-203 | The 20-byte buffer is enough for every value, the smallest included. |
| Calc.Engine.InputDigit | user/go/calc/engine.go:63-87 | A digit that would not fit is refused and the value stays. |
| Calc.Engine.DropDigit | user/go/calc/engine.go:90-98 | Drops the last digit while entering. |
| Calc.Engine.EvalBinary | user/go/calc/engine.go:136-167 | One operation, its error state and what is remembered for repetition. |
| Calc.Engine.Equals | user/go/calc/engine.go:123-134 | Applies the pending operation or repeats the last one. |
| Calc.Engine.Operator | user/go/calc/engine.go:101-119 | Commits the pending operation, then arms the new one. |
| Calc.PressAll | user/go/calc/engine.go:63-172 | The engine object after any keys is in the exact engine's state. |
| WasmStamp.UlebInverts | tools/wasm-manifest.py:71-85 | uleb inverts uleb_bytes, whatever follows, if and only if the value is below 2^70; above it the reader raises. |
| WasmStamp.WriteUleb | tools/wasm-manifest.py:238-247 | The writing loop. |
| WasmStamp.ReadUleb | tools/wasm-manifest.py:71-85 | The reading loop with its two errors. |
| WasmStamp.SectionsInvert | tools/wasm-manifest.py:88-99 | Printing then parsing any section list gives it back. |
| WasmStamp.ReadSections | tools/wasm-manifest.py:88-99 | The section loop on arbitrary bytes. |
| WasmStamp.ReadImports | tools/wasm-manifest.py:113-135 | The import loop, all four kinds and its errors. |
| WasmStamp.ReadModule | tools/wasm-manifest.py:102-136 | The module parser on arbitrary bytes. |
| WasmStamp.StampBytes | tools/wasm-manifest.py:216-231 | The rewrite, or nothing where the original raises. |
| WasmStamp.StampedSections | tools/wasm-manifest.py:216-231 | Stamped bytes parse to the new abi section followed by all other sections, payloads unchanged, in order. |
| WasmStamp.StampAgain | tools/wasm-manifest.py:217-231 | A second stamp gives the same bytes as stamping the original with it: stamping is idempotent. |
| WasmStamp.KeptImports | tools/wasm-manifest.py:102-136 | Dropping abi sections changes no import. |
| WasmStamp.StampedModule | tools/wasm-manifest.py:102-231 | A module that parses still parses after stamping: same imports, and the abi text read back is the one stamped. |
| WasmStamp.TestsDifferExactly | tools/wasm-manifest.py:108-111 | The two abi tests raise on the same sections; what parses as abi is dropped by a stamp; a stamp drops something else if and only if its name is longer than the section and what is there is the abi name. |
| WasmStamp.StampRemovesExactly | tools/wasm-manifest.py:216-228 | A stamp removes just the sections that parse as abi if and only if the module has none of those. |
| WasmStamp.TruncatedAbiIsDropped | tools/wasm-manifest.py:103-136 | A whole module with such a section: it parses without an abi, yet stamping it gives the same bytes as stamping the module without the section. |
| PngRows.NearestIsFirstLeast | tools/decode-screen-glyphs.py:145-153 | The Paeth predictor of RFC 2083 section 6.6: the first of the candidates at the least distance from the estimate. |
| PngRows.AddsWhatIsPredicted | tools/decode-screen-glyphs.py:135-153 | The expressions in the loops are the predictors of RFC 2083 section 6, the mean rounded down over the reals and Paeth ties included. |
| PngRows.UnfilterUndoesFilter | tools/decode-screen-glyphs.py:135-153 | For every filter type, row and row above, unfiltering undoes the filters of RFC 2083. |
| PngRows.AddLeft | tools/decode-screen-glyphs.py:135-137 | Type 1: rewriting a row in its own buffer, left to right, is the recursive reconstruction. |
| PngRows.AddUp | tools/decode-screen-glyphs.py:138-140 | The same for type 2. |
| PngRows.AddMean | tools/decode-screen-glyphs.py:141-144 | The same for type 3. |
| PngRows.AddPaeth | tools/decode-screen-glyphs.py:145-153 | The same for type 4. |
| PngRows.UnfilterRow | tools/decode-screen-glyphs.py:135-153 | The five cases; an unknown type leaves the row alone. |
| PngRows.LoadRows | tools/decode-screen-glyphs.py:127-155 | The row loop over any inflated stream: one cut short raises unless it ends in a last row of a type without a loop. |
| PngRows.LoadsFiltered | tools/decode-screen-glyphs.py:127-155 | Every image under every per-row choice of filters (RFC 2083 section 6) is loaded back exactly. |
| NoteBuffer.LinesInvertsJoin | user/go/note/buffer.go:219-230 | A text and its list of lines determine each other. |
| NoteBuffer.JoinInvertsLines | user/go/note/buffer.go:219-230 | A text and its list of lines determine each other (other direction). |
| NoteBuffer.CaretAt | user/go/note/buffer.go:151-177 | Every line and column is the place of the offset line start + column. |
| NoteBuffer.CaretOffset | user/go/note/buffer.go:196-218 | The caret offset is the start of its line plus its column, so the line brackets it. |
| NoteBuffer.TypesAt | user/go/note/buffer.go:81-90 | Inserting a byte is typing in the document: a line feed splits the line. |
| NoteBuffer.ErasedUndoesTyped | user/go/note/buffer.go:81-119 | Erasing undoes typing, line feeds included. |
| NoteBuffer.ErasesAt | user/go/note/buffer.go:111-119 | Removing the byte before the caret is erasing in the document: at a line start the lines join. |
| NoteBuffer.LoadIdempotent | user/go/note/buffer.go:55-77 | Loading what was loaded changes nothing. |
| NoteBuffer.LoadKeepsLines | user/go/note/buffer.go:55-77 | The normalised text has the file's lines, whichever of CRLF, CR and LF end them, without NULs. |
| NoteBuffer.LoadShowsStart | user/go/note/buffer.go:55-77 | After the cut at 32 KiB the lines shown are the file's lines up to the place where its text reaches the bound. |
| NoteBuffer.BoundWithoutCut | user/go/note/buffer.go:49-77 | Concrete files: one of exactly the bound and one a NUL longer load whole and return the bound, a longer one returns less. |
| NoteBuffer.FollowIsNearest | user/go/note/buffer.go:259-274 | The scroll top shows the caret line, is valid, is unchanged if it already shows it, and is otherwise the smallest scroll. |
| NoteBuffer.FollowedCaretIsDrawn | user/go/note/buffer.go:259-323 | After following, exactly one drawn row carries the caret, at its column. |
| NoteBuffer.Buffer.Load | user/go/note/buffer.go:55-77 | Normalised text cut at 32 KiB; no CR or NUL. |
| NoteBuffer.Buffer.Insert | user/go/note/buffer.go:81-90 | Types into the document, or refuses when full. |
| NoteBuffer.Buffer.InsertText | user/go/note/buffer.go:94-103 | As much as there is room for, all at the caret. |
| NoteBuffer.Buffer.Newline | user/go/note/buffer.go:106-106 | Splits the line at the caret, or refuses when full. |
| NoteBuffer.Buffer.Backspace | user/go/note/buffer.go:111-119 | Erases in the document. |
| NoteBuffer.Buffer.Delete | user/go/note/buffer.go:122-129 | Deletes in the document without moving. |
| NoteBuffer.Buffer.Left | user/go/note/buffer.go:135-141 | One place left, over line ends. |
| NoteBuffer.Buffer.Right | user/go/note/buffer.go:143-149 | One place right, over line ends. |
| NoteBuffer.Buffer.Up | user/go/note/buffer.go:151-163 | One line up, column clamped to that line. |
| NoteBuffer.Buffer.Down | user/go/note/buffer.go:165-177 | One line down, column clamped to that line. |
| NoteBuffer.Buffer.Home | user/go/note/buffer.go:179-186 | To column 0; true exactly when it moved. |
| NoteBuffer.Buffer.End | user/go/note/buffer.go:188-195 | To the line end; true exactly when it moved. |
| NoteBuffer.Buffer.Line | user/go/note/buffer.go:198-206 | The caret's line, from 1. |
| NoteBuffer.Buffer.Col | user/go/note/buffer.go:209-217 | The caret's column. |
| NoteBuffer.Buffer.LineCount | user/go/note/buffer.go:222-230 | The number of lines, a trailing line feed opening one more. |
| NoteBuffer.Buffer.LineBounds | user/go/note/buffer.go:235-252 | Start and end of any line; past the last, the end of the text. |
| NoteBuffer.Buffer.Follow | user/go/note/buffer.go:259-274 | The scroll top of the rule whose properties follow above, from the caret's line. |
| NoteBuffer.Buffer.View | user/go/note/buffer.go:293-323 | Exactly the requested window of lines, clipped, with the caret on its own row only. |
| PktLine.Hex4Reads | user/go/git/pktline.go:38-63 | Reading the digits of n gives n modulo 65536. |
| PktLine.PutHex4 | user/go/git/pktline.go:38-48 | The digit loop writes the low 16 bits in hex and nothing past them. |
| PktLine.ReadHex4 | user/go/git/pktline.go:50-63 | The reading loop, short input and bad digits included. |
| PktLine.EncodePacket | user/go/git/pktline.go:26-32 | The packet built in its buffer: length digits, then the payload. |
| PktLine.ReadPacket | user/go/git/pktline.go:66-87 | One packet off arbitrary bytes, flush, delimiter and the two errors included. |
| PktLine.ReadInvertsEncode | user/go/git/pktline.go:26-87 | Reading inverts encoding, whatever follows, if and only if the payload has at most 65516 bytes. |
| PktLine.SplitPackets | user/go/git/pktline.go:91-108 | The split loop on arbitrary bytes. |
| PktLine.SplitInvertsStream | user/go/git/pktline.go:91-108 | Whole streams come back packet by packet up to their flush, with the rest untouched. |
| PktLine.ExtractPack | user/go/git/smart.go:207-253 | The demultiplexer on arbitrary bytes. |
| PktLine.ExtractsCarried | user/go/git/smart.go:207-253 | However a pack is cut into band-1 packets among band-2 packets, flushes, delimiters and every line that starts with none of 1, 2, 3 and PACK, the pack comes out. |
| PktLine.ExtractsRaw | user/go/git/smart.go:207-253 | The unframed pack after such frames comes out too. |
| PktLine.FramedEqualsRaw | user/go/git/smart.go:207-253 | Both forms of one reply give the same bytes. |
| PktLine.RemoteErrorStops | user/go/git/smart.go:233-234 | A band-3 packet ends the extraction with an error. |

## Left out

- Fat32Reader.CatFile: Python's recursion limit is the parameter `depth`; upper-casing of the wanted path is modelled for every character whose upper case a Latin-1 name could equal, the rest match no name.
- Fat32Reader.CatFile: output is the bytes found; writing them to standard output is not modelled.
- Netpoll.WaitersExactly: and WaitersCoverActive are stated while the parks not yet drained stay below 2^31; past that the counter wraps, see WaitersAgreeExactly.
- Netpoll.Poller.CollectReady: the order of Go's map iteration is an arbitrary one; the mutex is left out, each method being one atomic step.
- Toasts.MixRgb: a colour is its three channel bytes; the unused top byte of the word is left out.
- Toasts.DropFrom: does not model that the filters reuse the queue's backing array.
- SeatModel.Run: the host countdown, the two-tab choreography and the hosted-app mirror variable are not part of the state; ticks do not wrap.
- Panes.PanesTile: does not state the sash hit zone, which is one pixel wider than the gutter.
- Session.Keeper.LoadSession: reading and atomically replacing the host file are one step on a modelled disk.
- NoteBuffer.Buffer.Insert: the text is a sequence spliced by value; growth of the backing array is not modelled.
- NoteBuffer.Buffer.View: texts are bytes; what the frame draws for them is not modelled.
- Qoi.EncodeQoi: conversion to RGBA by the imaging library is not modelled; images are lists of four-byte pixels.
- PngRows.LoadRows: chunk parsing and inflate are left out; the model starts at the inflated stream.
- WasmStamp.StampBytes: file input and output, SHA-256 and the manifest rows are left out.
- `list_image`, `parseInfoRefs`, `wantBody`, `parse_abi_text`, `orderLine`, `dumpOrder`: easy members beside the ones modelled.
- System calls, console markers, painting, fonts, themes, key and pointer decoding, the launcher, audio, networking and processes: input/output around the logic modelled here.
- The Zig implementation of the same `.tabs` format is not part of this model.
