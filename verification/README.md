# Patmos system software: a verified model

This project models the stateful core of the Patmos platform software and of the
tools beside it, and proves what that code is for:

- **TTEthernet end system** (`Tte*.dfy`): the schedule tables are the sorted merge
  of all virtual-link activations; the queues are bounded FIFOs that the schedule
  drains once per cluster; clock synchronisation is independent of network delay;
  the schedule timer stays anchored to it.
- **Row protocol** of the parallel mandelbrot program (`RowProtocol*.dfy`,
  `RowProgress.dfy`): a word-by-word step machine of master and workers, with every
  row delivered once, no torn reads and no deadlock in any interleaving, and an end
  to every fair run.
- **Boot download** (`Lzss`, `Decompress`, `Crc`, `BootImage`, `Download`,
  `Downloader`): decompression, packet checks and section loading, from any
  compressed packetisation of a program to its memory image.
- **Boot handshake** (`BootHandshake`, `BootHangs`, `BootHangRuns`): all
  interleavings of n cores over all rounds, the three ways a signal can be lost, the
  core counts for which each can happen, and progress everywhere else.
- **Ethernet library** (`EthBuffer`, `Checksum`, `EthFrames`, `UdpLayout`, `Udp`,
  `Icmp`, `ArpTable`, `Arp`): word buffer as bytes, checksums, frames that parse
  back, replies, the address table and the exchange that fills it.
- **Audio delay lines** (`Audio.dfy`): ring buffers against saturated recurrences.

Code that updates variables or objects in place is a method or a class with a
specification function beside it; protocols between processes are step machines.
Input from the line, from the network and from timers is a parameter.
`dafny verify dfyconfig.toml` checks everything.

## Where the code differs from its comments

- `ipv4_compute_checksum` and `udp_compute_checksum` are said to ignore the
  checksum field. They add its low byte once more. `EthFrames.IpFieldIgnoredIff`
  and `EthFrames.UdpFieldIgnoredIff` give the exact condition; the callers store
  zero first, so frames are right.
- The queue length of a virtual link is cast to a byte before the division.
  `TteSchedule.CastKeepsLength` gives the exact condition.
- The multiplication in `transClk_to_clk` is "almost" a division by 125:
  `TteClock.TransClkExact` says when it is one.
- The ICMP checksum of a reply is adjusted without the end-around carry:
  `Icmp.ReplyValidIff` gives the exact condition.
- A slave that loops back clears the master's status and can do so before another
  slave has seen RETURN (`BootHangRuns.ReturnLostIff`). A slave can also miss BOOT
  (`BootHangRuns.MissedBootIff`) or be at RETURN before its INIT was seen
  (`BootHangRuns.MissedInitIff`). Core 0 then waits for ever
  (`BootHangs.LostForever`); the safety theorems hold all the same.
- The identification of UDP datagrams is meant to change but never does
  (`Udp.UdpSendMac`).

## Model

| member | source | states |
|---|---|---|
| `TteSchedule.GenerateSchedule` | c/ethlib/tte.c:313-348 | For every valid link set the gap and owner tables, read the way the tick handler reads them, are the sorted merge of all activations start + k*period before the cluster end (ties by lowest link), closed by the first activation at the end; both tables have exactly as many entries as were allocated |
| `TteSchedule.MergeUnique` | c/ethlib/tte.c:313-348 | The merge is unique: two slot lists that meet the description are equal, so the tables leave no freedom |
| `TteSchedule.GapsSpanCluster` | c/ethlib/tte.c:341-345 | The gaps of a merged table add up to the cluster period minus the start tick |
| `TteSchedule.Prepare` | c/ethlib/tte.c:314-327 | Earliest start with its lowest owner, the array of next activations and the number of slots, without wrapping the byte counter |
| `TteSchedule.EarliestBelow` | c/ethlib/tte.c:334-340 | One scan returns the smallest entry below the limit and the lowest index that has it |
| `TteSchedule.MergeRound` | c/ethlib/tte.c:334-346 | One round of the loop writes the gap to, and the owner of, the next activation in merge order |
| `TteSchedule.MergeLoop` | c/ethlib/tte.c:333-347 | The loop ends exactly when the tables are full, every index in range, with the merge complete |
| `TteSchedule.MergingStep` | c/ethlib/tte.c:341-346 | A round keeps tables and merge aligned, and the round that reaches the end of the cluster fills the last owner entry |
| `TteSchedule.MergeDone` | c/ethlib/tte.c:341-346 | Reaching the cluster end means that no activation before it is missing |
| `TteSchedule.ShareOf` | c/ethlib/tte.c:303-304 | A link has used up its queue length of slots exactly when its next activation has left the cluster |
| `TteSchedule.OwnsItsShare` | c/ethlib/tte.c:331-346 | Every data link owns at least as many slots of a cluster as its queue holds frames |
| `TteSchedule.ServedBy` | c/ethlib/tte.c:331-346 | The k-th activation of a data link is a slot of the table by which the link owns at least k slots |
| `TteSchedule.CastKeepsLength` | c/ethlib/tte.c:303-303 | The cast in the queue length binds to the cluster period: the length is cluster/period if and only if the cluster period is below 256 |
| `TteClock.TransClkExact` | c/ethlib/tte.c:257-259 | The multiply-and-shift equals division by 125 if and only if 11x < (125 - x mod 125)*2^26, and is never too small |
| `TteClock.TransClkIsDivision` | c/ethlib/tte.c:257-259 | Up to x = 6100873 the result is floor(10t / (65536*125)) |
| `TteClock.TransClkFirstError` | c/ethlib/tte.c:257-259 | At x = 6100874 the result is one cycle too large |
| `TteClock.AcceptedTime` | c/ethlib/tte.c:226-249 | An accepted integration frame leaves the clock at its permanence point minus the fixed delays plus one period, whatever the clock showed before |
| `TteClock.WindowExact` | c/ethlib/tte.c:231-236 | Away from the ends of the 64-bit range the two unsigned comparisons are the test |permanence - scheduled| < precision |
| `TteClock.Resynchronises` | c/ethlib/tte.c:226-249 | With a cleared clock a frame is accepted if and only if its window does not wrap around the 64-bit range |
| `TteClock.SteadyTime` | c/ethlib/tte.c:204-255 | Over every run of a steady master with true delay reports the local time depends on the last dispatch time only |
| `TteClock.SteadyAccepted` | c/ethlib/tte.c:204-255 | In every such run every frame is accepted |
| `TteClock.DelayIndependent` | c/ethlib/tte.c:226-249 | Two runs with the same dispatch times and different network delays keep the same local time |
| `TteClock.RecoversAtOnce` | c/ethlib/tte.c:250-254 | A refused frame clears the clock and the very next frame sets it again |
| `TteClock.CycleZeroAnchors` | c/ethlib/tte.c:242-247 | An accepted frame of integration cycle zero anchors the cluster: first slot armed for base + 8000*startTick |
| `TteClock.SlotsArmedOnTime` | c/ethlib/tte.c:470-480 | In every run where the frames of earlier cycles arrive with zero error before the tick that arms a PCF slot, slot p is armed for base + 8000*(p-th merged activation) |
| `TteQueue.FirstPlaces` | c/ethlib/tte.c:445-457 | In the ring a zero at the read place means empty and a zero at the write place means not full, exactly |
| `TteQueue.RingPush` | c/ethlib/tte.c:445-457 | Writing at addplace appends to the queue the ring stands for |
| `TteQueue.RingPop` | c/ethlib/tte.c:459-468 | Clearing rmplace removes the oldest entry of the queue the ring stands for |
| `TteQueue.VirtualLink.constructor` | c/ethlib/tte.c:298-310 | A new link is an empty ring of max_queue places |
| `TteQueue.VirtualLink.ScheduleSend` | c/ethlib/tte.c:445-457 | The frame is appended, and refused exactly when max_queue frames are pending |
| `TteQueue.VirtualLink.SendData` | c/ethlib/tte.c:459-468 | The oldest pending (address, size) pair leaves |
| `TteQueue.VirtualLink.Transmit` | c/ethlib/tte.c:481-483 | The oldest frame leaves if there is one, otherwise nothing changes |
| `TteQueue.FifoRun` | c/ethlib/tte.c:445-485 | Over every run of sends and ticks, transmitted followed by queued frames is what was there followed by what was accepted, in order |
| `TteQueue.EachSlotSends` | c/ethlib/tte.c:470-485 | Every own slot sends one more of the frames pending at the start of the cluster |
| `TteQueue.DrainsInOneCycle` | c/ethlib/tte.c:470-485 | All frames pending at the start of a cluster cycle are transmitted by its end, whatever is sent meanwhile, if the link owns as many slots as its queue holds |
| `TteQueue.ScheduleDrains` | c/ethlib/tte.c:313-348 | The generated schedule meets that condition, so it drains every data link once per cluster |
| `TteEndSystem.EndSystem.constructor` | c/ethlib/tte.c:272-295 | The links given plus the dummy PCF link, each with its queue length, nothing pending or sent, tables empty, clock cleared, and every delay, precision and period as given |
| `TteEndSystem.EndSystem.StartTicking` | c/ethlib/tte.c:350-374 | The tables in the end system are the merge of its own links and the clock is cleared |
| `TteEndSystem.EndSystem.ScheduleSend` | c/ethlib/tte.c:445-457 | One Send step of the queue network, other links untouched |
| `TteEndSystem.EndSystem.ClockTick` | c/ethlib/tte.c:470-485 | One Tick step of the queue network and of the schedule timer, and the frame handed to the MAC is the head of the owner's queue |
| `TteEndSystem.EndSystem.HandleIntegrationFrame` | c/ethlib/tte.c:204-255 | The clock step for the fields read from the frame bytes, accepted exactly inside the window; tables, queues and histories are kept, so ticks can follow |
| `RowProtocol.SlaveKeepsLink` | c/cmp/mandelbrot_par.c:418-463 | A worker step keeps its mailbox, local packet and row data consistent, whatever the master is doing |
| `RowProtocol.MasterKeepsLinks` | c/cmp/mandelbrot_par.c:275-367 | A master step keeps every worker link consistent |
| `RowProtocol.ColumnInside` | c/cmp/mandelbrot_par.c:453-456 | The pixel loop runs exactly once per column |
| `RowProtocolRuns.RunInv` | c/cmp/mandelbrot_par.c:275-463 | The protocol invariant holds in every state of every word-by-word interleaving |
| `RowProtocolRuns.EveryRowOnce` | c/cmp/mandelbrot_par.c:302-358 | When the master stops, each row has been written out exactly once with the pixels of its own y value, and nothing else has been written |
| `RowProtocolRuns.Conservation` | c/cmp/mandelbrot_par.c:305-358 | In every reachable state, rows received, plus workers with a packet in their mailbox, in work, or with a row waiting for the master, plus rows not yet handed out, are ROWS; no worker has two outstanding |
| `RowProtocolRuns.LinkBalance` | c/cmp/mandelbrot_par.c:305-358 | Per worker the rows delivered, the one found in its mailboxes, and those unassigned make up its share |
| `RowProtocolRuns.NoTornReads` | c/cmp/mandelbrot_par.c:205-215 | No worker computes on a torn packet and the master never holds a torn row |
| `RowProtocolRuns.NeverStuck` | c/cmp/mandelbrot_par.c:281-300 | Every reachable unfinished state has a process that can do more than spin |
| `RowProtocolRuns.AllReceived` | c/cmp/mandelbrot_par.c:320-358 | received == ROWS exactly when every worker has delivered its whole share |
| `RowProgress.StepCounts` | c/cmp/mandelbrot_par.c:275-463 | Every step that does more than spin brings the run nearer to its end by a measure, and a spinning step leaves it as it is |
| `RowProgress.MovesBounded` | c/cmp/mandelbrot_par.c:275-463 | So no run of any schedule contains more productive steps than the measure of its start |
| `RowProgress.FairRunEnds` | c/cmp/mandelbrot_par.c:275-463 | Every run in which each process keeps getting turns ends with master and workers finished |
| `RowProgress.FairRunDelivers` | c/cmp/mandelbrot_par.c:275-463 | And then every row has been delivered with its pixels |
| `Crc.BitLinear` | c/bootloader/download.c:130-137 | The bitwise CRC step is linear over exclusive or |
| `Crc.TablelessIsBitwise` | hardware/Patmos-harness.cpp:328-354 | The multiplications compute what eight conditional shifts compute, for every register and byte |
| `Crc.Crc32Tableless` | hardware/Patmos-harness.cpp:322-371 | The tableless loop is the bitwise CRC-32 for every byte string and start value |
| `Crc.Chaining` | hardware/Patmos-harness.cpp:430-433 | Chained calls over pieces equal one call over the whole string |
| `Crc.RegisterResidue` | hardware/Patmos-harness.cpp:430-457 | A register that absorbs its own check sequence always ends at 0xDEBB20E3 |
| `Crc.FrameResidue` | hardware/Patmos-harness.cpp:430-457 | Every frame followed by its CRC, low byte first, leaves the residue of clause 3.2.9 of IEEE 802.3 |
| `Crc.EmittedLane` | hardware/Patmos-harness.cpp:451-457 | The arithmetic shift of the signed variable never disturbs an emitted byte |
| `Crc.SendFrame` | hardware/Patmos-harness.cpp:430-457 | The frame source emits the frame and four bytes that leave the fixed residue |
| `Lzss.ParseSerialize` | c/bootloader/decompress.c:50-57 | Token lists, eight to a flag byte, are recovered from their serialised form |
| `Lzss.ExpandIffDescribes` | c/bootloader/decompress.c:57-71 | A token list expands to a history if and only if it describes it, overlapping copies included |
| `Lzss.EncodingDecodes` | c/bootloader/decompress.c:46-76 | A literal/match encoding with lengths 3..66 decodes to a byte string if and only if it describes that string |
| `Decompress.FlagShift` | c/bootloader/decompress.c:51-55 | The high byte of the flag word counts eight tokens |
| `Decompress.RingEmpty` | c/bootloader/decompress.c:50-50 | At most 66 bytes are pending, so equal positions mean empty and never full |
| `Decompress.TrackStep` | c/bootloader/decompress.c:50-71 | Decoding one token at a time follows the one-pass decoding |
| `Decompress.Decompressor.constructor` | c/bootloader/decompress.c:36-44 | The ring holds N - F spaces, read and write position meet |
| `Decompress.Decompressor.CopyMatch` | c/bootloader/decompress.c:65-69 | The copy loop in the ring is the copy from the unbounded history, overlaps included |
| `Decompress.Decompressor.Refill` | c/bootloader/decompress.c:51-71 | One token is decoded into the empty ring, or the line ended |
| `Decompress.Decompressor.GetByte` | c/bootloader/decompress.c:46-76 | For every stream and any number of calls the bytes handed out are those of the one-pass decoding; the call blocks exactly when it is used up |
| `BootImage.FeedClearsLanes` | c/bootloader/download.c:139-139 | A byte keeps all lanes still to be filled at zero |
| `BootImage.OrIsAddition` | c/bootloader/download.c:139-139 | After any received bytes the bitwise or of the next byte into its lane is an addition |
| `BootImage.HeaderWord` | c/bootloader/download.c:142-166 | Four bytes are latched big-endian into the variable of the current state; an empty file ends its section at once |
| `BootImage.DataPrefix` | c/bootloader/download.c:168-171 | Part of the file data: the words so far are in memory, the last one zero padded |
| `BootImage.ZeroFillAt` | c/bootloader/download.c:176-181 | The fill loop zeroes exactly the words from the rounded file size to the memory size |
| `BootImage.FilledIsLoaded` | c/bootloader/download.c:168-186 | A section leaves its big-endian data zero padded to memsize, all other words unchanged |
| `BootImage.SectionFed` | c/bootloader/download.c:139-191 | The bytes of one section become exactly that section in memory |
| `BootImage.ProgramFed` | c/bootloader/download.c:84-191 | Feeding a serialised program yields its entry point, all its sections, and section count equal to section number |
| `BootImage.ProgramUnfinished` | c/bootloader/download.c:202-205 | No proper prefix of a program looks complete |
| `BootImage.SectionsImage` | c/bootloader/download.c:168-186 | With disjoint sections every covered word holds its section, every other word is unchanged |
| `Download.MachineRefinesPackets` | c/bootloader/download.c:114-210 | For every byte stream the byte-wise machine ends as the reference that first cuts the stream into packets |
| `Download.PartialPacket` | c/bootloader/download.c:118-129 | An incomplete packet neither returns nor fails |
| `Download.PayloadCrcIsCrc32` | c/bootloader/download.c:130-137 | The checksum compared at the end of a packet is the CRC-32 of its payload |
| `Download.OnlyChecked` | c/bootloader/download.c:194-205 | A non-null result is the entry point of an image of packets that all passed their CRC |
| `Download.StartsOnlyChecked` | c/bootloader/download.c:114-210 | The same for every received byte stream |
| `Download.FramesOfStream` | c/bootloader/download.c:118-129 | Cutting the stream recovers exactly the packets sent, whatever follows |
| `Download.DeliversProgram` | c/bootloader/download.c:114-210 | However a program is cut into packets of 1..255 bytes, the download returns its entry point with all its sections loaded |
| `Download.DeliversImage` | c/bootloader/download.c:114-210 | Word by word: covered words hold the zero-padded big-endian data, the others are unchanged |
| `Downloader.SectionLoader.FeedByte` | c/bootloader/download.c:139-191 | The loader variables updated in place make the step of the loader function |
| `Downloader.SectionLoader.LatchWord` | c/bootloader/download.c:143-166 | One header word into the variable of the state |
| `Downloader.SectionLoader.FinishSection` | c/bootloader/download.c:175-185 | Zero fill loop, counters and state for the next section |
| `Downloader.AbsorbLoop` | c/bootloader/download.c:130-137 | Eight rounds of the loop are one byte of the CRC |
| `Downloader.PacketReceiver.Receive` | c/bootloader/download.c:114-210 | One loop iteration is one step of the machine, with the same return value |
| `Downloader.PacketReceiver.EndPacket` | c/bootloader/download.c:194-208 | Compare, then return null, the entry point, or go on |
| `Downloader.DownloadImage` | c/bootloader/download.c:82-211 | Over any compressed line the result and the memory are those of the machine on the decompressed bytes |
| `Downloader.EndToEnd` | c/bootloader/download.c:82-211 | Any compression of any packetisation of a program, followed by anything, starts that program with its sections in place |
| `BootHandshake.MasterKeeps` | c/bootloader/bootloader.c:62-174 | Every step of core 0 keeps the handshake invariant |
| `BootHandshake.SlaveKeeps` | c/bootloader/bootloader.c:62-184 | Every step of a slave keeps the handshake invariant |
| `BootHandshake.InvAlways` | c/bootloader/bootloader.c:62-184 | The invariant holds in every state of every interleaving, over all rounds, from any leftover shared state |
| `BootHandshake.EveryRoundGood` | c/bootloader/bootloader.c:62-184 | In every interleaving and every round: calls go to the downloaded entry point after the caller copied the downloaded image, core 0 calls only after every slave has copied, and the exit message follows the return of every call |
| `BootHandshake.AllLeaving` | c/bootloader/bootloader.c:153-166 | When core 0 writes RETURN every slave is in its return loop |
| `BootHangs.LostForever` | c/bootloader/bootloader.c:100-173 | A slave that missed BOOT, was seen at RETURN before INIT was noticed, or lost RETURN stays so for ever, with core 0 waiting for it, whatever the schedule |
| `BootHangs.KeptAlways` | c/bootloader/bootloader.c:62-184 | Along every run, while core 0 waits for RETURN to be read, only slaves that have left can have overwritten it |
| `BootHangs.Progress` | c/bootloader/bootloader.c:62-184 | Some core can do more than spin unless one of the three signals is lost |
| `BootHangRuns.LosesBoot` | c/bootloader/bootloader.c:87-106 | For every number of cores above one, a run from power-up in which core 1 misses BOOT |
| `BootHangRuns.LosesInit` | c/bootloader/bootloader.c:112-116 | For every number of cores above one, a run from power-up in which core 1 is at RETURN before core 0 saw its INIT |
| `BootHangRuns.LosesReturn` | c/bootloader/bootloader.c:153-184 | For every number of cores above two, a run from power-up in which core 1 overwrites RETURN before core 2 reads it |
| `BootHangRuns.MissedBootIff` | c/bootloader/bootloader.c:87-106 | BOOT can be missed if and only if there are two cores or more |
| `BootHangRuns.MissedInitIff` | c/bootloader/bootloader.c:112-116 | INIT can be missed if and only if there are two cores or more |
| `BootHangRuns.ReturnLostIff` | c/bootloader/bootloader.c:153-184 | RETURN can be lost if and only if there are three cores or more |
| `BootHangRuns.ReachableProgress` | c/bootloader/bootloader.c:62-184 | In every state that can be reached from power-up some core can do more than spin or a signal is lost; a single core never hangs |
| `EthBuffer.Buffer.Iord` | c/ethlib/eth_patmos_io.c:72-75 | A word read is the big-endian word of the byte view |
| `EthBuffer.Buffer.IordByte` | c/ethlib/eth_patmos_io.c:77-83 | A byte read is that byte of the view |
| `EthBuffer.Buffer.Iowr` | c/ethlib/eth_patmos_io.c:55-59 | A word write replaces four bytes of the view and nothing else |
| `EthBuffer.Buffer.IowrByte` | c/ethlib/eth_patmos_io.c:61-70 | A byte write replaces one byte of the view and nothing else |
| `Checksum.FoldCongruent` | c/ethlib/ipv4.c:158-163 | Three folds bring any 32-bit sum to 16 bits, unchanged modulo 65535, zero only from zero |
| `Checksum.VerifyMeansGood` | c/ethlib/ipv4.c:169-188 | The complement is zero if and only if the sum is positive and divisible by 65535 |
| `Checksum.ComplementMakesGood` | c/ethlib/ipv4.c:150-166 | A sum plus its complement always verifies |
| `Checksum.IgnoresFieldIff` | c/ethlib/udp.c:148-148 | Subtracting the high and adding the low byte ignores the stored field if and only if its low byte is zero |
| `EthFrames.IpFieldIgnoredIff` | c/ethlib/ipv4.c:157-157 | The header checksum is independent of the stored one if and only if the stored low byte is zero |
| `EthFrames.UdpFieldIgnoredIff` | c/ethlib/udp.c:148-148 | The UDP checksum of a datagram is independent of the stored one if and only if the stored low byte is zero |
| `EthFrames.MacPacketType` | c/ethlib/mac.c:46-78 | The nested tests classify by EtherType and IPv4 protocol |
| `EthFrames.UdpFields` | c/ethlib/udp.c:51-85 | The word getters read ports and length at their standard offsets |
| `EthFrames.UdpGetData` | c/ethlib/udp.c:87-93 | The payload bytes are copied out, the rest of the array is untouched |
| `EthFrames.Ipv4ComputeChecksum` | c/ethlib/ipv4.c:150-166 | The complement of the header sum without the high byte of the field |
| `EthFrames.Ipv4VerifyChecksum` | c/ethlib/ipv4.c:169-188 | True if and only if the header sum is good |
| `EthFrames.UdpComputeChecksum` | c/ethlib/udp.c:129-164 | For every length field: pads an odd payload with zero and returns the complement of pseudo header, header and data without the high byte of the field, in 32-bit unsigned arithmetic |
| `EthFrames.UdpVerifyChecksum` | c/ethlib/udp.c:167-204 | True if and only if the padded sum is good; only the pad byte is written |
| `EthFrames.CopyFrame` | c/ethlib/icmp.c:73-77 | In place or to a disjoint region, the frame is copied and nothing else changes |
| `EthFrames.SwapIn` | c/ethlib/icmp.c:80-89 | The swapping loop moves a field and puts our own value in its place |
| `UdpLayout.IpSumOf` | c/ethlib/udp.c:219-230 | The header sum of a frame is that of its parts plus the stored checksum |
| `UdpLayout.UdpSumOf` | c/ethlib/udp.c:129-155 | The UDP sum of a padded frame is that of its parts plus the stored checksum |
| `UdpLayout.WriteIpCheck` | c/ethlib/udp.c:241-243 | The header checksum is stored in its two bytes, nothing else changes |
| `UdpLayout.WriteUdpCheck` | c/ethlib/udp.c:245-247 | Payload padded and UDP checksum stored, nothing else changes |
| `Udp.UdpSendMac` | c/ethlib/udp.c:255-292 | The buffer holds the whole frame, nothing outside it changed, and the identification wraps to itself |
| `Udp.ChecksumsGood` | c/ethlib/udp.c:208-251 | Both verifiers accept every frame built, odd payloads included |
| `Udp.ParsesBack` | c/ethlib/udp.c:208-251 | Every frame built is classified as UDP and gives back addresses, ports, length and data |
| `Icmp.BuildPingReply` | c/ethlib/icmp.c:68-104 | The request becomes the reply in place or in a disjoint buffer |
| `Icmp.ProcessReceived` | c/ethlib/icmp.c:106-118 | Exactly echo requests to our address are answered, anything else leaves the buffer alone |
| `Icmp.IpSumKept` | c/ethlib/icmp.c:86-89 | Swapping the addresses permutes half-words, so the header sum is unchanged |
| `Icmp.IcmpSumChange` | c/ethlib/icmp.c:90-99 | Type and checksum are the only half-words that change the ICMP sum |
| `Icmp.ReplyValidIff` | c/ethlib/icmp.c:95-99 | The adjusted ICMP checksum is good if and only if the received one is at most 0xF7FF |
| `Icmp.PingAnswered` | c/ethlib/icmp.c:68-118 | For every valid request the reply goes back to the sender with a good header, and a good ICMP checksum exactly up to 0xF7FF |
| `ArpTable.Table.constructor` | c/ethlib/arp.c:56-62 | All eight slots are free |
| `ArpTable.Table.Search` | c/ethlib/arp.c:64-76 | The MAC of the first matching slot, or none |
| `ArpTable.Table.Delete` | c/ethlib/arp.c:78-89 | Exactly the matching slots are freed, and the result says whether there was one |
| `ArpTable.Table.NewEntry` | c/ethlib/arp.c:91-116 | Old entry removed, new one in the first free slot, slot 0 when there is none |
| `ArpTable.InsertMeans` | c/ethlib/arp.c:91-116 | After an insert the address is found, no address is held twice, and no other lookup changes except the loss of slot 0 in a full table |
| `ArpTable.NeverDuplicate` | c/ethlib/arp.c:64-116 | Over every run of inserts and deletes no address is held twice |
| `Arp.BuildRequest` | c/ethlib/arp.c:237-263 | The 42 bytes of the request are in the buffer, nothing else changed |
| `Arp.BuildReply` | c/ethlib/arp.c:175-204 | The request becomes the reply in place or in a disjoint buffer |
| `Arp.ProcessReceived` | c/ethlib/arp.c:206-234 | Replies to exactly the requests for our address, learns from exactly the replies to us, otherwise changes nothing |
| `Arp.RequestAnswered` | c/ethlib/arp.c:206-234 | A delivered request makes the owner of the address reply |
| `Arp.ReplyLearned` | c/ethlib/arp.c:206-234 | A delivered reply makes the requester learn the sender |
| `Arp.Exchange` | c/ethlib/arp.c:176-263 | Request, reply and processing end with the requester's table mapping the address to its owner, whatever it held before |
| `Audio.TapsFit` | c/libaudio/dsp_algorithms.c:453-511 | No product and no partial sum of the filters leaves 32 bits |
| `Audio.RingPush` | c/libaudio/audio.c:567-572 | Writing at the pointer and moving it down adds one value to the history of the ring |
| `Audio.RingRead` | c/libaudio/dsp_algorithms.c:456-461 | The index (pnt + d) mod L reads the value of d steps ago |
| `Audio.CombFilter1st` | c/libaudio/dsp_algorithms.c:453-479 | Saturated sum of two taps over the delayed values of both channels |
| `Audio.CombFilter2nd` | c/libaudio/dsp_algorithms.c:482-511 | Saturated sum of three taps over the delayed values of both channels |
| `Audio.EchoRecurrence` | c/libaudio/audio.c:557-575 | Output n is the saturated recurrence over input n and output n - (DELAY_L - 1), zero before the start, in [-16384, 16383] |
| `Audio.DelayLine.constructor` | c/libaudio/audio.c:531-555 | Silent rings, pointer on top |
| `Audio.DelayLine.Process` | c/libaudio/audio.c:557-575 | For every input stream the outputs of both channels are that recurrence |
| `Audio.Chorus.constructor` | c/libaudio/audio.c:474-507 | Silent rings, pointer on top, modulation at its start |
| `Audio.Chorus.Process` | c/libaudio/audio.c:509-529 | Output n is the saturated sum of input n and inputs n - d0, n - d1 for the delays the modulation gives at n |

## Left out

- Termination of a handshake round: rounds go on for ever and the application may, so progress is stated for each reachable state.
- The handshake assumes what the start-up delay is there for: every slave has finished clearing before the last of the sixteen BOOT writes. The application does not touch boot_info or the memory that is copied to the I-SPM.
- The return values and the param and funcpoint fields of boot_info, which play no part in the ordering.
- The zero-fill counter and the section counter of `download` do not wrap at 2^32 in the model; sections whose end is within four bytes of the address space are excluded. An entry point 0 cannot be told from a failed download.
- The CRC byte that `download` echoes to the host after each packet, and the LED output.
- TteSchedule.GenerateSchedule: requires a cluster period below 256 and at least one activation before its end, without which the byte-sized tables overflow or VL is used uninitialised.
- TteQueue.VirtualLink.ScheduleSend: excludes buffer address 0, which marks an empty place.
- TteClock.SteadyTime: excludes dispatch times whose window wraps around the 64-bit range; `TteClock.Resynchronises` and `TteClock.WindowExact` say when a window wraps.
- The last entry of the gap table is never written by the generator; the tick that would use it arms nothing.
- RowProtocolRuns.EveryRowOnce: SLAVES divides ROWS; the DMA engine moves one word at a time in address order.
- EthFrames.UdpFieldIgnoredIff: stated for lengths of 8..65534, as every caller writes; below 8 the field is not among the half-words that are summed.
- Icmp.BuildPingReply: source and destination frames are the same or disjoint; overlapping copies are not modelled. The same holds for Arp.BuildReply.
- ArpTable.Table.NewEntry: tests the index before it reads the slot; the code reads one entry past a full table first, with the same outcome.
- `udp_send` and `arp_resolve_ip` wait for the network; the frame is modelled with the destination MAC already resolved, and the exchange as delivered frames.
- `udp_build_packet` and `udp_send_packet`: the same frame from a record, which would repeat `Udp.UdpSendMac`.
- Audio.Chorus.Process: the sine tables are arbitrary delays below CHORUS_L; how floating point fills them is not modelled. Filters, tremolo, wah-wah, overdrive and distortion are left out.
- TCP, PTP and the ELF loader, whose checksum test, clock correction or packet dispatch are stubs or hardware registers.
- Logging variants of the TTEthernet handlers, frame preparation, and the emulator's input parsing and pin wiring.
- Message passing, network-on-chip and SD-card libraries, of which only clients are in the repository.
