# BasicComponents core in Dafny

A Dafny model of the core of the HITSZ-WTRobot BasicComponents firmware library, with proofs of what it promises.

- **`protocol::UartRxSync<HeaderLen, FrameLen>`** (`uart_rx_sync.dfy`, module `UartRxSync`). This is the UART frame synchroniser. It is a four-state machine (`Stopped`, `WaitHead`, `Receiving`, `DMAActive`) with one `FrameLen`-byte buffer and a header cursor `hdr_idx_`.
  - Pure functions give the effect of one handler call each: `Callback`, `Error`, `Start` and `Decode`.
  - The class `UartRxSync.UartRxSync` implements them with the receiver's fields, its `check_header` loops and the per-state branches.
  - The HAL calls become `Reception`, the receive currently armed. The hardware writes its bytes into the buffer (`Land`) before `receiveCallback` runs.
  - The watchdog is a `fed` flag. Every payload passed to `decode` is logged.
- **`crc::CRCX<Bits, Poly, Init, Rin, Rout, XorOut>`** (`crc.dfy`, module `Crc`). This is the table-driven CRC after the Rocksoft parameterised model.
  - Values are natural numbers with bitwise operators defined in `bit_ops.dfy` (module `BitOps`).
  - `value_type` (uint8/16/32/32/64 for Bits = 8/16/24/32/64) is modelled by narrowing every assignment to its width.
  - The one exception is `mask` for Bits = 32. Its initialiser shifts a uint32_t by 32, which is undefined (see Findings). So `CRCX<32, ...>` does not compile as written, and that includes the CRC-32 preset in the comment at crc.hpp:24. The model uses the evidently intended mask, all ones from 32 bits up.
  - The loops (`bit_reverse`, `table_entry`, `generate_table`, both `calc` overloads) are methods proved against specification functions.
  - For Rin = Rout = false the table-driven register is proved equal to bit-at-a-time MSB-first division.
- **`crc::CRC16<poly, init, rin, rout, xorout>`** (`crc16.dfy`, module `Crc16`). This is the 16-bit engine, with every value a uint16_t. It is proved to compute exactly what `CRCX<16, ...>` computes: same reversal, same table, same digest.
- **`libs::RingBuffer<T, Capacity>`** (`ring_buffer.dfy`). This is a circular queue that keeps one slot free. Its contents are the circular slice from `tail` to `head`, with FIFO `push`/`pop`.
- **`FixedPointerMap<K, V, N>`** (`fixed_pointer_map.dfy`). This is a bounded association list with linear search and swap-with-last removal. Its pairs stand for a `map`, and a `V*` is an `Option<V>` whose `None` is nullptr.
- **`StaticArena<Size>`** (`static_arena.dfy`). This is a bump allocator with power-of-two alignment. size_t is 32 bits wide, as on the Cortex-M targets, and size_t sums wrap modulo 2^32.

`options.dfy` holds the `Option` type shared by the last two.

A frame synchroniser is expected to behave as follows. With header AA 55 and frame length 6, the stream `00 AA 55 01 02 03 04 AA 55 05 06 07 08 ...` should yield two decodes, with payloads 01 02 03 04 and 05 06 07 08. The code as written never finds the header on that stream (`UartRxSync.HeaderAA55NotFound`); the cause is described under Findings. The corrected handler yields exactly the two expected decodes (`UartRxSync.FixedFindsAA55`, `UartRxSync.FixedDecodesLoop`).

The CRC-32C preset in the comment at libs/crc/crc.hpp:27 is written with width 2. The `static_assert` at crc.hpp:87 rejects that width, and so does `Crc.ValidWidth`.

## Model

| member | source | states |
|---|---|---|
| UartRxSync.Initial | protocol/UartRxSync/UartRxSync.hpp:71-76 | a new receiver is `Stopped`, with the cursor at 0 and nothing armed, and satisfies the handler invariant |
| UartRxSync.Advance | protocol/UartRxSync/UartRxSync.hpp:126-128 | `idx_next` is the cursor plus one, wrapping to 0 after HeaderLen-1, and stays below HeaderLen |
| UartRxSync.HeaderMatchesMod | protocol/UartRxSync/UartRxSync.hpp:193-207 | the rotated-window check holds iff `rx_buffer_[(hdr_idx_ + k) % HeaderLen] == header()[k]` for every k < HeaderLen |
| UartRxSync.HeaderMatchesPrefix | protocol/UartRxSync/UartRxSync.hpp:193-207 | the check depends only on the first HeaderLen bytes of the buffer |
| UartRxSync.HeaderMatchesAtZero | protocol/UartRxSync/UartRxSync.hpp:197-206 | from cursor 0 the check holds iff the buffer starts with the header |
| UartRxSync.Decode | protocol/UartRxSync/UartRxSync.hpp:209-225 | `_decode` keeps the invariant, leaves the buffer alone and logs exactly the payload after the header |
| UartRxSync.Handle | protocol/UartRxSync/UartRxSync.hpp:104-164 | each branch of `receiveCallback` keeps the invariant, never writes `rx_buffer_`, and decodes at most one payload, the one after the header |
| UartRxSync.Callback | protocol/UartRxSync/UartRxSync.hpp:102-165 | a callback keeps the invariant, and afterwards the buffer is the old one with the delivered bytes landed at the armed offset |
| UartRxSync.Error | protocol/UartRxSync/UartRxSync.hpp:167-192 | `errorHandler` never touches the buffer, the decode log or the watchdog; it either changes nothing or ends in `WaitHead` with cursor 0 |
| UartRxSync.Start | protocol/UartRxSync/UartRxSync.hpp:93-100 | `startReceive` keeps the buffer, cursor, log and watchdog; a true result means the configuration passed, the state is `WaitHead` and one byte at offset 0 is armed |
| UartRxSync.Connected | protocol/UartRxSync/UartRxSync.hpp:54-57 | connected only in `DMAActive` |
| UartRxSync.Land | protocol/UartRxSync/UartRxSync.hpp:137-161 | a completed receive writes its bytes at the armed offset and leaves every other byte of `rx_buffer_` as it was |
| UartRxSync.CallbackKeepsInv | protocol/UartRxSync/UartRxSync.hpp:102-165 | `receiveCallback` keeps `hdr_idx_ < HeaderLen`, the armed receive inside the buffer and `Stopped` with nothing armed |
| UartRxSync.ErrorKeepsInv | protocol/UartRxSync/UartRxSync.hpp:167-192 | `errorHandler` keeps the same invariant |
| UartRxSync.StartKeepsInv | protocol/UartRxSync/UartRxSync.hpp:93-100 | `startReceive` keeps the same invariant |
| UartRxSync.StoppedIgnoresCallback | protocol/UartRxSync/UartRxSync.hpp:104-164 | in `Stopped` a callback changes nothing |
| UartRxSync.WaitHeadStep | protocol/UartRxSync/UartRxSync.hpp:123-145 | in `WaitHead` it moves to `Receiving` iff the newest byte is the header's last and the window from the cursor matches; it then arms FrameLen-HeaderLen bytes at offset HeaderLen and keeps the cursor; otherwise it stays, with cursor (hdr_idx_+1) % HeaderLen and one byte armed there; the buffer, watchdog and decode log are untouched |
| UartRxSync.MatchNeedsEqualEnds | protocol/UartRxSync/UartRxSync.hpp:129-131 | leaving `WaitHead` needs `header()[0] == header()[HeaderLen-1]`, because the byte at the cursor is compared with both |
| UartRxSync.ReceivingStep | protocol/UartRxSync/UartRxSync.hpp:146-163 | from `Receiving` it always moves to `DMAActive`, arms a circular receive of FrameLen bytes at offset 0 and decodes `rx_buffer_[HeaderLen..FrameLen)` exactly once; the watchdog is fed iff decode accepts or it already was |
| UartRxSync.DMAActiveStep | protocol/UartRxSync/UartRxSync.hpp:104-121 | in `DMAActive` a failed check moves to `WaitHead` with cursor 0 and one byte armed at 0, and decodes nothing; a passing check decodes the payload once and keeps the state, cursor and armed transfer |
| UartRxSync.DecodeSpec | protocol/UartRxSync/UartRxSync.hpp:209-225 | `_decode` feeds the watchdog exactly when `decode` accepts the payload, logs one call, and changes no state, cursor, buffer or armed receive |
| UartRxSync.ErrorSpec | protocol/UartRxSync/UartRxSync.hpp:167-192 | error code NONE changes nothing; any other code, from any state, ends in `WaitHead` with cursor 0 and one byte armed at offset 0 |
| UartRxSync.StartSpec | protocol/UartRxSync/UartRxSync.hpp:93-100 | a bad configuration returns false and changes nothing; otherwise the state becomes `WaitHead`, the result is the HAL's answer, and one byte at offset 0 is armed if the HAL accepted |
| UartRxSync.ConnectedIsActive | protocol/UartRxSync/UartRxSync.hpp:54-57 | connected implies `DMAActive` |
| UartRxSync.HeaderAA55NotFound | protocol/UartRxSync/UartRxSync.hpp:123-145 | as written, the bytes 00 AA 55 leave the header AA 55 in the ring but the receiver still in `WaitHead` |
| UartRxSync.StaleCursorFound | protocol/UartRxSync/UartRxSync.hpp:123-145 | as written, with header AA 55 AA, the bytes 55 AA AA reach `Receiving` with the cursor left at 2 |
| UartRxSync.StaleCursorDropsFrame | protocol/UartRxSync/UartRxSync.hpp:104-121 | as written, that stale cursor makes `DMAActive` reject the next frame even though it starts with the header at offset 0; only the first payload is decoded |
| UartRxSync.FixedFindsHeader | protocol/UartRxSync/UartRxSync.hpp:123-145 | corrected `WaitHead`: after a stream s and a byte b it reaches `Receiving` iff the last HeaderLen bytes of s+[b] are the header, with cursor 0; otherwise the ring still records the stream |
| UartRxSync.FixedKeepsInv | protocol/UartRxSync/UartRxSync.hpp:102-165 | corrected handler: in `Receiving` and `DMAActive` the cursor is 0 |
| UartRxSync.FixedAcceptsFramedData | protocol/UartRxSync/UartRxSync.hpp:104-121 | corrected handler: in `DMAActive` every frame starting with the header is decoded once and the circular transfer stays armed |
| UartRxSync.FixedFindsAA55 | protocol/UartRxSync/UartRxSync.hpp:123-145 | corrected handler: 00 AA 55 finds the header AA 55 |
| UartRxSync.FixedDecodesLoop | protocol/UartRxSync/UartRxSync.hpp:146-163 | corrected handler: the payload 01 02 03 04 and the looped frame AA 55 05 06 07 08 give exactly two decodes, with those payloads |
| UartRxSync.UartRxSync.constructor | protocol/UartRxSync/UartRxSync.hpp:40 | a new receiver is the initial state |
| UartRxSync.UartRxSync.StartReceive | protocol/UartRxSync/UartRxSync.hpp:93-100 | the new state and result are `Start` of the old state |
| UartRxSync.UartRxSync.ReceiveCallback | protocol/UartRxSync/UartRxSync.hpp:102-165 | the new state is `Callback` of the old state and the delivered bytes |
| UartRxSync.UartRxSync.OnFrame | protocol/UartRxSync/UartRxSync.hpp:104-121 | the `DMAActive` branch does what `Handle` says |
| UartRxSync.UartRxSync.OnHeaderByte | protocol/UartRxSync/UartRxSync.hpp:123-145 | the `WaitHead` branch does what `Handle` says |
| UartRxSync.UartRxSync.OnPayload | protocol/UartRxSync/UartRxSync.hpp:146-163 | the `Receiving` branch does what `Handle` says |
| UartRxSync.UartRxSync.ErrorHandler | protocol/UartRxSync/UartRxSync.hpp:167-192 | the new state is `Error` of the old state |
| UartRxSync.UartRxSync.CheckHeader | protocol/UartRxSync/UartRxSync.hpp:193-207 | the two loops return true iff the window from `hdr_idx_` spells the header, and change nothing |
| UartRxSync.UartRxSync.DecodeFrame | protocol/UartRxSync/UartRxSync.hpp:209-225 | the new state is `Decode` of the old state |
| UartRxSync.UartRxSync.IsConnected | protocol/UartRxSync/UartRxSync.hpp:54-57 | true only in `DMAActive` |
| Crc.ValueWidth | libs/crc/crc.hpp:55-78 | `uint_of_bits_t<Bits>` is at least Bits and at most 64 bits wide |
| Crc.PromotedWidth | libs/crc/crc.hpp:55-78 | a `value_type` shift is computed in at least 32 bits (int, or value_type itself when wider), and the counts table_entry and calc use (Bits - 8, Bits - 1, 1, 8) are below that width |
| Crc.MaskAsWritten | libs/crc/crc.hpp:91 | as written, `(value_type(1) << Bits) - 1` is undefined exactly for Bits = 32, where the count equals the promoted width; for every other admitted width `mask` is the low Bits bits |
| Crc.Mask | libs/crc/crc.hpp:91 | corrected `mask` (`value_type(-1)` from 32 bits up): the low Bits bits for every admitted width |
| Crc.MaskAgrees | libs/crc/crc.hpp:91 | the corrected mask equals the initialiser as written wherever that is defined |
| Crc.BitReverse | libs/crc/crc.hpp:47-53 | the loop computes `Reversed` |
| Crc.ReversedBit | libs/crc/crc.hpp:47-53 | bit j of the result is bit bits-1-j of the input for j < bits, and no bit at or above `bits` is set |
| Crc.ReversedBelow | libs/crc/crc.hpp:47-53 | the result is below 2^bits |
| Crc.ReversedInvolution | libs/crc/crc.hpp:47-53 | reversing twice gives back any value below 2^bits |
| Crc.TableEntry | libs/crc/crc.hpp:93-109 | the loop computes `Entry` |
| Crc.EntryBelow | libs/crc/crc.hpp:107-108 | every table entry is at most `mask` |
| Crc.GenerateTable | libs/crc/crc.hpp:111-117 | 256 entries, entry i equal to `table_entry(i)` |
| Crc.LowByte | libs/crc/crc.hpp:130-134 | the table index `& 0xFF` is below 256 |
| Crc.Calc | libs/crc/crc.hpp:122-143 | the pointer/length overload returns `Digest` of data[0..len) |
| Crc.CalcArray | libs/crc/crc.hpp:145-166 | the std::array overload returns `Digest` of the array, so both overloads agree on equal bytes |
| Crc.DigestEmpty | libs/crc/crc.hpp:124-142 | calc over no bytes is (Init ^ XorOut) & mask |
| Crc.StepBelow | libs/crc/crc.hpp:128-136 | the register is at most `mask` after every byte |
| Crc.RegisterBelow | libs/crc/crc.hpp:124-137 | the register after any input is at most `mask` |
| Crc.DigestBelow | libs/crc/crc.hpp:139-142 | the returned digest is at most `mask` |
| Crc.FoldAppend | libs/crc/crc.hpp:126-137 | the register after xs ++ ys is ys folded from the register after xs |
| Crc.ShiftXor | libs/crc/crc.hpp:99-105 | one shift/XOR division step is linear over XOR |
| Crc.EntryIsDivision | libs/crc/crc.hpp:95-105 | with Rin = Rout = false, entry i is eight MSB-first division steps of i aligned to the top bit, masked |
| Crc.StepIsBitwise | libs/crc/crc.hpp:128-136 | with Rin = Rout = false, one table step equals XOR-ing the byte in at the top and eight division steps |
| Crc.RegisterIsBitwise | libs/crc/crc.hpp:122-143 | with Rin = Rout = false, the table-driven register equals bit-at-a-time division from Init |
| Crc16.BitReverse | libs/crc/CRC16.hpp:19-25 | the loop computes `Reversed16` |
| Crc16.ReversedAgrees | libs/crc/CRC16.hpp:19-25 | for widths up to 16 this bit_reverse equals `crc::detail::bit_reverse<uint16_t>` |
| Crc16.TableEntry | libs/crc/CRC16.hpp:33-46 | the loop computes `Entry16` |
| Crc16.EntryAgrees | libs/crc/CRC16.hpp:33-46 | entry i equals `CRCX<16, ...>`'s entry i |
| Crc16.EntryBelow | libs/crc/CRC16.hpp:33-46 | every entry fits in 16 bits |
| Crc16.GenerateTable | libs/crc/CRC16.hpp:49-55 | 256 entries, entry i equal to `table_entry(i)` |
| Crc16.TableAgrees | libs/crc/CRC16.hpp:49-57 | the table equals `CRCX<16, ...>`'s table |
| Crc16.Index16 | libs/crc/CRC16.hpp:66 | `(crc >> 8) ^ b` is below 256 for a 16-bit crc |
| Crc16.Step16 | libs/crc/CRC16.hpp:66 | the stored register fits in 16 bits |
| Crc16.StepAgrees | libs/crc/CRC16.hpp:66 | one byte step equals `CRCX<16, ...>`'s step |
| Crc16.FoldAgrees | libs/crc/CRC16.hpp:63-67 | the register after any bytes equals `CRCX<16, ...>`'s register |
| Crc16.Calc | libs/crc/CRC16.hpp:61-71 | the loop returns `Digest16` of data[0..len) |
| Crc16.DigestEmpty | libs/crc/CRC16.hpp:61-71 | calc over no bytes is init ^ xorout |
| Crc16.DigestAgrees | libs/crc/CRC16.hpp:61-71 | `CRC16<p,i,ri,ro,x>::calc` equals `CRCX<16,p,i,ri,ro,x>::calc` on every input |
| RingBuffers.RingBuffer.constructor | libs/ring_buffer/RingBuffer.hpp:41-44 | a new buffer is empty, with head = tail = 0 |
| RingBuffers.RingBuffer.Capacity | libs/ring_buffer/RingBuffer.hpp:35-38 | one slot less than the array |
| RingBuffers.RingBuffer.Next | libs/ring_buffer/RingBuffer.hpp:47-50 | the next index, wrapping to 0 at the end, stays below Capacity |
| RingBuffers.RingBuffer.Size | libs/ring_buffer/RingBuffer.hpp:90-96 | the number of queued elements, between 0 and capacity() |
| RingBuffers.RingBuffer.Empty | libs/ring_buffer/RingBuffer.hpp:80-83 | true iff size() is 0, iff nothing is queued |
| RingBuffers.RingBuffer.Full | libs/ring_buffer/RingBuffer.hpp:85-88 | true iff size() equals capacity() |
| RingBuffers.RingBuffer.Push | libs/ring_buffer/RingBuffer.hpp:52-66 | fails iff full, changing nothing; otherwise writes the value at the old head only, advances head, appends the value to the contents and grows size() by 1 |
| RingBuffers.RingBuffer.Pop | libs/ring_buffer/RingBuffer.hpp:68-78 | fails iff empty, leaving `out` and the indices alone; otherwise yields the front element `buffer_[tail_]`, advances tail, drops the front of the contents and shrinks size() by 1 |
| FixedPointerMaps.FindIndex | libs/fixed_map/FixedPointerMap.hpp:36-39 | the linear search stops at the first pair with the key, or at the end |
| FixedPointerMaps.MapOfSize | libs/fixed_map/FixedPointerMap.hpp:56 | with distinct keys the map has one entry per used pair |
| FixedPointerMaps.SwapRemoveMap | libs/fixed_map/FixedPointerMap.hpp:48-49 | moving the last pair into slot i keeps keys distinct and removes exactly pair i's key from the map |
| FixedPointerMaps.FixedPointerMap.constructor | libs/fixed_map/FixedPointerMap.hpp:59-60 | a new map is empty |
| FixedPointerMaps.FixedPointerMap.Size | libs/fixed_map/FixedPointerMap.hpp:56 | `size()` is the number of keys and at most N |
| FixedPointerMaps.FixedPointerMap.Insert | libs/fixed_map/FixedPointerMap.hpp:13-32 | succeeds iff the key is absent and the map is not full; it then stores the pair at index size_, increments size_ and adds the key; otherwise nothing changes |
| FixedPointerMaps.FixedPointerMap.Find | libs/fixed_map/FixedPointerMap.hpp:34-40 | the pointer stored with the key, nullptr when absent, changing nothing |
| FixedPointerMaps.FixedPointerMap.Erase | libs/fixed_map/FixedPointerMap.hpp:42-54 | succeeds iff the key is present; it then moves the last pair into the key's slot, decrements size_ and removes exactly that key; otherwise nothing changes |
| StaticArenas.AlignUp | utils/static_arena.hpp:35 | `aligned_offset`, computed in size_t, is below 2^32 |
| StaticArenas.AlignUpLeast | utils/static_arena.hpp:35 | for a power-of-two alignment without wrap-around, `aligned_offset` has no bit below the alignment set and lies in [offset, offset + alignment): the least aligned offset at or above it |
| StaticArenas.AlignUpWrapped | utils/static_arena.hpp:35 | when `expected + alignment - 1` wraps, `aligned_offset` falls below the offset |
| StaticArenas.Allocation | utils/static_arena.hpp:27-55 | as written: a failure leaves the offset; a success returns `aligned_offset` and sets the offset to `(aligned_offset + size) mod 2^32`, which is at most Size |
| StaticArenas.CheckedAllocation | utils/static_arena.hpp:27-55 | checked allocation: a failure leaves the offset; a success returns a block at or after the old offset whose end is the new offset, at most Size |
| StaticArenas.AllocationBounded | utils/static_arena.hpp:36-41 | as written, the offset never passes Size |
| StaticArenas.AllocationWraps | utils/static_arena.hpp:35-41 | as written, on a 16-byte arena at offset 8, a request for 2^32-4 bytes succeeds with block 8 and moves the offset back to 4 |
| StaticArenas.AllocationAgrees | utils/static_arena.hpp:35-41 | where no size_t sum wraps, the code as written and the checked allocation agree |
| StaticArenas.CheckedAllocationSpec | utils/static_arena.hpp:27-55 | checked allocation: a failure leaves the offset; a success returns an aligned block at or after the old offset that ends inside Size, the offset moves to its end, and the offset never decreases |
| StaticArenas.CheckedAllocationFails | utils/static_arena.hpp:35-41 | checked allocation fails iff the alignment wraps or the least aligned offset plus size passes Size |
| StaticArenas.CheckedAllocationsDisjoint | utils/static_arena.hpp:27-55 | checked allocation: blocks of two successive successful allocations do not overlap |
| StaticArenas.StaticArena.constructor | utils/static_arena.hpp:14-21 | a new arena has offset 0 |
| StaticArenas.StaticArena.Allocate | utils/static_arena.hpp:27-55 | the new offset and the block are `Allocation` of the old offset, as written |
| StaticArenas.StaticArena.Used | utils/static_arena.hpp:72-75 | `used()` never exceeds `capacity()` |
| StaticArenas.StaticArena.Capacity | utils/static_arena.hpp:76-79 | `capacity()` is Size, a size_t value that bounds `used()` |
| StaticArenas.StaticArena.Clear | utils/static_arena.hpp:89-92 | `used()` is 0 afterwards |

## Left out

- The HAL is not called. `HAL_UART_Receive_IT`, `HAL_UART_Receive_DMA` and `HAL_UART_AbortReceive` become the armed `Reception`. The flag-clearing macros and the callback-registration macros have no counterpart.
- The receive requests inside the handlers are taken to succeed, since the code ignores their results. Only `startReceive`'s answer is an input (`halOk`), together with the configuration test (`configOk`).
- The watchdog is a flag set by `feed()`. Its timeout, which makes `isFed()` false again, is time and is not modelled.
- The real-time bound is left out: decode must finish before the circular transfer overwrites the header. It is timing, so the hardware writing during decode is not modelled either.
- The `DEBUG` counters are left out.
- `header()` and `decode()` are the user's virtuals. `decode` is a function of the payload bytes, and its own side effects are not modelled.
- `StaticArena::allocate` runs single-threaded: the compare-and-swap succeeds on the first try and its retry loop is not modelled. `std::atomic`, memory orders and `volatile` in `RingBuffer` are left out too.
- `StaticArena::usage_ratio` is left out because it is floating point.
- `StaticArena::create` is left out because it is placement new and constructor forwarding.
- utils/utils.h and utils/isr_lock.h (a cycle-counting delay, static-storage macros, interrupt masking) are not part of this model.
- CRC parameters wider than Bits are excluded by `Crc.Valid`: the model requires Poly, Init and XorOut below 2^Bits.
- The model does not claim that reflected presets wider than 8 bits (such as CRC-16/MODBUS) reproduce their published check values. The update always shifts left, whatever Rin and Rout are.
- Crc16.ReversedAgrees: only covers widths up to 16, the only ones CRC16.hpp uses. Wider widths would overflow the uint16_t.
- Crc.RegisterIsBitwise: stated only for Rin = Rout = false. The reflected table is not a bitwise division in the same order.
- StaticArenas.StaticArena.Allocate: requires size and alignment below 2^32, since they are size_t values, and an alignment of at least 1; the code's comment at line 34 asks for a power of two, which excludes 0. It does not require the power of two itself: the code computes the same expression for any alignment, and the model does too. The least-aligned-offset property (`StaticArenas.AlignUpLeast`) is proved only for powers of two.

## Findings

| source | as written | input that shows it | evidently intended | confidence | as-written member | corrected member |
|---|---|---|---|---|---|---|
| protocol/UartRxSync/UartRxSync.hpp:129-131 | the newest byte sits at `hdr_idx_` and is compared with the header's last byte, but `check_header` (197-200) reads the header from `hdr_idx_` onwards, so that same byte must also equal the header's first byte | header AA 55, bytes 00 AA 55: the ring holds AA 55 but the receiver stays in `WaitHead`; no header whose first and last bytes differ is ever found | check the window starting at the slot after the newest byte; the receiver leaves `WaitHead` exactly when the last HeaderLen bytes received are the header | high, not executed | UartRxSync.MatchNeedsEqualEnds, UartRxSync.HeaderAA55NotFound | UartRxSync.FixedFindsHeader, UartRxSync.FixedFindsAA55 |
| protocol/UartRxSync/UartRxSync.hpp:137-139 | `hdr_idx_` is kept when the header is found, but the circular transfer puts every later header at offset 0 (161), and `DMAActive` checks from the stale cursor (109) | header AA 55 AA, bytes 55 AA AA then payload 22, then frame AA 55 AA 11: the cursor is 2 and the well-framed frame is dropped | reset the cursor to 0 on a match, so that every frame beginning with the header is decoded | high, not executed | UartRxSync.StaleCursorFound, UartRxSync.StaleCursorDropsFrame | UartRxSync.FixedKeepsInv, UartRxSync.FixedAcceptsFramedData, UartRxSync.FixedDecodesLoop |
| utils/static_arena.hpp:35-38 | `aligned_offset + size` and `expected + alignment - 1` are size_t sums that can wrap, and only `desired > Size` is tested | 32-bit size_t, Size 16, offset 8, `allocate(2^32 - 4, 1)`: returns block 8 and sets the offset to 4, so `used()` decreases and the block overlaps later ones | reject an allocation whose aligned offset wraps or whose size does not fit in Size - aligned_offset | medium, not executed | StaticArenas.AllocationWraps | StaticArenas.CheckedAllocationSpec, StaticArenas.CheckedAllocationsDisjoint |
| libs/crc/crc.hpp:91 | for every width but 64, `mask` is `(value_type(1) << Bits) - 1`; for Bits = 32, `value_type` is uint32_t, so the shift count equals the promoted operand's width, which is undefined and makes the `static constexpr` initialiser ill-formed | `CRCX<32, 0x04C11DB7, 0xFFFFFFFF, true, true, 0xFFFFFFFF>`, the CRC-32 preset in the comment at crc.hpp:24 | take `value_type(-1)` for Bits >= 32, not only for 64 | high, not executed | Crc.MaskAsWritten | Crc.Mask, Crc.MaskAgrees |
