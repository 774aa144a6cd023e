# Skynet runtime bookkeeping, modelled and proved in Dafny

This project models five pieces of the skynet actor runtime and proves what
their code promises.

1. **Message queues** (`mq.dfy`, module `MessageQueues`).
   - Each actor owns a growable circular array of messages. It is a class
     over an `array`, with `head`, `tail`, `cap`, `in_global` and the overload
     watermark as fields.
   - The global run queue is an intrusive FIFO chain of queues, linked
     through each queue's own `next` field.
   - A ghost sequence of the stored messages connects the ring to its
     meaning. The proofs cover FIFO order, growth that keeps the order, the
     link/unlink protocol and release draining.
2. **Timer wheel** (`timer.dfy`, module `Timers`).
   - The 256-slot near ring and the 4 × 64-slot coarse levels are arrays of
     FIFO slot lists, specified by a `Wheel` value.
   - Each array method is proved equal to a function on that value: slot
     placement, cascade, firing, `timer_update` and the tick loop of
     `skynet_updatetime`.
   - On the value, the proofs show that pending timers are never lost or
     duplicated and that slots stay FIFO.
   - An invariant (`Settled`) says every pending node sits in the slot
     `add_node` would choose for it at the current tick. Creation, `add_node`
     and `timer_update` keep it. Under it, a coarse node is never in the
     slot the clock is at on its level (`SettledCoarseAhead`), and a timer
     added `d` ticks ahead is dispatched by the `d`-th `timer_update` and by
     no earlier one (`AddedTimerFires`).
3. **Socket server bookkeeping**.
   - `socket_ids.dfy` holds ids and the `sending` word, `socket_udp.dfy` the
     UDP address layout, and `socket_request.dfy` the control-pipe framing.
   - `socket_buffers.dfy` holds the write-buffer lists and the pure rules
     around them.
   - `socket.dfy` holds a socket slot and its re-entrant lock, as classes.
   - `socket_server.dfy` holds the slot table with `reserve_id`, `new_fd`
     and the id-routed request handlers.
   - Every system call (`write`, `sendto`, `read`, `epoll` registration) is
     an input.
   - A socket's backlog is its direct-write remainder, then its high list,
     then its low list, as bytes. `send_buffer` and `close_socket` are proved
     to leave a suffix of the old backlog (`Leaves`): nothing is added,
     duplicated or reordered, and bytes leave only from the front, whether
     written, or dropped unsent by a close or a dropped datagram.
4. **Endless-loop monitor** (`monitor.dfy`, module `Monitors`): the
   `version` / `check_version` state machine of one worker.
5. **Lua allocator accounting** (`snlua_alloc.dfy`, module `LuaAlloc`): how
   `lalloc` keeps `mem`, `mem_limit` and `mem_report`, in wrapping `size_t`
   arithmetic.

Spinlocks and atomic operations are plain sequential steps. Where a
concurrent event changes the outcome, the event is an input: lock
contention, a refused push, or a wait for the socket thread.

The control pipe's structs have the memory layout of the machine. The model
fixes that layout to little-endian with 64-bit pointers.

## Model

| member | source | states |
|---|---|---|
| MessageQueues.MessageQueue.constructor | skynet-src/skynet_mq.c:80-99 | A new queue is empty, with 64 slots, `release` 0, overload 0 and watermark 1024. It is flagged `in_global` without being linked, so pushes before initialisation do not schedule it. |
| MessageQueues.MessageQueue.Length | skynet-src/skynet_mq.c:116-130 | The ring arithmetic equals the number of stored messages, and that number is always below `cap`. |
| MessageQueues.MessageQueue.Overload | skynet-src/skynet_mq.c:132-140 | Returns the recorded overload and leaves 0, so a second call reads 0. |
| MessageQueues.MessageQueue.Pop | skynet-src/skynet_mq.c:143-183 | On an empty queue: answers "empty", clears `in_global` and resets the watermark to 1024. Otherwise: returns the oldest message and removes exactly it. The watermark then covers the remaining length. It grows only while that length exceeds it, is then below twice the length, and the length is recorded as the overload. |
| MessageQueues.MessageQueue.RaiseWatermark | skynet-src/skynet_mq.c:166-170 | The doubling loop leaves a watermark that is 1024 times a power of two and at least the length. A change records the length and stops below twice the length. |
| MessageQueues.WatermarkDoubles | skynet-src/skynet_mq.c:169 | Doubling keeps the watermark 1024 times a power of two. |
| MessageQueues.MessageQueue.TakeHead | skynet-src/skynet_mq.c:148-158 | Reading at `head` and wrapping it yields the first stored message and leaves the rest in order. |
| MessageQueues.MessageQueue.Expand | skynet-src/skynet_mq.c:185-198 | On a full ring: doubles `cap`, sets `head` 0 and `tail` to the old `cap`, and keeps the message sequence unchanged. |
| MessageQueues.MessageQueue.Store | skynet-src/skynet_mq.c:202-214 | Appends the message at the end of the sequence. The ring doubles exactly when it has become full. |
| MessageQueues.MessageQueue.Push | skynet-src/skynet_mq.c:201-225 | Appends the message, FIFO. An unlinked queue is appended to the global chain and flagged. A linked queue leaves the chain untouched. |
| MessageQueues.MessageQueue.MarkRelease | skynet-src/skynet_mq.c:237-246 | Sets `release`. Links the queue only when `in_global` is clear, and leaves `in_global` as it was. |
| MessageQueues.MessageQueue.Release | skynet-src/skynet_mq.c:261-272 | A released queue hands every remaining message, in order, to the drop callback exactly once and ends empty and unlinked. Any other queue is linked back with its messages kept. |
| MessageQueues.MessageQueue.DropQueue | skynet-src/skynet_mq.c:252-259 | Popping until empty yields exactly the stored messages, in order. |
| MessageQueues.GlobalQueue.constructor | skynet-src/skynet_mq.c:227-233 | The global chain starts empty. |
| MessageQueues.GlobalQueue.Push | skynet-src/skynet_mq.c:44-57 | Appends an unlinked queue at the tail and keeps the chain well linked and duplicate-free. |
| MessageQueues.GlobalQueue.Pop | skynet-src/skynet_mq.c:59-77 | An empty chain yields null. Otherwise it yields the oldest queue, FIFO, with its `next` cleared and the rest of the chain kept. |
| Timers.Next | skynet-src/skynet_timer.c:138 | `++T->time` on the uint32 clock: plus one, wrapping to 0. |
| Timers.FindSlot | skynet-src/skynet_timer.c:84-106 | `add_node`'s search returns the `Placement` slot. That is the near ring when expiry and clock agree above the low 8 bits, else the first level 0..2 whose mask makes them agree, else level 3, with index `(expire >> (8+6i)) & 63`. |
| Timers.PlacementAtLevel | skynet-src/skynet_timer.c:93-104 | The level where `add_node`'s loop stops is the level `Placement` names. |
| Timers.PlacementAhead | skynet-src/skynet_timer.c:89-104 | A node placed in a coarse level agrees with the clock above that level and never sits in the slot the clock is at on it. |
| Timers.DigitDiffers | skynet-src/skynet_timer.c:97 | Two ticks that agree from level i+1 up but not from level i up differ in their level-i digit. |
| Timers.Cascade | skynet-src/skynet_timer.c:136-159 | At most one coarse slot is cascaded: `t[3][0]` on wrap to 0, and none while the low 8 bits are non-zero. Otherwise it is the first level with a non-zero index, which always exists. |
| Timers.CascadeAt | skynet-src/skynet_timer.c:146-153 | The level where `timer_shift`'s loop stops is the level `Cascade` names. |
| Timers.CascadeStep | skynet-src/skynet_timer.c:154-156 | A zero digit keeps the loop's shifted tick equal to the tick divided by the next unit. It also means the loop cannot run past level 3. |
| Timers.TopLevelNonZero | skynet-src/skynet_timer.c:146-157 | A non-zero tick whose lower digits are all zero has a non-zero level-3 digit. |
| Timers.FireAll | skynet-src/skynet_timer.c:164-179 | One delivery per node of the list. |
| Timers.Timer.DispatchList | skynet-src/skynet_timer.c:164-179 | The do-while delivers, for each node in order: from source 0, with the node's session, no data and the response type. |
| Timers.Wheel.Set | skynet-src/skynet_timer.c:69-82 | Replacing one slot's list keeps the wheel's shape. |
| Timers.GetSet | skynet-src/skynet_timer.c:69-82 | Replacing one slot's list changes only that slot. |
| Timers.SetNodes | skynet-src/skynet_timer.c:69-82 | Replacing one slot's list changes the pending multiset by exactly the difference of the two lists. |
| Timers.AddNodes | skynet-src/skynet_timer.c:84-106 | `add_node` adds exactly one pending node. |
| Timers.AddAllNodes | skynet-src/skynet_timer.c:128-132 | Re-adding a list adds exactly its nodes. |
| Timers.AddAllGet | skynet-src/skynet_timer.c:77-82 | Re-adding a list appends to each slot exactly the nodes placed there, in list order: slots stay FIFO. |
| Timers.Placed | skynet-src/skynet_timer.c:84-106 | The nodes a slot receives are nodes of the list whose placement is that slot. |
| Timers.MoveNodes | skynet-src/skynet_timer.c:124-133 | `move_list` keeps the multiset of pending nodes. |
| Timers.TickNodes | skynet-src/skynet_timer.c:136-159 | A tick's cascade keeps the multiset of pending nodes. |
| Timers.Step | skynet-src/skynet_timer.c:198-211 | One `timer_update` advances the clock by one tick on the wrapping clock and keeps the wheel well shaped. Which nodes it dispatches is stated by `StepFires`. |
| Timers.StepAppends | skynet-src/skynet_timer.c:311-314 | A `timer_update` appends what it dispatches to what earlier updates dispatched. |
| Timers.StepKeepsNodes | skynet-src/skynet_timer.c:198-211 | After one `timer_update`, each timer is either still pending or dispatched, exactly once. |
| Timers.RunKeepsNodes | skynet-src/skynet_timer.c:312-314 | The same holds after any number of `timer_update`s. |
| Timers.Remaining | skynet-src/skynet_timer.c:109-121 | The ticks a node still has to wait, `expire - time` on the wrapping clock: below 2^32, and 0 exactly when the node is due now. |
| Timers.ExpiryRemaining | skynet-src/skynet_timer.c:109-121 | A timer added with delay `d` (0 < d < 2^31) has exactly `d` ticks remaining. |
| Timers.RemainingStep | skynet-src/skynet_timer.c:138 | Each tick brings every node that is not due one tick closer. |
| Timers.NearSlotIsNow | skynet-src/skynet_timer.c:89-92 | `add_node` puts a node into the near slot of the current tick exactly when it is due now. |
| Timers.EmptySettled | skynet-src/skynet_timer.c:213-235 | The wheel of `timer_create_timer` satisfies the invariant at any tick. |
| Timers.ClearSettled | skynet-src/skynet_timer.c:68-75 | Taking a slot's list out with `link_clear` keeps the invariant. |
| Timers.AddSettled | skynet-src/skynet_timer.c:84-121 | `add_node` of a node due within 2^31 ticks keeps the invariant. |
| Timers.ShiftPlacement | skynet-src/skynet_timer.c:135-159 | When the clock moves one tick past a tick at which a node is not due, the node's slot is either the one `timer_shift` cascades or still the slot `add_node` would now choose. |
| Timers.ShiftAtWrap | skynet-src/skynet_timer.c:138-140 | On the wrap to 0, a pending node is in the cascaded `t[3][0]` or stays placed where it is. |
| Timers.ShiftLevel | skynet-src/skynet_timer.c:141-157 | The same for a node at level 0..2 when the clock does not wrap. |
| Timers.ShiftTop | skynet-src/skynet_timer.c:141-157 | The same for a node at level 3 when the clock does not wrap. |
| Timers.TickSettled | skynet-src/skynet_timer.c:135-159 | `timer_shift`, run after the current near slot was emptied, keeps the invariant at the new tick. |
| Timers.StepSettled | skynet-src/skynet_timer.c:198-211 | `timer_update` keeps the invariant. |
| Timers.InPlace | skynet-src/skynet_timer.c:84-106 | Under the invariant, every pending copy of a node is in the slot its expiry names. |
| Timers.StepFires | skynet-src/skynet_timer.c:182-211 | On a settled wheel, one `timer_update` dispatches every pending copy of the nodes due at the tick it starts from or the tick it moves to, and nothing else. Those nodes leave the wheel, and every other node stays. |
| Timers.RunTime | skynet-src/skynet_timer.c:311-314 | After `k` updates the clock reads `time + k` on the wrapping clock. |
| Timers.RunSettled | skynet-src/skynet_timer.c:311-314 | Any number of updates keep the invariant. |
| Timers.DueOffset | skynet-src/skynet_timer.c:109-121 | A timer due `d` ticks ahead is due at the `j`-th tick or the one after it exactly when `j + 1 == d`. |
| Timers.FiresStep | skynet-src/skynet_timer.c:198-211 | The `(m+1)`-th update after `p` dispatches the node due `d` ticks after `p` exactly when `m + 1 == d`. |
| Timers.FiresAfterDelay | skynet-src/skynet_timer.c:198-211 | On a settled wheel, a node due `d` ticks ahead is neither dispatched nor removed by the first `d - 1` updates. The `d`-th update dispatches every pending copy of it. |
| Timers.AddedTimerFires | skynet-src/skynet_timer.c:109-121 | A timer added with delay `d` has not fired after fewer than `d` updates and has fired after exactly `d`. It never fires early and never late. |
| Timers.SettledCoarseAhead | skynet-src/skynet_timer.c:93-104 | On a settled wheel, a coarse node is never in the slot the clock is at on its level. Below level 3 it agrees with the clock above the level and its digit is ahead of the clock's. |
| Timers.EmptyWheel | skynet-src/skynet_timer.c:213-235 | A well-shaped wheel with every slot empty. |
| Timers.Timer.constructor | skynet-src/skynet_timer.c:213-235 | `timer_create_timer` empties every slot and zeroes the clocks. |
| Timers.Timer.Init | skynet-src/skynet_timer.c:330-337 | The start second, the centisecond part and the monotonic reading are stored as given. |
| Timers.Timer.SlotList | skynet-src/skynet_timer.c:69-82 | Reading a slot of the arrays gives that slot of the wheel value. |
| Timers.Timer.Replace | skynet-src/skynet_timer.c:69-82 | Storing a slot's list is `Set` on the wheel value. |
| Timers.Timer.Link | skynet-src/skynet_timer.c:77-82 | `link` appends the node at the tail of the slot. |
| Timers.Timer.LinkClear | skynet-src/skynet_timer.c:68-75 | `link_clear` returns the slot's old list and leaves the slot empty. |
| Timers.Timer.AddNode | skynet-src/skynet_timer.c:84-106 | The arrays change exactly as `Add` does with the node at its `Placement` slot. |
| Timers.Timer.TimerAdd | skynet-src/skynet_timer.c:109-121 | The node expires at `time + T->time` on the wrapping clock and is linked into exactly the slot `add_node` chooses. |
| Timers.Timer.MoveList | skynet-src/skynet_timer.c:124-133 | Empties the slot and re-adds its nodes in order, which is `Move` on the wheel value. |
| Timers.Timer.Shift | skynet-src/skynet_timer.c:135-159 | The clock increases by exactly one, wrapping. The wheel changes exactly by the cascade `Cascade` names for the new tick. |
| Timers.Timer.Execute | skynet-src/skynet_timer.c:182-193 | `timer_execute` detaches and returns the near slot of the current tick and leaves everything else. What `dispatch_list` delivers is `FireAll` of that slot. |
| Timers.Timer.Update | skynet-src/skynet_timer.c:198-211 | Fires, shifts, then fires again, as `Step` says. |
| Timers.Timer.UpdateTime | skynet-src/skynet_timer.c:301-316 | `current_point` becomes the reading. A reading that did not advance changes nothing else. Otherwise the 32-bit truncated `diff` is added to the 64-bit `current`, and exactly `diff` `timer_update`s run. |
| Timers.Timer.RunUpdates | skynet-src/skynet_timer.c:311-314 | The loop runs `n` `timer_update`s (`Run`). |
| Timers.Timer.Timeout | skynet-src/skynet_timer.c:242-263 | A delay ≤ 0 delivers at once and answers -1 when the push is refused, otherwise the session. A delay > 0 adds a timer for the session and answers the session. |
| Monitors.Inc32 | skynet-src/skynet_monitor.c:40 | The C `int` counter always moves: plus one, wrapping to INT_MIN. |
| Monitors.Triggered | skynet-src/skynet_monitor.c:36-41 | `trigger` records source and destination, moves `version`, keeps `check_version`. |
| Monitors.Checked | skynet-src/skynet_monitor.c:46-56 | A destination is reported iff `version == check_version` and the destination is non-zero. Afterwards `check_version == version` and nothing else changes. |
| Monitors.StalledWorkerReported | skynet-src/skynet_monitor.c:46-56 | Two checks with no trigger in between: the second reports any non-zero destination. |
| Monitors.TriggerSuppressesReport | skynet-src/skynet_monitor.c:36-56 | A trigger between two checks suppresses the second report. |
| Monitors.CompletedDispatchNotReported | skynet-src/skynet_monitor.c:36-56 | A dispatch that completed, with a trigger before it and a `(0, 0)` trigger after it, is never reported. |
| Monitors.CheckIdempotent | skynet-src/skynet_monitor.c:46-56 | Checking twice leaves the state of checking once. |
| Monitors.Monitor.constructor | skynet-src/skynet_monitor.c:20-25 | All four fields start at 0. |
| Monitors.Monitor.Trigger | skynet-src/skynet_monitor.c:36-41 | The fields change as `Triggered` says. |
| Monitors.Monitor.Check | skynet-src/skynet_monitor.c:46-56 | The fields and the report are as `Checked` says. |
| LuaAlloc.Recount | service-src/service_snlua.c:188-191 | Without wrap-around, `mem + nsize - (ptr ? osize : 0)`. |
| LuaAlloc.LAlloc | service-src/service_snlua.c:185-203 | A request is refused iff the limit is non-zero, the new count exceeds it, and the call is fresh or growing. A refused call restores the accounting. A forwarded call sets `mem` to the new count and warns iff it passes `mem_report`, which then doubles. |
| LuaAlloc.ShrinkNeverRefused | service-src/service_snlua.c:192-197 | Shrinking or freeing is never refused, whatever the limit. |
| LuaAlloc.UnlimitedNeverRefused | service-src/service_snlua.c:192 | `mem_limit == 0` means unlimited. |
| LuaAlloc.LimitKept | service-src/service_snlua.c:188-197 | When the VM resizes only blocks it holds, `mem` within a non-zero limit stays within it. |
| LuaAlloc.ExactCount | service-src/service_snlua.c:188-197 | Without overflow, `mem` counts outstanding bytes exactly, and a refused call leaves it unchanged. |
| Messages.ResponseSize | skynet-src/skynet_timer.c:171 | The size word of a timer's response carries `PTYPE_RESPONSE` in its top byte and size 0. |
| LuaAlloc.ReportDoublesOnce | service-src/service_snlua.c:198-201 | `mem_report` at most doubles per call, and only for a forwarded call with a warning. |
| LuaAlloc.Snlua.constructor | service-src/service_snlua.c:205-213 | `mem` 0, `mem_report` 32 MiB, `mem_limit` 0. |
| LuaAlloc.Snlua.Alloc | service-src/service_snlua.c:185-203 | The in-place update with rollback gives `LAlloc`'s result. |
| SocketIds.HashId | skynet-src/socket_server.c:40 | The slot index of an id, congruent to the id modulo 65536. |
| SocketIds.IdTag16 | skynet-src/socket_server.c:41 | The tag of a non-negative id is its quotient by 65536. |
| SocketIds.IdSplit | skynet-src/socket_server.c:40-41 | A non-negative id is its tag followed by its slot index. |
| SocketIds.StaleIdHasOtherTag | skynet-src/socket_server.c:40-41 | Two different ids that share a slot have different tags. |
| SocketIds.InitialSending | skynet-src/socket_server.c:512 | `ID_TAG16(id) << 16 \| 0`: the owner's tag and a zero count. |
| SocketIds.IncSending | skynet-src/socket_server.c:1203-1219 | A matching tag raises the count by one, never past `0xffff`; a saturated count waits. Another tag leaves the word alone. |
| SocketIds.DecSending | skynet-src/socket_server.c:1227-1230 | The decrement as written, with the assert as its precondition: it lowers a positive count by one and keeps the tag. |
| SocketIds.IncThenDec | skynet-src/socket_server.c:1200-1231 | A queued request followed by its handling restores the word. |
| SocketIds.StaleIncLeavesWord | skynet-src/socket_server.c:1205-1218 | A request for a stale id that shares the slot does not touch the new owner's word. |
| SocketIds.UncountedSendFailsAssert | skynet-src/socket_server.c:1227-1229 | After `new_fd`, the word of a socket that was reserved with an unknown protocol has the id's tag and a zero count, so a `'D'` request queued before it reaches the assert with count 0; the bare `ATOM_DEC` would then change the tag. |
| SocketIds.DecSendingGuarded | skynet-src/socket_server.c:1223-1231 | The decrement with a guard on a zero count: the tag never changes, and the count drops by one unless it is already 0. |
| SocketIds.IncThenDecGuarded | skynet-src/socket_server.c:1200-1231 | With the guard, a queued request followed by its handling still restores the word. |
| SocketUdp.AddressSize | skynet-src/socket_server.c:2108-2121 | 7 bytes for UDP, 19 for UDPv6, no size for any other protocol byte. |
| SocketUdp.GenUdpAddress | skynet-src/socket_server.c:1347-1363 | The layout starts with the address's protocol byte and has exactly the size that byte calls for. |
| SocketUdp.UdpSocketAddress | skynet-src/socket_server.c:657-679 | An address is produced iff the stored protocol byte matches the socket's UDP protocol. It has that family. |
| SocketUdp.UdpAddressRoundTrip | skynet-src/socket_server.c:657-679 | A laid-out address reads back exactly, whatever follows it in the 19-byte array. |
| SocketUdp.UdpAddressMismatch | skynet-src/socket_server.c:660-661 | A socket of another protocol never accepts the layout. |
| SocketUdp.UdpMessageData | skynet-src/socket_server.c:1385-1397 | A `SOCKET_UDP` payload starts with the datagram, and the sender's address follows it. |
| SocketUdp.SocketServerUdpAddress | skynet-src/socket_server.c:2108-2122 | The size of the layout after the `ud` data bytes is 7 or 19, and none iff the byte there is not a UDP protocol. |
| SocketUdp.UdpMessageAddressRoundTrip | skynet-src/socket_server.c:1385-1397 | A received message yields the sender's layout back at offset `ud`. |
| SocketRequests.Frame | skynet-src/socket_server.c:1658-1672 | `send_request` writes the type byte, the length truncated to a byte, and the body. |
| SocketRequests.ReadCommand | skynet-src/socket_server.c:1238-1248 | `ctrl_cmd`'s two reads succeed iff the pipe holds the header and the whole body. The pipe then is exactly that request followed by the rest. |
| SocketRequests.FrameRoundTrip | skynet-src/socket_server.c:1658-1672 | A body shorter than 256 bytes is read back whole, and the rest of the pipe is untouched. |
| SocketRequests.FrameTruncated | skynet-src/socket_server.c:1660 | A body of 256 bytes or more does not survive the truncated length byte. |
| SocketRequests.PipeIsFifo | skynet-src/socket_server.c:1238-1248 | Requests written in order are read back in order, each whole. |
| SocketRequests.OpenBody | skynet-src/socket_server.c:132-137 | An `'O'` body is `sizeof(struct request_open)` plus the host length. |
| SocketRequests.CString | skynet-src/socket_server.c:136 | The bytes of a C string are a NUL-free prefix. |
| SocketRequests.CStringOf | skynet-src/socket_server.c:1688-1689 | A NUL-terminated host reads back as the host. |
| SocketRequests.DecodeOpen | skynet-src/socket_server.c:132-137 | A body decodes iff it holds the fixed fields. |
| SocketRequests.OpenRequestRoundTrip | skynet-src/socket_server.c:1676-1703 | A connect request that passes the length check reaches the socket thread intact: id, port, owner and host, whatever the padding. |
| WriteBuffers.UncompleteHead | skynet-src/socket_server.c:733-739 | A list of untouched buffers is never uncomplete, as `send_buffer_` asserts of the low list (line 777). With an untouched tail, a list is uncomplete iff it is not untouched throughout. |
| WriteBuffers.NewBuffer | skynet-src/socket_server.c:854-872 | A new buffer has written nothing and holds the payload. |
| WriteBuffers.StreamAppend | skynet-src/socket_server.c:863-870 | Appending a buffer appends its bytes to the list's stream. |
| WriteBuffers.DrainTcp | skynet-src/socket_server.c:622-655 | `send_list_tcp`'s loop over the OS outcomes never lengthens the list, and a failure leaves a non-empty list. |
| WriteBuffers.DrainTcpWrites | skynet-src/socket_server.c:622-655 | What `send_list_tcp` writes is a prefix of the list's byte stream, and the rest of the stream stays in the list. What is left is a suffix of the list, except that its head may have advanced. |
| WriteBuffers.Partial | skynet-src/socket_server.c:640-645 | A short write of k bytes advances the head by k, keeps the tail and stops. |
| WriteBuffers.DrainTcpHead | skynet-src/socket_server.c:640-645 | Only the head of what is left can differ from its original buffer. It has advanced exactly by the bytes it lost. |
| WriteBuffers.DrainUdp | skynet-src/socket_server.c:681-720 | `send_list_udp` never partly sends a buffer. It leaves a suffix of the list, and the OS outcomes it did not use are a suffix of those given. |
| WriteBuffers.DrainsShrink | skynet-src/socket_server.c:622-720 | Neither drain adds bytes. |
| WriteBuffers.DrainTcpKeepsTail | skynet-src/socket_server.c:640-645 | Partial writes happen only at the head. |
| WriteBuffers.DrainUdpUntouched | skynet-src/socket_server.c:690-720 | A UDP drain never partly writes a buffer. |
| WriteBuffers.Drain | skynet-src/socket_server.c:722-729 | `send_list` picks TCP or UDP by protocol. Only TCP fails. Bytes never grow, and partial writes happen only at the head. |
| WriteBuffers.Prepended | skynet-src/socket_server.c:828-846 | The direct-write remainder in front of the high list puts its bytes in front of the high stream. |
| WriteBuffers.Flush | skynet-src/socket_server.c:776-798 | Steps 1 to 3 of `send_buffer_` never add bytes, and only a TCP write fails. Once the low list has been written, the high list holds at most the raised head. |
| WriteBuffers.FlushKeepsOrder | skynet-src/socket_server.c:766-798 | Steps 1 to 3 of `send_buffer_` (the drains that `Flush` describes) add and reorder nothing: the high stream then the low stream keep only a suffix, so bytes leave only from the front. Every high byte goes out before any low byte, since the low list is written only once the high list is empty. Only a TCP write fails, and the low list stays free of partly written buffers. |
| WriteBuffers.RaisedKeepsOrder | skynet-src/socket_server.c:792-797 | Moving a partly sent low head to the high list keeps the stream and leaves the low list untouched. |
| WriteBuffers.Watermark | skynet-src/socket_server.c:965-972 | A warning is due iff `wb_size` ≥ 1 MiB and ≥ `warn_size`. `warn_size` becomes 2 MiB from 0, or doubles, and `ud` is the backlog in KiB rounded up. |
| WriteBuffers.WarningThresholdGrows | skynet-src/socket_server.c:965-966 | A warning raises the threshold to more than before and more than 1 MiB. |
| WriteBuffers.NextReadSize | skynet-src/socket_server.c:1334-1338 | A full read doubles the size. Only a read of less than half, above 64, halves it. |
| WriteBuffers.ReadSizeAtLeastMin | skynet-src/socket_server.c:1334-1338 | A read size of the form 64 times a power of two is at least 64. |
| WriteBuffers.ReadSizeKept | skynet-src/socket_server.c:1334-1338 | The read size stays 64 times a power of two, so it never drops below 64. |
| Sockets.SocketLock.constructor | skynet-src/socket_server.c:252-256 | The count starts at 0. |
| Sockets.SocketLock.Lock | skynet-src/socket_server.c:258-264 | The count increases by one. |
| Sockets.SocketLock.TryLock | skynet-src/socket_server.c:266-274 | Succeeds iff the lock is already held by this guard or nobody else holds it. The count increases exactly on success. |
| Sockets.SocketLock.Unlock | skynet-src/socket_server.c:276-283 | The count decreases by one and never goes below 0. |
| Sockets.Socket.constructor | skynet-src/socket_server.c:394-400 | A slot starts free with empty lists. |
| Sockets.Socket.EmptyBuffer | skynet-src/socket_server.c:762-764 | With both lists empty (`send_buffer_empty`) a socket owes only its direct-write remainder, and a socket in use has `wb_size` 0, as step 4 of `send_buffer_` asserts (line 801). A free or reserved slot always has empty lists. |
| Sockets.Socket.NothingOwed | skynet-src/socket_server.c:1001-1005 | When `nomore_sending_data` holds, nothing is owed to the peer and a socket in use has `wb_size` 0. |
| Sockets.Socket.DirectWriteInOrder | skynet-src/socket_server.c:1705-1708 | `can_direct_write` allows a worker to write only when the socket thread would take a send for the id and nothing queued could be overtaken: the backlog is empty, `wb_size` is 0 and no send request counts in `sending`. |
| Sockets.Socket.SendableStates | skynet-src/socket_server.c:910-920 | `send_socket` takes a request for an id exactly on a slot of that id that is Reserve, Connecting, Connected or Bind. |
| Sockets.Socket.SendTarget | skynet-src/socket_server.c:905-961 | A stale id and the Invalid, HalfClose, PAccept, PListen and Listen states drop the payload. TCP queues to the high list for high priority, or when Connected with empty buffers, even for low priority. A UDP payload is dropped or sent at once exactly when Connected with empty buffers and the address mismatches or the `sendto` goes whole. |
| Sockets.Socket.Send | skynet-src/socket_server.c:905-974 | The socket changes as `SentAs` says: the payload is queued where `SendTarget` says, `wb_size` grows by its size, and the warning follows `Watermark`. Nothing else changes. |
| Sockets.Socket.Claim | skynet-src/socket_server.c:330-337 | A free slot becomes Reserve with the id, protocol UNKNOWN, `udpconnecting` 0 and fd -1. |
| Sockets.Socket.Init | skynet-src/socket_server.c:510-523 | The slot gets the id, fd, protocol and owner, `sending` with the id's tag and count 0, read size 64, `wb_size` and `warn_size` 0, empty lists and no direct-write remainder. |
| Sockets.Socket.ForceClose | skynet-src/socket_server.c:440-467 | The result names the socket and its owner. A free slot is left alone; any other slot loses its lists and remainder and becomes free. The lock count is balanced. |
| Sockets.Socket.Append | skynet-src/socket_server.c:854-893 | One untouched buffer is appended to the chosen list and `wb_size` grows by its bytes. The pending stream gets the payload after the chosen list's bytes. |
| Sockets.Socket.SetList | skynet-src/socket_server.c:649-652 | The drained list replaces the list worked on. |
| Sockets.Socket.WriteList | skynet-src/socket_server.c:624-651 | The write loop leaves exactly what `DrainTcp` predicts, and `wb_size` falls by the bytes written. |
| Sockets.Socket.SendListTcp | skynet-src/socket_server.c:622-655 | The list is left as `DrainTcp` predicts. A failed write force-closes with `SOCKET_CLOSE`. |
| Sockets.Socket.SendDatagrams | skynet-src/socket_server.c:691-716 | The sendto loop leaves exactly what `DrainUdp` predicts, and `wb_size` falls by the bytes of every datagram sent or dropped. |
| Sockets.Socket.SendListUdp | skynet-src/socket_server.c:690-720 | The list is left as `DrainUdp` predicts. |
| Sockets.Socket.SendList | skynet-src/socket_server.c:722-729 | The list is left as `Drain` predicts, or the socket closes on a TCP failure. |
| Sockets.Socket.RaiseUncomplete | skynet-src/socket_server.c:744-759 | The low head moves alone into the empty high list, and the pending stream is unchanged. |
| Sockets.Socket.SendBufferInner | skynet-src/socket_server.c:766-820 | The new state is as `FlushedAs` says. The lists are those of `Flush`: the low list is tried only once the high list is empty, and a partly sent low head moves alone to the high list. `wb_size` counts what is left. A failed write closes with `SOCKET_CLOSE`. Once both lists are empty (`wb_size` 0), a half-closed socket closes with `SOCKET_CLOSE`; otherwise a positive `warn_size` is cleared with `SOCKET_WARNING`. |
| Sockets.Socket.FlushedHighFailed | skynet-src/socket_server.c:780-782 | A failed write of the high list is the closing way out of `FlushedAs`. |
| Sockets.Socket.FlushedHigh | skynet-src/socket_server.c:783 | A high list left non-empty, with the low list untouched, is the waiting way out. |
| Sockets.Socket.FlushedLowFailed | skynet-src/socket_server.c:787-789 | A failed write of the low list closes. |
| Sockets.Socket.FlushedLow | skynet-src/socket_server.c:792-797 | A low list left non-empty, with a partly sent head raised to the high list, keeps the socket waiting. |
| Sockets.Socket.FlushedEmpty | skynet-src/socket_server.c:801-816 | With both lists drained, a half-closed socket closes, and any other clears its warning. |
| Sockets.Socket.FlushedBacklog | skynet-src/socket_server.c:766-820 | After `send_buffer_`, the backlog is a suffix of the old high and low streams: nothing was added or reordered, and bytes left only from the front. |
| Sockets.Socket.FlushedReply | skynet-src/socket_server.c:806-815 | A report from `send_buffer_` names the socket and its owner, and is `SOCKET_CLOSE` or `SOCKET_WARNING`. It is `SOCKET_CLOSE` iff the slot became free, iff `FlushCloses` holds: a write failed, or a half-closed socket had both lists drained. |
| Sockets.Socket.FlushedOpen | skynet-src/socket_server.c:1024-1027 | A flush that left the socket open kept its state, and its lists are those of `Flush`. |
| Sockets.Socket.SendLow | skynet-src/socket_server.c:783-798 | With the high list empty, the low list is drained. A TCP failure closes with `SOCKET_CLOSE`. Otherwise a partly sent low head moves alone to the high list, and the rest stays low. |
| Sockets.Socket.AllSent | skynet-src/socket_server.c:799-816 | With both lists empty, a half-closed socket closes with `SOCKET_CLOSE`. Otherwise the state is kept and a positive `warn_size` is cleared with `SOCKET_WARNING`. |
| Sockets.Socket.PrependDirect | skynet-src/socket_server.c:828-846 | A direct-write remainder goes in front of the high list and into `wb_size`, and is cleared. |
| Sockets.Socket.SendLocked | skynet-src/socket_server.c:828-849 | With the lock held, the direct-write remainder goes in front of the high list and the flush follows `FlushedAs`. The backlog keeps only a suffix of the old one, and a close is reported iff the slot became free. |
| Sockets.Socket.SendBuffer | skynet-src/socket_server.c:823-851 | While another thread holds the lock, nothing changes. Otherwise the remainder is queued in front of the high list, and the lists, `wb_size`, `warn_size` and the reply follow `FlushedAs` on those lists. Either way the backlog keeps only a suffix of the old one: nothing is added or reordered, and bytes leave only from the front. A close is reported iff the socket became free. |
| Sockets.Socket.Close | skynet-src/socket_server.c:1021-1037 | The new state is as `ClosedAs` says. A socket with nothing left to send (as `nomore_sending_data` says) closes at once and reports the id and the requester. A shutdown always closes. Otherwise the buffers are flushed first: the socket then closes, or waits half-closed with the lists `Flush` left (unchanged if the lock was contended). Every close leaves the slot free and reports `SOCKET_CLOSE` for the id. The report names the socket's own owner exactly when the uncontended flush itself closed the socket (`FlushCloses`), and the requester otherwise. The backlog keeps only a suffix of the old one; a close drops what is left unsent. The warning threshold is cleared exactly when a flush that leaves the socket open empties both lists. `IdentityKept` holds: the id, owner, protocol, sending count, fd, UDP connect flag, read size and UDP peer do not change. The method may write only the lists, `wb_size`, the type, the remainder and the threshold. |
| Sockets.Socket.FlushFirst | skynet-src/socket_server.c:1021-1028 | On a socket with something left to send and the lock free, the flush is `Flush` of the direct-write remainder in front of the high list, and of the low list. It reports iff `FlushCloses` holds, and then reports `SOCKET_CLOSE` with the socket's owner and leaves the slot free. Otherwise the type is kept, the lists are those `Flush` left, `wb_size` counts them, and a warning is swallowed. The threshold is cleared exactly when an open socket's lists are both empty. The backlog keeps only a suffix of the old one. |
| Sockets.Socket.CloseIdle | skynet-src/socket_server.c:1021-1034 | With nothing left to send the socket closes at once and reports the id and the requester. No OS outcome is used, and `wb_size` and the threshold are kept. |
| Sockets.Socket.CloseContended | skynet-src/socket_server.c:1021-1036 | When a worker holds the lock nothing is written and no OS outcome is used. A shutdown closes the socket and names the requester; otherwise it becomes HalfClose with its lists, remainder, `wb_size` and threshold kept. |
| Sockets.Socket.CloseBusy | skynet-src/socket_server.c:1021-1037 | With the lock free, the flush is `Flush` of the old lists. A close the flush causes names the owner; otherwise a shutdown, or nothing left, closes and names the requester; otherwise the socket waits HalfClose with the lists the flush left. The backlog keeps only a suffix of the old one, and the threshold is as the flush left it. |
| Sockets.Socket.FinishFlushed | skynet-src/socket_server.c:1029-1036 | After a flush that left the socket open, the close or half-close is as `ClosedFlushing` says of the open cases, measured from the state before the flush. |
| Sockets.Socket.Finish | skynet-src/socket_server.c:1029-1036 | A shutdown, or nothing left to send, force-closes and reports the id and the requester. Otherwise the socket becomes HalfClose with its lists kept. |
| Sockets.Socket.Start | skynet-src/socket_server.c:1078-1097 | A socket waiting to be started either closes when it cannot join the event loop, reporting `SOCKET_ERR` under its old owner, or becomes Connected (from PAccept) or Listen (from PListen) under the new owner with "start". A connected socket only changes owner and reports "transfer". Its lists and remainder are kept unless it closes. |
| Sockets.Socket.IncSendingRef | skynet-src/socket_server.c:1200-1220 | Only TCP sockets count. The word changes as `IncSending` says, or the worker must wait. A counted request rules out `nomore_sending_data` and `can_direct_write`. |
| Sockets.Socket.ForwardTcp | skynet-src/socket_server.c:1297-1345 | EINTR or would-block changes nothing. Every path that does not close keeps both lists and the direct-write remainder. An error closes with `SOCKET_ERR`, EOF with `SOCKET_CLOSE`. A half-closed socket discards the data. Otherwise the bytes are reported and the read size adapts as `NextReadSize` says. |
| SocketServer.Probe | skynet-src/socket_server.c:322-326 | The ids `reserve_id` tries stay non-negative C `int`s. |
| SocketServer.ProbeNext | skynet-src/socket_server.c:323-326 | One increment, with the `& 0x7fffffff` after overflow, moves to the next probe. |
| SocketServer.ProbeSlot | skynet-src/socket_server.c:323-327 | The wrap of `alloc_id` does not disturb the slot order. |
| SocketServer.ProbeCovers | skynet-src/socket_server.c:322-343 | `MAX_SOCKET` consecutive probes visit every slot. |
| SocketServer.Server.constructor | skynet-src/socket_server.c:393-400 | Every slot is a distinct, free socket, and `alloc_id` is 0. |
| SocketServer.Server.FindFree | skynet-src/socket_server.c:322-343 | Finds the first probe whose slot is free, or fails only when no slot is free, with `alloc_id` then moved on by `MAX_SOCKET` probes. |
| SocketServer.Server.ReserveId | skynet-src/socket_server.c:319-345 | Returns -1 iff no slot is free. Then no slot changes and `alloc_id` has moved on by `MAX_SOCKET` probes. Otherwise it returns the first free probe, whose slot became Reserve with that id, fd -1 and protocol UNKNOWN; no other slot changes. |
| SocketServer.Server.NewFd | skynet-src/socket_server.c:498-524 | A refused event registration frees the reserved slot, changes no other field and yields null. Otherwise the slot gets its fresh state: id, fd, protocol, owner, a zero count under the id's tag, the minimum read size, no backlog and no warning. `udpconnecting` and the UDP address keep what `reserve_id` and the UDP requests left. |
| SocketServer.Server.SendSocket | skynet-src/socket_server.c:905-974 | The request is handled by the slot of its id, as `SentAs` says. |
| SocketServer.Server.CloseSocket | skynet-src/socket_server.c:1010-1038 | An unknown id is reported closed at once with nothing changed. Otherwise the slot changes as `ClosedAs` says: the flush follows `Flush`, the backlog keeps only a suffix of the old one, and the close names the requester unless the flush itself closed the socket. The warning threshold follows the flush, and the id, owner, protocol, sending count, fd, UDP connect flag, read size and UDP peer are kept. |
| SocketServer.Server.StartSocket | skynet-src/socket_server.c:1064-1099 | An unknown id answers `SOCKET_ERR` "invalid socket". PAccept becomes Connected and PListen becomes Listen under the new owner, with "start"; a failed registration closes with `SOCKET_ERR`. Connected only changes owner, with "transfer". On these paths the id, fd, protocol, sending count, `wb_size`, `warn_size`, read size and UDP state are kept, and so are the lists and the direct remainder unless the socket closed. Any other state is silent and unchanged. |
| SocketServer.Server.DecSendingRef | skynet-src/socket_server.c:1223-1231 | Only the word of a TCP socket owned by the id changes, as `DecSendingGuarded` says. The type, id, protocol, owner, fd, lists, direct remainder, `wb_size`, `warn_size`, read size and UDP state are kept. |
| SocketServer.Server.Connect | skynet-src/socket_server.c:1674-1703 | A host that does not fit the request buffer gives -1 and changes nothing. A host that fits gives -1 iff no slot is free. Any -1 comes without a request. Otherwise the result is a non-negative C `int` whose slot was free and is now Reserve with that id, no other slot changes, and the `'O'` frame reads back whole as that id, port, owner and host. |

## Left out

- `skynet_mq_handle`, `_release` and `skynet_mq_init`'s allocation: memory management has no modelled effect. The global queue's spinlock is a sequential no-op.
- Message queue growth is unbounded. `cap` is an `int` in the source, but its overflow at 2^31 messages is not modelled.
- Timer nodes carry only the `timer_event` (handle and session). The raw argument bytes copied after the node are not modelled separately.
- `timer_execute`'s unlock/relock around `dispatch_list`: without other threads the slot stays empty once detached, so the loop runs at most once.
- Timers.Timer.Timeout: `skynet_context_push` is not modelled. Its refusal is the input `pushRefused`, and the message it would queue is returned.
- `systime`, `gettime`, `skynet_thread_time`, `skynet_starttime` and `skynet_now`: clock reads and getters. Readings are parameters of `Init` and `UpdateTime`.
- Monitors: `skynet_monitor_delete`, `skynet_context_endless` and `skynet_error` are left out. The reported destination is returned instead.
- LuaAlloc: `skynet_lalloc`, the Lua VM and `skynet_error` are left out; the outcome `Forwarded` stands for the call. The warning's float formatting is consistent with the model but not part of it.
- Socket OS plumbing is not modelled: `getaddrinfo`, `socket`, `connect`, `accept`, `bind`, `listen`, `setsockopt`, `getpeername`, `inet_ntop`, `close`, `sp_*`, `has_cmd`, `block_readpipe` and the `socket_server_poll` event loop. Outcomes that matter are inputs: `OsWrite`, `OsRead`, `addFails`.
- `ctrl_cmd`'s dispatch to the handlers of requests `'B'`, `'L'`, `'O'`, `'X'`, `'T'`, `'U'` and `'C'` (`bind_socket`, `listen_socket`, `open_socket`, `setopt_socket`, `add_udp_socket`, `set_udp_address`), and `forward_message_udp`: outside the modelled bookkeeping. Only the framing, the `'O'` body and the UDP address layout they use are modelled.
- The direct write of `socket_server_send` is a worker-thread race. Only the state it leaves is modelled: the `direct` remainder, and `CanDirectWrite` / `IncSendingRef` as the guards.
- `send_object_init`, user objects (`userobject`, `soi` callbacks) and `free_buffer`: payloads are byte sequences and freeing has no modelled effect.
- Socket statistics (`stat_read`, `stat_write`, `struct socket_stat`): counters with no effect on behaviour.
- `p` is a union in the source: `new_fd` writes `p.size = 64` over the first bytes of a UDP socket's `p.udp_address`. The model keeps `readSize` and `udpAddress` as two fields, and the read size matters only for TCP.
- `sp_write` (enabling and disabling write events) has no modelled effect.
- Sockets.SocketLock.TryLock: whether another thread holds the spinlock is the input `contended`. The spinlock itself is not modelled.
- SocketIds.IncSending: the busy wait on a saturated count and the CAS retry are one step that answers "wait". Sockets.Socket.IncSendingRef returns `mustWait` in that case rather than spinning.
- SocketServer.Server.ReserveId: the `ATOM_CAS` retry (`--i`) is only needed when another thread takes the slot between the test and the CAS. Sequentially the CAS always succeeds.
- SocketServer.Server.SendSocket requires that a slot whose id matches is not Reserve, and so does SocketServer.Server.CloseSocket. The pipe delivers a socket's opening request (`'L'`, `'O'`, `'B'`, `'U'`, or an accept) before any request for its id, and every handler of those requests moves the slot out of Reserve.
- MessageQueues.MessageQueue.Push, MessageQueues.MessageQueue.MarkRelease and MessageQueues.MessageQueue.Release require that a queue whose `in_global` flag is clear is not linked in the global queue. The flag protocol spans worker threads: a worker holds the queue it popped until `skynet_context_message_dispatch` pushes it back. It is not modelled as an invariant shared by the two classes.
- WriteBuffers.NextReadSize: `p.size` is a C `int` whose doubling could overflow after 25 doublings. The model uses unbounded integers there.
- `wb_size` and `warn_size` are `int64_t` in the source; the model uses unbounded integers, as no backlog reaches 2^63 bytes.
- `socket_server_create`'s pipe, epoll instance and other fields, and the `socket_server_release` / `free_wb_list` teardown: resource management with no modelled effect.

## Findings

| source | as written | input that shows it | evidently intended | confidence | as-written member | corrected member |
|---|---|---|---|---|---|---|
| skynet-src/socket_server.c:1227-1229 | `dec_sending_ref` asserts a positive count for any TCP socket owned by the id, then decrements | `socket_server_connect` reserves the slot with protocol `PROTOCOL_UNKNOWN` (line 332). A `socket_server_send` for that id then skips `inc_sending_ref` (lines 1201-1202) and queues `'D'`. The `'O'` request runs `new_fd`, which sets a TCP word with count 0 (line 512). The `'D'` handler's `dec_sending_ref` then meets count 0. | a request that was never counted does not decrement, so the tag keeps naming the owner | not executed; follows from the source text | SocketIds.DecSending, SocketIds.UncountedSendFailsAssert | SocketIds.DecSendingGuarded |
