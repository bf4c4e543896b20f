# Go-Back-N and Selective-Repeat over a simulated network — a Dafny model

This project models the core of a small simulation of two sliding-window ARQ
protocols, Go-Back-N and Selective-Repeat, and of the routing layer built on top of
them:

- **Sender** (`sender.dfy`, module `SenderEngine`):
  - The connection handshake.
  - The two send loops. Each is a class whose fields are the loop's variables and
    whose `Step` method runs one iteration of the source's `while True`.
  - What an iteration reads from outside is a parameter: the polled
    acknowledgment, an integer clock `now`, and the outcomes of the biased coin.
  - What it writes to the channel is returned, in order.
- **Receiver** (`receiver.dfy`, module `ReceiverEngine`):
  - The handshake.
  - The Go-Back-N receive loop.
  - The Selective-Repeat receive loop, with its sorted out-of-order buffer and the
    cascade that delivers a run of buffered frames.
  - The drain phase both loops enter once the last frame has been delivered.
- **Node** (`node.dfy`, module `Routing`):
  - The shortest-path search: Dijkstra with a lazy priority queue and a
    predecessor map, then reconstruction of the route.
  - The neighbour-list rules of the hello threads.
  - The rebuild-or-clear of the route table on a topology update.
- **Designated node** (`designated_node.dfy`, module `DesignatedRouting`): the merge
  of a node's neighbour report into the global adjacency lists.
- **Utilities** (`utils.dfy`, module `Utils`): `split_string`, which cuts a text into
  fixed-length slices.
- **Launcher** (`parent_proc.dfy`, module `NetworkSetup`):
  - The ring and star edge lists.
  - The wiring of one pipe per direction for every edge, and for every node's link
    to the designated node.
- **Frames** (`frame.dfy`, module `Frames`): the frame record
  `Frame(data, seq_num, is_last, is_corrupted)` and the `Option`/`Result` wrappers.
  `frame.py` is not part of this model; the record is declared from its uses.

The main invariants proved are these:
- **Sender window.** The window never exceeds `WINDOW_SIZE`. In-flight frame `k`
  carries record `base + k`, has sequence number `base + k`, and is flagged last
  exactly for the final record. The sender waits for the last acknowledgment exactly
  when every record has been admitted.
- **Receiver delivery.** The output is in order with no gaps or duplicates: entry
  `k` is the data of an intact frame numbered `k`. The Selective-Repeat buffer
  stays strictly sorted and lies beyond the expected number. Every intact frame
  received is answered by exactly one acknowledgment.
- **Routes.** On a topology update, every route the node computes for a key of the
  new topology is a simple walk along its listed edges from the node to the
  destination. Such a route is empty exactly when the destination is the node itself
  or cannot be reached. Routes to nodes missing from the new topology are kept as
  they were, as the source does, and need not be walks in it.
- **Topology merge.** The designated node's merge keeps the topology closed (every
  listed neighbour has an entry), which the route search needs. It also keeps a
  symmetric view symmetric.
- **Wiring.** What node i sends to node j is what j receives from i.

## Model

| member | source | states |
|---|---|---|
| SenderEngine.AttemptsBounds | sender.py:21-28 | The handshake sends at most one connect frame per loop iteration; none while the retry interval has not elapsed since the last try; at least one when the first iteration is already past the interval |
| SenderEngine.AttemptsAppend | sender.py:24-28 | One more iteration adds a connect frame exactly when more than the retry interval has passed since the last try |
| SenderEngine.LastTryAppend | sender.py:24-28 | The last-try time moves to the current time exactly when a connect frame goes out, and stays otherwise |
| SenderEngine.WaitForConnection | sender.py:20-35 | The handshake succeeds iff some polled reply carries the connection code (its corruption flag is not checked); it stops at the first such reply; it sends only connect frames, as many as the retry rule gives |
| SenderEngine.WindowAt | sender.py:59-62 | Frame k of a window starting at base carries record base+k, has number base+k, and is flagged last exactly for the final record |
| SenderEngine.WindowDrop | sender.py:150-153 | Deleting d frames at the head leaves a well-formed window starting at base+d |
| SenderEngine.WindowAppend | sender.py:74-76 | Appending the frame for the next record keeps the window well-formed |
| SenderEngine.WindowSame | sender.py:162-163 | Re-rolling corruption flags keeps the window well-formed |
| SenderEngine.RerollAll | sender.py:162-164 | The timeout resend sends every in-flight frame, in order, each with its own fresh corruption outcome; the records carried do not change |
| SenderEngine.SlideTo | sender.py:150-153 | Sliding to a cumulative ack a leaves base == a and exactly the frames numbered a and above |
| SenderEngine.GoBackNSender.constructor | sender.py:110-120 | Starts with an empty window at 0, not waiting, zero resends, timer at the start time; needs at least one record (see "Left out") |
| SenderEngine.GoBackNSender.Admit | sender.py:125-142 | Admits only while last < first + WINDOW_SIZE and not waiting. The frame admitted carries record `last` with number `last` and is_last iff it is the final record. The window invariant is kept |
| SenderEngine.GoBackNSender.TakeAck | sender.py:146-156 | An intact ack a with first < a <= last slides first to a, drops a-first head frames and resets the timer; out-of-range acks change nothing; ends with all-acknowledged iff waiting and nothing in flight |
| SenderEngine.GoBackNSender.CheckTimeout | sender.py:157-172 | Past the timeout it resends the whole window with fresh coins and counts a last-frame resend when waiting with one frame in flight; it stops at the limit before restarting the timer, and restarts it otherwise |
| SenderEngine.GoBackNSender.Step | sender.py:124-172 | One iteration keeps the window invariant and gives the whole new state. It first admits at most one frame. An intact ack a in (first, last] slides first to a, drops the acknowledged head of the window and restarts the timer. Any other intact ack changes nothing more. Without an intact ack, the timeout check resends the whole window re-rolled, counts the resend, and stops at the limit or restarts the timer. It ends all-acknowledged only after an intact ack with an empty window, and at the resend limit only without one |
| SenderEngine.Retransmitted | sender.py:94-97 | A scan over n timer slots resends at most n frames |
| SenderEngine.RetransmittedNone | sender.py:94-95 | When no slot has expired, nothing is resent |
| SenderEngine.ScanTimerList | sender.py:93-107 | The per-frame scan resends each expired frame in order with its coin and restarts its timer; the counter is bumped when waiting with one frame in flight. When the counter reaches the limit at the first expired slot, that frame is resent, its timer is not restarted and the scan stops |
| SenderEngine.SelectiveRepeatSender.constructor | sender.py:43-53 | Starts with an empty window and no timers, not waiting, zero resends; needs at least one record (see "Left out") |
| SenderEngine.SelectiveRepeatSender.Admit | sender.py:58-76 | As Go-Back-N admission, and one timer, started now, is appended per admitted frame |
| SenderEngine.SelectiveRepeatSender.TakeAck | sender.py:78-88 | Any intact ack with first < a <= last advances first by one and deletes only the head frame and its timer, whatever a is; ends iff waiting and nothing in flight |
| SenderEngine.SelectiveRepeatSender.ScanTimers | sender.py:93-107 | The timer scan on the sender's state keeps the window invariant and leaves first, last and the waiting flag alone |
| SenderEngine.SelectiveRepeatSender.AckThenScan | sender.py:78-107 | An intact in-range ack drops the head frame and its timer and advances first by one. Then either the loop ends, because the last record is out and nothing is in flight, or the timer scan runs over what remains with the outcome ScanOutcome states |
| SenderEngine.SelectiveRepeatSender.Step | sender.py:57-107 | One iteration keeps the window and timer invariant and gives the whole new state. It admits at most one frame with a timer started now. An intact in-range ack then drops the head frame and its timer. Either the loop ends with nothing in flight, or ScanOutcome holds over the remaining frames and timers. It never ends at the resend limit, since that `break` leaves only the scan |
| ReceiverEngine.WaitForConnection | receiver.py:30-40 | Connects iff some polled frame carries the connection code; stops at the first one and replies exactly once with the connect frame |
| ReceiverEngine.SawLastAppend | receiver.py:111-112 | The last frame has been delivered from a+b iff it was delivered from a or from b |
| ReceiverEngine.InOrderExtend | receiver.py:114-115 | Delivering intact frames numbered expected, expected+1, ... keeps the output exactly the data of frames 0..expected-1 in order |
| Frames.DataOf | receiver.py:136 | The payloads of a run of frames, one per frame, in order |
| ReceiverEngine.GoBackNReceiver.constructor | receiver.py:190-194 | Starts expecting 0 with empty output, not draining, counters at zero |
| ReceiverEngine.GoBackNReceiver.Step | receiver.py:199-259 | In the drain phase every intact frame is acked with expected, and it ends once more than the timeout has passed since the last frame arrived. Before that, absent or corrupted frames change nothing; an intact frame is delivered iff it is the expected one and is acked with the new expected. The invariant: in-order output, draining iff the last frame was delivered, acks == frames received |
| ReceiverEngine.InsertOrdered | receiver.py:158-169 | Inserting into the strictly sorted buffer keeps it sorted; a number already buffered leaves it unchanged; otherwise the frame is inserted at one position with the rest intact |
| ReceiverEngine.Cascade | receiver.py:128-153 | The cascade takes the buffer's leading run of consecutive numbers next, next+1, ... and leaves a sorted rest that lies entirely beyond the run |
| ReceiverEngine.DeliverRun | receiver.py:107-153 | Delivering the expected frame and the cascaded run keeps the output in order and the rest of the buffer beyond the new expected; the last frame has been seen iff it was seen before or is among these |
| ReceiverEngine.InsertBeyond | receiver.py:155-169 | Buffering an intact frame numbered beyond expected keeps the buffer invariant |
| ReceiverEngine.SelectiveRepeatReceiver.constructor | receiver.py:48-53 | Starts expecting 0 with empty output and buffer, not draining, counters at zero |
| ReceiverEngine.SelectiveRepeatReceiver.DeliverExpected | receiver.py:107-153 | The expected frame is delivered and acked with expected+1, then the buffered run after it is delivered without further acks. Output, buffer and last-frame flag are stated exactly |
| ReceiverEngine.SelectiveRepeatReceiver.Accept | receiver.py:91-180 | Below expected: acked with expected, nothing else changes. At expected: delivered with the cascade. Beyond: buffered at its sorted place (duplicates ignored) and acked with its number + 1 |
| ReceiverEngine.SelectiveRepeatReceiver.Step | receiver.py:58-186 | The same three cases for an intact frame, the drain phase as in Go-Back-N, and absent or corrupted frames ignored. The invariant adds a strictly sorted, intact buffer lying beyond expected |
| ReceiverEngine.OutOfOrderScenario | receiver.py:93-186 | Frames 1, 0, 2 (last) reach a fresh receiver in that order: 1 is buffered with expected 0; 0 releases both, giving output [A, B], expected 2 and an empty buffer; 2 completes [A, B, C] and starts the drain phase |
| Routing.QueuedAppend | node.py:48 | `q.put` keeps every queued node queued and queues the new entry's node |
| Routing.MinIndex | node.py:34 | `q.get` takes an entry that is least in (distance, id) tuple order |
| Routing.Relax | node.py:40-48 | Every unvisited neighbour of the current node is queued; its distance only decreases, and any change makes the current node its predecessor along a listed edge |
| Routing.VisitStep | node.py:33-48 | One iteration of the search keeps the search invariant (predecessors are earlier-visited neighbours, the frontier is queued) and decreases the termination measure |
| Routing.SearchDone | node.py:33-50 | When the search stops, a finish that differs from start and is reachable has a predecessor |
| Routing.VisitedClosed | node.py:39-48 | A visited set whose neighbours are all visited contains the end of every walk that starts in it |
| Routing.Reverse | node.py:59 | `path.reverse()`: entry k is entry len-1-k of the input |
| Routing.ReversedChain | node.py:53-59 | The predecessor chain from finish back to start, reversed, is a simple walk from start to finish |
| Routing.TracePath | node.py:50-60 | Following the predecessors from finish ends at start and yields a simple walk along listed edges from start to finish |
| Routing.ShortestPath | node.py:22-60 | The route is empty iff start == finish or finish is unreachable; otherwise it is a simple walk along listed edges from start to finish |
| Routing.RemoveFirstNoDuplicates | node.py:79 | `list.remove` on a duplicate-free list removes that element altogether and keeps the others |
| Routing.Node.constructor | node.py:12-20 | A new node has empty topology, neighbour list and route table |
| Routing.Node.DiscoverNeighbor | node.py:88-92 | A hello appends the (id, weight) pair unless already listed; the list stays duplicate-free |
| Routing.Node.ExcludeNeighbor | node.py:75-79 | A timed-out neighbour is removed if listed; a duplicate-free list then no longer contains it |
| Routing.Node.ReceiveTopology | node.py:117-129 | The new topology replaces the old. If the node's own entry exists and is non-empty, every other key gets a valid route and older routes to vanished nodes are kept; otherwise the route table is cleared |
| DesignatedRouting.Filter | designated_node.py:28 | The list comprehension keeps exactly the entries whose neighbour is not the sender |
| DesignatedRouting.FilterAppend | designated_node.py:28 | The filter distributes over concatenation, so kept entries keep their relative order |
| DesignatedRouting.FilterOrder | designated_node.py:27-28 | Two kept entries appear after filtering in their original order |
| DesignatedRouting.BacklinksMembers | designated_node.py:34-40 | The links added to node k are exactly (sender, w) for each (k, w) in the update |
| DesignatedRouting.BacklinksNone | designated_node.py:37-38 | A node the update does not name gets no link back |
| DesignatedRouting.DropSender | designated_node.py:27-28 | Every list loses its entries for the sender; the key set is unchanged |
| DesignatedRouting.GrownStep | designated_node.py:37-40 | One update entry (index, w) appends (sender, w) to index's list, or creates it as [(sender, w)] |
| DesignatedRouting.AddBacklinks | designated_node.py:34-40 | The append loop yields every list followed by its back-links, with keys created for new neighbours |
| DesignatedRouting.MergedSplit | designated_node.py:25-40 | Filtering, storing the update as the sender's list, then appending back-links computes the merge |
| DesignatedRouting.DesignatedNode.constructor | designated_node.py:9-12 | The designated node starts with no topology |
| DesignatedRouting.DesignatedNode.ReceiveTopologyUpdate | designated_node.py:25-40 | The sender's list becomes the update (both branches alike). No key is removed; only the sender and named neighbours are added. The update must not name its sender |
| DesignatedRouting.MergedSenderLinks | designated_node.py:27-40 | Seen from any other node k, the merged links to the sender are exactly the update's entries for k: stale links are gone and none is missed |
| DesignatedRouting.MergedOthersKept | designated_node.py:27-28 | Links between two nodes other than the sender are exactly those listed before |
| DesignatedRouting.MergedOrder | designated_node.py:27-28 | Entries kept in a list keep their relative order |
| DesignatedRouting.MergedClosed | designated_node.py:27-40 | If every listed neighbour had an entry before, it has one after the merge |
| DesignatedRouting.MergedSymmetric | designated_node.py:27-40 | A view in which every link is listed from both ends with the same weight stays so |
| Utils.FloorDiv | utils.py:20 | Python's `//` rounds toward negative infinity |
| Utils.SplitString | utils.py:19-22 | count 0 divides by zero. A slice length of 0 fails as a zero range step. A negative slice length yields nothing. 1 <= count <= len gives slices of length len // count >= 1 |
| Utils.ChunksRoundTrip | utils.py:21-22 | Joining the slices gives back the text |
| Utils.ChunksCount | utils.py:21 | There are ceil(len / L) slices |
| Utils.ChunkAt | utils.py:21-22 | Slice k is text[k*L : k*L + L], clipped at the end |
| Utils.ChunkLengths | utils.py:21-22 | Every slice but the last has length L; the last has length 1 to L |
| Utils.SplitStringRoundTrip | utils.py:19-22 | With 1 <= count <= len the split succeeds, round-trips, and has ceil(len / L) slices |
| Utils.SplitStringOvershoots | utils.py:20-21 | 11 characters with count 10 give 11 slices, more than requested |
| NetworkSetup.RingTopology | parent_proc.py:17-31 | n points; edges (i, i+1) for i < n-1, then (n-1, 0), each going to its successor mod n; n = 1 gives the self-loop (0, 0); n = 0 divides by zero; n < 0 gives no points and the edge (n-1, 0) |
| NetworkSetup.RingSuccessor | parent_proc.py:27-29 | Every ring edge goes from a node to its successor modulo n |
| NetworkSetup.StarTopology | parent_proc.py:34-47 | n points with the hub at (0, 0); n-1 edges (0, v) for every other node v; n = 1 divides by zero; n <= 0 gives the hub alone with no edges |
| NetworkSetup.LinkedAppend | parent_proc.py:125-128 | One more edge links exactly its two ordered pairs in addition |
| NetworkSetup.WireEdgePairs | parent_proc.py:125-136 | After wiring an edge, node i has a pipe to j exactly when they are linked |
| NetworkSetup.WireEdgePipes | parent_proc.py:129-136 | Wiring an edge with two distinct pipes keeps what i sends to j equal to what j receives from i |
| NetworkSetup.Wire | parent_proc.py:117-146 | Node i has a pipe towards exactly its linked nodes, and what i sends to j, j receives from i. No node sends and receives on the same pipe, so a self-loop never delivers to itself. Node i's topology pipes are the designated node's i-th receive and send pipes, so sender id i in the merge is node i |

## Left out

- IPC: `ipc_manager.py` and `ipc_manager_pipes.py` are not part of this model. A poll
  is the `Option<Frame>` passed to `Step`; the frames a step writes are its result.
- Time: `time.time()` becomes an integer tick `now`, compared with the source's strict
  `>`. `timers[i] = time.time()` after a resend uses the same `now` as the scan.
- Randomness: `flip_biased_coin` becomes the boolean parameters `admitCorrupt` and
  `coin(k)`.
- Coordinates: the trigonometric coordinates of the ring and star builders are a
  `place` parameter. `random_coordinates`, `get_delta_ms` and `get_time_h_m_s` are
  not modelled, because they involve floats, randomness and formatting.
- Concurrency: threads, events, locks, `run` methods, `send_hello`,
  `send_topology_update`, `send_topology`, process spawning and the `__main__` blocks
  are not modelled. Their bodies are I/O and scheduling around the update rules above.
- `Sender.send` and `Receiver.receive` only dispatch on the protocol; the choice of
  class stands for that dispatch.
- Loop drivers: each engine's `while True` is given as one `Step`, not as the
  unbounded loop.
- Handshakes: the source's handshakes never give up. They are modelled over a finite
  sequence of polls, with `connected` false when the polls run out.
- `transm_global_params.py` is not part of this model. `WINDOW_SIZE`, the timeouts,
  `MAX_LAST_PACKET_SENDING` and `ESTABLISH_CONNECTION_CODE` are parameters.
- Routing.ShortestPath: route optimality, i.e. minimal total weight, is not proved;
  only that the route is a valid simple walk and is present exactly when reachable.
- Routing.ShortestPath: it requires every listed neighbour to be a key (`Closed`), and
  start to be a key unless it equals finish. The start requirement is exactly what the
  source needs. Requiring `Closed` is stronger than the source needs. The source
  raises `KeyError` when the search scans a neighbour that is not a key, or when start
  is not a key and differs from finish. On a topology that is not closed, it still
  returns normally when start equals finish, or when finish is dequeued before such a
  neighbour is scanned. Those runs are not modelled.
- Routing.Node.ReceiveTopology: it requires the same closure of the update, which is
  likewise stronger than what the source needs.
  DesignatedRouting.MergedClosed shows that the merge preserves closure.
- DesignatedRouting.DesignatedNode.ReceiveTopologyUpdate: it requires that the update
  does not name its sender. Otherwise the source appends to the list it is iterating
  and never terminates.
- NetworkSetup.Wire: it requires edge endpoints in [0, count). An endpoint beyond
  count - 1 or below -count makes the source raise `IndexError`. The source also
  accepts a negative endpoint -k with 1 <= k <= count, using Python's negative
  indexing: that wires the table of node count - k while keying the other end's
  table by -k. Negative endpoints are not modelled.
- NetworkSetup.Wire: it uses one count for both sizes the source keeps apart. The
  per-node tables are sized by `len(coordinates)` (parent_proc.py:117); the
  designated-node and node-process loops run over the node count
  (parent_proc.py:138, 154). The two agree for a ring of at least 1 node and a star
  of at least 2. A star with a node count of at most 0 still has the hub coordinate,
  so the source builds node 0's empty neighbour tables but gives it no
  designated-node pipes and starts no node process; Wire with count 1 would wire
  node 0 to the designated node. That case is not modelled. A ring with a negative
  node count has no coordinates and the single edge (n - 1, 0), so the source
  raises `IndexError` as described above.
- SenderEngine.GoBackNSender.constructor: it requires a non-empty record list. With
  an empty list, the source's first loop iteration reads `data_list[0]` and raises
  `IndexError`; that error is not modelled.
- SenderEngine.SelectiveRepeatSender.constructor: it requires a non-empty record list.
  With an empty list, the source's first loop iteration reads `data_list[0]` and
  raises `IndexError`; that error is not modelled.
- End to end: the "no gaps" property, which needs both engines composed over a lossy
  channel, is not stated. What is proved is the receiver's delivery invariant and the
  sender's window invariant.
- Where textbook Go-Back-N / Selective-Repeat and the code differ, the model follows
  the code:
  - There is no connection timeout and no success/failure result.
  - A Selective-Repeat acknowledgment releases the head frame whatever its value.
  - The Selective-Repeat resend limit stops only the timer scan.
  - The Selective-Repeat receiver enters the drain phase only when the last frame is
    delivered, not when it is buffered.
  - The drain deadline counts from the first time the last frame is seen.
