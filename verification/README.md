# ProxySQL: a verified model of its core mechanisms

ProxySQL sits between MySQL clients and servers. This project models, in Dafny, the hand-written
mechanisms between its sockets and its libraries, and proves what they promise:

- **Packet streams** (`Wire`, `Framing`, `PacketStream`, `PtrArrays`): bytes arrive in arbitrary pieces
  in a fixed queue and are cut into packets; packets are flattened back with partial sends.
- **Result-set relay** (`ServerResponse`, `ResultSetRelay`): a response is buffered up to a limit, then
  passed through; its end is detected; the whole of it may go to the cache.
- **Query cache** (`CacheShard`, `QueryCache`, `PurgeSweep`, `ExpiringMap`): a partitioned hash with a side array,
  logical deletion, a chunked purger and byte accounting, as classes that refine an expiring map.
  `CacheProtocol`, `CacheMisses`, `CacheHistory`, `CacheAccounting` and `CacheLimit` treat the same operations as
  atomic steps of any number of threads under per-partition read/write locks.
- **Cache replay** (`CacheReplay`): relay, cache and output stream composed from the server packets to
  the bytes on the client socket.
- **Slab allocator** (`SlabLayout`, `SlabSorting`, `SlabAllocator`, `SlabPool`, `SlabRuns`, `SlabLoss`): size classes,
  intrusive free stacks, aligned blocks, and the compactor with its first-slot/last-slot test.
- **Query digest** (`QueryDigest`, `DigestReference`, `DigestLiterals`, `DigestText`): the five-mode scanner that
  writes and rewinds in an output buffer, and what it amounts to, token by token.
- **Server-removal barrier** (`RemovalBarrier`): the command, wake and acknowledge protocol between the
  admin thread and any number of workers.
- **Admin result sets** (`LengthEncoding`, `AdminResultSet`, `AdminBuilder`): length-encoded values, row
  buffers sized in advance, and the append-then-swap-remove placement of column definitions.
- **Connection pool** (`ConnectionPool`, `ConnectionRuns`, `ConnectionManager`): per-thread pools in front of a
  global one; its operations as functions, their runs, and the class that carries them out in place.

`Sequences` holds what several of them share. `dafny verify dfyconfig.toml` checks everything.

## Where the code does not do what one would expect

The model follows the code. For each of these the exact condition under which the expected property
holds is proved, and that it fails otherwise:

- Compaction rebuilds the free stack with the lowered `free_cnt`, so it loses free slots whenever there is
  a block to release (`SlabAllocator.Compaction.LossIff`, `HighestIsForgotten`, `ForfeitExactly`). Allocations
  and frees alone lead there (`SlabLoss.LossRun`); `SlabRuns.RunAll` bounds the loss over a run.
- The status of an OK packet is read through a plain `char`, so it is misread for 200 affected rows
  (`ServerResponse.OkStatusOffsetIff`, `OkStatusMisread`).
- A result set without column definitions completes at its first EOF (`ResultSetRelay.CompletionIff`,
  `NoColumnsCompletesEarly`); after a response closed by ERR the transaction flag can come from a row
  that looks like an OK packet (`ErrKeepsEofFlagIff`, `RowFlipsTheFlag`).
- A word that begins with a digit and ends the query is judged without its last character, and the character that
  ends such a word is copied whatever it is, a quote included (`DigestReference.Tokens`).
- The digest depends on the class of the character that a string literal leaves behind
  (`DigestLiterals.DigestIgnoresStringsIff`, `WitnessTellsApart`).
- `writeencstrnull` writes no length for strings of 65536 to 16777215 bytes, and copies beyond an `int`
  for longer ones (`LengthEncoding.StringDecodesIff`, `LongStringMisread`).
- The row length is computed from `sqlite3_column_bytes` and the row is written with `strlen`
  (`AdminResultSet.RowLengthIff`, `NulShortensRow`).
- The column definitions are placed at absolute positions, right only if the output array was empty
  (`AdminBuilder.FinalIff`, `FinalLeavesGap`).
- A pool with a NULL schema hides every pool after it and is never found itself
  (`ConnectionPool.UniqueKeysIff`, `ConnectionRuns.NullSchemaRun`); a connection returned to a remembered
  pool of another key is listed there (`ConnectionRuns.RunMatchesIff`, `WrongListRun`); a remembered pool of
  another key yields a connection with the wrong key exactly when it has an unexpired one
  (`ConnectionPool.GetMatches`). The interface allows both runs; the callers in this repository do not produce
  them: `backend_detach` and `backend_reset` forget the remembered pool before a return (src/mysql_backend.c:27 and
  :42), and a session without a schema is given the default one at login (src/mysql_session.c:999). For such
  callers the expected property holds (`ConnectionRuns.ForgetfulRunMatches`, `RunUnique`).
- A get whose key is set again between its lookup and its comparison misses, although the key is there all along
  (`CacheMisses.MissIff`, `SpuriousMiss`).
- A sweep of the purger steps over the entry where each chunk ends and never looks at slot 0
  (`PurgeSweep.Sweep`).
- The memory limit of the cache is exceeded in some run, at rest, as soon as there are two threads
  (`CacheLimit.LimitKeptIff`, `LimitExceeded`, `BoundIsReached`).

The comment on `ProxyIPC` (include/structs.h:505-515) says the admin thread writes to `fdIn` and workers
read `fdOut`; the code does the opposite. The model has one pipe per worker and does not depend on it.
The comment in `mysql_pkt_to_sqlite_exec` calls a column of zero bytes NULL; the code writes NULL and
empty text differently, and so does the model.

## Modelling decisions

- The system supplies: how many bytes each `recv()` and `send()` moves, the block `posix_memalign()` returns,
  the clock, the free memory seen at an admission, whether a new connection succeeds, when a worker's
  sessions have let go of a server, uninitialised memory, and the memory beyond a packet or an `int`.
- Cache entries and connections are ids into a store, so aliasing between tables, arrays and threads is
  explicit; an id is never used again after it is freed.
- A connection keeps the host, user, password, schema and port it was opened with: the proxy never changes
  these fields of its client handle.
- In `CacheProtocol` an update of a table or side array that only the lock holder can see is one step with
  the visible change it goes with: append and replace in a set, free and swap-remove in the purger. The
  lookup, the increment, the copy, the decrement, the purger's expiry, its test of the count, each counter
  update and the free are steps of their own. The purger may visit positions in any order.
- The three byte counters are one integer that may be negative for a moment, which is what the unsigned
  counters amount to when they are added and compared as signed values.
- Within `CompactMem` addresses are assumed to be ordered by `cmpptr` as they are by value.

## Model

| member | source | states |
|---|---|---|
| `CacheReplay.MissThenHit` | src/mysql_session.c:207-289 | a response relayed and stored on a miss, then looked up after any operations that do not store under its key: it is a hit exactly when no truncation came between and the deadline has not passed, and the bytes on the hit's socket equal those on the miss's socket, for every response, buffer size and pattern of partial sends |
| `CacheReplay.RelayResponse` | src/mysql_session.c:293-327 | server packets relayed one by one with any sends in between, none included, put exactly the response on the wire; what is stored is the whole response or nothing; the transaction flag is the one the packets leave |
| `CacheReplay.RelayResultSet` | src/mysql_session.c:300-308 | after a whole result set closed by EOF the session's flag is that of the closing EOF |
| `CacheReplay.SendSome` | src/mysql_data_stream.c:181-200 | any number of sends of any size puts out a prefix of the outstanding bytes and keeps the rest |
| `CacheReplay.RelayOne` | src/mysql_session.c:207-289 | one packet: what is sent and still queued grows by exactly the new client output |
| `CacheReplay.Hit` | src/mysql_session.c:55-75 | a hit sends the cached value once, as one packet; a miss sends nothing; the cache is unchanged |
| `CacheReplay.SendAll` | src/mysql_data_stream.c:181-200 | repeated partial sends put out exactly the outstanding bytes |
| `Framing.Parse` | src/mysql_data_stream.c:68-117 | every byte string splits into well-formed packets and an incomplete tail |
| `Framing.ParseUnique` | src/mysql_data_stream.c:68-117 | that split is the only one the headers allow |
| `Framing.ParseExtend` | src/mysql_data_stream.c:68-117 | parsing a longer stream extends the packets already found |
| `Framing.ParseConcat` | src/mysql_data_stream.c:68-117 | the concatenation of well-formed packets parses back to exactly them |
| `PacketStream.Queue.Zero` | include/proxysql_macros.h:52-56 | queue_zero keeps the pending bytes and moves them to the front |
| `PacketStream.Queue.Advance` | include/proxysql_macros.h:61-67 | queue_r drops exactly the first s pending bytes |
| `PacketStream.Queue.Append` | include/proxysql_macros.h:69-72 | writing at the head appends to the pending bytes |
| `PacketStream.InputStream.Buffer2Array` | src/mysql_data_stream.c:68-117 | one call loses and invents no byte, delivers at most one packet and only a well-formed one, and returns 0 only when nothing more can be cut |
| `PacketStream.InputStream.ReadHeader` | src/mysql_data_stream.c:83-100 | a header in the queue opens a packet of exactly its length, zero payloads included |
| `PacketStream.InputStream.CopyPayload` | src/mysql_data_stream.c:101-108 | payload bytes move from queue to packet in order, until one of them is exhausted |
| `PacketStream.InputStream.Drain` | src/mysql_session.c:421-430 | the cutting loop delivers exactly the packets of the parse and leaves its tail |
| `PacketStream.InputStream.ReadFromNet` | src/mysql_data_stream.c:159-179 | received bytes are appended to the unparsed bytes |
| `PacketStream.InputStream.RoomAfterDrain` | src/mysql_data_stream.c:159-179 | after cutting, a queue of at least four bytes always has room to read |
| `PacketStream.InputStream.ReceiveAll` | src/mysql_data_stream.c:68-117 | whatever pieces recv() returns, the packets and the tail are those of the parse of the whole stream |
| `PacketStream.OutputStream.Array2Buffer` | src/mysql_data_stream.c:119-157 | bytes only move forward in order; 0 is returned only when the queue is full or nothing is left |
| `PacketStream.OutputStream.Fill` | src/mysql_session.c:433-441 | the flattening loop fills the queue or empties the array, and loses nothing |
| `PacketStream.OutputStream.WriteToNet` | src/mysql_data_stream.c:181-200 | the bytes sent followed by those outstanding are the bytes outstanding before |
| `PacketStream.OutputStream.AddPacket` | include/proxysql_macros.h:1-2 | a packet is appended behind all outstanding bytes |
| `PacketStream.Transfer` | src/mysql_data_stream.c:119-200 | sender and receiver joined by a pipe: the receiver ends with the parse of exactly the bytes flattened |
| `PacketStream.TransferPackets` | src/mysql_data_stream.c:119-200 | framing undoes flattening: the same list of well-formed packets arrives, for any buffer sizes and any partial sends and receives |
| `ServerResponse.OkStatusOffsetIff` | src/mysql_protocol.c:48-81 | where the status of an OK packet is read is right exactly when both length-encoded integers have a readable size byte, or the two errors cancel |
| `ServerResponse.OkStatusMisread` | src/mysql_protocol.c:523-533 | 200 affected rows displace the status by eight bytes |
| `ServerResponse.EofStatusIsItsOwn` | src/mysql_protocol.c:83-88 | the transaction flag of an EOF packet is the low bit of its own status, whatever follows it in memory |
| `ServerResponse.ReadSizeIs` | src/mysql_protocol.c:523-533 | through a plain char a size byte reads as 1 or 9, never 3 or 4 |
| `ServerResponse.ClassifyIff` | src/mysql_protocol.c:90-110 | the four kinds of packet by their first payload byte and their length |
| `ServerResponse.OkStatusBit` | src/mysql_protocol.c:48-88 | the transaction flag of an OK packet is the low bit of the byte its two sizes lead to |
| `ServerResponse.OkStatusIsItsOwn` | src/mysql_protocol.c:48-88 | for affected rows and insert id below 128 that is the low bit of its own status |
| `ResultSetRelay.CompletionIff` | src/mysql_session.c:123-205 | for every response well formed by its bytes (OK, ERR of any length, EOF, counts, definitions and rows by their first byte and length) completion is detected at the last packet and never earlier, rows that look like OK packets included; for a result set this holds if and only if it has a column definition |
| `ResultSetRelay.CompletesIff` | src/mysql_session.c:123-205 | for any packets whatever, an open response is completed by a packet if and only if that is an ERR, an OK that comes first, or an EOF not directly behind a count and definitions |
| `ResultSetRelay.ProgressMeans` | src/mysql_session.c:123-205 | what the progress of an open response says about the packets so far |
| `ResultSetRelay.NoColumnsCompletesEarly` | src/mysql_session.c:123-205 | without column definitions the first EOF already completes |
| `ResultSetRelay.ResultSetStaysOpen` | src/mysql_session.c:123-205 | up to its closing packet a result set keeps the machine open |
| `ResultSetRelay.OpenIsTransparent` | src/mysql_session.c:207-222 | while a response is open, client output followed by the buffer is exactly the packets so far, in order and once each |
| `ResultSetRelay.CompletedIsTransparent` | src/mysql_session.c:207-289 | at completion everything is relayed once, the buffer is empty, and what goes to the cache is the concatenation of the whole response |
| `ResultSetRelay.ClosingEofDecides` | src/mysql_session.c:300-308 | after a response closed by EOF the transaction flag is that of the closing EOF, whatever lies behind the packets in memory |
| `ResultSetRelay.ErrKeepsLastLookalike` | src/mysql_session.c:300-308 | after a response closed by ERR the flag is that of the last row that looks like an OK packet, and that of the first EOF only if there is none |
| `ResultSetRelay.ErrKeepsEofFlagIff` | src/mysql_session.c:300-308 | so it is that of the first EOF if and only if no row looks like an OK packet or the last that does reads the same |
| `ResultSetRelay.RowFlipsTheFlag` | src/mysql_session.c:300-308 | a row of three empty texts and the text A turns the flag on although the EOF says no transaction |
| `ResultSetRelay.RowsDecide` | src/mysql_session.c:300-308 | over any rows the flag changes only at those that look like OK packets, and the last of them decides |
| `ResultSetRelay.Session.StartQuery` | src/mysql_session.c:635-636 | a miss resets progress and size and keeps the client output |
| `ResultSetRelay.Session.Advance` | src/mysql_session.c:123-205 | resultset_progress moves as the state machine says |
| `ResultSetRelay.Session.Flush` | src/mysql_session.c:211-222 | over the limit the buffer moves to the client, oldest first |
| `ResultSetRelay.Session.BuildValue` | src/mysql_session.c:255-262 | the value for the cache is the concatenation of the buffered packets, exactly resultset_size bytes |
| `ResultSetRelay.Session.DeliverBuffer` | src/mysql_session.c:271-282 | at completion the buffer is delivered in order and emptied |
| `ResultSetRelay.Session.ServerComQuery` | src/mysql_session.c:123-290 | the imperative relay refines one step of the specification, including the admission test of the cache |
| `ResultSetRelay.Session.RelayPacket` | src/mysql_session.c:293-327 | every packet keeps the session's transparency invariant; the flag follows the packet; at completion the response has been delivered and stored as specified |
| `ResultSetRelay.Session.NoteStatus` | src/mysql_session.c:301-308 | the flag follows every packet that begins like OK or EOF, and no other |
| `CacheShard.Shard.InsertOk` | src/fundadb_hash.c:74-77 | a set keeps hash and side array consistent, the last set of a key wins, and no other key is affected |
| `CacheShard.Shard.DropOk` | src/fundadb_hash.c:111-114 | dropping an entry removes exactly its key from the map |
| `CacheShard.Shard.FreeOk` | src/fundadb_hash.c:187-203 | freeing a dropped entry with the swap-with-last removal does not change the map |
| `CacheShard.Shard.ClearOk` | src/fundadb_hash.c:151-154 | clearing a table forgets every key and marks every entry |
| `CacheShard.BytesInsert` | src/fundadb_hash.c:79-83 | a set adds exactly its key, value and overhead to the bytes of the side array |
| `CacheShard.BytesFree` | src/fundadb_hash.c:190-192 | a free takes exactly the entry's bytes out |
| `QueryCache.VisitOk` | src/fundadb_hash.c:183-203 | one visit of the purger never changes the answer to any later get, keeps the partition consistent, and accounts for what it frees |
| `QueryCache.VisitSurvivors` | src/fundadb_hash.c:183-203 | despite swap-with-last, everything at and above the visited position is then live or referenced |
| `QueryCache.VisitOthers` | src/fundadb_hash.c:183-203 | the visited entry is gone or survives; positions below and all other entries are as they were |
| `QueryCache.SweepStep` | src/fundadb_hash.c:182-204 | one visit carries the invariant of a sweep from position i to i - 1 |
| `QueryCache.PartitionsAgree` | src/fundadb_hash.c:9-13 | fdb_get, which measures its key with strlen(), and fdb_set, which is told the length, choose the same partition for a key without NULs |
| `QueryCache.DeadlineMeans` | src/fundadb_hash.c:62-68 | an entry is served for ttl seconds if ttl is at most the limit, until the time ttl if it is above, and for the default if it is not positive |
| `QueryCache.ChunkSizeMeans` | src/fundadb_hash.c:174-178 | a chunk is len * loop / time entries rounded down if that is at least ten, otherwise all of them |
| `QueryCache.Partition.Get` | src/fundadb_hash.c:14-36 | answers the map's value if unexpired; changes nothing but the access time of the entry served |
| `QueryCache.Partition.Set` | src/fundadb_hash.c:42-86 | the map gains exactly this entry |
| `QueryCache.Partition.Clear` | src/fundadb_hash.c:151-154 | forgets all keys and counts them |
| `QueryCache.Partition.VisitCursor` | src/fundadb_hash.c:183-203 | the loop body does what one visit does and reports the bytes freed |
| `QueryCache.Partition.StartChunk` | src/fundadb_hash.c:171-178 | the cursor starts at the array length and never exceeds it |
| `QueryCache.Partition.SweepDown` | src/fundadb_hash.c:182-204 | every access is in bounds, the cursor ends exactly at min_idx, later answers are unchanged, the bytes freed are accounted for |
| `QueryCache.Partition.PurgeChunk` | src/fundadb_hash.c:171-204 | a chunk ends exactly where it should, every entry in its range is then gone, live or referenced, no referenced entry is freed; the entry at the new cursor, all below it and all outside the range are left as they were; a whole-array chunk leaves at most slot 0 unexamined |
| `QueryCache.BelowVisit` | src/fundadb_hash.c:182-204 | a visit at position i touches no entry but the one there, adds none, and moves none below i |
| `PurgeSweep.Sweep` | src/fundadb_hash.c:162-210 | a sweep of any number of chunks, with gets but no set in between, examines every entry except one for each chunk: those at the positions where a chunk ends, slot 0 among them, are left as they were; the positions are one chunk size apart |
| `PurgeSweep.ChunkSweeps` | src/fundadb_hash.c:171-204 | a chunk extends what its sweep has examined down to its own end, and steps over the position the last one ended at |
| `PurgeSweep.CursorsNext` | src/fundadb_hash.c:180-182 | each chunk but the last ends exactly one chunk size lower |
| `PurgeSweep.NextChunk` | src/fundadb_hash.c:171-204 | one chunk of a sweep, in place |
| `QueryCache.Group.constructor` | src/fundadb_hash.c:118-143 | a new group holds no key |
| `QueryCache.Group.Get` | src/fundadb_hash.c:5-40 | answers what the map says for the key at the present time and changes no key |
| `QueryCache.Group.Set` | src/fundadb_hash.c:42-86 | the key maps to the value, and a get at time t is answered with it exactly within its time to live, stated for the three forms of the argument; no other key is touched |
| `QueryCache.Group.TruncateAll` | src/fundadb_hash.c:146-160 | every key is forgotten and the number of keys returned |
| `QueryCache.Group.PurgeRound` | src/fundadb_hash.c:162-210 | no get at or after the new time can tell that a purge round took place; the bytes of all partitions fall by exactly what it reports freed; and in every partition the cursor has moved and every entry it passed is gone, live or referenced |
| `ExpiringMap.Perform` | src/fundadb_hash.c:5-210 | each operation of the cache refines one step of an expiring map, and a get returns what the map says |
| `ExpiringMap.EmptyAgrees` | src/fundadb_hash.c:118-143 | a new cache agrees with the empty map |
| `ExpiringMap.PerformAll` | src/fundadb_hash.c:5-210 | so does every sequence of operations with a clock that does not go back: every get along it answers as the map does |
| `ExpiringMap.EntryKept` | src/fundadb_hash.c:42-86 | sets of other keys, gets and purge rounds leave an entry of the map alone; a truncation removes it |
| `ExpiringMap.ServedUntil` | src/fundadb_hash.c:42-86 | a value that is neither set again nor truncated is served for exactly its time to live, in seconds, as a point in time, or by default |
| `ExpiringMap.SetThenGet` | src/fundadb_hash.c:5-86 | fdb_set followed by fdb_get at a later time hits if and only if that time is within the time to live |
| `CacheProtocol.SafeStep` | src/fundadb_hash.c:5-210 | every step of every thread keeps write locks exclusive, reference counts equal to the number of holders, and every entry a thread refers to allocated and unchanged in key and value |
| `CacheProtocol.RunSafe` | src/fundadb_hash.c:5-210 | so in every state of every interleaving |
| `CacheProtocol.HeldNotFreed` | src/fundadb_hash.c:14-36 | no entry is freed between a getter's increment and decrement, whichever thread steps |
| `CacheProtocol.NothingDangles` | src/fundadb_hash.c:171-205 | no freed entry is reachable from a hash table or a side array |
| `CacheProtocol.HitWasCurrent` | src/fundadb_hash.c:14-36 | every hit returns the value the table held for that key at this get's lookup step |
| `CacheHistory.HitWasSet` | src/fundadb_hash.c:5-86 | every hit, in every run, returns the value of an entry of that key that some thread was admitted with and inserted before this get's lookup; no later event up to the comparison sets the key or truncates its partition; the entry's own deadline is ahead |
| `CacheHistory.OutcomeIs` | src/fundadb_hash.c:5-86 | the outcome of every get that found an entry, by the events alone: the value of the set that stood at its lookup, unless that has expired by the comparison or was replaced in between |
| `CacheHistory.LookupIs` | src/fundadb_hash.c:14-17 | a lookup finds the value and the deadline of the last set of the key since its partition was truncated; if it finds nothing there is none or it has expired |
| `CacheHistory.TableIs` | src/fundadb_hash.c:5-210 | in every state of every run the table says of every key what the sets and truncations so far have left of it |
| `CacheHistory.HeldStep` | src/fundadb_hash.c:5-210 | a step changes what the table says of a key only if it inserts that key, clears its partition or drops it expired |
| `CacheHistory.AdmittedIs` | src/fundadb_hash.c:70-77 | a thread inserts the entry it was last admitted with |
| `CacheHistory.StandingAt` | src/fundadb_hash.c:70-77 | what stands for a key was inserted by one event, and nothing has replaced it since |
| `CacheHistory.TruncatesAllAtOnce` | src/fundadb_hash.c:146-160 | when a truncation has cleared the last table and unlocked none, every table is empty at the same time |
| `CacheMisses.MissIff` | src/fundadb_hash.c:14-36 | in every run, a get that found an entry misses if and only if that entry has expired by the comparison, or the key was set again or its partition truncated since the lookup |
| `CacheMisses.AbsentIff` | src/fundadb_hash.c:14-17 | a get goes back empty from its lookup if and only if the table has no such key at that step |
| `CacheMisses.SpuriousMiss` | src/fundadb_hash.c:14-36 | for any two entries of one key, a run of three threads in which a get misses although the table maps the key to an unexpired value in every state from the lookup on |
| `CacheMisses.DeadlineStep` | src/fundadb_hash.c:5-210 | a step drops an entry that outlives it exactly when it sets the key again or clears the partition, or when it expires it; otherwise the deadline stays |
| `CacheMisses.FateRuns` | src/fundadb_hash.c:5-210 | from the lookup on, an entry a get refers to keeps its deadline until one of these happens |
| `CacheProtocol.LocksKept` | src/fundadb_hash.c:14-17 | a write lock on a partition excludes every other lock on it |
| `CacheProtocol.ReferenceSafe` | src/fundadb_hash.c:14-17 | a reference taken under the read lock cannot race with the purger's decision |
| `CacheProtocol.ReleaseSafe` | src/fundadb_hash.c:36-36 | a release cannot touch an entry the purger has chosen |
| `CacheProtocol.InsertSafe` | src/fundadb_hash.c:74-77 | inserting under the write lock leaves held entries alone |
| `CacheProtocol.ClearSafe` | src/fundadb_hash.c:146-160 | clearing under all write locks leaves held entries alone |
| `CacheProtocol.ExpireSafe` | src/fundadb_hash.c:183-186 | dropping an expired entry leaves held entries allocated |
| `CacheProtocol.ReclaimSafe` | src/fundadb_hash.c:187-203 | a freed entry is held by nobody |
| `CacheProtocol.CanStep` | src/fundadb_hash.c:5-210 | a thread that waits for no lock can always go on: every entry its next step touches exists |
| `CacheProtocol.NoDeadlock` | src/fundadb_hash.c:146-160 | if some thread is busy, some busy thread can step, truncations that take all locks included |
| `CacheAccounting.AccountedStep` | src/fundadb_hash.c:79-83 | every step keeps the counters, corrected for updates under way, equal to the bytes of the side arrays |
| `CacheAccounting.BoundedStep` | src/mysql_session.c:243-265 | every step keeps counters plus bytes in flight within the bound |
| `CacheAccounting.AdmitBound` | src/fundadb_hash.c:212-218 | an admission keeps the bound although the check and the update are not atomic |
| `CacheAccounting.RunAccounted` | src/fundadb_hash.c:190-192 | in every state of every interleaving of T threads: corrected counters equal the side arrays' bytes, and counters plus bytes in flight are at most max_memory_size + (T-1) times the largest entry |
| `CacheAccounting.QuiescentExact` | src/fundadb_hash.c:212-218 | when all threads are idle the counters are exact and within the bound |
| `CacheLimit.LimitKeptIff` | src/fundadb_hash.c:212-218 | the memory limit is kept in every run of T threads if and only if T is 1 or not even the smallest entry fits |
| `CacheLimit.LimitExceeded` | src/mysql_session.c:243-265 | with two threads or more, and any entry that fits, some run ends with every thread idle and more than the limit in the arrays and the counters |
| `CacheLimit.BoundIsReached` | src/fundadb_hash.c:212-218 | for every T and every limit of whole entries, some run ends at rest with exactly max_memory_size + (T-1) times the largest entry in the arrays and the counters |
| `CacheLimit.CompleteOne` | src/fundadb_hash.c:70-83 | an admitted set goes on to its end while no thread holds a lock, and adds exactly its bytes to the counters |
| `SlabLayout.SelectClass` | src/l_utils.c:181-186 | the search loop of alloc and free finds the smallest class that fits |
| `SlabLayout.WindowIsWholeBlock` | src/l_utils.c:240-255 | pigeonhole: if the sorted free list has a block's first slot at i and its last slot at i + slots - 1, all slots of the block are there |
| `SlabLayout.SlotsApart` | src/l_utils.c:162-169 | two slots of one size never overlap |
| `SlabSorting.Qsort` | src/l_utils.c:239-239 | the buffer is sorted and a permutation of itself |
| `SlabSorting.RetainBlocks` | src/l_utils.c:257-277 | exactly blocks minus released block addresses are kept, in order |
| `SlabAllocator.ZeroWindow` | src/l_utils.c:252-252 | the window of a released block is zeroed and nothing else |
| `SlabAllocator.ReleaseWholeBlocks` | src/l_utils.c:240-255 | the scan finds blocks only at hits and zeroes exactly their windows |
| `SlabAllocator.HitIsTheBlock` | src/l_utils.c:240-255 | a hit's window holds the slots of that block and no other position does |
| `SlabAllocator.Compaction.Soundness` | src/l_utils.c:231-287 | every slot of a released block was free, and every slot pushed back was free and lies in a kept block |
| `SlabAllocator.Compaction.HighestIsForgotten` | src/l_utils.c:277-284 | whenever a block is released, the highest free slot of a kept block is lost |
| `SlabAllocator.Compaction.LossIff` | src/l_utils.c:277-284 | compaction keeps every free slot of the kept blocks if and only if no block is wholly free with a free slot above it |
| `SlabAllocator.Compaction.ForfeitExactly` | src/l_utils.c:277-284 | with R blocks released, exactly those of the R times slots-per-block highest free slots are lost that lie in kept blocks |
| `SlabLoss.LossRun` | src/l_utils.c:290-318 | for every class and any 17 blocks, a run of allocations and frees alone reaches a compaction that releases the lowest block; one slot is then neither on the stack nor handed out, and the stack is empty |
| `SlabLoss.BeforeLoss` | src/l_utils.c:172-318 | such a run gets as far as the free that is due for compaction without losing a slot |
| `SlabLoss.Cycle` | src/l_utils.c:290-318 | taking and giving back one slot leaves the stack as it was and lets free_cnt and the number of frees grow |
| `SlabAllocator.Compaction.ReleasedIff` | src/l_utils.c:240-255 | a block is released if and only if all its slots are free and some free slot lies above it |
| `SlabAllocator.Compaction.LostAreHighest` | src/l_utils.c:277-284 | what compaction loses lies above every slot it keeps, at most one block's worth per released block |
| `SlabAllocator.SizeClass.Push` | include/lutils.h:60-64 | push puts the slot on top of the linked stack |
| `SlabAllocator.SizeClass.Pop` | include/lutils.h:66-71 | pop takes the top, or 0 from an empty stack |
| `SlabAllocator.SizeClass.PushBlock` | src/l_utils.c:162-169 | all slots of a new block, and only those, join the stack |
| `SlabAllocator.SizeClass.AddBlock` | src/l_utils.c:125-133 | a block is recorded, its slots become free and the counters match |
| `SlabAllocator.SizeClass.Alloc` | src/l_utils.c:172-201 | a slot that was not live becomes live; a block is added only when the stack is empty; nothing is lost |
| `SlabAllocator.SizeClass.OverwriteLive` | include/lutils.h:60-71 | users may write anything into live slots without breaking the free stack |
| `SlabAllocator.SizeClass.CopyToSortBuffer` | src/l_utils.c:222-229 | the buffer holds the stack followed by NULLs |
| `SlabAllocator.SizeClass.SortStack` | src/l_utils.c:25-34 | the stack is rebuilt from the non-NULL entries within the count, highest on top |
| `SlabAllocator.SizeClass.CompactMem` | src/l_utils.c:231-287 | live slots are untouched; a block is released if and only if it is wholly free and below some free slot; the stack is sorted, has no duplicates and lies in kept blocks; the counters follow; all free slots survive if and only if there was no such block, and exactly the highest ones in kept blocks are lost |
| `SlabAllocator.SizeClass.FreeSlot` | src/l_utils.c:290-318 | a freed slot stops being live; every free slot of the kept blocks stays available if and only if no compaction is due or no block is wholly free below a free slot; otherwise exactly such blocks are released and exactly the highest free slots are lost |
| `SlabPool.Pool.Alloc` | src/l_utils.c:172-201 | a chunk of the smallest fitting class, live before in no class; larger requests go to the system |
| `SlabPool.Pool.Free` | src/l_utils.c:290-318 | the same class is found again and exactly that chunk stops being live |
| `SlabPool.Pool.LiveChunksDisjoint` | src/l_utils.c:172-318 | live chunks never overlap, whatever classes they come from |
| `SlabRuns.RunAll` | src/l_utils.c:172-318 | every sequence of allocations and matching frees is carried out up to the first operation the system could not produce; after each the chunks in use are exactly the live slots, no two overlap, the stack is at most free_cnt and alloc_cnt is blocks times slots; each adds or removes exactly its chunk, and the sizes in use are those the operations say; in every class the slots lost since the start are at most a block's worth for each block given back, and none before 262144 frees |
| `SlabRuns.BoundedFree` | src/l_utils.c:306-312 | a free keeps the bound on lost slots: only one that is due for a compaction can lose any |
| `SlabRuns.BoundedAlloc` | src/l_utils.c:187-197 | an allocation keeps the bound: it adds at most one block and loses nothing |
| `SlabRuns.SnapshotIsSound` | src/l_utils.c:172-318 | a consistent pool has disjoint chunks of the sizes asked for and right counters |
| `SlabRuns.HeldApart` | src/l_utils.c:172-318 | chunks in use are as large as asked for and pairwise disjoint |
| `PtrArrays.NearPow2` | src/l_utils.c:18-22 | the smallest power of two that is at least n |
| `PtrArrays.PtrArray.Expand` | src/l_utils.c:56-67 | room for the new elements, contents unchanged |
| `PtrArrays.PtrArray.Add` | src/l_utils.c:85-90 | appends |
| `PtrArrays.PtrArray.RemoveIndex` | src/l_utils.c:92-102 | removes one element and keeps the order of the others |
| `PtrArrays.PtrArray.RemoveIndexFast` | src/l_utils.c:104-110 | the last element takes the place of the removed one |
| `PtrArrays.RemoveFast` | src/l_utils.c:112-122 | removes exactly one occurrence if there is one, and says whether there was |
| `PtrArrays.QueueBack` | src/mysql_session.c:12-25 | the packet becomes first again and the others keep their order |
| `QueryDigest.Digest` | src/tokenizer.c:127-310 | the buffer scanner terminates, stays in bounds, writes at most as many characters as it reads, ends with NUL, and computes the scan over values |
| `DigestReference.DigestTokens` | src/tokenizer.c:127-310 | for every query the buffer holds what a reading of it token by token, without modes and rewinding, gives: comments gone, strings and numbers a question mark, runs of spaces one space, all else copied |
| `DigestReference.ScanIsTokens` | src/tokenizer.c:131-305 | the same from any point in plain mode, for every rest of a query |
| `DigestReference.BlockScan` | src/tokenizer.c:202-215 | a block comment is passed over to its first closer; without one it is copied |
| `DigestReference.LineScan` | src/tokenizer.c:202-215 | a line comment is passed over to its line end; without one it is copied |
| `DigestReference.StringScan` | src/tokenizer.c:218-259 | a string is passed over to the quote that ends it, or to the end of the query |
| `DigestReference.WordScan` | src/tokenizer.c:261-304 | a word that begins with a digit is judged when it ends, and the character that ends it is copied |
| `QueryDigest.DigestLength` | src/tokenizer.c:131-305 | the output is never longer than the input |
| `QueryDigest.StepKeepsOk` | src/tokenizer.c:143-304 | every iteration consumes a character or leaves the plain mode, and never rewinds before the buffer start |
| `QueryDigest.ScanStep` | src/tokenizer.c:143-304 | one iteration at a time gives the whole scan |
| `QueryDigest.IsDigitString` | src/tokenizer.c:52-93 | decides whether a stretch of the buffer is a decimal or hexadecimal number |
| `QueryDigest.Buffer.NextChar` | src/tokenizer.c:143-304 | one iteration on the buffer does what one step of the scan does |
| `DigestLiterals.LiteralBecomesQuestion` | src/tokenizer.c:261-304 | a decimal or hexadecimal literal after a token character and before one becomes a question mark, whatever its digits |
| `DigestLiterals.DigestIgnoresNumbers` | src/tokenizer.c:143-304 | replacing a decimal or hexadecimal literal by any other leaves the digest of the whole query unchanged |
| `DigestLiterals.StringBecomesQuestion` | src/tokenizer.c:218-259 | a quoted string, with whatever escapes and doubled quotes, becomes a question mark; what is left behind as previous character is what its body leaves |
| `DigestLiterals.EscapeLeavesX` | src/tokenizer.c:232-246 | a body that ends in an escaped quote or backslash or a doubled quote leaves X behind |
| `DigestLiterals.PlainBody` | src/tokenizer.c:218-259 | a body without quotes and backslashes leaves its last character behind |
| `DigestLiterals.StringAtEnd` | src/tokenizer.c:223-230 | at the end of the query every string becomes the same question mark |
| `DigestLiterals.DigestIgnoresStringsIff` | src/tokenizer.c:218-304 | two strings are interchangeable before every continuation if and only if the characters their bodies leave behind are of one class |
| `DigestLiterals.WitnessTellsApart` | src/tokenizer.c:143-304 | for characters of different classes left behind, some continuation gives different digests |
| `DigestLiterals.CommentIsCut` | src/tokenizer.c:148-216 | a block comment disappears from the digest, its opener included |
| `DigestLiterals.LineCommentIsCut` | src/tokenizer.c:202-215 | a line comment disappears from the digest, up to and including its line end |
| `DigestText.TextDigest` | src/tokenizer.c:183-305 | a query without quotes, '#', comment openers and numbers comes out as itself, with each run of spaces reduced to one |
| `DigestText.TextGoesFirst` | src/tokenizer.c:183-305 | so does such a text in front of anything |
| `DigestText.LineCommentInText` | src/tokenizer.c:148-305 | text, line comment, text: the two texts |
| `DigestText.BlockCommentInText` | src/tokenizer.c:148-305 | text, block comment, text: the two texts |
| `DigestText.NumberInText` | src/tokenizer.c:148-305 | text, number, text: the texts with a question mark between them |
| `DigestText.StringInText` | src/tokenizer.c:148-305 | text, string, text: the texts with a question mark between them |
| `RemovalBarrier.StepOk` | src/admin.c:290-326 | every step of the admin thread and of each worker keeps the protocol invariant, for any number of workers |
| `RemovalBarrier.PopNeverBlocks` | src/main.c:170-184 | a woken worker finds exactly this round's command in its queue |
| `RemovalBarrier.AllAcked` | src/admin.c:309-316 | as many acks as workers, from different workers, are acks from all of them |
| `RemovalBarrier.ReturnsAfterAll` | src/admin.c:309-325 | the call returns only when every worker has acknowledged this round once, nothing is left behind, and the result is the sum of the warnings in those acks |
| `RemovalBarrier.SentIsReported` | src/main.c:187-221 | the acks sent are the reports of the workers, each with its worker and its number of warnings, in order |
| `RemovalBarrier.EveryAckInItsRound` | src/main.c:187-221 | over any number of rounds, the acks ever sent are those counted round by round and those of the round under way: none lost, doubled or counted later |
| `RemovalBarrier.NoDeadlock` | src/admin.c:290-326 | while a round is under way some thread can step |
| `RemovalBarrier.StepsRunOut` | src/admin.c:290-326 | every step but a new call brings the round nearer to its end |
| `LengthEncoding.WriteEncInt` | src/mysql_protocol.c:535-560 | the encoding is written at the offset and nothing else changes |
| `LengthEncoding.IntRoundTrip` | src/mysql_protocol.c:507-560 | reading a written integer gives it back with its size, whatever follows |
| `LengthEncoding.IntForms` | src/mysql_protocol.c:507-560 | the bytes at the borders of the four forms |
| `LengthEncoding.WriteEncStrNull` | src/mysql_protocol.c:563-595 | what the buffer holds afterwards, including the length bytes that are not written |
| `LengthEncoding.StringDecodesIff` | src/mysql_protocol.c:563-595 | a written string reads back if and only if its length was written: always below 65536 bytes, beyond that only if memory happened to hold the right bytes |
| `LengthEncoding.LongStringMisread` | src/mysql_protocol.c:582-585 | a string of 65536 bytes written over zeroed memory does not read back |
| `LengthEncoding.CopyForward` | include/proxysql_macros.h:20-32 | copies the bytes to the offset and nothing else changes |
| `AdminResultSet.RowLengthIff` | src/admin_sqlite.c:212-223 | the precomputed row length always suffices and is what is written if and only if no text has a NUL inside |
| `AdminResultSet.NulShortensRow` | src/admin_sqlite.c:212-223 | the text A, NUL, B reserves four bytes and writes two |
| `AdminResultSet.BuildRow` | src/admin_sqlite.c:207-244 | the packet's header announces the reserved length and the payload starts with the encoded cells |
| `AdminResultSet.RowDecodesIff` | src/admin_sqlite.c:236-240 | a row reads back as the texts written if and only if every length was written |
| `AdminResultSet.RowRoundTrip` | src/admin_sqlite.c:207-244 | rows of texts below 65536 bytes without NULs come back unchanged, NULL and empty text told apart, and fill their packet |
| `AdminBuilder.ColumnCount` | src/mysql_protocol.c:627-639 | header and encoded count |
| `AdminBuilder.Eof` | src/mysql_protocol.c:683-698 | header, marker, warnings and status |
| `AdminBuilder.ColumnDef` | src/mysql_protocol.c:641-680 | the precomputed length is exactly what is written: catalogue, five names, fixed part |
| `AdminBuilder.DefinitionRoundTrip` | src/mysql_protocol.c:641-680 | names below 65536 bytes read back |
| `AdminBuilder.DefinitionFields` | src/mysql_protocol.c:641-680 | a client finds the five names in order and each fixed field at its offset |
| `AdminBuilder.FramedIff` | include/structs.h:101-103 | the 24-bit length is right if and only if the payload is below 16 MiB; the id is taken modulo 256 |
| `AdminBuilder.PlaceDefinitions` | src/admin_sqlite.c:247-255 | append and swap-remove put the definitions at positions 1 to columns |
| `AdminBuilder.Build` | src/admin_sqlite.c:186-261 | what the output array holds at the end, for any contents before |
| `AdminBuilder.FinalIff` | src/admin_sqlite.c:186-261 | the response follows what was there, in order, if and only if the array was empty |
| `AdminBuilder.FinalLeavesGap` | src/admin_sqlite.c:193-198 | otherwise an empty space is left among the packets |
| `AdminBuilder.ResultIsResponse` | src/admin_sqlite.c:186-261 | the packets form a well-formed COM_QUERY response and the packet at index k carries id k + 1 modulo 256 |
| `AdminBuilder.ResultReadsBack` | src/admin_sqlite.c:186-261 | a client reads back the number of columns, their names and every row, NULL and empty text told apart, for texts below 65536 bytes without NULs |
| `ConnectionPool.FindPool` | src/mysql_connpool.c:140-162 | the search loop computes the specified search |
| `ConnectionPool.FindIff` | src/mysql_connpool.c:140-162 | a pool is found if and only if it has the key and no NULL schema and no equal key comes before it |
| `ConnectionPool.UniqueKeysIff` | src/mysql_connpool.c:180-186 | keys stay unique if and only if the key is new or its pool can be found |
| `ConnectionPool.NamedKeysStayUnique` | src/mysql_connpool.c:180-186 | a list of named pools stays named and unique when a named key is looked up or added |
| `ConnectionPool.NullSchemaDuplicates` | src/mysql_connpool.c:140-162 | two requests without a schema make two pools with one key |
| `ConnectionPool.InOnePlace` | src/mysql_connpool.c:198-311 | a connection in a free list is in no other list, once in this one, and with no session |
| `ConnectionPool.SweepFinds` | src/mysql_connpool.c:219-239 | the removal loop finds a connection if and only if the list has an unexpired one, and closes only expired ones |
| `ConnectionPool.SweepTakes` | src/mysql_connpool.c:219-239 | it takes the first connection if that is unexpired, otherwise the last unexpired one, and closes exactly the first and those behind the one it takes |
| `ConnectionPool.SweepConserves` | src/mysql_connpool.c:219-239 | the removal loop keeps every connection in exactly one place |
| `ConnectionPool.GetOk` | src/mysql_connpool.c:198-260 | in every consistent state, whatever the lists hold: a connection of the thread's list comes back if that has an unexpired one, otherwise one of the global list if that has, and a new one if and only if neither has and the server accepts; it was with no session and is unexpired; only expired ones are closed; pools are only added |
| `ConnectionPool.GetMatches` | src/mysql_connpool.c:198-260 | if the lists match their pools they still do, and the connection has the requested key if and only if the remembered pool matches or has no unexpired connection |
| `ConnectionPool.ConnectOk` | src/mysql_connpool.c:21-51 | a new connection is open and with one session |
| `ConnectionPool.DetachOk` | src/mysql_connpool.c:262-311 | the connection is closed or put into one free list of its thread, in every consistent state, whatever pool is remembered |
| `ConnectionPool.DetachPlaces` | src/mysql_connpool.c:285-309 | a connection that is kept goes to the end of the list of the remembered pool, of the pool found for its key, or of a new pool of its key; no other list changes |
| `ConnectionPool.ReturnedIsReused` | src/mysql_connpool.c:198-311 | after a return, a request of the same thread and key before the deadline gets a connection that was open, and none is opened |
| `ConnectionPool.MarkedIsClosed` | src/mysql_connpool.c:262-276 | a connection with a prepared statement is closed when it is returned |
| `ConnectionPool.DetachMatchesIff` | src/mysql_connpool.c:262-311 | the lists still match their pools if and only if it was closed, no pool was remembered, or that pool has its key |
| `ConnectionRuns.RunConserves` | src/mysql_connpool.c:198-311 | over every sequence of requests, returns and prepared statements, a connection is exactly one of: with a session, once in one free list, closed |
| `ConnectionRuns.RunKeepsPools` | src/mysql_connpool.c:198-311 | a remembered pool stays a pool with the same key for the rest of the run |
| `ConnectionRuns.RunMatchesIff` | src/mysql_connpool.c:262-311 | the free lists hold only connections of their pool's key along a run if and only if every return so far closed its connection, remembered no pool, or one of its key |
| `ConnectionRuns.RunGetsTheKey` | src/mysql_connpool.c:198-260 | in such a run a request gets the key it asked for if and only if its remembered pool matches or has no unexpired connection |
| `ConnectionRuns.WrongListRun` | src/mysql_connpool.c:262-311 | a run at one constant time in which a connection ends up in the list of another key |
| `ConnectionRuns.ForgetfulRunMatches` | src/mysql_backend.c:26-58 | if no return names a remembered pool, as the backend sees to, every free list matches its key in every state, and a request that names none gets the key it asked for |
| `ConnectionRuns.RunUnique` | src/mysql_connpool.c:140-186 | if every request names a schema, no two pools of a scope ever have one key |
| `ConnectionRuns.NullSchemaRun` | src/mysql_connpool.c:140-186 | a run of two requests without a schema after which a thread has two pools of one key |
| `ConnectionManager.Manager.constructor` | src/mysql_connpool.c:126-137 | no connection, every scope empty |
| `ConnectionManager.Manager.TakeFree` | src/mysql_connpool.c:219-239 | the loop on the arrays does what the specified sweep does |
| `ConnectionManager.Manager.Locate` | src/mysql_connpool.c:180-186 | find or create in place |
| `ConnectionManager.Manager.GetFrom` | src/mysql_connpool.c:198-246 | one scope of a request does what the specification says |
| `ConnectionManager.Manager.Get` | src/mysql_connpool.c:198-260 | a whole request does what the specification says and keeps the state consistent |
| `ConnectionManager.Manager.Detach` | src/mysql_connpool.c:262-311 | a return does what the specification says and keeps the state consistent |
| `ConnectionManager.Manager.Close` | src/mysql_connpool.c:15-18 | the connection is gone from the open ones and from its session |
| `ConnectionManager.Manager.MarkNotReusable` | src/mysql_session.c:794-797 | a prepared statement makes the connection not reusable and changes nothing else |

## Left out

- Sockets, poll, accept, signals, the angel process: only their effect on queues and message counts is modelled.
- Authentication, scrambles, checksums: a cache key is an opaque byte string.
- Query rules, hostgroups, server lists, reconnection: the time to live and the backend are inputs.
- SQLite and the admin commands: the rows of a query are an input sequence.
- Query statistics, debug output and configuration parsing: counters and text only.
- `fdb_del` and the UDF stubs: they use another table.
- Multi-result-set responses, rows over 16 MB, client pipelining: outside what the relay's state can track; one command is outstanding at a time.
- The threshold below which a purge round is skipped: such a round only moves the clock, as `PurgeOp` does in the map.
- CacheProtocol.HitWasCurrent: the read of the clock, the comparison with the deadline and the copy are one step; the value of an entry never changes once set.
- CacheMisses.MissIff: the same; a drop between the read of the clock and the comparison counts as before both.
- CacheProtocol.RunSafe: torn reads of a deadline are not modelled; a deadline is read and written as a whole.
- CacheAccounting.RunAccounted: the three counters are read in one step at an admission.
- SlabAllocator.SizeClass.CompactMem: `free_cnt` and the products with the block size are unbounded integers; the C code uses `int`, which limits it to fewer than 8192 released blocks.
- PurgeSweep.Sweep: no set, truncation or other thread's reference comes between the chunks of a sweep.
- SlabSorting.Qsort: `cmpptr` truncates a difference of addresses to `int`; the model sorts by address.
- SlabRuns.RunAll: stops at the first operation the system could not produce, such as a block that is already in use.
- PtrArrays.NearPow2: sizes are unbounded; the C loop does not end above 2^31.
- PtrArrays.PtrArray.Add: the storage comes from Dafny's `new`, not from the slab allocator.
- PacketStream.Queue.Zero: the overlapping `memcpy` is taken to be overlap-safe.
- PacketStream.Transfer: packets are not empty, which holds for anything with a header.
- LengthEncoding.WriteEncStrNull: string lengths fit an `int`.
- ConnectionManager.Manager.Get: the phases on the thread's pool, on the global pool and the new connection are one call; each keeps the invariant on its own, and other threads touch only the global pool, under its lock.
- RemovalBarrier.StepOk: an iteration of a worker that finds its sessions busy before the deadline changes nothing and is no step.
