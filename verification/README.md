# kvbench, verified

kvbench is a benchmark harness for key/value stores. This project models, in Dafny 4.11, the parts of it
whose correctness is hardest to see by reading: the three in-memory hash engines, the lock-free read path
of the third, the multiplexed pipe to the Rust helper, the latency histogram, the deterministic workload
and the harness loops around them.

* **Hash engines.** `faster`, `swiss` and `f2` are open-addressing tables with tombstones, tombstone reuse
  and growth. `Probing.dfy` states probe runs once, over cells that are empty, tombstones or hold a key and
  a value, for an arbitrary hash function. Each engine is a class over its own arrays, log or arena; its
  methods are proved against a plain map (`Store.dfy`).
* **Lock-free reads.** `F2Protocol.dfy` lets any number of readers interleave with a shard's writer, one
  atomic load or store per step, and proves each Get linearizable and wait-free, also when it finishes on a
  table that has been replaced, and every published record immutable for the rest of the run. `PutIsSteps`
  and `DeleteIsSteps` show that the contracts of the in-place `PutLocked` and `DeleteLocked` are exactly
  sequences of those writer steps. `F2System.dfy` runs all 256 shards together and states linearizability
  for the one map they stand for.
* **Pipe protocol.** `Wire.dfy` and `Payloads.dfy` hold both ends of every byte format. `Mux.dfy` is the Go
  client against arbitrary incoming frames; `EndToEnd.dfy` adds the two pipes as byte streams that the two
  readers parse, the request queue, eight workers and the store. `Delivery.dfy` proves that no call is lost
  and that calls return, `Session.dfy` what callers see: one map.
* **Histogram.** `Histogram.dfy`: bucket arithmetic, the histogram as a summary of a multiset of samples,
  rank selection and merging.
* **Workload and harness.** `Workload.dfy`, `Driver.dfy`, `ScanHandoff.dfy`.

Conventions. A 64-bit word is a number with its wrap-around written out; `Bits.dfy` defines the bitwise
operators on such numbers and proves which arithmetic the code's masks, shifts and packings amount to. `h &
mask` is `h % len`: every table length is kept a power of two, and `Bits.MaskIsMod` says that the two are then
equal. The load tests against 0.7 and 0.75 are integer comparisons; 0.7 times a power of two is never an
integer, so for any length below 2^50 the comparison has the same outcome as the one on doubles. Go's atomic
loads and stores are sequentially consistent, as its memory model says, so the protocol interleaves them as
single steps. An allocation of more than 2^48 bytes panics, as it does in Go on 64-bit platforms with 48-bit
heap addresses. A value an operation copies is a value here.

Where the code and its comments disagree the model follows the code:

* `hdr` promises about 1% precision (hdr/hdr.go:12, 25-26). Buckets have it, with bound 1/64. The value
  reported for a bucket does not: for a sample from 128 up to 2^63 it is the bucket's low end plus twice the
  sample's magnitude, so it always exceeds the sample. `RepresentativeIff` says exactly when the reported
  value is in the sample's bucket and when it is at most the sample; `ValueOrderIff` says exactly when two
  reported values keep the order of their samples; `AtMostMaxIff` says exactly when no percentile exceeds the
  maximum; `Misreports` gives concrete inputs.
* `f2` announces an atomic batch (adapters/inmem/inmem.go:695) but locks once per operation; only the
  per-operation result is claimed. `faster` and `swiss` hold one lock over the batch.
* The recency distribution is described as favouring recently inserted keys (workload/workload.go:177), but
  the insert head it measures from never moves, so it is the key count of the load.
* The tag of an `f2` word is described as disjoint from the index bits (adapters/inmem/inmem.go:686-687).
  That holds exactly for indexes of up to 2^24 slots (`HashBitsIff`).
* `call` cuts the payload length to 32 bits (adapters/rustkv/rustkv_subprocess.go:186), and `write_response`
  the body length (rust/src/main.rs:186). `RequestReadBackIff` and `ResponseReadBackIff` say that a frame
  survives exactly when its body is under 2^32 bytes; `OversizeBreaks` is a run that goes wrong without it;
  the guarantees over runs are stated for bodies within the limit.

## Model

| member | source | states |
|---|---|---|
| Records.UvarintRoundTrip | adapters/inmem/inmem.go:196-219 | the varint written for a length is read back as that length and its own width, whatever follows it |
| Records.UvarintByte | adapters/inmem/inmem.go:196-206 | byte i of a varint carries bits 7i to 7i+6 of the length, and every byte but the last has its high bit set |
| Records.UvarintLen | adapters/inmem/inmem.go:879-886 | the shift loop counts exactly the bytes the encoder writes |
| Records.RecordSize | adapters/inmem/inmem.go:875-877 | the computed size is the length of the encoded record |
| Records.RecordRoundTrip | adapters/inmem/inmem.go:863-873 | a record reads back as its key and value at any offset in any buffer |
| Records.RecordStable | adapters/inmem/inmem.go:860-862 | a record keeps its bytes and its reading under any change at or above its limit, so later appends never disturb a published record |
| Bits.MaskIsMod | adapters/inmem/inmem.go:707-707 | masking with a power of two less one is the remainder by it |
| Bits.OrBelow | adapters/inmem/inmem.go:750-750 | a field or-ed in below a shifted one keeps its low bits; if it fits below the shift, or is addition |
| Store.Untouched | adapters/inmem/inmem.go:342-352 | a key no operation of a batch names keeps its old state |
| Store.LastWriteWins | adapters/inmem/inmem.go:342-352 | the last operation of a batch that names a key decides whether it is present and with which value |
| Probing.CountBounds | adapters/inmem/inmem.go:156-157 | live <= used <= length, an empty slot exists if and only if used < length, and live equals used when there is no tombstone |
| Probing.LoadTest | adapters/inmem/inmem.go:222-222 | the integer load check is the comparison with 0.7 of the length |
| Probing.FullsIsSize | adapters/inmem/inmem.go:156-156 | the number of full slots is the size of the map |
| Probing.ClearStep | adapters/inmem/inmem.go:286-298 | a probe that has met neither the key nor a gap has an empty slot still ahead, so it never runs a whole lap |
| Probing.Miss | adapters/inmem/inmem.go:147-151 | a probe that ends at an empty slot proves the key is in no slot of the table |
| Probing.Insert | adapters/inmem/inmem.go:231-242 | filling a tombstone or an empty slot on the key's walk keeps every probe run gap-free, keeps keys unique and adds exactly that key |
| Probing.Fill | adapters/inmem/inmem.go:228-255 | storing at the put target, new key or old, updates one key of the map and moves both counters exactly |
| Probing.TargetUnique | adapters/inmem/inmem.go:227-255 | the key's own slot, or else the first slot of its walk that holds nothing, is one definite slot |
| Probing.Remove | adapters/inmem/inmem.go:147-151 | turning a full slot into a tombstone removes its key and cuts no other key's probe run |
| FasterEngine.AppendKeepsCells | adapters/inmem/inmem.go:137-141 | appending to the log changes what no index slot stands for |
| FasterEngine.PutAt | adapters/inmem/inmem.go:228-255 | appending a record and pointing the target slot at it keeps the index invariant and sets one key |
| FasterEngine.Bury | adapters/inmem/inmem.go:319-324 | the tombstone a delete leaves removes one key from the map and one from live, none from used |
| FasterEngine.LogForever | adapters/inmem/inmem.go:137-141 | every record of the log reads back the same key and value after any further operations: overwrites, deletes and growth strand records but never change one |
| FasterEngine.SlotForever | adapters/inmem/inmem.go:278-299 | in particular the record behind a full slot, which Get returns as a view |
| FasterEngine.Faster.constructor | adapters/inmem/inmem.go:176-181 | the new engine is valid and empty, with 1024 slots and an empty log |
| FasterEngine.Faster.Probes | adapters/inmem/inmem.go:222-224 | in every valid state the load limit leaves an empty slot, so every probe ends |
| FasterEngine.Faster.LiveIsSize | adapters/inmem/inmem.go:156-156 | live is the number of keys in the map |
| FasterEngine.Faster.Get | adapters/inmem/inmem.go:278-299 | returns the map's value for the key, or none exactly when the key is absent |
| FasterEngine.Faster.PutLocked | adapters/inmem/inmem.go:221-256 | sets one key of the map, extends the log by exactly that record, doubles the index exactly when the load check says so |
| FasterEngine.Faster.Place | adapters/inmem/inmem.go:232-251 | changes the one cell at the put target to the key and value |
| FasterEngine.Faster.PutSlot | adapters/inmem/inmem.go:225-256 | the probe ends, at the key's slot or else at the first tombstone or empty slot of the walk |
| FasterEngine.Faster.AppendRecord | adapters/inmem/inmem.go:196-206 | extends the log by the record and returns the old length as its offset |
| FasterEngine.Faster.Grow | adapters/inmem/inmem.go:258-276 | doubles the index, keeps the map and the log, drops every tombstone, makes used equal live and leaves room for the pending put |
| FasterEngine.Faster.Refile | adapters/inmem/inmem.go:267-274 | a copied slot lands on its own probe run and adds its key |
| FasterEngine.Faster.DeleteLocked | adapters/inmem/inmem.go:308-327 | removes one key from the map and keeps the index invariant |
| FasterEngine.Faster.ApplyBatch | adapters/inmem/inmem.go:342-352 | a batch is the in-order fold of its operations, and extends the log by exactly the records of its puts |
| SwissEngine.StoreAt | adapters/inmem/inmem.go:403-421 | writing a full slot at the put target keeps the table invariant and sets one key |
| SwissEngine.Erase | adapters/inmem/inmem.go:479-483 | clearing a slot to a tombstone removes one key and keeps the table invariant |
| SwissEngine.Swiss.constructor | adapters/inmem/inmem.go:378-378 | the new engine is valid and empty, with 1024 slots |
| SwissEngine.Swiss.Probes | adapters/inmem/inmem.go:394-396 | in every valid state the load limit leaves an empty slot, so every probe ends |
| SwissEngine.Swiss.LiveIsSize | adapters/inmem/inmem.go:365-365 | live is the number of keys in the map |
| SwissEngine.Swiss.LoadTest | adapters/inmem/inmem.go:394-394 | the integer load check is the comparison with 0.75 of the length |
| SwissEngine.Swiss.Get | adapters/inmem/inmem.go:446-462 | returns the map's value for the key, or none exactly when the key is absent |
| SwissEngine.Swiss.PutLocked | adapters/inmem/inmem.go:393-424 | sets one key of the map and doubles the table exactly when the load check says so |
| SwissEngine.Swiss.Place | adapters/inmem/inmem.go:402-421 | changes the one cell at the put target to the key and value |
| SwissEngine.Swiss.PutSlot | adapters/inmem/inmem.go:397-424 | the probe ends, at the key's slot or else at the first tombstone or empty slot of the walk |
| SwissEngine.Swiss.Grow | adapters/inmem/inmem.go:426-444 | doubles the table, keeps the map, drops every tombstone, makes used equal live |
| SwissEngine.Swiss.Refile | adapters/inmem/inmem.go:435-442 | a copied slot lands on its own probe run and adds its key |
| SwissEngine.Swiss.DeleteLocked | adapters/inmem/inmem.go:471-485 | removes one key from the map and keeps the table invariant |
| SwissEngine.Swiss.ApplyBatch | adapters/inmem/inmem.go:500-510 | a batch is the in-order fold of its operations |
| F2Table.WordBits | adapters/inmem/inmem.go:658-665 | the code's own expressions, with shift, or and masks, are the packing, the offset field, the tag test and the tag of a hash that the model computes with |
| F2Table.OffsetSurvivesIff | adapters/inmem/inmem.go:750-750 | the offset is read back from the packed word if and only if it fits 48 bits |
| F2Table.PackRoundTrip | adapters/inmem/inmem.go:750-751 | a packed word is an entry and gives back its tag and its offset |
| F2Table.SameBelowTail | adapters/inmem/inmem.go:860-862 | changing bytes at or above the tail changes what no index word stands for |
| F2Table.AppendSound | adapters/inmem/inmem.go:748-749 | appending a record keeps the table's map and invariant and puts the record past every live one |
| F2Table.InstallSound | adapters/inmem/inmem.go:753-775 | the one slot store of a put sets one key, moves both counters exactly and keeps live records disjoint |
| F2Table.BurySound | adapters/inmem/inmem.go:786-790 | the one slot store of a delete removes one key and keeps the invariant |
| F2Table.PutKeepsValid | adapters/inmem/inmem.go:745-775 | append then store sets one key and leaves the table valid, because the load check left a slot to spare |
| F2Table.LiveIsSize | adapters/inmem/inmem.go:654-654 | live is the size of the shard's map |
| F2Table.TabProbes | adapters/inmem/inmem.go:745-747 | an empty slot always remains, so every probe of a valid table ends |
| F2Table.CoveredSize | adapters/inmem/inmem.go:806-813 | the live records of any prefix of slots cover exactly as many arena bytes as their sizes add up to |
| F2Table.LiveBytesFit | adapters/inmem/inmem.go:800-813 | all live records together fit below the old tail, so replaying them never overruns the new arena |
| F2Table.ReplayReady | adapters/inmem/inmem.go:806-815 | before each replayed record there is room for it, its key is new to the new table and a slot is free |
| F2Table.ReplayStep | adapters/inmem/inmem.go:810-822 | replaying one slot extends the new table by exactly that slot's record |
| F2Table.ReplayDone | adapters/inmem/inmem.go:824-825 | the published table has the old map, no tombstone, used equal to live, and room for the pending put |
| F2Engine.PutUvarintAt | adapters/inmem/inmem.go:853-855 | writes exactly the varint's bytes into the arena and nothing else |
| F2Engine.F2Tab.AppendRecord | adapters/inmem/inmem.go:851-858 | writes exactly the record's bytes at the offset, returns their number, and leaves every other byte |
| F2Engine.F2Tab.Lookup | adapters/inmem/inmem.go:707-719 | the tag-first probe ends and returns the table's value for the key, or none exactly when absent |
| F2Engine.F2Shard.constructor | adapters/inmem/inmem.go:670-672 | the new shard is valid and empty, with 512 slots and an arena of 64 KiB |
| F2Engine.F2Shard.IndexSize | adapters/inmem/inmem.go:801-804 | the doubling loop ends at the least doubling of the old length that the live keys and one more do not overload |
| F2Engine.F2Shard.Grow | adapters/inmem/inmem.go:800-826 | publishes a fresh table that is the old one compacted, with room for the pending put, and leaves the old one untouched; fails exactly when a buffer is too large to allocate, and then changes nothing |
| F2Engine.F2Shard.Replay | adapters/inmem/inmem.go:806-823 | the loop over the old index ends with the new table holding exactly the live records, in arena order, and no tombstone |
| F2Engine.F2Shard.Refile | adapters/inmem/inmem.go:812-822 | appends one live record to the new table and stores it on its own probe run |
| F2Engine.F2Shard.PutLocked | adapters/inmem/inmem.go:742-776 | grows exactly when the arena or the index is full, then appends, then stores one slot; sets one key; a replaced table keeps its value; fails exactly when it must grow and an allocation is too large, and then changes nothing |
| F2Engine.F2Shard.Put | adapters/inmem/inmem.go:721-728 | sets one key of the shard's map, or fails and changes nothing |
| F2Engine.F2Shard.Place | adapters/inmem/inmem.go:748-774 | the table afterwards is the append and the store at the put target, and nothing more |
| F2Engine.F2Shard.PutSlot | adapters/inmem/inmem.go:752-775 | the probe ends at the put target |
| F2Engine.F2Shard.DeleteLocked | adapters/inmem/inmem.go:778-794 | stores one tombstone over the key's slot, or changes nothing when the key is absent |
| F2Engine.HashBitsIff | adapters/inmem/inmem.go:681-688 | every combination of shard, tag and home slot occurs if and only if the index has at most 2^24 slots |
| F2Engine.ShardBits | adapters/inmem/inmem.go:684-684 | the code's shift and mask pick the shard the model computes |
| F2Engine.UnionPut | adapters/inmem/inmem.go:684-684 | a put in the key's own shard is a put in the one map the 256 shards stand for, and every key stays in its shard |
| F2Engine.UnionDelete | adapters/inmem/inmem.go:684-684 | likewise for a delete |
| F2Engine.F2.constructor | adapters/inmem/inmem.go:667-675 | the new engine is valid and empty |
| F2Engine.F2.Get | adapters/inmem/inmem.go:703-719 | returns the one map's value for the key, or none exactly when absent |
| F2Engine.F2.Put | adapters/inmem/inmem.go:721-728 | sets one key of the one map, touches only the key's shard, and fails exactly when that shard cannot make room, changing nothing |
| F2Engine.F2.Delete | adapters/inmem/inmem.go:730-737 | removes one key of the one map and touches only the key's shard |
| F2Engine.F2.ApplyBatch | adapters/inmem/inmem.go:834-846 | without other clients, a batch is the in-order fold of its operations on the one map, stopping only at a put whose shard cannot make room |
| F2Protocol.EmptyEndsWalk | adapters/inmem/inmem.go:708-711 | an empty word n steps into a walk means the key is not further along in that table |
| F2Protocol.SlotWasTrue | adapters/inmem/inmem.go:646-648 | a full slot of any published table, current or not, holds a value its key had at the table's last moment |
| F2Protocol.LoadKeeps | adapters/inmem/inmem.go:708-712 | one atomic word load keeps the reader's invariant in each of its three outcomes |
| F2Protocol.RecordKeeps | adapters/inmem/inmem.go:713-717 | reading the record behind a loaded word, any number of writer steps later, keeps it too |
| F2Protocol.ReaderStable | adapters/inmem/inmem.go:636-656 | no writer step breaks the invariant of any reader |
| F2Protocol.WriterKeeps | adapters/inmem/inmem.go:742-826 | every writer step keeps all tables valid and in agreement with the history of maps |
| F2Protocol.InvNext | adapters/inmem/inmem.go:703-826 | every step of readers and writer keeps the invariant |
| F2Protocol.Linearizable | adapters/inmem/inmem.go:703-719 | in every interleaving, when a Get of a key that began at step a returns at step b, its answer is what the shard's map said of that key at a moment between the two: its value then, or absence |
| F2Protocol.GetTracked | adapters/inmem/inmem.go:703-719 | in every interleaving the reader keeps looking for the key it was called with, on the table current when it began, and its counts are those of its steps |
| F2Protocol.MapIsOps | adapters/inmem/inmem.go:742-794 | in every interleaving the newest map is all writes that have taken effect, in the order in which they took the lock |
| F2Protocol.GetSeesWrites | adapters/inmem/inmem.go:703-719 | in the run's own terms: a Get answers what the writes that had taken effect in some state between its first and its last step make of its key |
| F2Protocol.WaitFree | adapters/inmem/inmem.go:707-719 | in every interleaving a Get takes at most as many loads as the table current at its first step has slots, and no more record reads than loads |
| F2Protocol.ReaderCanStep | adapters/inmem/inmem.go:707-719 | in every interleaving the next step of an unfinished Get is possible: its load is in range and its record read stays inside the arena |
| F2Protocol.Frozen | adapters/inmem/inmem.go:646-648 | in every interleaving a replaced table is never written again |
| F2Protocol.RecordForever | adapters/inmem/inmem.go:860-862 | in every interleaving a record below the tail of any table, current or replaced, keeps its bytes and its reading for the rest of the run |
| F2Protocol.PublishedForever | adapters/inmem/inmem.go:713-716 | in every interleaving the record behind any word ever published reads back the same key and value in every later state, so the view a Get returns never changes |
| F2Protocol.PutIsSteps | adapters/inmem/inmem.go:742-776 | what PutLocked's contract says of the tables before, between and after is a sequence of the protocol's writer steps |
| F2Protocol.DeleteIsSteps | adapters/inmem/inmem.go:778-794 | what DeleteLocked's contract says of the table is a sequence of the protocol's writer steps |
| F2System.ShardRuns | adapters/inmem/inmem.go:677-684 | in every interleaving of all shards each shard by itself runs the shard protocol |
| F2System.AtHome | adapters/inmem/inmem.go:681-684 | in every interleaving of all shards each key is in its own shard only |
| F2System.EngineLinearizable | adapters/inmem/inmem.go:703-719 | in every interleaving of all 256 shards a Get answers what the one map said of its key in some state between its first and its last step |
| F2System.EngineWrites | adapters/inmem/inmem.go:721-737 | in every interleaving of all shards a step changes the one map only by letting the write that holds its shard's lock take effect, whole |
| Wire.LERoundTrip | rust/src/main.rs:174-180 | a number survives w little-endian bytes if and only if it is below 256^w |
| Wire.LEByte | adapters/rustkv/rustkv_subprocess.go:185-186 | byte i of a field is the number shifted right by i bytes: least significant first |
| Wire.FrameLayout | adapters/rustkv/rustkv_subprocess.go:131-143 | where code, id, length and body are in a request and in a response |
| Wire.ReadFrames | rust/src/main.rs:88-105 | the reader loop returns exactly the whole frames of the stream, in order, and stops at the first short read |
| Wire.ParseAppend | adapters/rustkv/rustkv_subprocess.go:133-147 | bytes that arrive behind whole frames are parsed as if they had come alone |
| Wire.WholeOrCut | adapters/rustkv/rustkv_subprocess.go:188-194 | a whole frame is parsed back and leaves nothing behind; a frame cut short yields no frame |
| Wire.StreamRoundTrip | adapters/rustkv/rustkv_subprocess.go:183-194 | a concatenation of frames, cut anywhere inside one more, parses back to exactly the whole frames, in both directions |
| Wire.FrameSurvivesIff | adapters/rustkv/rustkv_subprocess.go:186-186 | a frame written behind whole frames is read back behind them if and only if its body is under 2^32 bytes, in both directions |
| Wire.FieldAt | rust/src/main.rs:174-180 | a length-prefixed field is read back wherever it sits |
| Payloads.Batch.Put | adapters/rustkv/rustkv_subprocess.go:288-298 | appends the encoding of one put and counts it |
| Payloads.Batch.Delete | adapters/rustkv/rustkv_subprocess.go:299-306 | appends the encoding of one delete and counts it |
| Payloads.Batch.Commit | adapters/rustkv/rustkv_subprocess.go:308-314 | sends the batch payload of the operations so far and empties the batch |
| Payloads.DecodeBatch | rust/src/main.rs:149-166 | the helper's decoding loop returns the operations of the payload, or fails where a slice would be out of range |
| Payloads.OpRoundTrip | rust/src/main.rs:154-165 | one encoded operation is read back wherever it sits |
| Payloads.BatchRoundTrip | adapters/rustkv/rustkv_subprocess.go:287-311 | any mix of puts and deletes decodes to the same list in the same order |
| Payloads.EncodeRows | rust/src/main.rs:136-143 | the helper's scan loop writes the rows' encoding |
| Payloads.Iter.Next | adapters/rustkv/rustkv_subprocess.go:331-350 | on any body, yields the next row of the body or reports the end, and stays in range |
| Payloads.Drain | adapters/rustkv/rustkv_subprocess.go:324-350 | iterating any body gives exactly its rows in order |
| Payloads.RowsRoundTrip | adapters/rustkv/rustkv_subprocess.go:324-350 | the rows of a scan body are the helper's rows, all of them, in order |
| Payloads.RequestsMean | rust/src/main.rs:112-172 | each payload the client builds makes the helper do to the store, and answer, what the client's call means: put, get, delete, scan and flush, whatever bytes follow |
| Payloads.BatchMeans | rust/src/main.rs:149-169 | a committed batch is applied to the store as the list of its operations |
| Payloads.OnlyWritesChange | rust/src/main.rs:112-172 | for every payload, only a put, a delete or a batch changes the store, and an unknown operation is answered with status 255 |
| Payloads.RequestIsOperation | adapters/rustkv/rustkv_subprocess.go:206-264 | client method, encoding, helper, response and decoding together are the operation on the map: its effect and what the method returns |
| Mux.Client.Register | adapters/rustkv/rustkv_subprocess.go:171-181 | refuses after a read error, else hands out the next id with a fresh waiting channel |
| Mux.Client.Claim | adapters/rustkv/rustkv_subprocess.go:148-151 | returns and forgets whoever waits for the id |
| Mux.Client.FailAll | adapters/rustkv/rustkv_subprocess.go:158-166 | closes every waiting channel once, forgets them all, and touches no other channel |
| Mux.InvNext | adapters/rustkv/rustkv_subprocess.go:130-204 | every step of callers and reader keeps the client's invariant, whatever frames arrive |
| Mux.ReaderNeverBlocks | adapters/rustkv/rustkv_subprocess.go:148-166 | in every reachable state the reader's send finds an open channel with a free slot, no channel is closed twice, and waiting ids have distinct channels |
| Mux.NoneStranded | adapters/rustkv/rustkv_subprocess.go:170-204 | in every reachable state a blocked caller waits with a live reader, is about to be answered, or can return; with the reader gone it can return |
| Mux.DeadStaysEmpty | adapters/rustkv/rustkv_subprocess.go:158-176 | once a read error is recorded the wait map is empty and stays so |
| Mux.AnswersMatchIds | adapters/rustkv/rustkv_subprocess.go:177-203 | a caller is answered only by a frame with its own id, and no two callers share an id |
| Mux.ErrorMeansReaderGone | adapters/rustkv/rustkv_subprocess.go:195-204 | in every run a call whose request was written returns an error only if the reader has failed; while the reader lives it waits or holds an answer |
| Mux.AnswersWereRead | adapters/rustkv/rustkv_subprocess.go:130-156 | in every run every answer is a frame that was read off the pipe, unchanged |
| EndToEnd.SysInvMove | rust/src/main.rs:62-110 | every move of callers, byte pipes, queue and workers, with bodies under 2^32 bytes, keeps the system invariant, also when a write fails part-way |
| EndToEnd.AppliedOnceInOrder | rust/src/main.rs:74-105 | in every run with bodies under 2^32 bytes each request is applied at most once, and the store is the applications replayed in order |
| EndToEnd.AnswerIsOwn | adapters/rustkv/rustkv_subprocess.go:170-204 | in every such run an answered call holds the result of its own operation on the store it was applied to |
| EndToEnd.WrittenCallIsAnswered | adapters/rustkv/rustkv_subprocess.go:195-204 | in every such run a call whose request was written and which has returned, the reader being alive, holds the result of its own operation |
| EndToEnd.RealTimeOrder | adapters/rustkv/rustkv_subprocess.go:170-204 | in every such run, if call a had its answer before call b was issued, a was applied before b |
| EndToEnd.RequestReadBackIff | adapters/rustkv/rustkv_subprocess.go:183-194 | a request written in step is what the helper will read if and only if its payload is under 2^32 bytes |
| EndToEnd.ResponseReadBackIff | rust/src/main.rs:182-191 | a response written in step is what the client will read if and only if its body is under 2^32 bytes |
| EndToEnd.HugeGetSplits | adapters/rustkv/rustkv_subprocess.go:183-194 | the bytes of a Get whose key is 2^32 zero bytes are read as a Get of the empty key and then as another request under the same id |
| EndToEnd.OversizeBreaks | adapters/rustkv/rustkv_subprocess.go:183-194 | a run with that one call applies two requests under its id, so the limit is needed |
| Delivery.CompleteMove | rust/src/main.rs:62-110 | no move loses a request or a response: each is where its stage says |
| Delivery.NothingLost | adapters/rustkv/rustkv_subprocess.go:170-204 | in every run within the frame limit a blocked caller's call is on a pipe, in the queue, at a worker, with the reader, or its channel has a value or is closed |
| Delivery.BlockedCanMove | rust/src/main.rs:62-110 | while a caller is blocked, and neither the response pipe nor a worker has failed, a move of the calls already made is possible |
| Delivery.WorkShrinks | rust/src/main.rs:62-110 | every move but a new call uses up work |
| Delivery.CallsReturn | adapters/rustkv/rustkv_subprocess.go:170-204 | in every run within the frame limit the moves after calls stop being made number at most the work outstanding then, so every written call returns |
| Session.CallIsOperation | adapters/rustkv/rustkv_subprocess.go:206-264 | a returned call took effect at exactly one point of the log, as its operation on the map found there, and its caller got what that map says |
| Session.ReadsOwnWrites | adapters/rustkv/rustkv_subprocess.go:206-236 | a Get issued after a Put of the key had returned finds the value put, unless an application in between changed the key |
| Buckets.LeadingZeros | hdr/hdr.go:49-58 | the bit loop returns 63 minus the floor of the base-2 logarithm, and 64 for zero |
| Buckets.ComputeIndex | hdr/hdr.go:39-47 | the index computed with the bit loop is the mathematical bucket index, with no underflow of the shift |
| Buckets.IndexBounds | hdr/hdr.go:39-47 | the index of every 64-bit value is in bounds, and no value of at least 128 has an index below 960 |
| Buckets.IndexMonotone | hdr/hdr.go:39-47 | a larger sample never has a smaller index |
| Buckets.BucketWidth | hdr/hdr.go:14-18 | two samples of at least 128 in one bucket differ by less than a sixty-fourth of either; below 128 they are equal |
| Buckets.ValueAtLaw | hdr/hdr.go:91-100 | the exact value reported for a sample's bucket, over all 64-bit samples |
| Buckets.RepresentativeIff | hdr/hdr.go:91-100 | the reported value is in the sample's bucket, and is at most the sample, if and only if the sample is below 128 or at least 2^63 |
| Buckets.ValueOrderIff | hdr/hdr.go:91-100 | two reported values keep the order of their samples if and only if the samples do not straddle 2^63 too closely |
| Buckets.Misreports | hdr/hdr.go:91-100 | concrete samples: 128 is reported as 384, and 2^63 - 1 is reported above 2^63 |
| Hdr.CountPermuted | hdr/hdr.go:61-75 | what the histogram counts depends on the multiset of samples only |
| Hdr.RankInSorted | hdr/hdr.go:107-110 | the rank-th smallest sample is the one at that position of the sorted samples |
| Hdr.RankExists | hdr/hdr.go:107-110 | every rank from 1 to the count belongs to a sample |
| Hdr.RankBucket | hdr/hdr.go:111-117 | fewer than rank samples lie below the bucket of the rank-th smallest and at least rank in it or below; that bucket is not empty and its shift does not underflow |
| Hdr.StopsAtRank | hdr/hdr.go:111-117 | the first bucket at which the running count reaches the rank is the bucket of the rank-th smallest sample |
| Hdr.Backfill | hdr/hdr.go:77-89 | a corrected record stands for ns and every step of one interval below it down to the interval, ns / interval samples in all |
| Hdr.Histogram.constructor | hdr/hdr.go:27-37 | the new histogram summarizes no samples |
| Hdr.Histogram.Record | hdr/hdr.go:61-75 | the histogram then summarizes one more sample: counts, total, min and max |
| Hdr.Histogram.RecordCorrected | hdr/hdr.go:81-89 | the loop records exactly the backfill samples and ends |
| Hdr.Histogram.Percentile | hdr/hdr.go:103-119 | up to 100, returns the value reported for a sample x such that at least p percent of the samples are at most x, and less than p percent are below x unless x is the smallest; 0 without samples; the maximum above 100 |
| Hdr.RankBounds | hdr/hdr.go:107-110 | a percentile up to 100 asks for a rank within the count, a higher one for no lower rank, and the 100th for the last |
| Hdr.RankLeast | hdr/hdr.go:107-110 | the rank is the least positive one that covers p percent of the count |
| Hdr.RankMeans | hdr/hdr.go:107-117 | the sample of that rank is where p percent of the samples are reached |
| Hdr.AtMostMaxIff | hdr/hdr.go:102-119 | no rank reports more than the maximum if and only if the maximum is below 128, or is at least 2^63 and is not below the value reported for any sample from 2^62 up to 2^63 |
| Hdr.Histogram.Merge | hdr/hdr.go:162-176 | the histogram then summarizes both sets of samples, and the other one is unchanged |
| Hdr.OrderIrrelevant | hdr/hdr.go:161-176 | histograms of the same multiset of samples agree in every count, in total, min and max |
| Hdr.PercentilesMonotone | hdr/hdr.go:102-119 | with all samples below 2^63 a higher percentile never reports a lower value |
| Bits.ShrIsDiv | workload/workload.go:235-237 | shifting right by k is dividing by 2^k |
| SplitMix.FoldInjective | workload/workload.go:235-237 | xor with a right shift of itself loses nothing, for every shift |
| SplitMix.OddInjective | workload/workload.go:235-236 | a wrapping product by a constant with an inverse modulo 2^64 loses nothing |
| SplitMix.MixInjective | workload/workload.go:232-238 | different states give different draws |
| SplitMix.DrawsDistinct | workload/workload.go:228-238 | any 2^64 consecutive draws from any seed are pairwise distinct |
| SplitMix.SplitMix64.Next | workload/workload.go:232-238 | the i-th call returns the i-th draw of the seed |
| Workload.EncodeKeyOrder | workload/workload.go:215-224 | keys compare lexicographically as their indices do, and are equal only for equal indices |
| Workload.EncodeKeyLayout | workload/workload.go:215-224 | a key is the index in eight big-endian bytes followed by eight ASCII zeros |
| Workload.ZipfInRange | workload/workload.go:264-294 | the chosen index is in range whatever the powers and the conversion come out as, with one key too, where the first test always passes |
| Workload.ZipfShares | workload/workload.go:279-294 | which draws choose index 0, which index 1, and which the scrambled tail |
| Workload.ZetaBounds | workload/workload.go:264-277 | powers of at least 1 make the sum at least 1 and at most the number of keys |
| Workload.LatestInRange | workload/workload.go:176-184 | the recency choice never underflows and is in range, although the square wraps; the distance below the head is the squared residue over the span if and only if the square does not wrap |
| Workload.TailIsScramble | workload/workload.go:288-293 | without overflow the tail branch is the affine scramble, of the last index when the power reached the key count |
| Workload.ScrambleIff | workload/workload.go:292-293 | the scramble is injective on the key indices, and reaches all of them, if and only if their number is coprime to the multiplier |
| Workload.TailReachesAllIff | workload/workload.go:288-293 | where no index overflows, the tail branch is a permutation of the key indices if and only if their number is coprime to the multiplier |
| Driver.LoadDataset | harness/driver.go:211-229 | commits the load's writes in order, in non-empty batches of at most 1000, all but the last full |
| Driver.LoadedStore | harness/driver.go:210-229 | the loaded store holds exactly the keys of indices 0 to cardinality - 1, each with its value |
| Driver.ChosenKeysLoaded | workload/workload.go:170-199 | every key chosen uniformly, by recency, by Zipf or for a random insert is a loaded key, for any number of keys |
| Driver.PerClient | harness/driver.go:234-237 | an equal share of the operations, the largest that fits, and at least one |
| Driver.OperationsConserved | harness/driver.go:233-294 | in every interleaving of clients the read counter is the number of reads, scans and read-modify-writes begun, the write counter the number of updates, inserts, deletes and read-modify-writes, their sum is the merged count plus the read-modify-writes, and the merged count is clients times operations per client |
| Driver.SamplesRecorded | harness/driver.go:284-284 | in every interleaving the clients' histograms hold exactly the times recorded |
| Driver.ClientsFinish | harness/driver.go:247-287 | in every interleaving the clients take at most three steps per operation, and one of them can take a step until all have finished |
| Driver.MergeAll | harness/driver.go:289-293 | the merged histogram is the histogram of all clients' samples |
| Driver.ConcatPermuted | harness/driver.go:289-293 | reordering the clients leaves the multiset of all samples the same |
| Driver.MergeOrderIrrelevant | harness/driver.go:289-293 | merging the clients' histograms in any order gives the same counts, total, minimum and maximum |
| ScanHandoff.InOrderNoGaps | adapters/buntdb/buntdb.go:94-113 | in every run the rows sent are those Next has seen, then those dropped by Close, then those in the channel, in order and without a gap; at most 64 are in the channel, and the reported end is the real end |
| ScanHandoff.OpenGoesOn | adapters/buntdb/buntdb.go:94-113 | until Next has reported the end some step besides Close is possible, and then Next has seen every row |
| ScanHandoff.ScanEnds | adapters/buntdb/buntdb.go:165-172 | as long as the iterator is open every step uses up one of a number of steps fixed at any earlier moment |
| ScanHandoff.NoDeadlock | adapters/buntdb/buntdb.go:176-182 | after Close some step is possible until the drain has returned, and then the producer has exited and the channel is empty |
| ScanHandoff.CloseTerminates | adapters/buntdb/buntdb.go:176-182 | after Close every step uses up one of a number of steps fixed at that moment, whichever way each select resolves |

## Left out

- F2Engine.F2.ApplyBatch: does not model other clients running between two operations of the batch, which the per-operation locking allows.
- Mux.InvNext: assumes fewer than 2^64 calls on one connection, so that ids do not wrap.
- EndToEnd.AnswerIsOwn: takes each operation of the Rust store as atomic.
- Delivery.BlockedCanMove: leaves out a worker that holds a request on which `handle` panics; no request the client builds does (Payloads.RequestIsOperation).
- EndToEnd.RealTimeOrder: is about runs whose payloads and bodies are under 2^32 bytes, the exact limit of the frame format.
- Payloads.RequestsMean: the order and limit of a scan are those of the store, a parameter of the model.
- Hdr.Histogram.Percentile: takes the percentile as a real number; the rounding of the floating-point product, the running sum, the mean and the median are not modelled, nor is a count past 2^64.
- Driver.LoadDataset: takes the i-th generated value as a parameter; the value template and its stamp are not modelled.
- The ten-byte limit of the library varint decoder: no record here reaches it.
- The tests for an index of length zero in `faster`: every reachable index has at least 1024 slots.
- Values returned by `swiss` as views: an overwrite reuses their bytes, so only their content at the time of the call is modelled; `faster` and `f2` records are immutable.
- The hash function: arbitrary here, so nothing depends on how well it spreads keys.
- `otter`, `memory`, `devnull`, the batch buffer of the in-memory engines and the lock microbenchmark: easy members.
- The operation mix and the accuracy of the Zipf constants: a comparison chain, and floating point.
- Adapters over other stores, the network adapters, process launching, CPU pinning, the registry, reports and the command line: wrappers around libraries, I/O or presentation.
