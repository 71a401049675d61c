# A verified model of youmenu's network layer, session table and bundled algorithms

This project models, in Dafny 4.11, the parts of youmenu whose correctness is
hardest to see from the code, and proves what they are there for.

- **Receiving.** `RingBuffer.dfy` is the growable circular buffer, a class proved
  to refine a byte queue. `Shell.dfy` is the 18-byte header. `Receive.dfy` says what
  a byte stream means as frames, and `Connection.dfy` is the resumable parser on
  top of the ring. Main result: how a stream is cut into socket reads makes no
  difference.
- **Sending.** `Cbc.dfy` and `Transform.dfy` are the compress-then-encrypt pipeline
  and its inverse; `EndToEnd.dfy` puts both ends together. `SendProtocol.dfy` is the
  token protocol between workers and the sender thread, as a machine of atomic
  steps, and `ThreadPool.dfy` the worker pool.
- **Sessions.** `Sessions.dfy` is the session list with the login, token login and
  logout handlers, with close events arriving between any two of their calls.
- **Bundled algorithms.** `Csv.dfy`, and `Escape.dfy` with `Tokenizer.dfy`, are printer
  and parser pairs of the SQLite shell; `Rc4.dfy` and `InitialVector.dfy` belong to the page codec;
  `CountingTree.dfy`, `OrderStatistics.dfy` and `Variance.dfy` are SQL aggregates;
  `BitDivision.dfy`, `Crc32.dfy`, `Adler32.dfy` and `Sha1.dfy` with `Sha1Example.dfy`
  are checksums against their standards; `Timer.dfy` is the list of periodic timers.

Code that updates state is a class or a method with loops, proved against a
specification function; what the system promises is then proved about that
function. External primitives (block cipher, compressor, SQL conversions) are
function-valued parameters with the laws they need.

Where the code does less than its comments or names say, the model follows the code
and gives the exact condition:

- the ring's `limit` is a growth step, not a cap (`RingBuffer.CapacityCanPassLimit`,
  `RingBuffer.WithinLimitExactly`);
- the page codec, called on 1 to 15 bytes, encrypts them and never decrypts them
  (`Cbc.ShortPageStays`, `Cbc.ShortPageLost`); its callers pass whole database pages,
  so this is about the function alone;
- CSV import takes its separator from a signed `char`, so separators from 128 on are
  written but never recognised (`Csv.SignedRow`, `Csv.SignedFile`);
- the sender thread takes a wake-up without a token for a stop request and ends, after
  which nothing is sent (`SendProtocol.WakeWithoutTokenStrands`,
  `SendProtocol.DeliveryExactly`);
- integer medians and modes read 32 bits of each value
  (`OrderStatistics.WrongOnOneRow`, `OrderStatistics.StatisticExactly`,
  `OrderStatistics.ModeExactly`);
- a token that ends in an unpaired backslash is resolved past its end, into the next
  token: `.a\ bcd` comes out as `a` and `cd` (`Tokenizer.StopsExactly`,
  `Tokenizer.UnpairedMangles`, `Tokenizer.TokensExactly`);
- a timer deleted by an earlier callback of the same step still fires in it
  (`Timer.DeletedStillFires`, `Timer.FiresExactly`).

`Bytes.dfy` and `Wrappers.dfy` hold what the modules share. `dafny verify dfyconfig.toml`
checks everything.

## Model

| member | source | states |
|---|---|---|
| `RingBuffer.ReadInPlace` | native/eventpack/src/ep_ringbuffer.c:138-148 | a read that ends before the physical end hands out the oldest bytes and leaves the rest, with `wrap` untouched |
| `RingBuffer.ReadAcross` | native/eventpack/src/ep_ringbuffer.c:150-180 | a read up to or across the end hands out the oldest bytes and leaves the rest once `wrap` is cleared |
| `RingBuffer.WriteInPlace` | native/eventpack/src/ep_ringbuffer.c:234-249 | bytes placed before the physical end are appended to the queue, and `wrap` still implies `tail <= head` |
| `RingBuffer.WriteAcross` | native/eventpack/src/ep_ringbuffer.c:234-249 | bytes that fill up to the end and go on at the start are appended in order |
| `RingBuffer.Ring.constructor` | native/eventpack/src/ep_ringbuffer.c:44-74 | an empty queue of the given capacity and growth step |
| `RingBuffer.Ring.CanRead` | native/eventpack/src/ep_ringbuffer.c:89-103 | the number of bytes stored, full told from empty, in every valid state |
| `RingBuffer.Ring.CanWrite` | native/eventpack/src/ep_ringbuffer.c:108-119 | free space, or on a full ring the room growth could add |
| `RingBuffer.Ring.Read` | native/eventpack/src/ep_ringbuffer.c:127-183 | both read paths return and remove exactly the oldest bytes; the view handed out holds them |
| `RingBuffer.Ring.CopyAcross` | native/eventpack/src/ep_ringbuffer.c:150-182 | the copying path through the scratch buffer; clears `wrap` |
| `RingBuffer.Ring.ExpandLimit` | native/eventpack/src/ep_ringbuffer.c:188-212 | growth keeps the contents, and capacity grows by `min(count, limit)` exactly when space is short |
| `RingBuffer.Ring.Write` | native/eventpack/src/ep_ringbuffer.c:220-252 | appends exactly the first `min(count, free + limit)` bytes |
| `RingBuffer.Ring.Place` | native/eventpack/src/ep_ringbuffer.c:233-249 | stores bytes that fit, in one or two pieces |
| `RingBuffer.StepConserves` | native/eventpack/src/ep_ringbuffer.c:127-252 | one operation neither loses, repeats nor reorders a byte |
| `RingBuffer.RunConserves` | native/eventpack/src/ep_ringbuffer.c:127-252 | over every run, what was in plus what was accepted is what was taken out plus what is left, in order |
| `RingBuffer.CapacityBounded` | native/eventpack/src/ep_ringbuffer.c:188-212 | with at most U bytes stored before a write and writes of at most W, capacity never exceeds the larger of the initial one and U + W - 1 + min(W, limit) |
| `RingBuffer.CapacityAttained` | native/eventpack/src/ep_ringbuffer.c:188-212 | this bound is attained |
| `RingBuffer.WithinLimitNeverRefused` | native/eventpack/src/ep_ringbuffer.c:220-231 | writes of at most `limit` bytes are never cut short in any run |
| `RingBuffer.CapacityCanPassLimit` | native/eventpack/src/ep_ringbuffer.c:202-209 | `limit` does not cap the capacity: a 2-byte write takes a ring of capacity 1 and limit 2 to capacity 3 |
| `RingBuffer.WithinLimitExactly` | native/eventpack/src/ep_ringbuffer.c:188-231 | a run stays within `limit` exactly if each write fits the free space or the room left below `limit` |
| `RingBuffer.Drive` | native/eventpack/src/ep_ringbuffer.c:127-252 | the class follows the byte queue through every run of reads and writes, outputs included |
| `Shell.ProtoRoundTrip` | native/eventpack/src/ep_shell.h:19-28 | the bit-field word holds every protocol record, negative fields included |
| `Shell.WordRoundTrip` | native/eventpack/src/ep_shell.h:19-28 | every 32-bit word is the image of the record read from it |
| `Shell.WordLayout` | native/eventpack/src/ep_shell.h:19-28 | the bit position of every field of the word |
| `Shell.MagicOctets` | native/eventpack/src/ep_shell.h:15-15 | a good header is one whose image starts with the octets 0x90 0x87 |
| `Shell.DecodeEncode` | native/eventpack/src/ep_io.c:652-665 | decoding an encoded header gives it back |
| `Shell.EncodeDecode` | native/eventpack/src/ep_io.c:478-494 | encoding a decoded header gives the 18 bytes back |
| `Shell.Layout` | native/eventpack/src/ep_io.c:478-494 | the place of every field in the 18 bytes, most significant octet first |
| `Receive.DrainAppend` | native/eventpack/src/ep_io.c:634-704 | parsing two pieces one after the other is parsing them together |
| `Receive.BodyAppend` | native/eventpack/src/ep_io.c:668-699 | the same from a held header on |
| `Receive.ChunkIndependence` | native/eventpack/src/ep_io.c:609-705 | frames, leftover and first error depend only on the concatenated stream, for every split |
| `Receive.ReadOn` | native/eventpack/src/ep_io.c:623-704 | what one more read adds to a parse, and how little a waiting parse holds back |
| `Receive.WaitingIsShort` | native/eventpack/src/ep_io.c:675-687 | a parse that waits holds fewer bytes than the largest body or a header |
| `Receive.StillWaiting` | native/eventpack/src/ep_io.c:638-687 | parsing again without new bytes finds nothing new |
| `Receive.DrainConserves` | native/eventpack/src/ep_io.c:634-704 | frames, held header and unread bytes spell out the input again; after an error the held header is the one left in the `shell` field, no longer in the ring and not cached |
| `Receive.BodyConserves` | native/eventpack/src/ep_io.c:668-699 | the same from a header on |
| `Receive.DrainComplete` | native/eventpack/src/ep_io.c:634-704 | the parser finds exactly the frames that were concatenated, whatever follows |
| `Receive.DrainFirst` | native/eventpack/src/ep_io.c:645-699 | one acceptable frame is cut off the front |
| `Receive.DrainSound` | native/eventpack/src/ep_io.c:668-698 | every frame dispatched has the magic number, an allowed length and a body of that length |
| `Receive.StopsAtHeader` | native/eventpack/src/ep_io.c:668-687 | frames followed by a bad, an oversized or an incomplete frame: exactly these frames, that header, the bytes behind it, and which of the three |
| `Receive.StopsInHeader` | native/eventpack/src/ep_io.c:638-643 | fewer than 18 bytes behind the frames wait for the rest of a header |
| `Connection.Connection.NextHeader` | native/eventpack/src/ep_io.c:645-666 | takes the next header from the ring unless one is cached |
| `Connection.Connection.Dispatch` | native/eventpack/src/ep_io.c:689-698 | hands out the header with exactly its body |
| `Connection.Connection.AfterHeader` | native/eventpack/src/ep_io.c:668-699 | the checks after a header: error, wait with the header cached, or one frame |
| `Connection.Connection.Round` | native/eventpack/src/ep_io.c:634-700 | one pass of the loop parses exactly one step of the stream and makes progress |
| `Connection.Connection.DrainAll` | native/eventpack/src/ep_io.c:634-704 | the loop ends, dispatches the frames of the buffered bytes in order, returns the code of how they end, and leaves ring and header as the parse does, also after an error |
| `Connection.Connection.Enqueue` | native/eventpack/src/ep_io.c:609-705 | one call against the meaning of the bytes, with the return code of each outcome; refusal exactly when the chunk exceeds free space plus the limit |
| `Connection.Connection.ReceiveAll` | native/eventpack/src/ep_io.c:609-705 | any stream in any non-empty chunks of at most `max_capacity`: frames, code and leftover of the whole stream, with bounded memory |
| `Cbc.DecryptEncrypt` | native/dbprovider/3rdparty/sqlite3/rijndael.c:1075-1092 | chained decryption inverts chained encryption, whatever blocks follow |
| `Cbc.EncryptSnoc` | native/dbprovider/3rdparty/sqlite3/rijndael.c:1082-1091 | one more block is encrypted against the last ciphertext block |
| `Cbc.DecryptAt` | native/dbprovider/3rdparty/sqlite3/rijndael.c:1219-1247 | each block decrypts by itself and the ciphertext block before it |
| `Cbc.EncryptBlocks` | native/dbprovider/3rdparty/sqlite3/rijndael.c:1075-1092 | the block loop computes the chaining, also onto its own input |
| `Cbc.DecryptBlocks` | native/dbprovider/3rdparty/sqlite3/rijndael.c:1219-1247 | the block loop computes the inverse chaining, also onto its own input |
| `Cbc.ShortPageStays` | native/dbprovider/3rdparty/sqlite3/rijndael.c:1053-1081 | a page of 1 to 15 bytes comes back exactly if its first block is a fixed point of the encryption |
| `Cbc.ShortPageLost` | native/dbprovider/3rdparty/sqlite3/rijndael.c:1053-1081 | so for each of these lengths there is a lawful cipher and a page that does not come back |
| `Cbc.UnpadPad` | native/dbprovider/3rdparty/sqlite3/rijndael.c:1179-1187 | the padding found is the padding added |
| `Cbc.PadEncrypt` | native/dbprovider/3rdparty/sqlite3/rijndael.c:1139-1195 | encrypts the padded input, last block included, and returns its length; nothing for empty input |
| `Cbc.CheckPadding` | native/dbprovider/3rdparty/sqlite3/rijndael.c:1349-1354 | the padding length of a well-formed last block, and 0 otherwise |
| `Cbc.PadDecrypt` | native/dbprovider/3rdparty/sqlite3/rijndael.c:1294-1364 | decrypts and strips the padding, or reports corrupted data, for every input length |
| `Cbc.DecryptLast` | native/dbprovider/3rdparty/sqlite3/rijndael.c:1328-1348 | all blocks but the last go out, the last one to a buffer of its own |
| `Cbc.PadRoundTrip` | native/dbprovider/3rdparty/sqlite3/rijndael.c:1166-1188 | padded encryption followed by padded decryption is the identity |
| `Cbc.EncryptPage` | native/dbprovider/3rdparty/sqlite3/codec.c:702-708 | in-place page encryption: chained whole blocks, untouched tail |
| `Cbc.DecryptPage` | native/dbprovider/3rdparty/sqlite3/codec.c:710-714 | in-place page decryption: chained whole blocks, untouched tail |
| `Cbc.PageRoundTrip` | native/dbprovider/3rdparty/sqlite3/codec.c:702-714 | for every length of at least 16, and for none, decrypting an encrypted page is the identity and the tail never changes |
| `Transform.DecryptedEncrypted` | native/eventpack/src/ep_crypt.c:106-148 | decryption recovers the input whatever memory lies behind either buffer |
| `Transform.Buffer.constructor` | native/eventpack/src/ep_buffer.c:24-50 | holds the data in room rounded up to whole cipher blocks |
| `Transform.Buffer.Encrypt` | native/eventpack/src/ep_buffer.c:117-143 | replaces the contents by their encryption and the capacity by its size |
| `Transform.Buffer.Decrypt` | native/eventpack/src/ep_buffer.c:150-176 | replaces the contents by their decryption cut to the original size, 0 included |
| `Transform.Buffer.Compress` | native/eventpack/src/ep_buffer.c:186-206 | replaces the contents by a form from which decompression to the old size recovers them, in room for the input and one per cent and 600 bytes more |
| `Transform.Buffer.Decompress` | native/eventpack/src/ep_buffer.c:216-236 | succeeds exactly if decompression yields the size announced, and then holds the result |
| `Transform.Combine` | native/eventpack/src/ep_io.c:376-499 | compress (automatic choice resolved into the header), then encrypt, then prepend the header; fails exactly without a key |
| `Transform.SentByServer` | native/eventpack/src/ep_io.c:389-476 | a server compresses and encrypts by the server fields, resolves only them, and announces body, packed and sent sizes |
| `Transform.SentByClient` | native/eventpack/src/ep_io.c:389-476 | a client does so by the client fields |
| `Transform.OtherFieldsIgnored` | native/eventpack/src/ep_io.c:391-392 | the other role's fields change nothing that is sent as the body |
| `Transform.CombineEmpty` | native/eventpack/src/ep_io.c:461-499 | a message without body: the receiver finds exactly one frame with an empty body, whatever follows |
| `Transform.Recombine` | native/eventpack/src/ep_io.c:504-543 | decrypt, then decompress, as the header of the other role says |
| `Transform.OpenedBy` | native/eventpack/src/ep_io.c:509-542 | a client opens by the server fields and a server by the client fields, with the sizes of the header |
| `Transform.OpenedWired` | native/eventpack/src/ep_io.c:376-543 | the other role recovers the body for every crypt and compress choice |
| `EndToEnd.RecoversBody` | native/eventpack/src/ep_io.c:504-543 | each good message is recovered from its frame |
| `EndToEnd.Delivery` | native/eventpack/src/ep_io.c:376-705 | any messages, combined, concatenated and cut anyhow, arrive as exactly their frames and bodies |
| `EndToEnd.WholeStream` | native/eventpack/src/ep_io.c:609-705 | the concatenated messages parse to exactly their frames and nothing is left |
| `EndToEnd.Send` | native/eventpack/src/ep_io.c:376-499 | one message to its bytes on the wire |
| `EndToEnd.SendAll` | native/eventpack/src/ep_io.c:376-499 | a list of messages to the concatenated stream |
| `EndToEnd.Open` | native/eventpack/src/ep_io.c:504-543 | one frame back to its body |
| `EndToEnd.OpenAll` | native/eventpack/src/ep_io.c:504-543 | all frames back to their bodies, in order |
| `EndToEnd.ReceiveStream` | native/eventpack/src/ep_io.c:609-705 | the parser object on any chunks yields the frames of the stream |
| `EndToEnd.ReceiveMessages` | native/eventpack/src/ep_io.c:504-705 | any chunks of a stream of messages yield the resolved headers and the original bodies in order |
| `EndToEnd.FlattenCut` | native/eventpack/src/ep_io.c:609-632 | cutting loses nothing |
| `EndToEnd.EveryCut` | native/eventpack/src/ep_io.c:609-632 | every split into non-empty reads is one of the cuts |
| `EndToEnd.Exchange` | native/eventpack/src/ep_io.c:376-705 | combine, concatenate, cut into reads of any sizes up to `max_capacity`, parse and recombine, all through the methods: the resolved headers and the original bodies in order |
| `SendProtocol.Queue.Get` | native/eventpack/src/ep_queue.c:95-181 | oldest item, timeout, stop or wake-up without item, for every state, timeout and wake-up |
| `SendProtocol.StepInv` | native/eventpack/src/ep_io.c:115-176 | every atomic step of workers, pushers and sender keeps the invariant |
| `SendProtocol.StepBooks` | native/eventpack/src/ep_io.c:115-176 | queued = sent + in hand + waiting, per connection and in order, after every step |
| `SendProtocol.StepServes` | native/eventpack/src/ep_io.c:325-341 | a connection with waiting bodies keeps a token, a draining sender or a pusher about to add the token |
| `SendProtocol.RunInv` | native/eventpack/src/ep_io.c:115-176 | the invariant holds in every state of every run |
| `SendProtocol.RunQueues` | native/eventpack/src/ep_io.c:325-341 | the queueing order recorded is the order of the pushes in the run |
| `SendProtocol.NoStrandedResponse` | native/eventpack/src/ep_io.c:325-341 | in every reachable state what was sent is a prefix of what was queued, nothing waits unserved, and an idle protocol has sent everything |
| `SendProtocol.TokensInOrder` | native/eventpack/src/ep_queue.c:57-181 | over every run tokens are taken in the order in which they were pushed, none lost and none twice |
| `SendProtocol.SenderStepWorks` | native/eventpack/src/ep_io.c:134-176 | while anything is left the sender has a step, and each one reduces the work |
| `SendProtocol.EverythingIsDelivered` | native/eventpack/src/ep_io.c:134-176 | from every reachable state with a living sender a bounded number of its own steps sends everything in order |
| `SendProtocol.NothingAfterExit` | native/eventpack/src/ep_io.c:169-175 | once the sender thread has ended nothing is sent |
| `SendProtocol.WakeWithoutTokenStrands` | native/eventpack/src/ep_io.c:145-172 | a wake-up without a token ends the sender, and a later response is never sent |
| `SendProtocol.ExitedExactly` | native/eventpack/src/ep_io.c:139-175 | the sender has ended exactly if some wake-up of the run found no token |
| `SendProtocol.DeliveryExactly` | native/eventpack/src/ep_io.c:134-176 | after every run outside a push, everything queued can still be sent exactly if no wake-up came without a token or nothing was left |
| `SendProtocol.Io.PushBody` | native/eventpack/src/ep_io.c:329-333 | queueing a body is the first step of a push |
| `SendProtocol.Io.PushToken` | native/eventpack/src/ep_io.c:334-340 | queueing the token is the second |
| `SendProtocol.Io.Wait` | native/eventpack/src/ep_io.c:145-172 | the blocking get on the token queue is, unless stopped, exactly a token taken or a wake-up without one |
| `SendProtocol.Io.Poll` | native/eventpack/src/ep_io.c:115-153 | the get without waiting on a connection is exactly a body taken or none |
| `SendProtocol.Io.Perform` | native/eventpack/src/ep_io.c:115-341 | every step of the protocol is what the queue operations do |
| `SendProtocol.Execute` | native/eventpack/src/ep_io.c:115-341 | every run performed on the queues: what was sent, is in hand and waits is what was pushed, in order |
| `ThreadPool.StepOrdered` | native/eventpack/src/ep_threadpool.c:50-89 | every step keeps: started workers, then queued ones, are the registered ones in order |
| `ThreadPool.StepBalanced` | native/eventpack/src/ep_threadpool.c:50-89 | every step keeps: each registered worker is queued, in hand or freed, exactly once |
| `ThreadPool.StepInv` | native/eventpack/src/ep_threadpool.c:50-89 | every step of every thread keeps both |
| `ThreadPool.RunInv` | native/eventpack/src/ep_threadpool.c:50-282 | both hold in every state of every run |
| `ThreadPool.StartedInOrder` | native/eventpack/src/ep_threadpool.c:145-176 | workers are started in registration order, each at most once, in every run |
| `ThreadPool.DestroyedPool` | native/eventpack/src/ep_threadpool.c:236-282 | when destroy returns each registered worker is freed exactly once, and with `tp_kill_wait` each has run exactly once |
| `ThreadPool.StepLeft` | native/eventpack/src/ep_threadpool.c:50-282 | once destroy is called every step but an idle look uses up a bound |
| `ThreadPool.BoundedSchedules` | native/eventpack/src/ep_threadpool.c:50-282 | so no schedule without idle looks is longer than that bound |
| `ThreadPool.HasStep` | native/eventpack/src/ep_threadpool.c:236-282 | and until destroy has returned some such step is possible |
| `ThreadPool.DestroyReturns` | native/eventpack/src/ep_threadpool.c:236-282 | from every reachable state after the call, destroy can return within the bound |
| `ThreadPool.NeverStuck` | native/eventpack/src/ep_threadpool.c:236-282 | where nothing but idle looks is left to do, destroy has returned |
| `ThreadPool.WhenItAborts` | native/eventpack/src/ep_threadpool.c:244-255 | `tp_kill_now` raises the flag whatever is queued, `tp_kill_wait` only once the queue was seen empty |
| `Sessions.Table.Add` | native/src/server/session.c:133-227 | adds unless a session clashes, and then keeps the table consistent |
| `Sessions.Table.DelFd` | native/src/server/session.c:232-259 | removes exactly the sessions of a descriptor |
| `Sessions.Table.DelToken` | native/src/server/session.c:264-288 | removes exactly the token sessions of a user |
| `Sessions.Table.RefFd` | native/src/server/session.c:298-323 | finds a session of the descriptor if and only if there is one |
| `Sessions.Table.RefUid` | native/src/server/session.c:325-350 | finds a session of the user and kind if and only if there is one |
| `Sessions.Table.RefToken` | native/src/server/session.c:360-388 | finds the session of a token if and only if there is one |
| `Sessions.SameFdSession` | native/src/server/session.c:133-196 | in a consistent table user and descriptor determine a session |
| `Sessions.EvictUser` | native/src/server/res_account.c:33-46 | removes the fd session of a user and nothing else; the deletion finds it exactly if no close event got there first |
| `Sessions.EvictFd` | native/src/server/res_account.c:48-61 | removes the session of a descriptor and nothing else; the deletion finds it exactly if no close event got there first |
| `Sessions.CheckSessionExist` | native/src/server/res_account.c:25-64 | leaves exactly the sessions not in the way, and reports a conflict exactly if it met one, with close events between its calls |
| `Sessions.Admit` | native/src/server/res_account.c:163-195 | after the eviction the new session never meets a duplicate, close events or not; unrelated sessions stay; a conflict is reported exactly if one was met |
| `Sessions.IssueToken` | native/src/server/res_account.c:197-243 | replaces the token session of the user; fails exactly if another user holds the token |
| `Sessions.Login` | native/src/server/res_account.c:84-253 | every outcome of a password login, conflicts included, with the exact table it leaves, close events anywhere in between |
| `Sessions.TokensSurvive` | native/src/server/res_account.c:163-243 | a login leaves the tokens of all users as they were |
| `Sessions.TokenLogin` | native/src/server/res_account.c:256-305 | every outcome of a token login, conflicts included, with the exact table it leaves |
| `Sessions.Logout` | native/src/server/res_account.c:320-341 | removes exactly the session of the descriptor, or reports it expired; the deletion finds it exactly if no close event got there first |
| `Sessions.Table.CloseEvents` | native/src/server/server.c:216-228 | close events remove exactly the sessions of the closed descriptors |
| `Sessions.Serve` | native/src/server/server.c:216-228 | over every run of logins, token logins, logouts and close events: fd sessions with distinct descriptors and users, token sessions with distinct tokens and users |
| `Csv.OutputCsv` | native/dbprovider/3rdparty/sqlite3/shell.c:663-692 | writes a field quoted exactly when needed, quotes doubled |
| `Csv.UnquotedExactly` | native/dbprovider/3rdparty/sqlite3/shell.c:639-692 | a field goes out as it is exactly if it is not empty and has only visible bytes other than quotes and separator |
| `Csv.WriteRow` | native/dbprovider/3rdparty/sqlite3/shell.c:855-868 | writes a row with separators and a line end |
| `Csv.Reader.Getc` | native/dbprovider/3rdparty/sqlite3/shell.c:1871-1875 | the next byte or the end of the input |
| `Csv.Reader.StripQuote` | native/dbprovider/3rdparty/sqlite3/shell.c:1893-1895 | drops the last quote and what follows it |
| `Csv.Reader.ReadQuoted` | native/dbprovider/3rdparty/sqlite3/shell.c:1876-1911 | the quote state machine on the input computes its specification |
| `Csv.Reader.ReadPlain` | native/dbprovider/3rdparty/sqlite3/shell.c:1912-1922 | reads up to separator or line end, one carriage return dropped |
| `Csv.Reader.ReadOneField` | native/dbprovider/3rdparty/sqlite3/shell.c:1867-1925 | one call reads one field, its terminator and the rest of the input as specified, or reports the end |
| `Csv.QuotedReads` | native/dbprovider/3rdparty/sqlite3/shell.c:1876-1911 | the quote state machine undoes doubling and stops at the closing quote, for every text |
| `Csv.PlainReads` | native/dbprovider/3rdparty/sqlite3/shell.c:1912-1922 | an unquoted field is read unchanged up to its terminator |
| `Csv.PlainCrLf` | native/dbprovider/3rdparty/sqlite3/shell.c:1912-1922 | a line end CR LF is dropped whole and nothing more |
| `Csv.QuotedCrLf` | native/dbprovider/3rdparty/sqlite3/shell.c:1889-1897 | also behind a quoted field |
| `Csv.PlainEof` | native/dbprovider/3rdparty/sqlite3/shell.c:1912-1922 | the last field of a file without a final line end |
| `Csv.FieldRoundTrip` | native/dbprovider/3rdparty/sqlite3/shell.c:663-692 | a written field followed by a terminator reads back as the original, for every text and good separator |
| `Csv.RowRoundTrip` | native/dbprovider/3rdparty/sqlite3/shell.c:855-868 | a written row reads back field by field with the right terminators, whatever follows |
| `Csv.FileRoundTrip` | native/dbprovider/3rdparty/sqlite3/shell.c:855-868 | a written file reads back as exactly its fields and terminators |
| `Csv.ReadRow` | native/dbprovider/3rdparty/sqlite3/shell.c:1867-1925 | the reader object recovers a written row through its own calls |
| `Csv.SignedSeparator` | native/dbprovider/3rdparty/sqlite3/shell.c:2421-2421 | through a signed `char` a field ends at its separator if it is below 128, and no field ever does otherwise |
| `Csv.LineEndRoundTrip` | native/dbprovider/3rdparty/sqlite3/shell.c:1867-1925 | the last field of a line reads back also where the signed separator is no byte |
| `Csv.SignedRow` | native/dbprovider/3rdparty/sqlite3/shell.c:2421-2421 | a written row reads back exactly if the separator is below 128 or the row has one field |
| `Csv.SignedFile` | native/dbprovider/3rdparty/sqlite3/shell.c:2421-2421 | a written file reads back exactly if the separator is below 128 or every row has one field |
| `Escape.OutputCString` | native/dbprovider/3rdparty/sqlite3/shell.c:572-598 | prints the quoted escaped form |
| `Escape.EscapeLetters` | native/dbprovider/3rdparty/sqlite3/shell.c:576-590 | the letters printed and read for newline, tab, return, backslash and quote |
| `Escape.PrintedPlain` | native/dbprovider/3rdparty/sqlite3/shell.c:593-594 | other visible characters are printed as they are |
| `Escape.PrintedOctal` | native/dbprovider/3rdparty/sqlite3/shell.c:591-592 | everything else as three octal digits |
| `Escape.UnescapeEscaped` | native/dbprovider/3rdparty/sqlite3/shell.c:1674-1695 | an escape is read back as the byte it was printed for, digits behind it notwithstanding |
| `Escape.OctalEscapes` | native/dbprovider/3rdparty/sqlite3/shell.c:1684-1694 | one or two octal digits stand for the number they spell |
| `Escape.OctalThree` | native/dbprovider/3rdparty/sqlite3/shell.c:1684-1694 | three stand for the number cut to a byte |
| `Escape.ApostropheVerbatim` | native/dbprovider/3rdparty/sqlite3/shell.c:2158-2168 | text in apostrophes is a token as it stands |
| `Escape.ResolveEscaped` | native/dbprovider/3rdparty/sqlite3/shell.c:1670-1699 | resolving an escaped text gives the text |
| `Escape.ResolvesExactly` | native/dbprovider/3rdparty/sqlite3/shell.c:1673-1697 | a text has a resolved form exactly if the backslashes at its end pair up |
| `Escape.QuotedEndEscaped` | native/dbprovider/3rdparty/sqlite3/shell.c:2159-2164 | the closing quote found is the one printed |
| `Escape.CommandRoundTrip` | native/dbprovider/3rdparty/sqlite3/shell.c:2155-2175 | a plain command word and printed arguments tokenize to exactly these strings |
| `Tokenizer.WalkString` | native/dbprovider/3rdparty/sqlite3/shell.c:1673-1697 | followed over memory, the loop stores the resolved form of a string and stops at its terminator, or there is none and it goes past the terminator |
| `Tokenizer.StopsExactly` | native/dbprovider/3rdparty/sqlite3/shell.c:1673-1697 | the loop stops at the terminator of its string exactly if the backslashes at the string's end pair up |
| `Tokenizer.ResolveBackslashes` | native/dbprovider/3rdparty/sqlite3/shell.c:1670-1699 | rewrites memory to what the walk says and touches nothing else, past the string too |
| `Tokenizer.CopyResolved` | native/dbprovider/3rdparty/sqlite3/shell.c:1673-1697 | the copy loop never overtakes its reading position |
| `Tokenizer.UnescapeAt` | native/dbprovider/3rdparty/sqlite3/shell.c:1675-1694 | the escape branches on memory, up to three octal digits |
| `Tokenizer.Bounds` | native/dbprovider/3rdparty/sqlite3/shell.c:2158-2171 | finds the ends of a quoted or bare token |
| `Tokenizer.NextToken` | native/dbprovider/3rdparty/sqlite3/shell.c:2156-2174 | skips spaces and takes the next token, or finds the end |
| `Tokenizer.Tokenize` | native/dbprovider/3rdparty/sqlite3/shell.c:2147-2175 | places and memory that the loop ends with, on every line on which it stays within the memory |
| `Tokenizer.TakeAgrees` | native/dbprovider/3rdparty/sqlite3/shell.c:2158-2174 | a token that resolves is put in place and nothing before or behind it changes |
| `Tokenizer.ActionAgrees` | native/dbprovider/3rdparty/sqlite3/shell.c:2156-2174 | one round of the loop is one cut of the line |
| `Tokenizer.TokensAgree` | native/dbprovider/3rdparty/sqlite3/shell.c:2155-2175 | where all tokens resolve the places returned hold exactly the tokens of the line; earlier ones survive later rewriting |
| `Tokenizer.LineTokens` | native/dbprovider/3rdparty/sqlite3/shell.c:2147-2175 | the same for a whole command line |
| `Tokenizer.TokensExactly` | native/dbprovider/3rdparty/sqlite3/shell.c:2155-2175 | a line has tokens in this sense exactly if each token that is resolved has its trailing backslashes paired |
| `Tokenizer.UnpairedMangles` | native/dbprovider/3rdparty/sqlite3/shell.c:2169-2174 | for all plain words: a word with a single backslash behind it and a next word come out as the first word and the next one without its first byte |
| `Tokenizer.UnpairedExample` | native/dbprovider/3rdparty/sqlite3/shell.c:2169-2174 | the line `.a\ bcd` comes out as `a` and `cd` |
| `Tokenizer.EchoCommand` | native/dbprovider/3rdparty/sqlite3/shell.c:2146-2175 | printing a command with up to 49 NUL-free arguments and tokenizing the line in place gives these strings |
| `Rc4.ScheduledPermutes` | native/dbprovider/3rdparty/sqlite3/codec.c:375-382 | the array is a permutation of the octets after every step of the key schedule |
| `Rc4.AfterPermutes` | native/dbprovider/3rdparty/sqlite3/codec.c:384-393 | and after every byte coded |
| `Rc4.KeyByteIs` | native/dbprovider/3rdparty/sqlite3/codec.c:386-391 | every octet of the keystream in closed form over the array before it, and the array after it |
| `Rc4.FirstKeyByte` | native/dbprovider/3rdparty/sqlite3/codec.c:386-391 | the first octet over the scheduled array alone |
| `Rc4.FirstScheduled` | native/dbprovider/3rdparty/sqlite3/codec.c:371-382 | the schedule starts from the octets in order |
| `Rc4.KeyFromSchedule` | native/dbprovider/3rdparty/sqlite3/codec.c:376-382 | each step exchanges two octets and uses up an octet of the key, which can be read off again |
| `Rc4.ScheduleTellsKeys` | native/dbprovider/3rdparty/sqlite3/codec.c:376-382 | different keys of one length are scheduled differently |
| `Bytes.XorBit` | native/dbprovider/3rdparty/sqlite3/codec.c:392-392 | a bit of the combination is set exactly if the bits combined differ |
| `Rc4.CodedTwice` | native/dbprovider/3rdparty/sqlite3/codec.c:357-394 | coding twice with one key is the identity, for every text |
| `Rc4.CodedPrefix` | native/dbprovider/3rdparty/sqlite3/codec.c:384-393 | the keystream does not depend on the text: a prefix is coded as it would be alone |
| `Rc4.SetKey` | native/dbprovider/3rdparty/sqlite3/codec.c:371-382 | the schedule loop computes the scheduled array |
| `Rc4.Codec` | native/dbprovider/3rdparty/sqlite3/codec.c:357-394 | codes the text by the keystream of the key alone, also onto its own input, and touches nothing behind it |
| `Rc4.CodeTwice` | native/dbprovider/3rdparty/sqlite3/codec.c:357-394 | in place, twice is the identity |
| `InitialVector.NoOverflow` | native/dbprovider/3rdparty/sqlite3/codec.c:413-413 | no intermediate value of a step leaves 32 bits, for every 32-bit value |
| `InitialVector.ModMult` | native/dbprovider/3rdparty/sqlite3/codec.c:413-413 | a step is multiplication by 40692 modulo 2147483399, for every 32-bit value |
| `InitialVector.InitKey` | native/dbprovider/3rdparty/sqlite3/codec.c:415-430 | the four words of the seed bytes are the successive powers modulo 2147483399, lowest octet first |
| `CountingTree.InsertOrdered` | native/dbprovider/3rdparty/sqlite3/extensionfunctions.c:1884-1904 | an insertion keeps search order |
| `CountingTree.InsertCounts` | native/dbprovider/3rdparty/sqlite3/extensionfunctions.c:1884-1904 | an insertion adds exactly one occurrence |
| `CountingTree.InsertAllKeeps` | native/dbprovider/3rdparty/sqlite3/extensionfunctions.c:1884-1908 | search order and multiplicities for every insertion order |
| `CountingTree.EntriesOfAll` | native/dbprovider/3rdparty/sqlite3/extensionfunctions.c:1910-1918 | the walk meets each value once, in increasing order, with its multiplicity |
| `CountingTree.WalkSorts` | native/dbprovider/3rdparty/sqlite3/extensionfunctions.c:1910-1918 | written out, the walk is the sorted sequence of the values |
| `CountingTree.WalkIsFold` | native/dbprovider/3rdparty/sqlite3/extensionfunctions.c:1910-1918 | the recursive walk visits the entries from left to right |
| `CountingTree.Insert` | native/dbprovider/3rdparty/sqlite3/extensionfunctions.c:1884-1904 | the pointer version on the heap refines the tree insertion |
| `CountingTree.Iterate` | native/dbprovider/3rdparty/sqlite3/extensionfunctions.c:1910-1918 | the pointer version of the walk |
| `CountingTree.Map.Add` | native/dbprovider/3rdparty/sqlite3/extensionfunctions.c:1906-1908 | one more value in the map |
| `CountingTree.Map.Visit` | native/dbprovider/3rdparty/sqlite3/extensionfunctions.c:1920-1922 | visits the map in order |
| `OrderStatistics.Low32Exact` | native/dbprovider/3rdparty/sqlite3/extensionfunctions.c:1525-1526 | the narrow read is exact on exactly the 32-bit integers |
| `OrderStatistics.OrdersLawful` | native/dbprovider/3rdparty/sqlite3/extensionfunctions.c:1940-1964 | both comparison functions order by value and tell all values apart |
| `OrderStatistics.ScanAddsHits` | native/dbprovider/3rdparty/sqlite3/extensionfunctions.c:1504-1536 | the scan adds up the values whose run of positions holds the percentile; stopping early misses none |
| `OrderStatistics.CountsFit` | native/dbprovider/3rdparty/sqlite3/extensionfunctions.c:1515-1519 | no count compared exceeds the number of rows, so below 2^31 rows the 32-bit `il` and `ir` are exact |
| `OrderStatistics.HitsAreMiddle` | native/dbprovider/3rdparty/sqlite3/extensionfunctions.c:1519-1533 | these are the one or two values around the percentile in the sorted sequence |
| `OrderStatistics.ScanFindsMiddle` | native/dbprovider/3rdparty/sqlite3/extensionfunctions.c:1504-1536 | so the one-pass scan ends with the middle of the sorted values, for every insertion order |
| `OrderStatistics.StatisticSplits` | native/dbprovider/3rdparty/sqlite3/extensionfunctions.c:1519-1533 | at least p values are not above the statistic and at least n - p not below it |
| `OrderStatistics.StatisticMirrors` | native/dbprovider/3rdparty/sqlite3/extensionfunctions.c:1519-1533 | turning the order round turns the statistic round |
| `OrderStatistics.RowsSplit` | native/dbprovider/3rdparty/sqlite3/extensionfunctions.c:1583-1614 | a finalizer at so many quarters splits the rows by so many quarters |
| `OrderStatistics.FinishInts` | native/dbprovider/3rdparty/sqlite3/extensionfunctions.c:1561-1579 | an integer percentile is the order statistic of the sorted values as read |
| `OrderStatistics.FinishDoubles` | native/dbprovider/3rdparty/sqlite3/extensionfunctions.c:1561-1579 | a percentile of doubles is the order statistic of the sorted values |
| `OrderStatistics.ExactOn32Bits` | native/dbprovider/3rdparty/sqlite3/extensionfunctions.c:1561-1579 | on 32-bit integers it is the order statistic of the values themselves |
| `OrderStatistics.NarrowStatistic` | native/dbprovider/3rdparty/sqlite3/extensionfunctions.c:1525-1526 | reading 32 bits leaves an order statistic as it is exactly if the values around the percentile are read exactly or their errors cancel |
| `OrderStatistics.StatisticExactly` | native/dbprovider/3rdparty/sqlite3/extensionfunctions.c:1561-1579 | an integer percentile is the order statistic of the values exactly under that condition |
| `OrderStatistics.WrongOnOneRow` | native/dbprovider/3rdparty/sqlite3/extensionfunctions.c:1478-1526 | a single row 2^31 has median, quartiles and mode -2^31 |
| `OrderStatistics.ModeExactly` | native/dbprovider/3rdparty/sqlite3/extensionfunctions.c:1478-1478 | the mode of integers comes out exactly if it is a 32-bit integer |
| `OrderStatistics.ModeTracks` | native/dbprovider/3rdparty/sqlite3/extensionfunctions.c:1471-1497 | one step of the mode scan keeps the leader, or the tie, of what was seen |
| `OrderStatistics.ScanFindsMode` | native/dbprovider/3rdparty/sqlite3/extensionfunctions.c:1471-1497 | one value is left standing exactly when some value is strictly most frequent, and it is that value |
| `OrderStatistics.ModeCtx.Step` | native/dbprovider/3rdparty/sqlite3/extensionfunctions.c:1423-1465 | one row: nulls ignored, the first value decides between integers and doubles |
| `OrderStatistics.ModeCtx.Finish` | native/dbprovider/3rdparty/sqlite3/extensionfunctions.c:1561-1579 | the order statistic at the percentile chosen, or null without rows |
| `OrderStatistics.ModeCtx.Median` | native/dbprovider/3rdparty/sqlite3/extensionfunctions.c:1583-1590 | the order statistic at n/2; half of the values are not above it and half not below it |
| `OrderStatistics.ModeCtx.LowerQuartile` | native/dbprovider/3rdparty/sqlite3/extensionfunctions.c:1595-1602 | the order statistic at n/4; a quarter of the values is not above it and three quarters not below it |
| `OrderStatistics.ModeCtx.UpperQuartile` | native/dbprovider/3rdparty/sqlite3/extensionfunctions.c:1607-1614 | the order statistic at 3n/4; three quarters of the values are not above it and a quarter not below it |
| `OrderStatistics.ModeCtx.ModeValue` | native/dbprovider/3rdparty/sqlite3/extensionfunctions.c:1541-1556 | the strictly most frequent value, or null exactly if there is none |
| `Variance.MeanStep` | native/dbprovider/3rdparty/sqlite3/extensionfunctions.c:1413-1415 | the running mean is the mean |
| `Variance.SpreadStep` | native/dbprovider/3rdparty/sqlite3/extensionfunctions.c:1414-1416 | the running sum is the sum of squared distances from the mean |
| `Variance.TwoValues` | native/dbprovider/3rdparty/sqlite3/extensionfunctions.c:1632-1640 | two values vary by half the square of their difference |
| `Variance.StdevCtx.Step` | native/dbprovider/3rdparty/sqlite3/extensionfunctions.c:1402-1418 | one row keeps mean and sum of squares of all rows |
| `Variance.StdevCtx.Finish` | native/dbprovider/3rdparty/sqlite3/extensionfunctions.c:1632-1640 | the two-pass sample variance of all rows |
| `BitDivision.StepsFeed` | native/src/utils/crc32.c:37-43 | after k steps only the k lowest bits matter to what was added |
| `BitDivision.KeptBits` | native/src/utils/crc32.c:37-43 | words that agree in their kept bits take the same multiples |
| `BitDivision.TableStep` | native/src/utils/crc32.c:20-22 | one table round equals k bit steps |
| `BitDivision.FeedIsSteps` | native/src/utils/crc32.c:20-22 | feeding a digit bit by bit equals adding it and stepping |
| `BitDivision.DivideAppend` | native/src/utils/crc32.c:20-23 | division of a concatenation continues the division of its first part |
| `Crc32.WordsLawful` | native/src/utils/crc32.c:37-43 | 32-bit words satisfy the laws of the division |
| `Crc32.StepAsWritten` | native/src/utils/crc32.c:41-41 | the conditional exclusive-or is one step of division by 0xedb88320 |
| `Crc32.MakeCrcTable` | native/src/utils/crc32.c:32-44 | every entry is eight bit steps of its index |
| `Crc32.LiteralGenerated` | native/src/utils/crc32.c:50-103 | the literal table is the generated one, and the only one |
| `Crc32.RoundExact` | native/src/utils/crc32.c:20-22 | one round of the loop divides by one byte, bit by bit |
| `Crc32.Crc32` | native/src/utils/crc32.c:12-24 | with the literal table: bit-at-a-time division on every input, 0 for a null buffer |
| `Crc32.CheckValue` | native/src/utils/crc32.c:12-24 | the checksum of "123456789" is 0xcbf43926 |
| `Crc32.CrcAppend` | native/src/utils/crc32.c:12-24 | checksums compose over concatenation |
| `Adler32.DeferredModulo` | native/src/utils/adler32.c:32-44 | reducing once per block equals reducing per byte, for every input |
| `Adler32.BlockFits` | native/src/utils/adler32.c:9-11 | no sum leaves 32 bits within a block, even from an unreduced start |
| `Adler32.NmaxIsLargest` | native/src/utils/adler32.c:9-11 | 5552 is the largest such block for reduced starts |
| `Adler32.SumBlock` | native/src/utils/adler32.c:33-41 | the unrolled loops sum a block, within 32 bits |
| `Adler32.ReduceBlock` | native/src/utils/adler32.c:33-43 | one block reduced at its end equals reduction after every byte |
| `Adler32.Adler` | native/src/utils/adler32.c:20-46 | the checksum of section 8.2 of RFC 1950 on every input, 1 for a null buffer |
| `Adler32.AdlerClosed` | native/src/utils/adler32.c:20-46 | both halves in closed form: one plus the sum of the bytes, and the sum of its intermediate values, modulo 65521 |
| `Adler32.AdlerAppend` | native/src/utils/adler32.c:20-46 | checksums compose over concatenation |
| `Sha1.ChRewrite` | native/src/utils/sha.c:61-61 | the choice function as written agrees with section 4.1.1 of FIPS 180-4 |
| `Sha1.MajRewrite` | native/src/utils/sha.c:65-65 | so does the majority function |
| `Sha1.MakeSchedule` | native/src/utils/sha.c:39-49 | the message schedule of section 6.1.2 |
| `Sha1.RunRound` | native/src/utils/sha.c:58-73 | one round of section 6.1.2 |
| `Sha1.Transform` | native/src/utils/sha.c:33-81 | the compression of section 6.1.2 |
| `Sha1.AbsorbBlocks` | native/src/utils/sha.c:92-105 | byte by byte or block by block, whole blocks lead to the same state |
| `Sha1.ShiftedDigit` | native/src/utils/sha.c:115-118 | the shifted octets are the big-endian length |
| `Sha1.Sha.constructor` | native/src/utils/sha.c:83-90 | the initial state holds the empty message |
| `Sha1.Sha.Update` | native/src/utils/sha.c:92-105 | after any update the context holds the message extended by the data |
| `Sha1.Sha.PadZeros` | native/src/utils/sha.c:112-114 | the padding loop ends, on the block boundary less eight |
| `Sha1.Sha.AppendLength` | native/src/utils/sha.c:115-118 | appends the length in bits, big-endian |
| `Sha1.Sha.WriteDigest` | native/src/utils/sha.c:120-126 | writes the state big-endian |
| `Sha1.Sha.Final` | native/src/utils/sha.c:106-129 | state and digest are the hash of the padded message of section 5.1.1 |
| `Sha1.HashChunks` | native/src/utils/sha.c:83-129 | for every split into updates the digest is the hash of the whole message |
| `Sha1Example.AbcDigest` | native/src/utils/sha.c:33-129 | the digest of "abc" is the one that FIPS 180-4 gives |
| `Timer.MillisBetween` | native/src/utils/timer.c:61-75 | the difference in microseconds over 1000, rounded down, for every pair of times |
| `Timer.Clock.Delete` | native/src/utils/timer.c:249-270 | signs exactly that timer as deleted and says whether it was listed |
| `Timer.Clock.Synchronize` | native/src/utils/timer.c:84-130 | drops deleted timers and charges the others, never below zero; drops all when stopped |
| `Timer.Clock.Ring` | native/src/utils/timer.c:148-166 | calls back exactly the due timers in order, restarts or ends each, and records deletions by callbacks |
| `Timer.Clock.Step` | native/src/utils/timer.c:138-170 | one whole step |
| `Timer.FiresExactly` | native/src/utils/timer.c:138-170 | a timer fires exactly if the clock runs, it was not signed as deleted before the step, and its time is up |
| `Timer.DeadStays` | native/src/utils/timer.c:103-108 | a timer that is not live does not fire and stays so |
| `Timer.NeverAgain` | native/src/utils/timer.c:138-170 | over every run a deleted or aborted timer never fires again |
| `Timer.EndedIsDead` | native/src/utils/timer.c:157-161 | an abort by the own callback, a deletion or a stop ends a timer |
| `Timer.SurvivesExactly` | native/src/utils/timer.c:148-166 | a live timer stays live exactly through the events that do not end it |
| `Timer.DeletedStillFires` | native/src/utils/timer.c:148-166 | a timer deleted by an earlier callback of the same step still fires in it |
| `Timer.NeverNegative` | native/src/utils/timer.c:110-117 | the time remaining is never negative in any run |
| `Timer.TickPaced` | native/src/utils/timer.c:84-170 | one tick keeps the account of time between firings |
| `Timer.Pace` | native/src/utils/timer.c:84-170 | in every run, k firings of a period `ms` under ticks of at most T took at least k ms and less than (k+1)(ms+T) |
| `Timer.SparedLives` | native/src/utils/timer.c:84-170 | a timer that nothing ends lives through the whole run |
| `Timer.KeepsFiring` | native/src/utils/timer.c:84-170 | over such a run of total time E it has fired k times with k ms <= E < (k+1)(ms+T), so it fires again and again |

## Left out

- Sockets, the event loop, real time and the pthread primitives: locks are atomic steps or regions without interference, waiting is a parameter (`Wake`), and elapsed times are inputs.
- Connection.Connection.Enqueue: received headers with a negative body length are excluded; the code hands them to a read with a negative count, which leaves the ring undefined.
- Connection.Connection.ReceiveAll: streams with such a header are excluded for the same reason.
- C integer overflow of sizes and counts: sizes are unbounded integers.
- The -3 return of `ep_io_enqueue` for an unknown descriptor, and the lookup of connections by descriptor: the model has one connection object.
- Transform.Buffer.Encrypt: the bytes behind the buffer that the cipher reads past its end are a parameter (`slack`); the theorems hold for all of them.
- Transform.Buffer.Decrypt: an announced size that is negative or beyond the decrypted memory is excluded; the code takes it over and later reads outside its allocation.
- Transform.Recombine: the same announced sizes are excluded.
- Transform.Buffer.Compress: the allocation multiplies by 1.01 in exact arithmetic instead of doubles.
- bzip2, OpenSSL and the block cipher itself (tables, key schedule): abstract functions with inverse laws. ECB and CFB modes are not modelled.
- Header bit-fields are laid out as gcc does on a little-endian machine.
- `ep_io_nodify_fd` for all or for other connections (one buffer on many queues), removing a connection while tokens are queued, and send errors.
- Stopping the token queue when the manager is destroyed: `SendProtocol.Queue.Get` covers it, the protocol has no such step.
- Thread pool: registration concurrent with destruction, waiting for a single worker, and failing thread creation.
- Reference counts and the session lock held between `session_ref_*` and `session_dref`; the unlocked list walk in `session_ref_*` is taken as atomic. Heartbeat expiry is not modelled.
- Account rows, password checks and authorisation: the database answers are parameters of `Sessions.Login` and `Sessions.TokenLogin`.
- CSV: separators of more than one byte, null values, column headers, line numbers and warnings.
- Tokenizer.ResolveBackslashes: calls that read outside the line's memory are excluded, because their effect is undefined.
- Tokenizer.CopyResolved: the same calls are excluded.
- Tokenizer.Tokenize: lines on which the loop reads outside their memory are excluded.
- Rc4.Codec: an empty key is excluded, because the code takes an index modulo the key length.
- InitialVector.InitKey: ends before the MD5 digest of the bytes, and excludes the seed whose successor does not fit 32 bits.
- Key derivation from passwords, rekeying and the pager hooks of the codec.
- OrderStatistics.OrdersLawful: doubles are exact reals; NaN is not modelled.
- OrderStatistics.FinishDoubles: doubles are exact reals.
- OrderStatistics.ModeCtx.Finish: doubles are exact reals; 32-bit counts are exact below 2^31 rows (`OrderStatistics.CountsFit`).
- OrderStatistics.ModeCtx.Median: as for `OrderStatistics.ModeCtx.Finish`.
- OrderStatistics.ModeCtx.LowerQuartile: as for `OrderStatistics.ModeCtx.Finish`.
- OrderStatistics.ModeCtx.UpperQuartile: as for `OrderStatistics.ModeCtx.Finish`.
- Variance.MeanStep: exact reals instead of doubles.
- Variance.SpreadStep: exact reals instead of doubles.
- Variance.StdevCtx.Step: exact reals instead of doubles.
- Variance.StdevCtx.Finish: exact reals instead of doubles.
- Square roots (`stdev`) and freeing the tree.
- Crc32.Crc32: `unsigned long` is 32 bits wide; high bits of a wider running value are not modelled.
- Sha1.Sha.Update: negative lengths are not modelled.
- Timers created inside a callback, and the thread that drives the steps.
- User interface, SQL building, client request wrappers, logging and samples.
