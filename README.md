# Systems-programming labs in Dafny: sorting, a user-space file system, a chat

This project models three labs of a C systems-programming course and proves
properties of the models.

- **lab1, sorting** (`sorting.dfy`, module `Sorting`). This is the sorting
  core of a program that sorts the numbers of several files and merges them.
  - Quicksort works in place on an array. The pivot is the median of the first,
    middle and last elements, and a Lomuto-style partition puts it in place.
  - The two-way `merge` writes into a result array.
  - `MergeSortedArrays` merges a list of sorted arrays pairwise, round after
    round, until one array is left.
  - `lab1/main.c` repeats `swap`, `GetMedianPivotIndex`, `QuickSortHelper`,
    `QuickSort` and `merge` line for line. The model of the `lab1/solution.c`
    copy covers both.
- **lab3, userfs** (`userfs.dfy`, module `UserFS`). This is an in-memory file
  system with a global list of files and a descriptor table.
  - Each file is stored in 512-byte blocks, and no file grows past 102400
    blocks.
  - The descriptor table is an array that doubles when it is full. A new
    descriptor takes the lowest free slot.
  - `ufs_open`, `ufs_write`, `ufs_read`, `ufs_close` and `ufs_delete` work on
    this state. A deleted file is hidden at once and is freed when its last
    descriptor closes.
  - The table is a `class` with an `array` field. Files and descriptors are
    classes whose fields the operations update in place.
- **lab5, chat** (`framing.dfy`, `chat_server.dfy`, `chat_client.dfy`; modules
  `Framing`, `ChatServer`, `ChatClient`). This is a non-blocking chat server and
  client.
  - The server keeps its peers with their output queues, a queue of received
    messages and an input buffer.
  - It splits a peer's read into lines. A peer's first line is its name, and
    each later line is a message. It broadcasts `author\nbody\n` pairs to the
    other peers.
  - The client queues output, sends its name first and then the complete-line
    prefix of its buffer. It parses incoming pairs back into messages.
  - `Framing` holds the parts the two sides share:
    - the C-string view of a buffer;
    - newline framing;
    - the batch format and its parser, with the round trip between them;
    - the stand-ins for `send()` and `recv()`.
  - A `send()` is modelled by a script of outcomes. Each outcome says how many
    bytes were accepted, or would-block, or failure.
  - A `recv()` loop is modelled by a sequence of received chunks.

Each method with a loop is proved against a specification function on
sequences, and the properties the code promises are proved as lemmas about
those functions:
- permutation and sortedness for sorting;
- read-back of written bytes and reference-count bookkeeping for userfs;
- framing round trips for the chat.

Where the C code has a bug, the project models the behaviour as written. A
concrete lemma exhibits the bug, and the corrected behaviour is what the class
methods implement (see "## Findings").

## Model

| member | source | states |
|---|---|---|
| Sorting.Median3 | lab1/solution.c:83-117 | the value picked out of the first, middle and last values lies between the other two |
| Sorting.MedianPivotIndex | lab1/solution.c:83-117 | GetMedianPivotIndex returns s, the middle index or e, and the value there is the median of the three values |
| Sorting.Swap | lab1/solution.c:76-81 | exchanges a[i] and a[j]; every other element is unchanged (same code at lab1/main.c:4-9) |
| Sorting.Partition | lab1/solution.c:121-140 | the returned index p lies in [s, e] and holds the median-of-three value; everything before p in the range is smaller and everything after is at least as large; the range is a permutation of its old contents and nothing outside it changes |
| Sorting.SortedAroundPivot | lab1/solution.c:148-153 | a partitioned range whose two sides are sorted is sorted |
| Sorting.SortBothSides | lab1/solution.c:148-153 | sorting both sides of a partition keeps the range a permutation of its contents before the partition, and sorted |
| Sorting.QuickSort | lab1/solution.c:142-154 | a[s..e] ends sorted and a permutation of its old contents; elements outside are unchanged (same code at lab1/main.c:68-77) |
| Sorting.MergeSeq | lab1/solution.c:182-200 | the merge of two sequences has as many elements as both together |
| Sorting.MergePermutation | lab1/solution.c:182-200 | the merge is a permutation of the two inputs together |
| Sorting.MergeSorted | lab1/solution.c:186-199 | two ascending inputs merge into an ascending output |
| Sorting.MergeTieTakesSecond | lab1/solution.c:187-191 | on equal heads the element of the second array is taken first |
| Sorting.CopyRemaining | lab1/solution.c:194-199 | the tail-copy loop copies the rest of one input after position k and leaves the other slots alone |
| Sorting.Merge | lab1/solution.c:182-200 | result[..size1+size2] becomes the merge of arr1[..size1] and arr2[..size2]; the rest of result is unchanged (same code at lab1/main.c:79-98) |
| Sorting.MergeRound | lab1/solution.c:209-233 | one round halves the number of arrays, rounding up |
| Sorting.MergeRoundAt | lab1/solution.c:211-233 | array t of a round is the merge of arrays 2t and 2t+1, or the odd last array carried over |
| Sorting.MergeRoundElements | lab1/solution.c:211-233 | a round keeps the multiset of all elements and the total size |
| Sorting.MergeRoundSorted | lab1/solution.c:211-233 | a round of sorted arrays yields sorted arrays |
| Sorting.MergeAllCorrect | lab1/solution.c:202-235 | the final array holds exactly the elements of all inputs (as a multiset), its size is the sum of sizes, and it is sorted when the inputs are |
| Sorting.MergePair | lab1/solution.c:213-228 | a fresh array holding the merge of two arrays |
| Sorting.MergeRoundArrays | lab1/solution.c:209-233 | the contents of the new arrays are one round over the contents of the old ones |
| Sorting.MergeSortedArrays | lab1/solution.c:202-235 | the returned array's contents are all rounds applied to the inputs' contents |
| UserFS.FlattenAt | lab3/userfs.c:179-201 | byte p of a file's blocks lives in block p / 512 at index p % 512 |
| UserFS.ReadFromBlock | lab3/userfs.c:273-283 | byte i of block k is byte 512k+i of the file's contents when the file reaches that far |
| UserFS.PutByte | lab3/userfs.c:199-209 | one byte written at p overwrites inside the file or appends at its end; the bytes before p stay the same, and so do the bytes after it |
| UserFS.WriteIntoBlock | lab3/userfs.c:199-209 | storing a byte in block k at index i and growing the size to cover it is PutByte at offset 512k+i of the contents |
| UserFS.AppendBlockKeepsData | lab3/userfs.c:186-197 | a block appended past the end of the file leaves its contents unchanged |
| UserFS.SpliceLength | lab3/userfs.c:205-208 | after a write the size is the larger of the old size and the end of the write |
| UserFS.SpliceReadBack | lab3/userfs.c:249-257 | written bytes read back from the same offset; nothing before them changes |
| UserFS.Accepted | lab3/userfs.c:186-214 | the block limit lets through at most n bytes, and lets through fewer only when the write reaches 102400 blocks of 512 bytes |
| UserFS.NoHolders | lab3/userfs.c:369-385 | a file has no holders exactly when no open descriptor refers to it |
| UserFS.Padded | lab3/userfs.c:99-111 | the grown table keeps the old slots and the new slots are empty |
| UserFS.GrownCapacity | lab3/userfs.c:99-108 | the capacity after the growth step has room for one more descriptor |
| UserFS.FirstVisible | lab3/userfs.c:82-95 | the index found is a file that is not deleted and has the name |
| UserFS.FirstVisibleIsFirst | lab3/userfs.c:84-93 | no earlier file (no file at all when none is found) is visible under the name |
| UserFS.Unlink | lab3/userfs.c:333-355 | unlinking node k drops exactly that position and keeps the others in order |
| UserFS.UnlinkRemoves | lab3/userfs.c:330-355 | in a list without duplicates the unlinked file is gone, every other file stays and there are still no duplicates |
| UserFS.UnlinkAsWritten | lab3/userfs.c:333-355 | the unlink as written agrees with Unlink except when removing a head with successors |
| UserFS.UnlinkHeadAsWritten | lab3/userfs.c:343-351 | as written, deleting the first of two files leaves it reachable at the head |
| UserFS.FdGuardOffByOne | lab3/userfs.c:223-227 | the guard `fd > capacity` lets fd == capacity through, one past the last slot |
| UserFS.File.constructor | lab3/userfs.c:121-128 | a new file has the name, no blocks, size 0, one reference and is not deleted |
| UserFS.FileDesc.constructor | lab3/userfs.c:162-167 | a new descriptor refers to the file with the flags and position 0 |
| UserFS.FileSystem.constructor | lab3/userfs.c:54-74 | the file system starts with no files, an empty descriptor table and no error |
| UserFS.FileSystem.SearchFilesFor | lab3/userfs.c:82-95 | returns the first file with the name that is not deleted, or null |
| UserFS.FileSystem.Open | lab3/userfs.c:97-172 | grows a full table; a missing file without the create flag fails with NO_FILE, keeping the grown table and changing nothing else; otherwise the first visible file (or a new one appended to the list) gets a fresh descriptor in the lowest free slot, its reference count rises by one and the descriptor count by one |
| UserFS.FileSystem.OpenInFreeSlot | lab3/userfs.c:113-171 | the body of ufs_open once a slot is free: the same outcomes with the table not reallocated |
| UserFS.FileSystem.OpenNew | lab3/userfs.c:121-171 | a file created for the name gets a descriptor in the lowest free slot |
| UserFS.FileSystem.Reopen | lab3/userfs.c:146-171 | an existing file gets one more reference and a descriptor in the lowest free slot |
| UserFS.FileSystem.CreateFile | lab3/userfs.c:121-144 | appends a fresh empty file with one reference to the list |
| UserFS.FileSystem.TakeReference | lab3/userfs.c:148-149 | the file's reference count rises by one |
| UserFS.FileSystem.Install | lab3/userfs.c:162-170 | stores a fresh descriptor in an empty slot; the count rises by one and the bookkeeping stays valid |
| UserFS.FileSystem.Grow | lab3/userfs.c:99-111 | a full table is replaced by one of capacity 1, or double, holding the old slots followed by empty ones |
| UserFS.FileSystem.LowestFreeSlot | lab3/userfs.c:152-160 | returns an empty slot with every slot before it occupied |
| UserFS.FileSystem.FullyDeleteFile | lab3/userfs.c:330-367 | a deleted file that nothing holds is unlinked from the list; otherwise the list is unchanged |
| UserFS.FileSystem.Close | lab3/userfs.c:369-385 | an fd that is not open fails with NO_FILE and changes nothing; otherwise the slot is emptied, the count drops, the file loses one reference and the last close of a deleted file unlinks it |
| UserFS.FileSystem.Delete | lab3/userfs.c:387-401 | a missing name fails with NO_FILE; otherwise the file is marked deleted, is unlinked at once if nothing holds it, and 0 is returned |
| UserFS.FileSystem.Hide | lab3/userfs.c:395-399 | marks the file deleted and unlinks it when its reference count is 0 |
| UserFS.FileSystem.Write | lab3/userfs.c:220-261 | an fd that is not open fails with NO_FILE; a read-only descriptor fails with NO_PERMISSION; otherwise the contents become the old contents with the accepted bytes spliced in at the position, the position advances by as many, and a write cut short by the block limit sets NO_MEM and still returns the full length |
| UserFS.FileSystem.WriteOpen | lab3/userfs.c:235-257 | on an open descriptor, splices the accepted bytes in at the position, adding the first block if the file has none |
| UserFS.FileSystem.AddFirstBlock | lab3/userfs.c:237-247 | an empty file gets one blank block and its contents stay empty |
| UserFS.FileSystem.WriteBlocks | lab3/userfs.c:249-257 | the write loop over a file that has blocks, in terms of the descriptor table |
| UserFS.FileSystem.WriteAll | lab3/userfs.c:249-257 | the write loop: the contents become the splice of the accepted bytes and the position advances by as many |
| UserFS.FileSystem.WriteAtI | lab3/userfs.c:174-218 | succeeds exactly below the block limit, and then puts the byte at the position (allocating a block at a block boundary) and advances the position; a refused write changes nothing |
| UserFS.FileSystem.ReadAtI | lab3/userfs.c:263-294 | at the end of the file returns -1 and keeps the position; otherwise returns the byte of the contents at the position and advances it |
| UserFS.FileSystem.Read | lab3/userfs.c:296-328 | an fd that is not open fails with NO_FILE; a write-only descriptor fails with NO_PERMISSION; otherwise the buffer starts with the min(size, remaining) bytes of the contents from the position and the position advances by that count |
| UserFS.FileSystem.ReadAll | lab3/userfs.c:313-327 | the read loop copies the contents from the position up to size bytes or the end of the file |
| Framing.Millis | lab5/chat_server.c:510 | the conversion of seconds to milliseconds truncates: ms <= t*1000 < ms+1 |
| Framing.WaitMillis | lab5/chat_server.c:496-510 | NOT_STARTED exactly while there is no socket; otherwise the timeout in whole milliseconds, with a negative timeout raised to 0; the same guard and clamp head chat_client_update (lab5/chat_client.c:395-407), with the cast placed as intended |
| Framing.Receive | lab5/chat_server.c:431-446 | the recv loop collects the chunks up to the first empty one or the call limit |
| Framing.CStr | lab5/chat_server.c:474-480 | the C-string view is the prefix before the first NUL, and the whole buffer when there is none |
| Framing.NewlineAt | lab5/chat_server.c:450-456 | the index of the first newline, or -1 when there is none |
| Framing.LinesJoin | lab5/chat_server.c:448-488 | the lines of a buffer, each followed by a newline, plus the trailing fragment spell the buffer; none of them holds a newline |
| Framing.LinesOfJoin | lab5/chat_server.c:448-488 | splitting newline-free lines written out with newlines gives back those lines and the fragment |
| Framing.EncodeAppend | lab5/chat_server.c:356-381 | the batch of two runs of messages is the concatenation of their batches |
| Framing.EncodeSnoc | lab5/chat_server.c:366-379 | one more message appends its author line and its body line to the batch |
| Framing.PairsSplit | lab5/chat_client.c:374-390 | keeping the unfinished pair and scanning it again with the next bytes loses and repeats nothing: the pairs of a + b are the pairs of a followed by the pairs of the kept tail of a plus b, and the kept points agree |
| Framing.RoundTrip | lab5/chat_client.c:332-373 | the client's pair scan of a batch the server encoded gives back exactly those messages, when no author or body holds a newline or NUL |
| ChatServer.Lookup | lab5/chat_server.c:191-201 | returns -1 or the index of a peer with the socket |
| ChatServer.LookupFirst | lab5/chat_server.c:193-199 | no peer before the one found has the socket, and no peer at all has it when none is found |
| ChatServer.LookupUnique | lab5/chat_server.c:191-201 | with distinct sockets, the peer holding a socket is the one found |
| ChatServer.Remove | lab5/chat_server.c:116-139 | the registry loses exactly one entry |
| ChatServer.RemoveForgets | lab5/chat_server.c:113-142 | after removal the socket is no longer found and sockets stay distinct |
| ChatServer.StampSnoc | lab5/chat_server.c:473-484 | one more line adds one message with the peer's name and the line as a C string |
| ChatServer.BatchDecodes | lab5/chat_server.c:343-384 | the batch of the pending messages is what a client decodes back into exactly those messages |
| ChatServer.Flush | lab5/chat_server.c:301-328 | the bytes sent stay between the count already sent and the queue size; the loop ends short without blocking only after a send returned 0 |
| ChatServer.FlushDrains | lab5/chat_server.c:301-328 | a peer that keeps taking bytes and never blocks receives its whole queue |
| ChatServer.CompactAsWritten | lab5/chat_server.c:310-317 | the would-block compaction as written keeps the queue's old length |
| ChatServer.CompactAsWrittenResends | lab5/chat_server.c:313-316 | as written, "abcdef" with 2 bytes sent leaves "cdef\0f" queued, 6 bytes long, which differs from the unsent bytes "cdef" that the corrected queue holds |
| ChatServer.ListenCode | lab5/chat_server.c:222-268 | listen returns 0 exactly when every step succeeds, and PORT_BUSY exactly when bind finds the address in use |
| ChatServer.ListenRetryRefusedAsWritten | lab5/chat_server.c:222-243 | as written, a listen that fails at bind keeps the socket, so the next listen returns ALREADY_STARTED |
| ChatServer.DisconnectWrongPeerAsWritten | lab5/chat_server.c:540 | as written, a closed connection on event 1 deletes the peer of event 0 |
| ChatServer.FragmentBroadcastRaw | lab5/chat_server.c:386-419 | a read without a newline is broadcast raw and the rest of the line becomes a message on its own |
| ChatServer.Server.constructor | lab5/chat_server.c:51-69 | no socket, no peers, no messages, no pending count, an empty input buffer |
| ChatServer.Server.FindPeer | lab5/chat_server.c:191-201 | returns the index of the first peer with the socket, or -1 when no peer has it |
| ChatServer.Server.DeletePeer | lab5/chat_server.c:113-142 | removes the peer with the socket and keeps the others in order; with no such peer nothing changes; afterwards no peer has the socket |
| ChatServer.Server.PopNext | lab5/chat_server.c:271-288 | returns and removes the oldest received message; None on an empty queue |
| ChatServer.Server.ConcatenateAuthorsAndMessages | lab5/chat_server.c:343-384 | with messages pending, the input buffer becomes their batch; with none, it is unchanged; the pending count drops to 0 |
| ChatServer.Server.SendMessageToClients | lab5/chat_server.c:386-419 | every peer except the sender gets the batch (or the raw input) appended to its queue; the input buffer is emptied and 0 is returned |
| ChatServer.Server.ReadMessageFromClient | lab5/chat_server.c:425-490 | returns the number of bytes read; a peer without a name takes its first line as its name, and every later complete line becomes a message from it, counted as pending |
| ChatServer.Server.ReadLines | lab5/chat_server.c:448-488 | the naming scan and the framing scan together give the new name and the new messages |
| ChatServer.Server.FrameLines | lab5/chat_server.c:450-487 | each line of the input buffer becomes one message from the named peer, in order |
| ChatServer.Server.TakeName | lab5/chat_server.c:456-471 | the bytes before the first newline become the peer's name and leave the input buffer; no other peer changes |
| ChatServer.Server.AddMessage | lab5/chat_server.c:473-485 | the line as a C string is queued as a message from the peer and counted as pending |
| ChatServer.Server.SendMessageToClient | lab5/chat_server.c:290-341 | an unknown socket gives -1; on would-block exactly the unsent bytes stay queued and the count sent is returned; otherwise the queue is emptied and 0 is returned |
| ChatServer.Server.GetEvents | lab5/chat_server.c:583-599 | no events before listen; input after it, and output exactly while some peer has bytes queued |
| ChatServer.Server.Listen | lab5/chat_server.c:209-269 | refused with ALREADY_STARTED once a socket is set; otherwise returns the step's code, and keeps the socket only on success |
| ChatServer.Server.ReadOrDrop | lab5/chat_server.c:530-541 | the read of ReadMessageFromClient; when it returns 0 the peer of that socket, and only it, is removed |
| ChatServer.BroadcastQueues | lab5/chat_server.c:390-404 | a broadcast keeps every peer's socket and name, leaves the sender's queue alone and appends the batch to every other queue |
| ChatServer.Server.ServeInput | lab5/chat_server.c:530-547 | the received messages grow by the lines framed from the read; after a non-empty read the peer takes its new name and every other peer gets the batch of the pending messages (or the raw read) appended; after an empty read the peer is removed and the others get the batch of what was already pending; the input buffer is emptied |
| ChatClient.Wrap32 | lab5/chat_client.c:492 | the conversion to uint32_t lies in [0, 2^32) and is congruent to its argument modulo 2^32 |
| ChatClient.FullAfter | lab5/chat_client.c:511-517 | after a scan the mark sits one past the last newline scanned, or is unchanged when there is none |
| ChatClient.ScanFull | lab5/chat_client.c:511-517 | the feed's scan loop computes FullAfter over the appended bytes |
| ChatClient.FeedKeepsMark | lab5/chat_client.c:495-524 | appending and scanning keeps the mark right after a newline, with no newline after it |
| ChatClient.SendLoop | lab5/chat_client.c:236-277 | the bytes sent stay within the prefix, the loop is Done exactly when all of it went out, and the bytes sent number at most ten times 10240 (BUF_LIMIT); the cap of 10240 bytes on each single call is applied in the body and not stated on its own |
| ChatClient.SendLoopDrains | lab5/chat_client.c:236-277 | a socket that takes whole chunks and never blocks empties a prefix of at most ten chunks |
| ChatClient.CompactAsWritten | lab5/chat_client.c:256-263 | the would-block compaction as written drops the bytes sent |
| ChatClient.CompactAsWrittenClobbers | lab5/chat_client.c:258-262 | as written, "ab\ncd" with one byte sent becomes "b\n\0d", losing the 'c' of the unfinished line, which differs from the unsent bytes "b\ncd" that the corrected buffer holds |
| ChatClient.NameLoop | lab5/chat_client.c:191-215 | the bytes of the name line sent stay within it, and a loop that sent all of it did not block |
| ChatClient.RawEmptyAuthorAsWritten | lab5/chat_client.c:341-372 | as written, "\nhi\n" parses to a message with neither author nor body, where the format holds ("", "hi") |
| ChatClient.LeadingSpaces | lab5/chat_client.c:462-472 | the count of spaces at the front: all spaces, followed by a non-space or the end |
| ChatClient.SpacesBefore | lab5/chat_client.c:477-487 | the count of spaces running down from index i, stopping at a non-space or the start |
| ChatClient.TrimEnd | lab5/chat_client.c:477-491 | the end of the intended trimmed text: only spaces follow it up to the last character, and the byte before it is no space |
| ChatClient.Trim | lab5/chat_client.c:458-493 | the intended trim: never longer than the line, empty exactly for an all-space line, and otherwise starts with a non-space and ends with the line's last character |
| ChatClient.TrimShape | lab5/chat_client.c:458-493 | the intended trim of a line made of leading spaces, a text without spaces at its ends, and spaces before the final character is that text followed by the final character |
| ChatClient.TrimIdempotent | lab5/chat_client.c:458-493 | trimming a line that ends in a non-space twice changes nothing more |
| ChatClient.TrimAsWrittenAgrees | lab5/chat_client.c:458-493 | on a line with no leading space that ends in a newline, trim_message as written returns the trimmed line's length and the buffer starts with it |
| ChatClient.TrimAsWrittenKeepsSpaces | lab5/chat_client.c:473-491 | as written, "  hi  \n" keeps its trailing spaces and returns 4, where "hi\n" was meant |
| ChatClient.TrimAsWrittenWraps | lab5/chat_client.c:492 | as written, a line of three spaces returns -2, which wraps to 2^32 - 2, where the empty line was meant |
| ChatClient.PollMillisAsWrittenTruncates | lab5/chat_client.c:407 | as written, a timeout of 0.5 s polls for 0 ms, where 500 ms were meant |
| ChatClient.CountFront | lab5/chat_client.c:462-472 | the front scan counts the leading spaces |
| ChatClient.ShiftDown | lab5/chat_client.c:473-476 | the bytes after the leading spaces move to the front and the rest of the array is unchanged |
| ChatClient.TrimFront | lab5/chat_client.c:462-476 | the front scan and the shift: the count is the number of leading spaces and the buffer becomes the line shifted down over them |
| ChatClient.CountBack | lab5/chat_client.c:477-487 | the back scan counts the spaces running down from index size-2 |
| ChatClient.TrimBack | lab5/chat_client.c:477-491 | the back scan, plus the newline stored after the last non-space when it found spaces |
| ChatClient.MarkNewline | lab5/chat_client.c:488-491 | stores a newline at one index and changes nothing else |
| ChatClient.TrimMessage | lab5/chat_client.c:458-493 | the buffer ends as trim_message as written leaves it, and the count it returns wraps to uint32_t |
| ChatClient.Client.constructor | lab5/chat_client.c:45-70 | no socket, empty buffers, nothing received, no POLLOUT, and the name as a C string not yet sent |
| ChatClient.Client.Connect | lab5/chat_client.c:98-159 | ALREADY_STARTED once connected; NO_ADDR for an unresolved address; SYS with no socket when every address refuses; otherwise stores the socket and asks for input only |
| ChatClient.Client.Feed | lab5/chat_client.c:495-524 | NOT_STARTED without a socket; otherwise appends the bytes, moves the mark past the last newline, and asks for POLLOUT while a complete line is queued |
| ChatClient.SendPrefix | lab5/chat_client.c:236-277 | the send loop over the complete lines ends as SendLoop says, and the bytes it hands to the socket are exactly the sent prefix of the buffer |
| ChatClient.SendNameFrom | lab5/chat_client.c:191-215 | the send loop over the name line ends as NameLoop says, and the bytes it hands to the socket are exactly those from the resume point to the end of what was sent |
| ChatClient.Client.SendBuf | lab5/chat_client.c:226-289 | with no complete line returns 0 and changes nothing; Done removes the sent prefix, clears the mark and POLLOUT; would-block removes the bytes sent and lowers the mark by as many; a broken send (an error other than would-block, or 0 returned) changes nothing even after earlier calls sent part of the prefix, so the next call sends those bytes again, as the C does |
| ChatClient.Client.SendClientName | lab5/chat_client.c:180-224 | sends the name line from where the last call stopped; on would-block records how far it got, otherwise the name counts as sent |
| ChatClient.Client.ReceiveBuf | lab5/chat_client.c:291-393 | returns the bytes received; with none nothing changes; otherwise every complete author and body line pair becomes one message in order, and the unfinished pair stays in the buffer, which Framing.PairsSplit shows is the right carry-over |
| ChatClient.Client.PopNext | lab5/chat_client.c:161-178 | returns and removes the oldest received message; None on an empty queue |
| ChatClient.Client.GetEvents | lab5/chat_client.c:444-456 | no events before connect; input after it, and output exactly while POLLOUT is requested |
| ChatClient.Client.OutputWhileLinesQueued | lab5/chat_client.c:444-456 | with a connection, output is requested whenever a complete line is queued |

## Left out

- Memory management is left out: `malloc`, `realloc` and `free` are not modelled, and allocation failure (`abort`) is not a path. Freed blocks and files simply become unreachable.
- Console output (`printf`, `perror`) is left out.
- The coroutine scheduling of lab1 (`coro_yield` and the other coroutine calls), reading numbers from files (`ReadNumsFromFile`), writing the result, and `main` are left out. They are I/O and scheduling around the sort.
- Sorting.MergeSortedArrays: the C function ends without returning its recursive result (lab1/solution.c:234). The model returns that result, which is what the caller uses.
- Sorting.MergeSortedArrays requires at least one array. With none, the C function recurses without end (lab1/solution.c:205-234), so there is no result to model.
- Sorting: `int` is modelled as unbounded. The `(s + e) / 2` midpoint cannot overflow for the array sizes involved.
- The `occupied` field of `struct block`, `number_of_blocks` and the capacities of the C buffers are left out. The model's sequences and arrays carry their own lengths.
- UserFS.FileSystem.WriteAtI returns whether the byte was stored. `ufs_write`'s loop sets NO_MEM from it, where the C code sets the error inside `writeAtI`. The outcome is the same.
- UserFS.FileSystem.ReadAtI returns the byte it reads rather than storing it through a pointer.
- UserFS: a fresh block's bytes are unspecified in C. The model fills them with a fixed value, which is never read before it is written.
- UserFS.FileSystem.WriteOpen: ufs_open never initialises last_block (lab3/userfs.c:113-128), and ufs_write tests it to decide whether to create the first block (lab3/userfs.c:237). The model takes a new file's last_block as NULL, i.e. it tests for an empty block list; a garbage value, which would make writeAtI dereference the NULL block_list, is not modelled.
- UserFS: the slots that `realloc` adds to the descriptor table are modelled as empty (null). The C code relies on them being free but never clears them.
- UserFS: the `(int)size` casts of `ufs_write` and `ufs_read` are left out. Sizes are unbounded naturals.
- UserFS: `ufs_destroy` and the file-descriptor helpers outside the named operations are not part of this model.
- Sockets, `epoll`, `poll`, `accept`, `connect`, `bind`, `listen` and `getaddrinfo` are not called. `send()` is a script of outcomes, `recv()` a sequence of chunks, and the listen and connect steps an outcome value.
- chat.h, which numbers the error codes and event bits, is not part of this model. The codes appear as constructors.
- The event-dispatch loops of `chat_server_update` and `chat_client_update` are left out: the iteration over the ready events and `accept_new_peer`. Their branches are modelled one at a time by ServeInput, SendMessageToClient, SendBuf, SendClientName and ReceiveBuf.
- ChatServer.Server.ReadMessageFromClient requires an empty input buffer. Every path through `chat_server_update` on which epoll_ctl succeeds leaves the buffer empty after a broadcast, so on those paths a read always starts from an empty buffer.
- ChatServer.Server.SendMessageToClients, ChatServer.Server.SendMessageToClient and ChatServer.Server.ServeInput: epoll_ctl is assumed to succeed; the CHAT_ERR_SYS returns at lab5/chat_server.c:336-339, 410-413 and 534-538 are not modelled. A failed EPOLL_CTL_MOD inside the broadcast loop would skip the remaining peers and leave the input buffer's size set, and it can happen as written: after the event-0 deletion bug one socket is closed while its peer stays registered.
- ChatServer.CompactAsWritten: the would-block branch of send_message_to_client (lab5/chat_server.c:313-315) copies `size - pointer + 1` bytes and so reads one byte past the queue allocated at lab5/chat_server.c:399; with nothing sent it also writes the NUL there. That out-of-bounds access is undefined behaviour and is not modelled: the function keeps the queue's length and, with nothing sent, returns the queue unchanged.
- ChatClient.ShiftDown: trim_message moves the text with `memcpy` over overlapping bytes (lab5/chat_client.c:475), which is undefined behaviour. The model copies forward, as `memmove` would, and the buffer that ChatClient.TrimAsWrittenKeepsSpaces shows depends on that choice.
- ChatServer.Server.ReadLines models read_message_from_client's framing loop, which restarts at the top of the buffer after taking the name, as a scan for the name followed by a scan for the lines.
- The doubling of the receive buffers' capacity is left out. The recv calls are modelled by the chunks, whatever buffer size they arrive in.
- ChatClient.Client.Connect is reduced to the outcome of the address lookup and the connect attempts. Its PORT_BUSY branch (lab5/chat_client.c:147-151) is unreachable, because `connect` does not report that code there.
- ChatClient.Client.Feed does not trim the message, although trim_message exists. The C feed never calls trim_message, and the model follows the code.
- ChatServer.Flush and ChatServer.Server.SendMessageToClient: a send that keeps failing with an error other than would-block makes the C loop retry forever (lab5/chat_server.c:303-318). The model's script of outcomes is finite, and once it runs out every further call reads as would-block, so that endless retry is not modelled.
- ChatServer.Server.Listen reduces the operating-system steps of chat_server_listen (socket, setsockopt, bind, listen, epoll_create, epoll_ctl) to the first step that fails.
- Framing.WaitMillis models the double timeout as a `real`. Floating-point rounding is not modelled.
- `chat_server_get_descriptor`, `chat_client_get_descriptor` and `chat_server_feed` are stubs and are left out. So are labs 2 and 4.

## Findings

| source | as written | input that shows it | evidently intended | confidence | as-written member | corrected member |
|---|---|---|---|---|---|---|
| lab3/userfs.c:223-227 | the descriptor guard refuses only `fd > capacity` (the same guard is in ufs_read and ufs_close) | fd equal to the table's capacity reads one slot past the table | refuse `fd >= capacity` | not executed | UserFS.FdGuardOffByOne | UserFS.FileSystem.Write |
| lab3/userfs.c:343-351 | unlinking a file that is the head of the list and has a successor repairs the neighbours' links but leaves the list head on it | files [A, B], delete A with no descriptor open: A is freed and still reached at the head | move the head to the successor | not executed | UserFS.UnlinkHeadAsWritten | UserFS.UnlinkRemoves |
| lab5/chat_server.c:313-316 | on would-block the unsent bytes move to the front, but the queue size is not reduced | queue "abcdef", 2 bytes sent, then would-block: "cdef\0f" stays queued with size 6 | the size drops by the bytes sent | not executed | ChatServer.CompactAsWrittenResends | ChatServer.Server.SendMessageToClient |
| lab5/chat_server.c:540 | a closed connection deletes the peer of event 0, not of the current event | events on sockets 5 and 7, peer 7 closes: peer 5 is deleted | delete the peer of the current event | not executed | ChatServer.DisconnectWrongPeerAsWritten | ChatServer.Server.ServeInput |
| lab5/chat_server.c:222-243 | the socket is stored before the later steps, and a failure leaves it set | bind finds the port busy: PORT_BUSY, and every later listen returns ALREADY_STARTED | reset the socket to -1 on failure | not executed | ChatServer.ListenRetryRefusedAsWritten | ChatServer.Server.Listen |
| lab5/chat_client.c:258-262 | on would-block the NUL goes at the end of the remaining complete lines, over the unfinished line behind them | "ab\ncd" with 3 complete bytes, 1 sent: "b\n\0d" | the unsent bytes moved intact | not executed | ChatClient.CompactAsWrittenClobbers | ChatClient.Client.SendBuf |
| lab5/chat_client.c:353-370 | an author line that ends at index 0 is taken as "no author yet", and the body is dropped | batch "\nhi\n" from a peer with an empty name: a message with no author and no body | the message ("", "hi") | not executed | ChatClient.RawEmptyAuthorAsWritten | ChatClient.Client.ReceiveBuf |
| lab5/chat_client.c:473-491 | the back scan runs over the buffer after the shift, from the old end; trim_message has no caller, so the defect is latent | "  hi  \n": buffer "hi  \n\n\n", count 4 | "hi\n", count 3 | not executed | ChatClient.TrimAsWrittenKeepsSpaces | ChatClient.TrimShape |
| lab5/chat_client.c:492 | the count `msg_size - front - back` can go negative and is returned as uint32_t; trim_message has no caller, so the defect is latent | "   ": count -2, returned as 4294967294 | count 0 for an all-space line | not executed | ChatClient.TrimAsWrittenWraps | ChatClient.Trim |
| lab5/chat_client.c:407 | `(int)timeout * 1000` casts the seconds before multiplying | timeout 0.5 s: poll for 0 ms | `(int)(timeout * 1000)`, 500 ms | not executed | ChatClient.PollMillisAsWrittenTruncates | Framing.WaitMillis |
