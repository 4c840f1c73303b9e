# CryptoNote common algorithms, modelled and proved in Dafny

A model of the self-contained algorithms and small protocols of the CryptoNote repository, with proofs:

- **Addresses.** Seven-bit varints (`Varint`), base-58 blocks computed in wrapping 64-bit words
  (`Base58Tables`, `Base58Block`), whole strings (`Base58`) and tagged, checksummed addresses (`Address`).
  `Numerals` holds the positional-numeral theory they share. Every layer is proved to be a pair of mutual
  inverses, on exactly the inputs on which the code is one.
- **Shuffling.** The sparse Fisher-Yates generator (`Shuffle`): its hash map stands for an array, and draw
  sequences and permutations correspond one to one.
- **Blocking queue.** The monitor of `BlockingQueue` with any number of threads, both condition variables and
  spurious wake-ups (`BlockingQueue`, `BlockingQueueProofs`): no wake-up is lost, items leave in order, closing is
  final. `BlockingCalls` follows every call to its return, `BlockingMonitor` is the code of the critical sections, and
  `GroupClose` counts closers.
- **JSON.** Printing and parsing without REAL (`Json`, `JsonParse`, `JsonStream`, `JsonRoundTrip`): a value comes
  back from its text exactly when its strings and keys are clean. `JsonDocument` is the grammar: exactly the
  well-formed documents, in any layout and with repeated keys, are read, each to its meaning.
- **Pool updates.** The lock-free `PoolUpdateGuard` and the hand-off of an update through two callbacks
  (`PoolUpdate`), in every interleaving of loads and compare-and-swaps; `PoolCalls` accounts for every call and bounds
  the reruns; `PoolState` is the known pool and what the observers are told of it.
- **HTTP responses.** `getHTTPResponse` over arbitrary fragments: the end-of-headers scan (`HttpHeaders`), the
  resumable chunked reader (`HttpChunked`, `HttpChunkedProofs`), and the whole loop (`HttpResponse`), following
  section 4.1 of RFC 7230.
- **Base64.** The decoder against the encoding of section 4 of RFC 4648 (`Base64`).
- **String buffer.** Edits in one array against edits of a sequence, and substring searches (`StringBuffer`).

Code that works step by step is written as methods and classes and proved equal to a specification function; the
theorems are then about those functions. Concurrent code is a step relation, one step per critical section or per
atomic access, and its theorems are about every state of every run.

What enters as a parameter: the hash of an address (any function with 32-byte results), the random draws of the
generator, the fragments a socket delivers, and what the header lines of a response say (any function of what has
been received by then and of where the headers end). `mul128` is the exact product in two words and `SWAP64BE` a
big-endian byte order.

Properties that hold only under a condition, with the condition and an input that fails:

- Re-encoding an accepted address gives the address back exactly when some byte under the checksum has its high bit
  clear (`Address.EncodeOfDecodeAddr`; `Address.UnterminatedTag` is the failing family). `toVarint` reports running
  out of input as success, so a tag made only of continuation bytes is accepted.
- A JSON value comes back from its own text exactly when it is clean (`JsonRoundTrip.RoundTripExact`;
  `JsonRoundTrip.SpaceIsLost` is an input that fails), because strings are printed raw and read with white space
  dropped.
- Every cut of a chunked response is read to its data exactly when the headers give no content length or none below
  the true length (`HttpResponse.ChunkedResponseExact`; `HttpResponse.ShortLengthStops` is a cut that fails).
- A chunk-size line leaves exactly its size digits with the reader, under every cut, exactly when its extension has no
  hexadecimal digit or its size fills the 31 places for digits (`HttpChunkedProofs.SizeLineExact`;
  `HttpChunkedProofs.CutBeforeDigit` is a cut that fails).
- The copy of chunk data stays inside the received buffer exactly when the chunk size is below 2^31
  (`HttpChunked.CopyExact`).
- A header block is found to end at its blank line exactly when that line ends like the one before it
  (`HttpHeaders.ScanFindsBlock`).
- Every refused `beginUpdate` is followed by a successful one, in every run, exactly when neither the synchronization
  flag nor the observer count can close its gate (`PoolUpdate.GatesExact`; `PoolUpdate.UnsynchronizedForgets` and
  `PoolUpdate.UnobservedForgets` are runs that fail).
- An observer that agrees with the known pool agrees after an update exactly when the second request succeeded or the
  pool did not change (`PoolState.AgreementExact`, `PoolState.AlwaysAgreesExact`; `PoolState.LostReport` is a pair of
  updates after which it does not).
- The group counter never wraps, in any run, exactly when there are no more calls than members
  (`GroupClose.CounterExact`; `GroupClose.ExtraCallWraps` is a run that fails, for every size of group).
- Re-encoding what the Base64 decoder made of a symbol sequence gives the sequence back exactly when it is canonical
  (`Base64.SextetsOfBytes`).

Where the code and its comments disagree the model follows the code: `src/common/base58.cpp:175` says the weight
never overflows, yet it wraps after the last digit of an 11-symbol block; `Base58Block.SumDigits` shows that the
wrapped value is never used; and `src/common/StringBuffer.h:357` says that `findLast` looks for the first occurrence,
yet it finds the last (`StringBuffer.Buffer.FindLast`).

## Model

| member | source | states |
|---|---|---|
| Varint.FromVarint | src/common/binary.h:35-50 | the loop writes the canonical encoding of every 64-bit value |
| Varint.ToVarint | src/common/binary.h:52-84 | for every unsigned width the loop returns the length and value of the read, -1 or -2 as the read overflows or is not canonical, and never leaves the width |
| Varint.ReadOfEncoded | src/common/binary.h:35-84 | reading an encoding followed by anything gives the value and the exact length |
| Varint.EncodedOfRead | src/common/binary.h:61-83 | a read that stops on a byte with its high bit clear consumed exactly the canonical encoding of its result |
| Varint.ReadBound | src/common/binary.h:69-72 | such a read has a value that fits the width |
| Varint.ReadExact | src/common/binary.h:52-84 | a read stops with value v after k bytes if and only if the input starts with the canonical encoding of v, k is its length, and v fits |
| Varint.RanOutExact | src/common/binary.h:63-66 | a read runs out of input if and only if every byte asks for more and the width is not used up |
| Varint.ReadLength | src/common/binary.h:61-72 | no read takes more groups than the width has room for |
| Varint.GroupLands | src/common/binary.h:69-77 | the shifted group is never cut by the width and lands above the bits already set |
| Varint.EncodedGroups | src/common/binary.h:35-50 | an encoding holds the number in seven-bit groups, least significant first, with high bits on all bytes but the last and no needless last group |
| Varint.ReadGroups | src/common/binary.h:61-83 | whatever is read is the number in the bytes consumed |
| Varint.RefusedExact | src/common/binary.h:69-76 | a read overflows if and only if there are too many groups or the last has bits beyond the width, and is not canonical if and only if its last group adds nothing |
| Base58Tables.RankOfSymbol | src/common/base58.cpp:50-53 | the d-th letter of the alphabet has digit d |
| Base58Tables.SymbolOfRank | src/common/base58.cpp:50-53 | a letter with a digit is that letter of the alphabet |
| Base58Tables.ReverseTables.constructor | src/common/base58.cpp:57-93 | the loops fill both reverse tables so that every entry is the inverse of its forward table or -1 |
| Base58Tables.ReverseTables.Letter | src/common/base58.cpp:70-74 | looking a letter up gives its digit, or -1 for every other character |
| Base58Tables.ReverseTables.Size | src/common/base58.cpp:95-99 | looking a field width up gives its byte count, or -1 |
| Base58Block.Uint8beTo64 | src/common/base58.cpp:109-128 | shifting bytes into a 64-bit word gives their big-endian number without loss |
| Base58Block.Uint64To8be | src/common/base58.cpp:130-136 | writes the last bytes of the big-endian word in place and nothing else |
| Base58Block.FieldWideEnough | src/common/base58.cpp:52-54 | every field is wide enough: 256^s <= 58^e(s) |
| Base58Block.FieldNotTooWide | src/common/base58.cpp:52-54 | and no field is wider than it has to be: 58^(e(s)-1) < 256^s |
| Base58Block.SameNumber | src/common/base58.cpp:138-151 | a block of bytes and its symbols are the same number, in base 256 and base 58, at the width of the table |
| Base58Block.FillField | src/common/base58.cpp:143-150 | the digit loop stays inside its field, and the positions it does not reach are leading zero digits |
| Base58Block.EncodeBlock | src/common/base58.cpp:138-151 | fills exactly its field with the base-58 numeral of the block |
| Base58Block.WrapTest | src/common/base58.cpp:169-172 | the wrapped tests fire if and only if the true sum leaves 64 bits |
| Base58Block.OrderFits | src/common/base58.cpp:175 | every weight that is used equals 58^k |
| Base58Block.SumDigits | src/common/base58.cpp:161-176 | the loop over wrapping words returns the unbounded base-58 value, or refuses a block with a foreign symbol or a value out of range |
| Base58Block.DecodeBlock | src/common/base58.cpp:153-184 | accepts a block if and only if its length is valid, its symbols are in the alphabet and its unbounded value is below 256^s, and then writes that value |
| Base58Block.DecodeOfEncodeBlock | src/common/base58.cpp:138-184 | decoding an encoded block gives its bytes |
| Base58Block.EncodeOfDecodeBlock | src/common/base58.cpp:138-184 | encoding what an accepted block decodes to gives the block |
| Base58.Encode | src/common/base58.cpp:187-208 | the buffer built block by block is the encoding |
| Base58.Decode | src/common/base58.cpp:210-240 | accepts and decodes as the specification does, length check first |
| Base58.DecodeOfEncode | src/common/base58.cpp:187-240 | decode(encode(d)) is d for every byte string |
| Base58.EncodeOfDecode | src/common/base58.cpp:187-240 | encode(decode(e)) is e for every accepted string |
| Base58.DecodeExact | src/common/base58.cpp:210-240 | the accepted strings are exactly the image of encode, and decode inverts it there |
| Base58.EncodedLength | src/common/base58.cpp:187-199 | eleven symbols for every eight bytes and the table's width for the rest |
| Base58.BlockAt | src/common/base58.cpp:200-207 | block k of the text is the encoding of block k of the bytes |
| Address.EncodeAddr | src/common/base58.cpp:242-251 | builds the encoding of tag, data and the first four hash bytes |
| Address.DecodeAddr | src/common/base58.cpp:253-274 | accepts and splits as the specification does, with a 64-bit tag |
| Address.DecodeOfEncodeAddr | src/common/base58.cpp:242-274 | every 64-bit tag and every data come back from their address, under every hash |
| Address.EncodeOfDecodeAddr | src/common/base58.cpp:253-274 | an accepted address is re-encoded to itself if and only if its tag is terminated, which non-empty data implies |
| Address.UnterminatedTag | src/common/binary.h:63-66 | under every hash one address with an unterminated tag is accepted and re-encoded differently |
| Address.DecodeAddrInjective | src/common/base58.cpp:253-274 | two accepted addresses with terminated tags and equal contents are equal |
| Address.AddressBytes | src/common/base58.cpp:242-251 | an address encodes the varint tag, the data and the first four bytes of their hash |
| Address.AcceptExact | src/common/base58.cpp:253-274 | an address is accepted with a tag and data if and only if its text decodes to more than four bytes, the last four are the first four of the hash of the others, and these are that tag followed by that data |
| Address.AddressLength | src/common/base58.cpp:242-251 | the length of every address |
| Shuffle.CallRefinesTake | src/common/ShuffleGenerator.h:28-42 | one call on the map is one draw on the array it stands for |
| Shuffle.TakeExact | src/common/ShuffleGenerator.h:28-42 | in a draw the last entry takes the place of the drawn one and no other moves |
| Shuffle.OutputsPermute | src/common/ShuffleGenerator.h:17-43 | a full set of draws outputs a permutation |
| Shuffle.OutputsReach | src/common/ShuffleGenerator.h:17-43 | every permutation is the output of some valid draws |
| Shuffle.DrawsRecovered | src/common/ShuffleGenerator.h:17-43 | the outputs determine the draws |
| Shuffle.ShuffleBijection | src/common/ShuffleGenerator.h:17-43 | for every n, draw sequences and permutations of 0..n-1 correspond one to one under n calls |
| Shuffle.ShuffleGenerator.Next | src/common/ShuffleGenerator.h:17-43 | a call returns the drawn entry and removes it from the array; an exhausted generator throws and is unchanged |
| Shuffle.ShuffleGenerator.Reset | src/common/ShuffleGenerator.h:45-48 | a reset restores the identity array |
| Shuffle.SparseRunRefinesDense | src/common/ShuffleGenerator.h:17-48 | over any run with resets and exhausted calls the map behaves as the array |
| Shuffle.StaleKeysIrrelevant | src/common/ShuffleGenerator.h:28-40 | keys at or above the count are never read |
| BlockingMonitor.PassageServes | src/common/BlockingQueue.h:23-73 | whoever sleeps, the notification of a passage is enough: nobody is left owed a wake-up |
| BlockingMonitor.Monitor.Push | src/common/BlockingQueue.h:23-37 | keeps order, capacity and closing; waits if and only if the queue is full and open, refuses if and only if a close came before, else the item joins those accepted; notifies enough |
| BlockingMonitor.Monitor.Pop | src/common/BlockingQueue.h:39-60 | keeps them; waits if and only if the queue is empty and open, gives out the next of the accepted items, and returns false only when all have been taken; notifies enough |
| BlockingMonitor.Monitor.Close | src/common/BlockingQueue.h:62-73 | keeps them; the queue is closed, and with wait it returns at once if and only if all accepted items have been taken; notifies enough |
| BlockingMonitor.Monitor.Recheck | src/common/BlockingQueue.h:69-71 | keeps them; a woken close(true) returns if and only if all accepted items have been taken |
| BlockingQueueProofs.PassageOwes | src/common/BlockingQueue.h:23-73 | no passage leaves a sleeper owed more than the woken threads will see to |
| BlockingQueueProofs.StepKeepsWakeups | src/common/BlockingQueue.h:23-73 | every step, spurious wake-ups included, keeps that |
| BlockingQueueProofs.PassageOrderly | src/common/BlockingQueue.h:23-73 | every passage keeps order, capacity and the meaning of closing |
| BlockingQueueProofs.RunKeepsInvariant | src/common/BlockingQueue.h:13-93 | both hold in every state of every run |
| BlockingQueueProofs.SleepersAreServed | src/common/BlockingQueue.h:26-71 | while a popper sleeps the items are at most the woken poppers, while a pusher sleeps the free slots are at most the woken pushers, and after a close only close(true) callers sleep, and only while items remain |
| BlockingQueueProofs.StuckMeansNothingToDo | src/common/BlockingQueue.h:26-71 | when no thread can run, sleeping poppers face an empty open queue and sleeping pushers a full open one, never both unless the capacity is zero, and a closed empty queue has no sleepers |
| BlockingQueueProofs.RunsAreOrderly | src/common/BlockingQueue.h:23-73 | items accepted are items taken followed by the queue, in order; capacity is kept; nothing is accepted after a close; pop returns false and close(true) returns only when everything accepted has been taken |
| BlockingQueueProofs.EndIsFinal | src/common/BlockingQueue.h:42-72 | from then on, in every later state, the items taken are exactly the items ever accepted |
| BlockingCalls.PassageReturns | src/common/BlockingQueue.h:23-73 | a passage either waits on the condition its call is about, with the call and its item unchanged, or returns from that call, once |
| BlockingCalls.StepKeepsCall | src/common/BlockingQueue.h:23-73 | every step begins a call of an idle thread, keeps the call of a busy one, or returns from it with its own event |
| BlockingCalls.CallsAreKept | src/common/BlockingQueue.h:23-73 | in every run a thread stays in its call, push with its item included, until the step at which it returns from it |
| BlockingCalls.CallsAccounted | src/common/BlockingQueue.h:23-73 | in every state of every run, calls begun are calls returned plus threads in a call |
| BlockingCalls.NothingIsBarred | src/common/BlockingQueue.h:23-73 | a free thread may call anything, one at the mutex may pass, and one that sleeps may wake for no reason |
| GroupClose.GroupCloses | src/common/BlockingQueue.h:102-107 | with test and decrement interleaved freely, the queue is closed once per full turn of the counter, and never for an empty group |
| GroupClose.CallsCover | src/common/BlockingQueue.h:102-107 | decrements never outnumber calls |
| GroupClose.LastMemberCloses | src/common/BlockingQueue.h:102-107 | when no more calls than members are made, the queue is closed exactly when all members have called, and once |
| GroupClose.CounterExact | src/common/BlockingQueue.h:102-107 | for every group and every n, no run with at most n calls takes the counter past zero if and only if n is at most the size of the group |
| GroupClose.LateCallsDoNothing | src/common/BlockingQueue.h:103-104 | calls that do not overlap never take the counter past zero, however many there are |
| GroupClose.ExtraCallWraps | src/common/BlockingQueue.h:103-105 | for every group a run with one call too many in which the counter wraps |
| Json.PutSorted | src/common/JsonValue.cpp:890 | inserting or replacing a member keeps the keys in order and brings in no other member |
| Json.PutLookup | src/common/JsonValue.cpp:890 | after it the map holds the new value for the key and what it held for every other key |
| Json.LessExact | src/common/JsonValue.cpp:890 | keys are in dictionary order: the first difference decides, and a beginning comes before the whole |
| JsonRoundTrip.ReadCleanToken | src/common/JsonValue.cpp:659-679 | a clean token and its quote are read back as they stand |
| JsonRoundTrip.TokensAreClean | src/common/JsonValue.cpp:639-679 | every token read is clean |
| JsonRoundTrip.ReadPrintedInt | src/common/JsonValue.cpp:798-869 | every 64-bit integer is read back from its digits, stopping where the number stops |
| JsonRoundTrip.ReadOfPrint | src/common/JsonValue.cpp:578-926 | printing a clean value and parsing it, whatever follows, gives the value and exactly what follows; only an integer must not be followed by a digit or a point |
| JsonRoundTrip.ReadsAreGood | src/common/JsonValue.cpp:684-926 | every value parsed is clean, has ordered keys and 64-bit integers |
| JsonRoundTrip.ReparseIsStable | src/common/JsonValue.cpp:561-926 | parsing, printing and parsing again changes nothing |
| JsonRoundTrip.RoundTripExact | src/common/JsonValue.cpp:561-634 | a value the types can hold comes back from its own text if and only if it is clean |
| JsonRoundTrip.SpaceIsLost | src/common/JsonValue.cpp:639-647 | a string with a space comes back without it |
| JsonDocument.ReadDoc | src/common/JsonValue.cpp:639-913 | every well-formed document, with any white space between its tokens and inside its strings, is read to its meaning, and exactly it is consumed |
| JsonDocument.DocOf | src/common/JsonValue.cpp:639-913 | whatever is read stands in the text as a well-formed document |
| JsonDocument.ReadValueExact | src/common/JsonValue.cpp:684-706 | the reader returns a value and leaves a rest if and only if the text is a well-formed document that means the value, followed by the rest |
| JsonDocument.FromStringExact | src/common/JsonValue.cpp:561-570 | a text parses to a value if and only if it starts with a document that means it |
| JsonDocument.GivenExact | src/common/JsonValue.cpp:871-903 | an object holds, for each key, the last value given, and its keys are in order |
| JsonDocument.SpaceExact | src/common/JsonValue.cpp:639-657 | white space is space, tab, newline, vertical tab, form feed and carriage return |
| JsonDocument.SaysExact | src/common/JsonValue.cpp:798-869 | digits are read as the decimal number they say |
| JsonDocument.DotsExact | src/common/JsonValue.cpp:803-812 | points are counted one by one |
| JsonDocument.PrintIsCompact | src/common/JsonValue.cpp:578-634 | a value is printed as its document without white space, elements and members in order |
| JsonDocument.NumberRefused | src/common/JsonValue.cpp:814-869 | a needless leading zero and a second point are refused, and one point makes the number a real |
| JsonDocument.WordRefused | src/common/JsonValue.cpp:684-796 | a word is read whole or refused, and nothing else can start a value |
| JsonStream.Input.ReadOne | src/common/JsonValue.cpp:639-657 | skips white space and consumes one character, or throws at the end |
| JsonStream.Input.ReadStringToken | src/common/JsonValue.cpp:659-679 | the loop consumes exactly the token |
| JsonStream.Input.ReadInteger | src/common/JsonValue.cpp:798-869 | the loop consumes exactly the run of digits and points, and throws on two points or a leading zero |
| JsonStream.Input.ReadRest | src/common/JsonValue.cpp:755-796 | an unformatted read of the rest of a word, throwing on any other text |
| JsonStream.Input.Parse | src/common/JsonValue.cpp:684-706 | dispatches on the first character and leaves the position the specification leaves |
| JsonStream.Input.ParseArray | src/common/JsonValue.cpp:724-753 | one character of lookahead, put back unless it closes the array |
| JsonStream.Input.ParseItems | src/common/JsonValue.cpp:730-742 | the element loop reads what the specification reads |
| JsonStream.Input.ParseObject | src/common/JsonValue.cpp:871-913 | the member loop reads what the specification reads, later duplicates replacing earlier ones |
| JsonStream.ParseText | src/common/JsonValue.cpp:561-570 | parses a text from its start and ignores what follows the value |
| JsonStream.Output.Write | src/common/JsonValue.cpp:578-634 | appends exactly the text of the value |
| JsonStream.PrintText | src/common/JsonValue.cpp:572-576 | the text of a value |
| PoolUpdate.StepExclusive | src/blockchain_explorer/BlockchainExplorer.cpp:72-107 | every step keeps one owner while the guard is taken and none while it is free, and endUpdate never sees a free guard |
| PoolUpdate.RequestHands | src/blockchain_explorer/BlockchainExplorer.cpp:512-582 | issuing a request hands the update to the callback although the caller's handler is still armed |
| PoolUpdate.StepBalanced | src/blockchain_explorer/BlockchainExplorer.cpp:98-129 | every step keeps begins and ends matched |
| PoolUpdate.StepStaged | src/blockchain_explorer/BlockchainExplorer.cpp:512-582 | every step keeps the carrier of the update as far along the chain of callbacks as requests have been issued, never more than two |
| PoolUpdate.StepRemembered | src/blockchain_explorer/BlockchainExplorer.cpp:72-107 | every step keeps an unanswered refusal remembered by the guard or by a thread about to try again |
| PoolUpdate.OpenExact | src/blockchain_explorer/BlockchainExplorer.cpp:82-89 | the log scan finds an open refusal if and only if one has no later answer |
| PoolUpdate.RunKeepsInvariant | src/blockchain_explorer/BlockchainExplorer.cpp:68-129 | all four hold in every state of every interleaving |
| PoolUpdate.OneUpdateAtATime | src/blockchain_explorer/BlockchainExplorer.cpp:98-107 | at most one thread carries the update, the guard is free exactly when none does, the assertion in endUpdate holds, begins exceed ends by at most one, and an update issues at most two requests |
| PoolUpdate.QuiescenceAnswersAll | src/blockchain_explorer/BlockchainExplorer.cpp:476-589 | when nothing runs any more the guard is free, every update that began ended once, and every refused beginUpdate was answered by a later one or by a rerun turned away |
| PoolUpdate.DroppedExact | src/blockchain_explorer/BlockchainExplorer.cpp:479-481 | a call has been turned away if and only if some load found its gate closed |
| PoolUpdate.OpenGatesAnswerAll | src/blockchain_explorer/BlockchainExplorer.cpp:476-589 | while the gates stay open, every refused beginUpdate has been followed by a successful one when nothing runs any more |
| PoolUpdate.UnsynchronizedForgets | src/blockchain_explorer/BlockchainExplorer.cpp:479-481 | a run in which synchronization is lost, the rerun is turned away and the refused call is never followed by an update |
| PoolUpdate.UnobservedForgets | src/blockchain_explorer/BlockchainExplorer.cpp:479-481 | the same when the last observer leaves |
| PoolUpdate.GatesExact | src/blockchain_explorer/BlockchainExplorer.cpp:476-589 | for all sets of values the gates may take, open ones among them, every refusal in every run is answered if and only if neither gate can close |
| PoolCalls.RefusedSinceExact | src/blockchain_explorer/BlockchainExplorer.cpp:82-89 | the log scan says exactly that some refusal has no begin and no end after it |
| PoolCalls.RerunExact | src/blockchain_explorer/BlockchainExplorer.cpp:98-107 | in every run an update that ends is followed by another call if and only if some call was refused since it began |
| PoolCalls.CallsAccounted | src/blockchain_explorer/BlockchainExplorer.cpp:476-589 | in every state of every run, notifications and reruns are, one for one, updates begun, calls refused, calls turned away and calls not yet decided |
| PoolCalls.UpdatesBounded | src/blockchain_explorer/BlockchainExplorer.cpp:476-589 | updates begun never outnumber notifications |
| PoolCalls.ThreadsCanMove | src/blockchain_explorer/BlockchainExplorer.cpp:72-129 | every thread that is not done has a step of its own |
| PoolCalls.WholeUpdate | src/blockchain_explorer/BlockchainExplorer.cpp:476-589 | a run of one undisturbed update: it begins, issues both requests, ends, and is not followed by another |
| PoolCalls.NothingIsBarred | src/blockchain_explorer/BlockchainExplorer.cpp:72-107 | changes may be announced and gates may change at any time, and a compare-and-swap may fail at any time and succeeds only on the value it saw |
| PoolState.KnownPool.Apply | src/blockchain_explorer/BlockchainExplorer.cpp:523-543 | the known pool becomes old plus added minus removed; the lists built for reporting hold each change once and in order, and turn the old pool into the new one |
| PoolState.FirstsExact | src/blockchain_explorer/BlockchainExplorer.cpp:523-543 | a list has no duplicates and holds exactly the hashes that changed |
| PoolState.FirstsInOrder | src/blockchain_explorer/BlockchainExplorer.cpp:523-543 | each hash stands in the list in the order in which it first appeared |
| PoolState.KnownPool.Process | src/blockchain_explorer/BlockchainExplorer.cpp:523-574 | the pool changes in the first callback and the observers' view in the second, when its request succeeds; from agreement they agree if and only if it did or nothing changed |
| PoolState.ReportSettles | src/blockchain_explorer/BlockchainExplorer.cpp:523-574 | a delivered report settles the hashes it mentions and no others |
| PoolState.AgreementExact | src/blockchain_explorer/BlockchainExplorer.cpp:566-574 | from agreement, an observer agrees after an update if and only if its second request succeeded or the pool did not change |
| PoolState.AlwaysAgreesExact | src/blockchain_explorer/BlockchainExplorer.cpp:523-574 | over any sequence of updates the observer agrees after each if and only if each was delivered or changed nothing |
| PoolState.ViewIsLastHeard | src/blockchain_explorer/BlockchainExplorer.cpp:523-574 | after any sequence the observer holds of each hash what was true when it last heard of it |
| PoolState.LostReport | src/blockchain_explorer/BlockchainExplorer.cpp:566-569 | a failed second request leaves the observer behind although the next update succeeds |
| HttpHeaders.EndOfHeaders | external/miniupnpc/miniwget.c:101-123 | the scan loop finds what the specification finds |
| HttpHeaders.ScanSound | external/miniupnpc/miniwget.c:101-123 | what is found is the end of CR LF CR LF or LF LF |
| HttpHeaders.ScanExtends | external/miniupnpc/miniwget.c:101-125 | more bytes never change an end already found, and an end found only then lies beyond the old bytes |
| HttpHeaders.ScanFindsBlock | external/miniupnpc/miniwget.c:101-123 | for every block of non-empty lines, each ended by CR LF or LF, the scan ends exactly at its end, whatever the body, if and only if the blank line ends like the last line |
| HttpChunked.RoundProgress | external/miniupnpc/miniwget.c:180-243 | every round of the inner loop consumes input, for every state and every input |
| HttpChunked.CopyExact | external/miniupnpc/miniwget.c:228 | the number of bytes to copy stays inside the buffer if and only if the size is below 2^31, and then is the smaller of size and buffer |
| HttpChunkedProofs.HexWordExact | external/miniupnpc/miniwget.c:202-208 | a size that fits is computed without wrapping |
| HttpChunked.HexWordWraps | external/miniupnpc/miniwget.c:202-208 | for every digit string the word is the number modulo 2^32 |
| HttpChunked.ValueDenotes | external/miniupnpc/miniwget.c:202-208 | the digits accepted and the number computed are exactly those of hexadecimal numerals, either case, leading zeros allowed |
| HttpChunked.WrittenDenotes | external/miniupnpc/miniwget.c:202-208 | the numeral a sender writes for a size, in either case and after any zeros, denotes it |
| HttpChunked.HexDigitsExact | external/miniupnpc/miniwget.c:190 | the characters taken for size digits are the hexadecimal digits |
| HttpChunkedProofs.RoundStands | external/miniupnpc/miniwget.c:182-242 | from every place in a well-formed body a round leads to another such place with the same final output, or to the end with it |
| HttpChunkedProofs.FeedStands | external/miniupnpc/miniwget.c:180-243 | so does a whole buffer |
| HttpChunkedProofs.ChunkedBodyIsRead | external/miniupnpc/miniwget.c:177-244 | every body of chunks whose size is a hexadecimal numeral for the length of its data, cut in any way, is read to exactly its data and the reader ends at the zero chunk |
| HttpChunkedProofs.SizeLineExact | external/miniupnpc/miniwget.c:184-199 | under every cut the reader holds exactly the digits of a size line if and only if its extension has no hexadecimal digit or its size fills the digit buffer |
| HttpChunkedProofs.CutBeforeDigit | external/miniupnpc/miniwget.c:190-198 | cut before a hexadecimal digit of its extension, a size line leaves more digits than were sent |
| HttpResponse.LeftoverFits | external/miniupnpc/miniwget.c:169-171 | the body bytes copied back are fewer than the fragment just received |
| HttpResponse.HeadersFound | external/miniupnpc/miniwget.c:89-173 | however headers and body are cut, the body branch receives exactly the body |
| HttpResponse.ChunkedResponse | external/miniupnpc/miniwget.c:87-275 | a chunked response is read to its data however it is cut, when its header block settles what the headers say |
| HttpResponse.ShortLengthStops | external/miniupnpc/miniwget.c:267-274 | with a shorter content length a response received one character at a time is cut at that length |
| HttpResponse.ChunkedResponseExact | external/miniupnpc/miniwget.c:87-275 | every cut into fragments of 1 to 2048 bytes is read to the data if and only if there is no content length or none below the true length |
| HttpResponse.PlainResponse | external/miniupnpc/miniwget.c:245-275 | a plain response is its body cut at the content length, however it arrives |
| HttpResponse.ChunkReader.ReadSizeLine | external/miniupnpc/miniwget.c:184-215 | the loops read as much of a size line as the buffer holds and keep the digits for the next one |
| HttpResponse.ChunkReader.DecodeSize | external/miniupnpc/miniwget.c:201-210 | the loop computes the size word and clears the digits |
| HttpResponse.ChunkReader.FeedBuffer | external/miniupnpc/miniwget.c:180-243 | the inner loop does what the specification does |
| HttpResponse.GetResponse | external/miniupnpc/miniwget.c:87-285 | the outer loop delivers what the specification delivers, up to the first empty receive |
| Base64.CharsAt | src/common/str.cpp:78-81 | looking a table character up gives its index |
| Base64.SymbolAt | src/common/str.cpp:78-81 | the table by position |
| Base64.Decode | src/common/str.cpp:88-133 | the loop decodes the leading valid symbols, partial groups included |
| Base64.BytesOfSextets | src/common/str.cpp:106-129 | every byte string comes back from its groups of six bits |
| Base64.DecodeOfEncode64 | src/common/str.cpp:88-133 | every byte string comes back from its encoding, padded or not, whatever follows that is not a symbol |
| Base64.SextetsOfBytes | src/common/str.cpp:106-129 | encoding what was decoded gives the symbols back if and only if there is no lone symbol and no stray bit |
| Base64.SameNumber | src/common/str.cpp:106-129 | the bytes are the number in the symbols, without the bits that do not fill a byte |
| StringBuffer.Buffer.AppendText | src/common/StringBuffer.h:431-439 | the text follows the contents |
| StringBuffer.Buffer.InsertText | src/common/StringBuffer.h:481-491 | the text stands between the two parts of the contents, none of which is lost in the move |
| StringBuffer.Buffer.CutOut | src/common/StringBuffer.h:449-457 | exactly the given part of the contents is gone |
| StringBuffer.Buffer.OverwriteAt | src/common/StringBuffer.h:495-504 | the text replaces what was there, growing the contents if it reaches beyond |
| StringBuffer.Buffer.ResizeTo | src/common/StringBuffer.h:508-516 | the contents are cut short or filled up with zero characters, never with old ones |
| StringBuffer.ResizeFills | src/common/StringBuffer.h:508-516 | what a resized string keeps and what it is filled up with |
| StringBuffer.Buffer.ReverseInPlace | src/common/StringBuffer.h:519-527 | the swapping loop reverses the contents |
| StringBuffer.Buffer.PerformAll | src/common/StringBuffer.h:431-535 | any sequence of edits leaves in the array what the same edits make of a sequence |
| StringBuffer.CutOfInsert | src/common/StringBuffer.h:449-491 | cutting out what was inserted gives the contents back |
| StringBuffer.InsertOfCut | src/common/StringBuffer.h:449-491 | inserting what was cut out gives the contents back |
| StringBuffer.OverwriteIsCutAndInsert | src/common/StringBuffer.h:449-504 | overwriting is cutting out and inserting |
| StringBuffer.Buffer.Find | src/common/StringBuffer.h:326-343 | the nested loops return the least occurrence, and none only if there is none |
| StringBuffer.Buffer.FindLast | src/common/StringBuffer.h:359-376 | the nested loops return the greatest occurrence, and none only if there is none |

## Left out

- JsonParse.ReadNumber: stops at a number with one decimal point, because REAL formatting and parsing of doubles is not modelled.
- JsonParse.ReadWord: treats a stream that ends inside `true`, `false` or `null` as an exception; the source compares bytes it has not read, but the failed stream makes `fromString` throw in any case.
- JsonStream.Output.Write: does not model REAL, or the placement of values in a union.
- HttpChunkedProofs.ChunkedBodyIsRead: asks sizes to have at most 31 digits and stay below 2^31, and extensions to be free of hexadecimal digits unless the size has all 31; with such a digit the size may be misread (`HttpChunkedProofs.SizeLineExact`), though the data can still come out right.
- HttpChunked.RoundProgress: stops at a chunk size of 2^31 or more, where the copy leaves the buffer (`HttpChunked.CopyExact`).
- HttpResponse.ChunkReader.ReadSizeLine: keeps the index into the buffer as the part of the buffer still to be read.
- HttpResponse.GetResponse: takes what the header lines mean from a parameter and does not model header names, buffer growth, sockets or time-outs.
- HttpResponse.ChunkedResponse: asks the header block to settle what the headers say; an empty last `Content-Length` does not, because `atoi` skips the line ends and reads on into the body (`external/miniupnpc/miniwget.c:148`). The same holds for the other theorems about responses.
- PoolUpdate.RunKeepsInvariant: assumes that every node callback runs once and asynchronously and that issuing a request does not throw; the mutex around the pool state is not modelled.
- PoolUpdate.QuiescenceAnswersAll: places a refusal at the access that decides it.
- PoolState.KnownPool.Process: takes the second request to bring the details of exactly the listed transactions, and observers to stay subscribed; an update whose first request fails changes nothing.
- StringBuffer.Buffer.CutOut: models the move to lower places that the overlapping `memcpy` intends.
- The other members of `src/common/StringBuffer.h`: comparisons, slices and single-character forms would only add easy members.
- Security of the hash, quality of randomness, real time, and memory orders weaker than sequential consistency.
- Network, RPC, wallet, service, command-line and configuration code.
