# Verified model of the market-data pipeline

The pipeline turns bytes from an exchange into order books and trading signals: WebSocket frames are
cut out of a byte stream, the SBE messages in them are decoded into price-level updates, the updates
travel through single-producer queues to the thread that routes them into per-instrument books, and
two strategies read the books. The instruments come from a CSV file. This project models those parts
in Dafny and proves what each of them promises.

Objects that the program updates in place are classes whose methods are proved against functions on
values; the results are then lemmas about those functions. `dafny verify dfyconfig.toml` checks
everything. Every induction is written out: no lemma relies on an induction hypothesis that Dafny
supplies by itself.

## What is proved, part by part

**Order book** (`BookSpec`, `BookRing`, `BookRefinement`, `BookRuns`, `BookMid`, `OrderBook`,
`BookTheorems`, `BookPlain`, `MidMeaning`). One side is 256 slots used as a circle. The reference is a
plain map from price to quantity. `StepRefines` gives the exact condition under which one update of the
arrays keeps the circular-arc invariant and is one step of the map; `RunRefines` lifts it to every prefix
of every run. The condition (`BookSpec.Clean`) looks only at the map and the update and names the three
ways the code can go wrong: a removal whose price shares a slot with another level, an extension past 256
ticks while the window wraps, and a distance that narrows to 32 bits. Each has a concrete run or state
(`ForeignRemoval`, `WrappedOverrun`, `NarrowedDistance`). Runs that never wrap need no condition on spans
(`TameRunIsClean`); for non-negative prices the book is then direct-mapped, and `ConfinedToBlock` says
exactly which prices a side with two levels takes: those at most 64 ticks outside them and in the same
aligned 256-tick block. The second half is not in docs/market_data.md; it makes the book drop a price one
tick away at a block edge (`NearPriceDropped`). `PlainBook` says all of this for whole books with plain
numbers on plain maps, without slots. The mid price is the total of price times quantity over the best
five levels of each map, divided by their total quantity and cut off toward 0 (`MidAfterRun`); it lies
between their extremes and does not overflow (`MidOfCleanRun`).

**Queue** (`LFQueue`, `QueueInterleaving`). The ring as one thread sees it, and every interleaving of
the producer's and the consumer's atomic accesses. The ring has no full check, so that a write starts
only below capacity is an assumption on the environment; `OverrunExactlyWhenFull` shows it is exact.
The documentation asks for a power-of-two capacity; any positive one works.

**SBE decoding** (`Bytes`, `SbeDecoder`, `SbeAppend`, `SbeFraming`, `SbeFrameEnd`, `SbeSkip`,
`SbeBinance`). The decoder and the
dispatch loop as methods that write the queue; decode is all or nothing and agrees with the separate
length computation; a message decodes the same whatever follows it exactly when all its reads end
inside it; and a frame of encoded messages gives back exactly their levels, up to the first bytes the
parser cannot use. `SbeBinance` writes the exchange's messages byte by byte and shows every field of
every update.

**Routing** (`VenueRegistry`, `OrderBookManager`, `Pipeline`, `Schedules`, `RingRefinement`,
`WirePipeline`). Ids are distinct exactly when the keys are and the 16-bit limits are met; the keys tell
rows apart exactly when no exchange name begins with another one followed by a colon
(`ColonConfusesVenues` shows what such a name does). `Pipeline` starts from the configured rows: the
registry's numbering gives every instrument to its venue's queue, whatever bytes the venues send
(`FeedsAreOwned`), so any two interleavings of enqueuing and polling that are fed the same frames leave
every book the same (`SchedulesAgree`). `FrameReachesBestPrices` goes from frame bytes to the best bid
and ask, `WiresReachBook` from the exchange's own bytes to the book. Polling in rounds delivers
everything (`FeedsCanBeDrained`), and the atomic accesses of all rings, in every interleaving, are such
pushes and polls (`RingsAreQueues`), so the results hold at that level too (`RingsReachBooks`). One index
has 16 bits: start-up is sound exactly up to 65536 instruments.

**CSV** (`LineReader`, `AsyncReader`, `CsvRow`, `CsvReader`). The three-block sliding window yields
exactly the input split at newlines for every block length of at least 2; the threaded reader delivers
what the synchronous one would, under every interleaving. Columns are cut off, trimmed and unescaped in
place; rows come back exactly, and as C strings in the buffer, if and only if no quoted field holds a NUL
byte: rows of quoted fields (`RowRoundTrip`, `ParseQuotedRow`) and rows in which each field is quoted or
plain, with blanks around it or not (`CellRowRoundTrip`, `ParseCellRow`). A whole file of quoted rows
comes back if and only if moreover no field holds a newline and every row fits in a block
(`FileRoundTrip`): lines are cut before quotes are looked at, so a newline inside a quoted field leaves
its quote unclosed (`FirstNewlineRow`, `NewlineSplitsRow`).

**WebSocket** (`WebSocket`, `WebSocketClient`), following sections 5.2, 5.3, 5.5.2 and 5.5.3 of RFC
6455: for any chunking of the transport, frames survive the round trip exactly when header and payload
together fit the 8192-byte receive buffer, and pings are answered exactly when their payload is at most
125 bytes. The program compares the payload alone with the buffer's size, so payloads of 8189 to 8192
bytes pass its check and are written past the buffer's end (`OverrunningLengths`); the stream function
has a separate outcome for that. The bytes are those of the examples in section 5.7 of the standard
(`TextExamples`, `PingExample`).

**Memory pool, histogram, strategies** (`MemPool`, `LatencyHistogram`, `Strategies`). A pool of N
blocks can only ever hold N - 1 live objects, although docs/utils.md speaks of N
(`LastBlockIsUnusable`); the percentile scan agrees with sorting; the momentum signal is the balance of
its window. The imbalance signal is that of the two price maps while both sides have levels
(`SignalOfCleanRun`); with one side empty it is computed from the price left in that side's slot 0, so it
is not a function of the maps (`OneSidedSignal`, `StaleAskMovesSignal`).

## Model
| member | source | states |
|---|---|---|
| CInt.NarrowIsCongruent | include/market_data/order_book/order_book.h:136 | the cast of a distance to int keeps it modulo 2^32, so a distance of 2^32 reads as 0 |
| CInt.CDivIs | include/market_data/order_book/order_book.h:77 | a C++ quotient leaves less than the divisor, on the same side of 0 as the dividend |
| OrderBooks.OrderBook.constructor | include/market_data/order_book/order_book.h:292-303 | a new book is two empty sides with unset exponents |
| OrderBooks.OrderBook.PriceToIndex | include/market_data/order_book/order_book.h:34-45 | the truncating C++ arithmetic yields the slot congruent to best index plus price offset, always in 0..255 |
| OrderBooks.OrderBook.ScanUp | include/market_data/order_book/order_book.h:110-114 | the upward endpoint scan, against the recursive scan function |
| OrderBooks.OrderBook.ScanDown | include/market_data/order_book/order_book.h:115-120 | the downward endpoint scan, against the recursive scan function |
| OrderBooks.OrderBook.RemoveAsk | include/market_data/order_book/order_book.h:101-122 | the removal branch in place equals the removal on values; the bids cannot change |
| OrderBooks.OrderBook.AddAsk | include/market_data/order_book/order_book.h:124-179 | the five add branches in place equal the add on values |
| OrderBooks.OrderBook.RemoveBid | include/market_data/order_book/order_book.h:184-205 | the mirrored removal for bids |
| OrderBooks.OrderBook.AddBid | include/market_data/order_book/order_book.h:207-262 | the mirrored add for bids |
| OrderBooks.OrderBook.AddUpdate | include/market_data/order_book/order_book.h:89-264 | dispatch on side and quantity, exponents latched once: the whole new state |
| BookPlain.SecondLevel | include/market_data/order_book/order_book.h:134-148 | next to a single level a price is stored if and only if it is at most 64 ticks away |
| BookPlain.BookUpdate | include/market_data/order_book/order_book.h:89-264 | one update of a book in plain numbers: SELL for the asks, anything else for the bids, quantity 0 removes, 64 ticks and one 256-tick block limit what is stored, the other side stays |
| BookPlain.PlainBook | include/market_data/order_book/order_book.h:89-264 | so for whole runs: each side holds exactly the plain run of its own updates |
| BookPlain.SecondAsk | include/market_data/order_book/order_book.h:136-137 | after an ask at 1000, 1080 is dropped and 1064 stored |
| OrderBooks.OrderBook.GetMidRaw | include/market_data/order_book/order_book.h:48-78 | the two bounded loops compute the truncated weighted average over the walked levels, 0 without volume |
| MidMeaning.TopSums | include/market_data/order_book/order_book.h:50-73 | the sums over the walked levels are those over the levels with fewer than n better ones |
| MidMeaning.MidOfTrackedBook | include/market_data/order_book/order_book.h:48-78 | over the best five bids and asks the mid is total value divided by total quantity, cut off toward 0, and 0 without quantity |
| MidMeaning.MidAfterRun | include/market_data/order_book/order_book.h:48-78 | the same after every clean run, on its two maps |
| MidMeaning.WeightedExample | include/market_data/order_book/order_book.h:75-77 | 1 bid at 100 and 9 asked at 110 give 109 |
| OrderBooks.OrderBook.GetBestAskRaw | include/market_data/order_book/order_book.h:280 | the least ask of whatever map the arrays hold; with no level a stale price |
| OrderBooks.OrderBook.GetBestAskQtyRaw | include/market_data/order_book/order_book.h:281 | the map's quantity at its least ask, 0 for an empty side |
| OrderBooks.OrderBook.GetBestBidRaw | include/market_data/order_book/order_book.h:282 | the greatest bid of whatever map the arrays hold; with no level a stale price |
| OrderBooks.OrderBook.GetBestBidQtyRaw | include/market_data/order_book/order_book.h:283 | the map's quantity at its greatest bid, 0 for an empty side |
| BookRefinement.Endpoints | include/market_data/order_book/order_book.h:294-297 | under the arc invariant the two endpoint slots hold the least and greatest prices and coincide only for a single level |
| BookRefinement.IndexFromLo | include/market_data/order_book/order_book.h:34-45 | whichever endpoint is the anchor, the computed slot is the same offset from the lowest level |
| BookRefinement.PutKeepsArc | include/market_data/order_book/order_book.h:149-179 | writing a price that keeps the side under 256 ticks keeps the invariant and sets exactly that map entry |
| BookRefinement.AddToEmpty | include/market_data/order_book/order_book.h:125-133 | the first level refines the map, also for negative prices |
| BookRefinement.AddToSingle | include/market_data/order_book/order_book.h:134-148 | the second level refines the map if and only if the narrowed distance does not hide a large one |
| BookRefinement.AddInside | include/market_data/order_book/order_book.h:149-157 | an update between the endpoints always refines the map |
| BookRefinement.AddOutside | include/market_data/order_book/order_book.h:158-179 | an extension refines the map if and only if what the guards let through is really near and leaves fewer than 256 ticks |
| BookRefinement.OverlongIsInvalid | include/market_data/order_book/order_book.h:158-179 | an accepted extension to 256 ticks or more always breaks the invariant |
| BookRefinement.ScanFindsNearest | include/market_data/order_book/order_book.h:111-119 | the scan stops at the nearest remaining level in its direction |
| BookRefinement.RemoveKeepsArc | include/market_data/order_book/order_book.h:106-120 | removal of one of several levels keeps the invariant and the anchoring |
| BookRefinement.RemoveNothing | include/market_data/order_book/order_book.h:103-105 | removing a price with a free slot changes nothing and no level shares its residue |
| BookRefinement.RemoveHit | include/market_data/order_book/order_book.h:104-120 | removing a present price deletes exactly its map entry |
| BookRefinement.RemoveAliased | include/market_data/order_book/order_book.h:104-108 | removing a price whose slot holds another price never refines the map |
| BookRefinement.StepRefines | include/market_data/order_book/order_book.h:89-264 | one update keeps the invariant and is one map step if and only if it is clean for the map |
| BookRuns.RunRefines | include/market_data/order_book/order_book.h:89-264 | every prefix of a run keeps the arc invariant and holds exactly the map if and only if every update is clean for the map state it meets |
| BookRuns.BestOfTracked | include/market_data/order_book/order_book.h:280-286 | count is the map's size; best slot holds the extreme level and its quantity; an empty side shows quantity 0 |
| BookRuns.UnwrappedAddIsClean | include/market_data/order_book/order_book.h:160-178 | in an unwrapped window the linear edge guards alone make every add clean |
| BookRuns.UnwrappedStep | include/market_data/order_book/order_book.h:134-148 | a window starts to wrap in exactly one kind of step, a single-level add past an end of the array |
| BookRuns.TameRunIsClean | include/market_data/order_book/order_book.h:101-179 | runs without such a step need no condition on spans |
| BookRuns.PhaseStaysZero | include/market_data/order_book/order_book.h:127 | with non-negative prices the anchoring never shifts |
| BookRuns.DirectMapped | include/market_data/order_book/order_book.h:34-45 | each level then sits in slot price mod 256 |
| BookRuns.ConfinedToBlock | include/market_data/order_book/order_book.h:160-173 | an unwrapped side lies in one aligned 256-tick block, and with two levels it takes a price if and only if that is at most 64 ticks outside them and in that block |
| BookRuns.TameNonNegativeRun | include/market_data/order_book/order_book.h:89-264 | the three facts together for every such run from an empty side |
| BookMid.WalkIsTop | include/market_data/order_book/order_book.h:53-73 | from any point the rest of the walk is the best remaining levels at least that far from the best price |
| BookMid.WalkOfTracked | include/market_data/order_book/order_book.h:53-73 | the walk counts exactly the best min(5, size) levels, best first |
| BookMid.TopLevelsSize | include/market_data/order_book/order_book.h:13 | the reference list has min(n, size) entries, all of them map entries |
| BookMid.MidIsBetween | include/market_data/order_book/order_book.h:75-77 | with non-negative quantities the mid lies between the counted prices |
| BookMid.MidFitsMachineWords | include/market_data/order_book/order_book.h:50-51 | the 64- and 128-bit accumulators do not overflow for quantities up to (2^63 - 1) / 10 |
| BookTheorems.SidesAreIndependent | include/market_data/order_book/order_book.h:92-98 | each side depends on its own updates only; exponents are those of the first update |
| BookTheorems.BookFollowsMaps | include/market_data/order_book/order_book.h:48-264 | for every clean run: both sides, counters, best prices and quantities and the mid price agree with the two maps |
| BookTheorems.MidOfCleanRun | include/market_data/order_book/order_book.h:48-78 | for every clean run without negative quantities the mid is 0 for an empty book and otherwise between the extremes of the levels it counts; its sums fit int64 and int128 |
| BookTheorems.ForeignRemoval | include/market_data/order_book/order_book.h:101-109 | a concrete run in which removing 266 deletes the level at 10 |
| BookTheorems.WrappedOverrun | include/market_data/order_book/order_book.h:158-168 | a concrete clean run after which an accepted ask at 0 lands on the slot of 256 |
| BookTheorems.NarrowedDistance | include/market_data/order_book/order_book.h:171-172 | after 10 and 11 a distance of 2^32 passes the guard although the map drops it |
| BookTheorems.NearPriceDropped | include/market_data/order_book/order_book.h:172 | after 254 and 255 the price 256 is dropped at the array's edge |
| LFQueues.LFQueue.constructor | include/utils/containers/lock_free_queue.hpp:13-15 | an empty ring of any positive capacity |
| LFQueues.LFQueue.GetNextToWriteTo | include/utils/containers/lock_free_queue.hpp:17-19 | below capacity, filling the slot leaves the contents as they are; on a full ring it is the slot of the oldest element |
| LFQueues.LFQueue.UpdateWriteIndex | include/utils/containers/lock_free_queue.hpp:21-24 | publishes the written slot as the newest element |
| LFQueues.LFQueue.GetNextToRead | include/utils/containers/lock_free_queue.hpp:26-28 | the oldest element, or nothing exactly when empty |
| LFQueues.LFQueue.UpdateReadIndex | include/utils/containers/lock_free_queue.hpp:30-34 | drops the oldest element; the counter is not zero |
| QueueInterleaving.StepInv | include/utils/containers/lock_free_queue.hpp:17-38 | each atomic access of either thread keeps the invariant |
| QueueInterleaving.FifoUnderEveryInterleaving | include/utils/containers/lock_free_queue.hpp:17-38 | in every reachable state the consumed sequence is a prefix of the produced one and a held element is intact in its slot |
| QueueInterleaving.OverrunExactlyWhenFull | include/utils/containers/lock_free_queue.hpp:17-24 | the next write hits an unretired element if and only if the ring is full |
| QueueInterleaving.CounterCheckSuffices | include/utils/containers/lock_free_queue.hpp:36-38 | the shared counter being below capacity implies a safe write |
| QueueInterleaving.PollTakes | include/utils/containers/lock_free_queue.hpp:26-28 | a waiting consumer that finds the counter not 0 holds the next produced element; with 0 everything published is consumed |
| QueueInterleaving.ConsumerTurn | include/utils/containers/lock_free_queue.hpp:26-34 | its turn is never blocked and consumes exactly that element |
| QueueInterleaving.ProducerTurn | include/utils/containers/lock_free_queue.hpp:17-24 | below capacity the producer's turn is never blocked and publishes exactly what it wrote |
| ByteOrder.SignedRoundTrip | src/market_data/data_ingester/sbe_decoder.cpp:8-15 | a signed number written little-endian in w bytes is read back |
| SbeDecoder.EnqueueGroup | src/market_data/data_ingester/sbe_decoder.cpp:86-116 | the level loop enqueues exactly the group's levels and advances the offset |
| SbeDecoder.Decode | src/market_data/data_ingester/sbe_decoder.cpp:34-119 | the decoder in place: bytes consumed and everything it appends to the queue |
| SbeDecoder.Measure | src/market_data/data_ingester/sbe_decoder.cpp:121-149 | the two loops compute the length function |
| SbeDecoder.DecodeIsAllOrNothing | src/market_data/data_ingester/sbe_decoder.cpp:57-118 | result 0 enqueues nothing; otherwise at most the message is consumed and both loops run to their counts |
| SbeDecoder.DecodeAgreesWithMeasure | src/market_data/data_ingester/sbe_decoder.cpp:57-149 | decode succeeds if and only if the measured length is in 1..size and the symbol is known, and then both lengths are equal |
| SbeAppend.LayoutAppended | src/market_data/data_ingester/sbe_decoder.cpp:59-74 | appended bytes do not move the parts of a complete message |
| SbeAppend.SameWhateverFollows | src/market_data/data_ingester/sbe_decoder.cpp:34-119 | a decoded message means the same whatever follows if and only if every read ends inside it |
| SbeFraming.ParseTurn | src/market_data/data_ingester/sbe_venue_parser.cpp:17-35 | one turn of the dispatch loop: bytes consumed, levels enqueued, decoded or skipped |
| SbeFraming.Parse | src/market_data/data_ingester/sbe_venue_parser.cpp:11-38 | the cursor loop terminates and enqueues exactly what the recursive reading of the frame says |
| SbeFraming.EncodedLayout | docs/market_data.md:104-127 | the decoder finds every part of an encoded message where it was put |
| SbeFraming.DecodeEncoded | src/market_data/data_ingester/sbe_decoder.cpp:34-119 | an encoded message decodes to its own levels, bids then asks, whatever follows |
| SbeFraming.MeasureAppended | src/market_data/data_ingester/sbe_decoder.cpp:121-149 | a measured length does not depend on what follows |
| SbeFraming.ParseFrame | src/market_data/data_ingester/sbe_venue_parser.cpp:11-38 | a frame of well-formed messages enqueues exactly their levels in order; skipped messages add nothing |
| SbeFraming.BinanceLevel | include/market_data/data_ingester/message_schema.h:50-82 | a level block of two int64 fields, 16 bytes or longer, carries exactly its price and quantity |
| SbeFraming.BinanceStamp | include/market_data/data_ingester/message_schema.h:48-82 | the fixed block carries exactly its event time and exponents |
| SbeFraming.TimeUnitsAgree | src/market_data/data_ingester/sbe_decoder.cpp:47-52 | one instant in milli-, micro- or nanoseconds decodes to the same microseconds |
| SbeFraming.ShortLevelReadsOn | src/market_data/data_ingester/sbe_decoder.cpp:86-116 | a message with a one-byte level block is decoded, and its level depends on the bytes that follow |
| SbeFrameEnd.ItemsThen | src/market_data/data_ingester/sbe_venue_parser.cpp:11-38 | what follows well-formed messages is parsed as if it stood alone |
| SbeFrameEnd.UnknownTemplateEndsFrame | src/market_data/data_ingester/sbe_venue_parser.cpp:17-26 | fewer than four bytes or an unregistered template end the frame; nothing behind is used |
| SbeFrameEnd.UnknownSymbolEndsFrame | src/market_data/data_ingester/sbe_venue_parser.cpp:31-34 | so does a depth message of a symbol the venue does not have |
| SbeFrameEnd.CutMessageEndsFrame | src/market_data/data_ingester/sbe_venue_parser.cpp:31-34 | and one cut off anywhere, with nothing of it enqueued |
| SbeFrameEnd.CutSkippedEndsFrame | src/market_data/data_ingester/sbe_venue_parser.cpp:28-35 | and a skipped message cut off anywhere |
| SbeBinance.UnsignedFields | src/market_data/data_ingester/sbe_decoder.cpp:17-32 | unsigned fields of 1, 2 and 4 bytes are read as they are, of 8 bytes as an int64 |
| SbeBinance.SignedFields | src/market_data/data_ingester/sbe_decoder.cpp:17-32 | signed fields of 1, 2, 4 and 8 bytes are read back |
| SbeBinance.WireDecoded | docs/market_data.md:104-127 | a depth message written byte by byte decodes to one update per level, equal in all eight fields to what it says |
| SbeBinance.WireFrameParsed | src/market_data/data_ingester/sbe_venue_parser.cpp:11-38 | a frame of such messages, under the registered schemas |
| SbeBinance.WireExponents | include/market_data/order_book/order_book.h:92-98 | a book first updated from such a message has its two exponents for good |
| SbeBinance.BestBidAskSkipped | include/market_data/data_ingester/message_schema.h:84-104 | a best bid and ask message, 59 bytes and the symbol, is stepped over whole |
| SbeBinance.TradesSkipped | include/market_data/data_ingester/message_schema.h:106-124 | a trade message, 33 bytes, the blocks and the symbol, is stepped over whole |
| SbeSkip.MeasureEncoded | src/market_data/data_ingester/sbe_decoder.cpp:121-149 | for any schema, with 16- or 32-bit group counts, measure returns the encoded length |
| SbeSkip.EncodedIsItem | src/market_data/data_ingester/sbe_venue_parser.cpp:28-30 | an encoded message under a skip schema is stepped over whole |
| SbeSkip.BinanceDepthIsItem | src/main.cpp:86-91 | depth messages with level blocks of at least 16 bytes are well formed for the registered schemas |
| VenueRegistries.VenueRegistry.constructor | include/market_data/venue_registry.hpp:16-24 | the loop over the rows builds exactly the tables of the recursive definition |
| VenueRegistries.VenueRegistry.GetOrAddVenue | include/market_data/venue_registry.hpp:50-56 | an existing venue keeps its index; a new one takes the current count cut to 16 bits and restarts its symbols |
| VenueRegistries.PackFields | include/market_data/venue_registry.hpp:37-48 | venue and symbol are recovered from a packed id |
| VenueRegistries.KeysDetermineRowsExactly | include/market_data/venue_registry.hpp:22 | the lookup key determines the row, for all symbols, if and only if no exchange name begins with another one and a colon |
| VenueRegistries.ColonFreeNames | include/market_data/venue_registry.hpp:22 | names without a colon meet that condition |
| VenueRegistries.ColonConfusesVenues | include/market_data/venue_registry.hpp:22 | two rows that do not: the first one's symbol is found under the other venue |
| VenueRegistries.IdsAreDistinctExactlyWithinLimits | include/market_data/venue_registry.hpp:16-56 | for all rows: ids are different if and only if the keys are and there are at most 65536 venues with at most 65536 rows each |
| VenueRegistries.LookupFindsOwnRow | include/market_data/venue_registry.hpp:26-33 | a venue's lookup succeeds exactly for the symbols of its own rows and returns that row's id, which carries the venue's index |
| VenueRegistries.IdInFull | include/market_data/venue_registry.hpp:16-48 | the id of a row is 65536 times the number of exchanges named before its own plus the number of earlier rows of its exchange |
| VenueRegistries.SameIdSameKey | include/market_data/venue_registry.hpp:16-56 | within the limits, rows repeated or not: two rows have one id if and only if they have one key |
| VenueRegistries.VenueHalf | include/market_data/venue_registry.hpp:37 | two ids share the venue half exactly when the rows name the same exchange |
| OrderBookManagers.OrderBookManager.RegisterInstrument | src/market_data/order_book/order_book_manager.cpp:10-14 | a new empty book under the next index |
| OrderBookManagers.OrderBookManager.PassUpdateToOrderbook | src/market_data/order_book/order_book_manager.cpp:36-43 | the update reaches its instrument's book and no other; unknown ids are ignored |
| OrderBookManagers.OrderBookManager.RunRound | src/market_data/order_book/order_book_manager.cpp:76-87 | one pass polls every queue once, in order |
| OrderBookManagers.RegisterKeepsSound | src/market_data/order_book/order_book_manager.cpp:10-14 | below 65536 books no two ids share an index |
| OrderBookManagers.RegisterIsSoundExactly | src/market_data/order_book/order_book_manager.cpp:10-14 | a registration keeps indices unique if and only if no other instrument has the wrapped index it takes |
| OrderBookManagers.DoKeepsFolded | src/market_data/order_book/order_book_manager.cpp:36-89 | each poll keeps every book equal to the fold of its own delivered updates |
| OrderBookManagers.NothingLost | src/market_data/order_book/order_book_manager.cpp:76-87 | what was enqueued is what was delivered followed by what is still queued |
| Pipeline.StartupIsSound | src/main.cpp:47-50 | for up to 65536 rows, repeated or not, every configured id gets an empty book of its own |
| Pipeline.StartupIsSoundExactly | src/market_data/order_book/order_book_manager.cpp:10-14 | for different ids the table is sound after start-up if and only if there are at most 65536 of them |
| Pipeline.ParsedIds | src/market_data/data_ingester/sbe_decoder.cpp:76-82 | whatever bytes a venue sends, every update made of them carries an id of that venue's table |
| Pipeline.FeedsAreOwned | src/main.cpp:43-51 | for the configured rows the registry's numbering gives each instrument's updates to one queue |
| Pipeline.BooksFollowFeeds | src/market_data/order_book/order_book_manager.cpp:36-89 | each configured book, once its venue's queue is drained, is the fold of its own updates among all its venue sent, however pushes and polls interleave |
| Pipeline.SchedulesAgree | src/market_data/order_book/order_book_manager.cpp:71-89 | two schedules fed the same frames that drain the queue leave the book in the same state |
| Schedules.FeedsCanBeDrained | src/market_data/order_book/order_book_manager.cpp:71-89 | for every configuration and whatever the venues send, pushing everything and polling in rounds delivers all of it |
| Pipeline.FrameReachesBook | src/market_data/data_ingester/sbe_venue_parser.cpp:11-38 | for the configured rows and frames of well-formed messages each book ends as the fold of the levels of its own symbol, in wire order |
| Pipeline.FrameReachesBestPrices | src/market_data/order_book/order_book_manager.cpp:71-89 | and if those levels are clean, the book shows their two maps: sizes, best prices and quantities, mid price |
| RingRefinement.StepIsSchedule | include/utils/containers/lock_free_queue.hpp:17-38 | each atomic access of any ring is a push, a poll or unseen on the plain queues, with the books updated alike |
| RingRefinement.RingsAreQueues | src/market_data/order_book/order_book_manager.cpp:71-89 | every interleaving of the atomic accesses of all producers and the router ends as a sequence of pushes and polls does |
| RingRefinement.RingsReachBooks | src/market_data/order_book/order_book_manager.cpp:36-89 | under every such interleaving that drains a venue's ring, each of its books is the fold of its own updates |
| WirePipeline.WiresReachBook | src/main.cpp:47-114 | from the exchange's bytes: each book is the fold of one update per level of the messages for its symbol, with the fields the messages say |
| WirePipeline.WiresSetExponents | include/market_data/order_book/order_book.h:92-98 | and its exponents are those the venue's messages carry |
| LineReaders.LineReader.constructor | include/utils/config/csv.h:321-338 | two blocks are read and a byte order mark is dropped; nothing else of the input is lost |
| LineReaders.LineReader.FinishRead | include/utils/config/csv.h:432-442 | the deliveries of the background reader, one after the other, are those of the synchronous reader; never asked for again after an empty one |
| LineReaders.LineReader.Shift | include/utils/config/csv.h:432-442 | sliding and refilling leave the unread text unchanged, and no result is awaited after an empty one |
| LineReaders.LineReader.CutLine | include/utils/config/csv.h:456-471 | the line is cut off in place, with or without its newline; the block being filled in the background is not touched |
| LineReaders.LineReader.NextLine | include/utils/config/csv.h:423-472 | the next line of the unread text, NUL-terminated in the buffer, where the caller sees all of it exactly when it is NUL-free; the error exactly for lines that do not fit; the counter advanced |
| LineReaders.ReadAll | include/utils/config/csv.h:321-472 | reading to the end yields exactly the lines of the whole input, each up to its first NUL, for every block length of at least 2 |
| LineReaders.SeenWhole | include/utils/config/csv.h:423-472 | what the caller sees is the lines themselves if and only if none holds a NUL |
| LineReaders.EveryTextSplits | include/utils/config/csv.h:444-447 | every text is newline-terminated lines and an unterminated rest |
| LineReaders.LinesAreTheSplit | include/utils/config/csv.h:449-467 | the lines read are exactly the pieces of that split without one trailing carriage return; the error appears exactly when some piece does not fit |
| LineReaders.LinesOfRows | include/utils/config/csv.h:449-467 | rows written one per line give as many lines and no error if and only if no row holds a newline and every row fits in a block |
| LineReaders.CrLfFile | include/utils/config/csv.h:321-338 | lines ended by bytes 13 and 10 are read back exactly, with the mark EF BB BF in front or without |
| LineReaders.LfFile | include/utils/config/csv.h:449-471 | so are lines ended by 10 alone and an unterminated last line |
| AsyncReaders.StepInv | include/utils/config/csv.h:196-237 | every critical section of either thread keeps the invariant |
| AsyncReaders.AsyncMatchesSync | include/utils/config/csv.h:189-286 | in every reachable state the results equal the synchronous reader's, the worker touches the block only while a read is in flight, and the client is not stuck |
| AsyncReaders.FinishAfterEndHangs | include/utils/config/csv.h:208-215 | waiting again after an empty result would never end |
| CsvRows.FindNextColumnEnd | include/utils/config/csv.h:719-735 | the nested quote loops over a C string find the column end of the recursive definition, or a quote that the NUL leaves unclosed |
| CsvRows.ChopNextColumn | include/utils/config/csv.h:787-802 | the separator becomes NUL and nothing else changes; the rest begins behind it, or there is none at the line's end |
| CsvRows.Trim | include/utils/config/csv.h:655-662 | both ends move in by the trimmed characters and the new end becomes NUL |
| CsvRows.CollapseInPlace | include/utils/config/csv.h:742-749 | the copying loop halves doubled quotes in place; writing never overtakes reading |
| CsvRows.UnescapeInPlace | include/utils/config/csv.h:737-754 | a quoted column is unescaped in place and nothing outside it changes |
| CsvRows.ParseRow | include/utils/config/csv.h:804-822 | parse_line in place, with all its error exits: every wanted column is a C string equal to its value, also after later columns have been cut off and unescaped, and nothing outside the line changes |
| CsvRows.UnescapeQuoted | include/utils/config/csv.h:737-754 | trimming and unescaping a quoted field gives the field |
| CsvRows.QuotedColumnEnd | include/utils/config/csv.h:719-735 | a quoted field is one column if it is NUL-free and an unclosed quote otherwise |
| CsvRows.RowRoundTrip | include/utils/config/csv.h:787-822 | a row of quoted fields is read back exactly if and only if the counts agree and no field holds a NUL; which error is reported otherwise |
| CsvRows.ParseQuotedRow | include/utils/config/csv.h:804-822 | the same through the buffer: every column pointer names a C string that is the field |
| CsvRows.BlanksRemoved | include/utils/config/csv.h:655-662 | trimming leaves exactly what has no blank at its ends |
| CsvRows.CellRowRoundTrip | include/utils/config/csv.h:787-822 | a row in which each field is quoted or plain, with blanks around it or not, is read back field by field if and only if the counts agree and no quoted field holds a NUL |
| CsvRows.ParseCellRow | include/utils/config/csv.h:804-822 | the same through the buffer, as C strings |
| CsvRows.PlainLine | include/utils/config/csv.h:804-822 | the line "AB , C" gives "AB" and "C" |
| CsvReaders.CsvReader.ReadRow | include/utils/config/csv.h:1168-1183 | one line is taken and split where it lies in the line reader's buffer; the unread text is untouched |
| CsvReaders.FileRoundTrip | include/utils/config/csv.h:423-822 | whatever the fields hold: a file of quoted rows is read back if and only if the counts agree, no field holds a NUL or a newline, and every row fits in a block |
| CsvReaders.FirstNewlineRow | include/utils/config/csv.h:449-467 | the first row with a newline in a field is reported as an unclosed quote, or its part before the newline as too long |
| CsvReaders.NewlineSplitsRow | include/utils/config/csv.h:449-467 | the single field newline gives two lines, the first of which fails |
| WebSockets.MaskingIsAnInvolution | src/utils/net/websocket/websocket.cpp:206-210 | masking twice with one key gives the data back |
| WebSockets.MaskedBit | src/utils/net/websocket/websocket.cpp:206-210 | bit by bit, masking is the exclusive or with octet i modulo 4 of the key |
| WebSockets.LengthForms | src/utils/net/websocket/websocket.cpp:57-73 | the length in 1, 3 or 9 bytes, the high byte first, with the mask bit |
| WebSockets.TextExamples | src/utils/net/websocket/websocket.cpp:51-111 | the standard's bytes for "Hello" as text, unmasked and masked, and as a masked pong |
| WebSockets.PingExample | src/utils/net/websocket/websocket.cpp:194-198 | the standard's ping is answered by the standard's pong |
| WebSockets.FrameRoundTrip | src/utils/net/websocket/websocket.cpp:51-204 | a written frame is read back whole, whatever follows, if and only if header and payload fit the buffer; it overruns the buffer exactly when only the payload does |
| WebSockets.OverrunningLengths | src/utils/net/websocket/websocket.cpp:171-185 | those are the payloads of 8189 to 8192 bytes |
| WebSockets.ServerFrameRead | src/utils/net/websocket/websocket.cpp:126-204 | both statements for an unmasked frame with either fin bit |
| WebSockets.PingIsAnswered | src/utils/net/websocket/websocket.cpp:88-111 | a ping yields no frame and is answered by a readable pong with its payload exactly when that is at most 125 bytes; a long one overruns like any frame |
| WebSockets.ReadOne | src/utils/net/websocket/websocket.cpp:126-204 | any frame, masked or not, ping or not: handed out or answered if it fits the buffer, overrunning it if only its payload does, otherwise refused with the stream left inside the frame |
| WebSockets.CutFrame | src/utils/net/websocket/websocket.cpp:113-189 | a stream that ends anywhere inside a frame hands out nothing and sends nothing |
| WebSockets.StreamRoundTrip | src/utils/net/websocket/websocket.cpp:51-204 | of any sequence of frames that fit, masked or not, all but the pings are handed out, in order and unchanged, and the pings are answered |
| WebSockets.StreamStopsAt | src/utils/net/websocket/websocket.cpp:171-185 | before the first frame that does not fit everything is delivered; the read of that frame overruns the buffer or refuses it |
| WebSockets.PayloadsReachParser | src/market_data/data_ingester/market_data_ingester.cpp:38-58 | the parser gets exactly the payloads of the binary frames sent, in order |
| WebSocketClients.WebSocket.RecvExact | src/utils/net/websocket/websocket.cpp:113-124 | exactly len bytes for any positive chunk sizes, or failure with the stream used up |
| WebSocketClients.WebSocket.MaskPayload | src/utils/net/websocket/websocket.cpp:206-210 | unmasking in place |
| WebSocketClients.WebSocket.SendFrame | src/utils/net/websocket/websocket.cpp:51-86 | writes the encoded frame |
| WebSocketClients.WebSocket.SendControlFrame | src/utils/net/websocket/websocket.cpp:88-111 | writes a control frame of at most 125 bytes, refuses longer ones |
| WebSocketClients.WebSocket.RecvHeader | src/utils/net/websocket/websocket.cpp:128-169 | the three length forms, read piecewise |
| WebSocketClients.WebSocket.RecvPayload | src/utils/net/websocket/websocket.cpp:174-192 | mask key and payload, unmasked in the buffer |
| WebSocketClients.WebSocket.ReadFrame | src/utils/net/websocket/websocket.cpp:126-204 | unless the stream overruns the buffer: frame, remaining stream and reply are those of the stream function; the payload lies in the buffer |
| MemPools.SearchIsExact | include/utils/containers/memory_pool.hpp:49-60 | the cursor passes used blocks only and gives up only when none is free |
| MemPools.AllocateIsExact | include/utils/containers/memory_pool.hpp:19-29 | exactly the cursor's block is taken, the cursor moves to the nearest free one, and the call survives if and only if two blocks were free |
| MemPools.LastBlockIsUnusable | include/utils/containers/memory_pool.hpp:49-58 | taking the last free block ends the process |
| MemPools.RunAgrees | include/utils/containers/memory_pool.hpp:19-60 | over every run no handle is out twice, handles are exactly the used blocks, free plus used is the pool |
| MemPools.DeallocateIsExact | include/utils/containers/memory_pool.hpp:31-36 | returning a block ends the process if and only if it is not out; otherwise it alone becomes free and the cursor stays |
| MemPools.RunSurvivesExactly | include/utils/containers/memory_pool.hpp:19-60 | a run ends the process if and only if the caller allocates with fewer than two blocks left or returns what is not out |
| MemPools.MemPool.AllocateObject | include/utils/containers/memory_pool.hpp:19-29 | allocation in place; only the handed-out object changes |
| MemPools.MemPool.UpdateNextFreeIndex | include/utils/containers/memory_pool.hpp:49-60 | the wrapping scan, terminating by circular distance |
| MemPools.MemPool.DeallocateObject | include/utils/containers/memory_pool.hpp:31-36 | frees a used block, ends the process for any other index |
| LatencyHistograms.BucketRange | include/utils/perf/latency_tracker.hpp:11-27 | bucket b holds [2^b, 2^(b+1)), bucket 0 also 0 |
| LatencyHistograms.LatencyHistogram.Record | include/utils/perf/latency_tracker.hpp:25-30 | bucket counts and total stay those of the recorded samples |
| LatencyHistograms.LatencyHistogram.Reset | include/utils/perf/latency_tracker.hpp:32-36 | back to no samples |
| LatencyHistograms.LatencyHistogram.PercentileBucket | include/utils/perf/latency_tracker.hpp:48-54 | the first bucket whose running count reaches the rank |
| LatencyHistograms.PercentileIsRank | include/utils/perf/latency_tracker.hpp:45-55 | that bucket is the one of the rank-th smallest sample, and no other fits |
| Strategies.OrderBookImbalance.OnMarketData | src/strategies/mean_reversion/orderbook_imbalance.cpp:6-27 | the signal of the book's best slots and mid price, with both early exits |
| Strategies.MicroInSpread | src/strategies/mean_reversion/orderbook_imbalance.cpp:16-18 | the micro-price lies between best bid and best ask |
| Strategies.MicroIsMonotone | src/strategies/mean_reversion/orderbook_imbalance.cpp:16-18 | more bid volume never lowers it, more ask volume never raises it |
| Strategies.SignalMeaning | src/strategies/mean_reversion/orderbook_imbalance.cpp:20-26 | the signal saturates exactly at three spreads from the mid and has the direction of the difference |
| Strategies.SignalIsQuotient | src/strategies/mean_reversion/orderbook_imbalance.cpp:16-26 | the signal is 0 without volume or spread; otherwise the micro-price weights each price with the other side's volume, and short of saturation the signal is its distance from the mid in thousandths of three spreads |
| Strategies.SignalExample | src/strategies/mean_reversion/orderbook_imbalance.cpp:16-26 | 30 bid at 100, 10 asked at 110, mid 104: micro-price 107, signal 100 |
| Strategies.ScaledDifferenceFits | src/strategies/mean_reversion/orderbook_imbalance.cpp:25 | the scaled difference fits int64 for prices below 2^53 |
| Strategies.SignalOfTrackedBook | src/strategies/mean_reversion/orderbook_imbalance.cpp:8-26 | for a book that follows two non-empty maps the signal is that of the greatest bid, the least ask, their quantities and the mid of the best levels |
| Strategies.SignalOfCleanRun | src/strategies/mean_reversion/orderbook_imbalance.cpp:8-26 | so it is after every clean run, and then the scaled difference fits int64 for prices below 2^53 |
| Strategies.OneSidedSignal | src/strategies/mean_reversion/orderbook_imbalance.cpp:8-26 | with one side empty the micro-price is the price that side's best slot last held |
| Strategies.StaleAskMovesSignal | src/strategies/mean_reversion/orderbook_imbalance.cpp:8-26 | two clean runs to the same maps with signals 0 and 333 |
| Strategies.MicroMomentum.OnMarketData | src/strategies/trend_following/micro_momentum.cpp:6-22 | each signal is exactly 50 times buys minus the rest since the last multiple of 20; division and clamp lose nothing |

## Left out
- Price differences that overflow int64, `std::abs` of the least int64, and an index minus a narrowed step of -2^31 are undefined in C++; the model computes them on unbounded integers.
- OrderBooks.OrderBook.AddUpdate: `last_update_id` is never used by the program and is not modelled.
- `getMidPrice`, `printOrderBook`, `is_bids_full` and `is_asks_full`: floating point, printing, one comparison each.
- QueueInterleaving.FifoUnderEveryInterleaving: assumes that a write starts only while fewer elements than the capacity are unretired, because the ring does not check; memory order is sequentially consistent, as the atomics' default is.
- SbeDecoder.Decode: needs room in the queue for everything it writes, for the same reason; it runs without a concurrent consumer, whose effect is the subject of QueueInterleaving. The side field and schema id of a schema are not read by the decoder and are absent.
- SbeDecoder.Measure: sizes are unbounded, so the wrap-around of a 64-bit offset is not modelled.
- OrderBookManagers.OrderBookManager.RunRound: books are values in the manager's vector and queues are their contents; the endless loop is any number of rounds; timing, histograms and strategy dispatch inside it are absent.
- WebSocketClients.WebSocket.ReadFrame: requires that the bytes that arrive fit the receive buffer, since the program writes them there without checking header and payload together; the handshake, TLS and partial sends are absent, and mask keys are parameters.
- LineReaders.LineReader.NextLine: the source of bytes returns fewer than asked only at its end; opening files, file names and exceptions thrown by the source are absent.
- AsyncReaders.AsyncMatchesSync: exceptions thrown by the byte source and passed through to the client are absent.
- CsvReaders.CsvReader.ReadRow: headers, comments, conversion of columns to numbers and the policy without quotes (csv.h:708-716) are absent; the policy's characters are parameters with the quote different from the separator and from NUL.
- SbeDecoder.EventTime: a millisecond time stamp beyond (2^63 - 1) / 1000 overflows int64 in C++, which is undefined; the model multiplies unbounded integers.
- Pipeline.FromFeeds: one queue per venue, filled by that venue's parser alone, as main.cpp sets up for its one venue.
- RingRefinement.RingsReachBooks: the parser's work between two ring accesses is not interleaved with anything; only its result, the published elements, is named.
- LatencyHistograms.LatencyHistogram.PercentileBucket: the rank is an integer; the floating-point threshold and the conversion to nanoseconds are absent.
- The portfolio, risk and transaction-cost models, the historical aggregator, the FIX gateway and the HTTP client: floating point, foreign libraries or unfinished code.
- The mid-price reversion strategy, the strategy manager, the schema registry and the environment loader: only easy members.
