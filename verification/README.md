# Matching engine and fixed-storage queues: a Dafny model

The project models the limit-order matching engine of the repository (a price level, a book, the
engine) and its three fixed-storage queues (the lock-less ring buffer, the contiguous byte buffer,
the overwriting window with the volume-weighted average over it), and proves what they keep over
any run.

**How the engine is modelled.** `OrderLevel`, `OrderBook` and `MatchingEngine` are classes updated
in place, branch by branch as in the source. Their methods are proved equal to functions on values:
a book is a map from price to queue (`PriceBook`), a request is a step on two books
(`MatchingModel.Step`), a run is a sequence of requests. Those functions are then compared with an
independent picture, one flat list of orders per side in priority order (`FlatBook`).

**Empty levels.** A cancel leaves its level behind when it takes the last order out, while an amend
removes an emptied level; and matching stops as soon as a best level is empty. So a side is split
into the orders before its first empty level (`PriceBook.Visible`) and the rest
(`PriceBook.Hidden`): for all books, matching is flat matching of the visible orders and leaves the
hidden ones alone. Everything about runs follows from that, with no assumption that levels are not
empty unless a row says so.

**What does not hold of the code, and when it does.**
- Live orders of the two sides can be left overlapping. `MarketRuns.CancelledLevelBlocks` gives a
  family of runs that do it; `MarketRuns.StepUncrossed` and `MarketRuns.RunUncrossed` give the exact
  condition, on the books before the call, under which a request or a run leaves the books uncrossed.
  What matching can reach never overlaps, over any run whatever (`MarketRuns.RunReach`).
- A price amend to a price that already has a level of that side reports success and loses the
  order; `MarketRuns.AmendedOrderVanishes` is such a run. `Ledger.AmendKeepsOrders` says exactly when
  an amend keeps the orders of its book, and `Ledger.BalancedExactly` exactly when the volumes of a
  run balance.
- Books do not stay free of empty levels: `MarketRuns.RunEmptiesLevel` says exactly when a run does.
- A lock-less ring whose length does not divide 65536 hands out a wrong value at the wrap-around of
  its 16-bit counters. `RingModel.FifoIffDivides` is an if-and-only-if over all runs.
- A push can be refused by a ring that has room, when others fill and empty slots between its two
  counter reads (`Interleavings.StalePushRefused`); `Interleavings.PushCheck` says exactly when.
- With several producers the lock-less ring can hold more values than it has slots;
  `Interleavings.OccupancyBound` bounds by how many, `Interleavings.BoundIsReached` attains the bound,
  and `Interleavings.CapacityIffSingleProducer` is the exact condition.
- The window of the circular buffer is lost when its 64-bit end index wraps around, and may come
  back later: `CircularBuffers.ShownIff` is the exact condition, for any number of values added, on
  that number and the length of the array.
- A reader of the byte buffer may report more bytes than it was shown; the buffer keeps its order if
  and only if it does not (`RingBuffers.RingBuffer.ReadBuffer`).

**Code and comments.** The comment on `TradeTopLevel` (`order_level.h:44-46`) promises the volume left
at the level; the code returns the traded volume, and so does the model. The "Failed to insert
order" branch of `OrderInsert` is never taken: `OrderBook.Insert` always returns the order. A `Push`
whose callback reports failure still takes its slot.

**Files.** `Wrappers`, `Orders`, `FlatBook`, `PriceBook`, `MatchingModel` (values), `OrderLevel`, `OrderBook`,
`MatchingEngine` (classes), `Priority`, `Ledger`, `Uncrossed`, `MarketRuns`, `PlainMarket` (properties of
requests and runs), `RingModel`, `LockLessRingBuffer`, `Interleavings`, `RingBuffer`, `CircularBuffer`, `Vwap`.

## Model

| member | source | states |
|---|---|---|
| OrderLevels.OrderLevel.TradeTopLevel | src/lib/modules/matching_engine_module/order_level.cpp:30-51 | trades the smaller of the asked and the first order's volume, reports it with that order's own account, price, id and client id, and drops the order exactly when nothing is left of it |
| OrderLevels.OrderLevel.CancelOrder | src/lib/modules/matching_engine_module/order_level.cpp:70-81 | removes the first order with the id and no other, or changes nothing |
| OrderLevels.OrderLevel.ChangeOrderVolume | src/lib/modules/matching_engine_module/order_level.cpp:83-105 | rewrites the volume of the first order with the id where it stands in the queue |
| OrderLevels.OrderLevel.Find | src/lib/modules/matching_engine_module/order_level.cpp:107-124 | the search loop ends on the first order with the id, or past the end |
| OrderBooks.OrderBook.Begin | src/lib/modules/include/modules/matching_engine_module/order_book.h:53-57 | the first entry of the ordered map is the price no other level is better than |
| OrderBooks.OrderBook.TradeTop | src/lib/modules/matching_engine_module/matching_engine.cpp:199-209 | trading the best order and removing its level by the order's price removes exactly the emptied level |
| OrderBooks.OrderBook.Insert | src/lib/modules/matching_engine_module/order_book.cpp:6-36 | the whole new book after an insert, and that the order is always returned |
| OrderBooks.OrderBook.Amend | src/lib/modules/matching_engine_module/order_book.cpp:38-90 | the whole new book and the result for all four branches, the refused emplace included |
| OrderBooks.OrderBook.Cancel | src/lib/modules/matching_engine_module/order_book.cpp:92-105 | the whole new book and the result, an emptied level staying in place |
| MatchingEngines.ExecuteOrder | src/lib/modules/matching_engine_module/matching_engine.cpp:134-211 | the loop terminates for any volumes and leaves both books and the messages as the recursive definition of matching says |
| MatchingEngines.MatchingEngine.OrderInsert | src/lib/modules/matching_engine_module/matching_engine.cpp:47-80 | both books and all messages in order after an insert request |
| MatchingEngines.MatchingEngine.OrderAmend | src/lib/modules/matching_engine_module/matching_engine.cpp:82-111 | both books and all messages in order after an amend request |
| MatchingEngines.MatchingEngine.OrderCancel | src/lib/modules/matching_engine_module/matching_engine.cpp:113-132 | both books and the message after a cancel request, which matches nothing |
| PriceBook.FlatSplit | src/lib/modules/include/modules/matching_engine_module/order_book.h:36 | the listed orders split around any price into what is ahead, the queue at the price, and what is behind |
| PriceBook.FlatWellFormed | src/lib/modules/include/modules/matching_engine_module/order_book.h:53-57 | the flat list of a book is sorted under the side's comparator and holds each order in the level of its price |
| PriceBook.InsertFlat | src/lib/modules/matching_engine_module/order_book.cpp:6-36 | an insert is a stable insertion into the flat list, with empty levels or without |
| FlatBook.InsertPosition | src/lib/modules/matching_engine_module/order_level.cpp:63-68 | a new order queues behind every order at least as well priced and before every worse one |
| PriceBook.CancelFlat | src/lib/modules/matching_engine_module/order_book.cpp:92-105 | a cancel removes the named order from the flat list, and succeeds exactly when it is there |
| PriceBook.AmendFlat | src/lib/modules/matching_engine_module/order_book.cpp:38-90 | every kind of amend has its plain effect on the flat list, and succeeds exactly when the order is there |
| PriceBook.TradeTopFlat | src/lib/modules/matching_engine_module/order_level.cpp:30-51 | trading the top consumes the front of the reachable list and nothing behind an empty level |
| PriceBook.MoveIsTakeOutInsert | src/lib/modules/matching_engine_module/order_book.cpp:65-88 | a price amend to a free price equals taking the order out, with its emptied level, and inserting it anew |
| MatchingModel.MatchBooksRefines | src/lib/modules/matching_engine_module/matching_engine.cpp:134-211 | for all books, matching the two maps of queues is matching the two lists of reachable orders |
| MatchingModel.MatchBooksStops | src/lib/modules/matching_engine_module/matching_engine.cpp:139-186 | matching ends with a side empty, a best level empty or prices apart, after no more pairs of trades than reachable orders |
| MatchingModel.MatchBooksEmptiesNoLevel | src/lib/modules/matching_engine_module/matching_engine.cpp:203-209 | for all books, a level that matching leaves empty was empty before |
| MatchingModel.StepFlat | src/lib/modules/matching_engine_module/matching_engine.cpp:47-132 | every request is its edit of the flat list followed by flat matching of what can be reached |
| PlainMarket.CancelReaches | src/lib/modules/matching_engine_module/matching_engine.cpp:113-132 | a cancel edits the list of the side it names, leaves the other alone, and is confirmed exactly when such an order rests on that side |
| PlainMarket.InsertReaches | src/lib/modules/matching_engine_module/matching_engine.cpp:47-80 | an insert queues on the side of the order, matches on its behalf and is confirmed with the ids of the order |
| PlainMarket.AmendReaches | src/lib/modules/matching_engine_module/matching_engine.cpp:82-111 | an amend edits the list of the side it names and matches on its behalf, or changes nothing and is refused, exactly when no such order rests on that side |
| MatchingModel.ReportsEach | src/lib/modules/matching_engine_module/matching_engine.cpp:191-201 | two messages a match, in order, the resting side first |
| MatchingModel.RunAppend | src/lib/modules/matching_engine_module/matching_engine.cpp:47-132 | a run is its requests one after the other, books and trades |
| MatchingModel.RunValid | src/lib/modules/matching_engine_module/order_book.cpp:6-105 | over any run every order stands at its own price and on its own side |
| FlatBook.ExecuteStops | src/lib/modules/matching_engine_module/matching_engine.cpp:180-186 | flat matching leaves two lists whose fronts cannot trade |
| FlatBook.ExecuteConserves | src/lib/modules/matching_engine_module/matching_engine.cpp:199-201 | matching takes from either list the volume it reports, the same for both |
| FlatBook.ExecuteBound | src/lib/modules/matching_engine_module/matching_engine.cpp:139-210 | every iteration retires at least one order, zero volumes included |
| FlatBook.ExecutePairs | src/lib/modules/matching_engine_module/matching_engine.cpp:180-201 | whatever the volumes, both trades of every match carry the same volume, each with the account, price, id and client id of an order of its list that has that volume, the ask priced no higher than the bid |
| FlatBook.ExecuteInTurn | src/lib/modules/matching_engine_module/matching_engine.cpp:147-201 | within one matching, once an order has traded no order ahead of it trades any more |
| FlatBook.ExecutePriority | src/lib/modules/matching_engine_module/matching_engine.cpp:147-201 | within one matching, an order behind another that is left over has traded nothing |
| FlatBook.Aggressor | src/lib/modules/matching_engine_module/matching_engine.cpp:139-210 | one order facing a sorted list takes the smaller of its volume and the crossing volume, from the front and in its own name, with every pair of trades given |
| Priority.StepInTurn | src/lib/modules/matching_engine_module/order_level.cpp:30-51 | fill by fill, in one request all trades of the order ahead come before the first of the order behind |
| Priority.StepPriority | src/lib/modules/matching_engine_module/order_level.cpp:30-105 | no request reverses two orders it does not place, and the one behind trades nothing while the one ahead is left |
| Priority.RunInTurn | src/lib/modules/matching_engine_module/order_level.cpp:30-145 | fill by fill over any run, all trades of the order ahead come before the first of the order behind, with empty levels or without |
| Priority.RunPriority | src/lib/modules/matching_engine_module/order_level.cpp:30-145 | over any run whoever is ahead stays ahead, and an order still in the book has let nothing behind it trade |
| Ledger.StepConserves | src/lib/modules/matching_engine_module/order_book.cpp:38-90 | per request and side: resting, traded, cancelled and dropped volume equal what rested, was inserted and was amended |
| Ledger.RunConserves | src/lib/modules/matching_engine_module/matching_engine.cpp:199-201 | the same over any run, and both sides trade the same volume |
| Ledger.BalancedExactly | src/lib/modules/matching_engine_module/order_book.cpp:69-86 | over a run of validated requests resting, traded and cancelled volume balance what was inserted and amended, on both sides, if and only if no price amend moves a resting order onto an existing level |
| Ledger.AccountMeans | src/lib/modules/matching_engine_module/order_book.cpp:38-105 | what each request books, told from the order it finds in the list of its side |
| Ledger.AmendKeepsOrders | src/lib/modules/matching_engine_module/order_book.cpp:69-86 | an amend keeps the orders of its book if and only if it has volume and does not move to an existing level; otherwise exactly that order is gone |
| Uncrossed.PlaceExactly | src/lib/modules/matching_engine_module/matching_engine.cpp:58-80 | from any uncrossed books, empty levels or not: every pair of trades of an incoming order, what it leaves of the other side, and what rests |
| Uncrossed.PlaceUncrossed | src/lib/modules/matching_engine_module/matching_engine.cpp:147-186 | an incoming order leaves the books uncrossed if and only if its guard holds |
| MarketRuns.StepUncrossed | src/lib/modules/matching_engine_module/matching_engine.cpp:47-132 | any request leaves uncrossed books uncrossed if and only if it places nobody or its guard holds |
| MarketRuns.RunUncrossed | src/lib/modules/matching_engine_module/matching_engine.cpp:47-132 | a run stays uncrossed throughout if and only if every request of it is guarded |
| MarketRuns.StepReach | src/lib/modules/matching_engine_module/matching_engine.cpp:47-186 | whatever levels are empty, no request, refused or not, leaves two reachable orders overlapping |
| MarketRuns.RunReach | src/lib/modules/matching_engine_module/matching_engine.cpp:139-186 | over any run whatever nothing that matching can reach overlaps, and the loop condition of matching is false for both sides |
| PlainMarket.RunBestApart | src/lib/modules/matching_engine_module/matching_engine.cpp:139-186 | over any run whatever: when the highest bid level and the lowest ask level both hold an order, the bid is priced below the ask |
| PlainMarket.RunApart | src/lib/modules/matching_engine_module/matching_engine.cpp:139-186 | over any validated run that cancels no last order of a level every resting bid is priced below every resting ask |
| PlainMarket.UncrossedMeans | src/lib/modules/matching_engine_module/matching_engine.cpp:180-182 | books are uncrossed if and only if every resting bid is priced below every resting ask |
| PlainMarket.ListedByPrice | src/lib/modules/include/modules/matching_engine_module/order_book.h:53-57 | bids are listed from the highest price down, asks from the lowest up |
| Uncrossed.ReachUncrossedExactly | src/lib/modules/matching_engine_module/matching_engine.cpp:139-178 | nothing reachable overlaps if and only if the loop condition of matching is false |
| PriceBook.RemoveVisible | src/lib/modules/matching_engine_module/order_book.cpp:92-105 | a cancel, emptying its level or not, brings no other order within the reach of matching |
| MarketRuns.StepEmptiesLevel | src/lib/modules/matching_engine_module/order_book.cpp:92-105 | a request leaves books without empty levels so if and only if it does not cancel the last order of a level |
| MarketRuns.RunEmptiesLevel | src/lib/modules/matching_engine_module/order_book.cpp:92-105 | a run stays free of empty levels throughout if and only if none of its requests cancels the last order of a level |
| MarketRuns.RunHealthy | src/lib/modules/matching_engine_module/matching_engine.cpp:139-186 | healthy books stay uncrossed and free of empty levels throughout a validated run if and only if no cancel takes the last order of a level |
| MarketRuns.RunFromEmpty | src/lib/modules/matching_engine_module/matching_engine.cpp:139-186 | the same for every validated run of a new engine |
| MarketRuns.PlacementRefines | src/lib/modules/matching_engine_module/matching_engine.cpp:47-111 | on books without empty levels any request that places an order trades the smaller of its volume and all crossing volume, one resting order after the other from the front of the list, and rests the remainder |
| PlainMarket.PlacementByPrice | src/lib/modules/matching_engine_module/matching_engine.cpp:180-201 | an incoming bid trades the smaller of its volume and what the asks at its price or below hold, with the first of the list one by one, all but the last in full, and leaves such an ask only when it is used up; asks likewise |
| PlainMarket.CrossVolumeIs | src/lib/modules/matching_engine_module/matching_engine.cpp:180-182 | what an order can take is the volume of the asks at its price or below, or of the bids at its price or above |
| FlatBook.FillsEach | src/lib/modules/matching_engine_module/order_level.cpp:42-44 | every trade of a placement has the fields of the order it names and the volume of its match |
| MarketRuns.InsertRefines | src/lib/modules/matching_engine_module/matching_engine.cpp:47-80 | the same for an insert |
| MarketRuns.MoveRefines | src/lib/modules/matching_engine_module/order_book.cpp:65-88 | the same for a price amend to a free price, the amended order first taken out of its list |
| MarketRuns.SingleAggressor | src/lib/modules/matching_engine_module/matching_engine.cpp:58-74 | from uncrossed books every trade of the requesting side belongs to the order being placed |
| MarketRuns.QuietStep | src/lib/modules/matching_engine_module/matching_engine.cpp:82-132 | a request that places no order trades nothing and keeps the books uncrossed |
| MarketRuns.StepMatches | src/lib/modules/matching_engine_module/matching_engine.cpp:180-201 | the same for every match of any request, about the orders resting and placed; with validated requests volumes traded and resting are positive |
| MarketRuns.RunPositive | src/lib/modules/matching_engine_module/order_data.cpp:150-184 | resting volumes stay positive over any run of validated requests |
| MarketRuns.CancelledLevelBlocks | src/lib/modules/matching_engine_module/order_book.cpp:92-105 | insert, cancel, insert, insert leaves a bid and an ask overlapping and untraded |
| MarketRuns.AmendedOrderVanishes | src/lib/modules/matching_engine_module/order_book.cpp:69-86 | insert, insert, amend of the first order to the price of the second is confirmed and leaves only the second |
| RingModel.CountExec | src/lib/common/include/common/lock_less_ring_buffer.h:116-142 | for every ring length and run, the ring holds, accepts and refuses as many values as a bounded queue, across wrap-around |
| RingModel.ValuesExec | src/lib/common/include/common/lock_less_ring_buffer.h:31-64 | a ring whose length divides 65536 is the bounded queue for runs of any length |
| RingModel.ClashDelivers | src/lib/common/include/common/lock_less_ring_buffer.h:38-46 | for every other length a run whose last pop hands out the wrong value |
| RingModel.FifoIffDivides | src/lib/common/include/common/lock_less_ring_buffer.h:31-64 | first in, first out over all runs if and only if the length divides 65536 |
| RingModel.FifoByDefault | src/lib/common/include/common/lock_less_ring_buffer.h:16-64 | a ring of the default length 1024 is first in, first out over all runs |
| LockLessRingBuffers.LockLessRingBuffer.Push | src/lib/common/include/common/lock_less_ring_buffer.h:31-46 | succeeds in reserving exactly when fewer values are held than there are slots, holds the value the callback wrote, and takes the slot even when the callback reports failure |
| LockLessRingBuffers.LockLessRingBuffer.Pop | src/lib/common/include/common/lock_less_ring_buffer.h:48-64 | hands out the value of the tail slot unless nothing is held, and that is the value held longest if the length divides 65536 |
| LockLessRingBuffers.LockLessRingBuffer.Size | src/lib/common/include/common/lock_less_ring_buffer.h:116-123 | the size is the number of values pushed and not popped, across wrap-around of the counters |
| LockLessRingBuffers.LockLessRingBuffer.HasSpace | src/lib/common/include/common/lock_less_ring_buffer.h:130-133 | there is space exactly when fewer values are held than there are slots |
| LockLessRingBuffers.LockLessRingBuffer.Empty | src/lib/common/include/common/lock_less_ring_buffer.h:135-142 | empty exactly when nothing is held |
| Interleavings.RunKeeps | src/lib/common/include/common/lock_less_ring_buffer.h:31-64 | the invariant of all interleavings of producers and one consumer, the two counter reads being separate steps |
| Interleavings.UndisturbedPush | src/lib/common/include/common/lock_less_ring_buffer.h:31-46 | a push nobody interrupts reserves one slot exactly when the ring is not full |
| Interleavings.UndisturbedPop | src/lib/common/include/common/lock_less_ring_buffer.h:48-64 | a pop nobody interrupts takes one value exactly when the ring is not empty |
| Interleavings.PopCheck | src/lib/common/include/common/lock_less_ring_buffer.h:135-142 | over any interleaving a consumer that has read a head counter may pop exactly when that counter is not the tail counter, whatever has been reserved since |
| Interleavings.PushCheck | src/lib/common/include/common/lock_less_ring_buffer.h:116-133 | over any interleaving the exact outcome of a producer's check for the head counter it has read, however stale, and what it says about the counters without truncation |
| Interleavings.StalePushRefused | src/lib/common/include/common/lock_less_ring_buffer.h:31-38 | for every capacity an interleaving in which an empty ring refuses a push |
| Interleavings.OccupancyBound | src/lib/common/include/common/lock_less_ring_buffer.h:116-142 | held values plus producers past their check never exceed the capacity plus the producers less one, and never fall below zero |
| Interleavings.BoundIsReached | src/lib/common/include/common/lock_less_ring_buffer.h:31-38 | for every capacity and number of producers an interleaving that reaches the bound |
| Interleavings.CapacityIffSingleProducer | src/lib/common/include/common/lock_less_ring_buffer.h:31-38 | the ring keeps within its capacity under every interleaving if and only if there is one producer |
| RingBuffers.RingBuffer.CopyDown | src/lib/common/include/common/ring_buffer.hpp:147-149 | moving the unread bytes down in ascending order keeps them even when source and destination overlap |
| RingBuffers.DirectionMattersIffOverlap | src/lib/common/include/common/ring_buffer.hpp:147-149 | a copy in descending order keeps them too, for every contents, if and only if the ranges do not overlap |
| RingBuffers.RingBuffer.GetWriteBuffer | src/lib/common/include/common/ring_buffer.hpp:137-156 | there is room exactly when the size fits beside the unread bytes, and those stay what they are |
| RingBuffers.RingBuffer.WriteBuffer | src/lib/common/include/common/ring_buffer.hpp:63-74 | all of the data is appended, or nothing |
| RingBuffers.RingBuffer.WriteBufferWith | src/lib/common/include/common/ring_buffer.hpp:76-89 | exactly the reported part of what the callback wrote is appended, and nothing for a report out of range |
| RingBuffers.RingBuffer.ReadBuffer | src/lib/common/include/common/ring_buffer.hpp:108-122 | flushed bytes followed by unread bytes stay all bytes committed, if and only if the callback reports no more than it was shown |
| CircularBuffers.CircularBuffer.Add | src/lib/common/include/common/circular_buffer.hpp:16-27 | one slot is written, and across any number of wrap-arounds the array keeps the last values added since the 64-bit end index was zero, each in its slot |
| CircularBuffers.StartAt | src/lib/common/include/common/circular_buffer.hpp:22-24 | the start index in closed form: every time the end index wraps around it is led astray by 2^64 - 1 |
| CircularBuffers.CircularBuffer.Loop | src/lib/common/include/common/circular_buffer.hpp:29-47 | the loop is the stopping fold over what start index and truncated size say, which is the last values added, oldest first, whenever the window is kept, and nothing once the end index has wrapped to zero |
| CircularBuffers.ShownIff | src/lib/common/include/common/circular_buffer.hpp:16-47 | after any number of values, a loop visits exactly the last distinct values added, oldest first, if and only if the end index has not wrapped around, or has reached the length again with the start index astray by a multiple of it |
| CircularBuffers.KeptMeans | src/lib/common/include/common/circular_buffer.hpp:16-47 | that condition in numbers, with 2^64 written out |
| CircularBuffers.FoldsPrefix | src/lib/common/include/common/circular_buffer.hpp:32-37 | the callback sees all of the window if it always continues, else the prefix up to its first refusal |
| Vwap.VwapCalculator.OnTradeTick | playground/market_data_feed/vwap_calculator.hpp:15-38 | the average is the weighted mean of the last 500 ticks with a positive price, for every history for which the buffer keeps its window; the tick at which the end index wraps around finds nothing to average |
| Vwap.AverageIs | playground/market_data_feed/vwap_calculator.hpp:22-33 | the average times the volume of the window is its sum of price times volume, and there is none exactly when the volumes add up to zero |
| Vwap.SumsAdd | playground/market_data_feed/vwap_calculator.hpp:26-30 | both sums add up what the ticks contribute one by one |
| Vwap.PricedTicks | playground/market_data_feed/vwap_calculator.hpp:19-20 | exactly the ticks with a positive price are kept, each as often as it came |
| Vwap.PricedInOrder | playground/market_data_feed/vwap_calculator.hpp:19-20 | they are kept in the order they came |
| Vwap.PricedWindowIs | playground/market_data_feed/vwap_calculator.hpp:19-32 | the window is the last 500 of them, and a tick without a positive price leaves it as it was |
| Vwap.AverageBetween | playground/market_data_feed/vwap_calculator.hpp:22-33 | for any history whose window has volumes that are not negative and not all zero there is an average, and it lies between any bounds of the prices in the window |

## Left out

- MatchingEngines.ExecuteOrder: trades are collected and appended to the log when matching ends instead of being sent one by one; the order of messages is the same.
- OrderBooks.OrderBook.Amend: the moved order is copied before the old one is erased; the source rewrites the doomed element first, which nothing can observe.
- RingBuffers.RingBuffer.CopyDown: the source calls memcpy, which leaves overlapping copies undefined; the model copies element by element in ascending order, and says when the order matters.
- RingBuffers.RingBuffer.WriteBuffer: elements are single bytes, because the source counts bytes and elements alike.
- LockLessRingBuffers.LockLessRingBuffer.Pop: calls do not overlap here; values under truly concurrent calls are not modelled, since a slot is reserved before it is written.
- Interleavings.OccupancyBound: several consumers are not modelled; memory orders, cache alignment, `Signal`, `Wait` and the disabled push and pop neither.
- Vwap.VwapCalculator.OnTradeTick: real numbers in place of IEEE doubles; a window without volume gives `Undefined`.
- Instrument, order type, order time and duration: carried by an order and never read by the engine.
- JSON parsing, message text, generated ids, `OrderEventProcessor`, `MatchingEngineModule` and `GetBook`: the wire layer; requests are inputs, replies and trades a log.
- The recursive mutex of the engine: each request is one atomic step.
- Sockets, sessions, timers, configuration, logging, stream parsers, `unordered_fast_map`, `Singleton`: plumbing outside the model.
