# Distributed median-filter image processing, modelled in Dafny

This is a model of a small UDP system that processes images. It has three kinds of node.

- A **client** sends images to a **master**. It remembers each image under a fresh packet id, then matches the processed images that come back against those ids.
- The **master** keeps a registry of **slaves**. Each slave is marked busy or free.
  - A request goes straight to a free slave, chosen round-robin from a cursor. When every slave is busy, the request waits in a FIFO queue.
  - When a result comes back, the master frees the slave that sent it, forwards the result to the client that asked, and drains the queue.
- A **slave** registers with the master, then answers each request:
  - it applies a median filter to the image (by default 15 x 15, per channel);
  - it shrinks the filtered image for transport, using a JPEG quality table keyed by size and then up to five fallback passes, aiming at 40,000 bytes;
  - it replies with the same packet id and its own port.

How each part is modelled:

- **Master.** Its scheduling rules are pure functions on a value that holds every field the master updates (module `Scheduling`). The properties of those functions are proved in `SchedulerProperties`. The class `Master.MasterNode` keeps the C# fields and updates them in place. Each of its handlers is proved to perform exactly the matching transition.
- **Slave.** The slave (`Slave`, `Compression`) and the client (`Client`) are modelled the same way. The median filter (`MedianFilter`, `Median`) works in place on the locked 24-bit pixel buffers, modelled as arrays. It is proved against a specification that gives each output byte as the median of a clipped window, and its result is also given as a value (`MedianFilter.Filtered`). The slave filters every image through `MedianFilter.ApplyMedianFilter` with the default size 15: decode, run the in-place filter, encode as PNG.
- **Protocol.** The module `Protocol` chains the nodes through the transport for one image and for one registration.

Things that are parameters of the model:

- The image decoder (`new Bitmap(stream)` seen through `LockBits`), the PNG encoder (`Bitmap.Save`) and the JPEG encoder are function-typed parameters (`MedianFilter.Decoder`, `MedianFilter.Encoder`, `Compression.Compressor`). Nothing is assumed of them, except that a decoded image is a 24-bit buffer that fits its geometry. The median filter between the decoder and the PNG encoder is the modelled one.
- Fresh GUIDs are parameters.
- Whether the transport accepted a datagram is a parameter.

JSON bodies are represented by the structure they serialise (`Messages.Payload`). A body of the wrong shape is the exception path, and it leaves the node's state unchanged. On receipt, the transport stamps `SenderIp`/`SenderPort` with the remote endpoint (Services/UdpService.cs:84-85). The model does the same (`Messages.Delivered`). Every send is recorded in an outbox, oldest first.

## Model

| member | source | states |
|---|---|---|
| Scheduling.FirstFreeFrom | Nodes/MasterNode.cs:238-254 | the cyclic scan from step d stops at the first step whose slave is free, and every step it passes is busy; None means every remaining step is busy |
| Scheduling.Selection | Nodes/MasterNode.cs:219-262 | the slave picked is registered and free; none is picked exactly when no registered slave is free |
| Scheduling.Drain | Nodes/MasterNode.cs:308-329 | draining keeps the cursor in range, never changes the registry, the pending map or the counters of received and completed tasks, and only appends to the sends |
| Scheduling.DrainPreservesValid | Nodes/MasterNode.cs:308-329 | draining keeps the invariant: unique keys, busy and count maps with exactly the registered keys, cursor in range |
| Scheduling.AssignPreservesValid | Nodes/MasterNode.cs:275-303 | handing a task to a registered slave keeps the invariant |
| Scheduling.EnrolPreservesValid | Nodes/MasterNode.cs:98-106 | enrolling an (ip, port) not yet registered keeps the invariant |
| Scheduling.ReleasePreservesValid | Nodes/MasterNode.cs:463-525 | freeing the sender slave and forwarding the result keep the invariant |
| Scheduling.Acknowledge | Nodes/MasterNode.cs:555-564 | an acknowledgment appends one "OK" send to (ip, port), changes nothing else and keeps the invariant |
| SchedulerProperties.SelectionIsFirstFree | Nodes/MasterNode.cs:238-254 | the pick is the first free slave met scanning cyclically from the cursor |
| SchedulerProperties.SelectionPrefersCursor | Nodes/MasterNode.cs:238-254 | a free slave under the cursor is picked, and the cursor moves one past it |
| SchedulerProperties.FindKeepsCursorInRange | Nodes/MasterNode.cs:240-251 | only the cursor changes, and it stays inside the registry |
| SchedulerProperties.AssignEffects | Nodes/MasterNode.cs:275-303 | the chosen slave becomes busy, its counter grows by one, one send of the task goes to its address, and no other slave's flag or counter changes |
| SchedulerProperties.DrainDispatchesInOrder | Nodes/MasterNode.cs:308-329 | the queue leaves from the front; each dispatched task becomes exactly one send, in queue order; the rest of the queue stays |
| SchedulerProperties.DrainTakesFromFront | Nodes/MasterNode.cs:310-323 | the tasks that stay queued after a drain are a suffix of the queue |
| SchedulerProperties.DrainFreesNoSlave | Nodes/MasterNode.cs:308-329 | a slave busy before the drain is busy after it |
| SchedulerProperties.DrainLeavesTargetsBusy | Nodes/MasterNode.cs:308-329 | every slave the drain sends to is busy afterwards |
| SchedulerProperties.DrainStopsWhenEmptyOrAllBusy | Nodes/MasterNode.cs:310-320 | the drain stops only with an empty queue or with every slave busy |
| SchedulerProperties.DrainMakesProgress | Nodes/MasterNode.cs:310-328 | with a task waiting and a slave free, at least one task is dispatched |
| SchedulerProperties.RegisterAlwaysAcknowledges | Nodes/MasterNode.cs:79-129 | a registration body is always acknowledged to the (ip, port) it names, as the last send, after any sends from the drain |
| SchedulerProperties.RegisterKnownSlaveChangesNothing | Nodes/MasterNode.cs:92-121 | re-registering a known (ip, port) leaves the registry, flags, counters, queue, pending map and cursor unchanged |
| SchedulerProperties.RegisterNewSlave | Nodes/MasterNode.cs:95-116 | a new (ip, port) is appended once; its key is in the busy map; with an empty queue it is free with a zero count, and with waiting tasks the queue shrinks |
| SchedulerProperties.RequestWithoutSlavesIsDropped | Nodes/MasterNode.cs:138-142 | with no registered slave a request changes nothing |
| SchedulerProperties.RequestAssignsOrQueues | Nodes/MasterNode.cs:134-214 | a request is counted and its client recorded under the packet id; when `FindFreeSlave` names slave i, the task is sent to slave i's address, that slave's flag turns busy, its counter grows by one and the cursor moves to i + 1 (mod the count); otherwise the task joins the back of the queue and no flag, counter, send or cursor changes; it is queued exactly when every slave is busy |
| SchedulerProperties.SelectionSameScan | Nodes/MasterNode.cs:219-262 | the slave `FindFreeSlave` picks depends only on the registry, the busy flags and the cursor |
| SchedulerProperties.RequestPreservesValid | Nodes/MasterNode.cs:134-214 | a request keeps the invariant and the registry |
| SchedulerProperties.RequestAll | Nodes/MasterNode.cs:134-214 | a run of requests, handled one after another, keeps the invariant and the registry |
| SchedulerProperties.RequestToCursor | Nodes/MasterNode.cs:134-214 | with the slave under the cursor free, a request is sent to it, it turns busy, the queue is untouched and the cursor moves one on |
| SchedulerProperties.SlotsDistinct | Nodes/MasterNode.cs:238-254 | within one round the cyclic scan visits no registry index twice |
| SchedulerProperties.StillFreeAfterFirst | Nodes/MasterNode.cs:238-254 | after the first request of a round, the slaves further along the scan are still free, and the scan from the new cursor meets them one step earlier |
| SchedulerProperties.RoundRobinFrom | Nodes/MasterNode.cs:134-214 | while the slaves met by the scan are free, consecutive requests go to them in scan order, one each, nothing is queued, and the cursor advances by one per request |
| SchedulerProperties.RoundSendsCoverEachSlaveOnce | Nodes/MasterNode.cs:238-254 | in a full round request j goes to the slave j steps past the cursor, no slave is sent two requests, and every slave is sent one |
| SchedulerProperties.RoundRobinIsFair | Nodes/MasterNode.cs:134-262 | with all n slaves free, n consecutive requests go one to each slave in registry order from the cursor, none is skipped or served twice, nothing is queued, and the cursor ends where it started |
| SchedulerProperties.ReleaseAndForwardEffects | Nodes/MasterNode.cs:463-525 | the slave keyed by the sender address and the packet's SlavePort is freed whatever the UDP source port; a pending id gets the data forwarded verbatim to its client and is forgotten; an unknown id forwards nothing |
| SchedulerProperties.DuplicateResponseForwardsNothing | Nodes/MasterNode.cs:509-525 | a second response for the same packet id reaches no client |
| SchedulerProperties.RequestThenResponseReachesClient | Nodes/MasterNode.cs:134-214 | a request followed by the response for its id forwards the data to the request's sender address and port, and forgets the id |
| SchedulerProperties.StepPreservesValid | Nodes/MasterNode.cs:51-74 | every inbound message keeps the invariant: keys are unique, the busy and count maps have exactly the registered keys, and the cursor is in range |
| Master.MasterNode.constructor | Nodes/MasterNode.cs:31-40 | empty registry, maps and queue; cursor and counters at zero |
| Master.MasterNode.FindFreeSlave | Nodes/MasterNode.cs:219-262 | returns the slave `Selection` names and moves only the cursor, as `AfterFind` says |
| Master.MasterNode.AssignTaskToSlave | Nodes/MasterNode.cs:275-303 | the new fields are those of `Assign` |
| Master.MasterNode.Enqueue | Nodes/MasterNode.cs:205 | the task joins the back of the queue; no other field changes |
| Master.MasterNode.Dequeue | Nodes/MasterNode.cs:323 | the oldest task is returned and removed; no other field changes |
| Master.MasterNode.ProcessTaskQueue | Nodes/MasterNode.cs:308-329 | the loop ends in the state `Drain` gives, keeping the invariant |
| Master.MasterNode.SendAcknowledgment | Nodes/MasterNode.cs:555-564 | the new fields are those of `Acknowledge`: one "OK" acknowledgment is sent to (ip, port) |
| Master.MasterNode.HandleSlaveRegistration | Nodes/MasterNode.cs:79-129 | the new fields are those of `Register`, keeping the invariant |
| Master.MasterNode.HandleImageRequest | Nodes/MasterNode.cs:134-214 | the new fields are those of `Request`, keeping the invariant |
| Master.MasterNode.HandleImageResponse | Nodes/MasterNode.cs:463-550 | the new fields are those of `Response`, keeping the invariant |
| Master.MasterNode.OnMessageReceived | Nodes/MasterNode.cs:51-74 | dispatches on the type as `Step` does; an acknowledgment changes nothing |
| Compression.BracketFor | Nodes/SlaveNode.cs:141-209 | a filtered image has a size bracket exactly when it is over 50,000 bytes |
| Compression.CompressForTransport | Nodes/SlaveNode.cs:135-222 | the bytes are those of the bracket stage and then the fallback loop; 0 to 5 fallback passes run; more than 40,000 bytes remain only after all 5 |
| Compression.BracketStage | Nodes/SlaveNode.cs:141-209 | the bytes are the encoding through the qualities the size table picks for the filtered image |
| Compression.FallbackStage | Nodes/SlaveNode.cs:214-222 | the bytes are the encoding through the fallback qualities; 0 to 5 passes run, and more than 40,000 bytes remain only after all 5 |
| Compression.EncodeAppend | Nodes/SlaveNode.cs:141-222 | running two lists of qualities one after the other is running their concatenation |
| Compression.LargerImagesCompressHarder | Nodes/SlaveNode.cs:141-209 | a larger image never gets a higher primary or secondary quality, and each secondary is below its primary |
| Compression.BracketStageFollowsTable | Nodes/SlaveNode.cs:141-209 | the bracket stage is skipped at 50,000 bytes or less; otherwise it starts with the table's primary, and the secondary runs exactly when the primary's output is over 40,000 bytes |
| Compression.FallbackQualitiesAre | Nodes/SlaveNode.cs:214-222 | pass n of the fallback uses quality max(10, 30 - 5n) |
| Compression.FallbackSchedule | Nodes/SlaveNode.cs:214-222 | the fallback uses a prefix of 25, 20, 15, 10, 10; it runs only above 40,000 bytes, and it ends within the limit or after five passes |
| Compression.FallbackEnds | Nodes/SlaveNode.cs:214-222 | the fallback stops within 40,000 bytes or with the attempts used up |
| Compression.AtMostSevenCompressions | Nodes/SlaveNode.cs:141-222 | one image costs at most seven encoder calls |
| Compression.TransportResult | Nodes/SlaveNode.cs:141-228 | the result is the bracket stage then the fallback; it is at most 40,000 bytes unless all five passes ran, and it is sent either way |
| Slave.RegistrationMessage | Nodes/SlaveNode.cs:43-57 | a SlaveRegister message whose body names 127.0.0.1 and the slave's own port |
| Slave.ResponsePacket | Nodes/SlaveNode.cs:238-247 | the response carries the processed bytes and the slave's port, and every other field of the request |
| Slave.ReplyAnswersRequest | Nodes/SlaveNode.cs:106-268 | a decodable request is answered once, with the same id, name, size and format, the slave's port, and the transport bytes of the image as `ApplyMedianFilter` returns it for the default size 15 |
| Slave.SlaveNode.constructor | Nodes/SlaveNode.cs:18-23 | the slave keeps its port and the master's address, and has sent nothing |
| Slave.SlaveNode.RegisterWithMaster | Nodes/SlaveNode.cs:34-76 | one registration message is sent to the master |
| Slave.SlaveNode.ProcessImageRequest | Nodes/SlaveNode.cs:106-268 | the image goes through `ApplyMedianFilter` with the default size 15 and the transport schedule, and exactly the `Reply` is sent to the master; an undecodable body sends nothing |
| Slave.SlaveNode.SendProcessedImage | Nodes/SlaveNode.cs:273-317 | one ImageResponse carrying the packet is sent to the master |
| Slave.SlaveNode.OnMessageReceived | Nodes/SlaveNode.cs:78-101 | requests are processed; acknowledgments and other types send nothing |
| Median.Insert | Services/MedianFilterService.cs:131 | inserting keeps the list sorted and adds exactly one copy of the value |
| Median.Sort | Services/MedianFilterService.cs:131 | the result is sorted and a permutation of the values |
| Median.SortedUnique | Services/MedianFilterService.cs:131 | two sorted lists with the same elements are equal, so the sorted order of the values is unique |
| Median.MedianIgnoresOrder | Services/MedianFilterService.cs:126-142 | the median depends only on the multiset of values, not on the order they were collected in |
| Median.MedianBounds | Services/MedianFilterService.cs:126-142 | a non-empty list's median lies between its least and greatest value; for an odd count it is one of the values |
| Median.MedianOfSorted | Services/MedianFilterService.cs:132-141 | the middle element for an odd count; the floor of the mean of the two middle elements for an even count |
| MedianFilter.RowStartIsProduct | Services/MedianFilterService.cs:94 | the row-by-row start of row y is y * stride |
| MedianFilter.IndexInRange | Services/MedianFilterService.cs:94 | a byte of a row lies inside the buffer |
| MedianFilter.IndexInjective | Services/MedianFilterService.cs:109 | distinct (row, byte) positions never share a buffer index |
| MedianFilter.RowOfIndex | Services/MedianFilterService.cs:94 | every index of the buffer is byte `i % stride` of row `i / stride`, a row of the image |
| MedianFilter.IndexOfRow | Services/MedianFilterService.cs:94 | byte r of row y is found again from its index by division and remainder |
| MedianFilter.RowPixels | Services/MedianFilterService.cs:86-100 | every pixel collected from a window row is inside the image |
| MedianFilter.WindowRows | Services/MedianFilterService.cs:84-101 | every pixel collected from the window rows is inside the image |
| MedianFilter.Window | Services/MedianFilterService.cs:84-101 | every sample of a window is inside the image |
| MedianFilter.Channel | Services/MedianFilterService.cs:96-98 | one sample per window pixel |
| MedianFilter.CentreIsSampled | Services/MedianFilterService.cs:84-101 | for a non-negative filter size every window holds its own centre, so the median of an empty list never arises |
| MedianFilter.WindowMembers | Services/MedianFilterService.cs:84-92 | a pixel is sampled exactly when it is in the image and within the half-width on both axes; the window is clipped at the borders |
| MedianFilter.WindowCount | Services/MedianFilterService.cs:84-101 | the sample count is the clipped window height times the clipped window width |
| MedianFilter.WindowCountExamples | Services/MedianFilterService.cs:21 | with the default size 15 an interior pixel has 225 samples; a corner pixel of a 3 x 3 filter has 4, an even count |
| MedianFilter.ChannelReadsOnlyItsPixels | Services/MedianFilterService.cs:96-98 | a channel's samples read only that channel of the listed pixels |
| MedianFilter.FilterIsLocal | Services/MedianFilterService.cs:84-112 | each output channel depends only on the same channel of the input window |
| MedianFilter.FlatRegionIsKept | Services/MedianFilterService.cs:84-112 | a window whose channel is uniformly v filters to v |
| MedianFilter.SizeOneCopies | Services/MedianFilterService.cs:67 | filter size 0 or 1 (C# truncating `/ 2` gives half-width 0) copies every pixel |
| MedianFilter.NegativeSizeBlanks | Services/MedianFilterService.cs:67 | filter size -2 or less gives a negative half-width, no samples and a 0 in every channel |
| MedianFilter.CollectWindow | Services/MedianFilterService.cs:79-101 | the three lists are the blue, green and red samples of the window, in scan order |
| MedianFilter.CollectRow | Services/MedianFilterService.cs:86-100 | one window row appends its in-image pixels' three channels |
| MedianFilter.CollectStep | Services/MedianFilterService.cs:86-100 | one step of the inner loop appends the pixel's three channels exactly when the pixel is inside the image |
| MedianFilter.PixelOffsetInRange | Services/MedianFilterService.cs:109-112 | `y * stride + x * 3` is the index of the pixel's first byte, and its three bytes lie inside the buffer |
| MedianFilter.WithPixel | Services/MedianFilterService.cs:109-112 | writing a pixel keeps the buffer's length |
| MedianFilter.WritePixel | Services/MedianFilterService.cs:109-112 | a pixel write sets its three channels and leaves every other byte of the buffer unchanged |
| MedianFilter.FilteredOnePixel | Services/MedianFilterService.cs:104-112 | writing the three medians of pixel (x, y) extends the filtered part of the buffer by that pixel |
| MedianFilter.ApplyMedianFilterToBitmap | Services/MedianFilterService.cs:47-121 | a fresh buffer of the same size; every channel of every pixel is the median of that channel over its window in the source; row padding stays 0; the source is only read; the whole buffer equals `Filtered` of the source |
| MedianFilter.Filtered | Services/MedianFilterService.cs:47-121 | the filter's result as a value: as long as the source, every pixel's channels are its window medians, and the row padding is 0 |
| MedianFilter.FilteredIsUnique | Services/MedianFilterService.cs:47-121 | a buffer whose pixels hold their window medians and whose padding is 0 is `Filtered`: the source determines the result |
| MedianFilter.ApplyMedianFilter | Services/MedianFilterService.cs:21-42 | decoding, the in-place filter on the locked pixels and PNG encoding give exactly `FilterImage` |
| MedianFilter.FilterImageEncodesMedians | Services/MedianFilterService.cs:21-42 | the returned bytes are the PNG encoding of the decoded image, same geometry, with every pixel's channels replaced by their window medians and the padding 0; the default size 15 gives half-width 7 |
| MedianFilter.FilterRow | Services/MedianFilterService.cs:76-113 | one row of pixels receives its filtered values; later rows and the padding stay 0 |
| Client.RequestPacket | Nodes/ClientNode.cs:79-86 | the packet carries the image's original bytes, name, width, height and format, and the fresh id |
| Client.RequestMessage | Nodes/ClientNode.cs:91-97 | an ImageRequest from 127.0.0.1 with the client's own port |
| Client.ResponseOf | Nodes/ClientNode.cs:139-142 | only an ImageResponse whose body decodes as a packet is acted on |
| Client.Requests | Nodes/ClientNode.cs:124-131 | one request per image, in list order |
| Client.ImageInfo.constructor | Nodes/ClientNode.cs:173-181 | a loaded image has no processed data yet |
| Client.ClientNode.constructor | Nodes/ClientNode.cs:26-32 | nothing is pending or processed |
| Client.ClientNode.SendImage | Nodes/ClientNode.cs:75-119 | the image is pending under its id before the send, and stays pending if the send fails; one request goes to the master; the result is the transport's verdict |
| Client.ClientNode.SendImages | Nodes/ClientNode.cs:124-131 | the images are sent one at a time in list order, each pending under its id |
| Client.ClientNode.OnMessageReceived | Nodes/ClientNode.cs:133-167 | the collections change as `Receive` says; the matched image object, and no other, gets the packet's bytes as its processed data |
| Client.ResponseResolvesPending | Nodes/ClientNode.cs:147-151 | a response for a pending id appends that image to the processed list and removes only that id |
| Client.OtherMessagesChangeNothing | Nodes/ClientNode.cs:139-160 | an unknown id, another message type or an undecodable body changes nothing |
| Client.DuplicateResponseIgnored | Nodes/ClientNode.cs:147-160 | a response delivered twice is acted on once |
| Client.SubmittedImageIsFound | Nodes/ClientNode.cs:99-151 | the response to a sent image resolves to that very image object |
| Client.ReceiveAllResolvesEachIdOnce | Nodes/ClientNode.cs:147-160 | over any run of messages, each resolved id was pending and is resolved once; the processed list grows by exactly those images in order, and only those ids leave the pending map |
| Client.ResolvedIdsLeavePending | Nodes/ClientNode.cs:147-160 | the ids a run of messages resolves are distinct and were pending; exactly they leave the pending map, and the remaining entries keep their images |
| Client.ReceiveAllAppendsResolved | Nodes/ClientNode.cs:147-160 | the processed list keeps its start and grows by the pending images of the resolved ids, in order |
| Client.SubmitAllPending | Nodes/ClientNode.cs:75-131 | after sending a list, each image is pending under the last id given for it, and other entries are kept |
| Protocol.ImageRoundTrip | Nodes/ClientNode.cs:75-119 | client request, master dispatch to a registered slave, slave reply, master forward to the requesting address, and client match, as one chain: the client's image is processed with the slave's transport bytes of its original after the 15 x 15 median filter |
| Protocol.SlaveRegistration | Nodes/SlaveNode.cs:34-76 | a slave is registered as (127.0.0.1, its port), whatever address its datagram came from, and is acknowledged there; it is enrolled once |

## Left out

- Logging, console output and the statistics display (`ShowSlaveStatus`, `ShowFinalStatistics`, `CountFreeSlaves`) are left out. They only report.
- Clocks are left out: `RequestTime`, `RegistrationTime`, `_firstTaskTime`/`_lastTaskTime`, `_slaveTotalTime` and the processing-time figures. They are timing only.
- Floating point is left out: the compression ratio in the slave, and speed-up and efficiency in the statistics. They only report.
- `Guid.NewGuid` is not modelled. Slave ids and packet ids are parameters. The client's packet id is the one its `ImagePacket` constructor would mint.
- JSON serialisation with Newtonsoft and UTF-8 is not modelled. A body is its decoded structure. A real deserialiser would half-decode some wrong-shaped objects into packets with default fields; the model treats any wrong shape as the exception path.
- Bitmap decoding, PNG saving and JPEG encoding (`new Bitmap(stream)`, `LockBits`, `Bitmap.Save`, `CompressImage`, `GetEncoder`, `GetImageDimensions`) are parameters. Exceptions thrown by them are not modelled: the decoder and the encoders are total, so an image that fails to decode is not modelled as the slave's silent exception path.
- The C# `int` counters `_slaveTaskCount`, `_totalTasksReceived` and `_totalTasksCompleted` wrap at 2^31; the model's counters are unbounded. Only the log lines, the statistics display and the first-task timer (Nodes/MasterNode.cs:150) read them.
- The async, concurrent execution is not modelled. This covers `Task.Run`, `async void` handlers, `Task.Delay(100)` between client sends, and the transport's receive loop. Each handler runs as one atomic step. Interleavings of handlers are not modelled.
- Services/UdpService.cs is not part of this model beyond its sender stamping. Its datagram-size warnings, send delays and socket errors are out; a transport failure appears only as the client's `delivered` flag. A send is recorded in the outbox whether or not the datagram arrives.
- The UI layer (ViewModels/MainViewModel.cs, Converters/StringContainsConverter.cs), `LoadImages` (file reading) and the node start/stop plumbing (Nodes/NodeBase.cs, Nodes/INode.cs) are out of the modelled core.
- `MessageId` and `Timestamp` of a message are left out. Nothing reads them.
- Client.ImageInfo: only `ProcessedData` is mutable in the model. The client never writes the other properties.
- Median.Sort: the library's in-place `List<byte>.Sort` is modelled by a sorting function. Only the sorted result matters to the median, and `Median.MedianIgnoresOrder` shows that order cannot change it.
- MedianFilter.ApplyMedianFilterToBitmap: the freshly allocated result bitmap is taken to start zeroed. This decides only the row padding, which the filter never writes. The model does not count writes, so "each pixel is written exactly once" is shown only through the final contents.
- MedianFilter.ApplyMedianFilterToBitmap: both locked buffers are taken to share one stride and to have rows of at least `3 * width` bytes.
