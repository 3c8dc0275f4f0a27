# MeshNetworkHub core, modelled in Dafny

This project models the hub of a ZigBee sensor mesh. It covers three parts.

- **Neighbour table** (`NeighborTable`, file `neighbor_table.dfy`; hex rendering in `hex.dfy`).
  - A Mgmt_Lqi_req / Mgmt_Lqi_rsp exchange is paged until the remote reports that the table is complete.
  - Each 22-byte record yields an extended address and a link quality (LQI).
  - Addresses are rendered as hex and looked up by value.
- **Sensor network** (`SensorNetwork`, file `sensor_network.dfy`).
  - The temperature and light conversions.
  - The data line written for each device.
  - One polling pass over the discovered remotes, which stops at a timeout, at neighbour drift or at an escaping exception.
  - The `discover()` transition and the constructor.
  - The `toString()` text.
- **Serial hub** (`SerialHub`, file `serial_hub.dfy`; the `TreeMap<Character, String>` in `tree_map.dfy`).
  - Nodes are discovered by sending `g` and taking one node per reply character.
  - Every node is polled by writing its id, largest id first.
  - The reply is split on `$` and matched to the nodes in descending id order, and the node map is rendered to the screen.

Calls into the radio library, the serial streams, the clock and the timer threads are never modelled as code. Each is a parameter that delivers what the call returned:
- a sequence of `Reply` values for the neighbour-table round trips;
- one `DeviceOutcome` per remote for a polling pass;
- the "discovery running" flag and the discovery result;
- the iteration order of a `HashMap` key set;
- the reply string read from the serial port, and the step at which an I/O exception struck.

Java's arithmetic is written out:
- `JByte` is a signed byte and `Mask` is `& 0xFF`.
- `Wrap` is the narrowing done by `index += listCount` on a byte.
- Header bytes are compared after promotion to `int`.
- `String.split` follows Java's limit-0 rules: with no separator the result is `[s]`, so `""` gives `[""]`. Otherwise trailing empty fields are removed.

Four behaviours of the code are easy to misread, and the model keeps them as the code has them:
- **Timeouts in the neighbour-table fetch.** A `TimeoutException` or other `XBeeException` inside `NeighborTable.refresh` is caught in `refresh` itself. It never reaches `pollNodes`, so it does not trigger rediscovery: the device's line is still written, with whatever part of the table was fetched.
- **Other radio errors in a pass.** Any other `XBeeException` in a pass skips that device and the pass goes on. It does not abort the pass.
- **Partial passes.** `data` is cleared when a pass starts, and the lines of devices visited before an abort stay in it. After an aborted pass, `data` therefore holds a partial pass, not the previous complete one.
- **Re-entrant `discover()`.** `discover()` cancels polling before it checks whether a discovery is already running. A call that finds one running therefore leaves polling cancelled.

## Model

| member | source | states |
|---|---|---|
| Common.Mask | app/src/main/java/com/a80034/hubserver/NeighborTable.java:59 | `b & 0xFF` on a signed byte is the octet congruent to it mod 256, and is the byte itself when non-negative |
| Common.Wrap | app/src/main/java/com/a80034/hubserver/NeighborTable.java:62 | `index += listCount` on a byte keeps a value congruent to the sum mod 256, and exact when it fits |
| Common.WrapAdd | app/src/main/java/com/a80034/hubserver/NeighborTable.java:62 | wrapping after every step gives the same byte as wrapping the whole sum once |
| Common.Cancel | app/src/main/java/com/a80034/hubserver/ZigBeeSensorNetwork.java:123-124 | a cancelled timer is never armed; cancelling an unarmed timer changes nothing |
| Hex.LongToHex | app/src/main/java/com/a80034/hubserver/NeighborTable.java:117 | `Long.toHexString` of an octet has one digit below 16 and two from 16 on, the last being the low nibble |
| Hex.ByteHex | app/src/main/java/com/a80034/hubserver/NeighborTable.java:117-123 | after zero padding every octet is exactly its high nibble digit then its low nibble digit |
| Hex.HexString | app/src/main/java/com/a80034/hubserver/NeighborTable.java:112-126 | the rendering of `[start, end)` has 2·(end−start) characters, all lower-case hex digits, and is empty for an empty range |
| Hex.ByteArrayToHexString | app/src/main/java/com/a80034/hubserver/NeighborTable.java:112-126 | the down-counting loop builds exactly the reversed-slice rendering `HexString` defines |
| Hex.HexStringRoundTrip | app/src/main/java/com/a80034/hubserver/NeighborTable.java:112-126 | decoding the rendering gives the masked bytes of the slice in reverse order |
| Hex.HexValueAppendByte | app/src/main/java/com/a80034/hubserver/NeighborTable.java:119-123 | appending one byte's two digits multiplies the denoted number by 256 and adds the byte |
| Hex.RenderEightBytes | app/src/main/java/com/a80034/hubserver/NeighborTable.java:112-126 | the bytes 01..08 render as "0807060504030201" |
| Hex.RenderSignedBytes | app/src/main/java/com/a80034/hubserver/NeighborTable.java:117-120 | the bytes −1, −128, 10 render as "0a80ff": negative bytes are masked and short values padded |
| NeighborTable.HexStringValue | app/src/main/java/com/a80034/hubserver/NeighborTable.java:59 | the number the rendered hex string denotes is the little-endian value of the slice |
| NeighborTable.RecordAddress | app/src/main/java/com/a80034/hubserver/NeighborTable.java:59 | the stored address has byte 13+22i as its least significant byte and fits in the number of bytes read (seven as written, eight corrected) |
| NeighborTable.RecordLqi | app/src/main/java/com/a80034/hubserver/NeighborTable.java:59 | the link quality is byte 26+22i read unsigned: congruent to it mod 256 and equal to it when non-negative |
| NeighborTable.RecordAddressRendered | app/src/main/java/com/a80034/hubserver/NeighborTable.java:59 | the key stored for a record is the address built from the hex rendering of its address bytes |
| NeighborTable.AsWrittenAddress | app/src/main/java/com/a80034/hubserver/NeighborTable.java:59 | the address read from `[13+22i, 20+22i)` equals the record's eight-byte address exactly when byte 20+22i is zero |
| NeighborTable.DroppedByteExample | app/src/main/java/com/a80034/hubserver/NeighborTable.java:59 | a record whose top address byte is 0x13 is stored under a different address |
| NeighborTable.CorrectedAddress | app/src/main/java/com/a80034/hubserver/NeighborTable.java:59 | reading all eight address bytes gives the record's extended address for every record |
| NeighborTable.Records | app/src/main/java/com/a80034/hubserver/NeighborTable.java:58-61 | the record loop escapes with an index exception exactly when the page is shorter than its `listCount` records; keys are only added; stored LQIs stay in 0..255 |
| NeighborTable.RecordsKeys | app/src/main/java/com/a80034/hubserver/NeighborTable.java:58-61 | the record loop adds exactly the addresses of the records that lie inside the page, and no other key, whether the loop finishes or the index exception escapes |
| NeighborTable.RecordKeysMembers | app/src/main/java/com/a80034/hubserver/NeighborTable.java:58-61 | an address is among the added keys exactly when some record from the starting one up to `listCount`, inside the page, carries it |
| NeighborTable.RecordsLastWins | app/src/main/java/com/a80034/hubserver/NeighborTable.java:59 | a record's LQI is the stored value when no later record in the page repeats its address |
| NeighborTable.RecordsUntouched | app/src/main/java/com/a80034/hubserver/NeighborTable.java:58-61 | an address no remaining record carries keeps its earlier value |
| NeighborTable.Pages | app/src/main/java/com/a80034/hubserver/NeighborTable.java:50-63 | the paging loop only adds keys, keeps LQIs in range, sends at most one request per reply, and first sends `[1, index]` |
| NeighborTable.Refresh | app/src/main/java/com/a80034/hubserver/NeighborTable.java:46-73 | a failing `setParameter("AO")` is caught before any request and leaves the table as it was; otherwise paging starts with `[1, 0]` |
| NeighborTable.NewTable | app/src/main/java/com/a80034/hubserver/NeighborTable.java:36-41 | a freshly built table holds only LQIs in 0..255 |
| NeighborTable.Neighbors | app/src/main/java/com/a80034/hubserver/NeighborTable.java:79-81 | the neighbour set is exactly the table's key set; `getLQI` reads the stored value for each of them and 0 for every other address |
| NeighborTable.GetLqi | app/src/main/java/com/a80034/hubserver/NeighborTable.java:91-96 | an address in the table reads its stored link quality, any other address reads 0, and a table filled by `refresh` only yields values in 0..255 |
| NeighborTable.PagesStop | app/src/main/java/com/a80034/hubserver/NeighborTable.java:51-71 | one request per reply that continues the loop, plus one for the reply that stops it, ending as that reply dictates: finished, caught fault, or escaping exception |
| NeighborTable.PagesHalt | app/src/main/java/com/a80034/hubserver/NeighborTable.java:51-71 | a reply that does not continue the loop ends it after one request: a caught exception leaves the table as it was, a finished loop holds that reply's page |
| NeighborTable.PagesRequestList | app/src/main/java/com/a80034/hubserver/NeighborTable.java:50-63 | the requests sent are those of the reference list where each index is the previous one advanced by the previous reply's `listCount` |
| NeighborTable.RequestAt | app/src/main/java/com/a80034/hubserver/NeighborTable.java:52-62 | entry k of that reference list is the start index plus the first k `listCount`s, wrapped to a byte |
| NeighborTable.PagesRequests | app/src/main/java/com/a80034/hubserver/NeighborTable.java:50-52 | request k carries the start index plus the `listCount`s of the k earlier pages, wrapped to a byte |
| NeighborTable.PagesTable | app/src/main/java/com/a80034/hubserver/NeighborTable.java:51-71 | a caught exception keeps every page decoded before it; a finished loop holds every page received |
| NeighborTable.ThreePages | app/src/main/java/com/a80034/hubserver/NeighborTable.java:50-63 | five neighbours in pages of 2, 2, 1 take requests at indices 0, 2, 4 and store the five addresses |
| NeighborTable.SinglePage | app/src/main/java/com/a80034/hubserver/NeighborTable.java:51-63 | a page holding every neighbour ends the loop after one request |
| NeighborTable.StuckPaging | app/src/main/java/com/a80034/hubserver/NeighborTable.java:57-63 | a remote that keeps answering `listCount` 0 below the total is asked for index 0 forever |
| NeighborTable.StatusIgnored | app/src/main/java/com/a80034/hubserver/NeighborTable.java:54-57 | the status byte is never read: changing it does not change the outcome |
| SensorNetwork.Temperature | app/src/main/java/com/a80034/hubserver/ZigBeeSensorNetwork.java:172 | a 10-bit reading maps into −50..70 degrees |
| SensorNetwork.Light | app/src/main/java/com/a80034/hubserver/ZigBeeSensorNetwork.java:175 | a 10-bit reading maps into [0, 1); 1024 would map to 1 |
| SensorNetwork.ConversionsMonotone | app/src/main/java/com/a80034/hubserver/ZigBeeSensorNetwork.java:172-175 | both conversions are strictly increasing |
| SensorNetwork.MidScaleTemperature | app/src/main/java/com/a80034/hubserver/ZigBeeSensorNetwork.java:172 | a reading of 512 is between 10.058 and 10.059 degrees |
| SensorNetwork.NeighbourTokens | app/src/main/java/com/a80034/hubserver/ZigBeeSensorNetwork.java:192-194 | one address token and one LQI token per neighbour, in iteration order, each LQI being `getLQI` of its address |
| SensorNetwork.DeviceLine | app/src/main/java/com/a80034/hubserver/ZigBeeSensorNetwork.java:166-194 | address, temperature, light, motion as 1/0, RSSI, then the neighbour pairs: 5 + 2n items |
| SensorNetwork.LineListsEveryNeighbour | app/src/main/java/com/a80034/hubserver/ZigBeeSensorNetwork.java:192-194 | every neighbour in the table appears in the line next to its stored LQI |
| SensorNetwork.Pass | app/src/main/java/com/a80034/hubserver/ZigBeeSensorNetwork.java:164-222 | the pass keeps the lines of the successfully read devices before the first stopping device, in `remotes` order, and ends as that device dictates, or completes |
| SensorNetwork.Visit | app/src/main/java/com/a80034/hubserver/ZigBeeSensorNetwork.java:164-222 | at most one line per remote; an abort names a device of the pass |
| SensorNetwork.VisitCharacterised | app/src/main/java/com/a80034/hubserver/ZigBeeSensorNetwork.java:164-222 | the pass keeps the lines of the successfully read devices before the first stopping device and ends as that device dictates, or completes |
| SensorNetwork.AllDevicesAnswer | app/src/main/java/com/a80034/hubserver/ZigBeeSensorNetwork.java:163-211 | with every read succeeding and no drift, the pass completes with one line per remote, in order |
| SensorNetwork.VisitIgnoresLater | app/src/main/java/com/a80034/hubserver/ZigBeeSensorNetwork.java:205-217 | devices after the stopping one are never looked at |
| SensorNetwork.DriftAborts | app/src/main/java/com/a80034/hubserver/ZigBeeSensorNetwork.java:192-208 | when the neighbour iteration lists the fetched table, a device aborts the pass for drift exactly when its table holds an address that is neither a remote nor the coordinator; its own line is dropped |
| SensorNetwork.Discover | app/src/main/java/com/a80034/hubserver/ZigBeeSensorNetwork.java:122-154 | polling is cancelled first; with discovery running the remotes stay and polling stays off; otherwise the remotes become the result and polling is re-armed at delay 0 |
| SensorNetwork.ReentrantDiscover | app/src/main/java/com/a80034/hubserver/ZigBeeSensorNetwork.java:122-126 | a call that finds discovery running changes nothing the running discovery's outcome depends on |
| SensorNetwork.Start | app/src/main/java/com/a80034/hubserver/ZigBeeSensorNetwork.java:79-88 | the constructor discovers once and arms the discovery timer one full period away |
| SensorNetwork.PollNodes | app/src/main/java/com/a80034/hubserver/ZigBeeSensorNetwork.java:162-223 | `data` becomes the pass's lines; rediscovery happens once exactly when the pass aborts, after which the remotes and polling are those `discover()` leaves; a crash leaves polling dead |
| SensorNetwork.TimeoutRediscovers | app/src/main/java/com/a80034/hubserver/ZigBeeSensorNetwork.java:212-217 | a timeout triggers exactly one rediscovery and keeps the lines gathered before it |
| SensorNetwork.DriftRediscovers | app/src/main/java/com/a80034/hubserver/ZigBeeSensorNetwork.java:192-208 | a drifting neighbour triggers exactly one rediscovery, keeps the lines gathered before that device, and leaves the remotes and polling as `discover()` sets them |
| SensorNetwork.Probe | app/src/main/java/com/a80034/hubserver/ZigBeeSensorNetwork.java:172-190 | a device fails with an unchecked exception exactly when its neighbour-table fetch had an escaping exception; otherwise its reading holds the two ADC values, the DIO3 level and the first RSSI byte that were read, and the fetched table, iterated once per key |
| SensorNetwork.ProbeLine | app/src/main/java/com/a80034/hubserver/ZigBeeSensorNetwork.java:170-194 | a successful probe's line carries the converted temperature and light, motion as 1/0 and the RSSI byte, and its address/LQI pairs name exactly the fetched neighbours, each beside its stored LQI |
| SensorNetwork.RenderLine | app/src/main/java/com/a80034/hubserver/ZigBeeSensorNetwork.java:171-194 | a line's text is empty exactly for an empty line, starts with the first item's text and ends with a space |
| SensorNetwork.RenderLineSplit | app/src/main/java/com/a80034/hubserver/ZigBeeSensorNetwork.java:171-194 | splitting a line's text on spaces gives back each item's text |
| SensorNetwork.ToString | app/src/main/java/com/a80034/hubserver/ZigBeeSensorNetwork.java:250-256 | `toString()` is empty exactly when `data` is; otherwise it starts with the first line's text and ends with a newline |
| SensorNetwork.ToStringSplit | app/src/main/java/com/a80034/hubserver/ZigBeeSensorNetwork.java:250-256 | `toString()` is "" for no data; otherwise splitting it on newlines gives back the lines |
| Text.JavaSplit | app/src/main/java/com/a80034/hubserver/MainActivity.java:143 | no field holds the separator; a string without the separator is its own single field; otherwise the last kept field is not empty |
| Text.JavaSplitRejoin | app/src/main/java/com/a80034/hubserver/MainActivity.java:143 | putting back the dropped trailing empty fields and joining with the separator gives the original string |
| Text.SplitJoinTerminated | app/src/main/java/com/a80034/hubserver/MainActivity.java:143 | `split` undoes joining non-empty, separator-free fields each followed by the separator; with no fields, `""` splits into `[""]` |
| TreeMap.Get | app/src/main/java/com/a80034/hubserver/MainActivity.java:95 | `get` finds a value exactly for the keys in the map, and the value is the entry's |
| TreeMap.Put | app/src/main/java/com/a80034/hubserver/MainActivity.java:155 | `put` keeps the keys sorted, adds exactly its key, and grows the map only for a new key |
| TreeMap.PutGet | app/src/main/java/com/a80034/hubserver/MainActivity.java:155 | after `put(k, v)`, `get(k)` is `v` and every other key reads as before |
| TreeMap.PutExisting | app/src/main/java/com/a80034/hubserver/MainActivity.java:155 | overwriting an existing key keeps the key sequence unchanged |
| TreeMap.PutAt | app/src/main/java/com/a80034/hubserver/MainActivity.java:155 | putting a key already in the map rewrites that entry's value and leaves every other entry where it was |
| TreeMap.GetAt | app/src/main/java/com/a80034/hubserver/MainActivity.java:95 | in a sorted map, `get` of any entry's key returns that entry's value |
| TreeMap.PutEntries | app/src/main/java/com/a80034/hubserver/MainActivity.java:174 | `put(k, v)` introduces no entry other than `(k, v)` |
| TreeMap.SortedSize | app/src/main/java/com/a80034/hubserver/MainActivity.java:144 | `size()` equals the number of distinct keys |
| TreeMap.Descending | app/src/main/java/com/a80034/hubserver/MainActivity.java:137 | the descending key set lists every key once, strictly largest first |
| SerialHub.Register | app/src/main/java/com/a80034/hubserver/MainActivity.java:172-175 | registering a reply adds exactly its characters as keys |
| SerialHub.RegisterValues | app/src/main/java/com/a80034/hubserver/MainActivity.java:174 | every node registered by discovery has the value "" |
| SerialHub.DiscoverNodes | app/src/main/java/com/a80034/hubserver/MainActivity.java:166-180 | the map is cleared and, when nothing threw, holds exactly the reply's characters; `g` is written unless the write threw; polling is re-armed at delay 0 with period 6000 in every case |
| SerialHub.DiscoveredNodes | app/src/main/java/com/a80034/hubserver/MainActivity.java:172-175 | one node per distinct reply character, however often it repeats, each with value "" |
| SerialHub.RepeatedId | app/src/main/java/com/a80034/hubserver/MainActivity.java:172-175 | the reply "aba" registers nodes a and b once each |
| SerialHub.Create | app/src/main/java/com/a80034/hubserver/MainActivity.java:55-65 | start-up shows "UI Initialized", sends at most the discovery command, and leaves polling armed |
| SerialHub.WireByte | app/src/main/java/com/a80034/hubserver/MainActivity.java:139 | `write(c)` puts on the wire the byte congruent to the character code mod 256, which is the character itself below 256 |
| SerialHub.AssignFrom | app/src/main/java/com/a80034/hubserver/MainActivity.java:148-157 | the assignment loop keeps the map sorted and its key set and size unchanged |
| SerialHub.AssignMatched | app/src/main/java/com/a80034/hubserver/MainActivity.java:148-157 | with one field per node, the loop leaves the map where the j-th smallest key holds field n−1−j |
| SerialHub.GuardNeverFires | app/src/main/java/com/a80034/hubserver/MainActivity.java:144-152 | once the size check at 144 passes, the guard at 149 never fires |
| SerialHub.FieldUnderKey | app/src/main/java/com/a80034/hubserver/MainActivity.java:148-157 | field i is stored under the i-th largest key, and the key sequence is unchanged |
| SerialHub.IdsSentOnce | app/src/main/java/com/a80034/hubserver/MainActivity.java:137-140 | without a fault, every node id is written once, as its low byte, in strictly descending key order, and the ids written are exactly the map's keys |
| SerialHub.PollSerial | app/src/main/java/com/a80034/hubserver/MainActivity.java:134-163 | all ids are written largest first (a prefix on an I/O exception); on an exception or a field-count mismatch the map and screen are unchanged; the key set never changes |
| SerialHub.PollStoresFields | app/src/main/java/com/a80034/hubserver/MainActivity.java:143-159 | a reply with one field per node is stored by descending key and the screen is redrawn from the new map |
| SerialHub.EmptyReplyOneNode | app/src/main/java/com/a80034/hubserver/MainActivity.java:143-157 | with one node, an empty reply splits into one empty field, which becomes the node's value |
| SerialHub.EmptyReplyNoNodes | app/src/main/java/com/a80034/hubserver/MainActivity.java:143-147 | with no nodes, an empty reply is a size mismatch and nothing changes |
| SerialHub.LoneSeparator | app/src/main/java/com/a80034/hubserver/MainActivity.java:143-159 | the reply "$" splits into no fields, which matches an empty map, so the screen is redrawn |
| SerialHub.NodeLine | app/src/main/java/com/a80034/hubserver/MainActivity.java:95 | a screen line is "node ", the key, ":  ", then the value |
| SerialHub.Render | app/src/main/java/com/a80034/hubserver/MainActivity.java:91-96 | the screen text is empty exactly for an empty map; otherwise it starts with the smallest key's line and ends with a newline |
| SerialHub.RenderSplit | app/src/main/java/com/a80034/hubserver/MainActivity.java:93-96 | the screen text holds one newline-terminated line per node, in ascending key order, recoverable by splitting on newlines |

## Left out

- The Android layer is not modelled: the activity lifecycle, `TextView`, `runOnUiThread`, and opening and closing the serial port (MainActivity.java:54-87, 98-110). It is UI and I/O. The UI text is kept only as the `display` string.
- `readSerial` is not modelled. Its result is a parameter, and the empty string stands for "nothing available" or a caught `IOException`. The two reads that only drain the input in `pollNodes` (lines 136 and 158) have no effect on the model's state.
- Threads and timers are not modelled: interleavings of the discovery and polling timers, and the blocking waits and sleeps. A timer is reduced to its `Timer` state (unscheduled, armed with delay and period, cancelled).
- Radio library calls are oracle inputs, not code: `open`, discovery, `getDevices`, `getADCValue`, `getDIOValue`, `getParameter`, `sendExplicitData`, `readExplicitData` and `setParameter`. Their failures appear as `Fault` and `DeviceOutcome` values. The serial `write` and `sleep` exceptions of `discoverNodes` and `pollNodes` appear as `DiscoverStep` and `PollFault` values.
- A `null` return of `readExplicitData` and an empty `DB` parameter are not modelled separately. Both raise unchecked exceptions, and the `Unchecked` device outcome covers them.
- The sender and cluster of a received explicit message are never checked by the code. They are not modelled.
- The internals of the address library are assumed, not modelled: `XBee64BitAddress` is taken to parse a hex string as a number and to compare by value. Its `toString` is left to the `show` renderer.
- Java floating point is left out. The conversions use exact reals, and `Double.toString` is the `show` parameter, so the text of a number is not modelled.
- Logging, `printStackTrace`, the stray `System.out.print("Not ")` and `close()` are left out. They do not affect the modelled state.
- The iteration order of a `HashMap` key set is an input (`Reading.order`), not computed from hashes. `Probe` requires it to list every key of the fetched table exactly once, as iterating `getNeighbors()` does.
- NeighborTable.Pages: a remote can keep a paging loop going forever (see `StuckPaging`). The model follows the loop only as far as its finite sequence of replies reaches, and ends `Exhausted` after that.
- SensorNetwork.Probe: requires a fetch that did not run out of replies, because an `Exhausted` fetch is a limit of the model, not an outcome of the code.
- SerialHub.DiscoverNodes: node ids are taken as single characters of the reply. A Java `char` is a UTF-16 code unit, while a Dafny `char` is a Unicode scalar value. A reply character above U+FFFF is therefore one node here but two surrogate keys in Java, and `write` sends the low byte of each surrogate. The model covers replies whose characters are all in the Basic Multilingual Plane.
- SerialHub.Create: if the serial port failed to open, `serialOut` is `null` and the `write` in `discoverNodes` throws an uncaught `NullPointerException`. The model assumes the port opened.
- SerialHub.PollSerial: `Thread.sleep` after each write and the interruption of a sleep are folded into the `PollFault` count of ids written before the exception.

## Findings

| source | as written | input that shows it | evidently intended | confidence | as-written member | corrected member |
|---|---|---|---|---|---|---|
| app/src/main/java/com/a80034/hubserver/NeighborTable.java:59 | the address is rendered from the half-open range `[13+22i, 20+22i)`, which is seven bytes, so the most significant byte of the eight-byte extended address is dropped | a record whose address byte at offset 20 is 0x13 (all others 0) is stored under address 0 instead of 0x13 << 56 | render all eight bytes, `[13+22i, 21+22i)` | not executed | NeighborTable.AsWrittenAddress | NeighborTable.CorrectedAddress |

The decoding is parameterised by `Span`. `AsWritten` reproduces the code and `Corrected` reads the full field. Every property of the record decoding and the paging loop is proved for both spans, so the rest of the model holds under the corrected decoding.
