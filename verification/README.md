# RustyTorrent in Dafny

A model of the parts of RustyTorrent whose correctness does not depend on sockets: the bencode codec and what is built on it, the Kademlia DHT, the block-request machinery of the torrent engine, the seccomp filter generator, rate and capacity control, and the wire codecs. `dafny verify dfyconfig.toml` checks everything.

## How the model is organised

| files | what they model |
|---|---|
| `Arith`, `Bytes`, `Numerals`, `Distinct`, `Sorting`, `Net` | shared ground: quotients, byte strings and big-endian numbers, decimal numerals as Rust parses them, duplicate-free lists, stable sort / dedup / truncate, addresses and contacts |
| `Bencode`, `BencodeTheorems`, `BencodeCanonical`, `BencodeLoops` | the depth-limited recursive parser and the printer as functions; laws about them; which spellings the printer reproduces; the parser and printer as the loops over `rest`, `items`, `map` and the output buffer |
| `InfoSpan`, `PieceHash`, `Paths`, `TorrentFile`, `TorrentTable`, `CreateTorrent`, `MagnetTorrent` | the raw `info` span, the spliced `.torrent`, the streaming piece hasher, where a joined path resolves, loading a torrent and exactly what is accepted, creating one, saving and reloading a magnet's |
| `NodeId`, `Routing`, `Lookup`, `PeerSearch`, `Announce` | XOR distance, the k-bucket table, the three iterative lookups |
| `Compact`, `Persist`, `PeerStore`, `AnnounceTokens`, `Krpc`, `KrpcTables`, `KrpcLayout` | compact contacts, saving and restoring the table, the bounded announce store, announce tokens, the KRPC codec, its decoder dictionary by dictionary, its messages byte for byte |
| `Picker`, `Requests`, `Engine` | piece availability and selection, the request accounting, the engine's event handlers |
| `Seccomp`, `RateLimit`, `PeerCap` | the BPF compiler and its interpreter, the token bucket, the lock-free peer cap |
| `Wire`, `BitfieldCodec`, `Magnet` | peer messages and framing, bitfields, info-hashes and percent escapes |

Code that is a chain of expressions is a function. Code that updates variables in a loop is a method with a loop, proved equal to a function or to a stated property. Objects with fields (`RoutingTable`, `AnnounceStore`, `TokenState`, `Picker`, `TorrentEngine`, `TokenBucket`) are classes, and the histories they are specified by are ghost fields. The peer cap, whose point is interleaving, is a state machine over atomic steps.

What lies outside the program is arbitrary: SHA-1 and UTF-8 validity are unknown functions, clocks are parameters that do not run backwards, a file read may return any positive number of bytes, each DHT node may answer anything, and the piece manager, channels, throttle and ban list answer the engine anything at all (their answers are parameters of the handlers). Instants are integers in nanoseconds, except in the token bucket, where `f64` seconds and tokens are exact reals. Integers that the program keeps in fixed widths are bounded explicitly where it matters: `i64` and `usize` numerals, `u32` frame lengths and piece indices, the truncating `u8` cast of jump distances, the `u32` accumulator of the base32 decoder, saturating counters.

## What the code does not quite do

Four properties one might expect are false of the code. The model keeps the code as it is, gives failing inputs as lemmas, and proves exactly when the property holds.

- A file the whole-file parser accepts may have an `info` entry that `find_info_slice` cannot find, because dictionary keys may be written with a leading `+` (`+4:info`) and the search refuses those. `PlusKeyDefeatsSearch` gives the file; `InfoSpanFound` gives the exact condition.
- A spliced magnet torrent puts the info value one level deeper. The saved file loads again if and only if the nesting height of the info value is below 100 (`MagnetReload`). Metadata of height exactly 100 is accepted when fetched and lost at the next start (`DeepMagnetLost`, `DeepMagnetExists`).
- `create_torrent` checks neither the upper bound on the piece length nor the safety of names, while the loader does both. What it creates is loadable if and only if the piece length is at most 1 GiB and the names are safe (`CreateThenLoad`; `OversizedPieceCreated` and `UnsafeNameCreated` give jobs that are not).
- Printing what was parsed need not give the same bytes back: `i+5e` (`PlusInteger`) and `01:x` (`PaddedLength`) are accepted. The bytes come back if and only if no integer, length or key length is spelled with a plus and no length with a needless leading zero (`ReprintExact`). In every case parsing the re-print gives the same value, and it is never longer (`Reparse`).

One error of the model is a panic of the program: file lengths of a multi-file torrent that sum to 2^64 or more overflow the loader's checked sum (src/metainfo/torrent.rs:274-277, with overflow checks on in every build profile), and `LengthOverflow` stands for that.

## Model

| member | source | states |
|---|---|---|
| Numerals.ParseUsizeOfDecimal | src/metainfo/bencode.rs:181-184 | A printed byte-string length reads back as itself |
| Numerals.ParseI64OfDecimal | src/metainfo/bencode.rs:168-171 | Every 64-bit integer reads back from its decimal form, sign included |
| Numerals.ParseUsizeShortest | src/metainfo/bencode.rs:181-184 | Whatever spelling of a length is accepted (leading zeros, a plus), printing the number never needs more bytes |
| Numerals.ParseI64Shortest | src/metainfo/bencode.rs:151-173 | The same for integers, given the refusal of `-0` and leading zeros |
| Bencode.RoundTripAt | src/metainfo/bencode.rs:90-248 | At every depth, printing a value, appending anything and parsing returns the value and the appended bytes if it fits under the depth limit, and the depth error otherwise |
| BencodeTheorems.RoundTrip | src/metainfo/bencode.rs:90-248 | For every value and tail the printed value parses back, tail untouched, if and only if its nesting height is at most MAX_DEPTH |
| BencodeTheorems.PrintParseAll | src/metainfo/bencode.rs:30-39 | The whole-input parser inverts the printer on exactly the values within the depth limit |
| BencodeTheorems.Reparse | src/metainfo/bencode.rs:90-248 | For every accepted input, parsing the re-print agrees with the first parse, and the re-print is never longer than the bytes consumed |
| BencodeTheorems.ValueSound | src/metainfo/bencode.rs:133-248 | Every accepted value has ordered unique keys, in-range lengths and a height under the limit, and consumes at least its canonical length |
| BencodeTheorems.ValueLocal | src/metainfo/bencode.rs:133-248 | Parsing depends only on the bytes it consumes: other bytes after them, or another depth, change nothing but the depth error |
| BencodeCanonical.ReprintExact | src/metainfo/bencode.rs:90-248 | For every accepted input, printing gives back exactly the consumed bytes if and only if no integer, length or key length in them is spelled with a plus and no length with a needless leading zero |
| BencodeCanonical.PlusInteger | src/metainfo/bencode.rs:151-173 | `i+5e` is accepted as 5 and printed as `i5e` |
| BencodeCanonical.PaddedLength | src/metainfo/bencode.rs:175-202 | `01:x` is accepted and printed as `1:x` |
| BencodeCanonical.PrefixFree | src/metainfo/bencode.rs:96-126 | If two printed values followed by anything agree byte for byte, the values and what follows agree, however deeply nested |
| BencodeCanonical.PrintInjective | src/metainfo/bencode.rs:96-126 | No two values share an encoding, whatever their nesting |
| BencodeTheorems.SkipExact | src/metainfo/bencode.rs:253-256 | The bytes `skip_value` measures parse alone to the value that was skipped, and what follows them is the parser's rest |
| BencodeLoops.PutSorted | src/metainfo/bencode.rs:221-248 | Inserting into the ordered map keeps keys ordered and unique |
| BencodeLoops.GetPut | src/metainfo/bencode.rs:221-248 | After an insert the key has the new value and every other key its old one |
| BencodeLoops.ParseValueLoop | src/metainfo/bencode.rs:133-149 | The parser with its list and dictionary loops computes the recursive parser |
| BencodeLoops.ParseListLoop | src/metainfo/bencode.rs:204-219 | The loop over `rest` and `items` returns the list the recursive parser returns, or its error |
| BencodeLoops.ParseDictLoop | src/metainfo/bencode.rs:221-248 | The loop over `rest`, `map` and `prev_key` returns the same ordered entries; the map insert always lands at the end |
| BencodeLoops.WriteInto | src/metainfo/bencode.rs:96-126 | Appends exactly the encoding to whatever the buffer held |
| InfoSpan.FindInfoSliceLoop | src/metainfo/torrent.rs:322-343 | The cursor loop computes the recursive span search |
| InfoSpan.InfoSpanExact | src/metainfo/torrent.rs:322-354 | Whenever the whole-file parse and the span search both succeed, the span alone parses to exactly the root's `info` value |
| InfoSpan.InfoSpanFound | src/metainfo/torrent.rs:322-354 | On an accepted file the search succeeds if and only if the root is a dictionary whose keys up to `info` are written with digits first |
| InfoSpan.PlusKeyDefeatsSearch | src/metainfo/torrent.rs:322-354 | A family of accepted files whose `info` the search cannot reach |
| InfoSpan.FindInfoPrinted | src/metainfo/torrent.rs:322-354 | In a canonically printed file the search finds exactly the printed `info` value, or reports that there is none |
| InfoSpan.AssembleTorrentBytes | src/web.rs:570-596 | The buffer built with its tracker loop is the canonically printed head followed by the info bytes verbatim |
| InfoSpan.AssembledSpan | src/web.rs:570-596 | For every info encoding that parses alone, the span found in the assembled file is those very bytes |
| InfoSpan.AssembledParses | src/web.rs:570-596 | The assembled file parses, to the trackers and that info value, if and only if the info value's height is below the limit |
| PieceHash.HashPieces | src/create.rs:226-258 | For every list of files and every pattern of short reads, the result is the hashes of the consecutive piece-length chunks of the concatenated files |
| PieceHash.HashFile | src/create.rs:235-252 | One file read to its end, whatever the reads return, extends whole pieces and partly filled buffer by exactly that file |
| PieceHash.ChunksCount | src/create.rs:226-258 | There are ceil(total / piece length) chunks and together they are the stream |
| PieceHash.ChunkSizes | src/create.rs:226-258 | Every chunk has the piece length, except that the last may be shorter; none is empty |
| PieceHash.PieceCount | src/metainfo/torrent.rs:286-297 | Cutting the hash string every 20 bytes gives back the hashes, as many as the loader expects |
| TorrentFile.LoadSound | src/metainfo/torrent.rs:38-80 | Every loaded torrent's hash is that of a stretch of the file which alone parses to the value its metadata was read from; its pieces exactly cover a non-empty length; neither its name nor any path component is empty, a dot or two, or holds a separator of either kind |
| Paths.OneLevelIffPlain | src/metainfo/torrent.rs:148-158 | Joined onto any directory (split at either separator, a leading separator absolute, a dot staying, two dots going up), a text names exactly one thing directly inside if and only if it is not empty, not a dot or two, and holds no separator |
| Paths.ResolveDown | src/metainfo/torrent.rs:148-158 | Such texts joined one after the other resolve to one level per text below where they start |
| TorrentTable.Keys | src/metainfo/torrent.rs:176-265 | The keys are read under the names BEP 3, BEP 12 and BEP 27 give them |
| TorrentTable.LoadInfoIff | src/metainfo/torrent.rs:174-307 | An info dictionary is accepted if and only if its name and path components are texts that each name one thing inside, its lengths and piece length are in range and its hashes are exactly enough; then every field is the one under its key, a file list winning over a length, private set by any integer but 0 |
| TorrentTable.InfoStaysBelow | src/metainfo/torrent.rs:148-256 | Whatever directory it is put in, the name and every file of an accepted torrent resolve strictly below it, one level per component |
| TorrentTable.RootIff | src/metainfo/torrent.rs:38-80 | A root dictionary is accepted if and only if its trackers are texts and its info dictionary is acceptable, and then read as it stands |
| TorrentTable.LoadIff | src/metainfo/torrent.rs:38-80 | Exactly which files load, and what is read from them; the hash is that of the bytes of the info value, and everything named stays below the directory it is put in |
| TorrentTable.FromInfoIff | src/metainfo/torrent.rs:100-128 | Metadata fetched for a magnet link is accepted if and only if it has the hash asked for, parses and is acceptable; the trackers become one tier |
| TorrentFile.LoadFilesLoop | src/metainfo/torrent.rs:230-259 | The loop over the files list returns the entries, or the first error, of the element-wise reading |
| CreateTorrent.CreatedSpan | src/create.rs:152-177 | A created file parses back to its dictionary, and the span found in it is the encoding that was hashed |
| CreateTorrent.CountsAccepted | src/create.rs:226-258 | The loader's length and piece-count checks accept everything the hasher produces |
| CreateTorrent.CreateThenLoad | src/create.rs:49-177 | A created torrent loads if and only if its piece length is at most 1 GiB and its names are safe, and then reads back the same hash, trackers, files and piece hashes |
| CreateTorrent.OversizedPieceCreated | src/create.rs:49-58 | A one-byte file with a piece length of one byte more than 1 GiB is created and refused by the loader |
| CreateTorrent.UnsafeNameCreated | src/create.rs:62-67 | So is one named `..` |
| TorrentFile.TrackersLoop | src/metainfo/torrent.rs:130-145 | The loop lists the trackers of every tier and the single one, each exactly once |
| MagnetTorrent.MagnetReload | src/web.rs:723-737 | A magnet whose metadata was accepted, saved and loaded again: the file loads if and only if the info value's height is below the limit, and then with the same hash, metadata and trackers in the same order |
| MagnetTorrent.DeepMagnetLost | src/web.rs:723-737 | For any loadable job, its metadata with one more key nested to the limit is accepted when fetched, and the saved file is refused |
| MagnetTorrent.DeepMagnetExists | src/web.rs:723-737 | Such metadata exists |
| NodeId.DistanceLoop | src/dht/node_id.rs:32-38 | The array-filling loop is the bytewise exclusive or |
| NodeId.XorsValue | src/dht/node_id.rs:32-38 | Read as a number, it is the exclusive or of the two ids as numbers |
| NodeId.XorMetric | src/dht/node_id.rs:32-38 | Distance is a metric, and from any target no two ids are equally far |
| NodeId.LessIsNumeric | src/dht/routing.rs:125-134 | Comparing distance arrays, as the sorts do, is comparing the numbers |
| NodeId.BucketIndexLoop | src/dht/node_id.rs:42-52 | None for the same id, otherwise the one b with 2^b at most the distance and the distance below 2^(b+1) |
| NodeId.BucketUnique | src/dht/node_id.rs:42-52 | That position is the only one |
| Routing.BucketInsertCases | src/dht/routing.rs:59-78 | An insert refreshes, fills, replaces a stale contact or is refused; it is refused only when the bucket is full of good contacts that are not the newcomer |
| Routing.BucketEvictsOldest | src/dht/routing.rs:59-78 | While contacts arrive in the order they were seen, a full bucket gives up its least recently seen contact, and only that, exactly when it is stale |
| Routing.InsertKeepsValid | src/dht/routing.rs:113-123 | Every insert keeps buckets at most K, ids unique and every contact in the bucket of its distance |
| Routing.RunValid | src/dht/routing.rs:113-123 | So after any sequence of inserts at any times |
| Routing.GloballyUnique | src/dht/routing.rs:113-123 | No two contacts anywhere in a valid table share an id |
| Routing.InsertEffect | src/dht/routing.rs:59-123 | An insert adds the contact or changes nothing, invents nothing, and removes no other contact that is good |
| Routing.FloodCannotEvict | src/dht/routing.rs:59-78 | A good contact survives any flood of inserts made before it could become stale |
| Routing.OwnInsertAccepted | src/dht/routing.rs:59-78 | An id already present is never refused |
| Routing.ClosestIsTopK | src/dht/routing.rs:125-139 | The answer is strictly nearest-first, as long as possible, and no contact left out is nearer than one returned |
| Routing.RoutingTable.Insert | src/dht/routing.rs:113-123 | The in-place insert is the table update, and keeps the table valid |
| Routing.RoutingTable.ClosestTo | src/dht/routing.rs:125-134 | Flatten, sort, truncate gives the top-k answer |
| Sorting.DedupSort | src/dht/server.rs:691-692 | A stable sort followed by dedup is adding the elements one by one, first come first kept |
| Sorting.ShortlistStep | src/dht/server.rs:691-693 | Sorting, deduplicating and truncating the truncated list with the new elements is the truncation of everything ever added |
| Lookup.NextIsNearest | src/dht/server.rs:660-668 | The contacts queried next are the nearest unqueried ones, and fewer than asked for only when they are all there are |
| Lookup.NeverTwice | src/dht/server.rs:650-697 | In every run no id is queried twice and no round queries more than ALPHA contacts |
| Lookup.TakeNearestOf | src/dht/server.rs:691-696 | Despite truncation every round, a prefix of the shortlist is exactly the nearest distinct ids of everything heard, each at the address first heard |
| Lookup.Convergence | src/dht/server.rs:650-697 | In terms of the replies alone: every round asks the nearest ids not asked before among the 4K nearest heard; the result is exactly the K nearest ids that the initial list or a dialable contact in some reply of the right kind named, each at the address first heard; and when nothing is left to ask, the 4K nearest have all been asked |
| Lookup.LookupFindNode | src/dht/server.rs:650-697 | The loop terminates for every network; each round asks the nearest unasked ids; it returns the K nearest ids the table's 2K nearest or a dialable contact of some `Nodes` reply of the run named, each as first heard, all asked if it was not stopped by time |
| Lookup.Gather | src/dht/server.rs:683-690 | Awaiting the tasks in order extends the shortlist by exactly the dialable contacts in the replies of the kind this lookup reads, in the order of queries and of contacts within a reply |
| Lookup.DialableMember | src/dht/server.rs:451-457 | The filter keeps exactly the dialable contacts |
| Lookup.DialablePlaces | src/dht/server.rs:451-457 | and keeps their order |
| Lookup.HeardMember | src/dht/server.rs:686-688 | A contact is heard if and only if it was in the initial list or some queried node answered, with `Nodes` to find_node or with nodes and a token to get_peers, naming it, and it is dialable |
| Lookup.RunRounds | src/dht/server.rs:660-682 | Every round of every run asks the nearest ids not asked before among the 4K nearest heard so far: ALPHA of them, or all there are |
| Lookup.NearestHeardUnique | src/dht/server.rs:691-696 | Only one set of ids can be the n nearest heard |
| PeerSearch.LookupGetPeers | src/dht/server.rs:700-780 | Each round asks the nearest unasked ids; returns exactly the addresses the queried nodes named in peer lists, each once; stops only when exhausted, out of time, or with at least 20, and never before |
| PeerSearch.ToldMembers | src/dht/server.rs:736-750 | The collected list is duplicate-free and holds an address if and only if some reply of the run named it |
| Announce.AnnouncePeer | src/dht/server.rs:782-855 | Each round asks the nearest unasked ids; announces to the K nearest of all nodes that answered with a token, peer list or not, each with its own token and queried address |
| Announce.AnnounceReachesNearest | src/dht/server.rs:782-855 | Every one of the K nearest ids ever heard that issued a token is among those announced to |
| Announce.StoreHolds | src/dht/server.rs:819-826 | The token table holds a node's token and address if and only if that node answered with them |
| Announce.HoldersMember | src/dht/server.rs:819-826 | The collected holders are exactly the queried nodes that answered with a token |
| Compact.UnpackPackAll | src/dht/krpc.rs:140-176 | Unpacking packed contacts gives them back in order |
| Compact.PackUnpackAll | src/dht/krpc.rs:140-176 | Packing unpacked contacts gives the bytes back |
| Compact.PackV4Loop | src/dht/persist.rs:113-122 | The appending loop writes exactly the IPv4 contacts and counts them |
| Persist.Save | src/dht/persist.rs:99-131 | The file is magic, version, id, contact count and the IPv4 contacts nearest first |
| Persist.HeaderText | src/dht/persist.rs:23-24 | The magic is `RTDH`, the version 1, the header 29 bytes |
| Persist.LoadLoop | src/dht/persist.rs:66-94 | The chunk loop computes the loader, refusals included |
| Persist.LoadAccepts | src/dht/persist.rs:66-94 | A file is accepted, as that id and those contacts, exactly when it is what saving them would write |
| Persist.LoadSaved | src/dht/persist.rs:66-131 | Loading what was saved gives the id and the IPv4 contacts |
| Persist.InsertAllFits | src/dht/server.rs:98-103 | Contacts with distinct ids that overfill no bucket are all accepted by a fresh table, bucket by bucket in order |
| Persist.RestartRoundTrip | src/dht/persist.rs:66-131 | After any history of inserts: save, load, insert into a fresh table; no insert is refused and the id-to-address map is the old one restricted to IPv4 |
| Persist.Restart | src/dht/server.rs:98-103 | The same for the in-place table and the loops that write, read and insert |
| PeerStore.StoreRefinesHistory | src/dht/server.rs:239-266 | Over every run, each hash's list is the newest 256 of its accepted announcers, each at its latest announce, without the expired; a hash is kept if and only if that list is not empty; at most 16384 hashes |
| PeerStore.SweepCutsPrefix | src/dht/server.rs:239-246 | A sweep cuts exactly a prefix off every list, all of it expired and nothing after it |
| PeerStore.TrimCommutes | src/dht/server.rs:257-264 | Trimming before or after replacing a sender's entry gives the same newest entries |
| PeerStore.LatestSnoc | src/dht/server.rs:258-260 | Removing a sender's entry and appending the new one computes "latest announce per sender" |
| PeerStore.AnnounceStore.RecordAnnounce | src/dht/server.rs:255-266 | Keeps the refinement; an announce for a tracked hash or below the cap is always stored |
| PeerStore.AnnounceStore.PrunePeerStore | src/dht/server.rs:239-246 | Keeps the refinement, also when its clock reading lies behind the newest entries |
| AnnounceTokens.ExactLifetime | src/dht/server.rs:218-233 | Over every run, a token is accepted from any port of its address exactly until the second rotation after it was issued, and later only if its hash recurs; only an ask rotates, so without asks it never expires |
| AnnounceTokens.TokenLives | src/dht/server.rs:218-233 | Whatever else is asked in between, that covers at least TOKEN_TTL |
| AnnounceTokens.SecondRotationIsLate | src/dht/server.rs:218-226 | The second rotation after an ask comes more than TOKEN_TTL after it |
| AnnounceTokens.IpDecides | src/dht/server.rs:269-279 | Two addresses are minted from the same bytes if and only if they have the same IP, whatever the ports |
| AnnounceTokens.TokenState.IssueToken | src/dht/server.rs:218-226 | Hands out the token of the newest ask of the object's history, which stays the run of its salts |
| AnnounceTokens.TokenState.VerifyToken | src/dht/server.rs:228-233 | For every token in the history: accepted exactly until the second rotation or on recurrence, always within TOKEN_TTL; whatever is accepted is the hash of that address and a salt of this server |
| Krpc.EncodeInto | src/dht/krpc.rs:104-137 | On every bencode value the KRPC encoder appends exactly what the metainfo printer writes |
| Krpc.BuildDictLoop | src/dht/krpc.rs:93-99 | Inserting pairs one by one builds the ordered dictionary |
| Krpc.ParseNodesLoop | src/dht/krpc.rs:153-176 | The chunk loop computes the node list, port 0 skipped, ragged lengths refused |
| Krpc.ParseValuesLoop | src/dht/krpc.rs:191-208 | The loop computes the peer list: other lengths and port 0 skipped, a non-string fails |
| Krpc.ValuesRoundTrip | src/dht/krpc.rs:178-208 | Peer lists come back as their IPv4 addresses with a port, in order |
| Krpc.EncodeMessage | src/dht/krpc.rs:211-312 | The message is encoded through the dictionary and encoder loops |
| Krpc.MessageRoundTrip | src/dht/krpc.rs:211-443 | Every message decodes from its own encoding to itself, contacts and values reduced to IPv4 with a non-zero port |
| Krpc.DecodeStable | src/dht/krpc.rs:314-443 | Whatever bytes were accepted, encoding the message and decoding again gives the same message |
| KrpcTables.Names | src/dht/krpc.rs:211-443 | Every key and query name is spelt as in BEP 5 |
| KrpcTables.ResponseTable | src/dht/krpc.rs:385-420 | For every dictionary: a fault in the id wins over one in the nodes, that over one in the values; values with a token are a peer list, with or without nodes; values without a token, or neither values nor nodes, leave only the id; nodes give the two node responses; the lists are read in order from the bytes |
| KrpcTables.QueryTable | src/dht/krpc.rs:327-381 | For every name and dictionary: which fault wins, and what each query holds; a port missing, mistyped or out of range is 0, the implied port any integer but 0 |
| KrpcTables.ErrorTable | src/dht/krpc.rs:421-436 | An error needs a list of at least two whose first is an integer; a second that is no text counts as empty |
| KrpcTables.MessageTable | src/dht/krpc.rs:314-443 | For every value: a fault in the transaction id wins over one in the type, then the body of that type decides; any other type is refused |
| KrpcTables.ReadNodes | src/dht/krpc.rs:153-176 | The contacts are those of the 26-byte stretches with a port, in order: 20 bytes of id, four of address, two of big-endian port |
| KrpcTables.ReadValues | src/dht/krpc.rs:191-208 | A list of byte strings gives its six-byte ones with a port, in order; any other item fails it |
| KrpcLayout.MessageBytes | src/dht/krpc.rs:211-312 | Every message of every kind, byte for byte: the keys in order, their lengths, the arguments, the name, the transaction id and the type |
| Picker.Picker.SetPeerBitfield | src/piece/picker.rs:42-58 | Replaces the peer's bitfield of any length; every counter still equals the number of stored bitfields with that bit, below 2^32 peers |
| Picker.Picker.AddHave | src/piece/picker.rs:67-82 | Grows and sets one bit; the counters still agree |
| Picker.HaveHolders | src/piece/picker.rs:67-82 | A Have adds its sender to the holders of that piece and touches no other piece |
| Picker.Picker.PeerHas | src/piece/picker.rs:60-65 | True exactly for the holders of the piece, also for bitfields shorter than the index |
| Picker.Picker.ForgetPeer | src/piece/picker.rs:84-93 | The peer's bits and assignment go; the counters still agree |
| Picker.LoweredAgrees | src/piece/picker.rs:84-93 | Withdrawing a stored bitfield from agreeing counters leaves agreeing counters |
| Picker.RaisedAgrees | src/piece/picker.rs:51-57 | Contributing a new bitfield to agreeing counters leaves agreeing counters |
| Picker.Rarest | src/piece/picker.rs:147-169 | The single pass returns exactly the usable pieces with the lowest counter |
| Picker.FirstUsable | src/piece/picker.rs:142-146 | The first match is the least usable index |
| Picker.Picker.PickFor | src/piece/picker.rs:121-174 | Sticky while the piece is missing and wanted; otherwise a piece the peer has, missing, wanted and outside endgame unassigned: the least such, or one that truly the fewest peers have; none if and only if there is no such piece; without endgame picks no two peers share an assignment |
| Requests.SendConserves | src/engine.rs:2159-2176 | A Request on the normal path keeps the account: per peer and block, taken + outstanding + endgame entries never exceed Requests sent |
| Requests.SendEndgameConserves | src/engine.rs:2168-2173 | So does an endgame Request |
| Requests.PassConserves | src/engine.rs:1656-1716 | So does taking a solicited block, whichever table it was solicited in |
| Requests.ForgetConserves | src/engine.rs:1999-2037 | Forgetting entries keeps the account |
| Requests.CountsConserved | src/engine.rs:1640-1716 | Summed per peer: blocks taken plus open entries in both tables are at most the Requests sent to it |
| Requests.PassedWasRequested | src/engine.rs:1656-1680 | Every block taken answers an earlier Request for that block to that very peer |
| Engine.TorrentEngine.MaybeRequestBlocks | src/engine.rs:2096-2190 | Ends for all answers of its collaborators; records and counts exactly what it sends, only to that peer, in the table of the mode; leaves the pipeline full unless there was nothing to pick or an answer refused a request; sends something if a piece may be fetched and a block is offered; silent when paused or choked |
| Engine.TorrentEngine.FillPipeline | src/engine.rs:2107-2189 | The loop over `exhausted` terminates by (depth - inflight) + (pieces - exhausted), for arbitrary piece-manager answers |
| Engine.TorrentEngine.PumpTurn | src/engine.rs:2110-2188 | One turn sends one Request, or sets a new piece aside as exhausted, or ends the pump for the reason given |
| Engine.TorrentEngine.TryPiece | src/engine.rs:2123-2188 | With no block on offer nothing changes; with one, the block reserved or in endgame the first unfinished one the peer was not asked for, it is asked for, counted and recorded exactly when throttle and channel admit it |
| Engine.TorrentEngine.OnBlock | src/engine.rs:1640-1753 | A block frees its sender's slot and nobody else's; it is handed on exactly when it was solicited from its sender, once, before anything new is asked; an invalid block or a wrong hash removes its sender from every table; otherwise both tables forget the block and the pump runs unless the sender is banned; every peer's count is the old one, less the slot, plus what was asked |
| Engine.TorrentEngine.AcceptBlock | src/engine.rs:1678-1753 | The solicited branch, outcome by outcome |
| Engine.TorrentEngine.DropSender | src/engine.rs:1731-1752 | A wrong hash: the last sender leaves every table and is asked nothing, banned or not |
| Engine.TorrentEngine.OnRejectRequest | src/engine.rs:1579-1601 | A rejection frees the sender's slot; it forgets a request exactly when that was sent to this very peer for a piece in range, and then the pump runs; otherwise no request table changes |
| Engine.TorrentEngine.OnChoke | src/engine.rs:1612-1621 | Exactly the peer's outstanding requests and its assignment are released and its count is zero |
| Engine.TorrentEngine.CleanupDisconnectedPeer | src/engine.rs:2012-2037 | Exactly the peer's entries leave both tables, the counts, the choke states, the bitfields and the assignments; nothing of anyone else is touched, no list is left empty |
| Engine.TorrentEngine.ReapStale | src/engine.rs:1282-1304 | Afterwards no outstanding request is older than the timeout and every younger one is still there; every peer's count has gone down by its stale requests, not below zero, and up by its new ones |
| Engine.TorrentEngine.ForgetPiece | src/engine.rs:2041-2046 | Exactly the endgame entries of the written or failed piece go; the account and the lists stay in order |
| Engine.TorrentEngine.OnWritten | src/engine.rs:2039-2063 | Exactly the endgame entries of the piece go, then every connected peer's pump runs: only Requests, only to connected peers that do not choke us, each pump silent, full, out of work or refused; account, pipeline bound and lists are kept |
| Engine.TorrentEngine.OnResume | src/engine.rs:1347-1356 | Every connected peer's pump runs: only Requests, only to connected peers that do not choke us, each pump silent, full, out of work or refused; account, pipeline bound and lists are kept |
| Engine.TorrentEngine.OnUnchoke | src/engine.rs:1622-1625 | The choke state is cleared and the pump runs |
| Engine.TorrentEngine.OnBitfield | src/engine.rs:1602-1606 | The bitfield is stored and the pump runs |
| Engine.TorrentEngine.OnHave | src/engine.rs:1607-1611 | Exactly the sender becomes a holder of exactly that piece, if it exists, and the pump runs |
| Engine.TorrentEngine.OnHaveAll | src/engine.rs:1558-1563 | The peer is stored as having every piece; nothing is asked |
| Engine.TorrentEngine.Handle | src/engine.rs:1508-1753 | Each event has the effect of its handler |
| Engine.TorrentEngine.RunEvents | src/engine.rs:1282-1758 | Over every run of peer, storage, timer and control events: per-peer conservation, every taken block was requested from its sender before, pipelines at most PIPELINE_DEPTH, endgame lists non-empty and duplicate-free, and nothing of a disconnected peer is left in any table or comes back until it connects or (un)chokes again |
| Seccomp.BuildFilter | src/sandbox.rs:248-305 | Refuses exactly the lists over 255 entries; otherwise the program decides every call as the whitelist does |
| Seccomp.CompilerCorrect | src/sandbox.rs:248-305 | For every list of at most 255 entries and every call, running the program halts inside it and returns ALLOW if and only if the architecture is x86_64 and the number is listed, KILL otherwise |
| Seccomp.FilterWords | src/sandbox.rs:248-305 | The program in the numbers of the kernel headers, instruction by instruction |
| Seccomp.JumpsStayInside | src/sandbox.rs:281-291 | Every jump lands inside the program and every taken whitelist jump on the ALLOW return |
| Seccomp.OneTooMany | src/sandbox.rs:118-123 | With one entry more the truncated jump kills the first listed call unless it is listed twice, so the bound is needed |
| RateLimit.LevelIsLeastRoom | src/ratelimit.rs:26-65 | A bucket that started full holds at any time exactly the least room any window leaves |
| RateLimit.GrantedIffFits | src/ratelimit.rs:38-46 | A request is granted if and only if no window ending with it would exceed capacity plus rate times length |
| RateLimit.WindowBound | src/ratelimit.rs:26-65 | In any interval at most capacity plus rate times its length is granted |
| RateLimit.LazyIsEager | src/ratelimit.rs:52-64 | Refilling at any extra times, however often, changes no later state |
| RateLimit.GrantedAfterWait | src/ratelimit.rs:38-64 | With a positive rate a request is eventually granted if and only if it is at most the capacity |
| RateLimit.ThrottleNeverStalls | src/engine.rs:323-329 | A throttle of any positive rate, after any use, admits every block up to BLOCK_SIZE after a finite wait |
| RateLimit.ThrottleBound | src/engine.rs:323-329 | A throttle lets through at once exactly two seconds' worth, or one block if that is more, and in any interval no more than that plus its rate times the length |
| RateLimit.TokenBucket.TryConsume | src/ratelimit.rs:38-46 | Succeeds exactly when the request fits every window of the object's history, and takes the tokens only then |
| RateLimit.TokenBucket.TokensAvailable | src/ratelimit.rs:52-55 | Reports the refilled level without consuming |
| PeerCap.CapHolds | src/peer/manager.rs:43-71 | Under every interleaving of loads, weak exchanges with spurious failure and drops, the counter is the number of live guards, at most the cap, and the decrement never wraps |
| PeerCap.RefusedOnlyWhenFull | src/peer/manager.rs:43-62 | A refusal means that at some moment of the run every slot was taken, even with stale loads |
| PeerCap.AloneItSucceeds | src/peer/manager.rs:43-62 | Undisturbed, an attempt succeeds if and only if a slot is free |
| PeerCap.RetrySucceeds | src/peer/manager.rs:43-62 | An exchange that fails, spuriously or because the counter has moved, takes nothing; handed the current value, the retry, undisturbed, succeeds if and only if a slot is free |
| PeerCap.OneGuardPerCall | src/peer/manager.rs:43-62 | A call that has returned takes nothing more: one call yields at most one guard |
| PeerCap.DroppedForGood | src/peer/manager.rs:64-71 | A dropped guard never becomes live again |
| Wire.WriteMessage | src/peer/message.rs:343-370 | The one-pass layout for blocks gives the same bytes as the encoder |
| Wire.DecodeOfBody | src/peer/message.rs:81-254 | Every message decodes from its own frame |
| Wire.BodyOfDecode | src/peer/message.rs:157-254 | Every accepted frame re-encodes to itself |
| Wire.Layout | src/peer/message.rs:81-150 | Where everything stands in a frame: the id byte of each kind, then its fields as big-endian numbers, then its payload |
| Wire.PrefixIsLength | src/peer/message.rs:81-150 | The four-byte prefix is the frame's length |
| Wire.ReadFrameInto | src/peer/message.rs:302-325 | The buffer-reusing reader returns what the plain reader returns, whatever the buffer held |
| Wire.UniqueDecoding | src/peer/message.rs:81-325 | A stream reads as a list of messages if and only if it is their concatenated encoding with every frame within the limit |
| BitfieldCodec.BitfieldToBytes | src/peer/message.rs:373-381 | The bit-setting loop computes the zero-padded, most-significant-bit-first packing |
| BitfieldCodec.BitPosition | src/peer/message.rs:373-410 | Piece i is the bit worth 2^(7 - i mod 8) of byte i div 8 |
| BitfieldCodec.AcceptedIffSpareZero | src/peer/message.rs:385-410 | Accepted are exactly the strings of the right length with zero spare bits |
| BitfieldCodec.SendReceive | src/peer/message.rs:373-410 | Packing then unpacking gives the bitfield back |
| BitfieldCodec.ReceiveSend | src/peer/message.rs:373-410 | Unpacking then packing gives accepted bytes back |
| Magnet.ParseBase32 | src/magnet.rs:149-179 | Fails exactly on a foreign character; otherwise writes exactly 20 bytes, in range, whose base-256 value is the base-32 value of the string, though the accumulator drops high bits |
| Magnet.Alphabets | src/magnet.rs:126-179 | A character has a base32 or hexadecimal value exactly when it stands at that place of the alphabet, in either case |
| Magnet.ParseHex | src/magnet.rs:126-145 | The same for 40 hexadecimal digits of either case |
| Magnet.ParseInfoHash | src/magnet.rs:114-124 | Accepts exactly the two forms, and both are read as the same 160-bit number |
| NodeId.BigEndianInjective | src/magnet.rs:114-179 | That number determines the bytes |
| Magnet.SameHashSameDigits | src/magnet.rs:149-179 | Two base32 strings name the same hash exactly when they agree digit by digit |
| Magnet.PercentDecodeLoop | src/magnet.rs:184-203 | The cursor loop computes the recursive decoder, refusals included |
| Magnet.PercentRoundTrip | src/magnet.rs:184-203 | However each byte was written, plain or escaped in either case, decoding gives the bytes meant |

## Left out

- Sockets, tasks, timers, dialing, SOCKS5 and encrypted transports: their effects appear as arbitrary inputs.
- The piece manager: its answers to the picker and the engine are arbitrary, so nothing is said about download progress beyond what one pump does with them.
- Rounding of `f64` in the token bucket: exact reals are used instead.
- The per-source query limiter of the DHT server and the lazy cleaning of its map: a token bucket per address, nothing harder.
- The filtering of warm contacts and of replies by address class: dialability is an arbitrary predicate in the lookups, and the restart law is stated before that filter.
- Insertion of learned nodes into the routing table during a lookup: the lookups read the table once, at their start.
- Concurrent changes between reading the clock and taking the lock in token rotation: one reading serves both uses.
- Ban lists, pending dials, violation counters and the per-session slot map of the peer manager: only the global cap is modelled.
- Upload scheduling, choking decisions, peer exchange, the web interface, configuration and logging.
- Windows drive and device prefixes, reserved device names and symbolic links: paths resolve by separators and dots alone.
- Magnet URI splitting into parameters, UTF-8 validation and error texts.
- Resource limits such as memory: a value whose length does not fit `usize` is excluded where it could not exist.
- Memory orderings beyond one atomic counter whose loads may be stale.
- Engine events that touch no request table: interest, uploads, extension messages, shutdown.
- RateLimit.TokenBucket.TryConsume: negative requests are excluded, as no caller makes one.
