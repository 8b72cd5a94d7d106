# LinQ network: verified models of its data structures and protocols

linq-network connects applications to Altronix devices over ZeroMQ and USB. This
project models the parts of the library in which a mistake would be hard to see, in the
form in which they are written (buffers, arrays, linked nodes and objects that are updated
in place), each against a specification whose own properties are proved.

`dafny verify dfyconfig.toml` checks everything.

| part | files |
|---|---|
| Hash table (`khash.h`) and the maps on it: triangular probing, in-place kick-out rehash, refinement of a finite map | `Probing`, `RoundUp`, `KHash`, `Containers` |
| JSON tokenizer (`jsmn.h`) and navigation (`json.c`): its loop as a function on states, a parser object, forests, the RFC 8259 grammar, what is accepted and rejected on any input | `Jsmn`, `JsmnParser`, `JsonForest`, `JsonStructure`, `JsonText`, `JsonTokens`, `JsonVerdict`, `JsonNav` |
| RLP (`rlp.c`) and the USB messages (`wire.c`): the encoding of Appendix B of the Ethereum Yellow Paper, how bytes are read, linked nodes, messages | `Rlp`, `RlpReading`, `RlpNode`, `Wire` |
| HTTP bodies (`http_parser.c`): a byte-at-a-time machine, and the executor that jumps over whole stretches of a buffer, and whole messages | `HttpBody`, `HttpMessages`, `HttpParser` |
| ZMTP device requests (`zmtp_device.c`, `zmtp.c`) on a linked queue (`klist.h`): a state machine over all runs, what its callbacks hear and when, and the object that carries it | `KList`, `Requests`, `RequestCodes`, `ZmtpDevice` |
| Base64 (`base64.c`): what both directions compute, against the alphabet of RFC 1521, and the loops over buffers | `Base64`, `Base64Alphabet`, `Base64Codec` |

`Wrappers` holds the types that several of them share.

Conventions: C strings and read-only buffers are sequences, written buffers are arrays,
pointers into a buffer are indices. Where narrow C arithmetic can matter it is modelled:
the wrap-around is written out (capacities, bucket bounds, child numbers, the counted length
of a message, the chunk and content lengths, the Base64 accumulator), or it is excluded by a
bound. The bounds are listed under "Left out".

What the code turned out to do, where that is not what one might expect:

- Requests wait with none pending exactly when the last transmission of the run failed with
  more requests behind it, waiting or just submitted (`Requests.RunStalls`); any successful transmission ends such a stall
  (`Requests.NextStalls`). `zmtp_device_destroy` completes every accepted request, including
  those that its callbacks submit on the way, exactly when there is no stall; otherwise the
  backlog is dropped without a callback (`Requests.DestroyCompletes`; `Requests.DroppedRequest`
  is a run).
- A 504 reply is compared with the constant `LINQ_NETW_MAX_RETRY` (5), a poll with the
  settable `max_retry`; both are modelled as they are.
- The second pass of `b64_decode` writes the length announced by the first exactly when the
  characters that do not fill a group of four are covered by padding
  (`Base64.SecondPassLength`); for a cut text it writes less (`Base64.CutText`). A text without significant
  characters leaves `*dlen` as it was.
- The spaces in a `Content-Length` value are skipped wherever they stand behind the first
  digit: `1 2` is taken for 12 (`HttpBody.SplitLength`). `HttpBody.DecimalValue` is that number.
- The tokenizer accepts an object with a bare key, `{"a"}`; a member lookup in it leaves the
  tokens (`JsonNav.BareKey`). A lookup goes from key to key exactly when every child of the
  object has exactly one child (`JsonNav.KeysVisited`), as in every text of the grammar.
- A single RLP item of more than 2^31 bytes is reported as printed without being copied
  (`RlpNode.RlpPrint`), because the copying loop counts with an `int`.
- A hash table of 2^31 buckets that holds 2^30 entries or more and has no spare bucket is
  neither purged nor enlarged by put, because the capacity asked for wraps around
  (`KHash.Table.MakeRoom`).
- When the byte behind the data of a chunk is not CR, the body bytes of that chunk which lie
  in the same buffer are never notified; state, error and offset are not affected. This happens
  exactly when the run fails in that state after at least one byte of the buffer
  (`HttpParser.Executor.Execute`, `HttpBody.LostBytes`; `HttpBody.LostByte` is an input). Every
  other failing run notifies all that it accepted.
- A message string with a zero byte is cut there when it is parsed (`Wire.RequestRoundTrip`
  holds exactly for strings without one).
- `wire_print_*` counts the terminator even when there is no room to write it, and for a
  message of 2^32 - 1 bytes the count wraps around to 0 (`Wire.AddTerminator`); such a
  message is printed into a given buffer, but not into an allocated one (`Wire.Print`).

## Model

| member | source | states |
|---|---|---|
| Probing.FirstReturn | src/common/klib/khash.h:236-239 | modulo a power of two n, the probe sequence first comes back to its start at probe 2n-1, so the `i == last` exit is reached no earlier |
| Probing.ProbesDistinct | src/common/klib/khash.h:238-239 | two probes whose numbers add up to less than 2n-1 never hit the same bucket |
| Probing.Coverage | src/common/klib/khash.h:238-239 | the first n probes visit every one of the n buckets |
| Probing.SlotStep | src/common/klib/khash.h:238 | the incremental `i = (i + ++step) & mask` walks exactly the triangular offsets from the hash |
| RoundUp.RoundUp32Least | src/common/klib/khash.h:176 | the bit-smearing macro yields the least power of two not below x, and wraps to 0 for 0 and above 2^31 |
| RoundUp.SmearDoubles | src/common/klib/khash.h:176 | each shift-and-or step doubles the run of ones below the top bit |
| KHash.FirstEmpty | src/common/klib/khash.h:237-240 | as long as a bucket is empty, every probe sequence meets one, which is what ends the loops |
| KHash.Absent | src/common/klib/khash.h:237-241 | a probe that meets an empty bucket before the key proves that the key is stored nowhere |
| KHash.Table.Get | src/common/klib/khash.h:230-243 | returns the live bucket of the key with its value if and only if the finite map contains it, and `n_buckets` otherwise; every bucket whose key was compared is live |
| KHash.Table.Locate | src/common/klib/khash.h:319-335 | finds the bucket of a stored key, and for a new one the last tombstone on its path, or else the first empty bucket, from which it stays reachable |
| KHash.Table.MakeRoom | src/common/klib/khash.h:310-318 | purging tombstones or doubling keeps the map, and leaves `n_occupied < upper_bound < n_buckets` exactly when there was room already or there are fewer than 2^30 entries |
| KHash.Table.Put | src/common/klib/khash.h:307-348 | adds exactly the key; 0 if it was present, 2 if it reuses a tombstone, 1 if it takes an empty bucket, with the exact condition of each |
| KHash.Table.Occupy | src/common/klib/khash.h:336-347 | claiming the bucket found keeps the path invariant, the counters and every other entry |
| KHash.Table.Del | src/common/klib/khash.h:349-355 | removes the key of a live bucket and nothing else; a tombstone keeps the later buckets of its paths reachable; other buckets are left alone |
| KHash.Table.Clear | src/common/klib/khash.h:223-229 | leaves the empty map in the same arrays |
| KHash.Table.SetVal | src/common/containers.h:151 | storing a value through the returned bucket changes the value of that key only |
| KHash.Table.Resize | src/common/klib/khash.h:244-306 | the map survives growing, purging and shrinking; a request that is too small changes nothing, any other leaves the least sufficient power of two, no tombstone and `n_occupied == size` |
| KHash.Table.Rebuild | src/common/klib/khash.h:252-304 | a capacity with room for the entries is adopted, the map kept, and no tombstone left |
| KHash.Table.Rehash | src/common/klib/khash.h:269-294 | moving every live entry within the one pair of arrays ends with all of them in the new table, reachable |
| KHash.Table.KickOut | src/common/klib/khash.h:277-292 | old live + in hand + placed entries stay the same map through every kick; each kick removes one old live bucket, so the loop ends |
| KHash.Table.FreeSlot | src/common/klib/khash.h:278-281 | the probe of the new table ends at an empty bucket reachable for the hash |
| KHash.Table.Grow | src/common/klib/khash.h:256-264 | reallocation for expansion keeps the old entries in place |
| KHash.Table.Adopt | src/common/klib/khash.h:295-304 | cutting the arrays down to the new capacity loses no entry |
| KHash.SwapKeeps | src/common/klib/khash.h:282-286 | one kick exchanges the entry in hand with the old entry of the bucket and keeps the migration invariant |
| KHash.PlaceKeeps | src/common/klib/khash.h:282-290 | placing the entry in a free bucket keeps the migration invariant |
| KHash.DeleteKeeps | src/common/klib/khash.h:351-353 | a tombstone in place of a live bucket removes one entry and leaves all others reachable |
| KHash.InsertKeeps | src/common/klib/khash.h:336-345 | a live key on its own path adds one entry, and occupancy grows only for an empty bucket |
| KHash.SiteFinal | src/common/klib/khash.h:326-333 | `site` is the last tombstone of the key's path, and absent exactly if there is none |
| KHash.RoomFound | src/common/klib/khash.h:310-317 | the capacity chosen by either branch of put is never rejected by resize and leaves room |
| KHash.NoRoomFound | src/common/klib/khash.h:310-317 | a full table with 2^30 entries or more has 2^31 buckets, and the doubled capacity wraps around to one that is too small |
| KHash.UpperBoundRounds | src/common/klib/khash.h:303 | the bound is 0.77 times the capacity, rounded to the nearest integer |
| KHash.CapacityLeast | src/common/klib/khash.h:249-250 | the capacity is the least power of two of at least four that is not below the request, and four above 2^31 |
| KHash.HoldsSize | src/common/klib/khash.h:339-344 | the `size` counter is the number of entries of the map |
| Containers.MapAdd | src/common/containers.h:144-153 | the stored node replaces what the map had under the key |
| Containers.MapRemove | src/common/containers.h:155-168 | removes the key if present |
| Containers.MapGet | src/common/containers.h:170-176 | returns the node of the key, or nothing if and only if it has none |
| Containers.Run | src/common/klib/khash.h:223-355 | over every sequence of add, remove, clear and resize the table refines the same sequence on a finite map |
| Jsmn.Resume | src/common/jsmn.h:207-220 | a call that ran out of tokens, resumed with more room, ends exactly like the one-shot call; any other call is not changed by more room |
| Jsmn.ExactRoom | src/common/jsmn.h:106-111 | a successful count is exactly the room needed: fewer tokens give JSMN_ERROR_NOMEM, as many succeed identically |
| Jsmn.CountAgrees | src/common/jsmn.h:273-286 | the call with a null token array returns the count of the successful call |
| Jsmn.CountIsLength | src/common/jsmn.h:273-452 | the count returned is the number of filled tokens |
| Jsmn.CountFails | src/common/jsmn.h:281-440 | with a null token array the same errors in strings and unquoted values are found, and brackets are not looked at |
| JsmnParser.Parser.Parse | src/common/jsmn.h:268-453 | the scanning loop over the token array leaves the state and the code of the specified run; with null tokens it returns the specified count; for texts below 2^31 characters no counter leaves its range |
| JsmnParser.Parser.ParsePrimitive | src/common/jsmn.h:135-188 | fills one token up to the delimiter, or fails with `pos` restored |
| JsmnParser.Parser.ParseString | src/common/jsmn.h:193-263 | fills one token up to the closing quote, checking escapes and up to four hex digits, or fails with `pos` restored |
| JsmnParser.Parser.Close | src/common/jsmn.h:308-360 | closes the last open token if its type matches and makes the next open one around it the superior token |
| JsmnParser.Parser.Comma | src/common/jsmn.h:379-396 | returns from a key to the innermost open object or array |
| JsmnParser.Parser.AllocToken | src/common/jsmn.h:106-119 | takes the next token if there is one, leaving the filled ones alone |
| JsmnParser.CountsTokens | src/common/jsmn.h:283-433 | the running `count` keeps up with `toknext` |
| JsmnParser.ReturnCodes | src/common/jsmn.h:54-61 | the codes returned are -1, -2, -3 or the count |
| JsonForest.GraftFlat | src/common/jsmn.h:291-306 | appending a token and counting it at a node of the rightmost spine is adding a last child there |
| JsonForest.CloseFlat | src/common/jsmn.h:337-347 | setting the end of a spine token is closing that node |
| JsonStructure.StepListed | src/common/jsmn.h:275-441 | on any byte, the tokens keep listing a forest in preorder with `size` the child counts, and `toksuper` is -1 or an ancestor-or-self of the last token |
| JsonStructure.RunListed | src/common/jsmn.h:275-450 | so they do after any call on any input, successful or not |
| JsonStructure.StepSpanned | src/common/jsmn.h:275-441 | token spans delimit text of their own type and are nested or disjoint, in order |
| JsonStructure.AnyInput | src/common/jsmn.h:268-453 | any input below 2^31 characters yields a preorder forest with nested spans, all positions in the range of `int`; on success every bracket is closed by its own kind |
| JsonText.TokensAreNodes | src/common/jsmn.h:268-453 | a value has as many tokens as it has values and keys, all closed |
| JsonText.SameClasses | src/common/jsmn.h:203-260 | the white space, escapes and hexadecimal digits of the tokenizer are exactly those of RFC 8259 |
| JsonTokens.ScanChars | src/common/jsmn.h:203-262 | every RFC 8259 string body, escapes included, is scanned up to its closing quote |
| JsonTokens.ValueRun | src/common/jsmn.h:275-441 | inside any context, reading a value appends exactly its tokens and counts one child of the superior token |
| JsonTokens.ItemsRun | src/common/jsmn.h:275-441 | the items of an array become its children in order |
| JsonTokens.MembersRun | src/common/jsmn.h:275-441 | each member becomes a key child of the object, with the value as the one child of the key |
| JsonTokens.Document | src/common/jsmn.h:268-453 | the rendering of any value with any white space, below 2^31 characters, parses to its node count, and the tokens mirror the value in type, span and child count |
| JsonTokens.DocumentRoom | src/common/jsmn.h:106-111 | its node count is the exact number of tokens needed, and what a null array counts |
| JsonVerdict.StringExact | src/common/jsmn.h:203-221 | on any input, a string is scanned to a quote exactly when the grammar derives what stands in front of it |
| JsonVerdict.StringRejected | src/common/jsmn.h:223-262 | it is rejected exactly when a bad escape follows characters of the grammar, and otherwise cut off |
| JsonVerdict.PrimitiveExact | src/common/jsmn.h:143-172 | an unquoted value ends exactly at the first delimiter or the end of the text, and is rejected exactly for a control character or one above 126 |
| JsonVerdict.Verdict | src/common/jsmn.h:275-452 | for every input and room: what the code returned says about the character where the call stopped and the tokens it left |
| JsonVerdict.InvalidStays | src/common/jsmn.h:54-61 | text that is invalid stays invalid, at the same place, whatever follows it |
| JsonNav.SubtreeAt | src/common/json.c:79-88 | every index of a forest listing is the root of a subtree listed from there |
| JsonNav.AnyToken | src/common/json.c:79-88 | so is every token left by the tokenizer on any input, however the call ended |
| JsonNav.JsonNext | src/common/json.c:79-88 | terminates and returns the index plus the subtree size, by child counts alone |
| JsonNav.JsonGetArr | src/common/json.c:114-129 | returns the token of the element with that index, or -1 if and only if the token is no array or too short |
| JsonNav.ItemNumber | src/common/json.c:114-129 | in any text of the grammar the element with an index is the item of that number |
| JsonNav.JsonGetMember | src/common/json.c:98-112 | on any object whose children have one child each, returns the value token of the first child whose text is the key, or -1 if and only if there is none |
| JsonNav.StreqExact | src/common/json.c:90-96 | keys are compared character by character, as they are written |
| JsonNav.KeysVisited | src/common/json.c:9-10 | the loop over the members goes from child to child, and ends behind the last, exactly when every child has exactly one child |
| JsonNav.BareKey | src/common/json.c:9-10 | the tokenizer accepts `{"a"}`, and there the loop leaves the tokens |
| JsonNav.AnyObject | src/common/json.c:98-112 | in the tokens of any input, the children of an object that are strings are spans of the text, so that one child each is all that a lookup needs |
| JsonNav.MemberOfText | src/common/json.c:98-112 | in any text of the grammar the children are keys with a value, and the lookup finds the value of the first member with that raw key, if there is one |
| JsonNav.FirstMatchIsFirst | src/common/json.c:106-109 | the member found is the first: none before it has the key, and none at all has it when nothing is found |
| JsonNav.JsonDelve | src/common/json.c:140-159 | follows a dotted path member by member to exactly the tree it names, ends at the first member that is missing, or aborts at a segment without a dot or of 128 characters or more |
| JsonNav.DelveOfText | src/common/json.c:140-159 | in any text of the grammar every path can be followed, and it leads to the value that it names, whose text and tokens are there |
| JsonNav.FollowKeys | src/common/json.c:140-159 | keys without dots below 128 characters, each behind a dot, are entered one after the other |
| JsonNav.LongKey | src/common/json.c:145-154 | a path that goes on without a dot, or with a key of 128 characters or more, aborts |
| JsonNav.DocumentPlaced | src/common/json.c:140-159 | the tokens of a parsed text are the listing of its value's tree, from which these functions may start |
| Rlp.BigEndianInverse | src/common/rlp.c:140-182 | the shortest big-endian form reads back as the number |
| Rlp.SizeOfSizeIsWidth | src/common/rlp.c:101-105 | the leading-zero count gives the number of bytes that the size is written in |
| Rlp.EncodeKind | src/common/rlp.c:673-686 | the first byte tells items from lists, and 0xc0 only begins the empty list |
| RlpReading.EncodeExact | src/common/rlp.c:608-665 | the encoding is the one shortest byte string that denotes the tree, read by the byte ranges of the standard |
| RlpReading.EncodeDenotes | src/common/rlp.c:608-665 | the encoding denotes the tree, read by the byte ranges of the standard |
| RlpReading.EncodeShortest | src/common/rlp.c:107-126 | any byte string that denotes the tree is its encoding, or longer |
| RlpReading.OneByte | src/common/rlp.c:284-287 | a single byte below 80 is its own encoding, and any other takes two |
| RlpReading.FirstBytes | src/common/rlp.c:288-301 | the range of the first byte for short and long items and lists |
| RlpNode.RlpPush | src/common/rlp.c:516-540 | appends the child as the last item of the list (stored first), turning nothing or a single item into a list |
| RlpNode.WriteBigEndian | src/common/rlp.c:140-165 | writes the shortest big-endian form and nothing else |
| RlpNode.WriteSz | src/common/rlp.c:107-126 | writes exactly the length prefix in front of `spot`, and none for the length 0; without a buffer it returns the same size |
| RlpNode.PrintWalk | src/common/rlp.c:643-665 | the size pass and the writing pass agree; the writing pass fills exactly the encoding, ending `size` bytes below where it started |
| RlpNode.PrintItems | src/common/rlp.c:646-662 | the loop over the chained children writes the encodings in order, the last one first |
| RlpNode.RlpPrint | src/common/rlp.c:608-641 | succeeds exactly when the reported size fits, and then the buffer begins with the encoding of the tree, unless that is a single item of more than 2^31 bytes; otherwise it is untouched |
| RlpNode.RlpItem | src/common/rlp.c:275-304 | an item node holds the encoding of its bytes in each of the four cases, below 2^31 bytes |
| RlpNode.PrefixRead | src/common/rlp.c:184-213 | what the first byte of an encoding announces |
| RlpNode.ReadSz | src/common/rlp.c:184-213 | reads the length and the prefix size of any encoded tree |
| RlpNode.ReadBigEndian | src/common/rlp.c:167-182 | reads the big-endian number |
| RlpNode.RlpParse | src/common/rlp.c:667-689 | parsing any encoding below 2^32 bytes of items below 2^31 bytes gives back the tree, from fresh nodes |
| RlpNode.RlpParseWalk | src/common/rlp.c:691-718 | rebuilds the children of a list from its payload, in order |
| RlpNode.EncodeUnique | src/common/rlp.c:643-718 | no two trees have encodings of which one begins with the other |
| Rlp.SmallIsShort | src/common/rlp.c:275-304 | an encoding below 2^31 bytes has no longer item, so that all of them can be parsed |
| RlpNode.RlpCopy | src/common/rlp.c:488-494 | printing and parsing back gives an equal, disjoint tree, or nothing if and only if it exceeds 4098 bytes |
| RlpNode.RlpTrip | src/common/rlp.c:608-718 | printing into a buffer of any size and parsing from it gives an equal tree exactly when the encoding fits |
| RlpNode.RlpAt | src/common/rlp.c:507-514 | the child with that number counted from the first, or nothing beyond the last and for items, `uint32_t` wrap-around included |
| RlpNode.RlpRef | src/common/rlp.c:478-486 | the payload of an item behind its prefix, nothing for a list |
| RlpNode.RlpAsInt | src/common/rlp.c:452-464 | the integer of an item that fits the width, 0 otherwise |
| Wire.RequestRoundTrip | src/usb/common/wire.c:116-168 | parsing gives back method, path and optional data (absent differs from empty) exactly when no string contains a zero byte |
| Wire.ResponseRoundTrip | src/usb/common/wire.c:208-259 | parsing gives back the 16-bit code and the message exactly when it contains no zero byte |
| Wire.MessageBytes | src/usb/common/wire.c:129-134 | the bytes of request and response behind their prefix: two zero bytes, then the fields in order |
| Wire.RequestFields | src/usb/common/wire.c:157-161 | version, type, method, path and data are read from their places, whatever they hold |
| Wire.ResponseFields | src/usb/common/wire.c:249-252 | version, type, 16-bit code and message are read from their places, whatever they hold |
| Wire.TooFew | src/usb/common/wire.c:156-166 | a message is rejected exactly when it is no list or has less than four items |
| Wire.WideInt | src/common/rlp.c:452-464 | an integer that does not fit the width is read as 0 |
| Wire.CStringEnds | src/common/rlp.c:466-470 | a string ends in front of its first zero byte |
| Wire.AddTerminator | src/usb/common/wire.c:24-31 | writes the terminator if there is room, counts it anyway, modulo 2^32 |
| Wire.PrintRequest | src/usb/common/wire.c:116-147 | prints the request list and its terminator, allocating exactly that size without a buffer; fails exactly when the given buffer is too small, leaving it alone, or when the size to allocate wraps around |
| Wire.ParseRequest | src/usb/common/wire.c:149-168 | accepts exactly lists of at least four items, and reads their fields |
| Wire.PrintResponse | src/usb/common/wire.c:208-236 | the same for a response |
| Wire.ParseResponse | src/usb/common/wire.c:238-259 | accepts exactly lists of at least four items, and reads version, type, code and message |
| Wire.RequestTrip | src/usb/common/wire.c:116-168 | print into a buffer, parse from it: succeeds exactly when it fits, and gives the same request exactly without zero bytes |
| Wire.ResponseTrip | src/usb/common/wire.c:208-259 | the same for a response |
| HttpBody.FeedSplit | apps/ttyd/http_parser.c:706-710 | cutting the input in two changes neither state nor notifications nor offset |
| HttpBody.FeedInParts | apps/ttyd/http_parser.c:706-710 | nor does any number of cuts |
| HttpBody.ByteSound | apps/ttyd/http_parser.c:1879-1997 | what the assertions of the body states demand holds at every byte boundary |
| HttpBody.FeedSound | apps/ttyd/http_parser.c:1827-1997 | and over every input |
| HttpBody.PushHexExact | apps/ttyd/http_parser.c:1918-1928 | the 64-bit accumulation of a chunk size is exact or rejected, and never reaches the sentinel |
| HttpBody.HexRun | apps/ttyd/http_parser.c:1879-1930 | the digits of a chunk size give its true value, and are rejected exactly above the largest accepted size |
| HttpBody.DecimalRun | apps/ttyd/http_parser.c:1502-1527 | for digits and spaces, the `Content-Length` accumulator is the number that they spell with spaces skipped |
| HttpBody.LengthAccepted | apps/ttyd/http_parser.c:1403-1416 | a value is accepted exactly when it is a digit, then digits and spaces, of a number within the limit |
| HttpBody.SplitLength | apps/ttyd/http_parser.c:1502-1527 | `1 2` is read as 12 |
| HttpBody.ChunkDataRun | apps/ttyd/http_parser.c:1960-1981 | chunk bytes are delivered until the chunk is exhausted |
| HttpBody.IdentityRun | apps/ttyd/http_parser.c:1827-1861 | exactly the announced number of bytes is delivered, then the message completes |
| HttpBody.ChunkRun | apps/ttyd/http_parser.c:1879-1997 | one chunk notifies its header, its data and its end, and is ready for the next |
| HttpBody.ChunkedRoundTrip | apps/ttyd/http_parser.c:1712-1721 | any non-empty chunks and the zero chunk with an empty trailer deliver exactly the payload and complete the message once |
| HttpBody.Delivered | apps/ttyd/http_parser.c:1960-1997 | the bytes delivered over all chunks are the concatenation of their data |
| HttpMessages.BodilessMessage | apps/ttyd/http_parser.c:1790-1816 | the message completes with its header section exactly when the body is skipped, or not chunked and of length zero, or without length where none is needed |
| HttpMessages.MeasuredMessage | apps/ttyd/http_parser.c:1809-1861 | a message with a length notifies its headers, exactly that many bytes, and its end with the last of them; the end of the connection before is an error |
| HttpMessages.EndlessMessage | apps/ttyd/http_parser.c:659-668 | a response without length delivers all that comes, and completes at the end of the connection |
| HttpMessages.ChunkedMessage | apps/ttyd/http_parser.c:1801-1803 | a chunked message notifies its headers and chunks, delivers exactly its payload and completes once |
| HttpMessages.ChunkedIncomplete | apps/ttyd/http_parser.c:1712-1721 | it completes with its last byte and not before |
| HttpMessages.WrongHeadersEnd | apps/ttyd/http_parser.c:1714-1729 | another byte than the line feed, and both framings at once, are errors of their own |
| HttpMessages.Closed | apps/ttyd/http_parser.c:659-678 | the end of the connection completes, is quiet or is an error, by state |
| HttpMessages.HexDigitValues | apps/ttyd/http_parser.c:228-240 | the sixteen digits in either case have their values, and no other byte has one |
| HttpMessages.ChunkRejects | apps/ttyd/http_parser.c:1879-1997 | which bytes the framing of a chunk rejects, and with which error |
| HttpMessages.HeaderLimit | apps/ttyd/http_parser.c:709-710 | the first byte of framing above 80 KiB is rejected, and body bytes are not counted |
| HttpParser.Executor.Execute | apps/ttyd/http_parser.c:706-2036 | the executor, which takes stretches of body at once and notifies late, ends in the state, error and offset of the byte machine with the same notifications and body bytes, except that a run which fails behind the data of a chunk lacks exactly the body bytes that come last |
| HttpBody.LostBytes | apps/ttyd/http_parser.c:1983-1988 | these are the bytes directly in front of the rejected one in the same buffer, and there are any exactly if the run took a byte of the buffer |
| HttpBody.PendingBytes | apps/ttyd/http_parser.c:1960-1989 | what a buffer leaves without a notification behind chunk data, and that a chunk ending in the buffer leaves some |
| HttpBody.OtherByte | apps/ttyd/http_parser.c:1870-1997 | outside the body states no accepted byte leads behind chunk data, only the end of a chunk header leads to chunk data, and a rejected byte changes neither |
| HttpBody.LostByte | apps/ttyd/http_parser.c:1983-1988 | an input on which a body byte is lost: chunk data followed by another byte than CR |
| HttpParser.Executor.TakeBody | apps/ttyd/http_parser.c:1827-1868 | a stretch of body bytes taken at once is the same as taking them one by one |
| HttpParser.Executor.TakeSingle | apps/ttyd/http_parser.c:1879-1997 | one byte in the other states is one step of the machine |
| HttpParser.Executor.HeadersDone | apps/ttyd/http_parser.c:1781-1825 | where the end of the header section leads, by flags and content length |
| HttpParser.Executor.CallbackBody | apps/ttyd/http_parser.c:2016-2028 | the marked bytes are notified, in order |
| HttpParser.ExecuteParts | apps/ttyd/http_parser.c:706-710 | a body fed in any non-empty pieces gives the state, error, total offset and (without an error) notifications of feeding it at once |
| HttpParser.ReadContentLength | apps/ttyd/http_parser.c:1502-1527 | the digit loop computes the specified number or rejects the value |
| KList.Queue.Push | src/common/klib/klist.h:104-109 | appends at the tail, through a recycled or a new node |
| KList.Queue.Shift | src/common/klib/klist.h:110-118 | removes the first element, or reports emptiness; its node goes to the pool |
| KList.Queue.Alloc | src/common/klib/klist.h:54-58 | takes the last recycled node, which is in no other use, or a new one |
| Requests.RunInv | src/zmtp/zmtp_device.c:306-486 | after every run: completed, pending and waiting requests are the accepted ones, each once and in order; ids are numbered; attempts are counted; if no transmission failed, nothing waits without a pending request |
| Requests.NextInv | src/zmtp/zmtp_device.c:389-433 | every step keeps that invariant |
| Requests.NextStalls | src/zmtp/zmtp_device.c:389-433 | for every state and step: requests wait with none pending afterwards exactly when the step transmits, fails and leaves more behind, or transmits nothing and they waited before |
| Requests.RunStalls | src/zmtp/zmtp_device.c:306-486 | after every run requests wait with none pending exactly when its last transmission failed with more requests behind it |
| Requests.DroppedRequest | src/zmtp/zmtp_device.c:274-289 | a run with one failed transmission whose third request is dropped by shutting down |
| Requests.DestroyCompletes | src/zmtp/zmtp_device.c:274-289 | shutting down completes every accepted request, those submitted meanwhile included, in order and with the same error, exactly when the engine is not stalled; always so if no transmission failed |
| Requests.StaleReply | src/zmtp/zmtp_device.c:435-457 | after every run, a reply under the id of any attempt but the last changes nothing, and the last id belongs to the pending request |
| Requests.IdsIncrease | src/zmtp/zmtp_device.c:203-215 | after every run, attempt ids are strictly increasing |
| Requests.RunInOrder | src/zmtp/zmtp_device.c:389-433 | after every run, attempts were made in the order in which their requests were accepted, and none yet for a request that still waits behind the next in line |
| Requests.RetriesCount | src/zmtp/zmtp_device.c:407-424 | a pending request loses one retry with every expired poll, and gets none back, 504 deferrals included |
| Requests.Patience | src/zmtp/zmtp_device.c:466-486 | from any reachable state, after more expired polls than retries left the request is completed, whatever happens between them |
| Requests.SendsBounded | src/zmtp/zmtp_device.c:407-424 | no request is transmitted more than `max_retry + 1` times |
| RequestCodes.NextCodes | src/zmtp/zmtp.c:424-459 | a step completes exactly the requests, with exactly the codes, that its reply, its poll and its transmission call for; it makes one attempt exactly when it transmits, and accepts what is sent and submitted |
| RequestCodes.RunCodes | src/zmtp/zmtp_device.c:466-486 | after every run each completed request has the code of the reply accepted for it, the timeout once its retries were used up, or the I/O error of its failed transmission |
| RequestCodes.Ignored | src/zmtp/zmtp.c:427-460 | a reply that is not for the last attempt changes nothing, whatever its id |
| RequestCodes.RunDeadlines | src/zmtp/zmtp_device.c:364-369 | after every run each deadline is one timeout behind the step that accepted, retried or deferred the request last |
| RequestCodes.PollDue | src/zmtp/zmtp_device.c:466-486 | a poll has no effect before that deadline, and from then on retries, or times out when no retry is left |
| ZmtpDevice.I32RoundTrip | src/zmtp/zmtp_device.c:61-80 | an id frame reads back as the id, for every 32-bit integer |
| ZmtpDevice.EchoedId | src/zmtp/zmtp.c:387-459 | a reply that echoes the id frame of an attempt is taken exactly if that attempt was the last |
| ZmtpDevice.FrameNumbers | src/zmtp/zmtp.c:424-429 | ids and error codes are read in two's complement, the highest byte first |
| ZmtpDevice.ResponseFrames | src/zmtp/zmtp.c:387-411 | the frames of both protocols in order, and the sizes that decide whether a response is taken |
| ZmtpDevice.Device.ZmtpSend | src/zmtp/zmtp_device.c:306-328 | the object carries out the send step of the machine |
| ZmtpDevice.Device.ZmtpPoll | src/zmtp/zmtp_device.c:466-486 | and the poll step |
| ZmtpDevice.Device.ProcessResponse | src/zmtp/zmtp.c:413-465 | and the reply step; a malformed response changes nothing |
| ZmtpDevice.Device.ZmtpDestroy | src/zmtp/zmtp_device.c:274-289 | and shutting down, whatever finite number of requests its callbacks submit |
| ZmtpDevice.Device.RequestIdSet | src/zmtp/zmtp_device.c:202-215 | a fresh id frame for every attempt, none on a legacy device |
| ZmtpDevice.Device.RequestFlush | src/zmtp/zmtp_device.c:389-405 | the first waiting request becomes pending under a fresh id, or is completed when it cannot be sent |
| ZmtpDevice.Device.RequestRetry | src/zmtp/zmtp_device.c:407-424 | the pending request is sent again under a fresh id, with a later deadline |
| ZmtpDevice.Device.RequestResolve | src/zmtp/zmtp_device.c:371-387 | the callback fires once, then the request is gone; what the callback submits waits |
| ZmtpDevice.Device.ListDestroy | src/common/containers.h:63-74 | the rest of the backlog is dropped |
| Base64.RoundTrip | src/common/base64.c:51-109 | decoding the characters of an encoding gives back the bytes |
| Base64.LineBrokenRoundTrip | src/common/base64.c:126-180 | with LF or CRLF inserted anywhere in the text, the first pass counts exactly 4*ceil(n/3) characters and decoding gives back the bytes |
| Base64.BrokenRoundTrip | src/common/base64.c:126-180 | the same when spaces stand in front of the line ends and at the end of the text |
| Base64.FirstPassSound | src/common/base64.c:126-154 | the counters of an accepted text are the number of its significant characters and of their paddings, which are at most two and stand last |
| Base64Alphabet.Accepted | src/common/base64.c:126-154 | a text is accepted exactly when it consists of characters of the alphabet and then at most two paddings, in lines with spaces only at their ends |
| Base64Alphabet.EncMapIs | src/common/base64.c:28-34 | the encoding table is the alphabet of RFC 1521 |
| Base64Alphabet.DecMapIs | src/common/base64.c:36-46 | the decoding table has the value of each character of the alphabet and rejects every other byte |
| Base64Alphabet.QuadDigits | src/common/base64.c:79-87 | four characters are the digits of the number that three bytes make, the highest first |
| Base64Alphabet.ShortGroups | src/common/base64.c:90-103 | one or two bytes are continued with zero bytes and padded |
| Base64.SecondPassLength | src/common/base64.c:156-180 | for every accepted text the second pass writes at most the announced length, and exactly that if and only if the padding covers the incomplete group |
| Base64.CutText | src/common/base64.c:156-180 | a text cut after two characters announces two bytes and decodes to none |
| Base64.DecodeGroup | src/common/base64.c:172-177 | a group of four decodes by itself behind complete groups |
| Base64Codec.B64Encode | src/common/base64.c:51-109 | writes the encoding and a zero byte behind it, or reports the size needed, or does nothing for an empty input |
| Base64Codec.TextLength | src/common/base64.c:66-72 | the bit count arithmetic gives 4*ceil(n/3) |
| Base64Codec.CheckText | src/common/base64.c:125-154 | the validating loop computes the specified outcome |
| Base64Codec.RollGroup | src/common/base64.c:170 | whatever earlier groups left in the 32-bit accumulator, its low bits spell the group under way |
| Base64Codec.RollingNext | src/common/base64.c:169-177 | one more character completes a group and emits exactly its bytes, or stays within it |
| Base64Codec.Unpack | src/common/base64.c:166-180 | the second pass writes exactly the decoded bytes, inside the buffer |
| Base64Codec.B64Decode | src/common/base64.c:114-183 | rejects, asks for the announced size, or decodes; the buffer beyond the result is untouched |
| Base64Codec.EncodeThenDecode | src/common/base64.c:51-183 | encoding, then decoding the text with line ends inserted, gives back the bytes in a buffer of just their length |

## Left out

- Allocation failure, in every component.
- Sockets, ZeroMQ, libusb, files, clocks and logging: a transmission is an arbitrary success or failure, the clock an arbitrary input of each step.
- KHash.Table.Put: requires that there is room (a spare bucket, or fewer than 2^30 entries); a table beyond that, which the code still fills up, is not followed further.
- Containers.MapAdd: requires the same room.
- Containers.Run: requires that the entries and operations together are fewer than 2^30, which guarantees the room at every step.
- Hash functions and key comparison: an uninterpreted function and equality; `k & mask` is written `k % n` for a power of two n. The two flag bits of a bucket are an enumeration, not packed into words.
- The strict mode and the parent links of the tokenizer (not the default build), and values parsed out of tokens (numbers, booleans).
- JsmnParser.Parser.Parse: requires a text below 2^31 characters and fewer than 2^32 tokens, because positions are `int` and `unsigned int`; so do the theorems about whole texts.
- JsonNav.JsonGetMember: requires children with one child each; where a lookup goes in other objects depends on whatever tokens follow, and is not followed further.
- JsonText.TokensAreNodes: literals are any text over the characters of numbers, or true, false and null; so the theorems cover more than the grammar of RFC 8259, and all of it.
- RlpNode.RlpItem: requires fewer than 2^31 bytes, because the copying loop counts with an `int`.
- RlpNode.RlpParse: speaks of bytes that begin with an encoding, of items below 2^31 bytes; malformed bytes, on which the code does not use its length argument, are not modelled.
- RlpNode.RlpParseWalk: the same for the payload of a list.
- RlpNode.ReadSz: the same for the prefix.
- Wire.ParseRequest: the same for a message.
- Wire.ParseResponse: the same for a message.
- RlpNode.RlpPush: requires a child that is not yet a child elsewhere, because the code would relink the other list with it.
- RLP integer arrays (leading zeros are dropped, so they are not invertible) and `rlp_children_walk`.
- Wire.PrintRequest: strings below 2^31 bytes and an encoding below 2^32 bytes; the formatting of the data by `vsnprintf` is not modelled, nor are `wire_read_sz` and `wire_read_be`.
- Wire.PrintResponse: the same bounds.
- HTTP request and status lines, header fields, upgrades, trailer fields and the next message: an input that leads there ends the model with its own error. The flags that headers set are an arbitrary input.
- HttpParser.Executor.Execute: callbacks return 0; pausing is not modelled.
- HttpParser.ExecuteParts: on failing runs the notifications are those of the single calls and may depend on the pieces; pieces are not empty, because an empty buffer announces the end of the connection.
- ZmtpDevice.Device.ZmtpSend: fewer than 2^31 attempts; no tick wrap-around; a device does not change between legacy and current protocol; callbacks may submit requests but not remove the device.
- ZmtpDevice.Device.ZmtpDestroy: a shutdown in which callbacks go on submitting forever does not end and is not modelled.
- ZmtpDevice.Device.ProcessResponse: a message must not break off in front of its last frame, which the code would read all the same; and its version must be that of the device, because any other first switches the device between the legacy and the current protocol (src/zmtp/zmtp.c:204-213).
- Request paths and data, alerts, heartbeats, node lookup and the USB device: they carry no state of the request engine.
- Base64Codec.B64Decode: the space counter of the first pass does not wrap at 2^32 spaces, and sizes do not wrap at the width of `size_t`.
- Base64Codec.B64Encode: sizes do not wrap at the width of `size_t`.
