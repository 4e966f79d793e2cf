# Verified model of the trading bridge

The repository is a C bridge that polls several exchanges, merges their markets and serves the result to
clients. This project models its self-contained core in Dafny and proves what that core is for.

- **Hash table** (`Words`, `Flags`, `Probing`, `Tables`, `KHash`, `KHashRuns`, `HashTable`): khash's open addressing
  with triangular probing, tombstones, packed two-bit flags and the in-place, cuckoo-style rehash. The table is a
  class over three arrays; its invariant ties them to a finite map, and whole runs of operations are answered as
  by that map, for every hash function and up to the 2^31 keys that 32-bit indices allow; a put fails exactly there.
- **JSON tokenizer** (`Jsmn`, `JsmnParser`, `JsmnStack`, `JsmnPasses`, `JsonScans`, `JsonText`, `JsonGrammar`, `JsonLabels`): jsmn in
  the configuration that is compiled (neither strict nor with parent links). The parser is a class that updates its
  cursor and fills an array, proved step by step against a functional form; about that form it is proved that the
  backward scans simulate a bracket stack, that every printed JSON tree is tokenized to its preorder, that the
  counting and the filling pass agree, and when a parse can be resumed.
- **Trading pairs** (`Octets`, `Protobuf`, `MarketWire`, `Markets`, `Vendors`, `TradingPairs`): merging all vendors' markets through
  the hash table, encoding the list as nested length-delimited records, and decoding at the client what it reads into its
  5000-byte buffer, end to end, also from the text of a vendor's market document. The client holds the whole merge
  exactly when its encoding fits that buffer.
- **Base64** (`Base64`) and the **refresh loop** (`Refresh`) with its deferred reclamation as a state machine.
- **Bittrex parsers** (`JsonCursor`, `Bittrex`, `DocLabels`, `KeyRows`, `KeyTrees`, `BookText`, `MarketRecords`,
  `MarketText`), from texts to the linked lists. The parsers look for keys in a fixed order, each from the place of the
  last one on; so the keys in any JSON text fall into rows, and what is read follows from the rows. That covers every text;
  of well-formed order books and market documents it gives exactly their levels and active records, and of others what
  the parsers make of them.

Code that changes state is written as methods over classes and arrays. Each is proved against a function or a
ghost map, and the lemmas are about those. Some C functions are split into several methods, one for a loop or a loop body.
Results that are false of the code as first expected carry their exact condition and an input that shows it:
`Words.KRoundUp32Wraps`, `KHashTable.KHash.Put` with `KHashRuns.CapacityIsReached`, `Vendors.AllTradingPairs` with
`Vendors.OnePairTooMany`, `Vendors.MergesPairs` with `Vendors.TildeLosesPair`, `MarketWire.ClientListIsWhole` with
`MarketWire.TooManyCoins`, `JsmnPasses.ResumeWithMoreText` with `JsmnPasses.CutNumber`, `Base64.RoundTrip`,
`Refresh.GraceIsExact`, `BookText.ShowsDocument` with `BookText.SellMessageLosesBids`, and `MarketRecords.StopsAtBreak`
with `MarketText.MixesDocument`.

## Model

| member | source | states |
|---|---|---|
| Words.KRoundUp32Least | include/utils/khash.h:176 | for every argument from 1 to 2^31 the smear gives a power of two, and the least one at or above the argument |
| Words.KRoundUp32Wraps | include/utils/khash.h:176 | for 0 and for every argument above 2^31 the 32-bit result is 0, so the two lemmas cover all arguments |
| Words.DigitsOfWords | include/utils/khash.h:176 | the binary digits of a disjunction and of a conjunction are those of its operands joined |
| Words.DigitsOfShift | include/utils/khash.h:176 | a right shift by w moves every binary digit by w places |
| Words.MaskIsMod | include/utils/khash.h:235 | masking with 2^p - 1 is reduction modulo 2^p |
| Words.WrapKeepsMod | include/utils/khash.h:238 | wrapping an index at 32 bits does not change what the mask leaves of it |
| Flags.PacksReads | include/utils/khash.h:165-167 | on words that pack the bucket states b, each test macro says of bucket i exactly what b[i] says, and the word index is in range |
| Flags.PacksDeleted | include/utils/khash.h:171 | marking a live bucket deleted changes the state of that bucket to Deleted and no other |
| Flags.PacksLive | include/utils/khash.h:170 | clearing both bits makes that bucket live and changes no other |
| Flags.PacksNotEmpty | include/utils/khash.h:169 | clearing the empty bit of an empty bucket makes it live and changes no other |
| Flags.PacksFill | include/utils/khash.h:226 | words filled with 0xaa pack an all-empty table |
| Flags.WordMeans | include/utils/khash.h:165-171 | in the word with bits 100100, bucket 0 is live, 1 deleted and 2 empty; what the set and clear macros make of given words; 0xaaaaaaaa as a number |
| Flags.ShiftIs | include/utils/khash.h:165 | the flags of bucket i stand at bit 2 * (i mod 16) of its word |
| KHashTable.FlagsHold | include/utils/khash.h:173 | `__ac_fsize(n)` words hold the flags of every bucket, for every table size that occurs, and one word fewer would not |
| Probing.ProbeIs | include/utils/khash.h:235-238 | probe t of a hash h is bucket h + t (t + 1) / 2 modulo the table size |
| Probing.ProbeDistinct | include/utils/khash.h:238 | the first 2^p triangular probes are pairwise distinct |
| Probing.ProbeFirstReturn | include/utils/khash.h:238-239 | the probe sequence first returns to its start at step 2m - 1 |
| Probing.ProbeHits | include/utils/khash.h:237-240 | every bucket is among the first m probes, for every hash |
| Probing.ProbeNext | include/utils/khash.h:238-239 | the masked 32-bit update continues the probe sequence, and among the first 2m - 1 steps the exit test `i == last` holds at the last one only |
| Tables.EmptyAhead | include/utils/khash.h:237 | while one bucket is empty, every probe sequence meets an empty bucket within the table size |
| Tables.AbsentAtEmpty | include/utils/khash.h:237-241 | a probe that meets an empty bucket before the key proves that the key is not in the map |
| Tables.AbsentEverywhere | include/utils/khash.h:238-239 | a whole round of probes that misses the key proves that it is not in the map |
| Tables.RoundIsFull | include/utils/khash.h:238-239 | a whole round of probes that misses the key has met every bucket, and none is empty |
| Tables.InsertRepresents | include/utils/khash.h:336-345 | a key written into a non-live bucket at the end of its probe gives the map with that key and the value in the slot |
| Tables.DeleteRepresents | include/utils/khash.h:351-354 | a tombstone removes exactly the key of its bucket and cuts no other key's probe path |
| Tables.LiveKeysOnce | book/vendor.c:87-97 | going through the buckets in order meets each key of the map exactly once |
| Tables.PickUpConserves | include/utils/khash.h:270-276 | picking an old element up keeps the partition of the map into old-live slots, new-live slots and hand |
| Tables.PutDownConserves | include/utils/khash.h:282-291 | putting the hand down, with or without a kick-out, keeps the partition and the number of elements; a kick-out lowers the number of old-live slots |
| Tables.RoomLeft | include/utils/khash.h:281 | while elements remain to be placed the new table has an empty bucket |
| Tables.RehashDone | include/utils/khash.h:295-304 | when no old slot is live and the hand is empty the new flags represent the same map and have no tombstone |
| KHashTable.NextSizes | include/utils/khash.h:249-250 | asking for one bucket less keeps the size of a table and asking for one more doubles it |
| KHashTable.BoundIs | include/utils/khash.h:192 | the load bound of n buckets is the whole number with bound <= 0.77 n + 0.5 < bound + 1 |
| KHashTable.RoundedSizeIs | include/utils/khash.h:249-250 | a requested size becomes the least power of two at or above it, at least 4, and 4 when it wraps to zero |
| KHashTable.FirstPuts | include/utils/khash.h:307-318 | three puts of different keys into a new table leave 4 buckets and a fourth leaves 8 |
| KHashTable.WantedFacts | include/utils/khash.h:310-318 | the resize a put asks for, with the wrapping `size<<1`, is carried out exactly unless the table has 2^31 buckets and is half full; the new size is the old one, the first four or twice the old one |
| KHashTable.FindFree | include/utils/khash.h:278-281 | the unguarded inner loop ends at an empty new bucket that the key's probe path reaches |
| KHashTable.KickOut | include/utils/khash.h:277-292 | the kick-out chain ends with an empty hand, conserves the map and revives no old slot |
| KHashTable.MoveAll | include/utils/khash.h:269-294 | after the sweep the new flags represent the old map, with as many live buckets as before and no tombstone |
| KHashTable.KHash.constructor | include/utils/khash.h:212-214 | a new table stands for the empty map and has no buckets |
| KHashTable.KHash.Get | include/utils/khash.h:230-243 | for any table, even one without an empty bucket: the bucket with the key and its value when the key is in the map, otherwise the number of buckets |
| KHashTable.KHash.Walk | include/utils/khash.h:233-240 | its loop ends at the key or at an empty bucket; the `i == last` exit is taken only in a table of 2^31 buckets none of which is empty |
| KHashTable.KHash.Put | include/utils/khash.h:307-348 | for any table: the bucket returned holds the key if and only if the key was present or there were fewer than 2^31 others; then 0 means present, 1 an empty bucket (only if the probe path has no tombstone), 2 the last tombstone before the end of the search, and the map gains at most that key; otherwise 0 is returned and nothing changes; the number of buckets afterwards, a rehash taking place exactly when the used buckets reach 0.77 n + 0.5 rounded down; counters follow |
| KHashTable.KHash.MakeRoom | include/utils/khash.h:310-318 | for any table the map is kept; nothing happens below the load bound 0.77 n + 0.5, and afterwards the load is below it if and only if it was or the resize could be carried out; only a table at least half full grows |
| KHashTable.KHash.PutInRoom | include/utils/khash.h:319-347 | the put itself, once there is room or the table is as large as it gets; a reused bucket is the last tombstone of the search |
| KHashTable.KHash.Seek | include/utils/khash.h:320-334 | the search ends at the key, or proves it absent and returns a reachable bucket: an empty one only if no tombstone was passed, a tombstone only if it is the last one before the end of the search, a live one only if all buckets are live |
| KHashTable.KHash.Search | include/utils/khash.h:324-329 | its loop ends at the key or at an empty bucket, having noted the last tombstone: no later probe before the end meets one; the `i == last` exit is taken only in a table of 2^31 buckets none of which is empty |
| KHashTable.KHash.Delete | include/utils/khash.h:349-355 | removes the key of a live bucket and nothing else; any other bucket, and the end bucket, leave the map alone |
| KHashTable.KHash.Clear | include/utils/khash.h:223-229 | the map becomes empty and the buckets stay allocated |
| KHashTable.KHash.Resize | include/utils/khash.h:244-306 | never changes the map; does nothing exactly when the elements reach 0.77 n + 0.5, rounded down, of the rounded size n, otherwise takes that size and drops all tombstones |
| KHashTable.KHash.SetValue | utils/hashtable.c:23 | changes the value under the bucket's key only |
| KHashRuns.Perform | include/utils/khash.h:212-355 | one client operation on a table changes its map and answers exactly as the finite map does, unless it stores a new key beside 2^31 others |
| KHashRuns.PerformAll | include/utils/khash.h:212-355 | every run of puts, gets, deletes, clears and resizes, of any length and with any hash function, is answered as by a finite map, as long as no new key is stored beside 2^31 others |
| KHashRuns.ShortRunsFit | include/utils/khash.h:212-355 | that holds of every run of up to 2^31 operations |
| KHashRuns.CapacityIsReached | include/utils/khash.h:307-318 | 2^31 puts of different keys fit, and one more put of a new key does not |
| KHashRuns.ContentsAreLastStores | utils/hashtable.c:20-31 | a key has a value after a run exactly when some put stored it and no later operation touched the key |
| HashTables.HashTable.Put | utils/hashtable.c:20-24 | sets the key to the value and changes no other key, unless the key is new beside 2^31 others: then another key gets the value |
| HashTables.HashTable.Get | utils/hashtable.c:26-31 | the value last put, or NULL |
| JsmnParsing.Parser.constructor | utils/jsmn.c:311-315 | the initial parser state |
| JsmnParsing.Parser.NewToken | utils/jsmn.c:6-30 | appends the token, or reports a full array and changes nothing |
| JsmnParsing.Parser.ParsePrimitive | utils/jsmn.c:35-79 | finds the end of the primitive or its error, stores the token, and leaves the parser untouched on every error |
| JsmnParsing.Parser.ParseString | utils/jsmn.c:84-146 | finds the closing quote past escapes, or PART or INVAL, and leaves the parser untouched on every error |
| JsmnParsing.Parser.Open | utils/jsmn.c:164-181 | opens a container, counts it in its superior and becomes the superior; a full array changes nothing |
| JsmnParsing.Parser.Close | utils/jsmn.c:182-231 | the two consecutive backward scans close the last open token and find the one around it, or fail on a mismatch |
| JsmnParsing.Parser.Separate | utils/jsmn.c:244-261 | from a key the comma goes back to the last open container |
| JsmnParsing.Parser.Advance | utils/jsmn.c:158-293 | one turn of the main loop is one step of the functional form, in every case of the switch |
| JsmnParsing.Parser.Parse | utils/jsmn.c:151-305 | a call returns the code (-1, -2, -3 for the three errors, the count otherwise) and leaves the parser and tokens that the functional run gives, from any state and for any array or none |
| JsmnStack.StackStepKeeps | utils/jsmn.c:158-293 | every step keeps: stack equals open tokens in order, spans well formed and nested, sizes plus roots equal the token count |
| JsmnStack.StepSimulates | utils/jsmn.c:209-258 | a step with backward scans and a step with an explicit stack do the same, errors included |
| JsmnStack.RunSimulates | utils/jsmn.c:151-305 | a whole parse refines the stack machine: same tokens and state, same error, and the token count as result |
| JsmnStack.SuccessIsWellNested | utils/jsmn.c:295-304 | on success for any text: all tokens closed, spans inside the text with the right quotes and brackets, starts strictly increasing, any two spans nested or disjoint, valid superior, sizes plus roots equal the count |
| JsmnPasses.PassesAgree | utils/jsmn.c:64-67 | a successful filling pass returns the count of the counting pass, and an array that large never runs out of tokens |
| JsmnPasses.ResumeAfterNoMem | utils/jsmn.c:68-72 | after NOMEM, calling again with a larger array gives outcome and tokens of one fresh call with it, from any state |
| JsmnPasses.ResumeWithMoreText | utils/jsmn.c:143-145 | parsing a prefix, with whatever result, and then the whole text equals parsing it once if and only if the cut does not split a primitive |
| JsmnPasses.CutNumber | utils/jsmn.c:63-78 | the number 12 cut after its first digit becomes two primitives |
| JsmnPasses.RejectsBracket | utils/jsmn.c:182-222 | a closing bracket without its opening one fails with INVAL, alone or behind the other kind |
| JsmnPasses.RejectsCharacter | utils/jsmn.c:52-55 | so do the characters 31 and 127 in a primitive |
| JsmnPasses.RejectsEscape | utils/jsmn.c:133-137 | so does an unknown escape |
| JsmnPasses.RejectsOpen | utils/jsmn.c:144-302 | an unclosed container or string fails with PART |
| JsmnPasses.RejectsToken | utils/jsmn.c:9-11 | a token beyond the array fails with NOMEM |
| JsonText.RunValue | utils/jsmn.c:158-293 | running over the text of any tree stores its preorder, counts it once in its superior and returns to the container around it |
| JsonText.RunElems | utils/jsmn.c:182-261 | running over the rest of an array stores its elements, adds their number to the array's size and closes it |
| JsonText.RunMembers | utils/jsmn.c:182-261 | running over the rest of an object stores keys of size 1 with their values, adds their number to the object's size and closes it |
| JsonScans.PrimitiveIs | utils/jsmn.c:42-63 | a primitive ends at a position exactly when a space, tab, line break, comma, colon, closing bracket or the end of the text stands there and only characters from 32 to 126 without those come before it |
| JsonScans.StringIs | utils/jsmn.c:93-146 | a string ends at a position exactly when a quote stands there and what comes before it is a string body: plain characters, the eight escapes, and \u with four hex digits |
| JsonText.TokenizesEveryText | utils/jsmn.c:151-305 | for every JSON tree, with the lexemes and string bodies jsmn takes and any spacing, parsing its text returns the node count and exactly its preorder with spans, kinds and sizes |
| JsonGrammar.NumberIsLexeme | utils/jsmn.c:42-63 | every number of RFC 8259 (section 6) is taken whole as a primitive |
| JsonGrammar.LiteralIsLexeme | utils/jsmn.c:42-63 | so are true, false and null |
| JsonGrammar.StringBodyIsBody | utils/jsmn.c:93-137 | every string body of RFC 8259 (section 7) without NUL, with all its escapes, is taken as one |
| JsonGrammar.TokenizesJson | utils/jsmn.c:151-305 | every JSON text of RFC 8259, spelled out with literal characters, with blanks around it, is tokenized to its preorder |
| JsonGrammar.TokenizesDecimal | utils/jsmn.c:151-305 | the text [1.5] gives an array of one primitive that spans 1.5 |
| JsonLabels.EveryTextIsLabelled | utils/jsmn.c:73-106 | every string, key and primitive token of a parsed text spans exactly that node's text |
| Protobuf.ReadVarintBack | book/market.c:67-68 | reading a varint back, whatever follows it, gives the number and the bytes it took |
| Protobuf.VarintFitsTen | book/market.c:23 | a 64-bit number takes at most ten bytes |
| Protobuf.ReadTagBack | book/market.c:119 | reading a field tag back gives field number and wire type |
| Protobuf.ReadDelimitedBack | book/market.c:180 | reading a length-delimited record back gives its payload |
| Protobuf.ReadTagStays | book/market.c:119 | a tag that can be read reads the same whatever follows the message, so a reader given too long a length reads it too |
| Protobuf.CutDelimited | book/market.c:180 | a length-delimited record that is cut short cannot be read |
| MarketWire.ReceivedFee | book/market.c:67-139 | sending a received market again sends the same thousandths, and the fee lost less than a thousandth |
| MarketWire.OneMarket | book/market.c:51-102 | the bytes of the pair BTC, AAA with fee 0.7, alone and as a list |
| MarketWire.ShortMarket | book/market.c:51-73 | the bytes of every market with short names and a small fee: tags 10, 18 and 24, the lengths and the names |
| MarketWire.UnknownField | book/market.c:116-150 | the tag of an unknown field is stepped over without its payload |
| MarketWire.SendableIs | book/market.c:67 | the markets covered are all with fees from 0 to 2^64 thousandths |
| MarketWire.EncodeFits | book/market.c:19-25 | every encoded market fits in its estimate |
| MarketWire.EncodeListFits | book/market.c:32-40 | every encoded list fits in its estimate |
| MarketWire.ListEstimateGrows | book/market.c:32-40 | every market adds its names and 44 bytes to the estimate of a list |
| MarketWire.DecodeEncoded | book/market.c:51-153 | decoding an encoded market gives its names and its fee in whole thousandths |
| MarketWire.ListRoundTrip | book/market.c:83-210 | decoding an encoded list of any length gives the same markets in order |
| MarketWire.CutList | client/cgi_client.c:97 | a list cut behind its first k entries decodes to these, and one cut inside an entry to nothing |
| MarketWire.NoResultsIsEmpty | main/main.c:137 | the reply when there is no market is the text "No Results", and it decodes to no market |
| MarketWire.ClientListIsWhole | client/cgi_client.c:81-104 | the client holds the list sent, fees in thousandths, if and only if its encoding has at most 5000 bytes; otherwise it holds fewer markets |
| MarketWire.TooManyCoins | client/cgi_client.c:81-104 | 334 different pairs encode to 5010 bytes, of which the client makes no market at all |
| Markets.MarketEncodeSize | book/market.c:19-25 | computes the estimate the bound is proved about: both names and 33 bytes |
| Markets.ListEncodeSize | book/market.c:32-40 | walks the list and computes the estimate of the whole list |
| Markets.EncodeMarket | book/market.c:51-73 | succeeds exactly when the encoding fits the given room, and then the buffer holds it |
| Markets.EncodeEntry | book/market.c:89-98 | one market through a buffer of its estimated size into a record; succeeds exactly when the record fits |
| Markets.EncodeMarkets | book/market.c:83-102 | succeeds exactly when the encoding of the whole list fits, and then the buffer holds it |
| Markets.DecodeMarket | book/market.c:110-153 | gives a market exactly when the bytes decode, with that value, no market name and no least trade |
| Markets.DecodeEntry | book/market.c:167-199 | one turn of the list decoder: an entry's market, or for an unknown field none and twice the length of its tag, or failure |
| Markets.AppendMarket | book/market.c:188-194 | a market is linked behind the last node, and the list keeps its values |
| Markets.DecodeMarkets | book/market.c:161-210 | builds an acyclic list by its last node, holding exactly what the bytes decode to, or fails with them |
| Markets.Respond | main/main.c:52-67 | the reply is the encoding of the list, which never fails to fit its buffer, or "No Results" for no market |
| Markets.Receive | client/cgi_client.c:43-54 | the client's list is what the first 5000 bytes of the reply decode to, empty if they do not; its markets have no name and no least trade |
| Markets.Transfer | client/cgi_client.c:96-104 | the client's list is the server's, fees cut to thousandths, if and only if its encoding has at most 5000 bytes |
| Vendors.KeysMeet | book/vendor.c:43-47 | two records share a `base~market` key exactly when they are of one pair or one base continues the other behind a tilde, the market supplying the rest |
| Vendors.KeyInjective | book/vendor.c:43-47 | without tildes in base currencies the key identifies the pair |
| Vendors.FirstByKeyMeans | book/vendor.c:49-59 | the merged records are those that are first under their key in traversal order |
| Vendors.AllKeysKept | book/vendor.c:49-51 | with no more than 2^31 keys in all, every key has its record |
| Vendors.AddMarket | book/vendor.c:40-79 | one turn of the inner loop adds a copy of the record exactly when its key is new and the table is not full |
| Vendors.CopyOf | book/vendor.c:53-57 | the copy has both currencies and the fee of the record, NULL for its market name and 0 for its least trade |
| Vendors.AddMarkets | book/vendor.c:37-79 | a vendor's whole list is merged into the table |
| Vendors.LinkAll | book/vendor.c:83-97 | the bucket loop links every market of the table exactly once into an acyclic list |
| Vendors.AllTradingPairs | book/vendor.c:21-111 | for all vendors and any hash: an acyclic list of new nodes, no key twice, each with the names and fee of the first record of its key in traversal order, no market name and no least trade; every key is there if and only if there are no more than 2^31 |
| Vendors.MergesOnce | book/vendor.c:21-111 | the result lists only vendors' records and no pair twice |
| Vendors.MergesPairs | book/vendor.c:43-53 | the result has every vendor's pair if and only if no two records run together at a tilde |
| Vendors.MergesUntilded | book/vendor.c:43-53 | no pair is lost when base currencies have no tilde |
| Vendors.TildeLosesPair | book/vendor.c:43-53 | two concrete pairs of which the merge keeps only the first |
| Vendors.OnePairTooMany | book/vendor.c:49-51 | a list of records with one key more than a table can hold |
| TradingPairs.Request | client/cgi_client.c:43-104 | end to end: the client holds the merge of all vendors' records, in the server's order, fees cut to thousandths, if and only if its encoding has at most 5000 bytes |
| TradingPairs.ServeText | main/main.c:52-67 | from the text of a vendor's market document through parser, merge and wire to the client: every pair the parser lists, once, if and only if their encoding has at most 5000 bytes; of complete records the client then has, once, the active pairs, each with the base currency under "BaseCurrency", the market currency under "MarketCurrency" and the fee 0.7, and all of them unless a base has a tilde |
| Base64.ShiftsAreGroup | include/utils/base64.h:30-33 | the encoder's shifts and masks are the four six-bit groups of the standard's 24-bit group |
| Base64.CharIs | include/utils/base64.h:5-20 | each of the 64 values encodes to the character at its index of A-Z, a-z, 0-9, +, /, and that character decodes to it |
| Base64.RevCharIs | include/utils/base64.h:7-20 | any other character decodes to itself |
| Base64.EncodedAt | include/utils/base64.h:28-54 | for any bytes, every four characters of the encoding are the letters of the next three bytes taken as a 24-bit number, completed with zeros, with "=" in place of letters for missing bytes |
| Base64.PadsAreExact | include/utils/base64.h:40-54 | an encoding of n bytes ends in exactly (3 - n mod 3) mod 3 characters "=" and has no other |
| Base64.Vectors | include/utils/base64.h:22-57 | the test vectors of RFC 4648 (section 10) for "f", "fo" and "foo"; the byte 77 gives TQ== |
| Base64.ForeignCharacters | include/utils/base64.h:62-91 | what four, three, two and one characters 250 decode to |
| Base64.EncodedLength | include/utils/base64.h:40-56 | an encoding has four characters for every three bytes begun |
| Base64.Encode | include/utils/base64.h:22-57 | the buffer holds the standard's encoding, terminated, with its exact padding, and its length is returned |
| Base64.Decode | include/utils/base64.h:62-91 | the buffer holds the decoding of the text without at most two pads, each byte cut to eight bits, for alphabet and other characters alike |
| Base64.RoundTrip | include/utils/base64.h:22-91 | decoding an encoding gives the bytes back, with one zero byte more unless they came in threes; the returned length is theirs exactly when three divides it |
| Refresh.StepKeeps | book/vendor.c:151-170 | every step of the updater, the clock or a reader keeps the invariant of lists, updater, balance and leases |
| Refresh.NeverFreedTooEarly | book/vendor.c:158-162 | in every run no current list is freed, none is freed twice, and each only 180 ticks or more after it was replaced |
| Refresh.ReadersAreSafe | book/vendor.c:37 | in every run a reader that took its list less than 180 ticks ago does not hold a freed one |
| Refresh.NothingLeaks | book/vendor.c:158-162 | in every run all lists fetched but at most two are freed |
| Refresh.GraceIsExact | book/vendor.c:152-169 | some run frees a list that a reader took exactly 180 ticks ago, so the bound is sharp |
| JsonCursor.Find | utils/json.c:20-34 | the first string token equal to the tag from a position on, or -1 when there is none |
| JsonCursor.FindToken | utils/json.c:20-34 | the scanning loop computes that position |
| JsonCursor.Value | utils/json.c:46-52 | a value found stands strictly behind the position searched from |
| JsonCursor.ValueIs | utils/json.c:20-57 | a value is found at a position exactly when that stands right behind the first string equal to the tag and has the wanted kind |
| JsonCursor.GetString | utils/json.c:46-67 | the text of the string behind the key; or 0, with NULL for a primitive in its place and the result untouched otherwise |
| JsonCursor.GetInt | utils/json.c:79-102 | "true" gives 1, "false" and "null" give 0, any other primitive atoi of its text; 0 with the result untouched when there is none |
| JsonCursor.GetDouble | utils/json.c:114-137 | "true" gives 1, "false" and "null" give 0, any other primitive atof of its text; 0 with the result untouched when there is none |
| Bittrex.AddBids | book/bittrex.c:133-157 | the first loop builds an acyclic list of exactly the levels whose rate stands before "sell" |
| Bittrex.AppendBid | book/bittrex.c:145-156 | a bid becomes a new last node, the earlier ones unchanged |
| Bittrex.PlaceAsk | book/bittrex.c:170-183 | an ask goes into the current node or a new last node and keeps list, bids and earlier asks |
| Bittrex.AddAsks | book/bittrex.c:158-184 | the second loop zips the levels from "sell" on into that list, appending where the bids run out |
| Bittrex.ParseBook | book/bittrex.c:113-186 | the list has as many nodes as the longer side; node i has the i-th bid and the i-th ask, and zeros for a missing side |
| Bittrex.ReadMarket | book/bittrex.c:61-101 | five values, each right behind the first string with its key from the last one on, become market currency, base currency, least trade, market name and activity, with the fee 0.7; or 0 when one is not found or has another kind |
| Bittrex.CollectMarkets | book/bittrex.c:59-110 | the loop ends, and its list has the active entries read, in order, up to the first that cannot be read |
| Bittrex.ParseMarkets | book/bittrex.c:40-111 | the whole market parser, empty unless the text reports success |
| LabelledDocs.JsonParse | utils/json.c:6-10 | for any text the count and the tokens of a parse with 65535 tokens, or a negative count |
| LabelledDocs.TextIsLabelled | utils/json.c:6-10 | for every JSON text that leaves one token free, the tokens carry the kinds and texts of its nodes |
| KeyRows.FindsField | utils/json.c:20-34 | a key is found in the first row from there on that has it, or not before the given end |
| KeyRows.ReadsField | utils/json.c:46-137 | a field is read if and only if the first row that has its key has it with the right kind, and then with its text |
| KeyRows.RowsShown | utils/json.c:20-34 | the keys in any labels fall into rows: each goes on as long as the keys come in the order they are looked for |
| KeyTrees.SuccessFound | book/bittrex.c:126-131 | "success" is reported exactly when the first such string is followed by a primitive that is not 0 |
| KeyTrees.MembersShown | utils/json.c:20-34 | an object whose members have the keys in order, among others, is one row with their values |
| BookText.ReadsBids | book/bittrex.c:136-157 | the bids are the levels read from the rows before "sell" |
| BookText.ReadsAsks | book/bittrex.c:159-184 | the asks are the levels read from the rows behind it |
| BookText.AnyBookReads | book/bittrex.c:127-184 | for the tokens of any JSON text with "sell" behind "success", bids and asks are the levels of the rows before and behind "sell" |
| BookText.DocumentReads | book/bittrex.c:127-184 | the tokens of an order-book document, with any other members and nesting, read as its bids and its asks; a message "Quantity" costs the bids, a message "sell" turns them into asks |
| BookText.PlainestIsDocument | book/bittrex.c:113-186 | the object with members success, message and result, result with buy and sell, is such a document |
| BookText.PricesAre | utils/json.c:114-137 | the price of a level is atof of its quantity and of its rate; true stands for 1, false and null for 0 |
| BookText.SellMessageLosesBids | book/bittrex.c:133-136 | with the message "sell" no bid is read and every bid is read as an ask |
| BookText.ShowsDocument | book/bittrex.c:133-184 | the list shows the document if and only if there are no bids, or the message is neither word, or every bid has the price of a missing one and the asks keep their places |
| BookText.ParseBookText | book/bittrex.c:113-186 | from any JSON text to the list that pairs the levels of the rows before and behind "sell", or none without success |
| BookText.ParseBookDocument | book/bittrex.c:113-186 | from the text of any order-book document, however spaced and with any message, to the list, which has the i-th bid and the i-th ask in node i if and only if the condition of ShowsDocument holds; in particular with another message the four fields of node i are what atof makes of the quantity and rate of bid i and of ask i, and 0 where there is none |
| MarketRecords.AllComplete | book/bittrex.c:59-110 | of complete records the parser lists the active ones, in order |
| MarketRecords.ActivesList | book/bittrex.c:59-110 | listing i has, of the i-th record whose activity is the word true or a number that is not 0, the market currency, base currency, least trade and name, and the fee 0.7 |
| MarketRecords.ReadingNeedsSupply | book/bittrex.c:66-100 | an entry is read if and only if, key by key, the next record that has the key has it with the right kind |
| MarketRecords.SupplyBleeds | book/bittrex.c:66-100 | the fields of an entry begun at an incomplete record come from it up to the key it lacks and from later records from there on |
| MarketRecords.EndsOrBleeds | book/bittrex.c:60-110 | the first incomplete record ends the list, or is completed by later records, exactly as they supply its fields |
| MarketRecords.OddEnds | utils/json.c:52-57 | a field of another kind, such as null, ends the list with the active records before it |
| MarketRecords.LastMissingEnds | book/bittrex.c:66-100 | so does a key that no record from there on has |
| MarketRecords.StopsAtBreak | book/bittrex.c:60-110 | with any number of incomplete records the list stops at the first of them if and only if no entry begun there or later is supplied with an active "IsActive"; in particular if its field has another kind or no later record has one |
| MarketRecords.OneIncomplete | book/bittrex.c:60-110 | the whole list when exactly one record is incomplete: the next record is swallowed into one mixed listing |
| MarketRecords.StopsAtIncomplete | book/bittrex.c:60-110 | with exactly one, the list stops there if and only if its field has another kind or no later record is active |
| MarketRecords.MixesTwoRecords | book/bittrex.c:60-110 | two records, the first without a market name, give one listing, written out, made of both |
| MarketText.ReadsEntry | book/bittrex.c:66-100 | an entry is read from the tokens exactly as from the records |
| MarketText.DocumentReads | book/bittrex.c:54-110 | from the tokens of any market document the parser collects what the records supply |
| MarketText.AnyDocumentReads | book/bittrex.c:54-110 | from the tokens of any JSON text it collects what the rows of its keys supply, whatever their order and whether they are keys or other strings |
| MarketText.MixesDocument | book/bittrex.c:60-110 | a document on which the parser lists one market, written out, that is not there and misses one that is |
| MarketText.ListingsBounded | book/bittrex.c:60-110 | there are fewer listings than tokens, and their names are no longer than the text |
| MarketText.ParseMarketText | book/bittrex.c:40-111 | for any text: no market if it cannot be parsed, otherwise the listings read from its tokens |
| MarketText.ParseMarketDocument | book/bittrex.c:40-111 | from any JSON text to the list of what the rows of its keys supply; from any market document to that of what its records supply; of complete records exactly the active ones, in order, node i with the five fields of record i |

## Left out

- Sockets, apart from the client's single read of 5000 bytes: a read that gets less of the reply than has been sent is not modelled. HTTP, TLS, hashing, signatures, the websocket buffer, logging, URL building and order placing.
- The btc38 and Poloniex parsers: their index arithmetic does not give the zip the Bittrex book parser gives.
- The strict and parent-link branches of jsmn, which are not compiled, and the newline flag of base64, which is not used.
- Failing allocations: every `malloc` and `realloc` succeeds. `realloc` gives new arrays with the same prefix, and NULL arrays are arrays of length 0.
- The hash and equality functions of khash: the hash is an arbitrary function, and keys are values compared by equality, so freeing stored key strings has no counterpart.
- Waiting for a vendor's first update, and a record whose names are NULL, on which the merge would crash.
- JsmnParsing.Parser.Parse: positions and counts are unbounded, so texts of 2^31 characters or more, where C's `int` overflows, are not covered.
- JsonText.TokenizesEveryText: lexemes and string bodies are those jsmn takes, which are more than RFC 8259 allows: any run of printable characters as a primitive, control characters in strings; JsonGrammar.TokenizesJson is the statement for the texts of RFC 8259, without NUL. Bytes from 127 on count as characters outside primitives only, as with C's signed `char`.
- The `protobuf_*` functions are not part of this repository; they are modelled on the Protocol Buffers "Encoding" document (sections "Base 128 Varints", "Message Structure", "Length-Delimited Records") with a capacity check on every write.
- Markets.DecodeMarket: a tag is decoded from the bytes that are left, although line 119 of book/market.c passes the length of the whole buffer. A tag that the contract reads is read the same (Protobuf.ReadTagStays); one cut off by the end of the message, where the contract says failure, is read on outside the message by the code.
- Markets.DecodeMarkets: the same at line 171, for the tags of the list.
- Markets.DecodeEntry: the same.
- Markets.EncodeMarket: a fee is a real number, not negative, with fewer than 2^64 thousandths, so rounding of doubles is not modelled; names are bytes without terminator, all shorter than 2^64.
- Base64.Decode: requires at least one character, and more than a single pad, because the code reads the last one and then the one before it.
- Refresh.ReadersAreSafe: covers the time before shutdown; stopping and joining the thread is not modelled, and a sleep takes at least one tick.
- JsonCursor.FindToken: requires one array element behind the filled tokens, because the getters read it when a key is the last token; `atoi` and `atof` are parameters.
- Bittrex.ParseBook: requires that "sell" is found once "success" is true; otherwise the code indexes the array with -1.
- BookText.ParseBookText: "sell" has to stand behind "success", as above, and the last string of the text must not be a key looked for, because the code then reads a token that was never filled. BookText.ParseBookDocument does not need the latter.
- MarketText.ParseMarketText: the text has to leave one of the 65535 tokens free, as above.
- MarketText.ParseMarketDocument: what the rows of any text supply is stated for texts whose last string is no key, for the same reason.
- TradingPairs.ServeText: one vendor, and a text shorter than 2^31 characters; characters are bytes.
